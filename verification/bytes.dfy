/** Fixed-width unsigned integers and the byte helpers every codec shares:
    big-endian 16- and 32-bit access and two-digit BCD. */
module Bytes {

  type uint8 = x: int | 0 <= x < 0x100
  type uint16 = x: int | 0 <= x < 0x1_0000
  type uint32 = x: int | 0 <= x < 0x1_0000_0000

  /** The big-endian 16-bit value stored at `s[i..i+2]`. */
  function GetUInt16(s: seq<uint8>, i: nat): uint16
    requires i + 2 <= |s|
  {
    s[i] as int * 0x100 + s[i + 1]
  }

  /** The big-endian 2-byte form of `v`; reading it back yields `v`. */
  function PutUInt16(v: uint16): (s: seq<uint8>)
    ensures |s| == 2
    ensures GetUInt16(s, 0) == v
  {
    [v / 0x100, v % 0x100]
  }

  /** Writing back the value read at `i` reproduces the two bytes read. */
  lemma GetPutUInt16(s: seq<uint8>, i: nat)
    requires i + 2 <= |s|
    ensures PutUInt16(GetUInt16(s, i)) == s[i..i + 2]
  {
  }

  /** A value below `0x1_0000 * 0x1_0000` is its high and low 16-bit
      halves. */
  lemma Halves(hi: uint16, lo: uint16)
    ensures (hi * 0x1_0000 + lo) / 0x1_0000 == hi
    ensures (hi * 0x1_0000 + lo) % 0x1_0000 == lo
  {
  }

  /** The big-endian 32-bit value stored at `s[i..i+4]`: the first byte is
      the most significant. */
  function GetUInt32(s: seq<uint8>, i: nat): (v: uint32)
    requires i + 4 <= |s|
    ensures v == ((s[i] as int * 0x100 + s[i + 1]) * 0x100 + s[i + 2]) * 0x100 + s[i + 3]
    ensures v / 0x1_0000 == GetUInt16(s, i) && v % 0x1_0000 == GetUInt16(s, i + 2)
  {
    Halves(GetUInt16(s, i), GetUInt16(s, i + 2));
    GetUInt16(s, i) * 0x1_0000 + GetUInt16(s, i + 2)
  }

  /** The big-endian 4-byte form of `v`; reading it back yields `v`. */
  function PutUInt32(v: uint32): (s: seq<uint8>)
    ensures |s| == 4
    ensures GetUInt32(s, 0) == v
  {
    var hi, lo := v / 0x1_0000, v % 0x1_0000;
    var s := PutUInt16(hi) + PutUInt16(lo);
    assert s[..2] == PutUInt16(hi) && s[2..] == PutUInt16(lo);
    assert GetUInt16(s, 0) == hi && GetUInt16(s, 2) == lo;
    s
  }

  /** Writing back the value read at `i` reproduces the four bytes read. */
  lemma GetPutUInt32(s: seq<uint8>, i: nat)
    requires i + 4 <= |s|
    ensures PutUInt32(GetUInt32(s, i)) == s[i..i + 4]
  {
    Halves(GetUInt16(s, i), GetUInt16(s, i + 2));
    GetPutUInt16(s, i);
    GetPutUInt16(s, i + 2);
    assert s[i..i + 4] == s[i..i + 2] + s[i + 2..i + 4];
  }

  /** Both nibbles of `b` are decimal digits. */
  predicate IsBCD(b: uint8) {
    b / 0x10 < 10 && b % 0x10 < 10
  }

  /** A byte is its high and low nibbles. */
  lemma Nibbles(hi: nat, lo: nat)
    requires hi < 0x10 && lo < 0x10
    ensures (hi * 0x10 + lo) / 0x10 == hi && (hi * 0x10 + lo) % 0x10 == lo
  {
  }

  /** A number below 100 is its tens and units digits. */
  lemma Digits(tens: nat, units: nat)
    requires tens < 10 && units < 10
    ensures (tens * 10 + units) / 10 == tens && (tens * 10 + units) % 10 == units
  {
  }

  /** The last two decimal digits of `i`. */
  lemma LastTwoDigits(i: nat)
    ensures i % 100 == ((i / 10) % 10) * 10 + i % 10
  {
    var q := i / 100;
    var r := i % 100;
    assert i == 100 * q + r;
    Digits(r / 10, r % 10);
    assert i / 10 == 10 * q + r / 10;
    assert i % 10 == r % 10;
  }

  /** Two-digit BCD: tens in the high nibble, units in the low nibble.
      Like TSDuck's `EncodeBCD`, digits above the tens are dropped. */
  function EncodeBCD(i: nat): (b: uint8)
    ensures IsBCD(b)
    ensures DecodeBCD(b) == i % 100
  {
    var tens, units := (i / 10) % 10, i % 10;
    Nibbles(tens, units);
    LastTwoDigits(i);
    tens * 0x10 + units
  }

  /** TSDuck's `DecodeBCD`: high nibble times ten plus low nibble, with
      no check that the nibbles are decimal digits. */
  function DecodeBCD(b: uint8): nat
  {
    (b / 0x10) * 10 + b % 0x10
  }

  /** Re-encoding a decoded BCD byte gives the byte back exactly when both
      nibbles are decimal digits. */
  lemma EncodeDecodeBCD(b: uint8)
    ensures EncodeBCD(DecodeBCD(b)) == b <==> IsBCD(b)
  {
    if IsBCD(b) {
      var hi, lo := b / 0x10, b % 0x10;
      Digits(hi, lo);
      assert b == hi * 0x10 + lo;
    }
  }
}

/** The optional value used for decodings that can fail. */
module Options {

  datatype Option<+T> = None | Some(value: T)
}
