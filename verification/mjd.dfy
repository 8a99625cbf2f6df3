/** Modified Julian Date: the 2 to 5 byte DVB time form (ETSI EN 300 468,
    Annex C), a 16-bit day number since the MJD epoch followed by up to
    three BCD bytes for hours, minutes and seconds, converted to and from an
    absolute time counted in milliseconds. */
module MJD {
  import opened Bytes

  /** The two constants of the time class the codec relies on, in
      milliseconds: `epoch` is the time origin and `julianEpochOffset` is the
      MJD epoch minus that origin, which may be of either sign. */
  datatype TimeBase = TimeBase(epoch: int, julianEpochOffset: int)

  /** The only buffer sizes the codec accepts. */
  predicate ValidSize(size: nat) {
    2 <= size <= 5
  }

  function Max(a: int, b: int): int {
    if a < b then b else a
  }

  /** Milliseconds since the MJD epoch held in the first `size` bytes: the
      day number, then whichever of hours, minutes and seconds are present.
      BCD bytes are decoded without any range check. Times are counted in
      milliseconds throughout, as TSDuck's `MilliSecond` values. */
  function MjdMilliseconds(mjd: seq<uint8>, size: nat): (ms: nat)
    requires ValidSize(size) && size <= |mjd|
    ensures ms >= GetUInt16(mjd, 0) * 86_400_000
    ensures FieldsInRange(mjd, size) ==> ms < GetUInt16(mjd, 0) * 86_400_000 + 86_400_000
  {
    GetUInt16(mjd, 0) * 86_400_000
    + (if size >= 3 then DecodeBCD(mjd[2]) * 3_600_000 else 0)
    + (if size >= 4 then DecodeBCD(mjd[3]) * 60_000 else 0)
    + (if size >= 5 then DecodeBCD(mjd[4]) * 1000 else 0)
  }

  /** TSDuck's `DecodeMJD`: the flag it returns and the resulting time.
      A bad size fails and leaves `time` untouched; an MJD time earlier than
      the time origin is clamped to the origin and still succeeds. */
  function DecodeMJD(tb: TimeBase, mjd: seq<uint8>, size: nat, time: int): (r: (bool, int))
    requires ValidSize(size) ==> size <= |mjd|
    ensures r.0 <==> ValidSize(size)
    ensures !r.0 ==> r.1 == time
    ensures r.0 ==> r.1 >= tb.epoch
    ensures r.0 ==> r.1 == Max(tb.epoch, tb.epoch + tb.julianEpochOffset + MjdMilliseconds(mjd, size))
  {
    if !ValidSize(size) then (false, time)
    else
      var ms := MjdMilliseconds(mjd, size);
      if tb.julianEpochOffset >= 0 || ms >= -tb.julianEpochOffset then
        (true, tb.epoch + (ms + tb.julianEpochOffset))
      else
        (true, tb.epoch)
  }

  /** Whole seconds from the MJD epoch to `time`, rounded down. */
  function SecondsSinceMjdEpoch(tb: TimeBase, time: int): nat
    requires time - tb.epoch >= tb.julianEpochOffset
  {
    (time - tb.epoch - tb.julianEpochOffset) / 1000
  }

  /** What the buffer must hold for TSDuck's writes to stay inside it:
      `size` bytes, or 5 when the time is before the MJD epoch, since that
      path clears 5 bytes whatever the size. */
  predicate EncodeBufferFits(tb: TimeBase, time: int, mjd: seq<uint8>, size: nat) {
    ValidSize(size) ==> |mjd| >= (if time - tb.epoch < tb.julianEpochOffset then 5 else size)
  }

  /** A number below 100 is its own two BCD digits. */
  lemma SmallBCD(i: nat)
    requires i < 100
    ensures IsBCD(EncodeBCD(i)) && DecodeBCD(EncodeBCD(i)) == i
  {
  }

  /** The buffer after a successful encoding: only the first `size` of the
      five MJD bytes are written over it. */
  function WriteFields(day: uint16, h: nat, m: nat, sec: nat, mjd: seq<uint8>, size: nat): (out: seq<uint8>)
    requires ValidSize(size) && size <= |mjd|
    requires h < 24 && m < 60 && sec < 60
    ensures |out| == |mjd|
    ensures out[size..] == mjd[size..]
    ensures GetUInt16(out, 0) == day
    ensures size >= 3 ==> out[2] == EncodeBCD(h)
    ensures size >= 4 ==> out[3] == EncodeBCD(m)
    ensures size >= 5 ==> out[4] == EncodeBCD(sec)
  {
    var full := PutUInt16(day) + [EncodeBCD(h), EncodeBCD(m), EncodeBCD(sec)];
    var out := full[..size] + mjd[size..];
    assert out[..2] == PutUInt16(day);
    assert GetUInt16(out, 0) == GetUInt16(PutUInt16(day), 0);
    out
  }

  /** TSDuck's `EncodeMJD`: the flag it returns and the buffer after the
      call. */
  function EncodeMJD(tb: TimeBase, time: int, mjd: seq<uint8>, size: nat): (r: (bool, seq<uint8>))
    requires EncodeBufferFits(tb, time, mjd, size)
    ensures |r.1| == |mjd|
    ensures !ValidSize(size) ==> r == (false, mjd)
    ensures ValidSize(size) ==> (r.0 <==> time - tb.epoch >= tb.julianEpochOffset)
    ensures ValidSize(size) && !r.0 ==> r.1[..5] == [0, 0, 0, 0, 0] && r.1[5..] == mjd[5..]
    ensures r.0 ==> r.1[size..] == mjd[size..]
    ensures r.0 ==> GetUInt16(r.1, 0) == (SecondsSinceMjdEpoch(tb, time) / 86400) % 0x1_0000
    ensures r.0 && size >= 3 ==> IsBCD(r.1[2]) && DecodeBCD(r.1[2]) == (SecondsSinceMjdEpoch(tb, time) / 3600) % 24
    ensures r.0 && size >= 4 ==> IsBCD(r.1[3]) && DecodeBCD(r.1[3]) == (SecondsSinceMjdEpoch(tb, time) / 60) % 60
    ensures r.0 && size >= 5 ==> IsBCD(r.1[4]) && DecodeBCD(r.1[4]) == SecondsSinceMjdEpoch(tb, time) % 60
  {
    if !ValidSize(size) then (false, mjd)
    else if time - tb.epoch < tb.julianEpochOffset then (false, [0, 0, 0, 0, 0] + mjd[5..])
    else
      var d := SecondsSinceMjdEpoch(tb, time);
      var h, m, sec := (d / 3600) % 24, (d / 60) % 60, d % 60;
      SmallBCD(h);
      SmallBCD(m);
      SmallBCD(sec);
      (true, WriteFields((d / 86400) % 0x1_0000, h, m, sec, mjd, size))
  }

  /** TSDuck's clearing of a buffer before the MJD epoch writes 5 bytes
      whatever the size: for a time one second before the epoch, a 2-byte
      MJD clears the three bytes that follow it. */
  lemma EncodeMJDClearsPastSize()
    ensures EncodeMJD(TimeBase(0, 1000), 0, [1, 1, 1, 1, 1], 2) == (false, [0, 0, 0, 0, 0])
  {
    var mjd: seq<uint8> := [1, 1, 1, 1, 1];
    assert mjd[5..] == [];
    assert [0, 0, 0, 0, 0] + mjd[5..] == [0, 0, 0, 0, 0];
  }

  /** For any size below 5 and any time before the MJD epoch, the bytes
      from `size` to 5, which lie outside the MJD, are cleared. */
  lemma EncodeMJDClearsPast(tb: TimeBase, time: int, mjd: seq<uint8>, size: nat)
    requires ValidSize(size) && size < 5 && |mjd| >= 5
    requires time - tb.epoch < tb.julianEpochOffset
    ensures EncodeMJD(tb, time, mjd, size).1[size..5] == seq(5 - size, _ => 0)
  {
    var r := EncodeMJD(tb, time, mjd, size).1;
    assert r[..5] == [0, 0, 0, 0, 0];
    assert r[size..5] == r[..5][size..];
  }

  /** `EncodeMJD` with the clearing kept inside the `size` bytes of the MJD:
      it never writes past them, clears them on a time before the MJD
      epoch, and otherwise writes what `EncodeMJD` writes. */
  function EncodeMJDInBuffer(tb: TimeBase, time: int, mjd: seq<uint8>, size: nat): (r: (bool, seq<uint8>))
    requires ValidSize(size) ==> size <= |mjd|
    ensures |r.1| == |mjd|
    ensures !ValidSize(size) ==> r == (false, mjd)
    ensures ValidSize(size) ==> r.1[size..] == mjd[size..]
    ensures ValidSize(size) ==> (r.0 <==> time - tb.epoch >= tb.julianEpochOffset)
    ensures ValidSize(size) && !r.0 ==> forall i :: 0 <= i < size ==> r.1[i] == 0
    ensures r.0 ==> EncodeBufferFits(tb, time, mjd, size) && r == EncodeMJD(tb, time, mjd, size)
  {
    if !ValidSize(size) then (false, mjd)
    else if time - tb.epoch < tb.julianEpochOffset then (false, seq(size, _ => 0) + mjd[size..])
    else EncodeMJD(tb, time, mjd, size)
  }

  /** Seconds per unit of the finest field present in a `size`-byte MJD:
      days, hours, minutes or seconds. */
  function Resolution(size: nat): nat
    requires ValidSize(size)
  {
    if size == 2 then 86400 else if size == 3 then 3600 else if size == 4 then 60 else 1
  }

  /** `s` rounded down to a multiple of the resolution of a `size`-byte
      MJD. */
  function RoundDown(s: nat, size: nat): (t: nat)
    requires ValidSize(size)
    ensures t <= s < t + Resolution(size)
    ensures t % Resolution(size) == 0
  {
    if size == 2 then DivMod86400(s, s / 86400, s % 86400); DivMod86400((s / 86400) * 86400, s / 86400, 0); (s / 86400) * 86400
    else if size == 3 then DivMod3600(s, s / 3600, s % 3600); DivMod3600((s / 3600) * 3600, s / 3600, 0); (s / 3600) * 3600
    else if size == 4 then DivMod60(s, s / 60, s % 60); DivMod60((s / 60) * 60, s / 60, 0); (s / 60) * 60
    else s
  }

  /** `time` rounded down, relative to the MJD epoch, to the resolution of a
      `size`-byte MJD. */
  function Truncated(tb: TimeBase, time: int, size: nat): int
    requires ValidSize(size) && time - tb.epoch >= tb.julianEpochOffset
  {
    tb.epoch + tb.julianEpochOffset + RoundDown(SecondsSinceMjdEpoch(tb, time), size) * 1000
  }

  /** Division with a known quotient and remainder, one lemma per divisor
      so that each stays linear. */
  lemma DivMod24(x: int, q: int, r: int)
    requires 0 <= r < 24 && x == 24 * q + r
    ensures x / 24 == q && x % 24 == r
  {
  }

  lemma DivMod60(x: int, q: int, r: int)
    requires 0 <= r < 60 && x == 60 * q + r
    ensures x / 60 == q && x % 60 == r
  {
  }

  lemma DivMod3600(x: int, q: int, r: int)
    requires 0 <= r < 3600 && x == 3600 * q + r
    ensures x / 3600 == q && x % 3600 == r
  {
  }

  lemma DivMod86400(x: int, q: int, r: int)
    requires 0 <= r < 86400 && x == 86400 * q + r
    ensures x / 86400 == q && x % 86400 == r
  {
  }

  /** Hours are days and the hour of the day; minutes are hours and the
      minute of the hour; seconds are minutes and the second of the minute. */
  lemma SplitSeconds(s: nat)
    ensures s / 3600 == 24 * (s / 86400) + (s / 3600) % 24
    ensures s / 60 == 60 * (s / 3600) + (s / 60) % 60
    ensures s == 60 * (s / 60) + s % 60
  {
    var d, r := s / 86400, s % 86400;
    DivMod3600(s, 24 * d + r / 3600, r % 3600);
    DivMod24(s / 3600, d, r / 3600);
    var q, r2 := s / 3600, s % 3600;
    DivMod60(s, 60 * q + r2 / 60, r2 % 60);
    DivMod60(s / 60, q, r2 / 60);
  }

  /** The milliseconds encoded by the day, hour, minute and second fields of
      a second count, cut to `size` bytes, are that count rounded down to
      the resolution of `size`. */
  lemma FieldsMilliseconds(s: nat, size: nat)
    requires ValidSize(size)
    ensures (s / 86400) * 86_400_000
            + (if size >= 3 then ((s / 3600) % 24) * 3_600_000 else 0)
            + (if size >= 4 then ((s / 60) % 60) * 60_000 else 0)
            + (if size >= 5 then (s % 60) * 1000 else 0)
            == RoundDown(s, size) * 1000
  {
    SplitSeconds(s);
    var day, h, m, sec := s / 86400, (s / 3600) % 24, (s / 60) % 60, s % 60;
    var hours, minutes := s / 3600, s / 60;
    if size == 3 {
      assert hours * 3600 * 1000 == day * 86_400_000 + h * 3_600_000;
    } else if size == 4 {
      assert minutes == 60 * (24 * day + h) + m;
      assert minutes * 60 * 1000 == day * 86_400_000 + h * 3_600_000 + m * 60_000;
    } else if size == 5 {
      assert s == 60 * (60 * (24 * day + h) + m) + sec;
    }
  }

  /** Decoding an encoded time gives it back rounded down to the resolution
      of the MJD size, or the time origin if that rounding falls before it,
      provided the day number fits 16 bits. */
  lemma DecodeEncode(tb: TimeBase, time: int, mjd: seq<uint8>, size: nat, other: int)
    requires ValidSize(size) && size <= |mjd|
    requires time - tb.epoch >= tb.julianEpochOffset
    requires SecondsSinceMjdEpoch(tb, time) / 86400 < 0x1_0000
    ensures var e := EncodeMJD(tb, time, mjd, size);
            e.0 && DecodeMJD(tb, e.1, size, other) == (true, Max(tb.epoch, Truncated(tb, time, size)))
  {
    var s := SecondsSinceMjdEpoch(tb, time);
    var e := EncodeMJD(tb, time, mjd, size).1;
    EncodedMilliseconds(tb, time, mjd, size);
  }

  /** The milliseconds an encoded buffer denotes are the elapsed seconds
      rounded down to the resolution of its size. */
  lemma EncodedMilliseconds(tb: TimeBase, time: int, mjd: seq<uint8>, size: nat)
    requires ValidSize(size) && size <= |mjd|
    requires time - tb.epoch >= tb.julianEpochOffset
    requires SecondsSinceMjdEpoch(tb, time) / 86400 < 0x1_0000
    ensures MjdMilliseconds(EncodeMJD(tb, time, mjd, size).1, size)
            == RoundDown(SecondsSinceMjdEpoch(tb, time), size) * 1000
  {
    var s := SecondsSinceMjdEpoch(tb, time);
    var e := EncodeMJD(tb, time, mjd, size).1;
    DayFits(s / 86400, GetUInt16(e, 0));
    FieldsOfSeconds(e, size, s);
    FieldsMilliseconds(s, size);
  }

  /** A day count below 65536 is not changed by the 16-bit truncation. */
  lemma DayFits(day: nat, stored: uint16)
    requires day < 0x1_0000 && stored == day % 0x1_0000
    ensures stored == day
  {
  }

  /** The milliseconds of a buffer whose fields hold the days, hours, minutes
      and seconds of `s`. */
  lemma FieldsOfSeconds(e: seq<uint8>, size: nat, s: nat)
    requires ValidSize(size) && size <= |e|
    requires GetUInt16(e, 0) == s / 86400
    requires size >= 3 ==> DecodeBCD(e[2]) == (s / 3600) % 24
    requires size >= 4 ==> DecodeBCD(e[3]) == (s / 60) % 60
    requires size >= 5 ==> DecodeBCD(e[4]) == s % 60
    ensures MjdMilliseconds(e, size)
            == (s / 86400) * 86_400_000
               + (if size >= 3 then ((s / 3600) % 24) * 3_600_000 else 0)
               + (if size >= 4 then ((s / 60) % 60) * 60_000 else 0)
               + (if size >= 5 then (s % 60) * 1000 else 0)
  {
  }

  /** Seconds since the MJD epoch that an in-range MJD buffer denotes. */
  lemma FieldsSeconds(s: nat, day: nat, h: nat, m: nat, sec: nat)
    requires h < 24 && m < 60 && sec < 60
    requires s == day * 86400 + h * 3600 + m * 60 + sec
    ensures s / 86400 == day && (s / 3600) % 24 == h && (s / 60) % 60 == m && s % 60 == sec
  {
    var hours := 24 * day + h;
    var minutes := 60 * hours + m;
    DivMod60(s, minutes, sec);
    DivMod60(minutes, hours, m);
    DivMod3600(s, hours, 60 * m + sec);
    DivMod24(hours, day, h);
    DivMod86400(s, day, 3600 * h + 60 * m + sec);
  }

  /** Encoding a time whose second count splits into the given fields
      writes exactly those fields. */
  lemma EncodeOfFields(tb: TimeBase, t: int, mjd: seq<uint8>, size: nat, day: uint16, h: nat, m: nat, sec: nat)
    requires ValidSize(size) && size <= |mjd| && t - tb.epoch >= tb.julianEpochOffset
    requires h < 24 && m < 60 && sec < 60
    requires SecondsSinceMjdEpoch(tb, t) == day * 86400 + h * 3600 + m * 60 + sec
    ensures var r := EncodeMJD(tb, t, mjd, size);
            && r.0 && GetUInt16(r.1, 0) == day
            && (size >= 3 ==> IsBCD(r.1[2]) && DecodeBCD(r.1[2]) == h)
            && (size >= 4 ==> IsBCD(r.1[3]) && DecodeBCD(r.1[3]) == m)
            && (size >= 5 ==> IsBCD(r.1[4]) && DecodeBCD(r.1[4]) == sec)
  {
    FieldsSeconds(SecondsSinceMjdEpoch(tb, t), day, h, m, sec);
  }

  /** Hours, minutes and seconds present in the first `size` bytes are valid
      BCD within 0..23, 0..59 and 0..59. */
  predicate FieldsInRange(mjd: seq<uint8>, size: nat)
    requires ValidSize(size) && size <= |mjd|
  {
    && (size >= 3 ==> IsBCD(mjd[2]) && DecodeBCD(mjd[2]) < 24)
    && (size >= 4 ==> IsBCD(mjd[3]) && DecodeBCD(mjd[3]) < 60)
    && (size >= 5 ==> IsBCD(mjd[4]) && DecodeBCD(mjd[4]) < 60)
  }

  /** Two BCD bytes with the same value are the same byte. */
  lemma SameBCD(a: uint8, b: uint8)
    requires IsBCD(a) && IsBCD(b) && DecodeBCD(a) == DecodeBCD(b)
    ensures a == b
  {
    EncodeDecodeBCD(a);
    EncodeDecodeBCD(b);
  }

  /** Whole seconds since the MJD epoch held in the first `size` bytes. */
  function BufferSeconds(mjd: seq<uint8>, size: nat): (s: nat)
    requires ValidSize(size) && size <= |mjd|
    ensures s * 1000 == MjdMilliseconds(mjd, size)
  {
    GetUInt16(mjd, 0) * 86400
    + (if size >= 3 then DecodeBCD(mjd[2]) * 3600 else 0)
    + (if size >= 4 then DecodeBCD(mjd[3]) * 60 else 0)
    + (if size >= 5 then DecodeBCD(mjd[4]) else 0)
  }

  /** A decoded time that was not clamped lies a whole number of seconds
      after the MJD epoch: those the buffer holds. */
  lemma DecodedSeconds(tb: TimeBase, mjd: seq<uint8>, size: nat, time: int)
    requires ValidSize(size) && size <= |mjd|
    requires tb.julianEpochOffset >= 0 || MjdMilliseconds(mjd, size) >= -tb.julianEpochOffset
    ensures var t := DecodeMJD(tb, mjd, size, time).1;
            t - tb.epoch >= tb.julianEpochOffset && SecondsSinceMjdEpoch(tb, t) == BufferSeconds(mjd, size)
  {
    var s := BufferSeconds(mjd, size);
    var t := DecodeMJD(tb, mjd, size, time).1;
    assert t - tb.epoch - tb.julianEpochOffset == s * 1000;
  }

  /** Re-encoding a decoded MJD buffer with in-range fields into the same
      buffer leaves it unchanged, unless decoding clamped the time. */
  lemma EncodeDecode(tb: TimeBase, mjd: seq<uint8>, size: nat, time: int)
    requires ValidSize(size) && size <= |mjd|
    requires FieldsInRange(mjd, size)
    requires tb.julianEpochOffset >= 0 || MjdMilliseconds(mjd, size) >= -tb.julianEpochOffset
    ensures var t := DecodeMJD(tb, mjd, size, time).1;
            EncodeBufferFits(tb, t, mjd, size) && EncodeMJD(tb, t, mjd, size) == (true, mjd)
  {
    var t := DecodeMJD(tb, mjd, size, time).1;
    var day := GetUInt16(mjd, 0);
    var h := if size >= 3 then DecodeBCD(mjd[2]) else 0;
    var m := if size >= 4 then DecodeBCD(mjd[3]) else 0;
    var sec := if size >= 5 then DecodeBCD(mjd[4]) else 0;
    DecodedSeconds(tb, mjd, size, time);
    EncodeOfFields(tb, t, mjd, size, day, h, m, sec);
    var r := EncodeMJD(tb, t, mjd, size).1;
    SameFields(r, mjd, size);
    assert r == r[..size] + r[size..];
    assert mjd == mjd[..size] + mjd[size..];
  }

  /** Two buffers whose first `size` bytes hold the same day number and the
      same BCD fields agree on those bytes. */
  lemma SameFields(a: seq<uint8>, b: seq<uint8>, size: nat)
    requires ValidSize(size) && size <= |a| && size <= |b|
    requires GetUInt16(a, 0) == GetUInt16(b, 0)
    requires forall i :: 2 <= i < size ==> IsBCD(a[i]) && IsBCD(b[i]) && DecodeBCD(a[i]) == DecodeBCD(b[i])
    ensures a[..size] == b[..size]
  {
    GetPutUInt16(a, 0);
    GetPutUInt16(b, 0);
    forall i | 2 <= i < size ensures a[i] == b[i] {
      SameBCD(a[i], b[i]);
    }
  }
}
