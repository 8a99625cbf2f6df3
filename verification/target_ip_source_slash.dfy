/** The target_IP_source_slash_descriptor (ETSI EN 301 192, section
    8.4.5.10), found only in an IP/MAC notification table: a list of
    (source address, source mask, destination address, destination mask)
    entries, 10 bytes each. */
module TargetIPSourceSlash {
  import opened Bytes
  import opened Options
  import opened Descriptors
  import Records

  /** Tag of the descriptor inside an INT; the same value is an MPEG tag
      elsewhere. */
  const TAG: uint8 := 0x0F

  /** Payload bytes per address entry. */
  const ENTRY_SIZE: nat := 10

  /** Maximum number of entries to fit in 255 bytes. */
  const MAX_ENTRIES: nat := 25

  /** An IPv4 address is its 32-bit value; a mask is a bit count. */
  datatype Address = Address(sourceAddr: uint32, sourceSlashMask: uint8, destAddr: uint32, destSlashMask: uint8)

  datatype TargetIPSourceSlashDescriptor = TargetIPSourceSlashDescriptor(addresses: seq<Address>)

  /** The address constructor's defaults: both addresses and masks zero. */
  function DefaultAddress(): Address {
    Address(0, 0, 0, 0)
  }

  /** `MAX_ENTRIES` is the largest entry count whose payload fits the
      one-byte descriptor length. */
  lemma MaxEntriesIsLargestFit()
    ensures MAX_ENTRIES * ENTRY_SIZE <= MAX_PAYLOAD_SIZE < (MAX_ENTRIES + 1) * ENTRY_SIZE
  {
  }

  /** Source address, source mask, destination address, destination mask,
      addresses big-endian. */
  function EncodeAddress(a: Address): (s: seq<uint8>)
    ensures |s| == ENTRY_SIZE
    ensures GetUInt32(s, 0) == a.sourceAddr && s[4] == a.sourceSlashMask
    ensures GetUInt32(s, 5) == a.destAddr && s[9] == a.destSlashMask
  {
    var s := PutUInt32(a.sourceAddr) + [a.sourceSlashMask] + PutUInt32(a.destAddr) + [a.destSlashMask];
    assert s[..4] == PutUInt32(a.sourceAddr) && s[5..9] == PutUInt32(a.destAddr);
    assert GetUInt32(s, 0) == GetUInt32(s[..4], 0);
    assert GetUInt32(s, 5) == GetUInt32(s[5..9], 0);
    s
  }

  /** An address read back from a 10-byte chunk: each address writes back
      as the four bytes it was read from. */
  function DecodeAddress(s: seq<uint8>): (a: Address)
    ensures |s| >= ENTRY_SIZE ==> PutUInt32(a.sourceAddr) == s[0..4] && a.sourceSlashMask == s[4]
    ensures |s| >= ENTRY_SIZE ==> PutUInt32(a.destAddr) == s[5..9] && a.destSlashMask == s[9]
  {
    if |s| < ENTRY_SIZE then DefaultAddress()
    else
      GetPutUInt32(s, 0);
      GetPutUInt32(s, 5);
      Address(GetUInt32(s, 0), s[4], GetUInt32(s, 5), s[9])
  }

  /** An address survives encoding and decoding unchanged. */
  lemma DecodeEncodeAddress(a: Address)
    ensures DecodeAddress(EncodeAddress(a)) == a
  {
    var s := EncodeAddress(a);
    assert s[5..9] == PutUInt32(a.destAddr);
    assert GetUInt32(s, 5) == GetUInt32(s[5..9], 0);
  }

  /** Every 10-byte chunk is re-encoded to itself. */
  lemma EncodeDecodeAddress(s: seq<uint8>)
    requires |s| == ENTRY_SIZE
    ensures EncodeAddress(DecodeAddress(s)) == s
  {
    GetPutUInt32(s, 0);
    GetPutUInt32(s, 5);
    assert s == s[0..4] + [s[4]] + s[5..9] + [s[9]];
  }

  /** Ten zero bytes. */
  const ZEROES: seq<uint8> := [0, 0, 0, 0, 0, 0, 0, 0, 0, 0]

  /** The default address is ten zero bytes on the wire, and ten zero bytes
      read back as the default address. */
  lemma DefaultAddressBytes()
    ensures EncodeAddress(DefaultAddress()) == ZEROES
    ensures DecodeAddress(ZEROES) == DefaultAddress()
  {
    assert PutUInt32(0) == [0, 0, 0, 0] by {
      assert PutUInt16(0) == [0, 0];
    }
    assert GetUInt16(ZEROES, 0) == 0 && GetUInt16(ZEROES, 2) == 0;
    assert GetUInt16(ZEROES, 5) == 0 && GetUInt16(ZEROES, 7) == 0;
  }

  /** The addresses one after the other: address `i` is the 10-byte chunk
      `i` of the payload. */
  function SerializePayload(d: TargetIPSourceSlashDescriptor): (p: seq<uint8>)
    ensures |p| == ENTRY_SIZE * |d.addresses|
    ensures forall i :: 0 <= i < |d.addresses| ==> p[10 * i..10 * i + 10] == EncodeAddress(d.addresses[i])
  {
    var p := Records.Concat(d.addresses, EncodeAddress, ENTRY_SIZE);
    assert forall i :: 0 <= i < |d.addresses| ==> p[10 * i..10 * i + 10] == EncodeAddress(d.addresses[i]) by {
      forall i | 0 <= i < |d.addresses| ensures p[10 * i..10 * i + 10] == EncodeAddress(d.addresses[i]) {
        Records.ConcatChunk(d.addresses, EncodeAddress, ENTRY_SIZE, i);
      }
    }
    p
  }

  /** A whole number of 10-byte entries is required. */
  function DeserializePayload(p: seq<uint8>): (d: Option<TargetIPSourceSlashDescriptor>)
    ensures d.Some? <==> |p| % ENTRY_SIZE == 0
    ensures d.Some? ==> ENTRY_SIZE * |d.value.addresses| == |p|
  {
    if |p| % ENTRY_SIZE == 0 then Some(TargetIPSourceSlashDescriptor(Records.Split(p, ENTRY_SIZE, DecodeAddress)))
    else None
  }

  function Serialize(d: TargetIPSourceSlashDescriptor): (desc: Descriptor)
    ensures desc.Valid() <==> |d.addresses| <= MAX_ENTRIES
  {
    Build(TAG, SerializePayload(d))
  }

  /** A decoded descriptor never holds more addresses than fit. */
  function Deserialize(desc: Descriptor): (d: Option<TargetIPSourceSlashDescriptor>)
    ensures d.Some? <==> desc.Valid() && desc.Tag() == TAG && |desc.Payload()| % ENTRY_SIZE == 0
    ensures d.Some? ==> |d.value.addresses| <= MAX_ENTRIES
  {
    if desc.Valid() && desc.Tag() == TAG then DeserializePayload(desc.Payload()) else None
  }

  /** Entry `i` of a serialized payload sits at bytes `10i .. 10i+10`. */
  lemma SerializeLayout(d: TargetIPSourceSlashDescriptor, i: nat)
    requires i < |d.addresses|
    ensures 10 * i + 10 <= |SerializePayload(d)|
    ensures GetUInt32(SerializePayload(d), 10 * i) == d.addresses[i].sourceAddr
    ensures SerializePayload(d)[10 * i + 4] == d.addresses[i].sourceSlashMask
    ensures GetUInt32(SerializePayload(d), 10 * i + 5) == d.addresses[i].destAddr
    ensures SerializePayload(d)[10 * i + 9] == d.addresses[i].destSlashMask
  {
    var p := SerializePayload(d);
    var s := EncodeAddress(d.addresses[i]);
    assert p[10 * i..10 * i + 10] == s;
    DecodeEncodeAddress(d.addresses[i]);
    assert GetUInt32(p, 10 * i) == GetUInt32(s, 0);
    assert GetUInt32(p, 10 * i + 5) == GetUInt32(s, 5);
  }

  /** Decoding a serialized payload gives back every address, in order. */
  lemma PayloadRoundTrip(d: TargetIPSourceSlashDescriptor)
    ensures DeserializePayload(SerializePayload(d)) == Some(d)
  {
    var es := d.addresses;
    Records.SplitConcat(es, EncodeAddress, ENTRY_SIZE, DecodeAddress);
    var r := DeserializePayload(SerializePayload(d)).value.addresses;
    forall i | 0 <= i < |es| ensures r[i] == es[i] {
      DecodeEncodeAddress(es[i]);
    }
    assert r == es;
  }

  /** Serializing then deserializing gives the descriptor back exactly when
      there are at most 25 addresses. */
  lemma RoundTrip(d: TargetIPSourceSlashDescriptor)
    ensures Deserialize(Serialize(d)) == Some(d) <==> |d.addresses| <= MAX_ENTRIES
  {
    if |d.addresses| <= MAX_ENTRIES {
      PayloadRoundTrip(d);
    }
  }

  /** A successful deserialization re-serializes to the same descriptor. */
  lemma ReserializeExact(desc: Descriptor)
    requires Deserialize(desc).Some?
    ensures Serialize(Deserialize(desc).value) == desc
  {
    var p := desc.Payload();
    forall c: seq<uint8> | |c| == ENTRY_SIZE ensures EncodeAddress(DecodeAddress(c)) == c {
      EncodeDecodeAddress(c);
    }
    Records.AllChunksFixed(p, ENTRY_SIZE, DecodeAddress, EncodeAddress);
    Records.ConcatSplit(p, ENTRY_SIZE, |p| / ENTRY_SIZE, DecodeAddress, EncodeAddress);
    BuildFromParts(desc);
  }
}
