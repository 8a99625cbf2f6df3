/** The HD_simulcast_logical_channel_descriptor (private descriptor of the
    EACEM/EICTA data specifier): a list of (service_id, visible, lcn)
    entries, 4 payload bytes each. */
module HDSimulcastLCN {
  import opened Bytes
  import opened Descriptors
  import Records

  /** DID_HD_SIMULCAST_LCN. */
  const TAG: uint8 := 0x88

  /** Payload bytes per entry. */
  const ENTRY_SIZE: nat := 4

  /** The most entries whose payload a one-byte length can announce. */
  const MAX_ENTRIES: nat := 63

  /** One logical channel: only the low 10 bits of `lcn` go on the wire. */
  datatype Entry = Entry(serviceId: uint16, visible: bool, lcn: uint16)

  /** The descriptor object: its validity flag and its entries. */
  datatype HDSimulcastLogicalChannelDescriptor =
    HDSimulcastLogicalChannelDescriptor(isValid: bool, entries: seq<Entry>)


  /** Bits 14..10 of the second word of an entry, held in bits 6..2 of its
      high byte, are all one. */
  predicate ReservedOnes(hi: uint8) {
    (hi / 4) % 32 == 31
  }

  /** `e` as it comes back from the wire: `lcn` cut to its low 10 bits. */
  function Masked(e: Entry): Entry {
    e.(lcn := e.lcn % 0x400)
  }

  /** The 4 bytes of one entry: big-endian service_id, then a big-endian word
      with the visible flag in bit 15, ones in bits 14..10 and the low 10
      bits of lcn. */
  function EncodeEntry(e: Entry): (s: seq<uint8>)
    ensures |s| == ENTRY_SIZE
    ensures GetUInt16(s, 0) == e.serviceId
    ensures s[2] >= 0x80 <==> e.visible
    ensures ReservedOnes(s[2])
    ensures GetUInt16(s, 2) % 0x400 == e.lcn % 0x400
  {
    var w := (if e.visible then 0xFC00 else 0x7C00) + e.lcn % 0x400;
    var s := PutUInt16(e.serviceId) + PutUInt16(w);
    assert s[..2] == PutUInt16(e.serviceId) && s[2..] == PutUInt16(w);
    assert GetUInt16(s, 0) == GetUInt16(s[..2], 0);
    assert GetUInt16(s, 2) == GetUInt16(s[2..], 0);
    s
  }

  /** One entry read back from 4 bytes: the visible flag is bit 7 of the
      third byte, lcn the low 10 bits of the second word, that is the low
      2 bits of the third byte and the whole fourth byte. Only whole 4-byte
      chunks are ever passed; a shorter input reads as an all-zero entry. */
  function DecodeEntry(s: seq<uint8>): (e: Entry)
    ensures Masked(e) == e
    ensures |s| >= ENTRY_SIZE ==> PutUInt16(e.serviceId) == s[..2]
    ensures |s| >= ENTRY_SIZE ==> (e.visible <==> s[2] / 0x80 == 1)
    ensures |s| >= ENTRY_SIZE ==> e.lcn == (s[2] as int % 4) * 0x100 + s[3]
  {
    if |s| < ENTRY_SIZE then Entry(0, false, 0)
    else
      GetPutUInt16(s, 0);
      RebuiltWord(s[2], s[3]);
      Entry(GetUInt16(s, 0), s[2] >= 0x80, GetUInt16(s, 2) % 0x400)
  }

  /** An encoded entry decodes to the entry with its lcn masked. */
  lemma DecodeEncodeEntry(e: Entry)
    ensures DecodeEntry(EncodeEntry(e)) == Masked(e)
  {
    var s := EncodeEntry(e);
    assert s[2..] == PutUInt16((if e.visible then 0xFC00 else 0x7C00) + e.lcn % 0x400);
    assert GetUInt16(s, 2) == GetUInt16(s[2..], 0);
  }

  /** The second word of an entry, rebuilt from its flag and masked lcn,
      equals the word read exactly when the reserved bits are one. */
  lemma RebuiltWord(hi: uint8, lo: uint8)
    ensures (hi as int * 0x100 + lo) % 0x400 == (hi % 4) * 0x100 + lo
    ensures (if hi >= 0x80 then 0xFC00 else 0x7C00) + (hi as int * 0x100 + lo) % 0x400 == hi as int * 0x100 + lo
            <==> ReservedOnes(hi)
  {
  }

  /** `PutUInt16` is one-to-one. */
  lemma PutUInt16Injective(v: uint16, w: uint16)
    ensures PutUInt16(v) == PutUInt16(w) <==> v == w
  {
    if PutUInt16(v) == PutUInt16(w) {
      assert GetUInt16(PutUInt16(v), 0) == GetUInt16(PutUInt16(w), 0);
    }
  }

  /** The second word of a re-encoded chunk is the word read exactly when
      the reserved bits are one. */
  lemma SecondWordKept(s: seq<uint8>)
    requires |s| == ENTRY_SIZE
    ensures EncodeEntry(DecodeEntry(s))[2..] == s[2..] <==> ReservedOnes(s[2])
  {
    var e := DecodeEntry(s);
    var w := GetUInt16(s, 2);
    assert e.lcn == w % 0x400;
    var w' := (if e.visible then 0xFC00 else 0x7C00) + e.lcn % 0x400;
    RebuiltWord(s[2], s[3]);
    assert w' == w <==> ReservedOnes(s[2]);
    assert EncodeEntry(e)[2..] == PutUInt16(w');
    GetPutUInt16(s, 2);
    assert s[2..] == PutUInt16(w);
    PutUInt16Injective(w', w);
  }

  /** Re-encoding a decoded 4-byte chunk gives it back exactly when its
      reserved bits are all one. */
  lemma EncodeDecodeEntry(s: seq<uint8>)
    requires |s| == ENTRY_SIZE
    ensures EncodeEntry(DecodeEntry(s)) == s <==> ReservedOnes(s[2])
  {
    var r := EncodeEntry(DecodeEntry(s));
    GetPutUInt16(s, 0);
    assert r[..2] == s[..2];
    SecondWordKept(s);
    assert r == r[..2] + r[2..];
    assert s == s[..2] + s[2..];
  }

  function EncodeEntries(es: seq<Entry>): (p: seq<uint8>)
    ensures |p| == ENTRY_SIZE * |es|
  {
    Records.Concat(es, EncodeEntry, ENTRY_SIZE)
  }

  function DecodeEntries(p: seq<uint8>): seq<Entry> {
    Records.Split(p, ENTRY_SIZE, DecodeEntry)
  }

  /** TSDuck's `serialize`: the tag, the payload size cast to a byte,
      then every entry in list order. */
  function Serialize(d: HDSimulcastLogicalChannelDescriptor): (desc: Descriptor)
    ensures |desc.bytes| == 2 + ENTRY_SIZE * |d.entries|
    ensures desc.bytes[0] == TAG
    ensures desc.Valid() <==> |d.entries| <= MAX_ENTRIES
  {
    Build(TAG, EncodeEntries(d.entries))
  }

  /** TSDuck's `deserialize`: the entry list is cleared first and only
      refilled from a valid descriptor with this tag and a payload made of
      whole 4-byte entries. */
  function Deserialize(desc: Descriptor): (d: HDSimulcastLogicalChannelDescriptor)
    ensures d.isValid <==> desc.Valid() && desc.Tag() == TAG && |desc.Payload()| % ENTRY_SIZE == 0
    ensures !d.isValid ==> d.entries == []
    ensures d.isValid ==> ENTRY_SIZE * |d.entries| == |desc.Payload()|
  {
    var ok := desc.Valid() && desc.Tag() == TAG && |desc.Payload()| % ENTRY_SIZE == 0;
    HDSimulcastLogicalChannelDescriptor(ok, if ok then DecodeEntries(desc.Payload()) else [])
  }

  /** Reading entries from offset `pos` takes one entry and continues 4
      bytes further on. */
  lemma DecodeEntriesStep(data: seq<uint8>, pos: nat)
    requires pos + ENTRY_SIZE <= |data|
    ensures DecodeEntries(data[pos..]) == [DecodeEntry(data[pos..pos + ENTRY_SIZE])] + DecodeEntries(data[pos + ENTRY_SIZE..])
  {
    var rest := data[pos..];
    assert rest[..ENTRY_SIZE] == data[pos..pos + ENTRY_SIZE];
    assert rest[ENTRY_SIZE..] == data[pos + ENTRY_SIZE..];
  }

  /** The deserialization loop as TSDuck writes it: consume 4 bytes per
      entry while at least 4 remain. */
  method ReadEntries(data: seq<uint8>) returns (entries: seq<Entry>)
    ensures entries == DecodeEntries(data)
  {
    entries := [];
    var pos := 0;
    while |data| - pos >= ENTRY_SIZE
      invariant 0 <= pos <= |data|
      invariant entries + DecodeEntries(data[pos..]) == DecodeEntries(data)
      decreases |data| - pos
    {
      var e := DecodeEntry(data[pos..pos + ENTRY_SIZE]);
      DecodeEntriesStep(data, pos);
      assert (entries + [e]) + DecodeEntries(data[pos + ENTRY_SIZE..]) == entries + ([e] + DecodeEntries(data[pos + ENTRY_SIZE..]));
      entries := entries + [e];
      pos := pos + ENTRY_SIZE;
    }
    assert DecodeEntries(data[pos..]) == [];
  }

  /** TSDuck's `deserialize` with its loop: the list is cleared, then
      refilled only when the descriptor is acceptable. */
  method DeserializeLoop(desc: Descriptor) returns (d: HDSimulcastLogicalChannelDescriptor)
    ensures d == Deserialize(desc)
  {
    var ok := desc.Valid() && desc.Tag() == TAG && |desc.Payload()| % ENTRY_SIZE == 0;
    var entries: seq<Entry> := [];
    if ok {
      entries := ReadEntries(desc.Payload());
    }
    d := HDSimulcastLogicalChannelDescriptor(ok, entries);
  }

  /** The layout of entry `i` in a serialized descriptor: big-endian
      service_id at payload offset 4i, the visible flag in bit 7 of the byte
      at 4i+2, reserved ones, and the low 10 bits of lcn. */
  lemma SerializeLayout(d: HDSimulcastLogicalChannelDescriptor, i: nat)
    requires i < |d.entries|
    ensures 2 + 4 * i + 4 <= |Serialize(d).bytes|
    ensures GetUInt16(Serialize(d).bytes, 2 + 4 * i) == d.entries[i].serviceId
    ensures Serialize(d).bytes[2 + 4 * i + 2] >= 0x80 <==> d.entries[i].visible
    ensures ReservedOnes(Serialize(d).bytes[2 + 4 * i + 2])
    ensures GetUInt16(Serialize(d).bytes, 2 + 4 * i + 2) % 0x400 == d.entries[i].lcn % 0x400
  {
    var b := Serialize(d).bytes;
    var s := EncodeEntry(d.entries[i]);
    EntryBytes(d, i);
    assert b[2 + 4 * i] == s[0] && b[2 + 4 * i + 1] == s[1];
    assert b[2 + 4 * i + 2] == s[2] && b[2 + 4 * i + 3] == s[3];
  }

  /** Entry `i` is encoded at bytes `2 + 4i .. 2 + 4i + 4` of the
      descriptor. */
  lemma EntryBytes(d: HDSimulcastLogicalChannelDescriptor, i: nat)
    requires i < |d.entries|
    ensures 2 + 4 * i + 4 <= |Serialize(d).bytes|
    ensures Serialize(d).bytes[2 + 4 * i..2 + 4 * i + 4] == EncodeEntry(d.entries[i])
  {
    var b := Serialize(d).bytes;
    var p := EncodeEntries(d.entries);
    assert b[2..] == p;
    Records.ConcatChunk(d.entries, EncodeEntry, ENTRY_SIZE, i);
    assert b[2 + 4 * i..2 + 4 * i + 4] == p[4 * i..4 * i + 4];
  }

  /** Entry `i` of a valid deserialization is read from payload bytes
      `4i .. 4i+4`. */
  lemma DeserializeLayout(desc: Descriptor, i: nat)
    requires Deserialize(desc).isValid
    requires i < |Deserialize(desc).entries|
    ensures 4 * i + 4 <= |desc.Payload()|
    ensures Deserialize(desc).entries[i]
            == Entry(GetUInt16(desc.Payload(), 4 * i),
                     desc.Payload()[4 * i + 2] >= 0x80,
                     GetUInt16(desc.Payload(), 4 * i + 2) % 0x400)
  {
    var p := desc.Payload();
    Records.SplitChunk(p, ENTRY_SIZE, DecodeEntry, i);
    var c := Records.Chunk(p, ENTRY_SIZE, i);
    assert GetUInt16(c, 0) == GetUInt16(p, 4 * i);
    assert GetUInt16(c, 2) == GetUInt16(p, 4 * i + 2);
  }

  /** Serializing then deserializing gives back the entries in order with
      each lcn cut to 10 bits, and succeeds exactly when there are at most
      63 entries. */
  lemma RoundTrip(d: HDSimulcastLogicalChannelDescriptor)
    ensures Deserialize(Serialize(d)).isValid <==> |d.entries| <= MAX_ENTRIES
    ensures |d.entries| <= MAX_ENTRIES ==>
              Deserialize(Serialize(d)).entries == seq(|d.entries|, i requires 0 <= i < |d.entries| => Masked(d.entries[i]))
  {
    if |d.entries| <= MAX_ENTRIES {
      var r := Deserialize(Serialize(d)).entries;
      Records.SplitConcat(d.entries, EncodeEntry, ENTRY_SIZE, DecodeEntry);
      forall i | 0 <= i < |d.entries| ensures r[i] == Masked(d.entries[i]) {
        DecodeEncodeEntry(d.entries[i]);
      }
    }
  }

  /** Every third byte of each 4-byte entry in `p` has its reserved bits one. */
  ghost predicate AllReservedOnes(p: seq<uint8>) {
    forall k :: 0 <= k < |p| / 4 ==> ReservedOnes(p[4 * k + 2])
  }

  lemma {:induction false} ChunksFixedIffReserved(p: seq<uint8>)
    requires |p| % 4 == 0
    ensures Records.ChunksFixed(p, ENTRY_SIZE, DecodeEntry, EncodeEntry) <==> AllReservedOnes(p)
    decreases |p|
  {
    if |p| > 0 {
      var tail := p[4..];
      ChunksFixedIffReserved(tail);
      EncodeDecodeEntry(p[..4]);
      assert forall k :: 0 <= k < |tail| / 4 ==> tail[4 * k + 2] == p[4 * (k + 1) + 2];
      if AllReservedOnes(p) {
        assert ReservedOnes(p[4 * 0 + 2]);
        forall k | 0 <= k < |tail| / 4 ensures ReservedOnes(tail[4 * k + 2]) {
          assert ReservedOnes(p[4 * (k + 1) + 2]);
        }
      }
      if ReservedOnes(p[2]) && AllReservedOnes(tail) {
        forall k | 0 <= k < |p| / 4 ensures ReservedOnes(p[4 * k + 2]) {
          if k > 0 {
            assert ReservedOnes(tail[4 * (k - 1) + 2]);
          }
        }
      }
    }
  }

  /** Re-serializing a successful deserialization reproduces the input
      descriptor exactly when all its reserved bits are one. */
  lemma ReserializeIff(desc: Descriptor)
    requires Deserialize(desc).isValid
    ensures Serialize(Deserialize(desc)) == desc <==> AllReservedOnes(desc.Payload())
  {
    var p := desc.Payload();
    Records.ConcatSplit(p, ENTRY_SIZE, |p| / 4, DecodeEntry, EncodeEntry);
    ChunksFixedIffReserved(p);
    BuildFromParts(desc);
    var r := Serialize(Deserialize(desc));
    if r == desc {
      assert r.bytes[2..] == EncodeEntries(DecodeEntries(p));
    }
  }

  /** The default constructor: valid and empty, so it serializes to a
      descriptor with an empty payload. */
  function Default(): (d: HDSimulcastLogicalChannelDescriptor)
    ensures d.isValid && d.entries == []
    ensures Serialize(d).Valid() && Serialize(d).Payload() == []
  {
    HDSimulcastLogicalChannelDescriptor(true, [])
  }

  /** The default object serializes to an empty descriptor, which
      deserializes back to the default object. */
  lemma DefaultRoundTrip()
    ensures Serialize(Default()).bytes == [TAG, 0]
    ensures Deserialize(Serialize(Default())) == Default()
  {
  }

  /** Entries read from the variadic tail of the list constructor: pairs of
      (service_id, lcn), each cast to 16 bits and marked visible, until a
      negative value ends the list. */
  function ArgEntries(args: seq<int>): (es: seq<Entry>)
    ensures 2 * |es| <= |args|
    ensures forall i :: 0 <= i < |es| ==> es[i].visible
  {
    if |args| < 2 || args[0] < 0 || args[1] < 0 then []
    else [Entry(args[0] % 0x1_0000, true, args[1] % 0x1_0000)] + ArgEntries(args[2..])
  }

  /** The list constructor: the first pair is taken unconditionally, then
      pairs from `args` up to the terminating negative value. */
  function FromList(serviceId: int, lcn: int, args: seq<int>): (d: HDSimulcastLogicalChannelDescriptor)
    ensures d.isValid
    ensures |d.entries| >= 1
    ensures d.entries[0] == Entry(serviceId % 0x1_0000, true, lcn % 0x1_0000)
    ensures forall i :: 0 <= i < |d.entries| ==> d.entries[i].visible
  {
    HDSimulcastLogicalChannelDescriptor(true, [Entry(serviceId % 0x1_0000, true, lcn % 0x1_0000)] + ArgEntries(args))
  }

  /** The flat argument list for `pairs`, each pair as service_id then lcn. */
  function Flatten(pairs: seq<(uint16, uint16)>): (args: seq<int>)
    ensures |args| == 2 * |pairs|
  {
    if pairs == [] then [] else [pairs[0].0 as int, pairs[0].1 as int] + Flatten(pairs[1..])
  }

  /** A list of 16-bit pairs closed by -1 yields one visible entry per pair,
      in order. */
  lemma {:induction false} ArgEntriesOfPairs(pairs: seq<(uint16, uint16)>)
    ensures ArgEntries(Flatten(pairs) + [-1])
            == seq(|pairs|, i requires 0 <= i < |pairs| => Entry(pairs[i].0, true, pairs[i].1))
  {
    if pairs != [] {
      var args := Flatten(pairs) + [-1];
      assert args[2..] == Flatten(pairs[1..]) + [-1];
      ArgEntriesOfPairs(pairs[1..]);
    }
  }
}
