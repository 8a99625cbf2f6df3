/** The parental_rating_descriptor (ETSI EN 300 468, section 6.2.28): a list
    of (country_code, rating) entries, each a 3-byte ISO 3166 country code
    followed by an 8-bit rating. Country codes are kept as raw bytes. */
module ParentalRating {
  import opened Bytes
  import opened Options
  import opened Descriptors
  import Records

  /** parental_rating_descriptor tag. */
  const TAG: uint8 := 0x55

  /** Payload bytes per entry. */
  const ENTRY_SIZE: nat := 4

  /** Maximum number of entries to fit in 255 bytes. */
  const MAX_ENTRIES: nat := 63

  datatype Entry = Entry(countryCode: seq<uint8>, rating: uint8)

  datatype ParentalRatingDescriptor = ParentalRatingDescriptor(entries: seq<Entry>)

  /** The entry constructor's defaults: no country code, rating 0. */
  function DefaultEntry(): Entry {
    Entry([], 0)
  }

  /** The constructor with one entry. */
  function WithOneEntry(code: seq<uint8>, rate: uint8): (d: ParentalRatingDescriptor)
    ensures |d.entries| == 1
    ensures d.entries[0].countryCode == code && d.entries[0].rating == rate
  {
    ParentalRatingDescriptor([Entry(code, rate)])
  }

  /** `MAX_ENTRIES` is the largest entry count whose payload fits the
      one-byte descriptor length. */
  lemma MaxEntriesIsLargestFit()
    ensures MAX_ENTRIES * ENTRY_SIZE <= MAX_PAYLOAD_SIZE < (MAX_ENTRIES + 1) * ENTRY_SIZE
  {
  }

  /** Every country code is exactly 3 bytes, as the wire format requires. */
  predicate CodesWellFormed(es: seq<Entry>) {
    forall i :: 0 <= i < |es| ==> |es[i].countryCode| == 3
  }

  /** The 4 bytes of an entry; the country code is cut or zero-padded to 3
      bytes, which only matters for codes the serializer rejects. */
  function EncodeEntry(e: Entry): (s: seq<uint8>)
    ensures |s| == ENTRY_SIZE
    ensures |e.countryCode| == 3 ==> s == e.countryCode + [e.rating]
  {
    var c := e.countryCode + [0, 0, 0];
    [c[0], c[1], c[2], e.rating]
  }

  /** An entry read back from a 4-byte chunk: its code is 3 bytes, and
      encoding it gives the chunk back. */
  function DecodeEntry(s: seq<uint8>): (e: Entry)
    ensures |s| >= ENTRY_SIZE ==> |e.countryCode| == 3 && EncodeEntry(e) == s[..ENTRY_SIZE]
  {
    if |s| < ENTRY_SIZE then DefaultEntry()
    else
      assert s[..ENTRY_SIZE] == s[..3] + [s[3]];
      Entry(s[..3], s[3])
  }

  /** A descriptor holding a default entry, whose country code is empty,
      cannot be serialized. */
  lemma DefaultEntryRejected()
    ensures !Serialize(ParentalRatingDescriptor([DefaultEntry()])).Valid()
  {
    assert !CodesWellFormed([DefaultEntry()]) by {
      assert |[DefaultEntry()][0].countryCode| != 3;
    }
  }

  /** Serialization of the payload: fails when a country code is not 3
      bytes, otherwise the entries in list order. */
  function SerializePayload(d: ParentalRatingDescriptor): (p: Option<seq<uint8>>)
    ensures p.Some? <==> CodesWellFormed(d.entries)
    ensures p.Some? ==> |p.value| == ENTRY_SIZE * |d.entries|
  {
    if CodesWellFormed(d.entries) then Some(Records.Concat(d.entries, EncodeEntry, ENTRY_SIZE)) else None
  }

  /** Deserialization of the payload: a whole number of 4-byte entries is
      required. */
  function DeserializePayload(p: seq<uint8>): (d: Option<ParentalRatingDescriptor>)
    ensures d.Some? <==> |p| % ENTRY_SIZE == 0
    ensures d.Some? ==> ENTRY_SIZE * |d.value.entries| == |p| && CodesWellFormed(d.value.entries)
  {
    if |p| % ENTRY_SIZE == 0 then
      var es := Records.Split(p, ENTRY_SIZE, DecodeEntry);
      assert CodesWellFormed(es) by {
        forall i | 0 <= i < |es| ensures |es[i].countryCode| == 3 {
          Records.SplitChunk(p, ENTRY_SIZE, DecodeEntry, i);
        }
      }
      Some(ParentalRatingDescriptor(es))
    else None
  }

  function Serialize(d: ParentalRatingDescriptor): (desc: Descriptor)
    ensures desc.Valid() <==> CodesWellFormed(d.entries) && |d.entries| <= MAX_ENTRIES
  {
    match SerializePayload(d)
    case Some(p) => Build(TAG, p)
    case None => Invalid
  }

  /** A decoded descriptor is one the serializer accepts: 3-byte codes and
      no more entries than fit. */
  function Deserialize(desc: Descriptor): (d: Option<ParentalRatingDescriptor>)
    ensures d.Some? <==> desc.Valid() && desc.Tag() == TAG && |desc.Payload()| % ENTRY_SIZE == 0
    ensures d.Some? ==> CodesWellFormed(d.value.entries) && |d.value.entries| <= MAX_ENTRIES
  {
    if desc.Valid() && desc.Tag() == TAG then DeserializePayload(desc.Payload()) else None
  }

  /** Entry `i` of a serialized payload sits at bytes `4i .. 4i+4`: its
      country code then its rating. */
  lemma SerializeLayout(d: ParentalRatingDescriptor, i: nat)
    requires CodesWellFormed(d.entries) && i < |d.entries|
    ensures 4 * i + 4 <= |SerializePayload(d).value|
    ensures SerializePayload(d).value[4 * i..4 * i + 3] == d.entries[i].countryCode
    ensures SerializePayload(d).value[4 * i + 3] == d.entries[i].rating
  {
    Records.ConcatChunk(d.entries, EncodeEntry, ENTRY_SIZE, i);
    var p := SerializePayload(d).value;
    assert p[4 * i..4 * i + 4] == d.entries[i].countryCode + [d.entries[i].rating];
    assert p[4 * i..4 * i + 3] == p[4 * i..4 * i + 4][..3];
    assert p[4 * i + 3] == p[4 * i..4 * i + 4][3];
  }

  /** Decoding a serialized payload gives back every entry, in order. */
  lemma PayloadRoundTrip(d: ParentalRatingDescriptor)
    requires CodesWellFormed(d.entries)
    ensures DeserializePayload(SerializePayload(d).value) == Some(d)
  {
    var es := d.entries;
    Records.SplitConcat(es, EncodeEntry, ENTRY_SIZE, DecodeEntry);
    var r := DeserializePayload(SerializePayload(d).value).value.entries;
    forall i | 0 <= i < |es| ensures r[i] == es[i] {
      assert EncodeEntry(es[i])[..3] == es[i].countryCode;
    }
    assert r == es;
  }

  /** Serializing then deserializing gives the descriptor back exactly when
      every code is 3 bytes and there are at most 63 entries. */
  lemma RoundTrip(d: ParentalRatingDescriptor)
    ensures Deserialize(Serialize(d)) == Some(d) <==> CodesWellFormed(d.entries) && |d.entries| <= MAX_ENTRIES
  {
    if CodesWellFormed(d.entries) && |d.entries| <= MAX_ENTRIES {
      PayloadRoundTrip(d);
    }
  }

  /** A successful deserialization re-serializes to the same descriptor:
      the payload has no reserved bits. */
  lemma ReserializeExact(desc: Descriptor)
    requires Deserialize(desc).Some?
    ensures Serialize(Deserialize(desc).value) == desc
  {
    var p := desc.Payload();
    forall c: seq<uint8> | |c| == ENTRY_SIZE ensures EncodeEntry(DecodeEntry(c)) == c {
      assert c == c[..3] + [c[3]];
    }
    Records.AllChunksFixed(p, ENTRY_SIZE, DecodeEntry, EncodeEntry);
    Records.ConcatSplit(p, ENTRY_SIZE, |p| / ENTRY_SIZE, DecodeEntry, EncodeEntry);
    BuildFromParts(desc);
  }
}
