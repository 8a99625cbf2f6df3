/** A binary descriptor: the byte block `tag, length, payload` that every
    concrete descriptor serializes into and deserializes from. */
module Descriptors {
  import opened Bytes

  /** The largest payload a one-byte length field can announce. */
  const MAX_PAYLOAD_SIZE: nat := 255

  /** The raw byte block of a descriptor. A block is only a valid descriptor
      when its length byte matches the number of payload bytes that follow. */
  datatype Descriptor = Descriptor(bytes: seq<uint8>) {

    predicate Valid() {
      |bytes| >= 2 && bytes[1] as int + 2 == |bytes|
    }

    function Tag(): uint8
      requires Valid()
    {
      bytes[0]
    }

    function Payload(): (p: seq<uint8>)
      requires Valid()
      ensures |p| <= MAX_PAYLOAD_SIZE
    {
      bytes[2..]
    }
  }

  /** A descriptor with no data, the result of a failed serialization. */
  const Invalid: Descriptor := Descriptor([])

  /** The block a serializer builds: tag byte, then the payload size cast to
      8 bits (so a payload over 255 bytes gets a wrong length), then the
      payload. */
  function Build(tag: uint8, payload: seq<uint8>): (d: Descriptor)
    ensures |d.bytes| == 2 + |payload|
    ensures d.bytes[0] == tag && d.bytes[2..] == payload
    ensures d.Valid() <==> |payload| <= MAX_PAYLOAD_SIZE
  {
    Descriptor([tag, |payload| % 0x100] + payload)
  }

  /** Building from the tag and payload of a valid descriptor gives it back. */
  lemma BuildFromParts(d: Descriptor)
    requires d.Valid()
    ensures Build(d.Tag(), d.Payload()) == d
  {
    assert d.bytes == [d.bytes[0], d.bytes[1]] + d.bytes[2..];
  }
}
