/** The mosaic_descriptor (ETSI EN 300 468, section 6.2.21): the layout of
    a mosaic screen and, per logical cell, the elementary cells it covers and
    what the cell links to. The 8-bit `cell_linkage_info` of each cell
    decides which 16-bit linkage fields follow it on the wire. */
module Mosaic {
  import opened Bytes
  import opened Options
  import opened Descriptors

  /** mosaic_descriptor tag. */
  const TAG: uint8 := 0x51

  /** One logical cell. The linkage fields not selected by
      `cellLinkageInfo` are not on the wire and stay at their default 0. */
  datatype Cell = Cell(
    logicalCellId: uint8,                // 6 bits
    logicalCellPresentationInfo: uint8,  // 3 bits
    elementaryCellIds: seq<uint8>,       // 6 bits each
    cellLinkageInfo: uint8,
    bouquetId: uint16,                   // when cellLinkageInfo == 0x01
    originalNetworkId: uint16,           // when cellLinkageInfo is 0x02, 0x03 or 0x04
    transportStreamId: uint16,           // when cellLinkageInfo is 0x02, 0x03 or 0x04
    serviceId: uint16,                   // when cellLinkageInfo is 0x02, 0x03 or 0x04
    eventId: uint16)                     // when cellLinkageInfo == 0x04

  /** The two cell counts are 3-bit fields holding the actual count minus one. */
  datatype MosaicDescriptor = MosaicDescriptor(
    mosaicEntryPoint: bool,
    numberOfHorizontalElementaryCells: uint8,
    numberOfVerticalElementaryCells: uint8,
    cells: seq<Cell>)

  predicate HasBouquet(linkage: uint8) {
    linkage == 0x01
  }

  predicate HasService(linkage: uint8) {
    0x02 <= linkage <= 0x04
  }

  predicate HasEvent(linkage: uint8) {
    linkage == 0x04
  }

  /** Bytes of linkage fields that follow `cell_linkage_info` on the wire. */
  function LinkageSize(linkage: uint8): nat {
    (if HasBouquet(linkage) then 2 else 0)
    + (if HasService(linkage) then 6 else 0)
    + (if HasEvent(linkage) then 2 else 0)
  }

  /** A cell whose fields fit their bit widths, whose elementary cell count
      fits its count byte, and whose linkage fields absent from the wire are 0. */
  predicate WellFormedCell(c: Cell) {
    && c.logicalCellId < 0x40
    && c.logicalCellPresentationInfo < 8
    && |c.elementaryCellIds| < 0x100
    && (forall i :: 0 <= i < |c.elementaryCellIds| ==> c.elementaryCellIds[i] < 0x40)
    && (!HasBouquet(c.cellLinkageInfo) ==> c.bouquetId == 0)
    && (!HasService(c.cellLinkageInfo) ==>
          c.originalNetworkId == 0 && c.transportStreamId == 0 && c.serviceId == 0)
    && (!HasEvent(c.cellLinkageInfo) ==> c.eventId == 0)
  }

  predicate WellFormed(d: MosaicDescriptor) {
    && d.numberOfHorizontalElementaryCells < 8
    && d.numberOfVerticalElementaryCells < 8
    && (forall i :: 0 <= i < |d.cells| ==> WellFormedCell(d.cells[i]))
  }

  /** The actual number of horizontal elementary cells, 1 to 8. */
  function HorizontalCellCount(d: MosaicDescriptor): (n: nat)
    requires d.numberOfHorizontalElementaryCells < 8
    ensures 1 <= n <= 8
  {
    d.numberOfHorizontalElementaryCells + 1
  }

  /** The actual number of vertical elementary cells, 1 to 8. */
  function VerticalCellCount(d: MosaicDescriptor): (n: nat)
    requires d.numberOfVerticalElementaryCells < 8
    ensures 1 <= n <= 8
  {
    d.numberOfVerticalElementaryCells + 1
  }

  /** Wire size of one cell: 2 bytes of id and presentation info, the count
      byte, one byte per elementary cell, the linkage byte and its fields. */
  function CellSize(c: Cell): nat {
    4 + |c.elementaryCellIds| + LinkageSize(c.cellLinkageInfo)
  }

  function CellsSize(cs: seq<Cell>): nat {
    if cs == [] then 0 else CellSize(cs[0]) + CellsSize(cs[1..])
  }

  /** Wire size of the whole payload: the header byte, then the cells. */
  function PayloadSize(d: MosaicDescriptor): nat {
    1 + CellsSize(d.cells)
  }

  // ---------------------------------------------------------------------
  // Serialization. Reserved bits are written as ones; every field is cut
  // to its bit width.
  // ---------------------------------------------------------------------

  function EncodeLinkageFields(c: Cell): (s: seq<uint8>)
    ensures |s| == LinkageSize(c.cellLinkageInfo)
  {
    var l := c.cellLinkageInfo;
    if HasBouquet(l) then PutUInt16(c.bouquetId)
    else if HasEvent(l) then
      PutUInt16(c.originalNetworkId) + PutUInt16(c.transportStreamId) + PutUInt16(c.serviceId) + PutUInt16(c.eventId)
    else if HasService(l) then
      PutUInt16(c.originalNetworkId) + PutUInt16(c.transportStreamId) + PutUInt16(c.serviceId)
    else []
  }

  /** Each elementary cell id in a byte of its own, after two reserved ones. */
  function EncodeElementaryCellIds(ids: seq<uint8>): (s: seq<uint8>)
    ensures |s| == |ids|
    ensures forall i :: 0 <= i < |ids| ==> s[i] / 0x40 == 3 && s[i] % 0x40 == ids[i] % 0x40
  {
    seq(|ids|, i requires 0 <= i < |ids| => 0xC0 + ids[i] % 0x40)
  }

  /** logical_cell_id (6 bits), 7 reserved ones, presentation info (3 bits),
      the elementary cell count byte and ids, cell_linkage_info and the
      linkage fields it selects. */
  function EncodeCell(c: Cell): (s: seq<uint8>)
    ensures |s| == CellSize(c)
    ensures s[0] / 4 == c.logicalCellId % 0x40 && s[0] % 4 == 3
    ensures s[1] / 8 == 0x1F && s[1] % 8 == c.logicalCellPresentationInfo % 8
    ensures s[2] as int == |c.elementaryCellIds| % 0x100
    ensures s[3..3 + |c.elementaryCellIds|] == EncodeElementaryCellIds(c.elementaryCellIds)
    ensures s[3 + |c.elementaryCellIds|] == c.cellLinkageInfo
    ensures s[4 + |c.elementaryCellIds|..] == EncodeLinkageFields(c)
  {
    var n := |c.elementaryCellIds|;
    var s := [(c.logicalCellId % 0x40) * 4 + 3, 0xF8 + c.logicalCellPresentationInfo % 8, n % 0x100]
             + EncodeElementaryCellIds(c.elementaryCellIds)
             + [c.cellLinkageInfo]
             + EncodeLinkageFields(c);
    s
  }

  /** The cells one after the other, each taking the size its linkage info
      dictates. */
  function EncodeCells(cs: seq<Cell>): (s: seq<uint8>)
    ensures |s| == CellsSize(cs)
  {
    if cs == [] then [] else EncodeCell(cs[0]) + EncodeCells(cs[1..])
  }

  /** Encoding a list of cells is encoding its parts one after the other. */
  lemma {:induction false} EncodeCellsAppend(a: seq<Cell>, b: seq<Cell>)
    ensures EncodeCells(a + b) == EncodeCells(a) + EncodeCells(b)
  {
    if a == [] {
      assert a + b == b;
    } else {
      assert (a + b)[0] == a[0];
      assert (a + b)[1..] == a[1..] + b;
      EncodeCellsAppend(a[1..], b);
    }
  }

  /** mosaic_entry_point (1 bit), horizontal count (3 bits), a reserved one,
      vertical count (3 bits). */
  function EncodeHeader(d: MosaicDescriptor): (h: uint8)
    ensures h / 0x80 == (if d.mosaicEntryPoint then 1 else 0)
    ensures (h / 0x10) % 8 == d.numberOfHorizontalElementaryCells % 8
    ensures (h / 8) % 2 == 1
    ensures h % 8 == d.numberOfVerticalElementaryCells % 8
  {
    var e, hc, vc := if d.mosaicEntryPoint then 1 else 0, d.numberOfHorizontalElementaryCells % 8, d.numberOfVerticalElementaryCells % 8;
    HeaderBits(e, hc, vc);
    0x80 * e + 0x10 * hc + 0x08 + vc
  }

  /** The bit fields of the header byte read back by division. */
  lemma HeaderBits(e: nat, hc: nat, vc: nat)
    requires e < 2 && hc < 8 && vc < 8
    ensures (0x80 * e + 0x10 * hc + 0x08 + vc) / 0x80 == e
    ensures ((0x80 * e + 0x10 * hc + 0x08 + vc) / 0x10) % 8 == hc
    ensures ((0x80 * e + 0x10 * hc + 0x08 + vc) / 8) % 2 == 1
    ensures (0x80 * e + 0x10 * hc + 0x08 + vc) % 8 == vc
  {
    var h := 0x80 * e + 0x10 * hc + 0x08 + vc;
    assert h / 0x10 == 8 * e + hc;
    assert h / 8 == 2 * (8 * e + hc) + 1;
  }

  function SerializePayload(d: MosaicDescriptor): (p: seq<uint8>)
    ensures |p| == PayloadSize(d)
  {
    [EncodeHeader(d)] + EncodeCells(d.cells)
  }

  function Serialize(d: MosaicDescriptor): (desc: Descriptor)
    ensures desc.Valid() <==> PayloadSize(d) <= MAX_PAYLOAD_SIZE
  {
    Build(TAG, SerializePayload(d))
  }

  // ---------------------------------------------------------------------
  // Deserialization. A read past the end of the payload makes the whole
  // descriptor invalid (None); reserved bits are ignored.
  // ---------------------------------------------------------------------

  /** The linkage fields (bouquet_id, original_network_id,
      transport_stream_id, service_id, event_id) selected by `linkage`,
      read from the start of `p`; the others are 0. */
  function DecodeLinkageFields(linkage: uint8, p: seq<uint8>): (f: (uint16, uint16, uint16, uint16, uint16))
    requires LinkageSize(linkage) <= |p|
    ensures !HasBouquet(linkage) ==> f.0 == 0
    ensures !HasService(linkage) ==> f.1 == 0 && f.2 == 0 && f.3 == 0
    ensures !HasEvent(linkage) ==> f.4 == 0
  {
    if HasBouquet(linkage) then (GetUInt16(p, 0), 0, 0, 0, 0)
    else if HasEvent(linkage) then (0, GetUInt16(p, 0), GetUInt16(p, 2), GetUInt16(p, 4), GetUInt16(p, 6))
    else if HasService(linkage) then (0, GetUInt16(p, 0), GetUInt16(p, 2), GetUInt16(p, 4), 0)
    else (0, 0, 0, 0, 0)
  }

  /** One cell read from the front of `p`, with what follows it. */
  function DecodeCell(p: seq<uint8>): (r: Option<(Cell, seq<uint8>)>)
    ensures r.Some? ==> WellFormedCell(r.value.0)
    ensures r.Some? ==> |r.value.1| + CellSize(r.value.0) == |p|
    ensures r.Some? ==> r.value.1 == p[CellSize(r.value.0)..]
  {
    if |p| < 3 || |p| < 4 + p[2] as int then None
    else
      var count := p[2] as nat;
      var linkage := p[3 + count];
      var rest := p[4 + count..];
      if |rest| < LinkageSize(linkage) then None
      else
        var f := DecodeLinkageFields(linkage, rest);
        var ids := seq(count, i requires 0 <= i < count => p[3 + i] % 0x40);
        Some((Cell(p[0] / 4, p[1] % 8, ids, linkage, f.0, f.1, f.2, f.3, f.4), rest[LinkageSize(linkage)..]))
  }

  /** Cells read one after the other until the payload is used up. */
  function DecodeCells(p: seq<uint8>): (r: Option<seq<Cell>>)
    ensures r.Some? ==> forall i :: 0 <= i < |r.value| ==> WellFormedCell(r.value[i])
    ensures r.Some? ==> CellsSize(r.value) == |p|
    decreases |p|
  {
    if p == [] then Some([])
    else match DecodeCell(p)
      case None => None
      case Some((c, rest)) =>
        match DecodeCells(rest)
        case None => None
        case Some(cs) => Some([c] + cs)
  }

  function DeserializePayload(p: seq<uint8>): (r: Option<MosaicDescriptor>)
    ensures r.Some? ==> WellFormed(r.value) && PayloadSize(r.value) == |p|
  {
    if |p| == 0 then None
    else match DecodeCells(p[1..])
      case None => None
      case Some(cells) => Some(MosaicDescriptor(p[0] >= 0x80, (p[0] / 0x10) % 8, p[0] % 8, cells))
  }

  function Deserialize(desc: Descriptor): (r: Option<MosaicDescriptor>)
    ensures r.Some? ==> desc.Valid() && desc.Tag() == TAG && WellFormed(r.value)
  {
    if desc.Valid() && desc.Tag() == TAG then DeserializePayload(desc.Payload()) else None
  }

  // ---------------------------------------------------------------------
  // Properties.
  // ---------------------------------------------------------------------

  /** Where each linkage field sits in an encoded cell, after the
      `4 + n` bytes of header, elementary cell ids and linkage byte. */
  lemma LinkageLayout(c: Cell)
    ensures var s := EncodeCell(c);
            var n := |c.elementaryCellIds|;
            && s[3 + n] == c.cellLinkageInfo
            && (HasBouquet(c.cellLinkageInfo) ==> GetUInt16(s, 4 + n) == c.bouquetId)
            && (HasService(c.cellLinkageInfo) ==>
                  && GetUInt16(s, 4 + n) == c.originalNetworkId
                  && GetUInt16(s, 6 + n) == c.transportStreamId
                  && GetUInt16(s, 8 + n) == c.serviceId)
            && (HasEvent(c.cellLinkageInfo) ==> GetUInt16(s, 10 + n) == c.eventId)
            && (!HasBouquet(c.cellLinkageInfo) && !HasService(c.cellLinkageInfo) ==> |s| == 4 + n)
  {
    var s := EncodeCell(c);
    var n := |c.elementaryCellIds|;
    var f := EncodeLinkageFields(c);
    assert s[4 + n..] == f;
    DecodeEncodeLinkageFields(c, []);
    assert f + [] == f;
    forall k | 0 <= k <= |f| - 2 ensures GetUInt16(s, 4 + n + k) == GetUInt16(f, k) {
    }
  }

  /** The linkage fields read back are the ones written. */
  lemma DecodeEncodeLinkageFields(c: Cell, rest: seq<uint8>)
    ensures var f := DecodeLinkageFields(c.cellLinkageInfo, EncodeLinkageFields(c) + rest);
            && (HasBouquet(c.cellLinkageInfo) ==> f.0 == c.bouquetId)
            && (HasService(c.cellLinkageInfo) ==>
                  f.1 == c.originalNetworkId && f.2 == c.transportStreamId && f.3 == c.serviceId)
            && (HasEvent(c.cellLinkageInfo) ==> f.4 == c.eventId)
  {
    var l := c.cellLinkageInfo;
    var q := EncodeLinkageFields(c) + rest;
    if HasBouquet(l) {
      assert q[..2] == PutUInt16(c.bouquetId);
      assert GetUInt16(q, 0) == GetUInt16(q[..2], 0);
    } else if HasService(l) {
      assert q[0..2] == PutUInt16(c.originalNetworkId);
      assert q[2..4] == PutUInt16(c.transportStreamId);
      assert q[4..6] == PutUInt16(c.serviceId);
      assert GetUInt16(q, 0) == GetUInt16(q[0..2], 0);
      assert GetUInt16(q, 2) == GetUInt16(q[2..4], 0);
      assert GetUInt16(q, 4) == GetUInt16(q[4..6], 0);
      if HasEvent(l) {
        assert q[6..8] == PutUInt16(c.eventId);
        assert GetUInt16(q, 6) == GetUInt16(q[6..8], 0);
      }
    }
  }

  /** The fixed part of an encoded cell read back: both header fields, the
      elementary cell ids and cell_linkage_info, followed by the linkage
      fields. */
  lemma DecodeCellHeader(c: Cell, rest: seq<uint8>)
    requires WellFormedCell(c)
    ensures var p := EncodeCell(c) + rest;
            var n := |c.elementaryCellIds|;
            && |p| >= 4 + n && p[2] as int == n
            && p[0] / 4 == c.logicalCellId && p[1] % 8 == c.logicalCellPresentationInfo
            && seq(n, i requires 0 <= i < n => p[3 + i] % 0x40) == c.elementaryCellIds
            && p[3 + n] == c.cellLinkageInfo
            && p[4 + n..] == EncodeLinkageFields(c) + rest
  {
    var ids := c.elementaryCellIds;
    var n := |ids|;
    var p := EncodeCell(c) + rest;
    assert p[2] == n;
    var decodedIds := seq(n, i requires 0 <= i < n => p[3 + i] % 0x40);
    forall i | 0 <= i < n ensures decodedIds[i] == ids[i] {
      assert p[3 + i] == EncodeElementaryCellIds(ids)[i];
    }
    assert p[4 + n..] == EncodeLinkageFields(c) + rest;
  }

  /** A well-formed cell is read back unchanged, and reading stops exactly
      where its encoding ends. */
  lemma DecodeEncodeCell(c: Cell, rest: seq<uint8>)
    requires WellFormedCell(c)
    ensures DecodeCell(EncodeCell(c) + rest) == Some((c, rest))
  {
    var l := c.cellLinkageInfo;
    var tail := EncodeLinkageFields(c) + rest;
    DecodeCellHeader(c, rest);
    DecodeEncodeLinkageFields(c, rest);
    assert tail[LinkageSize(l)..] == rest;
  }

  /** Well-formed cells are read back unchanged and in order. */
  lemma {:induction false} DecodeEncodeCells(cs: seq<Cell>)
    requires forall i :: 0 <= i < |cs| ==> WellFormedCell(cs[i])
    ensures DecodeCells(EncodeCells(cs)) == Some(cs)
  {
    if cs != [] {
      var tail := EncodeCells(cs[1..]);
      DecodeEncodeCell(cs[0], tail);
      DecodeEncodeCells(cs[1..]);
      DecodeCellsStep(EncodeCell(cs[0]) + tail, cs[0], tail, cs[1..]);
      assert [cs[0]] + cs[1..] == cs;
    }
  }

  /** One step of reading cells: a cell, then the cells of what follows. */
  lemma DecodeCellsStep(p: seq<uint8>, c: Cell, rest: seq<uint8>, cs: seq<Cell>)
    requires DecodeCell(p) == Some((c, rest))
    requires DecodeCells(rest) == Some(cs)
    ensures DecodeCells(p) == Some([c] + cs)
  {
    assert p != [];
  }

  /** The header byte gives back the entry point flag and both counts. */
  lemma DecodeEncodeHeader(d: MosaicDescriptor)
    requires d.numberOfHorizontalElementaryCells < 8 && d.numberOfVerticalElementaryCells < 8
    ensures EncodeHeader(d) >= 0x80 <==> d.mosaicEntryPoint
    ensures (EncodeHeader(d) / 0x10) % 8 == d.numberOfHorizontalElementaryCells
    ensures EncodeHeader(d) % 8 == d.numberOfVerticalElementaryCells
  {
  }

  /** Deserializing a serialized payload gives the descriptor back exactly
      when it is well formed. */
  lemma PayloadRoundTrip(d: MosaicDescriptor)
    ensures DeserializePayload(SerializePayload(d)) == Some(d) <==> WellFormed(d)
  {
    if WellFormed(d) {
      var p := SerializePayload(d);
      assert p[1..] == EncodeCells(d.cells);
      DecodeEncodeCells(d.cells);
      DecodeEncodeHeader(d);
    }
  }

  /** Serializing then deserializing gives the descriptor back, cells in
      order, exactly when it is well formed and its payload fits 255 bytes. */
  lemma RoundTrip(d: MosaicDescriptor)
    ensures Deserialize(Serialize(d)) == Some(d) <==> WellFormed(d) && PayloadSize(d) <= MAX_PAYLOAD_SIZE
  {
    PayloadRoundTrip(d);
  }

  /** A cell linkage value that selects no fields is still carried, as the
      last byte of the cell. */
  lemma OtherLinkageKept(c: Cell, rest: seq<uint8>)
    requires WellFormedCell(c)
    requires !(0x01 <= c.cellLinkageInfo <= 0x04)
    ensures CellSize(c) == 4 + |c.elementaryCellIds|
    ensures EncodeCell(c)[CellSize(c) - 1] == c.cellLinkageInfo
    ensures DecodeCell(EncodeCell(c) + rest).value.0.cellLinkageInfo == c.cellLinkageInfo
  {
    DecodeEncodeCell(c, rest);
  }
}
