/** Choosing the codec for a binary descriptor. The tag alone is not enough:
    tag 0x0F means target_IP_source_slash_descriptor only inside an IP/MAC
    notification table (elsewhere it is an MPEG tag), and the private tag
    0x88 means HD_simulcast_logical_channel_descriptor only after the
    EACEM/EICTA private data specifier. Descriptors no modelled codec claims
    are passed through unchanged. */
module Registry {
  import opened Bytes
  import opened Options
  import opened Descriptors
  import HDSimulcastLCN
  import ParentalRating
  import Mosaic
  import TargetIPSourceSlash

  /** Private data specifier of EACEM/EICTA (ETSI TS 101 162). */
  const EACEM_PDS: uint32 := 0x28

  /** Where a descriptor is found: whether the enclosing table is an IP/MAC
      notification table, and the private data specifier in force. */
  datatype Context = Context(inINT: bool, pds: uint32)

  /** A descriptor as interpreted in its context. */
  datatype Interpreted =
    | HDSimulcast(hd: HDSimulcastLCN.HDSimulcastLogicalChannelDescriptor)
    | Parental(parental: Option<ParentalRating.ParentalRatingDescriptor>)
    | MosaicCells(mosaic: Option<Mosaic.MosaicDescriptor>)
    | TargetIP(target: Option<TargetIPSourceSlash.TargetIPSourceSlashDescriptor>)
    | Raw(raw: Descriptor)

  /** The codec a valid descriptor is handed to. */
  function Interpret(desc: Descriptor, ctx: Context): (r: Interpreted)
    ensures r.TargetIP? <==> desc.Valid() && desc.Tag() == TargetIPSourceSlash.TAG && ctx.inINT
    ensures r.HDSimulcast? <==> desc.Valid() && desc.Tag() == HDSimulcastLCN.TAG && ctx.pds == EACEM_PDS
    ensures r.Parental? <==> desc.Valid() && desc.Tag() == ParentalRating.TAG
    ensures r.MosaicCells? <==> desc.Valid() && desc.Tag() == Mosaic.TAG
    ensures r.Raw? ==> r.raw == desc
  {
    if !desc.Valid() then Raw(desc)
    else if desc.Tag() == TargetIPSourceSlash.TAG && ctx.inINT then TargetIP(TargetIPSourceSlash.Deserialize(desc))
    else if desc.Tag() == HDSimulcastLCN.TAG && ctx.pds == EACEM_PDS then HDSimulcast(HDSimulcastLCN.Deserialize(desc))
    else if desc.Tag() == ParentalRating.TAG then Parental(ParentalRating.Deserialize(desc))
    else if desc.Tag() == Mosaic.TAG then MosaicCells(Mosaic.Deserialize(desc))
    else Raw(desc)
  }

  /** The same target_IP_source_slash block is decoded inside an INT and
      passed through anywhere else. */
  lemma TableDecides(d: TargetIPSourceSlash.TargetIPSourceSlashDescriptor, pds: uint32)
    requires |d.addresses| <= TargetIPSourceSlash.MAX_ENTRIES
    ensures Interpret(TargetIPSourceSlash.Serialize(d), Context(true, pds)) == TargetIP(Some(d))
    ensures Interpret(TargetIPSourceSlash.Serialize(d), Context(false, pds)) == Raw(TargetIPSourceSlash.Serialize(d))
  {
    TargetIPSourceSlash.RoundTrip(d);
  }

  /** The same HD_simulcast_logical_channel block is decoded under the
      EACEM specifier and passed through under any other. */
  lemma SpecifierDecides(d: HDSimulcastLCN.HDSimulcastLogicalChannelDescriptor, inINT: bool, pds: uint32)
    requires |d.entries| <= HDSimulcastLCN.MAX_ENTRIES
    ensures Interpret(HDSimulcastLCN.Serialize(d), Context(inINT, EACEM_PDS)).HDSimulcast?
    ensures Interpret(HDSimulcastLCN.Serialize(d), Context(inINT, EACEM_PDS)).hd.entries
              == seq(|d.entries|, i requires 0 <= i < |d.entries| => HDSimulcastLCN.Masked(d.entries[i]))
    ensures pds != EACEM_PDS ==> Interpret(HDSimulcastLCN.Serialize(d), Context(inINT, pds)) == Raw(HDSimulcastLCN.Serialize(d))
  {
    HDSimulcastLCN.RoundTrip(d);
  }
}
