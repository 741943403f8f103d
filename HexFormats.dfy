/**
 * The three Intel HEX variants: I8HEX (16-bit addresses only), I16HEX
 * (segment records) and I32HEX (linear records).
 */
module HexFormats {
  import opened Wrappers
  import opened RecordTypes

  datatype HexFormat = I8HEX | I16HEX | I32HEX
  {
    /** HexFormat.getAddressExtension: the extension record the variant uses, if any. */
    function AddressExtension(): (t: Option<RecordType>)
      ensures t.Some? <==> this != I8HEX
      ensures t.Some? ==> t.value.IsAddressExtension()
    {
      match this
      case I8HEX => None
      case I16HEX => Some(ExtendedSegmentAddress)
      case I32HEX => Some(ExtendedLinearAddress)
    }

    /** HexFormat.getStartRecord: the start address record the variant uses, if any. */
    function StartRecord(): (t: Option<RecordType>)
      ensures t.Some? <==> this != I8HEX
      ensures t.Some? ==> !t.value.IsAddressExtension() && t.value != Data && t.value != EndOfFile
    {
      match this
      case I8HEX => None
      case I16HEX => Some(StartSegmentAddress)
      case I32HEX => Some(StartLinearAddress)
    }
  }

  /**
   * HexFormat.determineFormat: the variant a record type belongs to; the
   * I32HEX records are looked at first, then the I16HEX ones, and every
   * other type (data, end of file) says I8HEX.
   */
  function DetermineFormat(t: RecordType): (f: HexFormat)
    ensures f == I32HEX <==> t == ExtendedLinearAddress || t == StartLinearAddress
    ensures f == I16HEX <==> t == ExtendedSegmentAddress || t == StartSegmentAddress
    ensures f == I8HEX <==> t == Data || t == EndOfFile
  {
    if Some(t) == I32HEX.AddressExtension() || Some(t) == I32HEX.StartRecord() then I32HEX
    else if Some(t) == I16HEX.AddressExtension() || Some(t) == I16HEX.StartRecord() then I16HEX
    else I8HEX
  }

  /** A variant's own extension and start records identify the variant. */
  lemma DetermineFormatOfOwnRecords(f: HexFormat)
    requires f != I8HEX
    ensures DetermineFormat(f.AddressExtension().value) == f
    ensures DetermineFormat(f.StartRecord().value) == f
  {
  }
}
