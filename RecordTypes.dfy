/** The six Intel HEX record types and their one-byte codes. */
module RecordTypes {
  import opened Wrappers

  datatype RecordType =
    | Data
    | EndOfFile
    | ExtendedSegmentAddress
    | StartSegmentAddress
    | ExtendedLinearAddress
    | StartLinearAddress
  {
    /** RecordType.getOrdinal: the code written in a record's type field. */
    function Ordinal(): (code: int)
      ensures 0 <= code <= 5
    {
      match this
      case Data => 0
      case EndOfFile => 1
      case ExtendedSegmentAddress => 2
      case StartSegmentAddress => 3
      case ExtendedLinearAddress => 4
      case StartLinearAddress => 5
    }

    /** The two record types that set the upper part of the following addresses. */
    predicate IsAddressExtension() {
      this == ExtendedSegmentAddress || this == ExtendedLinearAddress
    }
  }

  /** The exception raised for a code that names no record type. */
  datatype EnumConstantNotPresent = EnumConstantNotPresent(code: int)

  /**
   * RecordType.fromValue: the record type with the given signed byte code,
   * or the exception for any code outside 0..5.
   */
  function FromValue(code: int): (r: Result<RecordType, EnumConstantNotPresent>)
    requires -128 <= code < 128
    ensures r.Ok? <==> 0 <= code <= 5
    ensures r.Ok? ==> r.value.Ordinal() == code
    ensures r.Err? ==> r.error.code == code
  {
    match code
    case 0 => Ok(Data)
    case 1 => Ok(EndOfFile)
    case 2 => Ok(ExtendedSegmentAddress)
    case 3 => Ok(StartSegmentAddress)
    case 4 => Ok(ExtendedLinearAddress)
    case 5 => Ok(StartLinearAddress)
    case _ => Err(EnumConstantNotPresent(code))
  }

  /** Every record type is recovered from its code. */
  lemma OrdinalRoundTrip(t: RecordType)
    ensures FromValue(t.Ordinal()) == Ok(t)
  {
  }

  /** Distinct record types have distinct codes. */
  lemma OrdinalInjective(t: RecordType, u: RecordType)
    ensures t.Ordinal() == u.Ordinal() <==> t == u
  {
    OrdinalRoundTrip(t);
    OrdinalRoundTrip(u);
  }
}
