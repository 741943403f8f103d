/**
 * Arithmetic of extended addresses.  An extended linear address record
 * carries the upper 16 bits of a 32-bit address; an extended segment
 * address record carries a segment whose value times 16 is added to the
 * 16-bit address of the data records that follow it.
 */
module AddressExtensionUtils {
  import opened Wrappers
  import opened ByteUtils
  import opened RecordTypes

  /** InvalidParameterException: the record type is not an extension type. */
  datatype AddressError = NotAnAddressExtension(t: RecordType)

  /**
   * AddressExtensionUtils.extensionOffset: the offset an extension record
   * adds to the addresses governed by it (its payload shifted left by 16
   * bits for a linear record, times 16 for a segment record).
   */
  function ExtensionOffset(t: RecordType, data: seq<byte>): (r: Result<int, AddressError>)
    ensures r.Err? <==> !t.IsAddressExtension()
    ensures r.Err? ==> r.error.t == t
    ensures r.Ok? ==> 0 <= r.value
    ensures r.Ok? && t == ExtendedLinearAddress ==> r.value == BigEndian(data) * TWO_TO_16
    ensures r.Ok? && t == ExtendedSegmentAddress ==> r.value == BigEndian(data) * 16
    ensures r.Ok? && t == ExtendedLinearAddress ==> r.value % TWO_TO_16 == 0
    ensures r.Ok? && t == ExtendedSegmentAddress ==> r.value % 16 == 0
    ensures r.Ok? && |data| == 2 && t == ExtendedLinearAddress ==> r.value <= 0xFFFF_0000
    ensures r.Ok? && |data| == 2 && t == ExtendedSegmentAddress ==> r.value <= 0xF_FFF0
  {
    BigEndianBound(data);
    assert Pow256(2) == TWO_TO_16;
    if t == ExtendedLinearAddress then Ok(BigEndian(data) * TWO_TO_16)
    else if t == ExtendedSegmentAddress then Ok(BigEndian(data) * 16)
    else Err(NotAnAddressExtension(t))
  }

  /** The addresses an extension of kind `t` can cover at all. */
  predicate InReach(t: RecordType, fullAddress: int)
  {
    if t == ExtendedLinearAddress then 0 < fullAddress <= 0xFFFF_FFFF
    else if t == ExtendedSegmentAddress then 0 <= JavaDiv(fullAddress, 16) <= 0xFFFF_FFFF
    else true
  }

  /**
   * AddressExtensionUtils.extensionOffsetFromFullAddress: the payload value
   * of the extension record under which `fullAddress` lies at the lowest
   * possible offset.  The source asserts the ranges named by `InReach`.
   */
  function ExtensionOffsetFromFullAddress(t: RecordType, fullAddress: int): (r: Result<int32, AddressError>)
    requires InReach(t, fullAddress)
    ensures r.Err? <==> !t.IsAddressExtension()
    ensures r.Ok? && t == ExtendedLinearAddress ==>
      0 <= r.value <= 0xFFFF && 0 <= fullAddress - r.value * TWO_TO_16 <= 0xFFFF
    ensures r.Ok? && t == ExtendedSegmentAddress && 0 <= fullAddress <= 0xF_FFFF ==>
      0 <= r.value <= 0xFFFF && 0 <= fullAddress - r.value * 16 <= 0xF
  {
    if t == ExtendedLinearAddress then Ok(ToInt32(fullAddress / TWO_TO_16))
    else if t == ExtendedSegmentAddress then Ok(ToInt32(JavaDiv(fullAddress, 16)))
    else Err(NotAnAddressExtension(t))
  }

  /** AddressExtensionUtils.fullAddress: the extension offset plus the record's own address. */
  function FullAddress(t: RecordType, extension: seq<byte>, relativeAddress: int32): (r: Result<int, AddressError>)
    ensures r.Err? <==> !t.IsAddressExtension()
    ensures r.Ok? ==> r.value - relativeAddress == ExtensionOffset(t, extension).value
  {
    match ExtensionOffset(t, extension)
    case Ok(offset) => Ok(offset + relativeAddress)
    case Err(e) => Err(e)
  }

  /** The largest address an extension of kind `t` can reach with a 16-bit record address. */
  function MaxReach(t: RecordType): int
  {
    if t == ExtendedLinearAddress then 0xFFFF_FFFF else 0xF_FFFF
  }

  /**
   * The payload built for a new extension record (the offset value cast to
   * short and written as two bytes) decodes to an offset that places the
   * address within the 16-bit reach of a record: this is what makes a new
   * extension record usable for the address it was created for.
   */
  lemma NewExtensionCoversAddress(t: RecordType, fullAddress: int)
    requires t.IsAddressExtension()
    requires 0 < fullAddress <= MaxReach(t)
    ensures InReach(t, fullAddress)
    ensures ExtensionOffsetFromFullAddress(t, fullAddress).Ok?
    ensures var o := ExtensionOffset(t, ShortToByteArray(ToInt16(ExtensionOffsetFromFullAddress(t, fullAddress).value)));
      o.Ok? && 0 <= fullAddress - o.value <= 0xFFFF
  {
    var v := ExtensionOffsetFromFullAddress(t, fullAddress).value;
    ShortCastRoundTrip(v);
  }
}
