/** The element type tags of binout variables and the two lookup tables over them. */
module BinoutTypes {
  import opened Wrappers

  const TYPE_INT8: nat := 1
  const TYPE_INT16: nat := 2
  const TYPE_INT32: nat := 3
  const TYPE_INT64: nat := 4
  const TYPE_UINT8: nat := 5
  const TYPE_UINT16: nat := 6
  const TYPE_UINT32: nat := 7
  const TYPE_UINT64: nat := 8
  const TYPE_FLOAT32: nat := 9
  const TYPE_FLOAT64: nat := 10

  /** The size the size table reports for a tag it does not know. */
  const UNKNOWN_SIZE: nat := 255
  const UNKNOWN_NAME: string := "UNKNOWN"

  /** A tag the reader understands: 1 to 10. */
  predicate IsKnownTag(tag: nat) {
    TYPE_INT8 <= tag <= TYPE_FLOAT64
  }

  datatype Kind = Signed | Unsigned | Float

  /** An element type described independently of its numeric tag. */
  datatype ElementType = ElementType(kind: Kind, width: nat)

  /** The ten element types the format defines. */
  predicate IsElementType(e: ElementType) {
    match e.kind
    case Float => e.width == 4 || e.width == 8
    case _ => e.width == 1 || e.width == 2 || e.width == 4 || e.width == 8
  }

  /** Tag order: signed widths, then unsigned widths, then the two floats. */
  function ToTag(e: ElementType): (tag: nat)
    requires IsElementType(e)
    ensures IsKnownTag(tag)
  {
    var slot := if e.width == 1 then 0 else if e.width == 2 then 1 else if e.width == 4 then 2 else 3;
    match e.kind
    case Signed => TYPE_INT8 + slot
    case Unsigned => TYPE_UINT8 + slot
    case Float => if e.width == 4 then TYPE_FLOAT32 else TYPE_FLOAT64
  }

  function FromTag(tag: nat): (r: Option<ElementType>)
    ensures r.Some? <==> IsKnownTag(tag)
    ensures r.Some? ==> IsElementType(r.value) && ToTag(r.value) == tag
  {
    if tag == TYPE_INT8 then Some(ElementType(Signed, 1))
    else if tag == TYPE_INT16 then Some(ElementType(Signed, 2))
    else if tag == TYPE_INT32 then Some(ElementType(Signed, 4))
    else if tag == TYPE_INT64 then Some(ElementType(Signed, 8))
    else if tag == TYPE_UINT8 then Some(ElementType(Unsigned, 1))
    else if tag == TYPE_UINT16 then Some(ElementType(Unsigned, 2))
    else if tag == TYPE_UINT32 then Some(ElementType(Unsigned, 4))
    else if tag == TYPE_UINT64 then Some(ElementType(Unsigned, 8))
    else if tag == TYPE_FLOAT32 then Some(ElementType(Float, 4))
    else if tag == TYPE_FLOAT64 then Some(ElementType(Float, 8))
    else None
  }

  /** An independent spelling of a type's name: kind prefix followed by its bit width. */
  function NameOf(e: ElementType): string
    requires IsElementType(e)
  {
    var prefix := match e.kind case Signed => "INT" case Unsigned => "UINT" case Float => "FLOAT";
    var bits := if e.width == 1 then "8" else if e.width == 2 then "16" else if e.width == 4 then "32" else "64";
    prefix + bits
  }

  /** `_binout_get_type_size`: the width in bytes of one element of the tagged type. */
  function TypeSize(tag: nat): (size: nat)
    ensures IsKnownTag(tag) ==> size == FromTag(tag).value.width
    ensures !IsKnownTag(tag) ==> size == UNKNOWN_SIZE
  {
    if tag == TYPE_INT8 || tag == TYPE_UINT8 then 1
    else if tag == TYPE_INT16 || tag == TYPE_UINT16 then 2
    else if tag == TYPE_INT32 || tag == TYPE_UINT32 || tag == TYPE_FLOAT32 then 4
    else if tag == TYPE_INT64 || tag == TYPE_UINT64 || tag == TYPE_FLOAT64 then 8
    else UNKNOWN_SIZE
  }

  /** `_binout_get_type_name`: the upper-case name of the tagged type. */
  function TypeName(tag: nat): (name: string)
    ensures IsKnownTag(tag) ==> name == NameOf(FromTag(tag).value)
    ensures !IsKnownTag(tag) ==> name == UNKNOWN_NAME
    ensures |name| <= 7
  {
    if tag == TYPE_INT8 then "INT8"
    else if tag == TYPE_INT16 then "INT16"
    else if tag == TYPE_INT32 then "INT32"
    else if tag == TYPE_INT64 then "INT64"
    else if tag == TYPE_UINT8 then "UINT8"
    else if tag == TYPE_UINT16 then "UINT16"
    else if tag == TYPE_UINT32 then "UINT32"
    else if tag == TYPE_UINT64 then "UINT64"
    else if tag == TYPE_FLOAT32 then "FLOAT32"
    else if tag == TYPE_FLOAT64 then "FLOAT64"
    else UNKNOWN_NAME
  }

  /** Distinct known tags have distinct names, none of them "UNKNOWN", and no name exceeds 7 chars. */
  lemma TypeNamesDistinct(a: nat, b: nat)
    ensures IsKnownTag(a) ==> TypeName(a) != UNKNOWN_NAME
    ensures IsKnownTag(a) && IsKnownTag(b) && a != b ==> TypeName(a) != TypeName(b)
    ensures |TypeName(a)| <= 7
  {
  }

  /** The element types and the known tags are in one-to-one correspondence. */
  lemma TagRoundTrip(e: ElementType)
    requires IsElementType(e)
    ensures FromTag(ToTag(e)) == Some(e)
  {
  }
}
