/** The binout file header and the checks `binout_open` applies to it before parsing. */
module Header {
  import opened Wrappers

  /** Values of the header's endianness and float-format bytes that the reader supports
      (named constants of the library's defines header). */
  const HEADER_LITTLE_ENDIAN: nat := 1
  const HEADER_FLOAT_IEEE: nat := 0
  /** Widest integer field the reader can decode into its `uint64_t` variables. */
  const MAX_FIELD_SIZE: nat := 8

  /** The decoded header bytes that the reader looks at. */
  datatype Header = Header(
    endianness: nat,
    lengthFieldSize: nat,
    commandFieldSize: nat,
    typeidFieldSize: nat,
    floatFormat: nat)

  /** The header describes a stream this reader can parse. */
  predicate Supported(h: Header) {
    && h.endianness == HEADER_LITTLE_ENDIAN
    && h.lengthFieldSize <= MAX_FIELD_SIZE
    && h.commandFieldSize <= MAX_FIELD_SIZE
    && h.typeidFieldSize <= MAX_FIELD_SIZE
    && h.floatFormat == HEADER_FLOAT_IEEE
  }

  /** The header checks of `binout_open`, in the order the source makes them: the message
      of the first one that fails, or None when the file is accepted. */
  function CheckHeader(h: Header): (err: Option<string>)
    ensures err.None? <==> Supported(h)
    ensures h.endianness != HEADER_LITTLE_ENDIAN ==> err == Some("Unsupported Endianess")
    ensures h.endianness == HEADER_LITTLE_ENDIAN && h.lengthFieldSize > MAX_FIELD_SIZE
            ==> err == Some("The record length field size is unsupported")
    ensures h.endianness == HEADER_LITTLE_ENDIAN && h.lengthFieldSize <= MAX_FIELD_SIZE
            && h.commandFieldSize > MAX_FIELD_SIZE
            ==> err == Some("The command length field size is unsupported")
    ensures h.endianness == HEADER_LITTLE_ENDIAN && h.lengthFieldSize <= MAX_FIELD_SIZE
            && h.commandFieldSize <= MAX_FIELD_SIZE && h.typeidFieldSize > MAX_FIELD_SIZE
            ==> err == Some("The typeid field size is unsupported")
    ensures h.floatFormat != HEADER_FLOAT_IEEE && h.endianness == HEADER_LITTLE_ENDIAN
            && h.lengthFieldSize <= MAX_FIELD_SIZE && h.commandFieldSize <= MAX_FIELD_SIZE
            && h.typeidFieldSize <= MAX_FIELD_SIZE
            ==> err == Some("The float format is unsupported")
  {
    if h.endianness != HEADER_LITTLE_ENDIAN then Some("Unsupported Endianess")
    else if h.lengthFieldSize > MAX_FIELD_SIZE then Some("The record length field size is unsupported")
    else if h.commandFieldSize > MAX_FIELD_SIZE then Some("The command length field size is unsupported")
    else if h.typeidFieldSize > MAX_FIELD_SIZE then Some("The typeid field size is unsupported")
    else if h.floatFormat != HEADER_FLOAT_IEEE then Some("The float format is unsupported")
    else None
  }
}
