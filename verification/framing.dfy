/** Record encodings and the facts that the scan decodes them as the format lays them out:
    the payload length and offset of a DATA record, the skip over any other record, and
    where the next record starts. */
module Framing {
  import opened Wrappers
  import opened Bytes
  import opened Header
  import opened Paths
  import opened Directory
  import opened Records

  /** Field widths that the scan can read and that hold `len` and `command`. */
  predicate FieldsHold(h: Header, len: nat, command: nat) {
    && Supported(h)
    && 0 < h.lengthFieldSize && 0 < h.commandFieldSize
    && len < Pow256(h.lengthFieldSize) && command < Pow256(h.commandFieldSize)
  }

  /** Length field, command field, then the rest; the length counts the whole record. */
  function EncodeRecord(h: Header, command: nat, rest: seq<byte>): (r: seq<byte>)
    ensures |r| == h.lengthFieldSize + h.commandFieldSize + |rest|
  {
    var len := h.lengthFieldSize + h.commandFieldSize + |rest|;
    ToLittleEndian(len, h.lengthFieldSize) + ToLittleEndian(command, h.commandFieldSize) + rest
  }

  /** The rest of a DATA record: type tag, name length, name, payload. */
  function DataRest(h: Header, typeId: nat, name: seq<byte>, payload: seq<byte>): seq<byte>
    requires |name| < 256
  {
    ToLittleEndian(typeId, h.typeidFieldSize) + [|name|] + name + payload
  }

  /** `rec` sits in `bytes` at `pos`. */
  predicate At(bytes: seq<byte>, pos: nat, rec: seq<byte>) {
    pos + |rec| <= |bytes| && bytes[pos..pos + |rec|] == rec
  }

  /** A sequence placed at `pos` places each of its two parts. */
  lemma AtSplit(bytes: seq<byte>, pos: nat, a: seq<byte>, b: seq<byte>)
    requires At(bytes, pos, a + b)
    ensures At(bytes, pos, a) && At(bytes, pos + |a|, b)
  {
    var ab := a + b;
    assert bytes[pos..pos + |a|] == bytes[pos..pos + |ab|][..|a|];
    assert ab[..|a|] == a;
    assert bytes[pos + |a|..pos + |ab|] == bytes[pos..pos + |ab|][|a|..];
    assert ab[|a|..] == b;
  }

  /** An encoded field placed at `pos` reads back as its value. */
  lemma FieldAt(bytes: seq<byte>, pos: nat, v: nat, k: nat)
    requires 0 < k && v < Pow256(k) && At(bytes, pos, ToLittleEndian(v, k))
    ensures ReadField(bytes, pos, k) == Some(v)
  {
    DecodeEncode(v, k);
  }

  /** Reading the two leading fields of an encoded record gives back its length and command. */
  lemma LeadingFields(h: Header, command: nat, rest: seq<byte>, bytes: seq<byte>, pos: nat)
    requires FieldsHold(h, h.lengthFieldSize + h.commandFieldSize + |rest|, command)
    requires At(bytes, pos, EncodeRecord(h, command, rest))
    ensures ReadField(bytes, pos, h.lengthFieldSize) == Some(h.lengthFieldSize + h.commandFieldSize + |rest|)
    ensures ReadField(bytes, pos + h.lengthFieldSize, h.commandFieldSize) == Some(command)
    ensures At(bytes, pos + h.lengthFieldSize + h.commandFieldSize, rest)
  {
    var l, c := h.lengthFieldSize, h.commandFieldSize;
    var a, b := ToLittleEndian(l + c + |rest|, l), ToLittleEndian(command, c);
    AtSplit(bytes, pos, a + b, rest);
    AtSplit(bytes, pos, a, b);
    FieldAt(bytes, pos, l + c + |rest|, l);
    FieldAt(bytes, pos + l, command, c);
  }

  /** The scan state after a DATA record whose payload of `payloadLength` bytes starts at
      `filePos`: the scan goes on right after the payload and the current folder gains one
      variable that points at the payload. */
  function DataInserted(st: ParseState, fileIndex: nat, typeId: nat, name: seq<byte>, payloadLength: nat, filePos: nat): ParseState
    requires st.folder.Some?
  {
    var entry := FileEntry(ENTRY_KIND_FILE, CString(name), typeId % 256, payloadLength, fileIndex % 256, filePos);
    st.(pos := filePos + payloadLength, events := st.events + [InsertFile(st.folder.value, entry)])
  }

  /** A DATA record read at the scan position inserts one variable whose size is the payload
      length and whose offset is where the payload starts, right after the length, command
      and type fields, the name length byte and the name; the next record starts right after
      the payload. */
  lemma DataRecordFraming(h: Header, typeId: nat, name: seq<byte>, payload: seq<byte>,
                          bytes: seq<byte>, fileIndex: nat, st: ParseState)
    requires ValidState(st) && st.folder.Some?
    requires |name| < 256
    requires 0 < h.typeidFieldSize && typeId < Pow256(h.typeidFieldSize)
    requires FieldsHold(h, |EncodeRecord(h, COMMAND_DATA, DataRest(h, typeId, name, payload))|, COMMAND_DATA)
    requires st.pos + |EncodeRecord(h, COMMAND_DATA, DataRest(h, typeId, name, payload))| < SIGNED_LIMIT
    requires At(bytes, st.pos, EncodeRecord(h, COMMAND_DATA, DataRest(h, typeId, name, payload)))
    ensures Step(h, bytes, fileIndex, st)
            == Next(DataInserted(st, fileIndex, typeId, name, |payload|,
                                 st.pos + h.lengthFieldSize + h.commandFieldSize + h.typeidFieldSize + DATA_NAME_LENGTH + |name|))
    ensures Step(h, bytes, fileIndex, st).st.pos == st.pos + |EncodeRecord(h, COMMAND_DATA, DataRest(h, typeId, name, payload))|
  {
    var rest := DataRest(h, typeId, name, payload);
    var len := h.lengthFieldSize + h.commandFieldSize + |rest|;
    assert |EncodeRecord(h, COMMAND_DATA, rest)| == len;
    LeadingFields(h, COMMAND_DATA, rest, bytes, st.pos);
    DataRecordAfterFields(h, typeId, name, payload, bytes, fileIndex, st, len);
  }

  /** The DATA case once the length and command fields have been read. */
  lemma DataRecordAfterFields(h: Header, typeId: nat, name: seq<byte>, payload: seq<byte>,
                              bytes: seq<byte>, fileIndex: nat, st: ParseState, len: nat)
    requires Supported(h) && ValidState(st) && st.folder.Some?
    requires |name| < 256
    requires 0 < h.typeidFieldSize && typeId < Pow256(h.typeidFieldSize)
    requires len == h.lengthFieldSize + h.commandFieldSize + |DataRest(h, typeId, name, payload)| && st.pos + len < SIGNED_LIMIT
    requires ReadField(bytes, st.pos, h.lengthFieldSize) == Some(len)
    requires ReadField(bytes, st.pos + h.lengthFieldSize, h.commandFieldSize) == Some(COMMAND_DATA)
    requires At(bytes, st.pos + h.lengthFieldSize + h.commandFieldSize, DataRest(h, typeId, name, payload))
    ensures Step(h, bytes, fileIndex, st)
            == Next(DataInserted(st, fileIndex, typeId, name, |payload|,
                                 st.pos + h.lengthFieldSize + h.commandFieldSize + h.typeidFieldSize + DATA_NAME_LENGTH + |name|))
  {
    var rest := DataRest(h, typeId, name, payload);
    var p := st.pos + h.lengthFieldSize + h.commandFieldSize;
    var result := Next(DataInserted(st, fileIndex, typeId, name, |payload|,
                                    st.pos + h.lengthFieldSize + h.commandFieldSize + h.typeidFieldSize + DATA_NAME_LENGTH + |name|));
    DataRestFraming(h, typeId, name, payload, bytes, fileIndex, st, p);
    DataStep(h, bytes, fileIndex, st, len, |rest|, result);
    var r := Step(h, bytes, fileIndex, st);
    assert r == result;
  }

  lemma DataStep(h: Header, bytes: seq<byte>, fileIndex: nat, st: ParseState, len: nat, restLength: nat, result: StepResult)
    requires Supported(h) && ValidState(st) && st.pos != |bytes|
    requires ReadField(bytes, st.pos, h.lengthFieldSize) == Some(len)
    requires ReadField(bytes, st.pos + h.lengthFieldSize, h.commandFieldSize) == Some(COMMAND_DATA)
    requires len == h.lengthFieldSize + h.commandFieldSize + restLength
    requires DataRecord(h, bytes, fileIndex, st, restLength, st.pos + h.lengthFieldSize + h.commandFieldSize) == result
    ensures Step(h, bytes, fileIndex, st) == result
  {
    var p := st.pos + h.lengthFieldSize + h.commandFieldSize;
    StepIsRecordBody(h, bytes, fileIndex, st, len, COMMAND_DATA);
    var s1 := SubU64(len, h.lengthFieldSize);
    assert s1 == h.commandFieldSize + restLength;
    var s2 := SubU64(s1, h.commandFieldSize);
    assert s2 == restLength;
    RecordBodyIsData(h, bytes, fileIndex, st, len, p);
    assert RecordBody(h, bytes, fileIndex, st, len, COMMAND_DATA, p) == DataRecord(h, bytes, fileIndex, st, s2, p);
  }

  /** The DATA branch, given the bytes of the record after its two leading fields. */
  lemma DataRestFraming(h: Header, typeId: nat, name: seq<byte>, payload: seq<byte>,
                        bytes: seq<byte>, fileIndex: nat, st: ParseState, p: nat)
    requires Supported(h) && ValidState(st) && st.folder.Some?
    requires |name| < 256
    requires 0 < h.typeidFieldSize && typeId < Pow256(h.typeidFieldSize)
    requires p + |DataRest(h, typeId, name, payload)| < SIGNED_LIMIT
    requires At(bytes, p, DataRest(h, typeId, name, payload))
    ensures DataRecord(h, bytes, fileIndex, st, |DataRest(h, typeId, name, payload)|, p)
            == Next(DataInserted(st, fileIndex, typeId, name, |payload|, p + h.typeidFieldSize + DATA_NAME_LENGTH + |name|))
  {
    var rest := DataRest(h, typeId, name, payload);
    var t := h.typeidFieldSize;
    var tid := ToLittleEndian(typeId, t);
    assert rest == tid + [|name|] + name + payload;
    AtSplit(bytes, p, tid + [|name|] + name, payload);
    AtSplit(bytes, p, tid + [|name|], name);
    AtSplit(bytes, p, tid, [|name|]);
    FieldAt(bytes, p, typeId, t);
    assert ToLittleEndian(|name|, 1) == [|name|];
    FieldAt(bytes, p + t, |name|, DATA_NAME_LENGTH);
    NameRead(bytes, p + t + 1, name);
    DataSkip(h, bytes, fileIndex, st, p, typeId, name, |payload|, |rest|, p + t + 1 + |name|);
  }

  lemma NameRead(bytes: seq<byte>, pos: nat, name: seq<byte>)
    requires At(bytes, pos, name)
    ensures ReadBytes(bytes, pos, |name|) == Some(name)
  {
  }

  /** With the type tag, name length and name read, the payload is skipped. */
  lemma DataSkip(h: Header, bytes: seq<byte>, fileIndex: nat, st: ParseState, p: nat,
                 typeId: nat, name: seq<byte>, payloadLength: nat, restLength: nat, filePos: nat)
    requires Supported(h) && ValidState(st) && st.folder.Some? && |name| < 256
    requires restLength == h.typeidFieldSize + DATA_NAME_LENGTH + |name| + payloadLength && p + restLength < SIGNED_LIMIT
    requires filePos == p + h.typeidFieldSize + DATA_NAME_LENGTH + |name|
    requires ReadField(bytes, p, h.typeidFieldSize) == Some(typeId)
    requires ReadField(bytes, p + h.typeidFieldSize, DATA_NAME_LENGTH) == Some(|name|)
    requires ReadBytes(bytes, p + h.typeidFieldSize + DATA_NAME_LENGTH, |name|) == Some(name)
    ensures DataRecord(h, bytes, fileIndex, st, restLength, p)
            == Next(DataInserted(st, fileIndex, typeId, name, payloadLength, filePos))
  {
    assert SubU64(SubU64(SubU64(restLength, h.typeidFieldSize), DATA_NAME_LENGTH), |name|) == payloadLength;
    DataRecordIsSkip(h, bytes, fileIndex, st, restLength, p, typeId, |name|, name);
    PayloadSkipped(fileIndex, st, typeId, name, filePos, payloadLength);
  }

  /** Skipping a payload that ends at a position a `long` can hold ends the record right
      after it and inserts the variable. */
  lemma PayloadSkipped(fileIndex: nat, st: ParseState, typeId: nat, name: seq<byte>, filePos: nat, payloadLength: nat)
    requires ValidState(st) && st.folder.Some? && filePos + payloadLength < SIGNED_LIMIT
    ensures SkipPayload(fileIndex, st, typeId, name, filePos, payloadLength)
            == Next(DataInserted(st, fileIndex, typeId, name, payloadLength, filePos))
  {
    assert Seek(filePos, ToSigned64(payloadLength)) == Some(filePos + payloadLength);
  }

  /** Any record other than CD and DATA is skipped by exactly its data length. */
  lemma OtherRecordSkipped(h: Header, command: nat, rest: seq<byte>, bytes: seq<byte>, fileIndex: nat, st: ParseState)
    requires ValidState(st) && command != COMMAND_CD && command != COMMAND_DATA
    requires var len := h.lengthFieldSize + h.commandFieldSize + |rest|;
             FieldsHold(h, len, command) && st.pos + len < SIGNED_LIMIT
    requires At(bytes, st.pos, EncodeRecord(h, command, rest))
    ensures Step(h, bytes, fileIndex, st) == Next(st.(pos := st.pos + |EncodeRecord(h, command, rest)|))
  {
    var len := h.lengthFieldSize + h.commandFieldSize + |rest|;
    assert |EncodeRecord(h, command, rest)| == len;
    LeadingFields(h, command, rest, bytes, st.pos);
    OtherRecordAfterFields(h, command, bytes, fileIndex, st, len, |rest|);
  }

  /** The skip once the length and command fields have been read. */
  lemma OtherRecordAfterFields(h: Header, command: nat, bytes: seq<byte>, fileIndex: nat, st: ParseState, len: nat, d: nat)
    requires Supported(h) && ValidState(st) && command != COMMAND_CD && command != COMMAND_DATA
    requires len == h.lengthFieldSize + h.commandFieldSize + d && st.pos + len < SIGNED_LIMIT && st.pos != |bytes|
    requires ReadField(bytes, st.pos, h.lengthFieldSize) == Some(len)
    requires ReadField(bytes, st.pos + h.lengthFieldSize, h.commandFieldSize) == Some(command)
    ensures Step(h, bytes, fileIndex, st) == Next(st.(pos := st.pos + len))
  {
    OtherRecordBody(h, bytes, fileIndex, st, len, command, d);
    StepIsRecordBody(h, bytes, fileIndex, st, len, command);
  }

  lemma OtherRecordBody(h: Header, bytes: seq<byte>, fileIndex: nat, st: ParseState, len: nat, command: nat, d: nat)
    requires Supported(h) && ValidState(st) && command != COMMAND_CD && command != COMMAND_DATA
    requires len == h.lengthFieldSize + h.commandFieldSize + d && st.pos + len < SIGNED_LIMIT
    ensures len < U64_MODULUS
    ensures RecordBody(h, bytes, fileIndex, st, len, command, st.pos + h.lengthFieldSize + h.commandFieldSize)
            == Next(st.(pos := st.pos + len))
  {
    OtherLength(h, len, d);
  }

  /** The record data length of a record is what follows its two leading fields. */
  lemma OtherLength(h: Header, len: nat, d: nat)
    requires Supported(h) && len == h.lengthFieldSize + h.commandFieldSize + d && len < SIGNED_LIMIT
    ensures len < U64_MODULUS
    ensures SubU64(SubU64(len, h.lengthFieldSize), h.commandFieldSize) == d && ToSigned64(d) == d
  {
  }

  /** A CD record's whole data is the path it names, and the scan continues after it. */
  lemma CdRecordFraming(h: Header, path: seq<byte>, bytes: seq<byte>, fileIndex: nat, st: ParseState)
    requires ValidState(st) && |path| < PATH_BUFFER_SIZE
    requires FieldsHold(h, |EncodeRecord(h, COMMAND_CD, path)|, COMMAND_CD)
    requires At(bytes, st.pos, EncodeRecord(h, COMMAND_CD, path))
    ensures Step(h, bytes, fileIndex, st)
            == ChangeFolder(st, CString(path), st.pos + h.lengthFieldSize + h.commandFieldSize + |path|)
  {
    var len := h.lengthFieldSize + h.commandFieldSize + |path|;
    assert |EncodeRecord(h, COMMAND_CD, path)| == len;
    LeadingFields(h, COMMAND_CD, path, bytes, st.pos);
    NameRead(bytes, st.pos + h.lengthFieldSize + h.commandFieldSize, path);
    CdRecordAfterFields(h, path, bytes, fileIndex, st, len);
  }

  /** The CD case once the length and command fields have been read. */
  lemma CdRecordAfterFields(h: Header, path: seq<byte>, bytes: seq<byte>, fileIndex: nat, st: ParseState, len: nat)
    requires Supported(h) && ValidState(st) && |path| < PATH_BUFFER_SIZE
    requires len == h.lengthFieldSize + h.commandFieldSize + |path| && st.pos != |bytes|
    requires ReadField(bytes, st.pos, h.lengthFieldSize) == Some(len)
    requires ReadField(bytes, st.pos + h.lengthFieldSize, h.commandFieldSize) == Some(COMMAND_CD)
    requires ReadBytes(bytes, st.pos + h.lengthFieldSize + h.commandFieldSize, |path|) == Some(path)
    ensures Step(h, bytes, fileIndex, st)
            == ChangeFolder(st, CString(path), st.pos + h.lengthFieldSize + h.commandFieldSize + |path|)
  {
    CdRecordBody(h, bytes, fileIndex, st, len, path);
    StepIsRecordBody(h, bytes, fileIndex, st, len, COMMAND_CD);
  }

  /** The CD branch once the record's path is known to be readable. */
  lemma CdRecordBody(h: Header, bytes: seq<byte>, fileIndex: nat, st: ParseState, len: nat, path: seq<byte>)
    requires Supported(h) && ValidState(st) && |path| < PATH_BUFFER_SIZE
    requires len == h.lengthFieldSize + h.commandFieldSize + |path|
    requires ReadBytes(bytes, st.pos + h.lengthFieldSize + h.commandFieldSize, |path|) == Some(path)
    ensures len < U64_MODULUS
    ensures RecordBody(h, bytes, fileIndex, st, len, COMMAND_CD, st.pos + h.lengthFieldSize + h.commandFieldSize)
            == ChangeFolder(st, CString(path), st.pos + h.lengthFieldSize + h.commandFieldSize + |path|)
  {
    CdLength(h, len, |path|);
    RecordBodyIsCd(h, bytes, fileIndex, st, len, st.pos + h.lengthFieldSize + h.commandFieldSize, |path|, path);
  }

  /** The record data length of a CD record is the length of its path. */
  lemma CdLength(h: Header, len: nat, pathLength: nat)
    requires Supported(h) && pathLength < PATH_BUFFER_SIZE
    requires len == h.lengthFieldSize + h.commandFieldSize + pathLength
    ensures len < U64_MODULUS
    ensures SubU64(SubU64(len, h.lengthFieldSize), h.commandFieldSize) == pathLength
  {
  }

  /** Eight-byte record lengths, one-byte command and type fields. */
  const WIDE_HEADER: Header := Header(HEADER_LITTLE_ENDIAN, 8, 1, 1, HEADER_FLOAT_IEEE)

  /** After one leading byte, a DATA record of length 2^63 - 1 naming "v": its payload would
      end at 2^63, one past the largest `long` file position. */
  const BEYOND_LONG_BYTES: seq<byte> := [0, 255, 255, 255, 255, 255, 255, 255, 127, 3, 1, 1, 118]

  /** The length field of that record holds 2^63 - 1. */
  lemma BeyondLongLength()
    ensures ReadField(BEYOND_LONG_BYTES, 1, 8) == Some(SIGNED_LIMIT - 1)
  {
    var f := BEYOND_LONG_BYTES[1..9];
    assert f == [255, 255, 255, 255, 255, 255, 255, 127];
    assert LittleEndian(f[7..]) == 127;
    assert LittleEndian(f[6..]) == 255 + 256 * 127 by { assert f[6..][1..] == f[7..]; }
    assert LittleEndian(f[5..]) == 255 + 256 * LittleEndian(f[6..]) by { assert f[5..][1..] == f[6..]; }
    assert LittleEndian(f[4..]) == 255 + 256 * LittleEndian(f[5..]) by { assert f[4..][1..] == f[5..]; }
    assert LittleEndian(f[3..]) == 255 + 256 * LittleEndian(f[4..]) by { assert f[3..][1..] == f[4..]; }
    assert LittleEndian(f[2..]) == 255 + 256 * LittleEndian(f[3..]) by { assert f[2..][1..] == f[3..]; }
    assert LittleEndian(f[1..]) == 255 + 256 * LittleEndian(f[2..]) by { assert f[1..][1..] == f[2..]; }
    assert LittleEndian(f) == 255 + 256 * LittleEndian(f[1..]);
  }

  /** The DATA fields after the length: command 3, type tag 1, a one-byte name "v". */
  lemma BeyondLongFields()
    ensures ReadField(BEYOND_LONG_BYTES, 9, 1) == Some(COMMAND_DATA)
    ensures ReadField(BEYOND_LONG_BYTES, 10, 1) == Some(1)
    ensures ReadField(BEYOND_LONG_BYTES, 11, 1) == Some(1)
    ensures ReadBytes(BEYOND_LONG_BYTES, 12, 1) == Some([118])
  {
    assert BEYOND_LONG_BYTES[9..10] == [3];
    assert BEYOND_LONG_BYTES[10..11] == [1];
    assert BEYOND_LONG_BYTES[11..12] == [1];
    assert BEYOND_LONG_BYTES[12..13] == [118];
  }

  /** The payload skip of such a record fails as `fseek` does, so no variable is inserted. */
  lemma SkipBeyondLongFails()
    ensures Step(WIDE_HEADER, BEYOND_LONG_BYTES, 0, ParseState(1, "/a", Some(["a"]), []))
            == Failed("Failed to skip Data of DATA record")
  {
    var bytes := BEYOND_LONG_BYTES;
    var st := ParseState(1, "/a", Some(["a"]), []);
    assert ValidState(st);
    BeyondLongLength();
    BeyondLongFields();
    StepIsRecordBody(WIDE_HEADER, bytes, 0, st, SIGNED_LIMIT - 1, COMMAND_DATA);
    RecordBodyIsData(WIDE_HEADER, bytes, 0, st, SIGNED_LIMIT - 1, 10);
    DataRecordIsSkip(WIDE_HEADER, bytes, 0, st, SIGNED_LIMIT - 10, 10, 1, 1, [118]);
    var r := SkipPayload(0, st, 1, [118], 13, SIGNED_LIMIT - 13);
    assert !r.Next?;
  }
}
