/** The record stream of one physical binout file and the forward scan `binout_open` makes
    over it. Every record is a length field, a command field and a command-specific rest;
    only CD (change the current folder) and DATA (declare a variable) records are
    interpreted, all others are skipped. */
module Records {
  import opened Wrappers
  import opened Bytes
  import opened Header
  import opened Paths
  import opened Directory

  const COMMAND_CD: nat := 2
  const COMMAND_DATA: nat := 3
  /** Width in bytes of the name-length field of a DATA record. */
  const DATA_NAME_LENGTH: nat := 1

  /** The scan's state: file position, current path string, the folder DATA records go to
      (None while it is still the C NULL), and the directory insertions made so far. */
  datatype ParseState = ParseState(
    pos: nat,
    cur: string,
    folder: Option<seq<string>>,
    events: seq<DirEvent>)

  predicate ValidState(st: ParseState) {
    IsAbsolute(st.cur) && |st.cur| < PATH_BUFFER_SIZE
  }

  /** The state a file's scan starts in: just after the header, at path "/". */
  function InitialState(start: nat): (st: ParseState)
    ensures ValidState(st) && st.pos == start
    ensures Components(st.cur) == [] && st.folder.None? && st.events == []
  {
    RenderRoundTrip([]);
    ParseState(start, [SEP], None, [])
  }

  /** One iteration of the scan: the end of the file was reached, a read or seek failed (the
      file is dropped), one of the source's `assert`s fired, or the next state. */
  datatype StepResult = Done | Failed(msg: string) | Aborted(msg: string) | Next(st: ParseState)

  /** `fread(&x, k, 1, f)` into a zeroed `uint64_t` on a little-endian host. */
  function ReadField(bytes: seq<byte>, pos: nat, k: nat): (r: Option<nat>)
    ensures r.Some? <==> 0 < k && pos + k <= |bytes|
    ensures r.Some? ==> r.value < Pow256(k)
    ensures r.Some? && k <= 8 ==> r.value < U64_MODULUS
  {
    if 0 < k && pos + k <= |bytes| then
      LittleEndianBound(bytes[pos..pos + k]);
      FieldFitsU64(k);
      Some(LittleEndian(bytes[pos..pos + k]))
    else None
  }

  /** `fread(buf, 1, n, f)`: all `n` bytes must be there; asking for none always succeeds. */
  function ReadBytes(bytes: seq<byte>, pos: nat, n: nat): (r: Option<seq<byte>>)
    ensures r.Some? ==> |r.value| == n
  {
    if n == 0 then Some([])
    else if pos + n <= |bytes| then Some(bytes[pos..pos + n])
    else None
  }

  /** `fseek(f, offset, SEEK_CUR)`: fails when the target is negative or beyond what a `long`
      file position can hold; seeking past the end of the file succeeds (the next read then
      fails). */
  function Seek(pos: nat, offset: int): (r: Option<nat>)
    ensures r.Some? <==> 0 <= pos + offset < SIGNED_LIMIT
    ensures r.Some? ==> r.value == pos + offset
  {
    if pos + offset < 0 || pos + offset >= SIGNED_LIMIT then None else Some(pos + offset)
  }

  /** A CD record's path applied to the scan state. An absolute path replaces the current
      path and enters its folder unless it is the root; a relative one is walked component by
      component and always enters the folder it lands in. */
  function ChangeFolder(st: ParseState, path: string, next: nat): (r: StepResult)
    requires ValidState(st) && |path| < PATH_BUFFER_SIZE
    ensures r.Next? || r.Aborted?
    ensures r.Next? ==> ValidState(r.st) && r.st.pos == next
    ensures r.Next? ==> |st.events| <= |r.st.events| <= |st.events| + 1 && r.st.events[..|st.events|] == st.events
  {
    if IsAbsolute(path) then
      var comps := Components(path);
      if comps == [] then Next(st.(pos := next, cur := path))
      else Next(ParseState(next, path, Some(comps), st.events + [InsertFolder(comps)]))
    else
      match CdRelativeChecked(st.cur, Components(path))
      case None => Aborted("current path exceeds its buffer")
      case Some(cur) =>
        Next(ParseState(next, cur, Some(Components(cur)), st.events + [InsertFolder(Components(cur))]))
  }

  /** What a CD record does to the current path, the current folder and the tree. */
  lemma ChangeFolderEffect(st: ParseState, path: string, next: nat)
    requires ValidState(st) && |path| < PATH_BUFFER_SIZE
    ensures var r := ChangeFolder(st, path, next);
            && (r.Next? && IsAbsolute(path) ==> r.st.cur == path)
            && (r.Next? && IsAbsolute(path) && Components(path) == [] ==> r.st.folder == st.folder && r.st.events == st.events)
            && (r.Next? && IsAbsolute(path) && Components(path) != [] ==>
                  r.st.folder == Some(Components(path)) && r.st.events == st.events + [InsertFolder(Components(path))])
            && (r.Aborted? ==> !IsAbsolute(path))
            && (r.Next? && !IsAbsolute(path) ==>
                  && r.st.cur == ChangeDirectory(st.cur, path)
                  && r.st.folder == Some(Components(r.st.cur))
                  && r.st.events == st.events + [InsertFolder(Components(r.st.cur))])
  {
  }

  /** The rest of a DATA record after its length and command fields, which end at `p`. */
  function DataRecord(h: Header, bytes: seq<byte>, fileIndex: nat, st: ParseState, recordDataLength: nat, p: nat): (r: StepResult)
    requires Supported(h) && ValidState(st) && recordDataLength < U64_MODULUS
    ensures r.Next? ==> ValidState(r.st) && r.st.cur == st.cur && r.st.folder == st.folder
    ensures r.Next? ==> st.folder.Some? && |r.st.events| == |st.events| + 1 && r.st.events[..|st.events|] == st.events
    ensures st.folder.None? ==> r.Aborted?
  {
    if st.folder.None? then Aborted("current_folder != NULL")
    else match ReadField(bytes, p, h.typeidFieldSize)
    case None => Failed("Failed to read TYPEID of DATA record")
    case Some(typeId) =>
      var p1 := p + h.typeidFieldSize;
      match ReadField(bytes, p1, DATA_NAME_LENGTH)
      case None => Failed("Failed to read Name length of DATA record")
      case Some(nameLength) =>
        var p2 := p1 + DATA_NAME_LENGTH;
        match ReadBytes(bytes, p2, nameLength)
        case None => Failed("Failed to read Name of DATA record")
        case Some(nameBytes) =>
          var dataLength := SubU64(SubU64(SubU64(recordDataLength, h.typeidFieldSize), DATA_NAME_LENGTH), nameLength);
          SkipPayload(fileIndex, st, typeId, nameBytes, p2 + nameLength, dataLength)
  }

  /** The end of a DATA record: skip the payload and insert the variable that describes it. */
  function SkipPayload(fileIndex: nat, st: ParseState, typeId: nat, nameBytes: seq<byte>, filePos: nat, dataLength: nat): (r: StepResult)
    requires ValidState(st) && st.folder.Some? && dataLength < U64_MODULUS
    ensures r.Next? ==> ValidState(r.st) && r.st.cur == st.cur && r.st.folder == st.folder
    ensures r.Next? ==> |r.st.events| == |st.events| + 1 && r.st.events[..|st.events|] == st.events
    ensures r.Next? || r.Failed?
    ensures r.Next? <==> 0 <= filePos + ToSigned64(dataLength) < SIGNED_LIMIT
    ensures r.Failed? ==> r.msg == "Failed to skip Data of DATA record"
    ensures r.Next? ==> r.st.pos == filePos + ToSigned64(dataLength)
    ensures r.Next? ==> r.st.events[|st.events|].InsertFile? && r.st.events[|st.events|].folder == st.folder.value
    ensures r.Next? ==> r.st.events[|st.events|].entry.filePos == filePos && r.st.events[|st.events|].entry.size == dataLength
  {
    match Seek(filePos, ToSigned64(dataLength))
    case None => Failed("Failed to skip Data of DATA record")
    case Some(next) =>
      var entry := FileEntry(ENTRY_KIND_FILE, CString(nameBytes), typeId % 256, dataLength, fileIndex % 256, filePos);
      assert (st.events + [InsertFile(st.folder.value, entry)])[..|st.events|] == st.events;
      Next(st.(pos := next, events := st.events + [InsertFile(st.folder.value, entry)]))
  }

  /** One record of the scan, as the source reads it. */
  function Step(h: Header, bytes: seq<byte>, fileIndex: nat, st: ParseState): (r: StepResult)
    requires Supported(h) && ValidState(st)
    ensures r.Done? <==> st.pos == |bytes|
    ensures r.Next? ==> st.pos < |bytes|
    ensures r.Next? ==> ValidState(r.st) && |st.events| <= |r.st.events| && r.st.events[..|st.events|] == st.events
  {
    if st.pos == |bytes| then Done
    else match ReadField(bytes, st.pos, h.lengthFieldSize)
    case None => Failed("Failed to read record length")
    case Some(recordLength) =>
      var p1 := st.pos + h.lengthFieldSize;
      match ReadField(bytes, p1, h.commandFieldSize)
      case None => Failed("Failed to read command")
      case Some(command) =>
        var p2 := p1 + h.commandFieldSize;
        RecordBody(h, bytes, fileIndex, st, recordLength, command, p2)
  }

  /** What follows the length and command fields, dispatched on the command. */
  function RecordBody(h: Header, bytes: seq<byte>, fileIndex: nat, st: ParseState, recordLength: nat, command: nat, p: nat): (r: StepResult)
    requires Supported(h) && ValidState(st) && recordLength < U64_MODULUS
    requires p == st.pos + h.lengthFieldSize + h.commandFieldSize
    ensures r.Next? ==> ValidState(r.st) && |st.events| <= |r.st.events| && r.st.events[..|st.events|] == st.events
    ensures r.Done? ==> false
  {
    var recordDataLength := SubU64(SubU64(recordLength, h.lengthFieldSize), h.commandFieldSize);
    if command == COMMAND_CD then
      if recordDataLength >= PATH_BUFFER_SIZE then Aborted("record_data_length < 1024")
      else match ReadBytes(bytes, p, recordDataLength)
      case None => Failed("Failed to read PATH of CD record")
      case Some(pathBytes) =>
        var r := ChangeFolder(st, CString(pathBytes), p + recordDataLength);
        assert r.Next? ==> r.st.events[..|st.events|] == st.events;
        r
    else if command == COMMAND_DATA then
      DataRecord(h, bytes, fileIndex, st, recordDataLength, p)
    else
      match Seek(p, ToSigned64(recordDataLength))
      case None => Failed("Failed to skip data of a record")
      case Some(next) => Next(st.(pos := next))
  }

  /** Once the two leading fields are known, a step is the dispatch on the command. */
  lemma StepIsRecordBody(h: Header, bytes: seq<byte>, fileIndex: nat, st: ParseState, len: nat, command: nat)
    requires Supported(h) && ValidState(st) && st.pos != |bytes|
    requires ReadField(bytes, st.pos, h.lengthFieldSize) == Some(len)
    requires ReadField(bytes, st.pos + h.lengthFieldSize, h.commandFieldSize) == Some(command)
    ensures len < U64_MODULUS
    ensures Step(h, bytes, fileIndex, st)
            == RecordBody(h, bytes, fileIndex, st, len, command, st.pos + h.lengthFieldSize + h.commandFieldSize)
  {
    var r := Step(h, bytes, fileIndex, st);
    assert r == RecordBody(h, bytes, fileIndex, st, len, command, st.pos + h.lengthFieldSize + h.commandFieldSize);
  }

  /** A DATA command goes to the DATA branch with the record data length the source computes. */
  lemma RecordBodyIsData(h: Header, bytes: seq<byte>, fileIndex: nat, st: ParseState, len: nat, p: nat)
    requires Supported(h) && ValidState(st) && len < U64_MODULUS
    requires p == st.pos + h.lengthFieldSize + h.commandFieldSize
    ensures RecordBody(h, bytes, fileIndex, st, len, COMMAND_DATA, p)
            == DataRecord(h, bytes, fileIndex, st, SubU64(SubU64(len, h.lengthFieldSize), h.commandFieldSize), p)
  {
  }

  /** With its three leading reads known, a DATA record is the skip over its payload. */
  lemma DataRecordIsSkip(h: Header, bytes: seq<byte>, fileIndex: nat, st: ParseState, rdl: nat, p: nat,
                         typeId: nat, nameLength: nat, nameBytes: seq<byte>)
    requires Supported(h) && ValidState(st) && st.folder.Some? && rdl < U64_MODULUS
    requires ReadField(bytes, p, h.typeidFieldSize) == Some(typeId)
    requires ReadField(bytes, p + h.typeidFieldSize, DATA_NAME_LENGTH) == Some(nameLength)
    requires ReadBytes(bytes, p + h.typeidFieldSize + DATA_NAME_LENGTH, nameLength) == Some(nameBytes)
    ensures DataRecord(h, bytes, fileIndex, st, rdl, p)
            == SkipPayload(fileIndex, st, typeId, nameBytes, p + h.typeidFieldSize + DATA_NAME_LENGTH + nameLength,
                           SubU64(SubU64(SubU64(rdl, h.typeidFieldSize), DATA_NAME_LENGTH), nameLength))
  {
  }

  /** A CD command whose path fits and can be read changes the folder. */
  lemma RecordBodyIsCd(h: Header, bytes: seq<byte>, fileIndex: nat, st: ParseState, len: nat, p: nat, d: nat, pathBytes: seq<byte>)
    requires Supported(h) && ValidState(st) && len < U64_MODULUS
    requires p == st.pos + h.lengthFieldSize + h.commandFieldSize
    requires d == SubU64(SubU64(len, h.lengthFieldSize), h.commandFieldSize) && d < PATH_BUFFER_SIZE
    requires ReadBytes(bytes, p, d) == Some(pathBytes)
    ensures RecordBody(h, bytes, fileIndex, st, len, COMMAND_CD, p) == ChangeFolder(st, CString(pathBytes), p + d)
  {
  }
}
