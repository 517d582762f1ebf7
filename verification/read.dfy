/** The typed queries of the reader: `binout_read_<type>`, `binout_get_type_id`,
    `binout_variable_exists` and `binout_get_children`. The directory lookup itself is not
    part of this model; its answer is a parameter. */
module Read {
  import opened Wrappers
  import opened Bytes
  import opened BinoutTypes
  import opened Header
  import opened Directory
  import opened Records
  import opened Framing
  import Handles
  import Open

  const NOT_FOUND: string := "The given variable has not been found"
  const READ_FAILED: string := "Failed to read the data"
  /** The stack buffer the type mismatch message is formatted into, terminator included. */
  const MESSAGE_BUFFER_SIZE: nat := 50
  const MISMATCH_PREFIX: string := "The data is of type "

  /** The 8-bit value `binout_get_type_id` returns for a missing variable. Its value is not
      part of this model; the model only needs it to be an 8-bit value that is no known tag. */
  const TYPE_INVALID: nat := 255

  lemma TypeInvalidIsNoTag()
    ensures TYPE_INVALID < 256 && !IsKnownTag(TYPE_INVALID)
  {
  }

  /** What a typed read hands back: the payload bytes and the element count, a failure with
      the message stored in the handle's error string, or a read through a handle slot that
      does not exist (undefined behaviour in the source). */
  datatype ReadOutcome = Data(payload: seq<byte>, count: nat) | ReadError(msg: string) | NoSuchHandle

  /** The message for a read that asks for the wrong type. */
  function MismatchMessage(stored: nat, requested: nat): (m: string)
    ensures |m| < MESSAGE_BUFFER_SIZE
  {
    MISMATCH_PREFIX + TypeName(stored) + " instead of " + TypeName(requested)
  }

  /** The characters of `s` before its first space. */
  function UpToSpace(s: string): (r: string)
    ensures |r| <= |s| && ' ' !in r
  {
    if s == [] || s[0] == ' ' then [] else [s[0]] + UpToSpace(s[1..])
  }

  lemma {:induction false} UpToSpaceOf(x: string, rest: string)
    requires ' ' !in x
    ensures UpToSpace(x + " " + rest) == x
  {
    if x != [] {
      assert (x + " " + rest)[1..] == x[1..] + " " + rest;
      UpToSpaceOf(x[1..], rest);
    }
  }

  lemma TypeNameHasNoSpace(tag: nat)
    ensures ' ' !in TypeName(tag)
  {
  }

  /** The stored type a mismatch message names. */
  function StoredTypeName(m: string): string
  {
    if |m| < |MISMATCH_PREFIX| then [] else UpToSpace(m[|MISMATCH_PREFIX|..])
  }

  /** The message names the stored type, so messages for different known stored types
      differ. */
  lemma MismatchNamesStoredType(stored: nat, requested: nat)
    ensures StoredTypeName(MismatchMessage(stored, requested)) == TypeName(stored)
    ensures forall other :: IsKnownTag(stored) && IsKnownTag(other) && other != stored ==>
              MismatchMessage(other, requested) != MismatchMessage(stored, requested)
  {
    MismatchStoredName(stored, requested);
    forall other | IsKnownTag(stored) && IsKnownTag(other) && other != stored
      ensures MismatchMessage(other, requested) != MismatchMessage(stored, requested)
    {
      MismatchStoredName(other, requested);
      TypeNamesDistinct(stored, other);
    }
  }

  lemma MismatchStoredName(stored: nat, requested: nat)
    ensures StoredTypeName(MismatchMessage(stored, requested)) == TypeName(stored)
  {
    TypeNameHasNoSpace(stored);
    StoredNameOf(TypeName(stored), TypeName(requested));
  }

  lemma StoredNameOf(stored: string, requested: string)
    requires ' ' !in stored
    ensures StoredTypeName(MISMATCH_PREFIX + stored + " instead of " + requested) == stored
  {
    var m := MISMATCH_PREFIX + stored + " instead of " + requested;
    assert m[|MISMATCH_PREFIX|..] == stored + " " + ("instead of " + requested);
    UpToSpaceOf(stored, "instead of " + requested);
  }

  /** The mismatch message as the source formats it: it names the type of the entry's
      folder-or-file discriminator, not the element type stored in the variable. */
  function MismatchAsWritten(e: FileEntry, requested: nat): (m: string)
    ensures StoredTypeName(m) == TypeName(e.kind)
  {
    MismatchStoredName(e.kind, requested);
    MismatchMessage(e.kind, requested)
  }

  /** A parsed FLOAT64 variable read as INT32: the message as written does not name
      FLOAT64, whichever value the discriminator has. */
  lemma MismatchAsWrittenHidesStoredType(e: FileEntry)
    requires e.varType == TYPE_FLOAT64 && e.kind != TYPE_FLOAT64
    ensures StoredTypeName(MismatchAsWritten(e, TYPE_INT32)) != TypeName(e.varType)
    ensures StoredTypeName(MismatchMessage(e.varType, TYPE_INT32)) == TypeName(e.varType)
  {
    TypeNamesDistinct(e.kind, e.varType);
    MismatchStoredName(e.varType, TYPE_INT32);
  }

  /** The number of whole elements of the tagged type in `size` bytes; a trailing partial
      element is not counted. */
  function ElementCount(size: nat, tag: nat): (count: nat)
    requires IsKnownTag(tag)
    ensures count * TypeSize(tag) <= size < (count + 1) * TypeSize(tag)
  {
    size / TypeSize(tag)
  }

  /** `binout_read_<type>` for the element type `requested`, given what the directory lookup
      found and the contents of the open files, indexed as the handle array is. A type
      mismatch is reported with the message as the source formats it. The seek to
      a non-negative offset cannot fail; `fread` of the whole payload as one item fails for
      an empty payload and for one that runs past the end of the file. */
  function ReadTyped(found: Option<FileEntry>, requested: nat, files: seq<seq<byte>>): (r: ReadOutcome)
    requires IsKnownTag(requested)
    ensures found.None? ==> r == ReadError(NOT_FOUND)
    ensures found.Some? && found.value.varType != requested ==> r == ReadError(MismatchAsWritten(found.value, requested))
    ensures found.Some? && found.value.varType != requested ==> StoredTypeName(r.msg) == TypeName(found.value.kind)
    ensures r.NoSuchHandle? <==> found.Some? && found.value.varType == requested && found.value.fileIndex >= |files|
    ensures r.Data? <==> found.Some? && found.value.varType == requested && found.value.fileIndex < |files|
                         && 0 < found.value.size && found.value.filePos + found.value.size <= |files[found.value.fileIndex]|
    ensures r.Data? ==> At(files[found.value.fileIndex], found.value.filePos, r.payload) && |r.payload| == found.value.size
    ensures r.Data? ==> r.count == ElementCount(found.value.size, requested)
    ensures r.ReadError? && found.Some? && found.value.varType == requested ==> r.msg == READ_FAILED
  {
    match found
    case None => ReadError(NOT_FOUND)
    case Some(e) =>
      if e.varType != requested then ReadError(MismatchAsWritten(e, requested))
      else if e.fileIndex >= |files| then NoSuchHandle
      else
        var file := files[e.fileIndex];
        if e.size == 0 || e.filePos + e.size > |file| then ReadError(READ_FAILED)
        else Data(file[e.filePos..e.filePos + e.size], ElementCount(e.size, requested))
  }

  /** The handle compaction does not renumber the file index each variable stores. Of three
      files, file 0 fails after its scan declared a variable, so its slot takes the last
      handle: the array becomes the handles of files 2 and 1. A variable of file 2 then has
      no slot, and a variable of the dropped file 0 reads file 2's bytes. */
  lemma StaleFileIndex(files: seq<Open.PhysicalFile>, e0: FileEntry, e2: FileEntry, tag: nat)
    requires |files| == 3 && files[1].Readable? && files[2].Readable?
    requires IsKnownTag(tag) && e0.varType == tag && e0.fileIndex == 0 && e2.varType == tag && e2.fileIndex == 2
    ensures Handles.Fill([None, Some(1), Some(2)], 0) == [Some(2), Some(1)]
    ensures var bytes := Open.HandleFiles(Open.Binout([2, 1], [], []), files);
            && bytes == [files[2].bytes, files[1].bytes]
            && ReadTyped(Some(e2), tag, bytes) == NoSuchHandle
            && (ReadTyped(Some(e0), tag, bytes).Data? ==> At(files[2].bytes, e0.filePos, ReadTyped(Some(e0), tag, bytes).payload))
  {
    var hs: seq<Option<nat>> := [None, Some(1), Some(2)];
    assert hs[0 := hs[2]][..2] == [Some(2), Some(1)];
  }

  /** `binout_get_type_id`: the stored element type, or the invalid id with the error string
      set. */
  function GetTypeId(found: Option<FileEntry>): (r: (nat, Option<string>))
    ensures r.1.None? <==> found.Some?
    ensures r.1.Some? ==> r.1.value == NOT_FOUND && !IsKnownTag(r.0)
    ensures found.Some? ==> r.0 == found.value.varType
  {
    match found
    case None => (TYPE_INVALID, Some(NOT_FOUND))
    case Some(e) => (e.varType, None)
  }

  /** `binout_variable_exists`: a variable exists exactly when its type id can be read
      without an error. */
  function VariableExists(found: Option<FileEntry>): (b: bool)
    ensures b <==> GetTypeId(found).1.None?
  {
    found.Some?
  }

  /** `binout_get_children`: NULL for a missing path, otherwise the names of the children in
      the directory's order, as many as the count the lookup reports. */
  function GetChildren(c: Children): (r: Option<seq<string>>)
    ensures r.None? <==> c.NoSuchPath?
    ensures r.Some? ==> |r.value| == ChildCount(c) && r.value == c.names
  {
    match c
    case NoSuchPath => None
    case FolderChildren(names) => Some(names)
    case FileChildren(names) => Some(names)
  }

  /** The variable the newest insertion declared, if the newest insertion is a variable. */
  function NewestVariable(events: seq<DirEvent>): Option<FileEntry>
  {
    if events != [] && events[|events| - 1].InsertFile? then Some(events[|events| - 1].entry) else None
  }

  /** The payload of an encoded DATA record sits right after its name. */
  lemma PayloadAt(h: Header, typeId: nat, name: seq<byte>, payload: seq<byte>, bytes: seq<byte>, pos: nat)
    requires |name| < 256
    requires FieldsHold(h, |EncodeRecord(h, COMMAND_DATA, DataRest(h, typeId, name, payload))|, COMMAND_DATA)
    requires At(bytes, pos, EncodeRecord(h, COMMAND_DATA, DataRest(h, typeId, name, payload)))
    ensures At(bytes, pos + h.lengthFieldSize + h.commandFieldSize + h.typeidFieldSize + DATA_NAME_LENGTH + |name|, payload)
  {
    var rest := DataRest(h, typeId, name, payload);
    LeadingFields(h, COMMAND_DATA, rest, bytes, pos);
    var head := ToLittleEndian(typeId, h.typeidFieldSize) + [|name|] + name;
    AtSplit(bytes, pos + h.lengthFieldSize + h.commandFieldSize, head, payload);
  }

  /** A variable whose payload sits in its file reads back as that payload. */
  lemma ReadFound(e: FileEntry, requested: nat, files: seq<seq<byte>>, payload: seq<byte>)
    requires IsKnownTag(requested) && e.varType == requested && e.fileIndex < |files|
    requires e.size == |payload| && 0 < |payload| && At(files[e.fileIndex], e.filePos, payload)
    ensures ReadTyped(Some(e), requested, files) == Data(payload, ElementCount(|payload|, requested))
  {
  }

  /** The variable a DATA record inserts reads back as the payload it points at. */
  lemma ReadInserted(st: ParseState, fileIndex: nat, typeId: nat, name: seq<byte>, payload: seq<byte>,
                     filePos: nat, files: seq<seq<byte>>)
    requires st.folder.Some? && IsKnownTag(typeId) && 0 < |payload|
    requires fileIndex < 256 && fileIndex < |files| && At(files[fileIndex], filePos, payload)
    ensures ReadTyped(NewestVariable(DataInserted(st, fileIndex, typeId, name, |payload|, filePos).events), typeId, files)
            == Data(payload, ElementCount(|payload|, typeId))
  {
    var e := FileEntry(ENTRY_KIND_FILE, CString(name), typeId, |payload|, fileIndex, filePos);
    assert NewestVariable(DataInserted(st, fileIndex, typeId, name, |payload|, filePos).events) == Some(e);
    ReadFound(e, typeId, files, payload);
  }

  /** Writing a DATA record, scanning it and reading the variable it declares gives back the
      payload, with as many elements as whole elements fit in it. */
  lemma ReadBackPayload(h: Header, typeId: nat, name: seq<byte>, payload: seq<byte>,
                        bytes: seq<byte>, fileIndex: nat, st: ParseState, files: seq<seq<byte>>)
    requires ValidState(st) && st.folder.Some?
    requires |name| < 256
    requires 0 < h.typeidFieldSize && typeId < Pow256(h.typeidFieldSize)
    requires FieldsHold(h, |EncodeRecord(h, COMMAND_DATA, DataRest(h, typeId, name, payload))|, COMMAND_DATA)
    requires st.pos + |EncodeRecord(h, COMMAND_DATA, DataRest(h, typeId, name, payload))| < SIGNED_LIMIT
    requires At(bytes, st.pos, EncodeRecord(h, COMMAND_DATA, DataRest(h, typeId, name, payload)))
    requires IsKnownTag(typeId) && 0 < |payload|
    requires fileIndex < 256 && fileIndex < |files| && files[fileIndex] == bytes
    ensures Step(h, bytes, fileIndex, st).Next?
    ensures ReadTyped(NewestVariable(Step(h, bytes, fileIndex, st).st.events), typeId, files)
            == Data(payload, ElementCount(|payload|, typeId))
  {
    PayloadAt(h, typeId, name, payload, bytes, st.pos);
    ReadInserted(st, fileIndex, typeId, name, payload,
                 st.pos + h.lengthFieldSize + h.commandFieldSize + h.typeidFieldSize + DATA_NAME_LENGTH + |name|, files);
    DataRecordFraming(h, typeId, name, payload, bytes, fileIndex, st);
  }
}
