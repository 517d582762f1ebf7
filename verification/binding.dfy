/** The Go binding (`binout.go`): how the Go methods turn the answers of the C reader into
    Go slices, strings and errors. */
module Binding {
  import opened Wrappers
  import opened Bytes
  import opened BinoutTypes
  import opened Directory
  import opened Errors
  import opened Read
  import opened Timesteps

  /** `BinoutTypeInvalid`: `math.MaxUint64`. */
  const GO_TYPE_INVALID: nat := U64_MODULUS - 1
  const NO_TIMESTEPS: string := "The path does not exist or contains files"

  /** The error `ReadString` returns for a variable whose elements are not bytes. */
  function NotAStringMessage(typeName: string): (r: string)
    ensures |r| == |typeName| + 40
    ensures r[..6] == "Type \"" && r[6..6 + |typeName|] == typeName
  {
    "Type \"" + typeName + "\" can not be converted to a string"
  }

  // ----- C strings seen from Go

  /** `C.GoString`: the characters up to the first NUL. None when the read reaches a byte
      nothing has written or runs off the end of the block. */
  function GoString(cells: seq<Cell>): (r: Option<string>)
    ensures r.Some? ==> '\0' !in r.value && |r.value| < |cells|
    ensures r.Some? ==> cells[..|r.value| + 1] == Cells(r.value) + [Some('\0')]
  {
    if cells == [] || cells[0].None? then None
    else if cells[0].value == '\0' then Some("")
    else
      var rest := GoString(cells[1..]);
      if rest.None? then None
      else
        var s := [cells[0].value] + rest.value;
        assert cells[..|s| + 1] == [cells[0]] + cells[1..][..|rest.value| + 1];
        Some(s)
  }

  /** A NUL-terminated string reads back as itself, whatever follows the terminator. */
  lemma {:induction false} GoStringOfCells(s: string, rest: seq<Cell>)
    requires '\0' !in s
    ensures GoString(Cells(s) + [Some('\0')] + rest) == Some(s)
  {
    var cells := Cells(s) + [Some('\0')] + rest;
    if s != [] {
      assert s[0] in s;
      assert forall c :: c in s[1..] ==> c in s;
      assert cells[1..] == Cells(s[1..]) + [Some('\0')] + rest;
      GoStringOfCells(s[1..], rest);
      assert [s[0]] + s[1..] == s;
    }
  }

  /** Entries without NUL join into a message without NUL. */
  lemma {:induction false} JoinHasNoNul(errors: seq<string>, i: nat)
    requires 1 <= i <= |errors|
    requires forall k :: 0 <= k < |errors| ==> '\0' !in errors[k]
    ensures '\0' !in JoinPrefix(errors, i)
  {
    if i > 1 {
      JoinHasNoNul(errors, i - 1);
      assert '\0' !in errors[i - 1];
    }
  }

  /** What `BinoutOpen` makes of the message block: no error, the text `C.GoString` reads,
      or a read that reaches a byte nothing has written (its value is undefined). */
  datatype GoError = NoError | Message(text: string) | UnwrittenByte

  /** A text that begins with the entry `last` and has no character of any other entry. */
  predicate HeadedByLast(text: string, last: string)
  {
    && |last| <= |text| && text[..|last|] == last
    && forall k :: 0 <= k < |text| ==> text[k] == '\n' || text[k] in last
  }

  /** A NUL-terminated read of a block that starts with the entry `last` reads all of it. */
  lemma ReadsPastLast(block: seq<Cell>, s: string, last: string)
    requires '\0' !in last && |last| <= |block| && block[..|last|] == Cells(last)
    requires |s| < |block| && block[..|s| + 1] == Cells(s) + [Some('\0')]
    ensures |last| <= |s| && s[..|last|] == last
  {
    assert block[|s|] == block[..|s| + 1][|s|] == Some('\0');
    assert forall k :: 0 <= k < |last| ==> block[k] == block[..|last|][k] == Some(last[k]) && last[k] in last;
    assert |last| <= |s|;
    forall k | 0 <= k < |last|
      ensures s[k] == last[k]
    {
      assert block[k] == block[..|s| + 1][k] == Some(s[k]);
    }
  }

  /** A NUL-terminated read of a block that starts with the entry `last`, and holds no
      character of any other entry, is headed by `last`. */
  lemma ReadHeadedByLast(block: seq<Cell>, s: string, last: string)
    requires '\0' !in last && |last| <= |block| && block[..|last|] == Cells(last)
    requires forall k :: 0 <= k < |block| ==> FromLast(block[k], last)
    requires '\0' !in s && |s| < |block| && block[..|s| + 1] == Cells(s) + [Some('\0')]
    ensures HeadedByLast(s, last)
  {
    ReadsPastLast(block, s, last);
    forall k | 0 <= k < |s|
      ensures s[k] == '\n' || s[k] in last
    {
      assert block[k] == block[..|s| + 1][k] == Some(s[k]);
      assert FromLast(block[k], last);
    }
  }

  /** With one error the block as written reads as that error. */
  lemma OneErrorRead(errors: seq<string>)
    requires errors != [] && '\0' !in errors[0]
    ensures |errors| == 1 ==> GoString(OpenErrorAsWritten(errors).value) == Some(errors[0])
  {
    if |errors| == 1 {
      var e := errors[0];
      assert errors == [e];
      SingleErrorAgrees(e);
      CellsConcat(e, "\0");
      assert OpenErrorAsWritten(errors).value == Cells(e) + [Some('\0')] + [];
      GoStringOfCells(e, []);
    }
  }

  /** `BinoutOpen`'s error: nil without errors, otherwise `C.GoString` of the block
      `binout_open_error` returns as written. With one error that is the entry; with more,
      the text, if it can be read at all, starts with the last entry and holds no character
      of any other. */
  function OpenError(errors: seq<string>): (r: GoError)
    requires forall k :: 0 <= k < |errors| ==> '\0' !in errors[k]
    ensures r.NoError? <==> errors == []
    ensures |errors| == 1 ==> r == Message(errors[0])
    ensures r.Message? ==> HeadedByLast(r.text, errors[|errors| - 1])
  {
    match OpenErrorAsWritten(errors)
    case None => NoError
    case Some(block) =>
      OneErrorRead(errors);
      match GoString(block)
      case None => UnwrittenByte
      case Some(s) =>
        ReadHeadedByLast(block, s, errors[|errors| - 1]);
        Message(s)
  }

  /** A read that passes over a text without NUL fails when the rest of the read fails. */
  lemma {:induction false} GoStringAfter(s: string, rest: seq<Cell>)
    requires '\0' !in s && GoString(rest).None?
    ensures GoString(Cells(s) + rest).None?
  {
    if s != [] {
      var cells := Cells(s) + rest;
      assert s[0] in s;
      assert cells[0] == Some(s[0]) && s[0] != '\0';
      assert forall c :: c in s[1..] ==> c in s;
      assert cells[1..] == Cells(s[1..]) + rest;
      GoStringAfter(s[1..], rest);
    } else {
      assert Cells(s) + rest == rest;
    }
  }

  /** The two errors of `FirstErrorLost`: the text `BinoutOpen` reads runs into the bytes the
      copy left unwritten. */
  lemma GoFirstErrorLost()
    ensures OpenError(["a: x", "b: y"]) == UnwrittenByte
  {
    var errors := ["a: x", "b: y"];
    FirstErrorLost();
    var tail: seq<Cell> := [None, None, None, None, Some('\0')];
    GoStringAfter("b: y\n", tail);
    assert GoString(OpenErrorAsWritten(errors).value).None?;
  }

  /** The same two errors read from the corrected block: both entries, one per line. */
  lemma GoBothErrorsKept()
    ensures OpenErrorCorrected(["a: x", "b: y"]) == Some("a: x\nb: y")
  {
    var errors := ["a: x", "b: y"];
    assert JoinPrefix(errors, 1) == "a: x";
    assert JoinPrefix(errors, 2) == "a: x" + "\n" + "b: y";
    assert JoinLines(errors) == "a: x\nb: y";
  }

  /** The Go error over the corrected block: nil without errors, otherwise every entry, one
      per line. */
  function OpenErrorCorrected(errors: seq<string>): (r: Option<string>)
    requires forall k :: 0 <= k < |errors| ==> '\0' !in errors[k]
    ensures r.None? <==> errors == []
    ensures r.Some? ==> r.value == JoinLines(errors)
  {
    match OpenErrorJoined(errors)
    case None => None
    case Some(block) =>
      JoinHasNoNul(errors, |errors|);
      CellsConcat(JoinLines(errors), "\0");
      assert block == Cells(JoinLines(errors)) + [Some('\0')] + [];
      GoStringOfCells(JoinLines(errors), []);
      GoString(block)
  }

  /** The corrected error text lists every file error, in the order they were added:
      splitting it at line breaks gives the entries back. */
  lemma OpenErrorLines(errors: seq<string>)
    requires errors != []
    requires forall k :: 0 <= k < |errors| ==> '\0' !in errors[k] && '\n' !in errors[k]
    ensures OpenErrorCorrected(errors).Some? && SplitLines(OpenErrorCorrected(errors).value) == errors
  {
    SplitJoin(errors, |errors|);
    assert errors[..|errors|] == errors;
  }

  // ----- C arrays seen from Go

  /** `carrToSlice`: a fresh slice of `csize` elements, element `i` converted from C element
      `i`. */
  method CarrToSlice<C, G>(carr: seq<C>, csize: nat, convert: C -> G) returns (slice: seq<G>)
    requires csize <= |carr|
    ensures |slice| == csize
    ensures forall i :: 0 <= i < csize ==> slice[i] == convert(carr[i])
  {
    slice := [];
    var i := 0;
    while i < csize
      invariant i <= csize && |slice| == i
      invariant forall k :: 0 <= k < i ==> slice[k] == convert(carr[k])
    {
      slice := slice + [convert(carr[i])];
      i := i + 1;
    }
  }

  lemma {:induction false} ChunkBound(i: nat, width: nat, count: nat)
    requires i < count
    ensures i * width + width <= count * width
    decreases count
  {
    ChunkNext(count, width);
    if i < count - 1 {
      ChunkBound(i, width, count - 1);
    }
  }

  /** `count` consecutive pieces of `width` elements each at the front of `flat`: the C
      elements of a payload, or the rows of a timed read. */
  function Chunks<T>(flat: seq<T>, width: nat, count: nat): (r: seq<seq<T>>)
    requires count * width <= |flat|
    ensures |r| == count
    ensures forall i :: 0 <= i < count ==> |r[i]| == width
  {
    seq(count, i requires 0 <= i < count => ChunkBound(i, width, count); Chunk(flat, width, i))
  }

  function Chunk<T>(flat: seq<T>, width: nat, i: nat): (c: seq<T>)
    requires i * width + width <= |flat|
    ensures |c| == width
  {
    flat[i * width..i * width + width]
  }

  /** Rows laid end to end. */
  function Flatten<T>(rows: seq<seq<T>>): seq<T>
  {
    if rows == [] then [] else Flatten(rows[..|rows| - 1]) + rows[|rows| - 1]
  }

  lemma ChunkNext(count: nat, width: nat)
    requires count > 0
    ensures (count - 1) * width + width == count * width
  {
  }

  /** Cutting into chunks and laying them end to end gives back the covered prefix. */
  lemma {:induction false} FlattenChunks<T>(flat: seq<T>, width: nat, count: nat)
    requires count * width <= |flat|
    ensures Flatten(Chunks(flat, width, count)) == flat[..count * width]
  {
    if count > 0 {
      var cs := Chunks(flat, width, count);
      ChunkNext(count, width);
      var m := (count - 1) * width;
      assert cs[..count - 1] == Chunks(flat, width, count - 1);
      FlattenChunks(flat, width, count - 1);
      assert cs[count - 1] == flat[m..m + width];
      assert flat[..count * width] == flat[..m] + flat[m..m + width];
    }
  }

  /** Laying rows of equal width end to end and cutting the result into chunks of that
      width gives back the rows. */
  lemma {:induction false} ChunksOfFlatten<T>(rows: seq<seq<T>>, width: nat)
    requires forall k :: 0 <= k < |rows| ==> |rows[k]| == width
    ensures |Flatten(rows)| == |rows| * width
    ensures Chunks(Flatten(rows), width, |rows|) == rows
  {
    if rows != [] {
      var n := |rows|;
      var init := rows[..n - 1];
      ChunksOfFlatten(init, width);
      ChunkNext(n, width);
      var f, fi := Flatten(rows), Flatten(init);
      assert f == fi + rows[n - 1];
      var cs := Chunks(f, width, n);
      forall i | 0 <= i < n
        ensures cs[i] == rows[i]
      {
        if i < n - 1 {
          ChunkBound(i, width, n - 1);
          ChunkOfPrefix(fi, rows[n - 1], width, i);
          assert Chunks(fi, width, n - 1)[i] == init[i];
        } else {
          ChunkOfPrefix(fi + rows[n - 1], [], width, i);
          assert cs[i] == f[(n - 1) * width..(n - 1) * width + width];
        }
      }
    }
  }

  lemma ChunkOfPrefix<T>(a: seq<T>, b: seq<T>, width: nat, i: nat)
    requires i * width + width <= |a|
    ensures Chunk(a + b, width, i) == Chunk(a, width, i)
  {
  }

  /** The Go side of a typed read, `ReadInt8` to `ReadFloat64`: the error string of the
      handle if the C read set one, otherwise every element of the C array converted to
      the Go type. A read through a handle slot that does not exist is undefined in the
      source and excluded. */
  method ReadSlice<G>(found: Option<FileEntry>, requested: nat, files: seq<seq<byte>>, convert: seq<byte> -> G)
    returns (r: Result<seq<G>>)
    requires IsKnownTag(requested) && !ReadTyped(found, requested, files).NoSuchHandle?
    ensures r.Err? <==> ReadTyped(found, requested, files).ReadError?
    ensures r.Err? ==> r.msg == ReadTyped(found, requested, files).msg
    ensures r.Ok? ==> |r.value| == ElementCount(found.value.size, requested)
    ensures r.Ok? ==> var d := ReadTyped(found, requested, files);
                      forall i :: 0 <= i < |r.value| ==>
                        r.value[i] == convert(Chunks(d.payload, TypeSize(requested), d.count)[i])
  {
    var d := ReadTyped(found, requested, files);
    if d.ReadError? {
      return Err(d.msg);
    }
    var elements := Chunks(d.payload, TypeSize(requested), d.count);
    var slice := CarrToSlice(elements, d.count, convert);
    r := Ok(slice);
  }

  /** Values written as little-endian words of `width` bytes read back as themselves: the
      unsigned typed reads return what the writer stored. */
  lemma UnsignedRoundTrip(vs: seq<nat>, width: nat)
    requires forall k :: 0 <= k < |vs| ==> vs[k] < Pow256(width)
    ensures var words := seq(|vs|, k requires 0 <= k < |vs| => ToLittleEndian(vs[k], width));
            |Flatten(words)| == |vs| * width &&
            forall k :: 0 <= k < |vs| ==> LittleEndian(Chunks(Flatten(words), width, |vs|)[k]) == vs[k]
  {
    var words := seq(|vs|, k requires 0 <= k < |vs| => ToLittleEndian(vs[k], width));
    ChunksOfFlatten(words, width);
    forall k | 0 <= k < |vs|
      ensures LittleEndian(Chunks(Flatten(words), width, |vs|)[k]) == vs[k]
    {
      DecodeEncode(vs[k], width);
    }
  }

  // ----- Type ids, strings, children and time steps

  /** `GetTypeID` as written: the 8-bit id of the C function widened to 64 bits, so a missing
      variable yields the C invalid id and never `BinoutTypeInvalid`. */
  function TypeIdAsWritten(found: Option<FileEntry>): (id: nat)
    requires found.Some? ==> found.value.varType < 256
    ensures id < 256
  {
    TypeInvalidIsNoTag();
    GetTypeId(found).0
  }

  /** A caller testing for `BinoutTypeInvalid` never detects a missing variable. */
  lemma MissingVariableNotInvalid()
    ensures TypeIdAsWritten(None) != GO_TYPE_INVALID
  {
  }

  /** `GetTypeID` corrected: `BinoutTypeInvalid` exactly for a missing variable, the stored
      tag otherwise. */
  function TypeId(found: Option<FileEntry>): (id: nat)
    requires found.Some? ==> found.value.varType < 256
    ensures id == GO_TYPE_INVALID <==> found.None?
    ensures found.Some? ==> id == found.value.varType
  {
    if found.None? then GO_TYPE_INVALID else found.value.varType
  }

  /** The two agree on every stored variable and neither names a known type for a missing
      one, so `ReadString` behaves the same with either. */
  lemma TypeIdsAgree(found: Option<FileEntry>)
    requires found.Some? ==> found.value.varType < 256
    ensures found.Some? ==> TypeIdAsWritten(found) == TypeId(found)
    ensures found.None? ==> TypeName(TypeIdAsWritten(found)) == TypeName(TypeId(found)) == UNKNOWN_NAME
  {
    TypeInvalidIsNoTag();
  }

  /** `ReadString`: only 8-bit element types are read; any other type, including a missing
      variable, is refused by name. The string is the payload byte for byte, padding and
      all. */
  function ReadString(found: Option<FileEntry>, files: seq<seq<byte>>): (r: Result<string>)
    requires found.Some? ==> found.value.varType < 256
    requires found.Some? && found.value.varType in {TYPE_INT8, TYPE_UINT8} ==> found.value.fileIndex < |files|
    ensures found.None? ==> r == Err(NotAStringMessage(UNKNOWN_NAME))
    ensures found.Some? && found.value.varType !in {TYPE_INT8, TYPE_UINT8}
            ==> r == Err(NotAStringMessage(TypeName(found.value.varType)))
    ensures r.Ok? <==> found.Some? && found.value.varType in {TYPE_INT8, TYPE_UINT8} && 0 < found.value.size
                       && found.value.filePos + found.value.size <= |files[found.value.fileIndex]|
    ensures r.Ok? ==> |r.value| == found.value.size
    ensures r.Ok? ==> forall i :: 0 <= i < |r.value| ==>
                        r.value[i] == files[found.value.fileIndex][found.value.filePos + i] as char
    ensures r.Err? && found.Some? && found.value.varType in {TYPE_INT8, TYPE_UINT8} ==> r.msg == READ_FAILED
  {
    var id := TypeId(found);
    if id != TYPE_INT8 && id != TYPE_UINT8 then Err(NotAStringMessage(TypeName(id)))
    else
      match ReadTyped(found, id, files)
      case Data(payload, count) => Ok(seq(count, i requires 0 <= i < count && count <= |payload| => payload[i] as char))
      case ReadError(msg) => Err(msg)
      case NoSuchHandle => assert false; Err(READ_FAILED)
  }

  /** Bytes of text, one per character. */
  function TextBytes(s: string): (bs: seq<byte>)
    requires forall i :: 0 <= i < |s| ==> s[i] as int < 256
    ensures |bs| == |s|
  {
    seq(|s|, i requires 0 <= i < |s| => s[i] as int)
  }

  /** A byte variable holding the bytes of a text reads back as that text, trailing blanks
      included. */
  lemma ReadStringOfText(e: FileEntry, files: seq<seq<byte>>, s: string)
    requires forall i :: 0 <= i < |s| ==> s[i] as int < 256
    requires e.varType in {TYPE_INT8, TYPE_UINT8} && e.fileIndex < |files|
    requires e.size == |s| && 0 < |s|
    requires e.filePos + |s| <= |files[e.fileIndex]| && files[e.fileIndex][e.filePos..e.filePos + |s|] == TextBytes(s)
    ensures ReadString(Some(e), files) == Ok(s)
  {
    var r := ReadString(Some(e), files);
    assert r.Ok? && |r.value| == |s|;
    forall i | 0 <= i < |s|
      ensures r.value[i] == s[i]
    {
      assert files[e.fileIndex][e.filePos + i] == TextBytes(s)[i];
    }
    assert r.value == s;
  }

  /** `GetChildren` as written: no children gives an empty slice, otherwise a slice as long
      as the count is made. A missing path reports the count `~0`, and making a slice that
      long panics; None is the panic. */
  function ChildrenAsWritten(c: Children): (r: Option<seq<string>>)
    ensures c.NoSuchPath? ==> r.None?
    ensures !c.NoSuchPath? && |c.names| < SIGNED_LIMIT ==> r == Some(c.names)
  {
    if ChildCount(c) == 0 then Some([])
    else if ChildCount(c) > SIGNED_LIMIT - 1 then None
    else Some(GetChildren(c).value)
  }

  /** `GetChildren` corrected: a missing path has no children. */
  function Children(c: Children): (r: seq<string>)
    ensures c.NoSuchPath? ==> r == []
    ensures !c.NoSuchPath? ==> r == c.names
  {
    match GetChildren(c)
    case None => []
    case Some(names) => names
  }

  /** Wherever the binding as written returns, the corrected one returns the same. */
  lemma ChildrenAgree(c: Children)
    requires !c.NoSuchPath? ==> |c.names| < SIGNED_LIMIT
    ensures ChildrenAsWritten(c).Some? ==> ChildrenAsWritten(c).value == Children(c)
    ensures ChildrenAsWritten(c).None? <==> c.NoSuchPath?
  {
  }

  /** `GetNumTimesteps`: the count of `binout_get_num_timesteps`, or an error where the C
      function returns its sentinel `~0`. */
  method NumTimesteps(children: Children) returns (r: Result<nat>)
    requires !children.NoSuchPath? ==> |children.names| < SIZE_MAX
    requires !children.NoSuchPath? ==> forall k :: 0 <= k < |children.names| ==> '\0' !in children.names[k]
    ensures r.Err? <==> children.NoSuchPath? || (children.FileChildren? && children.names != [])
    ensures r.Err? ==> r.msg == NO_TIMESTEPS
    ensures r.Ok? && children.FolderChildren? ==> r.value == DSpan(children.names)
    ensures r.Ok? && !children.FolderChildren? ==> r.value == 0
  {
    var n := GetNumTimesteps(children);
    if n == SIZE_MAX {
      return Err(NO_TIMESTEPS);
    }
    r := Ok(n);
  }

  /** The timed reads `ReadTimedFloat32`/`ReadTimedFloat64` after the C call succeeded:
      `numTimesteps` rows of `numValues` values, row `i` holding the flat values from
      `i * numValues` on. */
  method Reshape<T>(flat: seq<T>, numValues: nat, numTimesteps: nat) returns (data: seq<seq<T>>)
    requires numTimesteps * numValues <= |flat|
    ensures |data| == numTimesteps
    ensures forall i :: 0 <= i < numTimesteps ==> |data[i]| == numValues
    ensures data == Chunks(flat, numValues, numTimesteps)
  {
    data := [];
    var i := 0;
    while i < numTimesteps
      invariant i <= numTimesteps
      invariant data == Chunks(flat, numValues, numTimesteps)[..i]
    {
      ChunkBound(i, numValues, numTimesteps);
      var row := CopyRow(flat, i * numValues, numValues);
      assert row == Chunks(flat, numValues, numTimesteps)[i];
      data := data + [row];
      i := i + 1;
    }
  }

  /** The inner loop of the reshape: `count` values copied one by one from `start` on. */
  method CopyRow<T>(flat: seq<T>, start: nat, count: nat) returns (row: seq<T>)
    requires start + count <= |flat|
    ensures row == flat[start..start + count]
  {
    row := [];
    var j := 0;
    while j < count
      invariant j <= count && row == flat[start..start + j]
    {
      row := row + [flat[start + j]];
      j := j + 1;
    }
  }

  /** Value `j` of row `i` is flat value `i * numValues + j`. */
  lemma ReshapeIndex<T>(flat: seq<T>, numValues: nat, numTimesteps: nat, i: nat, j: nat)
    requires numTimesteps * numValues <= |flat| && i < numTimesteps && j < numValues
    ensures i * numValues + j < |flat| && Chunks(flat, numValues, numTimesteps)[i][j] == flat[i * numValues + j]
  {
    ChunkBound(i, numValues, numTimesteps);
  }
}
