/** `binout_open` over the files a glob pattern matched, and `binout_close`. The file system
    is not part of this model: each matched file is given as what `fopen` and the header read
    make of it. */
module Open {
  import opened Wrappers
  import opened Bytes
  import opened Header
  import opened Paths
  import opened Directory
  import opened Records
  import opened Scan
  import opened Errors
  import opened Handles

  const NO_FILES: string := "No files have been found"
  const HEADER_FAILED: string := "Failed to read header"

  /** A file the glob matched: `fopen` failed with the given `strerror` text, or it opened and
      its header was read (None when `fread` of the header failed), with the bytes of the
      file and the position just after the header. */
  datatype PhysicalFile =
    | Unopenable(reason: string)
    | Readable(header: Option<Header>, bytes: seq<byte>, start: nat)

  /** A `binout_file`: the handle array (each handle given by the glob position of the file
      it reads), the directory (as its insertions), and the file errors. */
  datatype Binout = Binout(handles: seq<nat>, events: seq<DirEvent>, errors: seq<string>)

  /** The characters `strlen` sees: everything before the first NUL. */
  function CText(s: string): (r: string)
    ensures '\0' !in r && |r| <= |s| && r == s[..|r|]
    ensures |r| < |s| ==> s[|r|] == '\0'
  {
    if s == [] || s[0] == '\0' then [] else [s[0]] + CText(s[1..])
  }

  lemma {:induction false} CTextOfText(s: string)
    requires '\0' !in s
    ensures CText(s) == s
  {
    if s != [] {
      assert s[0] in s;
      assert forall c :: c in s[1..] ==> c in s;
      CTextOfText(s[1..]);
    }
  }

  /** `_binout_add_file_error` with the C strings the caller passes. */
  function FileError(errors: seq<string>, name: string, message: string): (r: seq<string>)
    ensures |r| == |errors| + 1 && r[..|errors|] == errors
    ensures EntryParts(r[|errors|], |CText(name)|) == Some((CText(name), CText(message)))
  {
    AddFileError(errors, CText(name), CText(message))
  }

  /** The file can be scanned: it opened, its header was read and is supported. */
  predicate Usable(f: PhysicalFile) {
    f.Readable? && f.header.Some? && Supported(f.header.value)
  }

  /** The number of files among the first `i` that `fopen` could not open. */
  function UnopenableCount(files: seq<PhysicalFile>, i: nat): nat
    requires i <= |files|
  {
    if i == 0 then 0 else UnopenableCount(files, i - 1) + (if files[i - 1].Unopenable? then 1 else 0)
  }

  /** The first loop: one error, in file order, for every file that could not be opened. */
  function FopenErrors(names: seq<string>, files: seq<PhysicalFile>, i: nat): (r: seq<string>)
    requires |names| == |files| && i <= |files|
    ensures |r| == UnopenableCount(files, i)
    ensures i > 0 ==> FopenErrors(names, files, i - 1) <= r
    ensures i > 0 && files[i - 1].Unopenable? ==>
              EntryParts(r[|r| - 1], |CText(names[i - 1])|) == Some((CText(names[i - 1]), CText(files[i - 1].reason)))
  {
    if i == 0 then []
    else
      var errors := FopenErrors(names, files, i - 1);
      if files[i - 1].Unopenable? then FileError(errors, names[i - 1], files[i - 1].reason) else errors
  }

  /** The state of the second loop: one slot per file so far (None for a closed handle), the
      directory insertions and the errors. */
  datatype Pass = Pass(slots: seq<Option<nat>>, events: seq<DirEvent>, errors: seq<string>)

  /** The number of files among the first `|slots|` that opened but were dropped. */
  function DroppedCount(slots: seq<Option<nat>>, files: seq<PhysicalFile>): nat
    requires |slots| <= |files|
  {
    if slots == [] then 0
    else DroppedCount(slots[..|slots| - 1], files) + (if slots[|slots| - 1].None? && files[|slots| - 1].Readable? then 1 else 0)
  }

  /** One iteration of the second loop, for the file at glob position `index`. A file that
      did not open is passed over; a file whose header cannot be read or is not supported,
      or whose scan fails, gets an error and its handle closed (what its scan inserted
      stays); a fired `assert` aborts the whole open (Err). */
  function FileStep(p: Pass, name: string, f: PhysicalFile, index: nat): (r: Result<Pass>)
    ensures r.Err? ==> Usable(f)
    ensures f.Unopenable? ==> r == Ok(p.(slots := p.slots + [None]))
    ensures r.Ok? ==> |r.value.slots| == |p.slots| + 1 && r.value.slots[..|p.slots|] == p.slots
    ensures r.Ok? && r.value.slots[|p.slots|].Some? ==> r.value.slots[|p.slots|] == Some(index) && Usable(f)
    ensures r.Ok? && f.Readable? && !Usable(f) ==> r.value.slots[|p.slots|].None?
    ensures r.Ok? ==> |p.events| <= |r.value.events| && r.value.events[..|p.events|] == p.events
    ensures r.Ok? ==> |r.value.errors| == |p.errors| + (if r.value.slots[|p.slots|].None? && f.Readable? then 1 else 0)
    ensures r.Ok? ==> r.value.errors[..|p.errors|] == p.errors
    ensures r.Ok? && f.Readable? && f.header.None? ==> r.value.errors == FileError(p.errors, name, HEADER_FAILED)
  {
    match f
    case Unopenable(_) => Ok(p.(slots := p.slots + [None]))
    case Readable(header, bytes, start) =>
      if header.None? then Ok(p.(slots := p.slots + [None], errors := FileError(p.errors, name, HEADER_FAILED)))
      else match CheckHeader(header.value)
      case Some(msg) => Ok(p.(slots := p.slots + [None], errors := FileError(p.errors, name, msg)))
      case None =>
        var st := InitialState(start).(events := p.events);
        match ScanChecked(header.value, bytes, index, st)
        case Finished(events) => Ok(Pass(p.slots + [Some(index)], events, p.errors))
        case FileFailed(events, msg) => Ok(Pass(p.slots + [None], events, FileError(p.errors, name, msg)))
        case ScanAborted(msg) => Err(msg)
  }

  /** What the second loop promises after its first `i` files: a slot per file, holding the
      file's own glob index only for a usable file, and the errors it started from followed by
      one error per dropped file. */
  predicate PassAfter(p: Pass, files: seq<PhysicalFile>, i: nat, errors: seq<string>)
    requires i <= |files|
  {
    && |p.slots| == i
    && (forall k :: 0 <= k < i ==> p.slots[k].None? || (p.slots[k] == Some(k) && Usable(files[k])))
    && (forall k :: 0 <= k < i && !Usable(files[k]) ==> p.slots[k].None?)
    && |errors| <= |p.errors| && p.errors[..|errors|] == errors
    && |p.errors| == |errors| + DroppedCount(p.slots, files)
  }

  /** The second loop over the first `i` files, starting from the errors of the first. */
  function ParsePass(names: seq<string>, files: seq<PhysicalFile>, i: nat, errors: seq<string>): (r: Result<Pass>)
    requires |names| == |files| && i <= |files|
    ensures r.Ok? ==> PassAfter(r.value, files, i, errors)
  {
    if i == 0 then Ok(Pass([], [], errors))
    else match ParsePass(names, files, i - 1, errors)
    case Err(msg) => Err(msg)
    case Ok(p) =>
      var r := FileStep(p, names[i - 1], files[i - 1], i - 1);
      if r.Err? then r
      else
        StepKeepsPass(p, names[i - 1], files, i - 1, errors);
        r
  }

  /** One more file keeps what the second loop promises. */
  lemma StepKeepsPass(p: Pass, name: string, files: seq<PhysicalFile>, i: nat, errors: seq<string>)
    requires i < |files| && PassAfter(p, files, i, errors)
    requires FileStep(p, name, files[i], i).Ok?
    ensures PassAfter(FileStep(p, name, files[i], i).value, files, i + 1, errors)
  {
    var q := FileStep(p, name, files[i], i).value;
    assert q.slots[..i] == p.slots;
    StepKeepsSlots(p.slots, q.slots, files, i);
    assert q.errors[..|errors|] == p.errors[..|errors|];
  }

  lemma StepKeepsSlots(s: seq<Option<nat>>, t: seq<Option<nat>>, files: seq<PhysicalFile>, i: nat)
    requires i < |files| && |s| == i && |t| == i + 1 && t[..i] == s
    requires forall k :: 0 <= k < i ==> s[k].None? || (s[k] == Some(k) && Usable(files[k]))
    requires forall k :: 0 <= k < i && !Usable(files[k]) ==> s[k].None?
    requires t[i].None? || (t[i] == Some(i) && Usable(files[i]))
    requires !Usable(files[i]) ==> t[i].None?
    ensures forall k :: 0 <= k < i + 1 ==> t[k].None? || (t[k] == Some(k) && Usable(files[k]))
    ensures forall k :: 0 <= k < i + 1 && !Usable(files[k]) ==> t[k].None?
    ensures DroppedCount(t, files) == DroppedCount(s, files) + (if t[i].None? && files[i].Readable? then 1 else 0)
  {
    assert forall k :: 0 <= k < i ==> t[k] == s[k];
  }

  /** `binout_open`: no matched file gives one error for the pattern; otherwise the two
      loops run and the closed handles are compacted away. Err is an `assert` of the source
      firing. */
  method Open(pattern: string, names: seq<string>, files: seq<PhysicalFile>) returns (r: Result<Binout>)
    requires |names| == |files|
    ensures names == [] ==> r == Ok(Binout([], [], FileError([], pattern, NO_FILES)))
    ensures names != [] ==> (r.Err? <==> ParsePass(names, files, |files|, FopenErrors(names, files, |files|)).Err?)
    ensures names != [] && r.Ok? ==>
              var p := ParsePass(names, files, |files|, FopenErrors(names, files, |files|)).value;
              r.value.events == p.events && r.value.errors == p.errors && multiset(r.value.handles) == multiset(Live(p.slots))
    ensures r.Ok? ==> |r.value.errors| == (if names == [] then 1 else UnopenableCount(files, |files|) + DroppedCount(
                ParsePass(names, files, |files|, FopenErrors(names, files, |files|)).value.slots, files))
    ensures r.Ok? ==> forall h :: h in r.value.handles ==> h < |files| && Usable(files[h])
  {
    if names == [] {
      return Ok(Binout([], [], FileError([], pattern, NO_FILES)));
    }
    var errors := FopenErrors(names, files, |files|);
    var pass := ParsePass(names, files, |files|, errors);
    if pass.Err? {
      return Err(pass.msg);
    }
    var handles := Compact(pass.value.slots);
    HandlesUsable(pass.value.slots, handles, files);
    r := Ok(Binout(handles, pass.value.events, pass.value.errors));
  }

  /** The handles that survive the compaction are those of files that were scanned. */
  lemma HandlesUsable(slots: seq<Option<nat>>, handles: seq<nat>, files: seq<PhysicalFile>)
    requires |slots| <= |files|
    requires forall k :: 0 <= k < |slots| ==> slots[k].None? || (slots[k] == Some(k) && Usable(files[k]))
    requires multiset(handles) == multiset(Live(slots))
    ensures forall h :: h in handles ==> h < |files| && Usable(files[h])
  {
    forall h | h in handles
      ensures h < |files| && Usable(files[h])
    {
      var live: seq<nat> := Live(slots);
      var m: multiset<nat> := multiset(live);
      assert m == multiset(handles) && h in m;
      assert h in live;
      var k := LiveMember<nat>(slots, h);
      assert slots[k] == Some(h);
    }
  }

  /** The bytes each handle slot reads, as the typed reads index them. */
  function HandleFiles(b: Binout, files: seq<PhysicalFile>): (r: seq<seq<byte>>)
    requires forall k :: 0 <= k < |b.handles| ==> b.handles[k] < |files| && files[b.handles[k]].Readable?
    ensures |r| == |b.handles|
    ensures forall k :: 0 <= k < |r| ==> r[k] == files[b.handles[k]].bytes
  {
    seq(|b.handles|, k requires 0 <= k < |b.handles| => files[b.handles[k]].bytes)
  }

  /** When no file was dropped, handle slot `k` still reads the file at glob position `k`,
      the index the scan stored in that file's variables. */
  lemma NothingDroppedKeepsIndices(slots: seq<Option<nat>>, handles: seq<nat>)
    requires forall k :: 0 <= k < |slots| ==> slots[k] == Some(k)
    requires handles == Live(slots)
    ensures |handles| == |slots| && forall k :: 0 <= k < |handles| ==> handles[k] == k
  {
    LiveAllSome(slots);
  }

  /** `binout_close`: every handle closed, every error and the directory freed, and all
      counts reset, so the handle reads as empty afterwards. */
  function Close(b: Binout): (r: Binout)
    ensures r.handles == [] && r.events == [] && r.errors == []
  {
    Binout([], [], [])
  }

  /** After closing, `binout_open_error` reports nothing, as written and corrected. */
  lemma ClosedHasNoOpenError(b: Binout)
    ensures OpenErrorAsWritten(Close(b).errors).None? && OpenErrorJoined(Close(b).errors).None?
  {
  }
}
