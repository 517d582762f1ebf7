/** The per-file error list of a binout handle: `_binout_add_file_error` appends one entry
    per failed file, and `binout_open_error` joins the entries into one message buffer. */
module Errors {
  import opened Wrappers

  /** The text between the file name and the message of an entry. */
  const MIDDLE: string := ": "

  /** Splits an entry after a file name of `nameLength` characters; None when the separator
      does not follow. */
  function EntryParts(entry: string, nameLength: nat): (r: Option<(string, string)>)
    ensures r.Some? <==> nameLength + |MIDDLE| <= |entry| && entry[nameLength..nameLength + |MIDDLE|] == MIDDLE
    ensures r.Some? ==> |r.value.0| == nameLength && r.value.0 + MIDDLE + r.value.1 == entry
  {
    if nameLength + |MIDDLE| <= |entry| && entry[nameLength..nameLength + |MIDDLE|] == MIDDLE then
      assert entry == entry[..nameLength] + MIDDLE + entry[nameLength + |MIDDLE|..];
      Some((entry[..nameLength], entry[nameLength + |MIDDLE|..]))
    else None
  }

  /** `_binout_add_file_error`: one more entry "<file name>: <message>", both parts being C
      strings. The file name and the message can be read back from the new entry. */
  function AddFileError(errors: seq<string>, fileName: string, message: string): (r: seq<string>)
    requires '\0' !in fileName && '\0' !in message
    ensures |r| == |errors| + 1 && r[..|errors|] == errors
    ensures |r[|errors|]| == |fileName| + |MIDDLE| + |message| && '\0' !in r[|errors|]
    ensures EntryParts(r[|errors|], |fileName|) == Some((fileName, message))
  {
    var entry := fileName + MIDDLE + message;
    assert entry[|fileName|..|fileName| + |MIDDLE|] == MIDDLE;
    assert entry[..|fileName|] == fileName && entry[|fileName| + |MIDDLE|..] == message;
    errors + [entry]
  }

  /** One byte of a heap block: None is a byte nothing has written (fresh `realloc` memory,
      or a read past the end of an allocation). */
  type Cell = Option<char>

  /** The bytes of a fully initialised string. */
  function Cells(s: string): (r: seq<Cell>)
    ensures |r| == |s| && forall k :: 0 <= k < |s| ==> r[k] == Some(s[k])
  {
    seq(|s|, k requires 0 <= k < |s| => Some(s[k]))
  }

  lemma CellsConcat(a: string, b: string)
    ensures Cells(a + b) == Cells(a) + Cells(b)
  {
  }

  /** The size of the message block after the first `i` entries: each takes its length plus
      one byte for the line break or the terminator. */
  function Size(errors: seq<string>, i: nat): nat
    requires i <= |errors|
  {
    if i == 0 then 0 else Size(errors, i - 1) + |errors[i - 1]| + 1
  }

  /** The byte stored after entry `i` of `n`: a line break, or NUL after the last one. */
  function Terminator(i: nat, n: nat): (r: char)
    ensures r == '\0' <==> i == n - 1
    ensures r == '\0' || r == '\n'
  {
    if i != n - 1 then '\n' else '\0'
  }

  /** The byte at offset `k` of the block holding `last` and its terminator; None past the
      block. */
  function LastCell(last: string, k: nat): (r: Cell)
    ensures r.None? <==> |last| < k
    ensures k < |last| ==> r == Some(last[k])
    ensures k == |last| ==> r == Some('\0')
  {
    if k < |last| then Some(last[k]) else if k == |last| then Some('\0') else None
  }

  /** `memcpy(buf, last, len)`. */
  function CopyFromLast(buf: seq<Cell>, last: string, len: nat): (r: seq<Cell>)
    requires len <= |buf|
    ensures |r| == |buf|
    ensures forall k :: 0 <= k < len ==> r[k] == LastCell(last, k)
    ensures forall k :: len <= k < |buf| ==> r[k] == buf[k]
  {
    seq(|buf|, k requires 0 <= k < |buf| => if k < len then LastCell(last, k) else buf[k])
  }

  /** The block after the first `i` iterations of the loop in `binout_open_error` as
      written: each iteration grows the block by `|errors[i]| + 1` fresh bytes, copies
      `|errors[i]|` bytes of the LAST entry to the start of the block, and stores the
      terminator in the final byte. */
  function AsWrittenBuffer(errors: seq<string>, i: nat): (r: seq<Cell>)
    requires 0 < |errors| && i <= |errors|
    ensures |r| == Size(errors, i)
    decreases i
  {
    if i == 0 then []
    else
      var grown := AsWrittenBuffer(errors, i - 1) + seq(|errors[i - 1]| + 1, _ => None);
      CopyFromLast(grown, errors[|errors| - 1], |errors[i - 1]|)[|grown| - 1 := Some(Terminator(i - 1, |errors|))]
  }

  /** A byte the loop as written can leave in the block: unwritten, a line break, a
      terminator, or a character of the last entry. */
  predicate FromLast(c: Cell, last: string)
  {
    c.None? || c == Some('\n') || c == Some('\0') || c.value in last
  }

  /** No byte of the block comes from any entry but the last. */
  lemma {:induction false} AsWrittenOnlyLast(errors: seq<string>, i: nat)
    requires 0 < |errors| && i <= |errors|
    ensures forall k :: 0 <= k < |AsWrittenBuffer(errors, i)| ==> FromLast(AsWrittenBuffer(errors, i)[k], errors[|errors| - 1])
  {
    if i > 0 {
      AsWrittenOnlyLast(errors, i - 1);
      var last := errors[|errors| - 1];
      var prev := AsWrittenBuffer(errors, i - 1);
      var grown := prev + seq(|errors[i - 1]| + 1, _ => None);
      assert forall k :: 0 <= k < |grown| ==> FromLast(grown[k], last);
      var copied := CopyFromLast(grown, last, |errors[i - 1]|);
      assert forall k :: 0 <= k < |copied| ==> FromLast(copied[k], last) by {
        forall k | 0 <= k < |copied|
          ensures FromLast(copied[k], last)
        {
          if k < |errors[i - 1]| {
            assert copied[k] == LastCell(last, k);
            if k < |last| {
              assert last[k] in last;
            }
          }
        }
      }
    }
  }

  /** `binout_open_error` as written: NULL without errors; otherwise the block ends in a
      terminator and starts with the last entry, and every other byte is unwritten, a line
      break, a terminator or a character of the last entry. */
  function OpenErrorAsWritten(errors: seq<string>): (r: Option<seq<Cell>>)
    ensures r.None? <==> errors == []
    ensures r.Some? ==> |r.value| == Size(errors, |errors|) && r.value[|r.value| - 1] == Some('\0')
    ensures r.Some? ==> r.value[..|errors[|errors| - 1]|] == Cells(errors[|errors| - 1])
    ensures r.Some? ==> forall k :: 0 <= k < |r.value| ==> FromLast(r.value[k], errors[|errors| - 1])
  {
    if errors == [] then None
    else
      AsWrittenOnlyLast(errors, |errors|);
      Some(AsWrittenBuffer(errors, |errors|))
  }

  /** The entries of `errors[..i]` joined by line breaks. */
  function JoinPrefix(errors: seq<string>, i: nat): string
    requires 1 <= i <= |errors|
  {
    if i == 1 then errors[0] else JoinPrefix(errors, i - 1) + "\n" + errors[i - 1]
  }

  /** All entries joined by line breaks: the message the block is meant to hold. */
  function JoinLines(errors: seq<string>): string
    requires errors != []
  {
    JoinPrefix(errors, |errors|)
  }

  /** The block after the first `i` iterations of the loop as intended: entry `i` is copied
      to the end of the block, the terminator after it. */
  function JoinedBuffer(errors: seq<string>, i: nat): (r: seq<Cell>)
    requires i <= |errors|
    ensures |r| == Size(errors, i)
  {
    if i == 0 then []
    else JoinedBuffer(errors, i - 1) + Cells(errors[i - 1]) + [Some(Terminator(i - 1, |errors|))]
  }

  lemma {:induction false} JoinedBufferHoldsLines(errors: seq<string>, i: nat)
    requires 1 <= i <= |errors|
    ensures JoinedBuffer(errors, i) == Cells(JoinPrefix(errors, i)) + [Some(Terminator(i - 1, |errors|))]
  {
    if i > 1 {
      JoinedBufferHoldsLines(errors, i - 1);
      CellsConcat(JoinPrefix(errors, i - 1), "\n");
      CellsConcat(JoinPrefix(errors, i - 1) + "\n", errors[i - 1]);
    }
  }

  /** `binout_open_error` corrected: NULL without errors, otherwise every entry in order,
      separated by line breaks and terminated by NUL. */
  function OpenErrorJoined(errors: seq<string>): (r: Option<seq<Cell>>)
    ensures r.None? <==> errors == []
    ensures r.Some? ==> r.value == Cells(JoinLines(errors) + "\0")
  {
    if errors == [] then None
    else
      JoinedBufferHoldsLines(errors, |errors|);
      CellsConcat(JoinLines(errors), "\0");
      Some(JoinedBuffer(errors, |errors|))
  }

  /** With a single entry the loop as written does what was intended. */
  lemma SingleErrorAgrees(e: string)
    ensures OpenErrorAsWritten([e]) == OpenErrorJoined([e])
  {
    var b := AsWrittenBuffer([e], 1);
    assert b == Cells(e) + [Some('\0')];
    assert JoinLines([e]) == e;
    CellsConcat(e, "\0");
    assert Cells("\0") == [Some('\0')];
    assert OpenErrorAsWritten([e]) == Some(b);
    assert OpenErrorJoined([e]) == Some(Cells(e + "\0"));
  }

  /** Two entries: the block as written holds the second entry twice over the first one's
      place, a line break, and four bytes nothing wrote; the first entry is lost. */
  lemma FirstErrorLost()
    ensures OpenErrorAsWritten(["a: x", "b: y"]) == Some(Cells("b: y\n") + [None, None, None, None, Some('\0')])
    ensures OpenErrorJoined(["a: x", "b: y"]) == Some(Cells("a: x\nb: y\0"))
    ensures OpenErrorAsWritten(["a: x", "b: y"]) != OpenErrorJoined(["a: x", "b: y"])
  {
    var errors := ["a: x", "b: y"];
    var one := AsWrittenBuffer(errors, 1);
    assert one == Cells("b: y\n");
    var two := AsWrittenBuffer(errors, 2);
    assert two == Cells("b: y\n") + [None, None, None, None, Some('\0')];
    assert JoinLines(errors) == "a: x\nb: y";
    assert JoinLines(errors) + "\0" == "a: x\nb: y\0";
    assert two[0] != Cells("a: x\nb: y\0")[0];
  }

  /** Splits a message at its line breaks. */
  function SplitLines(s: string): (r: seq<string>)
    ensures |r| >= 1
  {
    if s == [] then [""]
    else
      var init := SplitLines(s[..|s| - 1]);
      if s[|s| - 1] == '\n' then init + [""]
      else init[..|init| - 1] + [init[|init| - 1] + [s[|s| - 1]]]
  }

  lemma {:induction false} SplitAppend(x: string, e: string)
    requires '\n' !in e
    ensures SplitLines(x + "\n" + e) == SplitLines(x) + [e]
    decreases |e|
  {
    var s := x + "\n" + e;
    if e == [] {
      assert s[..|s| - 1] == x;
    } else {
      var e' := e[..|e| - 1];
      assert s[..|s| - 1] == x + "\n" + e';
      assert s[|s| - 1] == e[|e| - 1];
      SplitAppend(x, e');
      assert e' + [e[|e| - 1]] == e;
    }
  }

  lemma {:induction false} SplitSingle(e: string)
    requires '\n' !in e
    ensures SplitLines(e) == [e]
    decreases |e|
  {
    if e != [] {
      var e' := e[..|e| - 1];
      SplitSingle(e');
      assert e' + [e[|e| - 1]] == e;
    }
  }

  /** Joining entries that hold no line break can be undone by splitting at line breaks. */
  lemma {:induction false} SplitJoin(errors: seq<string>, i: nat)
    requires 1 <= i <= |errors|
    requires forall k :: 0 <= k < |errors| ==> '\n' !in errors[k]
    ensures SplitLines(JoinPrefix(errors, i)) == errors[..i]
  {
    if i == 1 {
      SplitSingle(errors[0]);
      assert errors[..1] == [errors[0]];
    } else {
      var x, e := JoinPrefix(errors, i - 1), errors[i - 1];
      assert '\n' !in e;
      SplitJoin(errors, i - 1);
      SplitAppend(x, e);
      assert errors[..i] == errors[..i - 1] + [e];
      var j := JoinPrefix(errors, i);
      assert j == x + "\n" + e;
      var r := SplitLines(j);
      assert r == errors[..i];
    }
  }
}
