/** The reader's current-path string and how CD records change it. */
module Paths {
  import opened Wrappers

  const SEP: char := '/'
  const PARENT: string := ".."
  /** Size of the reader's fixed current-path buffer, terminating NUL included. */
  const PATH_BUFFER_SIZE: nat := 1024

  /** One name between separators. */
  predicate IsComponent(c: string) {
    |c| > 0 && SEP !in c
  }

  predicate AllComponents(cs: seq<string>) {
    forall k :: 0 <= k < |cs| ==> IsComponent(cs[k])
  }

  /** `PATH_IS_ABS`: the path starts with the separator. */
  predicate IsAbsolute(p: string) {
    |p| > 0 && p[0] == SEP
  }

  /** The components of a path, read left to right; empty names between repeated or trailing
      separators are skipped, as the path views of the library skip them. */
  function Components(s: string): (cs: seq<string>)
    ensures AllComponents(cs)
  {
    Scan(s, "")
  }

  /** `acc` is the part of the current component read so far. */
  function Scan(s: string, acc: string): (cs: seq<string>)
    requires SEP !in acc
    ensures AllComponents(cs)
  {
    if s == [] then Flush(acc)
    else if s[0] == SEP then Flush(acc) + Scan(s[1..], "")
    else Scan(s[1..], acc + [s[0]])
  }

  function Flush(acc: string): (cs: seq<string>)
    requires SEP !in acc
    ensures AllComponents(cs)
  {
    if acc == "" then [] else [acc]
  }

  /** Splitting at a separator splits the component lists. */
  lemma ComponentsSplit(a: string, b: string)
    ensures Components(a + [SEP] + b) == Components(a) + Components(b)
  {
    ScanSplit(a, b, "");
  }

  lemma {:induction false} ScanSplit(a: string, b: string, acc: string)
    requires SEP !in acc
    ensures Scan(a + [SEP] + b, acc) == Scan(a, acc) + Scan(b, "")
    decreases |a|
  {
    var s := a + [SEP] + b;
    if a == [] {
      assert s[0] == SEP && s[1..] == b;
    } else if a[0] == SEP {
      assert s[0] == SEP && s[1..] == a[1..] + [SEP] + b;
      ScanSplit(a[1..], b, "");
    } else {
      assert s[0] == a[0] && s[1..] == a[1..] + [SEP] + b;
      ScanSplit(a[1..], b, acc + [a[0]]);
    }
  }

  /** A single component reads as itself. */
  lemma {:induction false} ScanComponent(c: string, acc: string)
    requires SEP !in acc && SEP !in c && |acc + c| > 0
    ensures Scan(c, acc) == [acc + c]
    decreases |c|
  {
    if c != [] {
      assert c[0] in c && c[0] != SEP;
      assert SEP !in acc + [c[0]];
      assert forall x :: x in c[1..] ==> x in c;
      assert acc + c == (acc + [c[0]]) + c[1..];
      ScanComponent(c[1..], acc + [c[0]]);
    } else {
      assert acc + c == acc;
    }
  }

  lemma ComponentOfComponent(c: string)
    requires IsComponent(c)
    ensures Components(c) == [c]
  {
    assert "" + c == c;
    ScanComponent(c, "");
  }

  /** The canonical spelling of a component list: "/" for the root, "/a/b" otherwise. */
  function Render(cs: seq<string>): (p: string)
    ensures IsAbsolute(p)
  {
    if cs == [] then [SEP] else Slashed(cs)
  }

  function Slashed(cs: seq<string>): (p: string)
    ensures cs != [] ==> IsAbsolute(p)
  {
    if cs == [] then "" else Slashed(cs[..|cs| - 1]) + [SEP] + cs[|cs| - 1]
  }

  /** Reading back a canonical spelling gives the component list again. */
  lemma {:induction false} RenderRoundTrip(cs: seq<string>)
    requires AllComponents(cs)
    ensures Components(Render(cs)) == cs
  {
    if cs != [] {
      assert Render(cs) == Slashed(cs);
      SlashedRoundTrip(cs);
    } else {
      assert [SEP][1..] == [];
      assert Scan([SEP], "") == Flush("") + Scan([], "");
    }
  }

  lemma {:induction false} SlashedRoundTrip(cs: seq<string>)
    requires AllComponents(cs)
    ensures Components(Slashed(cs)) == cs
  {
    if cs != [] {
      var init, c := cs[..|cs| - 1], cs[|cs| - 1];
      SlashedRoundTrip(init);
      ComponentsSplit(Slashed(init), c);
      ComponentOfComponent(c);
      assert init + [c] == cs;
    }
  }

  /** Index of the last separator of `s`. */
  function LastSep(s: string): (i: nat)
    requires SEP in s
    ensures i < |s| && s[i] == SEP && SEP !in s[i + 1..]
  {
    if s[|s| - 1] == SEP then |s| - 1 else
      assert SEP in s[..|s| - 1] by { var k :| 0 <= k < |s| && s[k] == SEP; assert s[..|s| - 1][k] == SEP; }
      var j := LastSep(s[..|s| - 1]);
      assert s[j + 1..] == s[..|s| - 1][j + 1..] + [s[|s| - 1]];
      j
  }

  /** A `..` component: cut the current path at its last separator, but keep at least "/". */
  function MoveUp(cur: string): (r: string)
    requires IsAbsolute(cur)
    ensures IsAbsolute(r)
    ensures |r| <= |cur| && r == cur[..|r|]
  {
    var i := LastSep(cur);
    cur[..if i == 0 then 1 else i]
  }

  /** Any other component: append it after exactly one separator. */
  function Join(cur: string, c: string): (r: string)
    requires IsAbsolute(cur)
    ensures IsAbsolute(r)
    ensures |r| >= |cur| && r[..|cur|] == cur
    ensures IsComponent(c) ==> Components(r) == Components(cur) + [c]
  {
    if cur[|cur| - 1] != SEP then
      AppendAfterSeparator(cur, c);
      cur + [SEP] + c
    else
      AppendToSeparator(cur, c);
      cur + c
  }

  lemma AppendAfterSeparator(cur: string, c: string)
    ensures IsComponent(c) ==> Components(cur + [SEP] + c) == Components(cur) + [c]
  {
    if IsComponent(c) {
      ComponentOfComponent(c);
      ComponentsSplit(cur, c);
    }
  }

  lemma AppendToSeparator(cur: string, c: string)
    requires |cur| > 0 && cur[|cur| - 1] == SEP
    ensures IsComponent(c) ==> Components(cur + c) == Components(cur) + [c]
  {
    if IsComponent(c) {
      ComponentOfComponent(c);
      var front := cur[..|cur| - 1];
      assert cur == front + [SEP] + "";
      ComponentsSplit(front, "");
      assert Components("") == [];
      ComponentsSplit(front, c);
      assert cur + c == front + [SEP] + c;
    }
  }

  /** On a canonical path, moving up drops exactly the last component, and "/" stays "/". */
  lemma MoveUpCanonical(cs: seq<string>)
    requires AllComponents(cs)
    ensures MoveUp(Render(cs)) == Render(if cs == [] then [] else cs[..|cs| - 1])
  {
    if cs != [] {
      var init, c := cs[..|cs| - 1], cs[|cs| - 1];
      var pre := Slashed(init);
      assert Render(cs) == pre + [SEP] + c;
      assert IsComponent(c);
      LastSepAfter(pre, c);
      if init != [] {
        assert (pre + [SEP] + c)[..|pre|] == pre;
      }
    }
  }

  /** The last separator of `pre/c` is the one in front of the component `c`. */
  lemma {:induction false} LastSepAfter(pre: string, c: string)
    requires SEP !in c
    ensures LastSep(pre + [SEP] + c) == |pre|
    decreases |c|
  {
    var p := pre + [SEP] + c;
    if c != [] {
      var front := c[..|c| - 1];
      assert c[|c| - 1] in c;
      assert forall x :: x in front ==> x in c;
      assert p[..|p| - 1] == pre + [SEP] + front;
      LastSepAfter(pre, front);
    }
  }

  /** On a canonical path, joining a component yields the canonical path one level deeper. */
  lemma JoinCanonical(cs: seq<string>, c: string)
    requires AllComponents(cs) && IsComponent(c)
    ensures Join(Render(cs), c) == Render(cs + [c])
  {
    assert (cs + [c])[..|cs|] == cs;
    if cs != [] {
      var last := cs[|cs| - 1];
      assert IsComponent(last);
      assert Render(cs) == Slashed(cs[..|cs| - 1]) + [SEP] + last;
      assert Render(cs)[|Render(cs)| - 1] == last[|last| - 1];
      assert Join(Render(cs), c) == Slashed(cs) + [SEP] + c;
    } else {
      assert Join(Render(cs), c) == [SEP] + c;
      assert Slashed([c]) == Slashed([]) + [SEP] + c;
    }
  }

  /** The component loop of a relative CD record. */
  function CdRelative(cur: string, comps: seq<string>): (r: string)
    requires IsAbsolute(cur)
    ensures IsAbsolute(r)
    decreases |comps|
  {
    if comps == [] then cur
    else
      var next := if comps[0] == PARENT then MoveUp(cur) else Join(cur, comps[0]);
      CdRelative(next, comps[1..])
  }

  /** The relative CD loop together with the source's assertion that each join still fits in
      the path buffer; None is the assertion failing. */
  function CdRelativeChecked(cur: string, comps: seq<string>): (r: Option<string>)
    requires IsAbsolute(cur)
    ensures r.Some? ==> r.value == CdRelative(cur, comps)
    ensures r.Some? && |cur| < PATH_BUFFER_SIZE ==> |r.value| < PATH_BUFFER_SIZE
    decreases |comps|
  {
    if comps == [] then Some(cur)
    else if comps[0] == PARENT then CdRelativeChecked(MoveUp(cur), comps[1..])
    else if |cur| + |comps[0]| + 1 >= PATH_BUFFER_SIZE then None
    else CdRelativeChecked(Join(cur, comps[0]), comps[1..])
  }

  /** Reference semantics of a relative path on a component stack: `..` pops unless the
      stack is empty, anything else is pushed. */
  function Resolve(stack: seq<string>, comps: seq<string>): seq<string>
    decreases |comps|
  {
    if comps == [] then stack
    else if comps[0] == PARENT then
      Resolve(if stack == [] then [] else stack[..|stack| - 1], comps[1..])
    else Resolve(stack + [comps[0]], comps[1..])
  }

  /** From a canonical current path, a relative CD lands on the canonical spelling of the
      component stack the reference semantics computes. */
  lemma {:induction false} CdRelativeResolves(cs: seq<string>, comps: seq<string>)
    requires AllComponents(cs) && AllComponents(comps)
    ensures CdRelative(Render(cs), comps) == Render(Resolve(cs, comps))
    ensures Components(CdRelative(Render(cs), comps)) == Resolve(cs, comps)
    decreases |comps|
  {
    if comps != [] {
      var rest := comps[1..];
      assert AllComponents(rest);
      if comps[0] == PARENT {
        var up := if cs == [] then [] else cs[..|cs| - 1];
        MoveUpCanonical(cs);
        assert AllComponents(up);
        CdRelativeResolves(up, rest);
        assert CdRelative(Render(cs), comps) == CdRelative(Render(up), rest);
        assert Resolve(cs, comps) == Resolve(up, rest);
      } else {
        var down := cs + [comps[0]];
        JoinCanonical(cs, comps[0]);
        assert AllComponents(down);
        CdRelativeResolves(down, rest);
        assert CdRelative(Render(cs), comps) == CdRelative(Render(down), rest);
        assert Resolve(cs, comps) == Resolve(down, rest);
      }
    } else {
      RenderRoundTrip(cs);
    }
  }

  /** A CD record's path resolved against the current path: an absolute path replaces it,
      a relative one is applied component by component. */
  function ChangeDirectory(cur: string, path: string): (r: string)
    requires IsAbsolute(cur)
    ensures IsAbsolute(r)
    ensures IsAbsolute(path) ==> r == path
    ensures !IsAbsolute(path) && cur == Render(Components(cur))
            ==> Components(r) == Resolve(Components(cur), Components(path))
  {
    if IsAbsolute(path) then path
    else
      RelativeFromCanonical(cur, path);
      CdRelative(cur, Components(path))
  }

  /** An absolute CD path with a trailing separator is kept as it is spelled, so the current
      path is not canonical; a following ".." then cuts only the separator and stays in the
      same folder, where the reference semantics moves up. */
  lemma TrailingSeparatorStays()
    ensures ChangeDirectory("/", "/a/") == "/a/"
    ensures Components(ChangeDirectory("/a/", "..")) == ["a"]
    ensures Resolve(["a"], [".."]) == []
  {
    ComponentOfComponent("..");
    assert LastSep("/a/") == 2;
    assert CdRelative("/a/", [".."]) == "/a";
    RenderRoundTrip(["a"]);
    assert Render(["a"]) == "/a";
  }

  lemma RelativeFromCanonical(cur: string, path: string)
    requires IsAbsolute(cur)
    ensures cur == Render(Components(cur))
            ==> Components(CdRelative(cur, Components(path))) == Resolve(Components(cur), Components(path))
  {
    if cur == Render(Components(cur)) {
      CdRelativeResolves(Components(cur), Components(path));
    }
  }
}
