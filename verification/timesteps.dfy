/** `binout_get_num_timesteps`: the number of time steps of a folder is the span from its
    first to its last child named "d" followed by digits (the writer names them d000001,
    d000002, ... next to one "metadata" folder). */
module Timesteps {
  import opened Bytes
  import opened Directory

  predicate IsDigit(c: char)
  {
    '0' <= c <= '9'
  }

  /** A time-step folder name: "d" followed by at least one digit and nothing else. */
  predicate IsDName(s: string)
  {
    |s| >= 2 && s[0] == 'd' && forall k :: 1 <= k < |s| ==> IsDigit(s[k])
  }

  /** `_binout_is_d_string` on a C string: the first character must be 'd', the characters
      up to the terminator must be digits, and there must be at least one of them. */
  method IsDString(name: string) returns (b: bool)
    requires '\0' !in name
    ensures b <==> IsDName(name)
  {
    // The terminator of the empty string is not 'd'.
    if |name| == 0 || name[0] != 'd' {
      return false;
    }
    var i := 1;
    while i < |name|
      invariant 1 <= i <= |name|
      invariant forall k :: 1 <= k < i ==> IsDigit(name[k])
    {
      if !IsDigit(name[i]) {
        return false;
      }
      i := i + 1;
    }
    return i != 1;
  }

  predicate HasD(names: seq<string>)
  {
    exists k :: 0 <= k < |names| && IsDName(names[k])
  }

  /** The position of the first time-step name. */
  function FirstD(names: seq<string>): (r: nat)
    requires HasD(names)
    ensures r < |names| && IsDName(names[r])
    ensures forall k :: 0 <= k < r ==> !IsDName(names[k])
  {
    if IsDName(names[0]) then 0
    else
      assert HasD(names[1..]) by {
        var k :| 0 <= k < |names| && IsDName(names[k]);
        assert names[1..][k - 1] == names[k];
      }
      1 + FirstD(names[1..])
  }

  /** The position of the last time-step name. */
  function LastD(names: seq<string>): (r: nat)
    requires HasD(names)
    ensures r < |names| && IsDName(names[r])
    ensures forall k :: r < k < |names| ==> !IsDName(names[k])
  {
    if IsDName(names[|names| - 1]) then |names| - 1
    else
      assert HasD(names[..|names| - 1]) by {
        var k :| 0 <= k < |names| && IsDName(names[k]);
        assert names[..|names| - 1][k] == names[k];
      }
      LastD(names[..|names| - 1])
  }

  /** The time-step count of a folder's children: from the first to the last time-step
      name, inclusive, and 0 without any. */
  function DSpan(names: seq<string>): nat
  {
    if HasD(names) then LastD(names) - FirstD(names) + 1 else 0
  }

  /** `binout_get_num_timesteps`: 0 for an empty children list; `~0` for a missing path or a
      folder of variables; otherwise the span of the time-step names. */
  method GetNumTimesteps(children: Children) returns (n: nat)
    requires !children.NoSuchPath? ==> forall k :: 0 <= k < |children.names| ==> '\0' !in children.names[k]
    ensures ChildCount(children) == 0 ==> n == 0
    ensures ChildCount(children) != 0 && (ChildCount(children) == SIZE_MAX || children.FileChildren?) ==> n == SIZE_MAX
    ensures children.FolderChildren? && 0 < |children.names| < SIZE_MAX ==> n == DSpan(children.names)
  {
    var count := ChildCount(children);
    if count == 0 {
      return 0;
    }
    if count == SIZE_MAX || children.FileChildren? {
      return SIZE_MAX;
    }
    var names := children.names;
    var start := 0;
    var isD := false;
    while start < count
      invariant start <= count
      invariant forall k :: 0 <= k < start ==> !IsDName(names[k])
    {
      isD := IsDString(names[start]);
      if isD {
        break;
      }
      start := start + 1;
    }
    if start == count {
      return 0;
    }
    assert IsDName(names[start]);
    var end := count - 1;
    while end > start
      invariant start <= end < count
      invariant forall k :: end < k < count ==> !IsDName(names[k])
    {
      isD := IsDString(names[end]);
      if isD {
        break;
      }
      end := end - 1;
    }
    assert IsDName(names[end]);
    n := end - start + 1;
  }

  /** When the time-step folders are contiguous, as the writer lays them out, the count is
      the number of time-step folders. */
  lemma ContiguousSpan(before: seq<string>, steps: seq<string>, after: seq<string>)
    requires steps != [] && forall k :: 0 <= k < |steps| ==> IsDName(steps[k])
    requires forall k :: 0 <= k < |before| ==> !IsDName(before[k])
    requires forall k :: 0 <= k < |after| ==> !IsDName(after[k])
    ensures DSpan(before + steps + after) == |steps|
  {
    var names := before + steps + after;
    assert names[|before|] == steps[0];
    var first, last := FirstD(names), LastD(names);
    assert first == |before|;
    var j := |before| + |steps| - 1;
    assert names[j] == steps[|steps| - 1];
    assert last == j;
  }

  /** The decimal digit of `v` at position `p` (0 is the ones place). */
  function DigitChar(v: nat, p: nat): (c: char)
    ensures IsDigit(c)
  {
    var d := v / Pow10(p) % 10;
    ('0' as int + d) as char
  }

  function Pow10(p: nat): (r: nat)
    ensures r >= 1
  {
    if p == 0 then 1 else 10 * Pow10(p - 1)
  }

  /** The name the writer gives time step `i`: "d" and six digits, zero-padded. */
  function DLabel(i: nat): (s: string)
    ensures IsDName(s) && |s| == 7
  {
    ['d', DigitChar(i, 5), DigitChar(i, 4), DigitChar(i, 3), DigitChar(i, 2), DigitChar(i, 1), DigitChar(i, 0)]
  }

  /** The names of time steps 1 to `steps`. */
  function StepNames(steps: nat): (r: seq<string>)
    ensures |r| == steps && forall k :: 0 <= k < steps ==> r[k] == DLabel(k + 1)
  {
    seq(steps, k requires 0 <= k < steps => DLabel(k + 1))
  }

  /** A node output folder as the writer lays it out: "metadata" followed by `steps` time
      steps counts `steps` time steps. */
  lemma NodoutTimesteps(steps: nat)
    requires steps >= 1
    ensures DSpan(["metadata"] + StepNames(steps)) == steps
  {
    var ds := StepNames(steps);
    assert !IsDName("metadata");
    assert ["metadata"] + ds == ["metadata"] + ds + [];
    ContiguousSpan(["metadata"], ds, []);
  }
}
