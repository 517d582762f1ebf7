/** The clean-up at the end of `binout_open`: the handles of files that failed were set to
    NULL, and the array is compacted by moving the last handle into every NULL slot. */
module Handles {
  import opened Wrappers

  /** The non-NULL handles of `hs`, in order. */
  function Live<H>(hs: seq<Option<H>>): (r: seq<H>)
    ensures |r| <= |hs|
  {
    if hs == [] then []
    else (if hs[0].Some? then [hs[0].value] else []) + Live(hs[1..])
  }

  lemma {:induction false} LiveConcat<H>(a: seq<Option<H>>, b: seq<Option<H>>)
    ensures Live(a + b) == Live(a) + Live(b)
  {
    if a == [] {
      assert a + b == b;
    } else {
      var ab := a + b;
      assert ab[0] == a[0] && ab[1..] == a[1..] + b;
      LiveConcat(a[1..], b);
      assert Live(ab) == (if a[0].Some? then [a[0].value] else []) + Live(ab[1..]);
    }
  }

  lemma {:induction false} LiveAllSome<H>(hs: seq<Option<H>>)
    requires forall k :: 0 <= k < |hs| ==> hs[k].Some?
    ensures Live(hs) == seq(|hs|, k requires 0 <= k < |hs| => hs[k].value)
  {
    if hs != [] {
      LiveAllSome(hs[1..]);
    }
  }

  /** Every live handle comes from a slot holding it. */
  lemma {:induction false} LiveMember<H>(hs: seq<Option<H>>, x: H) returns (k: nat)
    requires x in Live(hs)
    ensures k < |hs| && hs[k] == Some(x)
  {
    if hs[0] == Some(x) {
      k := 0;
    } else {
      assert x in Live(hs[1..]);
      var j := LiveMember(hs[1..], x);
      k := j + 1;
    }
  }

  lemma Live3<H>(a: seq<Option<H>>, x: Option<H>, b: seq<Option<H>>)
    ensures Live(a + [x] + b) == Live(a) + Live([x]) + Live(b)
  {
    LiveConcat(a + [x], b);
    LiveConcat(a, [x]);
  }

  /** Slot `i` and the last slot cut the sequence into four parts. */
  lemma Around<T>(hs: seq<T>, i: nat)
    requires i < |hs| - 1
    ensures hs == hs[..i] + [hs[i]] + hs[i + 1..|hs| - 1] + [hs[|hs| - 1]]
    ensures hs[i := hs[|hs| - 1]][..|hs| - 1] == hs[..i] + [hs[|hs| - 1]] + hs[i + 1..|hs| - 1]
  {
  }

  /** Slot `i` takes the last handle and the last slot is dropped. */
  function Fill<H>(hs: seq<Option<H>>, i: nat): (r: seq<Option<H>>)
    requires i < |hs|
    ensures |r| == |hs| - 1 && forall k :: 0 <= k < i ==> r[k] == hs[k]
    ensures i < |hs| - 1 ==> r[i] == hs[|hs| - 1]
    ensures forall k :: i < k < |hs| - 1 ==> r[k] == hs[k]
  {
    hs[i := hs[|hs| - 1]][..|hs| - 1]
  }

  /** Filling the NULL slot `i` keeps the multiset of live handles. */
  lemma FillSlot<H>(hs: seq<Option<H>>, i: nat)
    requires i < |hs| && hs[i].None?
    ensures multiset(Live(Fill(hs, i))) == multiset(Live(hs))
  {
    var last := |hs| - 1;
    assert Live([hs[i]]) == [];
    if i == last {
      assert hs == hs[..last] + [hs[last]];
      assert hs[i := hs[last]][..last] == hs[..last];
      LiveConcat(hs[..last], [hs[last]]);
    } else {
      Around(hs, i);
      var a, b := hs[..i], hs[i + 1..last];
      LiveConcat(a + [hs[i]] + b, [hs[last]]);
      Live3(a, hs[i], b);
      Live3(a, hs[last], b);
    }
  }

  /** The clean-up loop: a NULL slot takes the last handle and is examined again (the
      source's index steps back by one, wrapping below zero, before the increment); any
      other slot is passed over. */
  method Compact<H>(handles: seq<Option<H>>) returns (r: seq<H>)
    ensures |r| == |Live(handles)|
    ensures multiset(r) == multiset(Live(handles))
    ensures (forall k :: 0 <= k < |handles| ==> handles[k].Some?) ==> r == Live(handles)
  {
    ghost var noneFailed := forall k :: 0 <= k < |handles| ==> handles[k].Some?;
    var hs := handles;
    var i := 0;
    while i < |hs|
      invariant i <= |hs|
      invariant forall k :: 0 <= k < i ==> hs[k].Some?
      invariant multiset(Live(hs)) == multiset(Live(handles))
      invariant noneFailed ==> hs == handles
      decreases |hs| - i
    {
      if hs[i].None? {
        FillSlot(hs, i);
        hs := Fill(hs, i);
      } else {
        i := i + 1;
      }
    }
    LiveAllSome(hs);
    r := seq(|hs|, k requires 0 <= k < |hs| => hs[k].value);
    assert |multiset(r)| == |multiset(Live(handles))|;
  }
}
