/**
 * The pinned steps beside the chart: clicking a bar moves its step to the
 * front of the list, without duplicates, keeping at most three; the Unpin
 * button takes a step out.
 */
module Pinned {
  import opened Common
  import opened Schedule

  const MaxPinned: nat := 3

  function StepIds(steps: seq<Step>): (ids: seq<string>)
    ensures |ids| == |steps| && forall i :: 0 <= i < |steps| ==> ids[i] == steps[i].id
  {
    seq(|steps|, i requires 0 <= i < |steps| => steps[i].id)
  }

  /** `cur.filter(it => it.id !== id)`, which is also the Unpin button. */
  function Unpinned(cur: seq<Step>, id: string): (r: seq<Step>)
    ensures forall x :: x in r <==> x in cur && x.id != id
    ensures |r| <= |cur|
    decreases |cur|
  {
    if cur == [] then []
    else
      var rest := Unpinned(cur[1..], id);
      assert forall x :: x in cur <==> x == cur[0] || x in cur[1..];
      if cur[0].id == id then rest else [cur[0]] + rest
  }

  /** The pinned list after clicking `s`: `s`, then the other pinned steps in their order, cut to three. */
  function PinnedAfter(cur: seq<Step>, s: Step): (r: seq<Step>)
    ensures 1 <= |r| <= MaxPinned && r[0] == s
  {
    var arr := [s] + Unpinned(cur, s.id);
    if |arr| > MaxPinned then arr[..MaxPinned] else arr
  }

  /** The click handler: filter, `unshift`, then `pop` while longer than three. */
  method Pin(cur: seq<Step>, s: Step) returns (arr: seq<Step>)
    ensures arr == PinnedAfter(cur, s)
  {
    arr := Unpinned(cur, s.id);
    arr := [s] + arr;
    ghost var full := arr;
    while |arr| > MaxPinned
      invariant arr == full[..|arr|]
      invariant |arr| == |full| || |arr| >= MaxPinned
      decreases |arr|
    {
      arr := arr[..|arr| - 1];
    }
  }

  /** Filtering a split list filters each part: the pins kept stay in their order. */
  lemma {:induction false} UnpinnedKeepsOrder(a: seq<Step>, b: seq<Step>, id: string)
    ensures Unpinned(a + b, id) == Unpinned(a, id) + Unpinned(b, id)
    decreases |a|
  {
    if a == [] {
      assert a + b == b;
    } else {
      assert (a + b)[0] == a[0] && (a + b)[1..] == a[1..] + b;
      UnpinnedKeepsOrder(a[1..], b, id);
    }
  }

  /** Filtering a list that does not contain the id returns it unchanged. */
  lemma {:induction false} UnpinnedKeepsAll(cur: seq<Step>, id: string)
    requires forall i :: 0 <= i < |cur| ==> cur[i].id != id
    ensures Unpinned(cur, id) == cur
    decreases |cur|
  {
    if cur != [] {
      UnpinnedKeepsAll(cur[1..], id);
    }
  }

  /** Filtering keeps the ids distinct. */
  lemma {:induction false} UnpinnedKeepsDistinct(cur: seq<Step>, id: string)
    requires Distinct(StepIds(cur))
    ensures Distinct(StepIds(Unpinned(cur, id)))
    decreases |cur|
  {
    if cur != [] {
      var tail := cur[1..];
      StepIdsCons(cur[0], tail);
      assert cur == [cur[0]] + tail;
      DistinctTail(StepIds(cur));
      UnpinnedKeepsDistinct(tail, id);
      var rest := Unpinned(tail, id);
      if cur[0].id != id {
        StepIdsOfFewer(rest, tail, cur[0].id);
        StepIdsCons(cur[0], rest);
        DistinctCons(cur[0].id, StepIds(rest));
      }
    }
  }

  lemma StepIdsCons(x: Step, steps: seq<Step>)
    ensures StepIds([x] + steps) == [x.id] + StepIds(steps)
  {
  }

  /** An id absent from a list of steps is absent from any list of steps taken from it. */
  lemma StepIdsOfFewer(fewer: seq<Step>, steps: seq<Step>, x: string)
    requires forall s :: s in fewer ==> s in steps
    requires x !in StepIds(steps)
    ensures x !in StepIds(fewer)
  {
    forall j | 0 <= j < |fewer| ensures StepIds(fewer)[j] != x {
      assert fewer[j] in steps;
      var k :| 0 <= k < |steps| && steps[k] == fewer[j];
      assert StepIds(steps)[k] == fewer[j].id;
    }
  }

  /**
   * The clicked step comes first, at most three steps stay pinned, and the
   * others are the earlier pins with another id, in their order.
   */
  lemma PinnedAfterShape(cur: seq<Step>, s: Step)
    ensures var r := PinnedAfter(cur, s);
      |r| >= 1 && r[0] == s && |r| <= MaxPinned
      && |r| == (if 1 + |Unpinned(cur, s.id)| < MaxPinned then 1 + |Unpinned(cur, s.id)| else MaxPinned)
    ensures var r := PinnedAfter(cur, s);
      r[1..] == Unpinned(cur, s.id)[..|r| - 1]
    ensures var r := PinnedAfter(cur, s);
      forall x :: x in r[1..] ==> x in cur && x.id != s.id
  {
    var rest := Unpinned(cur, s.id);
    var r := PinnedAfter(cur, s);
    assert r[1..] == rest[..|r| - 1];
    forall x | x in r[1..] ensures x in rest {
      var i :| 0 <= i < |r[1..]| && r[1..][i] == x;
      assert rest[i] == x;
    }
  }

  /** Pinning keeps the pinned ids distinct. */
  lemma PinKeepsDistinct(cur: seq<Step>, s: Step)
    requires Distinct(StepIds(cur))
    ensures Distinct(StepIds(PinnedAfter(cur, s)))
  {
    var rest := Unpinned(cur, s.id);
    UnpinnedKeepsDistinct(cur, s.id);
    forall j | 0 <= j < |rest| ensures StepIds(rest)[j] != s.id {
      assert rest[j] in rest;
    }
    StepIdsCons(s, rest);
    DistinctCons(s.id, StepIds(rest));
    var full := [s] + rest;
    var r := PinnedAfter(cur, s);
    assert r == full[..|r|];
    assert StepIds(r) == StepIds(full)[..|r|];
  }

  /** Clicking the same bar twice pins it once. */
  lemma PinIdempotent(cur: seq<Step>, s: Step)
    ensures PinnedAfter(PinnedAfter(cur, s), s) == PinnedAfter(cur, s)
  {
    var r := PinnedAfter(cur, s);
    PinnedAfterShape(cur, s);
    var tail := r[1..];
    forall i | 0 <= i < |tail| ensures tail[i].id != s.id {
      assert tail[i] in tail;
    }
    UnpinnedKeepsAll(tail, s.id);
    assert r == [s] + tail;
  }

  /** Unpinning a step just pinned leaves at most two earlier pins, none with its id. */
  lemma UnpinAfterPin(cur: seq<Step>, s: Step)
    ensures var u := Unpinned(PinnedAfter(cur, s), s.id);
      |u| < MaxPinned && forall x :: x in u ==> x in cur && x.id != s.id
  {
    var r := PinnedAfter(cur, s);
    PinnedAfterShape(cur, s);
    var tail := r[1..];
    forall i | 0 <= i < |tail| ensures tail[i].id != s.id {
      assert tail[i] in tail;
    }
    UnpinnedKeepsAll(tail, s.id);
    assert r == [s] + tail;
  }
}
