/**
 * Lane grouping and row packing of the cooking plan: steps are grouped by
 * the recipe they belong to (their `parent`), lanes are ordered by name,
 * the steps of a lane are ordered by start and then by duration, and a
 * first-fit greedy pass stacks overlapping steps into rows.
 */
module Schedule {
  import opened Common

  /** One task of the plan; times are minutes from the start of cooking. */
  datatype Step = Step(id: string, parent: string, title: string, start: real, duration: real, description: string)

  function End(s: Step): real {
    s.start + s.duration
  }

  /** The half-open intervals [start, end) of the two steps share an instant. */
  predicate Overlap(x: Step, y: Step) {
    x.start < End(y) && y.start < End(x)
  }

  /** What the file loader lets through: no step has a non-positive duration. */
  predicate PositiveDurations(steps: seq<Step>) {
    forall i :: 0 <= i < |steps| ==> steps[i].duration > 0.0
  }

  // ---------------------------------------------------------------------
  // Lane names. `localeCompare` is modelled as the lexicographic order on
  // character codes.
  // ---------------------------------------------------------------------

  predicate NameBefore(a: string, b: string)
    decreases |a|
  {
    if a == [] then b != []
    else if b == [] then false
    else if a[0] == b[0] then NameBefore(a[1..], b[1..])
    else a[0] < b[0]
  }

  lemma {:induction false} NameBeforeIrreflexive(a: string)
    ensures !NameBefore(a, a)
    decreases |a|
  {
    if a != [] {
      NameBeforeIrreflexive(a[1..]);
    }
  }

  lemma {:induction false} NameBeforeTransitive(a: string, b: string, c: string)
    requires NameBefore(a, b) && NameBefore(b, c)
    ensures NameBefore(a, c)
    decreases |a|
  {
    if a != [] && b != [] && c != [] && a[0] == b[0] && b[0] == c[0] {
      NameBeforeTransitive(a[1..], b[1..], c[1..]);
    }
  }

  lemma {:induction false} NameBeforeTotal(a: string, b: string)
    ensures a == b || NameBefore(a, b) || NameBefore(b, a)
    decreases |a|
  {
    if a != [] && b != [] && a[0] == b[0] {
      NameBeforeTotal(a[1..], b[1..]);
      if a[1..] == b[1..] {
        assert a == [a[0]] + a[1..] && b == [b[0]] + b[1..];
      }
    }
  }

  predicate StrictlySorted(names: seq<string>) {
    forall i, j :: 0 <= i < j < |names| ==> NameBefore(names[i], names[j])
  }

  function InsertName(n: string, names: seq<string>): (r: seq<string>)
    ensures multiset(r) == multiset(names) + multiset{n}
  {
    if names == [] || !NameBefore(names[0], n) then [n] + names
    else
      assert names == [names[0]] + names[1..];
      [names[0]] + InsertName(n, names[1..])
  }

  /** `Array.prototype.sort` with the name order as comparator. */
  function SortNames(names: seq<string>): (r: seq<string>)
    ensures multiset(r) == multiset(names)
  {
    if names == [] then []
    else
      assert names == [names[0]] + names[1..];
      InsertName(names[0], SortNames(names[1..]))
  }

  lemma {:induction false} InsertNameSorted(n: string, names: seq<string>)
    requires StrictlySorted(names) && n !in names
    ensures StrictlySorted(InsertName(n, names))
    decreases |names|
  {
    if names != [] && NameBefore(names[0], n) {
      InsertNameSorted(n, names[1..]);
      var r := InsertName(n, names);
      var tail := InsertName(n, names[1..]);
      assert r == [names[0]] + tail;
      forall j | 0 <= j < |tail|
        ensures NameBefore(names[0], tail[j])
      {
        assert tail[j] in multiset(tail);
        if tail[j] != n {
          assert tail[j] in multiset(names[1..]);
          var q :| 0 <= q < |names[1..]| && names[1..][q] == tail[j];
          assert names[q + 1] == tail[j];
        }
      }
    } else if names != [] {
      var r := InsertName(n, names);
      forall i, j | 0 <= i < j < |r|
        ensures NameBefore(r[i], r[j])
      {
        if i == 0 {
          NameBeforeTotal(names[0], n);
          if j > 1 {
            NameBeforeTransitive(n, names[0], names[j - 1]);
          }
        }
      }
    }
  }

  /** Sorting distinct names orders them strictly and keeps exactly the same names. */
  lemma {:induction false} SortNamesCorrect(names: seq<string>)
    requires Distinct(names)
    ensures StrictlySorted(SortNames(names))
    ensures multiset(SortNames(names)) == multiset(names)
    ensures Distinct(SortNames(names))
    decreases |names|
  {
    if names != [] {
      SortNamesCorrect(names[1..]);
      var rest := SortNames(names[1..]);
      assert forall q :: 0 <= q < |names[1..]| ==> names[1..][q] == names[q + 1] != names[0];
      assert names[0] !in multiset(names[1..]);
      assert names[0] !in multiset(rest);
      InsertNameSorted(names[0], rest);
    }
    var r := SortNames(names);
    forall i, j | 0 <= i < j < |r|
      ensures r[i] != r[j]
    {
      NameBeforeIrreflexive(r[i]);
    }
  }

  lemma SameMembers<T>(a: seq<T>, b: seq<T>)
    requires multiset(a) == multiset(b)
    ensures forall x :: x in a <==> x in b
  {
    forall x ensures x in a <==> x in b {
      assert x in a <==> x in multiset(a);
      assert x in b <==> x in multiset(b);
    }
  }

  // ---------------------------------------------------------------------
  // Steps of a lane: ordered by start, then by duration (a stable sort).
  // ---------------------------------------------------------------------

  /** The comparator `a.start_min - b.start_min || a.duration_min - b.duration_min` says "not after". */
  predicate StepNotAfter(a: Step, b: Step) {
    a.start < b.start || (a.start == b.start && a.duration <= b.duration)
  }

  predicate SortedByTime(s: seq<Step>) {
    forall i, j :: 0 <= i < j < |s| ==> StepNotAfter(s[i], s[j])
  }

  function InsertStep(x: Step, s: seq<Step>): (r: seq<Step>)
    ensures multiset(r) == multiset(s) + multiset{x}
  {
    if s == [] || StepNotAfter(x, s[0]) then [x] + s
    else
      assert s == [s[0]] + s[1..];
      [s[0]] + InsertStep(x, s[1..])
  }

  /** The lane's stable sort: each step goes before the first later step it is not after. */
  function SortSteps(s: seq<Step>): (r: seq<Step>)
    ensures multiset(r) == multiset(s)
  {
    if s == [] then []
    else
      assert s == [s[0]] + s[1..];
      InsertStep(s[0], SortSteps(s[1..]))
  }

  lemma {:induction false} InsertStepSorted(x: Step, s: seq<Step>)
    requires SortedByTime(s)
    ensures SortedByTime(InsertStep(x, s))
    decreases |s|
  {
    if s != [] && !StepNotAfter(x, s[0]) {
      InsertStepSorted(x, s[1..]);
      var tail := InsertStep(x, s[1..]);
      forall j | 0 <= j < |tail|
        ensures StepNotAfter(s[0], tail[j])
      {
        assert tail[j] in multiset(tail);
        if tail[j] != x {
          assert tail[j] in multiset(s[1..]);
          var q :| 0 <= q < |s[1..]| && s[1..][q] == tail[j];
          assert s[q + 1] == tail[j];
        }
      }
    }
  }

  /** The lane order is sorted by (start, duration) and is a permutation of the lane's steps. */
  lemma {:induction false} SortStepsCorrect(s: seq<Step>)
    ensures SortedByTime(SortSteps(s))
    ensures multiset(SortSteps(s)) == multiset(s)
    ensures |SortSteps(s)| == |s|
    decreases |s|
  {
    if s != [] {
      SortStepsCorrect(s[1..]);
      InsertStepSorted(s[0], SortSteps(s[1..]));
    }
    assert |multiset(SortSteps(s))| == |multiset(s)|;
  }

  // ---------------------------------------------------------------------
  // Grouping steps by parent.
  // ---------------------------------------------------------------------

  /** The steps of one lane, in their order in the plan. */
  function WithParent(steps: seq<Step>, p: string): (r: seq<Step>)
    ensures forall s :: s in r ==> s in steps && s.parent == p
  {
    if steps == [] then []
    else
      var last := steps[|steps| - 1];
      WithParent(steps[..|steps| - 1], p) + (if last.parent == p then [last] else [])
  }

  function ParentSet(steps: seq<Step>): set<string> {
    set s | s in steps :: s.parent
  }

  /** A step is in the lane of its parent, and in no other. */
  lemma {:induction false} InLaneOfParent(steps: seq<Step>, s: Step)
    ensures s in WithParent(steps, s.parent) <==> s in steps
    decreases |steps|
  {
    if steps != [] {
      InLaneOfParent(steps[..|steps| - 1], s);
      assert steps == steps[..|steps| - 1] + [steps[|steps| - 1]];
    }
  }

  lemma {:induction false} NoLaneWithoutParent(steps: seq<Step>, p: string)
    requires p !in ParentSet(steps)
    ensures WithParent(steps, p) == []
    decreases |steps|
  {
    if steps != [] {
      var init := steps[..|steps| - 1];
      assert ParentSet(init) <= ParentSet(steps) by {
        forall s | s in init ensures s in steps { }
      }
      NoLaneWithoutParent(init, p);
    }
  }

  /** The parents of the plan, each once, in the order their first step appears. */
  function FirstSeen(steps: seq<Step>): (r: seq<string>)
    ensures forall p :: p in r <==> p in ParentSet(steps)
  {
    if steps == [] then []
    else
      var init := steps[..|steps| - 1];
      var last := steps[|steps| - 1];
      WithParentSnoc(init, last, last.parent);
      assert steps == init + [last];
      if last.parent in ParentSet(init) then FirstSeen(init) else FirstSeen(init) + [last.parent]
  }

  /** Of two parents listed by `FirstSeen`, the earlier one has a step before every step of the later one. */
  lemma {:induction false} FirstSeenOrder(steps: seq<Step>, i: int, j: int)
    requires 0 <= i < j < |FirstSeen(steps)|
    ensures exists a :: 0 <= a < |steps| && steps[a].parent == FirstSeen(steps)[i] &&
                        forall b :: 0 <= b <= a ==> steps[b].parent != FirstSeen(steps)[j]
    decreases |steps|
  {
    var init := steps[..|steps| - 1];
    var last := steps[|steps| - 1];
    var r := FirstSeen(steps);
    var r0 := FirstSeen(init);
    if j < |r0| {
      FirstSeenOrder(init, i, j);
      var a :| 0 <= a < |init| && init[a].parent == r0[i] &&
               forall b :: 0 <= b <= a ==> init[b].parent != r0[j];
      assert steps[a] == init[a];
      assert forall b :: 0 <= b <= a ==> steps[b] == init[b];
    } else {
      assert last.parent !in ParentSet(init) && r[j] == last.parent && r[i] == r0[i];
      assert r0[i] in ParentSet(init);
      var x :| x in init && x.parent == r0[i];
      var a :| 0 <= a < |init| && init[a] == x;
      assert steps[a] == init[a];
      forall b | 0 <= b <= a ensures steps[b].parent != r[j] {
        assert steps[b] == init[b] && init[b] in init;
      }
    }
  }

  /** `order` and `groups` hold the grouping of the first `i` steps. */
  ghost predicate GroupedUpTo(steps: seq<Step>, i: int, order: seq<string>, groups: map<string, seq<Step>>) {
    && 0 <= i <= |steps|
    && Distinct(order)
    && order == FirstSeen(steps[..i])
    && (forall p :: p in order <==> p in groups)
    && (forall p :: p in groups <==> p in ParentSet(steps[..i]))
    && forall p :: p in groups ==> groups[p] == WithParent(steps[..i], p)
  }

  lemma WithParentSnoc(steps: seq<Step>, s: Step, p: string)
    ensures WithParent(steps + [s], p) == WithParent(steps, p) + (if s.parent == p then [s] else [])
    ensures ParentSet(steps + [s]) == ParentSet(steps) + {s.parent}
  {
    assert (steps + [s])[..|steps|] == steps;
    assert forall x :: x in steps + [s] <==> x in steps || x == s;
  }

  /** The loop's update of `order` and `groups` for step `i`. */
  ghost predicate GroupStep(steps: seq<Step>, i: int, order: seq<string>, groups: map<string, seq<Step>>,
                            order': seq<string>, groups': map<string, seq<Step>>)
    requires 0 <= i < |steps|
  {
    var s := steps[i];
    && order' == (if s.parent in groups then order else order + [s.parent])
    && groups' == groups[s.parent := (if s.parent in groups then groups[s.parent] else []) + [s]]
  }

  lemma GroupStepKeepsOrder(steps: seq<Step>, i: int, order: seq<string>, groups: map<string, seq<Step>>,
                            order': seq<string>, groups': map<string, seq<Step>>)
    requires GroupedUpTo(steps, i, order, groups) && i < |steps|
    requires GroupStep(steps, i, order, groups, order', groups')
    ensures Distinct(order')
    ensures order' == FirstSeen(steps[..i + 1])
    ensures forall p :: p in order' <==> p in groups'
    ensures forall p :: p in groups' <==> p in ParentSet(steps[..i + 1])
  {
    var s := steps[i];
    assert steps[..i + 1] == steps[..i] + [s];
    assert steps[..i + 1][..i] == steps[..i];
    WithParentSnoc(steps[..i], s, s.parent);
  }

  lemma GroupStepKeepsGroups(steps: seq<Step>, i: int, order: seq<string>, groups: map<string, seq<Step>>,
                             order': seq<string>, groups': map<string, seq<Step>>)
    requires GroupedUpTo(steps, i, order, groups) && i < |steps|
    requires GroupStep(steps, i, order, groups, order', groups')
    ensures forall p :: p in groups' ==> groups'[p] == WithParent(steps[..i + 1], p)
  {
    var s := steps[i];
    assert steps[..i + 1] == steps[..i] + [s];
    forall p | p in groups' ensures groups'[p] == WithParent(steps[..i + 1], p) {
      WithParentSnoc(steps[..i], s, p);
      if p == s.parent && s.parent !in groups {
        NoLaneWithoutParent(steps[..i], s.parent);
      }
    }
  }

  /** One iteration of the grouping loop: a new parent is recorded, and the step joins its group. */
  lemma GroupOneMore(steps: seq<Step>, i: int, order: seq<string>, groups: map<string, seq<Step>>,
                     order': seq<string>, groups': map<string, seq<Step>>)
    requires GroupedUpTo(steps, i, order, groups) && i < |steps|
    requires GroupStep(steps, i, order, groups, order', groups')
    ensures GroupedUpTo(steps, i + 1, order', groups')
  {
    GroupStepKeepsOrder(steps, i, order, groups, order', groups');
    GroupStepKeepsGroups(steps, i, order, groups, order', groups');
  }

  lemma GroupedAll(steps: seq<Step>, order: seq<string>, groups: map<string, seq<Step>>)
    requires GroupedUpTo(steps, |steps|, order, groups)
    ensures Distinct(order)
    ensures order == FirstSeen(steps)
    ensures forall p :: p in order <==> p in groups
    ensures forall p :: p in groups <==> p in ParentSet(steps)
    ensures forall p :: p in groups ==> groups[p] == WithParent(steps, p)
  {
    assert steps[..|steps|] == steps;
  }

  /**
   * The grouping loop: a map from parent to its steps in plan order, and
   * the parents in first-seen order.
   */
  method GroupByParent(steps: seq<Step>) returns (order: seq<string>, groups: map<string, seq<Step>>)
    ensures Distinct(order)
    ensures order == FirstSeen(steps)
    ensures forall p :: p in order <==> p in groups
    ensures forall p :: p in groups <==> p in ParentSet(steps)
    ensures forall p :: p in groups ==> groups[p] == WithParent(steps, p)
  {
    order, groups := [], map[];
    for i := 0 to |steps|
      invariant GroupedUpTo(steps, i, order, groups)
    {
      var s := steps[i];
      var group: seq<Step> := [];
      var order' := order;
      if s.parent in groups {
        group := groups[s.parent];
      } else {
        order' := order + [s.parent];
      }
      var groups' := groups[s.parent := group + [s]];
      GroupOneMore(steps, i, order, groups, order', groups');
      order, groups := order', groups';
    }
    GroupedAll(steps, order, groups);
  }


  // ---------------------------------------------------------------------
  // First-fit row packing.
  // ---------------------------------------------------------------------

  /** A step of a lane together with the row it is drawn in. */
  datatype Placed = Placed(step: Step, row: nat)

  function Steps(a: seq<Placed>): (s: seq<Step>)
    ensures |s| == |a| && forall i :: 0 <= i < |a| ==> s[i] == a[i].step
  {
    seq(|a|, i requires 0 <= i < |a| => a[i].step)
  }

  /** `j` is the latest step before position `i` placed in row `a[j].row`. */
  ghost predicate LastInRowBefore(a: seq<Placed>, j: int, i: int) {
    0 <= j < i <= |a| && forall k :: j < k < i ==> a[k].row != a[j].row
  }

  /** When step `i` was placed, row `r` was still occupied: its latest step ends after `i` starts. */
  ghost predicate RowBusy(a: seq<Placed>, i: int, r: nat)
    requires 0 <= i < |a|
  {
    exists j :: 0 <= j < i && a[j].row == r && LastInRowBefore(a, j, i) && End(a[j].step) > a[i].step.start
  }

  ghost predicate RowUsed(a: seq<Placed>, r: nat) {
    exists i :: 0 <= i < |a| && a[i].row == r
  }

  /**
   * `a` is what the first-fit pass produces with `rows` rows: each step goes
   * to the first row whose latest step has ended by the step's start, or to
   * a new row when every row is still occupied.
   */
  ghost predicate FirstFit(a: seq<Placed>, rows: nat) {
    && (forall i :: 0 <= i < |a| ==> a[i].row < rows)
    && (forall j, i :: 0 <= j < i < |a| && a[j].row == a[i].row && LastInRowBefore(a, j, i) ==>
          End(a[j].step) <= a[i].step.start)
    && (forall i, r: nat :: 0 <= i < |a| && r < a[i].row ==> RowBusy(a, i, r))
    && (forall r: nat :: r < rows ==> RowUsed(a, r))
  }

  /** `ends[r]` is the end of row r's latest step, at position `last[r]` of `a`. */
  ghost predicate Tracked(a: seq<Placed>, ends: seq<real>, last: seq<nat>) {
    && |ends| == |last|
    && forall r :: 0 <= r < |ends| ==>
      last[r] < |a| && a[last[r]].row == r && ends[r] == End(a[last[r]].step) && LastInRowBefore(a, last[r], |a|)
  }

  /** Placing `s` in row `p` makes it the latest step of that row. */
  lemma PlaceKeepsTracked(a: seq<Placed>, ends: seq<real>, last: seq<nat>, s: Step, p: nat)
    requires Tracked(a, ends, last) && p <= |ends|
    ensures p == |ends| ==> Tracked(a + [Placed(s, p)], ends + [End(s)], last + [|a|])
    ensures p < |ends| ==> Tracked(a + [Placed(s, p)], ends[p := End(s)], last[p := |a|])
  {
    var a' := a + [Placed(s, p)];
    assert forall i :: 0 <= i < |a| ==> a'[i] == a[i];
  }

  /**
   * One step of the packing loop keeps the first-fit description: `ends[r]`
   * is the end of row r's latest step `last[r]`, and the step `s` goes to row
   * `p`, the first row that has ended by its start (p == n: none has).
   */
  lemma PlaceKeepsFirstFit(a: seq<Placed>, n: nat, ends: seq<real>, last: seq<nat>, s: Step, p: nat)
    requires FirstFit(a, n)
    requires Tracked(a, ends, last) && |ends| == n
    requires p <= n
    requires forall q :: 0 <= q < p ==> ends[q] > s.start
    requires p < n ==> ends[p] <= s.start
    ensures FirstFit(a + [Placed(s, p)], if p == n then n + 1 else n)
  {
    var a' := a + [Placed(s, p)];
    var n' := if p == n then n + 1 else n;
    var k := |a|;
    assert forall i :: 0 <= i < k ==> a'[i] == a[i];
    assert forall j, i :: 0 <= j < i < k ==> (LastInRowBefore(a', j, i) <==> LastInRowBefore(a, j, i));
    forall j, i | 0 <= j < i < |a'| && a'[j].row == a'[i].row && LastInRowBefore(a', j, i)
      ensures End(a'[j].step) <= a'[i].step.start
    {
      if i == k {
        assert p < n && j == last[p];
      }
    }
    forall i, r: nat | 0 <= i < |a'| && r < a'[i].row
      ensures RowBusy(a', i, r)
    {
      if i < k {
        assert a[i].row == a'[i].row && RowBusy(a, i, r);
        var j :| 0 <= j < i && a[j].row == r && LastInRowBefore(a, j, i) && End(a[j].step) > a[i].step.start;
        assert LastInRowBefore(a', j, i);
      } else {
        var j := last[r];
        assert LastInRowBefore(a', j, i);
      }
    }
    forall r: nat | r < n'
      ensures RowUsed(a', r)
    {
      if r < n {
        assert RowUsed(a, r);
        var i :| 0 <= i < |a| && a[i].row == r;
        assert a'[i].row == r;
      } else {
        assert a'[k].row == r;
      }
    }
  }

  /** The inner loop: the first row whose end is at or before `sStart`, or -1 when there is none. */
  method FirstFreeRow(rows: seq<real>, sStart: real) returns (placedRow: int)
    ensures -1 <= placedRow < |rows|
    ensures placedRow >= 0 ==> rows[placedRow] <= sStart
    ensures forall q :: 0 <= q < |rows| && (placedRow == -1 || q < placedRow) ==> rows[q] > sStart
  {
    placedRow := -1;
    var r := 0;
    while r < |rows|
      invariant 0 <= r <= |rows|
      invariant placedRow == -1
      invariant forall q :: 0 <= q < r ==> rows[q] > sStart
    {
      if rows[r] <= sStart {
        placedRow := r;
        break;
      }
      r := r + 1;
    }
  }

  /**
   * The per-lane packing loop: `rows` holds the end time of each row's
   * latest step; a step reuses the first row that has ended by its start or
   * opens a new row.
   */
  method PackLane(list: seq<Step>) returns (placed: seq<Placed>, rowCount: nat)
    ensures Steps(placed) == list
    ensures FirstFit(placed, rowCount)
    ensures rowCount <= |list|
  {
    var rows: seq<real> := [];
    ghost var last: seq<nat> := [];  // last[r]: position of the latest step in row r
    placed := [];
    for k := 0 to |list|
      invariant Steps(placed) == list[..k]
      invariant |rows| <= k
      invariant Tracked(placed, rows, last)
      invariant FirstFit(placed, |rows|)
    {
      var s := list[k];
      var sStart := s.start;
      var sEnd := s.start + s.duration;
      var placedRow := FirstFreeRow(rows, sStart);
      var p := if placedRow == -1 then |rows| else placedRow;
      PlaceKeepsFirstFit(placed, |rows|, rows, last, s, p);
      PlaceKeepsTracked(placed, rows, last, s, p);
      if placedRow == -1 {
        rows := rows + [sEnd];
        last := last + [k];
        placedRow := |rows| - 1;
      } else {
        rows := rows[placedRow := sEnd];
        last := last[placedRow := k];
      }
      assert Steps(placed + [Placed(s, placedRow)]) == Steps(placed) + [s];
      assert list[..k + 1] == list[..k] + [s];
      placed := placed + [Placed(s, placedRow)];
    }
    assert list[..|list|] == list;
    rowCount := |rows|;
  }


  // ---------------------------------------------------------------------
  // What the packing guarantees: rows never hold overlapping steps, and the
  // number of rows is the largest number of steps running at one instant.
  // ---------------------------------------------------------------------

  /** The positions of the steps running at instant `t`. */
  ghost function ActiveAt(a: seq<Placed>, t: real): set<nat> {
    set i: nat | i < |a| && a[i].step.start <= t < End(a[i].step)
  }

  /** Any stacking into `n` rows in which no row holds two overlapping steps. */
  ghost predicate ValidPacking(a: seq<Placed>, n: nat) {
    && (forall i :: 0 <= i < |a| ==> a[i].row < n)
    && (forall i, j :: 0 <= i < j < |a| && a[i].row == a[j].row ==> !Overlap(a[i].step, a[j].step))
  }

  ghost function RowsOf(a: seq<Placed>, A: set<nat>): set<nat> {
    set i | i in A && i < |a| :: a[i].row
  }

  /** The row numbers 0 .. n-1. */
  ghost function RowsBelow(n: nat): (s: set<nat>)
    ensures forall r: nat :: r in s <==> r < n
  {
    if n == 0 then {} else RowsBelow(n - 1) + {n - 1}
  }

  lemma {:induction false} RowsBelowSize(n: nat)
    ensures |RowsBelow(n)| == n
  {
    if n > 0 {
      RowsBelowSize(n - 1);
    }
  }

  lemma {:induction false} SubsetSize(A: set<nat>, B: set<nat>)
    requires A <= B
    ensures |A| <= |B|
    decreases |B|
  {
    if A != {} {
      var x :| x in A;
      SubsetSize(A - {x}, B - {x});
    }
  }

  lemma {:induction false} DistinctRowsSize(a: seq<Placed>, A: set<nat>)
    requires forall i :: i in A ==> i < |a|
    requires forall i, j :: i in A && j in A && i != j ==> a[i].row != a[j].row
    ensures |RowsOf(a, A)| == |A|
    decreases |A|
  {
    if A != {} {
      var x :| x in A;
      var B := A - {x};
      DistinctRowsSize(a, B);
      assert RowsOf(a, A) == RowsOf(a, B) + {a[x].row};
    }
  }

  /** The latest step in row `a[j].row` before position `i`, starting the search at `j`. */
  lemma {:induction false} LatestInRow(a: seq<Placed>, j: int, i: int) returns (m: int)
    requires 0 <= j < i <= |a|
    ensures j <= m < i && a[m].row == a[j].row && LastInRowBefore(a, m, i)
    decreases i - j
  {
    if LastInRowBefore(a, j, i) {
      m := j;
    } else {
      var k :| j < k < i && a[k].row == a[j].row;
      m := LatestInRow(a, k, i);
    }
  }

  /** In a first-fit packing every step of a row ends before any later step of that row starts. */
  lemma {:induction false} RowIsChronological(a: seq<Placed>, rows: nat, j: int, i: int)
    requires FirstFit(a, rows) && PositiveDurations(Steps(a))
    requires 0 <= j < i < |a| && a[j].row == a[i].row
    ensures End(a[j].step) <= a[i].step.start
    decreases i - j
  {
    var m := LatestInRow(a, j, i);
    if m != j {
      RowIsChronological(a, rows, j, m);
      assert Steps(a)[m].duration > 0.0;
    }
  }

  /** No row of a first-fit packing holds two overlapping steps. */
  lemma FirstFitIsValidPacking(a: seq<Placed>, rows: nat)
    requires FirstFit(a, rows) && PositiveDurations(Steps(a))
    ensures ValidPacking(a, rows)
  {
    forall i, j | 0 <= i < j < |a| && a[i].row == a[j].row
      ensures !Overlap(a[i].step, a[j].step)
    {
      RowIsChronological(a, rows, i, j);
    }
  }

  /** Steps running at the same instant sit in distinct rows of a valid packing. */
  lemma ActiveRowsDistinct(a: seq<Placed>, n: nat, t: real)
    requires ValidPacking(a, n)
    ensures |RowsOf(a, ActiveAt(a, t))| == |ActiveAt(a, t)|
    ensures RowsOf(a, ActiveAt(a, t)) <= RowsBelow(n)
  {
    var A := ActiveAt(a, t);
    forall i, j | i in A && j in A && i != j
      ensures a[i].row != a[j].row
    {
      assert Overlap(a[i].step, a[j].step);
    }
    DistinctRowsSize(a, A);
  }

  /** Every valid packing needs at least as many rows as steps run at any one instant. */
  lemma OverlapNeedsRows(a: seq<Placed>, n: nat, t: real)
    requires ValidPacking(a, n)
    ensures |ActiveAt(a, t)| <= n
  {
    ActiveRowsDistinct(a, n, t);
    SubsetSize(RowsOf(a, ActiveAt(a, t)), RowsBelow(n));
    RowsBelowSize(n);
  }

  /** A row below step `i`'s row is busy when `i` starts, so one of its steps runs at that moment. */
  lemma BusyRowIsActive(a: seq<Placed>, i: int, r: nat)
    requires SortedByTime(Steps(a)) && 0 <= i < |a| && RowBusy(a, i, r)
    ensures r in RowsOf(a, ActiveAt(a, a[i].step.start))
  {
    var j :| 0 <= j < i && a[j].row == r && LastInRowBefore(a, j, i) && End(a[j].step) > a[i].step.start;
    assert StepNotAfter(Steps(a)[j], Steps(a)[i]);
    assert j in ActiveAt(a, a[i].step.start);
  }

  /**
   * Over steps sorted by start, first-fit opens its last row at an instant
   * when all its rows are busy: that many steps run at once.
   */
  lemma FirstFitRowsAreNeeded(a: seq<Placed>, rows: nat) returns (t: real)
    requires FirstFit(a, rows) && SortedByTime(Steps(a)) && PositiveDurations(Steps(a))
    requires rows > 0
    ensures |ActiveAt(a, t)| >= rows
  {
    assert RowUsed(a, rows - 1);
    var i :| 0 <= i < |a| && a[i].row == rows - 1;
    t := a[i].step.start;
    var A := ActiveAt(a, t);
    assert Steps(a)[i].duration > 0.0;
    assert i in A;
    forall r: nat | r < rows
      ensures r in RowsOf(a, A)
    {
      if r < rows - 1 {
        assert RowBusy(a, i, r);
        BusyRowIsActive(a, i, r);
      }
    }
    assert RowsBelow(rows) <= RowsOf(a, A);
    FirstFitIsValidPacking(a, rows);
    ActiveRowsDistinct(a, rows, t);
    SubsetSize(RowsBelow(rows), RowsOf(a, A));
    RowsBelowSize(rows);
  }


  /**
   * The interval-graph colouring claim: over steps sorted by start, the
   * first-fit row count is the largest number of steps running at one instant.
   */
  lemma RowCountIsMaxOverlap(a: seq<Placed>, rows: nat)
    requires FirstFit(a, rows) && SortedByTime(Steps(a)) && PositiveDurations(Steps(a))
    ensures forall t :: |ActiveAt(a, t)| <= rows
    ensures exists t :: |ActiveAt(a, t)| == rows
  {
    FirstFitIsValidPacking(a, rows);
    forall t ensures |ActiveAt(a, t)| <= rows {
      OverlapNeedsRows(a, rows, t);
    }
    if rows == 0 {
      assert ActiveAt(a, 0.0) == {};
    } else {
      var t := FirstFitRowsAreNeeded(a, rows);
      assert |ActiveAt(a, t)| == rows;
    }
  }

  /** No valid stacking of the same steps uses fewer rows than first-fit. */
  lemma FirstFitUsesFewestRows(a: seq<Placed>, rows: nat, b: seq<Placed>, n: nat)
    requires FirstFit(a, rows) && SortedByTime(Steps(a)) && PositiveDurations(Steps(a))
    requires Steps(b) == Steps(a) && ValidPacking(b, n)
    ensures rows <= n
  {
    if rows > 0 {
      var t := FirstFitRowsAreNeeded(a, rows);
      assert ActiveAt(a, t) == ActiveAt(b, t) by {
        assert forall i :: 0 <= i < |a| ==> a[i].step == Steps(a)[i] == b[i].step;
      }
      OverlapNeedsRows(b, n, t);
    }
  }

  // ---------------------------------------------------------------------
  // The lanes of a plan.
  // ---------------------------------------------------------------------

  /** A lane before layout: its steps with rows, its row count, and (later) its vertical place. */
  datatype Lane = Lane(parent: string, steps: seq<Placed>, rows: nat, yTop: int, height: int)

  /** `l` holds the steps of its parent in lane order, packed first-fit. */
  ghost predicate PackedLane(steps: seq<Step>, l: Lane) {
    && Steps(l.steps) == SortSteps(WithParent(steps, l.parent))
    && FirstFit(l.steps, l.rows)
    && l.rows <= |l.steps|
  }

  /** The body of the per-lane pass: sort the parent's steps and pack them. */
  method PackParent(steps: seq<Step>, parent: string, group: seq<Step>) returns (lane: Lane)
    requires group == WithParent(steps, parent)
    ensures lane.parent == parent && PackedLane(steps, lane)
    ensures lane.yTop == 0 && lane.height == 0
  {
    var list := SortSteps(group);
    var placed, rowCount := PackLane(list);
    lane := Lane(parent, placed, rowCount, 0, 0);
  }

  /** The parents of the lanes, top to bottom. */
  function Names(lanes: seq<Lane>): (names: seq<string>)
    ensures |names| == |lanes| && forall k :: 0 <= k < |lanes| ==> names[k] == lanes[k].parent
  {
    seq(|lanes|, k requires 0 <= k < |lanes| => lanes[k].parent)
  }

  /** Every lane is packed from `steps` and not yet placed vertically. */
  ghost predicate AllPacked(steps: seq<Step>, lanes: seq<Lane>) {
    forall l :: l in lanes ==> PackedLane(steps, l) && l.yTop == 0 && l.height == 0
  }

  /** One `forEach` iteration: pack the parent's group and append its lane. */
  method AppendLane(steps: seq<Step>, lanes: seq<Lane>, parent: string, group: seq<Step>) returns (more: seq<Lane>)
    requires AllPacked(steps, lanes)
    requires group == WithParent(steps, parent)
    ensures Names(more) == Names(lanes) + [parent]
    ensures AllPacked(steps, more)
  {
    var lane := PackParent(steps, parent, group);
    more := lanes + [lane];
  }

  /** The `parents.forEach` pass: one packed lane per parent, in the given order. */
  method PackLanes(steps: seq<Step>, parents: seq<string>, groups: map<string, seq<Step>>) returns (lanes: seq<Lane>)
    requires forall p :: p in parents ==> p in groups && groups[p] == WithParent(steps, p)
    ensures Names(lanes) == parents
    ensures AllPacked(steps, lanes)
  {
    lanes := [];
    for idx := 0 to |parents|
      invariant Names(lanes) == parents[..idx]
      invariant AllPacked(steps, lanes)
    {
      lanes := AppendLane(steps, lanes, parents[idx], groups[parents[idx]]);
      assert parents[..idx + 1] == parents[..idx] + [parents[idx]];
    }
    assert parents[..|parents|] == parents;
  }

  /**
   * The lane computation: one lane per parent, in name order, each holding
   * its parent's steps sorted and packed into rows.
   */
  method BuildLanes(steps: seq<Step>) returns (lanes: seq<Lane>)
    ensures StrictlySorted(Names(lanes))
    ensures forall p :: p in Names(lanes) <==> p in ParentSet(steps)
    ensures AllPacked(steps, lanes)
  {
    var order, groups := GroupByParent(steps);
    var parents := SortNames(order);
    SortNamesCorrect(order);
    SameMembers(parents, order);
    lanes := PackLanes(steps, parents, groups);
  }

  /** A lane lists exactly the plan's steps with its parent, sorted by (start, duration). */
  lemma LaneHoldsItsSteps(steps: seq<Step>, l: Lane)
    requires PackedLane(steps, l)
    ensures SortedByTime(Steps(l.steps))
    ensures multiset(Steps(l.steps)) == multiset(WithParent(steps, l.parent))
    ensures forall s :: s in Steps(l.steps) <==> s in steps && s.parent == l.parent
  {
    SortStepsCorrect(WithParent(steps, l.parent));
    forall s ensures s in Steps(l.steps) <==> s in steps && s.parent == l.parent {
      InLaneOfParent(steps, s);
      assert s in Steps(l.steps) <==> s in multiset(WithParent(steps, l.parent));
    }
  }

  /** For plans the loader accepts, each lane's row count is the largest overlap in that lane. */
  lemma LaneRowsAreMaxOverlap(steps: seq<Step>, l: Lane)
    requires PositiveDurations(steps) && PackedLane(steps, l)
    ensures forall t :: |ActiveAt(l.steps, t)| <= l.rows
    ensures exists t :: |ActiveAt(l.steps, t)| == l.rows
    ensures ValidPacking(l.steps, l.rows)
  {
    LaneHoldsItsSteps(steps, l);
    forall i | 0 <= i < |l.steps| ensures Steps(l.steps)[i].duration > 0.0 {
      assert Steps(l.steps)[i] in Steps(l.steps);
    }
    RowCountIsMaxOverlap(l.steps, l.rows);
    FirstFitIsValidPacking(l.steps, l.rows);
  }
}
