/**
 * Who is responsible for which step: a map from step id to the list of
 * person ids assigned to it, read as a set. People are added and removed, a
 * person is toggled on one step, or on every step of a lane at once.
 */
module Assignments {
  import opened Common
  import opened Schedule
  import opened Text

  /** `stepAssignments`: step id to person ids. */
  type Assignment = map<string, seq<string>>

  datatype Person = Person(id: string, name: string)

  function InitialPeople(): seq<Person> {
    [Person("p1", "Tim"), Person("p2", "Tiff")]
  }

  /** `prev[stepId] || []`. */
  function Lookup(m: Assignment, stepId: string): seq<string> {
    if stepId in m then m[stepId] else []
  }

  /** The set of people assigned to a step. */
  ghost function AssignedTo(m: Assignment, stepId: string): set<string> {
    Members(Lookup(m, stepId))
  }

  /** The set of ids a list holds. */
  function Members(list: seq<string>): set<string> {
    set x | x in list
  }

  /** `Array.from(new Set(list))`: each id once, in order of first occurrence. */
  function Dedup(list: seq<string>): (r: seq<string>)
    ensures forall x :: x in r <==> x in list
    ensures Distinct(r)
    ensures Distinct(list) ==> r == list
    decreases |list|
  {
    if list == [] then []
    else
      var init := list[..|list| - 1];
      var last := list[|list| - 1];
      assert forall x :: x in list <==> x in init || x == last;
      var d := Dedup(init);
      if last in d then d else d + [last]
  }

  /** `filter(id => id !== p)`. */
  function Without(list: seq<string>, p: string): (r: seq<string>)
    ensures forall x :: x in r <==> x in list && x != p
    ensures Distinct(list) ==> Distinct(r)
    ensures p !in list ==> r == list
    decreases |list|
  {
    if list == [] then []
    else
      var rest := Without(list[1..], p);
      assert forall x :: x in list <==> x == list[0] || x in list[1..];
      assert Distinct(list) ==> Distinct(list[1..]) && list[0] !in list[1..];
      if list[0] == p then rest else DistinctCons(list[0], rest); [list[0]] + rest
  }

  /** The set held in `list` with `p` added (`Set.add`). */
  function Added(list: seq<string>, p: string): seq<string> {
    var cur := Dedup(list);
    if p in cur then cur else cur + [p]
  }

  /** The set held in `list` with `p` deleted (`Set.delete`). */
  function Deleted(list: seq<string>, p: string): seq<string> {
    Without(Dedup(list), p)
  }

  /** Adding and deleting act on the set of ids, and leave every id once. */
  lemma AddedDeletedAreSetOperations(list: seq<string>, p: string)
    ensures Distinct(Added(list, p)) && Distinct(Deleted(list, p))
    ensures forall x :: x in Added(list, p) <==> x in list || x == p
    ensures forall x :: x in Deleted(list, p) <==> x in list && x != p
  {
  }

  /** Adding twice is adding once, and deleting twice is deleting once. */
  lemma AddedDeletedIdempotent(list: seq<string>, p: string)
    ensures Added(Added(list, p), p) == Added(list, p)
    ensures Deleted(Deleted(list, p), p) == Deleted(list, p)
  {
    var cur := Dedup(list);
    if p !in cur {
      assert Distinct(cur + [p]) by {
        forall i, j | 0 <= i < j < |cur + [p]| ensures (cur + [p])[i] != (cur + [p])[j] {
          if j == |cur| {
            assert (cur + [p])[i] == cur[i];
          }
        }
      }
    }
  }

  // ---------------------------------------------------------------------
  // One step

  /** `toggleAssignStep`: delete the person from the step's set when present, add otherwise. */
  function ToggleStep(m: Assignment, stepId: string, p: string): (r: Assignment)
    ensures stepId in r && Distinct(r[stepId])
    ensures AssignedTo(r, stepId) ==
      if p in AssignedTo(m, stepId) then AssignedTo(m, stepId) - {p} else AssignedTo(m, stepId) + {p}
    ensures forall k :: k != stepId ==> (k in r <==> k in m) && (k in m ==> r[k] == m[k])
  {
    var cur := Lookup(m, stepId);
    AddedDeletedAreSetOperations(cur, p);
    m[stepId := if p in cur then Deleted(cur, p) else Added(cur, p)]
  }

  /** Toggling the same person on the same step twice restores every step's set of people. */
  lemma ToggleStepTwiceRestores(m: Assignment, stepId: string, p: string)
    ensures forall k :: AssignedTo(ToggleStep(ToggleStep(m, stepId, p), stepId, p), k) == AssignedTo(m, k)
  {
    forall k ensures AssignedTo(ToggleStep(ToggleStep(m, stepId, p), stepId, p), k) == AssignedTo(m, k) {
      if k == stepId {
        ToggleStepTwiceHere(m, stepId, p);
      } else {
        ToggleStepTwiceElsewhere(m, stepId, p, k);
      }
    }
  }

  lemma ToggleStepTwiceHere(m: Assignment, stepId: string, p: string)
    ensures AssignedTo(ToggleStep(ToggleStep(m, stepId, p), stepId, p), stepId) == AssignedTo(m, stepId)
  {
    var once := ToggleStep(m, stepId, p);
    var a := AssignedTo(m, stepId);
    if p in a {
      assert AssignedTo(once, stepId) == a - {p};
    } else {
      assert AssignedTo(once, stepId) == a + {p};
    }
  }

  lemma ToggleStepTwiceElsewhere(m: Assignment, stepId: string, p: string, k: string)
    requires k != stepId
    ensures AssignedTo(ToggleStep(ToggleStep(m, stepId, p), stepId, p), k) == AssignedTo(m, k)
  {
    var once := ToggleStep(m, stepId, p);
    assert Lookup(once, k) == Lookup(m, k);
    assert Lookup(ToggleStep(once, stepId, p), k) == Lookup(once, k);
  }

  // ---------------------------------------------------------------------
  // A whole lane

  /** `steps.filter(s => s.parent === laneParent).map(s => s.id)`. */
  function LaneStepIds(steps: seq<Step>, parent: string): (ids: seq<string>)
    ensures forall id :: id in ids <==> exists s :: s in steps && s.parent == parent && s.id == id
    decreases |steps|
  {
    if steps == [] then []
    else
      var init := steps[..|steps| - 1];
      var last := steps[|steps| - 1];
      assert forall s :: s in steps <==> s in init || s == last;
      LaneStepIds(init, parent) + (if last.parent == parent then [last.id] else [])
  }

  /** `allAssigned`: the lane has steps and every one of them lists `p`. */
  predicate AllAssigned(m: Assignment, ids: seq<string>, p: string) {
    |ids| > 0 && forall i :: 0 <= i < |ids| ==> p in Lookup(m, ids[i])
  }

  /** The new list of one lane step: `p` deleted when the lane was all assigned, added otherwise. */
  function Bulk(all: bool, list: seq<string>, p: string): seq<string> {
    if all then Deleted(list, p) else Added(list, p)
  }

  /** `m` with the steps in `done` given their bulk-toggled lists and every other entry kept. */
  function ToggledOn(m: Assignment, done: seq<string>, all: bool, p: string): Assignment {
    map k | k in m.Keys + Members(done) :: if k in done then Bulk(all, Lookup(m, k), p) else m[k]
  }

  /** The assignment after toggling `p` on every step in `ids`. */
  function LaneToggled(m: Assignment, ids: seq<string>, p: string): Assignment {
    ToggledOn(m, ids, AllAssigned(m, ids, p), p)
  }

  lemma BulkIdempotent(all: bool, list: seq<string>, p: string)
    ensures Bulk(all, Bulk(all, list, p), p) == Bulk(all, list, p)
  {
    AddedDeletedIdempotent(list, p);
  }

  lemma ToggledOnNothing(m: Assignment, all: bool, p: string)
    ensures ToggledOn(m, [], all, p) == m
  {
    assert ToggledOn(m, [], all, p).Keys == m.Keys;
  }

  /** Entry by entry: the steps in `done` hold their bulk-toggled lists, every other step what it held. */
  lemma ToggledOnAt(m: Assignment, done: seq<string>, all: bool, p: string, k: string)
    ensures k in ToggledOn(m, done, all, p) <==> k in m || k in done
    ensures Lookup(ToggledOn(m, done, all, p), k) == if k in done then Bulk(all, Lookup(m, k), p) else Lookup(m, k)
  {
  }

  /** Toggling one more step updates that step's entry from the state reached so far. */
  lemma ToggledOnOneMore(m: Assignment, done: seq<string>, all: bool, p: string, id: string)
    ensures var sofar := ToggledOn(m, done, all, p);
      ToggledOn(m, done + [id], all, p) == sofar[id := Bulk(all, Lookup(sofar, id), p)]
  {
    var sofar := ToggledOn(m, done, all, p);
    var more := ToggledOn(m, done + [id], all, p);
    var updated := sofar[id := Bulk(all, Lookup(sofar, id), p)];
    forall k ensures (k in more <==> k in updated) && Lookup(more, k) == Lookup(updated, k) {
      ToggledOnAt(m, done, all, p, k);
      ToggledOnAt(m, done + [id], all, p, k);
      if k == id && id in done {
        BulkIdempotent(all, Lookup(m, id), p);
      }
    }
    SameEntries(more, updated);
  }

  /** Two assignments with the same keys and the same lists are equal. */
  lemma SameEntries(a: Assignment, b: Assignment)
    requires forall k :: (k in a <==> k in b) && Lookup(a, k) == Lookup(b, k)
    ensures a == b
  {
    assert a.Keys == b.Keys;
    forall k | k in a ensures a[k] == b[k] {
      assert Lookup(a, k) == Lookup(b, k);
    }
  }

  /** `toggleAssignLane`: the loop that fills `next` one lane step at a time. */
  method ToggleLane(steps: seq<Step>, prev: Assignment, laneParent: string, personId: string)
    returns (next: Assignment)
    ensures next == LaneToggled(prev, LaneStepIds(steps, laneParent), personId)
  {
    next := prev;
    var stepIds := LaneStepIds(steps, laneParent);
    var allAssigned := AllAssigned(prev, stepIds, personId);
    ToggledOnNothing(prev, allAssigned, personId);
    for i := 0 to |stepIds|
      invariant next == ToggledOn(prev, stepIds[..i], allAssigned, personId)
    {
      var id := stepIds[i];
      ToggledOnOneMore(prev, stepIds[..i], allAssigned, personId, id);
      assert stepIds[..i + 1] == stepIds[..i] + [id];
      next := next[id := Bulk(allAssigned, Lookup(next, id), personId)];
    }
    assert stepIds[..|stepIds|] == stepIds;
  }

  /** The bulk toggle on one lane step, as a set operation. */
  lemma LaneToggleInside(m: Assignment, ids: seq<string>, p: string, i: int)
    requires 0 <= i < |ids|
    ensures var r := LaneToggled(m, ids, p);
      ids[i] in r && Distinct(r[ids[i]])
      && AssignedTo(r, ids[i]) == if AllAssigned(m, ids, p) then AssignedTo(m, ids[i]) - {p} else AssignedTo(m, ids[i]) + {p}
  {
    AddedDeletedAreSetOperations(Lookup(m, ids[i]), p);
  }

  /** The bulk toggle leaves steps outside the lane alone. */
  lemma LaneToggleOutside(m: Assignment, ids: seq<string>, p: string, k: string)
    requires k !in ids
    ensures var r := LaneToggled(m, ids, p);
      (k in r <==> k in m) && (k in m ==> r[k] == m[k]) && Lookup(r, k) == Lookup(m, k)
  {
  }

  /**
   * When every step of a non-empty lane lists the person, the bulk toggle
   * removes the person from each of them; otherwise it adds the person to
   * each of them. Entries of steps outside the lane are unchanged.
   */
  lemma LaneToggleEffect(m: Assignment, ids: seq<string>, p: string)
    ensures var r := LaneToggled(m, ids, p);
      forall i :: 0 <= i < |ids| ==>
        AssignedTo(r, ids[i]) == if AllAssigned(m, ids, p) then AssignedTo(m, ids[i]) - {p} else AssignedTo(m, ids[i]) + {p}
    ensures var r := LaneToggled(m, ids, p);
      forall k :: k !in ids ==> (k in r <==> k in m) && (k in m ==> r[k] == m[k])
    ensures var r := LaneToggled(m, ids, p);
      forall i :: 0 <= i < |ids| ==> ids[i] in r && Distinct(r[ids[i]])
  {
    forall i | 0 <= i < |ids| {
      LaneToggleInside(m, ids, p, i);
    }
    forall k | k !in ids {
      LaneToggleOutside(m, ids, p, k);
    }
  }

  /** The lane is either empty or uniformly assigned: all its steps list `p`, or none does. */
  predicate Uniform(m: Assignment, ids: seq<string>, p: string) {
    AllAssigned(m, ids, p) || forall i :: 0 <= i < |ids| ==> p !in Lookup(m, ids[i])
  }

  /** After a bulk toggle of a non-empty lane, the lane is uniform again, the other way round. */
  lemma LaneToggleFlips(m: Assignment, ids: seq<string>, p: string)
    requires |ids| > 0
    ensures AllAssigned(LaneToggled(m, ids, p), ids, p) == !AllAssigned(m, ids, p)
  {
    var once := LaneToggled(m, ids, p);
    if AllAssigned(m, ids, p) {
      LaneToggleInside(m, ids, p, 0);
      assert p !in AssignedTo(once, ids[0]);
    } else {
      forall i | 0 <= i < |ids| ensures p in Lookup(once, ids[i]) {
        LaneToggleInside(m, ids, p, i);
        assert p in AssignedTo(once, ids[i]);
      }
    }
  }

  /** Toggling twice gives each lane step its set of people with `p` added back, or with `p` taken out. */
  lemma LaneToggleTwiceInside(m: Assignment, ids: seq<string>, p: string, i: int)
    requires 0 <= i < |ids|
    ensures AssignedTo(LaneToggled(LaneToggled(m, ids, p), ids, p), ids[i]) ==
      if AllAssigned(m, ids, p) then AssignedTo(m, ids[i]) else AssignedTo(m, ids[i]) - {p}
  {
    var all := AllAssigned(m, ids, p);
    var once := LaneToggled(m, ids, p);
    LaneToggleFlips(m, ids, p);
    LaneToggledAt(m, ids, p, i);
    LaneToggledAt(once, ids, p, i);
    BulkThereAndBack(all, Lookup(m, ids[i]), p);
  }

  /** The bulk toggle's entry for a lane step. */
  lemma LaneToggledAt(m: Assignment, ids: seq<string>, p: string, i: int)
    requires 0 <= i < |ids|
    ensures ids[i] in LaneToggled(m, ids, p)
    ensures Lookup(LaneToggled(m, ids, p), ids[i]) == Bulk(AllAssigned(m, ids, p), Lookup(m, ids[i]), p)
  {
  }

  /** One bulk toggle and its opposite give back the set, except that `p` stays out if it was added. */
  lemma BulkThereAndBack(all: bool, list: seq<string>, p: string)
    requires all ==> p in list
    ensures Members(Bulk(!all, Bulk(all, list, p), p)) ==
      if all then Members(list) else Members(list) - {p}
  {
    var once := Bulk(all, list, p);
    AddedDeletedAreSetOperations(list, p);
    AddedDeletedAreSetOperations(once, p);
  }

  lemma UniformLaneRestored(m: Assignment, ids: seq<string>, p: string, k: string)
    requires Uniform(m, ids, p)
    ensures AssignedTo(LaneToggled(LaneToggled(m, ids, p), ids, p), k) == AssignedTo(m, k)
  {
    if k in ids {
      var i :| 0 <= i < |ids| && ids[i] == k;
      LaneToggleTwiceInside(m, ids, p, i);
      if !AllAssigned(m, ids, p) {
        assert p !in Lookup(m, ids[i]);
      }
    } else {
      var once := LaneToggled(m, ids, p);
      LaneToggleOutside(m, ids, p, k);
      LaneToggleOutside(once, ids, p, k);
    }
  }

  /** Toggling a lane twice restores every step's set of people exactly when the lane was uniform. */
  lemma LaneToggleTwice(m: Assignment, ids: seq<string>, p: string)
    ensures (forall k :: AssignedTo(LaneToggled(LaneToggled(m, ids, p), ids, p), k) == AssignedTo(m, k))
      <==> Uniform(m, ids, p)
  {
    if Uniform(m, ids, p) {
      forall k ensures AssignedTo(LaneToggled(LaneToggled(m, ids, p), ids, p), k) == AssignedTo(m, k) {
        UniformLaneRestored(m, ids, p, k);
      }
    } else {
      var i :| 0 <= i < |ids| && p in Lookup(m, ids[i]);
      LaneToggleTwiceInside(m, ids, p, i);
      assert p in AssignedTo(m, ids[i]);
    }
  }

  // ---------------------------------------------------------------------
  // People

  function PersonIds(people: seq<Person>): (ids: seq<string>)
    ensures |ids| == |people| && forall i :: 0 <= i < |people| ==> ids[i] == people[i].id
  {
    seq(|people|, i requires 0 <= i < |people| => people[i].id)
  }

  /** `people.filter(p => p.id !== personId)`. */
  function DropPerson(people: seq<Person>, personId: string): (r: seq<Person>)
    ensures forall x :: x in r <==> x in people && x.id != personId
    decreases |people|
  {
    if people == [] then []
    else
      var rest := DropPerson(people[1..], personId);
      assert forall x :: x in people <==> x == people[0] || x in people[1..];
      if people[0].id == personId then rest else [people[0]] + rest
  }

  /** Every step's list without `p`, keeping only the steps that still list someone. */
  function Unassigned(m: Assignment, p: string): (r: Assignment)
    ensures forall k :: k in r ==> k in m && p !in r[k] && r[k] != []
  {
    map k | k in m && Without(m[k], p) != [] :: Without(m[k], p)
  }

  /** `removePerson`: drop the person, and rebuild the assignment entry by entry. */
  method RemovePerson(people: seq<Person>, prev: Assignment, personId: string)
    returns (remaining: seq<Person>, next: Assignment)
    ensures remaining == DropPerson(people, personId)
    ensures next == Unassigned(prev, personId)
  {
    remaining := DropPerson(people, personId);
    next := map[];
    var todo := prev.Keys;
    while todo != {}
      invariant todo <= prev.Keys
      invariant forall k :: k in next <==> k in prev && k !in todo && Without(prev[k], personId) != []
      invariant forall k :: k in next ==> next[k] == Without(prev[k], personId)
      decreases todo
    {
      var sid :| sid in todo;
      var filtered := Without(prev[sid], personId);
      if |filtered| > 0 {
        next := next[sid := filtered];
      }
      todo := todo - {sid};
    }
    var spec := Unassigned(prev, personId);
    assert next.Keys == spec.Keys;
  }

  /**
   * After removing a person no step lists them, no step is left with an empty
   * list, and every step keeps everyone else.
   */
  lemma UnassignedCascades(m: Assignment, p: string)
    ensures forall k :: k in Unassigned(m, p) ==> p !in Unassigned(m, p)[k] && Unassigned(m, p)[k] != []
    ensures forall k :: AssignedTo(Unassigned(m, p), k) == AssignedTo(m, k) - {p}
    ensures Unassigned(m, p).Keys <= m.Keys
    ensures Unassigned(Unassigned(m, p), p) == Unassigned(m, p)
  {
    var r := Unassigned(m, p);
    forall k ensures AssignedTo(r, k) == AssignedTo(m, k) - {p} {
      if k in m && k !in r {
        assert forall x :: x !in Without(m[k], p);
      }
    }
  }

  /** `addPerson` as written: the new id is `p` followed by the list's length plus one. */
  function AddPersonAsWritten(people: seq<Person>, name: string): (r: seq<Person>)
    ensures |r| == |people| + 1 && r[..|people|] == people && r[|people|].name == name
  {
    people + [Person(Label('p', |people| + 1), name)]
  }

  /** `addPerson` as intended: the new id is numbered above every id in use. */
  function AddPerson(people: seq<Person>, name: string): (r: seq<Person>)
    ensures |r| == |people| + 1 && r[..|people|] == people && r[|people|].name == name
    ensures r[|people|].id !in PersonIds(people)
  {
    people + [Person(FreshLabel('p', PersonIds(people)), name)]
  }

  /** The intended `addPerson` appends one person whose id is not in use. */
  lemma AddPersonKeepsIdsDistinct(people: seq<Person>, name: string)
    requires Distinct(PersonIds(people))
    ensures Distinct(PersonIds(AddPerson(people, name)))
    ensures AddPerson(people, name)[|people|].id !in PersonIds(people)
  {
    var newId := FreshLabel('p', PersonIds(people));
    forall i | 0 <= i < |people| ensures people[i].id != newId {
      assert PersonIds(people)[i] == people[i].id;
    }
  }

  /**
   * As written, adding "Sam" after removing "p1" from the initial people gives
   * Sam Tiff's id "p2", so removing Sam removes Tiff too.
   */
  lemma AddPersonAsWrittenCollides()
    ensures var people := AddPersonAsWritten(DropPerson(InitialPeople(), "p1"), "Sam");
      people == [Person("p2", "Tiff"), Person("p2", "Sam")] && DropPerson(people, "p2") == []
    ensures var people := AddPerson(DropPerson(InitialPeople(), "p1"), "Sam");
      Distinct(PersonIds(people)) && Person("p2", "Tiff") in DropPerson(people, people[1].id)
  {
    var left := DropPerson(InitialPeople(), "p1");
    assert left == [Person("p2", "Tiff")];
    assert Label('p', 2) == "p2";
    var fixed := AddPerson(left, "Sam");
    AddPersonKeepsIdsDistinct(left, "Sam");
    assert fixed[1].id != "p2" by {
      assert PersonIds(left)[0] == "p2";
    }
  }
}
