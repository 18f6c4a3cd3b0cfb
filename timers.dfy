/**
 * The bank of kitchen timers: a sequence of records, each counting down from
 * its minutes and seconds fields or counting up from zero, driven by a global
 * one-second tick. Every operation builds a new sequence.
 */
module Timers {
  import opened Common
  import opened Text

  datatype Mode = Down | Up

  /**
   * One timer. `minText` and `secText` are the texts of its minutes and seconds
   * fields, which only ever hold decimal digits; `remaining` is in seconds.
   */
  datatype Timer = Timer(
    id: string, name: string, minText: string, secText: string,
    remaining: nat, running: bool, cleared: bool, mode: Mode)

  /** A field edit or button press aimed at the timers carrying one id. */
  datatype TimerOp =
    | Start
    | Stop
    | Clear
    | Rename(newName: string)
    | SetMode(newMode: Mode)
    | SetMinutes(minutes: string)
    | SetSeconds(seconds: string)

  /** A new timer: a cleared countdown with fields "0" and "00". */
  function NewTimer(id: string): Timer {
    Timer(id, "", "0", "00", 0, false, true, Down)
  }

  function InitialBank(): seq<Timer> {
    [NewTimer("t1"), NewTimer("t2"), NewTimer("t3")]
  }

  function Ids(ts: seq<Timer>): (ids: seq<string>)
    ensures |ids| == |ts| && forall i :: 0 <= i < |ts| ==> ids[i] == ts[i].id
  {
    seq(|ts|, i requires 0 <= i < |ts| => ts[i].id)
  }

  /**
   * The state the bank keeps: a cleared timer is stopped at zero, and the
   * fields hold digits only.
   */
  predicate Consistent(t: Timer) {
    && (t.cleared ==> !t.running && t.remaining == 0)
    && AllDigits(t.minText) && AllDigits(t.secText)
  }

  predicate BankConsistent(ts: seq<Timer>) {
    forall i :: 0 <= i < |ts| ==> Consistent(ts[i])
  }

  /** The countdown length the fields describe: minutes, plus seconds capped at 59. */
  function FieldSeconds(t: Timer): nat
    requires AllDigits(t.minText) && AllDigits(t.secText)
  {
    ParseDec(t.minText) * 60 + Min(59, ParseDec(t.secText))
  }

  /** One second of the global tick for one timer. */
  function TickOne(t: Timer): (r: Timer)
    ensures r.id == t.id && r.name == t.name && r.mode == t.mode
    ensures r.minText == t.minText && r.secText == t.secText
    ensures Consistent(t) ==> Consistent(r)
  {
    if !t.running then t
    else if t.mode == Up then t.(remaining := t.remaining + 1, running := true, cleared := false)
    else
      var next := if t.remaining >= 1 then t.remaining - 1 else 0;
      t.(remaining := next, running := next > 0, cleared := if next == 0 then false else t.cleared)
  }

  /** The global tick: every timer advances by one second. */
  function Tick(ts: seq<Timer>): (r: seq<Timer>)
    ensures Ids(r) == Ids(ts)
    ensures BankConsistent(ts) ==> BankConsistent(r)
  {
    seq(|ts|, i requires 0 <= i < |ts| => TickOne(ts[i]))
  }

  /** `startTimer` on one timer: a timer at zero reloads from its fields (a count-up starts from 0). */
  function StartOne(t: Timer): (r: Timer)
    requires AllDigits(t.minText) && AllDigits(t.secText)
    ensures r.running && !r.cleared
    ensures t.remaining > 0 ==> r.remaining == t.remaining
    ensures r.id == t.id && r.name == t.name && r.mode == t.mode
    ensures r.minText == t.minText && r.secText == t.secText
  {
    var remaining := if t.remaining == 0 then (if t.mode == Up then 0 else FieldSeconds(t)) else t.remaining;
    t.(remaining := remaining, running := true, cleared := false)
  }

  function ApplyOne(t: Timer, op: TimerOp): (r: Timer)
    requires op.Start? ==> AllDigits(t.minText) && AllDigits(t.secText)
    ensures r.id == t.id
    ensures Consistent(t) && Admissible(op) ==> Consistent(r)
    ensures op.Stop? ==> r == t.(running := false)
    ensures op.Clear? ==> r == t.(running := false, remaining := 0, cleared := true)
    ensures op.Rename? ==> r == t.(name := op.newName)
    ensures op.SetMode? ==> r == t.(mode := op.newMode)
    ensures op.SetMinutes? ==> r == t.(minText := op.minutes)
    ensures op.SetSeconds? ==> r == t.(secText := op.seconds)
  {
    match op
    case Start => StartOne(t)
    case Stop => t.(running := false)
    case Clear => t.(running := false, remaining := 0, cleared := true)
    case Rename(n) => t.(name := n)
    case SetMode(m) => t.(mode := m)
    case SetMinutes(s) => t.(minText := s)
    case SetSeconds(s) => t.(secText := s)
  }

  /** What the field editors accept: only digits go into the minutes and seconds fields. */
  predicate Admissible(op: TimerOp) {
    match op
    case SetMinutes(s) => AllDigits(s)
    case SetSeconds(s) => AllDigits(s)
    case _ => true
  }

  /** `setTimerField`, `startTimer`, `stopTimer`, `clearTimer`: `op` on every timer whose id is `id`. */
  function Update(ts: seq<Timer>, id: string, op: TimerOp): (r: seq<Timer>)
    requires op.Start? ==> forall i :: 0 <= i < |ts| ==> AllDigits(ts[i].minText) && AllDigits(ts[i].secText)
    ensures Ids(r) == Ids(ts)
  {
    seq(|ts|, i requires 0 <= i < |ts| => if ts[i].id == id then ApplyOne(ts[i], op) else ts[i])
  }

  /** `removeTimer`: drops every timer whose id is `id`. */
  function Remove(ts: seq<Timer>, id: string): (r: seq<Timer>)
    ensures |r| <= |ts|
    ensures forall i :: 0 <= i < |r| ==> r[i].id != id
  {
    if ts == [] then []
    else if ts[0].id == id then Remove(ts[1..], id)
    else [ts[0]] + Remove(ts[1..], id)
  }

  /** `resetTimers`: every timer stopped, at zero and cleared. */
  function ResetAll(ts: seq<Timer>): (r: seq<Timer>)
    ensures Ids(r) == Ids(ts)
    ensures forall i :: 0 <= i < |ts| ==> r[i] == ts[i].(running := false, remaining := 0, cleared := true)
    ensures forall i :: 0 <= i < |ts| ==> (Consistent(ts[i]) ==> Consistent(r[i]))
  {
    seq(|ts|, i requires 0 <= i < |ts| => ts[i].(running := false, remaining := 0, cleared := true))
  }

  /** `addTimer` as written: the new id is `t` followed by the bank's length plus one. */
  function AddTimerAsWritten(ts: seq<Timer>): (r: seq<Timer>)
    ensures |r| == |ts| + 1 && r[..|ts|] == ts
    ensures r[|ts|].cleared && Consistent(r[|ts|])
  {
    ts + [NewTimer(Label('t', |ts| + 1))]
  }

  /** `addTimer` as intended: the new id is numbered above every id in use. */
  function AddTimer(ts: seq<Timer>): (r: seq<Timer>)
    ensures |r| == |ts| + 1 && r[..|ts|] == ts
    ensures r[|ts|].id !in Ids(ts) && r[|ts|].cleared && Consistent(r[|ts|])
  {
    ts + [NewTimer(FreshLabel('t', Ids(ts)))]
  }

  // ---------------------------------------------------------------------
  // One tick

  /**
   * The tick leaves stopped timers alone; a count-up gains a second and keeps
   * running; a countdown loses a second without going below zero, and on
   * reaching zero stops in the expired state (not cleared), otherwise keeps
   * running and its cleared flag.
   */
  lemma TickOneCases(t: Timer)
    ensures !t.running ==> TickOne(t) == t
    ensures t.running && t.mode == Up ==>
      TickOne(t).remaining == t.remaining + 1 && TickOne(t).running && !TickOne(t).cleared
    ensures t.running && t.mode == Down ==> TickOne(t).remaining == if t.remaining >= 1 then t.remaining - 1 else 0
    ensures t.running && t.mode == Down && TickOne(t).remaining == 0 ==> !TickOne(t).running && !TickOne(t).cleared
    ensures t.running && t.mode == Down && TickOne(t).remaining > 0 ==>
      TickOne(t).running && TickOne(t).cleared == t.cleared
    ensures TickOne(t).id == t.id && TickOne(t).name == t.name && TickOne(t).mode == t.mode
    ensures TickOne(t).minText == t.minText && TickOne(t).secText == t.secText
  {
  }

  /** `k` ticks of one timer. */
  function Ticks(t: Timer, k: nat): Timer
    decreases k
  {
    if k == 0 then t else Ticks(TickOne(t), k - 1)
  }

  /**
   * A running countdown with `n` seconds left counts down one second per tick,
   * runs for `n` ticks, and is then expired: stopped at zero and not cleared.
   */
  lemma {:induction false} CountdownExpires(t: Timer, k: nat)
    requires t.running && t.mode == Down && t.remaining > 0
    ensures k <= t.remaining ==> Ticks(t, k).remaining == t.remaining - k
    ensures k < t.remaining ==> Ticks(t, k).running
    ensures k >= t.remaining ==> Ticks(t, k).remaining == 0 && !Ticks(t, k).running && !Ticks(t, k).cleared
    decreases k
  {
    if k > 0 {
      var u := TickOne(t);
      if u.remaining > 0 {
        CountdownExpires(u, k - 1);
      } else {
        StoppedStays(u, k - 1);
      }
    }
  }

  /** A stopped timer is left alone by every tick. */
  lemma {:induction false} StoppedStays(t: Timer, k: nat)
    requires !t.running
    ensures Ticks(t, k) == t
    decreases k
  {
    if k > 0 {
      StoppedStays(TickOne(t), k - 1);
    }
  }

  /** A running count-up gains one second per tick and never stops by itself. */
  lemma {:induction false} CountUpGrows(t: Timer, k: nat)
    requires t.running && t.mode == Up
    ensures Ticks(t, k).remaining == t.remaining + k && Ticks(t, k).running
    ensures k > 0 ==> !Ticks(t, k).cleared
    decreases k
  {
    if k > 0 {
      CountUpGrows(TickOne(t), k - 1);
    }
  }

  /** The bank tick keeps every timer in place and under its id. */
  lemma TickKeepsIds(ts: seq<Timer>)
    ensures Ids(Tick(ts)) == Ids(ts)
    ensures forall i :: 0 <= i < |ts| ==> Tick(ts)[i] == TickOne(ts[i])
  {
  }

  // ---------------------------------------------------------------------
  // Start, stop, clear

  /**
   * Starting always leaves the timer running and not cleared; a timer at zero
   * reloads from its fields (count-ups from 0), any other resumes where it was.
   */
  lemma StartCases(t: Timer)
    requires AllDigits(t.minText) && AllDigits(t.secText)
    ensures StartOne(t).running && !StartOne(t).cleared
    ensures t.remaining > 0 ==> StartOne(t).remaining == t.remaining
    ensures t.remaining == 0 && t.mode == Down ==>
      StartOne(t).remaining == ParseDec(t.minText) * 60 + Min(59, ParseDec(t.secText))
    ensures t.remaining == 0 && t.mode == Up ==> StartOne(t).remaining == 0
    ensures StartOne(t).(remaining := t.remaining, running := t.running, cleared := t.cleared) == t
  {
  }

  /** Stopping and starting again resumes exactly where the timer was. */
  lemma StopThenStartResumes(t: Timer)
    requires AllDigits(t.minText) && AllDigits(t.secText)
    ensures StartOne(ApplyOne(t, Stop)) == StartOne(t)
  {
  }

  /** After a clear, starting a countdown reloads the full length from its fields. */
  lemma ClearThenStartReloads(t: Timer)
    requires AllDigits(t.minText) && AllDigits(t.secText) && t.mode == Down
    ensures StartOne(ApplyOne(t, Clear)).remaining == FieldSeconds(t)
    ensures FieldSeconds(t) <= ParseDec(t.minText) * 60 + 59
  {
  }

  /**
   * A countdown whose fields read 0:00 starts running at zero and expires on
   * the next tick: a running countdown can have no time left.
   */
  lemma ZeroCountdownExpiresAtOnce()
    ensures var t := StartOne(NewTimer("t1"));
      t.running && t.mode == Down && t.remaining == 0
      && !TickOne(t).running && !TickOne(t).cleared && TickOne(t).remaining == 0
  {
    var z := NewTimer("t1");
    assert ParseDec(z.minText) == 0 by {
      assert z.minText[..0] == [];
    }
    assert ParseDec(z.secText) == 0 by {
      assert z.secText[..1] == "0";
      assert z.secText[..1][..0] == [];
    }
  }

  /**
   * Every per-id operation touches exactly the timers carrying that id: the
   * others are unchanged, and the bank keeps its length and order of ids.
   */
  lemma UpdateIsLocal(ts: seq<Timer>, id: string, op: TimerOp)
    requires op.Start? ==> forall i :: 0 <= i < |ts| ==> AllDigits(ts[i].minText) && AllDigits(ts[i].secText)
    ensures |Update(ts, id, op)| == |ts|
    ensures forall i :: 0 <= i < |ts| && ts[i].id != id ==> Update(ts, id, op)[i] == ts[i]
    ensures forall i :: 0 <= i < |ts| && ts[i].id == id ==> Update(ts, id, op)[i] == ApplyOne(ts[i], op)
    ensures Ids(Update(ts, id, op)) == Ids(ts)
  {
  }

  /** Clearing and resetting all leave timers stopped, at zero and cleared; resetting all twice is resetting once. */
  lemma ClearAndResetSettle(ts: seq<Timer>, id: string)
    ensures forall i :: 0 <= i < |ts| && ts[i].id == id ==>
      var c := Update(ts, id, Clear)[i]; !c.running && c.remaining == 0 && c.cleared
    ensures forall i :: 0 <= i < |ts| ==>
      var c := ResetAll(ts)[i]; !c.running && c.remaining == 0 && c.cleared
    ensures Ids(ResetAll(ts)) == Ids(ts)
    ensures ResetAll(ResetAll(ts)) == ResetAll(ts)
  {
  }

  // ---------------------------------------------------------------------
  // Remove and add

  /** Removing keeps exactly the timers with another id. */
  lemma {:induction false} RemoveKeepsOthers(ts: seq<Timer>, id: string)
    ensures forall t :: t in Remove(ts, id) <==> t in ts && t.id != id
    ensures |Remove(ts, id)| <= |ts|
    ensures (forall i :: 0 <= i < |ts| ==> ts[i].id != id) ==> Remove(ts, id) == ts
    decreases |ts|
  {
    if ts != [] {
      RemoveKeepsOthers(ts[1..], id);
      assert forall t :: t in ts <==> t == ts[0] || t in ts[1..];
    }
  }

  /** Removing from a split bank removes from each part: the timers kept stay in their order. */
  lemma {:induction false} RemoveKeepsOrder(a: seq<Timer>, b: seq<Timer>, id: string)
    ensures Remove(a + b, id) == Remove(a, id) + Remove(b, id)
    decreases |a|
  {
    if a == [] {
      assert a + b == b;
    } else {
      assert (a + b)[0] == a[0] && (a + b)[1..] == a[1..] + b;
      RemoveKeepsOrder(a[1..], b, id);
    }
  }

  /** Removing keeps the ids of the bank distinct. */
  lemma {:induction false} RemoveKeepsIdsDistinct(ts: seq<Timer>, id: string)
    requires Distinct(Ids(ts))
    ensures Distinct(Ids(Remove(ts, id)))
    decreases |ts|
  {
    if ts != [] {
      var tail := ts[1..];
      IdsCons(ts[0], tail);
      assert ts == [ts[0]] + tail;
      DistinctTail(Ids(ts));
      RemoveKeepsIdsDistinct(tail, id);
      RemoveKeepsOthers(tail, id);
      var rest := Remove(tail, id);
      if ts[0].id != id {
        IdsOfFewer(rest, tail, ts[0].id);
        IdsCons(ts[0], rest);
        DistinctCons(ts[0].id, Ids(rest));
      }
    }
  }

  lemma IdsCons(t: Timer, ts: seq<Timer>)
    ensures Ids([t] + ts) == [t.id] + Ids(ts)
  {
  }

  /** An id absent from a bank is absent from any bank of timers taken from it. */
  lemma IdsOfFewer(fewer: seq<Timer>, ts: seq<Timer>, x: string)
    requires forall t :: t in fewer ==> t in ts
    requires x !in Ids(ts)
    ensures x !in Ids(fewer)
  {
    forall j | 0 <= j < |fewer| ensures Ids(fewer)[j] != x {
      assert fewer[j] in ts;
      var k :| 0 <= k < |ts| && ts[k] == fewer[j];
      assert Ids(ts)[k] == fewer[j].id;
    }
  }

  lemma RemoveKeepsConsistent(ts: seq<Timer>, id: string)
    requires BankConsistent(ts)
    ensures BankConsistent(Remove(ts, id))
  {
    RemoveKeepsOthers(ts, id);
    var r := Remove(ts, id);
    forall i | 0 <= i < |r| ensures Consistent(r[i]) {
      assert r[i] in ts;
    }
  }

  lemma UpdateKeepsConsistent(ts: seq<Timer>, id: string, op: TimerOp)
    requires BankConsistent(ts) && Admissible(op)
    ensures BankConsistent(Update(ts, id, op))
  {
    var r := Update(ts, id, op);
    forall i | 0 <= i < |ts| ensures Consistent(r[i]) {
      assert Consistent(ts[i]);
    }
  }

  /** Every operation keeps the bank consistent. */
  lemma OperationsKeepConsistent(ts: seq<Timer>, id: string, op: TimerOp)
    requires BankConsistent(ts) && Admissible(op)
    ensures BankConsistent(Tick(ts))
    ensures BankConsistent(Update(ts, id, op))
    ensures BankConsistent(ResetAll(ts))
    ensures BankConsistent(Remove(ts, id))
    ensures BankConsistent(AddTimer(ts)) && BankConsistent(AddTimerAsWritten(ts))
  {
    RemoveKeepsConsistent(ts, id);
    UpdateKeepsConsistent(ts, id, op);
    assert AllDigits("0") && AllDigits("00");
  }

  lemma InitialBankConsistent()
    ensures BankConsistent(InitialBank()) && Distinct(Ids(InitialBank()))
  {
    assert AllDigits("0") && AllDigits("00");
  }

  /** The intended `addTimer` appends one new cleared timer whose id is not in use. */
  lemma AddTimerKeepsIdsDistinct(ts: seq<Timer>)
    requires Distinct(Ids(ts))
    ensures Distinct(Ids(AddTimer(ts)))
    ensures |AddTimer(ts)| == |ts| + 1 && AddTimer(ts)[..|ts|] == ts
    ensures AddTimer(ts)[|ts|].id !in Ids(ts) && AddTimer(ts)[|ts|].cleared
  {
    var newId := FreshLabel('t', Ids(ts));
    assert newId !in Ids(ts);
    forall i | 0 <= i < |ts| ensures ts[i].id != newId {
      assert Ids(ts)[i] == ts[i].id;
    }
  }

  /** The bank after removing "t1" from the initial bank. */
  function WithoutFirst(): seq<Timer> {
    Remove(InitialBank(), "t1")
  }

  /**
   * As written, adding a timer after removing "t1" from the initial bank
   * creates a second "t3", and starting "t3" then starts both.
   */
  lemma AddTimerAsWrittenCollides()
    ensures var ts := AddTimerAsWritten(WithoutFirst());
      |ts| == 3 && ts[1].id == "t3" && ts[2].id == "t3" && !Distinct(Ids(ts))
      && Update(ts, "t3", Start)[1].running && Update(ts, "t3", Start)[2].running
    ensures Distinct(Ids(AddTimer(WithoutFirst())))
  {
    assert WithoutFirst() == [NewTimer("t2"), NewTimer("t3")];
    assert Label('t', 3) == "t3";
    assert AllDigits("0") && AllDigits("00");
    InitialBankConsistent();
    RemoveKeepsIdsDistinct(InitialBank(), "t1");
    AddTimerKeepsIdsDistinct(WithoutFirst());
  }
}
