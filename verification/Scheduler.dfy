/** The round-robin thread scheduler (src/kernel/sched/kthread.cc).  Threads are identified by
    handles that stand for their KernelThread objects; the ring of runnable threads is the
    sequence of their handles.  Each public operation is one atomic step. */
module Scheduler {
  import opened Options
  import opened Sequences

  datatype Thread = Thread(tid: nat, runnable: bool)

  const TID_COUNT: nat := 0x1_0000
  const INVALID_TID: nat := 0xFFFF

  datatype State = State(
    threads: map<int, Thread>,
    running: Option<int>,
    runnable: seq<int>,
    pending: Option<int>,
    tidMap: map<nat, Option<int>>,   // the dummy entry holds no thread
    tidCounter: nat)

  // ----- Thread IDs -----

  ghost predicate TidsInRange(m: map<nat, Option<int>>) {
    forall t :: t in m ==> t < TID_COUNT
  }

  /** The k-th ID tried, counting from c with 16-bit wrap-around. */
  function Candidate(c: nat, k: nat): nat { (c + k) % TID_COUNT }

  lemma CandidateStep(c: nat, k: nat)
    ensures Candidate(c, k + 1) == (Candidate(c, k) + 1) % TID_COUNT
  {
  }

  ghost predicate IsNextFree(m: map<nat, Option<int>>, c: nat, k: nat) {
    && k < TID_COUNT && Candidate(c, k) !in m
    && forall j :: 0 <= j < k ==> Candidate(c, j) in m
  }

  lemma {:induction false} AllBelowTaken(keys: set<nat>, n: nat)
    requires forall t: nat :: t < n ==> t in keys
    ensures |keys| >= n
  {
    if n == 0 {
    } else {
      AllBelowTaken(keys - {n - 1}, n - 1);
    }
  }

  /** A table with a free ID has one among any 2^16 consecutive candidates. */
  lemma FreeCandidateExists(m: map<nat, Option<int>>, c: nat) returns (k: nat)
    requires TidsInRange(m) && |m| < TID_COUNT && c < TID_COUNT
    ensures k < TID_COUNT && Candidate(c, k) !in m
  {
    if forall t: nat :: t < TID_COUNT ==> t in m.Keys {
      AllBelowTaken(m.Keys, TID_COUNT);
    }
    var t: nat :| t < TID_COUNT && t !in m.Keys;
    k := if t >= c then t - c else t + TID_COUNT - c;
  }

  /** `assign_next_tid`: the search terminates whenever its size assertion holds, and takes the
      first free ID at or after the counter, cyclically. */
  method FindNextTid(tidMap: map<nat, Option<int>>, tidCounter: nat) returns (tid: nat, counter: nat, ghost k: nat)
    requires TidsInRange(tidMap) && |tidMap| < INVALID_TID && tidCounter < TID_COUNT
    ensures IsNextFree(tidMap, tidCounter, k) && tid == Candidate(tidCounter, k)
    ensures counter == (tid + 1) % TID_COUNT
  {
    ghost var bound := FreeCandidateExists(tidMap, tidCounter);
    k := 0;
    tid := tidCounter;
    counter := (tidCounter + 1) % TID_COUNT;
    while tid in tidMap
      invariant k <= bound && tid == Candidate(tidCounter, k) && counter == (tid + 1) % TID_COUNT
      invariant forall j :: 0 <= j < k ==> Candidate(tidCounter, j) in tidMap
      decreases bound - k
    {
      CandidateStep(tidCounter, k);
      tid := counter;
      counter := (counter + 1) % TID_COUNT;
      k := k + 1;
    }
  }

  // ----- Steps -----

  /** `delete_task`. */
  ghost function Delete(s: State, o: int): State
    requires o in s.threads
  {
    s.(runnable := Without(s.runnable, o), tidMap := s.tidMap - {s.threads[o].tid}, threads := s.threads - {o})
  }

  /** `schedule`, with the bookkeeping that follows the stack switch.  Without another runnable
      thread it changes nothing, or, if the running thread is to be deleted, fails its ASSERT;
      the step is then not taken. */
  ghost function Schedule(s: State): State
    requires s.running.Some?
  {
    if s.runnable == [] then s
    else
      var t := s.(running := Some(s.runnable[0]), runnable := s.runnable[1..] + [s.running.value]);
      if t.pending.Some? && t.pending.value in t.threads then Delete(t, t.pending.value).(pending := None) else t
  }

  /** `destroy_thread`: another thread goes at once, the running one once it has been switched
      away from. */
  ghost function Destroy(s: State, o: int): State
    requires s.running.Some? && o in s.threads
  {
    if Some(o) != s.running then Delete(s, o)
    else if s.runnable == [] then s
    else Schedule(s.(threads := s.threads[o := s.threads[o].(runnable := false)], pending := Some(o)))
  }

  /** `new_thread`, given the number k of IDs that were tried and found taken. */
  ghost function Spawn(s: State, o: int, k: nat): State {
    var tid := Candidate(s.tidCounter, k);
    s.(threads := s.threads[o := Thread(tid, true)],
       tidMap := s.tidMap[tid := Some(o)],
       tidCounter := (tid + 1) % TID_COUNT,
       runnable := s.runnable + [o])
  }

  // ----- What every step keeps -----

  /** Live threads are the running one and those on the ring, without repeats. */
  ghost predicate Scheduled(s: State) {
    && s.running.Some? && s.pending.None?
    && Distinct(s.runnable) && s.running.value !in s.runnable
    && (forall o :: o in s.threads <==> o == s.running.value || o in s.runnable)
    && (forall o :: o in s.threads ==> s.threads[o].runnable)
  }

  /** The ID table holds the dummy entry and every live thread under its own ID. */
  ghost predicate Numbered(s: State) {
    && s.tidCounter < TID_COUNT && TidsInRange(s.tidMap)
    && INVALID_TID in s.tidMap && s.tidMap[INVALID_TID] == None
    && (forall o :: o in s.threads ==> s.threads[o].tid in s.tidMap && s.tidMap[s.threads[o].tid] == Some(o))
    && (forall t :: t in s.tidMap && t != INVALID_TID ==>
          s.tidMap[t].Some? && s.tidMap[t].value in s.threads && s.threads[s.tidMap[t].value].tid == t)
  }

  ghost predicate Inv(s: State) {
    Scheduled(s) && Numbered(s)
  }

  /** No two live threads share an ID, and none has the invalid one. */
  lemma DistinctTids(s: State, o: int, p: int)
    requires Numbered(s) && o in s.threads && p in s.threads && s.threads[o].tid == s.threads[p].tid
    ensures o == p && s.threads[o].tid != INVALID_TID
  {
  }

  lemma SpawnInv(s: State, o: int, k: nat)
    requires Inv(s) && o !in s.threads && IsNextFree(s.tidMap, s.tidCounter, k)
    ensures Inv(Spawn(s, o, k))
  {
    SpawnScheduled(s, o, k);
    SpawnNumbered(s, o, k);
  }

  lemma SpawnScheduled(s: State, o: int, k: nat)
    requires Scheduled(s) && o !in s.threads
    ensures Scheduled(Spawn(s, o, k))
  {
    var t := Spawn(s, o, k);
    assert forall x :: x in t.runnable <==> x in s.runnable || x == o;
  }

  lemma SpawnNumbered(s: State, o: int, k: nat)
    requires Numbered(s) && o !in s.threads && IsNextFree(s.tidMap, s.tidCounter, k)
    ensures Numbered(Spawn(s, o, k))
  {
  }

  lemma DeleteNumbered(s: State, o: int)
    requires Numbered(s) && o in s.threads
    ensures Numbered(Delete(s, o))
  {
    DistinctTids(s, o, o);
  }

  lemma DeleteScheduled(s: State, o: int)
    requires Scheduled(s) && o in s.runnable
    ensures Scheduled(Delete(s, o))
  {
    var i :| 0 <= i < |s.runnable| && s.runnable[i] == o;
    WithoutAt(s.runnable, i);
  }

  /** The switch itself, and the deletion of the thread switched away from. */
  lemma ScheduleScheduled(s: State)
    requires Scheduled(s)
    ensures Scheduled(Schedule(s))
  {
    if s.runnable != [] {
      var t := Schedule(s);
      assert forall x :: x in t.runnable <==> x in s.runnable[1..] || x == s.running.value;
      assert forall x :: x in s.runnable <==> x in s.runnable[1..] || x == s.runnable[0];
    }
  }

  lemma ScheduleInv(s: State)
    requires Inv(s)
    ensures Inv(Schedule(s))
  {
    ScheduleScheduled(s);
  }

  /** Destroying the running thread is switching to the next one and then deleting it. */
  lemma DestroyRunning(s: State)
    requires Scheduled(s) && s.runnable != []
    ensures var o := s.running.value;
            var t := Destroy(s, o);
            && t == Delete(Schedule(s), o)
            && t.runnable == s.runnable[1..] && t.running == Some(s.runnable[0])
  {
    var o := s.running.value;
    var r := s.runnable[1..] + [o];
    ScheduleScheduled(s);
    WithoutAt(r, |r| - 1);
    var marked := s.(threads := s.threads[o := s.threads[o].(runnable := false)], pending := Some(o));
    assert marked.threads - {o} == s.threads - {o};
  }

  lemma DestroyInv(s: State, o: int)
    requires Inv(s) && o in s.threads
    ensures Inv(Destroy(s, o))
  {
    if Some(o) != s.running {
      DeleteNumbered(s, o);
      DeleteScheduled(s, o);
    } else if s.runnable != [] {
      DestroyRunning(s);
      ScheduleInv(s);
      DeleteNumbered(Schedule(s), o);
      DeleteScheduled(Schedule(s), o);
    }
  }

  // ----- What the steps do -----

  /** The order in which threads run: the running one, and then those on the ring. */
  ghost function Order(s: State): seq<int>
    requires s.running.Some?
  {
    [s.running.value] + s.runnable
  }

  ghost function Cut(r: seq<int>, k: nat): seq<int>
    requires k < |r|
  {
    r[..k] + r[k + 1..]
  }

  /** Every thread but o, and every ID but `tid`, is as it was. */
  ghost predicate OthersSame(s: State, o: int, tid: nat, t: State) {
    && (forall x :: x != o ==> (x in s.threads <==> x in t.threads))
    && (forall x :: x != o && x in s.threads && x in t.threads ==> t.threads[x] == s.threads[x])
    && (forall i :: i != tid ==> (i in s.tidMap <==> i in t.tidMap))
    && (forall i :: i != tid && i in s.tidMap && i in t.tidMap ==> t.tidMap[i] == s.tidMap[i])
  }

  /** Thread o is there no more, its ID is free, the others keep their places, and nothing else changes. */
  ghost predicate Gone(s: State, o: int, t: State) {
    && s.running.Some? && t.running.Some? && t.pending.None? && o in s.threads
    && o !in t.threads && o !in Order(t) && s.threads[o].tid !in t.tidMap
    && OthersSame(s, o, s.threads[o].tid, t) && t.tidCounter == s.tidCounter
    && exists k :: 0 <= k < |Order(s)| && Order(s)[k] == o && Order(t) == Cut(Order(s), k)
  }

  /** Thread o is new and last in the order, under an ID that was free, and nothing else changes. */
  ghost predicate Joined(s: State, o: int, t: State) {
    && s.running.Some? && t.running.Some? && t.pending == s.pending
    && o !in s.threads && o in t.threads && t.threads[o].runnable && Order(t) == Order(s) + [o]
    && var tid := t.threads[o].tid;
       && tid !in s.tidMap && tid in t.tidMap && t.tidMap[tid] == Some(o) && OthersSame(s, o, tid, t)
       && t.tidCounter == (tid + 1) % TID_COUNT
  }

  /** The order has moved on by one thread, and nothing else changes. */
  ghost predicate MovedOn(s: State, t: State) {
    && s.running.Some? && t.running.Some?
    && Order(t) == Order(s)[1..] + [Order(s)[0]] && t == s.(running := t.running, runnable := t.runnable)
  }

  lemma SpawnJoins(s: State, o: int, k: nat)
    requires Inv(s) && o !in s.threads && IsNextFree(s.tidMap, s.tidCounter, k)
    ensures Joined(s, o, Spawn(s, o, k))
  {
    Assoc([s.running.value], s.runnable, [o]);
  }

  /** With nobody waiting a switch changes nothing. */
  lemma ScheduleMovesOn(s: State)
    requires Inv(s)
    ensures MovedOn(s, Schedule(s))
  {
    var t := Schedule(s);
    if s.runnable == [] {
      assert Order(s)[1..] + [Order(s)[0]] == Order(s);
    } else {
      assert s.runnable == [s.runnable[0]] + s.runnable[1..];
      assert Order(s)[1..] == s.runnable;
    }
  }

  lemma CutBehind(x: int, r: seq<int>, i: nat)
    requires i < |r|
    ensures Cut([x] + r, i + 1) == [x] + (r[..i] + r[i + 1..])
  {
  }

  lemma DeleteOthersSame(s: State, o: int)
    requires Numbered(s) && o in s.threads
    ensures OthersSame(s, o, s.threads[o].tid, Delete(s, o))
  {
  }

  lemma DeleteMakesGone(s: State, o: int, i: nat)
    requires Inv(s) && i < |s.runnable| && s.runnable[i] == o
    ensures Gone(s, o, Delete(s, o))
  {
    DeleteOthersSame(s, o);
    WithoutAt(s.runnable, i);
    CutBehind(s.running.value, s.runnable, i);
    assert Order(s)[i + 1] == o;
  }

  lemma DestroyRunningMakesGone(s: State)
    requires Inv(s) && s.runnable != []
    ensures Gone(s, s.running.value, Destroy(s, s.running.value))
  {
    var o, u := s.running.value, Schedule(s);
    DestroyRunning(s);
    ScheduleMovesOn(s);
    assert u.threads == s.threads && u.tidMap == s.tidMap && u.tidCounter == s.tidCounter;
    DeleteOthersSame(u, o);
    CutFirst(o, s.runnable);
    assert Order(s)[0] == o;
  }

  lemma CutFirst(x: int, r: seq<int>)
    requires r != []
    ensures Cut([x] + r, 0) == [r[0]] + r[1..]
  {
  }

  /** Whichever live thread is destroyed, unless it is the last one: it goes, and no other. */
  lemma DestroyMakesGone(s: State, o: int)
    requires Inv(s) && o in s.threads && s.runnable != []
    ensures Gone(s, o, Destroy(s, o))
  {
    if Some(o) != s.running {
      var i :| 0 <= i < |s.runnable| && s.runnable[i] == o;
      DeleteMakesGone(s, o, i);
    } else {
      DestroyRunningMakesGone(s);
    }
  }

  // ----- Runs -----

  datatype Op = OpNew(handle: int) | OpSchedule | OpDestroy(handle: int)

  /** The operation takes the scheduler from s to t.  A new thread needs a new object and an ID
      table that passes the size assertion; only live threads can be destroyed. */
  ghost predicate Next(s: State, op: Op, t: State) {
    s.running.Some? &&
    match op
    case OpNew(o) => o !in s.threads && |s.tidMap| < INVALID_TID && exists k :: IsNextFree(s.tidMap, s.tidCounter, k) && t == Spawn(s, o, k)
    case OpSchedule => t == Schedule(s)
    case OpDestroy(o) => o in s.threads && t == Destroy(s, o)
  }

  ghost predicate Behavior(ss: seq<State>, ops: seq<Op>) {
    |ss| == |ops| + 1 && forall i :: 0 <= i < |ops| ==> Next(ss[i], ops[i], ss[i + 1])
  }

  lemma StepInv(s: State, op: Op, t: State)
    requires Inv(s) && Next(s, op, t)
    ensures Inv(t)
  {
    match op
    case OpNew(o) =>
      var k :| IsNextFree(s.tidMap, s.tidCounter, k) && t == Spawn(s, o, k);
      SpawnInv(s, o, k);
    case OpSchedule => ScheduleInv(s);
    case OpDestroy(o) => DestroyInv(s, o);
  }

  lemma {:induction false} BehaviorInv(ss: seq<State>, ops: seq<Op>, i: nat)
    requires Behavior(ss, ops) && Inv(ss[0]) && i < |ss|
    ensures Inv(ss[i])
  {
    if i == 0 {
    } else {
      BehaviorInv(ss, ops, i - 1);
      StepInv(ss[i - 1], ops[i - 1], ss[i]);
    }
  }

  /** The operation switches to another thread: a call of `schedule`, or the end of the running
      thread. */
  ghost predicate IsSwitch(s: State, op: Op) {
    op.OpSchedule? || (op.OpDestroy? && s.running == Some(op.handle))
  }

  ghost function Switches(ss: seq<State>, ops: seq<Op>): nat
    requires |ss| == |ops| + 1
  {
    if ops == [] then 0
    else (if IsSwitch(ss[0], ops[0]) then 1 else 0) + Switches(ss[1..], ops[1..])
  }

  lemma PlaceAfterRemoval(r: seq<int>, x: int, k: nat) returns (k': nat)
    requires Distinct(r) && k < |r| && r[k] != x && x in r
    ensures k' <= k && k' < |Without(r, x)| && Without(r, x)[k'] == r[k]
  {
    var i :| 0 <= i < |r| && r[i] == x;
    WithoutAt(r, i);
    k' := if k < i then k else k - 1;
    assert (r[..i] + r[i + 1..])[k'] == r[k];
  }

  /** A thread on the ring moves one place forward at every switch and never back. */
  lemma PositionStep(s: State, op: Op, t: State, o: int, k: nat) returns (k': nat)
    requires Inv(s) && Next(s, op, t) && k < |s.runnable| && s.runnable[k] == o && op != OpDestroy(o)
    ensures IsSwitch(s, op) && k == 0 ==> t.running == Some(o)
    ensures IsSwitch(s, op) && k > 0 ==> k' == k - 1 && k' < |t.runnable| && t.runnable[k'] == o
    ensures !IsSwitch(s, op) ==> k' <= k && k' < |t.runnable| && t.runnable[k'] == o
  {
    k' := k;
    if op.OpDestroy? && !IsSwitch(s, op) {
      k' := PlaceAfterRemoval(s.runnable, op.handle, k);
    } else if IsSwitch(s, op) {
      if op.OpDestroy? { DestroyRunning(s); }
      k' := if k > 0 then k - 1 else 0;
    }
  }

  /** A thread at position k of the ring runs after at most k + 1 switches, whatever threads are
      created or destroyed in between, unless it is destroyed itself. */
  lemma {:induction false} RunsWithin(ss: seq<State>, ops: seq<Op>, o: int, k: nat)
    requires Behavior(ss, ops) && Inv(ss[0]) && k < |ss[0].runnable| && ss[0].runnable[k] == o
    requires OpDestroy(o) !in ops
    requires Switches(ss, ops) >= k + 1
    ensures exists i :: 0 <= i < |ss| && ss[i].running == Some(o)
    decreases |ops|
  {
    var rest, ops' := ss[1..], ops[1..];
    assert Next(ss[0], ops[0], ss[1]);
    StepInv(ss[0], ops[0], ss[1]);
    var k' := PositionStep(ss[0], ops[0], ss[1], o, k);
    if IsSwitch(ss[0], ops[0]) && k == 0 {
      assert ss[1].running == Some(o);
    } else {
      assert Behavior(rest, ops') by {
        forall i | 0 <= i < |ops'| ensures Next(rest[i], ops'[i], rest[i + 1]) {
          assert Next(ss[i + 1], ops[i + 1], ss[i + 1 + 1]);
        }
      }
      RunsWithin(rest, ops', o, k');
      var i :| 0 <= i < |rest| && rest[i].running == Some(o);
      assert ss[i + 1].running == Some(o);
    }
  }

  // ----- The scheduler -----

  ghost function FirstThread(o: int): State {
    State(map[o := Thread(0, true)], Some(o), [], None, map[INVALID_TID := None][0 := Some(o)], 1)
  }

  lemma FirstThreadInv(o: int)
    ensures Inv(FirstThread(o))
  {
  }

  lemma OnlyDummy()
    ensures var m: map<nat, Option<int>> := map[INVALID_TID := None]; |m| == 1 && TidsInRange(m)
  {
  }

  /** A thread that the scheduler may choose. */
  ghost predicate MayRun(s: State, o: int) {
    o in s.runnable || (s.running == Some(o) && o in s.threads && s.threads[o].runnable)
  }

  class Scheduler {
    var threads: map<int, Thread>
    var running: Option<int>
    var runnable: seq<int>
    var pending: Option<int>
    var tidMap: map<nat, Option<int>>
    var tidCounter: nat

    ghost function S(): State
      reads this
    {
      State(threads, running, runnable, pending, tidMap, tidCounter)
    }

    constructor ()
      ensures running == None && threads == map[] && runnable == [] && pending == None
      ensures tidMap == map[INVALID_TID := None] && tidCounter == 0
    {
      threads, running, runnable, pending := map[], None, [], None;
      tidMap, tidCounter := map[INVALID_TID := None], 0;
    }

    /** `bootstrap`: the calling thread becomes the running one, under the first ID. */
    method Bootstrap(o: int) returns (tid: nat)
      requires running == None && threads == map[] && runnable == [] && pending == None
      requires tidMap == map[INVALID_TID := None] && tidCounter == 0
      modifies this
      ensures Inv(S()) && running == Some(o) && tid == 0
    {
      OnlyDummy();
      FirstThreadInv(o);
      ghost var k;
      tid, tidCounter, k := FindNextTid(tidMap, tidCounter);
      assert Candidate(0, 0) == 0;
      threads := threads[o := Thread(tid, true)];
      tidMap := tidMap[tid := Some(o)];
      running := Some(o);
      assert S() == FirstThread(o);
    }

    method NewThread(o: int) returns (tid: nat, ghost k: nat)
      requires o !in threads && TidsInRange(tidMap) && |tidMap| < INVALID_TID && tidCounter < TID_COUNT
      modifies this
      ensures IsNextFree(old(tidMap), old(tidCounter), k) && S() == Spawn(old(S()), o, k)
      ensures tid == threads[o].tid
    {
      tid, tidCounter, k := FindNextTid(tidMap, tidCounter);
      threads := threads[o := Thread(tid, true)];
      tidMap := tidMap[tid := Some(o)];
      runnable := runnable + [o];
    }

    /** `choose_task`: none iff no thread may run, and the running thread only if no other one may. */
    method ChooseTask() returns (o: Option<int>)
      requires running.Some? && running.value in threads
      ensures o.None? <==> forall x :: !MayRun(S(), x)
      ensures o.Some? ==> MayRun(S(), o.value)
      ensures o.Some? && runnable != [] ==> o.value == runnable[0]
    {
      if runnable != [] {
        assert MayRun(S(), runnable[0]);
        return Some(runnable[0]);
      }
      assert MayRun(S(), running.value) <==> threads[running.value].runnable;
      if threads[running.value].runnable {
        return running;
      }
      return None;
    }

    method DeleteTask(o: int)
      requires o in threads
      modifies this`runnable, this`tidMap, this`threads
      ensures S() == Delete(old(S()), o)
    {
      runnable := Without(runnable, o);
      tidMap := tidMap - {threads[o].tid};
      threads := threads - {o};
    }

    /** `schedule`.  There must be a thread to run, and the front of the ring is not running. */
    method ScheduleNext()
      requires running.Some? && running.value in threads && (pending.Some? ==> pending.value in threads)
      requires exists x :: MayRun(S(), x)
      requires runnable != [] ==> runnable[0] != running.value
      modifies this
      ensures S() == Schedule(old(S()))
    {
      ghost var x :| MayRun(S(), x);
      var next := ChooseTask();
      assert MayRun(S(), x);
      var current := running.value;
      if next.value == current {
        return;
      }
      running := next;
      runnable := runnable[1..];
      runnable := runnable + [current];
      if pending.Some? {
        DeleteTask(pending.value);
        pending := None;
      }
    }

    method DestroyThread(o: int)
      requires Inv(S()) && o in threads && (Some(o) == running ==> runnable != [])
      modifies this
      ensures S() == Destroy(old(S()), o) && Gone(old(S()), o, S())
    {
      DestroyMakesGone(S(), o);
      if Some(o) != running {
        DeleteTask(o);
      } else {
        threads := threads[o := threads[o].(runnable := false)];
        assert pending == None;
        pending := Some(o);
        assert MayRun(S(), runnable[0]);
        ScheduleNext();
      }
    }
  }
}
