/** The scheduler of src/kernel/mt/threads.c on one core: dispatch_thread, sleep, wakeup, and the
    creation and end of threads. Every step runs under multi_threading_lock. */
module Scheduler {
  import opened ChunkList
  import opened Basics

  // ---------------------------------------------------------------- the state of a core

  /** `threads` are the ids in the list, `current` is 0 when no thread is current. Ids start at 1. */
  datatype State = State(threads: seq<nat>, blocked: set<nat>, current: nat, index: nat)

  predicate ActiveAt(s: State, i: nat) {
    i < |s.threads| && s.threads[i] !in s.blocked
  }

  /** The first position from `from` on with an active thread, the length of the list if there is none. */
  function FirstActive(s: State, from: nat): (i: nat)
    requires from <= |s.threads|
    ensures from <= i <= |s.threads| && (i < |s.threads| ==> ActiveAt(s, i))
    ensures forall j {:trigger ActiveAt(s, j)} :: from <= j < i ==> !ActiveAt(s, j)
    decreases |s.threads| - from
  {
    if from == |s.threads| || ActiveAt(s, from) then from else FirstActive(s, from + 1)
  }

  predicate SomeActive(s: State) {
    FirstActive(s, 0) < |s.threads|
  }

  /** The position behind the one dispatched last. */
  function Start(s: State): nat {
    if s.current == 0 then 0 else s.index + 1
  }

  /** The index runs over the list, and stands at its front when no thread is current. */
  ghost predicate Inv(s: State) {
    && (if s.current == 0 then s.index == 0 else s.index < |s.threads|)
    && Distinct(s.threads) && 0 !in s.threads
  }

  /** The position that is dispatched next. */
  function Chosen(s: State): (i: nat)
    requires Start(s) <= |s.threads| && SomeActive(s)
    ensures i < |s.threads|
  {
    if FirstActive(s, Start(s)) < |s.threads| then FirstActive(s, Start(s)) else FirstActive(s, 0)
  }

  // ---------------------------------------------------------------- steps and runs

  datatype Step =
    | Dispatch
    | Sleep
    | Wakeup(tid: nat)
    | Create(at: nat, tid: nat)
    | Kill(tid: nat)

  /** Only a running thread can go to sleep; a new thread has a new id and goes to some place of the list. */
  predicate Enabled(s: State, step: Step) {
    match step
    case Sleep => s.current != 0
    case Create(at, tid) => at <= |s.threads| && tid != 0 && tid !in s.threads
    case _ => true
  }

  function Without(ts: seq<nat>, tid: nat): (r: seq<nat>)
    ensures forall t :: t in r <==> t in ts && t != tid
  {
    if ts == [] then []
    else if ts[0] == tid then Without(ts[1..], tid)
    else [ts[0]] + Without(ts[1..], tid)
  }

  function Next(s: State, step: Step): State
    requires Start(s) <= |s.threads| && Enabled(s, step)
  {
    match step
    case Dispatch =>
      if SomeActive(s) then s.(current := s.threads[Chosen(s)], index := Chosen(s)) else s
    case Sleep => s.(blocked := s.blocked + {s.current}, current := 0, index := 0)
    case Wakeup(tid) => if tid in s.threads then s.(blocked := s.blocked - {tid}) else s
    case Create(at, tid) => s.(threads := s.threads[..at] + [tid] + s.threads[at..], blocked := s.blocked - {tid})
    case Kill(tid) => s.(threads := Without(s.threads, tid), current := 0, index := 0)
  }

  lemma {:induction false} WithoutKeepsDistinct(ts: seq<nat>, tid: nat)
    requires Distinct(ts)
    ensures Distinct(Without(ts, tid))
  {
    if ts != [] {
      WithoutKeepsDistinct(ts[1..], tid);
      DistinctTail(ts, Without(ts[1..], tid));
    }
  }

  lemma DistinctTail(ts: seq<nat>, rest: seq<nat>)
    requires Distinct(ts) && ts != [] && Distinct(rest) && forall t :: t in rest ==> t in ts[1..]
    ensures Distinct([ts[0]] + rest)
  {
    DistinctConcat([ts[0]], rest);
  }

  lemma StepKeepsInv(s: State, step: Step)
    requires Inv(s) && Enabled(s, step)
    ensures Inv(Next(s, step))
  {
    if step.Kill? {
      WithoutKeepsDistinct(s.threads, step.tid);
    }
    if step.Create? {
      InsertKeepsDistinct(s.threads, step.at, step.tid);
    }
  }

  lemma InsertKeepsDistinct(ts: seq<nat>, at: nat, tid: nat)
    requires Distinct(ts) && at <= |ts| && tid !in ts
    ensures Distinct(ts[..at] + [tid] + ts[at..])
  {
  }

  /** A run of enabled steps, and where it leads. */
  ghost predicate IsRun(s: State, steps: seq<Step>)
    requires Inv(s)
    decreases |steps|
  {
    if steps == [] then true
    else
      && Enabled(s, steps[0])
      && (StepKeepsInv(s, steps[0]); IsRun(Next(s, steps[0]), steps[1..]))
  }

  ghost function After(s: State, steps: seq<Step>): (r: State)
    requires Inv(s) && IsRun(s, steps)
    ensures Inv(r)
    decreases |steps|
  {
    if steps == [] then s
    else
      StepKeepsInv(s, steps[0]);
      After(Next(s, steps[0]), steps[1..])
  }

  /** In every run, whatever the threads did before: a dispatch makes an active thread of the list
      current, and it changes nothing exactly when the list has none. */
  lemma ChosenIsActive(s: State, steps: seq<Step>)
    requires Inv(s) && IsRun(s, steps)
    ensures var u := After(s, steps);
            var v := Next(u, Dispatch);
            && (SomeActive(u) <==> exists t :: t in u.threads && t !in u.blocked)
            && (SomeActive(u) ==> v.current in u.threads && v.current !in u.blocked && v.current == u.threads[v.index])
            && (!SomeActive(u) ==> v == u)
            && v.threads == u.threads && v.blocked == u.blocked
  {
    var u := After(s, steps);
    if SomeActive(u) {
      assert ActiveAt(u, FirstActive(u, 0)) && ActiveAt(u, Chosen(u));
      assert u.threads[FirstActive(u, 0)] in u.threads;
    } else {
      forall t | t in u.threads
        ensures t in u.blocked
      {
        var i :| 0 <= i < |u.threads| && u.threads[i] == t;
        assert !ActiveAt(u, i);
      }
    }
  }

  // ---------------------------------------------------------------- round robin

  /** The number of active threads at positions lo up to hi. */
  function Count(s: State, lo: nat, hi: nat): (n: nat)
    ensures n <= if lo <= hi then hi - lo else 0
    decreases hi
  {
    if lo >= hi then 0 else Count(s, lo, hi - 1) + (if ActiveAt(s, hi - 1) then 1 else 0)
  }

  lemma {:induction false} CountSplits(s: State, lo: nat, mid: nat, hi: nat)
    requires lo <= mid <= hi
    ensures Count(s, lo, hi) == Count(s, lo, mid) + Count(s, mid, hi)
    decreases hi
  {
    if mid < hi {
      CountSplits(s, lo, mid, hi - 1);
    }
  }

  lemma {:induction false} CountNone(s: State, lo: nat, hi: nat)
    requires forall i {:trigger ActiveAt(s, i)} :: lo <= i < hi ==> !ActiveAt(s, i)
    ensures Count(s, lo, hi) == 0
    decreases hi
  {
    if lo < hi {
      CountNone(s, lo, hi - 1);
    }
  }

  /** An active position adds one. */
  lemma CountAround(s: State, lo: nat, i: nat, hi: nat)
    requires lo <= i < hi && ActiveAt(s, i)
    ensures Count(s, lo, hi) == Count(s, lo, i) + 1 + Count(s, i + 1, hi)
  {
    CountSplits(s, lo, i + 1, hi);
  }

  /** The wait of position `i` when the search begins at `from`. */
  function WaitFrom(s: State, from: nat, i: nat): nat {
    if from <= i then Count(s, from, i + 1) else Count(s, from, |s.threads|) + Count(s, 0, i + 1)
  }

  /** The number of active threads from the next position round to position `i`, that one included. */
  function Wait(s: State, i: nat): nat {
    WaitFrom(s, Start(s), i)
  }

  lemma WaitBounds(s: State, i: nat)
    requires Inv(s) && ActiveAt(s, i)
    ensures 1 <= Wait(s, i) <= Count(s, 0, |s.threads|)
  {
    var n, b := |s.threads|, Start(s);
    CountSplits(s, 0, b, n);
    if b <= i {
      CountAround(s, b, i, n);
      CountAround(s, b, i, i + 1);
    } else {
      CountAround(s, 0, i, b);
      CountAround(s, 0, i, i + 1);
    }
  }

  lemma WaitOnward(s: State, from: nat, p: nat, i: nat)
    requires from <= p < |s.threads| && ActiveAt(s, p) && ActiveAt(s, i) && Count(s, from, p) == 0
    ensures i == p ==> WaitFrom(s, from, i) == 1
    ensures i != p ==> WaitFrom(s, from, i) == WaitFrom(s, p + 1, i) + 1 >= 2
  {
    if i > p {
      CountAround(s, from, p, i + 1);
      CountAround(s, p + 1, i, i + 1);
    } else if from <= i < p {
      CountAround(s, from, i, p);
    } else if i < from {
      CountAround(s, from, p, |s.threads|);
      CountAround(s, 0, i, i + 1);
    }
  }

  lemma WaitRound(s: State, from: nat, p: nat, i: nat)
    requires p < from <= |s.threads| && ActiveAt(s, p) && ActiveAt(s, i)
    requires Count(s, from, |s.threads|) == 0 && Count(s, 0, p) == 0
    ensures i == p ==> WaitFrom(s, from, i) == 1
    ensures i != p ==> WaitFrom(s, from, i) == WaitFrom(s, p + 1, i) + 1 >= 2
  {
    if i >= from {
      CountAround(s, from, i, |s.threads|);
    } else {
      WaitOnward(s, 0, p, i);
      CountSplits(s, p + 1, from, |s.threads|);
    }
  }

  /** A dispatch takes the thread whose wait is 1 and brings every other one nearer by one. */
  lemma WaitDrops(s: State, i: nat)
    requires Inv(s) && ActiveAt(s, i) && SomeActive(s)
    ensures var t := Next(s, Dispatch);
            && (t.index == i <==> Wait(s, i) == 1)
            && (t.index != i ==> Wait(t, i) == Wait(s, i) - 1)
  {
    hide Count;
    var p := Chosen(s);
    var b, n := Start(s), |s.threads|;
    var t := Next(s, Dispatch);
    assert s.threads[p] != 0 && Start(t) == p + 1;
    if b <= p {
      CountNone(s, b, p);
      WaitOnward(s, b, p, i);
    } else {
      CountNone(s, b, n);
      CountNone(s, 0, p);
      WaitRound(s, b, p, i);
    }
    SameCounts(s, t, p + 1, i + 1);
    SameCounts(s, t, p + 1, n);
    SameCounts(s, t, 0, i + 1);
  }

  lemma {:induction false} SameCounts(s: State, t: State, lo: nat, hi: nat)
    requires s.threads == t.threads && s.blocked == t.blocked
    ensures Count(s, lo, hi) == Count(t, lo, hi)
    decreases hi
  {
    if lo < hi {
      SameCounts(s, t, lo, hi - 1);
    }
  }

  /** After its turn a thread waits for all the others. */
  lemma WaitRestarts(s: State, i: nat)
    requires Inv(s) && ActiveAt(s, i) && SomeActive(s) && Wait(s, i) == 1
    ensures Wait(Next(s, Dispatch), i) == Count(s, 0, |s.threads|)
  {
    var t := Next(s, Dispatch);
    WaitDrops(s, i);
    assert s.threads[i] != 0 && Start(t) == i + 1;
    CountSplits(t, 0, i + 1, |s.threads|);
    SameCounts(s, t, 0, |s.threads|);
  }

  /** The state after `n` dispatches with nothing in between. */
  function Dispatched(s: State, n: nat): (r: State)
    requires Start(s) <= |s.threads|
    ensures Start(r) <= |r.threads|
    decreases n
  {
    if n == 0 then s else Dispatched(Next(s, Dispatch), n - 1)
  }

  lemma {:induction false} TurnAt(s: State, i: nat, n: nat)
    requires Inv(s) && ActiveAt(s, i) && 1 <= n < Wait(s, i) + Count(s, 0, |s.threads|)
    ensures var t := Dispatched(s, n); t.current == s.threads[i] <==> n == Wait(s, i)
    decreases n
  {
    var t := Next(s, Dispatch);
    WaitBounds(s, i);
    ActiveHere(s, i);
    WaitDrops(s, i);
    if n > 1 {
      StepKeepsInv(s, Dispatch);
      SameCounts(s, t, 0, |s.threads|);
      if Wait(s, i) == 1 {
        WaitRestarts(s, i);
      }
      TurnAt(t, i, n - 1);
    }
  }

  lemma ActiveHere(s: State, i: nat)
    requires ActiveAt(s, i)
    ensures SomeActive(s)
  {
  }

  function Actives(s: State): set<nat> {
    ActivesIn(s.threads, s.blocked)
  }

  function ActivesIn(ts: seq<nat>, blocked: set<nat>): set<nat> {
    set t | t in ts && t !in blocked
  }

  lemma {:induction false} CountIsCardinality(s: State, hi: nat)
    requires Distinct(s.threads) && hi <= |s.threads|
    ensures Count(s, 0, hi) == |ActivesIn(s.threads[..hi], s.blocked)|
    decreases hi
  {
    if hi > 0 {
      CountIsCardinality(s, hi - 1);
      var x := s.threads[hi - 1];
      assert s.threads[..hi] == s.threads[..hi - 1] + [x];
      assert x !in s.threads[..hi - 1];
      OneMore(s.threads[..hi - 1], x, s.blocked);
    }
  }

  lemma OneMore(ts: seq<nat>, x: nat, blocked: set<nat>)
    requires x !in ts
    ensures |ActivesIn(ts + [x], blocked)| == |ActivesIn(ts, blocked)| + if x in blocked then 0 else 1
  {
    if x in blocked {
      assert ActivesIn(ts + [x], blocked) == ActivesIn(ts, blocked);
    } else {
      assert ActivesIn(ts + [x], blocked) == ActivesIn(ts, blocked) + {x};
    }
  }

  /** Bounded wait: among as many consecutive dispatches as there are active threads, each active
      thread gets exactly one. */
  lemma OneTurnEach(s: State, tid: nat)
    requires Inv(s) && tid in Actives(s)
    ensures exists turn {:trigger Dispatched(s, turn)} ::
              && 1 <= turn <= |Actives(s)| && Dispatched(s, turn).current == tid
              && forall n {:trigger Dispatched(s, n)} ::
                   1 <= n <= |Actives(s)| && n != turn ==> Dispatched(s, n).current != tid
  {
    var i :| 0 <= i < |s.threads| && s.threads[i] == tid;
    CountIsCardinality(s, |s.threads|);
    assert s.threads[..|s.threads|] == s.threads;
    WaitBounds(s, i);
    TurnAt(s, i, Wait(s, i));
    forall n | 1 <= n <= |Actives(s)| && n != Wait(s, i)
      ensures Dispatched(s, n).current != tid
    {
      TurnAt(s, i, n);
    }
  }

  // ---------------------------------------------------------------- what others can do to a waiting thread

  /** Some dispatch of the run makes the thread current. */
  ghost predicate GetsTurn(s: State, steps: seq<Step>, tid: nat)
    requires Inv(s) && IsRun(s, steps)
    decreases |steps|
  {
    if steps == [] then false
    else
      StepKeepsInv(s, steps[0]);
      var t := Next(s, steps[0]);
      (steps[0] == Dispatch && t.current == tid) || GetsTurn(t, steps[1..], tid)
  }

  function DispatchCount(steps: seq<Step>): nat {
    if steps == [] then 0 else (if steps[0] == Dispatch then 1 else 0) + DispatchCount(steps[1..])
  }

  /** The number of positions from the next one round to `i`, that one included. */
  function Distance(s: State, i: nat): int {
    if Start(s) <= i then i - Start(s) + 1 else |s.threads| - Start(s) + i + 1
  }

  /** The others run, wake up and, if `sleeps`, go to sleep; the thread itself does not. */
  ghost predicate OthersGoOn(s: State, steps: seq<Step>, tid: nat, sleeps: bool)
    requires Inv(s) && IsRun(s, steps)
    decreases |steps|
  {
    if steps == [] then true
    else
      StepKeepsInv(s, steps[0]);
      && (steps[0].Dispatch? || steps[0].Wakeup? || (sleeps && steps[0].Sleep? && s.current != tid))
      && OthersGoOn(Next(s, steps[0]), steps[1..], tid, sleeps)
  }

  lemma {:induction false} TurnWithin(s: State, steps: seq<Step>, i: nat, sleeps: bool)
    requires Inv(s) && IsRun(s, steps) && ActiveAt(s, i) && DispatchCount(steps) >= Distance(s, i)
    requires OthersGoOn(s, steps, s.threads[i], sleeps) && (sleeps ==> i == 0)
    ensures GetsTurn(s, steps, s.threads[i])
    decreases |steps|
  {
    if steps != [] {
      StepKeepsInv(s, steps[0]);
      var t := Next(s, steps[0]);
      ActiveHere(s, i);
      assert s.threads[i] != 0;
      if steps[0] == Dispatch {
        assert s.threads[Chosen(s)] != 0;
      }
      if t.current != s.threads[i] || steps[0] != Dispatch {
        TurnWithin(t, steps[1..], i, sleeps);
      }
    }
  }

  /** A thread at place `i` of the list that is active all along gets a turn in every run with as many
      dispatches as there are threads. */
  ghost predicate AlwaysServed(ts: seq<nat>, i: nat, sleeps: bool)
    requires i < |ts|
  {
    forall s, steps {:trigger IsRun(s, steps)} ::
      (&& Inv(s) && s.threads == ts && ActiveAt(s, i) && IsRun(s, steps)
       && OthersGoOn(s, steps, ts[i], sleeps) && DispatchCount(steps) >= |ts|)
      ==> GetsTurn(s, steps, ts[i])
  }

  /** Wakeups alone starve nobody. */
  lemma TurnDespiteWakeups(ts: seq<nat>, i: nat)
    requires i < |ts|
    ensures AlwaysServed(ts, i, false)
  {
    forall s, steps | Inv(s) && s.threads == ts && ActiveAt(s, i) && IsRun(s, steps)
                      && OthersGoOn(s, steps, ts[i], false) && DispatchCount(steps) >= |ts|
      ensures GetsTurn(s, steps, ts[i])
    {
      TurnWithin(s, steps, i, false);
    }
  }

  /** The thread is active all along and never gets a turn. */
  ghost predicate PassedOver(s: State, steps: seq<Step>, tid: nat)
    requires Inv(s) && IsRun(s, steps)
    decreases |steps|
  {
    && tid in Actives(s)
    && if steps == [] then true
       else
         StepKeepsInv(s, steps[0]);
         var t := Next(s, steps[0]);
         !(steps[0] == Dispatch && t.current == tid) && PassedOver(t, steps[1..], tid)
  }

  lemma {:induction false} PassedOverGetsNoTurn(s: State, steps: seq<Step>, tid: nat)
    requires Inv(s) && IsRun(s, steps) && PassedOver(s, steps, tid)
    ensures !GetsTurn(s, steps, tid)
    decreases |steps|
  {
    if steps != [] {
      StepKeepsInv(s, steps[0]);
      PassedOverGetsNoTurn(Next(s, steps[0]), steps[1..], tid);
    }
  }

  /** The thread at the front of the list runs, goes to sleep and is woken, over and over: each sleep
      sends the search back to the front. */
  function FrontRun(front: nat, n: nat): seq<Step>
    decreases n
  {
    if n == 0 then [] else [Dispatch] + ([Sleep] + ([Wakeup(front)] + FrontRun(front, n - 1)))
  }

  lemma StepOn(s: State, step: Step, rest: seq<Step>, tid: nat)
    requires Inv(s) && Enabled(s, step) && Inv(Next(s, step)) && IsRun(Next(s, step), rest)
    requires tid in Actives(s) && PassedOver(Next(s, step), rest, tid)
    requires step == Dispatch ==> Next(s, step).current != tid
    requires (step.Dispatch? || step.Wakeup? || (step.Sleep? && s.current != tid))
    requires OthersGoOn(Next(s, step), rest, tid, true)
    ensures IsRun(s, [step] + rest) && PassedOver(s, [step] + rest, tid) && OthersGoOn(s, [step] + rest, tid, true)
    ensures DispatchCount([step] + rest) == DispatchCount(rest) + if step == Dispatch then 1 else 0
  {
    assert ([step] + rest)[1..] == rest;
  }

  /** So any thread behind the front can be passed over for as long as one likes. */
  lemma {:induction false} SleeperStarves(ts: seq<nat>, i: nat, n: nat)
    requires Distinct(ts) && 0 !in ts && 0 < i < |ts|
    ensures var s, steps := State(ts, {}, 0, 0), FrontRun(ts[0], n);
            && Inv(s) && IsRun(s, steps) && OthersGoOn(s, steps, ts[i], true)
            && PassedOver(s, steps, ts[i]) && DispatchCount(steps) == n
    decreases n
  {
    if n > 0 {
      var s, running, asleep := State(ts, {}, 0, 0), State(ts, {}, ts[0], 0), State(ts, {ts[0]}, 0, 0);
      var rest := FrontRun(ts[0], n - 1);
      SleeperStarves(ts, i, n - 1);
      assert ActiveAt(s, 0) && Next(s, Dispatch) == running;
      assert ts[0] in ts && Next(running, Sleep) == asleep && Next(asleep, Wakeup(ts[0])) == s;
      assert ts[i] in Actives(s) && ts[i] != ts[0];
      StepOn(asleep, Wakeup(ts[0]), rest, ts[i]);
      StepOn(running, Sleep, [Wakeup(ts[0])] + rest, ts[i]);
      StepOn(s, Dispatch, [Sleep] + ([Wakeup(ts[0])] + rest), ts[i]);
    }
  }

  /** With sleeps of others a thread is served in every run exactly if it stands at the front. */
  lemma ServedIff(ts: seq<nat>, i: nat)
    requires Distinct(ts) && 0 !in ts && i < |ts|
    ensures AlwaysServed(ts, i, true) <==> i == 0
  {
    if i == 0 {
      forall s, steps | Inv(s) && s.threads == ts && ActiveAt(s, i) && IsRun(s, steps)
                        && OthersGoOn(s, steps, ts[i], true) && DispatchCount(steps) >= |ts|
        ensures GetsTurn(s, steps, ts[i])
      {
        TurnWithin(s, steps, i, true);
      }
    } else {
      SleeperStarves(ts, i, |ts|);
      PassedOverGetsNoTurn(State(ts, {}, 0, 0), FrontRun(ts[0], |ts|), ts[i]);
    }
  }

  // ---------------------------------------------------------------- the scheduler as it runs

  lemma {:induction false} WithoutAbsent(ts: seq<nat>, tid: nat)
    requires tid !in ts
    ensures Without(ts, tid) == ts
  {
    if ts != [] {
      WithoutAbsent(ts[1..], tid);
    }
  }

  lemma {:induction false} WithoutSplits(f: seq<nat>, tid: nat, b: seq<nat>)
    requires tid !in f && tid !in b
    ensures Without(f + [tid] + b, tid) == f + b
  {
    var all := f + [tid] + b;
    if f == [] {
      assert all[1..] == b && f + b == b;
      WithoutAbsent(b, tid);
    } else {
      WithoutSplits(f[1..], tid, b);
      assert all[1..] == f[1..] + [tid] + b;
      assert [f[0]] + (f[1..] + b) == f + b;
    }
  }

  /** alist_remove takes the thread out of the list. */
  lemma RemovedIsWithout(cs: Chunks, tid: nat)
    requires Distinct(Contents(cs)) && tid != 0
    ensures Contents(Removed(cs, tid)) == Without(Contents(cs), tid)
  {
    if tid in Contents(cs) {
      RemoveTakesFirst(cs, tid);
      AloneInMiddle(Front(cs, tid), tid, Back(cs, tid));
      WithoutSplits(Front(cs, tid), tid, Back(cs, tid));
    } else {
      RemoveOfAbsent(cs, tid);
      WithoutAbsent(Contents(cs), tid);
    }
  }

  lemma AloneInMiddle(f: seq<nat>, x: nat, b: seq<nat>)
    requires Distinct(f + [x] + b)
    ensures x !in f && x !in b
  {
    var all := f + [x] + b;
    assert all[|f|] == x;
    assert forall i {:trigger b[i]} :: 0 <= i < |b| ==> all[|f| + 1 + i] == b[i];
    assert forall i {:trigger f[i]} :: 0 <= i < |f| ==> all[i] == f[i];
  }

  /** alist_add puts the thread somewhere into the list. */
  lemma AddedIsCreate(cs: Chunks, tid: nat, capacity: nat)
    requires WellFormed(cs, capacity) && tid != 0 && ChunkWith(cs, 0) < |cs|
    ensures var ts, at := Contents(cs), |Front(cs, 0)|;
            at <= |ts| && Contents(Added(cs, tid, capacity)) == ts[..at] + [tid] + ts[at..]
    ensures forall t :: t in Contents(Added(cs, tid, capacity)) ==> t == tid || t in Contents(cs)
  {
    AddInserts(cs, tid, capacity);
    assert (Front(cs, 0) + Back(cs, 0))[..|Front(cs, 0)|] == Front(cs, 0);
    assert (Front(cs, 0) + Back(cs, 0))[|Front(cs, 0)|..] == Back(cs, 0);
  }

  lemma NewThread(cs: Chunks, s: State, tid: nat) returns (at: nat)
    requires WellFormed(cs, ENTRIES) && Contents(cs) == s.threads && Inv(s) && tid != 0 && tid !in s.threads
    ensures WellFormed(Added(cs, tid, ENTRIES), ENTRIES) && Enabled(s, Create(at, tid))
    ensures Contents(Added(cs, tid, ENTRIES)) == Next(s, Create(at, tid)).threads && Inv(Next(s, Create(at, tid)))
    ensures forall t :: t in Contents(Added(cs, tid, ENTRIES)) ==> t == tid || t in Contents(cs)
  {
    at := |Front(cs, 0)|;
    AddInserts(cs, tid, ENTRIES);
    AddKeepsShape(cs, tid, ENTRIES);
    AddedIsCreate(cs, tid, ENTRIES);
    StepKeepsInv(s, Create(at, tid));
  }

  /** Position `i` lies between the first one looked at and the one the search stops at. */
  ghost predicate OnTheWay(s: State, i: nat)
    requires Inv(s) && SomeActive(s)
  {
    i < |s.threads| && if Start(s) <= Chosen(s) then Start(s) <= i <= Chosen(s) else i <= Chosen(s) || Start(s) <= i
  }

  /** The number of positions from `i` to that one. */
  ghost function Left(s: State, i: nat): nat
    requires Inv(s) && SomeActive(s) && OnTheWay(s, i)
  {
    if i <= Chosen(s) then Chosen(s) - i else |s.threads| - i + Chosen(s)
  }

  lemma SearchBegins(s: State)
    requires Inv(s) && SomeActive(s) && s.current != 0
    ensures OnTheWay(s, (s.index + 1) % |s.threads|)
  {
    NextRound(s.index, |s.threads|);
  }

  lemma NextRound(i: nat, n: nat)
    requires i < n
    ensures (i + 1) % n == if i + 1 == n then 0 else i + 1
  {
  }

  lemma SearchGoesOn(s: State, i: nat)
    requires Inv(s) && SomeActive(s) && OnTheWay(s, i)
    ensures ActiveAt(s, i) <==> i == Chosen(s)
    ensures i != Chosen(s) ==> OnTheWay(s, (i + 1) % |s.threads|)
    ensures i != Chosen(s) ==> Left(s, (i + 1) % |s.threads|) < Left(s, i)
  {
    NextRound(i, |s.threads|);
    var j := if i + 1 == |s.threads| then 0 else i + 1;
    assert ActiveAt(s, Chosen(s));
    assert i != Chosen(s) ==> OnTheWay(s, j) && Left(s, j) < Left(s, i);
  }

  /** The result of alist_get_by_index. */
  function Entry(cs: Chunks, index: nat): nat {
    if index < |Contents(cs)| then Contents(cs)[index] else 0
  }

  /** struct cpu_info, with the thread states and the id counter. */
  class Cpu {
    var threadList: Chunks
    var blocked: set<nat>
    var currentThread: nat
    var currentThreadIndex: nat
    var totalThreadCount: nat

    constructor ()
      ensures Valid() && View() == State([], {}, 0, 0)
    {
      threadList, blocked := [Zeros(ENTRIES)], {};
      currentThread, currentThreadIndex, totalThreadCount := 0, 0, 0;
      new;
      EmptyIsCompact(ENTRIES);
      assert Zeros(ENTRIES)[0] == 0;
    }

    function View(): State
      reads this
    {
      State(Contents(threadList), blocked, currentThread, currentThreadIndex)
    }

    ghost predicate Valid()
      reads this
    {
      && WellFormed(threadList, ENTRIES) && Inv(View())
      && forall t :: t in Contents(threadList) ==> t <= totalThreadCount
    }

    /** alist_get_by_entry8 for THREAD_ACTIVE, as a test. */
    method AreThereStillThreads() returns (b: bool)
      requires Valid()
      ensures Valid() && b == SomeActive(View())
    {
      var i := 0;
      var cur := Entry(threadList, 0);
      ghost var s := View();
      while cur != 0
        invariant i <= FirstActive(s, 0) && cur == Entry(threadList, i)
        decreases |s.threads| - i
      {
        if cur !in blocked {
          assert ActiveAt(s, i);
          return true;
        }
        assert !ActiveAt(s, i);
        i := i + 1;
        cur := Entry(threadList, i);
      }
      return false;
    }

    /** No current thread: the loop from the first thread on. */
    method SearchFirst()
      requires Valid() && SomeActive(View()) && currentThread == 0
      modifies this`currentThread, this`currentThreadIndex
      ensures Valid() && View() == Next(old(View()), Dispatch)
    {
      var cur := Entry(threadList, 0);
      ghost var s := View();
      while cur in blocked
        invariant View() == s.(index := currentThreadIndex)
        invariant currentThreadIndex <= FirstActive(s, 0) && cur == s.threads[currentThreadIndex]
        decreases FirstActive(s, 0) - currentThreadIndex
      {
        assert !ActiveAt(s, currentThreadIndex);
        currentThreadIndex := currentThreadIndex + 1;
        cur := Entry(threadList, currentThreadIndex);
      }
      assert ActiveAt(s, currentThreadIndex);
      currentThread := cur;
    }

    /** One turn of the other loop: the next position, and the thread there. */
    method Advance() returns (cur: nat)
      requires currentThreadIndex < |View().threads|
      modifies this`currentThreadIndex
      ensures currentThreadIndex == (old(currentThreadIndex) + 1) % |View().threads|
      ensures cur == View().threads[currentThreadIndex]
    {
      currentThreadIndex := currentThreadIndex + 1;
      var n := |Contents(threadList)|;
      currentThreadIndex := currentThreadIndex % n;
      cur := Entry(threadList, currentThreadIndex);
    }

    /** A thread is current: the loop behind its position and round the end of the list. */
    method SearchNext()
      requires Valid() && SomeActive(View()) && currentThread != 0
      modifies this`currentThread, this`currentThreadIndex
      ensures Valid() && View() == Next(old(View()), Dispatch)
    {
      ghost var s := View();
      hide Left, SomeActive, FirstActive;
      SearchBegins(s);
      var cur := Advance();
      while cur in blocked
        invariant View() == s.(index := currentThreadIndex)
        invariant OnTheWay(s, currentThreadIndex) && cur == s.threads[currentThreadIndex]
        decreases Left(s, currentThreadIndex)
      {
        SearchGoesOn(s, currentThreadIndex);
        cur := Advance();
      }
      SearchGoesOn(s, currentThreadIndex);
      StepKeepsInv(s, Dispatch);
      currentThread := cur;
    }

    /** dispatch_thread: the thread that runs next, or none and the core idles. */
    method DispatchThread() returns (cur: nat)
      requires Valid()
      modifies this`currentThread, this`currentThreadIndex
      ensures Valid() && View() == Next(old(View()), Dispatch)
      ensures cur == if SomeActive(old(View())) then currentThread else 0
    {
      var some := AreThereStillThreads();
      if !some {
        return 0;
      }
      if currentThread == 0 {
        SearchFirst();
      } else {
        SearchNext();
      }
      return currentThread;
    }

    /** sleep. */
    method GoToSleep()
      requires Valid() && currentThread != 0
      modifies this`blocked, this`currentThread, this`currentThreadIndex
      ensures Valid() && View() == Next(old(View()), Sleep)
    {
      StepKeepsInv(View(), Sleep);
      blocked := blocked + {currentThread};
      currentThread, currentThreadIndex := 0, 0;
    }

    /** get_thread, as a test. */
    method HasThread(tid: nat) returns (b: bool)
      requires Valid()
      ensures Valid() && b == (tid in View().threads)
    {
      var i := 0;
      var cur := Entry(threadList, 0);
      while cur != 0
        invariant i <= |View().threads| && tid !in View().threads[..i] && cur == Entry(threadList, i)
        decreases |View().threads| - i
      {
        if cur == tid {
          return true;
        }
        i := i + 1;
        cur := Entry(threadList, i);
      }
      assert View().threads[..i] == View().threads;
      return false;
    }

    /** wakeup. */
    method WakeUp(tid: nat)
      requires Valid()
      modifies this`blocked
      ensures Valid() && View() == Next(old(View()), Wakeup(tid))
    {
      var found := HasThread(tid);
      if found {
        blocked := blocked - {tid};
      }
    }

    /** The part of create_thread that runs under the lock. */
    method CreateThread() returns (tid: nat, ghost at: nat)
      requires Valid()
      modifies this`threadList, this`blocked, this`totalThreadCount
      ensures Valid() && Enabled(old(View()), Create(at, tid))
      ensures View() == Next(old(View()), Create(at, tid))
    {
      totalThreadCount := totalThreadCount + 1;
      tid := totalThreadCount;
      at := NewThread(threadList, View(), tid);
      blocked := blocked - {tid};
      threadList := Added(threadList, tid, ENTRIES);
    }

    /** kill_thread. */
    method KillThread(tid: nat)
      requires Valid() && tid != 0
      modifies this`threadList, this`currentThread, this`currentThreadIndex
      ensures Valid() && View() == Next(old(View()), Kill(tid))
    {
      StepKeepsInv(View(), Kill(tid));
      RemovedIsWithout(threadList, tid);
      RemoveKeepsShape(threadList, tid, ENTRIES);
      threadList := Removed(threadList, tid);
      currentThread, currentThreadIndex := 0, 0;
    }
  }
}
