/** When the readers and writers of src/usr/hlib/hlib_vfs.c block each other for good: an "up" of semop
    that leaves the value negative puts its caller to sleep and wakes nobody. */
module ReadersWritersDeadlock {
  import opened Basics
  import opened Semaphore
  import opened ReadersWriters

  // ---------------------------------------------------------------- one semaphore

  /** Whoever could give the semaphore back is asleep on it. */
  ghost predicate Stuck(s: Semaphore, owing: set<nat>) {
    owing != {} && forall u :: u in owing ==> u in s.asleep
  }

  /** An up leaves its semaphore stuck exactly if two or more others wait. */
  lemma UpSticksIff(s: Semaphore, owing: set<nat>, k: nat, t: nat, at: nat)
    requires Lock(s, owing) && k in owing && k !in s.asleep && t !in s.asleep && (t in owing ==> t == k)
    requires |owing| <= LIMIT
    ensures Stuck(After(s, t, 1, at), owing - {k}) <==> |owing| >= 3
    ensures |owing| >= 3 ==> t in After(s, t, 1, at).asleep
    ensures |owing| < 3 ==> After(s, t, 1, at).asleep == []
  {
    Up(s, owing, k, t, at);
    assert |owing - {k}| == |owing| - 1;
  }

  /** A down never does. */
  lemma DownKeeps(s: Semaphore, owing: set<nat>, t: nat, at: nat)
    requires Lock(s, owing) && t !in owing && t !in s.asleep && |owing| < LIMIT && !Stuck(s, owing)
    ensures !Stuck(After(s, t, -1, at), owing + {t})
  {
    Down(s, owing, t, at);
    if owing == {} {
      assert t in owing + {t};
    } else {
      var u :| u in owing && u !in s.asleep;
      assert u in owing + {t};
    }
  }

  /** A down on a stuck semaphore puts its caller to sleep as well. */
  lemma DownJoins(s: Semaphore, owing: set<nat>, t: nat, at: nat)
    requires Lock(s, owing) && t !in owing && t !in s.asleep && |owing| < LIMIT && Stuck(s, owing)
    ensures Stuck(After(s, t, -1, at), owing + {t})
    ensures forall u :: u in s.asleep ==> u in After(s, t, -1, at).asleep
  {
    Down(s, owing, t, at);
    assert owing + {t} != {};
  }

  // ---------------------------------------------------------------- the two semaphores of a file

  ghost predicate ReadStuck(s: State) {
    Stuck(s.read, InRead(s.pc))
  }

  ghost predicate WriteStuck(s: State) {
    Stuck(s.write, InWrite(s.pc, s.count))
  }

  /** Somebody can go on, and each semaphore has an owner that will give it back. */
  ghost predicate Alive(s: State) {
    && (exists t :: 0 <= t < |s.pc| && Awake(s, t))
    && !ReadStuck(s) && !WriteStuck(s)
  }

  ghost predicate NeverStuck(threads: nat) {
    forall steps :: IsRun(Initial(threads), steps) ==> Alive(End(Initial(threads), steps))
  }

  // ---------------------------------------------------------------- stuck once, stuck for ever

  lemma InsideHolds(s: State, t: nat) returns (x: nat)
    requires Inv(s) && Awake(s, t) && s.pc[t] in {Counting, Counted, Reading, Leaving, Testing, Last, Writing}
    ensures x in InWrite(s.pc, s.count) && x !in s.write.asleep
  {
    if s.pc[t] == Writing || (s.pc[t] == Counting && s.count == 0) {
      x := t;
    } else {
      x := |s.pc|;
      if IsCounted(s.pc[t]) {
        CountPositive(s.pc, t);
      }
      assert GroupHolds(s.pc, s.count);
    }
  }

  lemma WriteStuckOutside(s: State, t: nat)
    requires Inv(s) && Awake(s, t) && WriteStuck(s)
    ensures s.pc[t] in {Idle, Entering, First, Closing} && !GroupHolds(s.pc, s.count)
  {
    if s.pc[t] in {Counting, Counted, Reading, Leaving, Testing, Last, Writing} {
      var x := InsideHolds(s, t);
    }
    assert |s.pc| !in s.write.asleep;
  }

  predicate CountIsZero(s: State) {
    s.count <= 0
  }

  lemma WriteStuckStays(s: State, t: nat, reading: bool, at: nat)
    requires Inv(s) && Awake(s, t) && WriteStuck(s)
    ensures WriteStuck(Next(s, t, reading, at))
    ensures forall u :: u in s.write.asleep ==> u in Next(s, t, reading, at).write.asleep
  {
    var s' := Next(s, t, reading, at);
    WriteStuckOutside(s, t);
    if s.pc[t] == First || (s.pc[t] == Idle && !reading) {
      assert Placed(s, t);
      WriterStarts(s.pc, s.count, t, s'.pc[t]);
      InWriteBound(s, t);
      DownJoins(s.write, InWrite(s.pc, s.count), t, at);
    } else {
      assert CountIsZero(s);
      NeutralStep(s.pc, s.count, t, s'.pc[t]);
    }
  }

  lemma ReadStuckStays(s: State, t: nat, reading: bool, at: nat)
    requires Inv(s) && Awake(s, t) && ReadStuck(s)
    ensures ReadStuck(Next(s, t, reading, at))
    ensures forall u :: u in s.read.asleep ==> u in Next(s, t, reading, at).read.asleep
  {
    var s' := Next(s, t, reading, at);
    assert t !in InRead(s.pc);
    InReadUpdate(s.pc, t, s'.pc[t]);
    if s.pc[t] == Reading || (s.pc[t] == Idle && reading) {
      InReadBound(s.pc, t);
      DownJoins(s.read, InRead(s.pc), t, at);
    } else {
      assert InRead(s'.pc) == InRead(s.pc);
    }
  }

  /** Once write_sem is stuck, nobody who sleeps on it is ever woken, and nobody reads or writes,
      whatever the other threads do. */
  lemma {:induction false} WriteStuckForever(s: State, steps: seq<Step>)
    requires Inv(s) && WriteStuck(s) && IsRun(s, steps)
    ensures WriteStuck(End(s, steps)) && forall u :: u in s.write.asleep ==> u in End(s, steps).write.asleep
    ensures forall u: nat :: Awake(End(s, steps), u) ==> End(s, steps).pc[u] !in {Reading, Writing}
    decreases |steps|
  {
    if steps == [] {
      forall u: nat | Awake(s, u)
        ensures s.pc[u] !in {Reading, Writing}
      {
        WriteStuckOutside(s, u);
      }
    } else {
      var s' := Next(s, steps[0].thread, steps[0].reading, steps[0].at);
      StepKeepsInv(s, steps[0].thread, steps[0].reading, steps[0].at);
      WriteStuckStays(s, steps[0].thread, steps[0].reading, steps[0].at);
      WriteStuckForever(s', steps[1..]);
    }
  }

  /** Once read_sem is stuck, nobody who sleeps on it is ever woken, and nobody gets past it, in or
      out of the read section. */
  lemma {:induction false} ReadStuckForever(s: State, steps: seq<Step>)
    requires Inv(s) && ReadStuck(s) && IsRun(s, steps)
    ensures ReadStuck(End(s, steps)) && forall u :: u in s.read.asleep ==> u in End(s, steps).read.asleep
    ensures forall u: nat :: Awake(End(s, steps), u) ==> !HoldsRead(End(s, steps).pc[u])
    decreases |steps|
  {
    if steps == [] {
      assert forall u: nat :: Awake(s, u) && HoldsRead(s.pc[u]) ==> u in InRead(s.pc);
    } else {
      var s' := Next(s, steps[0].thread, steps[0].reading, steps[0].at);
      StepKeepsInv(s, steps[0].thread, steps[0].reading, steps[0].at);
      ReadStuckStays(s, steps[0].thread, steps[0].reading, steps[0].at);
      ReadStuckForever(s', steps[1..]);
    }
  }

  // ---------------------------------------------------------------- two threads

  /** Only a down has put the thread to sleep. */
  predicate AtDown(s: State, t: nat)
    requires t < |s.pc|
  {
    && (t in s.read.asleep ==> s.pc[t] in {Entering, Leaving})
    && (t in s.write.asleep ==> s.pc[t] in {Writing, Counting})
  }

  ghost predicate Pair(s: State) {
    && Inv(s) && 1 <= |s.pc| <= 2 && !ReadStuck(s) && !WriteStuck(s)
    && (forall t {:trigger AtDown(s, t)} :: 0 <= t < |s.pc| ==> AtDown(s, t))
  }

  lemma PairIsAlive(s: State)
    requires Pair(s)
    ensures Alive(s)
  {
    if InWrite(s.pc, s.count) == {} {
      assert |InWrite(s.pc, s.count)| == 0;
      NobodyOnWrite(s);
    } else {
      var x :| x in InWrite(s.pc, s.count) && x !in s.write.asleep;
      if x < |s.pc| {
        TakerIsAwake(s, x);
      } else {
        SomeoneInside(s);
      }
    }
  }

  /** With nobody on write_sem, either thread 0 is awake or the owner of read_sem. */
  lemma NobodyOnWrite(s: State)
    requires Pair(s) && s.write.asleep == []
    ensures exists t :: 0 <= t < |s.pc| && Awake(s, t)
  {
    assert AtDown(s, 0);
    if !Awake(s, 0) {
      assert 0 in InRead(s.pc);
      var u :| u in InRead(s.pc) && u !in s.read.asleep;
      assert Awake(s, u);
    }
  }

  /** A thread that has taken write_sem and does not sleep on it is awake. */
  lemma TakerIsAwake(s: State, x: nat)
    requires Pair(s) && x in Takers(s.pc, s.count) && x !in s.write.asleep
    ensures Awake(s, x)
  {
    assert AtDown(s, x);
  }

  /** While the group holds write_sem it has a reader, or he waits for read_sem, whose owner is awake. */
  lemma SomeoneInside(s: State)
    requires Pair(s) && GroupHolds(s.pc, s.count)
    ensures exists t :: 0 <= t < |s.pc| && Awake(s, t)
  {
    var u := Witness(s);
    assert AtDown(s, u);
    if !Awake(s, u) {
      CountPositive(s.pc, u);
      assert u in InRead(s.pc);
      var v :| v in InRead(s.pc) && v !in s.read.asleep;
      assert AtDown(s, v) && Placed(s, v);
      assert Awake(s, v);
    }
  }

  /** `after` has the sleepers of `before`, except that `t` may be new if it is at a down. */
  predicate NewAtDown(before: seq<nat>, after: seq<nat>, t: nat, down: bool) {
    forall u :: u in after ==> u in before || (u == t && down)
  }

  lemma PairReadDown(s: State, t: nat, p: PC, at: nat)
    requires Pair(s) && Awake(s, t) && !HoldsRead(s.pc[t]) && (p == Entering || p == Leaving)
    ensures var r := After(s.read, t, -1, at);
            !Stuck(r, InRead(s.pc[t := p])) && NewAtDown(s.read.asleep, r.asleep, t, true)
  {
    InReadUpdate(s.pc, t, p);
    InReadBound(s.pc, t);
    hide Inv, InRead, After, HoldsRead, Lock;
    PairLocks(s);
    Down(s.read, InRead(s.pc), t, at);
    DownKeeps(s.read, InRead(s.pc), t, at);
  }

  lemma PairLocks(s: State)
    requires Inv(s)
    ensures Lock(s.read, InRead(s.pc)) && Lock(s.write, InWrite(s.pc, s.count)) && |s.pc| <= LIMIT
    ensures |s.pc| !in s.read.asleep && |s.pc| !in s.write.asleep
  {
  }

  lemma PairReadUp(s: State, t: nat, p: PC, at: nat)
    requires Pair(s) && Awake(s, t) && HoldsRead(s.pc[t]) && !HoldsRead(p)
    ensures var r := After(s.read, t, 1, at); !Stuck(r, InRead(s.pc[t := p])) && r.asleep == []
  {
    InReadUpdate(s.pc, t, p);
    BelowSize(InRead(s.pc), |s.pc|);
    assert t in InRead(s.pc);
    hide Inv, InRead, After, HoldsRead, Lock;
    PairLocks(s);
    UpSticksIff(s.read, InRead(s.pc), t, t, at);
  }

  lemma PairReadSame(s: State, t: nat, p: PC)
    requires Pair(s) && t < |s.pc| && (HoldsRead(s.pc[t]) <==> HoldsRead(p))
    ensures !Stuck(s.read, InRead(s.pc[t := p]))
  {
    InReadUpdate(s.pc, t, p);
    assert InRead(s.pc[t := p]) == InRead(s.pc);
  }

  lemma PairReads(s: State, t: nat, reading: bool, at: nat, s': State)
    requires Pair(s) && Awake(s, t) && s' == Next(s, t, reading, at) && t < |s'.pc|
    ensures !ReadStuck(s') && NewAtDown(s.read.asleep, s'.read.asleep, t, s'.pc[t] == Entering || s'.pc[t] == Leaving)
  {
    hide Pair, Inv, InRead, After, InWrite, Stuck;
    if s.pc[t] == Reading || (s.pc[t] == Idle && reading) {
      PairReadDown(s, t, s'.pc[t], at);
    } else if s.pc[t] == Counted || s.pc[t] == Closing {
      PairReadUp(s, t, s'.pc[t], at);
    } else {
      PairReadSame(s, t, s'.pc[t]);
    }
  }

  lemma PairWriteDown(s: State, t: nat, p: PC, at: nat)
    requires Pair(s) && Awake(s, t) && ((s.pc[t] == Idle && p == Writing) || (s.pc[t] == First && p == Counting))
    ensures var w := After(s.write, t, -1, at);
            !Stuck(w, InWrite(s.pc[t := p], s.count)) && NewAtDown(s.write.asleep, w.asleep, t, true)
  {
    if s.pc[t] == First {
      AloneInside(s, t);
    }
    StartsWriting(s, t, p);
    hide Inv, InWrite, After, Lock;
    Down(s.write, InWrite(s.pc, s.count), t, at);
    DownKeeps(s.write, InWrite(s.pc, s.count), t, at);
  }

  lemma PairWriteUp(s: State, t: nat, at: nat)
    requires Pair(s) && Awake(s, t) && s.pc[t] == Writing
    ensures var w := After(s.write, t, 1, at); !Stuck(w, InWrite(s.pc[t := Idle], s.count)) && w.asleep == []
  {
    InWriteBound(s, t);
    WriterStops(s.pc, s.count, t);
    assert t in InWrite(s.pc, s.count);
    hide Inv, InWrite, After, Lock;
    PairLocks(s);
    UpSticksIff(s.write, InWrite(s.pc, s.count), t, t, at);
  }

  lemma PairGroupUp(s: State, t: nat, at: nat)
    requires Pair(s) && Awake(s, t) && s.pc[t] == Last
    ensures var w := After(s.write, t, 1, at); !Stuck(w, InWrite(s.pc[t := Closing], s.count)) && w.asleep == []
  {
    assert Placed(s, t);
    AloneInside(s, t);
    InWriteBound(s, t);
    GroupStops(s.pc, t);
    assert t !in InWrite(s.pc, s.count);
    hide Inv, InWrite, After, Lock;
    PairLocks(s);
    UpSticksIff(s.write, InWrite(s.pc, s.count), |s.pc|, t, at);
  }

  /** Counting hands write_sem to the group. */
  lemma PairCounts(s: State, t: nat)
    requires Pair(s) && Awake(s, t) && s.pc[t] == Counting
    ensures !Stuck(s.write, InWrite(s.pc[t := Counted], s.count + 1))
  {
    AloneInside(s, t);
    ReaderCounts(s.pc, s.count, t);
    PairLocks(s);
    assert s.count == 0 ==> |s.pc| in InWrite(s.pc[t := Counted], s.count + 1);
  }

  lemma PairLeaves(s: State, t: nat)
    requires Pair(s) && Awake(s, t) && s.pc[t] == Leaving
    ensures !Stuck(s.write, InWrite(s.pc[t := Testing], s.count - 1))
  {
    AloneInside(s, t);
    CountPositive(s.pc, t);
    ReaderUncounts(s.pc, s.count, t);
  }

  lemma PairTests(s: State, t: nat)
    requires Pair(s) && Awake(s, t) && s.pc[t] == Testing
    ensures !Stuck(s.write, InWrite(s.pc[t := if s.count == 0 then Last else Closing], s.count))
  {
    AloneInside(s, t);
    ReaderTests(s.pc, s.count, t);
  }

  lemma PairWrites(s: State, t: nat, reading: bool, at: nat, s': State)
    requires Pair(s) && Awake(s, t) && s' == Next(s, t, reading, at) && t < |s'.pc|
    ensures !WriteStuck(s')
    ensures NewAtDown(s.write.asleep, s'.write.asleep, t, s'.pc[t] == Writing || s'.pc[t] == Counting)
  {
    hide Pair, Inv, InRead, After, InWrite, Stuck;
    if s.pc[t] in {First, Writing, Last} || (s.pc[t] == Idle && !reading) {
      PairWriteOps(s, t, reading, at, s');
    } else {
      PairHands(s, t, reading, at, s');
    }
  }

  lemma PairWriteOps(s: State, t: nat, reading: bool, at: nat, s': State)
    requires Pair(s) && Awake(s, t) && s' == Next(s, t, reading, at) && t < |s'.pc|
    requires s.pc[t] in {First, Writing, Last} || (s.pc[t] == Idle && !reading)
    ensures !WriteStuck(s')
    ensures NewAtDown(s.write.asleep, s'.write.asleep, t, s'.pc[t] == Writing || s'.pc[t] == Counting)
  {
    hide Pair, Inv, InRead, After, InWrite, Stuck;
    match s.pc[t]
    case First => PairWriteDown(s, t, Counting, at);
    case Idle => PairWriteDown(s, t, Writing, at);
    case Writing => PairWriteUp(s, t, at);
    case Last => PairGroupUp(s, t, at);
  }

  /** The steps that leave write_sem alone. */
  lemma PairHands(s: State, t: nat, reading: bool, at: nat, s': State)
    requires Pair(s) && Awake(s, t) && s' == Next(s, t, reading, at)
    requires s.pc[t] !in {First, Writing, Last} && (s.pc[t] == Idle ==> reading)
    ensures !WriteStuck(s') && s'.write == s.write
  {
    hide Inv, InRead, After, InWrite, Stuck;
    if s.pc[t] == Counting {
      assert s'.pc == s.pc[t := Counted] && s'.count == s.count + 1;
      PairCounts(s, t);
    } else if s.pc[t] == Leaving {
      assert s'.pc == s.pc[t := Testing] && s'.count == s.count - 1;
      PairLeaves(s, t);
    } else if s.pc[t] == Testing {
      assert s'.pc == s.pc[t := if s.count == 0 then Last else Closing] && s'.count == s.count;
      PairTests(s, t);
    } else {
      CountNotNegative(s);
      NeutralShape(s, t, reading, at);
      PairNeutral(s, t, s'.pc[t]);
    }
  }

  lemma CountNotNegative(s: State)
    requires Inv(s)
    ensures s.count >= 0
  {
    assert s.count == |CountedThreads(s.pc)|;
  }

  lemma NeutralShape(s: State, t: nat, reading: bool, at: nat)
    requires Awake(s, t) && Neutral(s.pc[t]) && s.pc[t] !in {First, Leaving} && (s.pc[t] == Idle ==> reading)
    requires s.count >= 0
    ensures var s' := Next(s, t, reading, at);
            && |s'.pc| == |s.pc| && s'.pc == s.pc[t := s'.pc[t]] && s'.count == s.count && s'.write == s.write
            && (Neutral(s'.pc[t]) || (s'.pc[t] == Counting && s.count > 0))
  {
    hide After;
  }

  lemma PairNeutral(s: State, t: nat, p: PC)
    requires Pair(s) && t < |s.pc| && Neutral(s.pc[t]) && (Neutral(p) || (p == Counting && s.count > 0))
    ensures !Stuck(s.write, InWrite(s.pc[t := p], s.count))
  {
    NeutralStep(s.pc, s.count, t, p);
  }

  lemma PairPlaces(s: State, t: nat, reading: bool, at: nat, s': State, u: nat)
    requires u < |s.pc| && AtDown(s, u) && Awake(s, t) && s' == Next(s, t, reading, at) && |s'.pc| == |s.pc|
    requires NewAtDown(s.read.asleep, s'.read.asleep, t, s'.pc[t] == Entering || s'.pc[t] == Leaving)
    requires NewAtDown(s.write.asleep, s'.write.asleep, t, s'.pc[t] == Writing || s'.pc[t] == Counting)
    ensures AtDown(s', u)
  {
  }

  lemma SamePeople(s: State, t: nat, reading: bool, at: nat)
    requires Awake(s, t)
    ensures |Next(s, t, reading, at).pc| == |s.pc|
  {
    hide After;
  }

  lemma PairStep(s: State, t: nat, reading: bool, at: nat)
    requires Pair(s) && Awake(s, t)
    ensures Pair(Next(s, t, reading, at))
  {
    var s' := Next(s, t, reading, at);
    StepKeepsInv(s, t, reading, at);
    SamePeople(s, t, reading, at);
    hide Inv, ReadStuck, WriteStuck, AtDown, NewAtDown, After, Next, Awake;
    PairReads(s, t, reading, at, s');
    PairWrites(s, t, reading, at, s');
    forall u | 0 <= u < |s'.pc|
      ensures AtDown(s', u)
    {
      PairPlaces(s, t, reading, at, s', u);
    }
  }

  lemma {:induction false} PairRun(s: State, steps: seq<Step>)
    requires Pair(s) && IsRun(s, steps)
    ensures Alive(End(s, steps))
    decreases |steps|
  {
    if steps == [] {
      PairIsAlive(s);
    } else {
      PairStep(s, steps[0].thread, steps[0].reading, steps[0].at);
      PairRun(Next(s, steps[0].thread, steps[0].reading, steps[0].at), steps[1..]);
    }
  }

  lemma PairStarts(threads: nat)
    requires 1 <= threads <= 2
    ensures Pair(Initial(threads))
  {
    InitialInv(threads);
    var s := Initial(threads);
    assert InRead(s.pc) == {} && InWrite(s.pc, s.count) == {};
  }

  // ---------------------------------------------------------------- three threads

  lemma OneStep(s: State, step: Step, rest: seq<Step>) returns (steps: seq<Step>)
    requires Awake(s, step.thread)
    requires IsRun(Next(s, step.thread, step.reading, step.at), rest)
    ensures IsRun(s, steps) && End(s, steps) == End(Next(s, step.thread, step.reading, step.at), rest)
  {
    steps := [step] + rest;
    assert steps[1..] == rest;
  }

  /** The first of three writers goes to sleep when it finishes. */
  lemma FirstFinishes(threads: nat)
    requires threads >= 3
    ensures Awake(Queue(threads, 3), 0) && WriteStuck(Next(Queue(threads, 3), 0, false, 0))
  {
    var s := Queue(threads, 3);
    var s' := Next(s, 0, false, 0);
    assert s.write.asleep == [1, 2];
    assert s'.write.asleep == [0, 1, 2];
    assert s'.pc[1] == Writing && 1 in InWrite(s'.pc, 0);
    assert !GroupHolds(s'.pc, 0);
  }

  /** Three writers get stuck: two start while the first one copies. */
  lemma ThreeWritersDeadlock(threads: nat) returns (steps: seq<Step>)
    requires threads >= 3
    ensures IsRun(Initial(threads), steps) && WriteStuck(End(Initial(threads), steps))
  {
    FirstFinishes(threads);
    var last := OneStep(Queue(threads, 3), Step(0, false, 0), []);
    QueueGrows(threads, 2);
    var third := OneStep(Queue(threads, 2), Step(2, false, 2), last);
    QueueGrows(threads, 1);
    var second := OneStep(Queue(threads, 1), Step(1, false, 1), third);
    FirstWriter(threads);
    steps := OneStep(Initial(threads), Step(0, false, 0), second);
  }

  /** Threads 0, 1 and 2 at the given places, the others idle. */
  function Three(threads: nat, a: PC, b: PC, c: PC): seq<PC>
    requires threads >= 3
  {
    seq(threads, i => if i == 0 then a else if i == 1 then b else if i == 2 then c else Idle)
  }

  lemma ThreeFirst(threads: nat, a: PC, b: PC, c: PC, p: PC)
    requires threads >= 3
    ensures Three(threads, a, b, c)[0 := p] == Three(threads, p, b, c)
  {
  }

  lemma ThreeSecond(threads: nat, a: PC, b: PC, c: PC, p: PC)
    requires threads >= 3
    ensures Three(threads, a, b, c)[1 := p] == Three(threads, a, p, c)
  {
  }

  lemma ThreeThird(threads: nat, a: PC, b: PC, c: PC, p: PC)
    requires threads >= 3
    ensures Three(threads, a, b, c)[2 := p] == Three(threads, a, b, p)
  {
  }

  /** Three readers get stuck, with no writer: two want to enter while the first one holds read_sem to
      count itself. If there are only these three, nobody is awake any more. */
  lemma ThreeReadersDeadlock(threads: nat) returns (steps: seq<Step>)
    requires threads >= 3
    ensures IsRun(Initial(threads), steps) && ReadStuck(End(Initial(threads), steps))
    ensures threads == 3 ==> forall t: nat :: !Awake(End(Initial(threads), steps), t)
  {
    var taken, free := Semaphore(0, []), Semaphore(1, []);
    var s0 := Initial(threads);
    assert s0.pc == Three(threads, Idle, Idle, Idle);
    ThreeFirst(threads, Idle, Idle, Idle, Entering);
    var s1 := State(Three(threads, Entering, Idle, Idle), taken, free, 0);
    ThreeFirst(threads, Entering, Idle, Idle, First);
    var s2 := State(Three(threads, First, Idle, Idle), taken, free, 0);
    ThreeFirst(threads, First, Idle, Idle, Counting);
    var s3 := State(Three(threads, Counting, Idle, Idle), taken, taken, 0);
    ThreeFirst(threads, Counting, Idle, Idle, Counted);
    var s4 := State(Three(threads, Counted, Idle, Idle), taken, taken, 1);
    var late := ReadersWait(threads, s4);
    var r3 := OneStep(s3, Step(0, true, 0), late);
    var r2 := OneStep(s2, Step(0, true, 0), r3);
    var r1 := OneStep(s1, Step(0, true, 0), r2);
    steps := OneStep(s0, Step(0, true, 0), r1);
  }

  lemma ReadersWait(threads: nat, s4: State) returns (steps: seq<Step>)
    requires threads >= 3 && s4 == State(Three(threads, Counted, Idle, Idle), Semaphore(0, []), Semaphore(0, []), 1)
    ensures IsRun(s4, steps) && ReadStuck(End(s4, steps))
    ensures threads == 3 ==> forall t: nat :: !Awake(End(s4, steps), t)
  {
    ThreeSecond(threads, Counted, Idle, Idle, Entering);
    var s5 := State(Three(threads, Counted, Entering, Idle), Semaphore(-1, [1]), Semaphore(0, []), 1);
    ThreeThird(threads, Counted, Entering, Idle, Entering);
    var s6 := State(Three(threads, Counted, Entering, Entering), Semaphore(-2, [1, 2]), Semaphore(0, []), 1);
    assert Next(s4, 1, true, 0) == s5;
    assert Next(s5, 2, true, 1) == s6;
    var r6 := FirstReaderSleeps(threads, s6);
    hide IsRun, End, Three, ReadStuck;
    var r5 := OneStep(s5, Step(2, true, 1), r6);
    steps := OneStep(s4, Step(1, true, 0), r5);
  }

  lemma FirstReaderSleeps(threads: nat, s6: State) returns (steps: seq<Step>)
    requires threads >= 3
    requires s6 == State(Three(threads, Counted, Entering, Entering), Semaphore(-2, [1, 2]), Semaphore(0, []), 1)
    ensures IsRun(s6, steps) && ReadStuck(End(s6, steps))
    ensures threads == 3 ==> forall t: nat :: !Awake(End(s6, steps), t)
  {
    ThreeFirst(threads, Counted, Entering, Entering, Reading);
    var s7 := State(Three(threads, Reading, Entering, Entering), Semaphore(-1, [1, 2, 0]), Semaphore(0, []), 1);
    assert Next(s6, 0, true, 2) == s7;
    assert InRead(s7.pc) == {1, 2};
    assert IsRun(s7, []) && End(s7, []) == s7;
    steps := OneStep(s6, Step(0, true, 2), []);
  }

  /** Exactly with one or two threads no run gets stuck: always somebody is awake, and no semaphore has
      all its owners asleep on it. */
  lemma NeverStuckIff(threads: nat)
    requires threads >= 1
    ensures NeverStuck(threads) <==> threads <= 2
  {
    if threads <= 2 {
      forall steps | IsRun(Initial(threads), steps)
        ensures Alive(End(Initial(threads), steps))
      {
        PairStarts(threads);
        PairRun(Initial(threads), steps);
      }
    } else {
      var steps := ThreeWritersDeadlock(threads);
    }
  }
}
