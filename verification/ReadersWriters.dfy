/** The readers and writers of src/usr/hlib/hlib_vfs.c over the kernel's semop: any number of threads
    that share one descriptor, interleaved step by step. */
module ReadersWriters {
  import opened Basics
  import opened Semaphore

  // ---------------------------------------------------------------- one semaphore used as a lock

  /** semop with one operation on semaphore `s`, by a thread that is awake. */
  function Op(s: Semaphore, tid: nat, op: int, at: nat): Outcome {
    Apply(Group([s], Elements(s.asleep)), tid, Operation(0, op), at)
  }

  function After(s: Semaphore, tid: nat, op: int, at: nat): Semaphore {
    Op(s, tid, op, at).group.sems[0]
  }

  /** The largest number of holders and waiters that the 16-bit value can count. */
  const LIMIT := 0x8001

  /** `owing` have done their down and not their up. Those of them that are awake hold the lock: at most
      one does, nobody sleeps without reason, and while somebody holds it every sleeper waits for it. */
  ghost predicate Lock(s: Semaphore, owing: set<nat>) {
    && s.value == 1 - |owing| && Distinct(s.asleep)
    && (forall t, u :: t in owing && u in owing && t !in s.asleep && u !in s.asleep ==> t == u)
    && (|owing| <= 1 ==> s.asleep == [])
    && (forall t, u :: t in owing && t !in s.asleep && u in s.asleep ==> u in owing)
  }

  lemma InsertedIn(s: seq<nat>, at: nat, v: nat)
    ensures forall u :: u in Inserted(s, at, v) <==> u == v || u in s
    ensures Distinct(s) && v !in s ==> Distinct(Inserted(s, at, v))
  {
    assert at <= |s| ==> s == s[..at] + s[at..];
  }

  /** A down: the caller sleeps exactly if somebody else owes an up. */
  lemma Down(s: Semaphore, owing: set<nat>, t: nat, at: nat)
    requires Lock(s, owing) && t !in owing && t !in s.asleep && |owing| < LIMIT
    ensures Lock(After(s, t, -1, at), owing + {t})
    ensures forall u :: u in After(s, t, -1, at).asleep <==> u in s.asleep || (u == t && owing != {})
  {
    assert |owing + {t}| == |owing| + 1;
    InsertedIn(s.asleep, at, t);
  }

  /** An up by thread `t` for `k` (itself, or the readers as a group): with two or more others waiting the
      caller is put to sleep and nobody is woken; otherwise all sleepers are woken. */
  lemma Up(s: Semaphore, owing: set<nat>, k: nat, t: nat, at: nat)
    requires Lock(s, owing) && k in owing && k !in s.asleep && t !in s.asleep && (t in owing ==> t == k)
    requires |owing| <= LIMIT
    ensures Lock(After(s, t, 1, at), owing - {k})
    ensures if |owing| >= 3 then forall u :: u in After(s, t, 1, at).asleep <==> u in s.asleep || u == t
            else After(s, t, 1, at).asleep == []
  {
    if |owing| >= 3 {
      UpSleeps(s, owing, k, t, at);
    } else {
      UpWakes(s, owing, k, t, at);
    }
  }

  lemma UpSleeps(s: Semaphore, owing: set<nat>, k: nat, t: nat, at: nat)
    requires Lock(s, owing) && k in owing && k !in s.asleep && t !in s.asleep && (t in owing ==> t == k)
    requires 3 <= |owing| <= LIMIT
    ensures Lock(After(s, t, 1, at), owing - {k})
    ensures forall u :: u in After(s, t, 1, at).asleep <==> u in s.asleep || u == t
  {
    assert |owing - {k}| == |owing| - 1;
    InsertedIn(s.asleep, at, t);
  }

  lemma UpWakes(s: Semaphore, owing: set<nat>, k: nat, t: nat, at: nat)
    requires Lock(s, owing) && k in owing && k !in s.asleep && |owing| <= 2
    ensures Lock(After(s, t, 1, at), owing - {k})
    ensures After(s, t, 1, at).asleep == []
  {
    assert |owing - {k}| == |owing| - 1;
    FewSleepers(s, owing, k);
    OneLeft(owing, k);
  }

  lemma OneLeft(owing: set<nat>, k: nat)
    requires k in owing && |owing| <= 2
    ensures forall u, v :: u in owing - {k} && v in owing - {k} ==> u == v
  {
    forall u, v | u in owing - {k} && v in owing - {k}
      ensures u == v
    {
      if u != v {
        TwoWaiters(owing, k, u, v);
      }
    }
  }

  lemma FewSleepers(s: Semaphore, owing: set<nat>, k: nat)
    requires Lock(s, owing) && k in owing && k !in s.asleep
    ensures |s.asleep| >= 2 ==> |owing| >= 3
  {
    if |s.asleep| >= 2 {
      TwoWaiters(owing, k, s.asleep[0], s.asleep[1]);
    }
  }

  lemma TwoWaiters(owing: set<nat>, k: nat, t: nat, u: nat)
    requires k in owing && t in owing && u in owing && k != t && k != u && t != u
    ensures |owing| >= 3
  {
    SubsetSize({k, t, u}, owing);
  }

  // ---------------------------------------------------------------- the protocol

  /** What a thread does next. */
  datatype PC =
    | Idle      // nothing: it may start to read (or seek), or to write
    | Entering  // hlib_read: is read_count 0?
    | First     //            write_sem->down
    | Counting  //            read_count++
    | Counted   //            read_sem->up
    | Reading   // in the read section, then read_sem->down
    | Leaving   //            read_count--
    | Testing   //            is read_count 0?
    | Last      //            write_sem->up
    | Closing   //            read_sem->up
    | Writing   // hlib_write: copying, then write_sem->up

  /** The threads, the two semaphores and read_count of one file. */
  datatype State = State(pc: seq<PC>, read: Semaphore, write: Semaphore, count: int)

  predicate Awake(s: State, t: nat) {
    t < |s.pc| && t !in s.read.asleep && t !in s.write.asleep
  }

  /** The next step of thread `t`, which is awake; `at` is where it is put if it goes to sleep, and
      `reading` is what it starts if it is idle. */
  function Next(s: State, t: nat, reading: bool, at: nat): State
    requires Awake(s, t)
  {
    match s.pc[t]
    case Idle =>
      if reading then s.(pc := s.pc[t := Entering], read := After(s.read, t, -1, at))
      else s.(pc := s.pc[t := Writing], write := After(s.write, t, -1, at))
    case Entering => s.(pc := s.pc[t := if s.count == 0 then First else Counting])
    case First => s.(pc := s.pc[t := Counting], write := After(s.write, t, -1, at))
    case Counting => s.(pc := s.pc[t := Counted], count := s.count + 1)
    case Counted => s.(pc := s.pc[t := Reading], read := After(s.read, t, 1, at))
    case Reading => s.(pc := s.pc[t := Leaving], read := After(s.read, t, -1, at))
    case Leaving => s.(pc := s.pc[t := Testing], count := s.count - 1)
    case Testing => s.(pc := s.pc[t := if s.count == 0 then Last else Closing])
    case Last => s.(pc := s.pc[t := Closing], write := After(s.write, t, 1, at))
    case Closing => s.(pc := s.pc[t := Idle], read := After(s.read, t, 1, at))
    case Writing => s.(pc := s.pc[t := Idle], write := After(s.write, t, 1, at))
  }

  function Initial(threads: nat): State {
    State(seq(threads, _ => Idle), Semaphore(1, []), Semaphore(1, []), 0)
  }

  // ---------------------------------------------------------------- the invariant

  predicate HoldsRead(pc: PC) {
    pc in {Entering, First, Counting, Counted, Leaving, Testing, Last, Closing}
  }

  predicate IsCounted(pc: PC) {
    pc == Counted || pc == Reading || pc == Leaving
  }

  function InRead(pc: seq<PC>): set<nat> {
    set t | 0 <= t < |pc| && HoldsRead(pc[t])
  }

  function CountedThreads(pc: seq<PC>): set<nat> {
    set t | 0 <= t < |pc| && IsCounted(pc[t])
  }

  /** The writers, the reader that just took write_sem for all readers, and the readers as a group
      (numbered |pc|) while it is theirs. */
  function InWrite(pc: seq<PC>, count: int): set<nat> {
    Takers(pc, count) + if GroupHolds(pc, count) then {|pc|} else {}
  }

  function Takers(pc: seq<PC>, count: int): set<nat> {
    set t | 0 <= t < |pc| && (pc[t] == Writing || (pc[t] == Counting && count == 0))
  }

  predicate GroupHolds(pc: seq<PC>, count: int) {
    count > 0 || exists t :: 0 <= t < |pc| && (pc[t] == Testing || pc[t] == Last)
  }

  /** Where a thread can be asleep, and what it knows about read_count. */
  predicate Placed(s: State, t: nat)
    requires t < |s.pc|
  {
    && (t in s.read.asleep ==> s.pc[t] in {Entering, Leaving, Reading, Idle} && t !in s.write.asleep)
    && (t in s.write.asleep ==> s.pc[t] in {Writing, Counting, Closing, Idle})
    && (s.pc[t] == First || s.pc[t] == Last ==> s.count == 0)
    && (s.pc[t] == Counting && t in s.write.asleep ==> s.count == 0)
  }

  ghost predicate Inv(s: State) {
    && |s.pc| <= LIMIT
    && Lock(s.read, InRead(s.pc))
    && Lock(s.write, InWrite(s.pc, s.count))
    && s.count == |CountedThreads(s.pc)|
    && (forall t :: t in s.read.asleep || t in s.write.asleep ==> t < |s.pc|)
    && (forall t {:trigger Placed(s, t)} :: 0 <= t < |s.pc| ==> Placed(s, t))
  }

  predicate Copies(s: State, t: nat)
    requires t < |s.pc|
  {
    s.pc[t] == Writing && Awake(s, t)
  }

  /** The safety property: a writer copies alone. */
  ghost predicate Exclusive(s: State) {
    forall t, u :: 0 <= t < |s.pc| && 0 <= u < |s.pc| && t != u && Copies(s, t) ==>
      !Copies(s, u) && !(s.pc[u] == Reading && Awake(s, u))
  }

  lemma InvIsExclusive(s: State)
    requires Inv(s)
    ensures Exclusive(s)
  {
    forall t, u | 0 <= t < |s.pc| && 0 <= u < |s.pc| && t != u && Copies(s, t)
      ensures !Copies(s, u) && s.pc[u] != Reading
    {
      CopiesAlone(s, t, u);
    }
  }

  lemma CopiesAlone(s: State, t: nat, u: nat)
    requires Inv(s) && t < |s.pc| && u < |s.pc| && t != u && Copies(s, t)
    ensures !Copies(s, u) && s.pc[u] != Reading
  {
    if s.pc[u] == Reading {
      ReaderHolds(s, u);
    }
    assert t in InWrite(s.pc, s.count) && (s.pc[u] == Writing ==> u in InWrite(s.pc, s.count));
  }

  lemma ReaderHolds(s: State, u: nat)
    requires Inv(s) && u < |s.pc| && s.pc[u] == Reading
    ensures |s.pc| in InWrite(s.pc, s.count) && |s.pc| !in s.write.asleep
  {
    CountPositive(s.pc, u);
  }

  lemma CountPositive(pc: seq<PC>, t: nat)
    requires t < |pc| && IsCounted(pc[t])
    ensures |CountedThreads(pc)| > 0
  {
    SubsetSize({t}, CountedThreads(pc));
  }

  // ---------------------------------------------------------------- its parts over one step

  lemma InReadUpdate(pc: seq<PC>, t: nat, p: PC)
    requires t < |pc|
    ensures InRead(pc[t := p]) == if HoldsRead(p) then InRead(pc) + {t} else InRead(pc) - {t}
  {
  }

  lemma CountedUpdate(pc: seq<PC>, t: nat, p: PC)
    requires t < |pc|
    ensures CountedThreads(pc[t := p]) == if IsCounted(p) then CountedThreads(pc) + {t} else CountedThreads(pc) - {t}
  {
  }

  lemma InReadBound(pc: seq<PC>, t: nat)
    requires t < |pc| && !HoldsRead(pc[t])
    ensures |InRead(pc)| < |pc|
  {
    BelowSize(InRead(pc) + {t}, |pc|);
  }

  lemma {:induction false} BelowSize(a: set<nat>, n: nat)
    requires forall x :: x in a ==> x < n
    ensures |a| <= n
  {
    if n == 0 {
      assert a == {};
    } else {
      BelowSize(a - {n - 1}, n - 1);
    }
  }

  lemma ReadDown(s: State, t: nat, p: PC, at: nat)
    requires Inv(s) && Awake(s, t) && !HoldsRead(s.pc[t]) && HoldsRead(p)
    ensures var r := After(s.read, t, -1, at); Lock(r, InRead(s.pc[t := p])) && OnlyAdds(s.read.asleep, r.asleep, t)
  {
    InReadUpdate(s.pc, t, p);
    InReadBound(s.pc, t);
    Down(s.read, InRead(s.pc), t, at);
  }

  lemma ReadUp(s: State, t: nat, p: PC, at: nat)
    requires Inv(s) && Awake(s, t) && HoldsRead(s.pc[t]) && !HoldsRead(p)
    ensures var r := After(s.read, t, 1, at); Lock(r, InRead(s.pc[t := p])) && OnlyAdds(s.read.asleep, r.asleep, t)
  {
    InReadUpdate(s.pc, t, p);
    BelowSize(InRead(s.pc), |s.pc|);
    Up(s.read, InRead(s.pc), t, t, at);
  }

  predicate OnlyAdds(before: seq<nat>, after: seq<nat>, t: nat) {
    forall u :: u in after ==> u in before || u == t
  }

  /** A thread that is awake in a section of read_sem is the only one that has got past its down. */
  lemma OnlyHolder(s: State, t: nat)
    requires Inv(s) && Awake(s, t) && HoldsRead(s.pc[t])
    ensures forall u :: 0 <= u < |s.pc| && u != t && HoldsRead(s.pc[u]) ==> s.pc[u] == Entering || s.pc[u] == Leaving
  {
    forall u | 0 <= u < |s.pc| && u != t && HoldsRead(s.pc[u])
      ensures s.pc[u] == Entering || s.pc[u] == Leaving
    {
      assert t in InRead(s.pc) && u in InRead(s.pc);
      assert Placed(s, u);
    }
  }

  /** Not a holder of write_sem, in any sense. */
  predicate Neutral(pc: PC) {
    pc !in {Writing, Counting, Testing, Last}
  }

  lemma NeutralStep(pc: seq<PC>, count: int, t: nat, p: PC)
    requires t < |pc| && Neutral(pc[t]) && (Neutral(p) || (p == Counting && count > 0))
    ensures InWrite(pc[t := p], count) == InWrite(pc, count)
  {
    var q := pc[t := p];
    assert forall u :: 0 <= u < |pc| && u != t ==> q[u] == pc[u];
    assert GroupHolds(q, count) <==> GroupHolds(pc, count);
  }

  lemma WriterStarts(pc: seq<PC>, count: int, t: nat, p: PC)
    requires t < |pc| && Neutral(pc[t]) && (p == Writing || (p == Counting && count == 0))
    ensures InWrite(pc[t := p], count) == InWrite(pc, count) + {t}
  {
    var q := pc[t := p];
    assert forall u :: 0 <= u < |pc| && u != t ==> q[u] == pc[u];
    assert GroupHolds(q, count) <==> GroupHolds(pc, count);
  }

  lemma WriterStops(pc: seq<PC>, count: int, t: nat)
    requires t < |pc| && pc[t] == Writing
    ensures InWrite(pc[t := Idle], count) == InWrite(pc, count) - {t}
  {
    WriterStarts(pc[t := Idle], count, t, Writing);
    assert pc[t := Idle][t := Writing] == pc;
    assert t !in InWrite(pc[t := Idle], count);
  }

  /** No thread but `t` is between its read_sem->down and read_sem->up, except at the doors. */
  ghost predicate Alone(pc: seq<PC>, t: nat) {
    forall u :: 0 <= u < |pc| && u != t ==> pc[u] !in {First, Counting, Testing, Last}
  }

  /** The first reader hands write_sem to the group; later readers change nothing. */
  lemma ReaderCounts(pc: seq<PC>, count: nat, t: nat)
    requires t < |pc| && pc[t] == Counting && Alone(pc, t)
    ensures InWrite(pc[t := Counted], count + 1)
         == if count == 0 then InWrite(pc, count) - {t} + {|pc|} else InWrite(pc, count)
    ensures count == 0 ==> t in InWrite(pc, count) && |pc| !in InWrite(pc, count)
  {
    var q := pc[t := Counted];
    assert forall u :: 0 <= u < |pc| && u != t ==> q[u] == pc[u];
  }

  lemma ReaderUncounts(pc: seq<PC>, count: nat, t: nat)
    requires t < |pc| && pc[t] == Leaving && Alone(pc, t) && count > 0
    ensures InWrite(pc[t := Testing], count - 1) == InWrite(pc, count)
  {
    var q := pc[t := Testing];
    assert forall u :: 0 <= u < |pc| && u != t ==> q[u] == pc[u];
    assert q[t] == Testing;
  }

  lemma ReaderTests(pc: seq<PC>, count: nat, t: nat)
    requires t < |pc| && pc[t] == Testing && Alone(pc, t)
    ensures InWrite(pc[t := if count == 0 then Last else Closing], count) == InWrite(pc, count)
  {
    var q := pc[t := if count == 0 then Last else Closing];
    assert forall u :: 0 <= u < |pc| && u != t ==> q[u] == pc[u];
    assert pc[t] == Testing;
    assert count == 0 ==> q[t] == Last;
  }

  lemma GroupStops(pc: seq<PC>, t: nat)
    requires t < |pc| && pc[t] == Last && Alone(pc, t)
    ensures InWrite(pc[t := Closing], 0) == InWrite(pc, 0) - {|pc|} && |pc| in InWrite(pc, 0)
  {
    var q := pc[t := Closing];
    assert forall u :: 0 <= u < |pc| && u != t ==> q[u] == pc[u];
    assert pc[t] == Last;
  }

  /** Handing the lock to another name. */
  lemma Rename(s: Semaphore, owing: set<nat>, t: nat, u: nat)
    requires Lock(s, owing) && t in owing && t !in s.asleep && u !in owing && u !in s.asleep
    ensures Lock(s, owing - {t} + {u})
  {
    assert |owing - {t} + {u}| == |owing|;
  }

  lemma InWriteBound(s: State, t: nat)
    requires Inv(s) && t < |s.pc|
    ensures |InWrite(s.pc, s.count)| <= |s.pc|
    ensures s.pc[t] == Idle || (s.pc[t] == First && !GroupHolds(s.pc, s.count)) ==> |InWrite(s.pc, s.count)| < |s.pc|
  {
    hide Lock;
    var w := Takers(s.pc, s.count);
    BelowSize(w, |s.pc|);
    if GroupHolds(s.pc, s.count) {
      var u := Witness(s);
      assert u !in w;
      assert |w + {u}| == |w| + 1;
      BelowSize(w + {u}, |s.pc|);
      RoomFor(w + {u}, t, s);
    } else {
      RoomFor(w, t, s);
    }
  }

  lemma RoomFor(w: set<nat>, t: nat, s: State)
    requires t < |s.pc| && forall u :: u in w ==> u < |s.pc|
    ensures t !in w ==> |w| < |s.pc|
  {
    if t !in w {
      assert |w + {t}| == |w| + 1;
      BelowSize(w + {t}, |s.pc|);
    }
  }

  /** While the readers hold write_sem there is a reader. */
  lemma Witness(s: State) returns (u: nat)
    requires s.count == |CountedThreads(s.pc)| && GroupHolds(s.pc, s.count)
    ensures u < |s.pc| && (IsCounted(s.pc[u]) || s.pc[u] == Testing || s.pc[u] == Last)
  {
    if s.count > 0 {
      u :| u in CountedThreads(s.pc);
    } else {
      u :| 0 <= u < |s.pc| && (s.pc[u] == Testing || s.pc[u] == Last);
    }
  }

  lemma ReadSame(s: State, t: nat, p: PC)
    requires Inv(s) && t < |s.pc| && (HoldsRead(s.pc[t]) <==> HoldsRead(p))
    ensures Lock(s.read, InRead(s.pc[t := p]))
  {
    InReadUpdate(s.pc, t, p);
    assert InRead(s.pc[t := p]) == InRead(s.pc);
  }

  lemma WriteDown(s: State, t: nat, p: PC, at: nat)
    requires Inv(s) && Awake(s, t)
    requires (s.pc[t] == Idle && p == Writing) || (s.pc[t] == First && p == Counting && Alone(s.pc, t))
    ensures var w := After(s.write, t, -1, at);
            Lock(w, InWrite(s.pc[t := p], s.count)) && OnlyAdds(s.write.asleep, w.asleep, t)
  {
    hide Inv, InWrite, After, Lock, Alone;
    StartsWriting(s, t, p);
    Down(s.write, InWrite(s.pc, s.count), t, at);
  }

  lemma StartsWriting(s: State, t: nat, p: PC)
    requires Inv(s) && Awake(s, t)
    requires (s.pc[t] == Idle && p == Writing) || (s.pc[t] == First && p == Counting && Alone(s.pc, t))
    ensures InWrite(s.pc[t := p], s.count) == InWrite(s.pc, s.count) + {t}
    ensures t !in InWrite(s.pc, s.count) && |InWrite(s.pc, s.count)| < LIMIT && Lock(s.write, InWrite(s.pc, s.count))
  {
    assert Placed(s, t);
    assert s.pc[t] == First ==> !GroupHolds(s.pc, s.count);
    hide Lock;
    InWriteBound(s, t);
    WriterStarts(s.pc, s.count, t, p);
  }

  lemma WriteUp(s: State, t: nat, at: nat)
    requires Inv(s) && Awake(s, t) && s.pc[t] == Writing
    ensures var w := After(s.write, t, 1, at);
            Lock(w, InWrite(s.pc[t := Idle], s.count)) && OnlyAdds(s.write.asleep, w.asleep, t)
  {
    WriterStops(s.pc, s.count, t);
    InWriteBound(s, t);
    Up(s.write, InWrite(s.pc, s.count), t, t, at);
  }

  lemma GroupUp(s: State, t: nat, at: nat)
    requires Inv(s) && Awake(s, t) && s.pc[t] == Last && Alone(s.pc, t)
    ensures var w := After(s.write, t, 1, at);
            Lock(w, InWrite(s.pc[t := Closing], s.count)) && OnlyAdds(s.write.asleep, w.asleep, t)
  {
    assert Placed(s, t);
    GroupStops(s.pc, t);
    InWriteBound(s, t);
    Up(s.write, InWrite(s.pc, s.count), |s.pc|, t, at);
  }

  lemma WriteSame(s: State, t: nat, p: PC)
    requires Inv(s) && t < |s.pc| && Neutral(s.pc[t]) && (Neutral(p) || (p == Counting && s.count > 0))
    ensures Lock(s.write, InWrite(s.pc[t := p], s.count))
  {
    NeutralStep(s.pc, s.count, t, p);
  }

  lemma GroupCounts(s: State, t: nat)
    requires Inv(s) && Awake(s, t) && s.pc[t] == Counting && Alone(s.pc, t)
    ensures Lock(s.write, InWrite(s.pc[t := Counted], s.count + 1))
  {
    ReaderCounts(s.pc, s.count, t);
    if s.count == 0 {
      Rename(s.write, InWrite(s.pc, s.count), t, |s.pc|);
    }
  }

  lemma SizeChange(a: set<nat>, t: nat)
    ensures |a + {t}| == |a| + if t in a then 0 else 1
    ensures |a - {t}| == |a| - if t in a then 1 else 0
  {
    if t in a {
      assert a + {t} == a;
    } else {
      assert a - {t} == a;
    }
  }

  lemma CountChange(s: State, t: nat, p: PC)
    requires Inv(s) && t < |s.pc|
    ensures |CountedThreads(s.pc[t := p])|
         == s.count + (if IsCounted(p) then 1 else 0) - (if IsCounted(s.pc[t]) then 1 else 0)
  {
    CountedUpdate(s.pc, t, p);
    assert IsCounted(s.pc[t]) <==> t in CountedThreads(s.pc);
    assert s.count == |CountedThreads(s.pc)|;
    hide Inv, CountedThreads, Lock, InRead, InWrite;
    SizeChange(CountedThreads(s.pc), t);
  }

  lemma AloneInside(s: State, t: nat)
    requires Inv(s) && Awake(s, t) && HoldsRead(s.pc[t])
    ensures Alone(s.pc, t)
  {
    OnlyHolder(s, t);
  }

  // ---------------------------------------------------------------- one step

  /** What is to be shown for a step of thread `t` to `p` with the new values of the other variables. */
  lemma Collect(s: State, t: nat, p: PC, r: Semaphore, w: Semaphore, count: int)
    requires Inv(s) && t < |s.pc|
    requires Lock(r, InRead(s.pc[t := p])) && Lock(w, InWrite(s.pc[t := p], count))
    requires count == |CountedThreads(s.pc[t := p])| && (count == s.count || Alone(s.pc, t))
    requires OnlyAdds(s.read.asleep, r.asleep, t) && OnlyAdds(s.write.asleep, w.asleep, t)
    requires Placed(State(s.pc[t := p], r, w, count), t)
    ensures Inv(State(s.pc[t := p], r, w, count))
  {
    hide Lock, InRead, InWrite, CountedThreads;
    var s' := State(s.pc[t := p], r, w, count);
    forall u | 0 <= u < |s'.pc|
      ensures Placed(s', u)
    {
      assert Placed(s, u);
    }
  }

  lemma StartToRead(s: State, t: nat, at: nat)
    requires Inv(s) && Awake(s, t) && s.pc[t] == Idle
    ensures Inv(Next(s, t, true, at))
  {
    hide Lock, InRead, InWrite, CountedThreads, After;
    ReadDown(s, t, Entering, at);
    WriteSame(s, t, Entering);
    CountChange(s, t, Entering);
    Collect(s, t, Entering, After(s.read, t, -1, at), s.write, s.count);
  }

  lemma StartToWrite(s: State, t: nat, at: nat)
    requires Inv(s) && Awake(s, t) && s.pc[t] == Idle
    ensures Inv(Next(s, t, false, at))
  {
    hide Lock, InRead, InWrite, CountedThreads, After;
    ReadSame(s, t, Writing);
    WriteDown(s, t, Writing, at);
    CountChange(s, t, Writing);
    Collect(s, t, Writing, s.read, After(s.write, t, -1, at), s.count);
  }

  lemma StepEntering(s: State, t: nat, at: nat)
    requires Inv(s) && Awake(s, t) && s.pc[t] == Entering
    ensures Inv(Next(s, t, true, at))
  {
    hide Lock, InRead, InWrite, CountedThreads, After;
    var p := if s.count == 0 then First else Counting;
    ReadSame(s, t, p);
    WriteSame(s, t, p);
    CountChange(s, t, p);
    Collect(s, t, p, s.read, s.write, s.count);
  }

  lemma StepFirst(s: State, t: nat, at: nat)
    requires Inv(s) && Awake(s, t) && s.pc[t] == First
    ensures Inv(Next(s, t, true, at))
  {
    hide Lock, InRead, InWrite, CountedThreads, After;
    assert Placed(s, t);
    AloneInside(s, t);
    ReadSame(s, t, Counting);
    WriteDown(s, t, Counting, at);
    CountChange(s, t, Counting);
    Collect(s, t, Counting, s.read, After(s.write, t, -1, at), s.count);
  }

  lemma StepCounting(s: State, t: nat, at: nat)
    requires Inv(s) && Awake(s, t) && s.pc[t] == Counting
    ensures Inv(Next(s, t, true, at))
  {
    hide Lock, InRead, InWrite, CountedThreads, After;
    AloneInside(s, t);
    ReadSame(s, t, Counted);
    GroupCounts(s, t);
    CountChange(s, t, Counted);
    Collect(s, t, Counted, s.read, s.write, s.count + 1);
  }

  lemma StepCounted(s: State, t: nat, at: nat)
    requires Inv(s) && Awake(s, t) && s.pc[t] == Counted
    ensures Inv(Next(s, t, true, at))
  {
    hide Lock, InRead, InWrite, CountedThreads, After;
    ReadUp(s, t, Reading, at);
    WriteSame(s, t, Reading);
    CountChange(s, t, Reading);
    Collect(s, t, Reading, After(s.read, t, 1, at), s.write, s.count);
  }

  lemma StepReading(s: State, t: nat, at: nat)
    requires Inv(s) && Awake(s, t) && s.pc[t] == Reading
    ensures Inv(Next(s, t, true, at))
  {
    hide Lock, InRead, InWrite, CountedThreads, After;
    ReadDown(s, t, Leaving, at);
    WriteSame(s, t, Leaving);
    CountChange(s, t, Leaving);
    Collect(s, t, Leaving, After(s.read, t, -1, at), s.write, s.count);
  }

  lemma StepLeaving(s: State, t: nat, at: nat)
    requires Inv(s) && Awake(s, t) && s.pc[t] == Leaving
    ensures Inv(Next(s, t, true, at))
  {
    hide Lock, InRead, InWrite, CountedThreads, After;
    AloneInside(s, t);
    CountPositive(s.pc, t);
    ReadSame(s, t, Testing);
    ReaderUncounts(s.pc, s.count, t);
    CountChange(s, t, Testing);
    Collect(s, t, Testing, s.read, s.write, s.count - 1);
  }

  lemma StepTesting(s: State, t: nat, at: nat)
    requires Inv(s) && Awake(s, t) && s.pc[t] == Testing
    ensures Inv(Next(s, t, true, at))
  {
    hide Lock, InRead, InWrite, CountedThreads, After;
    var p := if s.count == 0 then Last else Closing;
    AloneInside(s, t);
    ReadSame(s, t, p);
    ReaderTests(s.pc, s.count, t);
    CountChange(s, t, p);
    Collect(s, t, p, s.read, s.write, s.count);
  }

  lemma StepLast(s: State, t: nat, at: nat)
    requires Inv(s) && Awake(s, t) && s.pc[t] == Last
    ensures Inv(Next(s, t, true, at))
  {
    hide Lock, InRead, InWrite, CountedThreads, After;
    AloneInside(s, t);
    ReadSame(s, t, Closing);
    GroupUp(s, t, at);
    CountChange(s, t, Closing);
    Collect(s, t, Closing, s.read, After(s.write, t, 1, at), s.count);
  }

  lemma StepClosing(s: State, t: nat, at: nat)
    requires Inv(s) && Awake(s, t) && s.pc[t] == Closing
    ensures Inv(Next(s, t, true, at))
  {
    hide Lock, InRead, InWrite, CountedThreads, After;
    ReadUp(s, t, Idle, at);
    WriteSame(s, t, Idle);
    CountChange(s, t, Idle);
    Collect(s, t, Idle, After(s.read, t, 1, at), s.write, s.count);
  }

  lemma StepWriting(s: State, t: nat, at: nat)
    requires Inv(s) && Awake(s, t) && s.pc[t] == Writing
    ensures Inv(Next(s, t, true, at))
  {
    hide Lock, InRead, InWrite, CountedThreads, After;
    ReadSame(s, t, Idle);
    WriteUp(s, t, at);
    CountChange(s, t, Idle);
    Collect(s, t, Idle, s.read, After(s.write, t, 1, at), s.count);
  }

  lemma StepKeepsInv(s: State, t: nat, reading: bool, at: nat)
    requires Inv(s) && Awake(s, t)
    ensures Inv(Next(s, t, reading, at))
  {
    match s.pc[t]
    case Idle => if reading { StartToRead(s, t, at); } else { StartToWrite(s, t, at); }
    case Entering => StepEntering(s, t, at);
    case First => StepFirst(s, t, at);
    case Counting => StepCounting(s, t, at);
    case Counted => StepCounted(s, t, at);
    case Reading => StepReading(s, t, at);
    case Leaving => StepLeaving(s, t, at);
    case Testing => StepTesting(s, t, at);
    case Last => StepLast(s, t, at);
    case Closing => StepClosing(s, t, at);
    case Writing => StepWriting(s, t, at);
  }

  // ---------------------------------------------------------------- whole runs

  datatype Step = Step(thread: nat, reading: bool, at: nat)

  predicate IsRun(s: State, steps: seq<Step>)
    decreases |steps|
  {
    steps == [] || (Awake(s, steps[0].thread)
                    && IsRun(Next(s, steps[0].thread, steps[0].reading, steps[0].at), steps[1..]))
  }

  function End(s: State, steps: seq<Step>): State
    requires IsRun(s, steps)
    decreases |steps|
  {
    if steps == [] then s else End(Next(s, steps[0].thread, steps[0].reading, steps[0].at), steps[1..])
  }

  lemma InitialInv(threads: nat)
    requires threads <= LIMIT
    ensures Inv(Initial(threads))
  {
    var s := Initial(threads);
    assert InRead(s.pc) == {} && InWrite(s.pc, 0) == {} && CountedThreads(s.pc) == {};
  }

  lemma {:induction false} RunKeepsInv(s: State, steps: seq<Step>)
    requires Inv(s) && IsRun(s, steps)
    ensures Inv(End(s, steps))
    decreases |steps|
  {
    if steps != [] {
      StepKeepsInv(s, steps[0].thread, steps[0].reading, steps[0].at);
      RunKeepsInv(Next(s, steps[0].thread, steps[0].reading, steps[0].at), steps[1..]);
    }
  }

  /** No run of that many threads has a writer copying beside a reader or another writer. */
  ghost predicate AlwaysExclusive(threads: nat) {
    forall steps :: IsRun(Initial(threads), steps) ==> Exclusive(End(Initial(threads), steps))
  }

  lemma SafeUpToLimit(threads: nat)
    requires threads <= LIMIT
    ensures AlwaysExclusive(threads)
  {
    forall steps | IsRun(Initial(threads), steps)
      ensures Exclusive(End(Initial(threads), steps))
    {
      InitialInv(threads);
      RunKeepsInv(Initial(threads), steps);
      InvIsExclusive(End(Initial(threads), steps));
    }
  }

  // ---------------------------------------------------------------- threads that meet nobody

  /** Nobody sleeps on a semaphore that stays at 0 or above, and none is woken. */
  lemma Passes(value: int, tid: nat, op: int, at: nat)
    requires -1 <= op <= 1 && 0 <= value + op < 0x8000
    ensures After(Semaphore(value, []), tid, op, at) == Semaphore(value + op, [])
  {
    var none: seq<nat> := [];
    assert none[Half(0)..] == [];
  }

  /** Thread `t` is at `p`, all others as in `pc`; nobody sleeps. */
  function Undisturbed(pc: seq<PC>, t: nat, p: PC, read: int, write: int, count: int): State
    requires t < |pc|
  {
    State(pc[t := p], Semaphore(read, []), Semaphore(write, []), count)
  }

  lemma SmallSteps(value: int, t: nat)
    requires 0 <= value <= 1
    ensures value == 1 ==> After(Semaphore(value, []), t, -1, 0) == Semaphore(0, [])
    ensures value == 0 ==> After(Semaphore(value, []), t, 1, 0) == Semaphore(1, [])
  {
    if value == 1 {
      Passes(1, t, -1, 0);
    } else {
      Passes(0, t, 1, 0);
    }
  }

  lemma MovesOn(pc: seq<PC>, t: nat, p: PC, q: PC)
    requires t < |pc|
    ensures pc[t := p][t := q] == pc[t := q]
  {
  }

  /** A step on read_sem, on write_sem, and on neither. */
  lemma ReadSemStep(pc: seq<PC>, t: nat, p: PC, q: PC, value: int, write: int, count: int)
    requires t < |pc| && 0 <= value <= 1
    requires var s := Undisturbed(pc, t, p, value, write, count);
             Next(s, t, true, 0)
             == s.(pc := s.pc[t := q], read := After(s.read, t, if value == 1 then -1 else 1, 0))
    ensures Next(Undisturbed(pc, t, p, value, write, count), t, true, 0)
         == Undisturbed(pc, t, q, 1 - value, write, count)
  {
    SmallSteps(value, t);
    hide After, Next;
    MovesOn(pc, t, p, q);
  }

  lemma WriteSemStep(pc: seq<PC>, t: nat, reading: bool, p: PC, q: PC, read: int, value: int, count: int)
    requires t < |pc| && 0 <= value <= 1
    requires var s := Undisturbed(pc, t, p, read, value, count);
             Next(s, t, reading, 0)
             == s.(pc := s.pc[t := q], write := After(s.write, t, if value == 1 then -1 else 1, 0))
    ensures Next(Undisturbed(pc, t, p, read, value, count), t, reading, 0)
         == Undisturbed(pc, t, q, read, 1 - value, count)
  {
    SmallSteps(value, t);
    hide After, Next;
    MovesOn(pc, t, p, q);
  }

  lemma CountStep(pc: seq<PC>, t: nat, p: PC, q: PC, read: int, write: int, count: int, next: int)
    requires t < |pc|
    requires var s := Undisturbed(pc, t, p, read, write, count);
             Next(s, t, true, 0) == s.(pc := s.pc[t := q], count := next)
    ensures Next(Undisturbed(pc, t, p, read, write, count), t, true, 0) == Undisturbed(pc, t, q, read, write, next)
  {
    hide Next;
    MovesOn(pc, t, p, q);
  }

  /** The ten steps of a thread that reads alone: while it copies it holds write_sem for all readers and nobody
      holds read_sem; afterwards everything is as before. */
  function ReadTrace(pc: seq<PC>, t: nat, i: nat): State
    requires t < |pc| && i <= 10
  {
    match i
    case 0 => Undisturbed(pc, t, Idle, 1, 1, 0)
    case 1 => Undisturbed(pc, t, Entering, 0, 1, 0)
    case 2 => Undisturbed(pc, t, First, 0, 1, 0)
    case 3 => Undisturbed(pc, t, Counting, 0, 0, 0)
    case 4 => Undisturbed(pc, t, Counted, 0, 0, 1)
    case 5 => Undisturbed(pc, t, Reading, 1, 0, 1)
    case 6 => Undisturbed(pc, t, Leaving, 0, 0, 1)
    case 7 => Undisturbed(pc, t, Testing, 0, 0, 0)
    case 8 => Undisturbed(pc, t, Last, 0, 0, 0)
    case 9 => Undisturbed(pc, t, Closing, 0, 1, 0)
    case 10 => Undisturbed(pc, t, Idle, 1, 1, 0)
  }

  lemma ReadsAlone(pc: seq<PC>, t: nat, i: nat)
    requires t < |pc| && i < 10
    ensures Awake(ReadTrace(pc, t, i), t) && Next(ReadTrace(pc, t, i), t, true, 0) == ReadTrace(pc, t, i + 1)
  {
    hide After;
    match i
    case 0 => ReadSemStep(pc, t, Idle, Entering, 1, 1, 0);
    case 1 => CountStep(pc, t, Entering, First, 0, 1, 0, 0);
    case 2 => WriteSemStep(pc, t, true, First, Counting, 0, 1, 0);
    case 3 => CountStep(pc, t, Counting, Counted, 0, 0, 0, 1);
    case 4 => ReadSemStep(pc, t, Counted, Reading, 0, 0, 1);
    case 5 => ReadSemStep(pc, t, Reading, Leaving, 1, 0, 1);
    case 6 => CountStep(pc, t, Leaving, Testing, 0, 0, 1, 0);
    case 7 => CountStep(pc, t, Testing, Last, 0, 0, 0, 0);
    case 8 => WriteSemStep(pc, t, true, Last, Closing, 0, 0, 0);
    case 9 => ReadSemStep(pc, t, Closing, Idle, 0, 1, 0);
  }

  /** A reader beside others, `n` of them: it never touches write_sem. */
  function BesideTrace(pc: seq<PC>, t: nat, n: nat, i: nat): State
    requires t < |pc| && i <= 8
  {
    match i
    case 0 => Undisturbed(pc, t, Idle, 1, 0, n)
    case 1 => Undisturbed(pc, t, Entering, 0, 0, n)
    case 2 => Undisturbed(pc, t, Counting, 0, 0, n)
    case 3 => Undisturbed(pc, t, Counted, 0, 0, n + 1)
    case 4 => Undisturbed(pc, t, Reading, 1, 0, n + 1)
    case 5 => Undisturbed(pc, t, Leaving, 0, 0, n + 1)
    case 6 => Undisturbed(pc, t, Testing, 0, 0, n)
    case 7 => Undisturbed(pc, t, Closing, 0, 0, n)
    case 8 => Undisturbed(pc, t, Idle, 1, 0, n)
  }

  lemma ReadsBeside(pc: seq<PC>, t: nat, n: nat, i: nat)
    requires t < |pc| && i < 8 && n > 0
    ensures Awake(BesideTrace(pc, t, n, i), t)
    ensures Next(BesideTrace(pc, t, n, i), t, true, 0) == BesideTrace(pc, t, n, i + 1)
  {
    hide After;
    match i
    case 0 => ReadSemStep(pc, t, Idle, Entering, 1, 0, n);
    case 1 => CountStep(pc, t, Entering, Counting, 0, 0, n, n);
    case 2 => CountStep(pc, t, Counting, Counted, 0, 0, n, n + 1);
    case 3 => ReadSemStep(pc, t, Counted, Reading, 0, 0, n + 1);
    case 4 => ReadSemStep(pc, t, Reading, Leaving, 1, 0, n + 1);
    case 5 => CountStep(pc, t, Leaving, Testing, 0, 0, n + 1, n);
    case 6 => CountStep(pc, t, Testing, Closing, 0, 0, n, n);
    case 7 => ReadSemStep(pc, t, Closing, Idle, 0, 0, n);
  }

  /** A thread that writes alone holds write_sem while it copies, and gives it back. */
  lemma WritesAlone(pc: seq<PC>, t: nat)
    requires t < |pc|
    ensures var s := Undisturbed(pc, t, Idle, 1, 1, 0);
            var copying := Undisturbed(pc, t, Writing, 1, 0, 0);
            && Awake(s, t) && Next(s, t, false, 0) == copying
            && Awake(copying, t) && Next(copying, t, false, 0) == s
  {
    hide After;
    WriteSemStep(pc, t, false, Idle, Writing, 1, 1, 0);
    WriteSemStep(pc, t, false, Writing, Idle, 1, 0, 0);
  }

  // ---------------------------------------------------------------- too many threads

  /** `k` threads have started to write: the first one copies, the others wait in order. */
  function Queue(threads: nat, k: nat): State
    requires 0 < k <= threads
  {
    State(seq(threads, i => if i < k then Writing else Idle), Semaphore(1, []),
          Semaphore(1 - k, seq(k - 1, i => i + 1)), 0)
  }

  lemma FirstWriter(threads: nat)
    requires threads > 0
    ensures Awake(Initial(threads), 0) && Next(Initial(threads), 0, false, 0) == Queue(threads, 1)
  {
    assert Initial(threads).pc[0 := Writing] == Queue(threads, 1).pc;
  }

  lemma QueueGrows(threads: nat, k: nat)
    requires 0 < k < threads && k < LIMIT
    ensures Awake(Queue(threads, k), k)
    ensures Next(Queue(threads, k), k, false, k) == Queue(threads, k + 1)
  {
    var s := Queue(threads, k);
    assert s.pc[k := Writing] == Queue(threads, k + 1).pc;
    assert s.write.asleep + [k] == Queue(threads, k + 1).write.asleep;
  }

  /** The next writer makes the value of write_sem wrap around, and gets in. */
  lemma ValueWraps(threads: nat)
    requires threads > LIMIT
    ensures Awake(Queue(threads, LIMIT), LIMIT)
    ensures !Exclusive(Next(Queue(threads, LIMIT), LIMIT, false, 0))
  {
    var s := Queue(threads, LIMIT);
    var s' := Next(s, LIMIT, false, 0);
    assert s.write.value - 1 == -0x8001;
    assert s'.write.value == 0x7FFF;
    assert forall u :: u in s'.write.asleep ==> u in s.write.asleep;
    assert s'.pc[0] == Writing && s'.pc[LIMIT] == Writing;
    assert Copies(s', 0) && Copies(s', LIMIT);
  }

  lemma {:induction false} QueueRun(threads: nat, k: nat) returns (steps: seq<Step>)
    requires 0 < k <= LIMIT < threads
    ensures IsRun(Queue(threads, k), steps) && !Exclusive(End(Queue(threads, k), steps))
    decreases LIMIT - k
  {
    if k == LIMIT {
      ValueWraps(threads);
      steps := [Step(LIMIT, false, 0)];
      var s' := Next(Queue(threads, LIMIT), LIMIT, false, 0);
      assert steps[1..] == [];
      assert IsRun(s', []) && End(s', []) == s';
    } else {
      QueueGrows(threads, k);
      var rest := QueueRun(threads, k + 1);
      steps := [Step(k, false, k)] + rest;
      assert steps[1..] == rest;
    }
  }

  /** Exclusion holds in every run exactly if the 16-bit value can count all threads. */
  lemma ExclusiveIff(threads: nat)
    ensures AlwaysExclusive(threads) <==> threads <= LIMIT
  {
    if threads <= LIMIT {
      SafeUpToLimit(threads);
    } else {
      var rest := QueueRun(threads, 1);
      var steps := [Step(0, false, 0)] + rest;
      var s := Initial(threads);
      FirstWriter(threads);
      assert steps[1..] == rest;
      assert IsRun(s, steps);
    }
  }
}
