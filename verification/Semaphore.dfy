/** semop of src/kernel/ipc/sem.c on one group of semaphores. */
module Semaphore {
  import opened ChunkList

  /** `asleep` are the ids of the threads that sleep on the semaphore, in the order of their list. */
  datatype Semaphore = Semaphore(value: int, asleep: seq<nat>)

  datatype Operation = Operation(num: nat, op: int)

  /** The semaphores, and the threads that are blocked. */
  datatype Group = Group(sems: seq<Semaphore>, blocked: set<nat>)

  /** The value is a 16-bit short. */
  function Short(x: int): (r: int)
    ensures -0x8000 <= r < 0x8000 && (x - r) % 0x10000 == 0
    ensures -0x8000 <= x < 0x8000 ==> r == x
  {
    (x + 0x8000) % 0x10000 - 0x8000
  }

  // ---------------------------------------------------------------- one operation, and all

  datatype Outcome = Outcome(group: Group, sleeps: bool)

  /** `v` put into the list at place `at`, or at the end if the list is shorter. */
  function Inserted(s: seq<nat>, at: nat, v: nat): seq<nat> {
    if at <= |s| then s[..at] + [v] + s[at..] else s + [v]
  }

  /** The number of sleepers woken: the wake loop counts up while the list shrinks. */
  function Half(n: nat): (r: nat)
    ensures n <= 2 * r <= n + 1
  {
    (n + 1) / 2
  }

  function Elements(s: seq<nat>): set<nat> {
    set v | v in s
  }

  /** Thread `tid` goes to sleep on semaphore `num`; `at` is the place of the hole alist_add fills. */
  function AsleepOn(g: Group, num: nat, value: int, tid: nat, at: nat): Group
    requires num < |g.sems|
  {
    Group(g.sems[num := Semaphore(value, Inserted(g.sems[num].asleep, at, tid))], g.blocked + {tid})
  }

  /** The first half of the sleepers, rounded up, is woken. */
  function WokenOn(g: Group, num: nat, value: int): Group
    requires num < |g.sems|
  {
    var c := g.sems[num].asleep;
    Group(g.sems[num := Semaphore(value, c[Half(|c|)..])], g.blocked - Elements(c[..Half(|c|)]))
  }

  /** One operation of thread `tid`: an up sleeps as well when it leaves the value negative. */
  function Apply(g: Group, tid: nat, o: Operation, at: nat): Outcome {
    if o.num >= |g.sems| then Outcome(g, false)
    else
      var value := Short(g.sems[o.num].value + o.op);
      if value < 0 then Outcome(AsleepOn(g, o.num, value, tid, at), true)
      else Outcome(WokenOn(g, o.num, value), false)
  }

  /** semop: the operations in order, up to the first one that puts the caller to sleep. */
  function Performed(g: Group, tid: nat, ops: seq<Operation>, at: nat): Outcome
    decreases |ops|
  {
    if ops == [] then Outcome(g, false)
    else
      var r := Apply(g, tid, ops[0], at);
      if r.sleeps then r else Performed(r.group, tid, ops[1..], at)
  }

  /** The operations of a call in two parts: the second part is performed on what the first leaves, unless the
      first puts the caller to sleep. */
  lemma {:induction false} PerformedInTurn(g: Group, tid: nat, a: seq<Operation>, b: seq<Operation>, at: nat)
    ensures Performed(g, tid, a + b, at)
         == if Performed(g, tid, a, at).sleeps then Performed(g, tid, a, at)
            else Performed(Performed(g, tid, a, at).group, tid, b, at)
    decreases |a|
  {
    if a == [] {
      assert a + b == b;
    } else {
      assert (a + b)[1..] == a[1..] + b;
      PerformedInTurn(Apply(g, tid, a[0], at).group, tid, a[1..], b, at);
    }
  }

  /** A call sleeps exactly if an operation leaves its semaphore negative when those before it did not. */
  lemma {:induction false} SleepsIff(g: Group, tid: nat, ops: seq<Operation>, at: nat)
    ensures Performed(g, tid, ops, at).sleeps <==>
            exists i: nat :: i < |ops| && !Performed(g, tid, ops[..i], at).sleeps
              && LeavesNegative(Performed(g, tid, ops[..i], at).group, ops[i])
    decreases |ops|
  {
    if ops != [] {
      var last := |ops| - 1;
      var front, o := ops[..last], ops[last];
      SleepsIff(g, tid, front, at);
      PerformedInTurn(g, tid, front, [o], at);
      assert ops == front + [o];
      OneOperation(Performed(g, tid, front, at).group, tid, o, at);
      assert forall i: nat :: i < last ==> ops[..i] == front[..i];
    }
  }

  predicate LeavesNegative(g: Group, o: Operation) {
    o.num < |g.sems| && Short(g.sems[o.num].value + o.op) < 0
  }

  lemma OneOperation(g: Group, tid: nat, o: Operation, at: nat)
    ensures Performed(g, tid, [o], at) == Apply(g, tid, o, at)
    ensures Apply(g, tid, o, at).sleeps <==> LeavesNegative(g, o)
  {
    var r := Apply(g, tid, o, at);
    assert [o][1..] == [];
    assert Performed(r.group, tid, [], at) == Outcome(r.group, false);
  }

  // ---------------------------------------------------------------- nobody is lost

  /** How often thread `t` stands in the lists of sleepers. */
  function Sleeping(sems: seq<Semaphore>, t: nat): nat {
    if sems == [] then 0 else Count(sems[0].asleep, t) + Sleeping(sems[1..], t)
  }

  function Count(s: seq<nat>, t: nat): nat {
    multiset(s)[t]
  }

  lemma {:induction false} SleepingUpdate(sems: seq<Semaphore>, i: nat, s: Semaphore, t: nat)
    requires i < |sems|
    ensures Sleeping(sems[i := s], t) == Sleeping(sems, t) - Count(sems[i].asleep, t) + Count(s.asleep, t)
    ensures Count(sems[i].asleep, t) <= Sleeping(sems, t)
  {
    if i > 0 {
      SleepingUpdate(sems[1..], i - 1, s, t);
      assert sems[i := s][1..] == sems[1..][i - 1 := s];
    } else {
      assert sems[i := s][1..] == sems[1..];
    }
  }

  /** Every blocked thread stands in exactly one list, once; no other thread stands in any. */
  ghost predicate Accounted(g: Group) {
    forall t {:trigger AccountedFor(g, t)} :: AccountedFor(g, t)
  }

  predicate AccountedFor(g: Group, t: nat) {
    Sleeping(g.sems, t) == if t in g.blocked then 1 else 0
  }

  function Bit(b: bool): int {
    if b then 1 else 0
  }

  /** One list and the set of blocked threads change together. */
  lemma ListChanges(g: Group, num: nat, s: Semaphore, blocked: set<nat>, t: nat)
    requires num < |g.sems| && AccountedFor(g, t)
    requires Count(s.asleep, t) - Count(g.sems[num].asleep, t) == Bit(t in blocked) - Bit(t in g.blocked)
    ensures AccountedFor(Group(g.sems[num := s], blocked), t)
  {
    SleepingUpdate(g.sems, num, s, t);
  }

  lemma OneMore(s: seq<nat>, at: nat, v: nat, t: nat)
    ensures Count(Inserted(s, at, v), t) - Count(s, t) == Bit(t == v)
  {
    assert at <= |s| ==> s == s[..at] + s[at..];
  }

  lemma HalfLess(c: seq<nat>, h: nat, blocked: set<nat>, t: nat)
    requires h <= |c| && Count(c, t) <= Bit(t in blocked)
    ensures Count(c[h..], t) - Count(c, t) == Bit(t in blocked - Elements(c[..h])) - Bit(t in blocked)
  {
    assert c == c[..h] + c[h..];
    assert t in c[..h] <==> Count(c[..h], t) > 0;
  }

  lemma SleepAccounts(g: Group, num: nat, value: int, tid: nat, at: nat, t: nat)
    requires num < |g.sems| && tid !in g.blocked && AccountedFor(g, t)
    ensures AccountedFor(AsleepOn(g, num, value, tid, at), t)
  {
    var c := g.sems[num].asleep;
    OneMore(c, at, tid, t);
    ListChanges(g, num, Semaphore(value, Inserted(c, at, tid)), g.blocked + {tid}, t);
  }

  lemma WakeAccounts(g: Group, num: nat, value: int, t: nat)
    requires num < |g.sems| && AccountedFor(g, t)
    ensures AccountedFor(WokenOn(g, num, value), t)
  {
    var c := g.sems[num].asleep;
    SleepingUpdate(g.sems, num, g.sems[num], t);
    HalfLess(c, Half(|c|), g.blocked, t);
    ListChanges(g, num, Semaphore(value, c[Half(|c|)..]), g.blocked - Elements(c[..Half(|c|)]), t);
  }

  lemma ApplyAccounts(g: Group, tid: nat, o: Operation, at: nat, t: nat)
    requires tid !in g.blocked && AccountedFor(g, t)
    ensures AccountedFor(Apply(g, tid, o, at).group, t)
  {
    if o.num < |g.sems| {
      var value := Short(g.sems[o.num].value + o.op);
      if value < 0 {
        SleepAccounts(g, o.num, value, tid, at, t);
      } else {
        WakeAccounts(g, o.num, value, t);
      }
    }
  }

  /** No semop loses a sleeping thread or lists one twice: a blocked thread stays wakeable. The
      caller ends up blocked exactly if an operation left its semaphore negative. */
  lemma {:induction false} SemopAccounts(g: Group, tid: nat, ops: seq<Operation>, at: nat)
    requires tid !in g.blocked && Accounted(g)
    ensures var r := Performed(g, tid, ops, at); Accounted(r.group) && (r.sleeps <==> tid in r.group.blocked)
    decreases |ops|
  {
    if ops != [] {
      var r := Apply(g, tid, ops[0], at);
      forall t
        ensures AccountedFor(r.group, t)
      {
        assert AccountedFor(g, t);
        ApplyAccounts(g, tid, ops[0], at, t);
      }
      if !r.sleeps {
        SemopAccounts(r.group, tid, ops[1..], at);
      }
    }
  }

  // ---------------------------------------------------------------- the list of sleepers

  lemma RemoveHead(cs: Chunks)
    requires WellFormed(cs, ENTRIES) && Contents(cs) != []
    ensures WellFormed(Removed(cs, Contents(cs)[0]), ENTRIES)
    ensures Contents(Removed(cs, Contents(cs)[0])) == Contents(cs)[1..]
  {
    var v := Contents(cs)[0];
    NoZeroEntry(cs);
    RemoveTakesFirst(cs, v);
    RemoveKeepsShape(cs, v, ENTRIES);
    HeadSplit(Front(cs, v), v, Back(cs, v));
  }

  lemma HeadSplit(f: seq<nat>, v: nat, b: seq<nat>)
    requires v !in f && (f + [v] + b)[0] == v
    ensures f + b == (f + [v] + b)[1..]
  {
    if f != [] {
      HeadOfFront(f, v, b);
    }
  }

  lemma HeadOfFront(f: seq<nat>, v: nat, b: seq<nat>)
    requires f != []
    ensures (f + [v] + b)[0] in f
  {
    assert (f + [v] + b)[0] == f[0];
  }

  lemma {:induction false} NoZeroEntry(cs: Chunks)
    ensures 0 !in Contents(cs)
  {
    if cs != [] {
      FilledHas(cs[0], 0);
      NoZeroEntry(cs[1..]);
    }
  }

  /** alist_add inserts. */
  lemma AddIsInsert(cs: Chunks, v: nat)
    requires WellFormed(cs, ENTRIES) && v != 0
    ensures WellFormed(Added(cs, v, ENTRIES), ENTRIES) && ChunkWith(cs, 0) < |cs|
    ensures Contents(Added(cs, v, ENTRIES)) == Inserted(Contents(cs), |Front(cs, 0)|, v)
  {
    AddInserts(cs, v, ENTRIES);
    AddKeepsShape(cs, v, ENTRIES);
    InsertBetween(Front(cs, 0), v, Back(cs, 0));
  }

  lemma InsertBetween(f: seq<nat>, v: nat, b: seq<nat>)
    ensures f + [v] + b == Inserted(f + b, |f|, v)
  {
    assert (f + b)[..|f|] == f && (f + b)[|f|..] == b;
  }

  lemma OneWoken(c: seq<nat>, j: nat)
    requires j < |c|
    ensures c[j..][0] == c[j] && c[j..][1..] == c[j + 1..] && Elements(c[..j + 1]) == Elements(c[..j]) + {c[j]}
  {
    assert c[..j + 1] == c[..j] + [c[j]];
  }

  // ---------------------------------------------------------------- semop as it runs

  /** The scheduler's view of the threads: those in state THREAD_BLCKD. */
  class Threads {
    var blocked: set<nat>

    method Sleep(tid: nat)
      modifies this
      ensures blocked == old(blocked) + {tid}
    {
      blocked := blocked + {tid};
    }

    method Wakeup(tid: nat)
      modifies this
      ensures blocked == old(blocked) - {tid}
    {
      blocked := blocked - {tid};
    }
  }

  /** struct semaphore. */
  class Sem {
    var semval: int
    var asleep: Chunks

    function Value(): Semaphore
      reads this
    {
      Semaphore(semval, Contents(asleep))
    }

    constructor ()
      ensures WellFormed(asleep, ENTRIES) && Value() == Semaphore(0, [])
    {
      semval, asleep := 0, [Zeros(ENTRIES)];
      new;
      ZerosEmpty(ENTRIES);
      assert Zeros(ENTRIES)[0] == 0;
    }

    /** The body of the wake loop. */
    method WakeFirst(threads: Threads)
      requires WellFormed(asleep, ENTRIES) && Contents(asleep) != []
      modifies this`asleep, threads
      ensures WellFormed(asleep, ENTRIES) && Contents(asleep) == old(Contents(asleep))[1..]
      ensures threads.blocked == old(threads.blocked) - {old(Contents(asleep))[0]}
    {
      var tid := Contents(asleep)[0];
      threads.Wakeup(tid);
      RemoveHead(asleep);
      asleep := Removed(asleep, tid);
    }

    /** The wake loop. */
    method Wake(threads: Threads)
      requires WellFormed(asleep, ENTRIES)
      modifies this`asleep, threads
      ensures WellFormed(asleep, ENTRIES)
      ensures var c := old(Contents(asleep));
              && Contents(asleep) == c[Half(|c|)..]
              && threads.blocked == old(threads.blocked) - Elements(c[..Half(|c|)])
    {
      ghost var c := Contents(asleep);
      var j := 0;
      while j < |Contents(asleep)|
        invariant 0 <= j <= Half(|c|) && WellFormed(asleep, ENTRIES)
        invariant Contents(asleep) == c[j..]
        invariant threads.blocked == old(threads.blocked) - Elements(c[..j])
        decreases |c| - j
      {
        WakeFirst(threads);
        OneWoken(c, j);
        j := j + 1;
      }
    }

    /** The branch that puts the caller to sleep. */
    method PutToSleep(threads: Threads, tid: nat) returns (ghost at: nat)
      requires WellFormed(asleep, ENTRIES) && tid != 0
      modifies this`asleep, threads
      ensures WellFormed(asleep, ENTRIES) && Contents(asleep) == Inserted(old(Contents(asleep)), at, tid)
      ensures threads.blocked == old(threads.blocked) + {tid}
    {
      AddIsInsert(asleep, tid);
      at := |Front(asleep, 0)|;
      asleep := Added(asleep, tid, ENTRIES);
      threads.Sleep(tid);
    }
  }

  class SemGroup {
    const sems: seq<Sem>
    const threads: Threads

    ghost predicate Valid()
      reads this, sems
    {
      && (forall s {:trigger sems[s]} :: 0 <= s < |sems| ==> WellFormed(sems[s].asleep, ENTRIES))
      && (forall s, u :: 0 <= s < u < |sems| ==> sems[s] != sems[u])
    }

    ghost function Value(): Group
      reads this, sems, threads
    {
      Group(seq(|sems|, s requires 0 <= s < |sems| reads sems => sems[s].Value()), threads.blocked)
    }

    constructor (all: seq<Sem>, running: Threads)
      ensures sems == all && threads == running
    {
      sems, threads := all, running;
    }

    /** One round of the loop of semop. */
    method One(tid: nat, o: Operation) returns (sleeps: bool, ghost at: nat)
      requires Valid() && tid != 0
      modifies sems, threads
      ensures Valid() && Outcome(Value(), sleeps) == Apply(old(Value()), tid, o, at)
    {
      at := 0;
      if o.num >= |sems| {
        return false, at;
      }
      var sem := sems[o.num];
      sem.semval := Short(sem.semval + o.op);
      sleeps := sem.semval < 0;
      if sleeps {
        at := sem.PutToSleep(threads, tid);
      } else {
        sem.Wake(threads);
      }
      assert forall s {:trigger sems[s]} :: 0 <= s < |sems| && s != o.num ==> unchanged(sems[s]);
      assert Value().sems == old(Value()).sems[o.num := sem.Value()];
    }

    /** semop: -1 as soon as the caller is put to sleep, 0 at the end. */
    method Semop(tid: nat, ops: seq<Operation>) returns (r: int, ghost at: nat)
      requires Valid() && tid != 0
      modifies sems, threads
      ensures Valid() && Outcome(Value(), r == -1) == Performed(old(Value()), tid, ops, at)
      ensures r == -1 || r == 0
    {
      var i := 0;
      ghost var g := Value();
      while i < |ops|
        invariant 0 <= i <= |ops| && Valid() && SameFrom(g, Value(), tid, ops, i)
      {
        ghost var before := Value();
        var sleeps, place := One(tid, ops[i]);
        OneRound(g, before, Value(), tid, ops, i, sleeps, place);
        if sleeps {
          return -1, place;
        }
        i := i + 1;
      }
      return 0, 0;
    }
  }

  /** semop from the group id on: a negative id is refused. */
  method SemopById(groups: seq<SemGroup>, id: int, tid: nat, ops: seq<Operation>) returns (r: int, ghost at: nat)
    requires id < |groups| // an unknown group is a null pointer, which the code follows
    requires id >= 0 ==> groups[id].Valid() && tid != 0
    modifies if 0 <= id < |groups| then (set s: object | s in groups[id].sems) + {groups[id].threads} else {}
    ensures id < 0 ==> r == -1
    ensures id >= 0 ==>
              && groups[id].Valid() && (r == -1 || r == 0)
              && Outcome(groups[id].Value(), r == -1) == Performed(old(groups[id].Value()), tid, ops, at)
  {
    if id < 0 {
      return -1, 0;
    }
    r, at := groups[id].Semop(tid, ops);
  }

  /** The rest of the operations does to `h` what all of them do to `g`. */
  ghost predicate SameFrom(g: Group, h: Group, tid: nat, ops: seq<Operation>, i: nat)
    requires i <= |ops|
  {
    forall at {:trigger Performed(g, tid, ops, at)} :: Performed(g, tid, ops, at) == Performed(h, tid, ops[i..], at)
  }

  lemma OneRound(g: Group, h: Group, next: Group, tid: nat, ops: seq<Operation>, i: nat, sleeps: bool, at: nat)
    requires i < |ops| && SameFrom(g, h, tid, ops, i) && Outcome(next, sleeps) == Apply(h, tid, ops[i], at)
    ensures if sleeps then Performed(g, tid, ops, at) == Outcome(next, true) else SameFrom(g, next, tid, ops, i + 1)
  {
    assert ops[i..][1..] == ops[i + 1..];
    if !sleeps {
      forall p: nat
        ensures Performed(g, tid, ops, p) == Performed(next, tid, ops[i + 1..], p)
      {
        assert Apply(h, tid, ops[i], p) == Apply(h, tid, ops[i], at);
      }
    }
  }
}
