/** Runs of the shootdown protocol on any number of cores: kernel maps, frees, TLB refills,
    window moves and sync_addr_space in any order. A page freed by one core may be cached by
    others until they synchronise; the protocol must keep it from being mapped again before. */
module ShootdownRuns {
  import opened Basics
  import opened Shootdown

  datatype State = State(
    pt: map<Page, Frame>,               // the kernel's page table, common to all cores
    tlb: map<Core, map<Page, Frame>>,   // what every core caches
    pending: seq<Pending>,              // ranges recorded but not yet free
    free: set<Page>)                    // pages the range stack may hand out

  datatype Step =
    | MapPage(core: Core, page: Page, frame: Frame)      // one page of kvmm_malloc
    | FreeRange(core: Core, page: Page, length: nat)     // kvmm_free
    | Refill(core: Core, page: Page)                     // the hardware walks and caches
    | MoveWindow(core: Core, frame: Frame)               // vmm_map of the scratch window
    | Sync(core: Core)                                   // sync_addr_space

  function Range(page: Page, length: nat): (r: set<Page>)
    ensures forall p :: p in r <==> page <= p < page + length
  {
    if length == 0 then {} else Range(page, length - 1) + {page + length - 1}
  }

  ghost predicate Pends(s: seq<Pending>, p: Page) {
    exists k :: 0 <= k < |s| && InRange(p, s[k])
  }

  /** The pages of all ranges together. */
  function PagesOf(s: seq<Pending>): set<Page> {
    if s == [] then {} else PagesOf(s[..|s| - 1]) + Range(s[|s| - 1].virt, s[|s| - 1].length)
  }

  lemma {:induction false} PagesOfExact(s: seq<Pending>, p: Page)
    ensures p in PagesOf(s) <==> Pends(s, p)
  {
    if s != [] {
      var before := s[..|s| - 1];
      PagesOfExact(before, p);
      if Pends(before, p) {
        var k :| 0 <= k < |before| && InRange(p, before[k]);
        assert InRange(p, s[k]);
      }
      if Pends(s, p) && !InRange(p, s[|s| - 1]) {
        var k :| 0 <= k < |s| && InRange(p, s[k]);
        assert InRange(p, before[k]);
      }
    }
  }

  /** Which steps can be taken; `limit` bounds the pages freed by one call. */
  predicate Enabled(s: State, step: Step, mask: set<Core>, limit: nat) {
    && step.core in mask && step.core in s.tlb
    && match step
       case MapPage(_, page, _) => page in s.free
    case FreeRange(_, page, length) =>
      && 0 < length <= limit && WINDOW !in Range(page, length)
      && Range(page, length) <= s.pt.Keys && |s.pending| < 99
       case Refill(_, page) => page in s.pt
       case MoveWindow(_, _) => true
       case Sync(_) => true
  }

  function Next(s: State, step: Step, mask: set<Core>): State
    requires step.core in s.tlb
  {
    var c := step.core;
    match step
    case MapPage(_, page, frame) =>
      s.(pt := s.pt[page := frame], free := s.free - {page}, tlb := s.tlb[c := s.tlb[c] - {page}])
    case FreeRange(_, page, length) =>
      s.(pt := s.pt - Range(page, length), tlb := s.tlb[c := s.tlb[c] - Range(page, length)],
         pending := s.pending + [Pending(page, length, {c})])
    case Refill(_, page) =>
      var filled: map<Page, Frame> := if page in s.pt then s.tlb[c] + map[page := s.pt[page]] else s.tlb[c];
      s.(tlb := s.tlb[c := filled])
    case MoveWindow(_, frame) =>
      s.(pt := s.pt[WINDOW := frame], tlb := s.tlb[c := s.tlb[c] - {WINDOW}])
    case Sync(_) =>
      s.(tlb := s.tlb[c := s.tlb[c] - Virts(s.pending)],
         pending := Left(s.pending, c, mask),
         free := s.free + PagesOf(Pushed(s.pending, c, mask)))
  }

  ghost predicate IsRun(s: State, steps: seq<Step>, mask: set<Core>, limit: nat)
    decreases |steps|
  {
    steps == [] ||
    (Enabled(s, steps[0], mask, limit) && IsRun(Next(s, steps[0], mask), steps[1..], mask, limit))
  }

  ghost function After(s: State, steps: seq<Step>, mask: set<Core>, limit: nat): State
    requires IsRun(s, steps, mask, limit)
    decreases |steps|
  {
    if steps == [] then s else After(Next(s, steps[0], mask), steps[1..], mask, limit)
  }

  /** Nothing mapped or cached yet; the window's page is never on the free list. */
  function Init(mask: set<Core>, free: set<Page>): State {
    State(map[], map c | c in mask :: map[], [], free - {WINDOW})
  }

  /** Core `c` may cache page `p` although the page table no longer says so: the page is
      recorded as freed and the core has not synchronised yet. */
  ghost predicate Excused(s: State, c: Core, p: Page) {
    exists k :: 0 <= k < |s.pending| && InRange(p, s.pending[k]) && c !in s.pending[k].cores
  }

  ghost predicate Coherent(s: State, c: Core, p: Page)
    requires c in s.tlb
  {
    p in s.tlb[c] && p != WINDOW ==> (p in s.pt && s.pt[p] == s.tlb[c][p]) || Excused(s, c, p)
  }

  /** The safety property: outside the window no core caches a stale translation unless the page
      is still pending for it, and no core caches a page that may be handed out. */
  ghost predicate Safe(s: State) {
    forall c, p {:trigger Coherent(s, c, p)} :: c in s.tlb ==> Coherent(s, c, p) && (p in s.free ==> p !in s.tlb[c])
  }

  // ---------------------------------------------------------------- the invariant

  ghost predicate GoodEntry(e: Pending, mask: set<Core>, limit: nat) {
    e.cores <= mask && e.cores != {} && 0 < e.length <= limit && WINDOW !in Range(e.virt, e.length)
  }

  /** Page `p` is free, mapped or pending, never two of these, and pending at most once. */
  ghost predicate PlacedOnce(s: State, all: set<Page>, p: Page) {
    && (p in all <==> p in s.free || (p in s.pt && p != WINDOW) || Pends(s.pending, p))
    && (p in s.free ==> p !in s.pt && !Pends(s.pending, p))
    && (p in s.pt ==> !Pends(s.pending, p))
    && (forall i, j :: 0 <= i < j < |s.pending| ==> !(InRange(p, s.pending[i]) && InRange(p, s.pending[j])))
  }

  ghost predicate Inv(s: State, mask: set<Core>, limit: nat, all: set<Page>) {
    && s.tlb.Keys == mask && WINDOW !in all
    && (forall k :: 0 <= k < |s.pending| ==> GoodEntry(s.pending[k], mask, limit))
    && (forall p {:trigger PlacedOnce(s, all, p)} :: PlacedOnce(s, all, p))
    && (forall c, p {:trigger Coherent(s, c, p)} :: c in mask ==> Coherent(s, c, p))
  }

  lemma MapKeepsInv(s: State, step: Step, mask: set<Core>, limit: nat, all: set<Page>)
    requires Inv(s, mask, limit, all) && Enabled(s, step, mask, limit) && step.MapPage?
    ensures Inv(Next(s, step, mask), mask, limit, all)
  {
    var s' := Next(s, step, mask);
    forall p
      ensures PlacedOnce(s', all, p)
    {
      assert PlacedOnce(s, all, p);
    }
    forall c, p | c in mask
      ensures Coherent(s', c, p)
    {
      assert Coherent(s, c, p) && (Excused(s, c, p) ==> Excused(s', c, p));
      FreeNotCached(s, mask, limit, all, c, step.page);
    }
  }

  lemma ExcusedIsPending(s: State, c: Core, p: Page)
    requires Excused(s, c, p)
    ensures Pends(s.pending, p)
  {
  }

  /** A page on the free list is not cached anywhere. */
  lemma FreeNotCached(s: State, mask: set<Core>, limit: nat, all: set<Page>, c: Core, p: Page)
    requires Inv(s, mask, limit, all) && p in s.free && c in mask
    ensures p !in s.tlb[c]
  {
    assert Coherent(s, c, p) && PlacedOnce(s, all, p);
    if Excused(s, c, p) {
      ExcusedIsPending(s, c, p);
    }
  }

  lemma RefillKeepsInv(s: State, step: Step, mask: set<Core>, limit: nat, all: set<Page>)
    requires Inv(s, mask, limit, all) && Enabled(s, step, mask, limit) && (step.Refill? || step.MoveWindow?)
    ensures Inv(Next(s, step, mask), mask, limit, all)
  {
    var s' := Next(s, step, mask);
    forall p
      ensures PlacedOnce(s', all, p)
    {
      assert PlacedOnce(s, all, p);
    }
    forall c, p | c in mask
      ensures Coherent(s', c, p)
    {
      assert Coherent(s, c, p) && (Excused(s, c, p) ==> Excused(s', c, p));
    }
  }

  lemma FreeKeepsInv(s: State, step: Step, mask: set<Core>, limit: nat, all: set<Page>)
    requires Inv(s, mask, limit, all) && Enabled(s, step, mask, limit) && step.FreeRange?
    ensures Inv(Next(s, step, mask), mask, limit, all)
  {
    var s' := Next(s, step, mask);
    forall p
      ensures PlacedOnce(s', all, p)
    {
      assert PlacedOnce(s, all, p);
      PendsAfterPush(s.pending, Pending(step.page, step.length, {step.core}), p);
    }
    forall c, p | c in mask
      ensures Coherent(s', c, p)
    {
      assert Coherent(s, c, p);
      ExcusedAfterFree(s, step, mask, limit, c, p);
    }
  }

  lemma PendsAfterPush(s: seq<Pending>, e: Pending, p: Page)
    ensures Pends(s + [e], p) <==> Pends(s, p) || InRange(p, e)
  {
    if Pends(s, p) {
      var k :| 0 <= k < |s| && InRange(p, s[k]);
      assert InRange(p, (s + [e])[k]);
    }
    assert InRange(p, (s + [e])[|s|]) == InRange(p, e);
  }

  lemma ExcusedAfterFree(s: State, step: Step, mask: set<Core>, limit: nat, c: Core, p: Page)
    requires Enabled(s, step, mask, limit) && step.FreeRange?
    ensures Excused(s, c, p) || (p in Range(step.page, step.length) && c != step.core) ==>
              Excused(Next(s, step, mask), c, p)
  {
    var s' := Next(s, step, mask);
    if Excused(s, c, p) {
      var k :| 0 <= k < |s.pending| && InRange(p, s.pending[k]) && c !in s.pending[k].cores;
      assert s'.pending[k] == s.pending[k];
    }
    assert s'.pending[|s.pending|] == Pending(step.page, step.length, {step.core});
  }

  /** Marking changes no range; what leaves the stack becomes free. */
  lemma SyncPlaces(s: State, step: Step, mask: set<Core>, limit: nat, all: set<Page>, p: Page)
    requires Inv(s, mask, limit, all) && Enabled(s, step, mask, limit) && step.Sync?
    ensures PlacedOnce(Next(s, step, mask), all, p)
  {
    assert PlacedOnce(s, all, p);
    SyncConserves(s.pending, step.core, mask);
    SyncPends(s.pending, step.core, mask, p);
    PagesOfExact(Pushed(s.pending, step.core, mask), p);
  }

  lemma SyncPends(s: seq<Pending>, core: Core, mask: set<Core>, p: Page)
    requires forall i, j :: 0 <= i < j < |s| ==> !(InRange(p, s[i]) && InRange(p, s[j]))
    ensures Pends(s, p) <==> Pends(Left(s, core, mask), p) || Pends(Pushed(s, core, mask), p)
    ensures !(Pends(Left(s, core, mask), p) && Pends(Pushed(s, core, mask), p))
  {
    var left, pushed := Left(s, core, mask), Pushed(s, core, mask);
    SyncConserves(s, core, mask);
    assert forall i :: 0 <= i < |left| ==> InRange(p, left[i]) == InRange(p, s[i]);
    assert forall j :: 0 <= j < |pushed| ==> InRange(p, pushed[j]) == InRange(p, s[|s| - 1 - j]);
    if Pends(s, p) {
      var i :| 0 <= i < |s| && InRange(p, s[i]);
      if i < |left| {
        assert InRange(p, left[i]);
      } else {
        assert InRange(p, pushed[|s| - 1 - i]);
      }
    }
  }

  /** The one place where the length of a range matters: sync_addr_space invalidates only the
      first page of a recorded range. */
  lemma SyncKeepsInv(s: State, step: Step, mask: set<Core>, limit: nat, all: set<Page>)
    requires Inv(s, mask, limit, all) && Enabled(s, step, mask, limit) && step.Sync?
    requires limit <= 1 || |mask| <= 1
    ensures Inv(Next(s, step, mask), mask, limit, all)
  {
    var s' := Next(s, step, mask);
    SyncConserves(s.pending, step.core, mask);
    forall p
      ensures PlacedOnce(s', all, p)
    {
      SyncPlaces(s, step, mask, limit, all, p);
    }
    forall c, p | c in mask
      ensures Coherent(s', c, p)
    {
      SyncCoherent(s, step, mask, limit, all, c, p);
    }
  }

  lemma SyncCoherent(s: State, step: Step, mask: set<Core>, limit: nat, all: set<Page>, c: Core, p: Page)
    requires Inv(s, mask, limit, all) && Enabled(s, step, mask, limit) && step.Sync? && c in mask
    requires limit <= 1 || |mask| <= 1
    ensures Coherent(Next(s, step, mask), c, p)
  {
    var s' := Next(s, step, mask);
    assert Coherent(s, c, p);
    if Excused(s, c, p) {
      var k :| 0 <= k < |s.pending| && InRange(p, s.pending[k]) && c !in s.pending[k].cores;
      StaleIsFirst(s.pending[k], mask, limit, c, p);
      assert s.pending[k] in s.pending && p in Virts(s.pending);
      if c != step.core {
        StillThere(s.pending, step.core, mask, k, c);
        assert InRange(p, s'.pending[k]) && c !in s'.pending[k].cores;
      }
    }
  }

  /** Where the property holds, a stale page is the first of its range. */
  lemma StaleIsFirst(e: Pending, mask: set<Core>, limit: nat, c: Core, p: Page)
    requires GoodEntry(e, mask, limit) && InRange(p, e) && c in mask && c !in e.cores
    requires limit <= 1 || |mask| <= 1
    ensures p == e.virt
  {
    OnlyCore(e.cores, mask, c);
  }

  /** An entry that still misses a core other than the one synchronising stays on the stack. */
  lemma {:induction false} StillThere(s: seq<Pending>, core: Core, mask: set<Core>, k: nat, c: Core)
    requires k < |s| && c !in s[k].cores && c in mask && c != core
    ensures k < |Left(s, core, mask)| && Left(s, core, mask)[k] == Mark(s[k], core)
  {
    if Mark(s[|s| - 1], core).cores == mask && k < |s| - 1 {
      StillThere(s[..|s| - 1], core, mask, k, c);
    }
  }

  lemma OnlyCore(cores: set<Core>, mask: set<Core>, c: Core)
    requires cores <= mask && cores != {} && c in mask
    ensures |mask| <= 1 ==> c in cores
  {
    var d :| d in cores;
    if d != c {
      SubsetSize({c, d}, mask);
    }
  }

  // ---------------------------------------------------------------- whole runs

  lemma {:induction false} RunKeepsInv(s: State, steps: seq<Step>, mask: set<Core>, limit: nat, all: set<Page>)
    requires Inv(s, mask, limit, all) && IsRun(s, steps, mask, limit)
    requires limit <= 1 || |mask| <= 1
    ensures Inv(After(s, steps, mask, limit), mask, limit, all)
    decreases |steps|
  {
    if steps != [] {
      match steps[0] {
        case MapPage(_, _, _) => MapKeepsInv(s, steps[0], mask, limit, all);
        case FreeRange(_, _, _) => FreeKeepsInv(s, steps[0], mask, limit, all);
        case Refill(_, _) => RefillKeepsInv(s, steps[0], mask, limit, all);
        case MoveWindow(_, _) => RefillKeepsInv(s, steps[0], mask, limit, all);
        case Sync(_) => SyncKeepsInv(s, steps[0], mask, limit, all);
      }
      RunKeepsInv(Next(s, steps[0], mask), steps[1..], mask, limit, all);
    }
  }

  lemma InvIsSafe(s: State, mask: set<Core>, limit: nat, all: set<Page>)
    requires Inv(s, mask, limit, all)
    ensures Safe(s)
  {
    forall c, p | c in s.tlb
      ensures Coherent(s, c, p) && (p in s.free ==> p !in s.tlb[c])
    {
      if p in s.free {
        FreeNotCached(s, mask, limit, all, c, p);
      }
    }
  }

  ghost predicate AlwaysSafe(mask: set<Core>, limit: nat) {
    forall free, steps {:trigger IsRun(Init(mask, free), steps, mask, limit)} ::
      IsRun(Init(mask, free), steps, mask, limit) ==> Safe(After(Init(mask, free), steps, mask, limit))
  }

  /** The protocol is safe in every run exactly when kvmm_free gets single pages or there is
      only one core. */
  lemma ShootdownSafeIff(mask: set<Core>, limit: nat)
    ensures AlwaysSafe(mask, limit) <==> limit <= 1 || |mask| <= 1
  {
    if limit <= 1 || |mask| <= 1 {
      forall free, steps | IsRun(Init(mask, free), steps, mask, limit)
        ensures Safe(After(Init(mask, free), steps, mask, limit))
      {
        forall p
          ensures PlacedOnce(Init(mask, free), free - {WINDOW}, p)
        {
        }
        RunKeepsInv(Init(mask, free), steps, mask, limit, free - {WINDOW});
        InvIsSafe(After(Init(mask, free), steps, mask, limit), mask, limit, free - {WINDOW});
      }
    } else {
      var c0, c1 := TwoCores(mask);
      var free, steps := UnsafeRun(mask, limit, c0, c1);
    }
  }

  lemma TwoCores(mask: set<Core>) returns (c0: Core, c1: Core)
    requires |mask| > 1
    ensures c0 in mask && c1 in mask && c0 != c1
  {
    c0 :| c0 in mask;
    assert |mask - {c0}| > 0;
    c1 :| c1 in mask - {c0};
  }

  function Syncs(schedule: seq<Core>): (r: seq<Step>)
    ensures |r| == |schedule| && forall i :: 0 <= i < |schedule| ==> r[i] == Sync(schedule[i])
  {
    seq(|schedule|, i requires 0 <= i < |schedule| => Sync(schedule[i]))
  }

  lemma {:induction false} Enumerate(mask: set<Core>) returns (schedule: seq<Core>)
    ensures forall c :: c in schedule <==> c in mask
    decreases mask
  {
    if mask == {} {
      schedule := [];
    } else {
      var c :| c in mask;
      schedule := Enumerate(mask - {c});
      schedule := [c] + schedule;
    }
  }

  /** Core `c1` caches the second page of a two-page range that was freed at once. */
  ghost predicate SecondPageCached(s: State, mask: set<Core>, c1: Core) {
    && s.tlb.Keys == mask && c1 in mask && 11 in s.tlb[c1]
    && (s.pending == [] ==> 11 in s.free)
    && (s.pending != [] ==>
          && |s.pending| == 1 && s.pending[0].virt == 10
          && s.pending[0].length == 2 && s.pending[0].cores <= mask)
  }

  lemma {:induction false} SyncsKeepSecondPage(s: State, schedule: seq<Core>, mask: set<Core>, limit: nat, c1: Core)
    requires SecondPageCached(s, mask, c1) && forall c :: c in schedule ==> c in mask
    ensures IsRun(s, Syncs(schedule), mask, limit)
    ensures SecondPageCached(After(s, Syncs(schedule), mask, limit), mask, c1)
    ensures After(s, Syncs(schedule), mask, limit).pending == LeftAfter(s.pending, schedule, mask)
    decreases |schedule|
  {
    if schedule != [] {
      var s' := Next(s, Sync(schedule[0]), mask);
      OneSync(s, schedule[0], mask, c1);
      SyncsKeepSecondPage(s', schedule[1..], mask, limit, c1);
      assert Syncs(schedule)[1..] == Syncs(schedule[1..]);
      LeftAfterFirst(s.pending, schedule, mask);
    }
  }

  lemma OneSync(s: State, core: Core, mask: set<Core>, c1: Core)
    requires SecondPageCached(s, mask, c1) && core in mask
    ensures SecondPageCached(Next(s, Sync(core), mask), mask, c1)
  {
    var s' := Next(s, Sync(core), mask);
    SyncConserves(s.pending, core, mask);
    if s.pending != [] && s'.pending == [] {
      var pushed := Pushed(s.pending, core, mask);
      assert InRange(11, pushed[0]);
      PagesOfExact(pushed, 11);
    }
  }

  lemma {:induction false} LeftAfterFirst(s: seq<Pending>, schedule: seq<Core>, mask: set<Core>)
    requires schedule != []
    ensures LeftAfter(s, schedule, mask) == LeftAfter(Left(s, schedule[0], mask), schedule[1..], mask)
    decreases |schedule|
  {
    if |schedule| == 1 {
      assert LeftAfter(s, schedule[..0], mask) == s;
    } else {
      LeftAfterFirst(s, schedule[..|schedule| - 1], mask);
      assert schedule[..|schedule| - 1][1..] == schedule[1..][..|schedule| - 2];
    }
  }

  function UnsafeStart(c0: Core, c1: Core): seq<Step> {
    [MapPage(c0, 10, 5), MapPage(c0, 11, 6), Refill(c1, 11), FreeRange(c0, 10, 2)]
  }

  /** Where the four steps lead. */
  function UnsafeStates(mask: set<Core>, c0: Core, c1: Core): (r: seq<State>)
    requires c0 in mask && c1 in mask
    ensures |r| == 5
  {
    var s0 := Init(mask, {10, 11});
    var s1 := Next(s0, MapPage(c0, 10, 5), mask);
    var s2 := Next(s1, MapPage(c0, 11, 6), mask);
    var s3 := Next(s2, Refill(c1, 11), mask);
    [s0, s1, s2, s3, Next(s3, FreeRange(c0, 10, 2), mask)]
  }

  lemma UnsafeStartEnabled(mask: set<Core>, limit: nat, c0: Core, c1: Core)
    requires c0 in mask && c1 in mask && c0 != c1 && limit >= 2
    ensures var r, steps := UnsafeStates(mask, c0, c1), UnsafeStart(c0, c1);
            && Enabled(r[0], steps[0], mask, limit) && Enabled(r[1], steps[1], mask, limit)
            && Enabled(r[2], steps[2], mask, limit) && Enabled(r[3], steps[3], mask, limit)
            && SecondPageCached(r[4], mask, c1)
  {
    var r := UnsafeStates(mask, c0, c1);
    assert r[2].pt == map[10 := 5, 11 := 6];
    assert Range(10, 2) == {10, 11};
  }

  lemma UnsafeStartRuns(mask: set<Core>, limit: nat, c0: Core, c1: Core) returns (start: seq<Step>, s4: State)
    requires c0 in mask && c1 in mask && c0 != c1 && limit >= 2
    ensures IsRun(Init(mask, {10, 11}), start, mask, limit) && s4 == After(Init(mask, {10, 11}), start, mask, limit)
    ensures SecondPageCached(s4, mask, c1)
  {
    var r := UnsafeStates(mask, c0, c1);
    UnsafeStartEnabled(mask, limit, c0, c1);
    s4 := r[4];
    assert IsRun(s4, [], mask, limit) && After(s4, [], mask, limit) == s4;
    hide Enabled, Next, IsRun, After, SecondPageCached;
    Prepend(r[3], FreeRange(c0, 10, 2), [], mask, limit);
    var last := [FreeRange(c0, 10, 2)] + [];
    Prepend(r[2], Refill(c1, 11), last, mask, limit);
    Prepend(r[1], MapPage(c0, 11, 6), [Refill(c1, 11)] + last, mask, limit);
    Prepend(r[0], MapPage(c0, 10, 5), [MapPage(c0, 11, 6)] + ([Refill(c1, 11)] + last), mask, limit);
    start := [MapPage(c0, 10, 5)] + ([MapPage(c0, 11, 6)] + ([Refill(c1, 11)] + last));
  }

  lemma {:induction false} RunsConcat(s: State, a: seq<Step>, b: seq<Step>, mask: set<Core>, limit: nat)
    requires IsRun(s, a, mask, limit) && IsRun(After(s, a, mask, limit), b, mask, limit)
    ensures IsRun(s, a + b, mask, limit)
    ensures After(s, a + b, mask, limit) == After(After(s, a, mask, limit), b, mask, limit)
    decreases |a|
  {
    if a == [] {
      assert a + b == b;
    } else {
      assert (a + b)[1..] == a[1..] + b;
      RunsConcat(Next(s, a[0], mask), a[1..], b, mask, limit);
    }
  }

  /** Page 10, mapped by `c0`, cached by `c1`, and freed by `c0`. */
  function FreedPage(c0: Core, c1: Core): State
    requires c0 != c1
  {
    var mask := {c0, c1};
    var s1 := Next(Init(mask, {10}), MapPage(c0, 10, 5), mask);
    Next(Next(s1, Refill(c1, 10), mask), FreeRange(c0, 10, 1), mask)
  }

  lemma FreedPageIs(c0: Core, c1: Core)
    requires c0 != c1
    ensures var mask, s := {c0, c1}, Init({c0, c1}, {10});
            var s1 := Next(s, MapPage(c0, 10, 5), mask);
            && Enabled(s, MapPage(c0, 10, 5), mask, 1) && Enabled(s1, Refill(c1, 10), mask, 1)
            && Enabled(Next(s1, Refill(c1, 10), mask), FreeRange(c0, 10, 1), mask, 1)
    ensures FreedPage(c0, c1)
         == State(map[], map[c0 := map[], c1 := map[10 := 5]], [Pending(10, 1, {c0})], {})
  {
    var mask := {c0, c1};
    var s1 := Next(Init(mask, {10}), MapPage(c0, 10, 5), mask);
    assert s1 == State(map[10 := 5], map[c0 := map[], c1 := map[]], [], {});
    var s2 := Next(s1, Refill(c1, 10), mask);
    assert s2.tlb[c1] == map[10 := 5] && s2.tlb[c0] == map[] && s2.tlb.Keys == mask;
    assert Range(10, 1) == {10};
  }

  /** The way of a single page on two cores: after its free it is still cached by the other core and not free; as
      soon as that core has synchronised it is free and cached nowhere. */
  lemma PageReturns(c0: Core, c1: Core)
    requires c0 != c1
    ensures var s := FreedPage(c0, c1);
            && Enabled(s, Sync(c1), {c0, c1}, 1) && s.tlb[c1] == map[10 := 5] && s.free == {}
            && Next(s, Sync(c1), {c0, c1}) == State(map[], map[c0 := map[], c1 := map[]], [], {10})
  {
    FreedPageIs(c0, c1);
    hide FreedPage;
    OneEntrySynced(Pending(10, 1, {c0}), c1, {c0, c1});
    assert Range(10, 1) == {10};
  }

  lemma OneEntrySynced(e: Pending, c: Core, mask: set<Core>)
    requires e.cores + {c} == mask
    ensures Left([e], c, mask) == [] && Virts([e]) == {e.virt}
    ensures PagesOf(Pushed([e], c, mask)) == Range(e.virt, e.length)
  {
    assert [e][..0] == [];
    var done := Mark(e, c);
    assert Pushed([e], c, mask) == [done];
    assert [done][..0] == [] && PagesOf([]) == {};
  }

  lemma CachedAndFree(s: State, mask: set<Core>, c1: Core)
    requires SecondPageCached(s, mask, c1) && s.pending == []
    ensures !Safe(s)
  {
    assert !(Coherent(s, c1, 11) && (11 in s.free ==> 11 !in s.tlb[c1]));
  }

  /** Two cores and a free of two pages: core `c1` still caches page 11 when it is free again. */
  lemma UnsafeRun(mask: set<Core>, limit: nat, c0: Core, c1: Core) returns (free: set<Page>, steps: seq<Step>)
    requires c0 in mask && c1 in mask && c0 != c1 && limit >= 2
    ensures IsRun(Init(mask, free), steps, mask, limit)
    ensures !Safe(After(Init(mask, free), steps, mask, limit))
  {
    free := {10, 11};
    var schedule := Enumerate(mask);
    var start, s4 := UnsafeStartRuns(mask, limit, c0, c1);
    steps := ThenSync(Init(mask, free), start, s4, mask, limit, schedule, c1);
  }

  lemma ThenSync(s0: State, start: seq<Step>, s4: State, mask: set<Core>, limit: nat, schedule: seq<Core>, c1: Core)
    returns (steps: seq<Step>)
    requires IsRun(s0, start, mask, limit) && s4 == After(s0, start, mask, limit) && SecondPageCached(s4, mask, c1)
    requires forall c :: c in schedule <==> c in mask
    ensures IsRun(s0, steps, mask, limit) && !Safe(After(s0, steps, mask, limit))
  {
    hide IsRun, After, Safe, LeftAfter, Syncs;
    SyncsKeepSecondPage(s4, schedule, mask, limit, c1);
    Drain(s4.pending, schedule, mask);
    RunsConcat(s0, start, Syncs(schedule), mask, limit);
    CachedAndFree(After(s4, Syncs(schedule), mask, limit), mask, c1);
    steps := start + Syncs(schedule);
  }

  lemma Prepend(s: State, step: Step, steps: seq<Step>, mask: set<Core>, limit: nat)
    requires Enabled(s, step, mask, limit) && IsRun(Next(s, step, mask), steps, mask, limit)
    ensures IsRun(s, [step] + steps, mask, limit)
    ensures After(s, [step] + steps, mask, limit) == After(Next(s, step, mask), steps, mask, limit)
  {
    assert ([step] + steps)[1..] == steps;
  }

  // ---------------------------------------------------------------- drain

  /** The cores that synchronise in a run, in order. */
  function SyncCores(steps: seq<Step>): (r: seq<Core>)
    ensures forall c :: c in r <==> Sync(c) in steps
  {
    if steps == [] then []
    else
      assert forall x :: x in steps <==> x == steps[0] || x in steps[1..];
      (if steps[0].Sync? then [steps[0].core] else []) + SyncCores(steps[1..])
  }

  lemma {:induction false} PendingFollowsSyncs(s: State, steps: seq<Step>, mask: set<Core>, limit: nat)
    requires IsRun(s, steps, mask, limit)
    requires forall x :: x in steps ==> !x.FreeRange?
    ensures After(s, steps, mask, limit).pending == LeftAfter(s.pending, SyncCores(steps), mask)
    decreases |steps|
  {
    if steps != [] {
      assert steps[0] in steps;
      PendingFollowsSyncs(Next(s, steps[0], mask), steps[1..], mask, limit);
      if steps[0].Sync? {
        assert SyncCores(steps)[1..] == SyncCores(steps[1..]);
        LeftAfterFirst(s.pending, SyncCores(steps), mask);
      } else {
        assert SyncCores(steps) == SyncCores(steps[1..]);
        assert Next(s, steps[0], mask).pending == s.pending;
      }
    }
  }

  lemma {:induction false} OnlyMaskSteps(s: State, steps: seq<Step>, mask: set<Core>, limit: nat)
    requires IsRun(s, steps, mask, limit)
    ensures forall x :: x in steps ==> x.core in mask
    decreases |steps|
  {
    if steps != [] {
      OnlyMaskSteps(Next(s, steps[0], mask), steps[1..], mask, limit);
    }
  }

  /** If no range is added while every core synchronises at least once, nothing is pending any
      more, whatever else happens in between. */
  lemma DrainsInEveryRun(s: State, steps: seq<Step>, mask: set<Core>, limit: nat, all: set<Page>)
    requires Inv(s, mask, limit, all) && IsRun(s, steps, mask, limit) && mask != {}
    requires forall x :: x in steps ==> !x.FreeRange?
    requires forall c :: c in mask ==> Sync(c) in steps
    ensures After(s, steps, mask, limit).pending == []
  {
    PendingFollowsSyncs(s, steps, mask, limit);
    OnlyMaskSteps(s, steps, mask, limit);
    assert forall e :: e in s.pending ==> e.cores <= mask;
    Drain(s.pending, SyncCores(steps), mask);
  }
}
