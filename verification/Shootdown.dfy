/** The deferred TLB shootdown of src/kernel/mm/vmm.c: kvmm_free unmaps a range and records it
    on the stack of ranges to invalidate (vmm_remind_to_mark_free); every core invalidates
    what is recorded when its timer fires (sync_addr_space), and a range goes back to the
    free list when all cores have done so. Each locked section is one step. */
module Shootdown {
  import PageTables

  type Core = nat
  type Page = nat
  type Frame = nat

  const WINDOW: Page := PageTables.WINDOW
  const MAX_STACK_INVLD_SIZ: nat := 100

  /** struct to_invalid, with the bit set as a set of cores and the length in pages. */
  datatype Pending = Pending(virt: Page, length: nat, cores: set<Core>)

  predicate InRange(p: Page, e: Pending) {
    e.virt <= p < e.virt + e.length
  }

  // ---------------------------------------------------------------- the stack

  function Mark(e: Pending, core: Core): Pending {
    e.(cores := e.cores + {core})
  }

  function MarkAll(s: seq<Pending>, core: Core): (r: seq<Pending>)
    ensures |r| == |s| && forall i :: 0 <= i < |s| ==> r[i] == Mark(s[i], core)
  {
    seq(|s|, i requires 0 <= i < |s| => Mark(s[i], core))
  }

  /** What is left of the stack (top last) after `core` ran sync_addr_space: every entry is
      marked, and complete entries leave from the top only. */
  function Left(s: seq<Pending>, core: Core, mask: set<Core>): seq<Pending> {
    if s == [] then []
    else if Mark(s[|s| - 1], core).cores == mask then Left(s[..|s| - 1], core, mask)
    else MarkAll(s, core)
  }

  /** The entries pushed to the free list meanwhile, in the order of the pushes. */
  function Pushed(s: seq<Pending>, core: Core, mask: set<Core>): seq<Pending> {
    if s == [] then []
    else if Mark(s[|s| - 1], core).cores == mask then [Mark(s[|s| - 1], core)] + Pushed(s[..|s| - 1], core, mask)
    else []
  }

  /** Nothing is lost or doubled: the entries left, then those pushed, last push first, are
      the entries there were, all marked. */
  lemma {:induction false} SyncConserves(s: seq<Pending>, core: Core, mask: set<Core>)
    ensures |Left(s, core, mask)| + |Pushed(s, core, mask)| == |s|
    ensures forall i :: 0 <= i < |Left(s, core, mask)| ==> Left(s, core, mask)[i] == Mark(s[i], core)
    ensures forall i :: 0 <= i < |Pushed(s, core, mask)| ==> Pushed(s, core, mask)[i] == Mark(s[|s| - 1 - i], core)
    ensures forall e :: e in Pushed(s, core, mask) ==> e.cores == mask
    ensures Left(s, core, mask) != [] ==> Left(s, core, mask)[|Left(s, core, mask)| - 1].cores != mask
  {
    if s != [] && Mark(s[|s| - 1], core).cores == mask {
      SyncConserves(s[..|s| - 1], core, mask);
    }
  }

  /** Every core of `schedule` runs sync_addr_space in turn. */
  function LeftAfter(s: seq<Pending>, schedule: seq<Core>, mask: set<Core>): seq<Pending>
    decreases |schedule|
  {
    if schedule == [] then s else Left(LeftAfter(s, schedule[..|schedule| - 1], mask), schedule[|schedule| - 1], mask)
  }

  lemma {:induction false} LeftIsMarked(s: seq<Pending>, schedule: seq<Core>, mask: set<Core>)
    requires forall e :: e in s ==> e.cores <= mask
    requires forall c :: c in schedule ==> c in mask
    ensures forall e, c :: e in LeftAfter(s, schedule, mask) && c in schedule ==> c in e.cores
    ensures forall e :: e in LeftAfter(s, schedule, mask) ==> e.cores <= mask
    decreases |schedule|
  {
    if schedule != [] {
      var before := schedule[..|schedule| - 1];
      var was, left := LeftAfter(s, before, mask), LeftAfter(s, schedule, mask);
      LeftIsMarked(s, before, mask);
      SyncConserves(was, schedule[|schedule| - 1], mask);
      forall i, c | 0 <= i < |left| && c in schedule
        ensures c in left[i].cores && left[i].cores <= mask
      {
        assert was[i] in was && (c in before || c == schedule[|schedule| - 1]);
      }
    }
  }

  lemma AllComplete(s: seq<Pending>, schedule: seq<Core>, mask: set<Core>)
    requires forall e :: e in s ==> e.cores <= mask
    requires forall c :: c in schedule <==> c in mask
    ensures forall e :: e in LeftAfter(s, schedule, mask) ==> e.cores == mask
  {
    LeftIsMarked(s, schedule, mask);
    forall e | e in LeftAfter(s, schedule, mask)
      ensures mask <= e.cores
    {
      assert forall c :: c in mask ==> c in schedule;
    }
  }

  /** Once every core has synchronised the stack is empty, although only its top may leave. */
  lemma Drain(s: seq<Pending>, schedule: seq<Core>, mask: set<Core>)
    requires forall e :: e in s ==> e.cores <= mask
    requires forall c :: c in schedule <==> c in mask
    requires mask != {}
    ensures LeftAfter(s, schedule, mask) == []
  {
    var c :| c in mask;
    assert c in schedule;
    AllComplete(s, schedule, mask);
    SyncConserves(LeftAfter(s, schedule[..|schedule| - 1], mask), schedule[|schedule| - 1], mask);
  }

  /** The stack as the kernel keeps it: slot 0 is never used, `ptr` is the slot of the top. */
  class InvalidStack {
    var slots: array<Pending>
    var ptr: nat
    var tlb: set<Page>              // the pages cached by the core that runs
    var freed: seq<Pending>         // what kvmm_push_free was called with, in order

    ghost predicate Valid()
      reads this
    {
      slots.Length == MAX_STACK_INVLD_SIZ && ptr < MAX_STACK_INVLD_SIZ
    }

    ghost function Contents(): seq<Pending>
      requires Valid()
      reads this, slots
    {
      slots[1..ptr + 1]
    }

    constructor (tlb: set<Page>)
      ensures Valid() && Contents() == [] && fresh(slots) && this.tlb == tlb && freed == []
    {
      slots := new Pending[MAX_STACK_INVLD_SIZ](_ => Pending(0, 0, {}));
      ptr := 0;
      this.tlb := tlb;
      freed := [];
    }

    /** vmm_remind_to_mark_free. The guard of the code is `ptr < 100`; with the top in slot 99 it
        would write slot 100, which is outside the array, and that write is not modelled. */
    method RemindToMarkFree(core: Core, page: Page, length: nat) returns (inside: bool)
      requires Valid()
      modifies this`ptr, slots
      ensures Valid() && inside == (|old(Contents())| < 99)
      ensures Contents() == old(Contents()) + if inside then [Pending(page, length, {core})] else []
    {
      inside := ptr + 1 < slots.Length;
      if ptr < MAX_STACK_INVLD_SIZ && inside {
        ptr := ptr + 1;
        slots[ptr] := Pending(page, length, {core});
      }
    }

    /** The body of the loop in sync_addr_space, on slot `cur`. */
    method SyncEntry(core: Core, mask: set<Core>, cur: nat)
      requires Valid() && 0 < cur <= ptr
      modifies this`ptr, this`tlb, this`freed, slots
      ensures Valid() && tlb == old(tlb) - {old(slots[cur].virt)}
      ensures slots[cur] == Mark(old(slots[cur]), core)
      ensures forall i :: 0 <= i < slots.Length && i != cur ==> slots[i] == old(slots[i])
      ensures if slots[cur].cores == mask && cur == old(ptr) then ptr == cur - 1 && freed == old(freed) + [slots[cur]]
              else ptr == old(ptr) && freed == old(freed)
    {
      tlb := tlb - {slots[cur].virt};
      slots[cur] := slots[cur].(cores := slots[cur].cores + {core});
      if slots[cur].cores == mask && cur == ptr {
        freed := freed + [slots[cur]];
        ptr := ptr - 1;
      }
    }

    /** The entries above slot `cur` are marked, those up to it are still to come. */
    ghost predicate MarkedAbove(s: seq<Pending>, core: Core, cur: nat)
      reads this, slots
    {
      && Valid() && cur <= ptr <= |s|
      && (forall i :: 1 <= i <= cur ==> slots[i] == s[i - 1])
      && (forall i :: cur < i <= ptr ==> slots[i] == Mark(s[i - 1], core))
    }

    /** sync_addr_space on `core`. */
    method SyncAddrSpace(core: Core, mask: set<Core>)
      requires Valid()
      modifies this`ptr, this`tlb, this`freed, slots
      ensures Valid()
      ensures Contents() == Left(old(Contents()), core, mask)
      ensures freed == old(freed) + Pushed(old(Contents()), core, mask)
      ensures tlb == old(tlb) - Virts(old(Contents()))
    {
      hide Virts, LeavesFrom, Left, Pushed;
      ghost var s := Contents();
      ghost var left, target := Left(s, core, mask), freed + Pushed(s, core, mask);
      var cur: nat := ptr;
      NothingDone(s, freed, core, mask);
      while cur > 0
        invariant MarkedAbove(s, core, cur)
        invariant LeavesFrom(s, cur, ptr, freed, left, target, core, mask)
        invariant tlb == old(tlb) - Virts(s[cur..])
      {
        VirtsStep(s, cur);
        LeavesStep(s, cur, ptr, freed, left, target, core, mask);
        SyncEntry(core, mask, cur);
        cur := cur - 1;
      }
      NothingAhead(s, ptr, freed, left, target, core, mask);
      AllMarked(s, core);
    }

    lemma AllMarked(s: seq<Pending>, core: Core)
      requires MarkedAbove(s, core, 0)
      ensures Contents() == MarkAll(s[..ptr], core)
    {
    }
  }

  /** With `cur` entries to come and the top in slot `ptr`, the stack will end as `left` and the
      pushes as `target`. */
  ghost predicate LeavesFrom(s: seq<Pending>, cur: nat, ptr: nat, freed: seq<Pending>,
                             left: seq<Pending>, target: seq<Pending>, core: Core, mask: set<Core>)
    requires cur <= ptr <= |s|
  {
    if cur == ptr then left == Left(s[..cur], core, mask) && target == freed + Pushed(s[..cur], core, mask)
    else left == MarkAll(s[..ptr], core) && target == freed
  }

  lemma LeavesStep(s: seq<Pending>, cur: nat, ptr: nat, freed: seq<Pending>,
                   left: seq<Pending>, target: seq<Pending>, core: Core, mask: set<Core>)
    requires 0 < cur <= ptr <= |s| && LeavesFrom(s, cur, ptr, freed, left, target, core, mask)
    ensures var e := Mark(s[cur - 1], core);
            if e.cores == mask && cur == ptr then LeavesFrom(s, cur - 1, ptr - 1, freed + [e], left, target, core, mask)
            else LeavesFrom(s, cur - 1, ptr, freed, left, target, core, mask)
  {
    if cur == ptr {
      var e := Mark(s[cur - 1], core);
      assert s[..cur][..cur - 1] == s[..cur - 1];
      assert freed + ([e] + Pushed(s[..cur - 1], core, mask)) == freed + [e] + Pushed(s[..cur - 1], core, mask);
    }
  }

  lemma NothingAhead(s: seq<Pending>, ptr: nat, freed: seq<Pending>,
                     left: seq<Pending>, target: seq<Pending>, core: Core, mask: set<Core>)
    requires ptr <= |s| && LeavesFrom(s, 0, ptr, freed, left, target, core, mask)
    ensures left == MarkAll(s[..ptr], core) && target == freed && s[0..] == s
  {
  }

  lemma NothingDone(s: seq<Pending>, freed: seq<Pending>, core: Core, mask: set<Core>)
    ensures LeavesFrom(s, |s|, |s|, freed, Left(s, core, mask), freed + Pushed(s, core, mask), core, mask)
    ensures Virts(s[|s|..]) == {}
  {
    assert s[..|s|] == s;
  }

  function Virts(s: seq<Pending>): set<Page> {
    set e | e in s :: e.virt
  }

  lemma VirtsStep(s: seq<Pending>, cur: nat)
    requires 0 < cur <= |s|
    ensures Virts(s[cur - 1..]) == Virts(s[cur..]) + {s[cur - 1].virt}
  {
    assert s[cur - 1..] == [s[cur - 1]] + s[cur..];
    forall v | v in Virts(s[cur..])
      ensures v in Virts(s[cur - 1..])
    {
      var e :| e in s[cur..] && e.virt == v;
      assert e in s[cur - 1..];
    }
    assert s[cur - 1] in s[cur - 1..];
  }
}
