/** The loops of vmm_malloc and kvmm_free_unsafe in src/kernel/mm/vmm.c, through the window page and with any TLB,
    perform the steps of KernelMemory.dfy. */
module MmuSteps {
  import opened Basics
  import opened PageTables
  import opened Vmm
  import KernelMemory

  type State = KernelMemory.State

  /** `k` is in state `s`: the window's own entry, which each core and each walk rewrites, is set aside. */
  ghost predicate Represents(k: Mmu, s: State, all: set<Frame>)
    reads k
  {
    && k.Valid() && s.m == k.Rest() && s.free == k.free && s.startup == k.startup && k.current in s.contexts
    && KernelMemory.Inv(s, k.own, all)
  }

  /** The frames of tables are those that are neither free nor behind a live page. */
  lemma OwnedFrames(s: State, own: Labels, all: set<Frame>)
    requires KernelMemory.Inv(s, own, all)
    ensures own.Keys == all - SetOf(s.free) - s.live.Values
    ensures GoodFree(own, s.free)
  {
  }

  /** The labels may be others of the same frames. */
  lemma OtherLabels(s: State, own: Labels, own': Labels, all: set<Frame>)
    requires KernelMemory.Inv(s, own, all) && own.Keys == own'.Keys && WellFormed(s.m, own', s.free)
    requires forall c :: c in s.contexts ==> IsContext(own', c)
    ensures KernelMemory.Inv(s, own', all)
  {
    hide GoodLabels, GoodCells, Lookup;
  }

  /** All contexts stay contexts under labels that grow. */
  lemma StillContexts(s: State, own: Labels, free: seq<Frame>, own1: Labels, free1: seq<Frame>)
    requires KernelMemory.Spaces(s, own) && Grows(own, free, own1, free1)
    ensures forall c :: c in s.contexts ==> IsContext(own1, c)
  {
    ContextsSurvive(own, free, own1, free1);
  }

  lemma MallocKeys(own: Labels, free: seq<Frame>, live: set<Frame>, own1: Labels, free1: seq<Frame>, all: set<Frame>)
    requires free != [] && own.Keys == all - SetOf(free) - live && SetOf(free) <= all && live <= all
    requires GoodFree(own, free) && GoodFree(own1, free1) && live !! SetOf(free)
    requires Grows(own, free[1..], own1, free1)
    ensures own1.Keys == all - SetOf(free1) - (live + {free[0]})
  {
    assert free == [free[0]] + free[1..];
    assert free[0] !in free[1..];
    forall f
      ensures f in own1 <==> f in all && f !in free1 && f !in live && f != free[0]
    {
    }
  }

  lemma MallocInv(s: State, own: Labels, own1: Labels, all: set<Frame>, c: Context, page: Page)
    requires KernelMemory.Inv(s, own, all) && KernelMemory.Enabled(s, KernelMemory.Malloc(c, page))
    requires var s' := KernelMemory.Next(s, KernelMemory.Malloc(c, page));
             WellFormed(s'.m, own1, s'.free) && Grows(own, s.free[1..], own1, s'.free)
    ensures KernelMemory.Inv(KernelMemory.Next(s, KernelMemory.Malloc(c, page)), own1, all)
  {
    var s', key := KernelMemory.Next(s, KernelMemory.Malloc(c, page)), KernelMemory.KeyOf(c, page);
    var own' := KernelMemory.MallocKeepsInv(s, own, all, c, page);
    OwnedFrames(s, own, all);
    OwnedFrames(s', own', all);
    KernelMemory.ValuesAfterAdd(s.live, key, s.free[0]);
    MallocKeys(own, s.free, s.live.Values, own1, s'.free, all);
    StillContexts(s, own, s.free[1..], own1, s'.free);
    OtherLabels(s', own', own1, all);
  }

  /** vmm_malloc, one page for any space. */
  method MallocPage(k: Mmu, c: Context, page: Page, ghost s: State, ghost all: set<Frame>)
    requires Represents(k, s, all) && KernelMemory.Enabled(s, KernelMemory.Malloc(c, page))
    modifies k
    ensures Represents(k, KernelMemory.Next(s, KernelMemory.Malloc(c, page)), all) && page !in k.tlb
  {
    hide GoodLabels, GoodCells, GoodFree, Lookup, Missing, MapFrom, Grows;
    hide KernelMemory.Reserved, KernelMemory.Injective;
    ghost var own := k.own;
    var f := k.MallocPage(c, page, KernelMemory.Flags(page));
    BlankIsWellFormed(k.mem, k.own, k.free, k.current);
    MallocInv(s, own, k.own, all, c, page);
  }

  lemma FreeKeys(own: Labels, free: seq<Frame>, live: set<Frame>, f: Frame, own1: Labels, free1: seq<Frame>,
                 all: set<Frame>)
    requires own.Keys == all - SetOf(free) - live && SetOf(free) <= all && live <= all && f in live
    requires GoodFree(own1, free1) && live !! SetOf(free) && Grows(own, [f] + free, own1, free1)
    ensures own1.Keys == all - SetOf(free1) - (live - {f})
  {
    forall g
      ensures g in own1 <==> g in all && g !in free1 && (g !in live || g == f)
    {
      assert g in [f] + free <==> g == f || g in free;
    }
  }

  lemma FreeInv(s: State, own: Labels, own1: Labels, all: set<Frame>, c: Context, page: Page)
    requires KernelMemory.Inv(s, own, all) && KernelMemory.Enabled(s, KernelMemory.Free(c, page))
    requires var s', f := KernelMemory.Next(s, KernelMemory.Free(c, page)), s.live[KernelMemory.KernelKey(page)];
             WellFormed(s'.m, own1, s'.free) && Grows(own, [f] + s.free, own1, s'.free)
    ensures KernelMemory.Inv(KernelMemory.Next(s, KernelMemory.Free(c, page)), own1, all)
  {
    var s', key := KernelMemory.Next(s, KernelMemory.Free(c, page)), KernelMemory.KernelKey(page);
    var own' := KernelMemory.FreeKeepsInv(s, own, all, c, page);
    OwnedFrames(s, own, all);
    OwnedFrames(s', own', all);
    KernelMemory.ValuesAfterRemove(s.live, key);
    FreeKeys(own, s.free, s.live.Values, s.live[key], own1, s'.free, all);
    StillContexts(s, own, [s.live[key]] + s.free, own1, s'.free);
    OtherLabels(s', own', own1, all);
  }

  /** What the tables show for a page to be freed. */
  lemma LivePage(m: Memory, s: State, own: Labels, all: set<Frame>, c: Context, page: Page)
    requires KernelMemory.Inv(s, own, all) && KernelMemory.Enabled(s, KernelMemory.Free(c, page))
    requires WellFormed(m, own, s.free) && c.pt in m && s.m == Blank(m, c.pt)
    ensures page != WINDOW && IsContext(own, s.startup)
    ensures var g := s.live[KernelMemory.KernelKey(page)];
            && g == Lookup(m, c.root, page).frame == Lookup(s.m, c.root, page).frame
            && g != 0 && g !in own && g !in s.free
    ensures Missing(s.m, s.startup.root, page, 0) == 0
  {
    hide GoodLabels, GoodCells, GoodFree;
    assert IsContext(own, c);
    assert KernelMemory.Backed(s.m, s.live, c, page) && KernelMemory.Backed(s.m, s.live, s.startup, page);
    WindowWrite(m, own, s.free, c, ZERO_ENTRY);
    assert SameLookup(s.m, m, c, page);
    KernelMemory.MappedMissesNothing(s.m, own, s.free, s.startup.root, page, 0);
  }

  /** kvmm_free_unsafe, one page. */
  method FreePage(k: Mmu, page: Page, ghost s: State, ghost all: set<Frame>)
    requires Represents(k, s, all) && KernelMemory.Enabled(s, KernelMemory.Free(k.current, page))
    modifies k
    ensures k.current == old(k.current)
    ensures Represents(k, KernelMemory.Next(s, KernelMemory.Free(k.current, page)), all) && page !in k.tlb
  {
    hide GoodLabels, GoodCells, GoodFree, Lookup, Missing, MapFrom, Grows;
    hide KernelMemory.Reserved, KernelMemory.Injective;
    ghost var own := k.own;
    LivePage(k.mem, s, own, all, k.current, page);
    var f := k.KvmmFreePage(page);
    BlankIsWellFormed(k.mem, k.own, k.free, k.current);
    FreeInv(s, own, k.own, all, k.current, page);
  }

  /** Another core goes on in the same state, whatever its TLB holds. */
  method SwitchCore(k: Mmu, cached: map<Page, Frame>, context: Context, ghost s: State, ghost all: set<Frame>)
    requires Represents(k, s, all) && context in s.contexts
    modifies k
    ensures Represents(k, s, all) && k.tlb == cached && k.current == context
  {
    hide GoodLabels, GoodCells, GoodFree, Lookup;
    assert IsContext(k.own, context);
    ContextHasWindow(k.mem, k.own, k.free, k.current, context);
    k.SwitchCore(cached, context);
  }
}
