/** How pmm_init (src/kernel/mm/pmm.c) and the first vmm_crcontext (src/kernel/mm/vmm.c) start the runs of
    KernelMemory.dfy, and what the memory map must look like for that. */
module Boot {
  import opened Basics
  import opened PageTables
  import Pmm
  import Vmm
  import opened KernelMemory

  /** The frames pmm_malloc_4k hands out after pmm_init, in order. */
  function Frames(regions: seq<Pmm.Region>): seq<Frame> {
    var all := Pmm.AllFrames(regions);
    seq(|all|, i requires 0 <= i < |all| => all[i] / Pmm.PAGE_SIZE)
  }

  ghost predicate Usable(regions: seq<Pmm.Region>, f: Frame) {
    exists i :: 0 <= i < |regions| && Pmm.InRegion(regions[i], f * Pmm.PAGE_SIZE)
  }

  lemma FramesAreUsable(regions: seq<Pmm.Region>, f: Frame)
    requires Pmm.Ascending(regions)
    ensures f in Frames(regions) <==> Usable(regions, f)
  {
    var all := Pmm.AllFrames(regions);
    Pmm.FramesDistinct(regions);
    Pmm.FramesAligned(regions);
    assert f * Pmm.PAGE_SIZE % Pmm.PAGE_SIZE == 0 && f * Pmm.PAGE_SIZE / Pmm.PAGE_SIZE == f;
    if Usable(regions, f) {
      assert f * Pmm.PAGE_SIZE in all;
      var i :| 0 <= i < |all| && all[i] == f * Pmm.PAGE_SIZE;
      assert Frames(regions)[i] == f;
    }
    if f in Frames(regions) {
      var i :| 0 <= i < |all| && Frames(regions)[i] == f;
      assert all[i] in all && all[i] == f * Pmm.PAGE_SIZE;
    }
  }

  lemma DifferentFrames(a: nat, b: nat)
    requires a % Pmm.PAGE_SIZE == 0 && b % Pmm.PAGE_SIZE == 0 && a != b
    ensures a / Pmm.PAGE_SIZE != b / Pmm.PAGE_SIZE
  {
  }

  lemma FramesDiffer(regions: seq<Pmm.Region>)
    requires Pmm.Ascending(regions)
    ensures Distinct(Frames(regions))
  {
    var all := Pmm.AllFrames(regions);
    Pmm.FramesDistinct(regions);
    Pmm.FramesAligned(regions);
    forall i, j | 0 <= i < j < |all|
      ensures Frames(regions)[i] != Frames(regions)[j]
    {
      DifferentFrames(all[i], all[j]);
    }
  }

  /** The stack holds neither frame 0 nor a table exactly if the memory map calls none of these usable:
      the fill loop does not look at the frames that were marked used. */
  lemma GoodFreeIff(regions: seq<Pmm.Region>, own: Labels)
    requires Pmm.Ascending(regions)
    ensures GoodFree(own, Frames(regions)) <==> !Usable(regions, 0) && forall f :: f in own ==> !Usable(regions, f)
  {
    var free := Frames(regions);
    FramesDiffer(regions);
    FramesAreUsable(regions, 0);
    forall f | f in own
      ensures f in free <==> Usable(regions, f)
    {
      FramesAreUsable(regions, f);
    }
  }

  /** The state in which the first allocation finds the kernel: one space, nothing handed out. */
  function Start(m: Memory, tables: seq<Frame>, free: seq<Frame>, kernel: set<Page>): State
    requires |tables| == 4
  {
    var c := Context(tables[0], tables[1], tables[2], tables[3]);
    State(m, free, c, {c}, map[], set p | p in kernel :: KernelKey(p), {}, {})
  }

  lemma StartIsGood(m: Memory, tables: seq<Frame>, free: seq<Frame>, kernel: set<Page>)
    requires Vmm.BootTables(m, tables) && GoodFree(Vmm.BootLabels(tables), free) && WINDOW !in kernel
    ensures Inv(Start(m, tables, free, kernel), Vmm.BootLabels(tables), SetOf(free) + SetOf(tables))
  {
    assert forall f :: f in tables ==> f in Vmm.BootLabels(tables);
    Vmm.BootWellFormed(m, tables, free);
    assert Vmm.BootLabels(tables).Keys == SetOf(tables);
  }

  /** The pages vmm_init puts on the range stack of the kernel: those of the usable regions in kernel space. */
  ghost function KernelPages(regions: seq<Pmm.Region>): (r: set<Page>)
    ensures forall p: Page :: p in r <==> p < 0x4_0000 && Usable(regions, p)
  {
    set p: Page | p < KERNEL_PAGES && Usable(regions, p)
  }

  /** What the memory map must leave out. */
  ghost predicate LeavesOut(regions: seq<Pmm.Region>, tables: seq<Frame>) {
    !Usable(regions, 0) && !Usable(regions, WINDOW) && forall f :: f in tables ==> !Usable(regions, f)
  }

  /** Each frame has one owner at the start, under some labels, and the window is not handed out, exactly if
      the map leaves out frame 0, the first tables and the address of the window. */
  lemma StartIsGoodIff(regions: seq<Pmm.Region>, m: Memory, tables: seq<Frame>)
    requires Pmm.Ascending(regions) && Vmm.BootTables(m, tables)
    ensures (exists own, all :: Inv(Start(m, tables, Frames(regions), KernelPages(regions)), own, all))
            <==> LeavesOut(regions, tables)
  {
    var s, first := Start(m, tables, Frames(regions), KernelPages(regions)), Vmm.BootLabels(tables);
    if LeavesOut(regions, tables) {
      GoodFreeIff(regions, first);
      StartIsGood(m, tables, s.free, KernelPages(regions));
    }
    if own, all :| Inv(s, own, all) {
      TablesAreOwned(s, own, all);
      GoodFreeIff(regions, own);
      WindowIsKept(s, own, all);
      assert WINDOW in KernelPages(regions) ==> KernelKey(WINDOW) in s.virt;
    }
  }

  lemma WindowIsKept(s: State, own: Labels, all: set<Frame>)
    requires Inv(s, own, all)
    ensures KernelKey(WINDOW) !in s.virt
  {
  }

  lemma TablesAreOwned(s: State, own: Labels, all: set<Frame>)
    requires Inv(s, own, all)
    ensures s.startup.root in own && s.startup.pdpt in own && s.startup.pd in own && s.startup.pt in own
    ensures GoodFree(own, s.free)
  {
  }

  /** With such a memory map every run from there keeps one owner for each frame of the map and each of
      the first tables. */
  lemma OwnershipFromBoot(regions: seq<Pmm.Region>, m: Memory, tables: seq<Frame>, steps: seq<Step>)
    returns (own: Labels)
    requires Pmm.Ascending(regions) && Vmm.BootTables(m, tables) && LeavesOut(regions, tables)
    requires IsRun(Start(m, tables, Frames(regions), KernelPages(regions)), steps)
    ensures Inv(After(Start(m, tables, Frames(regions), KernelPages(regions)), steps), own,
                SetOf(Frames(regions)) + SetOf(tables))
  {
    var first, free, kernel := Vmm.BootLabels(tables), Frames(regions), KernelPages(regions);
    GoodFreeIff(regions, first);
    StartIsGood(m, tables, free, kernel);
    own := OwnershipInEveryRun(Start(m, tables, free, kernel), first, SetOf(free) + SetOf(tables), steps);
  }

  // ---------------------------------------------------------------- other memory maps

  /** A memory map that calls just frame `f` usable. */
  function Only(f: Frame): seq<Pmm.Region> {
    [Pmm.Region(f * Pmm.PAGE_SIZE, Pmm.PAGE_SIZE, 1)]
  }

  lemma OnlyFrame(f: Frame)
    ensures Pmm.Ascending(Only(f)) && Frames(Only(f)) == [f]
  {
    var r := Only(f)[0];
    assert Pmm.AlignedBase(r.base) == f * Pmm.PAGE_SIZE && Pmm.MaskedLength(r.length) == Pmm.PAGE_SIZE;
    assert Pmm.Addresses(r.base, r.base + Pmm.PAGE_SIZE) == [r.base];
    assert Only(f)[..0] == [];
    assert Pmm.AllFrames(Only(f)) == [r.base];
  }

  /** A map that calls frame 0 or a table usable is stacked all the same. */
  lemma BadMap(own: Labels, f: Frame)
    requires f == 0 || f in own
    ensures Pmm.Ascending(Only(f)) && !GoodFree(own, Frames(Only(f)))
  {
    OnlyFrame(f);
    assert Frames(Only(f))[0] == f;
  }

  /** With the root of the first space on the stack the first allocation makes it a page: what is written
      there are the entries of the root. */
  lemma TableHandedOut(m: Memory, tables: seq<Frame>, kernel: set<Page>, page: Page)
    requires Vmm.BootTables(m, tables) && page in kernel && page < 512
    ensures var s := Start(m, tables, Frames(Only(tables[0])), kernel);
            var step := Malloc(s.startup, page);
            && IsRun(s, [step]) && KernelKey(page) in After(s, [step]).live
            && After(s, [step]).live[KernelKey(page)] == s.startup.root
            && Lookup(After(s, [step]).m, s.startup.root, page).frame == s.startup.root
  {
    var s := Start(m, tables, Frames(Only(tables[0])), kernel);
    var c := s.startup;
    OnlyFrame(tables[0]);
    FirstPages(m, tables, page, [], Entry(FLG_KERNEL, tables[0]));
    assert [Malloc(c, page)][1..] == [];
  }

  /** The pages of the first table are mapped without a new table. */
  lemma FirstPages(m: Memory, tables: seq<Frame>, page: Page, free: seq<Frame>, e: Entry)
    requires Vmm.BootTables(m, tables) && page < 512
    ensures Missing(m, tables[0], page, 0) == 0
    ensures MapFrom(m, free, tables[0], page, 0, e) == (SetCell(m, tables[3], page, e), free)
    ensures Lookup(SetCell(m, tables[3], page, e), tables[0], page) == e
  {
    assert Index(page, 0) == 0 && Index(page, 1) == 0 && Index(page, 2) == 0 && Index(page, 3) == page;
    assert forall j :: 0 <= j < 3 ==> m[tables[j]][0] == Entry(FLG_USER, tables[j + 1]);
    assert forall j {:trigger Cell(m, tables[j], 0)} :: 0 <= j < 3 ==>
      Cell(m, tables[j], 0) == Entry(FLG_USER, tables[j + 1]);
    assert Missing(m, tables[3], page, 3) == 0;
    assert Missing(m, tables[2], page, 2) == 0;
    assert Missing(m, tables[1], page, 1) == 0;
    assert MapFrom(m, free, tables[2], page, 2, e) == (SetCell(m, tables[3], page, e), free);
    assert MapFrom(m, free, tables[1], page, 1, e) == (SetCell(m, tables[3], page, e), free);
    var m' := SetCell(m, tables[3], page, e);
    assert LookupFrom(m', tables[2], page, 2) == e && LookupFrom(m', tables[1], page, 1) == e;
  }
}
