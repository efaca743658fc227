/** vmm_map, virt_to_phys_unsafe and vmm_crcontext of src/kernel/mm/vmm.c (x86_64) with
    paging active: the tables are reached through one window page, TMP_PAGEBUF, which is
    remapped by a recursive vmm_map at every level of the walk. */
module Vmm {
  import opened PageTables
  import opened Basics

  const PAGE_SIZE: nat := 0x1000
  const TMP_PAGEBUF: nat := 0x1000
  const PAGING_HIER_SIZE: nat := 4

  /** How the kernel reaches a table: the roots and first tables sit in kernel space at an
      address of their own, any other table is looked at through the window. */
  datatype Pointer = Direct(frame: Frame) | Window

  /** The memory without the window's own last-level entry, which every walk rewrites. */
  ghost function Blank(m: Memory, window: Frame): Memory
    requires window in m
  {
    SetCell(m, window, 1, ZERO_ENTRY)
  }

  /** The tables on the window's path are present, so mapping the window creates none. */
  ghost predicate WindowPath(m: Memory, c: Context) {
    && c.root in m && Present(m[c.root][0]) && m[c.root][0].frame == c.pdpt
    && c.pdpt in m && Present(m[c.pdpt][0]) && m[c.pdpt][0].frame == c.pd
    && c.pd in m && Present(m[c.pd][0]) && m[c.pd][0].frame == c.pt
    && c.pt in m
  }

  lemma WindowIndex(level: nat)
    requires level < 4
    ensures Index(WINDOW, level) == if level == 3 then 1 else 0
  {
  }

  lemma WindowLookup(m: Memory, c: Context)
    requires WindowPath(m, c)
    ensures Lookup(m, c.root, WINDOW) == m[c.pt][1]
  {
    assert Index(WINDOW, 0) == 0 && Index(WINDOW, 1) == 0 && Index(WINDOW, 2) == 0 && Index(WINDOW, 3) == 1;
    assert LookupFrom(m, c.pt, WINDOW, 3) == m[c.pt][1];
    assert LookupFrom(m, c.pd, WINDOW, 2) == m[c.pt][1];
    assert LookupFrom(m, c.pdpt, WINDOW, 1) == m[c.pt][1];
  }

  /** A context's path to the window, as labels promise it. */
  lemma ContextHasWindow(m: Memory, own: Labels, free: seq<Frame>, c: Context, d: Context)
    requires WellFormed(m, own, free) && IsContext(own, c) && IsContext(own, d)
    ensures WindowPath(m, c) && c.pt == d.pt
    ensures Lookup(m, c.root, WINDOW) == m[c.pt][1]
  {
    FirstTables(m, own, free, c);
    WindowLookup(m, c);
  }

  ghost predicate SameLookup(m': Memory, m: Memory, d: Context, q: Page) {
    Lookup(m', d.root, q) == Lookup(m, d.root, q)
  }

  /** Rewriting the window's entry disturbs no other page of any space. */
  lemma WindowWrite(m: Memory, own: Labels, free: seq<Frame>, c: Context, e: Entry)
    requires WellFormed(m, own, free) && IsContext(own, c)
    ensures WellFormed(SetCell(m, c.pt, 1, e), own, free)
    ensures forall d, q: Page {:trigger SameLookup(SetCell(m, c.pt, 1, e), m, d, q)} ::
              IsContext(own, d) && q != WINDOW ==> SameLookup(SetCell(m, c.pt, 1, e), m, d, q)
  {
    var w := c.pt;
    LeafWriteKeepsWellFormed(m, own, free, w, 1, e);
    forall d, q: Page | IsContext(own, d) && q != WINDOW
      ensures SameLookup(SetCell(m, w, 1, e), m, d, q)
    {
      LeafWriteEffect(m, own, free, w, 1, e, d.root, q, 0);
      LeafHasLabel(m, own, free, d.root, q, 0);
      NotWindowCell(d.root, q);
    }
  }

  lemma NotWindowCell(root: Frame, q: Page)
    requires q != WINDOW
    ensures Descend(FirstNode(root, 0), q) != FirstNode(root, 3) || Index(q, 3) != 1
  {
    LeafLabel(root, q, 0);
  }

  lemma BlankIsWellFormed(m: Memory, own: Labels, free: seq<Frame>, c: Context)
    requires IsContext(own, c) && c.pt in m
    ensures WellFormed(m, own, free) <==> WellFormed(Blank(m, c.pt), own, free)
  {
    var w := c.pt;
    var b := Blank(m, w);
    if WellFormed(m, own, free) {
      WindowWrite(m, own, free, c, ZERO_ENTRY);
    }
    if WellFormed(b, own, free) {
      assert m == SetCell(b, w, 1, m[w][1]) by {
        assert m[w] == b[w][1 := m[w][1]];
      }
      WindowWrite(b, own, free, c, m[w][1]);
    }
  }

  ghost function BootLevel(tables: seq<Frame>, f: Frame): (l: nat)
    requires |tables| == 4 && f in tables
    ensures l < 4 && tables[l] == f
  {
    if f == tables[0] then 0 else if f == tables[1] then 1 else if f == tables[2] then 2 else 3
  }

  ghost function BootLabels(tables: seq<Frame>): (own: Labels)
    requires |tables| == 4 && Distinct(tables)
    ensures forall f :: f in own <==> f in tables
    ensures forall l :: 0 <= l < 4 ==> own[tables[l]] == FirstNode(tables[0], l)
  {
    map f | f in tables :: FirstNode(tables[0], BootLevel(tables, f))
  }

  /** The first tables as vmm_crcontext leaves them: each but the last points to the next. */
  ghost predicate BootTables(m: Memory, tables: seq<Frame>) {
    && |tables| == 4 && Distinct(tables) && 0 !in tables && (forall f :: f in tables ==> f in m)
    && forall j :: 0 <= j < 3 ==> m[tables[j]] == OneEntry(tables[j + 1])
  }

  /** The last of them is empty. */
  ghost predicate FirstTablesAre(m: Memory, tables: seq<Frame>) {
    BootTables(m, tables) && m[tables[3]] == ZeroTable()
  }

  /** So the first context maps nothing yet. */
  lemma FirstSpaceIsEmpty(m: Memory, tables: seq<Frame>, q: Page)
    requires FirstTablesAre(m, tables)
    ensures Lookup(m, tables[0], q) == ZERO_ENTRY
  {
    assert forall j :: 0 <= j < 3 ==> m[tables[j]] == OneEntry(tables[j + 1]);
    assert LookupFrom(m, tables[3], q, 3) == ZERO_ENTRY;
    assert LookupFrom(m, tables[2], q, 2) == ZERO_ENTRY;
    assert LookupFrom(m, tables[1], q, 1) == ZERO_ENTRY;
  }

  lemma BootParent(tables: seq<Frame>, f: Frame)
    requires |tables| == 4 && Distinct(tables) && 0 !in tables && f in tables
    ensures var own := BootLabels(tables);
            HasParent(own, f) && RootKnown(own, f) && own[f] == FirstNode(tables[0], BootLevel(tables, f))
  {
    var own, l := BootLabels(tables), BootLevel(tables, f);
    assert own[tables[l]] == FirstNode(tables[0], l);
    if l > 0 {
      assert IsParent(own, tables[l - 1], f);
    }
  }

  lemma BootGoodLabels(tables: seq<Frame>)
    requires |tables| == 4 && Distinct(tables) && 0 !in tables
    ensures GoodLabels(BootLabels(tables))
  {
    var own := BootLabels(tables);
    forall f | f in own
      ensures HasParent(own, f) && RootKnown(own, f) && own[f] == FirstNode(tables[0], BootLevel(tables, f))
    {
      BootParent(tables, f);
    }
  }

  lemma BootCell(m: Memory, tables: seq<Frame>, t: Frame, i: nat)
    requires BootTables(m, tables) && t in tables && BootLevel(tables, t) < 3 && i < 512
    ensures GoodCell(m, BootLabels(tables), t, i) && Present(m[t][0])
  {
    var own, l := BootLabels(tables), BootLevel(tables, t);
    assert own[tables[l]] == FirstNode(tables[0], l) && m[t] == OneEntry(tables[l + 1]);
    assert own[tables[l + 1]] == FirstNode(tables[0], l + 1);
    if i > 0 {
      forall f | f in own
        ensures own[f] != Child(own[t], i)
      {
        BootParent(tables, f);
      }
    }
  }

  lemma BootGoodCells(m: Memory, tables: seq<Frame>)
    requires BootTables(m, tables)
    ensures GoodCells(m, BootLabels(tables))
  {
    var own := BootLabels(tables);
    forall t, i | t in own && own[t].level < 3 && 0 <= i < 512
      ensures GoodCell(m, own, t, i) && Present(m[t][0])
    {
      BootParent(tables, t);
      BootCell(m, tables, t, i);
    }
    forall t | t in own && OnWindowPath(own[t])
      ensures Present(m[t][0])
    {
      BootParent(tables, t);
      BootCell(m, tables, t, 0);
    }
  }

  lemma BootWellFormed(m: Memory, tables: seq<Frame>, free: seq<Frame>)
    requires BootTables(m, tables) && Distinct(free) && 0 !in free && forall f :: f in tables ==> f !in free
    ensures WellFormed(m, BootLabels(tables), free)
    ensures IsContext(BootLabels(tables), Context(tables[0], tables[1], tables[2], tables[3]))
  {
    hide GoodLabels, GoodCells;
    BootGoodLabels(tables);
    BootGoodCells(m, tables);
  }

  // ---------------------------------------------------------------- what one round of the walk does

  /** Everything the walk relies on, about the values of the fields. */
  ghost predicate Good(m: Memory, own: Labels, free: seq<Frame>, c: Context, w: Frame) {
    WellFormed(m, own, free) && IsContext(own, c) && c.pt == w
  }

  /** Table `t` is the one at `level` on the way to `page`. */
  ghost predicate OnPath(own: Labels, t: Frame, root: Frame, page: Page, level: nat) {
    level < 4 && t in own && own[t].level == level && Descend(own[t], page) == Descend(FirstNode(root, 0), page)
  }

  lemma BlankForgets(m: Memory, w: Frame, e: Entry)
    requires w in m
    ensures Blank(SetCell(m, w, 1, e), w) == Blank(m, w)
  {
    assert m[w][1 := e][1 := ZERO_ENTRY] == m[w][1 := ZERO_ENTRY];
  }

  lemma BlankCommutesWithLink(m: Memory, w: Frame, t: Frame, i: nat, f: Frame)
    requires w in m && t in m && t != w && f != w && i < 512
    ensures Blank(Link(m, t, i, f), w) == Link(Blank(m, w), t, i, f)
  {
  }

  lemma MapFromEnter(b: Memory, free: seq<Frame>, t: Frame, page: Page, i: nat, e: Entry)
    requires i < 3 && t in b && Present(b[t][Index(page, i)]) && b[t][Index(page, i)].frame in b
    ensures Missing(b, b[t][Index(page, i)].frame, page, i + 1) == Missing(b, t, page, i)
    ensures MapFrom(b, free, b[t][Index(page, i)].frame, page, i + 1, e) == MapFrom(b, free, t, page, i, e)
  {
  }

  /** The window is mapped to table `t`. */
  ghost predicate Shows(m: Memory, root: Frame, t: Frame) {
    Lookup(m, root, WINDOW) == Entry(FLG_KERNEL, t)
  }

  lemma ShowInWindow(m: Memory, own: Labels, free: seq<Frame>, c: Context, w: Frame, f: Frame)
    requires Good(m, own, free, c, w)
    ensures WindowPath(m, c) && Good(SetCell(m, w, 1, Entry(FLG_KERNEL, f)), own, free, c, w)
    ensures Shows(SetCell(m, w, 1, Entry(FLG_KERNEL, f)), c.root, f)
    ensures Blank(SetCell(m, w, 1, Entry(FLG_KERNEL, f)), w) == Blank(m, w)
  {
    ContextHasWindow(m, own, free, c, c);
    WindowWrite(m, own, free, c, Entry(FLG_KERNEL, f));
    ContextHasWindow(SetCell(m, w, 1, Entry(FLG_KERNEL, f)), own, free, c, c);
    BlankForgets(m, w, Entry(FLG_KERNEL, f));
  }

  lemma DescendStep(n: Node, page: Page)
    requires n.level < 3
    ensures Descend(Child(n, Index(page, n.level)), page) == Descend(n, page)
  {
  }

  lemma EnterStep(m: Memory, own: Labels, free: seq<Frame>, c: Context, w: Frame, t: Frame, root: Frame, page: Page,
                  i: nat, e: Entry)
    requires Good(m, own, free, c, w) && i < 3 && OnPath(own, t, root, page, i) && Present(m[t][Index(page, i)])
    ensures OnPath(own, m[t][Index(page, i)].frame, root, page, i + 1)
    ensures var child := m[t][Index(page, i)].frame;
            && Missing(Blank(m, w), child, page, i + 1) == Missing(Blank(m, w), t, page, i)
            && MapFrom(Blank(m, w), free, child, page, i + 1, e) == MapFrom(Blank(m, w), free, t, page, i, e)
  {
    assert GoodCell(m, own, t, Index(page, i));
    DescendStep(own[t], page);
    assert Blank(m, w)[t] == m[t];
    MapFromEnter(Blank(m, w), free, t, page, i, e);
  }

  lemma CreateStep(m: Memory, own: Labels, free: seq<Frame>, c: Context, w: Frame, t: Frame, root: Frame, page: Page,
                   i: nat, e: Entry)
    requires Good(m, own, free, c, w) && i < 3 && OnPath(own, t, root, page, i) && !Present(m[t][Index(page, i)])
    requires free != []
    ensures var f := free[0];
            var m' := Link(m, t, Index(page, i), f);
            var own' := own[f := Child(own[t], Index(page, i))];
            && Good(m', own', free[1..], c, w) && OnPath(own', f, root, page, i + 1)
            && Missing(Blank(m', w), f, page, i + 1) == Missing(Blank(m, w), t, page, i) - 1
            && MapFrom(Blank(m', w), free[1..], f, page, i + 1, e) == MapFrom(Blank(m, w), free, t, page, i, e)
  {
    var f := free[0];
    DescendStep(own[t], page);
    LinkKeepsWellFormed(m, own, free, t, Index(page, i));
    assert Blank(m, w)[t] == m[t];
    BlankCommutesWithLink(m, w, t, Index(page, i), f);
    MapFromCreate(Blank(m, w), free, t, page, i, e);
  }

  /** The code's order (entry, window, zeroes) ends in the linked memory with the window on the new table. */
  lemma CreateThroughWindow(m: Memory, own: Labels, free: seq<Frame>, c: Context, w: Frame, t: Frame, i: nat, f: Frame)
    requires Good(m, own, free, c, w) && t in own && own[t].level < 3 && i < 512 && !Present(m[t][i])
    requires f !in own
    ensures var m1 := SetCell(m, t, i, Entry(FLG_USER, f));
            var m2 := SetCell(m1, w, 1, Entry(FLG_KERNEL, f));
            && WindowPath(m1, c) && Shows(m2, c.root, f)
            && m2[f := ZeroTable()] == SetCell(Link(m, t, i, f), w, 1, Entry(FLG_KERNEL, f))
  {
    ContextHasWindow(m, own, free, c, c);
    assert own[w].level == 3;
    var m1 := SetCell(m, t, i, Entry(FLG_USER, f));
    var m2 := SetCell(m1, w, 1, Entry(FLG_KERNEL, f));
    assert t == c.root ==> i != 0;
    WindowLookup(m2, c);
  }

  lemma BlankCommutesWithLeaf(m: Memory, w: Frame, t: Frame, i: nat, e: Entry)
    requires w in m && t in m && i < 512 && (t != w || i != 1)
    ensures Blank(SetCell(m, t, i, e), w) == SetCell(Blank(m, w), t, i, e)
  {
    if t == w {
      assert m[w][1 := ZERO_ENTRY][i := e] == m[w][i := e][1 := ZERO_ENTRY];
    }
  }

  /** The last round: the new entry goes into the table shown, and no other page changes. */
  lemma LeafStep(m: Memory, own: Labels, free: seq<Frame>, c: Context, w: Frame, t: Frame, root: Frame, page: Page,
                 e: Entry)
    requires Good(m, own, free, c, w) && OnPath(own, t, root, page, 3) && page != WINDOW
    ensures Good(SetCell(m, t, Index(page, 3), e), own, free, c, w)
    ensures MapFrom(Blank(m, w), free, t, page, 3, e) == (Blank(SetCell(m, t, Index(page, 3), e), w), free)
    ensures forall d, q: Page {:trigger SameLookup(SetCell(m, t, Index(page, 3), e), m, d, q)} ::
              IsContext(own, d) && q != page ==> SameLookup(SetCell(m, t, Index(page, 3), e), m, d, q)
  {
    var i := Index(page, 3);
    var m' := SetCell(m, t, i, e);
    LeafWriteKeepsWellFormed(m, own, free, t, i, e);
    NotWindowCell(root, page);
    BlankCommutesWithLeaf(m, w, t, i, e);
    assert Blank(m, w)[t][i := e] == Blank(m', w)[t];
    forall d, q: Page | IsContext(own, d) && q != page
      ensures SameLookup(m', m, d, q)
    {
      LeafWriteEffect(m, own, free, t, i, e, d.root, q, 0);
      LeafHasLabel(m, own, free, d.root, q, 0);
      SameCell(root, page, d.root, q);
    }
  }

  /** Outside the window and page `v` the TLB only forgets. */
  ghost predicate TlbKept(tlb': map<Page, Frame>, tlb: map<Page, Frame>, v: Page) {
    forall q {:trigger q in tlb'} :: q in tlb' && q != WINDOW && q != v ==> q in tlb && tlb'[q] == tlb[q]
  }

  lemma MissingNeedsFrames(m: Memory, w: Frame, t: Frame, page: Page, i: nat)
    requires i < 3 && w in m && t in m && t != w && !Present(m[t][Index(page, i)])
    ensures Missing(Blank(m, w), t, page, i) > 0
  {
    assert Blank(m, w)[t] == m[t];
  }

  /** The whole of creating a table, on the values of the fields. */
  lemma CreateRound(m: Memory, own: Labels, free: seq<Frame>, c: Context, t: Frame, root: Frame, page: Page, i: nat,
                    e: Entry)
    requires WellFormed(m, own, free) && IsContext(own, c) && i < 3 && OnPath(own, t, root, page, i)
    requires !Present(m[t][Index(page, i)])
    requires Missing(Blank(m, c.pt), t, page, i) <= |free|
    ensures free != []
    ensures var (f, w, index) := (free[0], c.pt, Index(page, i));
            var m1 := SetCell(m, t, index, Entry(FLG_USER, f));
            var m2 := SetCell(m1, w, 1, Entry(FLG_KERNEL, f));
            var m' := m2[f := ZeroTable()];
            var own' := own[f := Child(own[t], index)];
            && WindowPath(m1, c) && Shows(m2, c.root, f) && Shows(m', c.root, f)
            && WellFormed(m', own', free[1..]) && IsContext(own', c) && Grows(own, free, own', free[1..])
            && OnPath(own', f, root, page, i + 1)
            && Missing(Blank(m', w), f, page, i + 1) == Missing(Blank(m, w), t, page, i) - 1
            && MapFrom(Blank(m', w), free[1..], f, page, i + 1, e) == MapFrom(Blank(m, w), free, t, page, i, e)
  {
    var index := Index(page, i);
    MissingNeedsFrames(m, c.pt, t, page, i);
    CreateStep(m, own, free, c, c.pt, t, root, page, i, e);
    CreateThroughWindow(m, own, free, c, c.pt, t, index, free[0]);
    ShowInWindow(Link(m, t, index, free[0]), own[free[0] := Child(own[t], index)], free[1..], c, c.pt, free[0]);
  }

  /** The TLB once the last round reached table `t` through `cur`. */
  function TlbAfter(tlb: map<Page, Frame>, page: Page, cur: Pointer, t: Frame): map<Page, Frame> {
    if cur.Direct? then tlb - {page} else (tlb - {page})[WINDOW := t]
  }

  /** The whole of the last round, on the values of the fields. */
  lemma LeafRound(m: Memory, own: Labels, free: seq<Frame>, c: Context, t: Frame, root: Frame, page: Page, e: Entry)
    requires WellFormed(m, own, free) && IsContext(own, c) && OnPath(own, t, root, page, 3) && page != WINDOW
    ensures var m' := SetCell(m, t, Index(page, 3), e);
            && WellFormed(m', own, free)
            && MapFrom(Blank(m, c.pt), free, t, page, 3, e) == (Blank(m', c.pt), free)
  {
    LeafStep(m, own, free, c, c.pt, t, root, page, e);
  }

  /** Entry `q` of context `d` after `page` of `ctx` got the entry `e`. */
  ghost predicate MapOutcome(m0: Memory, m1: Memory, ctx: Context, page: Page, e: Entry, d: Context, q: Page) {
    Lookup(m1, d.root, q)
    == if q == page && (d.root == ctx.root || page < KERNEL_PAGES) then e else Lookup(m0, d.root, q)
  }

  /** After mapping `page` of `ctx`, every context known before translates every page but the
      window as a flat map would. */
  ghost predicate FlatMapEffect(m0: Memory, own0: Labels, m1: Memory, ctx: Context, page: Page, e: Entry) {
    forall d: Context, q: Page {:trigger MapOutcome(m0, m1, ctx, page, e, d, q)} ::
      IsContext(own0, d) && q != WINDOW ==> MapOutcome(m0, m1, ctx, page, e, d, q)
  }

  lemma MapIsFlat(m0: Memory, own0: Labels, free0: seq<Frame>, m1: Memory, own1: Labels, free1: seq<Frame>,
                  c: Context, ctx: Context, page: Page, e: Entry)
    requires WellFormed(m0, own0, free0) && IsContext(own0, c) && IsContext(own0, ctx)
    requires WellFormed(m1, own1, free1) && Grows(own0, free0, own1, free1)
    requires Missing(Blank(m0, c.pt), ctx.root, page, 0) <= |free0|
    requires (Blank(m1, c.pt), free1) == MapFrom(Blank(m0, c.pt), free0, ctx.root, page, 0, e)
    ensures FlatMapEffect(m0, own0, m1, ctx, page, e)
    ensures |free0| - 3 <= |free1|
  {
    forall d: Context, q: Page | IsContext(own0, d) && q != WINDOW
      ensures MapOutcome(m0, m1, ctx, page, e, d, q)
    {
      MapThroughWindow(m0, own0, free0, m1, own1, free1, c, ctx, page, e, d, q);
    }
    MapFromTakes(Blank(m0, c.pt), free0, ctx.root, page, 0, e);
  }

  /** The window's entry apart, mapping a page through the window has the effect of a flat map. */
  lemma MapThroughWindow(m0: Memory, own0: Labels, free0: seq<Frame>, m1: Memory, own1: Labels, free1: seq<Frame>,
                         c: Context, ctx: Context, page: Page, e: Entry, d: Context, q: Page)
    requires WellFormed(m0, own0, free0) && IsContext(own0, c) && IsContext(own0, ctx) && IsContext(own0, d)
    requires WellFormed(m1, own1, free1) && Grows(own0, free0, own1, free1)
    requires Missing(Blank(m0, c.pt), ctx.root, page, 0) <= |free0|
    requires (Blank(m1, c.pt), free1) == MapFrom(Blank(m0, c.pt), free0, ctx.root, page, 0, e)
    requires q != WINDOW
    ensures MapOutcome(m0, m1, ctx, page, e, d, q)
  {
    BlankIsWellFormed(m0, own0, free0, c);
    var own', k := MapRefinesFlatMap(Blank(m0, c.pt), own0, free0, ctx, page, e);
    WindowWrite(m0, own0, free0, c, ZERO_ENTRY);
    WindowWrite(m1, own1, free1, c, ZERO_ENTRY);
    assert SameLookup(Blank(m0, c.pt), m0, d, q);
    assert SameLookup(Blank(m1, c.pt), m1, d, q);
  }

  /** One round of virt_to_phys_unsafe: either the table below is absent and so is the page,
      or it is the next one on the path. */
  lemma ReadStep(m: Memory, own: Labels, free: seq<Frame>, t: Frame, root: Frame, page: Page, i: nat)
    requires WellFormed(m, own, free) && i < 3 && OnPath(own, t, root, page, i)
    ensures var f := m[t][Index(page, i)].frame;
            && (f == 0 ==> LookupFrom(m, t, page, i) == ZERO_ENTRY)
            && (f != 0 ==>
                  && OnPath(own, f, root, page, i + 1)
                  && LookupFrom(m, t, page, i) == LookupFrom(m, f, page, i + 1))
  {
    assert GoodCell(m, own, t, Index(page, i));
    DescendStep(own[t], page);
  }

  /** What virt_to_phys_unsafe knows before round `i`: `f` is the table below, 0 if there is none. */
  ghost predicate ReadSoFar(m: Memory, own: Labels, root: Frame, page: Page, i: nat, f: Frame)
    requires i < 4
  {
    && (f == 0 ==> LookupFrom(m, root, page, 0) == ZERO_ENTRY)
    && (f != 0 ==> OnPath(own, f, root, page, i) && LookupFrom(m, root, page, 0) == LookupFrom(m, f, page, i))
  }

  /** The same with both ends: `f` is the frame read in round `i - 1`. */
  ghost predicate Found(m: Memory, own: Labels, ctx: Context, page: Page, i: nat, f: Frame) {
    if page == WINDOW then f == ctx.First(i)
    else if i < 4 then ReadSoFar(m, own, ctx.root, page, i, f)
    else f == LookupFrom(m, ctx.root, page, 0).frame
  }

  lemma FoundFirst(m: Memory, own: Labels, free: seq<Frame>, ctx: Context, page: Page)
    requires WellFormed(m, own, free) && IsContext(own, ctx)
    ensures Found(m, own, ctx, page, 1, m[ctx.root][Index(page, 0)].frame)
  {
    if page == WINDOW {
      WindowIndex(0);
      FirstTables(m, own, free, ctx);
    } else {
      FoundRoot(m, own, free, ctx, page);
    }
  }

  lemma FoundRoot(m: Memory, own: Labels, free: seq<Frame>, ctx: Context, page: Page)
    requires WellFormed(m, own, free) && IsContext(own, ctx)
    ensures ReadSoFar(m, own, ctx.root, page, 1, m[ctx.root][Index(page, 0)].frame)
  {
    ReadStep(m, own, free, ctx.root, ctx.root, page, 0);
  }

  lemma FoundZero(m: Memory, own: Labels, free: seq<Frame>, ctx: Context, page: Page, i: nat)
    requires WellFormed(m, own, free) && IsContext(own, ctx) && Found(m, own, ctx, page, i, 0)
    ensures page != WINDOW && LookupFrom(m, ctx.root, page, 0).frame == 0
  {
  }

  /** What the kernel reads in slot `Index(page, i)` of table `f` while the window shows `f`. */
  ghost predicate IsRead(m: Memory, w: Frame, page: Page, i: nat, f: Frame, g: Frame)
    requires i < 4
  {
    f in m && g == if f == w && Index(page, i) == 1 then f else m[f][Index(page, i)].frame
  }

  lemma FoundNext(m: Memory, own: Labels, free: seq<Frame>, ctx: Context, page: Page, i: nat, f: Frame, g: Frame)
    requires WellFormed(m, own, free) && IsContext(own, ctx) && 1 <= i < 4 && f != 0 && Found(m, own, ctx, page, i, f)
    requires IsRead(m, ctx.pt, page, i, f, g)
    ensures Found(m, own, ctx, page, i + 1, g)
  {
    if page == WINDOW {
      FoundNextOfWindow(m, own, free, ctx, i, f, g);
    } else if i < 3 {
      FoundInner(m, own, free, ctx, page, i, f, g);
    } else {
      FoundLast(m, own, ctx, page, f, g);
    }
  }

  lemma FoundNextOfWindow(m: Memory, own: Labels, free: seq<Frame>, ctx: Context, i: nat, f: Frame, g: Frame)
    requires WellFormed(m, own, free) && IsContext(own, ctx) && 1 <= i < 4 && Found(m, own, ctx, WINDOW, i, f)
    requires IsRead(m, ctx.pt, WINDOW, i, f, g)
    ensures Found(m, own, ctx, WINDOW, i + 1, g)
  {
    WindowIndex(i);
    FirstTables(m, own, free, ctx);
    assert i < 3 ==> f != ctx.pt;
  }

  lemma FoundInner(m: Memory, own: Labels, free: seq<Frame>, ctx: Context, page: Page, i: nat, f: Frame, g: Frame)
    requires WellFormed(m, own, free) && IsContext(own, ctx) && 1 <= i < 3 && f != 0
    requires ReadSoFar(m, own, ctx.root, page, i, f)
    requires IsRead(m, ctx.pt, page, i, f, g)
    ensures ReadSoFar(m, own, ctx.root, page, i + 1, g)
  {
    assert f != ctx.pt;
    ReadStep(m, own, free, f, ctx.root, page, i);
  }

  lemma FoundLast(m: Memory, own: Labels, ctx: Context, page: Page, f: Frame, g: Frame)
    requires IsContext(own, ctx) && page != WINDOW && f != 0 && ReadSoFar(m, own, ctx.root, page, 3, f)
    requires IsRead(m, ctx.pt, page, 3, f, g)
    ensures g == LookupFrom(m, ctx.root, page, 0).frame
  {
    NotWindowCell(ctx.root, page);
    assert LookupFrom(m, f, page, 3) == m[f][Index(page, 3)];
  }

  ghost predicate MapsTo(m: Memory, c: Context, v: Page, f: Frame) {
    Lookup(m, c.root, v) == Entry(FLG_KERNEL, f)
  }

  /** The frame behind page `v` holds zeros only. */
  ghost predicate Cleared(m: Memory, c: Context, v: Page) {
    Lookup(m, c.root, v).frame in m && m[Lookup(m, c.root, v).frame] == ZeroTable()
  }

  /** What one kernel page looks like after another one, or itself, was mapped. */
  lemma AfterKernelMap(m0: Memory, m1: Memory, s: Context, page: Page, f: Frame, d: Context, q: Page)
    requires MapOutcome(m0, m1, s, page, Entry(FLG_KERNEL, f), d, q) && page < KERNEL_PAGES
    ensures q != page ==> SameLookup(m1, m0, d, q) && forall g :: MapsTo(m0, d, q, g) ==> MapsTo(m1, d, q, g)
    ensures q == page ==> MapsTo(m1, d, q, f)
  {
  }

  lemma SameMapsTo(m1: Memory, m0: Memory, own: Labels, d: Context, q: Page, f: Frame)
    requires SameSpaces(m1, m0, own) && IsContext(own, d) && q != WINDOW && MapsTo(m0, d, q, f)
    ensures MapsTo(m1, d, q, f)
  {
    assert SameLookup(m1, m0, d, q);
  }

  /** Three kernel pages mapped one after the other. */
  lemma ThreeMaps(own0: Labels, own1: Labels, own2: Labels, m0: Memory, m1: Memory, m2: Memory, m3: Memory,
                  s: Context, c: Context,
                  v0: Page, v1: Page, v2: Page, f0: Frame, f1: Frame, f2: Frame)
    requires v0 < KERNEL_PAGES && v1 < KERNEL_PAGES && v2 < KERNEL_PAGES
    requires v0 != WINDOW && v1 != WINDOW && v2 != WINDOW && v0 != v1 && v0 != v2 && v1 != v2
    requires FlatMapEffect(m0, own0, m1, s, v0, Entry(FLG_KERNEL, f0))
    requires FlatMapEffect(m1, own1, m2, s, v1, Entry(FLG_KERNEL, f1))
    requires FlatMapEffect(m2, own2, m3, s, v2, Entry(FLG_KERNEL, f2))
    requires forall d :: IsContext(own0, d) ==> IsContext(own1, d) && IsContext(own2, d)
    requires IsContext(own0, c)
    ensures MapsTo(m3, c, v0, f0) && MapsTo(m3, c, v1, f1) && MapsTo(m3, c, v2, f2)
    ensures SameButPages(m3, m0, own0, v0, v1, v2)
  {
    assert MapOutcome(m0, m1, s, v0, Entry(FLG_KERNEL, f0), c, v0);
    AfterKernelMap(m0, m1, s, v0, f0, c, v0);
    assert MapOutcome(m1, m2, s, v1, Entry(FLG_KERNEL, f1), c, v0);
    assert MapOutcome(m1, m2, s, v1, Entry(FLG_KERNEL, f1), c, v1);
    AfterKernelMap(m1, m2, s, v1, f1, c, v0);
    AfterKernelMap(m1, m2, s, v1, f1, c, v1);
    assert MapOutcome(m2, m3, s, v2, Entry(FLG_KERNEL, f2), c, v0);
    assert MapOutcome(m2, m3, s, v2, Entry(FLG_KERNEL, f2), c, v1);
    assert MapOutcome(m2, m3, s, v2, Entry(FLG_KERNEL, f2), c, v2);
    AfterKernelMap(m2, m3, s, v2, f2, c, v0);
    AfterKernelMap(m2, m3, s, v2, f2, c, v1);
    AfterKernelMap(m2, m3, s, v2, f2, c, v2);
    forall d, q: Page | IsContext(own0, d) && q != WINDOW && q != v0 && q != v1 && q != v2
      ensures SameLookup(m3, m0, d, q)
    {
      ThreeMapsElsewhere(own0, own1, own2, m0, m1, m2, m3, s, v0, v1, v2, f0, f1, f2, d, q);
    }
  }

  lemma ThreeMapsElsewhere(own0: Labels, own1: Labels, own2: Labels, m0: Memory, m1: Memory, m2: Memory, m3: Memory,
                           s: Context,
                           v0: Page, v1: Page, v2: Page, f0: Frame, f1: Frame, f2: Frame, d: Context, q: Page)
    requires v0 < KERNEL_PAGES && v1 < KERNEL_PAGES && v2 < KERNEL_PAGES
    requires FlatMapEffect(m0, own0, m1, s, v0, Entry(FLG_KERNEL, f0)) && IsContext(own0, d)
    requires FlatMapEffect(m1, own1, m2, s, v1, Entry(FLG_KERNEL, f1)) && IsContext(own1, d)
    requires FlatMapEffect(m2, own2, m3, s, v2, Entry(FLG_KERNEL, f2)) && IsContext(own2, d)
    requires q != WINDOW && q != v0 && q != v1 && q != v2
    ensures SameLookup(m3, m0, d, q)
  {
    assert MapOutcome(m0, m1, s, v0, Entry(FLG_KERNEL, f0), d, q);
    AfterKernelMap(m0, m1, s, v0, f0, d, q);
    assert MapOutcome(m1, m2, s, v1, Entry(FLG_KERNEL, f1), d, q);
    AfterKernelMap(m1, m2, s, v1, f1, d, q);
    assert MapOutcome(m2, m3, s, v2, Entry(FLG_KERNEL, f2), d, q);
    AfterKernelMap(m2, m3, s, v2, f2, d, q);
  }

  /** Space `c` agrees with `s` on the kernel's pages and maps nothing else. */
  ghost predicate OnlyKernel(m: Memory, s: Context, c: Context, q: Page) {
    Lookup(m, c.root, q) == if q < KERNEL_PAGES then Lookup(m, s.root, q) else ZERO_ENTRY
  }

  lemma SpaceIsNew(m: Memory, own: Labels, free: seq<Frame>, s: Context, c: Context)
    requires WellFormed(m, own, free) && IsContext(own, s) && IsContext(own, c)
    requires m[c.root] == OneEntry(c.pdpt) && m[c.pdpt] == OneEntry(c.pd)
    ensures forall q: Page {:trigger OnlyKernel(m, s, c, q)} :: OnlyKernel(m, s, c, q)
  {
    forall q: Page
      ensures OnlyKernel(m, s, c, q)
    {
      NewSpaceLookup(m, own, free, s, c, q);
    }
  }

  /** Labelling the two tables turns them into a context, and keeps the others. */
  lemma SpaceAdded(m: Memory, own: Labels, free: seq<Frame>, s: Context, c: Context, own': Labels)
    requires CanAddSpace(m, own, free, s, c.root, c.pdpt) && AddsSpace(own, own', c.root, c.pdpt)
    requires c.pd == s.pd && c.pt == s.pt
    ensures WellFormed(m, own', free) && IsContext(own', c) && !IsContext(own, c)
    ensures KeepsContexts(own, own')
    ensures forall q: Page {:trigger OnlyKernel(m, s, c, q)} :: OnlyKernel(m, s, c, q)
  {
    NewSpace(m, own, free, s, c.root, c.pdpt, own');
    SpaceIsNew(m, own', free, s, c);
  }

  lemma ThenSame(m2: Memory, m1: Memory, m0: Memory, own0: Labels, own1: Labels, v0: Page, v1: Page, v2: Page)
    requires KeepsContexts(own0, own1)
    requires SameSpaces(m2, m1, own1)
    requires SameButPages(m1, m0, own0, v0, v1, v2)
    ensures SameButPages(m2, m0, own0, v0, v1, v2)
  {
    forall d, q: Page | IsContext(own0, d) && q != WINDOW && q != v0 && q != v1 && q != v2
      ensures SameLookup(m2, m0, d, q)
    {
      assert SameLookup(m2, m1, d, q) && SameLookup(m1, m0, d, q);
    }
  }

  lemma Overwrite(m: Memory, f: Frame, g: Frame)
    ensures ZeroTable()[0 := Entry(FLG_USER, g)] == OneEntry(g)
    ensures m[f := ZeroTable()][f := OneEntry(g)] == m[f := OneEntry(g)]
  {
  }

  lemma OtherTable(m': Memory, m: Memory, w: Frame, f: Frame)
    requires w in m && w in m' && f in m && f != w && Blank(m', w) == Blank(m, w)
    ensures f in m' && m'[f] == m[f]
  {
    assert f in Blank(m, w);
    assert m'[f] == Blank(m', w)[f] && m[f] == Blank(m, w)[f];
  }

  lemma TwoTables(m: Memory, b: Memory, w: Frame, f: Frame, g: Frame, h: Frame)
    requires w in m && f != g && f != w && g != w
    requires Blank(m, w) == b[f := OneEntry(g)][g := OneEntry(h)]
    ensures f in m && m[f] == OneEntry(g) && g in m && m[g] == OneEntry(h)
  {
    assert f in Blank(m, w) && g in Blank(m, w);
    assert m[f] == Blank(m, w)[f] && m[g] == Blank(m, w)[g];
  }

  /** Contexts survive as labels are added. */
  lemma ContextsSurvive(own: Labels, free: seq<Frame>, own': Labels, free': seq<Frame>)
    requires Grows(own, free, own', free')
    ensures KeepsContexts(own, own')
  {
  }

  /** All contexts translate every page but the window alike in both memories. */
  ghost predicate SameSpaces(m': Memory, m: Memory, own: Labels) {
    forall d, q: Page {:trigger SameLookup(m', m, d, q)} :: IsContext(own, d) && q != WINDOW ==> SameLookup(m', m, d, q)
  }

  lemma SameSpacesTrans(m2: Memory, m1: Memory, m0: Memory, own: Labels)
    requires SameSpaces(m2, m1, own) && SameSpaces(m1, m0, own)
    ensures SameSpaces(m2, m0, own)
  {
    forall d, q: Page | IsContext(own, d) && q != WINDOW
      ensures SameLookup(m2, m0, d, q)
    {
      assert SameLookup(m2, m1, d, q) && SameLookup(m1, m0, d, q);
    }
  }

  /** Writing a frame that holds no table changes no translation. */
  lemma ForeignPage(m: Memory, own: Labels, free: seq<Frame>, c: Context, f: Frame, t: Table)
    requires WellFormed(m, own, free) && IsContext(own, c) && f !in own
    ensures WellFormed(m[f := t], own, free)
    ensures SameSpaces(m[f := t], m, own) && Blank(m[f := t], c.pt) == Blank(m, c.pt)[f := t]
  {
    ForeignWrite(m, own, free, f, t);
    var m' := m[f := t];
    forall d, q: Page | IsContext(own, d)
      ensures SameLookup(m', m, d, q)
    {
      ForeignWriteLookup(m, own, free, f, t, d.root, q, 0);
    }
  }

  ghost predicate KeepsContexts(own: Labels, own': Labels) {
    forall d {:trigger IsContext(own', d)} :: IsContext(own, d) ==> IsContext(own', d)
  }

  lemma KeepsContextsTrans(own: Labels, own1: Labels, own': Labels)
    requires KeepsContexts(own, own1) && KeepsContexts(own1, own')
    ensures KeepsContexts(own, own')
  {
    forall d | IsContext(own, d)
      ensures IsContext(own', d)
    {
      assert IsContext(own1, d);
    }
  }

  /** All contexts translate every page but the window and three others alike. */
  ghost predicate SameButPages(m': Memory, m: Memory, own: Labels, v0: Page, v1: Page, v2: Page) {
    forall d, q: Page {:trigger SameLookup(m', m, d, q)} ::
      IsContext(own, d) && q != WINDOW && q != v0 && q != v1 && q != v2 ==> SameLookup(m', m, d, q)
  }

  /** If nothing but the window's entry differs, the spaces are the same. */
  lemma SameRest(m': Memory, m: Memory, own: Labels, free: seq<Frame>, c: Context)
    requires WellFormed(m, own, free) && WellFormed(m', own, free) && IsContext(own, c)
    requires Blank(m', c.pt) == Blank(m, c.pt)
    ensures SameSpaces(m', m, own)
  {
    WindowWrite(m, own, free, c, ZERO_ENTRY);
    WindowWrite(m', own, free, c, ZERO_ENTRY);
    forall d, q: Page | IsContext(own, d) && q != WINDOW
      ensures SameLookup(m', m, d, q)
    {
      assert SameLookup(Blank(m, c.pt), m, d, q) && SameLookup(Blank(m', c.pt), m', d, q);
    }
  }

  /** Labels are only ever added, and to all frames that are free no more. */
  ghost predicate Grows(own: Labels, free: seq<Frame>, own': Labels, free': seq<Frame>) {
    && (forall f :: f in own ==> f in own' && own'[f] == own[f])
    && (forall f :: f in own' ==> f in own || f in free)
    && (forall f :: f in free' ==> f in free)
    && (forall f :: f in free ==> f in free' || f in own')
  }

  /** Of the frames that were free none is lost: each is still free, a table or one of `pages`. */
  ghost predicate FramesKept(free0: seq<Frame>, own: Labels, free: seq<Frame>, pages: set<Frame>) {
    && (forall f :: f in free ==> f in free0)
    && (forall f :: f in free0 ==> f in free || f in own || f in pages)
  }

  lemma KeptOverThree(free0: seq<Frame>, own1: Labels, free1: seq<Frame>, own2: Labels, free2: seq<Frame>,
                      own3: Labels, free3: seq<Frame>, own0: Labels)
    requires free0 != [] && free1 != [] && free2 != []
    requires Grows(own0, free0[1..], own1, free1) && Grows(own1, free1[1..], own2, free2)
    requires Grows(own2, free2[1..], own3, free3)
    ensures FramesKept(free0, own3, free3, {free0[0], free1[0], free2[0]})
  {
    assert free0 == [free0[0]] + free0[1..] && free1 == [free1[0]] + free1[1..] && free2 == [free2[0]] + free2[1..];
  }

  lemma NowTables(free0: seq<Frame>, own: Labels, own': Labels, free: seq<Frame>, f0: Frame, f1: Frame, f2: Frame)
    requires FramesKept(free0, own, free, {f0, f1, f2}) && own'.Keys == own.Keys + {f0, f1}
    ensures FramesKept(free0, own', free, {f2})
  {
  }

  class Mmu {
    var mem: Memory
    var free: seq<Frame>        // what pmm_malloc_4k hands out next, in order
    var tlb: map<Page, Frame>   // of the core that holds vmm_lock
    var startup: Context
    var current: Context        // get_cur_context()
    ghost var own: Labels

    ghost predicate Valid()
      reads this
    {
      WellFormed(mem, own, free) && IsContext(own, current)
    }

    /** The memory seen without the window's own entry. */
    ghost function Rest(): Memory
      requires current.pt in mem
      reads this
    {
      Blank(mem, current.pt)
    }

    /** `cur` leads to table `t`, the one at `level` on the way to `page`. */
    ghost predicate At(cur: Pointer, t: Frame, root: Frame, page: Page, level: nat)
      reads this
    {
      && OnPath(own, t, root, page, level)
      && (cur.Direct? ==> cur.frame == t)
      && (cur.Window? ==> Shows(mem, current.root, t) && (WINDOW in tlb ==> tlb[WINDOW] == t))
    }

    /** The first call of vmm_crcontext: the startup context in the pages reserved for it, the one of the range
        stack cleared, each table cleared and linked to the next. */
    constructor (frames: seq<Frame>, m: Memory, tables: seq<Frame>, stack: Frame)
      requires Distinct(frames) && 0 !in frames
      requires |tables| == 4 && Distinct(tables) && 0 !in tables
      requires forall f :: f in tables ==> f in m && f !in frames
      requires stack in m && stack !in tables
      ensures Valid() && free == frames && current == startup && startup.root == tables[0]
      ensures IsContext(own, startup) && mem.Keys == m.Keys && mem[stack] == ZeroTable()
      ensures FirstTablesAre(mem, tables)
      ensures forall f :: f in m && f !in tables && f != stack ==> mem[f] == m[f]
    {
      hide GoodLabels, GoodCells;
      var c := Context(tables[0], tables[1], tables[2], tables[3]);
      var boot: Memory := m[stack := ZeroTable()];
      for i := 0 to PAGING_HIER_SIZE - 1
        invariant boot.Keys == m.Keys && boot[stack] == ZeroTable()
        invariant forall f :: f in m && f !in tables && f != stack ==> boot[f] == m[f]
        invariant forall j :: 0 <= j < i ==> boot[tables[j]] == OneEntry(tables[j + 1])
      {
        boot := boot[tables[i] := ZeroTable()];
        boot := SetCell(boot, tables[i], 0, Entry(FLG_USER, tables[i + 1]));
      }
      boot := boot[tables[3] := ZeroTable()];
      mem, free, tlb := boot, frames, map[];
      startup, current := c, c;
      own := BootLabels(tables);
      new;
      BootWellFormed(mem, tables, free);
    }

    /** Another core takes vmm_lock. Whatever its TLB holds from before, an old window included, the
        tables stay as they are. */
    method SwitchCore(cached: map<Page, Frame>, context: Context)
      requires Valid() && IsContext(own, context)
      modifies this`tlb, this`current
      ensures Valid() && tlb == cached && current == context
    {
      tlb, current := cached, context;
    }

    method InvalidateTlb(page: Page)
      modifies this`tlb
      ensures tlb == old(tlb) - {page}
    {
      tlb := tlb - {page};
    }

    /** The frame an access through `p` reaches: the TLB answers, else the hardware walks
        the tables of the current context and remembers what it found. */
    method Reach(p: Pointer, ghost t: Frame) returns (f: Frame)
      requires p.Direct? ==> p.frame == t
      requires p.Window? ==> Shows(mem, current.root, t) && (WINDOW in tlb ==> tlb[WINDOW] == t)
      modifies this`tlb
      ensures f == t && tlb == if p.Direct? then old(tlb) else old(tlb)[WINDOW := t]
    {
      match p
      case Direct(frame) => f := frame;
      case Window =>
        if WINDOW in tlb {
          f := tlb[WINDOW];
        } else {
          f := Lookup(mem, current.root, WINDOW).frame;
        }
        tlb := tlb[WINDOW := f];
    }

    /** vmm_map. Mapping the window itself only rewrites the window's entry; mapping any other
        page does what MapFrom does on physical memory. The measure shows that the recursion
        nests one level deep. */
    method VmmMap(ctx: Context, phys: nat, virt: nat, flags: nat)
      requires virt < 0x1_0000_0000_0000
      requires virt == TMP_PAGEBUF ==> WindowPath(mem, ctx)
      requires virt != TMP_PAGEBUF && virt % PAGE_SIZE == 0 && phys % PAGE_SIZE == 0 ==>
                 Valid() && IsContext(own, ctx) && Missing(Rest(), ctx.root, virt / PAGE_SIZE, 0) <= |free|
      modifies this`mem, this`tlb, this`own, this`free
      ensures virt % PAGE_SIZE != 0 || phys % PAGE_SIZE != 0 ==>
                mem == old(mem) && tlb == old(tlb) && own == old(own) && free == old(free)
      ensures virt == TMP_PAGEBUF && phys % PAGE_SIZE == 0 ==>
                && mem == SetCell(old(mem), ctx.pt, 1, Entry(flags, phys / PAGE_SIZE))
                && tlb == old(tlb) - {WINDOW} && own == old(own) && free == old(free)
      ensures virt != TMP_PAGEBUF && virt % PAGE_SIZE == 0 && phys % PAGE_SIZE == 0 ==>
                && Valid() && Grows(old(own), old(free), own, free) && virt / PAGE_SIZE !in tlb
                && (Rest(), free)
                   == MapFrom(old(Rest()), old(free), ctx.root, virt / PAGE_SIZE, 0, Entry(flags, phys / PAGE_SIZE))
                && FlatMapEffect(old(mem), old(own), mem, ctx, virt / PAGE_SIZE, Entry(flags, phys / PAGE_SIZE))
                && |old(free)| - 3 <= |free| && TlbKept(tlb, old(tlb), virt / PAGE_SIZE)
      decreases if virt == TMP_PAGEBUF then 0 else 1, 3
    {
      hide GoodLabels, GoodCells, GoodFree;
      if virt % PAGE_SIZE != 0 || phys % PAGE_SIZE != 0 {
        return;
      }
      var page: Page := virt / PAGE_SIZE;
      var e := Entry(flags, phys / PAGE_SIZE);
      ghost var goal := if page == WINDOW then (map[], []) else MapFrom(Rest(), free, ctx.root, page, 0, e);
      MapAligned(ctx, page, e, goal);
      if page != WINDOW {
        MapIsFlat(old(mem), old(own), old(free), mem, own, free, current, ctx, page, e);
      }
    }

    /** vmm_map after the check of the alignment. */
    method MapAligned(ctx: Context, page: Page, e: Entry, ghost goal: (Memory, seq<Frame>))
      requires page == WINDOW ==> WindowPath(mem, ctx)
      requires page != WINDOW ==> Valid() && IsContext(own, ctx) && Missing(Rest(), ctx.root, page, 0) <= |free|
      requires page != WINDOW ==> MapFrom(Rest(), free, ctx.root, page, 0, e) == goal
      modifies this`mem, this`tlb, this`own, this`free
      ensures page == WINDOW ==>
                && mem == SetCell(old(mem), ctx.pt, 1, e)
                && tlb == old(tlb) - {WINDOW} && own == old(own) && free == old(free)
      ensures page != WINDOW ==>
                && Valid() && Grows(old(own), old(free), own, free) && page !in tlb && (Rest(), free) == goal
                && TlbKept(tlb, old(tlb), page)
      decreases if page == WINDOW then 0 else 1, 2
    {
      hide GoodLabels, GoodCells, GoodFree, MapFrom, Missing;
      ghost var t;
      var cur;
      cur, t := WalkDown(ctx, page, e, goal);
      if page == WINDOW {
        SetLast(cur, t, page, e);
      } else {
        SetLastOfPage(ctx, cur, t, page, e, goal);
      }
    }

    method SetLastOfPage(ctx: Context, cur: Pointer, ghost t: Frame, page: Page, e: Entry,
                         ghost goal: (Memory, seq<Frame>))
      requires Valid() && At(cur, t, ctx.root, page, 3) && page != WINDOW
      requires MapFrom(Rest(), free, t, page, 3, e) == goal
      modifies this`mem, this`tlb
      ensures Valid() && page !in tlb && (Rest(), free) == goal && TlbKept(tlb, old(tlb), page)
    {
      hide GoodLabels, GoodCells, GoodFree;
      LeafRound(mem, own, free, current, t, ctx.root, page, e);
      SetLast(cur, t, page, e);
    }

    /** The loop of vmm_map. */
    method WalkDown(ctx: Context, page: Page, ghost e: Entry, ghost goal: (Memory, seq<Frame>))
      returns (cur: Pointer, ghost t: Frame)
      requires page == WINDOW ==> WindowPath(mem, ctx)
      requires page != WINDOW ==> Valid() && IsContext(own, ctx) && Missing(Rest(), ctx.root, page, 0) <= |free|
      requires page != WINDOW ==> MapFrom(Rest(), free, ctx.root, page, 0, e) == goal
      modifies this`mem, this`tlb, this`own, this`free
      ensures page == WINDOW ==>
                && cur == Direct(t) && t == ctx.pt
                && mem == old(mem) && tlb == old(tlb) && own == old(own) && free == old(free)
      ensures page != WINDOW ==>
                && Valid() && Grows(old(own), old(free), own, free) && At(cur, t, ctx.root, page, 3)
                && MapFrom(Rest(), free, t, page, 3, e) == goal && TlbKept(tlb, old(tlb), WINDOW)
      decreases if page == WINDOW then 0 else 1, 1
    {
      hide GoodLabels, GoodCells, GoodFree, MapFrom, Missing;
      cur, t := Direct(ctx.root), ctx.root;
      var i := 0;
      while i < PAGING_HIER_SIZE - 1
        invariant i <= 3
        invariant page == WINDOW ==> mem == old(mem) && tlb == old(tlb) && own == old(own) && free == old(free)
        invariant page == WINDOW ==> cur == Direct(t) && t == ctx.First(i)
        invariant page != WINDOW ==>
                    && Valid() && Grows(old(own), old(free), own, free) && At(cur, t, ctx.root, page, i)
                    && Missing(Rest(), t, page, i) <= |free|
        invariant page != WINDOW ==> MapFrom(Rest(), free, t, page, i, e) == goal && TlbKept(tlb, old(tlb), WINDOW)
      {
        cur, t := NextTable(ctx, cur, t, page, i, e, goal);
        i := i + 1;
      }
    }

    /** After the loop in vmm_map: forget the old translation and write the new entry. */
    method SetLast(cur: Pointer, ghost t: Frame, page: Page, e: Entry)
      requires t in mem && (cur.Direct? ==> cur.frame == t)
      requires cur.Window? ==> Shows(mem, current.root, t) && (WINDOW in tlb ==> tlb[WINDOW] == t)
      modifies this`mem, this`tlb
      ensures mem == SetCell(old(mem), t, Index(page, 3), e) && tlb == TlbAfter(old(tlb), page, cur, t)
      ensures page != WINDOW ==> page !in tlb
    {
      InvalidateTlb(page);
      var f := Reach(cur, t);
      mem := SetCell(mem, f, Index(page, PAGING_HIER_SIZE - 1), e);
    }

    /** One round of the loop in vmm_map: find or create the table of the next level. */
    method NextTable(ctx: Context, cur: Pointer, ghost t: Frame, page: Page, i: nat, ghost e: Entry,
                     ghost goal: (Memory, seq<Frame>))
      returns (next: Pointer, ghost t': Frame)
      requires i < 3
      requires page == WINDOW ==> WindowPath(mem, ctx) && cur == Direct(ctx.First(i))
      requires page != WINDOW ==>
                 && Valid() && IsContext(own, ctx) && At(cur, t, ctx.root, page, i)
                 && Missing(Rest(), t, page, i) <= |free|
      requires page != WINDOW ==> MapFrom(Rest(), free, t, page, i, e) == goal
      modifies this`mem, this`tlb, this`own, this`free
      ensures page == WINDOW ==>
                && next == Direct(t') && t' == ctx.First(i + 1)
                && mem == old(mem) && tlb == old(tlb) && own == old(own) && free == old(free)
      ensures page != WINDOW ==>
                && Valid() && Grows(old(own), old(free), own, free) && At(next, t', ctx.root, page, i + 1)
                && Missing(Rest(), t', page, i + 1) <= |free|
                && MapFrom(Rest(), free, t', page, i + 1, e) == goal && TlbKept(tlb, old(tlb), WINDOW)
      decreases if page == WINDOW then 0 else 1, 0
    {
      hide GoodLabels, GoodCells, GoodFree, MapFrom, Missing, Grows, Descend;
      var index := Index(page, i);
      if page == WINDOW {
        var table := Reach(cur, cur.frame);
        assert index == 0 && Present(mem[table][index]);
        next, t' := Direct(ctx.First(i + 1)), ctx.First(i + 1);
      } else {
        var table := Reach(cur, t);
        if Present(mem[table][index]) {
          next, t' := EnterTable(ctx, table, page, i, e, goal);
        } else {
          next, t' := CreateTable(ctx, table, page, i, e, goal);
        }
      }
    }

    /** The recursive vmm_map: put a table into the window. */
    method Show(table: Frame)
      requires WindowPath(mem, current)
      modifies this`mem, this`tlb, this`own, this`free
      ensures mem == SetCell(old(mem), current.pt, 1, Entry(FLG_KERNEL, table)) && tlb == old(tlb) - {WINDOW}
      ensures own == old(own) && free == old(free)
      decreases 0, 4
    {
      assert table * PAGE_SIZE / PAGE_SIZE == table && table * PAGE_SIZE % PAGE_SIZE == 0;
      VmmMap(current, table * PAGE_SIZE, TMP_PAGEBUF, FLG_KERNEL);
    }

    /** The table exists: look at it through the window. */
    method EnterTable(ctx: Context, table: Frame, page: Page, i: nat, ghost e: Entry,
                      ghost goal: (Memory, seq<Frame>))
      returns (next: Pointer, ghost t': Frame)
      requires i < 3 && page != WINDOW && Valid() && OnPath(own, table, ctx.root, page, i)
      requires Present(mem[table][Index(page, i)]) && Missing(Rest(), table, page, i) <= |free|
      requires MapFrom(Rest(), free, table, page, i, e) == goal
      modifies this`mem, this`tlb, this`own, this`free
      ensures Valid() && Grows(old(own), old(free), own, free) && At(next, t', ctx.root, page, i + 1)
      ensures Missing(Rest(), t', page, i + 1) <= |free|
      ensures MapFrom(Rest(), free, t', page, i + 1, e) == goal && TlbKept(tlb, old(tlb), WINDOW)
      decreases 0, 5
    {
      hide GoodLabels, GoodCells, GoodFree;
      var child := mem[table][Index(page, i)].frame;
      ghost var w := current.pt;
      EnterStep(mem, own, free, current, w, table, ctx.root, page, i, e);
      ShowInWindow(mem, own, free, current, w, child);
      Show(child);
      next, t' := Window, child;
    }

    /** The table is absent: take a frame, link it, look at it through the window, clear it. */
    method CreateTable(ctx: Context, table: Frame, page: Page, i: nat, ghost e: Entry,
                       ghost goal: (Memory, seq<Frame>))
      returns (next: Pointer, ghost t': Frame)
      requires i < 3 && page != WINDOW && Valid() && OnPath(own, table, ctx.root, page, i)
      requires !Present(mem[table][Index(page, i)]) && Missing(Rest(), table, page, i) <= |free|
      requires MapFrom(Rest(), free, table, page, i, e) == goal
      modifies this`mem, this`tlb, this`own, this`free
      ensures Valid() && Grows(old(own), old(free), own, free) && At(next, t', ctx.root, page, i + 1)
      ensures Missing(Rest(), t', page, i + 1) <= |free|
      ensures MapFrom(Rest(), free, t', page, i + 1, e) == goal && TlbKept(tlb, old(tlb), WINDOW)
      decreases 0, 6
    {
      hide GoodLabels, GoodCells, GoodFree, MapFrom, Missing;
      var index := Index(page, i);
      CreateRound(mem, own, free, current, table, ctx.root, page, i, e);
      ghost var own' := own[free[0] := Child(own[table], index)];
      var child := LinkNew(table, index);
      next, t' := Window, child;
      own := own';
    }

    /** Entry first, then the window, then the zeroes through the window. */
    method LinkNew(table: Frame, index: nat) returns (child: Frame)
      requires free != [] && table in mem && index < 512
      requires var m1 := SetCell(mem, table, index, Entry(FLG_USER, free[0]));
               && WindowPath(m1, current)
               && Shows(SetCell(m1, current.pt, 1, Entry(FLG_KERNEL, free[0])), current.root, free[0])
      modifies this`mem, this`tlb, this`own, this`free
      ensures child == old(free)[0] && free == old(free)[1..] && own == old(own)
      ensures tlb == (old(tlb) - {WINDOW})[WINDOW := child]
      ensures var m1 := SetCell(old(mem), table, index, Entry(FLG_USER, child));
              mem == SetCell(m1, current.pt, 1, Entry(FLG_KERNEL, child))[child := ZeroTable()]
      decreases 0, 5
    {
      child := PmmMalloc4k();
      mem := SetCell(mem, table, index, Entry(FLG_USER, child));
      Show(child);
      var shown := ReachFresh(child);
      mem := mem[shown := ZeroTable()];
    }

    /** An access through the window right after it was invalidated: the hardware walks. */
    method ReachFresh(ghost t: Frame) returns (f: Frame)
      requires WINDOW !in tlb && Shows(mem, current.root, t)
      modifies this`tlb
      ensures f == t && tlb == old(tlb)[WINDOW := t]
    {
      f := Lookup(mem, current.root, WINDOW).frame;
      tlb := tlb[WINDOW := f];
    }

    /** Map table `t` into the window and read one of its entries there. */
    method ReadEntry(t: Frame, index: nat) returns (f: Frame)
      requires Valid() && t in own && index < 512
      modifies this`mem, this`tlb, this`own, this`free
      ensures Valid() && own == old(own) && free == old(free) && Rest() == old(Rest())
      ensures TlbKept(tlb, old(tlb), WINDOW)
      ensures t in Rest() && f == if t == current.pt && index == 1 then t else Rest()[t][index].frame
    {
      ShowInWindow(mem, own, free, current, current.pt, t);
      Show(t);
      var shown := Reach(Window, t);
      f := mem[shown][index].frame;
    }

    /** virt_to_phys_unsafe: the walk that only reads, again through the window. The address it
        finds is the one the page table holds, 0 for a page that is not mapped; asked for the
        window itself it finds the table it last put there. Without a context it returns the address. */
    method VirtToPhys(ctx: Option<Context>, virt: nat) returns (phys: nat)
      requires ctx.Some? ==> virt < 0x1_0000_0000_0000 && virt % PAGE_SIZE == 0 // else the code loops for ever
      requires ctx.Some? ==> Valid() && IsContext(own, ctx.value)
      modifies this`mem, this`tlb, this`own, this`free
      ensures ctx.None? ==> phys == virt && mem == old(mem) && tlb == old(tlb) && own == old(own) && free == old(free)
      ensures ctx.Some? ==>
                && Valid() && own == old(own) && free == old(free) && Rest() == old(Rest())
                && TlbKept(tlb, old(tlb), WINDOW)
      ensures ctx.Some? && virt / PAGE_SIZE != WINDOW ==>
                phys == Lookup(old(mem), ctx.value.root, virt / PAGE_SIZE).frame * PAGE_SIZE
      ensures ctx.Some? && virt / PAGE_SIZE == WINDOW ==> phys == current.pt * PAGE_SIZE
    {
      if ctx.None? {
        return virt;
      }
      WindowWrite(mem, own, free, current, ZERO_ENTRY);
      assert virt / PAGE_SIZE != WINDOW ==> SameLookup(Rest(), mem, ctx.value, virt / PAGE_SIZE);
      var f := FrameOfPage(ctx.value, virt / PAGE_SIZE);
      phys := f * PAGE_SIZE;
    }

    method FrameOfPage(ctx: Context, page: Page) returns (f: Frame)
      requires Valid() && IsContext(own, ctx)
      modifies this`mem, this`tlb, this`own, this`free
      ensures Valid() && own == old(own) && free == old(free) && Rest() == old(Rest())
      ensures TlbKept(tlb, old(tlb), WINDOW)
      ensures f == if page == WINDOW then current.pt else LookupFrom(old(Rest()), ctx.root, page, 0).frame
    {
      ghost var rest := Rest();
      BlankIsWellFormed(mem, own, free, current);
      FoundFirst(rest, own, free, ctx, page);
      f := mem[ctx.root][Index(page, 0)].frame;
      var i := 1;
      while i < PAGING_HIER_SIZE
        invariant 1 <= i <= 4
        invariant Valid() && own == old(own) && free == old(free) && Rest() == rest
        invariant Found(rest, own, ctx, page, i, f) && TlbKept(tlb, old(tlb), WINDOW)
      {
        if f == 0 {
          FoundZero(rest, own, free, ctx, page, i);
          return;
        }
        f := NextFrame(ctx, page, i, f);
        i := i + 1;
      }
    }

    method NextFrame(ctx: Context, page: Page, i: nat, t: Frame) returns (f: Frame)
      requires Valid() && IsContext(own, ctx) && 1 <= i < 4 && t != 0 && Found(Rest(), own, ctx, page, i, t)
      modifies this`mem, this`tlb, this`own, this`free
      ensures Valid() && own == old(own) && free == old(free) && Rest() == old(Rest())
      ensures Found(Rest(), own, ctx, page, i + 1, f) && TlbKept(tlb, old(tlb), WINDOW)
    {
      BlankIsWellFormed(mem, own, free, current);
      f := ReadEntry(t, Index(page, i));
      FoundNext(Rest(), own, free, ctx, page, i, t, f);
    }

    /** One round of the loop in vmm_malloc: the next free frame is mapped at a page of the range found. */
    method MallocPage(ctx: Context, page: Page, flags: nat) returns (f: Frame)
      requires Valid() && IsContext(own, ctx) && page != WINDOW && 1 + Missing(Rest(), ctx.root, page, 0) <= |free|
      modifies this`mem, this`tlb, this`own, this`free
      ensures Valid() && f == old(free)[0] && Grows(old(own), old(free)[1..], own, free) && |old(free)| - 4 <= |free|
      ensures (Rest(), free) == MapFrom(old(Rest()), old(free)[1..], ctx.root, page, 0, Entry(flags, f))
      ensures FlatMapEffect(old(mem), old(own), mem, ctx, page, Entry(flags, f))
      ensures page !in tlb && TlbKept(tlb, old(tlb), page)
    {
      hide GoodLabels, GoodCells, Missing, MapFrom;
      f := PmmMalloc4k();
      assert f * PAGE_SIZE / PAGE_SIZE == f && page * PAGE_SIZE / PAGE_SIZE == page;
      VmmMap(ctx, f * PAGE_SIZE, page * PAGE_SIZE, flags);
    }

    /** One round of the loop in kvmm_free_unsafe: the frame behind the page goes back, the page is unmapped. */
    method KvmmFreePage(page: Page) returns (f: Frame)
      requires Valid() && IsContext(own, startup) && page != WINDOW
      requires var g := Lookup(mem, current.root, page).frame; g != 0 && g !in own && g !in free
      requires Missing(Rest(), startup.root, page, 0) <= 1 + |free|
      modifies this`mem, this`tlb, this`own, this`free
      ensures Valid() && f == Lookup(old(mem), current.root, page).frame && Grows(old(own), [f] + old(free), own, free)
      ensures (Rest(), free) == MapFrom(old(Rest()), [f] + old(free), startup.root, page, 0, ZERO_ENTRY)
      ensures page !in tlb && TlbKept(tlb, old(tlb), page)
    {
      hide GoodLabels, GoodCells, Missing, MapFrom, Lookup, Grows, FlatMapEffect;
      f := PhysOf(page);
      PmmFree4k(f);
      VmmMap(startup, 0, page * PAGE_SIZE, 0);
    }

    /** One page of kvmm_malloc: a fresh frame is mapped at a page the range stack handed out. */
    method KvmmMallocPage(page: Page) returns (f: Frame)
      requires Valid() && IsContext(own, startup) && page != WINDOW && |free| > 3
      modifies this`mem, this`tlb, this`own, this`free
      ensures Valid() && Grows(old(own), old(free)[1..], own, free) && |old(free)| - 4 <= |free|
      ensures f == old(free)[0] && f !in own && f !in free
      ensures FlatMapEffect(old(mem), old(own), mem, startup, page, Entry(FLG_KERNEL, f))
      ensures page !in tlb && TlbKept(tlb, old(tlb), page)
    {
      MapFromTakes(Rest(), free, startup.root, page, 0, ZERO_ENTRY);
      f := MallocPage(startup, page, FLG_KERNEL);
    }

    /** Kernel page `v` of the current context is mapped to frame `f`, which holds no table, and
        the TLB knows no other frame for it. */
    ghost predicate PageIs(v: Page, f: Frame)
      reads this
    {
      v != WINDOW && MapsTo(mem, current, v, f) && f !in own && (v in tlb ==> tlb[v] == f)
    }

    /** An access to a page of the current context: the TLB answers or the hardware walks. */
    method Touch(v: Page, ghost f: Frame) returns (g: Frame)
      requires PageIs(v, f)
      modifies this`tlb
      ensures g == f && tlb == old(tlb)[v := f]
    {
      g := if v in tlb then tlb[v] else Lookup(mem, current.root, v).frame;
      tlb := tlb[v := g];
    }

    /** memset of a page through its kernel address. */
    method ClearPage(v: Page, ghost f: Frame)
      requires Valid() && PageIs(v, f)
      modifies this`mem, this`tlb
      ensures Valid() && SameSpaces(mem, old(mem), own) && Rest() == old(Rest())[f := ZeroTable()]
      ensures PageIs(v, f) && f in mem && mem[f] == ZeroTable() && tlb == old(tlb)[v := f]
    {
      var g := Touch(v, f);
      ForeignPage(mem, own, free, current, g, ZeroTable());
      mem := mem[g := ZeroTable()];
      assert SameLookup(mem, old(mem), current, v);
    }

    /** A write of the first slot of a page through its kernel address. */
    method StoreFirst(v: Page, ghost f: Frame, e: Entry)
      requires Valid() && PageIs(v, f) && f in mem
      modifies this`mem, this`tlb
      ensures Valid() && SameSpaces(mem, old(mem), own) && Rest() == old(Rest())[f := old(mem)[f][0 := e]]
      ensures tlb == old(tlb)[v := f]
    {
      var g := Touch(v, f);
      ForeignPage(mem, own, free, current, g, mem[g][0 := e]);
      mem := SetCell(mem, g, 0, e);
    }

    /** virt_to_phys for a page of the current context, as a frame number. */
    method PhysOf(v: Page) returns (g: Frame)
      requires Valid() && v != WINDOW
      modifies this`mem, this`tlb, this`own, this`free
      ensures Valid() && own == old(own) && free == old(free) && SameSpaces(mem, old(mem), own) && Rest() == old(Rest())
      ensures g == Lookup(old(mem), current.root, v).frame && TlbKept(tlb, old(tlb), WINDOW)
    {
      assert v * PAGE_SIZE / PAGE_SIZE == v;
      var phys := VirtToPhys(Some(current), v * PAGE_SIZE);
      g := phys / PAGE_SIZE;
      SameRest(mem, old(mem), own, free, current);
    }

    /** One round of the loop in vmm_crcontext: clear a table and link it to the frame behind `next`. */
    method ClearAndLink(v: Page, ghost f: Frame, next: Page) returns (g: Frame)
      requires Valid() && PageIs(v, f) && next != WINDOW
      modifies this`mem, this`tlb, this`own, this`free
      ensures Valid() && own == old(own) && free == old(free) && SameSpaces(mem, old(mem), own)
      ensures g == Lookup(old(mem), current.root, next).frame
      ensures Rest() == old(Rest())[f := OneEntry(g)] && TlbKept(tlb, old(tlb), v)
    {
      hide GoodLabels, GoodCells, GoodFree;
      ClearPage(v, f);
      ghost var m1 := mem;
      assert SameLookup(m1, old(mem), current, next);
      g := PhysOf(next);
      ghost var m2 := mem;
      assert SameLookup(m2, m1, current, v);
      SameSpacesTrans(m2, m1, old(mem), own);
      OtherTable(m2, m1, current.pt, f);
      Overwrite(Blank(old(mem), current.pt), f, g);
      StoreFirst(v, f, Entry(FLG_USER, g));
      SameSpacesTrans(mem, m2, old(mem), own);
    }

    /** vmm_crcontext once the kernel runs: `v0`, `v1` and `v2` are the pages kvmm_malloc hands
        out for the root, the second table and the range stack. The new space shares the
        kernel's gigabyte with all others and maps nothing else; the old spaces only got the
        three pages, and the range stack has no entry but zeros. */
    method CrContext(v0: Page, v1: Page, v2: Page) returns (c: Context)
      requires Valid() && IsContext(own, startup) && |free| >= 12
      requires v0 < KERNEL_PAGES && v1 < KERNEL_PAGES && v2 < KERNEL_PAGES
      requires v0 != WINDOW && v1 != WINDOW && v2 != WINDOW && v0 != v1 && v0 != v2 && v1 != v2
      requires startup.pd < KERNEL_PAGES && startup.pd != WINDOW && startup.pd != v0 && startup.pd != v1
      requires startup.pd != v2
      requires Lookup(mem, current.root, startup.pd).frame == startup.pd // identity mapped by vmm_init
      modifies this`mem, this`tlb, this`own, this`free
      ensures Valid() && IsContext(own, c) && !IsContext(old(own), c)
      ensures KeepsContexts(old(own), own)
      ensures SameButPages(mem, old(mem), old(own), v0, v1, v2)
      ensures forall q: Page {:trigger OnlyKernel(mem, startup, c, q)} :: OnlyKernel(mem, startup, c, q)
      ensures Cleared(mem, current, v2)
      ensures FramesKept(old(free), own, free, {Lookup(mem, current.root, v2).frame})
    {
      hide GoodLabels, GoodCells, GoodFree, FramesKept, Lookup, OnlyKernel;
      var f0, f1 := TakeTables(v0, v1, v2);
      ghost var own1 := own;
      c := AddSpace(f0, f1);
      KeepsContextsTrans(old(own), own1, own);
      NowTables(old(free), own1, own, free, f0, f1, Lookup(mem, current.root, v2).frame);
    }

    /** The filled tables become a context. */
    method AddSpace(f0: Frame, f1: Frame) returns (c: Context)
      requires Valid() && CanAddSpace(mem, own, free, startup, f0, f1) && f0 !in own && f1 !in own && f0 != f1
      modifies this`own
      ensures Valid() && IsContext(own, c) && !IsContext(old(own), c) && c.root == f0 && KeepsContexts(old(own), own)
      ensures own.Keys == old(own).Keys + {f0, f1}
      ensures forall q: Page {:trigger OnlyKernel(mem, startup, c, q)} :: OnlyKernel(mem, startup, c, q)
    {
      c := Context(f0, f1, startup.pd, startup.pt);
      ghost var own': Labels := own[f0 := FirstNode(f0, 0)][f1 := FirstNode(f0, 1)];
      SpaceAdded(mem, own, free, startup, c, own');
      own := own';
    }

    /** Allocate and fill the tables. */
    method TakeTables(v0: Page, v1: Page, v2: Page) returns (f0: Frame, f1: Frame)
      requires Valid() && IsContext(own, startup) && |free| >= 12
      requires v0 < KERNEL_PAGES && v1 < KERNEL_PAGES && v2 < KERNEL_PAGES
      requires v0 != WINDOW && v1 != WINDOW && v2 != WINDOW && v0 != v1 && v0 != v2 && v1 != v2
      requires startup.pd < KERNEL_PAGES && startup.pd != WINDOW && startup.pd != v0 && startup.pd != v1
      requires startup.pd != v2
      requires Lookup(mem, current.root, startup.pd).frame == startup.pd
      modifies this`mem, this`tlb, this`own, this`free
      ensures Valid() && KeepsContexts(old(own), own)
      ensures CanAddSpace(mem, own, free, startup, f0, f1) && f0 !in own && f1 !in own && f0 != f1
      ensures SameButPages(mem, old(mem), old(own), v0, v1, v2) && Cleared(mem, current, v2)
      ensures FramesKept(old(free), own, free, {f0, f1, Lookup(mem, current.root, v2).frame})
    {
      hide GoodLabels, GoodCells, GoodFree;
      ghost var own0 := own;
      ghost var f2;
      f0, f1, f2 := MallocThree(v0, v1, v2);
      ghost var m1, own1 := mem, own;
      assert SameLookup(m1, old(mem), current, startup.pd);
      FillTables(v0, v1, v2, f0, f1, f2);
      SameMapsTo(mem, m1, own1, current, v2, f2);
      ThenSame(mem, m1, old(mem), own0, own1, v0, v1, v2);
    }

    /** What vmm_crcontext does with the three pages. */
    method FillTables(v0: Page, v1: Page, v2: Page, ghost f0: Frame, ghost f1: Frame, ghost f2: Frame)
      requires Valid() && PageIs(v0, f0) && PageIs(v1, f1) && PageIs(v2, f2)
      requires f0 != f1 && f0 != f2 && f1 != f2
      requires startup.pd < KERNEL_PAGES && startup.pd != WINDOW
      requires Lookup(mem, current.root, startup.pd).frame == startup.pd
      modifies this`mem, this`tlb, this`own, this`free
      ensures Valid() && own == old(own) && free == old(free) && SameSpaces(mem, old(mem), own)
      ensures f0 in mem && mem[f0] == OneEntry(f1) && f1 in mem && mem[f1] == OneEntry(startup.pd)
      ensures f2 in mem && mem[f2] == ZeroTable()
    {
      hide GoodLabels, GoodCells, GoodFree;
      ghost var m0 := mem;
      ClearBoth(v0, v1, v2, f0, f1, f2);
      LinkTables(v0, v1, f0, f1, m0);
      assert Rest()[f2] == ZeroTable();
    }

    /** The stack's page and the root are cleared. */
    method ClearBoth(v0: Page, ghost v1: Page, v2: Page, ghost f0: Frame, ghost f1: Frame, ghost f2: Frame)
      requires Valid() && PageIs(v0, f0) && PageIs(v1, f1) && PageIs(v2, f2) && f0 != f2
      modifies this`mem, this`tlb
      ensures Valid() && SameSpaces(mem, old(mem), own) && PageIs(v0, f0) && PageIs(v1, f1)
      ensures f2 in Rest() && Rest()[f2] == ZeroTable()
    {
      hide GoodLabels, GoodCells, GoodFree;
      ghost var m0 := mem;
      ClearPage(v2, f2);
      ghost var m1 := mem;
      SameMapsTo(m1, m0, own, current, v0, f0);
      ClearPage(v0, f0);
      SameSpacesTrans(mem, m1, m0, own);
      SameMapsTo(mem, m0, own, current, v1, f1);
    }

    /** The loop of vmm_crcontext; it leaves after two rounds, the lower tables are shared. */
    method LinkTables(v0: Page, v1: Page, ghost f0: Frame, ghost f1: Frame, ghost m0: Memory)
      requires Valid() && PageIs(v0, f0) && PageIs(v1, f1) && f0 != f1
      requires SameSpaces(mem, m0, own)
      requires startup.pd < KERNEL_PAGES && startup.pd != WINDOW
      requires Lookup(m0, current.root, startup.pd).frame == startup.pd
      modifies this`mem, this`tlb, this`own, this`free
      ensures Valid() && own == old(own) && free == old(free) && SameSpaces(mem, m0, own)
      ensures f0 in mem && mem[f0] == OneEntry(f1) && f1 in mem && mem[f1] == OneEntry(startup.pd)
      ensures Rest() == old(Rest())[f0 := OneEntry(f1)][f1 := OneEntry(startup.pd)]
    {
      hide GoodLabels, GoodCells, GoodFree;
      ghost var m2 := mem;
      var g := ClearAndLink(v0, f0, v1);
      ghost var m3 := mem;
      SameMapsTo(m3, m2, own, current, v1, f1);
      SameSpacesTrans(m3, m2, m0, own);
      assert SameLookup(m3, m0, current, startup.pd);
      g := ClearAndLink(v1, f1, startup.pd);
      SameSpacesTrans(mem, m3, m0, own);
      TwoTables(mem, Blank(m2, current.pt), current.pt, f0, f1, startup.pd);
    }

    /** The three allocations of vmm_crcontext. */
    method MallocThree(v0: Page, v1: Page, v2: Page) returns (f0: Frame, f1: Frame, f2: Frame)
      requires Valid() && IsContext(own, startup) && |free| >= 12
      requires v0 < KERNEL_PAGES && v1 < KERNEL_PAGES && v2 < KERNEL_PAGES
      requires v0 != WINDOW && v1 != WINDOW && v2 != WINDOW && v0 != v1 && v0 != v2 && v1 != v2
      modifies this`mem, this`tlb, this`own, this`free
      ensures Valid() && KeepsContexts(old(own), own)
      ensures PageIs(v0, f0) && PageIs(v1, f1) && PageIs(v2, f2)
      ensures f0 != f1 && f0 != f2 && f1 != f2 && f0 != 0 && f1 != 0 && f0 !in free && f1 !in free
      ensures FramesKept(old(free), own, free, {f0, f1, f2})
      ensures SameButPages(mem, old(mem), old(own), v0, v1, v2)
    {
      ghost var m0, own0, free0 := mem, own, free;
      f0 := KvmmMallocPage(v0);
      ghost var m1, own1, free1 := mem, own, free;
      ContextsSurvive(own0, free0[1..], own1, free1);
      f1 := KvmmMallocPage(v1);
      ghost var m2, own2, free2 := mem, own, free;
      ContextsSurvive(own1, free1[1..], own2, free2);
      f2 := KvmmMallocPage(v2);
      ContextsSurvive(own2, free2[1..], own, free);
      ThreeMaps(own0, own1, own2, m0, m1, m2, mem, startup, current, v0, v1, v2, f0, f1, f2);
      KeptOverThree(free0, own1, free1, own2, free2, own, free, own0);
    }

    method PmmMalloc4k() returns (f: Frame)
      requires free != []
      modifies this`free
      ensures f == old(free)[0] && free == old(free)[1..]
    {
      f := free[0];
      free := free[1..];
    }

    method PmmFree4k(f: Frame)
      modifies this`free
      ensures free == [f] + old(free)
    {
      free := [f] + free;
    }
  }
}
