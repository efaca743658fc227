/** Runs of vmm_malloc, kvmm_free and vmm_crcontext, page by page and in all address spaces, over the page
    tables of PageTables.dfy and a stack of free frames: every frame has one owner, and no two live
    allocations meet. */
module KernelMemory {
  import opened Basics
  import opened PageTables

  /** A virtual page of some space: kernel pages are the same in all spaces and carry the root 0. */
  datatype Key = Key(root: Frame, page: Page)

  function KeyOf(c: Context, page: Page): Key {
    Key(if page < KERNEL_PAGES then 0 else c.root, page)
  }

  function KernelKey(page: Page): Key {
    Key(0, page)
  }

  /** `live` records the pages handed out and the frame behind each; `virt` are the pages the range
      stacks may hand out, `pending` those that wait for the TLB shootdown, `held` those through which
      the kernel reaches the tables of a space. */
  datatype State = State(
    m: Memory, free: seq<Frame>, startup: Context, contexts: set<Context>,
    live: map<Key, Frame>, virt: set<Key>, pending: set<Key>, held: set<Key>)

  datatype Step =
    | Malloc(c: Context, page: Page)                  // vmm_malloc: a frame for one page of the range found
    | Free(c: Context, page: Page)                    // kvmm_free_unsafe in space c: the frame goes back,
                                                      // the page is unmapped and recorded
    | Reclaim(page: Page)                             // sync_addr_space: the page may be handed out again
    | NewSpace(v0: Page, v1: Page, user: set<Page>)   // vmm_crcontext fills two pages it allocated, and
                                                      // the user ranges of the space become free

  /** FLGCOMBAT_KERNEL for kvmm_malloc, FLGCOMBAT_USER for uvmm_malloc. */
  function Flags(page: Page): nat {
    if page < KERNEL_PAGES then FLG_KERNEL else FLG_USER
  }

  predicate Enabled(s: State, step: Step) {
    match step
    case Malloc(c, page) =>
      c in s.contexts && KeyOf(c, page) in s.virt && c.root in s.m && 1 + Missing(s.m, c.root, page, 0) <= |s.free|
    case Free(c, page) =>
      c in s.contexts && page < KERNEL_PAGES && KernelKey(page) in s.live && s.startup.root in s.m
    case Reclaim(page) => KernelKey(page) in s.pending
    case NewSpace(v0, v1, user) =>
      && v0 != v1 && KernelKey(v0) in s.live && KernelKey(v1) in s.live
      && v0 < KERNEL_PAGES && v1 < KERNEL_PAGES && forall p :: p in user ==> p >= KERNEL_PAGES
  }

  /** The context that vmm_crcontext makes of the frames behind two pages. */
  function Built(s: State, v0: Page, v1: Page): Context
    requires KernelKey(v0) in s.live && KernelKey(v1) in s.live
  {
    Context(s.live[KernelKey(v0)], s.live[KernelKey(v1)], s.startup.pd, s.startup.pt)
  }

  function Filled(m: Memory, c: Context): Memory {
    m[c.root := OneEntry(c.pdpt)][c.pdpt := OneEntry(c.pd)]
  }

  function Next(s: State, step: Step): State
    requires Enabled(s, step)
  {
    match step
    case Malloc(c, page) =>
      var (m', free') := MapFrom(s.m, s.free[1..], c.root, page, 0, Entry(Flags(page), s.free[0]));
      var key := KeyOf(c, page);
      s.(m := m', free := free', live := s.live[key := s.free[0]], virt := s.virt - {key})
    case Free(c, page) =>
      var frame := Lookup(s.m, c.root, page).frame;
      var (m', free') := MapFrom(s.m, [frame] + s.free, s.startup.root, page, 0, Entry(0, 0));
      var key := KernelKey(page);
      s.(m := m', free := free', live := s.live - {key}, pending := s.pending + {key})
    case Reclaim(page) =>
      s.(virt := s.virt + {KernelKey(page)}, pending := s.pending - {KernelKey(page)})
    case NewSpace(v0, v1, user) =>
      var c, keys := Built(s, v0, v1), {KernelKey(v0), KernelKey(v1)};
      s.(m := Filled(s.m, c), contexts := s.contexts + {c}, live := s.live - keys, held := s.held + keys,
         virt := s.virt + set p | p in user :: Key(c.root, p))
  }

  // ---------------------------------------------------------------- the invariant

  /** The tables of space `c` hold what was handed out. */
  ghost predicate Backed(m: Memory, live: map<Key, Frame>, c: Context, p: Page) {
    KeyOf(c, p) in live ==> Lookup(m, c.root, p) == Entry(Flags(p), live[KeyOf(c, p)])
  }

  ghost predicate Injective(live: map<Key, Frame>) {
    forall k, l :: k in live && l in live && live[k] == live[l] ==> k == l
  }

  /** The frames behind live pages are in no other use. */
  ghost predicate Reserved(live: map<Key, Frame>, own: Labels, free: seq<Frame>) {
    forall k :: k in live ==> live[k] != 0 && live[k] !in own && live[k] !in free
  }

  /** All pages the range stacks were ever given. */
  function Known(s: State): set<Key> {
    s.virt + s.live.Keys + s.pending + s.held
  }

  ghost predicate Spaces(s: State, own: Labels) {
    && s.startup in s.contexts
    && (forall c {:trigger c in s.contexts} :: c in s.contexts ==> IsContext(own, c))
    && (forall c, p {:trigger Backed(s.m, s.live, c, p)} :: c in s.contexts ==> Backed(s.m, s.live, c, p))
  }

  /** Pages are known for spaces that exist, and each is free, live, pending or held. The window is none of
      them: it is never handed out. */
  ghost predicate Pages(s: State, own: Labels) {
    && s.virt !! s.live.Keys !! s.pending !! s.held && KernelKey(WINDOW) !in Known(s)
    && forall k {:trigger k.root} :: k in Known(s) ==> k.root == 0 || k.root in own
  }

  /** Frames `all` are each on the free stack, a page table, or behind one live page. */
  ghost predicate Inv(s: State, own: Labels, all: set<Frame>) {
    && WellFormed(s.m, own, s.free) && Spaces(s, own) && Pages(s, own)
    && Reserved(s.live, own, s.free) && Injective(s.live)
    && all == SetOf(s.free) + own.Keys + s.live.Values
  }

  /** The owners exclude each other. */
  lemma OneOwner(s: State, own: Labels, all: set<Frame>, f: Frame)
    requires Inv(s, own, all) && f in all
    ensures (f in s.free && f !in own && f !in s.live.Values)
         || (f !in s.free && f in own && f !in s.live.Values)
         || (f !in s.free && f !in own && f in s.live.Values)
    ensures Distinct(s.free)
  {
  }

  /** Two live pages of any two spaces share a frame only if they are the same kernel page, or the same
      page of the same space. */
  lemma NoSharing(s: State, own: Labels, all: set<Frame>, c: Context, p: Page, d: Context, q: Page)
    requires Inv(s, own, all) && c in s.contexts && d in s.contexts
    requires KeyOf(c, p) in s.live && KeyOf(d, q) in s.live
    ensures Lookup(s.m, c.root, p).frame == Lookup(s.m, d.root, q).frame <==>
            p == q && (p < KERNEL_PAGES || c.root == d.root)
  {
    assert Backed(s.m, s.live, c, p) && Backed(s.m, s.live, d, q);
    KeyOfIff(c, p, d, q);
  }

  /** What the hardware checks on the way to a live page: all four entries are present and writable. A page above
      the kernel's gigabyte has the user bit in all four, a kernel page not in its last; a last entry has the
      caching bit and nothing else. */
  lemma LivePageIsAccessible(s: State, own: Labels, all: set<Frame>, c: Context, p: Page, k: nat)
    requires Inv(s, own, all) && c in s.contexts && KeyOf(c, p) in s.live && k < 4
    ensures var e := WalkEntry(s.m, c.root, p, 0, k);
            && e.flags % 2 == 1 && e.flags / 2 % 2 == 1
            && (p >= 0x4_0000 || k < 3 ==> e.flags / 4 % 2 == 1)
            && (k == 3 ==> e.flags / 8 == 1 && (p < 0x4_0000 ==> e.flags / 4 % 2 == 0))
  {
    assert Backed(s.m, s.live, c, p);
    assert IsContext(own, c);
    WalkIsOpen(s.m, own, s.free, c.root, p, 0, k);
  }

  lemma KeyOfIff(c: Context, p: Page, d: Context, q: Page)
    ensures KeyOf(c, p) == KeyOf(d, q) <==> p == q && (p < KERNEL_PAGES || c.root == d.root)
  {
  }

  // ---------------------------------------------------------------- an allocation

  /** What mapping `page` of `c` to the fresh frame `f` does to the spaces. */
  ghost predicate Remapped(s: State, m': Memory, own': Labels, c: Context, page: Page, f: Frame) {
    && (forall d {:trigger d in s.contexts} :: d in s.contexts ==> IsContext(own', d))
    && (forall d, q: Page {:trigger Lookup(m', d.root, q)} :: d in s.contexts ==>
          Lookup(m', d.root, q)
            == if q == page && (d.root == c.root || page < KERNEL_PAGES) then Entry(Flags(page), f)
               else Lookup(s.m, d.root, q))
  }

  /** Mapping the new page: what becomes of the tables and the free frames. */
  lemma MallocMap(s: State, own: Labels, all: set<Frame>, c: Context, page: Page) returns (own': Labels)
    requires Inv(s, own, all) && Enabled(s, Malloc(c, page))
    ensures var s', f := Next(s, Malloc(c, page)), s.free[0];
            && WellFormed(s'.m, own', s'.free)
            && Remapped(s, s'.m, own', c, page, f)
            && SetOf(s.free) + own.Keys == {f} + SetOf(s'.free) + own'.Keys
            && f !in s'.free && f !in own' && f != 0
            && (forall g :: g in own' || g in s'.free ==> g in own || g in s.free)
            && own.Keys <= own'.Keys
  {
    var f := s.free[0];
    assert WellFormed(s.m, own, s.free[1..]);
    assert IsContext(own, c);
    var k;
    own', k := MapRefinesFlatMap(s.m, own, s.free[1..], c, page, Entry(Flags(page), f));
    TakenApart(s.free, own, own', Next(s, Malloc(c, page)).free, k);
  }

  lemma MallocSpaces(s: State, s': State, own: Labels, own': Labels, c: Context, page: Page, f: Frame)
    requires Spaces(s, own) && Remapped(s, s'.m, own', c, page, f)
    requires s'.live == s.live[KeyOf(c, page) := f] && s'.contexts == s.contexts && s'.startup == s.startup
    ensures Spaces(s', own')
  {
    forall d, p | d in s'.contexts
      ensures Backed(s'.m, s'.live, d, p)
    {
      assert Backed(s.m, s.live, d, p);
      KeyOfIff(c, page, d, p);
    }
  }

  lemma StillReserved(live: map<Key, Frame>, own: Labels, own': Labels, free: seq<Frame>, free': seq<Frame>, key: Key,
                      f: Frame)
    requires Reserved(live, own, free) && Injective(live) && f in free && f != 0 && f !in own' && f !in free'
    requires forall g :: g in own' || g in free' ==> g in own || g in free
    ensures Reserved(live[key := f], own', free') && Injective(live[key := f])
  {
  }

  lemma MallocKeepsInv(s: State, own: Labels, all: set<Frame>, c: Context, page: Page) returns (own': Labels)
    requires Inv(s, own, all) && Enabled(s, Malloc(c, page))
    ensures Inv(Next(s, Malloc(c, page)), own', all) && Known(Next(s, Malloc(c, page))) == Known(s)
  {
    own' := MallocMap(s, own, all, c, page);
    var s', f, key := Next(s, Malloc(c, page)), s.free[0], KeyOf(c, page);
    MallocSpaces(s, s', own, own', c, page, f);
    ValuesAfterAdd(s.live, key, f);
    StillReserved(s.live, own, own', s.free, s'.free, key, f);
    MallocPages(s, s', own, own', key, f);
  }

  lemma MallocPages(s: State, s': State, own: Labels, own': Labels, key: Key, f: Frame)
    requires Pages(s, own) && own.Keys <= own'.Keys && key in s.virt
    requires s'.virt == s.virt - {key} && s'.live == s.live[key := f] && s'.pending == s.pending && s'.held == s.held
    ensures Pages(s', own') && Known(s') == Known(s)
  {
    assert s'.live.Keys == s.live.Keys + {key};
    assert Known(s') == Known(s);
  }

  lemma ValuesAfterAdd(live: map<Key, Frame>, key: Key, f: Frame)
    requires key !in live
    ensures live[key := f].Values == live.Values + {f}
  {
    var live' := live[key := f];
    forall g | g in live.Values + {f}
      ensures g in live'.Values
    {
      if g == f {
        assert live'[key] == f;
      } else {
        var k :| k in live && live[k] == g;
        assert live'[k] == g;
      }
    }
  }

  lemma ValuesAfterRemove(live: map<Key, Frame>, key: Key)
    requires key in live && Injective(live)
    ensures (live - {key}).Values == live.Values - {live[key]} && Injective(live - {key})
  {
    var live' := live - {key};
    forall g | g in live.Values && g != live[key]
      ensures g in live'.Values
    {
      var k :| k in live && live[k] == g;
      assert live'[k] == g;
    }
  }

  /** The first free frame is handed out, the next `k` become tables. */
  lemma TakenApart(free: seq<Frame>, own: Labels, own': Labels, free': seq<Frame>, k: nat)
    requires free != [] && Distinct(free) && Grown(own, own', free[1..], free', k)
    ensures SetOf(free) + own.Keys == {free[0]} + SetOf(free') + own'.Keys
    ensures free[0] !in free' && (free[0] in own' ==> free[0] in own)
    ensures forall f :: f in own' ==> f in own || f in free
    ensures forall f :: f in free' ==> f in free
  {
    HeadAndRest(free);
    TakeAndDrop(free[1..], k);
  }

  lemma HeadAndRest(free: seq<Frame>)
    requires free != [] && Distinct(free)
    ensures SetOf(free) == {free[0]} + SetOf(free[1..]) && free[0] !in free[1..]
  {
    assert free == [free[0]] + free[1..];
    assert forall i {:trigger free[1..][i]} :: 0 <= i < |free[1..]| ==> free[1..][i] == free[i + 1];
  }

  lemma TakeAndDrop(rest: seq<Frame>, k: nat)
    requires k <= |rest|
    ensures SetOf(rest) == SetOf(rest[..k]) + SetOf(rest[k..])
  {
    assert rest == rest[..k] + rest[k..];
  }

  // ---------------------------------------------------------------- a kernel free

  /** What unmapping the kernel page does to the spaces. */
  ghost predicate Unmapped(s: State, m': Memory, own': Labels, page: Page) {
    && (forall d {:trigger d in s.contexts} :: d in s.contexts ==> IsContext(own', d))
    && (forall d, q: Page {:trigger Lookup(m', d.root, q)} :: d in s.contexts && q != page ==>
          Lookup(m', d.root, q) == Lookup(s.m, d.root, q))
  }

  /** Freeing stacks the frame and unmaps the page; no table is needed for that. */
  lemma FreeMap(s: State, own: Labels, all: set<Frame>, c: Context, page: Page) returns (own': Labels)
    requires Inv(s, own, all) && Enabled(s, Free(c, page))
    ensures var s' := Next(s, Free(c, page));
            && WellFormed(s'.m, own', s'.free) && own'.Keys == own.Keys
            && Unmapped(s, s'.m, own', page) && s'.free == [s.live[KernelKey(page)]] + s.free
  {
    assert Backed(s.m, s.live, c, page) && Backed(s.m, s.live, s.startup, page);
    var free1 := [s.live[KernelKey(page)]] + s.free;
    assert WellFormed(s.m, own, free1);
    MappedMissesNothing(s.m, own, s.free, s.startup.root, page, 0);
    NothingTaken(s.m, free1, s.startup.root, page, 0, Entry(0, 0));
    var k;
    own', k := MapRefinesFlatMap(s.m, own, free1, s.startup, page, Entry(0, 0));
    NoneGrown(own, own', free1, k);
  }

  lemma FreeFrames(live: map<Key, Frame>, own: Labels, own': Labels, free: seq<Frame>, key: Key, all: set<Frame>)
    requires key in live && Injective(live) && Reserved(live, own, free) && own'.Keys == own.Keys
    requires all == SetOf(free) + own.Keys + live.Values
    ensures Injective(live - {key}) && Reserved(live - {key}, own', [live[key]] + free)
    ensures all == SetOf([live[key]] + free) + own'.Keys + (live - {key}).Values
  {
    ValuesAfterRemove(live, key);
    assert SetOf([live[key]] + free) == SetOf(free) + {live[key]};
  }

  lemma FreePages(s: State, s': State, own: Labels, own': Labels, key: Key)
    requires Pages(s, own) && own'.Keys == own.Keys && key in s.live
    requires s'.virt == s.virt && s'.live == s.live - {key} && s'.pending == s.pending + {key} && s'.held == s.held
    ensures Pages(s', own') && Known(s') == Known(s)
  {
    assert s'.live.Keys == s.live.Keys - {key};
    assert Known(s') == Known(s);
  }

  lemma FreeKeepsInv(s: State, own: Labels, all: set<Frame>, c: Context, page: Page) returns (own': Labels)
    requires Inv(s, own, all) && Enabled(s, Free(c, page))
    ensures Inv(Next(s, Free(c, page)), own', all) && Known(Next(s, Free(c, page))) == Known(s)
  {
    own' := FreeMap(s, own, all, c, page);
    var s' := Next(s, Free(c, page));
    FreeSpaces(s, s', own, own', page);
    FreeFrames(s.live, own, own', s.free, KernelKey(page), all);
    FreePages(s, s', own, own', KernelKey(page));
  }

  lemma FreeSpaces(s: State, s': State, own: Labels, own': Labels, page: Page)
    requires Spaces(s, own) && Unmapped(s, s'.m, own', page)
    requires s'.live == s.live - {KernelKey(page)} && s'.contexts == s.contexts && s'.startup == s.startup
    requires page < KERNEL_PAGES
    ensures Spaces(s', own')
  {
    forall d, p | d in s'.contexts
      ensures Backed(s'.m, s'.live, d, p)
    {
      assert Backed(s.m, s.live, d, p);
    }
  }

  lemma NoneGrown(own: Labels, own': Labels, free: seq<Frame>, k: nat)
    requires Grown(own, own', free, free, k)
    ensures own'.Keys == own.Keys
  {
    assert |free[k..]| == |free| - k;
    assert free[..0] == [];
  }

  lemma {:induction false} NothingTaken(m: Memory, free: seq<Frame>, t: Frame, page: Page, level: nat, e: Entry)
    requires level < 4 && t in m && Missing(m, t, page, level) == 0
    ensures MapFrom(m, free, t, page, level, e).1 == free
    decreases 4 - level
  {
    if level < 3 && m[t][Index(page, level)].frame in m {
      NothingTaken(m, free, m[t][Index(page, level)].frame, page, level + 1, e);
    }
  }

  /** A page with a translation needs no new table. */
  lemma {:induction false} MappedMissesNothing(m: Memory, own: Labels, free: seq<Frame>, t: Frame, page: Page,
                                               level: nat)
    requires WellFormed(m, own, free) && t in own && level == own[t].level
    requires LookupFrom(m, t, page, level) != ZERO_ENTRY
    ensures Missing(m, t, page, level) == 0
    decreases 4 - level
  {
    if level < 3 {
      var i := Index(page, level);
      assert GoodCell(m, own, t, i);
      if Present(m[t][i]) {
        MappedMissesNothing(m, own, free, m[t][i].frame, page, level + 1);
      }
    }
  }

  // ---------------------------------------------------------------- a new space

  /** The frames behind the two pages hold no table, so filling them changes no translation. */
  lemma FilledLooksUp(s: State, own: Labels, c: Context, d: Context, q: Page)
    requires WellFormed(s.m, own, s.free) && IsContext(own, d) && c.root !in own && c.pdpt !in own
    ensures WellFormed(Filled(s.m, c), own, s.free) && Lookup(Filled(s.m, c), d.root, q) == Lookup(s.m, d.root, q)
  {
    var m1 := s.m[c.root := OneEntry(c.pdpt)];
    ForeignWrite(s.m, own, s.free, c.root, OneEntry(c.pdpt));
    ForeignWrite(m1, own, s.free, c.pdpt, OneEntry(c.pd));
    ForeignWriteLookup(s.m, own, s.free, c.root, OneEntry(c.pdpt), d.root, q, 0);
    ForeignWriteLookup(m1, own, s.free, c.pdpt, OneEntry(c.pd), d.root, q, 0);
  }

  /** The labels of the two tables. */
  function Labelled(own: Labels, c: Context): Labels {
    own[c.root := FirstNode(c.root, 0)][c.pdpt := FirstNode(c.root, 1)]
  }

  lemma SpaceBuilt(s: State, own: Labels, all: set<Frame>, v0: Page, v1: Page, user: set<Page>)
    requires Inv(s, own, all) && Enabled(s, NewSpace(v0, v1, user))
    ensures var c := Built(s, v0, v1);
            && WellFormed(Filled(s.m, c), Labelled(own, c), s.free) && IsContext(Labelled(own, c), c)
            && c.root !in own && c.pdpt !in own && c.root != c.pdpt && c.root != 0
  {
    var c := Built(s, v0, v1);
    FilledLooksUp(s, own, c, s.startup, 0);
    PageTables.NewSpace(Filled(s.m, c), own, s.free, s.startup, c.root, c.pdpt, Labelled(own, c));
  }

  /** The new space has the kernel's pages, and none of its own yet. */
  lemma BuiltLooksUp(s: State, own: Labels, all: set<Frame>, v0: Page, v1: Page, user: set<Page>, p: Page)
    requires Inv(s, own, all) && Enabled(s, NewSpace(v0, v1, user))
    ensures var c := Built(s, v0, v1); Backed(Filled(s.m, c), s.live, c, p)
  {
    var c, m' := Built(s, v0, v1), Filled(s.m, Built(s, v0, v1));
    SpaceBuilt(s, own, all, v0, v1, user);
    if p < KERNEL_PAGES {
      assert IsContext(Labelled(own, c), s.startup);
      NewSpaceLookup(m', Labelled(own, c), s.free, s.startup, c, p);
      FilledLooksUp(s, own, c, s.startup, p);
      assert Backed(s.m, s.live, s.startup, p);
    } else {
      assert KeyOf(c, p).root == c.root;
    }
  }

  lemma SpaceSpaces(s: State, own: Labels, all: set<Frame>, v0: Page, v1: Page, user: set<Page>)
    requires Inv(s, own, all) && Enabled(s, NewSpace(v0, v1, user))
    ensures Spaces(Next(s, NewSpace(v0, v1, user)), Labelled(own, Built(s, v0, v1)))
  {
    var c, s' := Built(s, v0, v1), Next(s, NewSpace(v0, v1, user));
    SpaceBuilt(s, own, all, v0, v1, user);
    forall d, p | d in s'.contexts
      ensures Backed(s'.m, s'.live, d, p)
    {
      if d == c {
        BuiltLooksUp(s, own, all, v0, v1, user, p);
      } else {
        FilledLooksUp(s, own, c, d, p);
        assert Backed(s.m, s.live, d, p);
      }
    }
  }

  /** vmm_crcontext: the frames behind two live pages become tables, the pages are held from then on. */
  lemma SpaceKeepsInv(s: State, own: Labels, all: set<Frame>, v0: Page, v1: Page, user: set<Page>)
    returns (own': Labels)
    requires Inv(s, own, all) && Enabled(s, NewSpace(v0, v1, user))
    ensures Inv(Next(s, NewSpace(v0, v1, user)), own', all)
    ensures var s' := Next(s, NewSpace(v0, v1, user));
            && Known(s) <= Known(s') && Built(s, v0, v1) in s'.contexts
            && forall p: Page :: p in user ==> KeyOf(Built(s, v0, v1), p) in s'.virt
  {
    own' := Labelled(own, Built(s, v0, v1));
    SpaceBuilt(s, own, all, v0, v1, user);
    SpaceSpaces(s, own, all, v0, v1, user);
    SpaceFrames(s, own, all, v0, v1);
    SpacePages(s, own, all, v0, v1, user);
  }

  lemma SpaceFrames(s: State, own: Labels, all: set<Frame>, v0: Page, v1: Page)
    requires Inv(s, own, all) && v0 != v1 && KernelKey(v0) in s.live && KernelKey(v1) in s.live
    ensures var c, live' := Built(s, v0, v1), s.live - {KernelKey(v0), KernelKey(v1)};
            && Injective(live') && Reserved(live', Labelled(own, c), s.free)
            && all == SetOf(s.free) + Labelled(own, c).Keys + live'.Values
  {
    var c := Built(s, v0, v1);
    var one := s.live - {KernelKey(v0)};
    ValuesAfterRemove(s.live, KernelKey(v0));
    ValuesAfterRemove(one, KernelKey(v1));
    assert one - {KernelKey(v1)} == s.live - {KernelKey(v0), KernelKey(v1)};
    assert Labelled(own, c).Keys == own.Keys + {c.root, c.pdpt};
  }

  lemma SpacePages(s: State, own: Labels, all: set<Frame>, v0: Page, v1: Page, user: set<Page>)
    requires Inv(s, own, all) && Enabled(s, NewSpace(v0, v1, user))
    ensures Pages(Next(s, NewSpace(v0, v1, user)), Labelled(own, Built(s, v0, v1)))
    ensures Known(s) <= Known(Next(s, NewSpace(v0, v1, user)))
  {
    var c, s' := Built(s, v0, v1), Next(s, NewSpace(v0, v1, user));
    assert forall k :: k in Known(s) ==> k.root != c.root;
    assert s'.live.Keys == s.live.Keys - {KernelKey(v0), KernelKey(v1)};
  }

  // ---------------------------------------------------------------- whole runs

  predicate IsRun(s: State, steps: seq<Step>)
    decreases |steps|
  {
    steps == [] || (Enabled(s, steps[0]) && IsRun(Next(s, steps[0]), steps[1..]))
  }

  function After(s: State, steps: seq<Step>): State
    requires IsRun(s, steps)
    decreases |steps|
  {
    if steps == [] then s else After(Next(s, steps[0]), steps[1..])
  }

  lemma StepKeepsInv(s: State, own: Labels, all: set<Frame>, step: Step) returns (own': Labels)
    requires Inv(s, own, all) && Enabled(s, step)
    ensures Inv(Next(s, step), own', all) && Known(s) <= Known(Next(s, step))
  {
    match step
    case Malloc(c, page) => own' := MallocKeepsInv(s, own, all, c, page);
    case Free(c, page) => own' := FreeKeepsInv(s, own, all, c, page);
    case NewSpace(v0, v1, user) => own' := SpaceKeepsInv(s, own, all, v0, v1, user);
    case Reclaim(page) => own' := ReclaimKeepsInv(s, own, all, page);
  }

  lemma ReclaimKeepsInv(s: State, own: Labels, all: set<Frame>, page: Page) returns (own': Labels)
    requires Inv(s, own, all) && Enabled(s, Reclaim(page))
    ensures Inv(Next(s, Reclaim(page)), own', all) && Known(s) <= Known(Next(s, Reclaim(page)))
  {
    own' := own;
    var s' := Next(s, Reclaim(page));
    assert Known(s') == Known(s);
    forall c, p | c in s.contexts
      ensures Backed(s'.m, s'.live, c, p)
    {
      assert Backed(s.m, s.live, c, p);
    }
  }

  /** Over every run of allocations in any space, kernel frees, reclaims and creations of spaces each
      frame keeps exactly one owner, no frame and no page is lost, and distinct live pages are backed by
      distinct frames that the tables of every space that shows them really hold. */
  lemma {:induction false} OwnershipInEveryRun(s: State, own: Labels, all: set<Frame>, steps: seq<Step>)
    returns (own': Labels)
    requires Inv(s, own, all) && IsRun(s, steps)
    ensures Inv(After(s, steps), own', all) && Known(s) <= Known(After(s, steps))
    decreases |steps|
  {
    own' := own;
    if steps != [] {
      own' := StepKeepsInv(s, own, all, steps[0]);
      own' := OwnershipInEveryRun(Next(s, steps[0]), own', all, steps[1..]);
    }
  }

  /** So it is in every run. */
  lemma AccessInEveryRun(s: State, own: Labels, all: set<Frame>, steps: seq<Step>, c: Context, p: Page, k: nat)
    requires Inv(s, own, all) && IsRun(s, steps) && k < 4
    requires c in After(s, steps).contexts && KeyOf(c, p) in After(s, steps).live
    ensures var e := WalkEntry(After(s, steps).m, c.root, p, 0, k);
            && e.flags % 2 == 1 && e.flags / 2 % 2 == 1
            && (p >= 0x4_0000 || k < 3 ==> e.flags / 4 % 2 == 1)
            && (k == 3 ==> e.flags / 8 == 1 && (p < 0x4_0000 ==> e.flags / 4 % 2 == 0))
  {
    hide Inv, WalkEntry;
    var own' := OwnershipInEveryRun(s, own, all, steps);
    LivePageIsAccessible(After(s, steps), own', all, c, p, k);
  }
}
