/** The x86_64 page tables of the kernel as plain values: physical memory is a map from
    frames to tables of 512 entries, an address space is named by the frame of its root
    table. `MapFrom` is the table walk of vmm_map on physical memory, without the window
    page; the class in Vmm.dfy is proved to compute it. The lemmas show that the radix
    tree behaves as a flat map from pages to entries.

    Every table frame in use carries a label: the space it belongs to and the indices
    on the path from the root to it. Labels are distinct, which is what keeps one
    mapping from disturbing another. */
module PageTables {
  import opened Basics

  type Frame = nat
  type Page = p: nat | p < 0x10_0000_0000

  datatype Entry = Entry(flags: nat, frame: Frame)
  type Table = t: seq<Entry> | |t| == 512 witness seq(512, _ => Entry(0, 0))
  type Memory = map<Frame, Table>

  const FLG_USER: nat := 0x0f   // FLGCOMBAT_USER
  const FLG_KERNEL: nat := 0x0b // FLGCOMBAT_KERNEL
  const ZERO_ENTRY: Entry := Entry(0, 0)
  const KERNEL_PAGES: nat := 0x4_0000 // KERNEL_SPACE in pages

  /** The page of TMP_PAGEBUF, through which vmm_map looks at tables. */
  const WINDOW: Page := 1

  function ZeroTable(): (t: Table)
    ensures forall i :: 0 <= i < 512 ==> t[i] == ZERO_ENTRY
  {
    seq(512, _ => ZERO_ENTRY)
  }

  predicate Present(e: Entry) {
    e.flags % 2 == 1
  }

  /** The bits of an entry: FLG_IN_MEM is bit 0, FLG_WRITABLE 1, FLG_USERACCESS 2. */
  predicate Bit(e: Entry, k: nat)
    requires k < 3
  {
    match k
    case 0 => e.flags % 2 == 1
    case 1 => e.flags / 2 % 2 == 1
    case 2 => e.flags / 4 % 2 == 1
  }

  /** An entry above the last level lets writes and user accesses through: what it leads to decides. */
  predicate Open(e: Entry) {
    Bit(e, 1) && Bit(e, 2)
  }

  /** The four-index split of a page number. */
  function Index(page: Page, level: nat): (i: nat)
    requires level < 4
    ensures i < 512
  {
    match level
    case 0 => page / (512 * 512 * 512)
    case 1 => page % (512 * 512 * 512) / (512 * 512)
    case 2 => page % (512 * 512) / 512
    case 3 => page % 512
  }

  function Cell(m: Memory, table: Frame, i: nat): Entry
    requires i < 512
  {
    if table in m then m[table][i] else ZERO_ENTRY
  }

  function SetCell(m: Memory, table: Frame, i: nat, e: Entry): Memory
    requires i < 512 && table in m
  {
    m[table := m[table][i := e]]
  }

  /** The entry for `page` found by walking down from `table`, a table of the given level. */
  function LookupFrom(m: Memory, table: Frame, page: Page, level: nat): Entry
    requires level < 4
    decreases 4 - level
  {
    var e := Cell(m, table, Index(page, level));
    if level == 3 then e
    else if Present(e) then LookupFrom(m, e.frame, page, level + 1)
    else ZERO_ENTRY
  }

  function Lookup(m: Memory, root: Frame, page: Page): Entry {
    LookupFrom(m, root, page, 0)
  }

  /** The table that holds the last-level entry of `page`, 0 when a table on the way is absent. */
  function LeafFrom(m: Memory, table: Frame, page: Page, level: nat): Frame
    requires level < 4
    decreases 4 - level
  {
    if level == 3 then table
    else
      var e := Cell(m, table, Index(page, level));
      if Present(e) then LeafFrom(m, e.frame, page, level + 1) else 0
  }

  /** How many tables vmm_map has to create on the way to `page`. */
  function Missing(m: Memory, table: Frame, page: Page, level: nat): nat
    requires level < 4
    decreases 4 - level
  {
    if level == 3 then 0
    else
      var e := Cell(m, table, Index(page, level));
      if Present(e) then Missing(m, e.frame, page, level + 1) else 3 - level
  }

  /** Link the fresh frame `f`, zeroed, into slot `i` of `table`. */
  function Link(m: Memory, table: Frame, i: nat, f: Frame): Memory
    requires i < 512 && table in m
  {
    SetCell(m, table, i, Entry(FLG_USER, f))[f := ZeroTable()]
  }

  /** vmm_map on physical memory, from `table` of the given level down. */
  function MapFrom(m: Memory, free: seq<Frame>, table: Frame, page: Page, level: nat, e: Entry): (Memory, seq<Frame>)
    requires level < 4 && table in m
    decreases 4 - level
  {
    var i := Index(page, level);
    var cur := m[table][i];
    if level == 3 then (SetCell(m, table, i, e), free)
    else if Present(cur) then
      if cur.frame in m then MapFrom(m, free, cur.frame, page, level + 1, e) else (m, free)
    else if free == [] then (m, free)
    else MapFrom(Link(m, table, i, free[0]), free[1..], free[0], page, level + 1, e)
  }

  // ---------------------------------------------------------------- labels

  /** The place of a table: the space it belongs to, its level, and the part of a page number
      that leads to it. */
  datatype Space = Kernel | Private(root: Frame)
  datatype Node = Node(space: Space, level: nat, path: nat)
  type Labels = map<Frame, Node>

  /** Everything below slot 0 of slot 0 of the root, the first gigabyte, is the kernel's. */
  function Child(n: Node, i: nat): Node {
    Node(if n.level == 1 && n.path == 0 && i == 0 then Kernel else n.space, n.level + 1, n.path * 512 + i)
  }

  /** The label expected for the last-level table of `page`, going down from label `n`. */
  function Descend(n: Node, page: Page): Node
    decreases 3 - n.level
  {
    if n.level >= 3 then n else Descend(Child(n, Index(page, n.level)), page)
  }

  /** The tables on the path to the window page must be there. */
  predicate OnWindowPath(n: Node) {
    n.level < 3 && n.path == 0
  }

  ghost predicate Unused(own: Labels, n: Node) {
    forall f :: f in own ==> own[f] != n
  }

  ghost predicate GoodCell(m: Memory, own: Labels, t: Frame, i: nat)
    requires t in own && t in m && i < 512
  {
    var e := m[t][i];
    var n := Child(own[t], i);
    && (Present(e) <==> e.frame != 0)
    && (Present(e) ==> e.frame in own && own[e.frame] == n && Open(e))
    && (!Present(e) ==> Unused(own, n))
  }

  ghost predicate IsParent(own: Labels, h: Frame, f: Frame)
    requires f in own
  {
    h in own && own[f] == Child(own[h], own[f].path % 512)
  }

  ghost predicate HasParent(own: Labels, f: Frame)
    requires f in own
  {
    own[f].level > 0 ==> exists h :: IsParent(own, h, f)
  }

  ghost predicate RootKnown(own: Labels, f: Frame)
    requires f in own
  {
    own[f].space.Private? ==> own[f].space.root in own
  }

  /** Labels are distinct and every table but a root hangs below another one. */
  ghost predicate GoodLabels(own: Labels) {
    && (forall f :: f in own ==> f != 0 && own[f].level <= 3)
    && (forall f, g :: f in own && g in own && own[f] == own[g] ==> f == g)
    && (forall f {:trigger RootKnown(own, f)} :: f in own ==> RootKnown(own, f))
    && (forall f {:trigger HasParent(own, f)} :: f in own ==> HasParent(own, f))
  }

  ghost predicate GoodCells(m: Memory, own: Labels) {
    && (forall f :: f in own ==> f in m)
    && (forall t, i {:trigger GoodCell(m, own, t, i)} ::
          t in own && own[t].level < 3 && 0 <= i < 512 ==> GoodCell(m, own, t, i))
    && (forall t :: t in own && OnWindowPath(own[t]) ==> Present(m[t][0]))
  }

  ghost predicate GoodFree(own: Labels, free: seq<Frame>) {
    Distinct(free) && (forall i :: 0 <= i < |free| ==> free[i] != 0 && free[i] !in own)
  }

  ghost predicate WellFormed(m: Memory, own: Labels, free: seq<Frame>) {
    (forall f :: f in own ==> f in m) && GoodLabels(own) && GoodCells(m, own) && GoodFree(own, free)
  }

  /** The label of the first table of a level, on the path to the window page. */
  function FirstNode(root: Frame, level: nat): Node {
    Node(if level >= 2 then Kernel else Private(root), level, 0)
  }

  /** An address space: its root, highest_paging, and the first table of every lower level,
      other_first_tables. */
  datatype Context = Context(root: Frame, pdpt: Frame, pd: Frame, pt: Frame) {
    function First(level: nat): Frame {
      if level == 0 then root else if level == 1 then pdpt else if level == 2 then pd else pt
    }
  }

  ghost predicate IsContext(own: Labels, c: Context) {
    && c.root in own && own[c.root] == FirstNode(c.root, 0)
    && c.pdpt in own && own[c.pdpt] == FirstNode(c.root, 1)
    && c.pd in own && own[c.pd] == FirstNode(c.root, 2)
    && c.pt in own && own[c.pt] == FirstNode(c.root, 3)
  }

  // ---------------------------------------------------------------- the index split

  /** A page number is determined by its four indices. */
  lemma SplitInjective(p: Page, q: Page)
    ensures p == q <==> forall l: nat :: l < 4 ==> Index(p, l) == Index(q, l)
  {
    if forall l: nat :: l < 4 ==> Index(p, l) == Index(q, l) {
      assert Index(p, 0) == Index(q, 0) && Index(p, 1) == Index(q, 1)
          && Index(p, 2) == Index(q, 2) && Index(p, 3) == Index(q, 3);
      SplitSum(p);
      SplitSum(q);
    }
  }

  lemma SplitSum(p: Page)
    ensures p == Index(p, 0) * 0x800_0000 + Index(p, 1) * 0x4_0000 + Index(p, 2) * 512 + Index(p, 3)
  {
    Divided(p, p / 0x800_0000, p % 0x800_0000);
  }

  lemma Divided(p: nat, high: nat, low: nat)
    requires p == high * 0x800_0000 + low && low < 0x800_0000
    ensures p % 0x4_0000 == low % 0x4_0000 && p % 512 == p % 0x4_0000 % 512
  {
  }

  /** The label of the table at `level` on the way to `page`. */
  function PathNode(root: Frame, page: Page, level: nat): (n: Node)
    requires level < 4
  {
    match level
    case 0 => Node(Private(root), 0, 0)
    case 1 => Node(Private(root), 1, page / 0x800_0000)
    case 2 => Node(if page < KERNEL_PAGES then Kernel else Private(root), 2, page / 0x4_0000)
    case 3 => Node(if page < KERNEL_PAGES then Kernel else Private(root), 3, page / 512)
  }

  lemma PathNodeStep(root: Frame, page: Page, level: nat)
    requires level < 3
    ensures PathNode(root, page, level + 1) == Child(PathNode(root, page, level), Index(page, level))
  {
    SplitSum(page);
  }

  lemma LeafLabel(root: Frame, page: Page, level: nat)
    requires level < 4
    ensures Descend(PathNode(root, page, level), page) == PathNode(root, page, 3)
    decreases 3 - level
  {
    if level < 3 {
      PathNodeStep(root, page, level);
      LeafLabel(root, page, level + 1);
    }
  }

  /** Two (space, page) pairs use the same last-level cell exactly when the page is the same
      and it is a kernel page or the space is the same. */
  lemma SameCell(c: Frame, p: Page, d: Frame, q: Page)
    ensures (Descend(FirstNode(c, 0), p) == Descend(FirstNode(d, 0), q) && Index(p, 3) == Index(q, 3))
       <==> (p == q && (c == d || p < KERNEL_PAGES))
  {
    LeafLabel(c, p, 0);
    LeafLabel(d, q, 0);
  }

  // ---------------------------------------------------------------- walks

  /** A walk that reaches a last-level table reaches the one with the expected label. */
  lemma {:induction false} LeafHasLabel(m: Memory, own: Labels, free: seq<Frame>, t: Frame, page: Page, level: nat)
    requires WellFormed(m, own, free)
    requires t in own && level == own[t].level
    ensures level < 4
    ensures LeafFrom(m, t, page, level) != 0 ==>
              LeafFrom(m, t, page, level) in own && own[LeafFrom(m, t, page, level)] == Descend(own[t], page)
    decreases 4 - level
  {
    if level < 3 {
      var i := Index(page, level);
      assert GoodCell(m, own, t, i);
      if Present(m[t][i]) {
        LeafHasLabel(m, own, free, m[t][i].frame, page, level + 1);
      }
    }
  }

  lemma {:induction false} LookupIsLeafCell(m: Memory, own: Labels, free: seq<Frame>, t: Frame, page: Page, level: nat)
    requires WellFormed(m, own, free)
    requires t in own && level == own[t].level
    ensures LookupFrom(m, t, page, level)
         == if LeafFrom(m, t, page, level) == 0 then ZERO_ENTRY
            else Cell(m, LeafFrom(m, t, page, level), Index(page, 3))
    decreases 4 - level
  {
    if level < 3 {
      var i := Index(page, level);
      assert GoodCell(m, own, t, i);
      if Present(m[t][i]) {
        LookupIsLeafCell(m, own, free, m[t][i].frame, page, level + 1);
      }
    }
  }

  /** The first gigabyte is common: all spaces translate a kernel page alike. */
  lemma KernelSpaceCommon(m: Memory, own: Labels, free: seq<Frame>, c: Context, d: Context, page: Page)
    requires WellFormed(m, own, free) && IsContext(own, c) && IsContext(own, d)
    requires page < KERNEL_PAGES
    ensures Lookup(m, c.root, page) == Lookup(m, d.root, page)
    ensures LeafFrom(m, c.root, page, 0) == LeafFrom(m, d.root, page, 0)
  {
    ToKernelDirectory(m, own, free, c, page);
    ToKernelDirectory(m, own, free, d, page);
  }

  lemma ToKernelDirectory(m: Memory, own: Labels, free: seq<Frame>, c: Context, page: Page)
    requires WellFormed(m, own, free) && IsContext(own, c)
    requires page < KERNEL_PAGES
    ensures Lookup(m, c.root, page) == LookupFrom(m, c.pd, page, 2)
    ensures LeafFrom(m, c.root, page, 0) == LeafFrom(m, c.pd, page, 2)
  {
    FirstTables(m, own, free, c);
    WalkStep(m, c.root, page, 0, c.pdpt);
    WalkStep(m, c.pdpt, page, 1, c.pd);
  }

  lemma WalkStep(m: Memory, t: Frame, page: Page, level: nat, child: Frame)
    requires page < KERNEL_PAGES && level < 2
    requires t in m && Present(m[t][0]) && m[t][0].frame == child
    ensures LookupFrom(m, t, page, level) == LookupFrom(m, child, page, level + 1)
    ensures LeafFrom(m, t, page, level) == LeafFrom(m, child, page, level + 1)
  {
    assert Index(page, level) == 0;
  }

  /** other_first_tables are the tables on the path of the window page. */
  lemma FirstTables(m: Memory, own: Labels, free: seq<Frame>, c: Context)
    requires WellFormed(m, own, free) && IsContext(own, c)
    ensures Present(m[c.root][0]) && m[c.root][0].frame == c.pdpt
    ensures Present(m[c.pdpt][0]) && m[c.pdpt][0].frame == c.pd
    ensures Present(m[c.pd][0]) && m[c.pd][0].frame == c.pt
  {
    assert GoodCell(m, own, c.root, 0);
    assert GoodCell(m, own, c.pdpt, 0);
    assert GoodCell(m, own, c.pd, 0);
  }

  /** The entry of level `k` on the walk from `table`, a table of the given level, to `page`. */
  function WalkEntry(m: Memory, table: Frame, page: Page, level: nat, k: nat): Entry
    requires level <= k < 4
    decreases 4 - level
  {
    var e := Cell(m, table, Index(page, level));
    if k == level then e
    else if Present(e) then WalkEntry(m, e.frame, page, level + 1, k)
    else ZERO_ENTRY
  }

  /** The walk to a page that is mapped: all entries above the last are present and open. */
  lemma {:induction false} WalkIsOpen(m: Memory, own: Labels, free: seq<Frame>, t: Frame, page: Page, level: nat,
                                      k: nat)
    requires WellFormed(m, own, free) && t in own && level == own[t].level <= k < 4
    requires LookupFrom(m, t, page, level) != ZERO_ENTRY
    ensures k < 3 ==> Bit(WalkEntry(m, t, page, level, k), 0) && Open(WalkEntry(m, t, page, level, k))
    ensures k == 3 ==> WalkEntry(m, t, page, level, k) == LookupFrom(m, t, page, level)
    decreases 4 - level
  {
    if level < 3 {
      var i := Index(page, level);
      assert GoodCell(m, own, t, i);
      if level < k {
        WalkIsOpen(m, own, free, m[t][i].frame, page, level + 1, k);
      }
    }
  }

  // ---------------------------------------------------------------- creating a table

  ghost predicate CanLink(m: Memory, own: Labels, free: seq<Frame>, t: Frame, i: nat) {
    WellFormed(m, own, free) && free != [] && t in own && own[t].level < 3 && i < 512 && !Present(m[t][i])
  }

  lemma LinkKeepsWellFormed(m: Memory, own: Labels, free: seq<Frame>, t: Frame, i: nat)
    requires CanLink(m, own, free, t, i)
    ensures WellFormed(Link(m, t, i, free[0]), own[free[0] := Child(own[t], i)], free[1..])
  {
    LinkLabels(m, own, free, t, i);
    var m', own' := Link(m, t, i, free[0]), own[free[0] := Child(own[t], i)];
    forall s, j | s in own' && own'[s].level < 3 && 0 <= j < 512
      ensures GoodCell(m', own', s, j)
    {
      LinkGoodCell(m, own, free, t, i, s, j);
    }
    NotOnWindowPath(m, own, free, t, i);
  }

  lemma LinkLabels(m: Memory, own: Labels, free: seq<Frame>, t: Frame, i: nat)
    requires CanLink(m, own, free, t, i)
    ensures GoodLabels(own[free[0] := Child(own[t], i)])
  {
    assert GoodCell(m, own, t, i);
    forall s | s in own || s == free[0]
      ensures HasParent(own[free[0] := Child(own[t], i)], s)
    {
      LinkParent(m, own, free, t, i, s);
    }
    forall s | s in own || s == free[0]
      ensures RootKnown(own[free[0] := Child(own[t], i)], s)
    {
      assert RootKnown(own, if s in own then s else t);
    }
  }

  /** Tables on the window's path are present already. */
  lemma NotOnWindowPath(m: Memory, own: Labels, free: seq<Frame>, t: Frame, i: nat)
    requires CanLink(m, own, free, t, i)
    ensures Child(own[t], i).path != 0
    ensures !OnWindowPath(own[t]) || i != 0
  {
  }

  lemma LinkParent(m: Memory, own: Labels, free: seq<Frame>, t: Frame, i: nat, s: Frame)
    requires CanLink(m, own, free, t, i)
    requires s in own || s == free[0]
    ensures HasParent(own[free[0] := Child(own[t], i)], s)
  {
    var own' := own[free[0] := Child(own[t], i)];
    if s == free[0] {
      assert IsParent(own', t, s);
    } else if own[s].level > 0 {
      assert HasParent(own, s);
      var h :| IsParent(own, h, s);
      assert IsParent(own', h, s);
    }
  }

  lemma LinkGoodCell(m: Memory, own: Labels, free: seq<Frame>, t: Frame, i: nat, s: Frame, j: nat)
    requires CanLink(m, own, free, t, i)
    requires s == free[0] || (s in own && own[s].level < 3)
    requires j < 512
    ensures GoodCell(Link(m, t, i, free[0]), own[free[0] := Child(own[t], i)], s, j)
  {
    var f := free[0];
    var n := Child(own[t], i);
    var m', own' := Link(m, t, i, f), own[f := n];
    assert GoodCell(m, own, t, i);
    NotOnWindowPath(m, own, free, t, i);
    if s == f {
      NoGrandchild(m, own, free, n, j);
    } else {
      assert GoodCell(m, own, s, j);
      if !(s == t && j == i) {
        assert m'[s][j] == m[s][j];
        ChildDiffers(own[s], j, own[t], i);
      }
    }
  }

  lemma NoGrandchild(m: Memory, own: Labels, free: seq<Frame>, n: Node, j: nat)
    requires WellFormed(m, own, free) && Unused(own, n) && n.path != 0 && j < 512
    ensures Unused(own, Child(n, j))
  {
    forall g | g in own && own[g].level == n.level + 1
      ensures own[g] != Child(n, j)
    {
      assert HasParent(own, g);
      var h :| IsParent(own, h, g);
      assert own[h] != n;
    }
  }

  lemma ChildDiffers(a: Node, i: nat, b: Node, j: nat)
    requires (a != b || i != j) && i < 512 && j < 512 && Child(b, j).path != 0
    ensures Child(a, i) != Child(b, j)
  {
  }

  /** A new, empty table answers as the absent one did. */
  lemma {:induction false} LinkKeepsLookups(m: Memory, own: Labels, free: seq<Frame>, t: Frame, i: nat, g: Frame,
                                            q: Page, level: nat)
    requires CanLink(m, own, free, t, i)
    requires g in own && level == own[g].level
    ensures LookupFrom(Link(m, t, i, free[0]), g, q, level) == LookupFrom(m, g, q, level)
    decreases 4 - level
  {
    var m' := Link(m, t, i, free[0]);
    if level < 3 {
      var j := Index(q, level);
      assert GoodCell(m, own, g, j);
      if g == t && j == i {
        assert m'[g][j] == Entry(FLG_USER, free[0]);
        assert Cell(m', free[0], Index(q, level + 1)) == ZERO_ENTRY;
      } else {
        assert m'[g][j] == m[g][j];
        if Present(m[g][j]) {
          LinkKeepsLookups(m, own, free, t, i, m[g][j].frame, q, level + 1);
        }
      }
    }
  }

  // ---------------------------------------------------------------- writing a last-level entry

  lemma LeafWriteKeepsWellFormed(m: Memory, own: Labels, free: seq<Frame>, t: Frame, i: nat, e: Entry)
    requires WellFormed(m, own, free) && t in own && own[t].level == 3 && i < 512
    ensures WellFormed(SetCell(m, t, i, e), own, free)
  {
    var m' := SetCell(m, t, i, e);
    forall s, j | s in own && own[s].level < 3 && 0 <= j < 512
      ensures GoodCell(m', own, s, j)
    {
      assert GoodCell(m, own, s, j);
    }
  }

  lemma {:induction false} LeafWriteEffect(m: Memory, own: Labels, free: seq<Frame>, t: Frame, i: nat, e: Entry,
                                           g: Frame, q: Page, level: nat)
    requires WellFormed(m, own, free) && t in own && own[t].level == 3 && i < 512
    requires g in own && level == own[g].level
    ensures LeafFrom(SetCell(m, t, i, e), g, q, level) == LeafFrom(m, g, q, level)
    ensures LookupFrom(SetCell(m, t, i, e), g, q, level)
         == if LeafFrom(m, g, q, level) == t && Index(q, 3) == i then e else LookupFrom(m, g, q, level)
    decreases 4 - level
  {
    var j := Index(q, level);
    if level < 3 {
      assert GoodCell(m, own, g, j);
      if Present(m[g][j]) {
        LeafWriteEffect(m, own, free, t, i, e, m[g][j].frame, q, level + 1);
      }
    }
  }

  // ---------------------------------------------------------------- the whole of vmm_map

  function SetOf(s: seq<Frame>): set<Frame> {
    set x | x in s
  }

  /** The first `k` free frames became tables. */
  ghost predicate Grown(own: Labels, own': Labels, free: seq<Frame>, free': seq<Frame>, k: nat) {
    && k <= |free| && free' == free[k..]
    && own'.Keys == own.Keys + SetOf(free[..k])
    && (forall f :: f in own ==> own'[f] == own[f])
  }

  lemma GrowsByOne(own: Labels, n: Node, own': Labels, free: seq<Frame>, free': seq<Frame>, k: nat)
    requires free != [] && free[0] !in own
    requires Grown(own[free[0] := n], own', free[1..], free', k)
    ensures Grown(own, own', free, free', k + 1)
  {
    var tail := free[1..];
    assert free[..k + 1] == [free[0]] + tail[..k];
    assert SetOf(free[..k + 1]) == {free[0]} + SetOf(tail[..k]);
  }

  ghost predicate InnerKept(m: Memory, own: Labels, m': Memory, g: Frame, i: nat)
    requires g in own && g in m && i < 512
  {
    own[g].level < 3 && Present(m[g][i]) ==> g in m' && m'[g][i] == m[g][i]
  }

  ghost predicate KeepsInner(m: Memory, own: Labels, m': Memory) {
    forall g, i: nat {:trigger InnerKept(m, own, m', g, i)} ::
      g in own && g in m && i < 512 ==> InnerKept(m, own, m', g, i)
  }

  ghost predicate MapEffect(m: Memory, own: Labels, m': Memory, t: Frame, page: Page, e: Entry, g: Frame, q: Page)
    requires t in own && own[t].level <= 3 && g in own && own[g].level <= 3
  {
    var same := && LeafFrom(m', g, q, own[g].level) == LeafFrom(m', t, page, own[t].level)
                && Index(q, 3) == Index(page, 3);
    LookupFrom(m', g, q, own[g].level) == if same then e else LookupFrom(m, g, q, own[g].level)
  }

  lemma LinkKeepsInner(m: Memory, own: Labels, free: seq<Frame>, t: Frame, i: nat, m': Memory)
    requires CanLink(m, own, free, t, i)
    requires KeepsInner(Link(m, t, i, free[0]), own[free[0] := Child(own[t], i)], m')
    ensures KeepsInner(m, own, m')
    ensures t in m' && m'[t][i] == Entry(FLG_USER, free[0])
  {
    var m1, own1 := Link(m, t, i, free[0]), own[free[0] := Child(own[t], i)];
    assert InnerKept(m1, own1, m', t, i);
    forall g, j: nat | g in own && j < 512
      ensures InnerKept(m, own, m', g, j)
    {
      assert InnerKept(m1, own1, m', g, j);
    }
  }

  lemma LinkThenMap(m: Memory, own: Labels, free: seq<Frame>, t: Frame, i: nat, m': Memory, page: Page, e: Entry,
                    g: Frame, q: Page)
    requires CanLink(m, own, free, t, i) && i == Index(page, own[t].level) && g in own
    requires t in m' && m'[t][i] == Entry(FLG_USER, free[0])
    requires MapEffect(Link(m, t, i, free[0]), own[free[0] := Child(own[t], i)], m', free[0], page, e, g, q)
    ensures MapEffect(m, own, m', t, page, e, g, q)
  {
    LinkKeepsLookups(m, own, free, t, i, g, q, own[g].level);
    assert LeafFrom(m', t, page, own[t].level) == LeafFrom(m', free[0], page, own[t].level + 1);
  }

  /** What MapFromEffect promises of one walk, as one predicate. */
  ghost predicate Mapped(m: Memory, own: Labels, t: Frame, page: Page, e: Entry, m': Memory, own': Labels,
                         free': seq<Frame>)
    requires t in own && own[t].level <= 3 && forall g :: g in own ==> own[g].level <= 3
  {
    && WellFormed(m', own', free') && KeepsInner(m, own, m')
    && LeafFrom(m', t, page, own[t].level) != 0
    && forall g, q: Page {:trigger MapEffect(m, own, m', t, page, e, g, q)} ::
         g in own ==> MapEffect(m, own, m', t, page, e, g, q)
  }

  lemma MapAtLeaf(m: Memory, own: Labels, free: seq<Frame>, t: Frame, page: Page, e: Entry)
    requires WellFormed(m, own, free) && t in own && own[t].level == 3
    ensures Mapped(m, own, t, page, e, SetCell(m, t, Index(page, 3), e), own, free)
  {
    var m' := SetCell(m, t, Index(page, 3), e);
    LeafWriteKeepsWellFormed(m, own, free, t, Index(page, 3), e);
    forall g, q: Page | g in own
      ensures MapEffect(m, own, m', t, page, e, g, q)
    {
      LeafWriteEffect(m, own, free, t, Index(page, 3), e, g, q, own[g].level);
      LeafWriteEffect(m, own, free, t, Index(page, 3), e, t, page, own[t].level);
    }
  }

  lemma MapBelow(m: Memory, own: Labels, free: seq<Frame>, t: Frame, i: nat, page: Page, e: Entry,
                 m': Memory, own': Labels, free': seq<Frame>)
    requires WellFormed(m, own, free) && t in own && own[t].level < 3 && i == Index(page, own[t].level)
    requires Present(m[t][i]) && m[t][i].frame in own && own[m[t][i].frame].level == own[t].level + 1
    requires Mapped(m, own, m[t][i].frame, page, e, m', own', free')
    ensures Mapped(m, own, t, page, e, m', own', free')
  {
    assert InnerKept(m, own, m', t, i);
    forall g, q: Page | g in own
      ensures MapEffect(m, own, m', t, page, e, g, q)
    {
      assert MapEffect(m, own, m', m[t][i].frame, page, e, g, q);
    }
  }

  lemma LinkThenMapAll(m: Memory, own: Labels, free: seq<Frame>, t: Frame, i: nat, m': Memory, page: Page, e: Entry)
    requires CanLink(m, own, free, t, i) && i == Index(page, own[t].level)
    requires t in m' && m'[t][i] == Entry(FLG_USER, free[0])
    requires var own1 := own[free[0] := Child(own[t], i)];
             forall g, q: Page {:trigger MapEffect(Link(m, t, i, free[0]), own1, m', free[0], page, e, g, q)} ::
               g in own && own[g].level <= 3 ==> MapEffect(Link(m, t, i, free[0]), own1, m', free[0], page, e, g, q)
    ensures forall g, q: Page {:trigger MapEffect(m, own, m', t, page, e, g, q)} ::
              g in own ==> MapEffect(m, own, m', t, page, e, g, q)
  {
    forall g, q: Page | g in own
      ensures MapEffect(m, own, m', t, page, e, g, q)
    {
      assert MapEffect(Link(m, t, i, free[0]), own[free[0] := Child(own[t], i)], m', free[0], page, e, g, q);
      LinkThenMap(m, own, free, t, i, m', page, e, g, q);
    }
  }

  lemma MapAfterLink(m: Memory, own: Labels, free: seq<Frame>, t: Frame, i: nat, page: Page, e: Entry,
                     m': Memory, own': Labels, free': seq<Frame>)
    requires CanLink(m, own, free, t, i) && i == Index(page, own[t].level)
    requires GoodLabels(own[free[0] := Child(own[t], i)])
    requires Mapped(Link(m, t, i, free[0]), own[free[0] := Child(own[t], i)], free[0], page, e, m', own', free')
    ensures Mapped(m, own, t, page, e, m', own', free')
  {
    LinkKeepsInner(m, own, free, t, i, m');
    LinkThenMapAll(m, own, free, t, i, m', page, e);
  }

  lemma AfterLink(m: Memory, own: Labels, free: seq<Frame>, t: Frame, i: nat, page: Page, e: Entry,
                  m': Memory, own': Labels, free': seq<Frame>, k: nat)
    requires CanLink(m, own, free, t, i) && i == Index(page, own[t].level)
    requires GoodLabels(own[free[0] := Child(own[t], i)])
    requires Mapped(Link(m, t, i, free[0]), own[free[0] := Child(own[t], i)], free[0], page, e, m', own', free')
    requires Grown(own[free[0] := Child(own[t], i)], own', free[1..], free', k)
    ensures Mapped(m, own, t, page, e, m', own', free') && Grown(own, own', free, free', k + 1)
  {
    GrowsByOne(own, Child(own[t], i), own', free, free', k);
    MapAfterLink(m, own, free, t, i, page, e, m', own', free');
  }

  lemma MapFromCreate(b: Memory, free: seq<Frame>, t: Frame, page: Page, i: nat, e: Entry)
    requires i < 3 && t in b && !Present(b[t][Index(page, i)]) && free != [] && free[0] != t
    ensures var b' := Link(b, t, Index(page, i), free[0]);
            && Missing(b', free[0], page, i + 1) == Missing(b, t, page, i) - 1
            && MapFrom(b', free[1..], free[0], page, i + 1, e) == MapFrom(b, free, t, page, i, e)
  {
    var b' := Link(b, t, Index(page, i), free[0]);
    assert Cell(b', free[0], Index(page, i + 1)) == ZERO_ENTRY;
  }

  lemma {:induction false} MapFromEffect(m: Memory, own: Labels, free: seq<Frame>, t: Frame, page: Page, level: nat,
                                         e: Entry)
    returns (own': Labels, k: nat)
    requires WellFormed(m, own, free) && t in own && level == own[t].level
    requires Missing(m, t, page, level) <= |free|
    ensures var (m', free') := MapFrom(m, free, t, page, level, e);
            Mapped(m, own, t, page, e, m', own', free') && Grown(own, own', free, free', k)
    decreases 4 - level
  {
    var i := Index(page, level);
    var (m', free') := MapFrom(m, free, t, page, level, e);
    if level == 3 {
      own', k := own, 0;
      MapAtLeaf(m, own, free, t, page, e);
    } else {
      assert GoodCell(m, own, t, i);
      if Present(m[t][i]) {
        own', k := MapFromEffect(m, own, free, m[t][i].frame, page, level + 1, e);
        MapBelow(m, own, free, t, i, page, e, m', own', free');
      } else {
        own', k := MapFromLinkEffect(m, own, free, t, page, level, e);
      }
    }
  }

  lemma {:induction false} MapFromLinkEffect(m: Memory, own: Labels, free: seq<Frame>, t: Frame, page: Page,
                                             level: nat, e: Entry)
    returns (own': Labels, k: nat)
    requires level < 3 && CanLink(m, own, free, t, Index(page, level)) && level == own[t].level
    requires Missing(m, t, page, level) <= |free|
    ensures var (m', free') := MapFrom(m, free, t, page, level, e);
            Mapped(m, own, t, page, e, m', own', free') && Grown(own, own', free, free', k)
    decreases 4 - level, 0
  {
    var i := Index(page, level);
    LinkKeepsWellFormed(m, own, free, t, i);
    MapFromCreate(m, free, t, page, level, e);
    var m1, own1 := Link(m, t, i, free[0]), own[free[0] := Child(own[t], i)];
    own', k := MapFromEffect(m1, own1, free[1..], free[0], page, level + 1, e);
    var (m', free') := MapFrom(m, free, t, page, level, e);
    AfterLink(m, own, free, t, i, page, e, m', own', free', k);
    k := k + 1;
  }

  /** vmm_map refines the update of a flat map: afterwards `page` has the new entry, in every
      space for a kernel page and in this space only for any other, and all other pages of
      all spaces translate as before, also when tables had to be created. */
  lemma MapRefinesFlatMap(m: Memory, own: Labels, free: seq<Frame>, c: Context, page: Page, e: Entry)
    returns (own': Labels, k: nat)
    requires WellFormed(m, own, free) && IsContext(own, c)
    requires Missing(m, c.root, page, 0) <= |free|
    ensures var (m', free') := MapFrom(m, free, c.root, page, 0, e);
            && WellFormed(m', own', free') && Grown(own, own', free, free', k)
            && (forall d :: IsContext(own, d) ==> IsContext(own', d))
            && (forall d, q: Page :: IsContext(own, d) ==>
                 Lookup(m', d.root, q)
                   == if q == page && (d.root == c.root || page < KERNEL_PAGES) then e else Lookup(m, d.root, q))
  {
    var (m', free') := MapFrom(m, free, c.root, page, 0, e);
    own', k := MapFromEffect(m, own, free, c.root, page, 0, e);
    forall d, q: Page | IsContext(own, d)
      ensures Lookup(m', d.root, q)
           == if q == page && (d.root == c.root || page < KERNEL_PAGES) then e else Lookup(m, d.root, q)
    {
      assert MapEffect(m, own, m', c.root, page, e, d.root, q);
      LeafHasLabel(m', own', free', c.root, page, 0);
      LeafHasLabel(m', own', free', d.root, q, 0);
      SameCell(c.root, page, d.root, q);
      if q == page && page < KERNEL_PAGES {
        KernelSpaceCommon(m', own', free', c, d, page);
      }
    }
  }

  // ---------------------------------------------------------------- frames

  lemma {:induction false} MapFromTakes(m: Memory, free: seq<Frame>, t: Frame, page: Page, level: nat, e: Entry)
    requires level < 4 && t in m
    ensures Missing(m, t, page, level) <= 3 - level
    ensures |free| - (3 - level) <= |MapFrom(m, free, t, page, level, e).1|
    decreases 4 - level
  {
    if level < 3 {
      var i := Index(page, level);
      var cur := m[t][i];
      if Present(cur) {
        if cur.frame in m {
          MapFromTakes(m, free, cur.frame, page, level + 1, e);
        }
      } else if free != [] {
        MapFromTakes(Link(m, t, i, free[0]), free[1..], free[0], page, level + 1, e);
      }
    }
  }

  /** Memory outside the tables is of no concern to them. */
  lemma ForeignWrite(m: Memory, own: Labels, free: seq<Frame>, f: Frame, t: Table)
    requires WellFormed(m, own, free) && f !in own
    ensures WellFormed(m[f := t], own, free)
  {
    var m' := m[f := t];
    forall s, i | s in own && own[s].level < 3 && 0 <= i < 512
      ensures GoodCell(m', own, s, i)
    {
      assert GoodCell(m, own, s, i);
    }
  }

  lemma {:induction false} ForeignWriteLookup(m: Memory, own: Labels, free: seq<Frame>, f: Frame, t: Table, g: Frame,
                                              q: Page, level: nat)
    requires WellFormed(m, own, free) && f !in own && g in own && level == own[g].level
    ensures LookupFrom(m[f := t], g, q, level) == LookupFrom(m, g, q, level)
    decreases 4 - level
  {
    if level < 3 {
      var i := Index(q, level);
      assert GoodCell(m, own, g, i);
      if Present(m[g][i]) {
        ForeignWriteLookup(m, own, free, f, t, m[g][i].frame, q, level + 1);
      }
    }
  }

  // ---------------------------------------------------------------- a new address space

  function OneEntry(f: Frame): (t: Table)
    ensures t[0] == Entry(FLG_USER, f) && forall i :: 0 < i < 512 ==> t[i] == ZERO_ENTRY
  {
    ZeroTable()[0 := Entry(FLG_USER, f)]
  }

  /** `own'` is `own` with labels for the two tables of a new space. */
  ghost predicate AddsSpace(own: Labels, own': Labels, root: Frame, pdpt: Frame) {
    && root !in own && pdpt !in own && root != pdpt
    && (forall f :: f in own' <==> f in own || f == root || f == pdpt)
    && (forall f :: f in own ==> own'[f] == own[f])
    && own'[root] == Node(Private(root), 0, 0) && own'[pdpt] == Node(Private(root), 1, 0)
  }

  ghost predicate CanAddSpace(m: Memory, own: Labels, free: seq<Frame>, s: Context, root: Frame, pdpt: Frame) {
    && WellFormed(m, own, free) && IsContext(own, s)
    && root != 0 && pdpt != 0 && root !in free && pdpt !in free
    && root in m && m[root] == OneEntry(pdpt) && pdpt in m && m[pdpt] == OneEntry(s.pd)
  }

  /** Two fresh frames that hold what vmm_crcontext writes form a new space that shares the
      kernel's tables with `s`. */
  lemma NewSpace(m: Memory, own: Labels, free: seq<Frame>, s: Context, root: Frame, pdpt: Frame, own': Labels)
    requires CanAddSpace(m, own, free, s, root, pdpt) && AddsSpace(own, own', root, pdpt)
    ensures WellFormed(m, own', free)
    ensures IsContext(own', Context(root, pdpt, s.pd, s.pt))
  {
    NewSpaceLabels(own, root, pdpt, own');
    NewSpaceCells(m, own, free, s, root, pdpt, own');
    hide GoodLabels, GoodCells;
  }

  lemma NewSpaceLabels(own: Labels, root: Frame, pdpt: Frame, own': Labels)
    requires GoodLabels(own) && AddsSpace(own, own', root, pdpt) && root != 0 && pdpt != 0
    ensures GoodLabels(own')
  {
    RootUnused(own, root);
    forall f | f in own'
      ensures HasParent(own', f)
    {
      NewSpaceParent(own, root, pdpt, own', f);
    }
    forall f | f in own'
      ensures RootKnown(own', f)
    {
      assert f in own ==> RootKnown(own, f);
    }
  }

  lemma NewSpaceCells(m: Memory, own: Labels, free: seq<Frame>, s: Context, root: Frame, pdpt: Frame, own': Labels)
    requires CanAddSpace(m, own, free, s, root, pdpt) && AddsSpace(own, own', root, pdpt)
    ensures GoodCells(m, own')
  {
    forall t, i | t in own' && own'[t].level < 3 && 0 <= i < 512
      ensures GoodCell(m, own', t, i)
    {
      NewSpaceCell(m, own, free, s, root, pdpt, own', t, i);
    }
    forall t | t in own' && OnWindowPath(own'[t])
      ensures Present(m[t][0])
    {
      NewSpaceWindow(m, own, free, s, root, pdpt, own', t);
    }
  }

  lemma NewSpaceWindow(m: Memory, own: Labels, free: seq<Frame>, s: Context, root: Frame, pdpt: Frame, own': Labels,
                       t: Frame)
    requires CanAddSpace(m, own, free, s, root, pdpt) && AddsSpace(own, own', root, pdpt)
    requires t in own' && OnWindowPath(own'[t])
    ensures Present(m[t][0])
  {
    if t in own {
      assert OnWindowPath(own[t]);
    } else {
      assert m[t][0].flags == FLG_USER;
    }
  }

  lemma RootUnused(own: Labels, root: Frame)
    requires GoodLabels(own) && root !in own
    ensures forall f :: f in own ==> own[f].space != Private(root)
  {
    assert forall f :: f in own ==> RootKnown(own, f);
  }

  lemma NewSpaceParent(own: Labels, root: Frame, pdpt: Frame, own': Labels, f: Frame)
    requires GoodLabels(own) && AddsSpace(own, own', root, pdpt) && f in own'
    ensures HasParent(own', f)
  {
    if f == pdpt {
      assert IsParent(own', root, f);
    } else if f in own && own[f].level > 0 {
      assert HasParent(own, f);
      var h :| IsParent(own, h, f);
      assert IsParent(own', h, f);
    }
  }

  lemma NewSpaceCell(m: Memory, own: Labels, free: seq<Frame>, s: Context, root: Frame, pdpt: Frame, own': Labels,
                     t: Frame, i: nat)
    requires CanAddSpace(m, own, free, s, root, pdpt) && AddsSpace(own, own', root, pdpt)
    requires t in own' && own'[t].level < 3 && i < 512
    ensures GoodCell(m, own', t, i)
  {
    RootUnused(own, root);
    if t in own {
      assert GoodCell(m, own, t, i);
      assert Child(own[t], i).space != Private(root);
    }
  }

  lemma KernelSplit(q: Page)
    ensures q < KERNEL_PAGES <==> Index(q, 0) == 0 && Index(q, 1) == 0
  {
  }

  /** The new space translates kernel pages as every other one does, and nothing else. */
  lemma NewSpaceLookup(m: Memory, own: Labels, free: seq<Frame>, s: Context, c: Context, q: Page)
    requires WellFormed(m, own, free) && IsContext(own, s) && IsContext(own, c)
    requires m[c.root] == OneEntry(c.pdpt) && m[c.pdpt] == OneEntry(c.pd)
    ensures Lookup(m, c.root, q) == if q < KERNEL_PAGES then Lookup(m, s.root, q) else ZERO_ENTRY
  {
    KernelSplit(q);
    if q < KERNEL_PAGES {
      KernelSpaceCommon(m, own, free, s, c, q);
    } else {
      OneEntryLookup(m, c.root, c.pdpt, c.pd, q);
    }
  }

  lemma OneEntryLookup(m: Memory, root: Frame, pdpt: Frame, pd: Frame, q: Page)
    requires root in m && m[root] == OneEntry(pdpt) && pdpt in m && m[pdpt] == OneEntry(pd)
    requires Index(q, 0) != 0 || Index(q, 1) != 0
    ensures LookupFrom(m, root, q, 0) == ZERO_ENTRY
  {
    if Index(q, 0) == 0 {
      assert LookupFrom(m, pdpt, q, 1) == ZERO_ENTRY;
    }
  }
}
