/** The kernel heap of src/kernel/mm/vheap.c, as long as it does not have to grow. */
module Heap {
  import opened Basics

  /** sizeof(struct heap_block). */
  const HEADER: nat := 24
  const HEAP_INIT_SIZE: nat := 8192
  /** PAGE_SIZE - sizeof(struct heap_block): from here on kmalloc enlarges the heap first. */
  const LARGE: nat := 4072

  datatype Block = Block(addr: nat, size: nat, free: bool)


  // ---------------------------------------------------------------- kmalloc and kfree on the list

  /** The test of the search; the difference is unsigned. */
  predicate Fits(b: Block, n: nat) {
    b.free && (b.size - 24) % 0x1_0000_0000_0000_0000 >= n
  }

  /** The first block of the list that fits, |h| if there is none. */
  function FirstFit(h: seq<Block>, n: nat): (i: nat)
    ensures i <= |h|
    ensures i < |h| ==> Fits(h[i], n)
    ensures forall j {:trigger h[j]} :: 0 <= j < i ==> !Fits(h[j], n)
  {
    if h == [] || Fits(h[0], n) then 0 else 1 + FirstFit(h[1..], n)
  }

  datatype Served = Served(ptr: nat, heap: seq<Block>)

  /** kmalloc: the end of the block is split off if more than a header is left, else the block is taken
      whole. Without a fit the heap would have to grow. */
  function Allocated(h: seq<Block>, n: nat): Option<Served> {
    var i := FirstFit(h, n);
    if n >= LARGE || i == |h| then None
    else if h[i].size - n > 24 then Some(Served(TailOf(h[i], n).addr + 24, Split(h, i, n)))
    else Some(Served(h[i].addr + 24, h[i := h[i].(free := false)]))
  }

  predicate HasRoom(b: Block, n: nat) {
    b.free && b.size >= n + 24
  }

  lemma FitsIff(b: Block, n: nat)
    requires 24 <= b.size < 0x1_0000_0000_0000_0000
    ensures Fits(b, n) <==> HasRoom(b, n)
  {
  }

  /** A request is served exactly if it is below 4072 bytes and a free block has room for it and a header, an
      exact fit included; it goes to the first such block. */
  lemma ServedIff(h: seq<Block>, n: nat)
    requires forall i {:trigger h[i]} :: 0 <= i < |h| ==> 24 <= h[i].size < 0x1_0000_0000_0000_0000
    ensures Allocated(h, n).Some? <==> n < 4072 && exists i :: 0 <= i < |h| && HasRoom(h[i], n)
    ensures Allocated(h, n).Some? ==>
              var i := FirstFit(h, n); i < |h| && HasRoom(h[i], n) && forall j :: 0 <= j < i ==> !HasRoom(h[j], n)
  {
    forall i | 0 <= i < |h|
      ensures Fits(h[i], n) <==> HasRoom(h[i], n)
    {
      FitsIff(h[i], n);
    }
    hide Fits, HasRoom, Split, TailOf;
  }

  /** The block that is split off, and what stays. */
  function TailOf(b: Block, n: nat): Block
    requires b.size - n > 24
  {
    Block(b.addr + (b.size - (n + 24)), n + 24, false)
  }

  function RestOf(b: Block, n: nat): Block
    requires b.size - n > 24
  {
    b.(size := b.size - (n + 24))
  }

  function Split(h: seq<Block>, i: nat, n: nat): seq<Block>
    requires i < |h| && h[i].size - n > 24
  {
    [TailOf(h[i], n)] + h[i := RestOf(h[i], n)]
  }

  /** The block that kfree looks for: the first one in use with that payload. */
  function Owner(h: seq<Block>, ptr: nat): (i: nat)
    ensures i <= |h|
    ensures i < |h| ==> h[i].addr + 24 == ptr && !h[i].free
    ensures forall j {:trigger h[j]} :: 0 <= j < i ==> !(h[j].addr + 24 == ptr && !h[j].free)
  {
    if h == [] || (h[0].addr + 24 == ptr && !h[0].free) then 0 else 1 + Owner(h[1..], ptr)
  }

  function Freed(h: seq<Block>, ptr: nat): seq<Block> {
    var i := Owner(h, ptr);
    if i == |h| then h else h[i := h[i].(free := true)]
  }

  // ---------------------------------------------------------------- tiling

  predicate In(b: Block, x: nat) {
    b.addr <= x < b.addr + b.size
  }

  predicate Apart(b: Block, c: Block) {
    b.addr + b.size <= c.addr || c.addr + c.size <= b.addr
  }

  predicate Inside(b: Block, base: nat, total: nat) {
    b.size >= HEADER && base <= b.addr && b.addr + b.size <= base + total
  }

  function Sum(h: seq<Block>): nat {
    if h == [] then 0 else h[0].size + Sum(h[1..])
  }

  predicate Covers(h: seq<Block>, x: nat) {
    exists i {:trigger h[i]} :: 0 <= i < |h| && In(h[i], x)
  }

  /** The blocks tile the arena: each has room for its header and lies inside, no two overlap, no
      address is left out, and the sizes add up. */
  ghost predicate Tiled(h: seq<Block>, base: nat, total: nat) {
    && (forall i {:trigger h[i]} :: 0 <= i < |h| ==> Inside(h[i], base, total))
    && (forall i, j :: 0 <= i < j < |h| ==> Apart(h[i], h[j]))
    && (forall x {:trigger Covers(h, x)} :: base <= x < base + total ==> Covers(h, x))
    && Sum(h) == total < 0x1_0000_0000_0000_0000
  }

  lemma {:induction false} SumUpdate(h: seq<Block>, i: nat, b: Block)
    requires i < |h|
    ensures Sum(h[i := b]) == Sum(h) - h[i].size + b.size
  {
    if i > 0 {
      SumUpdate(h[1..], i - 1, b);
      assert h[i := b][1..] == h[1..][i - 1 := b];
    } else {
      assert h[i := b][1..] == h[1..];
    }
  }

  /** A split leaves nothing, or room for a header. */
  predicate GoodSplit(h: seq<Block>, n: nat) {
    var i := FirstFit(h, n);
    i < |h| && h[i].size - n > 24 ==> h[i].size - n >= 48
  }

  lemma SplitCovers(h: seq<Block>, i: nat, n: nat, x: nat)
    requires i < |h| && h[i].size - n > 24 && Covers(h, x)
    ensures Covers(Split(h, i, n), x)
  {
    var g := Split(h, i, n);
    var j :| 0 <= j < |h| && In(h[j], x);
    assert g[0] == TailOf(h[i], n);
    assert g[j + 1] == if j == i then RestOf(h[i], n) else h[j];
  }

  lemma SplitApart(h: seq<Block>, i: nat, n: nat)
    requires i < |h| && h[i].size - n > 24 && forall j, k :: 0 <= j < k < |h| ==> Apart(h[j], h[k])
    ensures var g := Split(h, i, n); forall j, k :: 0 <= j < k < |g| ==> Apart(g[j], g[k])
  {
    var g := Split(h, i, n);
    forall j, k | 0 <= j < k < |g|
      ensures Apart(g[j], g[k])
    {
      assert g[k] == if k - 1 == i then RestOf(h[i], n) else h[k - 1];
      if j == 0 {
        assert g[j] == TailOf(h[i], n);
        assert k - 1 < i ==> Apart(h[k - 1], h[i]);
      } else {
        assert g[j] == if j - 1 == i then RestOf(h[i], n) else h[j - 1];
        assert Apart(h[j - 1], h[k - 1]);
      }
    }
  }

  lemma SplitTiled(h: seq<Block>, i: nat, n: nat, base: nat, total: nat)
    requires Tiled(h, base, total) && i < |h| && h[i].size - n >= 48
    ensures Tiled(Split(h, i, n), base, total)
  {
    var g := Split(h, i, n);
    SplitApart(h, i, n);
    SumUpdate(h, i, RestOf(h[i], n));
    assert g[1..] == h[i := RestOf(h[i], n)];
    forall j {:trigger g[j]} | 0 <= j < |g|
      ensures Inside(g[j], base, total)
    {
      assert Inside(h[i], base, total);
      assert j > 0 ==> g[j] == if j - 1 == i then RestOf(h[i], n) else h[j - 1];
    }
    forall x {:trigger Covers(g, x)} | base <= x < base + total
      ensures Covers(g, x)
    {
      assert Covers(h, x);
      SplitCovers(h, i, n, x);
    }
  }

  lemma FlagTiled(h: seq<Block>, i: nat, free: bool, base: nat, total: nat)
    requires Tiled(h, base, total) && i < |h|
    ensures Tiled(h[i := h[i].(free := free)], base, total)
  {
    var g := h[i := h[i].(free := free)];
    SumUpdate(h, i, h[i].(free := free));
    assert forall j {:trigger g[j]} :: 0 <= j < |g| ==> g[j].addr == h[j].addr && g[j].size == h[j].size;
    forall x {:trigger Covers(g, x)} | base <= x < base + total
      ensures Covers(g, x)
    {
      assert Covers(h, x);
      var j :| 0 <= j < |h| && In(h[j], x);
      assert In(g[j], x);
    }
  }

  /** kmalloc keeps the tiling exactly if its split leaves nothing or room for a header. */
  lemma KmallocTiledIff(h: seq<Block>, n: nat, base: nat, total: nat)
    requires Tiled(h, base, total) && Allocated(h, n).Some?
    ensures Tiled(Allocated(h, n).value.heap, base, total) <==> GoodSplit(h, n)
  {
    var i := FirstFit(h, n);
    if h[i].size - n >= 48 {
      SplitTiled(h, i, n, base, total);
    } else if h[i].size - n > 24 {
      assert Split(h, i, n)[i + 1] == RestOf(h[i], n);
    } else {
      FlagTiled(h, i, false, base, total);
    }
  }

  lemma KfreeTiled(h: seq<Block>, ptr: nat, base: nat, total: nat)
    requires Tiled(h, base, total)
    ensures Tiled(Freed(h, ptr), base, total)
  {
    var i := Owner(h, ptr);
    if i < |h| {
      FlagTiled(h, i, true, base, total);
    }
  }

  // ---------------------------------------------------------------- what is handed out

  /** The payloads handed out and not freed, with the sizes asked for. */
  type Live = map<nat, nat>

  /** Block `b` is in use exactly if its payload is handed out, and then it is large enough. */
  predicate Owned(b: Block, live: Live) {
    && (!b.free <==> b.addr + 24 in live)
    && (!b.free ==> live[b.addr + 24] + 24 <= b.size)
  }

  predicate HasBlock(h: seq<Block>, p: nat) {
    exists i {:trigger h[i]} :: 0 <= i < |h| && h[i].addr + 24 == p
  }

  ghost predicate Inv(h: seq<Block>, live: Live, base: nat, total: nat) {
    && Tiled(h, base, total)
    && (forall i {:trigger h[i]} :: 0 <= i < |h| ==> Owned(h[i], live))
    && (forall p {:trigger HasBlock(h, p)} :: p in live ==> HasBlock(h, p))
  }

  lemma FitIsLarge(b: Block, n: nat, base: nat, total: nat)
    requires Inside(b, base, total) && total < 0x1_0000_0000_0000_0000 && Fits(b, n)
    ensures b.free && b.size >= n + 24
  {
  }

  /** A new block starts where no block started before. */
  lemma TailIsNew(h: seq<Block>, i: nat, n: nat, j: nat, base: nat, total: nat)
    requires Tiled(h, base, total) && i < |h| && h[i].size - n > 24 && j < |h|
    ensures h[j].addr != TailOf(h[i], n).addr
  {
    assert Inside(h[j], base, total);
    if j < i {
      assert Apart(h[j], h[i]);
    } else if i < j {
      assert Apart(h[i], h[j]);
    }
  }

  lemma SplitKeepsInv(h: seq<Block>, live: Live, i: nat, n: nat, base: nat, total: nat)
    requires Inv(h, live, base, total) && i < |h| && h[i].free && h[i].size - n >= 48
    ensures var p := TailOf(h[i], n).addr + 24; p !in live && Inv(Split(h, i, n), live[p := n], base, total)
  {
    var p, g := TailOf(h[i], n).addr + 24, Split(h, i, n);
    SplitTiled(h, i, n, base, total);
    NoSuchBlock(h, i, n, base, total);
    WithoutBlock(h, live, p, base, total);
    forall j {:trigger g[j]} | 0 <= j < |g|
      ensures Owned(g[j], live[p := n])
    {
      if j > 0 {
        TailIsNew(h, i, n, j - 1, base, total);
        assert Owned(h[j - 1], live);
        assert g[j] == if j - 1 == i then RestOf(h[i], n) else h[j - 1];
      }
    }
    forall q {:trigger HasBlock(g, q)} | q in live[p := n]
      ensures HasBlock(g, q)
    {
      if q == p {
        assert g[0].addr + 24 == p;
      } else {
        assert HasBlock(h, q);
        var j :| 0 <= j < |h| && h[j].addr + 24 == q;
        assert g[j + 1].addr + 24 == q;
      }
    }
  }

  lemma NoSuchBlock(h: seq<Block>, i: nat, n: nat, base: nat, total: nat)
    requires Tiled(h, base, total) && i < |h| && h[i].size - n >= 48
    ensures !HasBlock(h, TailOf(h[i], n).addr + 24)
  {
    forall j {:trigger h[j]} | 0 <= j < |h|
      ensures h[j].addr + 24 != TailOf(h[i], n).addr + 24
    {
      TailIsNew(h, i, n, j, base, total);
    }
  }

  lemma WithoutBlock(h: seq<Block>, live: Live, p: nat, base: nat, total: nat)
    requires Inv(h, live, base, total) && !HasBlock(h, p)
    ensures p !in live
  {
  }

  lemma FlagKeepsBlocks(h: seq<Block>, i: nat, free: bool, p: nat)
    requires i < |h| && HasBlock(h, p)
    ensures HasBlock(h[i := h[i].(free := free)], p)
  {
    var j :| 0 <= j < |h| && h[j].addr + 24 == p;
    assert h[i := h[i].(free := free)][j].addr + 24 == p;
  }

  /** Two blocks never start at the same address. */
  lemma DistinctStarts(h: seq<Block>, i: nat, j: nat, base: nat, total: nat)
    requires Tiled(h, base, total) && i < |h| && j < |h| && i != j
    ensures h[i].addr != h[j].addr
  {
    assert Inside(h[i], base, total) && Inside(h[j], base, total);
    if i < j {
      assert Apart(h[i], h[j]);
    } else {
      assert Apart(h[j], h[i]);
    }
  }

  lemma TakeKeepsInv(h: seq<Block>, live: Live, i: nat, n: nat, base: nat, total: nat)
    requires Inv(h, live, base, total) && i < |h| && h[i].free && h[i].size >= n + 24
    ensures var p := h[i].addr + 24;
            p !in live && Inv(h[i := h[i].(free := false)], live[p := n], base, total)
  {
    var p, g := h[i].addr + 24, h[i := h[i].(free := false)];
    FlagTiled(h, i, false, base, total);
    forall j {:trigger g[j]} | 0 <= j < |g|
      ensures Owned(g[j], live[p := n])
    {
      assert Owned(h[j], live);
      if j != i {
        DistinctStarts(h, i, j, base, total);
      }
    }
    forall q {:trigger HasBlock(g, q)} | q in live[p := n]
      ensures HasBlock(g, q)
    {
      assert q == p ==> h[i].addr + 24 == q;
      assert HasBlock(h, q);
      FlagKeepsBlocks(h, i, false, q);
    }
  }

  // ---------------------------------------------------------------- whole runs

  datatype Step = Malloc(n: nat) | Free(ptr: nat)

  datatype State = State(heap: seq<Block>, live: Live)

  /** Served without growing the heap, and with a good split. */
  predicate Enabled(s: State, step: Step) {
    step.Malloc? ==> Allocated(s.heap, step.n).Some? && GoodSplit(s.heap, step.n)
  }

  function Next(s: State, step: Step): State
    requires Enabled(s, step)
  {
    match step
    case Malloc(n) =>
      var r := Allocated(s.heap, n).value;
      State(r.heap, s.live[r.ptr := n])
    case Free(ptr) => State(Freed(s.heap, ptr), s.live - {ptr})
  }

  lemma FreeKeepsInv(h: seq<Block>, live: Live, ptr: nat, base: nat, total: nat)
    requires Inv(h, live, base, total)
    ensures Inv(Freed(h, ptr), live - {ptr}, base, total)
  {
    var i, g := Owner(h, ptr), Freed(h, ptr);
    KfreeTiled(h, ptr, base, total);
    if i < |h| {
      forall j {:trigger g[j]} | 0 <= j < |g|
        ensures Owned(g[j], live - {ptr})
      {
        assert Owned(h[j], live);
        if j != i {
          DistinctStarts(h, i, j, base, total);
        }
      }
    } else {
      NotLive(h, live, ptr, base, total);
    }
    forall q {:trigger HasBlock(g, q)} | q in live - {ptr}
      ensures HasBlock(g, q)
    {
      assert HasBlock(h, q);
      if i < |h| {
        FlagKeepsBlocks(h, i, true, q);
      }
    }
  }

  /** Freeing what is not handed out finds no block. */
  lemma NotLive(h: seq<Block>, live: Live, ptr: nat, base: nat, total: nat)
    requires Inv(h, live, base, total) && Owner(h, ptr) == |h|
    ensures ptr !in live && live - {ptr} == live
  {
    forall i {:trigger h[i]} | 0 <= i < |h|
      ensures h[i].addr + 24 == ptr ==> ptr !in live
    {
      assert Owned(h[i], live);
    }
    assert ptr in live ==> HasBlock(h, ptr);
  }

  lemma StepKeepsInv(s: State, step: Step, base: nat, total: nat)
    requires Inv(s.heap, s.live, base, total) && Enabled(s, step)
    ensures Inv(Next(s, step).heap, Next(s, step).live, base, total)
    ensures step.Malloc? ==> Allocated(s.heap, step.n).value.ptr !in s.live
  {
    match step
    case Malloc(n) =>
      var i := FirstFit(s.heap, n);
      FitIsLarge(s.heap[i], n, base, total);
      if s.heap[i].size - n > 24 {
        SplitKeepsInv(s.heap, s.live, i, n, base, total);
      } else {
        TakeKeepsInv(s.heap, s.live, i, n, base, total);
      }
    case Free(ptr) => FreeKeepsInv(s.heap, s.live, ptr, base, total);
  }

  predicate IsRun(s: State, steps: seq<Step>)
    decreases |steps|
  {
    steps == [] || (Enabled(s, steps[0]) && IsRun(Next(s, steps[0]), steps[1..]))
  }

  function End(s: State, steps: seq<Step>): State
    requires IsRun(s, steps)
    decreases |steps|
  {
    if steps == [] then s else End(Next(s, steps[0]), steps[1..])
  }

  /** vheap_init: one free block. */
  function Initial(base: nat): State {
    State([Block(base, HEAP_INIT_SIZE, true)], map[])
  }

  /** Two ranges of bytes have nothing in common. */
  predicate Disjoint(a: nat, n: nat, b: nat, m: nat) {
    a + n <= b || b + m <= a
  }

  /** No payload overlaps another, and none overlaps a header. */
  ghost predicate NoOverlap(s: State) {
    && (forall p, q {:trigger s.live[p], s.live[q]} :: p in s.live && q in s.live && p != q ==>
      Disjoint(p, s.live[p], q, s.live[q]))
    && (forall p, i {:trigger s.live[p], s.heap[i]} :: p in s.live && 0 <= i < |s.heap| ==>
      Disjoint(p, s.live[p], s.heap[i].addr, HEADER))
  }

  lemma PayloadInBlock(s: State, p: nat, base: nat, total: nat) returns (i: nat)
    requires Inv(s.heap, s.live, base, total) && p in s.live
    ensures i < |s.heap| && s.heap[i].addr + 24 == p && s.live[p] + 24 <= s.heap[i].size
  {
    assert HasBlock(s.heap, p);
    i :| 0 <= i < |s.heap| && s.heap[i].addr + 24 == p;
    assert Owned(s.heap[i], s.live);
  }

  lemma InvNoOverlap(s: State, base: nat, total: nat)
    requires Inv(s.heap, s.live, base, total)
    ensures NoOverlap(s)
  {
    forall p, i {:trigger s.live[p], s.heap[i]} | p in s.live && 0 <= i < |s.heap|
      ensures Disjoint(p, s.live[p], s.heap[i].addr, HEADER)
    {
      var k := PayloadInBlock(s, p, base, total);
      assert Inside(s.heap[i], base, total);
      assert if k < i then Apart(s.heap[k], s.heap[i]) else k > i ==> Apart(s.heap[i], s.heap[k]);
    }
    forall p, q {:trigger s.live[p], s.live[q]} | p in s.live && q in s.live && p != q
      ensures Disjoint(p, s.live[p], q, s.live[q])
    {
      var k := PayloadInBlock(s, p, base, total);
      var l := PayloadInBlock(s, q, base, total);
      assert if k < l then Apart(s.heap[k], s.heap[l]) else Apart(s.heap[l], s.heap[k]);
    }
  }

  lemma {:induction false} RunKeepsInv(s: State, steps: seq<Step>, base: nat, total: nat)
    requires Inv(s.heap, s.live, base, total) && IsRun(s, steps)
    ensures Inv(End(s, steps).heap, End(s, steps).live, base, total)
    decreases |steps|
  {
    if steps != [] {
      StepKeepsInv(s, steps[0], base, total);
      RunKeepsInv(Next(s, steps[0]), steps[1..], base, total);
    }
  }

  /** In every run of kmalloc and kfree from vheap_init on that is served without growing and splits
      well, the blocks tile the arena and no live payload overlaps another or any header. */
  lemma HeapIsSafe(base: nat, steps: seq<Step>)
    requires IsRun(Initial(base), steps)
    ensures Tiled(End(Initial(base), steps).heap, base, HEAP_INIT_SIZE)
    ensures NoOverlap(End(Initial(base), steps))
  {
    var s := Initial(base);
    forall x {:trigger Covers(s.heap, x)} | base <= x < base + HEAP_INIT_SIZE
      ensures Covers(s.heap, x)
    {
      assert In(s.heap[0], x);
    }
    RunKeepsInv(s, steps, base, HEAP_INIT_SIZE);
    InvNoOverlap(End(s, steps), base, HEAP_INIT_SIZE);
  }

  /** A bad split is reachable: two requests leave a block of 4044 bytes, and 4000 more leave it 20,
      so that its own header reaches into the block split off. */
  lemma BadSplitReachable(base: nat)
    ensures var steps := [Malloc(4000), Malloc(100)];
            && IsRun(Initial(base), steps)
            && !GoodSplit(End(Initial(base), steps).heap, 4000)
            && Allocated(End(Initial(base), steps).heap, 4000).Some?
            && Allocated(End(Initial(base), steps).heap, 4000).value.ptr == base + 20 + 24
  {
    var s := Initial(base);
    var s1 := Next(s, Malloc(4000));
    assert s1.heap == [Block(base + 4168, 4024, false), Block(base, 4168, true)];
    assert FirstFit(s1.heap, 100) == 1;
    var s2 := Next(s1, Malloc(100));
    assert s2.heap == [Block(base + 4044, 124, false), Block(base + 4168, 4024, false), Block(base, 4044, true)];
    assert !s2.heap[0].free && !s2.heap[1].free && Fits(s2.heap[2], 4000);
    assert FirstFit(s2.heap, 4000) == 2;
    var steps := [Malloc(4000), Malloc(100)];
    assert steps[1..] == [Malloc(100)] && steps[1..][1..] == [];
    assert IsRun(s1, steps[1..]) && End(s1, steps[1..]) == s2;
  }

  // ---------------------------------------------------------------- the list in memory

  datatype Header = Header(next: nat, free: bool, size: nat)

  /** `first`, and the headers by address; address 0 is the null pointer. */
  class KernelHeap {
    var first: nat
    var headers: map<nat, Header>
    /** The listed blocks, in order. */
    ghost var blocks: seq<Block>

    /** Block i is in memory and its header points to the next one. */
    ghost predicate ValidAt(i: nat)
      requires i < |blocks|
      reads this
    {
      var b := blocks[i];
      b.addr != 0 && b.addr in headers && headers[b.addr] == Header(AddressAt(i + 1), b.free, b.size)
    }

    ghost function AddressAt(i: nat): nat
      reads this
    {
      if i < |blocks| then blocks[i].addr else 0
    }

    /** The list is linked, ends, and has no address twice. */
    ghost predicate Valid()
      reads this
    {
      && first == AddressAt(0)
      && (forall i {:trigger ValidAt(i)} :: 0 <= i < |blocks| ==> ValidAt(i))
      && (forall i, j :: 0 <= i < j < |blocks| ==> blocks[i].addr != blocks[j].addr)
    }

    lemma EndOfList(i: nat)
      requires Valid() && i <= |blocks|
      ensures AddressAt(i) == 0 <==> i == |blocks|
    {
      if i < |blocks| {
        assert ValidAt(i);
      }
    }

    /** vheap_init. */
    constructor (base: nat)
      requires base != 0
      ensures Valid() && blocks == Initial(base).heap
    {
      first := base;
      headers := map[base := Header(0, true, HEAP_INIT_SIZE)];
      blocks := Initial(base).heap;
    }

    /** The search of kmalloc. */
    method Search(n: nat) returns (cur: nat, ghost i: nat)
      requires Valid()
      ensures i == FirstFit(blocks, n) && cur == AddressAt(i) && (cur == 0 <==> i == |blocks|)
    {
      cur, i := first, 0;
      EndOfList(0);
      while cur != 0
        invariant i <= |blocks| && cur == AddressAt(i) && (cur == 0 <==> i == |blocks|)
        invariant i <= FirstFit(blocks, n)
        decreases |blocks| - i
      {
        assert ValidAt(i);
        EndOfList(i + 1);
        if (headers[cur].size - 24) % 0x1_0000_0000_0000_0000 >= n && headers[cur].free {
          assert Fits(blocks[i], n);
          return;
        }
        assert !Fits(blocks[i], n);
        cur := headers[cur].next;
        i := i + 1;
      }
    }

    /** kmalloc; 0 stands for the call that would have to grow the heap. The header of the split-off
        block is written into the block, so it must not meet another header. */
    method Kmalloc(n: nat, ghost base: nat, ghost total: nat) returns (ptr: nat)
      requires Valid() && base > 0 && Tiled(blocks, base, total) && GoodSplit(blocks, n)
      modifies this
      ensures Valid() && Tiled(blocks, base, total)
      ensures match Allocated(old(blocks), n)
              case None => ptr == 0 && blocks == old(blocks)
              case Some(r) => ptr == r.ptr && blocks == r.heap
    {
      if n >= LARGE {
        return 0;
      }
      var cur, i := Search(n);
      if cur == 0 {
        return 0;
      }
      assert ValidAt(i);
      KmallocTiledIff(blocks, n, base, total);
      var size := headers[cur].size;
      if size - n > 24 {
        forall j {:trigger blocks[j]} | 0 <= j < |blocks|
          ensures blocks[j].addr != TailOf(blocks[i], n).addr
        {
          TailIsNew(blocks, i, n, j, base, total);
        }
        assert Inside(blocks[i], base, total);
        ptr := SplitBlock(cur, n, i);
      } else {
        SetFree(cur, false, i);
        ptr := cur + 24;
      }
    }

    /** The flag of one block is written. */
    method SetFree(cur: nat, free: bool, ghost i: nat)
      requires Valid() && i < |blocks| && cur == blocks[i].addr
      modifies this`headers, this`blocks
      ensures Valid() && blocks == old(blocks)[i := old(blocks)[i].(free := free)]
    {
      assert ValidAt(i);
      headers := headers[cur := headers[cur].(free := free)];
      blocks := blocks[i := blocks[i].(free := free)];
      forall j | 0 <= j < |blocks|
        ensures ValidAt(j)
      {
        assert old(ValidAt(j));
      }
    }

    /** The end of a block becomes a block of its own, at the front of the list. */
    method SplitBlock(cur: nat, n: nat, ghost i: nat) returns (ptr: nat)
      requires Valid() && i < |blocks| && cur == blocks[i].addr && blocks[i].size - n > 24
      requires forall j {:trigger blocks[j]} :: 0 <= j < |blocks| ==> blocks[j].addr != TailOf(blocks[i], n).addr
      modifies this
      ensures Valid() && blocks == Split(old(blocks), i, n) && ptr == TailOf(old(blocks)[i], n).addr + 24
    {
      assert ValidAt(i);
      var tail := cur + (headers[cur].size - (n + 24));
      ghost var was := blocks;
      headers := headers[tail := Header(first, false, n + 24)];
      first := tail;
      headers := headers[cur := headers[cur].(size := headers[cur].size - (n + 24))];
      blocks := Split(blocks, i, n);
      ptr := tail + 24;
      forall j | 0 <= j < |blocks|
        ensures ValidAt(j)
      {
        assert j > 0 ==> old(ValidAt(j - 1));
        assert j > 0 ==> blocks[j] == if j - 1 == i then RestOf(was[i], n) else was[j - 1];
      }
    }

    /** The search of kfree. */
    method SearchOwner(ptr: nat) returns (cur: nat, ghost i: nat)
      requires Valid()
      ensures i == Owner(blocks, ptr) && cur == AddressAt(i) && (cur == 0 <==> i == |blocks|)
    {
      cur, i := first, 0;
      EndOfList(0);
      while cur != 0
        invariant i <= |blocks| && cur == AddressAt(i) && (cur == 0 <==> i == |blocks|)
        invariant i <= Owner(blocks, ptr)
        decreases |blocks| - i
      {
        assert ValidAt(i);
        EndOfList(i + 1);
        if cur + 24 == ptr && !headers[cur].free {
          return;
        }
        cur := headers[cur].next;
        i := i + 1;
      }
    }

    /** kfree. */
    method Kfree(ptr: nat, ghost base: nat, ghost total: nat)
      requires Valid() && Tiled(blocks, base, total)
      modifies this`headers, this`blocks
      ensures Valid() && Tiled(blocks, base, total) && blocks == Freed(old(blocks), ptr)
    {
      KfreeTiled(blocks, ptr, base, total);
      var cur, i := SearchOwner(ptr);
      if cur != 0 {
        SetFree(cur, true, i);
      }
    }
  }
}
