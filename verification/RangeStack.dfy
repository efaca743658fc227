/** The stack of free virtual ranges of src/kernel/mm/vmm.c (uvmm_find_freemem, uvmm_push_free)
    and memmove of src/kernel/lib/string.c, which it uses to close a gap. */
module RangeStack {

  datatype Entry = Entry(start: nat, end: nat)

  // ---------------------------------------------------------------- memmove

  /** The elements of `s` with `len` of them copied from `src` to `dst`. */
  function Moved<T>(s: seq<T>, dst: nat, src: nat, len: nat): (r: seq<T>)
    requires dst + len <= |s| && src + len <= |s|
    ensures |r| == |s|
    ensures forall i {:trigger r[i]} :: 0 <= i < |s| ==> r[i] == if dst <= i < dst + len then s[i - dst + src] else s[i]
  {
    s[..dst] + s[src..src + len] + s[dst + len..]
  }

  /** Copying forwards, the next source element is still the original one. */
  lemma MovedUp<T>(s: seq<T>, dst: nat, src: nat, n: nat)
    requires dst + n < |s| && src + n < |s| && (dst <= src || src + n < dst)
    ensures Moved(s, dst, src, n)[src + n] == s[src + n]
    ensures Moved(s, dst, src, n + 1) == Moved(s, dst, src, n)[dst + n := s[src + n]]
  {
  }

  /** Copying backwards, likewise. */
  lemma MovedDown<T>(s: seq<T>, dst: nat, src: nat, n: nat, len: nat)
    requires 0 < n <= len && dst + len <= |s| && src + len <= |s| && src <= dst
    ensures Moved(s, dst + n, src + n, len - n)[src + n - 1] == s[src + n - 1]
    ensures Moved(s, dst + n - 1, src + n - 1, len - n + 1)
         == Moved(s, dst + n, src + n, len - n)[dst + n - 1 := s[src + n - 1]]
  {
  }

  /** What copying forwards one by one leaves. */
  function Copied<T>(s: seq<T>, dst: nat, src: nat, n: nat): (r: seq<T>)
    requires dst + n <= |s| && src + n <= |s|
    ensures |r| == |s|
    decreases n
  {
    if n == 0 then s
    else
      var t := Copied(s, dst, src, n - 1);
      t[dst + n - 1 := t[src + n - 1]]
  }

  lemma {:induction false} CopiedIsMoved<T>(s: seq<T>, dst: nat, src: nat, n: nat)
    requires dst + n <= |s| && src + n <= |s| && (dst <= src || src + n <= dst)
    ensures Copied(s, dst, src, n) == Moved(s, dst, src, n)
    decreases n
  {
    if n > 0 {
      CopiedIsMoved(s, dst, src, n - 1);
      MovedUp(s, dst, src, n - 1);
    }
  }

  /** Place k of a pattern of length d that repeats. */
  function Repeats(k: nat, d: nat): (r: nat)
    requires d > 0
    ensures r < d && r <= k
  {
    if k < d then k else Repeats(k - d, d)
  }

  /** Copying upwards over itself, the part in front of the destination is repeated. */
  lemma {:induction false} CopiedRepeats<T>(s: seq<T>, dst: nat, src: nat, n: nat, i: nat)
    requires dst + n <= |s| && src < dst && i < |s|
    ensures Copied(s, dst, src, n)[i] == if dst <= i < dst + n then s[src + Repeats(i - dst, dst - src)] else s[i]
    decreases n
  {
    if n > 0 {
      CopiedRepeats(s, dst, src, n - 1, i);
      CopiedRepeats(s, dst, src, n - 1, src + n - 1);
    }
  }

  ghost predicate CopyMoves(dst: nat, src: nat, len: nat) {
    forall s: seq<int> {:trigger Copied(s, dst, src, len)} ::
      dst + len <= |s| && src + len <= |s| ==> Copied(s, dst, src, len) == Moved(s, dst, src, len)
  }

  lemma CopyDiffers(dst: nat, src: nat, len: nat) returns (s: seq<int>)
    requires src < dst < src + len
    ensures |s| == dst + len && Copied(s, dst, src, len) != Moved(s, dst, src, len)
  {
    s := seq(dst + len, i => i);
    var k := dst + (dst - src);
    CopiedRepeats(s, dst, src, len, k);
    assert Copied(s, dst, src, len)[k] == src;
    hide Copied;
    assert Moved(s, dst, src, len)[k] == dst;
  }

  /** memcpy moves the block, whatever it holds, exactly if it does not copy upwards over itself. */
  lemma MemcpyMovesIff(dst: nat, src: nat, len: nat)
    ensures CopyMoves(dst, src, len) <==> dst <= src || src + len <= dst
  {
    hide Copied, Moved;
    if dst <= src || src + len <= dst {
      forall s: seq<int> | dst + len <= |s| && src + len <= |s|
        ensures Copied(s, dst, src, len) == Moved(s, dst, src, len)
      {
        CopiedIsMoved(s, dst, src, len);
      }
    } else {
      var s := CopyDiffers(dst, src, len);
    }
  }

  /** memcpy: always forwards. */
  method Memcpy<T>(a: array<T>, dst: nat, src: nat, len: nat)
    requires dst + len <= a.Length && src + len <= a.Length
    modifies a
    ensures a[..] == Copied(old(a[..]), dst, src, len)
  {
    ghost var s := a[..];
    var n := 0;
    while n < len
      invariant n <= len && a[..] == Copied(s, dst, src, n)
    {
      assert a[src + n] == a[..][src + n];
      a[dst + n] := a[src + n];
      n := n + 1;
    }
  }

  /** memmove: forwards when the destination is below the source, else backwards. */
  method Memmove<T>(a: array<T>, dst: nat, src: nat, len: nat)
    requires dst + len <= a.Length && src + len <= a.Length
    modifies a
    ensures a[..] == Moved(old(a[..]), dst, src, len)
  {
    if dst < src {
      CopiedIsMoved(a[..], dst, src, len);
      Memcpy(a, dst, src, len);
      return;
    }
    ghost var s := a[..];
    var n := len;
    assert Moved(s, dst + len, src + len, 0) == s;
    while n > 0
      invariant 0 <= n <= len && a[..] == Moved(s, dst + n, src + n, len - n)
    {
      MovedDown(s, dst, src, n, len);
      a[dst + n - 1] := a[src + n - 1];
      n := n - 1;
    }
  }

  // ---------------------------------------------------------------- the stack on values

  /** The cells of the page that holds the stack, with the cell before the first slot in front:
      slot k of the stack is cell k + 1, and `top` is the cell mm_stack_ptr points to. */
  datatype Stack = Stack(cells: seq<Entry>, top: nat) {
    predicate Valid() {
      1 <= top < |cells| && forall i :: 0 <= i < |cells| ==> cells[i].start <= cells[i].end
    }
  }

  function Size(e: Entry): nat
    requires e.start <= e.end
  {
    e.end - e.start
  }

  /** The highest cell at or below `k` that is large enough, 0 if the search runs through
      to the cell before the stack. */
  function Fit(s: Stack, k: nat, pages: nat): (r: nat)
    requires s.Valid() && k < |s.cells|
    ensures r <= k
    ensures r > 0 ==> Size(s.cells[r]) >= pages
    ensures forall i :: r < i <= k ==> Size(s.cells[i]) < pages
  {
    if k == 0 || Size(s.cells[k]) >= pages then k else Fit(s, k - 1, pages)
  }

  /** The stack without cell `k`: the cells above it move down by one. */
  function Drop(s: Stack, k: nat): Stack
    requires s.Valid() && k <= s.top
  {
    Stack(Moved(s.cells, k, k + 1, s.top - k), s.top - 1)
  }

  /** The stack with the first `pages` of cell `k` taken. */
  function Shrink(s: Stack, k: nat, pages: nat): Stack
    requires s.Valid() && k <= s.top
  {
    s.(cells := s.cells[k := s.cells[k].(start := s.cells[k].start + pages)])
  }

  datatype Found = Found(address: nat, stack: Stack)

  /** uvmm_find_freemem: the address returned and the stack left. */
  function Find(s: Stack, pages: nat): Found
    requires s.Valid()
  {
    var k := Fit(s, s.top - 1, pages);
    var e := s.cells[k];
    if Size(e) == pages then Found(e.start, Drop(s, k))
    else if Size(e) > pages then Found(e.start, Shrink(s, k, pages))
    else Found(0, s)
  }

  predicate Adjacent(e: Entry, page: nat, length: nat) {
    e.end == page || e.start == page + length
  }

  /** The first cell from `k` up to the one above the top that touches the range, else the one after. */
  function Touching(s: Stack, k: nat, page: nat, length: nat): (r: nat)
    requires s.Valid() && s.top + 1 < |s.cells| && k <= s.top + 2
    ensures k <= r <= s.top + 2
    ensures r <= s.top + 1 ==> Adjacent(s.cells[r], page, length)
    ensures forall i :: k <= i < r ==> !Adjacent(s.cells[i], page, length)
    decreases s.top + 2 - k
  {
    if k == s.top + 2 || Adjacent(s.cells[k], page, length) then k else Touching(s, k + 1, page, length)
  }

  function Grown(e: Entry, page: nat, length: nat): Entry {
    if e.end == page then Entry(e.start, page + length) else Entry(page, e.end)
  }

  /** uvmm_push_free: the search for a neighbour starts at slot 1 and looks at the slot above
      the top as well. */
  function Push(s: Stack, page: nat, length: nat): Stack
    requires s.Valid() && s.top + 1 < |s.cells|
  {
    var k := Touching(s, 2, page, length);
    if k <= s.top + 1 then s.(cells := s.cells[k := Grown(s.cells[k], page, length)])
    else Stack(s.cells[s.top + 1 := Entry(page, page + length)], s.top + 1)
  }

  // ---------------------------------------------------------------- the set of free addresses

  predicate Has(e: Entry, x: nat) {
    e.start <= x < e.end
  }

  ghost predicate Live(s: Stack, x: nat)
    requires s.Valid()
  {
    exists k :: 1 <= k <= s.top && Has(s.cells[k], x)
  }

  /** Address `x` is in at most one live range. */
  ghost predicate Once(s: Stack, x: nat)
    requires s.Valid()
  {
    forall i, j :: 1 <= i < j <= s.top ==> !(Has(s.cells[i], x) && Has(s.cells[j], x))
  }

  ghost predicate Disjoint(s: Stack)
    requires s.Valid()
  {
    forall x {:trigger Once(s, x)} :: Once(s, x)
  }

  /** A find takes exactly the range it returns out of the free addresses. */
  lemma FindExact(s: Stack, pages: nat, x: nat)
    requires s.Valid() && Once(s, x) && Fit(s, s.top - 1, pages) > 0
    ensures Taken(s, Find(s, pages).stack, Find(s, pages).address, pages, x)
  {
    var k := Fit(s, s.top - 1, pages);
    hide Taken, Once, Fit;
    if Size(s.cells[k]) == pages {
      ExactFit(s, k, x);
    } else {
      LooseFit(s, k, pages, x);
    }
  }

  /** `after` is `s` with the range at `a` taken out, as far as address `x` is concerned. */
  ghost predicate Taken(s: Stack, after: Stack, a: nat, pages: nat, x: nat)
    requires s.Valid()
  {
    && after.Valid() && Once(after, x)
    && (Live(after, x) <==> Live(s, x) && !(a <= x < a + pages))
    && (a <= x < a + pages ==> Live(s, x))
  }

  lemma LooseFit(s: Stack, k: nat, pages: nat, x: nat)
    requires s.Valid() && Once(s, x) && 1 <= k < s.top && Size(s.cells[k]) > pages
    ensures Taken(s, Shrink(s, k, pages), s.cells[k].start, pages, x)
  {
    var s' := Shrink(s, k, pages);
    assert forall i :: 1 <= i <= s.top && i != k ==> s'.cells[i] == s.cells[i];
    assert Has(s.cells[k], x) <==> Has(s'.cells[k], x) || s.cells[k].start <= x < s.cells[k].start + pages;
    if Has(s.cells[k], x) {
      assert forall i :: 1 <= i <= s.top && i != k ==> !Has(s.cells[i], x);
    }
  }

  lemma ExactFit(s: Stack, k: nat, x: nat)
    requires s.Valid() && Once(s, x) && 1 <= k < s.top
    ensures Taken(s, Drop(s, k), s.cells[k].start, Size(s.cells[k]), x)
  {
    var s' := Drop(s, k);
    if Live(s, x) {
      var i :| 1 <= i <= s.top && Has(s.cells[i], x);
      if i < k {
        assert Has(s'.cells[i], x);
      } else if i > k {
        assert Has(s'.cells[i - 1], x);
      }
    }
  }

  /** A push adds exactly the pushed range, unless the first neighbour found is the dead slot
      above the top. */
  lemma PushExact(s: Stack, page: nat, length: nat, x: nat)
    requires s.Valid() && s.top + 1 < |s.cells| && Once(s, x)
    requires !MergesDead(s, page, length)
    requires page <= x < page + length ==> !Live(s, x)
    ensures var s' := Push(s, page, length);
            && s'.Valid() && Once(s', x)
            && (Live(s', x) <==> Live(s, x) || page <= x < page + length)
  {
    var k := Touching(s, 2, page, length);
    var s' := Push(s, page, length);
    TouchesDeadIff(s, page, length);
    if k <= s.top {
      assert Has(s'.cells[k], x) <==> Has(s.cells[k], x) || page <= x < page + length;
      assert forall i :: 1 <= i <= s.top && i != k ==> s'.cells[i] == s.cells[i];
    } else {
      assert forall i :: 1 <= i <= s.top ==> s'.cells[i] == s.cells[i];
      assert Has(s'.cells[s'.top], x) <==> page <= x < page + length;
    }
  }

  // ---------------------------------------------------------------- what goes wrong, and when

  /** The search returns a free range exactly when some slot below the top fits; otherwise it
      reads the cell before the stack and either gives up or hands that cell out. */
  lemma FindFromStackIff(s: Stack, pages: nat)
    requires s.Valid() && pages > 0
    ensures Fit(s, s.top - 1, pages) > 0 <==> exists k :: 1 <= k < s.top && Size(s.cells[k]) >= pages
    ensures Fit(s, s.top - 1, pages) == 0 ==>
              Find(s, pages).address == if Size(s.cells[0]) >= pages then s.cells[0].start else 0
    ensures Fit(s, s.top - 1, pages) == 0 && Size(s.cells[0]) < pages ==> Find(s, pages).stack == s
  {
    if Fit(s, s.top - 1, pages) > 0 {
      assert Size(s.cells[Fit(s, s.top - 1, pages)]) >= pages;
    }
  }

  /** A find takes the pointer below the first slot exactly if there is one entry and the slot in front is
      just as large as the request: in particular if nothing is asked for and this slot is empty. */
  lemma PointerLeavesIff(s: Stack, pages: nat)
    requires s.Valid()
    ensures Find(s, pages).stack.top == 0 <==> s.top == 1 && Size(s.cells[0]) == pages
  {
    assert s.top == 1 ==> Fit(s, 0, pages) == 0;
  }

  /** The first neighbour the push finds is the dead slot above the top. */
  predicate MergesDead(s: Stack, page: nat, length: nat)
    requires s.Valid() && s.top + 1 < |s.cells|
  {
    && Adjacent(s.cells[s.top + 1], page, length)
    && forall k :: 2 <= k <= s.top ==> !Adjacent(s.cells[k], page, length)
  }

  lemma TouchesDeadIff(s: Stack, page: nat, length: nat)
    requires s.Valid() && s.top + 1 < |s.cells|
    ensures Touching(s, 2, page, length) == s.top + 1 <==> MergesDead(s, page, length)
  {
  }

  predicate Touches(s: Stack, k: nat, page: nat, length: nat)
    requires k < |s.cells|
  {
    s.cells[k].end == page || s.cells[k].start == page + length
  }

  /** If no slot from the second one to the one above the top touches the range, a push adds a slot for it. */
  lemma PushAdds(s: Stack, page: nat, length: nat)
    requires s.Valid() && s.top + 1 < |s.cells|
    requires forall k :: 2 <= k <= s.top + 1 ==> !Touches(s, k, page, length)
    ensures Push(s, page, length) == Stack(s.cells[s.top + 1 := Entry(page, page + length)], s.top + 1)
  {
    var t := Touching(s, 2, page, length);
    assert t <= s.top + 1 ==> Touches(s, t, page, length);
  }

  /** Else it extends the first that does, on the side where it touches, adds no slot and leaves all others alone. */
  lemma PushExtends(s: Stack, page: nat, length: nat, k: nat)
    requires s.Valid() && s.top + 1 < |s.cells| && 2 <= k <= s.top + 1 && Touches(s, k, page, length)
    requires forall i :: 2 <= i < k ==> !Touches(s, i, page, length)
    ensures var e := s.cells[k];
            Push(s, page, length)
            == Stack(s.cells[k := if e.end == page then Entry(e.start, page + length) else Entry(page, e.end)], s.top)
  {
    var t := Touching(s, 2, page, length);
    assert t < k ==> Touches(s, t, page, length);
    assert Adjacent(s.cells[k], page, length);
  }

  /** A push adds the range exactly when the first neighbour found is not the slot above the top;
      in that case the range is lost. */
  lemma PushExactIff(s: Stack, page: nat, length: nat)
    requires s.Valid() && s.top + 1 < |s.cells| && Disjoint(s) && length > 0
    requires forall x: nat :: page <= x < page + length ==> !Live(s, x)
    ensures !MergesDead(s, page, length) <==>
            forall x: nat :: Live(Push(s, page, length), x) <==> Live(s, x) || page <= x < page + length
  {
    var s' := Push(s, page, length);
    TouchesDeadIff(s, page, length);
    if MergesDead(s, page, length) {
      assert forall i :: 1 <= i <= s.top ==> s'.cells[i] == s.cells[i];
      assert !Live(s, page);
      assert !Live(s', page);
    } else {
      forall x: nat
        ensures Live(s', x) <==> Live(s, x) || page <= x < page + length
      {
        assert Once(s, x);
        PushExact(s, page, length, x);
      }
    }
  }

  /** Such a push is reachable: an exact fit that leaves one range leaves a dead copy of it above
      the top, and whatever is then freed just behind that range is lost. */
  lemma LastRangeLost(s: Stack, pages: nat, length: nat)
    requires s.Valid() && s.top == 2 && |s.cells| > 3
    requires pages > 0 && Size(s.cells[1]) == pages
    ensures var s1 := Find(s, pages).stack;
            && s1.Valid() && Find(s, pages).address == s.cells[1].start
            && MergesDead(s1, s.cells[2].end, length)
            && forall x: nat :: Live(Push(s1, s.cells[2].end, length), x) <==> Live(s1, x)
  {
    var s1 := Find(s, pages).stack;
    assert Fit(s, 1, pages) == 1;
    assert s1 == Drop(s, 1);
    assert s1.cells[1] == s1.cells[2] == s.cells[2];
    TouchesDeadIff(s1, s.cells[2].end, length);
    assert Push(s1, s.cells[2].end, length).cells[1] == s1.cells[1];
  }

  /** A push that merges with the dead slot changes no live cell. */
  lemma DeadPushChangesNothing(s: Stack, page: nat, length: nat, x: nat)
    requires s.Valid() && s.top + 1 < |s.cells| && MergesDead(s, page, length)
    ensures var s' := Push(s, page, length);
            s'.Valid() && s'.top == s.top && (Once(s', x) <==> Once(s, x)) && (Live(s', x) <==> Live(s, x))
  {
    var s' := Push(s, page, length);
    TouchesDeadIff(s, page, length);
    assert forall i :: 1 <= i <= s.top ==> s'.cells[i] == s.cells[i];
  }

  // ---------------------------------------------------------------- runs

  datatype Step = FindStep(pages: nat) | PushStep(page: nat, length: nat)

  /** `out` are the addresses handed out and not pushed back. */
  datatype State = State(stack: Stack, out: set<nat>)

  function Span(a: nat, n: nat): (r: set<nat>)
    ensures forall x :: x in r <==> a <= x < a + n
  {
    if n == 0 then {} else Span(a, n - 1) + {a + n - 1}
  }

  /** What a find hands out: nothing if no entry it looks at is large enough. */
  function Handed(s: Stack, pages: nat): set<nat>
    requires s.Valid()
  {
    if Size(s.cells[Fit(s, s.top - 1, pages)]) >= pages then Span(Find(s, pages).address, pages) else {}
  }

  /** Any find but one of no pages on a stack with one entry, and any push of addresses that were handed out,
      as long as the page has room. */
  predicate Enabled(s: State, step: Step)
    requires s.stack.Valid()
  {
    match step
    case FindStep(pages) => pages > 0 || s.stack.top > 1
    case PushStep(page, length) => s.stack.top + 1 < |s.stack.cells| && Span(page, length) <= s.out
  }

  function Next(s: State, step: Step): State
    requires s.stack.Valid() && Enabled(s, step)
  {
    match step
    case FindStep(pages) => State(Find(s.stack, pages).stack, s.out + Handed(s.stack, pages))
    case PushStep(page, length) => State(Push(s.stack, page, length), s.out - Span(page, length))
  }

  /** Address `x` is free at most once, and not both free and handed out. */
  ghost predicate Sound(s: State, x: nat)
    requires s.stack.Valid()
  {
    Once(s.stack, x) && !(Live(s.stack, x) && x in s.out)
  }

  /** It is free or handed out only if it is one of `all`. */
  ghost predicate Placed(s: State, all: iset<nat>, x: nat)
    requires s.stack.Valid()
  {
    Sound(s, x) && (Live(s.stack, x) || x in s.out ==> x in all)
  }

  ghost predicate Inv(s: State, all: iset<nat>) {
    s.stack.Valid() && forall x {:trigger Placed(s, all, x)} :: Placed(s, all, x)
  }

  /** Address `x` is neither free nor handed out. */
  ghost predicate Gone(s: State, x: nat)
    requires s.stack.Valid()
  {
    !Live(s.stack, x) && x !in s.out
  }

  /** No address of `all` is gone. */
  ghost predicate Complete(s: State, all: iset<nat>)
    requires s.stack.Valid()
  {
    forall x {:trigger Gone(s, x)} :: x in all ==> !Gone(s, x)
  }

  /** A push whose range is lost. */
  predicate Loses(s: State, step: Step)
    requires s.stack.Valid() && Enabled(s, step)
  {
    step.PushStep? && step.length > 0 && MergesDead(s.stack, step.page, step.length)
  }

  /** The slot before the stack holds no range. */
  predicate NoneInFront(s: State)
    requires s.stack.Valid()
  {
    Size(s.stack.cells[0]) == 0
  }

  /** What one step does to address `x`: a find takes it out of the free ones, a push frees it unless it
      loses it. */
  lemma StepPlaces(s: State, step: Step, all: iset<nat>, x: nat)
    requires s.stack.Valid() && NoneInFront(s) && Enabled(s, step) && Placed(s, all, x)
    ensures var s' := Next(s, step);
            && s'.stack.Valid() && NoneInFront(s') && Placed(s', all, x)
            && (Gone(s', x) <==> Gone(s, x) || (Loses(s, step) && step.page <= x < step.page + step.length))
            && (step.FindStep? && x in Handed(s.stack, step.pages) ==> Live(s.stack, x))
  {
    hide Once, Live, Fit, Touching;
    match step
    case FindStep(pages) => FindPlaces(s, pages, x);
    case PushStep(page, length) =>
      if MergesDead(s.stack, page, length) {
        DeadPushChangesNothing(s.stack, page, length, x);
      } else {
        PushExact(s.stack, page, length, x);
      }
      PushKeepsFront(s.stack, page, length);
  }

  lemma PushKeepsFront(s: Stack, page: nat, length: nat)
    requires s.Valid() && s.top + 1 < |s.cells|
    ensures |Push(s, page, length).cells| == |s.cells| && Push(s, page, length).cells[0] == s.cells[0]
  {
  }

  /** With no range in front of the stack a find either takes a range exactly or does nothing. */
  lemma FindPlaces(s: State, pages: nat, x: nat)
    requires s.stack.Valid() && NoneInFront(s) && Once(s.stack, x) && (pages > 0 || s.stack.top > 1)
    ensures var s' := Find(s.stack, pages).stack;
            && s'.Valid() && Size(s'.cells[0]) == 0 && Once(s', x)
            && (Live(s', x) <==> Live(s.stack, x) && x !in Handed(s.stack, pages))
            && (x in Handed(s.stack, pages) ==> Live(s.stack, x))
  {
    if Fit(s.stack, s.stack.top - 1, pages) > 0 {
      FindExact(s.stack, pages, x);
    }
  }

  lemma StepKeepsInv(s: State, step: Step, all: iset<nat>)
    requires Inv(s, all) && NoneInFront(s) && Enabled(s, step)
    ensures Inv(Next(s, step), all) && NoneInFront(Next(s, step))
    ensures step.FindStep? ==> forall x :: x in Handed(s.stack, step.pages) ==> Live(s.stack, x)
  {
    hide Once, Live, Placed, Handed, Next;
    assert Placed(s, all, 0);
    StepPlaces(s, step, all, 0);
    forall x: nat
      ensures Next(s, step).stack.Valid() && NoneInFront(Next(s, step)) && Placed(Next(s, step), all, x)
      ensures step.FindStep? && x in Handed(s.stack, step.pages) ==> Live(s.stack, x)
    {
      assert Placed(s, all, x);
      StepPlaces(s, step, all, x);
    }
  }

  /** One step loses an address exactly if it is a push that merges with the dead slot, and what is gone
      stays gone. */
  lemma StepCompleteIff(s: State, step: Step, all: iset<nat>)
    requires Inv(s, all) && NoneInFront(s) && Enabled(s, step)
    ensures Inv(Next(s, step), all)
    ensures Complete(Next(s, step), all) <==> Complete(s, all) && !Loses(s, step)
  {
    var s' := Next(s, step);
    StepKeepsInv(s, step, all);
    hide Once, Live, Gone, Handed, Next;
    forall x: nat
      ensures Gone(s', x) <==> Gone(s, x) || (Loses(s, step) && step.page <= x < step.page + step.length)
    {
      assert Placed(s, all, x);
      StepPlaces(s, step, all, x);
    }
    if Loses(s, step) {
      assert Placed(s, all, step.page);
      assert step.page in Span(step.page, step.length);
      assert Gone(s', step.page);
    }
  }

  predicate IsRun(s: State, steps: seq<Step>)
    decreases |steps|
  {
    steps == [] || (s.stack.Valid() && Enabled(s, steps[0]) && IsRun(Next(s, steps[0]), steps[1..]))
  }

  function After(s: State, steps: seq<Step>): State
    requires IsRun(s, steps)
    decreases |steps|
  {
    if steps == [] then s else After(Next(s, steps[0]), steps[1..])
  }

  /** Every find of the run hands out addresses that are free at that moment. */
  ghost predicate HandsOutOnlyFree(s: State, steps: seq<Step>)
    requires IsRun(s, steps)
    decreases |steps|
  {
    steps == [] ||
    ((steps[0].FindStep? ==> forall x :: x in Handed(s.stack, steps[0].pages) ==> Live(s.stack, x))
     && HandsOutOnlyFree(Next(s, steps[0]), steps[1..]))
  }

  /** No push of the run merges with the dead slot. */
  predicate LosesNothing(s: State, steps: seq<Step>)
    requires IsRun(s, steps)
    decreases |steps|
  {
    steps == [] || (!Loses(s, steps[0]) && LosesNothing(Next(s, steps[0]), steps[1..]))
  }

  /** In every run, whatever is pushed, no address is handed out that is not free at that moment, so none
      twice without being freed in between, and none is ever free and handed out. */
  lemma {:induction false} NeverHandedOutTwice(s: State, steps: seq<Step>, all: iset<nat>)
    requires Inv(s, all) && NoneInFront(s) && IsRun(s, steps)
    ensures Inv(After(s, steps), all) && NoneInFront(After(s, steps)) && HandsOutOnlyFree(s, steps)
    decreases |steps|
  {
    if steps != [] {
      StepKeepsInv(s, steps[0], all);
      NeverHandedOutTwice(Next(s, steps[0]), steps[1..], all);
    }
  }

  /** At the end of a run every address is still free or handed out exactly if nothing was missing before
      and no push of the run merged with the dead slot. */
  lemma {:induction false} CompleteIff(s: State, steps: seq<Step>, all: iset<nat>)
    requires Inv(s, all) && NoneInFront(s) && IsRun(s, steps)
    ensures Inv(After(s, steps), all)
    ensures Complete(After(s, steps), all) <==> Complete(s, all) && LosesNothing(s, steps)
    decreases |steps|
  {
    if steps != [] {
      StepKeepsInv(s, steps[0], all);
      StepCompleteIff(s, steps[0], all);
      CompleteIff(Next(s, steps[0]), steps[1..], all);
    }
  }

  /** A run that loses a range: an exact fit leaves a dead copy of the last range above the top, and the
      pages behind this range are pushed next. */
  lemma LosingRun(s: State, pages: nat, length: nat)
    requires s.stack.Valid() && s.stack.top == 2 && |s.stack.cells| > 3
    requires pages > 0 && Size(s.stack.cells[1]) == pages
    requires length > 0 && Span(s.stack.cells[2].end, length) <= s.out
    ensures var steps := [FindStep(pages), PushStep(s.stack.cells[2].end, length)];
            IsRun(s, steps) && !LosesNothing(s, steps)
  {
    var push := PushStep(s.stack.cells[2].end, length);
    var steps, s1 := [FindStep(pages), push], Next(s, FindStep(pages));
    LastRangeLost(s.stack, pages, length);
    assert steps[1..] == [push] && steps[1..][1..] == [];
    assert IsRun(s1, [push]) && Loses(s1, push);
  }

  /** A stack whose ranges do not overlap is a good start: all its addresses are there, and none is handed out. */
  lemma StartIsGood(s: State, all: iset<nat>)
    requires s.stack.Valid() && Disjoint(s.stack) && s.out == {} && forall x :: x in all <==> Live(s.stack, x)
    ensures Inv(s, all) && Complete(s, all)
  {
    forall x: nat
      ensures Placed(s, all, x) && (x in all ==> !Gone(s, x))
    {
      assert Once(s.stack, x);
    }
  }

  /** A context starts with a cleared page and the pointer at its first slot: no address is free, so none can be
      handed out before one is pushed. */
  lemma ClearedStack(s: State, pages: nat, all: iset<nat>)
    requires s.stack.top == 1 < |s.stack.cells| && s.out == {}
    requires forall i :: 0 <= i < |s.stack.cells| ==> s.stack.cells[i] == Entry(0, 0)
    ensures Inv(s, all) && NoneInFront(s) && NoneLive(s.stack)
    ensures pages > 0 ==> Find(s.stack, pages) == Found(0, s.stack)
  {
    assert s.stack.Valid() && s.stack.cells[1] == Entry(0, 0);
    FindsNothing(s.stack, pages);
    AllPlaced(s, all);
  }

  lemma AllPlaced(s: State, all: iset<nat>)
    requires s.stack.Valid() && s.stack.top == 1 && s.stack.cells[1] == Entry(0, 0) && s.out == {}
    ensures Inv(s, all) && NoneLive(s.stack)
  {
    hide Live, Placed;
    forall x: nat
      ensures Placed(s, all, x) && !Live(s.stack, x)
    {
      NothingLive(s, all, x);
    }
  }

  ghost predicate NoneLive(s: Stack)
    requires s.Valid()
  {
    forall x {:trigger Live(s, x)} :: !Live(s, x)
  }

  lemma FindsNothing(s: Stack, pages: nat)
    requires s.Valid() && s.top == 1 && Size(s.cells[0]) == 0
    ensures pages > 0 ==> Find(s, pages) == Found(0, s)
  {
    hide Moved;
    assert Fit(s, 0, pages) == 0;
  }

  lemma NothingLive(s: State, all: iset<nat>, x: nat)
    requires s.stack.Valid() && s.stack.top == 1 && s.stack.cells[1] == Entry(0, 0) && s.out == {}
    ensures !Live(s.stack, x) && Placed(s, all, x)
  {
  }

  // ---------------------------------------------------------------- the slot before the stack

  /** With an entry only at the top the search, which starts below it, hands out what lies before the stack. */
  lemma TopIsNotTaken()
    ensures var s := Stack([Entry(7, 8), Entry(100, 200), Entry(0, 0)], 1);
            s.Valid() && Find(s, 1).address == 7 && !NoneInFront(State(s, {}))
  {
    var s := Stack([Entry(7, 8), Entry(100, 200), Entry(0, 0)], 1);
    assert Fit(s, 0, 1) == 0;
  }

  /** The run hands out free addresses only and leaves a stack whose addresses are free once and not
      handed out. */
  ghost predicate IsSafe(s: State, steps: seq<Step>)
    requires IsRun(s, steps)
  {
    && HandsOutOnlyFree(s, steps) && After(s, steps).stack.Valid()
    && forall x {:trigger Sound(After(s, steps), x)} :: Sound(After(s, steps), x)
  }

  /** A find that hands out the range before the stack breaks the run. */
  lemma FrontIsHandedOut(s: State)
    requires s.stack.Valid() && !NoneInFront(s) && Fit(s.stack, s.stack.top - 1, 1) == 0
    ensures IsRun(s, [FindStep(1)]) && !IsSafe(s, [FindStep(1)])
  {
    var s', a := Next(s, FindStep(1)), s.stack.cells[0].start;
    assert [FindStep(1)][1..] == [];
    assert a in Handed(s.stack, 1);
    if Live(s.stack, a) && s'.stack.Valid() {
      var k :| 1 <= k <= s.stack.top && Has(s.stack.cells[k], a);
      assert k == s.stack.top;
      assert s'.stack.cells[s'.stack.top] == s.stack.cells[k];
      assert !Sound(s', a);
    }
  }

  /** Taking a page drops an entry or makes the one it is taken from smaller. */
  lemma OnePageLess(s: Stack)
    requires s.Valid() && Fit(s, s.top - 1, 1) > 0
    ensures var s' := Find(s, 1).stack;
            && s'.Valid() && s'.cells[0] == s.cells[0] && s'.top <= s.top
            && (s'.top == s.top ==> Size(s'.cells[Fit(s', s'.top - 1, 1)]) < Size(s.cells[Fit(s, s.top - 1, 1)]))
  {
    var k, s' := Fit(s, s.top - 1, 1), Find(s, 1).stack;
    if Size(s.cells[k]) > 1 {
      assert forall i :: k < i < s.top ==> s'.cells[i] == s.cells[i];
      assert Size(s'.cells[k]) >= 1;
    }
  }

  /** Single pages are taken until no entry below the top is left; then it is the turn of the slot before
      the stack. */
  lemma FrontIsReached(s: State) returns (steps: seq<Step>)
    requires s.stack.Valid() && !NoneInFront(s)
    ensures IsRun(s, steps) && !IsSafe(s, steps)
    decreases s.stack.top, Size(s.stack.cells[Fit(s.stack, s.stack.top - 1, 1)])
  {
    hide Live, Sound, Handed, Find, Fit;
    var k := Fit(s.stack, s.stack.top - 1, 1);
    if k == 0 {
      FrontIsHandedOut(s);
      return [FindStep(1)];
    }
    var s' := Next(s, FindStep(1));
    OnePageLess(s.stack);
    var rest := FrontIsReached(s');
    steps := [FindStep(1)] + rest;
    assert steps[1..] == rest;
  }

  /** All runs are safe exactly if the memory before the stack does not look like a range. */
  lemma AllRunsSafeIff(s: State, all: iset<nat>)
    requires Inv(s, all)
    ensures (forall steps :: IsRun(s, steps) ==> IsSafe(s, steps)) <==> NoneInFront(s)
  {
    if NoneInFront(s) {
      forall steps | IsRun(s, steps)
        ensures IsSafe(s, steps)
      {
        NeverHandedOutTwice(s, steps, all);
        forall x
          ensures Sound(After(s, steps), x)
        {
          assert Placed(After(s, steps), all, x);
        }
        assert IsSafe(s, steps);
      }
    } else {
      var steps := FrontIsReached(s);
      assert IsRun(s, steps) && !IsSafe(s, steps);
    }
  }

  // ---------------------------------------------------------------- the stack in its page

  /** mm_stack and mm_stack_ptr of a context. */
  class StackPage {
    const cells: array<Entry>
    var top: nat

    constructor (page: array<Entry>, ptr: nat)
      ensures cells == page && top == ptr
    {
      cells := page;
      top := ptr;
    }

    function Value(): Stack
      reads this, cells
    {
      Stack(cells[..], top)
    }

    /** The search of uvmm_find_freemem: down from the slot below the top, through the one
        before the first. */
    method Search(pages: nat) returns (cur: nat, size: nat)
      requires Value().Valid()
      ensures cur == Fit(Value(), top - 1, pages) && size == Size(cells[cur])
    {
      cur, size := top, 0;
      while cur >= 1
        invariant cur <= top
        invariant cur < top ==> Fit(Value(), top - 1, pages) == Fit(Value(), cur, pages)
        invariant cur < top ==> size == Size(cells[cur]) && size < pages
      {
        cur := cur - 1;
        size := cells[cur].end - cells[cur].start;
        if size >= pages {
          break;
        }
      }
    }

    /** uvmm_find_freemem. */
    method FindFreemem(pages: nat) returns (address: nat)
      requires Value().Valid()
      modifies this`top, cells
      ensures Found(address, Value()) == Find(old(Value()), pages)
    {
      var cur, size := Search(pages);
      address := 0;
      if size == pages {
        address := cells[cur].start;
        Memmove(cells, cur, cur + 1, top - cur);
        top := top - 1;
      } else if size > pages {
        address := cells[cur].start;
        cells[cur] := Entry(address + pages, cells[cur].end);
      }
    }

    /** uvmm_push_free. */
    method PushFree(page: nat, length: nat)
      requires Value().Valid() && top + 1 < cells.Length
      modifies this`top, cells
      ensures Value() == Push(old(Value()), page, length)
    {
      ghost var s := Value();
      var cur := 1;
      while cur <= top
        invariant 1 <= cur <= top + 1 && Value() == s
        invariant Touching(s, 2, page, length) == Touching(s, cur + 1, page, length)
      {
        cur := cur + 1;
        if cells[cur].end == page {
          cells[cur] := Entry(cells[cur].start, page + length);
          return;
        } else if cells[cur].start == page + length {
          cells[cur] := Entry(page, cells[cur].end);
          return;
        }
      }
      top := top + 1;
      cells[top] := Entry(page, page + length);
    }
  }
}
