/** The chunked pointer lists of src/kernel/lib/libOS/list.c and src/usr/hlib/OO/AList.h. A chunk is an
    array of `capacity` slots; slot value 0 is the null pointer, an empty slot. */
module ChunkList {

  type Chunks = seq<seq<nat>>

  /** ENTRYS_PER_ARRAY, the capacity of every chunk in the kernel. */
  const ENTRIES := 5

  // ---------------------------------------------------------------- contents of slots

  /** The filled slots, in order. */
  function Filled(c: seq<nat>): (r: seq<nat>)
    ensures |r| <= |c|
    ensures |r| == |c| <==> 0 !in c
  {
    if c == [] then [] else (if c[0] == 0 then [] else [c[0]]) + Filled(c[1..])
  }

  /** What the list holds: the filled slots of all chunks. */
  function Contents(cs: Chunks): (r: seq<nat>) {
    if cs == [] then [] else Filled(cs[0]) + Contents(cs[1..])
  }

  lemma {:induction false} FilledConcat(a: seq<nat>, b: seq<nat>)
    ensures Filled(a + b) == Filled(a) + Filled(b)
  {
    if a == [] {
      assert a + b == b;
    } else {
      assert (a + b)[1..] == a[1..] + b;
      FilledConcat(a[1..], b);
    }
  }

  lemma {:induction false} ContentsConcat(a: Chunks, b: Chunks)
    ensures Contents(a + b) == Contents(a) + Contents(b)
  {
    if a == [] {
      assert a + b == b;
    } else {
      assert (a + b)[1..] == a[1..] + b;
      ContentsConcat(a[1..], b);
    }
  }

  lemma {:induction false} FilledHas(c: seq<nat>, v: nat)
    ensures v in Filled(c) <==> v != 0 && v in c
  {
    if c != [] {
      FilledHas(c[1..], v);
      assert v in c <==> v == c[0] || v in c[1..];
    }
  }

  /** The entries before slot i of chunk k, and those behind it. */
  function Before(cs: Chunks, k: nat, i: nat): (r: seq<nat>)
    requires k < |cs| && i <= |cs[k]|
  {
    Contents(cs[..k]) + Filled(cs[k][..i])
  }

  function Behind(cs: Chunks, k: nat, i: nat): (r: seq<nat>)
    requires k < |cs| && i < |cs[k]|
  {
    Filled(cs[k][i + 1..]) + Contents(cs[k + 1..])
  }

  function One(v: nat): (r: seq<nat>) {
    if v == 0 then [] else [v]
  }

  /** Slot i of chunk k given the value `v`. */
  function Written(cs: Chunks, k: nat, i: nat, v: nat): (r: Chunks)
    requires k < |cs| && i < |cs[k]|
  {
    var c: seq<nat> := cs[k][i := v];
    cs[k := c]
  }

  /** Writing one slot changes one place of the contents. */
  lemma WriteSplits(cs: Chunks, k: nat, i: nat, v: nat)
    requires k < |cs| && i < |cs[k]|
    ensures Contents(cs) == Before(cs, k, i) + One(cs[k][i]) + Behind(cs, k, i)
    ensures Contents(Written(cs, k, i, v)) == Before(cs, k, i) + One(v) + Behind(cs, k, i)
  {
    SlotSplits(cs, k, i);
    var t := Written(cs, k, i, v);
    SlotSplits(t, k, i);
    assert t[..k] == cs[..k] && t[k + 1..] == cs[k + 1..];
    assert t[k][..i] == cs[k][..i] && t[k][i + 1..] == cs[k][i + 1..];
  }

  lemma FilledSplits(c: seq<nat>, i: nat)
    requires i < |c|
    ensures Filled(c) == Filled(c[..i]) + One(c[i]) + Filled(c[i + 1..])
  {
    assert c == c[..i + 1] + c[i + 1..];
    FilledConcat(c[..i + 1], c[i + 1..]);
    FilledNext(c, i);
  }

  lemma FilledNext(c: seq<nat>, i: nat)
    requires i < |c|
    ensures Filled(c[..i + 1]) == Filled(c[..i]) + One(c[i])
  {
    assert c[..i + 1] == c[..i] + [c[i]];
    FilledConcat(c[..i], [c[i]]);
  }

  lemma ContentsSplits(cs: Chunks, k: nat)
    requires k < |cs|
    ensures Contents(cs) == Contents(cs[..k]) + Filled(cs[k]) + Contents(cs[k + 1..])
  {
    assert cs == cs[..k] + cs[k..];
    ContentsConcat(cs[..k], cs[k..]);
    assert cs[k..][1..] == cs[k + 1..];
  }

  lemma SlotSplits(cs: Chunks, k: nat, i: nat)
    requires k < |cs| && i < |cs[k]|
    ensures Contents(cs) == Before(cs, k, i) + One(cs[k][i]) + Behind(cs, k, i)
  {
    FilledSplits(cs[k], i);
    ContentsSplits(cs, k);
    Regroup(Contents(cs[..k]), Filled(cs[k][..i]), One(cs[k][i]), Filled(cs[k][i + 1..]), Contents(cs[k + 1..]));
  }

  lemma Regroup(a: seq<nat>, b: seq<nat>, c: seq<nat>, d: seq<nat>, e: seq<nat>)
    ensures a + (b + c + d) + e == (a + b) + c + (d + e)
  {
  }

  /** Moving past a slot, and past a chunk. */
  lemma BeforeNext(cs: Chunks, k: nat, i: nat)
    requires k < |cs| && i < |cs[k]|
    ensures Before(cs, k, i + 1) == Before(cs, k, i) + One(cs[k][i])
  {
    FilledNext(cs[k], i);
  }

  lemma BeforeNextChunk(cs: Chunks, k: nat)
    requires k < |cs|
    ensures Contents(cs[..k + 1]) == Before(cs, k, |cs[k]|)
    ensures k + 1 < |cs| ==> Before(cs, k + 1, 0) == Before(cs, k, |cs[k]|)
  {
    assert cs[..k + 1] == cs[..k] + [cs[k]];
    ContentsConcat(cs[..k], [cs[k]]);
    assert Contents([cs[k]][1..]) == [];
    assert cs[k][..|cs[k]|] == cs[k];
    if k + 1 < |cs| {
      assert Filled(cs[k + 1][..0]) == [];
    }
  }

  // ---------------------------------------------------------------- the operations on values

  /** Every chunk has `capacity` slots and the last one is not full. */
  predicate WellFormed(cs: Chunks, capacity: nat) {
    && cs != []
    && (forall k {:trigger cs[k]} :: 0 <= k < |cs| ==> |cs[k]| == capacity)
    && 0 in cs[|cs| - 1]
  }

  /** The first index of `v`, |c| if there is none. */
  function FirstIn(c: seq<nat>, v: nat): (i: nat)
    ensures i <= |c| && v !in c[..i]
    ensures i < |c| ==> c[i] == v
    ensures i < |c| <==> v in c
  {
    if c == [] || c[0] == v then 0 else 1 + FirstIn(c[1..], v)
  }

  /** The first chunk with `v` in a slot, |cs| if there is none. */
  function ChunkWith(cs: Chunks, v: nat): (k: nat)
    ensures k <= |cs|
    ensures k < |cs| ==> v in cs[k]
    ensures forall j {:trigger cs[j]} :: 0 <= j < k ==> v !in cs[j]
  {
    if cs == [] || v in cs[0] then 0 else 1 + ChunkWith(cs[1..], v)
  }

  /** The first slot that holds `from` is given the value `to`. */
  function Replaced(cs: Chunks, from: nat, to: nat): Chunks {
    var k := ChunkWith(cs, from);
    if k == |cs| then cs else Written(cs, k, FirstIn(cs[k], from), to)
  }

  function Zeros(n: nat): (r: seq<nat>)
    ensures |r| == n && forall i :: 0 <= i < n ==> r[i] == 0
  {
    seq(n, _ => 0)
  }

  /** alist_add: the first empty slot is filled; when that fills the last chunk, an empty one follows. */
  function Added(cs: Chunks, v: nat, capacity: nat): Chunks
    requires WellFormed(cs, capacity)
  {
    var t := Replaced(cs, 0, v);
    if 0 in t[|t| - 1] then t else t + [Zeros(capacity)]
  }

  /** alist_remove. */
  function Removed(cs: Chunks, v: nat): Chunks {
    Replaced(cs, v, 0)
  }

  // ---------------------------------------------------------------- what they mean

  lemma {:induction false} ZerosEmpty(n: nat)
    ensures Filled(Zeros(n)) == [] && Contents([Zeros(n)]) == []
  {
    if n > 0 {
      assert Zeros(n)[1..] == Zeros(n - 1);
      ZerosEmpty(n - 1);
    }
    assert Contents([Zeros(n)][1..]) == [];
  }

  /** What comes before the slot that a replacement hits. */
  function Front(cs: Chunks, v: nat): seq<nat>
    requires ChunkWith(cs, v) < |cs|
  {
    Before(cs, ChunkWith(cs, v), FirstIn(cs[ChunkWith(cs, v)], v))
  }

  function Back(cs: Chunks, v: nat): seq<nat>
    requires ChunkWith(cs, v) < |cs|
  {
    Behind(cs, ChunkWith(cs, v), FirstIn(cs[ChunkWith(cs, v)], v))
  }

  lemma {:induction false} NotInFront(cs: Chunks, v: nat, k: nat)
    requires v != 0 && k <= |cs| && forall j {:trigger cs[j]} :: 0 <= j < k ==> v !in cs[j]
    ensures v !in Contents(cs[..k])
  {
    if k > 0 {
      NotInFront(cs, v, k - 1);
      BeforeNextChunk(cs, k - 1);
      assert cs[k - 1][..|cs[k - 1]|] == cs[k - 1];
      FilledHas(cs[k - 1], v);
    }
  }

  /** A replacement changes one place of the contents. */
  lemma ReplacedSplits(cs: Chunks, from: nat, to: nat)
    requires ChunkWith(cs, from) < |cs|
    ensures |Replaced(cs, from, to)| == |cs|
    ensures Contents(cs) == Front(cs, from) + One(from) + Back(cs, from)
    ensures Contents(Replaced(cs, from, to)) == Front(cs, from) + One(to) + Back(cs, from)
  {
    var k := ChunkWith(cs, from);
    WriteSplits(cs, k, FirstIn(cs[k], from), to);
  }

  /** It keeps every chunk's size, and leaves the last chunk with a hole unless it fills the only one. */
  lemma ReplacedKeepsShape(cs: Chunks, from: nat, to: nat, capacity: nat)
    requires WellFormed(cs, capacity) && ChunkWith(cs, from) < |cs|
    ensures var t := Replaced(cs, from, to);
            && |t| == |cs| && (forall k {:trigger t[k]} :: 0 <= k < |t| ==> |t[k]| == capacity)
            && (from != 0 ==> 0 in t[|t| - 1])
  {
    var k := ChunkWith(cs, from);
    var i := FirstIn(cs[k], from);
    var t := Replaced(cs, from, to);
    if from != 0 {
      var z :| 0 <= z < |cs[|cs| - 1]| && cs[|cs| - 1][z] == 0;
      assert t[|t| - 1][z] == 0;
    }
  }

  lemma OneNone(f: seq<nat>, b: seq<nat>)
    ensures f + One(0) + b == f + b
  {
  }

  /** Both keep the list well formed, so that the next add finds a hole again. */
  lemma AddKeepsShape(cs: Chunks, v: nat, capacity: nat)
    requires WellFormed(cs, capacity) && v != 0 && capacity > 0
    ensures WellFormed(Added(cs, v, capacity), capacity)
  {
    HoleExists(cs, capacity);
    ReplacedKeepsShape(cs, 0, v, capacity);
    var t := Replaced(cs, 0, v);
    if 0 !in t[|t| - 1] {
      assert Zeros(capacity)[0] == 0;
    }
  }

  lemma RemoveKeepsShape(cs: Chunks, v: nat, capacity: nat)
    requires WellFormed(cs, capacity) && v != 0
    ensures WellFormed(Removed(cs, v), capacity)
  {
    if ChunkWith(cs, v) < |cs| {
      ReplacedKeepsShape(cs, v, 0, capacity);
    }
  }

  lemma HoleExists(cs: Chunks, capacity: nat)
    requires WellFormed(cs, capacity)
    ensures ChunkWith(cs, 0) < |cs|
  {
    assert 0 in cs[|cs| - 1];
  }

  /** An add inserts the entry where the first hole is and keeps the order of all others. */
  lemma AddInserts(cs: Chunks, v: nat, capacity: nat)
    requires WellFormed(cs, capacity) && v != 0
    ensures ChunkWith(cs, 0) < |cs|
    ensures Contents(cs) == Front(cs, 0) + Back(cs, 0)
    ensures Contents(Added(cs, v, capacity)) == Front(cs, 0) + [v] + Back(cs, 0)
  {
    HoleExists(cs, capacity);
    ReplacedSplits(cs, 0, v);
    OneNone(Front(cs, 0), Back(cs, 0));
    EmptyChunkAddsNothing(Replaced(cs, 0, v), capacity);
  }

  lemma EmptyChunkAddsNothing(cs: Chunks, capacity: nat)
    ensures Contents(cs + [Zeros(capacity)]) == Contents(cs)
  {
    ContentsConcat(cs, [Zeros(capacity)]);
    ZerosEmpty(capacity);
  }

  /** With no hole before any entry an add appends. */
  predicate Compact(cs: Chunks) {
    ChunkWith(cs, 0) < |cs| && Back(cs, 0) == []
  }

  lemma AddAppends(cs: Chunks, v: nat, capacity: nat)
    requires WellFormed(cs, capacity) && v != 0 && Compact(cs)
    ensures Contents(Added(cs, v, capacity)) == Contents(cs) + [v]
  {
    AddInserts(cs, v, capacity);
  }

  lemma {:induction false} BeforeGrows(cs: Chunks, k: nat, i: nat, k': nat, i': nat)
    requires k <= k' < |cs| && i < |cs[k]| && i' <= |cs[k']| && (k < k' || i < i') && cs[k][i] != 0
    ensures |Before(cs, k', i')| >= |Before(cs, k, i)| + 1
    decreases k', i'
  {
    if i' > 0 {
      BeforeNext(cs, k', i' - 1);
      if k < k' || i < i' - 1 {
        BeforeGrows(cs, k, i, k', i' - 1);
      }
    } else {
      BeforeNextChunk(cs, k' - 1);
      BeforeGrows(cs, k, i, k' - 1, |cs[k' - 1]|);
    }
  }

  /** A list that is only added to stays compact. */
  lemma AddKeepsCompact(cs: Chunks, v: nat, capacity: nat)
    requires WellFormed(cs, capacity) && v != 0 && capacity > 0 && Compact(cs)
    ensures Compact(Added(cs, v, capacity))
  {
    var t := Added(cs, v, capacity);
    HoleMovesOn(cs, v, capacity);
    FrontGrows(cs, v, capacity);
    AddAppends(cs, v, capacity);
    AddInserts(cs, v, capacity);
    CompactByCount(t);
  }

  lemma CompactByCount(cs: Chunks)
    requires ChunkWith(cs, 0) < |cs| && |Front(cs, 0)| >= |Contents(cs)|
    ensures Compact(cs)
  {
    ReplacedSplits(cs, 0, 0);
  }

  lemma FrontGrows(cs: Chunks, v: nat, capacity: nat)
    requires WellFormed(cs, capacity) && v != 0 && capacity > 0
    ensures ChunkWith(cs, 0) < |cs| && ChunkWith(Added(cs, v, capacity), 0) < |Added(cs, v, capacity)|
    ensures |Front(Added(cs, v, capacity), 0)| >= |Front(cs, 0)| + 1
  {
    var t := Added(cs, v, capacity);
    HoleMovesOn(cs, v, capacity);
    var k, i := ChunkWith(cs, 0), FirstIn(cs[ChunkWith(cs, 0)], 0);
    var k' := ChunkWith(t, 0);
    assert t[..k] == cs[..k] && t[k][..i] == cs[k][..i];
    BeforeGrows(t, k, i, k', FirstIn(t[k'], 0));
  }

  lemma HoleMovesOn(cs: Chunks, v: nat, capacity: nat)
    requires WellFormed(cs, capacity) && v != 0 && capacity > 0
    ensures var t, k := Added(cs, v, capacity), ChunkWith(cs, 0);
            && ChunkWith(t, 0) < |t| && k < |cs| && k <= ChunkWith(t, 0) && t[k][FirstIn(cs[k], 0)] == v
            && (ChunkWith(t, 0) == k ==> FirstIn(cs[k], 0) < FirstIn(t[k], 0))
  {
    HoleExists(cs, capacity);
    AddKeepsShape(cs, v, capacity);
    var t := Added(cs, v, capacity);
    HoleExists(t, capacity);
    var k, i := ChunkWith(cs, 0), FirstIn(cs[ChunkWith(cs, 0)], 0);
    assert forall j {:trigger cs[j]} :: 0 <= j < k ==> t[j] == cs[j];
    assert forall j {:trigger t[k][j]} :: 0 <= j < i ==> t[k][j] == cs[k][..i][j];
  }

  /** The list after adding the entries in turn. */
  function AddedAll(cs: Chunks, vs: seq<nat>, capacity: nat): (r: Chunks)
    requires WellFormed(cs, capacity) && capacity > 0 && 0 !in vs
    ensures WellFormed(r, capacity)
    decreases |vs|
  {
    if vs == [] then cs
    else
      AddKeepsShape(cs, vs[0], capacity);
      AddedAll(Added(cs, vs[0], capacity), vs[1..], capacity)
  }

  lemma FirstThenRest(before: seq<nat>, vs: seq<nat>)
    requires vs != []
    ensures before + [vs[0]] + vs[1..] == before + vs
  {
    assert [vs[0]] + vs[1..] == vs;
  }

  lemma EmptyIsCompact(capacity: nat)
    requires capacity > 0
    ensures Contents([Zeros(capacity)]) == [] && Compact([Zeros(capacity)])
  {
    ZerosEmpty(capacity);
    assert Zeros(capacity)[0] == 0;
    HoleExists([Zeros(capacity)], capacity);
    CompactByCount([Zeros(capacity)]);
  }

  /** A list that is only added to holds its entries in the order of the adds, so the index of an
      entry never changes. */
  lemma {:induction false} AddsKeepOrder(cs: Chunks, vs: seq<nat>, capacity: nat)
    requires WellFormed(cs, capacity) && capacity > 0 && 0 !in vs && Compact(cs)
    ensures Contents(AddedAll(cs, vs, capacity)) == Contents(cs) + vs
    decreases |vs|
  {
    if vs != [] {
      AddKeepsShape(cs, vs[0], capacity);
      AddAppends(cs, vs[0], capacity);
      AddKeepsCompact(cs, vs[0], capacity);
      AddsKeepOrder(Added(cs, vs[0], capacity), vs[1..], capacity);
      FirstThenRest(Contents(cs), vs);
    }
  }

  // ---------------------------------------------------------------- lists that are only added to

  /** The numbers from 1 to n: the pointers that a list was given, in the order of the adds. */
  function Handles(n: nat): (r: seq<nat>)
    ensures |r| == n && forall k :: 0 <= k < n ==> r[k] == k + 1
  {
    seq(n, i => i + 1)
  }

  /** `n` entries were added to the empty list and none was removed. */
  ghost predicate OnlyAdded(cs: Chunks, n: nat, capacity: nat) {
    WellFormed(cs, capacity) && Compact(cs) && Contents(cs) == Handles(n)
  }

  lemma NoneAdded(capacity: nat)
    requires capacity > 0
    ensures OnlyAdded([Zeros(capacity)], 0, capacity)
  {
    EmptyIsCompact(capacity);
    assert Zeros(capacity)[0] == 0;
  }

  /** The index of the entry that was added last is the number of entries before. */
  lemma OneMoreAdded(cs: Chunks, n: nat, capacity: nat)
    requires OnlyAdded(cs, n, capacity) && capacity > 0
    ensures WellFormed(cs, capacity)
    ensures var t := Added(cs, n + 1, capacity); OnlyAdded(t, n + 1, capacity) && IndexOf(t, n + 1) == n
  {
    hide WellFormed, Compact, Added, IndexOf;
    var t := Added(cs, n + 1, capacity);
    AddKeepsShape(cs, n + 1, capacity);
    AddKeepsCompact(cs, n + 1, capacity);
    AddAppends(cs, n + 1, capacity);
    assert Handles(n) + [n + 1] == Handles(n + 1);
    LastHandle(t, n);
  }

  lemma LastHandle(cs: Chunks, n: nat)
    requires Contents(cs) == Handles(n + 1)
    ensures IndexOf(cs, n + 1) == n
  {
    hide IndexOf;
    assert Handles(n + 1)[n] == n + 1;
    IndexOfIsFirst(cs, n + 1);
  }

  /** A remove takes out the first occurrence and nothing else. */
  lemma RemoveTakesFirst(cs: Chunks, v: nat)
    requires v in Contents(cs) && v != 0
    ensures ChunkWith(cs, v) < |cs| && v !in Front(cs, v)
    ensures Contents(cs) == Front(cs, v) + [v] + Back(cs, v)
    ensures Contents(Removed(cs, v)) == Front(cs, v) + Back(cs, v)
  {
    ChunkWithEntry(cs, v);
    ReplacedSplits(cs, v, 0);
    OneNone(Front(cs, v), Back(cs, v));
  }

  lemma ChunkWithEntry(cs: Chunks, v: nat)
    requires v in Contents(cs) && v != 0
    ensures ChunkWith(cs, v) < |cs| && v !in Front(cs, v)
  {
    var k := ChunkWith(cs, v);
    NotInFront(cs, v, k);
    assert cs[..|cs|] == cs;
    assert k < |cs|;
    FilledHas(cs[k][..FirstIn(cs[k], v)], v);
  }

  lemma RemoveOfAbsent(cs: Chunks, v: nat)
    requires v !in Contents(cs) && v != 0
    ensures Removed(cs, v) == cs
  {
    if ChunkWith(cs, v) < |cs| {
      FoundIsIn(cs, v);
    }
  }

  lemma FoundIsIn(cs: Chunks, v: nat)
    requires ChunkWith(cs, v) < |cs| && v != 0
    ensures v in Contents(cs)
  {
    ReplacedSplits(cs, v, 0);
    assert v in One(v);
  }

  /** The `used` counter is eight bits wide. */
  function Used(c: seq<nat>): nat {
    |Filled(c)| % 256
  }

  /** The counter one up and one down. */
  function Up(n: nat): (r: nat)
    ensures n < 255 ==> r == n + 1
  {
    (n + 1) % 256
  }

  function Down(n: nat): (r: nat)
    ensures 0 < n < 256 ==> r == n - 1
  {
    (n + 255) % 256
  }

  /** A full chunk is recognised by its counter exactly when the capacity fits the counter. */
  lemma FullIsSeenIff(capacity: nat)
    ensures capacity < 256 <==>
            forall c: seq<nat> :: |c| == capacity ==> (Used(c) == capacity <==> 0 !in c)
  {
    if capacity >= 256 {
      var c := seq(capacity, _ => 1);
      assert 0 !in c && |c| == capacity;
      assert Used(c) != capacity;
    }
  }

  /** The result of alist_get_index: the number of entries before the first slot with `v`. */
  function IndexOf(cs: Chunks, v: nat): int {
    if ChunkWith(cs, v) == |cs| then -1 else |Front(cs, v)|
  }

  lemma IndexOfIsFirst(cs: Chunks, v: nat)
    requires v != 0
    ensures IndexOf(cs, v) == -1 <==> v !in Contents(cs)
    ensures v in Contents(cs) ==>
              && 0 <= IndexOf(cs, v) < |Contents(cs)| && Contents(cs)[IndexOf(cs, v)] == v
              && v !in Contents(cs)[..IndexOf(cs, v)]
  {
    if v in Contents(cs) {
      RemoveTakesFirst(cs, v);
      assert Contents(cs)[..|Front(cs, v)|] == Front(cs, v);
    } else if ChunkWith(cs, v) < |cs| {
      FoundIsIn(cs, v);
    }
  }

  /** The entry at slot i of chunk k is entry |Before(cs, k, i)|, and writing it changes just that one. */
  lemma SlotIsEntry(cs: Chunks, k: nat, i: nat, v: nat)
    requires k < |cs| && i < |cs[k]| && cs[k][i] != 0 && v != 0
    ensures var n := |Before(cs, k, i)|;
            && n < |Contents(cs)| && Contents(cs)[n] == cs[k][i]
            && Contents(Written(cs, k, i, v)) == Contents(cs)[..n] + [v] + Contents(cs)[n + 1..]
  {
    WriteSplits(cs, k, i, v);
    Pick(Before(cs, k, i), cs[k][i], Behind(cs, k, i));
  }

  lemma Pick(a: seq<nat>, v: nat, b: seq<nat>)
    ensures (a + [v] + b)[..|a|] == a && (a + [v] + b)[|a| + 1..] == b
  {
  }

  // ---------------------------------------------------------------- the list in memory

  class Chunk {
    var next: Chunk?
    var used: nat
    const slots: array<nat>

    constructor (capacity: nat)
      ensures next == null && used == 0
      ensures fresh(slots) && slots.Length == capacity && slots[..] == Zeros(capacity)
    {
      next, used := null, 0;
      slots := new nat[capacity](_ => 0);
      new;
      assert slots[..] == Zeros(capacity);
    }
  }

  class AList {
    const capacity: nat
    const head: Chunk
    ghost var chunks: seq<Chunk>
    /** The slots of all chunks. */
    ghost var value: Chunks

    ghost function Arrays(): set<object>
      reads this
    {
      set c | c in chunks :: c.slots
    }

    ghost predicate ValidChunk(k: nat)
      requires |value| == |chunks| && k < |chunks|
      reads this, chunks, Arrays()
    {
      var c := chunks[k];
      && c.slots[..] == value[k] && c.used == |Filled(value[k])|
      && c.next == if k + 1 < |chunks| then chunks[k + 1] else null
    }

    ghost predicate Valid()
      reads this, chunks, Arrays()
    {
      0 < capacity < 256 && WellFormed(value, capacity) && Linked()
    }

    /** The chunks in memory are those of `value`, in that order. */
    ghost predicate Linked()
      reads this, chunks, Arrays()
    {
      && |value| == |chunks| && chunks != [] && head == chunks[0]
      && (forall k {:trigger value[k]} :: 0 <= k < |value| ==> |value[k]| == capacity)
      && (forall k {:trigger ValidChunk(k)} :: 0 <= k < |chunks| ==> ValidChunk(k))
      && (forall j, k :: 0 <= j < k < |chunks| ==> chunks[j] != chunks[k] && chunks[j].slots != chunks[k].slots)
    }

    lemma ChunkAt(k: nat)
      requires Linked() && k < |chunks|
      ensures ValidChunk(k)
    {
    }

    constructor (size: nat)
      requires 0 < size < 256
      ensures Valid() && fresh(chunks) && fresh(Arrays())
      ensures capacity == size && value == [Zeros(size)] && Contents(value) == []
    {
      capacity := size;
      var first := new Chunk(size);
      head := first;
      chunks := [first];
      value := [Zeros(size)];
      new;
      ZerosEmpty(size);
      assert Zeros(size)[0] == 0;
      assert ValidChunk(0);
    }

    /** The loops of alist_get_by_index and alist_set: to entry number `index`, null if there is none. */
    method Locate(index: nat) returns (cur: Chunk?, ghost k: nat, i: nat)
      requires Valid()
      ensures Valid() && (cur == null <==> index >= |Contents(value)|)
      ensures cur != null ==>
                && k < |chunks| && cur == chunks[k] && i < capacity
                && value[k][i] != 0 && index == |Before(value, k, i)|
    {
      var j := 0;
      cur, k, i := head, 0, 0;
      while cur != null
        invariant k <= |chunks| && cur == (if k < |chunks| then chunks[k] else null)
        invariant j == |Contents(value[..k])| && j <= index && Valid()
        decreases |chunks| - k
      {
        ChunkAt(k);
        i := 0;
        while i < capacity
          invariant Valid() && i <= capacity && j == |Before(value, k, i)| && j <= index
        {
          BeforeNext(value, k, i);
          if cur.slots[i] != 0 {
            if j == index {
              SlotIsEntry(value, k, i, 1);
              return;
            }
            j := j + 1;
          }
          i := i + 1;
        }
        BeforeNextChunk(value, k);
        cur := cur.next;
        k := k + 1;
      }
      assert value[..k] == value;
    }

    /** alist_get_by_index. */
    method GetByIndex(index: nat) returns (r: nat)
      requires Valid()
      ensures Valid() && r == if index < |Contents(value)| then Contents(value)[index] else 0
    {
      var cur, k, i := Locate(index);
      if cur == null {
        return 0;
      }
      SlotIsEntry(value, k, i, 1);
      ChunkAt(k);
      return cur.slots[i];
    }

    /** alist_get_index. */
    method GetIndex(entry: nat) returns (r: int)
      requires Valid()
      ensures Valid() && r == IndexOf(value, entry)
    {
      var cur: Chunk?, j := head, 0;
      ghost var k := 0;
      while cur != null
        invariant 0 <= k <= |chunks| && cur == (if k < |chunks| then chunks[k] else null)
        invariant j == |Contents(value[..k])| && k <= ChunkWith(value, entry) && Valid()
        decreases |chunks| - k
      {
        ChunkAt(k);
        var i := 0;
        while i < capacity
          invariant Valid() && 0 <= i <= capacity && j == |Before(value, k, i)| && entry !in value[k][..i]
        {
          BeforeNext(value, k, i);
          if cur.slots[i] == entry {
            FirstHere(value, k, i, entry);
            return j;
          } else if cur.slots[i] != 0 {
            j := j + 1;
          }
          i := i + 1;
        }
        BeforeNextChunk(value, k);
        NotHere(value, k, entry);
        cur := cur.next;
        k := k + 1;
      }
      return -1;
    }

    /** alist_get_entry_n. */
    method EntryN() returns (n: nat)
      requires Valid()
      ensures Valid() && n == |Contents(value)|
    {
      var cur: Chunk? := head;
      n := 0;
      ghost var k := 0;
      while cur != null
        invariant 0 <= k <= |chunks| && cur == (if k < |chunks| then chunks[k] else null)
        invariant n == |Contents(value[..k])| && Valid()
        decreases |chunks| - k
      {
        ChunkAt(k);
        BeforeNextChunk(value, k);
        assert value[k][..capacity] == value[k];
        n := n + cur.used;
        cur := cur.next;
        k := k + 1;
      }
      assert value[..k] == value;
    }

    /** A full chunk is not the last. */
    lemma NextAfterFull(k: nat)
      requires Valid() && k < |chunks| && chunks[k].used == capacity && k <= ChunkWith(value, 0)
      ensures k + 1 < |chunks| && ValidChunk(k) && ValidChunk(k + 1) && k + 1 <= ChunkWith(value, 0)
    {
      ChunkAt(k);
      assert |value[k]| == capacity && 0 !in value[k];
      assert k != |value| - 1;
      ChunkAt(k + 1);
    }

    /** One slot and the counter of its chunk, which is eight bits wide, are written. */
    method WriteSlot(cur: Chunk, ghost k: nat, i: nat, v: nat, used: nat)
      requires Linked() && k < |chunks| && cur == chunks[k] && i < capacity
      requires used == |Filled(Written(value, k, i, v)[k])|
      modifies this`value, cur`used, cur.slots
      ensures Linked() && value == Written(old(value), k, i, v)
    {
      forall j | 0 <= j < |chunks|
        ensures ValidChunk(j)
      {
        ChunkAt(j);
      }
      assert |value[k]| == capacity && ValidChunk(k);
      cur.slots[i] := v;
      cur.used := used;
      value := Written(value, k, i, v);
      forall j | 0 <= j < |chunks|
        ensures ValidChunk(j)
      {
        assert old(ValidChunk(j));
      }
    }

    /** The first loop of alist_add: to the first chunk that is not full. */
    method FirstWithRoom() returns (cur: Chunk, ghost k: nat)
      requires Valid()
      ensures Valid() && k == ChunkWith(value, 0) && k < |chunks| && cur == chunks[k]
    {
      cur, k := head, 0;
      ChunkAt(0);
      while cur.used == capacity
        invariant Valid() && k < |chunks| && cur == chunks[k] && ValidChunk(k) && k <= ChunkWith(value, 0)
        decreases |chunks| - k
      {
        NextAfterFull(k);
        cur := cur.next;
        k := k + 1;
      }
      assert 0 in value[k];
    }

    /** Its second loop: to the first empty slot of that chunk. */
    method FirstEmpty(cur: Chunk, ghost k: nat) returns (i: nat)
      requires Valid() && k < |chunks| && cur == chunks[k] && 0 in value[k]
      ensures Valid() && i < capacity && i == FirstIn(value[k], 0)
    {
      i := 0;
      ChunkAt(k);
      while i < capacity
        invariant Valid() && ValidChunk(k) && i <= FirstIn(value[k], 0)
      {
        if cur.slots[i] == 0 {
          assert value[k][i] == 0;
          return;
        }
        assert value[k][i] != 0;
        i := i + 1;
      }
      assert false;
    }

    /** alist_add. */
    method Add(v: nat)
      requires Valid() && v != 0
      modifies this`chunks, this`value, chunks, Arrays()
      ensures Valid() && value == Added(old(value), v, capacity)
      ensures forall c :: c in chunks ==> c in old(chunks) || fresh(c)
    {
      hide Up, Down;
      var cur, k := FirstWithRoom();
      var i := FirstEmpty(cur, k);
      ChunkAt(k);
      OneSlot(value, k, i, v);
      AddKeepsShape(value, v, capacity);
      WriteSlot(cur, k, i, v, Up(cur.used));
      ChunkAt(k);
      if cur.used == capacity && cur.next == null {
        Append(cur);
      }
    }

    /** An empty chunk is linked behind the last one. */
    method Append(cur: Chunk)
      requires Linked() && cur == chunks[|chunks| - 1]
      modifies this`chunks, this`value, cur`next
      ensures Linked() && value == old(value) + [Zeros(capacity)]
      ensures fresh(chunks[|chunks| - 1]) && chunks[..|chunks| - 1] == old(chunks)
    {
      var c := new Chunk(capacity);
      ZerosEmpty(capacity);
      cur.next := c;
      value := value + [Zeros(capacity)];
      chunks := chunks + [c];
      forall j | 0 <= j < |chunks|
        ensures ValidChunk(j)
      {
        assert j < |old(chunks)| ==> old(ValidChunk(j));
      }
    }

    /** alist_remove: 0 if the entry was there, -1 otherwise. */
    method Remove(v: nat) returns (r: int)
      requires Valid() && v != 0
      modifies this`value, chunks, Arrays()
      ensures Valid() && value == Removed(old(value), v)
      ensures r == if v in Contents(old(value)) then 0 else -1
    {
      hide Up, Down;
      var cur: Chunk? := head;
      ghost var k := 0;
      while cur != null
        invariant 0 <= k <= |chunks| && cur == (if k < |chunks| then chunks[k] else null)
        invariant k <= ChunkWith(value, v) && Valid() && value == old(value)
        decreases |chunks| - k
      {
        ChunkAt(k);
        var i := 0;
        while i < capacity
          invariant Valid() && value == old(value) && 0 <= i <= capacity && v !in value[k][..i]
        {
          if cur.slots[i] == v {
            FirstHere(value, k, i, v);
            OneSlot(value, k, i, 0);
            RemoveKeepsShape(value, v, capacity);
            IndexOfIsFirst(value, v);
            WriteSlot(cur, k, i, 0, Down(cur.used));
            return 0;
          }
          i := i + 1;
        }
        NotHere(value, k, v);
        cur := cur.next;
        k := k + 1;
      }
      IndexOfIsFirst(value, v);
      return -1;
    }

    /** alist_set: 0 if there is an entry number `index`, -1 otherwise. */
    method Set(index: nat, v: nat) returns (r: int)
      requires Valid() && v != 0
      modifies this`value, chunks, Arrays()
      ensures Valid()
      ensures r == if index < |Contents(old(value))| then 0 else -1
      ensures r == 0 ==> Contents(value) == Contents(old(value))[..index] + [v] + Contents(old(value))[index + 1..]
      ensures r == -1 ==> value == old(value)
    {
      var cur, k, i := Locate(index);
      if cur == null {
        return -1;
      }
      ChunkAt(k);
      SlotIsEntry(value, k, i, v);
      OneSlot(value, k, i, v);
      SetKeepsShape(value, k, i, v, capacity);
      WriteSlot(cur, k, i, v, cur.used);
      return 0;
    }
  }

  /** The counter after a write. */
  lemma OneSlot(cs: Chunks, k: nat, i: nat, v: nat)
    requires k < |cs| && i < |cs[k]|
    ensures |Filled(Written(cs, k, i, v)[k])| == |Filled(cs[k])| - |One(cs[k][i])| + |One(v)|
  {
    var c: seq<nat> := Written(cs, k, i, v)[k];
    FilledSplits(cs[k], i);
    FilledSplits(c, i);
    assert c[..i] == cs[k][..i] && c[i + 1..] == cs[k][i + 1..];
  }

  lemma SetKeepsShape(cs: Chunks, k: nat, i: nat, v: nat, capacity: nat)
    requires WellFormed(cs, capacity) && k < |cs| && i < |cs[k]| && cs[k][i] != 0
    ensures WellFormed(Written(cs, k, i, v), capacity)
  {
    var z :| 0 <= z < |cs[|cs| - 1]| && cs[|cs| - 1][z] == 0;
    assert Written(cs, k, i, v)[|cs| - 1][z] == 0;
  }

  lemma FirstHere(cs: Chunks, k: nat, i: nat, v: nat)
    requires k < |cs| && i < |cs[k]| && cs[k][i] == v && v !in cs[k][..i] && k <= ChunkWith(cs, v)
    ensures ChunkWith(cs, v) == k && FirstIn(cs[k], v) == i
  {
    assert v in cs[k];
    assert forall j {:trigger cs[k][j]} :: 0 <= j < i ==> cs[k][..i][j] == cs[k][j];
  }

  lemma NotHere(cs: Chunks, k: nat, v: nat)
    requires k < |cs| && v !in cs[k][..|cs[k]|] && k <= ChunkWith(cs, v)
    ensures k < ChunkWith(cs, v)
  {
    assert cs[k][..|cs[k]|] == cs[k];
  }
}
