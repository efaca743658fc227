/** The physical memory manager of src/kernel/mm/pmm.c: a stack of frame addresses that
    pmm_init fills from the memory map and that grows down again when frames are freed. */
module Pmm {
  import opened Basics

  const PAGE_SIZE: nat := 0x1000

  /** One region of the multiboot memory map. */
  datatype Region = Region(base: nat, length: nat, kind: nat)

  function AlignedBase(base: nat): nat {
    (base + 0xfff) / PAGE_SIZE * PAGE_SIZE
  }

  /** length & 0xfffff000: rounded down to pages, and cut to 32 bits. */
  function MaskedLength(length: nat): nat {
    length % 0x1_0000_0000 / PAGE_SIZE * PAGE_SIZE
  }

  /** The addresses from `addr` up to `end` in steps of a page. */
  function Addresses(addr: nat, end: nat): seq<nat>
    decreases end - addr
  {
    if addr < end then [addr] + Addresses(addr + PAGE_SIZE, end) else []
  }

  function RegionFrames(r: Region): seq<nat> {
    if r.kind == 1 then Addresses(AlignedBase(r.base), AlignedBase(r.base) + MaskedLength(r.length)) else []
  }

  function AllFrames(regions: seq<Region>): seq<nat> {
    if regions == [] then [] else AllFrames(regions[..|regions| - 1]) + RegionFrames(regions[|regions| - 1])
  }

  /** The usable regions of the map come in ascending order and do not overlap. */
  predicate Ascending(regions: seq<Region>) {
    forall i, j :: 0 <= i < j < |regions| && regions[i].kind == 1 && regions[j].kind == 1 ==>
      regions[i].base + regions[i].length <= regions[j].base
  }

  lemma {:induction false} AddressesExact(addr: nat, end: nat)
    requires addr % PAGE_SIZE == 0
    ensures Distinct(Addresses(addr, end))
    ensures forall a: nat :: a in Addresses(addr, end) <==> addr <= a < end && a % PAGE_SIZE == 0
    decreases end - addr
  {
    if addr < end {
      AddressesExact(addr + PAGE_SIZE, end);
      DistinctConcat([addr], Addresses(addr + PAGE_SIZE, end));
    }
  }

  predicate InRegion(r: Region, a: nat) {
    r.kind == 1 && AlignedBase(r.base) <= a < AlignedBase(r.base) + MaskedLength(r.length)
  }

  lemma RegionExact(r: Region)
    ensures Distinct(RegionFrames(r))
    ensures forall a: nat :: a in RegionFrames(r) <==> a % PAGE_SIZE == 0 && InRegion(r, a)
  {
    AddressesExact(AlignedBase(r.base), AlignedBase(r.base) + MaskedLength(r.length));
  }

  lemma RegionsApart(r: Region, s: Region, a: nat)
    requires r.kind == 1 && s.kind == 1 ==> r.base + r.length <= s.base
    requires InRegion(r, a) && a % PAGE_SIZE == 0
    ensures !InRegion(s, a)
  {
    assert MaskedLength(r.length) <= r.length;
    assert AlignedBase(r.base) + MaskedLength(r.length) <= AlignedBase(r.base + r.length);
  }

  /** Every frame is stacked once, and the stacked frames are the page-aligned addresses from
      each usable base up, as many whole pages as the region is long. */
  lemma {:induction false} FramesDistinct(regions: seq<Region>)
    requires Ascending(regions)
    ensures Distinct(AllFrames(regions))
    ensures forall a: nat :: a in AllFrames(regions) <==>
              a % PAGE_SIZE == 0 && exists i :: 0 <= i < |regions| && InRegion(regions[i], a)
  {
    if regions != [] {
      hide RegionFrames, InRegion, Distinct;
      var last := |regions| - 1;
      var before := regions[..last];
      FramesDistinct(before);
      RegionExact(regions[last]);
      forall a: nat | a in AllFrames(before)
        ensures a !in RegionFrames(regions[last])
      {
        var i :| 0 <= i < |before| && InRegion(before[i], a);
        RegionsApart(regions[i], regions[last], a);
      }
      DistinctConcat(AllFrames(before), RegionFrames(regions[last]));
      forall a: nat
        ensures a in AllFrames(regions) <==>
                  a % PAGE_SIZE == 0 && exists i :: 0 <= i < |regions| && InRegion(regions[i], a)
      {
        InSomeRegion(regions, a);
      }
    }
  }

  /** An address lies in some region if it does in the last one or in one before. */
  lemma InSomeRegion(regions: seq<Region>, a: nat)
    requires regions != []
    ensures var before := regions[..|regions| - 1];
            (exists i :: 0 <= i < |regions| && InRegion(regions[i], a)) <==>
            InRegion(regions[|regions| - 1], a) || exists i :: 0 <= i < |before| && InRegion(before[i], a)
  {
    var before := regions[..|regions| - 1];
    if i :| 0 <= i < |before| && InRegion(before[i], a) {
      assert InRegion(regions[i], a);
    }
    if i :| 0 <= i < |before| && InRegion(regions[i], a) {
      assert InRegion(before[i], a);
    }
  }

  // ---------------------------------------------------------------- by base and length

  /** Counted from the first page boundary at or above the base, the page at `a` lies in the first `length` bytes. */
  ghost predicate WholePage(base: nat, length: nat, a: nat) {
    exists first: nat :: IsFirstPage(base, first) && first <= a && a + 0x1000 <= first + length
  }

  predicate IsFirstPage(base: nat, first: nat) {
    first % 0x1000 == 0 && base <= first < base + 0x1000
  }

  ghost predicate HasPage(r: Region, a: nat) {
    r.kind == 1 && WholePage(r.base, r.length % 0x1_0000_0000, a)
  }

  lemma FirstPage(base: nat)
    ensures IsFirstPage(base, AlignedBase(base))
    ensures forall f: nat :: IsFirstPage(base, f) ==> f == AlignedBase(base)
  {
    forall f: nat | IsFirstPage(base, f)
      ensures f == AlignedBase(base)
    {
      OneBoundary(base, f, AlignedBase(base));
    }
  }

  lemma OneBoundary(base: nat, f: nat, g: nat)
    requires IsFirstPage(base, f) && IsFirstPage(base, g)
    ensures f == g
  {
  }

  lemma RoundedDown(d: nat, length: nat)
    requires d % 0x1000 == 0
    ensures d < length / PAGE_SIZE * PAGE_SIZE <==> d + 0x1000 <= length
  {
  }

  /** The pages of one region. */
  lemma PageOfRegion(r: Region, a: nat)
    requires a % 0x1000 == 0
    ensures a in RegionFrames(r) <==> HasPage(r, a)
  {
    RegionExact(r);
    FirstPage(r.base);
    var first := AlignedBase(r.base);
    if a >= first {
      RoundedDown(a - first, r.length % 0x1_0000_0000);
    }
  }

  predicate Gives(r: Region, a: nat) {
    a in RegionFrames(r)
  }

  lemma {:induction false} InSomeFrames(regions: seq<Region>, a: nat)
    ensures a in AllFrames(regions) <==> exists i :: 0 <= i < |regions| && Gives(regions[i], a)
  {
    if regions != [] {
      hide RegionFrames;
      InSomeFrames(regions[..|regions| - 1], a);
      GivesBefore(regions, a);
    }
  }

  lemma GivesBefore(regions: seq<Region>, a: nat)
    requires regions != []
    ensures var before := regions[..|regions| - 1];
            (exists i :: 0 <= i < |regions| && Gives(regions[i], a)) <==>
            Gives(regions[|regions| - 1], a) || exists i :: 0 <= i < |before| && Gives(before[i], a)
  {
    hide Gives;
    var before := regions[..|regions| - 1];
    if i :| 0 <= i < |before| && Gives(before[i], a) {
      assert Gives(regions[i], a);
    }
    if i :| 0 <= i < |before| && Gives(regions[i], a) {
      assert Gives(before[i], a);
    }
  }

  /** What pmm_init stacks: exactly the whole pages of the usable regions, of each no more than its length
      modulo 2^32. */
  lemma StackedIff(regions: seq<Region>, a: nat)
    ensures a in AllFrames(regions) <==>
            a % 0x1000 == 0 && exists i :: 0 <= i < |regions| && HasPage(regions[i], a)
  {
    FramesAligned(regions);
    InSomeFrames(regions, a);
    if a % 0x1000 == 0 {
      forall i | 0 <= i < |regions|
        ensures Gives(regions[i], a) <==> HasPage(regions[i], a)
      {
        PageOfRegion(regions[i], a);
      }
    }
  }

  /** No whole page of a usable region is left out exactly if the region is shorter than 4 GiB. */
  lemma NoneLeftOutIff(r: Region)
    requires r.kind == 1
    ensures (forall a: nat {:trigger WholePage(r.base, r.length, a)} ::
              a % 0x1000 == 0 && WholePage(r.base, r.length, a) ==> a in RegionFrames(r))
            <==> r.length < 0x1_0000_0000
  {
    FirstPage(r.base);
    if r.length < 0x1_0000_0000 {
      forall a: nat | a % 0x1000 == 0 && WholePage(r.base, r.length, a)
        ensures a in RegionFrames(r)
      {
        PageOfRegion(r, a);
      }
    } else {
      var a := AlignedBase(r.base) + MaskedLength(r.length);
      assert IsFirstPage(r.base, AlignedBase(r.base)) && a + 0x1000 <= AlignedBase(r.base) + r.length;
      RegionExact(r);
      assert WholePage(r.base, r.length, a) && a !in RegionFrames(r);
    }
  }

  /** A region of exactly 4 GiB gives no frame at all. */
  lemma LongRegionGivesNone(base: nat)
    ensures AllFrames([Region(base, 0x1_0000_0000, 1)]) == []
  {
    var r := Region(base, 0x1_0000_0000, 1);
    assert [r][..0] == [] && MaskedLength(0x1_0000_0000) == 0;
  }

  class FrameStack {
    var stack: array<nat>
    var ptr: nat

    ghost predicate Valid()
      reads this, stack
    {
      ptr <= stack.Length && forall i :: ptr <= i < stack.Length ==> stack[i] % PAGE_SIZE == 0
    }

    /** The free frames, the next one to be handed out first. */
    ghost function Free(): (f: seq<nat>)
      requires Valid()
      reads this, stack
    {
      seq(stack.Length - ptr, i requires 0 <= i < stack.Length - ptr reads this, stack => stack[ptr + i] / PAGE_SIZE)
    }

    /** The stack as pmm_init leaves it: the map ends with the array, below `room` slots stay for frees. */
    constructor (regions: seq<Region>, room: nat)
      ensures Valid() && fresh(stack) && ptr == room
      ensures stack[room..] == AllFrames(regions)
    {
      var a := new nat[room + |AllFrames(regions)|];
      Fill(a, room, regions);
      FramesAligned(regions);
      assert forall i :: room <= i < a.Length ==> a[i] == a[room..][i - room];
      stack, ptr := a, room;
    }

    /** The fill loop over the regions of the map. */
    static method Fill(a: array<nat>, room: nat, regions: seq<Region>)
      requires a.Length == room + |AllFrames(regions)|
      modifies a
      ensures a[room..] == AllFrames(regions)
    {
      var top := room;
      assert regions[..|regions|] == regions;
      for k := 0 to |regions|
        invariant top == room + |AllFrames(regions[..k])| <= a.Length
        invariant a[room..top] == AllFrames(regions[..k])
      {
        AllFramesStep(regions, k);
        top := PushRegion(a, room, top, regions[k]);
      }
      assert a[room..top] == a[room..];
    }

    static method PushRegion(a: array<nat>, room: nat, first: nat, r: Region) returns (top: nat)
      requires room <= first && first + |RegionFrames(r)| <= a.Length
      modifies a
      ensures top == first + |RegionFrames(r)|
      ensures a[room..top] == old(a[room..first]) + RegionFrames(r)
    {
      top := first;
      if r.kind == 1 {
        hide AlignedBase, MaskedLength;
        var addr := AlignedBase(r.base);
        var end := addr + MaskedLength(r.length);
        while addr < end
          invariant first <= top && top + |Addresses(addr, end)| == first + |RegionFrames(r)|
          invariant a[room..top] + Addresses(addr, end) == old(a[room..first]) + RegionFrames(r)
          decreases end - addr
        {
          ghost var was := a[room..top];
          OneMoreAddress(was, addr, end);
          a[top] := addr;
          assert a[room..top + 1] == was + [addr];
          top := top + 1;
          addr := addr + PAGE_SIZE;
        }
      }
    }

    method Malloc4k() returns (page: nat)
      requires Valid() && Free() != []
      modifies this`ptr
      ensures Valid()
      ensures page == old(Free())[0] && Free() == old(Free())[1..]
    {
      var addr := stack[ptr];
      ptr := ptr + 1;
      page := addr / 0x1000;
    }

    method Free4k(page: nat)
      requires Valid() && ptr > 0
      modifies this`ptr, stack
      ensures Valid()
      ensures Free() == [page] + old(Free())
    {
      ptr := ptr - 1;
      stack[ptr] := page * 0x1000;
    }
  }

  lemma OneMoreAddress(was: seq<nat>, addr: nat, end: nat)
    requires addr < end
    ensures was + Addresses(addr, end) == (was + [addr]) + Addresses(addr + PAGE_SIZE, end)
    ensures |Addresses(addr, end)| == 1 + |Addresses(addr + PAGE_SIZE, end)|
  {
  }

  lemma {:induction false} FramesAligned(regions: seq<Region>)
    ensures forall i :: 0 <= i < |AllFrames(regions)| ==> AllFrames(regions)[i] % PAGE_SIZE == 0
  {
    if regions != [] {
      var r := regions[|regions| - 1];
      FramesAligned(regions[..|regions| - 1]);
      AddressesExact(AlignedBase(r.base), AlignedBase(r.base) + MaskedLength(r.length));
      assert forall i :: 0 <= i < |RegionFrames(r)| ==> RegionFrames(r)[i] in RegionFrames(r);
    }
  }

  lemma AllFramesStep(regions: seq<Region>, k: nat)
    requires k < |regions|
    ensures AllFrames(regions[..k + 1]) == AllFrames(regions[..k]) + RegionFrames(regions[k])
    ensures |AllFrames(regions[..k + 1])| <= |AllFrames(regions)|
  {
    assert regions[..k + 1][..k] == regions[..k];
    FramesGrow(regions, k + 1);
  }

  lemma {:induction false} FramesGrow(regions: seq<Region>, k: nat)
    requires k <= |regions|
    ensures |AllFrames(regions[..k])| <= |AllFrames(regions)|
    decreases |regions| - k
  {
    if k == |regions| {
      assert regions[..k] == regions;
    } else {
      FramesGrow(regions, k + 1);
      assert regions[..k + 1][..k] == regions[..k];
    }
  }
}
