/** The files of src/usr/Daemons/VFS/FS/tmpFS/tmpfs.cpp: twelve direct blocks and one indirect block
    (read_from_node and write_to_node, with the 64-bit constants). */
module BlockFile {

  /** C's char. */
  type Byte = char

  const PAGE_SIZE: nat := 4096
  const DIRECT: nat := 12
  /** PAGE_SIZE / sizeof(char*) */
  const POINTERS: nat := 512
  /** The block numbers that pass the test at lines 285 and 329. */
  const BLOCKS: nat := 523
  const CAPACITY: nat := 2142208
  /** Block numbers are 32-bit, so offsets repeat from here on. */
  const WRAP: nat := 0x1000_0000_0000

  datatype Block = Absent | Page(bytes: seq<Byte>)

  datatype File = File(direct: seq<Block>, indirect: seq<Block>, size: nat) {
    /** An empty `indirect` is a missing indirect block. */
    predicate Valid() {
      && |direct| == DIRECT && (indirect == [] || |indirect| == POINTERS)
      && (forall k {:trigger direct[k]} :: 0 <= k < |direct| ==> Whole(direct[k]))
      && (forall k {:trigger indirect[k]} :: 0 <= k < |indirect| ==> Whole(indirect[k]))
    }
  }

  predicate Whole(b: Block) {
    b.Page? ==> |b.bytes| == PAGE_SIZE
  }

  /** Block `b` of a file. */
  function BlockAt(f: File, b: nat): (r: Block)
    requires f.Valid()
    ensures Whole(r)
  {
    if b < DIRECT then f.direct[b]
    else if b < BLOCKS && f.indirect != [] then f.indirect[b - DIRECT]
    else Absent
  }

  /** The file as a flat array: byte `i`, zero where there is no block. */
  function ByteAt(f: File, i: nat): Byte
    requires f.Valid()
  {
    var b := BlockAt(f, i / PAGE_SIZE);
    if b.Page? then b.bytes[i % PAGE_SIZE] else '\0'
  }

  predicate Present(f: File, i: nat)
    requires f.Valid()
  {
    BlockAt(f, i / PAGE_SIZE).Page?
  }

  /** Where byte `i` of a file is: twelve direct blocks of 4096 bytes, 511 more behind the indirect block. */
  lemma ByteLayout(f: File, i: nat)
    requires f.Valid()
    ensures var b := if i < 49152 then f.direct[i / 4096]
                     else if i < 2142208 && f.indirect != [] then f.indirect[i / 4096 - 12]
                     else Absent;
            && (Present(f, i) <==> b.Page?)
            && ByteAt(f, i) == if b.Page? then b.bytes[i % 4096] else '\0'
  {
  }

  function NoBytes(n: nat): (r: seq<Byte>)
    ensures |r| == n && forall k :: 0 <= k < n ==> r[k] == '\0'
  {
    seq(n, _ => '\0')
  }

  function NoBlocks(): (r: seq<Block>)
    ensures |r| == POINTERS && forall k :: 0 <= k < POINTERS ==> r[k] == Absent
  {
    seq(POINTERS, _ => Absent)
  }

  // ---------------------------------------------------------------- one block

  /** Block `b` given the contents `page`; a missing indirect block is made. */
  function SetBlock(f: File, b: nat, page: seq<Byte>): (r: File)
    requires f.Valid() && b < BLOCKS && |page| == PAGE_SIZE
    ensures r.Valid() && r.size == f.size
    ensures forall c {:trigger BlockAt(r, c)} :: BlockAt(r, c) == if c == b then Page(page) else BlockAt(f, c)
  {
    if b < DIRECT then f.(direct := f.direct[b := Page(page)])
    else
      var indirect := if f.indirect == [] then NoBlocks() else f.indirect;
      f.(indirect := indirect[b - DIRECT := Page(page)])
  }

  /** What a write of `buf` at `at` has to make of byte i when `n` of its bytes are written. */
  function Expected(f: File, buf: seq<Byte>, at: nat, n: nat, i: nat): Byte
    requires f.Valid() && n <= |buf|
  {
    if at <= i < at + n then buf[i - at] else ByteAt(f, i)
  }

  predicate ByteWritten(f: File, g: File, buf: seq<Byte>, at: nat, n: nat, i: nat)
    requires f.Valid() && g.Valid() && n <= |buf|
  {
    && ByteAt(g, i) == Expected(f, buf, at, n, i)
    && (Present(f, i) ==> Present(g, i))
    && (at <= i < at + n ==> Present(g, i))
  }

  /** `g` is `f` with the first `n` bytes of `buf` written at `at`: those bytes and no others. */
  ghost predicate Written(f: File, g: File, buf: seq<Byte>, at: nat, n: nat)
    requires f.Valid() && g.Valid() && n <= |buf|
  {
    forall i {:trigger ByteWritten(f, g, buf, at, n, i)} :: ByteWritten(f, g, buf, at, n, i)
  }

  /** The contents of block `b`, zeros if it is new. */
  function Contents(f: File, b: nat): (r: seq<Byte>)
    requires f.Valid()
    ensures |r| == PAGE_SIZE
    ensures forall o {:trigger r[o]} :: 0 <= o < PAGE_SIZE ==> r[o] == ByteAt(f, b * PAGE_SIZE + o)
  {
    var r := if BlockAt(f, b).Page? then BlockAt(f, b).bytes else NoBytes(PAGE_SIZE);
    assert forall o {:trigger r[o]} :: 0 <= o < PAGE_SIZE ==>
      && (b * PAGE_SIZE + o) / PAGE_SIZE == b && (b * PAGE_SIZE + o) % PAGE_SIZE == o;
    r
  }

  /** Copying `data` into one block at place `o`. */
  function Patched(page: seq<Byte>, o: nat, data: seq<Byte>): (r: seq<Byte>)
    requires o + |data| <= |page|
    ensures |r| == |page|
    ensures forall k {:trigger r[k]} :: 0 <= k < |page| ==> r[k] == if o <= k < o + |data| then data[k - o] else page[k]
  {
    page[..o] + data + page[o + |data|..]
  }

  /** One round of the loop of write_to_node adds its bytes to those written. */
  lemma RoundWrites(f: File, g: File, buf: seq<Byte>, at: nat, n: nat, b: nat, o: nat, k: nat, i: nat)
    requires f.Valid() && g.Valid() && n + k <= |buf| && ByteWritten(f, g, buf, at, n, i)
    requires at + n == b * PAGE_SIZE + o && o + k <= PAGE_SIZE && b < BLOCKS && k > 0
    ensures ByteWritten(f, SetBlock(g, b, Patched(Contents(g, b), o, buf[n..n + k])), buf, at, n + k, i)
  {
    var page := Patched(Contents(g, b), o, buf[n..n + k]);
    var h := SetBlock(g, b, page);
    assert BlockAt(h, i / PAGE_SIZE) == if i / PAGE_SIZE == b then Page(page) else BlockAt(g, i / PAGE_SIZE);
    if i / PAGE_SIZE == b {
      assert i == b * PAGE_SIZE + i % PAGE_SIZE;
      assert ByteAt(h, i) == page[i % PAGE_SIZE];
      assert Contents(g, b)[i % PAGE_SIZE] == ByteAt(g, i);
    }
  }

  lemma RoundWritten(f: File, g: File, buf: seq<Byte>, at: nat, n: nat, b: nat, o: nat, k: nat)
    requires f.Valid() && g.Valid() && n + k <= |buf| && Written(f, g, buf, at, n)
    requires at + n == b * PAGE_SIZE + o && o + k <= PAGE_SIZE && b < BLOCKS && k > 0
    ensures Written(f, SetBlock(g, b, Patched(Contents(g, b), o, buf[n..n + k])), buf, at, n + k)
  {
    var h := SetBlock(g, b, Patched(Contents(g, b), o, buf[n..n + k]));
    forall i: nat {:trigger ByteWritten(f, h, buf, at, n + k, i)}
      ensures ByteWritten(f, h, buf, at, n + k, i)
    {
      assert ByteWritten(f, g, buf, at, n, i);
      RoundWrites(f, g, buf, at, n, b, o, k, i);
    }
  }

  // ---------------------------------------------------------------- the arithmetic of one round

  /** min(n, CAPACITY - at), and 0 from the capacity on. */
  function Fits(n: nat, at: nat): nat {
    if at >= CAPACITY then 0 else if n <= CAPACITY - at then n else CAPACITY - at
  }

  /** The block number of a position, as an unsigned int. */
  function BlockOf(position: nat): nat {
    (position / PAGE_SIZE) % 0x1_0000_0000
  }

  lemma BlockOfWraps(position: nat)
    ensures BlockOf(position) == position % WRAP / PAGE_SIZE
    ensures position % PAGE_SIZE == position % WRAP % PAGE_SIZE
  {
    var q, r := position / WRAP, position % WRAP;
    assert position == q * WRAP + r;
    assert position / PAGE_SIZE == q * 0x1_0000_0000 + r / PAGE_SIZE;
  }

  lemma NextPosition(position: nat)
    requires position % WRAP < CAPACITY
    ensures (position / PAGE_SIZE + 1) * PAGE_SIZE % WRAP == position % WRAP + PAGE_SIZE - position % PAGE_SIZE
  {
    var next := position % WRAP + PAGE_SIZE - position % PAGE_SIZE;
    assert (position / PAGE_SIZE + 1) * PAGE_SIZE == position - position % PAGE_SIZE + PAGE_SIZE;
    assert (position / PAGE_SIZE + 1) * PAGE_SIZE == position / WRAP * WRAP + next;
    WrapOf(position / WRAP, next);
  }

  lemma WrapOf(q: nat, x: nat)
    requires x < WRAP
    ensures (q * WRAP + x) % WRAP == x
  {
  }

  function Larger(size: nat, end: nat): nat {
    if end > size then end else size
  }

  class Node {
    var direct: seq<Block>
    var indirect: seq<Block>
    var size: nat

    function Value(): File
      reads this
    {
      File(direct, indirect, size)
    }

    constructor ()
      ensures Value() == File(seq(DIRECT, _ => Absent), [], 0) && Value().Valid()
    {
      direct, indirect, size := seq(DIRECT, _ => Absent), [], 0;
    }

    /** Lines 324-350: the block is looked up, or made, and the bytes are copied into it. */
    method PutBytes(b: nat, o: nat, data: seq<Byte>)
      requires Value().Valid() && b < BLOCKS && o + |data| <= PAGE_SIZE
      modifies this`direct, this`indirect
      ensures Value() == SetBlock(old(Value()), b, Patched(Contents(old(Value()), b), o, data))
    {
      ghost var f := Value();
      var block := Absent;
      if b < DIRECT {
        block := direct[b];
      } else {
        if indirect == [] {
          indirect := NoBlocks();
        }
        block := indirect[b - DIRECT];
      }
      if block.Absent? {
        block := Page(NoBytes(PAGE_SIZE));
      }
      var page := Page(Patched(block.bytes, o, data));
      if b < DIRECT {
        direct := direct[b := page];
      } else {
        indirect := indirect[b - DIRECT := page];
      }
    }

    method WriteRound(ghost f: File, ghost at: nat, buf: seq<Byte>, n: nat, b: nat, o: nat, k: nat)
      requires Value().Valid() && f.Valid() && n + k <= |buf| && Written(f, Value(), buf, at, n)
      requires at + n == b * PAGE_SIZE + o && o + k <= PAGE_SIZE && b < BLOCKS && k > 0
      modifies this`direct, this`indirect
      ensures Value().Valid() && Written(f, Value(), buf, at, n + k)
    {
      RoundWritten(f, Value(), buf, at, n, b, o, k);
      PutBytes(b, o, buf[n..n + k]);
    }

    /** write_to_node. */
    method WriteToNode(buf: seq<Byte>, offset: nat) returns (written: nat)
      requires Value().Valid()
      modifies this
      ensures Value().Valid() && size == Larger(old(size), offset + |buf|)
      ensures written == Fits(|buf|, offset % WRAP)
      ensures Written(old(Value()), Value(), buf, offset % WRAP, written)
    {
      ghost var f := Value();
      ghost var at := offset % WRAP;
      if offset + |buf| > size {
        size := offset + |buf|;
      }
      var position: nat := offset;
      written := 0;
      while written < |buf|
        invariant Value().Valid() && size == Larger(old(size), offset + |buf|)
        invariant written <= Fits(|buf|, at)
        invariant written < |buf| ==> position % WRAP == at + written
        invariant Written(f, Value(), buf, at, written)
      {
        BlockOfWraps(position);
        var b := BlockOf(position);
        var room := PAGE_SIZE - position % PAGE_SIZE;
        var k := if room < |buf| - written then room else |buf| - written;
        if b > POINTERS + 10 {
          return;
        }
        NextPosition(position);
        WriteRound(f, at, buf, written, b, position % PAGE_SIZE, k);
        written := written + k;
        position := (position / PAGE_SIZE + 1) * PAGE_SIZE;
      }
    }

    /** read_from_node: the bytes it puts into the buffer. Reading past the size enlarges it. */
    method ReadFromNode(nbyte: nat, offset: nat) returns (buf: seq<Byte>)
      requires Value().Valid()
      modifies this`size
      ensures size == Larger(old(size), offset + nbyte)
      ensures IsRead(old(Value()), nbyte, offset % WRAP, buf)
    {
      ghost var f, at := Value(), offset % WRAP;
      if offset + nbyte > size {
        size := offset + nbyte;
      }
      var position: nat := offset;
      buf := [];
      while |buf| < nbyte
        invariant size == Larger(old(size), offset + nbyte)
        invariant |buf| <= Fits(nbyte, at) && ReadSoFar(f, at, buf)
        invariant |buf| < nbyte ==> position % WRAP == at + |buf|
      {
        BlockOfWraps(position);
        var b := BlockOf(position);
        var room := PAGE_SIZE - position % PAGE_SIZE;
        var k := if room < nbyte - |buf| then room else nbyte - |buf|;
        assert (at + |buf|) / PAGE_SIZE == b;
        assert BlockAt(f, b).Absent? ==> IsRead(f, nbyte, at, buf);
        var block := Absent;
        if b < DIRECT {
          block := direct[b];
        } else {
          if b > POINTERS + 10 {
            return;
          }
          if indirect == [] {
            return;
          }
          if indirect[b - DIRECT].Absent? {
            return;
          }
          block := indirect[b - DIRECT];
        }
        if block.Absent? {
          return;
        }
        NextPosition(position);
        RoundReads(f, at, buf, b, position % PAGE_SIZE, k);
        buf := buf + block.bytes[position % PAGE_SIZE..position % PAGE_SIZE + k];
        position := (position / PAGE_SIZE + 1) * PAGE_SIZE;
      }
    }
  }

  // ---------------------------------------------------------------- reading

  predicate ByteRead(f: File, at: nat, buf: seq<Byte>, k: nat)
    requires f.Valid() && k < |buf|
  {
    Present(f, at + k) && buf[k] == ByteAt(f, at + k)
  }

  ghost predicate ReadSoFar(f: File, at: nat, buf: seq<Byte>)
    requires f.Valid()
  {
    forall k {:trigger ByteRead(f, at, buf, k)} :: 0 <= k < |buf| ==> ByteRead(f, at, buf, k)
  }

  /** A read returns the bytes of the file up to the requested length, the capacity or the first byte
      that lies in no block. */
  ghost predicate IsRead(f: File, n: nat, at: nat, buf: seq<Byte>)
    requires f.Valid()
  {
    && |buf| <= Fits(n, at) && ReadSoFar(f, at, buf)
    && (|buf| < Fits(n, at) ==> !Present(f, at + |buf|))
  }

  lemma RoundReads(f: File, at: nat, buf: seq<Byte>, b: nat, o: nat, k: nat)
    requires f.Valid() && ReadSoFar(f, at, buf)
    requires at + |buf| == b * PAGE_SIZE + o && o + k <= PAGE_SIZE && BlockAt(f, b).Page?
    ensures ReadSoFar(f, at, buf + BlockAt(f, b).bytes[o..o + k])
  {
    var all := buf + BlockAt(f, b).bytes[o..o + k];
    forall j | 0 <= j < |all|
      ensures ByteRead(f, at, all, j)
    {
      if j < |buf| {
        assert ByteRead(f, at, buf, j);
      } else {
        InBlock(f, b, at + j);
      }
    }
  }

  lemma InBlock(f: File, b: nat, i: nat)
    requires f.Valid() && b * PAGE_SIZE <= i < (b + 1) * PAGE_SIZE && BlockAt(f, b).Page?
    ensures Present(f, i) && ByteAt(f, i) == BlockAt(f, b).bytes[i - b * PAGE_SIZE]
  {
    assert i / PAGE_SIZE == b && i % PAGE_SIZE == i - b * PAGE_SIZE;
  }

  // ---------------------------------------------------------------- what a caller relies on

  /** A read is determined by the file: there is only one possible result. */
  lemma ReadIsUnique(f: File, n: nat, at: nat, x: seq<Byte>, y: seq<Byte>)
    requires f.Valid() && IsRead(f, n, at, x) && IsRead(f, n, at, y)
    ensures x == y
  {
    NotShorter(f, n, at, x, y);
    NotShorter(f, n, at, y, x);
    forall k | 0 <= k < |x|
      ensures x[k] == y[k]
    {
      ReadByte(f, at, x, k);
      ReadByte(f, at, y, k);
    }
  }

  lemma ReadByte(f: File, at: nat, buf: seq<Byte>, k: nat)
    requires f.Valid() && ReadSoFar(f, at, buf)
    ensures k < |buf| ==> Present(f, at + k) && buf[k] == ByteAt(f, at + k)
  {
    assert k < |buf| ==> ByteRead(f, at, buf, k);
  }

  lemma NotShorter(f: File, n: nat, at: nat, x: seq<Byte>, y: seq<Byte>)
    requires f.Valid() && IsRead(f, n, at, x) && IsRead(f, n, at, y)
    ensures |x| >= |y|
  {
    ReadByte(f, at, y, |x|);
  }

  /** What a write reports written is what a read of that many bytes there returns. */
  lemma ReadAfterWrite(f: File, g: File, buf: seq<Byte>, at: nat, out: seq<Byte>)
    requires f.Valid() && g.Valid() && Written(f, g, buf, at, Fits(|buf|, at))
    requires IsRead(g, Fits(|buf|, at), at, out)
    ensures out == buf[..Fits(|buf|, at)]
  {
    var w := Fits(|buf|, at);
    assert ByteWritten(f, g, buf, at, w, at + |out|);
    assert |out| == w;
    forall k | 0 <= k < w
      ensures out[k] == buf[k]
    {
      assert ByteWritten(f, g, buf, at, w, at + k);
      assert ByteRead(g, at, out, k);
    }
  }

  /** A read elsewhere is not disturbed: bytes outside the written range are as before. */
  lemma WriteKeepsOthers(f: File, g: File, buf: seq<Byte>, at: nat, n: nat, i: nat)
    requires f.Valid() && g.Valid() && n <= |buf| && Written(f, g, buf, at, n) && !(at <= i < at + n)
    ensures ByteAt(g, i) == ByteAt(f, i)
  {
    assert ByteWritten(f, g, buf, at, n, i);
  }

  // ---------------------------------------------------------------- offsets that are cut

  /** What a write at `offset` does, and what it should do. */
  ghost predicate WrittenAsIs(f: File, g: File, buf: seq<Byte>, offset: nat)
    requires f.Valid() && g.Valid()
  {
    Written(f, g, buf, offset % WRAP, Fits(|buf|, offset % WRAP))
  }

  ghost predicate WrittenAsMeant(f: File, g: File, buf: seq<Byte>, offset: nat)
    requires f.Valid() && g.Valid()
  {
    Written(f, g, buf, offset, Fits(|buf|, offset))
  }

  ghost predicate WritesFlat(n: nat, offset: nat) {
    forall f: File, g: File, buf {:trigger WrittenAsIs(f, g, buf, offset)} ::
      f.Valid() && g.Valid() && |buf| == n && WrittenAsIs(f, g, buf, offset) ==> WrittenAsMeant(f, g, buf, offset)
  }

  lemma NothingWritten(f: File, g: File, buf: seq<Byte>, at: nat, other: nat)
    requires f.Valid() && g.Valid() && Written(f, g, buf, at, 0)
    ensures Written(f, g, buf, other, 0)
  {
    forall i
      ensures ByteWritten(f, g, buf, other, 0, i)
    {
      assert ByteWritten(f, g, buf, at, 0, i);
    }
  }

  /** There is a file for every write that fits: block after block. */
  lemma {:induction false} WriteExists(f: File, buf: seq<Byte>, at: nat, n: nat) returns (g: File)
    requires f.Valid() && n <= |buf| && at + n <= CAPACITY
    ensures g.Valid() && Written(f, g, buf, at, n)
    decreases n
  {
    g := f;
    if n > 0 {
      var last := at + n - 1;
      var k := if last % PAGE_SIZE + 1 < n then last % PAGE_SIZE + 1 else n;
      var b, o := last / PAGE_SIZE, last % PAGE_SIZE + 1 - k;
      g := WriteExists(f, buf, at, n - k);
      RoundWritten(f, g, buf, at, n - k, b, o, k);
      g := SetBlock(g, b, Patched(Contents(g, b), o, buf[n - k..n]));
    }
  }

  /** A write past the reach of block numbers overwrites a byte at the start of the file. */
  lemma OverwritesByte(n: nat, offset: nat) returns (f: File, g: File, buf: seq<Byte>)
    requires n > 0 && offset % WRAP < CAPACITY
    ensures f.Valid() && g.Valid() && |buf| == n && WrittenAsIs(f, g, buf, offset)
    ensures ByteAt(f, offset % WRAP) == '\0' && ByteAt(g, offset % WRAP) == 'x'
  {
    var at := offset % WRAP;
    f := File(seq(DIRECT, _ => Absent), [], 0);
    buf := seq(n, _ => 'x');
    g := WriteExists(f, buf, at, Fits(n, at));
    assert ByteWritten(f, g, buf, at, Fits(n, at), at);
  }

  /** A write does what it should at the offset given exactly if the block number of the offset fits 32
      bits, or nothing is to be written, or the offset is past the capacity either way. */
  lemma FlatIff(n: nat, offset: nat)
    ensures WritesFlat(n, offset) <==> offset < WRAP || n == 0 || offset % WRAP >= CAPACITY
  {
    if n == 0 || offset % WRAP >= CAPACITY {
      forall f: File, g: File, buf | f.Valid() && g.Valid() && |buf| == n && WrittenAsIs(f, g, buf, offset)
        ensures WrittenAsMeant(f, g, buf, offset)
      {
        NothingWritten(f, g, buf, offset % WRAP, offset);
      }
    } else if offset >= WRAP {
      var f, g, buf := OverwritesByte(n, offset);
      assert !ByteWritten(f, g, buf, offset, 0, offset % WRAP);
    }
  }
}
