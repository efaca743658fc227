/** The initial archive: the ustar image that MountPoint::initrd in
    src/usr/Daemons/VFS/FS/tmpFS/tmpfs.cpp loads (ustar Interchange Format of the pax utility,
    POSIX.1-2017 XCU). */
module Initrd {
  import BlockFile
  import opened ChunkList
  import opened CStrings
  import opened Ramfs
  import opened DirectoryFile
  import opened MountedRamfs

  const HEADER: nat := 512
  const SIZE_AT: nat := 124
  const SIZE_DIGITS: nat := 11
  const NAME_FIELD: nat := 100

  // ---------------------------------------------------------------- octal numbers

  predicate IsDigit(c: char) {
    '0' <= c <= '7'
  }

  function Digit(n: nat): (c: char)
    requires n < 8
    ensures IsDigit(c) && c as int == n + 48
  {
    (n + 48) as char
  }

  /** A number in `w` octal digits. */
  function Octal(n: nat, w: nat): (s: string)
    ensures |s| == w
    decreases w, n
  {
    if w == 0 then "" else Octal(n / 8, w - 1) + [Digit(n % 8)]
  }

  function Pow8(w: nat): nat {
    if w == 0 then 1 else 8 * Pow8(w - 1)
  }

  /** strtol with base 8 from `q` on, with `acc` read so far. */
  function Parsed(m: string, q: nat, acc: nat): nat
    requires q <= |m|
    decreases |m| - q
  {
    if q < |m| && IsDigit(m[q]) then Parsed(m, q + 1, acc * 8 + (m[q] as int - 48)) else acc
  }

  /** Digits in memory, one by one. */
  predicate HasDigits(m: string, q: nat, s: string)
    decreases |s|
  {
    s == "" || (q < |m| && m[q] == s[0] && HasDigits(m, q + 1, s[1..]))
  }

  lemma {:induction false} DigitsConcat(m: string, q: nat, a: string, b: string)
    requires HasDigits(m, q, a + b)
    ensures HasDigits(m, q, a) && HasDigits(m, q + |a|, b)
    decreases |a|
  {
    if a == "" {
      assert a + b == b;
    } else {
      assert (a + b)[1..] == a[1..] + b;
      DigitsConcat(m, q + 1, a[1..], b);
    }
  }

  /** `acc` followed by `w` zeros. */
  function Shift(acc: nat, w: nat): (r: nat)
    ensures acc == 0 ==> r == 0
  {
    if w == 0 then acc else 8 * Shift(acc, w - 1)
  }

  /** Reading the digits of n leaves n, whatever comes behind them. */
  lemma {:induction false} ParsesOctal(m: string, q: nat, n: nat, w: nat, acc: nat)
    requires HasDigits(m, q, Octal(n, w)) && n < Pow8(w) && q <= |m|
    ensures q + w <= |m| && Parsed(m, q, acc) == Parsed(m, q + w, Shift(acc, w) + n)
    decreases w
  {
    if w > 0 {
      DigitsConcat(m, q, Octal(n / 8, w - 1), [Digit(n % 8)]);
      ParsesOctal(m, q, n / 8, w - 1, acc);
      OneDigit(m, q + w - 1, n % 8, Shift(acc, w - 1) + n / 8);
    }
  }

  lemma OneDigit(m: string, q: nat, d: nat, acc: nat)
    requires d < 8 && HasDigits(m, q, [Digit(d)])
    ensures q < |m| && Parsed(m, q, acc) == Parsed(m, q + 1, acc * 8 + d)
  {
  }

  // ---------------------------------------------------------------- the image

  /** The data of one item fill whole blocks. */
  function Padded(n: nat): nat {
    (n + HEADER - 1) / HEADER * HEADER
  }

  function ArchivedName(it: Item): string {
    if it.data == [] then it.path + "/" else it.path
  }

  /** The size field of the header at `q`. */
  predicate HasSize(m: string, q: nat, size: nat)
    requires q + HEADER <= |m|
  {
    && HasDigits(m, q + SIZE_AT, Octal(size, SIZE_DIGITS)) && size < Pow8(SIZE_DIGITS)
    && !IsDigit(m[q + SIZE_AT + SIZE_DIGITS])
  }

  /** A header for the top directory itself. */
  predicate IsTop(m: string, q: nat)
    requires q + HEADER <= |m|
  {
    m[q] == '.' && m[q + 1] == '/' && m[q + 2] == '\0' && HasSize(m, q, 0)
  }

  /** A header and the data of an item. */
  predicate IsItem(m: string, q: nat, it: Item)
    requires q + HEADER <= |m|
  {
    && m[q] == '.' && m[q + 1] == '/'
    && HasString(m, q + 2, ArchivedName(it)) && 2 + |ArchivedName(it)| < NAME_FIELD
    && HasSize(m, q, |it.data|) && q + HEADER + Padded(|it.data|) <= |m|
    && m[q + HEADER..q + HEADER + |it.data|] == it.data
  }

  /** The bytes of a header and its data: the name behind "./", the size in eleven octal digits at place 124 with no
      digit behind them, the data from the next multiple of 512 on. */
  lemma ItemBytes(m: string, q: nat, it: Item, j: nat)
    requires q + HEADER <= |m| && IsItem(m, q, it) && j < 11
    ensures HasString(m, q + 2, if it.data == [] then it.path + "/" else it.path)
    ensures '0' <= m[q + 124 + j] <= '7' && !('0' <= m[q + 135] <= '7')
    ensures Parsed(m, q + 124, 0) == |it.data|
    ensures q + 512 + |it.data| <= |m| && m[q + 512..q + 512 + |it.data|] == it.data
  {
    SizeBytes(m, q, |it.data|, j);
    hide HasSize, HasString, Parsed;
  }

  lemma SizeBytes(m: string, q: nat, size: nat, j: nat)
    requires q + HEADER <= |m| && HasSize(m, q, size) && j < 11
    ensures '0' <= m[q + 124 + j] <= '7' && !('0' <= m[q + 135] <= '7')
    ensures Parsed(m, q + 124, 0) == size
  {
    hide HasDigits, Octal;
    DigitAt(m, q + 124, Octal(size, 11), j);
    OctalDigit(size, 11, j);
    ParsesOctal(m, q + 124, size, 11, 0);
  }

  lemma {:induction false} DigitAt(m: string, q: nat, s: string, j: nat)
    requires HasDigits(m, q, s) && j < |s|
    ensures q + j < |m| && m[q + j] == s[j]
    decreases j
  {
    if j > 0 {
      DigitAt(m, q + 1, s[1..], j - 1);
    }
  }

  lemma {:induction false} OctalDigit(n: nat, w: nat, j: nat)
    requires j < w
    ensures IsDigit(Octal(n, w)[j])
    decreases w
  {
    if j < w - 1 {
      OctalDigit(n / 8, w - 1, j);
    }
  }

  /** From `q` on, `m` is an archive of the items from number `n` on: headers, padded data, and an
      empty header. */
  predicate IsTar(m: string, q: nat, items: seq<Item>, n: nat)
    requires n <= |items|
    decreases |m| - q
  {
    && q + HEADER <= |m|
    && if m[q] == '\0' then n == |items|
       else if m[q + 2] == '\0' then IsTop(m, q) && IsTar(m, q + HEADER, items, n)
       else
         n < |items| && IsItem(m, q, items[n])
         && IsTar(m, q + HEADER + Padded(|items[n].data|), items, n + 1)
  }

  lemma HeaderInside(m: string, q: nat, items: seq<Item>, n: nat)
    requires n <= |items| && IsTar(m, q, items, n)
    ensures q + HEADER <= |m|
  {
  }

  /** The place of the next header, when an item with data of that size is at `q`. */
  lemma AfterItem(m: string, q: nat, items: seq<Item>, n: nat, next: nat)
    requires n <= |items| && IsTar(m, q, items, n) && m[q] != '\0' && m[q + 2] != '\0'
    requires n < |items| ==> next == q + HEADER + Padded(|items[n].data|)
    ensures n < |items| && IsItem(m, q, items[n])
    ensures q + HEADER <= next && IsTar(m, next, items, n + 1)
  {
  }

  lemma ItemThenTar(m: string, q: nat, items: seq<Item>, n: nat, next: nat)
    requires q + HEADER <= |m| && n < |items| && IsItem(m, q, items[n]) && m[q + 2] != '\0'
    requires next == q + HEADER + Padded(|items[n].data|) && IsTar(m, next, items, n + 1)
    ensures IsTar(m, q, items, n)
  {
  }

  lemma AfterTop(m: string, q: nat, items: seq<Item>, n: nat, next: nat)
    requires n <= |items| && IsTar(m, q, items, n) && m[q] != '\0' && m[q + 2] == '\0' && next == q + HEADER
    ensures IsTop(m, q) && IsTar(m, next, items, n)
  {
  }

  /** The advance to the next header is one header and the padded data. */
  lemma Advance(size: nat)
    ensures (size / 512 + 1) * 512 + (if size % 512 != 0 then 512 else 0) == HEADER + Padded(size)
  {
  }

  lemma SizeOf(m: string, q: nat, size: nat)
    requires q + HEADER <= |m| && HasSize(m, q, size)
    ensures Parsed(m, q + SIZE_AT, 0) == size
  {
    ParsesOctal(m, q + SIZE_AT, size, SIZE_DIGITS, 0);
    NoMoreDigits(m, q + SIZE_AT + SIZE_DIGITS, size);
  }

  lemma NoMoreDigits(m: string, q: nat, acc: nat)
    requires q < |m| && !IsDigit(m[q])
    ensures Parsed(m, q, acc) == acc
  {
  }

  /** strtol with base 8 on a field that starts with a digit. */
  method Strtol(m: array<char>, q: nat) returns (n: nat)
    requires q <= m.Length
    ensures n == Parsed(m[..], q, 0)
  {
    n := 0;
    var i := q;
    while i < m.Length && IsDigit(m[i])
      invariant q <= i <= m.Length && Parsed(m[..], q, 0) == Parsed(m[..], i, n)
    {
      n := n * 8 + (m[i] as int - 48);
      i := i + 1;
    }
  }

  // ---------------------------------------------------------------- writes in front of a header

  /** Memory that differs in front of `q` only. */
  predicate SameFrom(m: string, w: string, q: nat) {
    q <= |m| == |w| && m[q..] == w[q..]
  }

  lemma SameAt(m: string, w: string, q: nat, i: nat)
    requires SameFrom(m, w, q) && q <= i < |m|
    ensures m[i] == w[i]
  {
    assert m[q..][i - q] == w[q..][i - q];
  }

  lemma SameSlice(m: string, w: string, q: nat, a: nat, b: nat)
    requires SameFrom(m, w, q) && q <= a <= b <= |m|
    ensures m[a..b] == w[a..b]
  {
    forall i | a <= i < b
      ensures m[i] == w[i]
    {
      SameAt(m, w, q, i);
    }
  }

  lemma {:induction false} SameDigits(m: string, w: string, q: nat, p: nat, s: string)
    requires SameFrom(m, w, q) && q <= p && HasDigits(m, p, s)
    ensures HasDigits(w, p, s)
    decreases |s|
  {
    if s != "" {
      SameAt(m, w, q, p);
      SameDigits(m, w, q, p + 1, s[1..]);
    }
  }

  lemma {:induction false} SameString(m: string, w: string, q: nat, p: nat, s: string)
    requires SameFrom(m, w, q) && q <= p && HasString(m, p, s)
    ensures HasString(w, p, s)
    decreases |s|
  {
    SameAt(m, w, q, p);
    if s != "" {
      SameString(m, w, q, p + 1, s[1..]);
    }
  }

  lemma SameSize(m: string, w: string, q: nat, size: nat)
    requires SameFrom(m, w, q) && q + HEADER <= |m| && HasSize(m, q, size)
    ensures HasSize(w, q, size)
  {
    SameDigits(m, w, q, q + SIZE_AT, Octal(size, SIZE_DIGITS));
    SameAt(m, w, q, q + SIZE_AT + SIZE_DIGITS);
  }

  lemma SameItem(m: string, w: string, q: nat, it: Item)
    requires SameFrom(m, w, q) && q + HEADER <= |m| && IsItem(m, q, it)
    ensures IsItem(w, q, it)
  {
    SameAt(m, w, q, q);
    SameAt(m, w, q, q + 1);
    SameString(m, w, q, q + 2, ArchivedName(it));
    SameSize(m, w, q, |it.data|);
    SameSlice(m, w, q, q + HEADER, q + HEADER + |it.data|);
  }

  lemma SameRest(m: string, w: string, q: nat, r: nat)
    requires SameFrom(m, w, q) && q <= r <= |m|
    ensures SameFrom(m, w, r)
  {
    assert m[r..] == m[q..][r - q..];
    assert w[r..] == w[q..][r - q..];
  }

  /** An archive does not depend on what is in front of it. */
  lemma {:induction false} SameTar(m: string, w: string, q: nat, items: seq<Item>, n: nat)
    requires n <= |items| && SameFrom(m, w, q) && IsTar(m, q, items, n)
    ensures IsTar(w, q, items, n)
    decreases |m| - q
  {
    SameAt(m, w, q, q);
    SameAt(m, w, q, q + 1);
    SameAt(m, w, q, q + 2);
    if m[q] != '\0' {
      if m[q + 2] == '\0' {
        var next := q + HEADER;
        AfterTop(m, q, items, n, next);
        SameSize(m, w, q, 0);
        SameRest(m, w, q, next);
        SameTar(m, w, next, items, n);
      } else {
        var next := q + HEADER + Padded(|items[n].data|);
        AfterItem(m, q, items, n, next);
        SameItem(m, w, q, items[n]);
        SameRest(m, w, q, next);
        SameTar(m, w, next, items, n + 1);
        ItemThenTar(w, q, items, n, next);
      }
    }
  }

  // ---------------------------------------------------------------- loading it

  /** A directory of the archive. */
  method LoadDir(mount: MountPoint, image: array<char>, q: nat, ghost items: seq<Item>, ghost n: nat)
    requires mount.Valid() && Good(items) && n < |items| < MAX_NODES && Loaded(mount.tree, items, n)
    requires q + HEADER <= image.Length && IsItem(image[..], q, items[n]) && items[n].data == []
    modifies mount, image, mount.Files()
    ensures mount.Valid() && Loaded(mount.tree, items, n + 1)
    ensures SameFrom(old(image[..]), image[..], q + HEADER)
    ensures fresh(mount.Files() - old(mount.Files()))
  {
    hide MountPoint.ValidNode, OnlyAdded;
    LoadItem(mount.tree, items, n, Dir([]));
    StripSlash(items[n].path);
    ghost var made := mount.Mkdir(image, q + 2, ArchivedName(items[n]));
  }

  lemma StripSlash(path: string)
    ensures Stripped(path + "/") == path
  {
  }

  /** A file of the archive. */
  method LoadFile(mount: MountPoint, image: array<char>, q: nat, size: nat, ghost items: seq<Item>, ghost n: nat)
    requires mount.Valid() && Good(items) && n < |items| < MAX_NODES && Loaded(mount.tree, items, n)
    requires q + HEADER <= image.Length && IsItem(image[..], q, items[n]) && size == |items[n].data| > 0
    modifies mount, image, mount.Files()
    ensures mount.Valid() && Loaded(mount.tree, items, n + 1)
    ensures image[..] == old(image[..])
    ensures fresh(mount.Files() - old(mount.Files()))
  {
    hide MountPoint.ValidNode, OnlyAdded;
    ghost var t := mount.tree;
    var data := image[q + HEADER..q + HEADER + size];
    assert data == items[n].data;
    hide Loaded, Good, HasString, Resolve, Ramfs.Create;
    CanCreate(t, items, n, Reg(EmptyFile()));
    var node := mount.Create(image, q + 2, ArchivedName(items[n]));
    ghost var f := mount.WriteNew(node, data);
    LoadThenFill(t, items, n, Reg(EmptyFile()), Reg(f));
  }

  /** MountPoint::initrd on a fresh mount point: the whole archive is loaded. */
  method LoadArchive(mount: MountPoint, image: array<char>, ghost items: seq<Item>)
    requires mount.Valid() && mount.tree == [Dir([])]
    requires Good(items) && |items| < MAX_NODES && IsTar(image[..], 0, items, 0)
    modifies mount, image, mount.Files()
    ensures mount.Valid() && Loaded(mount.tree, items, |items|)
  {
    var q: nat := 0;
    ghost var n: nat := 0;
    EmptyLoaded(items);
    HeaderInside(image[..], 0, items, 0);
    hide MountPoint.Valid, Loaded, Good, IsTar;
    while image[q] != '\0'
      invariant n <= |items| && IsTar(image[..], q, items, n) && q + HEADER <= image.Length
      invariant mount.Valid() && Loaded(mount.tree, items, n)
      invariant fresh(mount.Files() - old(mount.Files()))
      decreases image.Length - q
    {
      q, n := LoadNext(mount, image, q, items, n);
    }
  }

  /** One round of its loop, and what is left of the archive. */
  method LoadNext(mount: MountPoint, image: array<char>, q: nat, ghost items: seq<Item>, ghost n: nat)
    returns (next: nat, ghost count: nat)
    requires mount.Valid() && Good(items) && n <= |items| < MAX_NODES && Loaded(mount.tree, items, n)
    requires IsTar(image[..], q, items, n) && q + HEADER <= image.Length && image[q] != '\0'
    modifies mount, image, mount.Files()
    ensures mount.Valid() && count <= |items| && Loaded(mount.tree, items, count)
    ensures IsTar(image[..], next, items, count) && q < next && next + HEADER <= image.Length
    ensures fresh(mount.Files() - old(mount.Files()))
  {
    hide MountPoint.Valid, Loaded, Good;
    ghost var m := image[..];
    next := LoadHeader(mount, image, q, items, n);
    count := NextCount(m, q, n);
    NextIsTar(m, image[..], q, items, n);
    HeaderInside(image[..], next, items, count);
  }

  /** Where the next header is, and how many items come before it. */
  function NextPlace(m: string, q: nat): nat
    requires q + HEADER <= |m|
  {
    q + HEADER + Padded(Parsed(m, q + SIZE_AT, 0))
  }

  function NextCount(m: string, q: nat, n: nat): nat
    requires q + HEADER <= |m|
  {
    if m[q + 2] == '\0' then n else n + 1
  }

  /** What a header says about the next one still holds after the header has been worked on. */
  lemma NextIsTar(m: string, w: string, q: nat, items: seq<Item>, n: nat)
    requires n <= |items| && IsTar(m, q, items, n) && m[q] != '\0' && SameFrom(m, w, q + HEADER)
    ensures NextCount(m, q, n) <= |items| && q + HEADER <= NextPlace(m, q)
    ensures IsTar(w, NextPlace(m, q), items, NextCount(m, q, n))
  {
    var next := NextPlace(m, q);
    if m[q + 2] == '\0' {
      SizeOf(m, q, 0);
      assert Padded(0) == 0;
      AfterTop(m, q, items, n, next);
    } else {
      SizeOf(m, q, |items[n].data|);
      AfterItem(m, q, items, n, next);
    }
    SameRest(m, w, q + HEADER, next);
    SameTar(m, w, next, items, NextCount(m, q, n));
  }

  /** The body of its loop: nothing is made of the top directory. */
  method LoadHeader(mount: MountPoint, image: array<char>, q: nat, ghost items: seq<Item>, ghost n: nat)
    returns (next: nat)
    requires mount.Valid() && Good(items) && n <= |items| < MAX_NODES && Loaded(mount.tree, items, n)
    requires IsTar(image[..], q, items, n) && image[q] != '\0'
    modifies mount, image, mount.Files()
    ensures mount.Valid() && Loaded(mount.tree, items, NextCount(old(image[..]), q, n))
    ensures next == NextPlace(old(image[..]), q) && SameFrom(old(image[..]), image[..], q + HEADER)
    ensures fresh(mount.Files() - old(mount.Files()))
  {
    hide MountPoint.Valid, Loaded, Good;
    var size;
    size, next := ReadSize(image, q);
    if image[q + 2] != '\0' {
      SizeOf(image[..], q, |items[n].data|);
      LoadItemAt(mount, image, q, size, items, n);
    }
  }

  /** Lines 136 and 149-151. */
  method ReadSize(image: array<char>, q: nat) returns (size: nat, next: nat)
    requires q + HEADER <= image.Length
    ensures size == Parsed(image[..], q + SIZE_AT, 0) && next == q + HEADER + Padded(size)
  {
    size := Strtol(image, q + SIZE_AT);
    Advance(size);
    next := q + (size / 512 + 1) * 512;
    if size % 512 != 0 {
      next := next + 512;
    }
  }

  /** A header that names something: a directory if the size is 0. */
  method LoadItemAt(mount: MountPoint, image: array<char>, q: nat, size: nat, ghost items: seq<Item>, ghost n: nat)
    requires mount.Valid() && Good(items) && n < |items| < MAX_NODES && Loaded(mount.tree, items, n)
    requires q + HEADER <= image.Length && IsItem(image[..], q, items[n]) && size == |items[n].data|
    modifies mount, image, mount.Files()
    ensures mount.Valid() && Loaded(mount.tree, items, n + 1)
    ensures SameFrom(old(image[..]), image[..], q + HEADER)
    ensures fresh(mount.Files() - old(mount.Files()))
  {
    if size == 0 {
      LoadDir(mount, image, q, items, n);
    } else {
      LoadFile(mount, image, q, size, items, n);
    }
  }

  /** The round trip: after loading an archive, a read of the path of any archived file returns exactly
      its bytes, from an unchanged path buffer, and leaves the tree loaded for the next read. */
  method ReadBack(mount: MountPoint, path: array<char>, p: nat, ghost items: seq<Item>, ghost k: nat, size: nat)
    returns (out: seq<BlockFile.Byte>)
    requires mount.Valid() && Good(items) && Loaded(mount.tree, items, |items|)
    requires k < |items| && items[k].data != [] && size == |items[k].data| && Points(path[..], p, items[k].path)
    modifies mount`tree, path, mount.Files()
    ensures out == items[k].data && path[..] == old(path[..])
    ensures mount.Valid() && Loaded(mount.tree, items, |items|)
  {
    hide MountPoint.Valid, MountPoint.ValidNode, OnlyAdded, Points, HasString, Good, Lookup, Resolve;
    StatItem(mount.tree, items, |items|, k);
    assert Made(mount.tree, items, k);
    ghost var t := mount.tree;
    ghost var f;
    out, f := mount.Pread(path, p, size, 0, items[k].path);
    LoadThenRead(t, items, k, out);
    ReadKeepsLoaded(t, items, k, size);
  }

  /** Reading enlarges at most st_size, which no read looks at. */
  lemma ReadKeepsLoaded(t: Tree, items: seq<Item>, k: nat, end: nat)
    requires Loaded(t, items, |items|) && k < |items| && t[k + 1].Reg?
    ensures Loaded(t[k + 1 := Reg(Enlarged(t[k + 1].file, end))], items, |items|)
  {
    var u := t[k + 1 := Reg(Enlarged(t[k + 1].file, end))];
    forall j {:trigger Made(u, items, j)} | 0 <= j < |items|
      ensures Made(u, items, j)
    {
      assert Made(t, items, j);
      if j == k && items[j].data != [] {
        EnlargedHolds(t[k + 1].file, end, items[j].data);
      }
    }
    forall d, name {:trigger Lists(u, items, |items|, d, name)} | 0 <= d < |u| && u[d].Dir? && IsName(name)
      ensures Lists(u, items, |items|, d, name)
    {
      assert Lists(t, items, |items|, d, name);
    }
  }

  lemma EnlargedHolds(f: BlockFile.File, end: nat, data: seq<BlockFile.Byte>)
    requires Holds(f, data)
    ensures Holds(Enlarged(f, end), data)
  {
    var g := Enlarged(f, end);
    assert forall b: nat {:trigger BlockFile.BlockAt(g, b)} :: BlockFile.BlockAt(g, b) == BlockFile.BlockAt(f, b);
    forall j | 0 <= j < |data|
      ensures BlockFile.ByteRead(g, 0, data, j)
    {
      assert BlockFile.ByteRead(f, 0, data, j);
    }
  }
}
