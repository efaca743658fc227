/** The loop of get_fromdir in src/usr/Daemons/VFS/FS/tmpFS/tmpfs.cpp on any directory file, also one that a
    read beyond its end has enlarged: the record buffer keeps what a short read does not overwrite. */
module DirectoryScan {
  import opened Basics
  import opened BlockFile
  import opened CStrings
  import opened Ramfs
  import opened DirectoryFile

  // ---------------------------------------------------------------- one window

  /** How many bytes from `at` on a read of `n` bytes finds, if it has found `k`. */
  function Readable(f: File, n: nat, at: nat, k: nat): (r: nat)
    requires f.Valid() && k <= Fits(n, at)
    ensures k <= r <= Fits(n, at) && (r < Fits(n, at) ==> !Present(f, at + r))
    ensures forall i {:trigger Present(f, i)} :: at + k <= i < at + r ==> Present(f, i)
    decreases Fits(n, at) - k
  {
    if k == Fits(n, at) || !Present(f, at + k) then k else Readable(f, n, at, k + 1)
  }

  /** The bytes that a read puts into the buffer. */
  function ReadOf(f: File, n: nat, at: nat): (r: seq<Byte>)
    requires f.Valid()
    ensures |r| == Readable(f, n, at, 0) && forall j {:trigger r[j]} :: 0 <= j < |r| ==> r[j] == ByteAt(f, at + j)
  {
    Slice(f, at, Readable(f, n, at, 0))
  }

  lemma ReadOfIsRead(f: File, n: nat, at: nat)
    requires f.Valid()
    ensures IsRead(f, n, at, ReadOf(f, n, at))
  {
    var r := ReadOf(f, n, at);
    forall k | 0 <= k < |r|
      ensures ByteRead(f, at, r, k)
    {
      assert Present(f, at + k);
    }
  }

  /** The record buffer after the read at `at`, over what it held before. */
  function Window(f: File, at: nat, prev: seq<Byte>): (b: seq<Byte>)
    requires f.Valid() && |prev| == RECORD
    ensures |b| == RECORD
    ensures forall j {:trigger b[j]} :: 0 <= j < RECORD ==>
              b[j] == if j < Readable(f, RECORD, at, 0) then ByteAt(f, at + j) else prev[j]
  {
    var r := ReadOf(f, RECORD, at);
    r + prev[|r|..]
  }

  /** d_ino of a record buffer. */
  function Ino(b: seq<Byte>): nat
    requires |b| == RECORD
  {
    b[INO_AT] as int + 256 * (b[INO_AT + 1] as int)
  }

  /** The number found, and how far the loop has read. */
  datatype Scanned = Scanned(found: Option<nat>, read: nat)

  function Scan(f: File, at: nat, prev: seq<Byte>, name: string): Scanned
    requires f.Valid() && |prev| == RECORD
    decreases f.size - at
  {
    if at >= f.size then Scanned(None, at)
    else
      var b := Window(f, at, prev);
      if HasString(b, NAME_AT, name) then Scanned(Some(Ino(b)), at + RECORD) else Scan(f, at + RECORD, b, name)
  }

  /** The loop of get_fromdir. A last record that is not all there enlarges the file; `junk` is what the record
      buffer holds at first, and the count of bytes read is 32 bits wide. */
  method ScanDirectory(file: Node, junk: seq<Byte>, name: string) returns (r: Option<nat>)
    requires file.Value().Valid() && |junk| == RECORD && file.size + RECORD <= 0x1_0000_0000
    modifies file`size
    ensures r == Scan(old(file.Value()), 0, junk, name).found
    ensures file.Value()
         == old(file.Value()).(size := Larger(old(file.size), Scan(old(file.Value()), 0, junk, name).read))
  {
    hide HasString, Window, IsRead, Fits, Scan, Ino;
    ghost var f := file.Value();
    var allreadyRead: nat := 0;
    var rec := junk;
    while allreadyRead < file.size
      invariant |rec| == RECORD && file.Value() == f.(size := Larger(f.size, allreadyRead))
      invariant Scan(f, 0, junk, name) == Scan(f, allreadyRead, rec, name)
      decreases f.size - allreadyRead
    {
      ScanStep(f, allreadyRead, rec, name);
      rec := ReadRecord(file, f, allreadyRead, rec);
      allreadyRead := allreadyRead + RECORD;
      if HasString(rec, NAME_AT, name) {
        return Some(Ino(rec));
      }
    }
    ScanEnds(f, allreadyRead, rec, name);
    return None;
  }

  lemma ScanStep(f: File, at: nat, prev: seq<Byte>, name: string)
    requires f.Valid() && |prev| == RECORD && at < f.size
    ensures var b := Window(f, at, prev);
            Scan(f, at, prev, name)
            == if HasString(b, NAME_AT, name) then Scanned(Some(Ino(b)), at + RECORD) else Scan(f, at + RECORD, b, name)
  {
  }

  lemma ScanEnds(f: File, at: nat, prev: seq<Byte>, name: string)
    requires f.Valid() && |prev| == RECORD && at >= f.size
    ensures Scan(f, at, prev, name) == Scanned(None, at)
  {
  }

  /** One round reads into the record buffer. */
  method ReadRecord(file: Node, ghost f: File, at: nat, prev: seq<Byte>) returns (rec: seq<Byte>)
    requires f.Valid() && file.Value() == f.(size := file.size) && |prev| == RECORD && at < 0x1_0000_0000
    modifies file`size
    ensures rec == Window(f, at, prev) && file.size == Larger(old(file.size), at + RECORD)
  {
    hide Window, IsRead, Fits;
    ghost var g := file.Value();
    assert at % WRAP == at;
    var got := file.ReadFromNode(RECORD, at);
    ReadIntoBuffer(f, g, at, got, prev);
    rec := got + prev[|got|..];
  }

  /** The size does not matter for what is read. */
  lemma ReadIntoBuffer(f: File, g: File, at: nat, got: seq<Byte>, prev: seq<Byte>)
    requires f.Valid() && g == f.(size := g.size) && |prev| == RECORD && IsRead(g, RECORD, at, got)
    ensures |got| <= RECORD && got + prev[|got|..] == Window(f, at, prev)
  {
    hide Readable, ByteAt, IsRead, ReadOf;
    ReadOfIsRead(g, RECORD, at);
    ReadIsUnique(g, RECORD, at, got, ReadOf(g, RECORD, at));
    SameReadOf(f, g, RECORD, at);
    BufferIsWindow(f, at, prev);
  }

  lemma BufferIsWindow(f: File, at: nat, prev: seq<Byte>)
    requires f.Valid() && |prev| == RECORD
    ensures |ReadOf(f, RECORD, at)| <= RECORD
    ensures ReadOf(f, RECORD, at) + prev[|ReadOf(f, RECORD, at)|..] == Window(f, at, prev)
  {
  }

  lemma SameReadOf(f: File, g: File, n: nat, at: nat)
    requires f.Valid() && g == f.(size := g.size)
    ensures ReadOf(f, n, at) == ReadOf(g, n, at)
  {
    SameReadable(f, g, n, at, 0);
  }

  lemma {:induction false} SameReadable(f: File, g: File, n: nat, at: nat, k: nat)
    requires f.Valid() && g == f.(size := g.size) && k <= Fits(n, at)
    ensures Readable(f, n, at, k) == Readable(g, n, at, k)
    decreases Fits(n, at) - k
  {
    if k < Fits(n, at) && Present(f, at + k) {
      SameReadable(f, g, n, at, k + 1);
    }
  }

  // ---------------------------------------------------------------- what a window shows

  /** A buffer in which the C string from `p` on is the one of another buffer. */
  lemma SameTail(b: string, c: string, p: nat, name: string)
    requires |b| == |c| && forall j :: p <= j < |b| ==> b[j] == c[j]
    ensures HasString(b, p, name) <==> HasString(c, p, name)
  {
    HasStringIs(b, p, name);
    HasStringIs(c, p, name);
    if p + |name| < |b| {
      assert b[p..p + |name|] == c[p..p + |name|];
    }
  }

  lemma {:induction false} CStrIsThere(m: string, p: nat)
    requires p <= |m| && StrEnd(m, p) < |m|
    ensures HasString(m, p, CStr(m, p))
    decreases |m| - p
  {
    if m[p] != '\0' {
      CStrIsThere(m, p + 1);
      assert CStr(m, p) == [m[p]] + CStr(m, p + 1);
    }
  }

  lemma RecordHas(rec: seq<Byte>, e: Entry, name: string)
    requires IsRecord(rec, e)
    ensures HasString(rec, NAME_AT, name) <==> name == e.name
  {
    CStrIsThere(rec, NAME_AT);
    if HasString(rec, NAME_AT, name) {
      StringIsCStr(rec, NAME_AT, name);
    }
  }

  /** A window on record `k` shows this record, whatever the buffer held. */
  lemma RecordWindow(f: File, k: nat, e: Entry, prev: seq<Byte>)
    requires f.Valid() && RecordAt(f, k, e) && Place(k) + RECORD <= CAPACITY && |prev| == RECORD
    ensures IsRecord(Window(f, Place(k), prev), e)
  {
    hide Readable, IsRead, IsRecord;
    ReadOfIsRead(f, RECORD, Place(k));
    ReadsRecord(f, Place(k), ReadOf(f, RECORD, Place(k)));
    assert Window(f, Place(k), prev) == Slice(f, Place(k), RECORD);
  }

  /** The window at `at` shows the name only if the buffer already did. */
  ghost predicate Quiet(f: File, at: nat, name: string)
    requires f.Valid()
  {
    forall prev: seq<Byte> {:trigger Window(f, at, prev)} :: |prev| == RECORD ==>
      HasString(Window(f, at, prev), NAME_AT, name) ==> HasString(prev, NAME_AT, name)
  }

  /** Where record `k` starts. */
  function Place(k: nat): nat {
    RECORD * k
  }

  ghost predicate QuietRecord(f: File, k: nat, name: string)
    requires f.Valid()
  {
    Quiet(f, Place(k), name)
  }

  /** A zero where the name starts shows no name. */
  lemma ZeroIsQuiet(f: File, at: nat, name: string)
    requires f.Valid() && name != "" && ByteAt(f, at + NAME_AT) == '\0'
    ensures Quiet(f, at, name)
  {
    hide Readable, ByteAt;
    forall prev: seq<Byte> {:trigger Window(f, at, prev)}
      | |prev| == RECORD && HasString(Window(f, at, prev), NAME_AT, name)
      ensures HasString(prev, NAME_AT, name)
    {
      HasStringAt(Window(f, at, prev), NAME_AT, name, 0);
      SameTail(Window(f, at, prev), prev, NAME_AT, name);
    }
  }

  /** Quiet windows are passed over. */
  lemma {:induction false} ScanPasses(f: File, k: nat, q: nat, prev: seq<Byte>, name: string) returns (b: seq<Byte>)
    requires f.Valid() && |prev| == RECORD && k <= q && Place(q) < f.size + RECORD
    requires !HasString(prev, NAME_AT, name)
    requires forall j {:trigger QuietRecord(f, j, name)} :: k <= j < q ==> QuietRecord(f, j, name)
    ensures |b| == RECORD && !HasString(b, NAME_AT, name)
    ensures Scan(f, Place(k), prev, name) == Scan(f, Place(q), b, name)
    decreases q - k
  {
    hide *;
    b := prev;
    if k < q {
      assert QuietRecord(f, k, name);
      b := PassesOne(f, k, q, prev, name);
      b := ScanPasses(f, k + 1, q, b, name);
    }
  }

  lemma PassesOne(f: File, k: nat, q: nat, prev: seq<Byte>, name: string) returns (b: seq<Byte>)
    requires f.Valid() && |prev| == RECORD && k < q && Place(q) < f.size + RECORD
    requires QuietRecord(f, k, name) && !HasString(prev, NAME_AT, name)
    ensures |b| == RECORD && !HasString(b, NAME_AT, name)
    ensures Scan(f, Place(k), prev, name) == Scan(f, Place(k + 1), b, name)
  {
    hide Window, HasString, Place;
    NextRecord(k, q);
    b := Window(f, Place(k), prev);
  }

  lemma NextRecord(k: nat, n: nat)
    ensures Place(k) + RECORD == Place(k + 1)
    ensures k < n ==> Place(k) + RECORD <= Place(n)
  {
  }

  /** The window in which byte `n` lies, and the last one of a file of `n` bytes. */
  lemma WindowOf(n: nat) returns (q: nat)
    ensures Place(q) <= n < Place(q) + RECORD
    ensures n % RECORD == 0 <==> n == Place(q)
  {
    q := n / RECORD;
  }

  /** Over the records the scan is the lookup; without success it goes on behind them. */
  lemma {:induction false} ScanIsLookup(f: File, entries: seq<Entry>, k: nat, prev: seq<Byte>, name: string)
    returns (b: seq<Byte>)
    requires f.Valid() && Records(f, entries) && k <= |entries| && |prev| == RECORD
    requires Place(|entries|) <= f.size && Place(|entries|) <= CAPACITY
    ensures |b| == RECORD && (k < |entries| || b == prev)
    ensures var r, s := Lookup(entries[k..], name), Scan(f, Place(k), prev, name);
            if r.Some? then s.found == r && s.read <= Place(|entries|)
            else s == Scan(f, Place(|entries|), b, name) && (k < |entries| ==> !HasString(b, NAME_AT, name))
    decreases |entries| - k
  {
    b := prev;
    if k < |entries| {
      NextRecord(k, |entries|);
      hide *;
      b := ScanRecord(f, entries, k, prev, name);
      LookupFrom(entries, k, name);
      if entries[k].name != name {
        b := ScanIsLookup(f, entries, k + 1, b, name);
      }
    }
  }

  lemma ScanRecord(f: File, entries: seq<Entry>, k: nat, prev: seq<Byte>, name: string) returns (b: seq<Byte>)
    requires f.Valid() && Records(f, entries) && k < |entries| && |prev| == RECORD
    requires Place(k) + RECORD <= f.size && Place(k) + RECORD <= CAPACITY
    ensures |b| == RECORD && (HasString(b, NAME_AT, name) <==> name == entries[k].name)
    ensures Scan(f, Place(k), prev, name)
         == if name == entries[k].name then Scanned(Some(entries[k].ino), Place(k) + RECORD)
            else Scan(f, Place(k) + RECORD, b, name)
  {
    hide Window, HasString, IsRecord;
    assert RecordAt(f, k, entries[k]);
    b := Window(f, Place(k), prev);
    RecordWindow(f, k, entries[k], prev);
    ShowsEntry(b, entries[k], name);
  }

  lemma ShowsEntry(b: seq<Byte>, e: Entry, name: string)
    requires IsRecord(b, e)
    ensures |b| == RECORD && Ino(b) == e.ino && (HasString(b, NAME_AT, name) <==> name == e.name)
  {
    RecordHas(b, e, name);
  }

  // ---------------------------------------------------------------- whole directories

  /** On an intact directory the loop is the lookup among its entries, whatever the buffer held, and it does
      not change the size. */
  lemma IntactScan(f: File, entries: seq<Entry>, junk: seq<Byte>, name: string)
    requires Encodes(f, entries) && f.size <= CAPACITY && |junk| == RECORD
    ensures Scan(f, 0, junk, name).found == Lookup(entries, name) && Scan(f, 0, junk, name).read <= f.size
  {
    var b := ScanIsLookup(f, entries, 0, junk, name);
    assert entries[0..] == entries;
  }

  /** `f` with the size `n`. */
  function WithSize(f: File, n: nat): (g: File)
    ensures f.Valid() ==> g.Valid() && forall i {:trigger ByteAt(g, i)} :: ByteAt(g, i) == ByteAt(f, i)
  {
    f.(size := n)
  }

  lemma StillRecords(f: File, entries: seq<Entry>, n: nat)
    requires f.Valid() && Records(f, entries)
    ensures Records(WithSize(f, n), entries)
  {
    var g := WithSize(f, n);
    forall k {:trigger RecordAt(g, k, entries[k])} | 0 <= k < |entries|
      ensures RecordAt(g, k, entries[k])
    {
      assert RecordAt(f, k, entries[k]);
      SameRecord(f, g, k, entries[k]);
    }
  }

  lemma SameRecord(f: File, g: File, k: nat, e: Entry)
    requires f.Valid() && g == f.(size := g.size) && RecordAt(f, k, e)
    ensures RecordAt(g, k, e)
  {
    hide IsRecord;
    assert Slice(g, Place(k), RECORD) == Slice(f, Place(k), RECORD);
    forall i: nat {:trigger Present(g, i)} | Place(k) <= i < Place(k) + RECORD
      ensures Present(g, i)
    {
      assert Present(f, i);
    }
  }

  /** A directory that a read has enlarged still finds its entries and no other name, if the first buffer does
      not hold it by chance. */
  lemma EnlargedScan(f: File, entries: seq<Entry>, n: nat, junk: seq<Byte>, name: string)
    requires Encodes(f, entries) && f.size <= n && f.size <= CAPACITY && name != ""
    requires |junk| == RECORD && !HasString(junk, NAME_AT, name)
    ensures Scan(WithSize(f, n), 0, junk, name).found == Lookup(entries, name)
  {
    var g := WithSize(f, n);
    StillRecords(f, entries, n);
    hide Scan, Window, HasString, ByteAt, RecordAt;
    var b := ScanIsLookup(g, entries, 0, junk, name);
    assert entries[0..] == entries;
    if Lookup(entries, name).None? {
      NothingBehind(f, entries, n, b, name);
    }
  }

  lemma NothingBehind(f: File, entries: seq<Entry>, n: nat, prev: seq<Byte>, name: string)
    requires Encodes(f, entries) && f.size <= n && name != ""
    requires |prev| == RECORD && !HasString(prev, NAME_AT, name)
    ensures Scan(WithSize(f, n), Place(|entries|), prev, name).found == None
  {
    var g := WithSize(f, n);
    forall j: nat | j >= |entries|
      ensures QuietRecord(g, j, name)
    {
      NextRecord(|entries|, j);
      NoneBehind(f, entries, n, Place(j), name);
    }
    var q := WindowOf(n);
    assert Place(|entries|) <= n && |entries| <= q;
    var end := q + 1;
    NextRecord(q, end);
    hide *;
    var b;
    if n == Place(q) {
      b := ScanPasses(g, |entries|, q, prev, name);
      ScanEnds(g, Place(q), b, name);
    } else {
      b := ScanPasses(g, |entries|, end, prev, name);
      ScanEnds(g, Place(end), b, name);
    }
  }

  lemma NoneBehind(f: File, entries: seq<Entry>, n: nat, at: nat, name: string)
    requires Encodes(f, entries) && f.size <= n && name != "" && at >= f.size
    ensures Quiet(WithSize(f, n), at, name)
  {
    hide ByteAt, Quiet, Records;
    assert ZeroBehind(f, at + NAME_AT);
    ZeroIsQuiet(WithSize(f, n), at, name);
  }

  // ---------------------------------------------------------------- a record written after such a read

  /** create_hardlink writes the record at the end of the enlarged file. */
  ghost predicate Linked(f: File, n: nat, e: Entry, rec: seq<Byte>, h: File) {
    && f.Valid() && h.Valid() && IsRecord(rec, e)
    && Written(WithSize(f, n), h, rec, n, RECORD) && h.size == n + RECORD
  }

  /** The new entry is found with its number, whatever was on the stack of the writer and of the reader. */
  ghost predicate FoundAfter(f: File, n: nat, e: Entry) {
    forall rec, h, junk {:trigger Linked(f, n, e, rec, h), |junk|} ::
      Linked(f, n, e, rec, h) && |junk| == RECORD && !HasString(junk, NAME_AT, e.name) ==>
        Scan(h, 0, junk, e.name).found == Some(e.ino)
  }

  /** The bytes of the file then. */
  lemma LinkedBytes(f: File, entries: seq<Entry>, n: nat, e: Entry, rec: seq<Byte>, h: File, i: nat)
    requires Encodes(f, entries) && f.size <= n && Linked(f, n, e, rec, h)
    ensures n <= i < n + RECORD ==> Present(h, i) && ByteAt(h, i) == rec[i - n]
    ensures f.size <= i < n || n + RECORD <= i ==> ByteAt(h, i) == '\0'
  {
    assert ByteWritten(WithSize(f, n), h, rec, n, RECORD, i);
    assert ZeroBehind(f, i);
  }

  lemma LinkedRecords(f: File, entries: seq<Entry>, n: nat, e: Entry, rec: seq<Byte>, h: File)
    requires Encodes(f, entries) && f.size <= n && Linked(f, n, e, rec, h)
    ensures Records(h, entries)
  {
    var g := WithSize(f, n);
    StillRecords(f, entries, n);
    forall k {:trigger RecordAt(h, k, entries[k])} | 0 <= k < |entries|
      ensures RecordAt(h, k, entries[k])
    {
      assert RecordAt(g, k, entries[k]);
      assert Place(k) + RECORD <= Place(|entries|);
      WriteKeepsRecord(g, h, rec, n, Place(k));
    }
  }

  /** Between the last entry and the record there is nothing to find. */
  lemma HoleIsQuiet(f: File, entries: seq<Entry>, n: nat, e: Entry, rec: seq<Byte>, h: File, j: nat)
    requires Encodes(f, entries) && f.size <= n && Linked(f, n, e, rec, h)
    requires e.name != "" && |entries| <= j && Place(j) + RECORD <= n
    ensures QuietRecord(h, j, e.name)
  {
    hide Quiet, ByteAt, Records;
    LinkedBytes(f, entries, n, e, rec, h, Place(j) + NAME_AT);
    ZeroIsQuiet(h, Place(j), e.name);
  }

  /** The scan reaches the window in which the record starts. */
  lemma ReachesRecord(f: File, entries: seq<Entry>, n: nat, e: Entry, rec: seq<Byte>, h: File, junk: seq<Byte>, q: nat)
    returns (b: seq<Byte>)
    requires Encodes(f, entries) && f.size <= n && f.size <= CAPACITY && Linked(f, n, e, rec, h)
    requires e.name != "" && Lookup(entries, e.name).None? && |entries| <= q && Place(q) <= n
    requires |junk| == RECORD && !HasString(junk, NAME_AT, e.name)
    ensures |b| == RECORD && !HasString(b, NAME_AT, e.name)
    ensures Scan(h, 0, junk, e.name) == Scan(h, Place(q), b, e.name)
  {
    assert h.Valid() && h.size == n + RECORD && Place(|entries|) <= n && Place(|entries|) <= CAPACITY;
    LinkedRecords(f, entries, n, e, rec, h);
    hide *;
    b := ScanIsLookup(h, entries, 0, junk, e.name);
    assert entries[0..] == entries;
    forall j: nat | |entries| <= j < q
      ensures QuietRecord(h, j, e.name)
    {
      NextRecord(j, q);
      HoleIsQuiet(f, entries, n, e, rec, h, j);
    }
    b := ScanPasses(h, |entries|, q, b, e.name);
  }

  lemma SizesThen(f: File, entries: seq<Entry>, n: nat, e: Entry, rec: seq<Byte>, h: File)
    requires Encodes(f, entries) && Linked(f, n, e, rec, h)
    ensures f.size == Place(|entries|) && h.Valid() && h.size == n + RECORD
  {
  }

  /** The window of a byte is not before the window of an earlier one. */
  lemma NotBefore(k: nat, q: nat, n: nat)
    requires Place(k) <= n < Place(q) + RECORD
    ensures k <= q && Place(k) <= Place(q)
  {
  }

  /** A window that starts with the record shows it. */
  lemma RecordIsShown(f: File, n: nat, e: Entry, rec: seq<Byte>, h: File, q: nat, b: seq<Byte>)
    requires Linked(f, n, e, rec, h) && n == Place(q) && n + RECORD <= CAPACITY && |b| == RECORD
    ensures Scan(h, n, b, e.name).found == Some(e.ino)
  {
    WritesRecord(WithSize(f, n), h, rec, n);
    hide Slice, HasString, IsRecord, AllPresent, Written, Window;
    RecordWindow(h, q, e, b);
    ShowsEntry(Window(h, n, b), e, e.name);
  }

  lemma AlignedIsFound(f: File, entries: seq<Entry>, n: nat, e: Entry, rec: seq<Byte>, h: File, junk: seq<Byte>, q: nat)
    requires Encodes(f, entries) && f.size <= n && n + RECORD <= CAPACITY && Linked(f, n, e, rec, h)
    requires e.name != "" && Lookup(entries, e.name).None? && n == Place(q)
    requires |junk| == RECORD && !HasString(junk, NAME_AT, e.name)
    ensures Scan(h, 0, junk, e.name).found == Some(e.ino)
  {
    assert n < Place(q) + RECORD;
    hide *;
    SizesThen(f, entries, n, e, rec, h);
    NotBefore(|entries|, q, n);
    var b := ReachesRecord(f, entries, n, e, rec, h, junk, q);
    RecordIsShown(f, n, e, rec, h, q, b);
  }

  /** The record of `e` written over a stack of zeros. */
  ghost predicate ZeroRecord(rec: seq<Byte>, e: Entry) {
    && |rec| == RECORD && |e.name| <= NAME_MAX
    && (forall j {:trigger rec[j]} :: 0 <= j < NAME_AT && j != INO_AT && j != INO_AT + 1 ==> rec[j] == '\0')
    && (forall j {:trigger rec[j]} :: NAME_AT <= j < RECORD ==>
          rec[j] == if j < NAME_AT + |e.name| then e.name[j - NAME_AT] else '\0')
  }

  lemma ZeroRecordExists(e: Entry) returns (rec: seq<Byte>)
    requires e.ino < 0x1_0000 && |e.name| <= NAME_MAX && '\0' !in e.name
    ensures IsRecord(rec, e) && ZeroRecord(rec, e)
  {
    rec := Record(NoBytes(NAME_AT), e);
  }

  predicate LacksNumber(s: Scanned) {
    s.found == None || s.found == Some(0)
  }

  /** The window in which a record starts too late: if it shows the name at all, then with the number 0. */
  lemma StartShowsNoNumber(f: File, entries: seq<Entry>, n: nat, e: Entry, rec: seq<Byte>, h: File, at: nat,
                           prev: seq<Byte>)
    requires Encodes(f, entries) && f.size <= at < n < at + RECORD && Linked(f, n, e, rec, h) && ZeroRecord(rec, e)
    requires e.name != "" && |prev| == RECORD && !HasString(prev, NAME_AT, e.name)
    ensures HasString(Window(h, at, prev), NAME_AT, e.name) ==> Ino(Window(h, at, prev)) == 0
  {
    assert h.Valid();
    hide Encodes, Linked, ByteAt, Readable, HasString;
    var b := Window(h, at, prev);
    if HasString(b, NAME_AT, e.name) {
      HasStringAt(b, NAME_AT, e.name, 0);
      if Readable(h, RECORD, at, 0) <= NAME_AT {
        SameTail(b, prev, NAME_AT, e.name);
        assert false;
      }
      InoIsZero(f, entries, n, e, rec, h, at);
    }
  }

  lemma InoIsZero(f: File, entries: seq<Entry>, n: nat, e: Entry, rec: seq<Byte>, h: File, at: nat)
    requires Encodes(f, entries) && f.size <= at < n < at + RECORD && Linked(f, n, e, rec, h) && ZeroRecord(rec, e)
    requires h.Valid() && ByteAt(h, at + NAME_AT) != '\0'
    ensures ByteAt(h, at + INO_AT) == '\0' && ByteAt(h, at + INO_AT + 1) == '\0'
  {
    hide Encodes, Linked, ByteAt;
    LinkedBytes(f, entries, n, e, rec, h, at + NAME_AT);
    LinkedBytes(f, entries, n, e, rec, h, at + INO_AT);
    LinkedBytes(f, entries, n, e, rec, h, at + INO_AT + 1);
    assert n - at <= NAME_AT && rec[NAME_AT - (n - at)] != '\0';
  }

  /** The next window, with the end of the record, shows at most the end of the name. */
  lemma EndIsQuiet(f: File, entries: seq<Entry>, n: nat, e: Entry, rec: seq<Byte>, h: File, at: nat)
    requires Encodes(f, entries) && f.size <= n < at < n + RECORD && Linked(f, n, e, rec, h) && ZeroRecord(rec, e)
    requires e.name != "" && n + RECORD <= CAPACITY && '\0' !in e.name
    ensures Quiet(h, at, e.name)
  {
    SizesThen(f, entries, n, e, rec, h);
    hide Encodes, Linked, ByteAt, Window, HasString;
    if at - n >= |e.name| || at + NAME_AT >= n + RECORD {
      LinkedBytes(f, entries, n, e, rec, h, at + NAME_AT);
      ZeroIsQuiet(h, at, e.name);
    } else {
      hide ZeroRecord;
      forall prev: seq<Byte> {:trigger Window(h, at, prev)} | |prev| == RECORD
        ensures !HasString(Window(h, at, prev), NAME_AT, e.name)
      {
        EndShowsLess(f, entries, n, e, rec, h, at, prev);
      }
    }
  }

  /** What it shows is shorter than the name. */
  lemma EndShowsLess(f: File, entries: seq<Entry>, n: nat, e: Entry, rec: seq<Byte>, h: File, at: nat, prev: seq<Byte>)
    requires Encodes(f, entries) && f.size <= n < at < n + RECORD && Linked(f, n, e, rec, h) && ZeroRecord(rec, e)
    requires n + RECORD <= CAPACITY && '\0' !in e.name && at - n < |e.name| && at + NAME_AT < n + RECORD
    requires |prev| == RECORD
    ensures !HasString(Window(h, at, prev), NAME_AT, e.name)
  {
    SizesThen(f, entries, n, e, rec, h);
    hide Encodes, Linked, ByteAt, HasString, Readable;
    var i := at - n;
    var stop := NAME_AT + |e.name| - i;
    LinkedBytes(f, entries, n, e, rec, h, at + stop);
    ReadsAll(f, entries, n, e, rec, h, at);
    assert Window(h, at, prev)[stop] == '\0';
    if HasString(Window(h, at, prev), NAME_AT, e.name) {
      HasStringAt(Window(h, at, prev), NAME_AT, e.name, |e.name| - i);
    }
  }

  /** All of the record is read. */
  lemma ReadsAll(f: File, entries: seq<Entry>, n: nat, e: Entry, rec: seq<Byte>, h: File, at: nat)
    requires Encodes(f, entries) && f.size <= n < at < n + RECORD && Linked(f, n, e, rec, h)
    requires n + RECORD <= CAPACITY
    ensures Readable(h, RECORD, at, 0) >= n + RECORD - at
  {
    LinkedBytes(f, entries, n, e, rec, h, at + Readable(h, RECORD, at, 0));
  }

  /** A record that does not start with a window is not found. */
  lemma UnalignedIsLost(f: File, entries: seq<Entry>, n: nat, e: Entry, rec: seq<Byte>, h: File, junk: seq<Byte>,
                        q: nat)
    requires Encodes(f, entries) && f.size <= n && n + RECORD <= CAPACITY && Linked(f, n, e, rec, h)
    requires ZeroRecord(rec, e) && '\0' !in e.name
    requires e.name != "" && Lookup(entries, e.name).None? && Place(q) < n < Place(q) + RECORD
    requires |junk| == RECORD && !HasString(junk, NAME_AT, e.name)
    ensures LacksNumber(Scan(h, 0, junk, e.name))
  {
    hide *;
    SizesThen(f, entries, n, e, rec, h);
    NotBefore(|entries|, q, n);
    var at := Place(q);
    var b := ReachesRecord(f, entries, n, e, rec, h, junk, q);
    StartShowsNoNumber(f, entries, n, e, rec, h, at, b);
    EndIsQuiet(f, entries, n, e, rec, h, at + RECORD);
    LastTwo(h, at, b, e.name);
  }

  lemma LastTwo(h: File, at: nat, b: seq<Byte>, name: string)
    requires h.Valid() && at + RECORD < h.size <= at + 2 * RECORD && |b| == RECORD
    requires HasString(Window(h, at, b), NAME_AT, name) ==> Ino(Window(h, at, b)) == 0
    requires Quiet(h, at + RECORD, name)
    ensures LacksNumber(Scan(h, at, b, name))
  {
    hide HasString, Window, Ino;
    var c := Window(h, at, b);
    if !HasString(c, NAME_AT, name) {
      var d := Window(h, at + RECORD, c);
      assert !HasString(d, NAME_AT, name);
      ScanEnds(h, at + RECORD + RECORD, d, name);
    }
  }

  /** After a read that leaves the directory with `n` bytes, the next entry created there is found, in all
      cases, exactly if `n` is a whole number of records. */
  lemma FoundAfterIff(f: File, entries: seq<Entry>, n: nat, e: Entry)
    requires Encodes(f, entries) && f.size <= n && n + RECORD <= CAPACITY
    requires 0 < e.ino < 0x1_0000 && 0 < |e.name| <= NAME_MAX && '\0' !in e.name && Lookup(entries, e.name).None?
    ensures FoundAfter(f, n, e) <==> n % RECORD == 0
  {
    hide Scan, HasString, IsRecord, Written, Lookup, Encodes;
    var q := WindowOf(n);
    if n == Place(q) {
      forall rec, h, junk | Linked(f, n, e, rec, h) && |junk| == RECORD && !HasString(junk, NAME_AT, e.name)
        ensures Scan(h, 0, junk, e.name).found == Some(e.ino)
      {
        AlignedIsFound(f, entries, n, e, rec, h, junk, q);
      }
    } else {
      var rec, h, junk := LosingRead(f, entries, n, e);
      assert !(Scan(h, 0, junk, e.name).found == Some(e.ino));
    }
  }

  /** A read that leaves part of a record, and an entry that is lost after it. */
  lemma LosingRead(f: File, entries: seq<Entry>, n: nat, e: Entry)
    returns (rec: seq<Byte>, h: File, junk: seq<Byte>)
    requires Encodes(f, entries) && f.size <= n && n + RECORD <= CAPACITY && n % RECORD != 0
    requires e.ino < 0x1_0000 && 0 < |e.name| <= NAME_MAX && '\0' !in e.name && Lookup(entries, e.name).None?
    ensures Linked(f, n, e, rec, h) && |junk| == RECORD && !HasString(junk, NAME_AT, e.name)
    ensures LacksNumber(Scan(h, 0, junk, e.name))
  {
    hide Scan, Lookup;
    var q := WindowOf(n);
    rec := ZeroRecordExists(e);
    h := LinkExists(f, n, e, rec);
    junk := NoBytes(RECORD);
    UnalignedIsLost(f, entries, n, e, rec, h, junk, q);
  }

  lemma LinkExists(f: File, n: nat, e: Entry, rec: seq<Byte>) returns (h: File)
    requires f.Valid() && n + RECORD <= CAPACITY && IsRecord(rec, e)
    ensures Linked(f, n, e, rec, h)
  {
    var g := WriteExists(WithSize(f, n), rec, n, RECORD);
    h := WithSize(g, n + RECORD);
    forall i
      ensures ByteWritten(WithSize(f, n), h, rec, n, RECORD, i)
    {
      assert ByteWritten(WithSize(f, n), g, rec, n, RECORD, i);
    }
  }

  /** One byte read from an empty directory is enough. */
  lemma EntryIsLost(e: Entry) returns (f: File, rec: seq<Byte>, h: File, junk: seq<Byte>)
    requires e.ino < 0x1_0000 && 0 < |e.name| <= NAME_MAX && '\0' !in e.name
    ensures Encodes(f, []) && f.size == 0 && Linked(f, 1, e, rec, h)
    ensures |junk| == RECORD && !HasString(junk, NAME_AT, e.name) && LacksNumber(Scan(h, 0, junk, e.name))
  {
    f := File(seq(DIRECT, _ => Absent), [], 0);
    assert Lookup([], e.name).None?;
    rec, h, junk := LosingRead(f, [], 1, e);
  }
}
