/** Directories as files of fixed-size records: create_hardlink and the loop of get_fromdir in
    src/usr/Daemons/VFS/FS/tmpFS/tmpfs.cpp. */
module DirectoryFile {
  import opened BlockFile
  import opened CStrings
  import opened Ramfs

  /** sizeof(dirent_t), and where d_ino and d_name lie in it, for 16-bit dev_t and ino_t. */
  const RECORD: nat := 266
  const INO_AT: nat := 4
  const NAME_AT: nat := 10
  const NAME_MAX: nat := 255

  // ---------------------------------------------------------------- records

  /** A record for `e`; what the other fields hold does not matter. */
  predicate IsRecord(rec: seq<Byte>, e: Entry) {
    && |rec| == RECORD && rec[INO_AT] as int + 256 * (rec[INO_AT + 1] as int) == e.ino
    && StrEnd(rec, NAME_AT) < RECORD && CStr(rec, NAME_AT) == e.name
  }

  /** The record that create_hardlink fills in, over whatever is on the stack. */
  function Record(garbage: seq<Byte>, e: Entry): (r: seq<Byte>)
    requires |garbage| == NAME_AT && e.ino < 0x1_0000 && |e.name| <= NAME_MAX && '\0' !in e.name
    ensures IsRecord(r, e)
  {
    var r := garbage[..INO_AT] + [(e.ino % 256) as char, (e.ino / 256) as char] + garbage[INO_AT + 2..]
             + e.name + NoBytes(NAME_MAX + 1 - |e.name|);
    assert r[NAME_AT..NAME_AT + |e.name|] == e.name;
    StrEndIs(r, NAME_AT, NAME_AT + |e.name|);
    r
  }

  /** The bytes of a file from `at` on. */
  function Slice(f: File, at: nat, n: nat): (r: seq<Byte>)
    requires f.Valid()
    ensures |r| == n && forall j {:trigger r[j]} :: 0 <= j < n ==> r[j] == ByteAt(f, at + j)
  {
    seq(n, j requires 0 <= j < n => ByteAt(f, at + j))
  }

  ghost predicate AllPresent(f: File, at: nat, n: nat)
    requires f.Valid()
  {
    forall i {:trigger Present(f, i)} :: at <= i < at + n ==> Present(f, i)
  }

  ghost predicate RecordAt(f: File, k: nat, e: Entry)
    requires f.Valid()
  {
    AllPresent(f, RECORD * k, RECORD) && IsRecord(Slice(f, RECORD * k, RECORD), e)
  }

  /** The records of the entries are there. */
  ghost predicate Records(f: File, entries: seq<Entry>)
    requires f.Valid()
  {
    forall k {:trigger RecordAt(f, k, entries[k])} :: 0 <= k < |entries| ==> RecordAt(f, k, entries[k])
  }

  predicate ZeroBehind(f: File, i: nat)
    requires f.Valid()
  {
    i >= f.size ==> ByteAt(f, i) == '\0'
  }

  /** The file of a directory with these entries; the rest of its last block is still zero. */
  ghost predicate Encodes(f: File, entries: seq<Entry>) {
    && f.Valid() && f.size == RECORD * |entries| && Records(f, entries)
    && forall i {:trigger ZeroBehind(f, i)} :: ZeroBehind(f, i)
  }

  /** The bytes of a directory: records of 266 bytes, the number at place 4, low byte first, the name from place 10
      on, up to a zero. */
  lemma DirectoryBytes(f: File, entries: seq<Entry>, k: nat, j: nat)
    requires Encodes(f, entries) && k < |entries| && j <= |entries[k].name|
    ensures f.size == 266 * |entries| && |entries[k].name| < 256
    ensures ByteAt(f, 266 * k + 4) as int + 256 * (ByteAt(f, 266 * k + 5) as int) == entries[k].ino
    ensures ByteAt(f, 266 * k + 10 + j) == if j < |entries[k].name| then entries[k].name[j] else '\0'
  {
    assert RecordAt(f, k, entries[k]);
    var rec := Slice(f, 266 * k, 266);
    RecordBytes(rec, entries[k], j);
  }

  lemma RecordBytes(rec: seq<Byte>, e: Entry, j: nat)
    requires IsRecord(rec, e) && j <= |e.name|
    ensures |rec| == 266 && |e.name| < 256 && rec[4] as int + 256 * (rec[5] as int) == e.ino
    ensures rec[10 + j] == if j < |e.name| then e.name[j] else '\0'
  {
    assert j < |e.name| ==> rec[10..StrEnd(rec, 10)][j] == rec[10 + j];
  }

  lemma PresentAt(f: File, at: nat, n: nat, k: nat)
    requires f.Valid() && AllPresent(f, at, n)
    ensures k < n ==> Present(f, at + k)
  {
  }

  /** Reading a record that is there gives exactly its bytes. */
  lemma ReadsRecord(f: File, at: nat, buf: seq<Byte>)
    requires f.Valid() && AllPresent(f, at, RECORD) && at + RECORD <= CAPACITY && IsRead(f, RECORD, at, buf)
    ensures buf == Slice(f, at, RECORD)
  {
    PresentAt(f, at, RECORD, |buf|);
    forall j | 0 <= j < RECORD
      ensures buf[j] == ByteAt(f, at + j)
    {
      assert ByteRead(f, at, buf, j);
    }
  }

  lemma SmallOffset(x: nat)
    requires x < CAPACITY
    ensures x % WRAP == x
  {
  }

  lemma WritesRecord(f: File, g: File, rec: seq<Byte>, at: nat)
    requires f.Valid() && g.Valid() && |rec| == RECORD && Written(f, g, rec, at, RECORD)
    ensures AllPresent(g, at, RECORD) && Slice(g, at, RECORD) == rec
  {
    forall i: nat {:trigger Present(g, i)} | at <= i < at + RECORD
      ensures Present(g, i) && ByteAt(g, i) == rec[i - at]
    {
      assert ByteWritten(f, g, rec, at, RECORD, i);
    }
    forall j | 0 <= j < RECORD
      ensures Slice(g, at, RECORD)[j] == rec[j]
    {
      assert ByteWritten(f, g, rec, at, RECORD, at + j);
    }
  }

  lemma WriteKeepsRecord(f: File, g: File, rec: seq<Byte>, at: nat, before: nat)
    requires f.Valid() && g.Valid() && |rec| == RECORD && Written(f, g, rec, at, RECORD)
    requires before + RECORD <= at && AllPresent(f, before, RECORD)
    ensures AllPresent(g, before, RECORD) && Slice(g, before, RECORD) == Slice(f, before, RECORD)
  {
    forall i: nat {:trigger Present(g, i)} | before <= i < before + RECORD
      ensures Present(g, i)
    {
      assert Present(f, i);
      assert ByteWritten(f, g, rec, at, RECORD, i);
    }
    forall j | 0 <= j < RECORD
      ensures Slice(g, before, RECORD)[j] == Slice(f, before, RECORD)[j]
    {
      assert ByteWritten(f, g, rec, at, RECORD, before + j);
    }
  }

  /** create_hardlink: writing a record at the end adds an entry and keeps the others. */
  lemma RecordAppends(f: File, g: File, entries: seq<Entry>, e: Entry, rec: seq<Byte>)
    requires Encodes(f, entries) && g.Valid() && IsRecord(rec, e)
    requires Written(f, g, rec, f.size, RECORD) && g.size == f.size + RECORD
    ensures Encodes(g, entries + [e])
  {
    var all := entries + [e];
    forall i
      ensures ZeroBehind(g, i)
    {
      assert ZeroBehind(f, i) && ByteWritten(f, g, rec, f.size, RECORD, i);
    }
    forall k {:trigger RecordAt(g, k, all[k])} | 0 <= k < |all|
      ensures RecordAt(g, k, all[k])
    {
      if k < |entries| {
        assert RecordAt(f, k, entries[k]);
        WriteKeepsRecord(f, g, rec, f.size, RECORD * k);
      } else {
        WritesRecord(f, g, rec, f.size);
      }
    }
  }
}
