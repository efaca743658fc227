/** The mounted file system of src/usr/Daemons/VFS/FS/tmpFS/tmpfs.cpp in memory: nodes with block files,
    paths in character buffers that are cut at a slash and mended, and the loading of the tar image. */
module MountedRamfs {
  import opened Basics
  import BlockFile
  import opened ChunkList
  import opened CStrings
  import opened Ramfs
  import opened DirectoryFile
  import DirectoryScan

  const FS_FILE: nat := 1
  const FS_DIRECTORY: nat := 2

  /** The capacity of the chunks of my_nodes. */
  const NODES_PER_CHUNK: nat := 100

  /** From this many nodes on a directory could grow past the capacity of a file. */
  const MAX_NODES: nat := 8053

  /** struct ramfs_node. */
  class RamfsNode {
    var flags: nat
    var ino: nat
    const name: string
    const file: BlockFile.Node

    constructor (final: string)
      ensures flags == 1 && name == final && fresh(file)
      ensures file.Value() == EmptyFile()
    {
      flags, ino, name := FS_FILE, 0, final;
      file := new BlockFile.Node();
    }
  }

  function EmptyFile(): (f: BlockFile.File)
    ensures f.Valid()
  {
    BlockFile.File(seq(BlockFile.DIRECT, _ => BlockFile.Absent), [], 0)
  }

  function Enlarged(f: BlockFile.File, end: nat): BlockFile.File {
    f.(size := BlockFile.Larger(f.size, end))
  }

  // ---------------------------------------------------------------- path buffers

  /** The C string at `p` is `path`, and a slash stands before it: callers pass the part of a path
      behind its mount point, or behind the "./" of an archived name. */
  predicate Points(m: string, p: nat, path: string) {
    1 <= p <= |m| && m[p - 1] == '/' && HasString(m, p, path)
  }

  /** What get_fromdir looks up: the first component, or all of it if it starts with a slash. */
  function Key(path: string): string {
    var s := SlashAt(path);
    if 0 < s < |path| then path[..s] else path
  }

  /** Where it writes its NUL: find returns -1 when there is no slash, which counts as true. */
  function CutPlace(p: nat, path: string): int {
    if SlashAt(path) == |path| then p - 1 else p + SlashAt(path)
  }

  /** The buffer between the cut and the mending. */
  function CutAt(m: string, p: nat, path: string): string
    requires 1 <= p && p + |path| < |m|
  {
    if SlashAt(path) == 0 && path != "" then m else m[CutPlace(p, path) := '\0']
  }

  /** After a failure one slash may be left overwritten. */
  predicate Damaged(m: string, n: string) {
    n == m || exists q :: 0 <= q < |m| && m[q] == '/' && n == m[q := '\0']
  }

  lemma PointsFits(m: string, p: nat, path: string)
    requires Points(m, p, path)
    ensures p + |path| < |m|
  {
    HasStringIs(m, p, path);
  }

  lemma CutKey(m: string, p: nat, path: string)
    requires Points(m, p, path)
    ensures p + |path| < |m| && 0 <= CutPlace(p, path) < |m| && m[CutPlace(p, path)] == '/'
    ensures |CutAt(m, p, path)| == |m| && HasString(CutAt(m, p, path), p, Key(path))
    ensures CutAt(m, p, path)[CutPlace(p, path) := '/'] == m
  {
    HasStringIs(m, p, path);
    var s, c, k := SlashAt(path), CutAt(m, p, path), Key(path);
    if s < |path| {
      HasStringAt(m, p, path, s);
    }
    assert c[p..p + |k|] == m[p..p + |path|][..|k|];
    HasStringIs(c, p, k);
  }

  /** The rest of the path starts behind its first slash. */
  lemma RestOfPath(m: string, p: nat, path: string)
    requires Points(m, p, path) && SlashAt(path) < |path|
    ensures Points(m, p + SlashAt(path) + 1, path[SlashAt(path) + 1..])
  {
    HasStringAt(m, p, path, SlashAt(path));
    HasStringAt(m, p, path, SlashAt(path) + 1);
  }

  /** The directory that the first component of a path names, if there is one. */
  function Below(t: Tree, d: nat, path: string): Option<nat>
    requires d < |t| && t[d].Dir?
  {
    var found := Lookup(t[d].entries, Key(path));
    if found.Some? && found.value < |t| && t[found.value].Dir? then found else None
  }

  /** One round of resolve_path on the tree. */
  lemma ResolveRound(t: Tree, d: nat, path: string)
    requires d < |t| && t[d].Dir? && SlashAt(path) < |path|
    ensures var below := Below(t, d, path);
            Resolve(t, d, path) ==
            if below.None? then Nowhere else Resolve(t, below.value, path[SlashAt(path) + 1..])
  {
    hide Lookup, SlashAt, Resolve;
    OneResolve(t, d, path);
    var i := SlashAt(path);
    assert Key(path) == if i == 0 then path else path[..i];
  }

  lemma ResolveEnd(t: Tree, d: nat, path: string)
    requires d < |t| && t[d].Dir? && SlashAt(path) == |path|
    ensures Resolve(t, d, path) == In(d, path)
  {
  }

  lemma OneResolve(t: Tree, d: nat, path: string)
    requires d < |t| && t[d].Dir? && SlashAt(path) < |path|
    ensures var i := SlashAt(path);
            var found := Lookup(t[d].entries, if i == 0 then path else path[..i]);
            Resolve(t, d, path) ==
            if found.Some? && found.value < |t| && t[found.value].Dir? then Resolve(t, found.value, path[i + 1..])
            else Nowhere
  {
    hide Lookup, SlashAt;
  }

  /** find with the string "/": the index of the first slash, or -1. */
  method Find(buf: array<char>, p: nat, ghost path: string) returns (r: int)
    requires Points(buf[..], p, path)
    ensures r == if SlashAt(path) == |path| then -1 else SlashAt(path)
  {
    var i: nat := 0;
    PointsFits(buf[..], p, path);
    HasStringAt(buf[..], p, path, 0);
    while buf[p + i] != '\0'
      invariant i <= SlashAt(path) && p + i < buf.Length
      invariant if i < |path| then buf[p + i] == path[i] && path[i] != '\0' else buf[p + i] == '\0'
      decreases |path| - i
    {
      FirstSlash(path, i);
      HasStringAt(buf[..], p, path, i + 1);
      if buf[p + i] == '/' {
        return i;
      }
      i := i + 1;
    }
    return -1;
  }

  /** The path that mkdir creates: one slash at the end is taken off. */
  function Stripped(path: string): string {
    if path != "" && path[|path| - 1] == '/' then path[..|path| - 1] else path
  }

  function StrippedAt(m: string, p: nat, path: string): string
    requires p + |path| < |m|
  {
    if path != "" && path[|path| - 1] == '/' then m[p + |path| - 1 := '\0'] else m
  }

  lemma StripPoints(m: string, p: nat, path: string)
    requires Points(m, p, path) && path != ""
    ensures p + |path| < |m| && m[p + |path| - 1] == path[|path| - 1]
    ensures Points(StrippedAt(m, p, path), p, Stripped(path))
  {
    HasStringIs(m, p, path);
    HasStringAt(m, p, path, |path| - 1);
    var c, k := StrippedAt(m, p, path), Stripped(path);
    assert c[p..p + |k|] == m[p..p + |path|][..|k|];
    HasStringIs(c, p, k);
  }

  /** The last name of the path fits into a directory entry. */
  predicate NameFits(t: Tree, path: string)
    requires t != [] && t[0].Dir?
  {
    var r := Resolve(t, 0, path);
    r.In? ==> |r.name| <= NAME_MAX
  }

  lemma FirstNode()
    ensures WellFormed([Zeros(NODES_PER_CHUNK)], NODES_PER_CHUNK)
    ensures OnlyAdded(Added([Zeros(NODES_PER_CHUNK)], 1, NODES_PER_CHUNK), 1, NODES_PER_CHUNK)
  {
    NoneAdded(NODES_PER_CHUNK);
    OneMoreAdded([Zeros(NODES_PER_CHUNK)], 0, NODES_PER_CHUNK);
  }

  // ---------------------------------------------------------------- the mount point

  class MountPoint {
    /** my_nodes, and the nodes its entries stand for: entry k + 1 is nodes[k]. */
    var myNodes: Chunks
    var nodes: seq<RamfsNode>
    ghost var tree: Tree

    ghost function Files(): set<BlockFile.Node>
      reads this
    {
      set n | n in nodes :: n.file
    }

    ghost predicate ValidNode(i: nat)
      requires i < |nodes| == |tree|
      reads this, nodes, Files()
    {
      var f := nodes[i].file.Value();
      if nodes[i].flags == FS_DIRECTORY then
        && tree[i].Dir? && Encodes(f, tree[i].entries) && |tree[i].entries| < |tree|
        && forall k {:trigger tree[i].entries[k]} :: 0 <= k < |tree[i].entries| ==> tree[i].entries[k].ino < |tree|
      else
        tree[i] == Reg(f) && f.Valid()
    }

    ghost predicate Valid()
      reads this, nodes, Files()
    {
      && 0 < |nodes| == |tree| <= MAX_NODES && tree[0].Dir? && OnlyAdded(myNodes, |nodes|, NODES_PER_CHUNK)
      && (forall i {:trigger ValidNode(i)} :: 0 <= i < |nodes| ==> ValidNode(i))
      && (forall i, j :: 0 <= i < j < |nodes| ==> nodes[i] != nodes[j] && nodes[i].file != nodes[j].file)
    }

    constructor ()
      ensures Valid() && tree == [Dir([])] && fresh(nodes) && fresh(Files())
    {
      var root := new RamfsNode("");
      root.flags := FS_DIRECTORY;
      nodes, tree := [root], [Dir([])];
      FirstNode();
      myNodes := Added([Zeros(NODES_PER_CHUNK)], 1, NODES_PER_CHUNK);
      new;
      assert ValidNode(0);
    }

    /** The loop of get_fromdir on a directory of the tree. */
    method Search(dir: RamfsNode, ghost d: nat, name: string) returns (r: Option<nat>)
      requires Valid() && d < |nodes| && dir == nodes[d] && tree[d].Dir?
      modifies dir.file`size
      ensures dir.file.Value() == old(dir.file.Value()) && r == Lookup(tree[d].entries, name)
    {
      hide OnlyAdded;
      assert ValidNode(d);
      assert |BlockFile.NoBytes(RECORD)| == RECORD;
      var stack: seq<BlockFile.Byte> :| |stack| == RECORD;
      DirectoryScan.IntactScan(dir.file.Value(), tree[d].entries, stack, name);
      r := DirectoryScan.ScanDirectory(dir.file, stack, name);
    }

    /** get_fromdir. */
    method GetFromDir(dir: RamfsNode, ghost d: nat, buf: array<char>, p: nat, ghost path: string)
      returns (r: RamfsNode?)
      requires Valid() && d < |nodes| && dir == nodes[d] && tree[d].Dir? && Points(buf[..], p, path)
      modifies buf, dir.file`size
      ensures Valid()
      ensures var found := Lookup(tree[d].entries, Key(path));
              && r == (if found.Some? && found.value < |nodes| then nodes[found.value] else null)
              && p + |path| < buf.Length
              && buf[..] == if found.Some? then old(buf[..]) else CutAt(old(buf[..]), p, path)
    {
      hide OnlyAdded, ValidNode, GetByIndex, HasString, SlashAt, Lookup;
      ghost var m := buf[..];
      CutKey(m, p, path);
      var slash := Find(buf, p, path);
      if slash != 0 {
        buf[p + slash] := '\0';
      }
      assert buf[..] == CutAt(m, p, path);
      Untouched();
      StringIsCStr(buf[..], p, Key(path));
      var found := Search(dir, d, CStr(buf[..], p));
      Untouched();
      if found.None? {
        return null;
      }
      if slash != 0 {
        buf[p + slash] := '/';
      }
      Untouched();
      return GetByIndex(found.value);
    }

    /** Validity depends on the nodes and the values of their files only. */
    twostate lemma Untouched()
      requires old(Valid()) && unchanged(this) && forall n :: n in nodes ==> unchanged(n)
      requires forall n :: n in nodes ==> n.file.Value() == old(n.file.Value())
      ensures Valid()
    {
      forall i | 0 <= i < |nodes|
        ensures ValidNode(i)
      {
        assert old(ValidNode(i));
        assert nodes[i] in nodes && nodes[i].file.Value() == old(nodes[i].file.Value());
      }
    }

    /** alist_get_by_index on my_nodes. */
    function GetByIndex(i: nat): (r: RamfsNode?)
      requires OnlyAdded(myNodes, |nodes|, NODES_PER_CHUNK)
      reads this
      ensures r == if i < |nodes| then nodes[i] else null
    {
      if i < |Contents(myNodes)| then nodes[Contents(myNodes)[i] - 1] else null
    }

    /** The body of the loop of resolve_path: down into the directory that the first component names. */
    method Descend(dir: RamfsNode, ghost d: nat, buf: array<char>, p: nat, ghost path: string)
      returns (r: RamfsNode?, ghost e: nat)
      requires Valid() && d < |nodes| && dir == nodes[d] && tree[d].Dir? && Points(buf[..], p, path)
      modifies buf, dir.file`size
      ensures Valid()
      ensures var below := Below(tree, d, path);
              if below.Some? then e == below.value && r == nodes[e] && buf[..] == old(buf[..])
              else r == null && Damaged(old(buf[..]), buf[..])
    {
      hide OnlyAdded;
      CutKey(buf[..], p, path);
      ghost var found := Lookup(tree[d].entries, Key(path));
      e := 0;
      r := GetFromDir(dir, d, buf, p, path);
      if r == null {
        return;
      }
      e := found.value;
      assert ValidNode(e);
      if r.flags != FS_DIRECTORY {
        return null, e;
      }
    }

    /** resolve_path: the directory and where the last name starts. */
    method ResolvePath(buf: array<char>, p: nat, ghost path: string) returns (r: RamfsNode?, final: nat)
      requires Valid() && Points(buf[..], p, path)
      modifies buf, Files()
      ensures Valid()
      ensures match Resolve(tree, 0, path)
              case Nowhere => r == null && Damaged(old(buf[..]), buf[..])
              case In(d, name) => r == nodes[d] && buf[..] == old(buf[..]) && Points(buf[..], final, name)
    {
      hide OnlyAdded, ValidNode, HasString, Points, Damaged, Resolve, SlashAt;
      ghost var m, rest := buf[..], path;
      ghost var d: nat := 0;
      r, final := nodes[0], p;
      while true
        invariant Valid() && buf[..] == m
        invariant d < |nodes| && r == nodes[d] && tree[d].Dir? && Points(m, final, rest)
        invariant Resolve(tree, 0, path) == Resolve(tree, d, rest)
        decreases |rest|
      {
        var off := Find(buf, final, rest);
        if off < 0 {
          ResolveEnd(tree, d, rest);
          return;
        }
        r, d := ResolveNext(r, d, buf, final, rest);
        if r == null {
          return;
        }
        rest := rest[SlashAt(rest) + 1..];
        final := final + off + 1;
      }
    }

    /** One round of its loop, seen on what is left of the path. */
    method ResolveNext(dir: RamfsNode, ghost d: nat, buf: array<char>, p: nat, ghost path: string)
      returns (r: RamfsNode?, ghost e: nat)
      requires Valid() && d < |nodes| && dir == nodes[d] && tree[d].Dir? && Points(buf[..], p, path)
      requires SlashAt(path) < |path|
      modifies buf, dir.file`size
      ensures Valid()
      ensures r == null ==> Resolve(tree, d, path) == Nowhere && Damaged(old(buf[..]), buf[..])
      ensures r != null ==>
                && e < |nodes| && r == nodes[e] && tree[e].Dir? && buf[..] == old(buf[..])
                && Points(buf[..], p + SlashAt(path) + 1, path[SlashAt(path) + 1..])
                && Resolve(tree, d, path) == Resolve(tree, e, path[SlashAt(path) + 1..])
    {
      hide OnlyAdded, ValidNode, HasString, Points, Damaged, Resolve, SlashAt, Lookup;
      ResolveRound(tree, d, path);
      RestOfPath(buf[..], p, path);
      r, e := Descend(dir, d, buf, p, path);
    }

    /** The last step of stat: the name has no slash. */
    method LookupLast(dir: RamfsNode, ghost d: nat, buf: array<char>, p: nat, ghost name: string)
      returns (r: RamfsNode?)
      requires Valid() && d < |nodes| && dir == nodes[d] && tree[d].Dir?
      requires Points(buf[..], p, name) && '/' !in name
      modifies buf, dir.file`size
      ensures Valid()
      ensures var found := Lookup(tree[d].entries, name);
              if found.Some? && found.value < |tree| then r == nodes[found.value] && buf[..] == old(buf[..])
              else r == null && Damaged(old(buf[..]), buf[..])
    {
      hide OnlyAdded;
      CutKey(buf[..], p, name);
      assert ValidNode(d);
      r := GetFromDir(dir, d, buf, p, name);
    }

    /** stat. */
    method Stat(buf: array<char>, p: nat, ghost path: string) returns (r: RamfsNode?)
      requires Valid() && Points(buf[..], p, path)
      modifies buf, Files()
      ensures Valid()
      ensures match Ramfs.Stat(tree, path)
              case None => r == null && Damaged(old(buf[..]), buf[..])
              case Some(k) => r == nodes[k] && buf[..] == old(buf[..])
    {
      hide OnlyAdded;
      ghost var resolved := Resolve(tree, 0, path);
      var dir, final := ResolvePath(buf, p, path);
      if dir == null {
        return null;
      }
      r := LookupLast(dir, resolved.dir, buf, final, resolved.name);
    }

    /** pread. Reading a directory beyond its end enlarges it, and exactly that breaks the mount point:
        the records that were added to the size are not there. */
    method Pread(buf: array<char>, p: nat, nbytes: nat, off: nat, ghost path: string)
      returns (out: seq<BlockFile.Byte>, ghost f: BlockFile.File)
      requires Valid() && Points(buf[..], p, path)
      modifies this`tree, buf, Files()
      ensures match Ramfs.Stat(old(tree), path)
              case None => Valid() && out == [] && tree == old(tree) && Damaged(old(buf[..]), buf[..])
              case Some(k) =>
                && f.Valid() && IsContents(old(tree)[k], f) && buf[..] == old(buf[..])
                && BlockFile.IsRead(f, nbytes, off % BlockFile.WRAP, out)
                && tree == (if old(tree)[k].Reg? then old(tree)[k := Reg(Enlarged(f, off + nbytes))] else old(tree))
                && nodes[k].file.Value() == Enlarged(f, off + nbytes)
                && (Valid() <==> old(tree)[k].Reg? || off + nbytes <= f.size)
    {
      hide OnlyAdded, HasString, Points, Damaged, Resolve, SlashAt, Lookup, BlockFile.IsRead;
      ghost var found := Ramfs.Stat(tree, path);
      var node := Stat(buf, p, path);
      if node == null {
        return [], EmptyFile();
      }
      out, f := ReadNode(node, found.value, nbytes, off);
    }

    /** The read of pread, from node `k`. */
    method ReadNode(node: RamfsNode, ghost k: nat, nbytes: nat, off: nat)
      returns (out: seq<BlockFile.Byte>, ghost f: BlockFile.File)
      requires Valid() && k < |nodes| && node == nodes[k]
      modifies this`tree, node.file`size
      ensures f.Valid() && IsContents(old(tree)[k], f) && BlockFile.IsRead(f, nbytes, off % BlockFile.WRAP, out)
      ensures tree == (if old(tree)[k].Reg? then old(tree)[k := Reg(Enlarged(f, off + nbytes))] else old(tree))
      ensures node.file.Value() == Enlarged(f, off + nbytes)
      ensures Valid() <==> old(tree)[k].Reg? || off + nbytes <= f.size
    {
      hide OnlyAdded, Lookup, BlockFile.IsRead;
      assert ValidNode(k);
      f := node.file.Value();
      out := node.file.ReadFromNode(nbytes, off);
      if tree[k].Reg? {
        tree := tree[k := Reg(node.file.Value())];
      }
      forall i | 0 <= i < |nodes| && i != k
        ensures ValidNode(i)
      {
        assert old(ValidNode(i));
      }
      assert ValidNode(k) <==> tree[k].Reg? || off + nbytes <= f.size;
    }

    /** `f` holds what node `n` of the tree says. */
    static ghost predicate IsContents(n: Inode, f: BlockFile.File) {
      if n.Reg? then n == Reg(f) else Encodes(f, n.entries)
    }

    /** The new node of create, at the end of my_nodes. */
    method AddNode(name: string) returns (node: RamfsNode)
      requires Valid() && |nodes| < MAX_NODES
      modifies this
      ensures Valid() && fresh(node) && fresh(node.file) && nodes == old(nodes) + [node]
      ensures tree == old(tree) + [Reg(EmptyFile())]
      ensures node.flags == FS_FILE && node.ino == |old(nodes)| && node.name == name
    {
      hide OnlyAdded, WellFormed, Added, IndexOf;
      node := new RamfsNode(name);
      OneMoreAdded(myNodes, |nodes|, NODES_PER_CHUNK);
      nodes, tree := nodes + [node], tree + [Reg(EmptyFile())];
      myNodes := Added(myNodes, |nodes|, NODES_PER_CHUNK);
      node.ino := IndexOf(myNodes, |nodes|) % 0x1_0000;
      forall i | 0 <= i < |nodes|
        ensures ValidNode(i)
      {
        assert i < |old(nodes)| ==> old(ValidNode(i));
      }
    }

    /** create_hardlink. */
    method CreateHardlink(dir: RamfsNode, ghost d: nat, to: RamfsNode)
      requires Valid() && d < |nodes| && dir == nodes[d] && tree[d].Dir? && |tree[d].entries| + 1 < |tree|
      requires to.ino < |nodes| && |to.name| <= NAME_MAX && '\0' !in to.name
      modifies this`tree, dir.file
      ensures Valid() && tree == old(tree)[d := Dir(old(tree)[d].entries + [Entry(to.name, to.ino)])]
    {
      hide OnlyAdded;
      assert ValidNode(d);
      assert |BlockFile.NoBytes(NAME_AT)| == NAME_AT;
      var stack: seq<BlockFile.Byte> :| |stack| == NAME_AT;
      var rec := Record(stack, Entry(to.name, to.ino));
      ghost var f, entries := dir.file.Value(), tree[d].entries;
      SmallOffset(dir.file.size);
      var written := dir.file.WriteToNode(rec, dir.file.size);
      RecordAppends(f, dir.file.Value(), entries, Entry(to.name, to.ino), rec);
      tree := tree[d := Dir(entries + [Entry(to.name, to.ino)])];
      forall i | 0 <= i < |nodes|
        ensures ValidNode(i)
      {
        assert old(ValidNode(i));
      }
    }

    /** create: a new file; null if its directory is not there. */
    method Create(buf: array<char>, p: nat, ghost path: string) returns (r: RamfsNode?)
      requires Valid() && |nodes| < MAX_NODES && Points(buf[..], p, path) && NameFits(tree, path)
      modifies this, buf, Files()
      ensures Valid()
      ensures match Ramfs.Create(old(tree), path, Reg(EmptyFile()))
              case None => r == null && tree == old(tree) && nodes == old(nodes) && Damaged(old(buf[..]), buf[..])
              case Some(t) =>
                && r != null && fresh(r) && fresh(r.file) && r.flags == FS_FILE
                && tree == t && nodes == old(nodes) + [r] && buf[..] == old(buf[..])
    {
      hide OnlyAdded;
      ghost var resolved := Resolve(tree, 0, path);
      var dir, final := ResolvePath(buf, p, path);
      if dir == null {
        return null;
      }
      r := CreateIn(dir, resolved.dir, buf, final, resolved.name);
    }

    /** The second half of create: a node and an entry for it. */
    method CreateIn(dir: RamfsNode, ghost d: nat, buf: array<char>, final: nat, ghost name: string)
      returns (r: RamfsNode)
      requires Valid() && |nodes| < MAX_NODES && d < |nodes| && dir == nodes[d] && tree[d].Dir?
      requires HasString(buf[..], final, name) && |name| <= NAME_MAX
      modifies this, dir.file
      ensures Valid() && fresh(r) && fresh(r.file) && r.flags == FS_FILE && nodes == old(nodes) + [r]
      ensures tree == Linked(old(tree), d, name, Reg(EmptyFile()))
    {
      hide OnlyAdded;
      assert ValidNode(d);
      StringIsCStr(buf[..], final, name);
      r := AddNode(CStr(buf[..], final));
      CreateHardlink(dir, d, r);
    }

    /** mkdir; it returns nothing, `made` says whether its create did something. A slash at the end of
        the path is overwritten for good. */
    method Mkdir(buf: array<char>, p: nat, ghost path: string) returns (ghost made: bool)
      requires Valid() && |nodes| < MAX_NODES && Points(buf[..], p, path) && path != ""
      requires NameFits(tree, Stripped(path))
      modifies this, buf, Files()
      ensures Valid() && p + |path| < buf.Length
      ensures match Ramfs.Create(old(tree), Stripped(path), Dir([]))
              case None => !made && tree == old(tree) && nodes == old(nodes)
              case Some(t) =>
                && made && tree == t && nodes[..|nodes| - 1] == old(nodes)
                && fresh(nodes[|nodes| - 1]) && fresh(nodes[|nodes| - 1].file)
                && buf[..] == StrippedAt(old(buf[..]), p, path)
    {
      hide OnlyAdded;
      StripPoints(buf[..], p, path);
      var n := Strlen(buf, p, path);
      if buf[p + n - 1] == '/' {
        buf[p + n - 1] := '\0';
      }
      Untouched();
      var node := Create(buf, p, Stripped(path));
      if node == null {
        return false;
      }
      MakeDirectory(node);
      return true;
    }

    /** The first write to a new file. */
    method WriteNew(node: RamfsNode, data: seq<BlockFile.Byte>) returns (ghost f: BlockFile.File)
      requires Valid() && node == nodes[|nodes| - 1] && tree[|nodes| - 1] == Reg(EmptyFile())
      requires |data| <= BlockFile.CAPACITY
      modifies this`tree, node.file
      ensures Valid() && tree == old(tree)[|nodes| - 1 := Reg(f)] && Holds(f, data)
    {
      hide OnlyAdded;
      assert ValidNode(|nodes| - 1);
      var written := node.file.WriteToNode(data, 0);
      f := node.file.Value();
      StoredHolds(EmptyFile(), f, data);
      tree := tree[|nodes| - 1 := Reg(f)];
      forall i | 0 <= i < |nodes|
        ensures ValidNode(i)
      {
        assert old(ValidNode(i));
      }
    }

    /** The flags of a new node are set. */
    method MakeDirectory(node: RamfsNode)
      requires Valid() && node == nodes[|nodes| - 1] && tree[|nodes| - 1] == Reg(EmptyFile())
      modifies this`tree, node`flags
      ensures Valid() && tree == old(tree)[|nodes| - 1 := Dir([])] && node.flags == 2
    {
      hide OnlyAdded;
      assert ValidNode(|nodes| - 1);
      node.flags := FS_DIRECTORY;
      tree := tree[|nodes| - 1 := Dir([])];
      forall i | 0 <= i < |nodes|
        ensures ValidNode(i)
      {
        assert old(ValidNode(i));
      }
    }
  }
}
