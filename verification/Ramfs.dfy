/** Directories, path resolution and the initial archive of src/usr/Daemons/VFS/FS/tmpFS/tmpfs.cpp,
    as a tree: every node has a number, a directory is a list of names and numbers. */
module Ramfs {
  import opened Basics
  import opened BlockFile

  datatype Entry = Entry(name: string, ino: nat)

  /** The root is node 0; nodes are only ever added. */
  datatype Inode = Dir(entries: seq<Entry>) | Reg(file: File)

  type Tree = seq<Inode>

  // ---------------------------------------------------------------- names and paths

  /** The index of the first slash, |s| if there is none. */
  function SlashAt(s: string): (i: nat)
    ensures i <= |s| && (i < |s| ==> s[i] == '/')
    ensures i < |s| <==> '/' in s
  {
    if s == "" || s[0] == '/' then 0 else 1 + SlashAt(s[1..])
  }

  lemma {:induction false} BeforeSlash(s: string)
    ensures '/' !in s[..SlashAt(s)]
  {
    if s != "" && s[0] != '/' {
      BeforeSlash(s[1..]);
      assert s[..SlashAt(s)] == [s[0]] + s[1..][..SlashAt(s[1..])];
    }
  }

  lemma FirstSlash(s: string, i: nat)
    requires i <= SlashAt(s) && i < |s|
    ensures s[i] == '/' <==> i == SlashAt(s)
  {
    BeforeSlash(s);
    assert i < SlashAt(s) ==> s[..SlashAt(s)][i] == s[i];
  }

  /** A name of a directory entry. */
  predicate IsName(s: string) {
    s != "" && '/' !in s
  }

  /** Names separated by single slashes. */
  predicate IsPath(s: string)
    decreases |s|
  {
    var i := SlashAt(s);
    i > 0 && (i < |s| ==> IsPath(s[i + 1..]))
  }

  /** The path of entry `name` of the directory with path `dir` (empty for the root). */
  function Join(dir: string, name: string): string {
    if dir == "" then name else dir + "/" + name
  }

  lemma {:induction false} SlashAfter(a: string, b: string)
    requires '/' !in a
    ensures SlashAt(a + "/" + b) == |a|
  {
    if a != "" {
      assert (a + "/" + b)[1..] == a[1..] + "/" + b;
      SlashAfter(a[1..], b);
    }
  }

  lemma LastSlash(a: string, m: string, k: nat)
    requires '/' !in m && k < |a + "/" + m| && (a + "/" + m)[k] == '/'
    ensures k <= |a|
  {
    assert forall j :: |a| < j < |a + "/" + m| ==> (a + "/" + m)[j] == m[j - |a| - 1];
  }

  /** Joined paths are equal only if both parts are. */
  lemma JoinInjective(a: string, m: string, b: string, n: string)
    requires '/' !in m && '/' !in n && a + "/" + m == b + "/" + n
    ensures a == b && m == n
  {
    var s := a + "/" + m;
    assert s[|a|] == '/' && s[|b|] == '/';
    LastSlash(a, m, |b|);
    LastSlash(b, n, |a|);
    assert s[..|a|] == a && s[..|b|] == b;
    assert s[|a| + 1..] == m && s[|b| + 1..] == n;
  }

  // ---------------------------------------------------------------- lookup

  /** get_fromdir: the first entry with that name. */
  function Lookup(entries: seq<Entry>, name: string): Option<nat> {
    if entries == [] then None
    else if entries[0].name == name then Some(entries[0].ino)
    else Lookup(entries[1..], name)
  }

  /** It finds the number of an entry with that name, unless there is none. */
  lemma {:induction false} LookupFinds(entries: seq<Entry>, name: string)
    ensures var r := Lookup(entries, name);
            if r.None? then forall k {:trigger entries[k]} :: 0 <= k < |entries| ==> entries[k].name != name
            else exists k {:trigger entries[k]} :: 0 <= k < |entries| && entries[k] == Entry(name, r.value)
  {
    if entries != [] {
      var rest := entries[1..];
      LookupFinds(rest, name);
      if entries[0].name != name && Lookup(rest, name).Some? {
        var k :| 0 <= k < |rest| && rest[k] == Entry(name, Lookup(rest, name).value);
        assert entries[k + 1] == rest[k];
      } else {
        assert forall k {:trigger entries[k]} :: 1 <= k < |entries| ==> entries[k] == rest[k - 1];
      }
    }
  }

  lemma LookupFrom(entries: seq<Entry>, k: nat, name: string)
    requires k < |entries|
    ensures Lookup(entries[k..], name)
         == if entries[k].name == name then Some(entries[k].ino) else Lookup(entries[k + 1..], name)
  {
    assert entries[k..][1..] == entries[k + 1..];
  }

  lemma {:induction false} LookupAppend(entries: seq<Entry>, e: Entry, name: string)
    ensures Lookup(entries + [e], name)
         == if Lookup(entries, name).Some? then Lookup(entries, name) else if e.name == name then Some(e.ino) else None
  {
    if entries != [] {
      assert (entries + [e])[1..] == entries[1..] + [e];
      LookupAppend(entries[1..], e, name);
    } else {
      assert ([e])[1..] == [];
    }
  }

  datatype Resolved = Nowhere | In(dir: nat, name: string)

  /** resolve_path from directory `dir` on: the directory and the name that are left at the end. A
      leading slash is not cut off when the component before it is looked up. */
  function Resolve(t: Tree, dir: nat, path: string): (r: Resolved)
    requires dir < |t| && t[dir].Dir?
    ensures r.In? ==> r.dir < |t| && t[r.dir].Dir? && '/' !in r.name && |r.name| <= |path|
    decreases |path|
  {
    var i := SlashAt(path);
    if i == |path| then In(dir, path)
    else
      var found := Lookup(t[dir].entries, if i == 0 then path else path[..i]);
      if found.Some? && found.value < |t| && t[found.value].Dir? then Resolve(t, found.value, path[i + 1..])
      else Nowhere
  }

  /** MountPoint::stat. */
  function Stat(t: Tree, path: string): (r: Option<nat>)
    requires t != [] && t[0].Dir?
    ensures r.Some? ==> r.value < |t|
  {
    match Resolve(t, 0, path)
    case Nowhere => None
    case In(dir, name) =>
      var found := Lookup(t[dir].entries, name);
      if found.Some? && found.value < |t| then found else None
  }

  /** MountPoint::create and mkdir: a new node, and an entry for it at the end of its directory. */
  function Create(t: Tree, path: string, node: Inode): Option<Tree>
    requires t != [] && t[0].Dir?
  {
    match Resolve(t, 0, path)
    case Nowhere => None
    case In(dir, name) => Some(t[dir := Dir(t[dir].entries + [Entry(name, |t|)])] + [node])
  }

  lemma FirstThenRest(path: string, i: nat, name: string)
    requires i < |path| && path[i] == '/'
    ensures path + "/" + name == path[..i] + "/" + (path[i + 1..] + "/" + name)
    ensures (path + "/" + name)[..i] == path[..i] && (path + "/" + name)[i + 1..] == path[i + 1..] + "/" + name
  {
  }

  /** The last component of a path is resolved in the directory the rest names. */
  lemma {:induction false} ResolveLast(t: Tree, dir: nat, path: string, name: string)
    requires dir < |t| && t[dir].Dir? && IsPath(path) && '/' !in name
    ensures var r := Resolve(t, dir, path);
            Resolve(t, dir, path + "/" + name) ==
            if r.Nowhere? then Nowhere
            else
              var found := Lookup(t[r.dir].entries, r.name);
              if found.Some? && found.value < |t| && t[found.value].Dir? then In(found.value, name) else Nowhere
    decreases |path|
  {
    var i := SlashAt(path);
    var first := path[..i];
    BeforeSlash(path);
    if i == |path| {
      SlashAfter(path, name);
      assert (path + "/" + name)[..i] == path && (path + "/" + name)[i + 1..] == name;
    } else {
      var rest := path[i + 1..];
      FirstThenRest(path, i, name);
      SlashAfter(first, rest + "/" + name);
      var found := Lookup(t[dir].entries, first);
      if found.Some? && found.value < |t| && t[found.value].Dir? {
        ResolveLast(t, found.value, rest, name);
      }
    }
  }

  // ---------------------------------------------------------------- archives

  /** An archived file, or a directory if there is no data. */
  datatype Item = Item(path: string, data: seq<Byte>)

  predicate IsChild(dir: string, path: string) {
    |dir| < |path| && path[..|dir|] == dir && path[|dir|] == '/' && IsName(path[|dir| + 1..])
  }

  /** The directory that `path` lies in is the root, or one of the first `n` items. */
  predicate HasParent(items: seq<Item>, n: nat, path: string)
    requires n <= |items|
  {
    IsName(path) || exists j {:trigger items[j]} :: 0 <= j < n && items[j].data == [] && IsChild(items[j].path, path)
  }

  /** Unique paths, parents before children, and data that fits. */
  predicate Good(items: seq<Item>) {
    && (forall k {:trigger items[k]} :: 0 <= k < |items| ==>
      IsPath(items[k].path) && |items[k].data| <= CAPACITY && HasParent(items, k, items[k].path))
    && (forall j, k :: 0 <= j < k < |items| ==> items[j].path != items[k].path)
  }

  /** A read of the whole file returns `data`. */
  ghost predicate Holds(f: File, data: seq<Byte>) {
    f.Valid() && IsRead(f, |data|, 0, data)
  }

  lemma StoredHolds(f: File, g: File, data: seq<Byte>)
    requires f.Valid() && g.Valid() && |data| <= CAPACITY && Written(f, g, data, 0, |data|)
    ensures Holds(g, data)
  {
    forall k | 0 <= k < |data|
      ensures ByteRead(g, 0, data, k)
    {
      assert ByteWritten(f, g, data, 0, |data|, k);
    }
  }

  ghost predicate Fills(node: Inode, data: seq<Byte>) {
    if data == [] then node == Dir([]) else node.Reg? && Holds(node.file, data)
  }

  function PathOf(items: seq<Item>, d: nat): string
    requires d <= |items|
  {
    if d == 0 then "" else items[d - 1].path
  }

  /** A directory with path `dir` lists `name` exactly if one of the first `n` items is that path. */
  ghost predicate Listed(entries: seq<Entry>, items: seq<Item>, n: nat, dir: string, name: string)
    requires n <= |items|
  {
    match Lookup(entries, name)
    case None => forall j {:trigger items[j]} :: 0 <= j < n ==> items[j].path != Join(dir, name)
    case Some(i) => 1 <= i <= n && items[i - 1].path == Join(dir, name)
  }

  /** Node k + 1 is what item k became. */
  ghost predicate Made(t: Tree, items: seq<Item>, k: nat)
    requires k < |items| && k + 1 < |t|
  {
    if items[k].data == [] then t[k + 1].Dir? else t[k + 1].Reg? && Holds(t[k + 1].file, items[k].data)
  }

  /** Directory `d` lists what it should. */
  ghost predicate Lists(t: Tree, items: seq<Item>, n: nat, d: nat, name: string)
    requires n <= |items| && d < |t| && d <= n && t[d].Dir?
  {
    Listed(t[d].entries, items, n, PathOf(items, d), name)
  }

  /** The first `n` items have been loaded. */
  ghost predicate Loaded(t: Tree, items: seq<Item>, n: nat) {
    && n <= |items| && |t| == n + 1 && t[0].Dir?
    && (forall k {:trigger Made(t, items, k)} :: 0 <= k < n ==> Made(t, items, k))
    && (forall d, name {:trigger Lists(t, items, n, d, name)} ::
      0 <= d < |t| && t[d].Dir? && IsName(name) ==> Lists(t, items, n, d, name))
  }

  lemma ChildIsJoin(dir: string, path: string)
    requires IsChild(dir, path)
    ensures path == dir + "/" + path[|dir| + 1..]
  {
  }

  lemma PathNotEmpty(items: seq<Item>, d: nat)
    requires Good(items) && 0 < d <= |items|
    ensures IsPath(PathOf(items, d)) && PathOf(items, d) != ""
  {
  }

  /** A path whose directory is there is resolved to that directory and its last name. */
  lemma ResolveItem(t: Tree, items: seq<Item>, n: nat, m: nat, path: string) returns (d: nat, name: string)
    requires Good(items) && Loaded(t, items, n) && m <= n && HasParent(items, m, path)
    ensures d <= m && t[d].Dir? && IsName(name) && Resolve(t, 0, path) == In(d, name)
    ensures path == Join(PathOf(items, d), name)
    decreases m, 0
  {
    if IsName(path) {
      d, name := 0, path;
    } else {
      var j :| 0 <= j < m && items[j].data == [] && IsChild(items[j].path, path);
      d, name := j + 1, path[|items[j].path| + 1..];
      ChildIsJoin(items[j].path, path);
      StatItem(t, items, n, j);
      ResolveLast(t, 0, items[j].path, name);
      assert Made(t, items, j);
      PathNotEmpty(items, d);
    }
  }

  /** Every loaded path leads to its own node. */
  lemma StatItem(t: Tree, items: seq<Item>, n: nat, k: nat)
    requires Good(items) && Loaded(t, items, n) && k < n
    ensures Stat(t, items[k].path) == Some(k + 1)
    decreases k, 1
  {
    var d, name := ResolveItem(t, items, n, k, items[k].path);
    assert Lists(t, items, n, d, name);
  }

  // ---------------------------------------------------------------- loading one more item

  lemma SlashInJoin(items: seq<Item>, d: nat, name: string)
    requires Good(items) && d <= |items| && IsName(name)
    ensures '/' in Join(PathOf(items, d), name) <==> d > 0
  {
    var a := PathOf(items, d);
    if d > 0 {
      PathNotEmpty(items, d);
      assert (a + "/" + name)[|a|] == '/';
    }
  }

  lemma JoinUnique(items: seq<Item>, d: nat, name: string, e: nat, other: string)
    requires Good(items) && d <= |items| && e <= |items| && IsName(name) && IsName(other)
    requires Join(PathOf(items, d), name) == Join(PathOf(items, e), other)
    ensures d == e && name == other
  {
    SlashInJoin(items, d, name);
    SlashInJoin(items, e, other);
    if d > 0 && e > 0 {
      PathNotEmpty(items, d);
      PathNotEmpty(items, e);
      JoinInjective(PathOf(items, d), name, PathOf(items, e), other);
    }
  }

  lemma JoinSame(dir: string, name: string, other: string)
    requires Join(dir, name) == Join(dir, other)
    ensures name == other
  {
    if dir != "" {
      assert (dir + "/" + name)[|dir| + 1..] == name && (dir + "/" + other)[|dir| + 1..] == other;
    }
  }

  /** The directory of a new item lists it, and all it listed before. */
  lemma OwnDirLists(entries: seq<Entry>, items: seq<Item>, n: nat, dir: string, name: string, other: string)
    requires n < |items| && items[n].path == Join(dir, name)
    requires Lookup(entries, name).None? && Listed(entries, items, n, dir, other)
    ensures Listed(entries + [Entry(name, n + 1)], items, n + 1, dir, other)
  {
    LookupAppend(entries, Entry(name, n + 1), other);
    if items[n].path == Join(dir, other) {
      JoinSame(dir, name, other);
    }
  }

  lemma NotListedYet(entries: seq<Entry>, items: seq<Item>, n: nat, dir: string, name: string)
    requires Good(items) && n < |items| && items[n].path == Join(dir, name) && Listed(entries, items, n, dir, name)
    ensures Lookup(entries, name).None?
  {
  }

  /** Another directory is not concerned. */
  lemma OtherDirLists(items: seq<Item>, n: nat, d: nat, name: string, e: nat, other: string)
    requires Good(items) && d <= n < |items| && e <= n && d != e && IsName(name) && IsName(other)
    requires items[n].path == Join(PathOf(items, d), name)
    ensures items[n].path != Join(PathOf(items, e), other)
  {
    if items[n].path == Join(PathOf(items, e), other) {
      JoinUnique(items, d, name, e, other);
    }
  }

  /** Nothing lies in a directory before it is there. */
  lemma NewDirLists(items: seq<Item>, n: nat, name: string)
    requires Good(items) && n < |items| && IsName(name)
    ensures Listed([], items, n + 1, items[n].path, name)
  {
    PathNotEmpty(items, n + 1);
    forall j {:trigger items[j]} | 0 <= j < n + 1
      ensures items[j].path != Join(items[n].path, name)
    {
      if items[j].path == items[n].path + "/" + name {
        ParentIs(items, j, items[n].path, name);
      }
    }
  }

  lemma ParentIs(items: seq<Item>, j: nat, path: string, name: string)
    requires Good(items) && j < |items| && IsName(name) && items[j].path == path + "/" + name
    ensures exists i :: 0 <= i < j && items[i].path == path
  {
    assert (path + "/" + name)[|path|] == '/';
    assert HasParent(items, j, items[j].path);
    var i :| 0 <= i < j && items[i].data == [] && IsChild(items[i].path, items[j].path);
    ChildIsJoin(items[i].path, items[j].path);
    JoinInjective(items[i].path, items[j].path[|items[i].path| + 1..], path, name);
  }

  /** The tree with a new node listed in directory `d`. */
  function Linked(t: Tree, d: nat, name: string, node: Inode): Tree
    requires d < |t| && t[d].Dir?
  {
    t[d := Dir(t[d].entries + [Entry(name, |t|)])] + [node]
  }

  lemma LinkedAt(t: Tree, d: nat, name: string, node: Inode, e: nat)
    requires d < |t| && t[d].Dir? && e <= |t|
    ensures |Linked(t, d, name, node)| == |t| + 1
    ensures Linked(t, d, name, node)[e]
         == if e == |t| then node else if e == d then Dir(t[d].entries + [Entry(name, |t|)]) else t[e]
  {
  }

  lemma ListsInOwn(t: Tree, items: seq<Item>, n: nat, d: nat, name: string, other: string)
    requires Good(items) && Loaded(t, items, n) && n < |items|
    requires d <= n && t[d].Dir? && IsName(name) && items[n].path == Join(PathOf(items, d), name) && IsName(other)
    ensures Listed(t[d].entries + [Entry(name, n + 1)], items, n + 1, PathOf(items, d), other)
  {
    assert Lists(t, items, n, d, name) && Lists(t, items, n, d, other);
    NotListedYet(t[d].entries, items, n, PathOf(items, d), name);
    OwnDirLists(t[d].entries, items, n, PathOf(items, d), name, other);
  }

  lemma ListsInOther(t: Tree, items: seq<Item>, n: nat, d: nat, name: string, e: nat, other: string)
    requires Good(items) && Loaded(t, items, n) && n < |items|
    requires d <= n && IsName(name) && items[n].path == Join(PathOf(items, d), name)
    requires e <= n && e != d && t[e].Dir? && IsName(other)
    ensures Listed(t[e].entries, items, n + 1, PathOf(items, e), other)
  {
    assert Lists(t, items, n, e, other);
    OtherDirLists(items, n, d, name, e, other);
    ListedGrows(t[e].entries, items, n, PathOf(items, e), other);
  }

  lemma ListedGrows(entries: seq<Entry>, items: seq<Item>, n: nat, dir: string, other: string)
    requires n < |items| && Listed(entries, items, n, dir, other) && items[n].path != Join(dir, other)
    ensures Listed(entries, items, n + 1, dir, other)
  {
  }

  lemma LinkedLists(t: Tree, items: seq<Item>, n: nat, d: nat, name: string, node: Inode, e: nat, other: string)
    requires Good(items) && Loaded(t, items, n) && n < |items| && Fills(node, items[n].data)
    requires d <= n && t[d].Dir? && IsName(name) && items[n].path == Join(PathOf(items, d), name)
    requires e < n + 2 && Linked(t, d, name, node)[e].Dir? && IsName(other)
    ensures Lists(Linked(t, d, name, node), items, n + 1, e, other)
  {
    LinkedAt(t, d, name, node, e);
    if e == n + 1 {
      NewDirLists(items, n, other);
    } else if e == d {
      ListsInOwn(t, items, n, d, name, other);
    } else {
      ListsInOther(t, items, n, d, name, e, other);
    }
  }

  lemma LinkedMade(t: Tree, items: seq<Item>, n: nat, d: nat, name: string, node: Inode, k: nat)
    requires Loaded(t, items, n) && n < |items| && Fills(node, items[n].data) && d <= n && t[d].Dir? && k <= n
    ensures Made(Linked(t, d, name, node), items, k)
  {
    LinkedAt(t, d, name, node, k + 1);
    assert k < n ==> Made(t, items, k);
  }

  lemma LinkedLoaded(t: Tree, items: seq<Item>, n: nat, d: nat, name: string, node: Inode)
    requires Good(items) && Loaded(t, items, n) && n < |items| && Fills(node, items[n].data)
    requires d <= n && t[d].Dir? && IsName(name) && items[n].path == Join(PathOf(items, d), name)
    ensures Loaded(Linked(t, d, name, node), items, n + 1)
  {
    var u := Linked(t, d, name, node);
    LinkedAt(t, d, name, node, 0);
    forall k {:trigger Made(u, items, k)} | 0 <= k < n + 1
      ensures Made(u, items, k)
    {
      LinkedMade(t, items, n, d, name, node, k);
    }
    forall e, other {:trigger Lists(u, items, n + 1, e, other)} | 0 <= e < |u| && u[e].Dir? && IsName(other)
      ensures Lists(u, items, n + 1, e, other)
    {
      LinkedLists(t, items, n, d, name, node, e, other);
    }
  }

  /** Creating the next item keeps the tree loaded. */
  lemma LoadItem(t: Tree, items: seq<Item>, n: nat, node: Inode)
    requires Good(items) && Loaded(t, items, n) && n < |items| && Fills(node, items[n].data)
    ensures Create(t, items[n].path, node).Some?
    ensures Loaded(Create(t, items[n].path, node).value, items, n + 1)
  {
    assert HasParent(items, n, items[n].path);
    var d, name := ResolveItem(t, items, n, n, items[n].path);
    LinkedLoaded(t, items, n, d, name, node);
  }

  lemma CanCreate(t: Tree, items: seq<Item>, n: nat, node: Inode)
    requires Good(items) && Loaded(t, items, n) && n < |items|
    ensures Create(t, items[n].path, node).Some?
  {
    assert HasParent(items, n, items[n].path);
    var d, name := ResolveItem(t, items, n, n, items[n].path);
  }

  /** The same, when the node is filled only after it was created. */
  lemma LoadThenFill(t: Tree, items: seq<Item>, n: nat, first: Inode, node: Inode)
    requires Good(items) && Loaded(t, items, n) && n < |items| && Fills(node, items[n].data)
    ensures Create(t, items[n].path, first).Some?
    ensures var u := Create(t, items[n].path, first).value; |u| == |t| + 1 && Loaded(u[|t| := node], items, n + 1)
  {
    LoadItem(t, items, n, node);
    var u := Create(t, items[n].path, first).value;
    assert u[|t| := node] == Create(t, items[n].path, node).value;
  }

  lemma EmptyLoaded(items: seq<Item>)
    ensures Loaded([Dir([])], items, 0)
  {
  }

  // ---------------------------------------------------------------- whole archives

  /** MountPoint::pread of a whole file. */
  ghost predicate Reads(t: Tree, path: string, n: nat, out: seq<Byte>)
    requires t != [] && t[0].Dir?
  {
    match Stat(t, path)
    case None => out == []
    case Some(k) => t[k].Reg? && t[k].file.Valid() && IsRead(t[k].file, n, 0, out)
  }

  /** After loading, a read of every archived file returns exactly its bytes. */
  lemma LoadThenRead(t: Tree, items: seq<Item>, k: nat, out: seq<Byte>)
    requires Good(items) && Loaded(t, items, |items|) && k < |items| && items[k].data != []
    requires Reads(t, items[k].path, |items[k].data|, out)
    ensures out == items[k].data
  {
    StatItem(t, items, |items|, k);
    assert Made(t, items, k);
    ReadIsUnique(t[k + 1].file, |items[k].data|, 0, out, items[k].data);
  }
}
