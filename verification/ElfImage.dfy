/** Loaded objects in memory, for src/usr/ld_a/ld.c: little-endian words and the tables of an object
    with the 64-bit layouts of src/usr/ld_a/elf.h. */
module ElfImage {
  import opened Basics
  import opened CStrings
  import opened ElfHash

  const WORD: nat := 0x1_0000_0000_0000_0000
  const SYMBOL: nat := 24
  const REL: nat := 16
  const RELA: nat := 24

  // ---------------------------------------------------------------- words in memory

  /** The n bytes at `a` as a number, lowest byte first. */
  function Read(m: string, a: nat, n: nat): nat
    requires a + n <= |m|
    decreases n, m
  {
    if n == 0 then 0 else m[a] as int + 256 * Read(m, a + 1, n - 1)
  }

  function Bytes(v: nat, n: nat): (s: string)
    ensures |s| == n
    decreases n, v
  {
    if n == 0 then "" else [(v % 256) as char] + Bytes(v / 256, n - 1)
  }

  function Pow256(n: nat): nat {
    if n == 0 then 1 else 256 * Pow256(n - 1)
  }

  /** Storing a 64-bit word. */
  function Stored(m: string, a: nat, v: nat): (w: string)
    requires a + 8 <= |m|
    ensures |w| == |m|
  {
    m[..a] + Bytes(v, 8) + m[a + 8..]
  }

  lemma {:induction false} ReadBytes(m: string, a: nat, v: nat, n: nat)
    requires a + n <= |m| && m[a..a + n] == Bytes(v, n) && v < Pow256(n)
    ensures Read(m, a, n) == v
    decreases n
  {
    if n > 0 {
      assert m[a] == m[a..a + n][0];
      assert m[a + 1..a + n] == m[a..a + n][1..] == Bytes(v / 256, n - 1);
      ReadBytes(m, a + 1, v / 256, n - 1);
    }
  }

  lemma ReadStored(m: string, a: nat, v: nat)
    requires a + 8 <= |m| && v < WORD
    ensures Read(Stored(m, a, v), a, 8) == v
  {
    assert Stored(m, a, v)[a..a + 8] == Bytes(v, 8);
    assert Pow256(8) == WORD by {
      assert Pow256(4) == 0x1_0000_0000;
    }
    ReadBytes(Stored(m, a, v), a, v, 8);
  }

  /** Bytes a to b are the same. */
  predicate Same(m: string, w: string, a: nat, b: nat) {
    a <= b <= |m| == |w| && m[a..b] == w[a..b]
  }

  lemma SameByte(m: string, w: string, a: nat, b: nat, i: nat)
    requires Same(m, w, a, b) && a <= i < b
    ensures m[i] == w[i]
  {
    assert m[a..b][i - a] == w[a..b][i - a];
  }

  lemma SamePart(m: string, w: string, a: nat, b: nat, c: nat, d: nat)
    requires Same(m, w, a, b) && a <= c <= d <= b
    ensures Same(m, w, c, d)
  {
    forall i | c <= i < d
      ensures m[i] == w[i]
    {
      SameByte(m, w, a, b, i);
    }
  }

  lemma {:induction false} SameRead(m: string, w: string, a: nat, n: nat)
    requires Same(m, w, a, a + n)
    ensures Read(m, a, n) == Read(w, a, n)
    decreases n
  {
    if n > 0 {
      SameByte(m, w, a, a + n, a);
      SamePart(m, w, a, a + n, a + 1, a + n);
      SameRead(m, w, a + 1, n - 1);
    }
  }

  lemma {:induction false} SameCStr(m: string, w: string, a: nat, b: nat, p: nat)
    requires Same(m, w, a, b) && a <= p <= |m| && StrEnd(m, p) < b
    ensures p <= |w| && StrEnd(w, p) == StrEnd(m, p) && CStr(w, p) == CStr(m, p)
  {
    var e := StrEnd(m, p);
    StringIn(m, p);
    SameByte(m, w, a, b, e);
    SamePart(m, w, a, b, p, e);
    StrEndIs(w, p, e);
  }

  lemma {:induction false} StringIn(m: string, p: nat)
    requires p <= |m|
    ensures '\0' !in m[p..StrEnd(m, p)]
    decreases |m| - p
  {
    if p < |m| && m[p] != '\0' {
      StringIn(m, p + 1);
      assert m[p..StrEnd(m, p)] == [m[p]] + m[p + 1..StrEnd(m, p)];
    }
  }

  /** A store leaves every region alone that it does not touch. */
  lemma StoreElsewhere(m: string, s: nat, v: nat, a: nat, b: nat)
    requires s + 8 <= |m| && a <= b <= |m| && (s + 8 <= a || b <= s)
    ensures Same(m, Stored(m, s, v), a, b)
  {
    var w := Stored(m, s, v);
    forall i | a <= i < b
      ensures m[i] == w[i]
    {
      assert i < s ==> w[i] == m[..s][i];
      assert i >= s + 8 ==> w[i] == m[s + 8..][i - s - 8];
    }
  }

  /** Words are stored with the lowest byte first. */
  lemma LittleEndian(m: string, a: nat)
    ensures a + 2 <= |m| ==> Read(m, a, 2) == m[a] as int + 0x100 * (m[a + 1] as int)
    ensures a + 4 <= |m| ==>
              Read(m, a, 4)
              == m[a] as int + 0x100 * (m[a + 1] as int) + 0x1_0000 * (m[a + 2] as int) + 0x100_0000 * (m[a + 3] as int)
    ensures a + 8 <= |m| ==> Read(m, a, 8) == Read(m, a, 4) + 0x1_0000_0000 * Read(m, a + 4, 4)
  {
    if a + 2 <= |m| {
      assert Read(m, a + 2, 0) == 0 && Read(m, a + 1, 1) == m[a + 1] as int;
    }
    if a + 4 <= |m| {
      TwoHalves(m, a, 2, 2);
      assert Read(m, a + 4, 0) == 0 && Read(m, a + 3, 1) == m[a + 3] as int;
    }
    if a + 8 <= |m| {
      TwoHalves(m, a, 4, 4);
      assert Pow256(2) == 0x1_0000;
    }
  }

  lemma {:induction false} TwoHalves(m: string, a: nat, j: nat, k: nat)
    requires a + j + k <= |m|
    ensures Read(m, a, j + k) == Read(m, a, j) + Pow256(j) * Read(m, a + j, k)
    decreases j
  {
    if j > 0 {
      var rest := Read(m, a + j, k);
      TwoHalves(m, a + 1, j - 1, k);
      assert Read(m, a, j + k) == m[a] as int + 256 * Read(m, a + 1, j - 1 + k);
      assert Read(m, a, j) == m[a] as int + 256 * Read(m, a + 1, j - 1);
      hide Read;
      Regrouped(Pow256(j - 1), rest);
    }
  }

  lemma Regrouped(p: nat, x: nat)
    ensures 256 * (p * x) == 256 * p * x
  {
  }

  // ---------------------------------------------------------------- objects

  /** struct dynamic: where the tables of a loaded object are, 0 for a missing one. `strSize` is the
      extent of the string table, which the linker itself never asks for. */
  datatype Object = Object(
    base: nat, sym: nat, str: nat, strSize: nat, hash: nat,
    jmpRel: nat, jmpRelCount: nat, dynRel: nat, dynRelCount: nat,
    jmpRela: nat, jmpRelaCount: nat, dynRela: nat, dynRelaCount: nat)

  /** Where symbol `y` and the words of the hash table lie. */
  function SymbolPlace(o: Object, y: nat): nat {
    o.sym + 24 * y
  }

  function BucketPlace(o: Object, k: nat): nat {
    o.hash + 8 + 4 * k
  }

  /** The string at `p` is `s` and ends inside the string table. */
  predicate NameIs(m: string, o: Object, p: nat, s: string) {
    o.str <= p <= |m| && StrEnd(m, p) < |m| && StrEnd(m, p) < o.str + o.strSize && CStr(m, p) == s
  }

  /** Symbol `y` in memory is `s`. */
  predicate SymbolIs(m: string, o: Object, y: nat, s: Symbol)
    requires SymbolPlace(o, y) + SYMBOL <= |m|
  {
    var a := SymbolPlace(o, y);
    NameIs(m, o, o.str + Read(m, a, 4), s.name) && Read(m, a + 6, 2) == s.section && Read(m, a + 8, 8) == s.value
  }

  /** Word k of buckets and chains, which follow each other. */
  predicate WordIs(m: string, o: Object, k: nat, v: nat)
    requires BucketPlace(o, k) + 4 <= |m|
  {
    Read(m, BucketPlace(o, k), 4) == v
  }

  function HashEnd(o: Object, t: Table): nat {
    BucketPlace(o, |t.buckets| + |t.chain|)
  }

  /** The hash, symbol and string tables lie in memory. */
  predicate InMemory(m: string, o: Object, t: Table) {
    && |t.symbols| == |t.chain| && HashEnd(o, t) <= |m|
    && SymbolPlace(o, |t.symbols|) <= |m| && o.str + o.strSize <= |m|
  }

  /** `t` is what the tables of the object say. */
  predicate TableIs(m: string, o: Object, t: Table) {
    && InMemory(m, o, t)
    && Read(m, o.hash, 4) == |t.buckets| && Read(m, o.hash + 4, 4) == |t.chain|
    && (forall y {:trigger t.symbols[y]} :: 0 <= y < |t.symbols| ==> SymbolIs(m, o, y, t.symbols[y]))
    && (forall k {:trigger t.buckets[k]} :: 0 <= k < |t.buckets| ==> WordIs(m, o, k, t.buckets[k]))
    && (forall k {:trigger t.chain[k]} :: 0 <= k < |t.chain| ==> WordIs(m, o, |t.buckets| + k, t.chain[k]))
  }

  /** The bytes of the tables: two words with the numbers of buckets and chains, the buckets, the chains; symbols of
      24 bytes. */
  lemma TableBytes(m: string, o: Object, t: Table, k: nat, y: nat)
    requires TableIs(m, o, t) && k < |t.buckets| && y < |t.chain|
    ensures o.hash + 8 + 4 * (|t.buckets| + |t.chain|) <= |m| && o.sym + 24 * |t.symbols| <= |m|
    ensures |t.symbols| == |t.chain| == Read(m, o.hash + 4, 4) && |t.buckets| == Read(m, o.hash, 4)
    ensures t.buckets[k] == Read(m, o.hash + 8 + 4 * k, 4)
    ensures t.chain[y] == Read(m, o.hash + 8 + 4 * |t.buckets| + 4 * y, 4)
    ensures t.symbols[y].value == Read(m, o.sym + 24 * y + 8, 8)
    ensures t.symbols[y].section == Read(m, o.sym + 24 * y + 6, 2)
    ensures o.str + Read(m, o.sym + 24 * y, 4) <= |m|
    ensures t.symbols[y].name == CStr(m, o.str + Read(m, o.sym + 24 * y, 4))
  {
    assert WordIs(m, o, k, t.buckets[k]) && WordIs(m, o, |t.buckets| + y, t.chain[y]);
    assert SymbolIs(m, o, y, t.symbols[y]);
  }

  /** The tables are the same in both memories. */
  predicate SameObject(m: string, w: string, o: Object, t: Table) {
    && Same(m, w, o.hash, HashEnd(o, t)) && Same(m, w, o.sym, SymbolPlace(o, |t.symbols|))
    && Same(m, w, o.str, o.str + o.strSize)
  }

  lemma SameField(m: string, w: string, a: nat, b: nat, c: nat, n: nat)
    requires Same(m, w, a, b) && a <= c && c + n <= b
    ensures Read(m, c, n) == Read(w, c, n)
  {
    SamePart(m, w, a, b, c, c + n);
    SameRead(m, w, c, n);
  }

  lemma SameName(m: string, w: string, o: Object, p: nat, s: string)
    requires Same(m, w, o.str, o.str + o.strSize) && NameIs(m, o, p, s)
    ensures NameIs(w, o, p, s)
  {
    SameCStr(m, w, o.str, o.str + o.strSize, p);
  }

  lemma SameSymbolWords(m: string, w: string, o: Object, n: nat, y: nat)
    requires Same(m, w, o.sym, SymbolPlace(o, n)) && y < n
    ensures var a := SymbolPlace(o, y);
            && a + SYMBOL <= |m| == |w| && Read(w, a, 4) == Read(m, a, 4)
            && Read(w, a + 6, 2) == Read(m, a + 6, 2) && Read(w, a + 8, 8) == Read(m, a + 8, 8)
  {
    var a, b, c := o.sym, SymbolPlace(o, n), SymbolPlace(o, y);
    SameField(m, w, a, b, c, 4);
    SameField(m, w, a, b, c + 6, 2);
    SameField(m, w, a, b, c + 8, 8);
  }

  lemma SameSymbol(m: string, w: string, o: Object, t: Table, y: nat)
    requires SameObject(m, w, o, t) && y < |t.symbols|
    requires SymbolPlace(o, y) + SYMBOL <= |m| && SymbolIs(m, o, y, t.symbols[y])
    ensures SymbolPlace(o, y) + SYMBOL <= |w| && SymbolIs(w, o, y, t.symbols[y])
  {
    hide Read, NameIs, StrEnd;
    SameSymbolWords(m, w, o, |t.symbols|, y);
    SameName(m, w, o, o.str + Read(m, SymbolPlace(o, y), 4), t.symbols[y].name);
  }

  lemma SameWord(m: string, w: string, o: Object, t: Table, k: nat, v: nat)
    requires SameObject(m, w, o, t) && k < |t.buckets| + |t.chain|
    requires BucketPlace(o, k) + 4 <= |m| && WordIs(m, o, k, v)
    ensures BucketPlace(o, k) + 4 <= |w| && WordIs(w, o, k, v)
  {
    SameField(m, w, o.hash, HashEnd(o, t), BucketPlace(o, k), 4);
  }

  /** What the tables say depends on the bytes of the tables only. */
  lemma SameTable(m: string, w: string, o: Object, t: Table)
    requires TableIs(m, o, t) && SameObject(m, w, o, t)
    ensures TableIs(w, o, t)
  {
    SameField(m, w, o.hash, HashEnd(o, t), o.hash, 4);
    SameField(m, w, o.hash, HashEnd(o, t), o.hash + 4, 4);
    forall y {:trigger t.symbols[y]} | 0 <= y < |t.symbols|
      ensures SymbolIs(w, o, y, t.symbols[y])
    {
      assert SymbolIs(m, o, y, t.symbols[y]);
      SameSymbol(m, w, o, t, y);
    }
    forall k {:trigger t.buckets[k]} | 0 <= k < |t.buckets|
      ensures WordIs(w, o, k, t.buckets[k])
    {
      SameWord(m, w, o, t, k, t.buckets[k]);
    }
    forall k {:trigger t.chain[k]} | 0 <= k < |t.chain|
      ensures WordIs(w, o, |t.buckets| + k, t.chain[k])
    {
      SameWord(m, w, o, t, |t.buckets| + k, t.chain[k]);
    }
  }

  // ---------------------------------------------------------------- get_sym_by_name as it runs

  /** elf_hash. The top bits are cleared by taking them away, as `h &= ~g` does. */
  method ElfHashOf(name: string) returns (h: nat)
    ensures h == Hash(name)
  {
    h := 0;
    var i := 0;
    while i < |name|
      invariant 0 <= i <= |name| && Hash(name) == HashFrom(h, name[i..])
    {
      assert name[i..][1..] == name[i + 1..];
      h := (h * 16 + name[i] as int % 256) % 0x1_0000_0000;
      CutIsClear(h);
      var g := h / 0x1000_0000;
      if g != 0 {
        h := XorByte(h, g);
      }
      h := h - g * 0x1000_0000;
      i := i + 1;
    }
  }

  /** The memory of the process, byte by byte. */
  class Memory {
    var bytes: string

    /** A 64-bit store. */
    method Store(a: nat, v: nat)
      requires a + 8 <= |bytes|
      modifies this
      ensures bytes == Stored(old(bytes), a, v)
    {
      bytes := bytes[..a] + Bytes(v, 8) + bytes[a + 8..];
    }
  }

  /** get_sym_by_name: the number of the symbol. */
  method GetSymByName(mem: Memory, o: Object, name: string, ghost t: Table) returns (r: Option<nat>)
    requires TableIs(mem.bytes, o, t) && WellFormed(t)
    ensures r == Lookup(t, name)
  {
    var x := ElfHashOf(name);
    var nbucket := Read(mem.bytes, o.hash, 4);
    assert WordIs(mem.bytes, o, x % nbucket, t.buckets[x % nbucket]);
    var y: nat := Read(mem.bytes, BucketPlace(o, x % nbucket), 4);
    ghost var n: nat := |t.symbols|;
    while true
      invariant y < |t.symbols| && EndsWithin(t, y, n) && Lookup(t, name) == Walk(t, y, name, n)
      decreases n
    {
      assert SymbolIs(mem.bytes, o, y, t.symbols[y]);
      if CStr(mem.bytes, o.str + Read(mem.bytes, SymbolPlace(o, y), 4)) == name {
        return Some(y);
      }
      assert WordIs(mem.bytes, o, |t.buckets| + y, t.chain[y]);
      var next := Read(mem.bytes, BucketPlace(o, nbucket + y), 4);
      if next == 0 {
        return None;
      }
      y := next;
      n := n - 1;
    }
  }
}
