/** resolve_references of src/usr/ld_a/ld.c: the relocation fields of one object are filled with the
    addresses of the first definitions in a list of objects. */
module Relocation {
  import opened Basics
  import opened CStrings
  import opened ElfHash
  import opened ElfImage

  const GLOB_DATA: nat := 6
  const JMP_SLOT: nat := 7
  const ABS: nat := 1

  /** The four relocation tables, in the order of the four loops. */
  datatype Kind = JmpRel | DynRel | JmpRela | DynRela

  function TableAt(o: Object, k: Kind): nat {
    match k
    case JmpRel => o.jmpRel
    case DynRel => o.dynRel
    case JmpRela => o.jmpRela
    case DynRela => o.dynRela
  }

  function EntrySize(k: Kind): nat {
    if k.JmpRel? || k.DynRel? then REL else RELA
  }

  /** The entries the loop of that kind runs over: none if the pointer is null. */
  function Count(o: Object, k: Kind): nat {
    if TableAt(o, k) == 0 then 0
    else
      match k
      case JmpRel => o.jmpRelCount
      case DynRel => o.dynRelCount
      case JmpRela => o.jmpRelaCount
      case DynRela => o.dynRelaCount
  }

  predicate Handles(k: Kind, kind: nat) {
    match k
    case JmpRel => kind == JMP_SLOT
    case DynRel => kind == GLOB_DATA
    case JmpRela => kind == JMP_SLOT
    case DynRela => kind == GLOB_DATA || kind == ABS
  }

  /** 64-bit addition wraps around. */
  function Wrapped(x: nat): (r: nat)
    ensures r < WORD
  {
    x % WORD
  }

  /** A relocation entry: whether it is handled, the field, the symbol, and what is added to it. */
  datatype Reloc = Reloc(handled: bool, slot: nat, name: string, addend: nat)

  function Place(o: Object, k: Kind, i: nat): nat {
    TableAt(o, k) + if k.JmpRel? || k.DynRel? then 16 * i else 24 * i
  }

  /** The words of entry i; a table without addends reads as 0. */
  function Offset(m: string, o: Object, k: Kind, i: nat): nat
    requires Place(o, k, i) + EntrySize(k) <= |m|
  {
    Read(m, Place(o, k, i), 8)
  }

  function Info(m: string, o: Object, k: Kind, i: nat): nat
    requires Place(o, k, i) + EntrySize(k) <= |m|
  {
    Read(m, Place(o, k, i) + 8, 8)
  }

  function Addend(m: string, o: Object, k: Kind, i: nat): nat
    requires Place(o, k, i) + EntrySize(k) <= |m|
  {
    if k == DynRela then Read(m, Place(o, k, i) + 16, 8) else 0
  }

  /** ELF_REL_TYPE and ELF_REL_BIND. */
  function RelType(info: nat): nat {
    info % 0x1_0000_0000
  }

  function RelSymbol(info: nat): nat {
    info / 0x1_0000_0000
  }

  /** What an entry asks for, with the names of the object's symbols. */
  predicate Readable(t: Table, k: Kind, info: nat) {
    Handles(k, RelType(info)) ==> RelSymbol(info) < |t.symbols|
  }

  function Decoded(t: Table, base: nat, k: Kind, offset: nat, info: nat, addend: nat): Reloc
    requires Readable(t, k, info)
  {
    if Handles(k, RelType(info)) then
      Reloc(true, Wrapped(offset + base), t.symbols[RelSymbol(info)].name, addend)
    else Reloc(false, 0, "", 0)
  }

  /** Entry i of the table of that kind is `r`, with the names of the object's own table. */
  predicate EntryIs(m: string, o: Object, t: Table, k: Kind, i: nat, r: Reloc) {
    && Place(o, k, i) + EntrySize(k) <= |m| && Readable(t, k, Info(m, o, k, i))
    && r == Decoded(t, o.base, k, Offset(m, o, k, i), Info(m, o, k, i), Addend(m, o, k, i))
  }

  /** Where the entries of a kind start in the list of all. */
  function Start(o: Object, k: Kind): nat {
    match k
    case JmpRel => 0
    case DynRel => Count(o, JmpRel)
    case JmpRela => Count(o, JmpRel) + Count(o, DynRel)
    case DynRela => Count(o, JmpRel) + Count(o, DynRel) + Count(o, JmpRela)
  }

  predicate EntryOf(m: string, o: Object, t: Table, rs: seq<Reloc>, k: Kind, i: nat) {
    Start(o, k) + i < |rs| && EntryIs(m, o, t, k, i, rs[Start(o, k) + i])
  }

  /** `rs` are the entries of the four tables, in order. */
  predicate EntriesAre(m: string, o: Object, t: Table, rs: seq<Reloc>) {
    && |rs| == Start(o, DynRela) + Count(o, DynRela)
    && forall k, i {:trigger EntryOf(m, o, t, rs, k, i)} :: 0 <= i < Count(o, k) ==> EntryOf(m, o, t, rs, k, i)
  }

  // ---------------------------------------------------------------- the first definition

  /** An object of the scope as the search sees it. */
  datatype Scope = Scope(table: Table, base: nat)

  predicate Searchable(scope: seq<Scope>) {
    forall j {:trigger scope[j]} :: 0 <= j < |scope| ==> WellFormed(scope[j].table)
  }

  /** The address that an object gives to a name: its lookup finds a symbol that lies in a section. */
  function AddressIn(s: Scope, name: string): Option<nat>
    requires WellFormed(s.table)
  {
    var y := Lookup(s.table, name);
    if y.Some? && y.value < |s.table.symbols| && s.table.symbols[y.value].section != 0 then
      Some(s.table.symbols[y.value].value + s.base)
    else None
  }

  predicate Defines(s: Scope, name: string)
    requires WellFormed(s.table)
  {
    AddressIn(s, name).Some?
  }

  /** The address of the first definition from object j on. */
  function Target(scope: seq<Scope>, name: string, j: nat): Option<nat>
    requires Searchable(scope)
    decreases |scope| - j
  {
    if j >= |scope| then None
    else if Defines(scope[j], name) then AddressIn(scope[j], name)
    else Target(scope, name, j + 1)
  }

  /** The rule it implements: the first object in order that defines the name, and only that one. */
  lemma {:induction false} TargetIsFirst(scope: seq<Scope>, name: string, j: nat, first: nat)
    requires Searchable(scope) && j <= first < |scope| && Defines(scope[first], name)
    requires forall i :: j <= i < first ==> !Defines(scope[i], name)
    ensures Target(scope, name, j) == AddressIn(scope[first], name)
    decreases first - j
  {
    if j < first {
      TargetIsFirst(scope, name, j + 1, first);
    }
  }

  lemma {:induction false} TargetNone(scope: seq<Scope>, name: string, j: nat)
    requires Searchable(scope)
    ensures Target(scope, name, j).None? <==> forall i :: j <= i < |scope| ==> !Defines(scope[i], name)
    decreases |scope| - j
  {
    if j < |scope| && !Defines(scope[j], name) {
      TargetNone(scope, name, j + 1);
    }
  }

  // ---------------------------------------------------------------- filling the fields

  /** An entry puts the target plus its addend into its field, if it is handled and has a target. */
  function Put(m: string, r: Reloc, target: Option<nat>): (w: string)
    requires r.handled ==> r.slot + 8 <= |m|
    ensures |w| == |m|
  {
    if r.handled && target.Some? then Stored(m, r.slot, Wrapped(target.value + r.addend)) else m
  }

  predicate FieldsIn(length: nat, rs: seq<Reloc>) {
    forall i {:trigger rs[i]} :: 0 <= i < |rs| && rs[i].handled ==> rs[i].slot + 8 <= length
  }

  predicate Apart(r: Reloc, s: Reloc) {
    r.handled && s.handled ==> r.slot + 8 <= s.slot || s.slot + 8 <= r.slot
  }

  predicate FieldsApart(rs: seq<Reloc>) {
    forall i, j :: 0 <= i < j < |rs| ==> Apart(rs[i], rs[j])
  }

  /** The 8 bytes at `s` lie outside bytes a to b. */
  predicate Clear(s: nat, a: nat, b: nat) {
    s + 8 <= a || b <= s
  }

  lemma PutElsewhere(w: string, r: Reloc, target: Option<nat>, a: nat, b: nat)
    requires a <= b <= |w| && (r.handled ==> r.slot + 8 <= |w| && Clear(r.slot, a, b))
    ensures Same(w, Put(w, r, target), a, b)
  {
    if r.handled && target.Some? {
      StoreElsewhere(w, r.slot, Wrapped(target.value + r.addend), a, b);
    }
  }

  /** The field of a handled entry holds the target plus addend if there is a target, else what it
      held in `m`. */
  predicate FieldHolds(m: string, w: string, r: Reloc, target: Option<nat>)
    requires r.handled && r.slot + 8 <= |m| == |w|
  {
    if target.Some? then Read(w, r.slot, 8) == Wrapped(target.value + r.addend)
    else Same(m, w, r.slot, r.slot + 8)
  }

  lemma PutHolds(m: string, w: string, r: Reloc, target: Option<nat>)
    requires r.handled && Same(m, w, r.slot, r.slot + 8)
    ensures FieldHolds(m, Put(w, r, target), r, target)
  {
    if target.Some? {
      ReadStored(w, r.slot, Wrapped(target.value + r.addend));
    }
  }

  lemma PutKeepsHolds(m: string, w: string, s: Reloc, target: Option<nat>, r: Reloc, other: Option<nat>)
    requires s.handled && s.slot + 8 <= |m| == |w| && FieldHolds(m, w, s, target)
    requires (r.handled ==> r.slot + 8 <= |w|) && Apart(s, r)
    ensures FieldHolds(m, Put(w, r, other), s, target)
  {
    PutElsewhere(w, r, other, s.slot, s.slot + 8);
    SameRead(w, Put(w, r, other), s.slot, 8);
  }

  /** Byte `a` lies in the field of a handled entry. */
  predicate InField(rs: seq<Reloc>, a: nat) {
    exists i {:trigger rs[i]} :: 0 <= i < |rs| && rs[i].handled && rs[i].slot <= a < rs[i].slot + 8
  }

  /** Entry i when the first `n` have been worked on: its field holds the first definition, or nothing
      has been done to it. */
  predicate EntryDone(m: string, w: string, rs: seq<Reloc>, scope: seq<Scope>, n: nat, i: nat)
    requires Searchable(scope) && i < |rs| && |m| == |w|
  {
    rs[i].handled ==>
      rs[i].slot + 8 <= |m| &&
      FieldHolds(m, w, rs[i], if i < n then Target(scope, rs[i].name, 0) else None)
  }

  predicate Untouched(m: string, w: string, rs: seq<Reloc>, a: nat)
    requires a < |m| == |w|
  {
    InField(rs, a) || w[a] == m[a]
  }

  /** Memory `w` is `m` with the first `n` entries worked on: their fields are right, all other fields
      and all bytes outside of fields are as in `m`. */
  ghost predicate Done(m: string, w: string, rs: seq<Reloc>, scope: seq<Scope>, n: nat) {
    && Searchable(scope) && |m| == |w|
    && (forall i {:trigger EntryDone(m, w, rs, scope, n, i)} :: 0 <= i < |rs| ==> EntryDone(m, w, rs, scope, n, i))
    && (forall a {:trigger Untouched(m, w, rs, a)} :: 0 <= a < |m| ==> Untouched(m, w, rs, a))
  }

  lemma NothingDone(m: string, rs: seq<Reloc>, scope: seq<Scope>)
    requires Searchable(scope) && FieldsIn(|m|, rs)
    ensures Done(m, m, rs, scope, 0)
  {
  }

  lemma EntryStep(m: string, w: string, rs: seq<Reloc>, scope: seq<Scope>, n: nat, i: nat)
    requires Searchable(scope) && FieldsIn(|m|, rs) && FieldsApart(rs) && n < |rs| && i < |rs| && |m| == |w|
    requires EntryDone(m, w, rs, scope, n, i)
    ensures EntryDone(m, Put(w, rs[n], Target(scope, rs[n].name, 0)), rs, scope, n + 1, i)
  {
    var r, target := rs[n], Target(scope, rs[n].name, 0);
    if i == n {
      if r.handled {
        PutHolds(m, w, r, target);
      }
    } else if rs[i].handled {
      assert if i < n then Apart(rs[i], r) else Apart(r, rs[i]);
      PutKeepsHolds(m, w, rs[i], if i < n then Target(scope, rs[i].name, 0) else None, r, target);
    }
  }

  /** Working on the next entry. */
  lemma DoneStep(m: string, w: string, rs: seq<Reloc>, scope: seq<Scope>, n: nat)
    requires FieldsIn(|m|, rs) && FieldsApart(rs) && n < |rs| && Done(m, w, rs, scope, n)
    ensures Done(m, Put(w, rs[n], Target(scope, rs[n].name, 0)), rs, scope, n + 1)
  {
    var r, target := rs[n], Target(scope, rs[n].name, 0);
    var x := Put(w, r, target);
    forall i {:trigger EntryDone(m, x, rs, scope, n + 1, i)} | 0 <= i < |rs|
      ensures EntryDone(m, x, rs, scope, n + 1, i)
    {
      assert EntryDone(m, w, rs, scope, n, i);
      EntryStep(m, w, rs, scope, n, i);
    }
    forall a {:trigger Untouched(m, x, rs, a)} | 0 <= a < |m|
      ensures Untouched(m, x, rs, a)
    {
      assert Untouched(m, w, rs, a);
      if !InField(rs, a) {
        PutElsewhere(w, r, target, a, a + 1);
        SameByte(w, x, a, a + 1, a);
      }
    }
  }

  // ---------------------------------------------------------------- tables that the fields do not touch

  predicate ClearOfObject(s: nat, o: Object, t: Table) {
    && Clear(s, o.hash, HashEnd(o, t)) && Clear(s, o.sym, SymbolPlace(o, |t.symbols|))
    && Clear(s, o.str, o.str + o.strSize)
  }

  predicate ClearOfEntries(s: nat, o: Object, k: Kind) {
    Clear(s, TableAt(o, k), Place(o, k, Count(o, k)))
  }

  /** A field lies outside all tables that the linker reads. */
  predicate ClearOfTables(s: nat, o: Object, t: Table, all: seq<Object>, scope: seq<Scope>)
    requires |all| == |scope|
  {
    && ClearOfObject(s, o, t)
    && (forall j {:trigger all[j]} :: 0 <= j < |all| ==> ClearOfObject(s, all[j], scope[j].table))
    && (forall k {:trigger ClearOfEntries(s, o, k)} :: ClearOfEntries(s, o, k))
  }

  predicate ScopeIs(m: string, all: seq<Object>, scope: seq<Scope>) {
    && |all| == |scope|
    && forall j {:trigger scope[j]} :: 0 <= j < |all| ==>
      TableIs(m, all[j], scope[j].table) && scope[j].base == all[j].base
  }

  /** What the linker sees in memory: the object's own table, the objects of the scope, the entries. */
  predicate Sees(m: string, o: Object, all: seq<Object>, t: Table, scope: seq<Scope>, rs: seq<Reloc>) {
    TableIs(m, o, t) && ScopeIs(m, all, scope) && EntriesAre(m, o, t, rs)
  }

  /** The fields lie apart from each other and from all tables. */
  predicate Linkable(length: nat, o: Object, all: seq<Object>, t: Table, scope: seq<Scope>, rs: seq<Reloc>) {
    && |all| == |scope| && Searchable(scope) && FieldsIn(length, rs) && FieldsApart(rs)
    && forall i {:trigger rs[i]} :: 0 <= i < |rs| && rs[i].handled ==> ClearOfTables(rs[i].slot, o, t, all, scope)
  }

  lemma SameObjectAfterStore(m: string, s: nat, v: nat, o: Object, t: Table)
    requires InMemory(m, o, t) && s + 8 <= |m| && ClearOfObject(s, o, t)
    ensures SameObject(m, Stored(m, s, v), o, t)
  {
    StoreElsewhere(m, s, v, o.hash, HashEnd(o, t));
    StoreElsewhere(m, s, v, o.sym, SymbolPlace(o, |t.symbols|));
    StoreElsewhere(m, s, v, o.str, o.str + o.strSize);
  }

  lemma TableAfterStore(m: string, s: nat, v: nat, o: Object, t: Table)
    requires TableIs(m, o, t) && s + 8 <= |m| && ClearOfObject(s, o, t)
    ensures TableIs(Stored(m, s, v), o, t)
  {
    SameObjectAfterStore(m, s, v, o, t);
    SameTable(m, Stored(m, s, v), o, t);
  }

  lemma EntryAfterStore(m: string, s: nat, v: nat, o: Object, t: Table, k: Kind, i: nat, r: Reloc)
    requires i < Count(o, k) && Place(o, k, Count(o, k)) <= |m| && EntryIs(m, o, t, k, i, r)
    requires s + 8 <= |m| && ClearOfEntries(s, o, k)
    ensures EntryIs(Stored(m, s, v), o, t, k, i, r)
  {
    var a, b, p, w := TableAt(o, k), Place(o, k, Count(o, k)), Place(o, k, i), Stored(m, s, v);
    assert p + EntrySize(k) <= b;
    StoreElsewhere(m, s, v, a, b);
    SameField(m, w, a, b, p, 8);
    SameField(m, w, a, b, p + 8, 8);
    if k == DynRela {
      SameField(m, w, a, b, p + 16, 8);
    }
  }

  lemma EntriesInMemory(m: string, o: Object, t: Table, rs: seq<Reloc>, k: Kind)
    requires EntriesAre(m, o, t, rs) && Count(o, k) > 0
    ensures Place(o, k, Count(o, k)) <= |m|
  {
    var last := Count(o, k) - 1;
    assert EntryOf(m, o, t, rs, k, last);
    assert Place(o, k, Count(o, k)) == Place(o, k, last) + EntrySize(k);
  }

  /** A store into a field does not change what the linker sees. */
  lemma SeesAfterStore(m: string, s: nat, v: nat, o: Object, all: seq<Object>, t: Table, scope: seq<Scope>,
                       rs: seq<Reloc>)
    requires Sees(m, o, all, t, scope, rs) && s + 8 <= |m| && ClearOfTables(s, o, t, all, scope)
    ensures Sees(Stored(m, s, v), o, all, t, scope, rs)
  {
    var w := Stored(m, s, v);
    TableAfterStore(m, s, v, o, t);
    forall j {:trigger scope[j]} | 0 <= j < |all|
      ensures TableIs(w, all[j], scope[j].table)
    {
      TableAfterStore(m, s, v, all[j], scope[j].table);
    }
    forall k, i {:trigger EntryOf(w, o, t, rs, k, i)} | 0 <= i < Count(o, k)
      ensures EntryOf(w, o, t, rs, k, i)
    {
      assert EntryOf(m, o, t, rs, k, i);
      EntriesInMemory(m, o, t, rs, k);
      assert ClearOfEntries(s, o, k);
      EntryAfterStore(m, s, v, o, t, k, i, rs[Start(o, k) + i]);
    }
  }

  // ---------------------------------------------------------------- resolve_references as it runs

  lemma AddressIs(s: Scope, name: string, y: Option<nat>)
    requires WellFormed(s.table) && y == Lookup(s.table, name)
    ensures y.None? ==> AddressIn(s, name) == None
    ensures y.Some? ==>
              && y.value < |s.table.symbols|
              && AddressIn(s, name) == if s.table.symbols[y.value].section != 0 then
                                         Some(s.table.symbols[y.value].value + s.base)
                                       else None
  {
    LookupInRange(s.table, name);
  }

  /** The search in one object: lines 60-63. */
  method FindIn(mem: Memory, o: Object, name: string, ghost s: Scope) returns (r: Option<nat>)
    requires TableIs(mem.bytes, o, s.table) && WellFormed(s.table) && s.base == o.base
    ensures r == AddressIn(s, name)
  {
    var y := GetSymByName(mem, o, name, s.table);
    AddressIs(s, name, y);
    if y.None? {
      return None;
    }
    assert SymbolIs(mem.bytes, o, y.value, s.table.symbols[y.value]);
    var a := SymbolPlace(o, y.value);
    if Read(mem.bytes, a + 6, 2) == 0 {
      return None;
    }
    return Some(Read(mem.bytes, a + 8, 8) + o.base);
  }

  /** The search through all objects. */
  method FindTarget(mem: Memory, all: seq<Object>, name: string, ghost scope: seq<Scope>)
    returns (r: Option<nat>)
    requires ScopeIs(mem.bytes, all, scope) && Searchable(scope)
    ensures r == Target(scope, name, 0)
  {
    var j := 0;
    while j < |all|
      invariant 0 <= j <= |all| && Target(scope, name, 0) == Target(scope, name, j)
    {
      r := FindIn(mem, all[j], name, scope[j]);
      if r.Some? {
        return r;
      }
      j := j + 1;
    }
    return None;
  }

  method PutTarget(mem: Memory, r: Reloc, target: Option<nat>)
    requires r.handled ==> r.slot + 8 <= |mem.bytes|
    modifies mem
    ensures mem.bytes == Put(old(mem.bytes), r, target)
  {
    if r.handled && target.Some? {
      mem.Store(r.slot, Wrapped(target.value + r.addend));
    }
  }

  /** The search and the store for one entry. */
  method FillField(mem: Memory, all: seq<Object>, r: Reloc, ghost scope: seq<Scope>)
    requires ScopeIs(mem.bytes, all, scope) && Searchable(scope) && (r.handled ==> r.slot + 8 <= |mem.bytes|)
    modifies mem
    ensures mem.bytes == Put(old(mem.bytes), r, Target(scope, r.name, 0))
  {
    if r.handled {
      var target := FindTarget(mem, all, r.name, scope);
      PutTarget(mem, r, target);
    }
  }

  /** The reading of one entry; the name is looked at only if the entry is handled. */
  method ReadEntry(mem: Memory, o: Object, k: Kind, i: nat, ghost t: Table, ghost r: Reloc) returns (e: Reloc)
    requires TableIs(mem.bytes, o, t) && EntryIs(mem.bytes, o, t, k, i, r)
    ensures e == r
  {
    var info := Info(mem.bytes, o, k, i);
    if !Handles(k, RelType(info)) {
      return Reloc(false, 0, "", 0);
    }
    assert SymbolIs(mem.bytes, o, RelSymbol(info), t.symbols[RelSymbol(info)]);
    var name := CStr(mem.bytes, o.str + Read(mem.bytes, SymbolPlace(o, RelSymbol(info)), 4));
    return Reloc(true, Wrapped(Offset(mem.bytes, o, k, i) + o.base), name, Addend(mem.bytes, o, k, i));
  }

  lemma SeesAfterPut(m: string, w: string, o: Object, all: seq<Object>, t: Table, scope: seq<Scope>,
                     rs: seq<Reloc>, r: Reloc, target: Option<nat>)
    requires Sees(m, o, all, t, scope, rs) && |all| == |scope|
    requires r.handled ==> r.slot + 8 <= |m| && ClearOfTables(r.slot, o, t, all, scope)
    requires w == Put(m, r, target)
    ensures Sees(w, o, all, t, scope, rs)
  {
    if r.handled && target.Some? {
      var v := Wrapped(target.value + r.addend);
      assert w == Stored(m, r.slot, v);
      SeesAfterStore(m, r.slot, v, o, all, t, scope, rs);
    } else {
      assert w == m;
    }
  }

  /** One of the four loops; its entries are those from number `start` on. */
  method ResolveKind(mem: Memory, o: Object, all: seq<Object>, k: Kind, ghost t: Table,
                     ghost scope: seq<Scope>, ghost rs: seq<Reloc>, ghost m: string, ghost start: nat)
    returns (ghost end: nat)
    requires Linkable(|m|, o, all, t, scope, rs) && Sees(mem.bytes, o, all, t, scope, rs)
    requires start == Start(o, k) && start + Count(o, k) <= |rs| && Done(m, mem.bytes, rs, scope, start)
    modifies mem
    ensures Sees(mem.bytes, o, all, t, scope, rs)
    ensures end == start + Count(o, k) && Done(m, mem.bytes, rs, scope, end)
  {
    var i: nat := 0;
    var count := Count(o, k);
    end := start;
    while i < count
      invariant i <= count && end == start + i
      invariant Sees(mem.bytes, o, all, t, scope, rs) && Done(m, mem.bytes, rs, scope, end)
    {
      end := ResolveEntry(mem, o, all, k, i, t, scope, rs, m, end);
      i := i + 1;
    }
  }

  /** The body of the loop, for the entry that is number `n` of all. */
  method ResolveEntry(mem: Memory, o: Object, all: seq<Object>, k: Kind, i: nat, ghost t: Table,
                      ghost scope: seq<Scope>, ghost rs: seq<Reloc>, ghost m: string, ghost n: nat)
    returns (ghost next: nat)
    requires Linkable(|m|, o, all, t, scope, rs) && Sees(mem.bytes, o, all, t, scope, rs)
    requires i < Count(o, k) && n == Start(o, k) + i < |rs| && Done(m, mem.bytes, rs, scope, n)
    modifies mem
    ensures next == n + 1 && Sees(mem.bytes, o, all, t, scope, rs) && Done(m, mem.bytes, rs, scope, next)
  {
    ghost var w := mem.bytes;
    next := n + 1;
    assert EntryOf(w, o, t, rs, k, i);
    var e := ReadEntry(mem, o, k, i, t, rs[n]);
    FillField(mem, all, e, scope);
    SeesAfterPut(w, mem.bytes, o, all, t, scope, rs, e, Target(scope, e.name, 0));
    DoneStep(m, w, rs, scope, n);
  }

  /** resolve_references: afterwards every handled field whose symbol is defined holds value plus base,
      plus addend, of the first definition, every other byte of memory is unchanged, and so is what the
      linker sees. */
  method ResolveReferences(mem: Memory, o: Object, all: seq<Object>,
                           ghost t: Table, ghost scope: seq<Scope>, ghost rs: seq<Reloc>)
    requires Linkable(|mem.bytes|, o, all, t, scope, rs) && Sees(mem.bytes, o, all, t, scope, rs)
    modifies mem
    ensures Done(old(mem.bytes), mem.bytes, rs, scope, |rs|) && Sees(mem.bytes, o, all, t, scope, rs)
  {
    ghost var m := mem.bytes;
    NothingDone(m, rs, scope);
    ghost var n := ResolveKind(mem, o, all, JmpRel, t, scope, rs, m, 0);
    n := ResolveKind(mem, o, all, DynRel, t, scope, rs, m, n);
    n := ResolveKind(mem, o, all, JmpRela, t, scope, rs, m, n);
    n := ResolveKind(mem, o, all, DynRela, t, scope, rs, m, n);
    assert n == |rs|;
  }
}
