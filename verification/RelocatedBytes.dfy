/** What resolve_references of src/usr/ld_a/ld.c leaves in memory, said of the bytes of the four tables and of the
    symbol tables, by the layouts of src/usr/ld_a/elf.h (chapter 4 of the System V gABI, "Relocation"). */
module RelocatedBytes {
  import opened Basics
  import opened CStrings
  import opened ElfHash
  import opened ElfImage
  import opened Relocation

  /** The 64-bit word at `a`. */
  function Word(m: string, a: nat): nat {
    if a + 8 <= |m| then Read(m, a, 8) else 0
  }

  /** The name of symbol `y`. */
  function NameAt(m: string, o: Object, y: nat): string {
    var a := o.sym + 24 * y;
    if a + 4 <= |m| && o.str + Read(m, a, 4) <= |m| then CStr(m, o.str + Read(m, a, 4)) else ""
  }

  /** The entry at `p` is of one of these types and asks for the name at the field. */
  predicate Asks(m: string, o: Object, p: nat, types: set<nat>, field: nat, name: string) {
    && Word(m, p + 8) % 0x1_0000_0000 in types
    && field == (Word(m, p) + o.base) % 0x1_0000_0000_0000_0000
    && name == NameAt(m, o, Word(m, p + 8) / 0x1_0000_0000)
  }

  /** The lookup in an object finds symbol `y` under the name, and it lies in a section. */
  predicate Finds(m: string, o: Object, t: Table, name: string, y: nat)
    requires ElfHash.WellFormed(t)
  {
    Lookup(t, name) == Some(y) && o.sym + 24 * y + 24 <= |m| && Read(m, o.sym + 24 * y + 6, 2) != 0
  }

  /** Object `first` is the first one in which it does. */
  ghost predicate IsFirst(m: string, all: seq<Object>, scope: seq<Scope>, name: string, first: nat, y: nat)
    requires Searchable(scope) && |all| == |scope|
  {
    && first < |all| && Finds(m, all[first], scope[first].table, name, y)
    && forall j, z :: 0 <= j < first ==> !Finds(m, all[j], scope[j].table, name, z)
  }

  /** The state after a run from memory `m`. */
  ghost predicate Resolved(m: string, w: string, o: Object, all: seq<Object>, t: Table, scope: seq<Scope>,
                           rs: seq<Reloc>) {
    && |all| == |scope| && Searchable(scope) && FieldsIn(|m|, rs)
    && Sees(m, o, all, t, scope, rs) && Done(m, w, rs, scope, |rs|)
  }

  lemma FindsIff(m: string, o: Object, s: Scope, name: string, y: nat)
    requires ElfHash.WellFormed(s.table) && TableIs(m, o, s.table) && s.base == o.base
    ensures Finds(m, o, s.table, name, y) ==> AddressIn(s, name) == Some(Word(m, o.sym + 24 * y + 8) + o.base)
    ensures Defines(s, name) ==> exists z :: Finds(m, o, s.table, name, z)
  {
    hide Read, NameIs, Lookup, EndsWithin, Passes;
    LookupInRange(s.table, name);
    var r := Lookup(s.table, name);
    if r.Some? {
      assert SymbolIs(m, o, r.value, s.table.symbols[r.value]);
      if Defines(s, name) {
        assert Finds(m, o, s.table, name, r.value);
      }
    }
  }

  /** The first definition is the target. */
  lemma TargetIsThere(m: string, all: seq<Object>, scope: seq<Scope>, name: string, first: nat, y: nat)
    requires Searchable(scope) && ScopeIs(m, all, scope) && IsFirst(m, all, scope, name, first, y)
    ensures Target(scope, name, 0) == Some(Word(m, all[first].sym + 24 * y + 8) + all[first].base)
  {
    hide Finds, TableIs, ElfHash.WellFormed, Lookup, Target, Word;
    forall j | 0 <= j < first
      ensures !Defines(scope[j], name)
    {
      FindsIff(m, all[j], scope[j], name, 0);
    }
    FindsIff(m, all[first], scope[first], name, y);
    TargetIsFirst(scope, name, 0, first);
  }

  /** No object has it. */
  ghost predicate NoneFinds(m: string, all: seq<Object>, scope: seq<Scope>, name: string)
    requires Searchable(scope) && |all| == |scope|
  {
    forall j, z :: 0 <= j < |all| ==> !Finds(m, all[j], scope[j].table, name, z)
  }

  lemma NoTarget(m: string, all: seq<Object>, scope: seq<Scope>, name: string)
    requires Searchable(scope) && ScopeIs(m, all, scope) && NoneFinds(m, all, scope, name)
    ensures Target(scope, name, 0) == None
  {
    forall j | 0 <= j < |scope|
      ensures !Defines(scope[j], name)
    {
      FindsIff(m, all[j], scope[j], name, 0);
    }
    TargetNone(scope, name, 0);
  }

  /** The field of an entry afterwards. */
  ghost predicate Filled(m: string, w: string, all: seq<Object>, scope: seq<Scope>, name: string, field: nat,
                         addend: nat)
    requires Searchable(scope) && |all| == |scope|
  {
    && field + 8 <= |m| == |w|
    && (forall first: nat, y: nat :: IsFirst(m, all, scope, name, first, y) ==>
          Word(w, field)
            == (Word(m, all[first].sym + 24 * y + 8) + all[first].base + addend) % 0x1_0000_0000_0000_0000)
    && (NoneFinds(m, all, scope, name) ==> m[field..field + 8] == w[field..field + 8])
  }

  lemma FilledByTarget(m: string, w: string, all: seq<Object>, scope: seq<Scope>, r: Reloc)
    requires Searchable(scope) && |all| == |scope| && ScopeIs(m, all, scope) && r.handled && r.slot + 8 <= |m| == |w|
    requires FieldHolds(m, w, r, Target(scope, r.name, 0))
    ensures Filled(m, w, all, scope, r.name, r.slot, r.addend)
  {
    hide Finds, NoneFinds, Target, Read, Word, ScopeIs, Searchable;
    forall first: nat, y: nat | IsFirst(m, all, scope, r.name, first, y)
      ensures Word(w, r.slot)
           == (Word(m, all[first].sym + 24 * y + 8) + all[first].base + r.addend) % 0x1_0000_0000_0000_0000
    {
      TargetIsThere(m, all, scope, r.name, first, y);
      WordThere(w, r.slot);
    }
    if NoneFinds(m, all, scope, r.name) {
      NoTarget(m, all, scope, r.name);
    }
  }

  lemma WordThere(m: string, a: nat)
    requires a + 8 <= |m|
    ensures Word(m, a) == Read(m, a, 8)
  {
  }

  /** An entry whose words say what it asks for. */
  lemma EntryFilled(m: string, w: string, o: Object, all: seq<Object>, t: Table, scope: seq<Scope>, rs: seq<Reloc>,
                    k: Kind, i: nat)
    requires Resolved(m, w, o, all, t, scope, rs) && i < Count(o, k)
    ensures Start(o, k) + i < |rs| && EntryIs(m, o, t, k, i, rs[Start(o, k) + i])
    ensures var r := rs[Start(o, k) + i]; r.handled ==> Filled(m, w, all, scope, r.name, r.slot, r.addend)
  {
    hide FieldHolds, Filled, ScopeIs, Searchable, Done, FieldsIn, TableIs, EntriesAre, EntryIs, Start, Count, Target;
    EntryIsDone(m, w, o, all, t, scope, rs, k, i);
    var n := Start(o, k) + i;
    if rs[n].handled {
      FilledByTarget(m, w, all, scope, rs[n]);
    }
  }

  lemma EntryIsDone(m: string, w: string, o: Object, all: seq<Object>, t: Table, scope: seq<Scope>, rs: seq<Reloc>,
                    k: Kind, i: nat)
    requires Resolved(m, w, o, all, t, scope, rs) && i < Count(o, k)
    ensures Start(o, k) + i < |rs| && EntryIs(m, o, t, k, i, rs[Start(o, k) + i])
    ensures var r := rs[Start(o, k) + i];
            r.handled ==> r.slot + 8 <= |m| == |w| && FieldHolds(m, w, r, Target(scope, r.name, 0))
  {
    hide FieldHolds, TableIs, EntryIs, Target;
    assert EntryOf(m, o, t, rs, k, i);
    assert EntryDone(m, w, rs, scope, |rs|, Start(o, k) + i);
  }

  lemma SymbolName(m: string, o: Object, t: Table, y: nat)
    requires TableIs(m, o, t) && y < |t.symbols|
    ensures NameAt(m, o, y) == t.symbols[y].name
  {
    assert SymbolIs(m, o, y, t.symbols[y]);
  }

  // ---------------------------------------------------------------- the four tables

  /** jmp_rel: entries of type 7, 16 bytes each. */
  lemma JmpRelFilled(m: string, w: string, o: Object, all: seq<Object>, t: Table, scope: seq<Scope>, rs: seq<Reloc>,
                     i: nat, field: nat, name: string)
    requires Resolved(m, w, o, all, t, scope, rs) && o.jmpRel != 0 && i < o.jmpRelCount
    requires Asks(m, o, o.jmpRel + 16 * i, {7}, field, name)
    ensures Filled(m, w, all, scope, name, field, 0)
  {
    hide Filled, TableIs, NameAt, Read;
    EntryFilled(m, w, o, all, t, scope, rs, JmpRel, i);
    SymbolName(m, o, t, Word(m, o.jmpRel + 16 * i + 8) / 0x1_0000_0000);
  }

  /** dyn_rel: entries of type 6. */
  lemma DynRelFilled(m: string, w: string, o: Object, all: seq<Object>, t: Table, scope: seq<Scope>, rs: seq<Reloc>,
                     i: nat, field: nat, name: string)
    requires Resolved(m, w, o, all, t, scope, rs) && o.dynRel != 0 && i < o.dynRelCount
    requires Asks(m, o, o.dynRel + 16 * i, {6}, field, name)
    ensures Filled(m, w, all, scope, name, field, 0)
  {
    hide Filled, TableIs, NameAt, Read;
    EntryFilled(m, w, o, all, t, scope, rs, DynRel, i);
    SymbolName(m, o, t, Word(m, o.dynRel + 16 * i + 8) / 0x1_0000_0000);
  }

  /** jmp_rela: entries of type 7, 24 bytes each; the addend is not added. */
  lemma JmpRelaFilled(m: string, w: string, o: Object, all: seq<Object>, t: Table, scope: seq<Scope>, rs: seq<Reloc>,
                      i: nat, field: nat, name: string)
    requires Resolved(m, w, o, all, t, scope, rs) && o.jmpRela != 0 && i < o.jmpRelaCount
    requires Asks(m, o, o.jmpRela + 24 * i, {7}, field, name)
    ensures Filled(m, w, all, scope, name, field, 0)
  {
    hide Filled, TableIs, NameAt, Read;
    EntryFilled(m, w, o, all, t, scope, rs, JmpRela, i);
    SymbolName(m, o, t, Word(m, o.jmpRela + 24 * i + 8) / 0x1_0000_0000);
  }

  /** dyn_rela: entries of type 6 or 1, plus the addend in their third word. */
  lemma DynRelaFilled(m: string, w: string, o: Object, all: seq<Object>, t: Table, scope: seq<Scope>, rs: seq<Reloc>,
                      i: nat, field: nat, name: string)
    requires Resolved(m, w, o, all, t, scope, rs) && o.dynRela != 0 && i < o.dynRelaCount
    requires Asks(m, o, o.dynRela + 24 * i, {6, 1}, field, name)
    ensures Filled(m, w, all, scope, name, field, Word(m, o.dynRela + 24 * i + 16))
  {
    hide Filled, TableIs, NameAt, Read;
    EntryFilled(m, w, o, all, t, scope, rs, DynRela, i);
    SymbolName(m, o, t, Word(m, o.dynRela + 24 * i + 8) / 0x1_0000_0000);
  }

  // ---------------------------------------------------------------- all other bytes

  /** Byte `a` is in the field of entry i, which is of one of these types. */
  predicate EntryCovers(m: string, o: Object, table: nat, size: nat, i: nat, types: set<nat>, a: nat) {
    var field := (Word(m, table + size * i) + o.base) % 0x1_0000_0000_0000_0000;
    Word(m, table + size * i + 8) % 0x1_0000_0000 in types && field <= a < field + 8
  }

  ghost predicate Covers(m: string, o: Object, table: nat, size: nat, count: nat, types: set<nat>, a: nat) {
    table != 0 && exists i :: 0 <= i < count && EntryCovers(m, o, table, size, i, types, a)
  }

  /** Each entry of all is one of a table. */
  lemma KindOf(m: string, o: Object, t: Table, rs: seq<Reloc>, n: nat) returns (k: Kind, i: nat)
    requires EntriesAre(m, o, t, rs) && n < |rs|
    ensures i < Count(o, k) && n == Start(o, k) + i && EntryIs(m, o, t, k, i, rs[n])
  {
    k := if n < Start(o, DynRel) then JmpRel
         else if n < Start(o, JmpRela) then DynRel
         else if n < Start(o, DynRela) then JmpRela
         else DynRela;
    i := n - Start(o, k);
    assert EntryOf(m, o, t, rs, k, i);
  }

  lemma HandledCovers(m: string, o: Object, t: Table, k: Kind, i: nat, r: Reloc, a: nat)
    requires i < Count(o, k) && EntryIs(m, o, t, k, i, r) && r.handled && r.slot <= a < r.slot + 8
    ensures match k
            case JmpRel => Covers(m, o, o.jmpRel, 16, o.jmpRelCount, {7}, a)
            case DynRel => Covers(m, o, o.dynRel, 16, o.dynRelCount, {6}, a)
            case JmpRela => Covers(m, o, o.jmpRela, 24, o.jmpRelaCount, {7}, a)
            case DynRela => Covers(m, o, o.dynRela, 24, o.dynRelaCount, {6, 1}, a)
  {
    hide Read;
    match k
    case JmpRel => assert EntryCovers(m, o, o.jmpRel, 16, i, {7}, a);
    case DynRel => assert EntryCovers(m, o, o.dynRel, 16, i, {6}, a);
    case JmpRela => assert EntryCovers(m, o, o.jmpRela, 24, i, {7}, a);
    case DynRela => assert EntryCovers(m, o, o.dynRela, 24, i, {6, 1}, a);
  }

  /** Bytes outside of all these fields are as before. */
  lemma OtherBytesKept(m: string, w: string, o: Object, all: seq<Object>, t: Table, scope: seq<Scope>, rs: seq<Reloc>,
                       a: nat)
    requires Resolved(m, w, o, all, t, scope, rs) && a < |m|
    requires !Covers(m, o, o.jmpRel, 16, o.jmpRelCount, {7}, a) && !Covers(m, o, o.dynRel, 16, o.dynRelCount, {6}, a)
    requires !Covers(m, o, o.jmpRela, 24, o.jmpRelaCount, {7}, a)
    requires !Covers(m, o, o.dynRela, 24, o.dynRelaCount, {6, 1}, a)
    ensures |w| == |m| && w[a] == m[a]
  {
    hide Covers, TableIs, EntriesAre;
    assert Untouched(m, w, rs, a);
    if n :| 0 <= n < |rs| && rs[n].handled && rs[n].slot <= a < rs[n].slot + 8 {
      var k, i := KindOf(m, o, t, rs, n);
      HandledCovers(m, o, t, k, i, rs[n], a);
    }
  }
}
