/** Symbol lookup of src/usr/ld_a/ld.c: elf_hash and the hash chains of get_sym_by_name ("Hash Table"
    in chapter 5 of the System V gABI). */
module ElfHash {
  import opened Basics

  // ---------------------------------------------------------------- the hash

  /** Exclusive or of two numbers below 16, bit by bit. */
  function Xor4(a: nat, b: nat): (r: nat)
    ensures r < 16
  {
    (a + b) % 2 + (a / 2 + b / 2) % 2 * 2 + (a / 4 + b / 4) % 2 * 4 + (a / 8 + b / 8) % 2 * 8
  }

  /** A word from its bits 8 on, bits 4 to 7, and bits 0 to 3. */
  function Glued(high: nat, middle: nat, low: nat): (r: nat)
    requires middle < 16 && low < 16
    ensures r / 256 == high && r % 16 == low
  {
    Over256(high, middle * 16 + low);
    Over16(high * 16 + middle, low);
    high * 256 + middle * 16 + low
  }

  lemma Over256(q: nat, r: nat)
    requires r < 256
    ensures (q * 256 + r) / 256 == q
  {
  }

  lemma Over16(q: nat, r: nat)
    requires r < 16
    ensures (q * 16 + r) % 16 == r
  {
  }

  /** The word with bits 4 to 7 xored with `n`. */
  function XorByte(h: nat, n: nat): (r: nat)
    requires n < 16
    ensures r / 256 == h / 256 && r % 16 == h % 16
  {
    Glued(h / 256, Xor4(h / 16 % 16, n), h % 16)
  }

  /** One round of elf_hash, on 32-bit words that wrap around: the top four bits `n` are folded into
      bits 4 to 7 and cut off. */
  function HashStep(h: nat, c: char): (r: nat)
    ensures r < 0x1000_0000
  {
    var h1 := (h * 16 + c as int % 256) % 0x1_0000_0000;
    var n := h1 / 0x1000_0000;
    (if n != 0 then XorByte(h1, n) else h1) % 0x1000_0000
  }

  lemma EvenPlus(k: nat, z: nat)
    ensures (2 * k + z) % 2 == z % 2
  {
  }

  lemma Parity(a: nat, b: nat)
    ensures (a + b) % 2 == (a % 2 + b % 2) % 2
  {
    EvenPlus(a / 2 + b / 2, a % 2 + b % 2);
  }

  /** The bits of the last four are those of the whole. */
  lemma LastFour(high: nat, low: nat)
    requires low < 16
    ensures var q := 16 * high + low;
            q % 2 == low % 2 && q / 2 % 2 == low / 2 % 2 && q / 4 % 2 == low / 4 % 2 && q / 8 % 2 == low / 8 % 2
  {
    var q := 16 * high + low;
    assert q / 2 == 8 * high + low / 2;
    assert q / 4 == 4 * high + low / 4;
    assert q / 8 == 2 * high + low / 8;
    EvenPlus(8 * high, low);
    EvenPlus(4 * high, low / 2);
    EvenPlus(2 * high, low / 4);
    EvenPlus(high, low / 8);
  }

  /** The four bits of `v` from bit 4 on. */
  lemma Nibble(v: nat)
    ensures v / 16 % 2 == v / 16 % 16 % 2 && v / 32 % 2 == v / 16 % 16 / 2 % 2
    ensures v / 64 % 2 == v / 16 % 16 / 4 % 2 && v / 128 % 2 == v / 16 % 16 / 8 % 2
  {
    var q := v / 16;
    assert v / 32 == q / 2;
    assert v / 64 == q / 4;
    assert v / 128 == q / 8;
    LastFour(q / 16, q % 16);
  }

  lemma FourBits(b0: nat, b1: nat, b2: nat, b3: nat)
    requires b0 < 2 && b1 < 2 && b2 < 2 && b3 < 2
    ensures var v := b0 + b1 * 2 + b2 * 4 + b3 * 8;
            v % 2 == b0 && v / 2 % 2 == b1 && v / 4 % 2 == b2 && v / 8 % 2 == b3
  {
  }

  lemma Xor4Bits(a: nat, b: nat)
    ensures Xor4(a, b) % 2 == (a % 2 + b % 2) % 2 && Xor4(a, b) / 2 % 2 == (a / 2 % 2 + b / 2 % 2) % 2
    ensures Xor4(a, b) / 4 % 2 == (a / 4 % 2 + b / 4 % 2) % 2 && Xor4(a, b) / 8 % 2 == (a / 8 % 2 + b / 8 % 2) % 2
  {
    FourBits((a + b) % 2, (a / 2 + b / 2) % 2, (a / 4 + b / 4) % 2, (a / 8 + b / 8) % 2);
    Parity(a, b);
    Parity(a / 2, b / 2);
    Parity(a / 4, b / 4);
    Parity(a / 8, b / 8);
  }

  lemma CutLow(y: nat)
    ensures var r := y % 0x1000_0000;
            r % 16 == y % 16 && r / 256 == y / 256 % 0x10_0000 && r / 16 % 16 == y / 16 % 16
  {
    var q, r := y / 0x1000_0000, y % 0x1000_0000;
    assert y == q * 0x1000_0000 + r;
    assert y / 256 == q * 0x10_0000 + r / 256 && y / 16 == q * 0x100_0000 + r / 16;
    var s := r / 16;
    assert (q * 0x100_0000 + s) % 16 == s % 16;
  }

  lemma TopBits(x: nat)
    ensures x / 0x2000_0000 == x / 0x1000_0000 / 2 && x / 0x4000_0000 == x / 0x1000_0000 / 4
    ensures x / 0x8000_0000 == x / 0x1000_0000 / 8
  {
  }

  lemma MiddleOf(high: nat, middle: nat, low: nat)
    requires middle < 16 && low < 16
    ensures (high * 256 + middle * 16 + low) / 16 % 16 == middle
  {
    assert (high * 256 + middle * 16 + low) / 16 == high * 16 + middle;
    Over16(high, middle);
  }

  /** Folding, if the top four bits `n` are zero as well. */
  lemma Folded(x: nat, n: nat)
    requires n < 16
    ensures var y := if n != 0 then XorByte(x, n) else x;
            y % 16 == x % 16 && y / 256 == x / 256 && y / 16 % 16 == Xor4(x / 16 % 16, n)
  {
    hide Xor4;
    if n != 0 {
      MiddleOf(x / 256, Xor4(x / 16 % 16, n), x % 16);
    } else {
      XorZero(x / 16 % 16);
    }
  }

  lemma XorZero(a: nat)
    requires a < 16
    ensures Xor4(a, 0) == a
  {
  }

  /** One round bit by bit, for x = 16 h + c in 32 bits: bits 4 to 7 are exclusive-ored with the top four bits
      (the sum of two bits modulo 2), the top four bits are cleared, all others stay. */
  lemma HashStepBits(h: nat, c: char)
    ensures var x, r := (16 * h + c as int % 256) % 0x1_0000_0000, HashStep(h, c);
            && r % 16 == x % 16 && r / 256 == x / 256 % 0x10_0000
            && r / 16 % 2 == (x / 16 % 2 + x / 0x1000_0000 % 2) % 2
            && r / 32 % 2 == (x / 32 % 2 + x / 0x2000_0000 % 2) % 2
            && r / 64 % 2 == (x / 64 % 2 + x / 0x4000_0000 % 2) % 2
            && r / 128 % 2 == (x / 128 % 2 + x / 0x8000_0000 % 2) % 2
  {
    var x := (16 * h + c as int % 256) % 0x1_0000_0000;
    var n := x / 0x1000_0000;
    var y := if n != 0 then XorByte(x, n) else x;
    assert HashStep(h, c) == y % 0x1000_0000;
    hide XorByte, Xor4, HashStep;
    Folded(x, n);
    CutLow(y);
    TopBits(x);
    Nibble(x);
    Nibble(y % 0x1000_0000);
    Xor4Bits(x / 16 % 16, n);
  }

  function HashFrom(h: nat, s: string): (r: nat)
    ensures h < 0x1000_0000 ==> r < 0x1000_0000
    decreases |s|
  {
    if s == "" then h else HashFrom(HashStep(h, s[0]), s[1..])
  }

  /** The hash stays below 2^28: as an int it is not negative. */
  function Hash(s: string): (r: nat)
    ensures r < 0x1000_0000
  {
    HashFrom(0, s)
  }

  /** Cutting off the top four bits of a 32-bit word leaves it below 2^28; XorByte does not touch them. */
  lemma CutIsClear(h1: nat)
    requires h1 < 0x1_0000_0000
    ensures var n := h1 / 0x1000_0000;
            && n < 16 && XorByte(h1, n) / 0x1000_0000 == n
            && XorByte(h1, n) % 0x1000_0000 == XorByte(h1, n) - n * 0x1000_0000
  {
    var x := XorByte(h1, h1 / 0x1000_0000);
    assert x / 256 / 0x10_0000 == x / 0x1000_0000 && h1 / 256 / 0x10_0000 == h1 / 0x1000_0000;
  }

  // ---------------------------------------------------------------- tables

  datatype Symbol = Symbol(name: string, section: nat, value: nat)

  datatype Table = Table(symbols: seq<Symbol>, buckets: seq<nat>, chain: seq<nat>)

  predicate InRange(t: Table) {
    && |t.symbols| == |t.chain| > 0 && |t.buckets| > 0
    && (forall k {:trigger t.buckets[k]} :: 0 <= k < |t.buckets| ==> t.buckets[k] < |t.symbols|)
    && (forall k {:trigger t.chain[k]} :: 0 <= k < |t.chain| ==> t.chain[k] < |t.symbols|)
  }

  /** The chain from `y` on comes to index 0 within `n` steps. */
  predicate EndsWithin(t: Table, y: nat, n: nat)
    requires InRange(t) && y < |t.symbols|
    decreases n
  {
    y == 0 || (n > 0 && EndsWithin(t, t.chain[y], n - 1))
  }

  /** The chain from `y` on comes by `z` before its end. */
  predicate Passes(t: Table, y: nat, z: nat, n: nat)
    requires InRange(t) && y < |t.symbols|
    decreases n
  {
    y == z || (y != 0 && n > 0 && Passes(t, t.chain[y], z, n - 1))
  }

  function Bucket(t: Table, name: string): (y: nat)
    requires InRange(t)
    ensures y < |t.symbols|
  {
    t.buckets[Hash(name) % |t.buckets|]
  }

  /** Symbol 0 has no name and ends every chain; chains are acyclic; every named symbol is on the chain
      of its hash. */
  predicate WellFormed(t: Table) {
    && InRange(t) && t.symbols[0].name == "" && t.chain[0] == 0
    && (forall k {:trigger t.buckets[k]} :: 0 <= k < |t.buckets| ==> EndsWithin(t, t.buckets[k], |t.symbols|))
    && (forall z {:trigger t.symbols[z]} :: 0 <= z < |t.symbols| && t.symbols[z].name != "" ==>
      Passes(t, Bucket(t, t.symbols[z].name), z, |t.symbols|))
  }

  predicate UniqueNames(t: Table) {
    forall i, j :: 0 <= i < j < |t.symbols| && t.symbols[i].name == t.symbols[j].name ==> t.symbols[i].name == ""
  }

  // ---------------------------------------------------------------- the two searches

  /** The loop of get_sym_by_name from `y` on; `n` bounds the steps. */
  function Walk(t: Table, y: nat, name: string, n: nat): Option<nat>
    requires InRange(t) && y < |t.symbols|
    decreases n
  {
    if t.symbols[y].name == name then Some(y)
    else if t.chain[y] == 0 || n == 0 then None
    else Walk(t, t.chain[y], name, n - 1)
  }

  function Lookup(t: Table, name: string): Option<nat>
    requires InRange(t)
  {
    Walk(t, Bucket(t, name), name, |t.symbols|)
  }

  /** The first symbol with that name, by trying one after the other. */
  function Linear(t: Table, name: string, k: nat): Option<nat>
    decreases |t.symbols| - k
  {
    if k >= |t.symbols| then None
    else if t.symbols[k].name == name then Some(k)
    else Linear(t, name, k + 1)
  }

  lemma {:induction false} WalkSound(t: Table, y: nat, name: string, n: nat)
    requires InRange(t) && y < |t.symbols|
    ensures var r := Walk(t, y, name, n); r.Some? ==> r.value < |t.symbols| && t.symbols[r.value].name == name
    decreases n
  {
    if t.symbols[y].name != name && t.chain[y] != 0 && n > 0 {
      WalkSound(t, t.chain[y], name, n - 1);
    }
  }

  lemma LookupInRange(t: Table, name: string)
    requires InRange(t)
    ensures Lookup(t, name).Some? ==> Lookup(t, name).value < |t.symbols|
  {
    WalkSound(t, Bucket(t, name), name, |t.symbols|);
  }

  lemma {:induction false} WalkComplete(t: Table, y: nat, z: nat, n: nat)
    requires WellFormed(t) && y < |t.symbols| && z < |t.symbols| && t.symbols[z].name != ""
    requires Passes(t, y, z, n)
    ensures Walk(t, y, t.symbols[z].name, n).Some?
    decreases n
  {
    if y != z && t.symbols[y].name != t.symbols[z].name {
      WalkComplete(t, t.chain[y], z, n - 1);
    }
  }

  lemma {:induction false} LinearFirst(t: Table, name: string, k: nat, z: nat)
    requires k <= z < |t.symbols| && t.symbols[z].name == name
    requires forall i :: k <= i < z ==> t.symbols[i].name != name
    ensures Linear(t, name, k) == Some(z)
    decreases z - k
  {
    if k < z {
      LinearFirst(t, name, k + 1, z);
    }
  }

  lemma {:induction false} LinearNone(t: Table, name: string, k: nat)
    requires forall i :: k <= i < |t.symbols| ==> t.symbols[i].name != name
    ensures Linear(t, name, k) == None
    decreases |t.symbols| - k
  {
    if k < |t.symbols| {
      LinearNone(t, name, k + 1);
    }
  }

  /** The hash lookup finds a symbol exactly if one with that name exists, and then one with that name. */
  lemma LookupFindsIff(t: Table, name: string)
    requires WellFormed(t) && name != ""
    ensures Lookup(t, name).Some? <==> exists z :: 0 <= z < |t.symbols| && t.symbols[z].name == name
    ensures Lookup(t, name).Some? ==>
              Lookup(t, name).value < |t.symbols| && t.symbols[Lookup(t, name).value].name == name
  {
    WalkSound(t, Bucket(t, name), name, |t.symbols|);
    if z :| 0 <= z < |t.symbols| && t.symbols[z].name == name {
      WalkComplete(t, Bucket(t, name), z, |t.symbols|);
    }
  }

  /** With unique names it is the linear search. */
  lemma LookupIsLinear(t: Table, name: string)
    requires WellFormed(t) && UniqueNames(t) && name != ""
    ensures Lookup(t, name) == Linear(t, name, 0)
  {
    LookupFindsIff(t, name);
    if Lookup(t, name).Some? {
      LinearFirst(t, name, 0, Lookup(t, name).value);
    } else {
      LinearNone(t, name, 0);
    }
  }

  /** The bound on the steps is never what ends the walk. */
  lemma {:induction false} BoundIsEnough(t: Table, y: nat, name: string, n: nat)
    requires WellFormed(t) && y < |t.symbols| && EndsWithin(t, y, n)
    ensures Walk(t, y, name, n) == Walk(t, y, name, n + 1)
    decreases n
  {
    if n > 0 && t.chain[y] != 0 {
      BoundIsEnough(t, t.chain[y], name, n - 1);
    }
  }

  /** Two names in one chain. */
  lemma TwoInOneBucket(a: string, b: string, x: nat, y: nat)
    requires a != "" && b != "" && a != b
    ensures var t := Table([Symbol("", 0, 0), Symbol(a, 1, x), Symbol(b, 1, y)], [1], [0, 2, 0]);
            WellFormed(t) && UniqueNames(t) && Lookup(t, a) == Some(1) && Lookup(t, b) == Some(2)
  {
    var t := Table([Symbol("", 0, 0), Symbol(a, 1, x), Symbol(b, 1, y)], [1], [0, 2, 0]);
    assert Bucket(t, a) == 1 && Bucket(t, b) == 1;
    assert EndsWithin(t, 2, 2) && EndsWithin(t, 1, 3);
    assert Passes(t, 2, 2, 2) && Passes(t, 1, 2, 3) && Passes(t, 1, 1, 3);
    assert Walk(t, 2, b, 2) == Some(2);
  }
}
