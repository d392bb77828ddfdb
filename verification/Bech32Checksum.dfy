/** The BCH checksum of a Bech32 string (internal/helper/sdk/bech32.go, lines 17-146).

    The program keeps the checksum state in one machine word and folds five generator
    words into it. The reference here is the mathematics the words stand for: the state is
    the remainder, modulo a generator polynomial of degree six over the field of 32
    elements, of the polynomial whose coefficients are the symbols fed so far
    (Bech32 section of BIP-173, checksum). The word computation is proved to refine it. */
module Bech32Checksum {

  type Byte = bv8
  type Bytes = seq<bv8>
  /** The program's `int`, 64 bits wide. */
  type Word = bv64

  datatype Option<+T> = None | Some(value: T)

  // ---------------------------------------------------------------- the field of 32 elements

  /** Multiplication by the field's generator element, modulo x^5 + x^3 + 1. */
  function Double(a: bv5): bv5 {
    (a << 1) ^ (if a & 16 != 0 then 9 else 0)
  }

  function Mul(a: bv5, b: bv5): bv5 {
    (if b & 1 != 0 then a else 0) ^
    (if b & 2 != 0 then Double(a) else 0) ^
    (if b & 4 != 0 then Double(Double(a)) else 0) ^
    (if b & 8 != 0 then Double(Double(Double(a))) else 0) ^
    (if b & 16 != 0 then Double(Double(Double(Double(a)))) else 0)
  }

  lemma MulLastCoefficientInjective(a: bv5, b: bv5)
    requires Mul(18, a) == Mul(18, b)
    ensures a == b
  {
  }

  // ---------------------------------------------------------------- remainders

  /** A polynomial of degree below six, highest coefficient first. */
  datatype Poly = Poly(c5: bv5, c4: bv5, c3: bv5, c2: bv5, c1: bv5, c0: bv5)

  const ZERO := Poly(0, 0, 0, 0, 0, 0)
  const ONE := Poly(0, 0, 0, 0, 0, 1)

  function Plus(p: Poly, q: Poly): Poly {
    Poly(p.c5 ^ q.c5, p.c4 ^ q.c4, p.c3 ^ q.c3, p.c2 ^ q.c2, p.c1 ^ q.c1, p.c0 ^ q.c0)
  }

  /** x^6 modulo the generator x^6 + 29x^5 + 22x^4 + 20x^3 + 21x^2 + 29x + 18, times b. */
  function Reduction(b: bv5): Poly {
    Poly(Mul(29, b), Mul(22, b), Mul(20, b), Mul(21, b), Mul(29, b), Mul(18, b))
  }

  /** The coefficients move up one place; the one that falls off is dropped. */
  function ShiftIn(p: Poly, v: bv5): Poly {
    Poly(p.c4, p.c3, p.c2, p.c1, p.c0, v)
  }

  /** p * x + v modulo the generator. */
  function Step(p: Poly, v: bv5): Poly {
    Plus(ShiftIn(p, v), Reduction(p.c5))
  }

  function Sym(v: Byte): bv5 {
    (v & 31) as bv5
  }

  /** The remainder after feeding a sequence of symbols. */
  function Run(p: Poly, vs: Bytes): Poly {
    if vs == [] then p else Step(Run(p, vs[..|vs| - 1]), Sym(vs[|vs| - 1]))
  }

  predicate Five(v: Byte) {
    v < 32
  }

  predicate FiveBit(vs: Bytes) {
    forall k :: 0 <= k < |vs| ==> Five(vs[k])
  }

  lemma FiveBitSlice(w: Bytes, lo: nat, hi: nat)
    requires lo <= hi <= |w| && FiveBit(w)
    ensures FiveBit(w[lo..hi])
  {
  }

  function Zeros(n: nat): (r: Bytes)
    ensures |r| == n && FiveBit(r)
  {
    seq(n, i => 0)
  }

  lemma {:induction false} RunConcat(p: Poly, u: Bytes, v: Bytes)
    ensures Run(p, u + v) == Run(Run(p, u), v)
    decreases |v|
  {
    if v == [] {
      assert u + v == u;
    } else {
      var init := v[..|v| - 1];
      assert (u + v)[..|u + v| - 1] == u + init;
      RunConcat(p, u, init);
    }
  }

  lemma StepInjective(p: Poly, q: Poly, v: bv5)
    requires Step(p, v) == Step(q, v)
    ensures p == q
  {
    MulLastCoefficientInjective(p.c5, q.c5);
  }

  /** What is fed last never hides a difference of state. */
  lemma {:induction false} RunCancel(p: Poly, q: Poly, vs: Bytes)
    requires Run(p, vs) == Run(q, vs)
    ensures p == q
    decreases |vs|
  {
    if vs != [] {
      var init := vs[..|vs| - 1];
      StepInjective(Run(p, init), Run(q, init), Sym(vs[|vs| - 1]));
      RunCancel(p, q, init);
    }
  }

  // ---------------------------------------------------------------- up to six symbols

  function Load(vs: Bytes): Poly {
    if vs == [] then ZERO else ShiftIn(Load(vs[..|vs| - 1]), Sym(vs[|vs| - 1]))
  }

  /** The coefficient of x^j. */
  function Coefficient(p: Poly, j: nat): bv5
    requires j < 6
  {
    if j == 0 then p.c0 else if j == 1 then p.c1 else if j == 2 then p.c2
    else if j == 3 then p.c3 else if j == 4 then p.c4 else p.c5
  }

  /** Six symbols in a row pack into the register in order. */
  lemma {:induction false} LoadCoefficient(vs: Bytes, j: nat)
    requires |vs| <= 6 && j < 6
    ensures Coefficient(Load(vs), j) == if j < |vs| then Sym(vs[|vs| - 1 - j]) else 0
    decreases |vs|
  {
    if vs != [] && j > 0 {
      LoadCoefficient(vs[..|vs| - 1], j - 1);
    }
  }

  lemma PlusShift(p: Poly, q: Poly, v: bv5, m: Poly)
    ensures Plus(ShiftIn(Plus(p, q), v), m) == Plus(Plus(ShiftIn(p, 0), m), ShiftIn(q, v))
  {
  }

  lemma StepPlus(p: Poly, q: Poly, v: bv5)
    requires q.c5 == 0
    ensures Step(Plus(p, q), v) == Plus(Step(p, 0), ShiftIn(q, v))
  {
    assert Plus(p, q).c5 == p.c5;
    PlusShift(p, q, v, Reduction(p.c5));
  }

  /** The first six symbols fed act without feedback among themselves. */
  lemma {:induction false} RunIsLoad(p: Poly, vs: Bytes)
    requires |vs| <= 6
    ensures Run(p, vs) == Plus(Run(p, Zeros(|vs|)), Load(vs))
    decreases |vs|
  {
    if vs != [] {
      var init := vs[..|vs| - 1];
      RunIsLoad(p, init);
      LoadCoefficient(init, 5);
      assert Zeros(|vs|)[..|vs| - 1] == Zeros(|init|);
      StepPlus(Run(p, Zeros(|init|)), Load(init), Sym(vs[|vs| - 1]));
    }
  }

  lemma SymInjective(u: Byte, v: Byte)
    requires u < 32 && v < 32 && Sym(u) == Sym(v)
    ensures u == v
  {
  }

  lemma PlusCancel(p: Poly, q: Poly, r: Poly)
    requires Plus(p, q) == Plus(p, r)
    ensures q == r
  {
  }

  lemma LoadInjective(u: Bytes, v: Bytes)
    requires |u| == |v| <= 6 && FiveBit(u) && FiveBit(v)
    requires Load(u) == Load(v)
    ensures u == v
  {
    forall k | 0 <= k < |u| ensures u[k] == v[k] {
      LoadCoefficient(u, |u| - 1 - k);
      LoadCoefficient(v, |v| - 1 - k);
      SymInjective(u[k], v[k]);
    }
  }

  lemma RunInjective(p: Poly, u: Bytes, v: Bytes)
    requires |u| == |v| <= 6 && FiveBit(u) && FiveBit(v)
    requires Run(p, u) == Run(p, v)
    ensures u == v
  {
    hide Run, Load, Plus;
    RunIsLoad(p, u);
    RunIsLoad(p, v);
    PlusCancel(Run(p, Zeros(|u|)), Load(u), Load(v));
    LoadInjective(u, v);
  }

  /** With the same start and the same end, at most one window of six gives a remainder. */
  lemma WindowDetermined(e: Bytes, u: Bytes, v: Bytes, q: Bytes)
    requires |u| == |v| <= 6 && FiveBit(u) && FiveBit(v)
    requires Run(ONE, e + u + q) == Run(ONE, e + v + q)
    ensures u == v
  {
    hide Run;
    RunConcat(ONE, e + u, q);
    RunConcat(ONE, e + v, q);
    RunCancel(Run(ONE, e + u), Run(ONE, e + v), q);
    RunConcat(ONE, e, u);
    RunConcat(ONE, e, v);
    RunInjective(Run(ONE, e), u, v);
  }

  lemma SplitAround<T>(e: seq<T>, w: seq<T>, w': seq<T>, lo: nat, hi: nat)
    requires lo <= hi <= |w| == |w'|
    requires forall k :: 0 <= k < |w| && !(lo <= k < hi) ==> w[k] == w'[k]
    ensures e + w == e + w[..lo] + w[lo..hi] + w[hi..]
    ensures e + w' == e + w[..lo] + w'[lo..hi] + w[hi..]
    ensures w[lo..hi] == w'[lo..hi] ==> w == w'
  {
  }

  lemma BurstChangesRemainder(e: Bytes, w: Bytes, w': Bytes, i: nat)
    requires |w| == |w'| && FiveBit(w) && FiveBit(w') && w != w'
    requires forall k :: 0 <= k < |w| && !(i <= k < i + 6) ==> w[k] == w'[k]
    ensures Run(ONE, e + w) != Run(ONE, e + w')
  {
    hide Run, Five;
    var lo := if i < |w| then i else |w|;
    var hi := if i + 6 < |w| then i + 6 else |w|;
    SplitAround(e, w, w', lo, hi);
    FiveBitSlice(w, lo, hi);
    FiveBitSlice(w', lo, hi);
    if Run(ONE, e + w) == Run(ONE, e + w') {
      WindowDetermined(e + w[..lo], w[lo..hi], w'[lo..hi], w[hi..]);
    }
  }

  // ---------------------------------------------------------------- the checksum of a string

  /** The upper three bits of a prefix character; strings here hold one byte per character. */
  function High(c: char): Byte {
    (c as int / 32 % 8) as Byte
  }

  function Low(c: char): Byte {
    (c as int % 32) as Byte
  }

  function HighBits(hrp: string): (r: Bytes)
    ensures |r| == |hrp|
  {
    seq(|hrp|, i requires 0 <= i < |hrp| => High(hrp[i]))
  }

  function LowBits(hrp: string): (r: Bytes)
    ensures |r| == |hrp|
  {
    seq(|hrp|, i requires 0 <= i < |hrp| => Low(hrp[i]))
  }

  function Expand(hrp: string): Bytes {
    HighBits(hrp) + [0] + LowBits(hrp)
  }

  /** The remainder of the expanded prefix followed by the given symbols. */
  function Polymod(hrp: string, symbols: Bytes): Poly {
    Run(ONE, Expand(hrp) + symbols)
  }

  predicate VerifyChecksum(hrp: string, values: Bytes, checksum: Bytes) {
    Polymod(hrp, values + checksum) == ONE
  }

  /** The coefficients as symbols, in the order in which they are written. */
  function Symbols(p: Poly): (c: Bytes)
    ensures |c| == 6 && FiveBit(c)
  {
    [p.c5 as Byte, p.c4 as Byte, p.c3 as Byte, p.c2 as Byte, p.c1 as Byte, p.c0 as Byte]
  }

  /** The six symbols that make the string verify. */
  function Checksum(hrp: string, values: Bytes): (c: Bytes)
    ensures |c| == 6 && FiveBit(c)
  {
    Symbols(Plus(Polymod(hrp, values + Zeros(6)), ONE))
  }

  /** Exactly one checksum verifies for each prefix and payload. */
  lemma ChecksumUnique(hrp: string, values: Bytes, checksum: Bytes)
    requires |checksum| == 6 && FiveBit(checksum)
    ensures VerifyChecksum(hrp, values, checksum) <==> checksum == Checksum(hrp, values)
  {
    hide Run, Plus, Symbols, Five;
    var e := Expand(hrp) + values;
    assert Expand(hrp) + (values + checksum) == e + checksum;
    assert Expand(hrp) + (values + Zeros(6)) == e + Zeros(6);
    RunConcat(ONE, e, checksum);
    RunConcat(ONE, e, Zeros(6));
    RunSymbols(Run(ONE, e), ONE);
    if VerifyChecksum(hrp, values, checksum) {
      RunInjective(Run(ONE, e), checksum, Checksum(hrp, values));
    }
  }

  /** Six symbols can steer any state to any target. */
  lemma RunSymbols(p: Poly, target: Poly)
    ensures Run(p, Symbols(Plus(Run(p, Zeros(6)), target))) == target
  {
    hide Run, Load, Plus, Symbols;
    var z := Run(p, Zeros(6));
    RunIsLoad(p, Symbols(Plus(z, target)));
    LoadSymbols(Plus(z, target));
    PlusTwice(z, target);
  }

  lemma LoadSymbols(p: Poly)
    ensures Load(Symbols(p)) == p
  {
    var c := Symbols(p);
    LoadCoefficient(c, 0);
    LoadCoefficient(c, 1);
    LoadCoefficient(c, 2);
    LoadCoefficient(c, 3);
    LoadCoefficient(c, 4);
    LoadCoefficient(c, 5);
  }

  lemma PlusTwice(p: Poly, q: Poly)
    ensures Plus(p, Plus(p, q)) == q
  {
  }

  /** Any change confined to six consecutive symbols of an accepted string is rejected,
      at any length; in particular every substitution and every swap of neighbours. */
  lemma BurstDetected(hrp: string, values: Bytes, checksum: Bytes,
                      values': Bytes, checksum': Bytes, i: nat)
    requires VerifyChecksum(hrp, values, checksum)
    requires |values'| == |values| && |checksum'| == |checksum|
    requires FiveBit(values + checksum) && FiveBit(values' + checksum')
    requires forall k :: 0 <= k < |values + checksum| && !(i <= k < i + 6) ==>
                         (values + checksum)[k] == (values' + checksum')[k]
    requires values' + checksum' != values + checksum
    ensures !VerifyChecksum(hrp, values', checksum')
  {
    BurstChangesRemainder(Expand(hrp), values + checksum, values' + checksum', i);
  }

  // ---------------------------------------------------------------- the word computation

  const GEN: seq<Word> := [0x3b6a57b2, 0x26508e6d, 0x1ea119fa, 0x3d4233dd, 0x2a1462b3]

  function Pack(p: Poly): Word {
    ((p.c5 as Word) << 25) | ((p.c4 as Word) << 20) | ((p.c3 as Word) << 15) |
    ((p.c2 as Word) << 10) | ((p.c1 as Word) << 5) | (p.c0 as Word)
  }

  /** The coefficient 2^i. */
  function Unit(i: nat): bv5
    requires i < 5
  {
    if i == 0 then 1 else if i == 1 then 2 else if i == 2 then 4 else if i == 3 then 8 else 16
  }

  predicate HasUnit(b: bv5, i: nat)
    requires i < 5
  {
    b & Unit(i) != 0
  }

  /** Generator word i is 2^i * x^6 modulo the generator polynomial. */
  lemma GeneratorWord(i: nat)
    requires i < 5
    ensures GEN[i] == Pack(Reduction(Unit(i)))
  {
  }

  function PartialReduction(b: bv5, n: nat): Poly
    requires n <= 5
  {
    if n == 0 then ZERO
    else if HasUnit(b, n - 1) then Plus(PartialReduction(b, n - 1), Reduction(Unit(n - 1)))
    else PartialReduction(b, n - 1)
  }

  lemma PartialStep(b: bv5, n: nat)
    requires n < 5
    ensures PartialReduction(b, 0) == ZERO
    ensures PartialReduction(b, n + 1) ==
            if HasUnit(b, n) then Plus(PartialReduction(b, n), Reduction(Unit(n))) else PartialReduction(b, n)
  {
  }

  lemma PartialReductionComplete(b: bv5)
    ensures PartialReduction(b, 5) == Reduction(b)
  {
    assert PartialReduction(b, 1) == if b & 1 != 0 then Reduction(1) else ZERO;
    assert PartialReduction(b, 2) == if b & 2 != 0 then Plus(PartialReduction(b, 1), Reduction(2))
        else PartialReduction(b, 1);
    assert PartialReduction(b, 3) == if b & 4 != 0 then Plus(PartialReduction(b, 2), Reduction(4))
        else PartialReduction(b, 2);
    assert PartialReduction(b, 4) == if b & 8 != 0 then Plus(PartialReduction(b, 3), Reduction(8))
        else PartialReduction(b, 3);
    assert PartialReduction(b, 5) == if b & 16 != 0 then Plus(PartialReduction(b, 4), Reduction(16))
        else PartialReduction(b, 4);
  }

  /** The program's test of bit i of a word. */
  predicate BitSet(b: Word, i: nat)
    requires i < 5
  {
    (b >> i) & 1 == 1
  }

  lemma BitTest(b: bv5, i: nat)
    requires i < 5
    ensures BitSet(b as Word, i) <==> HasUnit(b, i)
  {
  }

  lemma PlusAssociates(p: Poly, q: Poly, r: Poly)
    ensures Plus(Plus(p, q), r) == Plus(p, Plus(q, r))
  {
  }

  lemma PlusZero(p: Poly)
    ensures Plus(p, ZERO) == p
  {
  }

  lemma PackOne()
    ensures Pack(ONE) == 1
  {
  }

  lemma PackPlus(p: Poly, q: Poly)
    ensures Pack(p) ^ Pack(q) == Pack(Plus(p, q))
  {
  }

  lemma PackShiftIn(p: Poly, v: Byte)
    requires v < 32
    ensures Pack(p) >> 25 == p.c5 as Word
    ensures ((Pack(p) & 0x1ffffff) << 5) ^ (v as Word) == Pack(ShiftIn(p, Sym(v)))
  {
  }

  /** The state never outgrows 30 bits, and the word determines the remainder. */
  lemma PackFaithful(p: Poly, q: Poly)
    ensures Pack(p) < 0x40000000
    ensures Pack(p) == Pack(q) <==> p == q
  {
  }

  lemma FoldWord(q: Poly, r: Poly, i: nat)
    requires i < 5
    ensures Pack(Plus(q, r)) ^ GEN[i] == Pack(Plus(q, Plus(r, Reduction(Unit(i)))))
  {
    hide Pack, Plus, Reduction;
    GeneratorWord(i);
    PackPlus(Plus(q, r), Reduction(Unit(i)));
    PlusAssociates(q, r, Reduction(Unit(i)));
  }

  /** The inner loop of every round: the generator words picked by the bits of b. */
  method FoldGenerators(start: Word, b: Word, ghost q: Poly, ghost c: bv5) returns (chk: Word)
    requires start == Pack(q) && b == c as Word
    ensures chk == Pack(Plus(q, Reduction(c)))
  {
    hide Pack, Plus, Reduction, BitSet, HasUnit, PartialReduction, Unit;
    chk := start;
    PlusZero(q);
    PartialStep(c, 0);
    for i := 0 to 5
      invariant chk == Pack(Plus(q, PartialReduction(c, i)))
    {
      BitTest(c, i);
      PartialStep(c, i);
      if BitSet(b, i) {
        FoldWord(q, PartialReduction(c, i), i);
        chk := chk ^ GEN[i];
      }
    }
    PartialReductionComplete(c);
  }

  /** One round: shift the symbol in, fold the overflow back. */
  method Round(chk: Word, v: Byte, ghost p: Poly) returns (next: Word)
    requires chk == Pack(p) && v < 32
    ensures next == Pack(Step(p, Sym(v)))
  {
    hide Pack, Plus, Reduction, ShiftIn;
    PackShiftIn(p, v);
    var b := chk >> 25;
    next := ((chk & 0x1ffffff) << 5) ^ (v as Word);
    next := FoldGenerators(next, b, ShiftIn(p, Sym(v)), p.c5);
  }

  /** Each of the program's symbol loops is this one. */
  method Rounds(start: Word, vs: Bytes, ghost p: Poly) returns (chk: Word)
    requires start == Pack(p) && FiveBit(vs)
    ensures chk == Pack(Run(p, vs))
  {
    chk := start;
    for i := 0 to |vs|
      invariant chk == Pack(Run(p, vs[..i]))
    {
      assert vs[..i + 1][..i] == vs[..i];
      chk := Round(chk, vs[i], Run(p, vs[..i]));
    }
    assert vs[..|vs|] == vs;
  }

  /** The checksum word of a prefix, a payload and a checksum; six zeros stand for a missing checksum. */
  method ComputePolymod(hrp: string, values: Bytes, checksum: Option<Bytes>) returns (chk: Word)
    requires FiveBit(values)
    requires checksum.Some? ==> FiveBit(checksum.value)
    ensures chk == Pack(Polymod(hrp, values + if checksum.Some? then checksum.value else Zeros(6)))
    ensures chk < 0x40000000
  {
    hide Run, Pack;
    PackOne();
    HalvesAreFiveBit(hrp);
    var last := if checksum.Some? then checksum.value else Zeros(6);
    chk := Rounds(1, HighBits(hrp), ONE);
    chk := Rounds(chk, [0], Run(ONE, HighBits(hrp)));
    RunConcat(ONE, HighBits(hrp), [0]);
    chk := Rounds(chk, LowBits(hrp), Run(ONE, HighBits(hrp) + [0]));
    RunConcat(ONE, HighBits(hrp) + [0], LowBits(hrp));
    chk := Rounds(chk, values, Run(ONE, Expand(hrp)));
    RunConcat(ONE, Expand(hrp), values);
    chk := Rounds(chk, last, Run(ONE, Expand(hrp) + values));
    RunConcat(ONE, Expand(hrp) + values, last);
    assert Expand(hrp) + values + last == Expand(hrp) + (values + last);
    PackFaithful(Polymod(hrp, values + last), ONE);
  }

  /** The comparison of the word with 1 is the test for remainder 1. */
  method CheckChecksum(hrp: string, values: Bytes, checksum: Bytes) returns (ok: bool)
    requires FiveBit(values) && FiveBit(checksum)
    ensures ok <==> VerifyChecksum(hrp, values, checksum)
  {
    hide Pack, Polymod, FiveBit;
    var polymod := ComputePolymod(hrp, values, Some(checksum));
    PackOne();
    PackFaithful(Polymod(hrp, values + checksum), ONE);
    return polymod == 1;
  }

  lemma HalvesAreFiveBit(hrp: string)
    ensures FiveBit(HighBits(hrp)) && FiveBit(LowBits(hrp))
  {
  }

  /** The six checksum symbols, cut from the checksum word. */
  method ComputeChecksum(hrp: string, values: Bytes) returns (c: Bytes)
    requires FiveBit(values)
    ensures c == Checksum(hrp, values)
  {
    hide Pack, Polymod, Plus, Symbols, Cut, FiveBit;
    var polymod := ComputePolymod(hrp, values, None);
    PackOne();
    ghost var p := Plus(Polymod(hrp, values + Zeros(6)), ONE);
    PackPlus(Polymod(hrp, values + Zeros(6)), ONE);
    polymod := polymod ^ 1;
    assert polymod == Pack(p);
    ghost var all := Symbols(p);
    c := [];
    for i := 0 to 6
      invariant c == all[..i]
    {
      CutSymbol(p, i);
      assert all[..i + 1] == all[..i] + [all[i]];
      c := c + [Cut(polymod, i)];
    }
  }

  /** The i-th group of five bits of the checksum word, from the top: shifted by 5 * (5 - i). */
  function Cut(w: Word, i: nat): Byte
    requires i < 6
  {
    var shifted := if i == 0 then w >> 25 else if i == 1 then w >> 20 else if i == 2 then w >> 15
                   else if i == 3 then w >> 10 else if i == 4 then w >> 5 else w;
    (shifted & 31) as Byte
  }

  lemma CutWord(p: Poly)
    ensures Cut(Pack(p), 0) == p.c5 as Byte && Cut(Pack(p), 1) == p.c4 as Byte
    ensures Cut(Pack(p), 2) == p.c3 as Byte && Cut(Pack(p), 3) == p.c2 as Byte
    ensures Cut(Pack(p), 4) == p.c1 as Byte && Cut(Pack(p), 5) == p.c0 as Byte
  {
  }

  lemma CutSymbol(p: Poly, i: nat)
    requires i < 6
    ensures Cut(Pack(p), i) == Symbols(p)[i]
  {
    hide Pack, Cut;
    CutWord(p);
  }
}
