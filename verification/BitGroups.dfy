/** Regrouping bytes by bits (internal/helper/sdk/bech32.go, lines 304-377). */
module BitGroups {
  import opened Bech32Checksum
  import opened Bech32Codec

  type Bits = seq<bool>

  // ---------------------------------------------------------------- bits of a byte

  /** Shift counts are bytes in the program. */
  function Count(t: nat): (r: Byte)
    requires t <= 8
    ensures r <= 8
  {
    t as Byte
  }

  lemma CountStep(t: nat)
    requires 1 <= t <= 8
    ensures 1 <= Count(t) && Count(t - 1) == Count(t) - 1
    ensures Count(8 - t) == 8 - Count(t) && Count(8 - (t - 1)) == 9 - Count(t)
  {
  }

  function ShiftLeft(b: Byte, t: Byte): Byte
    requires t <= 8
  {
    b << t
  }

  function ShiftRight(b: Byte, t: Byte): Byte
    requires t <= 8
  {
    b >> t
  }

  function Shl(b: Byte, n: nat): Byte
    requires n <= 8
  {
    ShiftLeft(b, Count(n))
  }

  function Shr(b: Byte, n: nat): Byte
    requires n <= 8
  {
    ShiftRight(b, Count(n))
  }

  function Or(a: Byte, b: Byte): Byte {
    a | b
  }

  function Top(b: Byte): bool {
    b & 128 != 0
  }

  /** The n highest bits, highest first. */
  function Head(b: Byte, n: nat): (r: Bits)
    ensures |r| == n
    decreases n
  {
    if n == 0 then [] else [Top(b)] + Head(Shl(b, 1), n - 1)
  }

  /** The n lowest bits, highest first; any bit above them is discarded. */
  function BitsOf(b: Byte, n: nat): (r: Bits)
    requires n <= 8
    ensures |r| == n
  {
    Head(Shl(b, 8 - n), n)
  }

  function Bit(x: bool): Byte {
    if x then 1 else 0
  }

  function Push(v: Byte, x: bool): Byte {
    Or(Shl(v, 1), Bit(x))
  }

  /** The number written by the bits. */
  function PackBits(bs: Bits): Byte {
    if bs == [] then 0 else Push(PackBits(bs[..|bs| - 1]), bs[|bs| - 1])
  }

  /** No bit at position n or above. */
  predicate Fits(b: Byte, n: nat)
    requires n <= 8
  {
    Shr(b, n) == 0
  }

  lemma ShiftOnce(v: Byte, b: Byte, t: nat)
    requires 1 <= t <= 8
    ensures Or(Shl(Push(v, Top(b)), t - 1), Shr(Shl(b, 1), 8 - (t - 1))) == Or(Shl(v, t), Shr(b, 8 - t))
    ensures Shl(Shl(b, 1), t - 1) == Shl(b, t)
  {
    hide Count, Push, Top, ShiftLeft, ShiftRight, Or;
    CountStep(t);
    TopIsShift(v, b);
    ShiftOnceNative(v, b, Count(t), Push(v, Top(b)));
    CountLeft(0);
  }

  lemma ShiftOnceNative(v: Byte, b: Byte, t: Byte, p: Byte)
    requires 1 <= t <= 8 && p == Or(ShiftLeft(v, 1), ShiftRight(b, 7))
    ensures Or(ShiftLeft(p, t - 1), ShiftRight(ShiftLeft(b, 1), 9 - t)) == Or(ShiftLeft(v, t), ShiftRight(b, 8 - t))
    ensures ShiftLeft(ShiftLeft(b, 1), t - 1) == ShiftLeft(b, t)
  {
  }

  lemma TopIsShift(v: Byte, b: Byte)
    ensures Push(v, Top(b)) == Or(ShiftLeft(v, 1), ShiftRight(b, 7))
  {
  }

  lemma ShiftNone(v: Byte, b: Byte)
    ensures Or(Shl(v, 0), Shr(b, 8)) == v && Shl(b, 0) == b
  {
  }

  lemma {:induction false} HeadSplit(b: Byte, n: nat, t: nat)
    requires t <= n && t <= 8
    ensures Head(b, n) == Head(b, t) + Head(Shl(b, t), n - t)
    decreases t
  {
    hide Shl, Shr, Or, Push, Top;
    if t == 0 {
      ShiftNone(0, b);
    } else {
      HeadSplit(Shl(b, 1), n - 1, t - 1);
      ShiftOnce(0, b, t);
    }
  }

  lemma PackSnoc(p: Bits, x: bool)
    ensures PackBits(p + [x]) == Push(PackBits(p), x)
  {
    hide Push;
    assert (p + [x])[..|p|] == p;
  }

  /** Appending the top t bits of b to a packed group is the program's shift-and-or. */
  lemma {:induction false} PackTransfer(p: Bits, b: Byte, t: nat)
    requires t <= 8
    ensures PackBits(p + Head(b, t)) == Or(Shl(PackBits(p), t), Shr(b, 8 - t))
    decreases t
  {
    hide Shl, Shr, Or, Push, Top, PackBits;
    if t == 0 {
      assert p + Head(b, t) == p;
      ShiftNone(PackBits(p), b);
    } else {
      var q := p + [Top(b)];
      PackSnoc(p, Top(b));
      PackTransfer(q, Shl(b, 1), t - 1);
      assert p + Head(b, t) == q + Head(Shl(b, 1), t - 1);
      ShiftOnce(PackBits(p), b, t);
    }
  }

  lemma FitsStep(v: Byte, n: nat, x: bool)
    requires n < 8 && Fits(v, n)
    ensures Fits(Push(v, x), n + 1)
  {
    CountStep(n + 1);
    hide Count;
  }

  lemma {:induction false} PackFits(p: Bits)
    requires |p| <= 8
    ensures Fits(PackBits(p), |p|)
    decreases |p|
  {
    if p != [] {
      hide Fits, Push;
      PackFits(p[..|p| - 1]);
      FitsStep(PackBits(p[..|p| - 1]), |p| - 1, p[|p| - 1]);
    }
  }

  /** The number whose bit n is x and whose lower bits are v. */
  function Prefix(x: bool, v: Byte, n: nat): Byte
    requires n <= 7
  {
    Or(Shl(Bit(x), n), v)
  }

  lemma PrefixPush(v: Byte, n: nat, x: bool, y: bool)
    requires n < 7
    ensures Push(Prefix(x, v, n), y) == Prefix(x, Push(v, y), n + 1)
  {
    BitMoves(Bit(x), n);
    hide Bit;
    PushOfOr(Shl(Bit(x), n), v, y);
  }

  lemma BitMoves(b: Byte, n: nat)
    requires n < 7
    ensures Shl(Shl(b, n), 1) == Shl(b, n + 1)
  {
    CountStep(n + 1);
    hide Count;
  }

  lemma PushOfOr(a: Byte, v: Byte, y: bool)
    ensures Push(Or(a, v), y) == Or(Shl(a, 1), Push(v, y))
  {
  }

  lemma PrefixEmpty(x: bool)
    ensures Push(0, x) == Prefix(x, 0, 0)
  {
  }

  lemma {:induction false} PackCons(x: bool, q: Bits)
    requires |q| <= 7
    ensures PackBits([x] + q) == Prefix(x, PackBits(q), |q|)
    decreases |q|
  {
    hide Push, Prefix;
    if q == [] {
      assert ([x] + q)[..0] == [];
      PrefixEmpty(x);
    } else {
      var init := q[..|q| - 1];
      assert ([x] + q)[..|q|] == [x] + init;
      PackCons(x, init);
      PrefixPush(PackBits(init), |init|, x, q[|q| - 1]);
    }
  }

  lemma TopOfPrefix(v: Byte, n: nat, x: bool)
    requires n <= 7 && Fits(v, n)
    ensures Top(Shl(Prefix(x, v, n), 7 - n)) == x
    ensures Shl(Shl(Prefix(x, v, n), 7 - n), 1) == Shl(v, 8 - n)
  {
    hide Count, Bit, ShiftLeft, ShiftRight, Or, Top;
    BitIsSmall(x);
    CountLeft(n);
    TopOfPrefixNative(v, Count(n), Bit(x));
  }

  lemma BitIsSmall(x: bool)
    ensures Bit(x) <= 1 && (Bit(x) == 1 <==> x)
  {
  }

  lemma CountLeft(n: nat)
    requires n <= 7
    ensures Count(1) == 1 && Count(n) <= 7 && Count(7 - n) == 7 - Count(n) && Count(8 - n) == 8 - Count(n)
  {
  }

  lemma TopOfPrefixNative(v: Byte, n: Byte, x: Byte)
    requires n <= 7 && ShiftRight(v, n) == 0 && x <= 1
    ensures Top(ShiftLeft(Or(ShiftLeft(x, n), v), 7 - n)) <==> x == 1
    ensures ShiftLeft(ShiftLeft(Or(ShiftLeft(x, n), v), 7 - n), 1) == ShiftLeft(v, 8 - n)
  {
  }

  lemma {:induction false} BitsOfPack(p: Bits)
    requires |p| <= 8
    ensures BitsOf(PackBits(p), |p|) == p
    decreases |p|
  {
    if p != [] {
      hide Push, Prefix, Shl, Fits, Top;
      var x, q := p[0], p[1..];
      assert p == [x] + q;
      PackCons(x, q);
      PackFits(q);
      TopOfPrefix(PackBits(q), |q|, x);
      BitsOfPack(q);
    }
  }

  lemma ShiftBack(b: Byte, n: nat)
    requires n <= 8 && Fits(b, n)
    ensures Or(Shl(0, n), Shr(Shl(b, 8 - n), 8 - n)) == b
  {
    hide Count, ShiftLeft, ShiftRight, Or;
    CountRest(n);
    ShiftBackNative(b, Count(n));
  }

  lemma CountRest(n: nat)
    requires n <= 8
    ensures Count(8 - n) == 8 - Count(n)
  {
  }

  lemma ShiftBackNative(b: Byte, n: Byte)
    requires n <= 8 && ShiftRight(b, n) == 0
    ensures Or(ShiftLeft(0, n), ShiftRight(ShiftLeft(b, 8 - n), 8 - n)) == b
  {
  }

  lemma PackOfBits(b: Byte, n: nat)
    requires n <= 8 && Fits(b, n)
    ensures PackBits(BitsOf(b, n)) == b
  {
    ShiftBack(b, n);
    hide Shl, Shr, Or, Fits, Push;
    PackTransfer([], Shl(b, 8 - n), n);
    assert [] + Head(Shl(b, 8 - n), n) == BitsOf(b, n);
  }

  // ---------------------------------------------------------------- bit streams

  /** The concatenated groups of n bits. */
  function Stream(data: Bytes, n: nat): (r: Bits)
    requires n <= 8
    ensures |r| == |data| * n
  {
    if data == [] then [] else
      assert (|data| - 1) * n + n == |data| * n;
      Stream(data[..|data| - 1], n) + BitsOf(data[|data| - 1], n)
  }

  /** The number with bit k set and no other. */
  function Mask(k: nat): Byte
    requires k < 8
  {
    if k == 0 then 1 else if k == 1 then 2 else if k == 2 then 4 else if k == 3 then 8
    else if k == 4 then 16 else if k == 5 then 32 else if k == 6 then 64 else 128
  }

  predicate Meets(b: Byte, m: Byte) {
    b & m != 0
  }

  lemma MaskIsPower(k: nat)
    requires k < 8
    ensures Mask(k) == ShiftLeft(1, Count(k)) && Count(k) <= 7
  {
  }

  lemma CountMinus(k: nat, s: nat)
    requires s <= k <= 8
    ensures Count(k - s) == Count(k) - Count(s) && Count(s) <= Count(k)
  {
  }

  lemma TopAfterShift(b: Byte, t: Byte)
    requires t <= 7
    ensures Top(ShiftLeft(b, t)) <==> Meets(b, ShiftLeft(1, 7 - t))
  {
  }

  lemma MaskMovesNative(b: Byte, s: Byte, k: Byte)
    requires s <= k <= 7
    ensures Meets(ShiftLeft(b, s), ShiftLeft(1, k)) <==> Meets(b, ShiftLeft(1, k - s))
  {
  }

  lemma TopOfShifted(b: Byte, j: nat)
    requires j < 8
    ensures Top(Shl(b, j)) <==> Meets(b, Mask(7 - j))
  {
    hide Top, Mask, Meets, ShiftLeft, Count;
    MaskIsPower(7 - j);
    CountLeft(j);
    TopAfterShift(b, Count(j));
  }

  lemma MaskMoves(b: Byte, s: nat, k: nat)
    requires s <= k < 8
    ensures Meets(Shl(b, s), Mask(k)) <==> Meets(b, Mask(k - s))
  {
    hide Mask, Meets, ShiftLeft, Count;
    MaskIsPower(k);
    MaskIsPower(k - s);
    CountMinus(k, s);
    MaskMovesNative(b, Count(s), Count(k));
  }

  lemma HeadAt(b: Byte, n: nat, j: nat)
    requires j < n <= 8
    ensures Head(b, n)[j] <==> Meets(b, Mask(7 - j))
  {
    hide Shl, Shr, Or, Push, Top, Mask, Meets;
    HeadSplit(b, n, j);
    TopOfShifted(b, j);
  }

  lemma BitsOfAt(b: Byte, n: nat, j: nat)
    requires j < n <= 8
    ensures BitsOf(b, n)[j] <==> Meets(b, Mask(n - 1 - j))
  {
    hide Shl, Mask, Head, Meets;
    HeadAt(Shl(b, 8 - n), n, j);
    MaskMoves(b, 8 - n, 7 - j);
  }

  lemma GroupBefore(i: nat, m: nat, n: nat)
    requires i < m && n <= 8
    ensures i * n + n <= m * n
  {
    if n == 0 {
    } else if n == 1 {
    } else if n == 2 {
    } else if n == 3 {
    } else if n == 4 {
    } else if n == 5 {
    } else if n == 6 {
    } else if n == 7 {
    } else {
    }
  }

  /** Bit j of group i, counted from the highest, is bit n - 1 - j of its number. */
  lemma {:induction false} StreamAt(data: Bytes, n: nat, i: nat, j: nat)
    requires j < n <= 8 && i < |data|
    ensures i * n + j < |data| * n && (Stream(data, n)[i * n + j] <==> Meets(data[i], Mask(n - 1 - j)))
    decreases |data|
  {
    hide Mask, BitsOf, Meets;
    var last := |data| - 1;
    GroupBefore(i, |data|, n);
    if i < last {
      GroupBefore(i, last, n);
      StreamAt(data[..last], n, i, j);
    } else {
      BitsOfAt(data[i], n, j);
    }
  }

  predicate AllFit(data: Bytes, n: nat)
    requires n <= 8
  {
    forall k :: 0 <= k < |data| ==> Fits(data[k], n)
  }

  /** Sized groups and their stream determine each other. */
  lemma {:induction false} StreamInjective(u: Bytes, v: Bytes, n: nat)
    requires 1 <= n <= 8 && AllFit(u, n) && AllFit(v, n)
    requires Stream(u, n) == Stream(v, n)
    ensures u == v
    decreases |u|
  {
    hide Fits, BitsOf;
    SameLength(|u|, |v|, n);
    if u != [] {
      var u0, v0 := u[..|u| - 1], v[..|v| - 1];
      var a, b := u[|u| - 1], v[|v| - 1];
      TailsAgree(Stream(u0, n), BitsOf(a, n), Stream(v0, n), BitsOf(b, n));
      StreamInjective(u0, v0, n);
      assert Fits(u[|u| - 1], n) && Fits(v[|v| - 1], n);
      PackOfBits(a, n);
      PackOfBits(b, n);
      assert u == u0 + [a] && v == v0 + [b];
    }
  }

  lemma TailsAgree(u: Bits, a: Bits, v: Bits, b: Bits)
    requires u + a == v + b && |a| == |b|
    ensures u == v && a == b
  {
    assert u == (u + a)[..|u|] && v == (v + b)[..|v|];
    assert a == (u + a)[|u|..] && b == (v + b)[|v|..];
  }

  lemma SameLength(a: nat, b: nat, n: nat)
    requires n >= 1 && a * n == b * n
    ensures a == b
  {
  }

  function ZeroBits(n: nat): (r: Bits)
    ensures |r| == n
  {
    seq(n, i => false)
  }

  /** The groups of n bits of a stream, as bytes. */
  function Groups(bs: Bits, n: nat): (r: Bytes)
    requires 1 <= n <= 8
  {
    if |bs| < n then [] else Groups(bs[..|bs| - n], n) + [PackBits(bs[|bs| - n..])]
  }

  predicate Whole(len: nat, n: nat)
    requires n >= 1
  {
    len == 0 || (len >= n && Whole(len - n, n))
  }

  lemma {:induction false} WholeMultiple(m: nat, n: nat)
    requires n >= 1
    ensures Whole(m * n, n)
  {
    if m > 0 {
      WholeMultiple(m - 1, n);
      assert (m - 1) * n == m * n - n;
    }
  }

  lemma StreamOfGroups(bs: Bits, n: nat)
    requires 1 <= n <= 8 && |bs| % n == 0
    ensures AllFit(Groups(bs, n), n) && Stream(Groups(bs, n), n) == bs
  {
    hide Fits, Groups, Stream;
    WholeMultiple(|bs| / n, n);
    StreamOfWholeGroups(bs, n);
  }

  lemma AppendGroup(r: Bytes, init: Bits, last: Bits, n: nat)
    requires |last| == n <= 8 && AllFit(r, n) && Stream(r, n) == init
    ensures AllFit(r + [PackBits(last)], n) && Stream(r + [PackBits(last)], n) == init + last
  {
    hide Fits, PackBits, BitsOf, Stream;
    BitsOfPack(last);
    PackFits(last);
    StreamAppend(r, PackBits(last), n);
  }

  lemma {:induction false} StreamOfWholeGroups(bs: Bits, n: nat)
    requires 1 <= n <= 8 && Whole(|bs|, n)
    ensures AllFit(Groups(bs, n), n) && Stream(Groups(bs, n), n) == bs
    decreases |bs|
  {
    hide Fits, PackBits, BitsOf, Stream;
    if bs == [] {
      StreamOfNothing(n);
    } else {
      var init, last := bs[..|bs| - n], bs[|bs| - n..];
      StreamOfWholeGroups(init, n);
      AppendGroup(Groups(init, n), init, last, n);
      assert bs == init + last;
    }
  }

  // ---------------------------------------------------------------- regrouping

  /** How many zero bits complete the last group. */
  function PadLength(n: nat, to: nat): nat
    requires to >= 1
  {
    if n % to == 0 then 0 else to - n % to
  }

  predicate ValidWidth(n: nat) {
    1 <= n <= 8
  }

  function ConvertBits(data: Bytes, from: nat, to: nat, pad: bool): Result<Bytes> {
    if !ValidWidth(from) || !ValidWidth(to) then Err(InvalidBitGroups)
    else
      var bs := Stream(data, from);
      if pad then Ok(Groups(bs + ZeroBits(PadLength(|bs|, to)), to))
      else
        var whole := |bs| - |bs| % to;
        if |bs| % to > 4 || true in bs[whole..] then Err(InvalidIncompleteGroup)
        else Ok(Groups(bs[..whole], to))
  }

  /** Widths outside 1 to 8 are refused, whatever the data, and only they are. */
  lemma WidthsExact(data: Bytes, from: nat, to: nat, pad: bool)
    ensures ConvertBits(data, from, to, pad) == Err(InvalidBitGroups) <==> from < 1 || 8 < from || to < 1 || 8 < to
  {
    hide Stream, Groups;
  }

  lemma PadCompletes(n: nat, to: nat)
    requires 1 <= to <= 8
    ensures (n + PadLength(n, to)) % to == 0 && PadLength(n, to) < to
  {
    PadStep(n, to);
  }

  lemma PadStep(n: nat, to: nat)
    requires 1 <= to <= 8
    ensures (n + (to - n % to)) % to == 0 && (n - n % to) % to == 0
  {
    var q := n / to;
    assert n == q * to + n % to;
    RestLength(q + 1, 0, (q + 1) * to, to);
    RestLength(q, 0, q * to, to);
    assert (q + 1) * to == q * to + to;
  }

  /** The bit stream survives regrouping: padded with fewer than `to` zeros, or cut by a tail
      of at most four zeros; every other unpadded tail is an error. */
  lemma ConvertBitsKeepsStream(data: Bytes, from: nat, to: nat, pad: bool)
    requires ValidWidth(from) && ValidWidth(to)
    ensures var r := ConvertBits(data, from, to, pad);
            var bs := Stream(data, from);
            && (r.Ok? ==> AllFit(r.value, to))
            && (pad ==> r.Ok? && Stream(r.value, to) == bs + ZeroBits(PadLength(|bs|, to)) && PadLength(|bs|, to) < to)
            && (!pad && r.Ok? ==> |Stream(r.value, to)| == |bs| - |bs| % to
                                  && bs == Stream(r.value, to) + ZeroBits(|bs| % to) && |bs| % to <= 4)
            && (!pad && r.Err? ==> r.error == InvalidIncompleteGroup
                                   && (|bs| % to > 4 || true in bs[|bs| - |bs| % to..]))
  {
    hide Fits, Groups, Stream;
    var bs := Stream(data, from);
    var z := PadLength(|bs|, to);
    PadCompletes(|bs|, to);
    PadStep(|bs|, to);
    if pad {
      StreamOfGroups(bs + ZeroBits(z), to);
    } else if ConvertBits(data, from, to, pad).Ok? {
      var whole := |bs| - |bs| % to;
      StreamOfGroups(bs[..whole], to);
      assert bs[whole..] == ZeroBits(|bs| % to) by {
        forall k | whole <= k < |bs| ensures !bs[k] {
          assert bs[k] == bs[whole..][k - whole];
        }
      }
      assert bs == bs[..whole] + bs[whole..];
    }
  }

  /** The size announced for the result is never exceeded. */
  lemma ConvertBitsSize(data: Bytes, from: nat, to: nat, pad: bool)
    requires ConvertBits(data, from, to, pad).Ok?
    ensures |ConvertBits(data, from, to, pad).value| <= |data| * from / to + 1
  {
    ConvertBitsKeepsStream(data, from, to, pad);
    SizeBound(|ConvertBits(data, from, to, pad).value|, |data| * from, to);
  }

  lemma SizeBound(m: nat, n: nat, to: nat)
    requires 1 <= to <= 8 && m * to < n + to
    ensures m <= n / to + 1
  {
    if to == 1 {
    } else if to == 2 {
    } else if to == 3 {
    } else if to == 4 {
    } else if to == 5 {
    } else if to == 6 {
    } else if to == 7 {
    } else {
    }
  }

  /** Between two extractions: what was emitted, followed by the pending bits of the next
      byte, spells the bits seen so far. */
  ghost predicate Holds(regrouped: Bytes, nextByte: Byte, filledBits: nat, pending: Bits, seen: Bits, to: nat)
    requires ValidWidth(to)
  {
    && filledBits == |pending|
    && nextByte == PackBits(pending)
    && AllFit(regrouped, to)
    && Stream(regrouped, to) + pending == seen
  }

  lemma HoldsExtract(regrouped: Bytes, nextByte: Byte, filledBits: nat, pending: Bits, seen: Bits, to: nat,
                     b: Byte, t: nat)
    requires ValidWidth(to) && t <= 8
    requires Holds(regrouped, nextByte, filledBits, pending, seen, to)
    ensures Holds(regrouped, Or(Shl(nextByte, t), Shr(b, 8 - t)), filledBits + t,
                  pending + Head(b, t), seen + Head(b, t), to)
  {
    hide Or, Shl, Shr, Head, PackBits, Fits, Stream;
    PackTransfer(pending, b, t);
  }

  lemma HoldsEmit(regrouped: Bytes, nextByte: Byte, pending: Bits, seen: Bits, to: nat)
    requires ValidWidth(to) && Holds(regrouped, nextByte, to, pending, seen, to)
    ensures Holds(regrouped + [nextByte], 0, 0, [], seen, to)
  {
    hide Fits, Stream, BitsOf;
    AppendGroup(regrouped, Stream(regrouped, to), pending, to);
  }

  lemma SeenSplit(seen: Bits, b: Byte, n: nat, t: nat)
    requires t <= n && t <= 8
    ensures seen + Head(b, n) == seen + Head(b, t) + Head(Shl(b, t), n - t)
  {
    HeadSplit(b, n, t);
  }

  /** The inner loop: the `from` low bits of one input byte move into the groups. */
  method AddByte(groups: Bytes, next: Byte, filled: nat, input: Byte, from: nat, to: nat,
                 ghost pending: Bits, ghost before: Bits)
    returns (regrouped: Bytes, nextByte: Byte, filledBits: nat, ghost rest: Bits)
    requires ValidWidth(from) && ValidWidth(to) && filled < to
    requires Holds(groups, next, filled, pending, before, to)
    ensures filledBits < to
    ensures Holds(regrouped, nextByte, filledBits, rest, before + BitsOf(input, from), to)
  {
    hide Holds, Or, Shl, Shr, Head, Count;
    regrouped, nextByte, filledBits, rest := groups, next, filled, pending;
    var b := Shl(input, 8 - from);
    var remFromBits := from;
    ghost var seen := before;
    while remFromBits > 0
      invariant 0 <= remFromBits <= from && 0 <= filledBits < to
      invariant Holds(regrouped, nextByte, filledBits, rest, seen, to)
      invariant seen + Head(b, remFromBits) == before + BitsOf(input, from)
      decreases remFromBits
    {
      var remToBits := to - filledBits;
      var toExtract := remFromBits;
      if remToBits < toExtract {
        toExtract := remToBits;
      }
      HoldsExtract(regrouped, nextByte, filledBits, rest, seen, to, b, toExtract);
      SeenSplit(seen, b, remFromBits, toExtract);
      nextByte := Or(Shl(nextByte, toExtract), Shr(b, 8 - toExtract));
      rest, seen := rest + Head(b, toExtract), seen + Head(b, toExtract);
      b := Shl(b, toExtract);
      remFromBits := remFromBits - toExtract;
      filledBits := filledBits + toExtract;
      if filledBits == to {
        HoldsEmit(regrouped, nextByte, rest, seen, to);
        regrouped := regrouped + [nextByte];
        filledBits, nextByte, rest := 0, 0, [];
      }
    }
    assert seen == seen + Head(b, 0);
  }

  method Regroup(data: Bytes, from: nat, to: nat, pad: bool) returns (r: Result<Bytes>)
    ensures r == ConvertBits(data, from, to, pad)
    ensures r.Ok? ==> |r.value| <= |data| * from / to + 1
  {
    if from < 1 || from > 8 || to < 1 || to > 8 {
      return Err(InvalidBitGroups);
    }
    hide Holds, Stream, BitsOf, ConvertBits;
    var regrouped: Bytes := [];
    var nextByte: Byte := 0;
    var filledBits := 0;
    ghost var pending: Bits := [];
    HoldsInitially(to);
    StreamOfNothing(from);
    for i := 0 to |data|
      invariant 0 <= filledBits < to
      invariant Holds(regrouped, nextByte, filledBits, pending, Stream(data[..i], from), to)
    {
      StreamExtend(data, i, from);
      regrouped, nextByte, filledBits, pending :=
        AddByte(regrouped, nextByte, filledBits, data[i], from, to, pending, Stream(data[..i], from));
    }
    assert data[..|data|] == data;
    r := Finish(regrouped, nextByte, filledBits, to, pad, data, from, pending);
    if r.Ok? {
      ConvertBitsSize(data, from, to, pad);
    }
  }

  lemma StreamOfNothing(n: nat)
    requires n <= 8
    ensures Stream([], n) == []
  {
  }

  /** What the program does once the input is used up. */
  method Finish(groups: Bytes, next: Byte, filledBits: nat, to: nat, pad: bool,
                ghost data: Bytes, ghost from: nat, ghost pending: Bits)
    returns (r: Result<Bytes>)
    requires ValidWidth(from) && ValidWidth(to) && filledBits < to
    requires Holds(groups, next, filledBits, pending, Stream(data, from), to)
    ensures r == ConvertBits(data, from, to, pad)
  {
    hide Fits, Stream, PackBits, Groups, Shl;
    ghost var bs := Stream(data, from);
    RestLength(|groups|, |pending|, |bs|, to);
    if pad && filledBits > 0 {
      PadGroup(pending, next, to - filledBits);
      HoldsEmit(groups, Shl(next, to - filledBits), pending + ZeroBits(to - filledBits),
                bs + ZeroBits(to - filledBits), to);
      r := Ok(groups + [Shl(next, to - filledBits)]);
      PadStep(|bs|, to);
      GroupsUnique(r.value, bs + ZeroBits(to - filledBits), to);
    } else {
      RestLength(|groups|, 0, |groups| * to, to);
      assert bs[..|bs| - filledBits] == Stream(groups, to) && bs[|bs| - filledBits..] == pending;
      GroupsUnique(groups, bs[..|bs| - filledBits], to);
      PackZero(pending);
      if filledBits > 0 && (filledBits > 4 || next != 0) {
        return Err(InvalidIncompleteGroup);
      }
      assert filledBits == 0 ==> bs + ZeroBits(0) == bs[..|bs| - filledBits];
      r := Ok(groups);
    }
  }

  lemma HoldsInitially(to: nat)
    requires ValidWidth(to)
    ensures Holds([], 0, 0, [], [], to)
  {
  }

  lemma StreamExtend(data: Bytes, i: nat, n: nat)
    requires i < |data| && n <= 8
    ensures Stream(data[..i + 1], n) == Stream(data[..i], n) + BitsOf(data[i], n)
  {
    assert data[..i + 1][..i] == data[..i];
  }

  lemma StreamAppend(u: Bytes, b: Byte, n: nat)
    requires n <= 8
    ensures Stream(u + [b], n) == Stream(u, n) + BitsOf(b, n)
  {
  }

  lemma RestLength(m: nat, p: nat, n: nat, to: nat)
    requires 1 <= to <= 8 && p < to && m * to + p == n
    ensures n % to == p
  {
    if to == 1 {
    } else if to == 2 {
    } else if to == 3 {
    } else if to == 4 {
    } else if to == 5 {
    } else if to == 6 {
    } else if to == 7 {
    } else {
    }
  }

  lemma GroupsUnique(u: Bytes, bs: Bits, n: nat)
    requires 1 <= n <= 8 && AllFit(u, n) && Stream(u, n) == bs && |bs| % n == 0
    ensures Groups(bs, n) == u
  {
    hide Fits;
    StreamOfGroups(bs, n);
    StreamInjective(u, Groups(bs, n), n);
  }

  lemma ShiftZero(v: Byte, n: nat)
    requires n <= 8
    ensures Or(v, Shr(0, n)) == v && Shl(0, 1) == 0 && !Top(0)
  {
  }

  lemma HeadOfZero(n: nat)
    ensures Head(0, n) == ZeroBits(n)
  {
    ShiftZero(0, 0);
    hide Shl, Top;
    if n > 0 {
      HeadOfZero(n - 1);
    }
  }

  lemma PadGroup(p: Bits, v: Byte, z: nat)
    requires z <= 8 && v == PackBits(p)
    ensures PackBits(p + ZeroBits(z)) == Shl(v, z)
  {
    hide Shl, Shr, Or, Push;
    HeadOfZero(z);
    PackTransfer(p, 0, z);
    ShiftZero(Shl(v, z), 8 - z);
  }

  lemma {:induction false} PackOfZeros(n: nat)
    ensures PackBits(ZeroBits(n)) == 0
  {
    if n > 0 {
      PackOfZeros(n - 1);
      assert ZeroBits(n)[..n - 1] == ZeroBits(n - 1);
    }
  }

  lemma PackZero(p: Bits)
    requires |p| <= 8
    ensures PackBits(p) == 0 <==> true !in p
  {
    PackOfZeros(|p|);
    BitsOfPack(p);
    BitsOfPack(ZeroBits(|p|));
    if true !in p {
      forall k | 0 <= k < |p| ensures p[k] == false {
        assert p[k] in p;
      }
      assert p == ZeroBits(|p|);
    }
  }

  // ---------------------------------------------------------------- there and back

  lemma RestOfSum(m: nat, n: nat, z: nat, to: nat)
    requires 1 <= to <= 8 && n == m * to
    ensures (n + z) % to == z % to
  {
    var q := z / to;
    assert z == q * to + z % to;
    assert (m + q) * to == m * to + q * to;
    RestLength(m + q, z % to, n + z, to);
  }

  /** Regrouping with padding and back without it returns the data exactly when the padding is
      shorter than one input group and at most four bits long. */
  lemma PadThenUnpad(data: Bytes, from: nat, to: nat)
    requires ValidWidth(from) && ValidWidth(to) && AllFit(data, from)
    ensures ConvertBits(data, from, to, true).Ok?
    ensures ConvertBits(ConvertBits(data, from, to, true).value, to, from, false) == Ok(data)
            <==> PadLength(|data| * from, to) < from && PadLength(|data| * from, to) <= 4
  {
    hide Fits, Stream, Groups;
    ConvertBitsKeepsStream(data, from, to, true);
    var mid := ConvertBits(data, from, to, true).value;
    var bs := Stream(data, from);
    var z := PadLength(|bs|, to);
    assert Stream(mid, to) == bs + ZeroBits(z);
    RestOfSum(|data|, |bs|, z, from);
    ConvertBitsKeepsStream(mid, to, from, false);
    if z < from {
      SmallRest(z, from);
      TailIsZeros(bs, z);
      RestLength(|data|, 0, |bs|, from);
      GroupsUnique(data, bs, from);
    } else {
      SmallerRest(z, from);
    }
  }

  lemma SmallRest(z: nat, n: nat)
    requires z < n
    ensures z % n == z
  {
  }

  lemma SmallerRest(z: nat, n: nat)
    requires 1 <= n <= z
    ensures z % n < z
  {
  }

  lemma TailIsZeros(bs: Bits, z: nat)
    ensures (bs + ZeroBits(z))[|bs|..] == ZeroBits(z) && (bs + ZeroBits(z))[..|bs|] == bs && true !in ZeroBits(z)
  {
  }

  /** Regrouping without padding, when accepted, and back with padding returns the data exactly
      when the dropped tail is shorter than one input group. */
  lemma UnpadThenPad(data: Bytes, from: nat, to: nat)
    requires ValidWidth(from) && ValidWidth(to) && AllFit(data, from)
    requires ConvertBits(data, from, to, false).Ok?
    ensures ConvertBits(ConvertBits(data, from, to, false).value, to, from, true) == Ok(data)
            <==> (|data| * from) % to < from
  {
    hide Fits, Stream, Groups;
    ConvertBitsKeepsStream(data, from, to, false);
    var mid := ConvertBits(data, from, to, false).value;
    var bs := Stream(data, from);
    var t := |bs| % to;
    assert Stream(mid, to) + ZeroBits(t) == bs;
    ConvertBitsKeepsStream(mid, to, from, true);
    if t < from {
      PadIsTail(|data|, |bs| - t, t, from);
      RestLength(|data|, 0, |bs|, from);
      GroupsUnique(data, bs, from);
    }
  }

  lemma PadIsTail(m: nat, n: nat, t: nat, to: nat)
    requires 1 <= to <= 8 && t < to && n + t == m * to
    ensures PadLength(n, to) == t
  {
    if t == 0 {
      RestLength(m, 0, n, to);
    } else {
      assert (m - 1) * to == m * to - to;
      RestLength(m - 1, to - t, n, to);
    }
  }
}
