/** Morton (Z-order) texture de-swizzling: the mask-and-shift bit spread, the pixel index it
gives, and the copy loop that uses it (`runtime_glue.cpp`). */
module Morton {
  import opened Bits

  // ----- The code's bit spread, and what it means -----

  /** `(v | (v << g)) & mask` */
  function SpreadStage(v: word, g: nat, mask: word): (r: nat) {
    And(Or(v, Shl(v, g) % TWO32), mask)
  }

  /** `morton_spread` */
  function MortonSpread(v: word): nat {
    var v1 := SpreadStage(v, 8, 0x00FF_00FF) % TWO32;
    var v2 := SpreadStage(v1, 4, 0x0F0F_0F0F) % TWO32;
    var v3 := SpreadStage(v2, 2, 0x3333_3333) % TWO32;
    SpreadStage(v3, 1, 0x5555_5555)
  }

  /** Bit `i` of the argument becomes bit `2 * i` of the result. */
  function Spread(v: nat): nat {
    if v == 0 then 0 else 4 * Spread(v / 2) + v % 2
  }

  lemma {:induction false} BitSpread(k: nat, v: nat)
    ensures Bit(k, Spread(v)) <==> k % 2 == 0 && Bit(k / 2, v)
    decreases k, v
  {
    if v == 0 {
      BitOfZero(k);
      BitOfZero(k / 2);
    } else {
      var s := Spread(v);
      assert s == 4 * Spread(v / 2) + v % 2;
      hide Spread;
      assert s % 2 == v % 2 && s / 2 == 2 * Spread(v / 2) && s / 2 / 2 == Spread(v / 2);
      if k >= 2 {
        BitSpread(k - 2, v / 2);
        assert Bit(k, s) <==> Bit(k - 2, s / 2 / 2);
        assert Bit(k / 2, v) <==> Bit(k / 2 - 1, v / 2);
      }
    }
  }

  // ----- Masks -----

  /** `n` groups of `g` one bits, `2 * g` apart. */
  function Comb(g: nat, n: nat): nat {
    if n == 0 then 0 else Comb(g, n - 1) * Pow2(2 * g) + (Pow2(g) - 1)
  }

  lemma {:induction false} BitComb(k: nat, g: nat, n: nat)
    requires g > 0
    ensures Bit(k, Comb(g, n)) <==> k < 2 * g * n && k % (2 * g) < g
    decreases n
  {
    if n == 0 {
      BitOfZero(k);
    } else {
      Pow2Mono(g, 2 * g);
      var lo, hi := Pow2(g) - 1, Comb(g, n - 1);
      assert Comb(g, n) == hi * Pow2(2 * g) + lo;
      BitJoin(k, hi, lo, 2 * g);
      BitOnes(k, g);
      hide Comb, Bit, Pow2;
      if k >= 2 * g {
        BitComb(k - 2 * g, g, n - 1);
        OnePeriodUp(k, g, n);
      } else {
        FirstPeriod(k, g, n);
      }
    }
  }

  lemma FirstPeriod(k: nat, g: nat, n: nat)
    requires g > 0 && k < 2 * g && n > 0
    ensures k % (2 * g) == k && k < 2 * g * n
  {
    DivUnique(k, 2 * g, 0, k);
    MulMono(1, n, 2 * g);
  }

  lemma OnePeriodUp(k: nat, g: nat, n: nat)
    requires g > 0 && k >= 2 * g && n > 0
    ensures (k - 2 * g) % (2 * g) == k % (2 * g)
    ensures k - 2 * g < 2 * g * (n - 1) <==> k < 2 * g * n
  {
    var d := 2 * g;
    var q := Div(k - d, d);
    var r := k - d - q * d;
    DivUnique(k - d, d, q, r);
    assert k == (q + 1) * d + r;
    DivUnique(k, d, q + 1, r);
    assert d * (n - 1) == d * n - d;
  }

  lemma Combs()
    ensures Comb(8, 2) == 0x00FF_00FF && Comb(4, 4) == 0x0F0F_0F0F
    ensures Comb(2, 8) == 0x3333_3333 && Comb(1, 16) == 0x5555_5555
  {
    assert Comb(4, 2) == 0x0F0F;
    assert Comb(2, 4) == 0x3333;
    assert Comb(1, 4) == 0x55 && Comb(1, 8) == 0x5555 && Comb(1, 12) == 0x55_5555;
  }

  // ----- One stage -----

  predicate InGroup(k: nat, g: nat)
    requires g > 0
  {
    k % (2 * g) < g
  }

  /** The bit that a spread in groups of `g` puts at position `k`. */
  function Source(k: nat, g: nat): (j: nat)
    requires g > 0
  {
    Index(k % g, Div(k, 2 * g), g)
  }

  function Index(r: nat, q: nat, g: nat): nat {
    r + q * g
  }

  /** The low 16 bits of `v0`, in groups of `g`, each group moved to twice its distance. */
  ghost predicate Grouped(v: nat, v0: nat, g: nat)
    requires g > 0
  {
    forall k: nat :: Bit(k, v) <==> k < 32 && InGroup(k, g) && Bit(Source(k, g), v0)
  }

  lemma BitStage(k: nat, v: word, g: nat, n: nat)
    requires g > 0 && 2 * g * n == 32
    ensures Comb(g, n) < TWO32 ==>
      (Bit(k, SpreadStage(v, g, Comb(g, n))) <==> k < 32 && InGroup(k, g) && (Bit(k, v) || (k >= g && Bit(k - g, v))))
  {
    if Comb(g, n) < TWO32 {
      Word32();
      BitAnd(k, Or(v, Shl(v, g) % TWO32), Comb(g, n));
      BitOr(k, v, Shl(v, g) % TWO32);
      BitMod(k, Shl(v, g), 32);
      BitShl(k, v, g);
      BitComb(k, g, n);
    }
  }

  /** The same, for the bits of a 32-bit word only. */
  ghost predicate LowGrouped(v: nat, v0: nat, g: nat)
    requires g > 0
  {
    forall k: nat :: k < 32 ==> (Bit(k, v) <==> InGroup(k, g) && Bit(Source(k, g), v0))
  }

  /** Where the bits of groups of `2 * g` come from, once each group is split in two. */
  predicate GroupStep(k: nat, g: nat)
    requires g > 0
  {
    InGroup(k, g) ==>
      (if InGroup(k, 2 * g)
       then Source(k, 2 * g) == Source(k, g) && (k >= g ==> !InGroup(k - g, 2 * g))
       else k >= g && InGroup(k - g, 2 * g) && Source(k - g, 2 * g) == Source(k, g))
  }

  lemma GroupStepHolds(k: nat, g: nat)
    requires g > 0
    ensures GroupStep(k, g)
  {
    var b := Div(k, 4 * g);
    var e := k - b * (4 * g);
    DivUnique(k, 4 * g, b, e);
    Multiples(b, g);
    if e < 2 * g {
      DivUnique(k, 2 * g, 2 * b, e);
      if e < g {
        DivUnique(k, g, 4 * b, e);
        if b > 0 {
          DivUnique(k - g, 4 * g, b - 1, 3 * g + e);
        }
      }
    } else {
      var f := e - 2 * g;
      DivUnique(k, 2 * g, 2 * b + 1, f);
      if f < g {
        DivUnique(k, g, 4 * b + 2, f);
        DivUnique(k - g, 4 * g, b, g + f);
        DivUnique(k - g, 2 * g, 2 * b, g + f);
      }
    }
  }

  lemma Multiples(b: int, g: int)
    ensures b * (4 * g) == 4 * (b * g) && 2 * b * (2 * g) == 4 * (b * g) && 4 * b * g == 4 * (b * g)
    ensures b * (2 * g) == 2 * (b * g) && 2 * b * g == 2 * (b * g) && (2 * b + 1) * g == 2 * (b * g) + g
    ensures (2 * b + 1) * (2 * g) == 4 * (b * g) + 2 * g && (4 * b + 2) * g == 4 * (b * g) + 2 * g
    ensures (b - 1) * (4 * g) == 4 * (b * g) - 4 * g
  {
  }

  lemma {:induction false} StageGroups(v: word, v0: nat, g: nat, n: nat, mask: word)
    requires g > 0 && 2 * g * n == 32 && mask == Comb(g, n)
    requires LowGrouped(v, v0, 2 * g)
    ensures Grouped(SpreadStage(v, g, mask), v0, g)
  {
    hide SpreadStage, Bit, Comb, InGroup, Source;
    forall k: nat
      ensures Bit(k, SpreadStage(v, g, mask)) <==> k < 32 && InGroup(k, g) && Bit(Source(k, g), v0)
    {
      BitStage(k, v, g, n);
      GroupStepHolds(k, g);
    }
  }

  /** The four mask-and-shift stages compute the bit spread. */
  lemma {:induction false} MortonSpreadSpreads(v: word)
    requires v < 0x1_0000
    ensures MortonSpread(v) == Spread(v)
  {
    Combs();
    var v1 := SpreadStage(v, 8, 0x00FF_00FF);
    var v2 := SpreadStage(v1 % TWO32, 4, 0x0F0F_0F0F);
    var v3 := SpreadStage(v2 % TWO32, 2, 0x3333_3333);
    var v4 := SpreadStage(v3 % TWO32, 1, 0x5555_5555);
    hide SpreadStage, Comb, Grouped, LowGrouped;
    StartGrouped(v);
    StageGroups(v, v, 8, 2, 0x00FF_00FF);
    TruncatedGrouped(v1, v, 8);
    StageGroups(v1 % TWO32, v, 4, 4, 0x0F0F_0F0F);
    TruncatedGrouped(v2, v, 4);
    StageGroups(v2 % TWO32, v, 2, 8, 0x3333_3333);
    TruncatedGrouped(v3, v, 2);
    StageGroups(v3 % TWO32, v, 1, 16, 0x5555_5555);
    LastGrouped(v4, v);
  }

  lemma StartGrouped(v: word)
    requires v < 0x1_0000
    ensures LowGrouped(v, v, 16)
  {
    assert Pow2(16) == 0x1_0000 by { assert Pow2(8) == 0x100; Pow2Add(8, 8); }
    forall k: nat | k < 32
      ensures Bit(k, v) <==> InGroup(k, 16) && Bit(Source(k, 16), v)
    {
      if Bit(k, v) { BitBound(k, v, 16); }
      FirstGroup(k);
      hide Bit, InGroup, Source;
    }
  }

  lemma FirstGroup(k: nat)
    requires k < 32
    ensures InGroup(k, 16) <==> k < 16
    ensures k < 16 ==> Source(k, 16) == k
  {
  }

  lemma TruncatedGrouped(v: nat, v0: nat, g: nat)
    requires g > 0 && Grouped(v, v0, g)
    ensures LowGrouped(v % TWO32, v0, g)
  {
    Word32();
    hide Bit, Pow2, InGroup, Source;
    forall k: nat | k < 32
      ensures Bit(k, v % TWO32) <==> Bit(k, v)
    {
      BitMod(k, v, 32);
    }
  }

  lemma {:induction false} LastGrouped(r: nat, v: word)
    requires v < 0x1_0000 && Grouped(r, v, 1)
    ensures r == Spread(v)
  {
    assert Pow2(16) == 0x1_0000 by { assert Pow2(8) == 0x100; Pow2Add(8, 8); }
    forall k: nat
      ensures Bit(k, r) == Bit(k, Spread(v))
    {
      BitSpread(k, v);
      if Bit(k / 2, v) { BitBound(k / 2, v, 16); }
      assert InGroup(k, 1) <==> k % 2 == 0;
      assert Source(k, 1) == k / 2;
      hide Bit, Spread, InGroup, Source;
    }
    BitsDetermine(r, Spread(v));
  }

  // ----- The pixel index -----

  /** `morton2d` */
  function Morton2d(x: word, y: word): nat {
    Or(MortonSpread(x), Shl(MortonSpread(y), 1) % TWO32)
  }

  /** Bits of `x` in even positions, bits of `y` in odd positions. */
  function Interleave(x: nat, y: nat): nat {
    Spread(x) + 2 * Spread(y)
  }

  lemma {:induction false} Nothing(x: nat, y: nat)
    requires x == 0 && y == 0
    ensures Or(Spread(x), 2 * Spread(y)) == Interleave(x, y)
    ensures ColumnOf(Interleave(x, y)) == x && RowOf(Interleave(x, y)) == y
  {
  }

  lemma {:induction false} OrInterleaves(x: nat, y: nat)
    ensures Or(Spread(x), 2 * Spread(y)) == Interleave(x, y)
    decreases x + y
  {
    hide *;
    if x + y == 0 {
      Nothing(x, y);
    } else {
      var x', y', a, b := x / 2, y / 2, x % 2, y % 2;
      assert x == 2 * x' + a && y == 2 * y' + b;
      OrInterleaves(x', y');
      OrInterleavesCons(x', y', a, b);
    }
  }

  lemma OrInterleavesCons(x: nat, y: nat, a: nat, b: nat)
    requires a < 2 && b < 2 && Or(Spread(x), 2 * Spread(y)) == Interleave(x, y)
    ensures Or(Spread(2 * x + a), 2 * Spread(2 * y + b)) == Interleave(2 * x + a, 2 * y + b)
  {
    hide Or, Spread;
    SpreadCons(x, a);
    SpreadCons(y, b);
    OrDisjointPairs(Spread(x), Spread(y), a, b);
  }

  lemma OrDisjointPairs(u: nat, v: nat, a: nat, b: nat)
    requires a < 2 && b < 2 && Or(u, 2 * v) == u + 2 * v
    ensures Or(4 * u + a, 2 * (4 * v + b)) == 4 * u + a + 2 * (4 * v + b)
  {
    hide *;
    OrTwice(4 * u + a, 8 * v + 2 * b, 2 * u, a, 4 * v + b, 0);
    OrTwice(2 * u, 4 * v + b, u, 0, 2 * v, b);
  }

  lemma {:induction false} OrTwice(m: nat, n: nat, hi: nat, lo: nat, hi': nat, lo': nat)
    requires lo < 2 && lo' < 2 && m == 2 * hi + lo && n == 2 * hi' + lo'
    ensures Or(m, n) == 2 * Or(hi, hi') + (if lo == 1 || lo' == 1 then 1 else 0)
  {
    OrHalves(m, n);
    hide *;
  }

  lemma {:induction false} SpreadBound(v: nat, n: nat)
    requires v < Pow2(n)
    ensures 3 * Spread(v) < Pow2(2 * n)
    decreases n
  {
    if n > 0 {
      SpreadBound(v / 2, n - 1);
      assert Pow2(2 * n) == 4 * Pow2(2 * n - 2);
      assert 2 * (n - 1) == 2 * n - 2;
    }
  }

  lemma {:induction false} SpreadOfOnes(n: nat)
    ensures 3 * Spread(Pow2(n) - 1) == Pow2(2 * n) - 1
  {
    hide Pow2, Spread;
    if n == 0 {
      SpreadOfNone(n);
    } else {
      var ones := Pow2(n - 1) - 1;
      SpreadOfOnes(n - 1);
      PowersStep(n);
      SpreadCons(ones, 1);
      assert Pow2(n) - 1 == 2 * ones + 1;
    }
  }

  lemma {:induction false} SpreadOfNone(n: nat)
    requires n == 0
    ensures Pow2(n) == 1 && Pow2(2 * n) == 1 && Spread(Pow2(n) - 1) == 0
  {
  }

  lemma PowersStep(n: nat)
    requires n > 0
    ensures Pow2(n) == 2 * Pow2(n - 1) && Pow2(2 * n) == 4 * Pow2(2 * (n - 1))
  {
    assert 2 * n - 2 == 2 * (n - 1);
  }

  lemma {:induction false} SpreadMonotone(v: nat, u: nat)
    requires v <= u
    ensures Spread(v) <= Spread(u)
    decreases u
  {
    if v > 0 && v / 2 < u / 2 {
      SpreadMonotone(v / 2, u / 2 - 1);
      SpreadStep(u / 2);
    }
  }

  lemma {:induction false} SpreadStep(u: nat)
    requires u > 0
    ensures Spread(u - 1) + 1 <= Spread(u)
  {
    if u % 2 == 0 {
      SpreadStep(u / 2);
      assert (u - 1) / 2 == u / 2 - 1 && (u - 1) % 2 == 1;
    } else {
      assert u > 1 ==> (u - 1) / 2 == u / 2;
    }
  }

  lemma Powers()
    ensures Pow2(1) == 2 && Pow2(12) == 0x1000 && Pow2(16) == 0x1_0000 && Pow2(32) == TWO32
  {
    assert Pow2(8) == 0x100;
    Pow2Add(8, 4);
    Pow2Add(8, 8);
    Word32();
  }

  /** The index the code computes interleaves the coordinates' bits. */
  lemma Morton2dInterleaves(x: word, y: word)
    requires x < 0x1_0000 && y < 0x1_0000
    ensures Morton2d(x, y) == Interleave(x, y)
  {
    hide Or, MortonSpread, Pow2, Spread;
    Powers();
    MortonSpreadSpreads(x);
    MortonSpreadSpreads(y);
    SpreadBound(y, 16);
    OrInterleaves(x, y);
  }

  // ----- One-to-one onto -----

  function ColumnOf(n: nat): nat { if n == 0 then 0 else 2 * ColumnOf(n / 4) + n % 2 }

  function RowOf(n: nat): nat { if n == 0 then 0 else 2 * RowOf(n / 4) + n / 2 % 2 }

  lemma SpreadCons(v: nat, b: nat)
    requires b < 2
    ensures Spread(2 * v + b) == 4 * Spread(v) + b
  {
    assert (2 * v + b) / 2 == v && (2 * v + b) % 2 == b;
  }

  lemma SplitCons(m: nat, b: nat, a: nat)
    requires a < 2 && b < 2
    ensures ColumnOf(4 * m + 2 * b + a) == 2 * ColumnOf(m) + a
    ensures RowOf(4 * m + 2 * b + a) == 2 * RowOf(m) + b
  {
    var n := 4 * m + 2 * b + a;
    DivUnique(n, 4, m, 2 * b + a);
    DivUnique(n, 2, 2 * m + b, a);
    DivUnique(2 * m + b, 2, m, b);
  }

  lemma {:induction false} InterleaveSplits(n: nat)
    ensures Interleave(ColumnOf(n), RowOf(n)) == n
  {
    hide *;
    if n == 0 {
      SplitOfNothing(n);
    } else {
      var m, b, a := n / 4, n / 2 % 2, n % 2;
      FourDigits(n);
      InterleaveSplits(m);
      InterleaveCons(m, b, a);
    }
  }

  lemma {:induction false} SplitOfNothing(n: nat)
    requires n == 0
    ensures Interleave(ColumnOf(n), RowOf(n)) == n
  {
  }

  lemma FourDigits(n: nat)
    ensures n == 4 * (n / 4) + 2 * (n / 2 % 2) + n % 2
  {
    var h := n / 2;
    DivUnique(n, 4, h / 2, h % 2 * 2 + n % 2);
  }

  lemma InterleaveCons(m: nat, b: nat, a: nat)
    requires a < 2 && b < 2 && Interleave(ColumnOf(m), RowOf(m)) == m
    ensures var n := 4 * m + 2 * b + a; Interleave(ColumnOf(n), RowOf(n)) == n
  {
    hide Spread, ColumnOf, RowOf;
    SplitCons(m, b, a);
    SpreadCons(ColumnOf(m), a);
    SpreadCons(RowOf(m), b);
  }

  lemma {:induction false} SplitsInterleave(x: nat, y: nat)
    ensures ColumnOf(Interleave(x, y)) == x && RowOf(Interleave(x, y)) == y
    decreases x + y
  {
    hide *;
    if x + y == 0 {
      Nothing(x, y);
    } else {
      var x', y', a, b := x / 2, y / 2, x % 2, y % 2;
      assert x == 2 * x' + a && y == 2 * y' + b;
      SplitsInterleave(x', y');
      SplitsCons(x', y', a, b);
    }
  }

  lemma InterleaveStep(x: nat, y: nat, a: nat, b: nat)
    requires a < 2 && b < 2
    ensures Interleave(2 * x + a, 2 * y + b) == 4 * Interleave(x, y) + 2 * b + a
  {
    hide Spread;
    SpreadCons(x, a);
    SpreadCons(y, b);
  }

  lemma SplitsCons(x: nat, y: nat, a: nat, b: nat)
    requires a < 2 && b < 2 && ColumnOf(Interleave(x, y)) == x && RowOf(Interleave(x, y)) == y
    ensures ColumnOf(Interleave(2 * x + a, 2 * y + b)) == 2 * x + a
    ensures RowOf(Interleave(2 * x + a, 2 * y + b)) == 2 * y + b
  {
    hide *;
    InterleaveStep(x, y, a, b);
    SplitCons(Interleave(x, y), b, a);
  }

  /** Pixels of a 2^p by 2^q texture all have indices inside the texture. */
  ghost predicate IndicesInside(p: nat, q: nat) {
    forall x: nat, y: nat :: x < Pow2(p) && y < Pow2(q) ==> Inside(x, y, p, q)
  }

  predicate Inside(x: nat, y: nat, p: nat, q: nat) {
    Interleave(x, y) < Pow2(p + q)
  }

  /** The last pixel has the largest index. */
  lemma {:induction false} LastIsLargest(p: nat, q: nat, x: nat, y: nat)
    requires x < Pow2(p) && y < Pow2(q)
    ensures Interleave(x, y) <= Interleave(Pow2(p) - 1, Pow2(q) - 1)
  {
    hide Pow2, Spread;
    SpreadMonotone(x, Pow2(p) - 1);
    SpreadMonotone(y, Pow2(q) - 1);
  }

  /** The largest index of a texture, against its number of pixels. */
  lemma LastIndex(p: nat, q: nat)
    ensures 3 * (Pow2(p + q) - 1 - Interleave(Pow2(p) - 1, Pow2(q) - 1)) == -Gap(Pow2(p), Pow2(q))
  {
    hide Pow2, Spread, Gap;
    SpreadOfOnes(p);
    SpreadOfOnes(q);
    Pow2Add(p, q);
    Pow2Add(p, p);
    Pow2Add(q, q);
    assert 2 * p == p + p && 2 * q == q + q;
    GapExpands(Pow2(p), Pow2(q));
  }

  /** (a - b) * (a - 2b): zero for the dimensions that fit. */
  function Gap(a: int, b: int): int {
    (a - b) * (a - 2 * b)
  }

  lemma GapExpands(a: int, b: int)
    ensures Gap(a, b) == a * a - 3 * (a * b) + 2 * (b * b)
  {
  }

  /** A swizzled power-of-two texture is addressed inside its own pixels exactly when it is
  square or twice as wide as high. */
  lemma InsideIffSquareOrDouble(p: nat, q: nat)
    ensures IndicesInside(p, q) <==> p == q || p == q + 1
  {
    var a, b := Pow2(p), Pow2(q);
    LastIndex(p, q);
    hide Interleave;
    if p == q || p == q + 1 {
      assert Gap(a, b) == 0;
      hide Pow2, Gap;
      forall x: nat, y: nat | x < a && y < b
        ensures Inside(x, y, p, q)
      {
        LastIsLargest(p, q, x, y);
      }
    } else {
      FarApart(p, q);
      hide Gap;
      assert !Inside(a - 1, b - 1, p, q);
    }
  }

  lemma {:induction false} FarApart(p: nat, q: nat)
    requires p < q || p > q + 1
    ensures Gap(Pow2(p), Pow2(q)) >= 3
  {
    var a, b := Pow2(p), Pow2(q);
    if p < q {
      Pow2Mono(p + 1, q);
      assert b >= 2 * a;
    } else {
      Pow2Mono(q + 2, p);
      assert Pow2(q + 2) == 2 * Pow2(q + 1) && Pow2(q + 1) == 2 * b;
      assert a >= 4 * b;
    }
    hide *;
    GapBound(a, b);
  }

  lemma GapBound(a: int, b: int)
    requires a >= 1 && b >= 1 && (b >= 2 * a || a >= 4 * b)
    ensures Gap(a, b) >= 3
  {
    if b >= 2 * a {
      assert Gap(a, b) == (b - a) * (2 * b - a);
      MulMono(1, b - a, 2 * b - a);
    } else {
      MulMono(3, a - b, a - 2 * b);
    }
  }

  /** In those cases the index is a bijection from the pixel grid to the source pixels: every
  source pixel is the index of exactly one pixel of the grid. */
  lemma SwizzleBijective(p: nat, q: nat, n: nat)
    requires (p == q || p == q + 1) && n < Pow2(p + q)
    ensures ColumnOf(n) < Pow2(p) && RowOf(n) < Pow2(q) && Interleave(ColumnOf(n), RowOf(n)) == n
    ensures forall x: nat, y: nat :: Interleave(x, y) == n ==> x == ColumnOf(n) && y == RowOf(n)
  {
    InterleaveSplits(n);
    CoordinatesFit(p, q, n);
    forall x: nat, y: nat | Interleave(x, y) == n
      ensures x == ColumnOf(n) && y == RowOf(n)
    {
      SplitsInterleave(x, y);
    }
  }

  lemma {:induction false} CoordinatesFit(p: nat, q: nat, n: nat)
    requires (p == q || p == q + 1) && n < Pow2(p + q)
    ensures ColumnOf(n) < Pow2(p) && RowOf(n) < Pow2(q)
    decreases q
  {
    hide *;
    if n < 2 {
      SmallFits(p, q, n);
    } else {
      QuarterFits(p, q, n);
      FourDigits(n);
      CoordinatesFit(p - 1, q - 1, n / 4);
      SplitCons(n / 4, n / 2 % 2, n % 2);
    }
  }

  lemma SmallFits(p: nat, q: nat, n: nat)
    requires n < 2 && n < Pow2(p + q) && (p == q || p == q + 1)
    ensures ColumnOf(n) < Pow2(p) && RowOf(n) < Pow2(q)
  {
    assert n == 1 ==> p > 0 && Pow2(p) >= 2;
    assert n / 4 == 0 && n / 2 == 0;
  }

  lemma QuarterFits(p: nat, q: nat, n: nat)
    requires 2 <= n < Pow2(p + q) && (p == q || p == q + 1)
    ensures p > 0 && q > 0 && n / 4 < Pow2(p - 1 + (q - 1))
    ensures Pow2(p) == 2 * Pow2(p - 1) && Pow2(q) == 2 * Pow2(q - 1)
  {
    assert Pow2(0) == 1 && Pow2(1) == 2;
    var k := p + q - 2;
    assert Pow2(k + 2) == 2 * Pow2(k + 1) && Pow2(k + 1) == 2 * Pow2(k);
  }

  // ----- The copy loop -----

  /** Index of the source pixel for column `x` and row `y`. */
  function SourcePixel(linear: bool, w: nat, x: word, y: word): nat {
    if linear then Flat(w, x, y) else Morton2d(x, y)
  }

  /** Index of the source pixel for pixel `d` of the result, counted row by row. */
  function SourceOf(linear: bool, w: nat, d: nat): nat
    requires w > 0
  {
    SourcePixel(linear, w, d % w % TWO32, Div(d, w) % TWO32)
  }

  function ByteAt(src: seq<byte>, i: int): byte {
    if 0 <= i < |src| then src[i] else 0
  }

  /** The two pixel formats, both stored with the most significant byte first. */
  datatype Format = A8R8G8B8 | R5G6B5

  function PixelBytes(f: Format): nat {
    if f.R5G6B5? then 2 else 4
  }

  /** Pixel `d` of the result shows source pixel `from`: its bytes the other way round, or its
  three fields in the high bits of B, G and R, with the high bits repeated below them. */
  predicate Copied(f: Format, out: seq<byte>, src: seq<byte>, from: nat, d: nat) {
    4 * d + 3 < |out| &&
    if f.R5G6B5? then
      Shows565(ByteAt(src, 2 * from) * 0x100 + ByteAt(src, 2 * from + 1),
               out[4 * d], out[4 * d + 1], out[4 * d + 2], out[4 * d + 3])
    else
      out[4 * d] == ByteAt(src, 4 * from + 3) && out[4 * d + 1] == ByteAt(src, 4 * from + 2) &&
      out[4 * d + 2] == ByteAt(src, 4 * from + 1) && out[4 * d + 3] == ByteAt(src, 4 * from)
  }

  /** An opaque pixel whose channels carry the fields of `px`, so that nothing of it is lost. */
  predicate Shows565(px: int, b: byte, g: byte, r: byte, a: byte) {
    a == 0xFF && r / 8 * 0x800 + g / 4 * 0x20 + b / 8 == px &&
    b % 8 == b / 0x20 && g % 4 == g / 0x40 && r % 8 == r / 0x20
  }

  /** The first `i` pixels, row by row, are done. */
  ghost predicate Done(f: Format, out: seq<byte>, src: seq<byte>, linear: bool, w: nat, i: nat)
    requires w > 0
  {
    forall d: nat :: d < i ==> Copied(f, out, src, SourceOf(linear, w, d), d)
  }

  /** The pixel loops of `load_a3t_entry`, for every size and format the loader accepts. A read
  outside the source, which C leaves undefined, ends the copy with `ok` false. That happens
  exactly for swizzled textures that are neither square nor twice as wide as high; otherwise
  the result shows, row by row, the source pixels. */
  method Deswizzle(f: Format, src: array<byte>, linear: bool, p: nat, q: nat) returns (ok: bool, out: array<byte>)
    requires 6 <= p <= 12 && 6 <= q <= 12 && src.Length == Times(Pow2(p + q), PixelBytes(f))
    ensures fresh(out) && out.Length == Pow2(p + q) * 4
    ensures ok <==> linear || p == q || p == q + 1
    ensures ok ==> Done(f, out[..], src[..], linear, Pow2(p), Pow2(p + q))
  {
    var w, h := Pow2(p), Pow2(q);
    Dimensions(p, q);
    AllFitIff(linear, p, q);
    hide Pow2, SourceFits, Done, Times, PixelBytes, RowsFit, RowFits;
    NoRows(linear, w, h);
    FlatFacts(w, h, 0, 0);
    out := new byte[Times(w, h) * 4](_ => 0);
    for y := 0 to h
      invariant Done(f, out[..], src[..], linear, w, Flat(w, 0, y))
      invariant RowsFit(linear, w, h, y)
    {
      ok := CopyRow(f, src, out, linear, w, h, y);
      NextRow(linear, w, h, y);
      if !ok {
        if RowsFit(linear, w, h, h) { FewerRows(linear, w, h, y); }
        return;
      }
      FlatFacts(w, h, 0, y);
    }
    ok := true;
  }

  predicate SourceFits(linear: bool, w: nat, h: nat, x: nat, y: nat) {
    x < 0x1000 && y < 0x1000 && SourcePixel(linear, w, x, y) < Times(w, h)
  }

  ghost predicate RowFits(linear: bool, w: nat, h: nat, y: nat) {
    forall x: nat :: x < w ==> SourceFits(linear, w, h, x, y)
  }

  /** Every read in the first `n` rows stays inside the source. */
  ghost predicate RowsFit(linear: bool, w: nat, h: nat, n: nat) {
    forall x: nat, y: nat :: x < w && y < n ==> SourceFits(linear, w, h, x, y)
  }

  lemma NoRows(linear: bool, w: nat, h: nat)
    ensures RowsFit(linear, w, h, 0)
  {
  }

  lemma NextRow(linear: bool, w: nat, h: nat, y: nat)
    requires RowsFit(linear, w, h, y)
    ensures RowsFit(linear, w, h, y + 1) <==> RowFits(linear, w, h, y)
  {
    hide SourceFits;
    var next := y + 1;
    if RowsFit(linear, w, h, next) {
      assert forall x: nat :: x < w ==> SourceFits(linear, w, h, x, y);
    }
  }

  lemma FewerRows(linear: bool, w: nat, h: nat, y: nat)
    requires y < h && RowsFit(linear, w, h, h)
    ensures RowsFit(linear, w, h, y + 1)
  {
    hide SourceFits;
  }

  /** The inner loop: one row of the result. */
  method CopyRow(f: Format, src: array<byte>, out: array<byte>, linear: bool, w: nat, h: nat, y: nat) returns (ok: bool)
    requires src != out && 0 < w <= 0x1000 && y < h <= 0x1000
    requires out.Length == Times(w, h) * 4 && src.Length == Times(Times(w, h), PixelBytes(f))
    requires Done(f, out[..], src[..], linear, w, Flat(w, 0, y))
    modifies out
    ensures ok <==> RowFits(linear, w, h, y)
    ensures ok ==> Done(f, out[..], src[..], linear, w, Flat(w, w, y))
  {
    hide Done, Flat, SourcePixel, Copied;
    SourceBytes(f, Times(w, h));
    hide Times;
    for x := 0 to w
      invariant Done(f, out[..], src[..], linear, w, Flat(w, x, y))
      invariant forall x': nat :: x' < x ==> SourceFits(linear, w, h, x', y)
    {
      var si := SourcePixel(linear, w, x, y);
      if si >= Times(w, h) {
        assert !SourceFits(linear, w, h, x, y);
        return false;
      }
      FlatFacts(w, h, x, y);
      PixelPlace(linear, w, x, y);
      ghost var was := out[..];
      if f.R5G6B5? {
        WritePixel565(src, out, si, Flat(w, x, y));
      } else {
        WritePixel(src, out, si, Flat(w, x, y));
      }
      OnePixel(f, was, out[..], src[..], linear, w, Flat(w, x, y));
    }
    ok := true;
  }

  lemma SourceBytes(f: Format, n: nat)
    ensures Times(n, PixelBytes(f)) == if f.R5G6B5? then 2 * n else 4 * n
  {
  }

  /** The four byte stores of an A8R8G8B8 pixel. */
  method WritePixel(src: array<byte>, out: array<byte>, si: nat, di: nat)
    requires src != out && si * 4 + 3 < src.Length && di * 4 + 3 < out.Length
    modifies out
    ensures Copied(A8R8G8B8, out[..], src[..], si, di)
    ensures forall k :: 0 <= k < 4 * di ==> out[k] == old(out[k])
  {
    out[di * 4 + 0] := src[si * 4 + 3];
    out[di * 4 + 1] := src[si * 4 + 2];
    out[di * 4 + 2] := src[si * 4 + 1];
    out[di * 4 + 3] := src[si * 4 + 0];
  }

  /** The conversion of an R5G6B5 pixel. */
  method WritePixel565(src: array<byte>, out: array<byte>, si: nat, di: nat)
    requires src != out && si * 2 + 1 < src.Length && di * 4 + 3 < out.Length
    modifies out
    ensures Copied(R5G6B5, out[..], src[..], si, di)
    ensures forall k :: 0 <= k < 4 * di ==> out[k] == old(out[k])
  {
    hide Or, Shows565;
    JoinBytes(src[si * 2], src[si * 2 + 1]);
    var px := Or(src[si * 2] as int * 0x100, src[si * 2 + 1]);
    Widened(px);
    out[di * 4 + 0] := Or(px % 0x20 * 8, px % 0x20 / 4);
    out[di * 4 + 1] := Or(px / 0x20 % 0x40 * 4, px / 0x20 % 0x40 / 0x10);
    out[di * 4 + 2] := Or(px / 0x800 % 0x20 * 8, px / 0x800 % 0x20 / 4);
    out[di * 4 + 3] := 0xFF;
  }

  lemma JoinBytes(hi: byte, lo: byte)
    ensures Or(hi as int * 0x100, lo) == hi as int * 0x100 + lo
  {
    assert Pow2(8) == 0x100;
    hide Or, Pow2;
    OrDisjoint(hi, lo, 8);
  }

  /** Repeating the high bits of the three fields fills the channels and keeps the fields. */
  lemma Widened(px: half)
    ensures var b, g, r := px % 0x20, px / 0x20 % 0x40, px / 0x800 % 0x20;
      Or(b * 8, b / 4) < 0x100 && Or(g * 4, g / 0x10) < 0x100 && Or(r * 8, r / 4) < 0x100 &&
      Shows565(px, Or(b * 8, b / 4), Or(g * 4, g / 0x10), Or(r * 8, r / 4), 0xFF)
  {
    var b, g, r := px % 0x20, px / 0x20 % 0x40, px / 0x800 % 0x20;
    Fields565(px);
    hide Or;
    Repeated(b, 8, 4, 3);
    Repeated(g, 4, 0x10, 2);
    Repeated(r, 8, 4, 3);
  }

  /** A field of `8 - k` bits moved to the top of a byte, its high bits repeated below it. */
  lemma {:induction false} Repeated(v: nat, up: nat, down: nat, k: nat)
    requires (k == 3 && up == 8 && down == 4 && v < 0x20) || (k == 2 && up == 4 && down == 0x10 && v < 0x40)
    ensures var x := Or(v * up, v / down);
      x < 0x100 && x / up == v && x % up == if k == 3 then x / 0x20 else x / 0x40
  {
    assert Pow2(2) == 4 && Pow2(3) == 8;
    hide Or, Pow2;
    OrDisjoint(v, v / down, k);
  }

  lemma Fields565(px: half)
    ensures px == px / 0x800 % 0x20 * 0x800 + px / 0x20 % 0x40 * 0x20 + px % 0x20
  {
    var q := px / 0x20;
    DivUnique(px, 0x800, q / 0x40, q % 0x40 * 0x20 + px % 0x20);
  }

  lemma PixelPlace(linear: bool, w: nat, x: word, y: word)
    requires x < w
    ensures SourceOf(linear, w, Flat(w, x, y)) == SourcePixel(linear, w, x, y)
  {
    hide SourcePixel, Flat, Div;
    FlatPlace(w, x, y);
    assert x as int % TWO32 == x && y as int % TWO32 == y;
  }

  /** Writing the next pixel extends the finished part by one. */
  lemma OnePixel(f: Format, was: seq<byte>, out: seq<byte>, src: seq<byte>, linear: bool, w: nat, i: nat)
    requires w > 0 && |out| == |was| && Done(f, was, src, linear, w, i)
    requires Copied(f, out, src, SourceOf(linear, w, i), i)
    requires forall k :: 0 <= k < 4 * i ==> out[k] == was[k]
    ensures Done(f, out, src, linear, w, i + 1)
  {
    hide SourceOf, ByteAt, Shows565;
    forall d: nat | d < i + 1
      ensures Copied(f, out, src, SourceOf(linear, w, d), d)
    {
      if d < i {
        assert Copied(f, was, src, SourceOf(linear, w, d), d);
      }
    }
  }

  /** A linear texture is copied pixel for pixel. */
  lemma LinearInOrder(w: nat, h: nat, d: nat)
    requires 0 < w <= 0x1000 && h <= 0x1000 && d < Times(w, h)
    ensures SourceOf(true, w, d) == d
  {
    RowInside(w, h, d);
    var x, y := d % w, Div(d, w);
    hide Flat, Div;
    assert x % TWO32 == x && y % TWO32 == y;
  }

  /** A swizzled texture is copied from the pixel whose index has the column in its even bits and
  the row in its odd ones. */
  lemma {:induction false} SwizzledByBits(w: nat, h: nat, x: nat, y: nat, k: nat)
    requires x < w <= 0x1000 && y < h <= 0x1000 && k < 32
    ensures Bit(k, SourceOf(false, w, y * w + x)) <==> if k % 2 == 0 then Bit(k / 2, x) else Bit(k / 2, y)
  {
    assert Flat(w, x, y) == y * w + x;
    PixelInterleaves(w, x, y);
    hide SourceOf, Flat, Bit;
    InterleavedBit(k, x, y);
  }

  lemma {:induction false} InterleavedBit(k: nat, x: nat, y: nat)
    ensures Bit(k, Interleave(x, y)) <==> if k % 2 == 0 then Bit(k / 2, x) else Bit(k / 2, y)
  {
    hide Or, Spread, Interleave;
    var s := Spread(y);
    OrInterleaves(x, y);
    BitOr(k, Spread(x), 2 * s);
    BitSpread(k, x);
    DivUnique(2 * s, 2, s, 0);
    assert Bit(k, 2 * s) <==> k > 0 && Bit(k - 1, s);
    if k > 0 { BitSpread(k - 1, y); }
    hide Bit;
  }

  function Big4(s: seq<byte>): int
    requires |s| == 4
  {
    s[0] as int * 0x100_0000 + s[1] as int * 0x1_0000 + s[2] as int * 0x100 + s[3]
  }

  function Little4(s: seq<byte>): int
    requires |s| == 4
  {
    s[3] as int * 0x100_0000 + s[2] as int * 0x1_0000 + s[1] as int * 0x100 + s[0]
  }

  /** An ARGB word, most significant byte first, becomes the same word least significant byte first. */
  lemma CopiedKeepsWord(out: seq<byte>, src: seq<byte>, from: nat, d: nat)
    requires Copied(A8R8G8B8, out, src, from, d) && 4 * from + 4 <= |src|
    ensures Big4(src[4 * from..4 * from + 4]) == Little4(out[4 * d..4 * d + 4])
  {
  }

  /** Pure red, green and blue of the narrow format become those of the wide one. */
  lemma PureColors(out: seq<byte>, src: seq<byte>, from: nat, d: nat)
    requires Copied(R5G6B5, out, src, from, d) && 2 * from + 2 <= |src|
    ensures var px, bgra := src[2 * from] as int * 0x100 + src[2 * from + 1], out[4 * d..4 * d + 4];
      (px == 0xF800 ==> bgra == [0, 0, 0xFF, 0xFF]) && (px == 0x07E0 ==> bgra == [0, 0xFF, 0, 0xFF]) &&
      (px == 0x001F ==> bgra == [0xFF, 0, 0, 0xFF]) && (px == 0xFFFF ==> bgra == [0xFF, 0xFF, 0xFF, 0xFF])
  {
    var px := src[2 * from] as int * 0x100 + src[2 * from + 1];
    PureChannels(px, out[4 * d], out[4 * d + 1], out[4 * d + 2], out[4 * d + 3]);
    hide Shows565;
  }

  lemma PureChannels(px: int, b: byte, g: byte, r: byte, a: byte)
    requires Shows565(px, b, g, r, a)
    ensures a == 0xFF
    ensures px == 0xF800 ==> r == 0xFF && g == 0 && b == 0
    ensures px == 0x07E0 ==> r == 0 && g == 0xFF && b == 0
    ensures px == 0x001F ==> r == 0 && g == 0 && b == 0xFF
    ensures px == 0xFFFF ==> r == 0xFF && g == 0xFF && b == 0xFF
  {
    var r5, g6, b5 := r / 8, g / 4, b / 8;
    assert r5 < 0x20 && g6 < 0x40 && b5 < 0x20;
    if px == 0xF800 { Fields(r5, g6, b5, 0x1F, 0, 0); }
    if px == 0x07E0 { Fields(r5, g6, b5, 0, 0x3F, 0); }
    if px == 0x001F { Fields(r5, g6, b5, 0, 0, 0x1F); }
    if px == 0xFFFF { Fields(r5, g6, b5, 0x1F, 0x3F, 0x1F); }
  }

  lemma Fields(r: nat, g: nat, b: nat, r': nat, g': nat, b': nat)
    requires r < 0x20 && g < 0x40 && b < 0x20 && r' < 0x20 && g' < 0x40 && b' < 0x20
    requires r * 0x800 + g * 0x20 + b == r' * 0x800 + g' * 0x20 + b'
    ensures r == r' && g == g' && b == b'
  {
  }

  lemma Dimensions(p: nat, q: nat)
    requires p <= 12 && q <= 12
    ensures Pow2(p + q) == Times(Pow2(p), Pow2(q)) && Pow2(p) <= 0x1000 && Pow2(q) <= 0x1000
  {
    hide Pow2;
    Powers();
    Pow2Add(p, q);
    Pow2Mono(p, 12);
    Pow2Mono(q, 12);
  }

  /** The source pixel read for (x, y) lies in the source. */
  lemma {:induction false} SourceInside(linear: bool, p: nat, q: nat, x: nat, y: nat)
    requires p <= 12 && q <= 12 && x < Pow2(p) && y < Pow2(q) && (linear || p == q || p == q + 1)
    ensures SourceFits(linear, Pow2(p), Pow2(q), x, y)
  {
    Dimensions(p, q);
    hide Pow2, Morton2d, Interleave, Times;
    if linear {
      FlatFacts(Pow2(p), Pow2(q), x, y);
    } else {
      InsideIffSquareOrDouble(p, q);
      assert Inside(x, y, p, q);
      Morton2dInterleaves(x, y);
    }
  }

  /** All reads of a texture stay inside its source exactly in those sizes. */
  lemma {:induction false} AllFitIff(linear: bool, p: nat, q: nat)
    requires p <= 12 && q <= 12
    ensures RowsFit(linear, Pow2(p), Pow2(q), Pow2(q)) <==> linear || p == q || p == q + 1
  {
    hide Pow2, Morton2d, SourceFits;
    if linear || p == q || p == q + 1 {
      forall x: nat, y: nat | x < Pow2(p) && y < Pow2(q)
        ensures SourceFits(linear, Pow2(p), Pow2(q), x, y)
      {
        SourceInside(linear, p, q, x, y);
      }
    } else {
      LastDoesNotFit(p, q);
    }
  }

  lemma {:induction false} LastDoesNotFit(p: nat, q: nat)
    requires p <= 12 && q <= 12 && p != q && p != q + 1
    ensures !SourceFits(false, Pow2(p), Pow2(q), Pow2(p) - 1, Pow2(q) - 1)
  {
    hide Pow2, Morton2d, Times;
    Dimensions(p, q);
    LastPixelOutside(p, q);
  }

  /** In any other size the code's index of the last pixel lies outside the texture. */
  lemma LastPixelOutside(p: nat, q: nat)
    requires p <= 12 && q <= 12 && p != q && p != q + 1
    ensures Pow2(p) <= 0x1000 && Pow2(q) <= 0x1000
    ensures Morton2d(Pow2(p) - 1, Pow2(q) - 1) >= Pow2(p + q)
  {
    Dimensions(p, q);
    FarApart(p, q);
    LastIndex(p, q);
    hide Pow2, Gap, Morton2d, Interleave, Times;
    Morton2dInterleaves(Pow2(p) - 1, Pow2(q) - 1);
  }

  /** For one, the last pixel of a 64 by 128 texture, which the loader accepts. */
  lemma TallTextureOverruns()
    ensures Morton2d(63, 127) >= 64 * 128
  {
    assert Pow2(6) == 64 && Pow2(7) == 128 && Pow2(13) == 64 * 128;
    hide Pow2, Morton2d;
    LastPixelOutside(6, 7);
  }

  /** In the sizes that fit, the loop reads every source pixel exactly once. */
  lemma EachSourcePixelOnce(p: nat, q: nat, n: nat)
    requires p <= 12 && (p == q || p == q + 1) && n < Pow2(p + q)
    ensures var at := Flat(Pow2(p), ColumnOf(n), RowOf(n));
      at < Pow2(p + q) && SourceOf(false, Pow2(p), at) == n &&
      forall d: nat :: d < Pow2(p + q) && SourceOf(false, Pow2(p), d) == n ==> d == at
  {
    SwizzleBijective(p, q, n);
    Dimensions(p, q);
    hide *;
    var w, x, y := Pow2(p), ColumnOf(n), RowOf(n);
    FlatFacts(w, Pow2(q), x, y);
    PixelInterleaves(w, x, y);
    forall d: nat | d < Pow2(p + q) && SourceOf(false, w, d) == n
      ensures d == Flat(w, x, y)
    {
      PlaceOfPixel(w, Pow2(q), d);
      Morton2dInterleaves(d % w, Div(d, w));
    }
  }

  lemma PixelInterleaves(w: nat, x: nat, y: nat)
    requires x < w <= 0x1000 && y < 0x1000
    ensures SourceOf(false, w, Flat(w, x, y)) == Interleave(x, y)
  {
    hide SourceOf, Flat, Morton2d, Interleave;
    PixelPlace(false, w, x, y);
    Morton2dInterleaves(x, y);
  }

  lemma PlaceOfPixel(w: nat, h: nat, d: nat)
    requires 0 < w <= 0x1000 && h <= 0x1000 && d < Times(w, h)
    ensures Div(d, w) < h && Flat(w, d % w, Div(d, w)) == d
    ensures SourceOf(false, w, d) == Morton2d(d % w, Div(d, w))
  {
    RowInside(w, h, d);
    var x, y := d % w, Div(d, w);
    hide Morton2d, Flat, Div;
    assert x % TWO32 == x && y % TWO32 == y;
  }

  lemma RowInside(w: nat, h: nat, d: nat)
    requires 0 < w && d < Times(w, h)
    ensures Div(d, w) < h && Flat(w, d % w, Div(d, w)) == d
  {
    var y := Div(d, w);
    DivUnique(d, w, y, d - y * w);
    MulMono(h, y, w);
  }
}
