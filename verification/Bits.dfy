/** Fixed-width machine arithmetic on mathematical naturals.

C's unsigned operators are spelled out on `nat`: `x << k` is `x * Pow2(k)` reduced
modulo the width, `x >> k` is `x / Pow2(k)`, `x & (2^k - 1)` is `x % Pow2(k)` (see
`AndLowMask`), and `|`, `&` and `^` of anything else are the bit recursions below. */
module Bits {

  const TWO32: nat := 0x1_0000_0000
  const TWO64: nat := 0x1_0000_0000_0000_0000

  type byte = x: int | 0 <= x < 0x100
  type half = x: int | 0 <= x < 0x1_0000
  type word = x: int | 0 <= x < 0x1_0000_0000
  type dword = x: int | 0 <= x < 0x1_0000_0000_0000_0000

  function Pow2(n: nat): (p: nat)
    ensures p >= 1
  {
    if n == 0 then 1 else 2 * Pow2(n - 1)
  }

  lemma {:induction false} Pow2Add(a: nat, b: nat)
    ensures Pow2(a + b) == Pow2(a) * Pow2(b)
  {
    if b == 0 {
    } else {
      Pow2Add(a, b - 1);
      assert a + b - 1 == a + (b - 1);
    }
  }

  lemma {:induction false} Pow2Mono(a: nat, b: nat)
    requires a <= b
    ensures Pow2(a) <= Pow2(b)
  {
    if a < b {
      Pow2Mono(a, b - 1);
    }
  }

  lemma Word32()
    ensures Pow2(32) == TWO32
  {
    assert Pow2(8) == 0x100;
    hide Pow2;
    Pow2Add(8, 8);
    Pow2Add(16, 16);
  }

  lemma Word64()
    ensures Pow2(64) == TWO64
  {
    Word32();
    hide Pow2;
    Pow2Add(32, 32);
  }

  // ----- Bitwise operators -----

  /** Bit `k` of `n`, counted from the least significant end. */
  predicate Bit(k: nat, n: nat) {
    if k == 0 then n % 2 == 1 else Bit(k - 1, n / 2)
  }

  function And(a: nat, b: nat): nat
    decreases a
  {
    if a == 0 then 0
    else 2 * And(a / 2, b / 2) + (if a % 2 == 1 && b % 2 == 1 then 1 else 0)
  }

  function Or(a: nat, b: nat): nat
    decreases a + b
  {
    if a == 0 then b else if b == 0 then a
    else 2 * Or(a / 2, b / 2) + (if a % 2 == 1 || b % 2 == 1 then 1 else 0)
  }

  function Xor(a: nat, b: nat): nat
    decreases a + b
  {
    if a == 0 then b else if b == 0 then a
    else 2 * Xor(a / 2, b / 2) + (if a % 2 != b % 2 then 1 else 0)
  }

  lemma {:induction false} BitOfZero(k: nat)
    ensures !Bit(k, 0)
  {
    if k > 0 { BitOfZero(k - 1); }
  }

  lemma {:induction false} BitAnd(k: nat, a: nat, b: nat)
    ensures Bit(k, And(a, b)) <==> Bit(k, a) && Bit(k, b)
    decreases k
  {
    AndHalf(a, b);
    hide And;
    if k > 0 { BitAnd(k - 1, a / 2, b / 2); }
  }

  lemma {:induction false} AndHalf(a: nat, b: nat)
    ensures And(a, b) / 2 == And(a / 2, b / 2) && (And(a, b) % 2 == 1 <==> a % 2 == 1 && b % 2 == 1)
  {
  }

  lemma {:induction false} BitOr(k: nat, a: nat, b: nat)
    ensures Bit(k, Or(a, b)) <==> Bit(k, a) || Bit(k, b)
    decreases k
  {
    OrHalf(a, b);
    hide Or;
    if k > 0 { BitOr(k - 1, a / 2, b / 2); }
  }

  lemma {:induction false} OrHalf(a: nat, b: nat)
    ensures Or(a, b) / 2 == Or(a / 2, b / 2) && (Or(a, b) % 2 == 1 <==> a % 2 == 1 || b % 2 == 1)
  {
  }

  lemma {:induction false} BitXor(k: nat, a: nat, b: nat)
    ensures Bit(k, Xor(a, b)) <==> Bit(k, a) != Bit(k, b)
    decreases k
  {
    XorHalf(a, b);
    hide Xor;
    if k > 0 { BitXor(k - 1, a / 2, b / 2); }
  }

  lemma {:induction false} XorHalf(a: nat, b: nat)
    ensures Xor(a, b) / 2 == Xor(a / 2, b / 2) && (Xor(a, b) % 2 == 1 <==> a % 2 != b % 2)
  {
  }

  /** A natural is determined by its bits. */
  lemma {:induction false} BitsDetermine(a: nat, b: nat)
    requires forall k: nat :: Bit(k, a) == Bit(k, b)
    ensures a == b
    decreases a + b
  {
    if a + b > 0 {
      assert Bit(0, a) == Bit(0, b);
      forall k: nat
        ensures Bit(k, a / 2) == Bit(k, b / 2)
      {
        assert Bit(k + 1, a) == Bit(k + 1, b);
      }
      BitsDetermine(a / 2, b / 2);
    }
  }

  lemma {:induction false} BitShl(k: nat, n: nat, s: nat)
    ensures Bit(k, n * Pow2(s)) <==> k >= s && Bit(k - s, n)
    decreases s
  {
    if s > 0 {
      var m := n * Pow2(s - 1);
      assert n * Pow2(s) == 2 * m;
      if k > 0 { BitShl(k - 1, n, s - 1); }
    }
  }

  /** `n << s`, before truncation. */
  function Shl(n: nat, s: nat): (r: nat)
  {
    Times(n, Pow2(s))
  }

  function Times(a: nat, b: nat): nat {
    a * b
  }

  /** `n >> s`. */
  function Shr(n: nat, s: nat): (q: nat)
  {
    Div(n, Pow2(s))
  }

  function Div(n: nat, d: nat): (q: nat)
    requires d > 0
    ensures q * d <= n < q * d + d
  {
    n / d
  }

  /** The low `s` bits of `n`. */
  function Low(n: nat, s: nat): (r: nat)
    ensures r < Pow2(s)
  {
    n - Shr(n, s) * Pow2(s)
  }

  lemma {:induction false} LowIsMod(n: nat, s: nat)
    ensures Low(n, s) == n % Pow2(s)
  {
    DivUnique(n, Pow2(s), Shr(n, s), Low(n, s));
  }

  lemma {:induction false} BitShr(k: nat, n: nat, s: nat)
    ensures Bit(k, Shr(n, s)) <==> Bit(k + s, n)
  {
    var q := Shr(n, s);
    BitDropped(k, n, s, q, n - q * Pow2(s));
  }

  lemma {:induction false} BitDropped(k: nat, n: nat, s: nat, q: nat, r: nat)
    requires r < Pow2(s) && n == q * Pow2(s) + r
    ensures Bit(k, q) <==> Bit(k + s, n)
    decreases s
  {
    if s > 0 {
      var m := q * Pow2(s - 1);
      assert q * Pow2(s) == 2 * m;
      assert n / 2 == m + r / 2;
      BitDropped(k, n / 2, s - 1, q, r / 2);
    }
  }

  lemma {:induction false} BitShlOf(k: nat, n: nat, s: nat)
    ensures Bit(k, Shl(n, s)) <==> k >= s && Bit(k - s, n)
  {
    BitShl(k, n, s);
  }

  lemma {:induction false} ShlIsTimes(x: nat, n: nat)
    ensures Shl(x, n) == x * Pow2(n)
  {
  }

  lemma MulGap(a: int, b: int, d: nat)
    requires a < b
    ensures a * d + d <= b * d
  {
    var e := b - a - 1;
    MulNonneg(e, d);
    assert (a + 1 + e) * d == a * d + d + e * d;
  }

  lemma MulNonneg(x: nat, y: nat)
    ensures x * y >= 0
  {
  }

  lemma MulMono(a: int, b: int, d: nat)
    ensures a <= b ==> a * d <= b * d
  {
    if a < b {
      MulGap(a, b, d);
    }
  }

  /** Quotient and remainder are the only decomposition with a small remainder. */
  lemma DivUnique(n: int, d: nat, q: int, r: nat)
    requires d > 0 && r < d && n == q * d + r
    ensures n / d == q && n % d == r
  {
    var q' := n / d;
    var r' := n % d;
    assert n == q' * d + r';
    if q' < q {
      MulGap(q', q, d);
    } else if q < q' {
      MulGap(q, q', d);
    }
  }

  /** Whole turns do not show in the remainder. */
  lemma ModTurn(x: int, d: nat, k: int)
    requires d > 0
    ensures (x + k * d) % d == x % d
  {
    DivUnique(x + k * d, d, x / d + k, x % d);
  }

  lemma {:induction false} BitMod(k: nat, n: nat, w: nat)
    ensures Bit(k, n % Pow2(w)) <==> k < w && Bit(k, n)
    decreases w
  {
    if w == 0 {
      assert n % 1 == 0;
      BitOfZero(k);
    } else {
      ModPow2Step(n, w);
      if k > 0 {
        BitMod(k - 1, n / 2, w - 1);
      }
    }
  }

  lemma {:induction false} ModPow2Step(n: nat, w: nat)
    requires w > 0
    ensures n % Pow2(w) == 2 * ((n / 2) % Pow2(w - 1)) + n % 2
    ensures (n % Pow2(w)) / 2 == (n / 2) % Pow2(w - 1)
    ensures (n % Pow2(w)) % 2 == n % 2
  {
    var p := Pow2(w - 1);
    var q, r := (n / 2) / p, (n / 2) % p;
    assert n / 2 == q * p + r;
    assert n == q * (2 * p) + (2 * r + n % 2);
    DivUnique(n, 2 * p, q, 2 * r + n % 2);
  }

  lemma {:induction false} BitBound(k: nat, n: nat, w: nat)
    requires n < Pow2(w) && Bit(k, n)
    ensures k < w
  {
    if w == 0 {
      BitOfZero(k);
    } else if k > 0 {
      BitBound(k - 1, n / 2, w - 1);
    }
  }

  lemma {:induction false} BitOnes(k: nat, w: nat)
    ensures Bit(k, Pow2(w) - 1) <==> k < w
    decreases w
  {
    if w == 0 {
      BitOfZero(k);
    } else if k > 0 {
      BitOnes(k - 1, w - 1);
      assert (Pow2(w) - 1) / 2 == Pow2(w - 1) - 1;
    }
  }

  lemma LowStep(x: nat, i: nat)
    requires i > 0
    ensures Low(x, i) == 2 * Low(x / 2, i - 1) + x % 2
  {
    LowIsMod(x, i);
    LowIsMod(x / 2, i - 1);
    ModPow2Step(x, i);
    hide Low, Pow2;
  }

  /** Masking with 2^w - 1 is reduction modulo 2^w. */
  lemma AndLowMask(x: nat, w: nat)
    ensures And(x, Pow2(w) - 1) == x % Pow2(w)
  {
    hide *;
    AndLow(x, w);
    LowIsMod(x, w);
  }

  lemma {:induction false} AndLow(x: nat, w: nat)
    ensures And(x, Pow2(w) - 1) == Low(x, w)
    decreases w
  {
    if w == 0 {
      LowOfNone(x, w);
      hide *;
      AndZero(x);
    } else {
      var m := Pow2(w - 1) - 1;
      assert Pow2(w) - 1 == 2 * m + 1;
      hide *;
      LowStep(x, w);
      AndLow(x / 2, w - 1);
      AndDoubled(x, m, 1);
    }
  }

  /** Masking with the ones of bits `k` to `w - 1`. */
  lemma AndHighMask(x: nat, w: nat, k: nat)
    requires k <= w && Pow2(k) <= Pow2(w)
    ensures And(x, Pow2(w) - Pow2(k)) == x % Pow2(w) - x % Pow2(k)
  {
    hide *;
    AndHigh(x, w, k);
    LowIsMod(x, w);
    LowIsMod(x, k);
  }

  lemma {:induction false} AndHigh(x: nat, w: nat, k: nat)
    requires k <= w && Pow2(k) <= Pow2(w)
    ensures And(x, Pow2(w) - Pow2(k)) == Low(x, w) - Low(x, k)
    decreases k
  {
    hide *;
    if k == 0 {
      LowOfNone(x, k);
      AndLow(x, w);
    } else {
      HighMaskHalves(w, k);
      LowStep(x, w);
      LowStep(x, k);
      AndHigh(x / 2, w - 1, k - 1);
      AndDoubled(x, Pow2(w - 1) - Pow2(k - 1), 0);
    }
  }

  lemma {:induction false} LowOfNone(x: nat, k: nat)
    requires k == 0
    ensures Pow2(k) == 1 && Low(x, k) == 0
  {
  }

  lemma HighMaskHalves(w: nat, k: nat)
    requires 0 < k <= w
    ensures Pow2(k - 1) <= Pow2(w - 1) && Pow2(w) - Pow2(k) == 2 * (Pow2(w - 1) - Pow2(k - 1))
  {
    Pow2Mono(k - 1, w - 1);
  }

  lemma AndDoubled(x: nat, m: nat, b: nat)
    requires b < 2
    ensures And(x, 2 * m + b) == 2 * And(x / 2, m) + if b == 1 then x % 2 else 0
  {
    DivUnique(2 * m + b, 2, m, b);
  }

  /** Masking with one bit. */
  lemma {:induction false} AndOneBit(x: nat, k: nat)
    ensures And(x, Pow2(k)) == if Bit(k, x) then Pow2(k) else 0
    decreases k
  {
    if x == 0 {
      BitOfZero(k);
    } else if k == 0 {
      AndZero(x / 2);
    } else {
      AndOneBit(x / 2, k - 1);
      assert Pow2(k) / 2 == Pow2(k - 1);
    }
  }

  lemma {:induction false} AndZero(x: nat)
    ensures And(x, 0) == 0
  {
    if x > 0 { AndZero(x / 2); }
  }

  /** `|` of two numbers that share no bit position is their sum. */
  lemma {:induction false} OrDisjoint(hi: nat, lo: nat, s: nat)
    requires lo < Pow2(s)
    ensures Or(hi * Pow2(s), lo) == hi * Pow2(s) + lo
    decreases s
  {
    if s > 0 && hi > 0 && lo > 0 {
      var m := hi * Pow2(s - 1);
      assert hi * Pow2(s) == 2 * m;
      assert m >= 1 by { assert hi * Pow2(s - 1) >= 1 * 1; }
      OrDisjoint(hi, lo / 2, s - 1);
      assert (2 * m) / 2 == m;
    }
  }

  /** The bits of two bit strings put together. */
  lemma BitJoin(k: nat, hi: nat, lo: nat, s: nat)
    requires lo < Pow2(s)
    ensures Bit(k, hi * Pow2(s) + lo) <==> if k < s then Bit(k, lo) else Bit(k - s, hi)
  {
    hide Or, Bit, Pow2;
    OrDisjoint(hi, lo, s);
    BitOr(k, hi * Pow2(s), lo);
    BitShl(k, hi, s);
    if k >= s && Bit(k, lo) {
      BitBound(k, lo, s);
    }
  }

  /** `|` works on the upper and the lower bits separately. */
  lemma OrSplit(hi: nat, lo: nat, hi': nat, lo': nat, s: nat)
    requires lo < Pow2(s) && lo' < Pow2(s)
    ensures Or(Shl(hi, s) + lo, Shl(hi', s) + lo') == Shl(Or(hi, hi'), s) + Or(lo, lo')
  {
    var x := Or(Shl(hi, s) + lo, Shl(hi', s) + lo');
    var y := Shl(Or(hi, hi'), s) + Or(lo, lo');
    forall k: nat
      ensures Bit(k, x) == Bit(k, y)
    {
      BitOrSplit(k, hi, lo, hi', lo', s);
    }
    hide *;
    BitsDetermine(x, y);
  }

  lemma BitOrSplit(k: nat, hi: nat, lo: nat, hi': nat, lo': nat, s: nat)
    requires lo < Pow2(s) && lo' < Pow2(s)
    ensures Bit(k, Or(Shl(hi, s) + lo, Shl(hi', s) + lo')) <==> Bit(k, Shl(Or(hi, hi'), s) + Or(lo, lo'))
  {
    hide *;
    OrBound(lo, lo', s);
    BitOr(k, Shl(hi, s) + lo, Shl(hi', s) + lo');
    BitJoinShl(k, hi, lo, s);
    BitJoinShl(k, hi', lo', s);
    BitJoinShl(k, Or(hi, hi'), Or(lo, lo'), s);
    if k < s { BitOr(k, lo, lo'); } else { BitOr(k - s, hi, hi'); }
  }

  lemma BitJoinShl(k: nat, hi: nat, lo: nat, s: nat)
    requires lo < Pow2(s)
    ensures Bit(k, Shl(hi, s) + lo) <==> if k < s then Bit(k, lo) else Bit(k - s, hi)
  {
    hide Bit, Pow2;
    BitJoin(k, hi, lo, s);
  }

  lemma {:induction false} OrCommutes(a: nat, b: nat)
    ensures Or(a, b) == Or(b, a)
    decreases a + b
  {
    if a > 0 && b > 0 { OrCommutes(a / 2, b / 2); }
  }

  lemma {:induction false} OrHalves(a: nat, b: nat)
    ensures Or(a, b) == 2 * Or(a / 2, b / 2) + (if a % 2 == 1 || b % 2 == 1 then 1 else 0)
  {
  }

  lemma {:induction false} AndBound(a: nat, b: nat, w: nat)
    requires a < Pow2(w)
    ensures And(a, b) < Pow2(w)
    decreases w
  {
    if a > 0 && w > 0 { AndBound(a / 2, b / 2, w - 1); }
  }

  lemma {:induction false} OrBound(a: nat, b: nat, w: nat)
    requires a < Pow2(w) && b < Pow2(w)
    ensures Or(a, b) < Pow2(w)
    decreases w
  {
    if a > 0 && b > 0 && w > 0 { OrBound(a / 2, b / 2, w - 1); }
  }

  lemma {:induction false} XorBound(a: nat, b: nat, w: nat)
    requires a < Pow2(w) && b < Pow2(w)
    ensures Xor(a, b) < Pow2(w)
    decreases w
  {
    if a > 0 && b > 0 && w > 0 { XorBound(a / 2, b / 2, w - 1); }
  }

  // ----- Pixel rows -----

  /** Index of pixel (x, y), row by row. */
  function Flat(w: nat, x: nat, y: nat): nat {
    Times(y, w) + x
  }

  lemma FlatFacts(w: nat, h: nat, x: nat, y: nat)
    ensures Flat(w, 0, 0) == 0 && Flat(w, 0, h) == Times(w, h) && Flat(w, x, y) + 1 == Flat(w, x + 1, y)
    ensures Flat(w, w, y) == Flat(w, 0, y + 1)
    ensures x < w && y < h ==> Flat(w, x, y) < Times(w, h)
  {
    if y < h { MulGap(y, h, w); }
  }

  lemma FlatPlace(w: nat, x: nat, y: nat)
    requires x < w
    ensures Flat(w, x, y) % w == x && Div(Flat(w, x, y), w) == y
  {
    DivUnique(Flat(w, x, y), w, y, x);
  }
}
