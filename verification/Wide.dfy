/** Quadword shifts as arithmetic on the 128-bit register value. */
module Wide {
  import opened Bits
  import opened Quad
  import opened Shifts

  // ----- Byte shifts -----

  lemma {:induction false} ValZeros(n: nat)
    ensures Val(Zeros(n)) == 0
  {
    if n > 0 {
      assert Zeros(n)[..n - 1] == Zeros(n - 1);
      ValZeros(n - 1);
    }
  }

  /** A register cut in two: its value, and the weight of the cut. */
  lemma ValCut(q: Quad, n: nat)
    requires n <= 16
    ensures Val(q) == Val(q[..n]) * Pow256(16 - n) + Val(q[n..])
    ensures Val(q[n..]) < Pow256(16 - n) && Val(q[..n]) < Pow256(n)
    ensures Pow256(n) * Pow256(16 - n) == TWO128
  {
    assert q == q[..n] + q[n..];
    ValConcat(q[..n], q[n..]);
    ValBound(q[n..]);
    ValBound(q[..n]);
    Pow256Split(n);
  }

  lemma Pow256Split(n: nat)
    requires n <= 16
    ensures Pow256(n) * Pow256(16 - n) == TWO128
  {
    Pow256Add(n, 16 - n);
    Pow256At16();
  }

  /** Shifting left by whole bytes multiplies by 256^n and drops what leaves the register. */
  lemma {:induction false} ShlBytesVal(q: Quad, n: nat)
    ensures Val(ShlBytes(q, n)) == Val(q) * Pow256(n) % TWO128
  {
    if n < 16 {
      ValCut(q, n);
      var hi, lo := Val(q[..n]), Val(q[n..]);
      var p, r := Pow256(n), Pow256(16 - n);
      ValConcat(q[n..], Zeros(n));
      ValZeros(n);
      assert Val(ShlBytes(q, n)) == lo * p;
      TopFallsOff(hi, lo, p, r, TWO128);
    } else {
      ValZeros(16);
      AllFallsOff(Val(q), n);
    }
  }

  lemma {:induction false} AllFallsOff(v: nat, n: nat)
    requires n >= 16
    ensures v * Pow256(n) % TWO128 == 0
  {
    Pow256At16();
    Pow256Add(16, n - 16);
    Regroup(v, Pow256(n - 16), TWO128);
    DivUnique(v * Pow256(n), TWO128, v * Pow256(n - 16), 0);
  }

  lemma {:induction false} Pow256Add(a: nat, b: nat)
    ensures Pow256(a + b) == Pow256(a) * Pow256(b)
  {
    if b > 0 {
      Pow256Add(a, b - 1);
      assert a + b - 1 == a + (b - 1);
      MulShuffle(Pow256(a), Pow256(b - 1));
    }
  }

  lemma Regroup(v: nat, e: nat, m: nat)
    ensures v * (m * e) == v * e * m
  {
  }

  /** `hi * r + lo` shifted up by `p`, where `p * r` is the whole range `m`. */
  lemma TopFallsOff(hi: nat, lo: nat, p: nat, r: nat, m: nat)
    requires p * r == m > 0 && lo < r
    ensures (hi * r + lo) * p == hi * m + lo * p
    ensures lo * p < m
    ensures (hi * r + lo) * p % m == lo * p
    ensures (hi * r + lo) * p / m == hi
  {
    assert hi * r * p == hi * (p * r);
    MulGapLe(lo, r, p);
    DivUnique((hi * r + lo) * p, m, hi, lo * p);
  }

  lemma MulGapLe(a: nat, b: nat, d: nat)
    requires a < b
    ensures a * d <= b * d - d
  {
    MulGap(a, b, d);
  }

  /** Shifting right by whole bytes divides by 256^n. */
  lemma {:induction false} ShrBytesVal(q: Quad, n: nat)
    requires n < 32
    ensures Val(ShrBytes(q, n)) == Val(q) / Pow256(n)
  {
    if n < 16 {
      ValCut(q, 16 - n);
      ValConcat(Zeros(n), q[..16 - n]);
      ValZeros(n);
      DivUnique(Val(q), Pow256(n), Val(q[..16 - n]), Val(q[16 - n..]));
    } else {
      ValZeros(16);
      ValByWords(q);
      Pow256IsPow2(n); Pow256IsPow2(16); Pow256At16();
      Pow2Mono(8 * 16, 8 * n);
      DivUnique(Val(q), Pow256(n), 0, Val(q));
    }
  }

  // ----- Bit shifts -----

  function Last(a: seq<byte>): byte {
    if a == [] then 0 else a[|a| - 1]
  }

  function First(a: seq<byte>, cin: byte): byte {
    if a == [] then cin else a[0]
  }

  /** The shifted string, with the bits that left on the top, is the number times 2^s. */
  lemma {:induction false} ShlSeqVal(a: seq<byte>, s: nat, cin: byte)
    requires s < 8
    ensures Val(a) * Pow2(s) + Shr(cin, 8 - s)
         == Shr(First(a, cin), 8 - s) * Pow256(|a|) + Val(ShlSeq(a, s, cin))
  {
    if a != [] {
      var f, x := a[..|a| - 1], a[|a| - 1];
      assert ShlSeq(a, s, cin)[..|a| - 1] == ShlSeq(f, s, x);
      ShlSeqVal(f, s, x);
      hide Pow2, Shr, ShlByte;
      ShlByteSplit(x, cin, s);
      assert First(f, x) == First(a, cin);
      ShlStep(Val(f), x, Pow2(s), Shr(x, 8 - s), Shr(cin, 8 - s), Shr(First(a, cin), 8 - s),
              Pow256(|f|), Val(ShlSeq(f, s, x)), ShlByte(x, cin, s));
    }
  }

  lemma ShlStep(v: nat, x: nat, p: nat, xc: nat, cc: nat, out: nat, w: nat, t: nat, b: nat)
    requires v * p + xc == out * w + t
    requires x * p + cc == xc * 0x100 + b
    ensures (v * 0x100 + x) * p + cc == out * (0x100 * w) + (t * 0x100 + b)
  {
    assert (v * 0x100 + x) * p == v * p * 0x100 + x * p;
    assert out * (0x100 * w) == out * w * 0x100;
  }

  /** The shifted string, with the bits that left at the bottom, is the original number. */
  lemma {:induction false} ShrSeqVal(a: seq<byte>, s: nat)
    requires s < 8
    ensures Val(a) == Val(ShrSeq(a, s)) * Pow2(s) + Low(Last(a), s)
  {
    if a == [] {
      LowOfZero(s);
    } else {
      hide Low, ShrByte, ShrSeq, Pow2, Val;
      var f, x := a[..|a| - 1], a[|a| - 1];
      var above := Above(a, |a| - 1);
      ShrSeqSnoc(a, s);
      ShrSeqVal(f, s);
      assert above == Last(f);
      ShrByteSplit(above, x, s);
      hide *;
      ShrStep(Val(a), Val(f), Val(ShrSeq(a, s)), Val(ShrSeq(f, s)),
              Pow2(s), ShrByte(above, x, s), Low(x, s), Low(above, s), x);
    }
  }

  lemma ShrSeqSnoc(a: seq<byte>, s: nat)
    requires s < 8 && a != []
    ensures var f, x := a[..|a| - 1], a[|a| - 1];
      Val(ShrSeq(a, s)) == Val(ShrSeq(f, s)) * 0x100 + ShrByte(Above(a, |a| - 1), x, s) && Val(a) == Val(f) * 0x100 + x
  {
    hide ShrByte;
    assert ShrSeq(a, s)[..|a| - 1] == ShrSeq(a[..|a| - 1], s);
  }

  lemma LowOfZero(s: nat)
    ensures Low(0, s) == 0
  {
    DivUnique(0, Pow2(s), 0, 0);
  }

  lemma ShrStep(v: nat, front: nat, u: nat, t: nat, p: nat, b: nat, lowX: nat, lowAbove: nat, x: nat)
    requires b * p + lowX == lowAbove * 0x100 + x && v == front * 0x100 + x && u == t * 0x100 + b
    requires front == t * p + lowAbove
    ensures v == u * p + lowX
  {
    assert (t * 0x100 + b) * p == t * p * 0x100 + b * p;
  }

  lemma {:induction false} ShlBitsVal(q: Quad, s: nat)
    requires s < 8
    ensures Val(ShlBits(q, s)) == Val(q) * Pow2(s) % TWO128
    ensures Val(q) * Pow2(s) / TWO128 == Shr(q[0], 8 - s)
  {
    var v, p, m := Val(q), Pow2(s), TWO128;
    var top, t := Shr(q[0], 8 - s), Val(ShlBits(q, s));
    assert v * p == top * m + t by {
      ShlSeqVal(q, s, 0);
      ShrOfZero(8 - s);
      Pow256At16();
    }
    assert t < m by { ValByWords(ShlBits(q, s)); }
    hide *;
    DivUnique(v * p, m, top, t);
  }

  lemma ShrOfZero(s: nat)
    ensures Shr(0, s) == 0
  {
    DivUnique(0, Pow2(s), 0, 0);
  }

  lemma {:induction false} ShrBitsVal(q: Quad, s: nat)
    requires s < 8
    ensures Val(ShrBits(q, s)) == Val(q) / Pow2(s)
  {
    ShrSeqVal(q, s);
    DivUnique(Val(q), Pow2(s), Val(ShrBits(q, s)), Low(q[15], s));
  }

  // ----- Rotation -----

  /** Rotation of an `m`-valued number by the factor `p`: what leaves on top re-enters below. */
  function RotL(v: nat, p: nat, m: nat): nat
    requires m > 0
  {
    v * p % m + v * p / m
  }

  lemma {:induction false} RotBitsVal(q: Quad, s: nat)
    requires s < 8
    ensures Val(RotBits(q, s)) == RotL(Val(q), Pow2(s), TWO128)
  {
    ShlSeqVal(q, s, q[0]);
    ShlBitsVal(q, s);
    Pow256At16();
    var m := TWO128;
    var v := Val(q) * Pow2(s);
    assert v == v / m * m + v % m;
  }

  lemma {:induction false} RotBytesVal(q: Quad, n: nat)
    requires n < 16
    ensures Val(RotBytes(q, n)) == RotL(Val(q), Pow256(n), TWO128)
  {
    ValCut(q, n);
    ValConcat(q[n..], q[..n]);
    TopFallsOff(Val(q[..n]), Val(q[n..]), Pow256(n), Pow256(16 - n), TWO128);
  }

  /** A rotation, for a number written with its top digit first. */
  lemma RotLDigits(a: nat, rest: nat, p: nat, r: nat, m: nat)
    requires p * r == m > 0 && rest < r
    ensures RotL(a * r + rest, p, m) == rest * p + a
  {
    TopFallsOff(a, rest, p, r, m);
  }

  /** Rotations compose as long as the two factors together fit into the range. */
  lemma RotLCompose(v: nat, p: nat, p': nat, r: nat, m: nat)
    requires p > 0 && p' > 0 && r > 0 && p * p' * r == m > 0 && v < m
    ensures RotL(RotL(v, p, m), p', m) == RotL(v, p * p', m)
  {
    Assoc3(p, p', r);
    MulMono(1, p', r);
    var a := Div(v, p' * r);
    var rest := v - a * (p' * r);
    var b := Div(rest, r);
    var c := rest - b * r;
    RotLComposeDigits(a, b, c, p, p', r, m);
  }

  /** The same, for a number given by the digit each rotation moves round: v = (a * p' + b) * r + c. */
  lemma RotLComposeDigits(a: nat, b: nat, c: nat, p: nat, p': nat, r: nat, m: nat)
    requires p * p' * r == m > 0 && c < r && b * r + c < p' * r && a * (p' * r) + (b * r + c) < m
    ensures var v := a * (p' * r) + (b * r + c); RotL(RotL(v, p, m), p', m) == RotL(v, p * p', m)
  {
    Assoc3(p, p', r);
    MulMono(p, a, p' * r);
    SecondDigit(b, c, r, p, a);
    RotLDigits(a, b * r + c, p, p' * r, m);
    RotLDigits(b, c * p + a, p', p * r, m);
    BothDigits(a, b, c, p', r);
    RotLDigits(a * p' + b, c, p * p', r, m);
    LastDigits(a, b, c, p, p');
  }

  lemma LastDigits(a: nat, b: nat, c: nat, p: nat, p': nat)
    ensures (c * p + a) * p' + b == c * (p * p') + (a * p' + b)
  {
    assert c * p * p' == c * (p * p');
  }

  lemma Assoc3(x: nat, y: nat, z: nat)
    ensures x * (y * z) == x * y * z && y * (x * z) == x * y * z
  {
  }

  lemma SecondDigit(b: nat, c: nat, r: nat, p: nat, a: nat)
    requires c < r && a < p
    ensures (b * r + c) * p + a == b * (p * r) + (c * p + a)
    ensures c * p + a < p * r
  {
    assert (b * r + c) * p == b * (p * r) + c * p;
    MulGap(c, r, p);
  }

  lemma BothDigits(a: nat, b: nat, c: nat, p: nat, r: nat)
    ensures a * (p * r) + (b * r + c) == (a * p + b) * r + c
  {
  }

  // ----- Byte shift followed by bit shift -----

  lemma {:induction false} SplitCount(w: nat)
    ensures Pow256(w / 8) * Pow2(w % 8) == Pow2(w)
  {
    Pow256IsPow2(w / 8);
    Pow2Add(8 * (w / 8), w % 8);
  }

  /** A byte shift by `w / 8` and a bit shift by `w % 8` are one shift by `w`. */
  lemma {:induction false} ShlWide(q: Quad, w: nat)
    ensures Val(ShlBits(ShlBytes(q, w / 8), w % 8)) == Val(q) * Pow2(w) % TWO128
  {
    var n, k := w / 8, w % 8;
    ShlBytesVal(q, n);
    ShlBitsVal(ShlBytes(q, n), k);
    ShlTwice(Val(q), Pow256(n), Pow2(k), TWO128);
    SplitCount(w);
  }

  lemma ShlTwice(v: nat, x: nat, y: nat, m: nat)
    requires m > 0
    ensures v * x % m * y % m == v * (x * y) % m
  {
    ModThenMul(v * x, y, m);
    MulAssoc(v, x, y);
  }

  lemma MulAssoc(x: nat, y: nat, z: nat)
    ensures x * y * z == x * (y * z)
  {
  }

  lemma ModThenMul(x: nat, y: nat, m: nat)
    requires m > 0
    ensures x % m * y % m == x * y % m
  {
    var q := Div(x, m);
    var r := x - q * m;
    DivUnique(x, m, q, r);
    var q2 := Div(r * y, m);
    var r2 := r * y - q2 * m;
    DivUnique(r * y, m, q2, r2);
    assert x * y == q * m * y + r * y;
    assert q * m * y == q * y * m;
    assert x * y == (q * y + q2) * m + r2;
    DivUnique(x * y, m, q * y + q2, r2);
  }

  lemma {:induction false} ShrWide(q: Quad, w: nat)
    requires w < 256
    ensures Val(ShrBits(ShrBytes(q, w / 8), w % 8)) == Val(q) / Pow2(w)
  {
    ShrBytesVal(q, w / 8);
    ShrBitsVal(ShrBytes(q, w / 8), w % 8);
    SplitCount(w);
    DivDiv(Val(q), Pow256(w / 8), Pow2(w % 8));
  }

  lemma DivDiv(x: nat, a: nat, b: nat)
    requires a > 0 && b > 0
    ensures a * b > 0 && x / a / b == x / (a * b)
  {
    var q := Div(x, a);
    var q2 := Div(q, b);
    MulMono(1, a, b);
    var r, r2 := x - q * a, q - q2 * b;
    assert q * a == q2 * b * a + r2 * a;
    assert q2 * b * a == q2 * (a * b);
    MulGap(r2, b, a);
    DivUnique(x, a * b, q2, r2 * a + r);
  }

  lemma {:induction false} RotWide(q: Quad, w: nat)
    requires w < 128
    ensures Val(RotBits(RotBytes(q, w / 8), w % 8)) == RotL(Val(q), Pow2(w), TWO128)
  {
    RotBytesVal(q, w / 8);
    RotBitsVal(RotBytes(q, w / 8), w % 8);
    SplitCount(w);
    Pow2At128(w);
    ValByWords(q);
    hide *;
    RotLCompose(Val(q), Pow256(w / 8), Pow2(w % 8), Pow2(128 - w), TWO128);
  }

  lemma Pow2At128(w: nat)
    requires w <= 128
    ensures Pow2(w) * Pow2(128 - w) == TWO128
  {
    Pow2Add(w, 128 - w);
    Pow256At16();
    Pow256IsPow2(16);
  }

  /** Rotating by `w` and then by the rest of the way round gives the number back. */
  lemma RotLBack(v: nat, w: nat)
    requires w <= 128 && v < TWO128
    ensures RotL(RotL(v, Pow2(w), TWO128), Pow2(128 - w), TWO128) == v
  {
    Pow2At128(w);
    RotLCompose(v, Pow2(w), Pow2(128 - w), 1, TWO128);
    DivUnique(v * TWO128, TWO128, v, 0);
  }
}
