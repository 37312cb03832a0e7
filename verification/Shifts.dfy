/** Quadword byte and bit shifts: the in-place byte loops of `spu_interp.cpp`, the byte
strings they produce, and the 128-bit integers those byte strings denote. */
module Shifts {
  import opened Bits
  import opened Quad

  // ----- Byte-string specifications -----

  function ShlBytes(q: Quad, n: nat): Quad {
    if n < 16 then q[n..] + Zeros(n) else Zeros(16)
  }

  function ShrBytes(q: Quad, n: nat): Quad {
    if n < 16 then Zeros(n) + q[..16 - n] else Zeros(16)
  }

  function RotBytes(q: Quad, n: nat): Quad
    requires n < 16
  {
    q[n..] + q[..n]
  }

  /** Two neighbouring bytes shifted left as one sixteen-bit number; the upper byte of the result. */
  function ShlByte(x: byte, below: byte, s: nat): byte
    requires s < 8
  {
    (x as int * Pow2(s) + Shr(below, 8 - s)) % 0x100
  }

  /** Two neighbouring bytes shifted right as one sixteen-bit number; the lower byte of the result. */
  function ShrByte(above: byte, x: byte, s: nat): byte
    requires s < 8
  {
    (above as int * Pow2(8 - s) + Shr(x, s)) % 0x100
  }

  /** The bits that leave a byte on the left, and the byte that stays. */
  lemma {:induction false} ShlByteSplit(x: byte, below: byte, s: nat)
    requires s < 8
    ensures x as int * Pow2(s) + Shr(below, 8 - s) == Shr(x, 8 - s) as int * 0x100 + ShlByte(x, below, s)
  {
    PowersMultiply(s);
    ShlSplit(x, below, Pow2(s), Pow2(8 - s));
  }

  lemma ShlSplit(x: byte, below: byte, p: nat, r: nat)
    requires p * r == 0x100 && r > 0
    ensures x as int * p + Div(below, r) == Div(x, r) * 0x100 + (x as int * p + Div(below, r)) % 0x100
  {
    var q, lo := Div(x, r), Div(below, r);
    FactorSplit(x, q, p, r);
    MulMono(p, lo, r);
    DivUnique(x as int * p + lo, 0x100, q, (x - q * r) * p + lo);
  }

  /** The byte that stays, and the bits that leave it on the right. */
  lemma {:induction false} ShrByteSplit(above: byte, x: byte, s: nat)
    requires s < 8
    ensures ShrByte(above, x, s) as int * Pow2(s) + Low(x, s) == Low(above, s) * 0x100 + x
  {
    PowersMultiply(s);
    var p, r := Pow2(s), Pow2(8 - s);
    var t := ShrByte(above, x, s);
    assert t == (above as int * r + Div(x, p)) % 0x100;
    ShrSplit(above, x, p, r);
    assert Low(x, s) == x - Div(x, p) * p && Low(above, s) == above - Div(above, p) * p;
    assert t * p + Low(x, s) == Low(above, s) * 0x100 + x;
  }

  lemma ShrSplit(above: byte, x: byte, p: nat, r: nat)
    requires p * r == 0x100 && p > 0
    ensures (above as int * r + Div(x, p)) % 0x100 * p + (x - Div(x, p) * p) == (above - Div(above, p) * p) * 0x100 + x
  {
    var q, hi := Div(above, p), Div(x, p);
    var low := above - q * p;
    assert q * p <= above < q * p + p && hi * p <= x;
    hide *;
    FactorSplit(above, q, r, p);
    TopBelow(r, p, hi, x);
    DivUnique(above as int * r + hi, 0x100, q, low * r + hi);
    MulBack(low, r, p, hi);
  }

  lemma TopBelow(r: nat, p: nat, hi: nat, x: byte)
    requires p * r == 0x100 && hi * p <= x
    ensures hi < r
  {
    MulMono(r, hi, p);
  }

  /** With `p * r == 256`, multiplying by `p` moves the top of a byte past the byte boundary. */
  lemma FactorSplit(x: nat, q: nat, p: nat, r: nat)
    requires p * r == 0x100 && q * r <= x < q * r + r
    ensures x * p == q * 0x100 + (x - q * r) * p
    ensures (x - q * r) * p <= 0x100 - p
  {
    assert q * 0x100 == q * r * p;
    var d := x - q * r;
    assert (r - 1 - d) * p >= 0;
  }

  lemma MulBack(d: nat, r: nat, p: nat, hi: nat)
    requires p * r == 0x100
    ensures (d * r + hi) * p == d * 0x100 + hi * p
  {
    assert d * r * p == d * (r * p);
  }

  lemma PowersMultiply(s: nat)
    requires s <= 8
    ensures Pow2(s) * Pow2(8 - s) == 0x100
  {
    Pow2Add(s, 8 - s);
    assert Pow2(8) == 0x100;
  }

  lemma PowersOfByte(s: nat)
    requires s < 8
    ensures Pow2(s) == [1, 2, 4, 8, 16, 32, 64, 128][s]
    ensures Pow2(8 - s) == [256, 128, 64, 32, 16, 8, 4, 2][s]
  {
    assert Pow2(4) == 16 && Pow2(8) == 256;
    assert s == 0 || s == 1 || s == 2 || s == 3 || s == 4 || s == 5 || s == 6 || s == 7;
  }

  function Below(a: seq<byte>, k: nat, cin: byte): byte
    requires k < |a|
  {
    if k + 1 < |a| then a[k + 1] else cin
  }

  function Above(a: seq<byte>, k: nat): byte
    requires k < |a|
  {
    if k > 0 then a[k - 1] else 0
  }

  /** Shift left by `s` bits, with `cin` entering from the right below the last byte. */
  function ShlSeq(a: seq<byte>, s: nat, cin: byte): (r: seq<byte>)
    requires s < 8
    ensures |r| == |a|
  {
    seq(|a|, k requires 0 <= k < |a| => ShlByte(a[k], Below(a, k, cin), s))
  }

  function ShrSeq(a: seq<byte>, s: nat): (r: seq<byte>)
    requires s < 8
    ensures |r| == |a|
  {
    seq(|a|, k requires 0 <= k < |a| => ShrByte(Above(a, k), a[k], s))
  }

  function ShlBits(q: Quad, s: nat): Quad
    requires s < 8
  {
    ShlSeq(q, s, 0)
  }

  function ShrBits(q: Quad, s: nat): Quad
    requires s < 8
  {
    ShrSeq(q, s)
  }

  function RotBits(q: Quad, s: nat): Quad
    requires s < 8
  {
    ShlSeq(q, s, q[0])
  }

  // ----- The loops -----

  /** `(uint8_t)((x << s) | (below >> (8 - s)))`, for a non-zero shift. */
  function CShl(x: byte, below: byte, s: nat): byte
    requires 0 < s < 8
  {
    Or(x as int * Pow2(s), Shr(below, 8 - s)) % 0x100
  }

  /** `(uint8_t)((x >> s) | (above << (8 - s)))`, for a non-zero shift. */
  function CShr(above: byte, x: byte, s: nat): byte
    requires 0 < s < 8
  {
    Or(above as int * Pow2(8 - s), Shr(x, s)) % 0x100
  }

  lemma CShlIsShl(x: byte, below: byte, s: nat)
    requires 0 < s < 8
    ensures CShl(x, below, s) == ShlByte(x, below, s)
  {
    PowersOfByte(s);
    var lo := Shr(below, 8 - s);
    assert lo < Pow2(s);
    OrDisjoint(x, lo, s);
  }

  lemma CShrIsShr(above: byte, x: byte, s: nat)
    requires 0 < s < 8
    ensures CShr(above, x, s) == ShrByte(above, x, s)
  {
    PowersOfByte(s);
    var lo := Shr(x, s);
    assert lo < Pow2(8 - s);
    OrDisjoint(above, lo, 8 - s);
  }

  method QShlBytes(a: Quad, n: nat) returns (t: Quad)
    ensures t == ShlBytes(a, n)
  {
    var buf := new byte[16](_ => 0);
    if n < 16 {
      var k := 0;
      while k + n < 16
        invariant 0 <= k <= 16 - n
        invariant forall j :: 0 <= j < 16 ==> buf[j] == if j < k then a[j + n] else 0
      {
        buf[k] := a[k + n];
        k := k + 1;
      }
    }
    t := buf[..];
  }

  method QShrBytes(a: Quad, n: nat) returns (t: Quad)
    ensures t == ShrBytes(a, n)
  {
    var buf := new byte[16](_ => 0);
    if n < 16 {
      var k := n;
      while k < 16
        invariant n <= k <= 16
        invariant forall j :: 0 <= j < 16 ==> buf[j] == if n <= j < k then a[j - n] else 0
      {
        buf[k] := a[k - n];
        k := k + 1;
      }
    }
    t := buf[..];
  }

  method QRotBytes(a: Quad, n: nat) returns (t: Quad)
    requires n < 16
    ensures t == RotBytes(a, n)
  {
    var buf := new byte[16](_ => 0);
    for k := 0 to 16
      invariant forall j :: 0 <= j < k ==> buf[j] == RotBytes(a, n)[j]
    {
      buf[k] := a[(k + n) % 16];
    }
    t := buf[..];
  }

  method QShlBits(a: Quad, s: nat) returns (t: Quad)
    requires s < 8
    ensures t == ShlBits(a, s)
  {
    if s == 0 {
      ShiftByZero(a);
      return a;
    }
    var buf := new byte[16](_ => 0);
    for k := 0 to 15
      invariant forall j :: 0 <= j < k ==> buf[j] == ShlBits(a, s)[j]
    {
      hide CShl, ShlByte;
      buf[k] := CShl(a[k], a[k + 1], s);
      CShlIsShl(a[k], a[k + 1], s);
    }
    EndsShifted(a, s);
    hide ShlByte, Pow2;
    buf[15] := a[15] as int * Pow2(s) % 0x100;
    t := buf[..];
  }

  method QShrBits(a: Quad, s: nat) returns (t: Quad)
    requires s < 8
    ensures t == ShrBits(a, s)
  {
    if s == 0 {
      ShiftByZero(a);
      return a;
    }
    var buf := new byte[16](_ => 0);
    var k := 15;
    while k > 0
      invariant 0 <= k <= 15
      invariant forall j :: k < j < 16 ==> buf[j] == ShrBits(a, s)[j]
    {
      hide CShr, ShrByte;
      buf[k] := CShr(a[k - 1], a[k], s);
      CShrIsShr(a[k - 1], a[k], s);
      k := k - 1;
    }
    EndsShifted(a, s);
    hide ShrByte, Shr;
    buf[0] := Shr(a[0], s);
    t := buf[..];
  }

  method QRotBits(a: Quad, s: nat) returns (t: Quad)
    requires s < 8
    ensures t == RotBits(a, s)
  {
    if s == 0 {
      ShiftByZero(a);
      return a;
    }
    var buf := new byte[16](_ => 0);
    for k := 0 to 16
      invariant forall j :: 0 <= j < k ==> buf[j] == RotBits(a, s)[j]
    {
      hide CShl, ShlByte;
      var below := a[(k + 1) % 16];
      assert below == Below(a, k, a[0]);
      buf[k] := CShl(a[k], below, s);
      CShlIsShl(a[k], below, s);
    }
    t := buf[..];
  }

  /** Nothing enters at the ends of the register. */
  lemma {:induction false} EndsShifted(a: Quad, s: nat)
    requires s < 8
    ensures ShlBits(a, s)[15] == a[15] as int * Pow2(s) % 0x100 && ShrBits(a, s)[0] == Shr(a[0], s)
  {
    LastByte(a[15], s);
    FirstByte(a[0], s);
    hide ShlByte, ShrByte, Pow2, Shr;
  }

  lemma {:induction false} LastByte(x: byte, s: nat)
    requires s < 8
    ensures ShlByte(x, 0, s) == x as int * Pow2(s) % 0x100
  {
    ShrInByte(0, 8 - s);
    hide Shr, Pow2;
    var m := x as int * Pow2(s);
    assert m + Shr(0, 8 - s) == m;
  }

  lemma FirstByte(x: byte, s: nat)
    requires s < 8
    ensures ShrByte(0, x, s) == Shr(x, s)
  {
    ShrInByte(x, s);
    hide Shr, Pow2;
    var y := Shr(x, s);
    assert 0 * Pow2(8 - s) + y == y && y % 0x100 == y;
  }

  lemma ShrInByte(x: byte, s: nat)
    ensures Shr(x, s) <= x
  {
    var q := Shr(x, s);
    hide Pow2;
    MulMono(1, Pow2(s), q);
  }

  lemma ShiftByZero(a: Quad)
    ensures ShlBits(a, 0) == a && ShrBits(a, 0) == a && RotBits(a, 0) == a
  {
    hide ShlByte, ShrByte;
    forall x: byte, y: byte
      ensures ShlByte(x, y, 0) == x && ShrByte(y, x, 0) == x
    {
      ByteShiftByZero(x, y);
    }
  }

  lemma ByteShiftByZero(x: byte, y: byte)
    ensures ShlByte(x, y, 0) == x && ShrByte(y, x, 0) == x
  {
    PowersOfByte(0);
    hide Pow2;
    assert Div(y, 0x100) == 0 && Div(x, 1) == x;
    assert (y as int * 0x100 + x) % 0x100 == x;
  }
}
