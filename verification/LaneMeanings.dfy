/** What the lane functions mean: shifts and rotates as arithmetic, logic bit by bit, counts. */
module LaneMeanings {
  import opened Bits
  import opened Lanes

  // ----- Shifts -----

  /** `shl`: multiplication by a power of two, even for counts of 32 to 63. */
  lemma ShlMultiplies(a: word, b: word, t: word)
    ensures EvalW(WShl, a, b, t) == Low(Shl(a, b % 64), 32)
  {
    hide Shl, Low, ShlW, Pow2, Clz;
    ShlWMultiplies(a, b % 64);
  }

  lemma ShlWMultiplies(a: word, s: nat)
    ensures ShlW(a, s) == Low(Shl(a, s), 32)
  {
    Word32();
    LowIsMod(Shl(a, s), 32);
    if s >= 32 {
      MultipleOfWord(a, s);
    }
    hide Low, Pow2;
  }

  lemma MultipleOfWord(a: word, s: nat)
    requires s >= 32
    ensures Shl(a, s) % TWO32 == 0
  {
    Word32();
    var k: nat := s - 32;
    Pow2Add(k, 32);
    hide Pow2;
    var m := Times(a, Pow2(k));
    assert Shl(a, s) == m * TWO32 by { assert a * (Pow2(k) * TWO32) == a * Pow2(k) * TWO32; }
    DivUnique(m * TWO32, TWO32, m, 0);
  }

  /** `rotm`: division by a power of two, for any negated count. */
  lemma RotmDivides(a: word, b: word, t: word)
    ensures EvalW(WRotm, a, b, t) == Shr(a, NegMod(b, 64))
  {
    var s := NegMod(b, 64);
    assert EvalW(WRotm, a, b, t) == ShrW(a, s) == if s < 32 then Wrap32(Shr(a, s)) else 0;
    hide EvalW, ShrW, NegMod, Shr;
    QuotientBelow(a, s);
    if s >= 32 { ShiftedOut(a, s); }
  }

  lemma QuotientBelow(a: word, s: nat)
    ensures Shr(a, s) <= a
  {
    var q := Shr(a, s);
    hide Pow2;
    MulMono(1, Pow2(s), q);
  }

  lemma {:induction false} ShiftedOut(a: word, s: nat)
    requires s >= 32
    ensures a < Pow2(s) && Shr(a, s) == 0
  {
    Word32();
    Pow2Mono(32, s);
    hide Pow2;
    DivUnique(a, Pow2(s), 0, a);
  }

  /** `rotma`: division of the signed value rounding down; clamping the count loses nothing. */
  lemma RotmaDivides(a: word, b: word, t: word)
    ensures EvalW(WRotma, a, b, t) == Wrap32(FloorShr(S32(a), NegMod(b, 64)))
  {
    var s := NegMod(b, 64);
    assert EvalW(WRotma, a, b, t) == SarW(a, s);
    if s >= 31 {
      Clz32();
      Pow2Mono(31, s);
      hide Pow2;
      FloorOfSmall(S32(a), Pow2(31));
      FloorOfSmall(S32(a), Pow2(s));
    }
  }

  function FloorShr(x: int, s: nat): int {
    x / Pow2(s)
  }

  lemma FloorOfSmall(x: int, d: int)
    requires d > 0 && -d <= x < d
    ensures x / d == if x < 0 then -1 else 0
  {
    if x >= 0 {
      DivUnique(x, d, 0, x);
    } else {
      var q, r := x / d, x % d;
      assert x == q * d + r;
      MulMono(0, q, d);
      MulMono(q, -2, d);
    }
  }

  /** The halfword shifts, likewise: counts of 16 to 31 shift everything out, and clamping the
  arithmetic shift to 15 loses nothing. */
  lemma HalfShifts(a: half, b: half)
    ensures EvalH(HShl, a, b) == Low(Shl(a, b % 32), 16)
    ensures EvalH(HRotm, a, b) == Shr(a, NegMod(b, 32))
    ensures EvalH(HRotma, a, b) == Wrap16(FloorShr(S16(a), NegMod(b, 32)))
  {
    hide Low, Shl, Shr, Pow2;
    HalfShl(a, b % 32);
    HalfShr(a, NegMod(b, 32));
    HalfSar(a, NegMod(b, 32));
    ShlIsTimes(a, b % 32);
  }

  lemma HalfShl(a: half, s: nat)
    ensures Low(Shl(a, s), 16) == if s < 16 then Wrap16(Shl(a, s)) else 0
  {
    Half16();
    LowIsMod(Shl(a, s), 16);
    if s >= 16 {
      var k: nat := s - 16;
      Pow2Add(k, 16);
      hide Pow2, Low;
      var m := Times(a, Pow2(k));
      assert Shl(a, s) == m * 0x1_0000 by { assert a * (Pow2(k) * 0x1_0000) == a * Pow2(k) * 0x1_0000; }
      DivUnique(m * 0x1_0000, 0x1_0000, m, 0);
    }
  }

  lemma HalfShr(a: half, s: nat)
    ensures ShrH(a, s) == Shr(a, s)
  {
    QuotientBelow(a, s);
    if s >= 16 {
      Half16();
      Pow2Mono(16, s);
      hide Pow2;
      DivUnique(a, Pow2(s), 0, a);
    }
  }

  lemma HalfSar(a: half, s: nat)
    ensures S16(a) / Pow2(Min(s, 15)) == FloorShr(S16(a), s)
  {
    if s >= 15 {
      assert Pow2(15) == 0x8000 by { Half16(); assert Pow2(16) == 2 * Pow2(15); }
      Pow2Mono(15, s);
      hide Pow2;
      FloorOfSmall(S16(a), Pow2(15));
      FloorOfSmall(S16(a), Pow2(s));
    }
  }

  lemma Half16()
    ensures Pow2(16) == 0x1_0000
  {
    assert Pow2(8) == 0x100;
    hide Pow2;
    Pow2Add(8, 8);
  }

  /** `rot`: every bit moves up, modulo 32. */
  lemma {:induction false} RotMovesBits(k: nat, a: word, b: word, t: word)
    ensures Bit(k, EvalW(WRot, a, b, t)) <==> k < 32 && Bit((k - b) % 32, a)
  {
    hide Bit, RotW;
    ModOfMod(k, b);
    RotWMovesBits(k, a, b % 32);
  }

  lemma {:induction false} RotWMovesBits(k: nat, a: word, s: nat)
    requires s < 32
    ensures Bit(k, RotW(a, s)) <==> k < 32 && Bit((k - s) % 32, a)
  {
    BitInside(k, a);
    if s == 0 {
      hide Bit;
      assert k < 32 ==> (k - 0) % 32 == k;
    } else {
      RotatedPlace(k, s);
      BitInside(k + (32 - s), a);
      Word32();
      hide Bit, Pow2, Or, Shr, Shl;
      var up, down := Wrap32(Shl(a, s)), Shr(a, 32 - s);
      assert RotW(a, s) == Or(up, down) % TWO32 by { ShlIsTimes(a, s); }
      BitMod(k, Or(up, down), 32);
      BitOr(k, up, down);
      BitMod(k, Shl(a, s), 32);
      BitShlOf(k, a, s);
      BitShr(k, a, 32 - s);
    }
  }

  lemma {:induction false} BitInside(k: nat, a: word)
    ensures Bit(k, a) ==> k < 32
  {
    Word32();
    if Bit(k, a) { BitBound(k, a, 32); }
  }

  lemma ModOfMod(k: int, b: int)
    ensures (k - b) % 32 == (k - b % 32) % 32
  {
  }

  lemma RotatedPlace(k: nat, s: nat)
    requires 0 < s < 32
    ensures k < 32 ==> (k - s) % 32 == if k >= s then k - s else k + 32 - s
  {
  }

  /** `sfx` subtracts with borrow: complementing and adding is subtracting. */
  lemma SfxSubtracts(a: word, b: word, t: word)
    ensures EvalW(WSfx, a, b, t) == Wrap32(b - a - (1 - t % 2))
    ensures EvalW(WBgx, a, b, t) == (if b - a - (1 - t % 2) >= 0 then 1 else 0)
  {
    var c := t % 2;
    var d := b as int - a as int - (1 - c);
    assert EvalW(WSfx, a, b, t) == Wrap32(d + TWO32);
    assert EvalW(WBgx, a, b, t) == Wrap32((d + TWO32) / TWO32);
    Complemented(d);
  }

  lemma Complemented(d: int)
    requires -0x1_0000_0000 <= d < 0x1_0000_0000
    ensures (d + 0x1_0000_0000) % 0x1_0000_0000 == d % 0x1_0000_0000
    ensures (d + 0x1_0000_0000) / 0x1_0000_0000 == if d >= 0 then 1 else 0
  {
  }

  /** `roth`, likewise modulo 16. */
  lemma {:induction false} RothMovesBits(k: nat, a: half, b: half)
    ensures Bit(k, EvalH(HRot, a, b)) <==> k < 16 && Bit((k - b) % 16, a)
  {
    hide Bit, RotH;
    ModOfMod16(k, b);
    RotHMovesBits(k, a, b % 16);
  }

  lemma ModOfMod16(k: int, b: int)
    ensures (k - b) % 16 == (k - b % 16) % 16
  {
  }

  lemma {:induction false} RotHMovesBits(k: nat, a: half, s: nat)
    requires s < 16
    ensures Bit(k, RotH(a, s)) <==> k < 16 && Bit((k - s) % 16, a)
  {
    hide Bit, Pow2, Or, Shr, Shl;
    Half16();
    BitInside16(k, a);
    if s == 0 {
      assert k < 16 ==> (k - 0) % 16 == k;
    } else {
      RotatedPlace16(k, s);
      BitInside16(k + (16 - s), a);
      assert RotH(a, s) == Or(Shl(a, s), Shr(a, 16 - s)) % 0x1_0000 by { ShlIsTimes(a, s); }
      BitMod(k, Or(Shl(a, s), Shr(a, 16 - s)), 16);
      BitOr(k, Shl(a, s), Shr(a, 16 - s));
      BitShlOf(k, a, s);
      BitShr(k, a, 16 - s);
    }
  }

  lemma {:induction false} BitInside16(k: nat, a: half)
    ensures Bit(k, a) ==> k < 16
  {
    Half16();
    if Bit(k, a) { BitBound(k, a, 16); }
  }

  lemma RotatedPlace16(k: nat, s: nat)
    requires 0 < s < 16
    ensures k < 16 ==> (k - s) % 16 == if k >= s then k - s else k + 16 - s
  {
  }

  // ----- Products, signs and comparisons -----

  /** The signed reading of a lane is the one number of its signed range that is congruent to it. */
  lemma SignedReadings(w: word, h: half, b: byte)
    ensures -0x8000_0000 <= S32(w) <= 0x7FFF_FFFF && S32(w) % 0x1_0000_0000 == w
    ensures -0x8000 <= S16(h) <= 0x7FFF && S16(h) % 0x1_0000 == h
    ensures -0x80 <= S8(b) <= 0x7F && S8(b) % 0x100 == b
  {
  }

  /** The products are exact, read as the instruction reads them; `mpys` rounds down. */
  lemma ProductsExact(a: word, b: word, t: word)
    ensures S32(EvalW(WMpy, a, b, t)) == S16(Lo(a)) * S16(Lo(b))
    ensures S32(EvalW(WMpyhh, a, b, t)) == S16(Hi(a)) * S16(Hi(b))
    ensures S32(EvalW(WMpys, a, b, t)) == S16(Lo(a)) * S16(Lo(b)) / 0x1_0000
    ensures EvalW(WMpyu, a, b, t) == Lo(a) as int * Lo(b) as int
    ensures EvalW(WMpyhhu, a, b, t) == Hi(a) as int * Hi(b) as int
  {
    SignedProduct(S16(Lo(a)), S16(Lo(b)));
    SignedProduct(S16(Hi(a)), S16(Hi(b)));
    UnsignedProductsExact(a, b, t);
    hide Lo, Hi, S16, S32, Wrap32, And, Or, Xor, Pow2, Clz;
  }

  lemma UnsignedProductsExact(a: word, b: word, t: word)
    ensures EvalW(WMpyu, a, b, t) == Lo(a) as int * Lo(b) as int
    ensures EvalW(WMpyhhu, a, b, t) == Hi(a) as int * Hi(b) as int
  {
    UnsignedProduct(Lo(a), Lo(b));
    UnsignedProduct(Hi(a), Hi(b));
    hide Lo, Hi, S16, S32, Wrap32, And, Or, Xor, Pow2, Clz;
  }

  lemma SignedProduct(x: int, y: int)
    requires -0x8000 <= x < 0x8000 && -0x8000 <= y < 0x8000
    ensures -0x4000_0000 <= x * y <= 0x4000_0000
    ensures S32(Wrap32(x * y)) == x * y && S32(Wrap32(x * y / 0x1_0000)) == x * y / 0x1_0000
  {
    var m := if y >= 0 then y else -y;
    MulMono(x, 0x8000, m);
    MulMono(-0x8000, x, m);
    assert x * y == x * m || x * y == -(x * m);
    SignedWraps(x * y);
    SignedWraps(x * y / 0x1_0000);
  }

  lemma SignedWraps(z: int)
    requires -0x8000_0000 <= z < 0x8000_0000
    ensures S32(Wrap32(z)) == z
  {
  }

  lemma UnsignedProduct(x: half, y: half)
    ensures Wrap32(x as int * y as int) == x as int * y as int
  {
    hide Wrap32;
    var z := x as int * y as int;
    MulNonneg(x, y);
    MulMono(x, 0xFFFF, y);
    assert 0 <= z < TWO32;
    WrapSmall(z);
  }

  lemma WrapSmall(z: nat)
    requires z < TWO32
    ensures Wrap32(z) == z
  {
  }

  /** The accumulating products add the plain product to the third operand. */
  lemma ProductsAccumulate(a: word, b: word, t: word)
    ensures EvalW(WMpyhha, a, b, t) == EvalW(WAdd, t, EvalW(WMpyhh, a, b, t), t)
    ensures EvalW(WMpyhhau, a, b, t) == EvalW(WAdd, t, EvalW(WMpyhhu, a, b, t), t)
    ensures EvalW(WMpya, a, b, t) == EvalW(WAdd, EvalW(WMpy, a, b, t), t, t)
  {
    hide Lo, Hi, S16, S32, Wrap32, And, Or, Xor, Pow2, Clz, RotW, ShrW, SarW, ShlW;
    var p, u, l := S16(Hi(a)) * S16(Hi(b)), Hi(a) as int * Hi(b) as int, S16(Lo(a)) * S16(Lo(b));
    WrapSum(t, p);
    WrapSum(t, u);
    WrapSum(l, t);
  }

  lemma WrapSum(x: int, y: int)
    ensures Wrap32(x + Wrap32(y)) == Wrap32(x + y) && Wrap32(Wrap32(x) + y) == Wrap32(x + y)
    ensures 0 <= y < TWO32 ==> Wrap32(x + S32(y)) == Wrap32(x + y)
  {
    ModTurn(x + Wrap32(y), TWO32, y / TWO32);
    ModTurn(Wrap32(x) + y, TWO32, x / TWO32);
    ModTurn(x + y, TWO32, -1);
  }

  /** `sf` and `sfh` take RA from RB: adding RA back gives RB. */
  lemma SubtractAddBack(a: word, b: word, t: word, t': word)
    ensures EvalW(WAdd, EvalW(WSubFrom, a, b, t), a, t') == b
  {
    assert EvalW(WSubFrom, a, b, t) == Wrap32(b - a);
    var d := Wrap32(b - a);
    assert EvalW(WAdd, d, a, t') == Wrap32(d + a);
    hide EvalW, Wrap32;
    WrapSum(a, b - a);
    WrapSmall(b);
  }

  lemma HalfSubtractAddBack(a: half, b: half)
    ensures EvalH(HAdd, EvalH(HSubFrom, a, b), a) == b
  {
    assert EvalH(HSubFrom, a, b) == (b - a) % 0x1_0000;
    assert EvalH(HAdd, EvalH(HSubFrom, a, b), a) == ((b - a) % 0x1_0000 + a) % 0x1_0000;
    hide EvalH;
    ModTurn(b, 0x1_0000, -((b - a) / 0x1_0000));
  }

  /** A signed sum or difference that fits its lane is exact. */
  lemma SumsExact(a: word, b: word, t: word)
    ensures -0x8000_0000 <= S32(a) + S32(b) < 0x8000_0000 ==> S32(EvalW(WAdd, a, b, t)) == S32(a) + S32(b)
    ensures -0x8000_0000 <= S32(b) - S32(a) < 0x8000_0000 ==> S32(EvalW(WSubFrom, a, b, t)) == S32(b) - S32(a)
  {
    var sum, d := a + b, b as int - a as int;
    assert EvalW(WAdd, a, b, t) == Wrap32(sum) && EvalW(WSubFrom, a, b, t) == Wrap32(d);
    hide EvalW;
  }

  lemma HalfSumsExact(a: half, b: half)
    ensures -0x8000 <= S16(a) + S16(b) < 0x8000 ==> S16(EvalH(HAdd, a, b)) == S16(a) + S16(b)
    ensures -0x8000 <= S16(b) - S16(a) < 0x8000 ==> S16(EvalH(HSubFrom, a, b)) == S16(b) - S16(a)
  {
    var sum, d := a + b, b as int - a as int;
    assert EvalH(HAdd, a, b) == Wrap16(sum) && EvalH(HSubFrom, a, b) == Wrap16(d);
    hide EvalH;
  }

  /** Sign extension keeps the signed value of the narrower element. */
  lemma ExtensionKeepsValue(a: word, h: half)
    ensures S32(EvalW(WXshw, a, 0, 0)) == S16(Lo(a))
    ensures S16(EvalH(HXsbh, h, 0)) == S8(h % 0x100)
  {
    SignedWraps(S16(Lo(a)));
    hide Lo, And, Or, Xor, Pow2, Clz, EvalMul, RotW, ShrW, SarW, ShlW;
  }

  /** Of equal, greater and less, signed or unsigned, exactly one mask is all ones. */
  lemma ComparisonsDecide(a: word, b: word, signed: bool)
    ensures var gt := if signed then WCgt else WClgt;
      [EvalW(WCeq, a, b, 0), EvalW(gt, a, b, 0), EvalW(gt, b, a, 0)] in
        [[0xFFFF_FFFF, 0, 0], [0, 0xFFFF_FFFF, 0], [0, 0, 0xFFFF_FFFF]]
    ensures S32(a) < 0 <= S32(b) ==> EvalW(WCgt, b, a, 0) == EvalW(WClgt, a, b, 0) == 0xFFFF_FFFF
    ensures a < b < 0x8000_0000 ==> EvalW(WCgt, b, a, 0) == EvalW(WClgt, b, a, 0) == 0xFFFF_FFFF
  {
    hide And, Or, Xor, Pow2, Clz, EvalMul, RotW, ShrW, SarW, ShlW;
  }

  lemma HalfComparisonsDecide(a: half, b: half, signed: bool)
    ensures var gt := if signed then HCgt else HClgt;
      [EvalH(HCeq, a, b), EvalH(gt, a, b), EvalH(gt, b, a)] in [[0xFFFF, 0, 0], [0, 0xFFFF, 0], [0, 0, 0xFFFF]]
    ensures S16(a) < 0 <= S16(b) ==> EvalH(HCgt, b, a) == EvalH(HClgt, a, b) == 0xFFFF
    ensures a < b < 0x8000 ==> EvalH(HCgt, b, a) == EvalH(HClgt, b, a) == 0xFFFF
  {
    hide And, Or, Xor, Pow2, RotH, ShrH;
  }

  lemma ByteComparisonsDecide(a: byte, b: byte, signed: bool)
    ensures var gt := if signed then BCgt else BClgt;
      [EvalB(BCeq, a, b, 0), EvalB(gt, a, b, 0), EvalB(gt, b, a, 0)] in [[0xFF, 0, 0], [0, 0xFF, 0], [0, 0, 0xFF]]
    ensures S8(a) < 0 <= S8(b) ==> EvalB(BCgt, b, a, 0) == EvalB(BClgt, a, b, 0) == 0xFF
    ensures a < b < 0x80 ==> EvalB(BCgt, b, a, 0) == EvalB(BClgt, b, a, 0) == 0xFF
  {
    hide And, Or, Xor, PopCount;
  }

  // ----- Logic -----

  lemma {:induction false} LogicBounds(a: nat, b: nat, w: nat)
    requires a < Pow2(w) && b < Pow2(w)
    ensures And(a, b) < Pow2(w) && Or(a, b) < Pow2(w) && Xor(a, b) < Pow2(w)
  {
    hide *;
    AndBound(a, b, w);
    OrBound(a, b, w);
    XorBound(a, b, w);
  }

  /** Truncating a bitwise result to its lane drops nothing. */
  lemma {:induction false} LogicFits(a: word, b: word, t: word)
    ensures EvalW(WAnd, a, b, t) == And(a, b) && EvalW(WOr, a, b, t) == Or(a, b) && EvalW(WXor, a, b, t) == Xor(a, b)
    ensures EvalW(WOrInto, a, b, t) == Or(t, b)
  {
    hide And, Or, Xor, Pow2, Clz, EvalMul, RotW, ShrW, SarW, ShlW;
    Word32();
    LogicBounds(a, b, 32);
    LogicBounds(t, b, 32);
  }

  lemma {:induction false} HalfLogicFits(a: half, b: half)
    ensures EvalH(HAnd, a, b) == And(a, b) && EvalH(HOr, a, b) == Or(a, b) && EvalH(HXor, a, b) == Xor(a, b)
  {
    hide And, Or, Xor, Pow2, RotH, ShrH;
    Half16();
    LogicBounds(a, b, 16);
  }

  lemma {:induction false} ByteLogicFits(a: byte, b: byte)
    ensures EvalB(BAnd, a, b, 0) == And(a, b) && EvalB(BOr, a, b, 0) == Or(a, b) && EvalB(BXor, a, b, 0) == Xor(a, b)
  {
    hide And, Or, Xor, Pow2, PopCount;
    Byte8();
    LogicBounds(a, b, 8);
  }

  lemma {:induction false} BitNot(k: nat, x: nat, w: nat)
    requires x < Pow2(w)
    ensures Bit(k, Pow2(w) - 1 - x) <==> k < w && !Bit(k, x)
    decreases w
  {
    if w == 0 {
      BitOfZero(k);
    } else if k > 0 {
      BitNot(k - 1, x / 2, w - 1);
      assert (Pow2(w) - 1 - x) / 2 == Pow2(w - 1) - 1 - x / 2;
    }
  }

  lemma Byte8()
    ensures Pow2(8) == 0x100
  {
  }

  lemma BitNotByte(k: nat, x: byte)
    ensures Bit(k, 0xFF - x) <==> k < 8 && !Bit(k, x)
  {
    Byte8();
    hide Bit, Pow2;
    BitNot(k, x, 8);
  }

  lemma {:induction false} BitLowByte(k: nat, x: nat)
    ensures Bit(k, x % 0x100) <==> k < 8 && Bit(k, x)
  {
    Byte8();
    hide Bit, Pow2;
    BitMod(k, x, 8);
  }

  /** `selb` takes each bit from RB where the mask has a one and from RA where it has a zero. */
  lemma {:induction false} SelectsBits(k: nat, a: byte, b: byte, c: byte)
    requires k < 8
    ensures Bit(k, EvalB(BSel, a, b, c)) <==> if Bit(k, c) then Bit(k, b) else Bit(k, a)
  {
    hide Bit, And, Or;
    BitLowByte(k, Or(And(c, b), And(0xFF - c, a)));
    BitOr(k, And(c, b), And(0xFF - c, a));
    BitAnd(k, c, b);
    BitAnd(k, 0xFF - c, a);
    BitNotByte(k, c);
  }

  /** The complementing logic instructions, bit by bit. */
  lemma {:induction false} ComplementsBits(k: nat, a: byte, b: byte)
    requires k < 8
    ensures Bit(k, EvalB(BNand, a, b, 0)) <==> !(Bit(k, a) && Bit(k, b))
    ensures Bit(k, EvalB(BNor, a, b, 0)) <==> !(Bit(k, a) || Bit(k, b))
    ensures Bit(k, EvalB(BAndc, a, b, 0)) <==> Bit(k, a) && !Bit(k, b)
    ensures Bit(k, EvalB(BOrc, a, b, 0)) <==> Bit(k, a) || !Bit(k, b)
    ensures Bit(k, EvalB(BEqv, a, b, 0)) <==> (Bit(k, a) == Bit(k, b))
  {
    hide Bit, And, Or, Xor;
    BitNotByte(k, And(a, b) % 0x100);
    BitNotByte(k, Or(a, b) % 0x100);
    BitNotByte(k, Xor(a, b) % 0x100);
    BitNotByte(k, b);
    BitLowByte(k, And(a, b));
    BitLowByte(k, Or(a, b));
    BitLowByte(k, Xor(a, b));
    BitLowByte(k, And(a, 0xFF - b));
    BitLowByte(k, Or(a, 0xFF - b));
    BitAnd(k, a, b);
    BitOr(k, a, b);
    BitXor(k, a, b);
    BitAnd(k, a, 0xFF - b);
    BitOr(k, a, 0xFF - b);
  }

  // ----- Counting -----

  /** How many of the bits numbered below `w` are ones. */
  function OneBits(v: nat, w: nat): nat {
    if w == 0 then 0 else OneBits(v, w - 1) + (if Bit(w - 1, v) then 1 else 0)
  }

  lemma {:induction false} OneBitsFromLowest(v: nat, w: nat)
    requires w > 0
    ensures OneBits(v, w) == v % 2 + OneBits(v / 2, w - 1)
  {
    if w > 1 {
      OneBitsFromLowest(v, w - 1);
      assert Bit(w - 1, v) <==> Bit(w - 2, v / 2);
    } else {
      assert OneBits(v, 1) == OneBits(v, 0) + (if Bit(0, v) then 1 else 0);
    }
  }

  lemma {:induction false} PopCountIsOneBits(v: byte, w: nat)
    requires v < Pow2(w)
    ensures PopCount(v) == OneBits(v, w)
    decreases w
  {
    if w > 0 {
      OneBitsFromLowest(v, w);
      PopCountIsOneBits(v / 2, w - 1);
      assert PopCount(0) == 0;
    }
  }

  /** `cntb` counts the one bits of each byte. */
  lemma {:induction false} CntbCounts(a: byte, b: byte, c: byte)
    ensures EvalB(BCntb, a, b, c) == OneBits(a, 8)
  {
    Byte8();
    hide Pow2, OneBits, PopCount;
    PopCountIsOneBits(a, 8);
  }

  // ----- Byte averages and differences -----

  /** `absdb` is the distance of its operands, and `avgb` their mean rounded up. */
  lemma DistancesAndMeans(a: byte, b: byte)
    ensures var d := EvalB(BAbsdb, a, b, 0); d == EvalB(BAbsdb, b, a, 0) && (d == a - b || d == b - a)
    ensures var m := EvalB(BAvgb, a, b, 0); a as int + b <= 2 * m <= a as int + b + 1
  {
  }
}
