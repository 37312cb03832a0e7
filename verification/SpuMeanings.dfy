/** The lane functions and quadword shifts of the interpreter meet the reference. */
module SpuMeanings {
  import opened Bits
  import opened Quad
  import opened Lanes
  import opened LaneMeanings
  import opened Spu
  import opened SpuCode
  import opened SpuReference
  import Shifts
  import Wide

  /** The code negates a count modulo a power of two. */
  lemma NegatedCount(b: nat, m: nat)
    requires m > 0
    ensures NegMod(b, m) == Back(b, m)
  {
    var r := b % m;
    if r == 0 {
      DivUnique(-(b as int), m, -(b / m), 0);
    } else {
      DivUnique(-(b as int), m, -(b / m) - 1, m - r);
    }
  }

  // ----- Word lanes -----

  lemma SumsMean(a: word, b: word, t: word)
    ensures WordMeans(0x0C0, a, b, t, EvalW(WAdd, a, b, t)) && WordMeans(0x340, a, b, t, EvalW(WAddx, a, b, t))
  {
    assert EvalW(WAdd, a, b, t) == (a + b) % TWO32 && EvalW(WAddx, a, b, t) == (a + b + t % 2) % TWO32;
    hide EvalW;
  }

  lemma CarriesMean(a: word, b: word, t: word)
    ensures WordMeans(0x0C2, a, b, t, EvalW(WCarry, a, b, t)) && WordMeans(0x342, a, b, t, EvalW(WCgx, a, b, t))
  {
    assert EvalW(WCarry, a, b, t) == Wrap32((a + b) / TWO32) && EvalW(WCgx, a, b, t) == Wrap32((a + b + t % 2) / TWO32);
    hide EvalW;
    CarryBit(a + b);
    CarryBit(a + b + t % 2);
  }

  lemma CarryBit(x: nat)
    requires x < 2 * TWO32
    ensures Wrap32(x / TWO32) == if x >= TWO32 then 1 else 0
  {
  }

  /** Subtracting and adding back gives the minuend. */
  lemma DifferencesMean(a: word, b: word, t: word)
    ensures WordMeans(0x040, a, b, t, EvalW(WSubFrom, a, b, t)) && WordMeans(0x042, a, b, t, EvalW(WBorrow, a, b, t))
  {
    assert EvalW(WSubFrom, a, b, t) == Wrap32(b - a);
    assert EvalW(WBorrow, a, b, t) == if a <= b then 1 else 0;
    hide EvalW, Wrap32;
    AddedBack(b - a, a);
  }

  lemma BorrowingDifferencesMean(a: word, b: word, t: word)
    ensures WordMeans(0x341, a, b, t, EvalW(WSfx, a, b, t)) && WordMeans(0x343, a, b, t, EvalW(WBgx, a, b, t))
  {
    hide EvalW, Wrap32;
    SfxSubtracts(a, b, t);
    AddedBack(b - a - (1 - t % 2), a + (1 - t % 2));
  }

  lemma AddedBack(d: int, a: int)
    ensures (Wrap32(d) + a) % TWO32 == (d + a) % TWO32
  {
    ModTurn(d + a, TWO32, -(d / TWO32));
  }

  lemma ClzMeans(a: word, b: word, t: word)
    ensures WordMeans(0x2A5, a, b, t, EvalW(WClz, a, b, t))
  {
    assert EvalW(WClz, a, b, t) == Clz(a) by { hide Pow2; }
    hide EvalW, Pow2, Clz;
    var r := Clz(a);
  }

  lemma XshwMeans(a: word, b: word, t: word)
    ensures WordMeans(0x2AE, a, b, t, EvalW(WXshw, a, b, t))
  {
    ExtensionKeepsValue(a, 0);
    assert EvalW(WXshw, a, b, t) == EvalW(WXshw, a, 0, 0);
    hide EvalW, Pow2, S32, S16;
  }

  lemma RotMeans(a: word, b: word, t: word)
    ensures WordMeans(0x058, a, b, t, EvalW(WRot, a, b, t))
  {
    var r := EvalW(WRot, a, b, t);
    forall k | 0 <= k < 32
      ensures Bit(k, r) <==> Bit((k - b) % 32, a)
    {
      RotMovesBits(k, a, b, t);
    }
    hide EvalW, Bit;
  }

  lemma RotmMeans(a: word, b: word, t: word)
    ensures WordMeans(0x059, a, b, t, EvalW(WRotm, a, b, t)) && WordMeans(0x05B, a, b, t, EvalW(WShl, a, b, t))
  {
    hide EvalW, Low, Shl, Shr, NegMod, Back;
    NegatedCount(b, 64);
    RotmDivides(a, b, t);
    ShlMultiplies(a, b, t);
  }

  lemma RotmaMeans(a: word, b: word, t: word)
    ensures WordMeans(0x05A, a, b, t, EvalW(WRotma, a, b, t))
  {
    hide EvalW, FloorShr, S32, NegMod, Back;
    NegatedCount(b, 64);
    var q := FloorShr(S32(a), NegMod(b, 64));
    RotmaDivides(a, b, t);
    FloorShrInside(a, NegMod(b, 64));
    SignedWraps(q);
    hide Wrap32;
  }

  lemma FloorShrInside(a: word, s: nat)
    ensures -0x8000_0000 <= FloorShr(S32(a), s) < 0x8000_0000
  {
    FloorWithin(S32(a), Pow2(s), 0x8000_0000);
  }

  lemma FloorWithin(x: int, p: nat, m: int)
    requires p > 0 && -m <= x < m
    ensures -m <= x / p < m
  {
    var q := x / p;
    assert q * p <= x < q * p + p;
    if q >= 0 {
      MulMono(1, p, q);
    } else {
      MulMono(1, p, -q - 1);
      assert (-q - 1) * p == -(q * p) - p;
    }
  }

  lemma ComparisonsMean(a: word, b: word, t: word)
    ensures WordMeans(0x3C0, a, b, t, EvalW(WCeq, a, b, t)) && WordMeans(0x240, a, b, t, EvalW(WCgt, a, b, t))
    ensures WordMeans(0x2C0, a, b, t, EvalW(WClgt, a, b, t))
  {
  }

  lemma SignedProductsMean(a: word, b: word, t: word)
    ensures WordMeans(0x3C4, a, b, t, EvalW(WMpy, a, b, t)) && WordMeans(0x3C6, a, b, t, EvalW(WMpyhh, a, b, t))
    ensures WordMeans(0x3C7, a, b, t, EvalW(WMpys, a, b, t)) && WordMeans(0x3C5, a, b, t, EvalW(WMpyh, a, b, t))
  {
    ProductsExact(a, b, t);
    assert EvalW(WMpyh, a, b, t) == Wrap32(S16(Hi(a)) * S16(Lo(b)) * 0x1_0000);
    hide EvalW, S32, S16;
  }

  lemma UnsignedProductsMean(a: word, b: word, t: word)
    ensures WordMeans(0x3CC, a, b, t, EvalW(WMpyu, a, b, t)) && WordMeans(0x3CE, a, b, t, EvalW(WMpyhhu, a, b, t))
  {
    ProductsExact(a, b, t);
    hide EvalW, S32, S16;
  }

  lemma AccumulatingProductsMean(a: word, b: word, t: word)
    ensures WordMeans(0x346, a, b, t, EvalW(WMpyhha, a, b, t)) && WordMeans(0x34E, a, b, t, EvalW(WMpyhhau, a, b, t))
  {
    assert EvalW(WMpyhha, a, b, t) == Wrap32(t + S16(Hi(a)) * S16(Hi(b)));
    assert EvalW(WMpyhhau, a, b, t) == Wrap32(t + Times(Hi(a), Hi(b)));
    hide EvalW, S32, S16, Times;
  }

  lemma WordLogicMeans(a: word, b: word, t: word)
    ensures WordMeans(0x0C1, a, b, t, EvalW(WAnd, a, b, t)) && WordMeans(0x041, a, b, t, EvalW(WOr, a, b, t))
    ensures WordMeans(0x241, a, b, t, EvalW(WXor, a, b, t))
  {
    LogicFits(a, b, t);
    hide EvalW, And, Or, Xor, Bit;
    PlainLogic(32, a, b);
  }

  lemma {:induction false} PlainLogic(w: nat, a: nat, b: nat)
    ensures LogicMeans(0x0C1, w, a, b, And(a, b)) && LogicMeans(0x041, w, a, b, Or(a, b))
    ensures LogicMeans(0x241, w, a, b, Xor(a, b))
  {
    hide And, Or, Xor, Bit;
    forall k: nat
      ensures Bit(k, And(a, b)) <==> Bit(k, a) && Bit(k, b)
      ensures Bit(k, Or(a, b)) <==> Bit(k, a) || Bit(k, b)
      ensures Bit(k, Xor(a, b)) <==> Bit(k, a) != Bit(k, b)
    {
      BitAnd(k, a, b);
      BitOr(k, a, b);
      BitXor(k, a, b);
    }
  }

  /** The opcode under which the reference describes an operation; 0 for the constants. */
  function CodeW(op: WordOp): nat {
    match op
    case WAnd => 0x0C1
    case WOr => 0x041
    case WXor => 0x241
    case _ => OpcodeW(op)
  }

  lemma WordOpMeans(op: WordOp, a: word, b: word, t: word)
    requires CodeW(op) != 0
    ensures WordMeans(CodeW(op), a, b, t, EvalW(op, a, b, t))
  {
    hide EvalW, WordMeans;
    match op {
      case WAnd | WOr | WXor => WordLogicMeans(a, b, t);
      case WAdd | WAddx => SumsMean(a, b, t);
      case WCarry | WCgx => CarriesMean(a, b, t);
      case WSubFrom | WBorrow => DifferencesMean(a, b, t);
      case WSfx | WBgx => BorrowingDifferencesMean(a, b, t);
      case WClz => ClzMeans(a, b, t);
      case WXshw => XshwMeans(a, b, t);
      case WRot => RotMeans(a, b, t);
      case WRotm | WShl => RotmMeans(a, b, t);
      case WRotma => RotmaMeans(a, b, t);
      case WCeq | WCgt | WClgt => ComparisonsMean(a, b, t);
      case WMpy | WMpyhh | WMpys | WMpyh => SignedProductsMean(a, b, t);
      case WMpyu | WMpyhhu => UnsignedProductsMean(a, b, t);
      case WMpyhha | WMpyhhau => AccumulatingProductsMean(a, b, t);
    }
  }

  // ----- Halfword lanes -----

  lemma HalfSumsMean(a: half, b: half)
    ensures HalfMeans(0x0C8, a, b, EvalH(HAdd, a, b)) && HalfMeans(0x048, a, b, EvalH(HSubFrom, a, b))
    ensures HalfMeans(0x2B6, a, b, EvalH(HXsbh, a, b))
  {
    ModTurn(b, 0x1_0000, -((b - a) / 0x1_0000));
    assert EvalH(HSubFrom, a, b) == (b - a) % 0x1_0000;
    ExtensionKeepsValue(0, a);
    assert EvalH(HXsbh, a, b) == EvalH(HXsbh, a, 0);
    assert EvalH(HAdd, a, b) == (a + b) % 0x1_0000;
    hide EvalH, S16, S8;
  }

  lemma HalfRotateMeans(a: half, b: half)
    ensures HalfMeans(0x05C, a, b, EvalH(HRot, a, b))
  {
    var r := EvalH(HRot, a, b);
    forall k | 0 <= k < 16
      ensures Bit(k, r) <==> Bit((k - b) % 16, a)
    {
      RothMovesBits(k, a, b);
    }
    hide EvalH, Bit;
  }

  lemma HalfShiftsMean(a: half, b: half)
    ensures HalfMeans(0x05D, a, b, EvalH(HRotm, a, b)) && HalfMeans(0x05F, a, b, EvalH(HShl, a, b))
    ensures HalfMeans(0x05E, a, b, EvalH(HRotma, a, b))
  {
    hide EvalH, Low, Shl, Shr, FloorShr, S16, NegMod, Back;
    NegatedCount(b, 32);
    var q := FloorShr(S16(a), NegMod(b, 32));
    HalfShifts(a, b);
    HalfFloorInside(a, NegMod(b, 32));
    SignedHalfWraps(q);
    hide Wrap16;
  }

  lemma HalfFloorInside(a: half, s: nat)
    ensures -0x8000 <= FloorShr(S16(a), s) < 0x8000
  {
    FloorWithin(S16(a), Pow2(s), 0x8000);
  }

  lemma SignedHalfWraps(z: int)
    requires -0x8000 <= z < 0x8000
    ensures S16(Wrap16(z)) == z
  {
  }

  lemma HalfComparisonsMean(a: half, b: half)
    ensures HalfMeans(0x3C8, a, b, EvalH(HCeq, a, b)) && HalfMeans(0x248, a, b, EvalH(HCgt, a, b))
    ensures HalfMeans(0x2C8, a, b, EvalH(HClgt, a, b))
  {
  }

  lemma HalfLogicMeans(a: half, b: half)
    ensures HalfMeans(0x0C1, a, b, EvalH(HAnd, a, b)) && HalfMeans(0x041, a, b, EvalH(HOr, a, b))
    ensures HalfMeans(0x241, a, b, EvalH(HXor, a, b))
  {
    HalfLogicFits(a, b);
    hide EvalH, And, Or, Xor, Bit;
    PlainLogic(16, a, b);
  }

  function CodeH(op: HalfOp): nat {
    match op
    case HAnd => 0x0C1
    case HOr => 0x041
    case HXor => 0x241
    case _ => OpcodeH(op)
  }

  lemma HalfOpMeans(op: HalfOp, a: half, b: half)
    requires CodeH(op) != 0
    ensures HalfMeans(CodeH(op), a, b, EvalH(op, a, b))
  {
    hide EvalH, HalfMeans;
    match op {
      case HAnd | HOr | HXor => HalfLogicMeans(a, b);
      case HAdd | HSubFrom | HXsbh => HalfSumsMean(a, b);
      case HRot => HalfRotateMeans(a, b);
      case HRotm | HShl | HRotma => HalfShiftsMean(a, b);
      case HCeq | HCgt | HClgt => HalfComparisonsMean(a, b);
    }
  }

  // ----- Byte lanes -----

  lemma ByteSumsMean(a: byte, b: byte)
    ensures ByteMeans(0x053, a, b, EvalB(BAbsdb, a, b, 0)) && ByteMeans(0x0D3, a, b, EvalB(BAvgb, a, b, 0))
    ensures ByteMeans(0x2B4, a, b, EvalB(BCntb, a, b, 0))
  {
    CntbCounts(a, b, 0);
    hide OneBits, PopCount;
  }

  lemma ByteComparisonsMean(a: byte, b: byte)
    ensures ByteMeans(0x3D0, a, b, EvalB(BCeq, a, b, 0)) && ByteMeans(0x250, a, b, EvalB(BCgt, a, b, 0))
    ensures ByteMeans(0x2D0, a, b, EvalB(BClgt, a, b, 0))
  {
  }

  lemma ByteLogicMeans(a: byte, b: byte)
    ensures ByteMeans(0x0C1, a, b, EvalB(BAnd, a, b, 0)) && ByteMeans(0x041, a, b, EvalB(BOr, a, b, 0))
    ensures ByteMeans(0x241, a, b, EvalB(BXor, a, b, 0))
  {
    ByteLogicFits(a, b);
    hide EvalB, And, Or, Xor, Bit;
    PlainLogic(8, a, b);
  }

  lemma ByteComplementsMean(a: byte, b: byte)
    ensures ByteMeans(0x0C9, a, b, EvalB(BNand, a, b, 0)) && ByteMeans(0x049, a, b, EvalB(BNor, a, b, 0))
    ensures ByteMeans(0x2C1, a, b, EvalB(BAndc, a, b, 0)) && ByteMeans(0x2C9, a, b, EvalB(BOrc, a, b, 0))
    ensures ByteMeans(0x249, a, b, EvalB(BEqv, a, b, 0))
  {
    hide EvalB, Bit;
    forall k: nat | k < 8
      ensures Bit(k, EvalB(BNand, a, b, 0)) <==> !(Bit(k, a) && Bit(k, b))
      ensures Bit(k, EvalB(BNor, a, b, 0)) <==> !(Bit(k, a) || Bit(k, b))
      ensures Bit(k, EvalB(BAndc, a, b, 0)) <==> Bit(k, a) && !Bit(k, b)
      ensures Bit(k, EvalB(BOrc, a, b, 0)) <==> Bit(k, a) || !Bit(k, b)
      ensures Bit(k, EvalB(BEqv, a, b, 0)) <==> (Bit(k, a) == Bit(k, b))
    {
      ComplementsBits(k, a, b);
    }
  }

  lemma ByteOpMeans(op: ByteOp, a: byte, b: byte)
    requires OpcodeB(op) != 0
    ensures ByteMeans(OpcodeB(op), a, b, EvalB(op, a, b, 0))
  {
    hide EvalB, ByteMeans;
    match op {
      case BAbsdb | BAvgb | BCntb => ByteSumsMean(a, b);
      case BAnd | BOr | BXor => ByteLogicMeans(a, b);
      case BNand | BNor | BAndc | BOrc | BEqv => ByteComplementsMean(a, b);
      case BCeq | BCgt | BClgt => ByteComparisonsMean(a, b);
    }
  }

  // ----- Quadwords -----

  lemma {:induction false} BitShiftsMean(q: Quad, n: word)
    ensures QuadMeans(0x1D8, Val(q), n, Val(ShiftQ(RotBit, q, n)))
    ensures QuadMeans(0x1D9, Val(q), n, Val(ShiftQ(ShrBit, q, n)))
    ensures QuadMeans(0x1DB, Val(q), n, Val(ShiftQ(ShlBit, q, n)))
  {
    hide Val, Pow2, Wide.RotL, Shifts.RotBits, Shifts.ShrBits, Shifts.ShlBits, NegMod, Back;
    NegatedCount(n, 8);
    Wide.RotBitsVal(q, n % 8);
    Wide.ShrBitsVal(q, NegMod(n, 8));
    Wide.ShlBitsVal(q, n % 8);
  }

  lemma {:induction false} ByteShiftsMean(q: Quad, n: word)
    ensures QuadMeans(0x1DC, Val(q), n, Val(ShiftQ(RotByte, q, n)))
    ensures QuadMeans(0x1DD, Val(q), n, Val(ShiftQ(ShrByte, q, n)))
    ensures QuadMeans(0x1DF, Val(q), n, Val(ShiftQ(ShlByte, q, n)))
  {
    hide Val, Pow2, Pow256, Wide.RotL, Shifts.RotBytes, Shifts.ShrBytes, Shifts.ShlBytes, NegMod, Back;
    NegatedCount(n, 32);
    BytesMean(q, n % 16, NegMod(n, 32), n % 32);
  }

  /** Shifts and rotates by whole bytes, in bits. */
  lemma {:induction false} BytesMean(q: Quad, r: nat, d: nat, u: nat)
    requires r < 16 && d < 32
    ensures Val(Shifts.RotBytes(q, r)) == Wide.RotL(Val(q), Pow2(8 * r), TWO128)
    ensures Val(Shifts.ShrBytes(q, d)) == Shr(Val(q), 8 * d)
    ensures Val(Shifts.ShlBytes(q, u)) == Shl(Val(q), 8 * u) % TWO128
  {
    hide Val, Pow2, Pow256, Wide.RotL, Shifts.RotBytes, Shifts.ShrBytes, Shifts.ShlBytes;
    Wide.RotBytesVal(q, r);
    Wide.ShrBytesVal(q, d);
    Wide.ShlBytesVal(q, u);
    Pow256IsPow2(r);
    Pow256IsPow2(d);
    Pow256IsPow2(u);
    ShlIsTimes(Val(q), 8 * u);
  }

  lemma {:induction false} ByteCountsMean(q: Quad, n: word)
    ensures QuadMeans(0x1CC, Val(q), n, Val(ShiftQ(RotByteBit, q, n)))
    ensures QuadMeans(0x1CD, Val(q), n, Val(ShiftQ(ShrByteBit, q, n)))
    ensures QuadMeans(0x1CF, Val(q), n, Val(ShiftQ(ShlByteBit, q, n)))
  {
    hide Val, Pow2, Pow256, Wide.RotL, Shifts.RotBytes, Shifts.ShrBytes, Shifts.ShlBytes, NegMod, Back;
    NegatedCount(n / 8, 32);
    BytesMean(q, n / 8 % 16, NegMod(n / 8, 32), n / 8 % 32);
  }

  lemma {:induction false} QuadOpMeans(op: QuadOp, q: Quad, n: word)
    ensures QuadMeans(OpcodeQ(op, false), Val(q), n, Val(ShiftQ(op, q, n)))
  {
    hide Val, ShiftQ, QuadMeans;
    match op {
      case RotBit | ShrBit | ShlBit => BitShiftsMean(q, n);
      case RotByte | ShrByte | ShlByte => ByteShiftsMean(q, n);
      case RotByteBit | ShrByteBit | ShlByteBit => ByteCountsMean(q, n);
    }
  }
}
