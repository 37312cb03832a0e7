/** Every instruction that computes a whole register does what the reference says of its word. */
module SpuIsaQuads {
  import opened Bits
  import opened Quad
  import opened Lanes
  import opened LaneMeanings
  import opened Spu
  import opened SpuCode
  import opened SpuDecode
  import opened SpuFetch
  import opened SpuIsaLanes
  import opened SpuMeanings
  import opened SpuReference

  // ----- Results -----

  lemma SelectQMeans(a: Quad, b: Quad, c: Quad)
    ensures SelectMeans(a, b, c, SelectQ(a, b, c))
  {
    hide EvalB, Bit;
    var r := SelectQ(a, b, c);
    forall i, k: nat | 0 <= i < 16 && k < 8
      ensures Bit(k, r[i]) <==> if Bit(k, c[i]) then Bit(k, b[i]) else Bit(k, a[i])
    {
      SelectsBits(k, a[i], b[i], c[i]);
    }
  }

  lemma ShuffleQMeans(a: Quad, b: Quad, c: Quad)
    ensures ShuffleMeans(a, b, c, ShuffleQ(a, b, c))
  {
    hide ShuffleByte, ShuffledByte;
    forall i | 0 <= i < 16
      ensures ShuffledByte(a, b, c[i], ShuffleQ(a, b, c)[i])
    {
      ShuffleByteMeans(a, b, c[i]);
    }
  }

  lemma ShuffleByteMeans(a: Quad, b: Quad, sel: byte)
    ensures ShuffledByte(a, b, sel, ShuffleByte(a, b, sel))
  {
  }

  lemma WordsEach(ws: seq<word>, i: nat)
    requires |ws| == 4 && i < 4
    ensures GetW(OfWords(ws), i) == ws[i]
  {
    hide GetW, OfWords;
    WordsOfWords(ws);
    assert Words(OfWords(ws))[i] == ws[i];
  }

  lemma HalvesEach(hs: seq<half>, i: nat)
    requires |hs| == 8 && i < 8
    ensures GetH(OfHalves(hs), i) == hs[i]
  {
    hide *;
    HalvesOfHalves(hs);
    HalvesAt(OfHalves(hs), i);
  }

  lemma MultiplyAddQMeans(a: Quad, b: Quad, c: Quad)
    ensures MultiplyAddMeans(a, b, c, MultiplyAddQ(a, b, c))
  {
    hide EvalW, GetW, S16, MultiplyAddQ;
    forall i | 0 <= i < 4
      ensures GetW(MultiplyAddQ(a, b, c), i) ==
        (S16(GetW(a, i) % 0x1_0000) * S16(GetW(b, i) % 0x1_0000) + GetW(c, i)) % TWO32
    {
      MultiplyAddLane(a, b, c, i);
      MpyaMeans(GetW(a, i), GetW(b, i), GetW(c, i));
    }
  }

  lemma MultiplyAddLane(a: Quad, b: Quad, c: Quad, i: nat)
    requires i < 4
    ensures GetW(MultiplyAddQ(a, b, c), i) == EvalW(WMpya, GetW(a, i), GetW(b, i), GetW(c, i))
  {
    hide EvalW, GetW, OfWords;
    WordsEach([EvalW(WMpya, GetW(a, 0), GetW(b, 0), GetW(c, 0)), EvalW(WMpya, GetW(a, 1), GetW(b, 1), GetW(c, 1)),
               EvalW(WMpya, GetW(a, 2), GetW(b, 2), GetW(c, 2)), EvalW(WMpya, GetW(a, 3), GetW(b, 3), GetW(c, 3))], i);
  }

  lemma MpyaMeans(a: word, b: word, t: word)
    ensures EvalW(WMpya, a, b, t) == (S16(a % 0x1_0000) * S16(b % 0x1_0000) + t) % TWO32
  {
    var p := S16(Lo(a)) * S16(Lo(b));
    assert EvalW(WMpya, a, b, t) == Wrap32(p + S32(t));
    hide EvalW, S16, S32;
    WrapSum(p, t);
  }

  lemma FormMaskQMeans(n: nat, m: word)
    requires LaneCount(n)
    ensures FormMaskMeans(n, m, FormMaskQ(n, m))
  {
    hide Bit;
    forall k | 0 <= k < 16
      ensures Says(FormMaskQ(n, m)[k], 0xFF, MaskBit(n, m, k))
    {
      LaneOfByte(n, k);
    }
  }

  lemma LaneOfByte(n: nat, k: nat)
    requires LaneCount(n) && k < 16
    ensures k / LaneBytes(n) == k * n / 16 < n
  {
    if n == 4 { } else if n == 8 { } else { }
  }

  lemma {:induction false} GatherQMeans(n: nat, a: Quad)
    requires LaneCount(n)
    ensures GatherMeans(n, a, Preferred(Wrap32(GatherBits(n, a, n))))
  {
    hide GetW, Bit, GatherBits, Preferred, Wrap32, LaneLsb, OddLane;
    GatheredSmall(n, a);
    PreferredWords(GatherBits(n, a, n));
    forall k: nat | k < 32
      ensures Bit(k, GatherBits(n, a, n)) <==> k < n && OddLane(n, a, n - 1 - k)
    {
      GatheredBit(n, a, n, k);
      if k < n { LastBytes(n, a, n - 1 - k); }
    }
  }

  lemma LastBytes(n: nat, a: Quad, i: nat)
    requires LaneCount(n) && i < n
    ensures LaneLsb(n, a, i) == 1 <==> OddLane(n, a, i)
  {
  }

  lemma PreferredWords(v: word)
    ensures GetW(Preferred(v), 0) == v
    ensures GetW(Preferred(v), 1) == 0 && GetW(Preferred(v), 2) == 0 && GetW(Preferred(v), 3) == 0
  {
    hide GetW, SetW;
    GetSetW(Zeros(16), 0, v, 0);
    GetSetW(Zeros(16), 0, v, 1);
    GetSetW(Zeros(16), 0, v, 2);
    GetSetW(Zeros(16), 0, v, 3);
    ZeroWord(1);
    ZeroWord(2);
    ZeroWord(3);
  }

  lemma ZeroWord(i: nat)
    requires i < 4
    ensures GetW(Zeros(16), i) == 0
  {
  }

  lemma {:induction false} GatheredSmall(n: nat, a: Quad)
    requires LaneCount(n)
    ensures GatherBits(n, a, n) < TWO32 && Wrap32(GatherBits(n, a, n)) == GatherBits(n, a, n)
  {
    GatherBitsBound(n, a, n);
    Pow2Mono(n, 32);
    Word32();
    hide GatherBits, Pow2;
  }

  lemma {:induction false} GatheredBit(n: nat, a: Quad, i: nat, k: nat)
    requires LaneCount(n) && i <= n
    ensures Bit(k, GatherBits(n, a, i)) <==> k < i && LaneLsb(n, a, i - 1 - k) == 1
    decreases i
  {
    hide LaneLsb;
    if i == 0 {
      BitOfZero(k);
    } else {
      var g, b := GatherBits(n, a, i - 1), LaneLsb(n, a, i - 1);
      DivUnique(2 * g + b, 2, g, b);
      if k > 0 { GatheredBit(n, a, i - 1, k - 1); }
    }
  }

  lemma OrAcrossQMeans(a: Quad)
    ensures OrAcrossMeans(a, OrAcrossQ(a))
  {
    hide GetW, Bit, Or, Preferred, Wrap32;
    var x := Or(Or(GetW(a, 0), GetW(a, 1)), GetW(a, 2));
    PreferredWords(Wrap32(Or(x, GetW(a, 3))));
    forall k: nat | k < 32
      ensures Bit(k, Wrap32(Or(x, GetW(a, 3)))) <==>
        Bit(k, GetW(a, 0)) || Bit(k, GetW(a, 1)) || Bit(k, GetW(a, 2)) || Bit(k, GetW(a, 3))
    {
      BitWrapped(k, Or(x, GetW(a, 3)));
      BitOr(k, x, GetW(a, 3));
      BitOr(k, Or(GetW(a, 0), GetW(a, 1)), GetW(a, 2));
      BitOr(k, GetW(a, 0), GetW(a, 1));
    }
  }

  lemma {:induction false} BitWrapped(k: nat, x: nat)
    requires k < 32
    ensures Bit(k, Wrap32(x)) <==> Bit(k, x)
  {
    Word32();
    hide Pow2, Bit;
    BitMod(k, x, 32);
  }

  lemma SumBytesQMeans(a: Quad, b: Quad)
    ensures SumBytesMean(a, b, SumBytesQ(a, b))
  {
    hide GetH, SumBytesQ;
    forall i | 0 <= i < 4
      ensures GetH(SumBytesQ(a, b), 2 * i) == ByteSum(b, i) && GetH(SumBytesQ(a, b), 2 * i + 1) == ByteSum(a, i)
    {
      SumLanes(a, b, i);
    }
  }

  lemma SumLanes(a: Quad, b: Quad, i: nat)
    requires i < 4
    ensures GetH(SumBytesQ(a, b), 2 * i) == ByteSum(b, i) && GetH(SumBytesQ(a, b), 2 * i + 1) == ByteSum(a, i)
  {
    hide GetH, OfHalves, ByteSum;
    var hs := [ByteSum(b, 0), ByteSum(a, 0), ByteSum(b, 1), ByteSum(a, 1),
               ByteSum(b, 2), ByteSum(a, 2), ByteSum(b, 3), ByteSum(a, 3)];
    HalvesEach(hs, 2 * i);
    HalvesEach(hs, 2 * i + 1);
  }

  lemma ExtendQMeans(a: Quad)
    ensures ExtendMeans(a, ExtendQ(a))
  {
    hide GetW, OfWords, S32;
    var ws := [Mask32(S32(GetW(a, 1)) < 0), GetW(a, 1), Mask32(S32(GetW(a, 3)) < 0), GetW(a, 3)];
    WordsEach(ws, 0);
    WordsEach(ws, 1);
    WordsEach(ws, 2);
    WordsEach(ws, 3);
  }

  lemma ControlsQMean(pos: nat, size: nat)
    requires ControlSize(size)
    ensures ControlsMean(size, pos % 16, ControlsQ(pos, size))
  {
    forall k: nat | k < 16
      ensures ControlsQ(pos, size)[k] == if k / size == pos % 16 / size then k % size else 0x10 + k
    {
      ControlByte(pos % 16, size, k);
    }
  }

  lemma ControlByte(at: nat, size: nat, k: nat)
    requires ControlSize(size) && at < 16 && k < 16
    ensures at / size * size <= k < at / size * size + size <==> k / size == at / size
    ensures k / size == at / size ==> k - at / size * size == k % size
  {
    if size == 1 { } else if size == 2 { } else if size == 4 { } else { }
  }

  lemma WrappedSixteenth(x: nat)
    ensures Wrap32(x) % 16 == x % 16
  {
    ModTurn(x, 16, -(x / TWO32 * 0x1000_0000));
  }

  // ----- Decoding -----

  lemma QuadInverse(c: nat)
    ensures QuadReg(c).Some? ==> c < 0x400 && OpcodeQ(QuadReg(c).op, false) == c != 0
    ensures QuadImm(c).Some? ==>
      (c < 0x400 && OpcodeQ(QuadImm(c).op, true) == c && OpcodeQ(QuadImm(c).op, false) == c - 0x20 != 0)
  {
  }

  predicate QuadCountOpcode(c: nat) {
    c in {0x1D8, 0x1D9, 0x1DB, 0x1DC, 0x1DD, 0x1DF, 0x1CC, 0x1CD, 0x1CF}
  }

  predicate QuadImmediateOpcode(c: nat) {
    c in {0x1F8, 0x1F9, 0x1FB, 0x1FC, 0x1FD, 0x1FF}
  }

  lemma QuadsKnown(c: nat)
    ensures QuadCountOpcode(c) ==> QuadReg(c).Some?
    ensures QuadImmediateOpcode(c) ==> QuadImm(c).Some?
  {
  }

  lemma DecodedRRR(w: word)
    requires w / 0x1000_0000 in {0x8, 0xB, 0xC}
    ensures var rt, ra, rb, rc := FieldRc(w), FieldRa(w), FieldRb(w), FieldRt(w);
      Decode(w) == if w / 0x1000_0000 == 0x8 then Select(rt, ra, rb, rc)
                   else if w / 0x1000_0000 == 0xB then Shuffle(rt, ra, rb, rc)
                   else MultiplyAdd(rt, ra, rb, rc)
  {
  }

  lemma DecodedIla(w: word)
    requires w / 0x200_0000 == 0x21
    ensures Decode(w) == WordLanes(WCopy, FieldRt(w), 0, Immediate(FieldI18(w)))
  {
    hide DecodeRRR, DecodeRI16, DecodeRI10, DecodeRR;
  }

  lemma DecodedConstant(w: word)
    requires w / 0x80_0000 in {0x081, 0x082, 0x083, 0x0C1, 0x065}
    ensures var c, rt, u := w / 0x80_0000, FieldRt(w), FieldI16U(w);
      Decode(w) == if c == 0x081 then WordLanes(WCopy, rt, 0, Immediate(SignExtend(u, 0x1_0000)))
                   else if c == 0x082 then WordLanes(WCopy, rt, 0, Immediate(u * 0x1_0000))
                   else if c == 0x083 then HalfLanes(HCopy, rt, 0, Immediate(u))
                   else if c == 0x0C1 then WordLanes(WOrInto, rt, 0, Immediate(u))
                   else FormMask(16, rt, Immediate(u))
  {
    hide Decode, SignExtend;
    DecodesRI16(w);
  }

  lemma DecodedMasks(w: word)
    ensures 0x1B4 <= w / 0x20_0000 <= 0x1B6 ==>
      Decode(w) == FormMask([4, 8, 16][w / 0x20_0000 - 0x1B4], FieldRt(w), FromReg(FieldRa(w)))
    ensures 0x1B0 <= w / 0x20_0000 <= 0x1B2 ==>
      Decode(w) == Gather([4, 8, 16][w / 0x20_0000 - 0x1B0], FieldRt(w), FieldRa(w))
  {
    hide Decode, SignExtend, DecodeControl;
    if 0x1B4 <= w / 0x20_0000 <= 0x1B6 || 0x1B0 <= w / 0x20_0000 <= 0x1B2 { DecodesMisc(w); }
  }

  lemma DecodedAcross(w: word)
    requires w / 0x20_0000 in {0x1F0, 0x253, 0x2A6}
    ensures var c, rt, ra := w / 0x20_0000, FieldRt(w), FieldRa(w);
      Decode(w) == if c == 0x1F0 then OrAcross(rt, ra)
                   else if c == 0x253 then SumBytes(rt, ra, FieldRb(w))
                   else ExtendWords(rt, ra)
  {
    hide Decode, SignExtend, DecodeControl;
    DecodesMisc(w);
  }

  predicate ControlsOpcode(c: nat) {
    0x1F4 <= c <= 0x1F7 || 0x1D4 <= c <= 0x1D7
  }

  function ControlsOperand(w: word): Operand {
    if w / 0x20_0000 >= 0x1F4 then Immediate(SignExtend(FieldI7(w), 0x80)) else FromReg(FieldRb(w))
  }

  lemma DecodedControls(w: word)
    requires ControlsOpcode(w / 0x20_0000)
    ensures Decode(w) == Controls([1, 2, 4, 8][w / 0x20_0000 % 4], FieldRt(w), FieldRa(w), ControlsOperand(w))
  {
    hide Decode, SignExtend, DecodeControl;
    DecodesMisc(w);
  }

  lemma DecodedClears(w: word)
    requires w / 0x20_0000 in {0x00C, 0x398, 0x3D4}
    ensures Decode(w) == if w / 0x20_0000 == 0x3D4 then Copy(FieldRt(w), FieldRb(w)) else Clear(FieldRt(w))
  {
    hide Decode, SignExtend, FloatOp;
    if w / 0x20_0000 == 0x398 { DecodesSpare(w); } else { DecodesMisc(w); }
  }

  // ----- Quadword shifts and rotates -----

  lemma QuadStep(h: Host, s: State, w: word, op: QuadOp, rt: Reg, ra: Reg, b: Operand)
    requires Fetches(s, w) && Decode(w) == ShiftQuad(op, rt, ra, b)
    ensures var s' := Step(h, s);
      OnlyRegister(s, s', rt) &&
      QuadMeans(OpcodeQ(op, false), Val(s.gpr[ra]), OperandW(s.gpr, b, 0), Val(s'.gpr[rt]))
  {
    hide Decode, Step, Val, ShiftQ, OpcodeQ, OperandW, QuadMeans, Fetches, OnlyRegister;
    StepComputes(h, s, w);
    QuadOpMeans(op, s.gpr[ra], OperandW(s.gpr, b, 0));
  }

  /** `rotqby`, `shlqbi`, ... by a count in a register. */
  lemma QuadInstructions(h: Host, s: State, w: word)
    requires Fetches(s, w) && QuadCountOpcode(w / 0x20_0000)
    ensures var s', rt := Step(h, s), FieldRt(w);
      OnlyRegister(s, s', rt) &&
      QuadMeans(w / 0x20_0000, Val(s.gpr[FieldRa(w)]), GetW(s.gpr[FieldRb(w)], 0), Val(s'.gpr[rt]))
  {
    hide Decode, Step, Val, GetW, EncodeRR, QuadReg, QuadImm, OpcodeQ, QuadMeans, Fetches, OnlyRegister;
    hide QuadCountOpcode;
    var c := w / 0x20_0000;
    QuadsKnown(c);
    QuadInverse(c);
    SplitRR(w);
    var i := ShiftQuad(QuadReg(c).op, FieldRt(w), FieldRa(w), FromReg(FieldRb(w)));
    DecodeQ(i.qop, i.rt, i.ra, i.b);
    assert Assemble(i) == w;
    QuadStep(h, s, w, i.qop, i.rt, i.ra, i.b);
  }

  /** `rotqbyi`, `shlqbii`, ... by a constant. */
  lemma QuadImmediateInstructions(h: Host, s: State, w: word)
    requires Fetches(s, w) && QuadImmediateOpcode(w / 0x20_0000)
    ensures var s', rt := Step(h, s), FieldRt(w);
      OnlyRegister(s, s', rt) &&
      QuadMeans(w / 0x20_0000 - 0x20, Val(s.gpr[FieldRa(w)]), FieldI7(w), Val(s'.gpr[rt]))
  {
    hide Decode, Step, Val, EncodeRR, QuadReg, QuadImm, OpcodeQ, QuadMeans, Fetches, OnlyRegister, QuadImmediateOpcode;
    var c := w / 0x20_0000;
    QuadsKnown(c);
    QuadInverse(c);
    SplitRR(w);
    var i := ShiftQuad(QuadImm(c).op, FieldRt(w), FieldRa(w), Immediate(FieldI7(w)));
    DecodeQ(i.qop, i.rt, i.ra, i.b);
    assert Assemble(i) == w;
    QuadStep(h, s, w, i.qop, i.rt, i.ra, i.b);
  }

  // ----- Three sources: the target is the high field, RC the low one -----

  lemma SelectInstruction(h: Host, s: State, w: word)
    requires Fetches(s, w) && w / 0x1000_0000 == 0x8
    ensures OnlyRegister(s, Step(h, s), FieldRc(w))
    ensures SelectMeans(s.gpr[FieldRa(w)], s.gpr[FieldRb(w)], s.gpr[FieldRt(w)], Step(h, s).gpr[FieldRc(w)])
  {
    hide Decode, Step, Fetches, OnlyRegister, SelectQ, SelectMeans;
    DecodedRRR(w);
    StepComputes(h, s, w);
    SelectQMeans(s.gpr[FieldRa(w)], s.gpr[FieldRb(w)], s.gpr[FieldRt(w)]);
  }

  lemma ShuffleInstruction(h: Host, s: State, w: word)
    requires Fetches(s, w) && w / 0x1000_0000 == 0xB
    ensures OnlyRegister(s, Step(h, s), FieldRc(w))
    ensures ShuffleMeans(s.gpr[FieldRa(w)], s.gpr[FieldRb(w)], s.gpr[FieldRt(w)], Step(h, s).gpr[FieldRc(w)])
  {
    hide Decode, Step, Fetches, OnlyRegister, ShuffleQ, ShuffleMeans;
    DecodedRRR(w);
    StepComputes(h, s, w);
    ShuffleQMeans(s.gpr[FieldRa(w)], s.gpr[FieldRb(w)], s.gpr[FieldRt(w)]);
  }

  lemma MultiplyAddInstruction(h: Host, s: State, w: word)
    requires Fetches(s, w) && w / 0x1000_0000 == 0xC
    ensures OnlyRegister(s, Step(h, s), FieldRc(w))
    ensures MultiplyAddMeans(s.gpr[FieldRa(w)], s.gpr[FieldRb(w)], s.gpr[FieldRt(w)], Step(h, s).gpr[FieldRc(w)])
  {
    hide Decode, Step, Fetches, OnlyRegister, MultiplyAddQ, MultiplyAddMeans;
    DecodedRRR(w);
    StepComputes(h, s, w);
    MultiplyAddQMeans(s.gpr[FieldRa(w)], s.gpr[FieldRb(w)], s.gpr[FieldRt(w)]);
  }

  // ----- Constants -----

  /** `ila` */
  lemma LoadAddressInstruction(h: Host, s: State, w: word)
    requires Fetches(s, w) && w / 0x200_0000 == 0x21
    ensures OnlyRegister(s, Step(h, s), FieldRt(w))
    ensures forall i: nat :: i < 4 ==> GetW(Step(h, s).gpr[FieldRt(w)], i) == w / 0x80 % 0x4_0000
  {
    hide Decode, Step, Fetches, GetW, OnlyRegister;
    DecodedIla(w);
    CopyStep(h, s, w, FieldRt(w), FieldI18(w));
  }

  /** All four words of RT become `v`. */
  lemma CopyStep(h: Host, s: State, w: word, rt: Reg, v: word)
    requires Fetches(s, w) && Decode(w) == WordLanes(WCopy, rt, 0, Immediate(v))
    ensures OnlyRegister(s, Step(h, s), rt) && forall i: nat :: i < 4 ==> GetW(Step(h, s).gpr[rt], i) == v
  {
    hide Decode, Step, Fetches, OnlyRegister, GetW, Compute;
    StepComputes(h, s, w);
    forall i: nat | i < 4
      ensures GetW(Compute(WordLanes(WCopy, rt, 0, Immediate(v)), s.gpr), i) == v
    {
      WordLane(WCopy, s.gpr, rt, 0, Immediate(v), i);
    }
  }

  /** `il`, `ilhu`, `ilh`, `iohl` and `fsmbi`. */
  lemma ConstantInstructions(h: Host, s: State, w: word)
    requires Fetches(s, w) && w / 0x80_0000 in {0x081, 0x082, 0x083, 0x0C1, 0x065}
    ensures OnlyRegister(s, Step(h, s), FieldRt(w))
    ensures ConstantMeans(w / 0x80_0000, FieldI16U(w), s.gpr[FieldRt(w)], Step(h, s).gpr[FieldRt(w)])
  {
    hide Decode, Step, Fetches, OnlyRegister, GetW, GetH, SignExtend, LogicMeans, FormMaskMeans, S32, S16;
    var c, rt, u := w / 0x80_0000, FieldRt(w), FieldI16U(w);
    DecodedConstant(w);
    if c == 0x081 {
      ExtendedSign(u);
      CopyStep(h, s, w, rt, SignExtend(u, 0x1_0000));
    } else if c == 0x082 {
      CopyStep(h, s, w, rt, u * 0x1_0000);
    } else {
      StepComputes(h, s, w);
      ConstantComputed(c, rt, u, s.gpr);
    }
  }

  lemma ExtendedSign(u: half)
    ensures S32(SignExtend(u, 0x1_0000)) == S16(u % 0x1_0000)
  {
  }

  lemma ConstantComputed(c: nat, rt: Reg, u: half, g: RegFile)
    requires c in {0x083, 0x0C1, 0x065}
    ensures ConstantMeans(c, u, g[rt],
      Compute(if c == 0x083 then HalfLanes(HCopy, rt, 0, Immediate(u))
              else if c == 0x0C1 then WordLanes(WOrInto, rt, 0, Immediate(u))
              else FormMask(16, rt, Immediate(u)), g))
  {
    hide Compute, GetW, GetH, LogicMeans, FormMaskMeans, EvalW;
    if c == 0x083 {
      forall i | 0 <= i < 8
        ensures GetH(Compute(HalfLanes(HCopy, rt, 0, Immediate(u)), g), i) == u
      {
        HalfLane(HCopy, g, rt, 0, Immediate(u), i);
      }
    } else if c == 0x0C1 {
      forall i | 0 <= i < 4
        ensures LogicMeans(0x041, 32, GetW(g[rt], i), u, GetW(Compute(WordLanes(WOrInto, rt, 0, Immediate(u)), g), i))
      {
        WordLane(WOrInto, g, rt, 0, Immediate(u), i);
        LogicFits(GetW(g[0], i), u, GetW(g[rt], i));
        PlainLogic(32, GetW(g[rt], i), u);
      }
    } else {
      MaskComputed(16, rt, Immediate(u), g);
    }
  }

  lemma MaskComputed(n: nat, rt: Reg, b: Operand, g: RegFile)
    requires LaneCount(n)
    ensures FormMaskMeans(n, OperandW(g, b, 0), Compute(FormMask(n, rt, b), g))
  {
    hide FormMaskMeans, FormMaskQ, OperandW;
    FormMaskQMeans(n, OperandW(g, b, 0));
  }

  // ----- Masks and gathering -----

  lemma FormMaskInstructions(h: Host, s: State, w: word)
    requires Fetches(s, w) && 0x1B4 <= w / 0x20_0000 <= 0x1B6
    ensures OnlyRegister(s, Step(h, s), FieldRt(w))
    ensures FormMaskMeans([4, 8, 16][w / 0x20_0000 - 0x1B4], GetW(s.gpr[FieldRa(w)], 0), Step(h, s).gpr[FieldRt(w)])
  {
    hide Decode, Step, Fetches, OnlyRegister, Compute, FormMaskMeans, GetW;
    DecodedMasks(w);
    StepComputes(h, s, w);
    MaskComputed([4, 8, 16][w / 0x20_0000 - 0x1B4], FieldRt(w), FromReg(FieldRa(w)), s.gpr);
  }

  lemma GatherInstructions(h: Host, s: State, w: word)
    requires Fetches(s, w) && 0x1B0 <= w / 0x20_0000 <= 0x1B2
    ensures OnlyRegister(s, Step(h, s), FieldRt(w))
    ensures GatherMeans([4, 8, 16][w / 0x20_0000 - 0x1B0], s.gpr[FieldRa(w)], Step(h, s).gpr[FieldRt(w)])
  {
    hide Decode, Step, Fetches, OnlyRegister, GatherBits, Preferred, GatherMeans;
    DecodedMasks(w);
    StepComputes(h, s, w);
    GatherQMeans([4, 8, 16][w / 0x20_0000 - 0x1B0], s.gpr[FieldRa(w)]);
  }

  // ----- Across the register -----

  /** `orx`, `sumb` and `xswd` */
  lemma AcrossInstructions(h: Host, s: State, w: word)
    requires Fetches(s, w) && w / 0x20_0000 in {0x1F0, 0x253, 0x2A6}
    ensures OnlyRegister(s, Step(h, s), FieldRt(w))
    ensures var c, a, r := w / 0x20_0000, s.gpr[FieldRa(w)], Step(h, s).gpr[FieldRt(w)];
      if c == 0x1F0 then OrAcrossMeans(a, r)
      else if c == 0x253 then SumBytesMean(a, s.gpr[FieldRb(w)], r)
      else ExtendMeans(a, r)
  {
    hide Decode, Step, Fetches, OnlyRegister, OrAcrossQ, SumBytesQ, ExtendQ, OrAcrossMeans, SumBytesMean, ExtendMeans;
    DecodedAcross(w);
    StepComputes(h, s, w);
    OrAcrossQMeans(s.gpr[FieldRa(w)]);
    SumBytesQMeans(s.gpr[FieldRa(w)], s.gpr[FieldRb(w)]);
    ExtendQMeans(s.gpr[FieldRa(w)]);
  }

  /** `cbd`, `chd`, `cwd`, `cdd` and their indexed forms. */
  lemma ControlsInstructions(h: Host, s: State, w: word)
    requires Fetches(s, w) && ControlsOpcode(w / 0x20_0000)
    ensures OnlyRegister(s, Step(h, s), FieldRt(w))
    ensures var c, base := w / 0x20_0000, GetW(s.gpr[FieldRa(w)], 0);
      var offset := if c >= 0x1F4 then SignExtend(FieldI7(w), 0x80) else GetW(s.gpr[FieldRb(w)], 0);
      ControlsMean([1, 2, 4, 8][c % 4], (base + offset) % 16, Step(h, s).gpr[FieldRt(w)])
  {
    hide Decode, Step, Fetches, OnlyRegister, ControlsQ, ControlsMean, GetW, SignExtend, Wrap32;
    var base, offset := GetW(s.gpr[FieldRa(w)], 0), OperandW(s.gpr, ControlsOperand(w), 0);
    DecodedControls(w);
    StepComputes(h, s, w);
    WrappedSixteenth(base as int + offset);
    ControlsQMean(Wrap32(base as int + offset), [1, 2, 4, 8][w / 0x20_0000 % 4]);
  }

  /** `mfspr` and `fscrrd` clear RT; `fi` copies RB. */
  lemma ClearInstructions(h: Host, s: State, w: word)
    requires Fetches(s, w) && w / 0x20_0000 in {0x00C, 0x398, 0x3D4}
    ensures OnlyRegister(s, Step(h, s), FieldRt(w))
    ensures forall k :: 0 <= k < 16 ==>
      Step(h, s).gpr[FieldRt(w)][k] == if w / 0x20_0000 == 0x3D4 then s.gpr[FieldRb(w)][k] else 0
  {
    hide Decode, Step, Fetches, OnlyRegister;
    DecodedClears(w);
    StepComputes(h, s, w);
  }
}
