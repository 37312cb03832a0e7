/** Every lane instruction does what the reference says of the word that is fetched. */
module SpuIsaLanes {
  import opened Bits
  import opened Quad
  import opened Lanes
  import opened Spu
  import opened SpuCode
  import opened SpuDecode
  import opened SpuFetch
  import opened SpuMeanings
  import opened SpuReference

  // ----- Lanes of a result -----

  lemma WordLane(op: WordOp, g: RegFile, rt: Reg, ra: Reg, b: Operand, i: nat)
    requires i < 4
    ensures GetW(Compute(WordLanes(op, rt, ra, b), g), i) ==
      EvalW(op, GetW(g[ra], i), OperandW(g, b, i), GetW(g[rt], i))
  {
    hide EvalW, GetW, OfWords, OperandW;
    var lanes := [LaneW(op, g, rt, ra, b, 0), LaneW(op, g, rt, ra, b, 1),
                  LaneW(op, g, rt, ra, b, 2), LaneW(op, g, rt, ra, b, 3)];
    WordsOfWords(lanes);
    assert Words(OfWords(lanes))[i] == lanes[i];
  }

  lemma HalfLane(op: HalfOp, g: RegFile, rt: Reg, ra: Reg, b: Operand, i: nat)
    requires i < 8
    ensures GetH(Compute(HalfLanes(op, rt, ra, b), g), i) == EvalH(op, GetH(g[ra], i), OperandH(g, b, i))
  {
    hide EvalH, GetH, OfHalves, OperandH;
    var lanes: seq<half> := seq(8, k requires 0 <= k < 8 => LaneH(op, g, ra, b, k));
    HalvesOfHalves(lanes);
    HalvesAt(OfHalves(lanes), i);
    assert lanes[i] == LaneH(op, g, ra, b, i);
    hide Halves;
  }

  lemma ByteLane(op: ByteOp, g: RegFile, rt: Reg, ra: Reg, b: Operand, i: nat)
    requires i < 16
    ensures Compute(ByteLanes(op, rt, ra, b), g)[i] == EvalB(op, g[ra][i], OperandB(g, b, i), 0)
  {
    hide EvalB, OperandB;
  }

  lemma WordStep(h: Host, s: State, w: word, op: WordOp, rt: Reg, ra: Reg, b: Operand)
    requires Fetches(s, w) && Decode(w) == WordLanes(op, rt, ra, b) && CodeW(op) != 0
    ensures var s' := Step(h, s);
      OnlyRegister(s, s', rt) &&
      forall i: nat :: i < 4 ==>
        WordMeans(CodeW(op), GetW(s.gpr[ra], i), OperandW(s.gpr, b, i), GetW(s.gpr[rt], i), GetW(s'.gpr[rt], i))
  {
    hide Decode, Compute, Step, GetW, WordMeans, EvalW, CodeW, OperandW;
    StepComputes(h, s, w);
    hide Fetches, OnlyRegister;
    forall i: nat | i < 4
      ensures WordMeans(CodeW(op), GetW(s.gpr[ra], i), OperandW(s.gpr, b, i), GetW(s.gpr[rt], i),
                        GetW(Step(h, s).gpr[rt], i))
    {
      WordLane(op, s.gpr, rt, ra, b, i);
      WordOpMeans(op, GetW(s.gpr[ra], i), OperandW(s.gpr, b, i), GetW(s.gpr[rt], i));
    }
  }

  lemma HalfStep(h: Host, s: State, w: word, op: HalfOp, rt: Reg, ra: Reg, b: Operand)
    requires Fetches(s, w) && Decode(w) == HalfLanes(op, rt, ra, b) && CodeH(op) != 0
    ensures var s' := Step(h, s);
      OnlyRegister(s, s', rt) &&
      forall i: nat :: i < 8 ==>
        HalfMeans(CodeH(op), GetH(s.gpr[ra], i), OperandH(s.gpr, b, i), GetH(s'.gpr[rt], i))
  {
    hide Decode, Compute, Step, GetH, HalfMeans, EvalH, CodeH, OperandH;
    StepComputes(h, s, w);
    hide Fetches, OnlyRegister;
    forall i: nat | i < 8
      ensures HalfMeans(CodeH(op), GetH(s.gpr[ra], i), OperandH(s.gpr, b, i), GetH(Step(h, s).gpr[rt], i))
    {
      HalfLane(op, s.gpr, rt, ra, b, i);
      HalfOpMeans(op, GetH(s.gpr[ra], i), OperandH(s.gpr, b, i));
    }
  }

  lemma ByteStep(h: Host, s: State, w: word, op: ByteOp, rt: Reg, ra: Reg, b: Operand)
    requires Fetches(s, w) && Decode(w) == ByteLanes(op, rt, ra, b) && OpcodeB(op) != 0
    ensures var s' := Step(h, s);
      OnlyRegister(s, s', rt) &&
      forall i: nat :: i < 16 ==>
        ByteMeans(OpcodeB(op), s.gpr[ra][i], OperandB(s.gpr, b, i), s'.gpr[rt][i])
  {
    hide Decode, Compute, Step, ByteMeans, EvalB, OpcodeB, OperandB;
    StepComputes(h, s, w);
    hide Fetches, OnlyRegister;
    forall i: nat | i < 16
      ensures ByteMeans(OpcodeB(op), s.gpr[ra][i], OperandB(s.gpr, b, i), Step(h, s).gpr[rt][i])
    {
      ByteLane(op, s.gpr, rt, ra, b, i);
      ByteOpMeans(op, s.gpr[ra][i], OperandB(s.gpr, b, i));
    }
  }

  // ----- The register form -----

  lemma WordInverse(c: nat)
    requires RegisterW(c).Some?
    ensures 0 < c < 0x400 && OpcodeW(RegisterW(c).op) == CodeW(RegisterW(c).op) == c
  {
  }

  lemma HalfInverse(c: nat)
    requires RegisterH(c).Some?
    ensures 0 < c < 0x400 && OpcodeH(RegisterH(c).op) == CodeH(RegisterH(c).op) == c
  {
  }

  lemma ByteInverse(c: nat)
    requires RegisterB(c).Some?
    ensures 0 < c < 0x400 && OpcodeB(RegisterB(c).op) == c
  {
  }

  lemma LanesKnown(c: nat)
    ensures WordOpcode(c) ==> RegisterW(c).Some?
    ensures HalfOpcode(c) ==> RegisterH(c).Some?
    ensures ByteOpcode(c) ==> RegisterB(c).Some?
  {
  }

  /** `a`, `sf`, `cg`, ... with two registers. */
  lemma WordInstructions(h: Host, s: State, w: word)
    requires Fetches(s, w) && WordOpcode(w / 0x20_0000)
    ensures var s', rt := Step(h, s), FieldRt(w);
      OnlyRegister(s, s', rt) &&
      forall i: nat :: i < 4 ==>
        WordMeans(w / 0x20_0000, GetW(s.gpr[FieldRa(w)], i), GetW(s.gpr[FieldRb(w)], i), GetW(s.gpr[rt], i),
                  GetW(s'.gpr[rt], i))
  {
    hide Decode, Step, GetW, EncodeRR, WordMeans, RegisterW, OpcodeW, CodeW, WordOpcode, Fetches, OnlyRegister;
    var c := w / 0x20_0000;
    LanesKnown(c);
    WordInverse(c);
    SplitRR(w);
    DecodeW(RegisterW(c).op, FieldRt(w), FieldRa(w), FieldRb(w));
    WordStep(h, s, w, RegisterW(c).op, FieldRt(w), FieldRa(w), FromReg(FieldRb(w)));
  }

  /** `ah`, `sfh`, ... */
  lemma HalfInstructions(h: Host, s: State, w: word)
    requires Fetches(s, w) && HalfOpcode(w / 0x20_0000)
    ensures var s', rt := Step(h, s), FieldRt(w);
      OnlyRegister(s, s', rt) &&
      forall i: nat :: i < 8 ==>
        HalfMeans(w / 0x20_0000, GetH(s.gpr[FieldRa(w)], i), GetH(s.gpr[FieldRb(w)], i), GetH(s'.gpr[rt], i))
  {
    hide Decode, Step, GetH, EncodeRR, HalfMeans, RegisterH, OpcodeH, CodeH, HalfOpcode, Fetches, OnlyRegister;
    var c := w / 0x20_0000;
    LanesKnown(c);
    HalfInverse(c);
    SplitRR(w);
    DecodeH(RegisterH(c).op, FieldRt(w), FieldRa(w), FieldRb(w));
    HalfStep(h, s, w, RegisterH(c).op, FieldRt(w), FieldRa(w), FromReg(FieldRb(w)));
  }

  /** `absdb`, `and`, `ceqb`, ... */
  lemma ByteInstructions(h: Host, s: State, w: word)
    requires Fetches(s, w) && ByteOpcode(w / 0x20_0000)
    ensures var s', rt := Step(h, s), FieldRt(w);
      OnlyRegister(s, s', rt) &&
      forall i: nat :: i < 16 ==>
        ByteMeans(w / 0x20_0000, s.gpr[FieldRa(w)][i], s.gpr[FieldRb(w)][i], s'.gpr[rt][i])
  {
    hide Decode, Step, EncodeRR, ByteMeans, RegisterB, OpcodeB, ByteOpcode, Fetches, OnlyRegister;
    var c := w / 0x20_0000;
    LanesKnown(c);
    ByteInverse(c);
    SplitRR(w);
    DecodeB(RegisterB(c).op, FieldRt(w), FieldRa(w), FieldRb(w));
    ByteStep(h, s, w, RegisterB(c).op, FieldRt(w), FieldRa(w), FromReg(FieldRb(w)));
  }

  // ----- The shift forms, with a 7-bit count -----

  lemma ShiftInverse(c: nat)
    requires 0x078 <= c <= 0x07F
    ensures c < 0x07C ==> (ShiftImmW(c).Some? && ShiftOpcodeW(ShiftImmW(c).op) == c &&
      CodeW(ShiftImmW(c).op) == c - 0x20)
    ensures c >= 0x07C ==> (ShiftImmH(c).Some? && ShiftOpcodeH(ShiftImmH(c).op) == c &&
      CodeH(ShiftImmH(c).op) == c - 0x20)
  {
  }

  /** `roti`, `rotmi`, `rotmai` and `shli` are `rot`, `rotm`, `rotma` and `shl` by a constant. */
  lemma WordShiftInstructions(h: Host, s: State, w: word)
    requires Fetches(s, w) && 0x078 <= w / 0x20_0000 <= 0x07B
    ensures var s', rt := Step(h, s), FieldRt(w);
      OnlyRegister(s, s', rt) &&
      forall i: nat :: i < 4 ==>
        WordMeans(w / 0x20_0000 - 0x20, GetW(s.gpr[FieldRa(w)], i), FieldI7(w), GetW(s.gpr[rt], i), GetW(s'.gpr[rt], i))
  {
    hide Decode, Step, GetW, EncodeRR, WordMeans, ShiftImmW, ShiftOpcodeW, CodeW, Fetches, OnlyRegister;
    var c := w / 0x20_0000;
    ShiftInverse(c);
    SplitRR(w);
    DecodeShiftW(ShiftImmW(c).op, FieldRt(w), FieldRa(w), FieldI7(w));
    WordStep(h, s, w, ShiftImmW(c).op, FieldRt(w), FieldRa(w), Immediate(FieldI7(w)));
  }

  /** `rothi`, `rothmi`, `rotmahi` and `shlhi`, likewise. */
  lemma HalfShiftInstructions(h: Host, s: State, w: word)
    requires Fetches(s, w) && 0x07C <= w / 0x20_0000 <= 0x07F
    ensures var s', rt := Step(h, s), FieldRt(w);
      OnlyRegister(s, s', rt) &&
      forall i: nat :: i < 8 ==>
        HalfMeans(w / 0x20_0000 - 0x20, GetH(s.gpr[FieldRa(w)], i), FieldI7(w), GetH(s'.gpr[rt], i))
  {
    hide Decode, Step, GetH, EncodeRR, HalfMeans, ShiftImmH, ShiftOpcodeH, CodeH, Fetches, OnlyRegister;
    var c := w / 0x20_0000;
    ShiftInverse(c);
    SplitRR(w);
    DecodeShiftH(ShiftImmH(c).op, FieldRt(w), FieldRa(w), FieldI7(w));
    HalfStep(h, s, w, ShiftImmH(c).op, FieldRt(w), FieldRa(w), Immediate(FieldI7(w)));
  }

  // ----- The immediate form, with a sign-extended 10-bit operand -----

  lemma ImmediateInverse(c: nat)
    ensures WordForm(c) != 0 ==> (ImmediateW(c).Some? && Opcode10W(ImmediateW(c).op) == c && 0 < c < 0x80 &&
      CodeW(ImmediateW(c).op) == WordForm(c))
    ensures HalfForm(c) != 0 ==> (ImmediateH(c).Some? && Opcode10H(ImmediateH(c).op) == c && 0 < c < 0x80 &&
      CodeH(ImmediateH(c).op) == HalfForm(c))
    ensures ByteForm(c) != 0 ==> (ImmediateB(c).Some? && Opcode10B(ImmediateB(c).op) == c && 0 < c < 0x80 &&
      OpcodeB(ImmediateB(c).op) == ByteForm(c))
  {
  }

  /** `ai`, `sfi`, `andi`, ... */
  lemma WordImmediateInstructions(h: Host, s: State, w: word)
    requires Fetches(s, w) && WordForm(w / 0x100_0000) != 0
    ensures var s', rt := Step(h, s), FieldRt(w);
      OnlyRegister(s, s', rt) &&
      forall i: nat :: i < 4 ==>
        WordMeans(WordForm(w / 0x100_0000), GetW(s.gpr[FieldRa(w)], i), FieldI10(w), GetW(s.gpr[rt], i),
                  GetW(s'.gpr[rt], i))
  {
    hide Decode, Step, GetW, EncodeRI10, WordMeans, ImmediateW, Opcode10W, CodeW, WordForm, Fetches, OnlyRegister;
    hide FieldI10, Signed, HalfForm, ByteForm, ImmediateH, ImmediateB, Opcode10H, Opcode10B, CodeH, OpcodeB;
    var c := w / 0x100_0000;
    ImmediateInverse(c);
    SplitRI10(w);
    DecodeImmediates(ImmediateW(c).op, HAdd, BAnd, FieldRt(w), FieldRa(w), FieldI10(w));
    WordStep(h, s, w, ImmediateW(c).op, FieldRt(w), FieldRa(w), Immediate(FieldI10(w)));
  }

  /** `ahi`, `sfhi`, `andhi`, ... */
  lemma HalfImmediateInstructions(h: Host, s: State, w: word)
    requires Fetches(s, w) && HalfForm(w / 0x100_0000) != 0
    ensures var s', rt := Step(h, s), FieldRt(w);
      OnlyRegister(s, s', rt) &&
      forall i: nat :: i < 8 ==>
        HalfMeans(HalfForm(w / 0x100_0000), GetH(s.gpr[FieldRa(w)], i), FieldI10(w) % 0x1_0000, GetH(s'.gpr[rt], i))
  {
    hide Decode, Step, GetH, EncodeRI10, HalfMeans, ImmediateH, Opcode10H, CodeH, HalfForm, Fetches, OnlyRegister;
    hide FieldI10, Signed, WordForm, ByteForm, ImmediateW, ImmediateB, Opcode10W, Opcode10B, CodeW, OpcodeB;
    var c := w / 0x100_0000;
    ImmediateInverse(c);
    SplitRI10(w);
    DecodeImmediates(WAdd, ImmediateH(c).op, BAnd, FieldRt(w), FieldRa(w), FieldI10(w));
    HalfStep(h, s, w, ImmediateH(c).op, FieldRt(w), FieldRa(w), Immediate(FieldI10(w)));
  }

  /** `andbi`, `ceqbi`, ... */
  lemma ByteImmediateInstructions(h: Host, s: State, w: word)
    requires Fetches(s, w) && ByteForm(w / 0x100_0000) != 0
    ensures var s', rt := Step(h, s), FieldRt(w);
      OnlyRegister(s, s', rt) &&
      forall i: nat :: i < 16 ==>
        ByteMeans(ByteForm(w / 0x100_0000), s.gpr[FieldRa(w)][i], FieldI10(w) % 0x100, s'.gpr[rt][i])
  {
    hide Decode, Step, EncodeRI10, ByteMeans, ImmediateB, Opcode10B, OpcodeB, ByteForm, Fetches, OnlyRegister;
    hide FieldI10, Signed, WordForm, HalfForm, ImmediateW, ImmediateH, Opcode10W, Opcode10H, CodeW, CodeH;
    var c := w / 0x100_0000;
    ImmediateInverse(c);
    SplitRI10(w);
    DecodeImmediates(WAdd, HAdd, ImmediateB(c).op, FieldRt(w), FieldRa(w), FieldI10(w));
    ByteStep(h, s, w, ImmediateB(c).op, FieldRt(w), FieldRa(w), Immediate(FieldI10(w)));
  }
}
