/** The decoder inverts the assembler, and the assembler has a word for every instruction the
decoder can produce. */
module SpuDecode {
  import opened Bits
  import opened Lanes
  import opened Spu
  import opened SpuCode

  // ----- Opcodes of the RR format -----

  predicate WordOpcode(c: nat) {
    c in {0x0C0, 0x040, 0x0C2, 0x042, 0x340, 0x341, 0x342, 0x343, 0x2A5, 0x2AE, 0x058, 0x059, 0x05A, 0x05B,
          0x3C0, 0x240, 0x2C0, 0x3C4, 0x3CC, 0x3C5, 0x3C7, 0x3C6, 0x3CE, 0x346, 0x34E}
  }

  predicate HalfOpcode(c: nat) {
    c in {0x0C8, 0x048, 0x2B6, 0x05C, 0x05D, 0x05E, 0x05F, 0x3C8, 0x248, 0x2C8}
  }

  predicate ByteOpcode(c: nat) {
    c in {0x053, 0x0D3, 0x2B4, 0x0C1, 0x041, 0x241, 0x0C9, 0x049, 0x2C1, 0x2C9, 0x249, 0x3D0, 0x250, 0x2D0}
  }

  predicate ShiftOpcode(c: nat) {
    0x078 <= c <= 0x07F
  }

  predicate QuadOpcode(c: nat) {
    c in {0x1D8, 0x1D9, 0x1DB, 0x1DC, 0x1DD, 0x1DF, 0x1CC, 0x1CD, 0x1CF, 0x1F8, 0x1F9, 0x1FB, 0x1FC, 0x1FD, 0x1FF}
  }

  /** The opcodes outside the tables. */
  predicate MiscOpcode(c: nat) {
    c in {0x1C4, 0x144, 0x253, 0x2A6, 0x00D, 0x10D, 0x00F, 0x1F0} ||
    0x1F4 <= c <= 0x1F7 || 0x1D4 <= c <= 0x1D7 || 0x1B4 <= c <= 0x1B6 || 0x1B0 <= c <= 0x1B2 ||
    0x1A8 <= c <= 0x1AB || 0x128 <= c <= 0x12B || c in {0x000, 0x00C, 0x3D4, 0x201}
  }

  lemma WordTable(op: WordOp)
    requires OpcodeW(op) != 0
    ensures WordOpcode(OpcodeW(op)) && RegisterW(OpcodeW(op)) == Some(op)
  {
  }

  lemma WordClear(c: nat)
    requires WordOpcode(c)
    ensures Unclaimed(c)
  {
  }

  lemma HalfTable(op: HalfOp)
    requires OpcodeH(op) != 0
    ensures HalfOpcode(OpcodeH(op)) && RegisterH(OpcodeH(op)) == Some(op)
  {
  }

  lemma HalfClear(c: nat)
    requires HalfOpcode(c)
    ensures Unclaimed(c) && RegisterW(c).None?
  {
  }

  lemma ByteTable(op: ByteOp)
    requires OpcodeB(op) != 0
    ensures ByteOpcode(OpcodeB(op)) && RegisterB(OpcodeB(op)) == Some(op)
  {
  }

  lemma ByteClear(c: nat)
    requires ByteOpcode(c)
    ensures Unclaimed(c) && RegisterW(c).None? && RegisterH(c).None?
  {
  }

  predicate NoLanes(c: nat) {
    RegisterW(c).None? && RegisterH(c).None? && RegisterB(c).None?
  }

  predicate NoShifts(c: nat) {
    ShiftImmW(c).None? && ShiftImmH(c).None?
  }

  lemma ShiftTables(w: WordOp, h: HalfOp)
    ensures ShiftOpcodeW(w) != 0 ==> ShiftOpcode(ShiftOpcodeW(w)) && ShiftImmW(ShiftOpcodeW(w)) == Some(w)
    ensures ShiftOpcodeH(h) != 0 ==>
      ShiftOpcode(ShiftOpcodeH(h)) && ShiftImmW(ShiftOpcodeH(h)).None? && ShiftImmH(ShiftOpcodeH(h)) == Some(h)
  {
  }

  lemma ShiftClear(c: nat)
    requires ShiftOpcode(c)
    ensures Unclaimed(c) && NoLanes(c)
  {
  }

  lemma QuadTables(op: QuadOp, immediate: bool)
    requires OpcodeQ(op, immediate) != 0
    ensures var c := OpcodeQ(op, immediate);
      QuadOpcode(c) && if immediate then QuadReg(c).None? && QuadImm(c) == Some(op) else QuadReg(c) == Some(op)
  {
  }

  lemma QuadClear(c: nat)
    requires QuadOpcode(c)
    ensures Unclaimed(c) && NoLanes(c) && NoShifts(c)
  {
    QuadUnclaimed(c);
    QuadNoWords(c);
    QuadNoBytes(c);
    hide Unclaimed, RegisterW, RegisterH, RegisterB;
  }

  lemma QuadNoWords(c: nat)
    requires QuadOpcode(c)
    ensures RegisterW(c).None?
  {
  }

  lemma QuadNoBytes(c: nat)
    requires QuadOpcode(c)
    ensures RegisterH(c).None? && RegisterB(c).None?
  {
  }

  lemma QuadUnclaimed(c: nat)
    requires QuadOpcode(c)
    ensures Unclaimed(c)
  {
  }

  lemma MiscClear(c: nat)
    requires MiscOpcode(c)
    ensures Unclaimed(c) && NoLanes(c) && NoShifts(c) && QuadReg(c).None? && QuadImm(c).None?
  {
    MiscUnclaimed(c);
    hide Unclaimed;
  }

  lemma MiscUnclaimed(c: nat)
    requires MiscOpcode(c)
    ensures Unclaimed(c)
  {
  }

  // ----- Instructions of the RR format -----

  lemma DecodeW(op: WordOp, rt: Reg, ra: Reg, rb: Reg)
    requires OpcodeW(op) != 0
    ensures Decode(EncodeRR(OpcodeW(op), rb, ra, rt)) == WordLanes(op, rt, ra, FromReg(rb))
  {
    hide Decode, EncodeRR, OpcodeW, Unclaimed, RegisterW, FieldI7, SignExtend, WordOpcode, DecodeMisc;
    WordTable(op);
    WordClear(OpcodeW(op));
    BelowRR(OpcodeW(op));
    DecodesAsRR(OpcodeW(op), rb, ra, rt);
    FieldsRR(OpcodeW(op), rb, ra, rt);
  }

  lemma BelowRR(c: nat)
    requires Unclaimed(c)
    ensures c < 0x400
  {
  }

  lemma DecodeH(op: HalfOp, rt: Reg, ra: Reg, rb: Reg)
    requires OpcodeH(op) != 0
    ensures Decode(EncodeRR(OpcodeH(op), rb, ra, rt)) == HalfLanes(op, rt, ra, FromReg(rb))
  {
    hide Decode, EncodeRR, OpcodeH, Unclaimed, RegisterW, RegisterH, FieldI7, SignExtend, HalfOpcode, DecodeMisc;
    HalfTable(op);
    HalfClear(OpcodeH(op));
    BelowRR(OpcodeH(op));
    DecodesAsRR(OpcodeH(op), rb, ra, rt);
    FieldsRR(OpcodeH(op), rb, ra, rt);
  }

  lemma DecodeB(op: ByteOp, rt: Reg, ra: Reg, rb: Reg)
    requires OpcodeB(op) != 0
    ensures Decode(EncodeRR(OpcodeB(op), rb, ra, rt)) == ByteLanes(op, rt, ra, FromReg(rb))
  {
    hide Decode, EncodeRR, OpcodeB, Unclaimed, RegisterW, RegisterH, RegisterB, FieldI7, SignExtend;
    hide ByteOpcode, DecodeMisc;
    ByteTable(op);
    ByteClear(OpcodeB(op));
    BelowRR(OpcodeB(op));
    DecodesAsRR(OpcodeB(op), rb, ra, rt);
    FieldsRR(OpcodeB(op), rb, ra, rt);
  }

  lemma DecodeShiftW(op: WordOp, rt: Reg, ra: Reg, v: nat)
    requires ShiftOpcodeW(op) != 0 && v < 0x80
    ensures Decode(EncodeRR(ShiftOpcodeW(op), v, ra, rt)) == WordLanes(op, rt, ra, Immediate(v))
  {
    hide Decode, EncodeRR, ShiftOpcodeW, ShiftOpcodeH, Unclaimed, RegisterW, RegisterH, RegisterB, ShiftImmW, ShiftImmH;
    hide ShiftOpcode, DecodeMisc;
    var c := ShiftOpcodeW(op);
    ShiftTables(op, HRot);
    ShiftClear(c);
    BelowRR(c);
    DecodesAsRR(c, v, ra, rt);
    FieldsRR(c, v, ra, rt);
  }

  lemma DecodeShiftH(op: HalfOp, rt: Reg, ra: Reg, v: nat)
    requires ShiftOpcodeH(op) != 0 && v < 0x80
    ensures Decode(EncodeRR(ShiftOpcodeH(op), v, ra, rt)) == HalfLanes(op, rt, ra, Immediate(v))
  {
    hide Decode, EncodeRR, ShiftOpcodeW, ShiftOpcodeH, Unclaimed, RegisterW, RegisterH, RegisterB, ShiftImmW, ShiftImmH;
    hide ShiftOpcode, DecodeMisc;
    var c := ShiftOpcodeH(op);
    ShiftTables(WRot, op);
    ShiftClear(c);
    BelowRR(c);
    DecodesAsRR(c, v, ra, rt);
    FieldsRR(c, v, ra, rt);
  }

  lemma DecodeQ(op: QuadOp, rt: Reg, ra: Reg, b: Operand)
    requires OpcodeQ(op, b.Immediate?) != 0 && (b.Immediate? ==> b.v < 0x80)
    ensures Decode(Assemble(ShiftQuad(op, rt, ra, b))) == ShiftQuad(op, rt, ra, b)
  {
    var c := OpcodeQ(op, b.Immediate?);
    var rb := if b.FromReg? then b.r else b.v;
    QuadTables(op, b.Immediate?);
    QuadClear(c);
    BelowRR(c);
    assert Assemble(ShiftQuad(op, rt, ra, b)) == EncodeRR(c, rb, ra, rt);
    hide Decode, EncodeRR, OpcodeQ, Unclaimed, RegisterW, RegisterH, RegisterB, ShiftImmW, ShiftImmH, QuadReg, QuadImm;
    hide QuadOpcode, DecodeMisc, Assemble;
    DecodesAsRR(c, rb, ra, rt);
    FieldsRR(c, rb, ra, rt);
  }

  lemma DecodesAsMisc(c: nat, rb: Reg, ra: Reg, rt: Reg)
    requires MiscOpcode(c)
    ensures c < 0x400 && Decode(EncodeRR(c, rb, ra, rt)) == DecodeMisc(EncodeRR(c, rb, ra, rt))
  {
    MiscClear(c);
    BelowRR(c);
    hide Decode, EncodeRR, Unclaimed, RegisterW, RegisterH, RegisterB, ShiftImmW, ShiftImmH, QuadReg, QuadImm;
    hide DecodeMisc;
    DecodesAsRR(c, rb, ra, rt);
    FieldsRR(c, rb, ra, rt);
  }

  lemma DecodeIndexed(store: bool, rt: Reg, ra: Reg, rb: Reg)
    ensures Decode(AssembleMemory(store, rt, Indexed(ra, rb))) ==
      if store then Store(rt, Indexed(ra, rb)) else Load(rt, Indexed(ra, rb))
  {
    var c := if store then 0x144 else 0x1C4;
    DecodesAsMisc(c, rb, ra, rt);
    FieldsRR(c, rb, ra, rt);
    hide Decode, EncodeRR, SignExtend;
  }

  lemma DecodeControls(size: nat, rt: Reg, ra: Reg, b: Operand)
    requires ControlSize(size) && (b.Immediate? ==> Signed(b.v, 0x80))
    ensures Decode(Assemble(Controls(size, rt, ra, b))) == Controls(size, rt, ra, b)
  {
    var k := SizeIndex(size);
    var c, rb := if b.FromReg? then 0x1D4 + k else 0x1F4 + k, if b.FromReg? then b.r else b.v % 0x80;
    assert Assemble(Controls(size, rt, ra, b)) == EncodeRR(c, rb, ra, rt);
    hide Decode, EncodeRR, SignExtend, Assemble, SizeIndex, Signed;
    DecodesAsMisc(c, rb, ra, rt);
    FieldsRR(c, rb, ra, rt);
    if b.Immediate? {
      SignExtendLow(b.v, 0x80);
    }
  }

  lemma DecodeMasks(n: nat, rt: Reg, ra: Reg)
    requires LaneCount(n)
    ensures Decode(Assemble(FormMask(n, rt, FromReg(ra)))) == FormMask(n, rt, FromReg(ra))
    ensures Decode(Assemble(Gather(n, rt, ra))) == Gather(n, rt, ra)
  {
    var k := CountIndex(n);
    assert Assemble(FormMask(n, rt, FromReg(ra))) == EncodeRR(0x1B4 + k, 0, ra, rt);
    assert Assemble(Gather(n, rt, ra)) == EncodeRR(0x1B0 + k, 0, ra, rt);
    hide Decode, EncodeRR, SignExtend, Assemble, CountIndex;
    DecodesAsMisc(0x1B4 + k, 0, ra, rt);
    FieldsRR(0x1B4 + k, 0, ra, rt);
    DecodesAsMisc(0x1B0 + k, 0, ra, rt);
    FieldsRR(0x1B0 + k, 0, ra, rt);
  }

  lemma DecodeAcross(rt: Reg, ra: Reg, rb: Reg)
    ensures Decode(EncodeRR(0x1F0, 0, ra, rt)) == OrAcross(rt, ra)
    ensures Decode(EncodeRR(0x253, rb, ra, rt)) == SumBytes(rt, ra, rb)
    ensures Decode(EncodeRR(0x2A6, 0, ra, rt)) == ExtendWords(rt, ra)
  {
    hide Decode, EncodeRR, SignExtend;
    DecodesAsMisc(0x1F0, 0, ra, rt);
    FieldsRR(0x1F0, 0, ra, rt);
    DecodesAsMisc(0x253, rb, ra, rt);
    FieldsRR(0x253, rb, ra, rt);
    DecodesAsMisc(0x2A6, 0, ra, rt);
    FieldsRR(0x2A6, 0, ra, rt);
  }

  lemma DecodeChannels(rt: Reg, ch: nat)
    requires ch < 0x20
    ensures Decode(EncodeRR(0x00D, 0, ch, rt)) == ReadChannel(rt, ch)
    ensures Decode(EncodeRR(0x10D, 0, ch, rt)) == WriteChannel(rt, ch)
    ensures Decode(EncodeRR(0x00F, 0, ch, rt)) == CountChannel(rt, ch)
  {
    hide Decode, EncodeRR, SignExtend;
    DecodesAsMisc(0x00D, 0, ch, rt);
    FieldsRR(0x00D, 0, ch, rt);
    DecodesAsMisc(0x10D, 0, ch, rt);
    FieldsRR(0x10D, 0, ch, rt);
    DecodesAsMisc(0x00F, 0, ch, rt);
    FieldsRR(0x00F, 0, ch, rt);
  }

  predicate ControlOpcode(c: nat) {
    0x1A8 <= c <= 0x1AB || 0x128 <= c <= 0x12B || c in {0x000, 0x00C, 0x3D4, 0x201}
  }

  lemma DecodesAsControl(c: nat, rb: Reg, ra: Reg, rt: Reg)
    requires ControlOpcode(c)
    ensures c < 0x400 && Decode(EncodeRR(c, rb, ra, rt)) == DecodeControl(EncodeRR(c, rb, ra, rt))
  {
    DecodesAsMisc(c, rb, ra, rt);
    FieldsRR(c, rb, ra, rt);
    hide Decode, EncodeRR, SignExtend, DecodeControl;
  }

  lemma DecodeRegisterBranch(c: Condition, link: bool, rt: Reg, ra: Reg)
    requires link ==> c.Always?
    ensures Decode(AssembleBranch(c, link, rt, ToRegister(ra))) == Branch(c, link, rt, ToRegister(ra))
  {
    var op := RegisterOpcode(c, link);
    DecodesAsControl(op, 0, ra, rt);
    FieldsRR(op, 0, ra, rt);
    hide Decode, EncodeRR, FloatOp;
  }

  lemma DecodeStop(code: nat)
    requires code < 0x4000
    ensures Decode(EncodeRR(0x000, 0, code / 0x80, code % 0x80)) == Stop(code)
  {
    hide Decode, EncodeRR, FloatOp;
    DecodesAsControl(0x000, 0, code / 0x80, code % 0x80);
    FieldsRR(0x000, 0, code / 0x80, code % 0x80);
  }

  lemma DecodeLinkClearCopy(rt: Reg, rb: Reg)
    ensures Decode(EncodeRR(0x1AB, 0, 0, rt)) == LinkOnly(rt) && Decode(EncodeRR(0x00C, 0, 0, rt)) == Clear(rt)
    ensures Decode(EncodeRR(0x3D4, rb, 0, rt)) == Copy(rt, rb)
  {
    hide Decode, EncodeRR, FloatOp;
    DecodesAsControl(0x1AB, 0, 0, rt);
    DecodesAsControl(0x00C, 0, 0, rt);
    DecodesAsControl(0x3D4, rb, 0, rt);
    FieldsRR(0x1AB, 0, 0, rt);
    FieldsRR(0x00C, 0, 0, rt);
    FieldsRR(0x3D4, rb, 0, rt);
  }

  lemma DecodeHaltNop()
    ensures Decode(EncodeRR(0x1AA, 0, 0, 0)) == Halt && Decode(EncodeRR(0x201, 0, 0, 0)) == Nop
  {
    hide Decode, EncodeRR;
    DecodesAsControl(0x1AA, 0, 0, 0);
    DecodesAsControl(0x201, 0, 0, 0);
    FieldsRR(0x1AA, 0, 0, 0);
    FieldsRR(0x201, 0, 0, 0);
  }

  lemma DecodeFour(op: nat, rt: Reg, rb: Reg, ra: Reg, rc: Reg)
    requires op in {0xB, 0x8, 0xC}
    ensures Decode(EncodeRRR(op, rt, rb, ra, rc)) ==
      if op == 0xB then Shuffle(rt, ra, rb, rc)
      else if op == 0x8 then Select(rt, ra, rb, rc)
      else MultiplyAdd(rt, ra, rb, rc)
  {
    FieldsRRR(op, rt, rb, ra, rc);
    hide EncodeRRR, DecodeRI18, DecodeRI16, DecodeRI10, DecodeRR;
  }

  // ----- Instructions with immediates -----

  predicate Opcode10(c: nat) {
    c in {0x1C, 0x0C, 0x14, 0x04, 0x44, 0x7C, 0x4C, 0x5C, 0x74, 0x75, 0x1D, 0x0D, 0x15, 0x05, 0x45, 0x7D, 0x4D, 0x5D,
          0x16, 0x06, 0x46, 0x7E, 0x4E, 0x5E, 0x34, 0x24}
  }

  lemma Tables10(w: WordOp, h: HalfOp, b: ByteOp)
    ensures Opcode10W(w) != 0 ==> Opcode10(Opcode10W(w)) && ImmediateW(Opcode10W(w)) == Some(w)
    ensures Opcode10H(h) != 0 ==>
      Opcode10(Opcode10H(h)) && ImmediateW(Opcode10H(h)).None? && ImmediateH(Opcode10H(h)) == Some(h)
    ensures Opcode10B(b) != 0 ==>
      Opcode10(Opcode10B(b)) && ImmediateW(Opcode10B(b)).None? && ImmediateH(Opcode10B(b)).None? &&
      ImmediateB(Opcode10B(b)) == Some(b)
  {
  }

  lemma Clear10(c: nat)
    requires Opcode10(c)
    ensures c < 0x80 && !ClaimedRI18(c / 2) && !ClaimedRI16(2 * c) && !ClaimedRI16(2 * c + 1)
  {
  }

  lemma Claimed10(c: nat)
    requires Opcode10(c)
    ensures ClaimedRI10(c) && c !in {0x4F, 0x5F, 0x7F}
  {
  }

  /** The immediate and the fields of a word of the RI10 format. */
  lemma DecodesAs10(c: nat, v: word, ra: Reg, rt: Reg)
    requires Opcode10(c) && Signed(v, 0x400)
    ensures c < 0x80 && var w := EncodeRI10(c, v % 0x400, ra, rt);
      DecodeRI10(w).Found? && Decode(w) == DecodeRI10(w).i &&
      FieldRt(w) == rt && FieldRa(w) == ra && FieldI10(w) == v && w / 0x100_0000 == c && c !in {0x4F, 0x5F, 0x7F}
  {
    Clear10(c);
    Claimed10(c);
    hide Opcode10, ClaimedRI10, ClaimedRI16, ClaimedRI18, Decode, EncodeRI10, DecodeRI10, SignExtend, Signed;
    DecodesAsRI10(c, v % 0x400, ra, rt);
    FieldsRI10(c, v % 0x400, ra, rt);
    SignExtendLow(v, 0x400);
  }

  lemma DecodeImmediates(w: WordOp, h: HalfOp, b: ByteOp, rt: Reg, ra: Reg, v: word)
    requires Signed(v, 0x400)
    ensures Opcode10W(w) < 0x80
    ensures Opcode10W(w) != 0 ==>
      Decode(EncodeRI10(Opcode10W(w), v % 0x400, ra, rt)) == WordLanes(w, rt, ra, Immediate(v))
    ensures Opcode10H(h) < 0x80
    ensures Opcode10H(h) != 0 ==>
      Decode(EncodeRI10(Opcode10H(h), v % 0x400, ra, rt)) == HalfLanes(h, rt, ra, Immediate(v))
    ensures Opcode10B(b) < 0x80
    ensures Opcode10B(b) != 0 ==>
      Decode(EncodeRI10(Opcode10B(b), v % 0x400, ra, rt)) == ByteLanes(b, rt, ra, Immediate(v))
  {
    NotMemory10(w, h, b);
    Tables10(w, h, b);
    hide Opcode10W, Opcode10H, Opcode10B, Opcode10, ImmediateW, ImmediateH, ImmediateB, Decode, EncodeRI10, Signed;
    if Opcode10W(w) != 0 { DecodesAs10(Opcode10W(w), v, ra, rt); }
    if Opcode10H(h) != 0 { DecodesAs10(Opcode10H(h), v, ra, rt); }
    if Opcode10B(b) != 0 { DecodesAs10(Opcode10B(b), v, ra, rt); }
  }

  lemma NotMemory10(w: WordOp, h: HalfOp, b: ByteOp)
    ensures Opcode10W(w) !in {0x34, 0x24} && Opcode10H(h) !in {0x34, 0x24} && Opcode10B(b) !in {0x34, 0x24}
  {
  }

  lemma DecodeDisplaced(store: bool, rt: Reg, ra: Reg, d: word)
    requires DisplacementOk(d)
    ensures Decode(AssembleMemory(store, rt, Displaced(ra, d))) ==
      if store then Store(rt, Displaced(ra, d)) else Load(rt, Displaced(ra, d))
  {
    var v: word := if d < 0x2000 then d / 16 else d / 16 + (TWO32 - TWO32 / 16);
    ShiftedDisplacement(d, v);
    var c := if store then 0x24 else 0x34;
    assert AssembleMemory(store, rt, Displaced(ra, d)) == EncodeRI10(c, v % 0x400, ra, rt);
    DecodesAs10(c, v, ra, rt);
    hide Decode, EncodeRI10, Signed, AssembleMemory, Opcode10, FieldI10;
  }

  lemma ShiftedDisplacement(d: word, v: word)
    requires DisplacementOk(d) && v == if d < 0x2000 then d / 16 else d / 16 + (TWO32 - TWO32 / 16)
    ensures Signed(v, 0x400) && v % 0x400 == d / 16 % 0x400 && Wrap32(v * 16) == d
  {
    assert d == d / 16 * 16;
    if d >= 0x2000 {
      assert v * 16 == d + 0xF * TWO32;
    }
  }

  /** The fields of a word of the RI16 format. */
  lemma DecodesAs16(c: nat, imm: nat, rt: Reg)
    requires ClaimedRI16(c) && imm < 0x1_0000
    ensures c < 0x100 && var w := EncodeRI16(c, imm, rt);
      DecodeRI16(w).Found? && Decode(w) == DecodeRI16(w).i &&
      FieldRt(w) == rt && FieldI16U(w) == imm && w / 0x80_0000 == c
  {
    FieldsRI16(c, imm, rt);
    Found16(EncodeRI16(c, imm, rt));
    hide EncodeRI16, DecodeRI16, DecodeRI10, DecodeRR;
  }

  lemma Found16(w: word)
    requires ClaimedRI16(w / 0x80_0000)
    ensures DecodeRI16(w).Found?
  {
  }

  lemma ShiftedOffset(off: word, v: word)
    requires OffsetOk(off) && v == if off < 0x2_0000 then off / 4 else off / 4 + (TWO32 - TWO32 / 4)
    ensures Signed(v, 0x1_0000) && v % 0x1_0000 == off / 4 % 0x1_0000 && Wrap32(v * 4) == off
  {
    assert off == off / 4 * 4;
    if off >= 0x2_0000 {
      assert v * 4 == off + 3 * TWO32;
    }
  }

  /** The 16-bit field of a branch or PC-relative instruction gives its offset back. */
  lemma DecodesOffset(c: nat, off: word, rt: Reg)
    requires ClaimedRI16(c) && OffsetOk(off)
    ensures c < 0x100 && var w := EncodeRI16(c, off / 4 % 0x1_0000, rt);
      DecodeRI16(w).Found? && Decode(w) == DecodeRI16(w).i && FieldRt(w) == rt && w / 0x80_0000 == c &&
      Wrap32(FieldI16(w) * 4) == off
  {
    DecodesAs16(c, off / 4 % 0x1_0000, rt);
    var v: word := if off < 0x2_0000 then off / 4 else off / 4 + (TWO32 - TWO32 / 4);
    ShiftedOffset(off, v);
    SignExtendLow(v, 0x1_0000);
    hide Decode, DecodeRI16, EncodeRI16, Signed, OffsetOk, ClaimedRI16, SignExtend, Wrap32;
  }

  lemma DecodeOffsetBranch(c: Condition, link: bool, rt: Reg, off: word)
    requires (link ==> c.Always?) && OffsetOk(off)
    ensures Decode(AssembleBranch(c, link, rt, ToOffset(off))) == Branch(c, link, rt, ToOffset(off))
  {
    DecodesOffset(OffsetOpcode(c, link), off, rt);
    hide Decode, EncodeRI16, OffsetOk, Wrap32, FieldI16;
  }

  lemma DecodeAbsoluteBranch(link: bool, rt: Reg, a: word)
    requires AbsoluteOk(a)
    ensures Decode(AssembleBranch(Always, link, rt, ToAddress(a))) == Branch(Always, link, rt, ToAddress(a))
  {
    hide Decode, EncodeRI16, Wrap32, FieldI16;
    if link {
      DecodesAs16(0x062, a / 4, rt);
    } else {
      DecodesAs16(0x060, a / 4, rt);
    }
  }

  lemma DecodeRelative(store: bool, rt: Reg, off: word)
    requires OffsetOk(off)
    ensures Decode(AssembleMemory(store, rt, Relative(off))) ==
      if store then Store(rt, Relative(off)) else Load(rt, Relative(off))
  {
    DecodesOffset(if store then 0x047 else 0x067, off, rt);
    hide Decode, EncodeRI16, OffsetOk, Wrap32, FieldI16;
  }

  lemma DecodeAbsolute(store: bool, rt: Reg, a: word)
    requires AbsoluteOk(a)
    ensures Decode(AssembleMemory(store, rt, Absolute(a))) ==
      if store then Store(rt, Absolute(a)) else Load(rt, Absolute(a))
  {
    DecodesAs16(if store then 0x041 else 0x061, a / 4, rt);
    hide Decode, EncodeRI16, Wrap32, FieldI16;
  }

  lemma DecodeIl(rt: Reg, v: word)
    requires Signed(v, 0x1_0000)
    ensures Decode(EncodeRI16(0x081, v % 0x1_0000, rt)) == WordLanes(WCopy, rt, 0, Immediate(v))
  {
    hide Decode, EncodeRI16, Wrap32, FieldI16, SignExtend, Signed;
    DecodesAs16(0x081, v % 0x1_0000, rt);
    SignExtendLow(v, 0x1_0000);
  }

  lemma DecodeIlhu(rt: Reg, v: word)
    requires v % 0x1_0000 == 0
    ensures Decode(EncodeRI16(0x082, v / 0x1_0000, rt)) == WordLanes(WCopy, rt, 0, Immediate(v))
  {
    hide Decode, EncodeRI16, Wrap32, FieldI16, SignExtend;
    DecodesAs16(0x082, v / 0x1_0000, rt);
  }

  /** `ilh`, `iohl` and `fsmbi` */
  lemma DecodeConstants(rt: Reg, v: word)
    requires v < 0x1_0000
    ensures Decode(EncodeRI16(0x083, v, rt)) == HalfLanes(HCopy, rt, 0, Immediate(v))
    ensures Decode(EncodeRI16(0x0C1, v, rt)) == WordLanes(WOrInto, rt, 0, Immediate(v))
    ensures Decode(EncodeRI16(0x065, v, rt)) == FormMask(16, rt, Immediate(v))
  {
    hide Decode, EncodeRI16, Wrap32, FieldI16, SignExtend;
    DecodesAs16(0x083, v, rt);
    DecodesAs16(0x0C1, v, rt);
    DecodesAs16(0x065, v, rt);
  }

  lemma DecodeIla(rt: Reg, v: word)
    requires v < 0x4_0000
    ensures Decode(EncodeRI18(0x21, v, rt)) == WordLanes(WCopy, rt, 0, Immediate(v))
  {
    var w := EncodeRI18(0x21, v, rt);
    DivUnique(w, 0x80, 0x21 * 0x4_0000 + v, rt);
    DivUnique(0x21 * 0x4_0000 + v, 0x4_0000, 0x21, v);
    DivUnique(w, 0x200_0000, 0x21, v * 0x80 + rt);
    hide EncodeRI18, DecodeRI16, DecodeRI10, DecodeRR;
  }

  // ----- The inverse -----

  lemma DecodeAssembleW(op: WordOp, rt: Reg, ra: Reg, b: Operand)
    requires WordLanesOk(op, ra, b)
    ensures Decode(AssembleW(op, rt, ra, b)) == WordLanes(op, rt, ra, b)
  {
    hide Decode, EncodeRR, EncodeRI10, EncodeRI16, EncodeRI18, OpcodeW, ShiftOpcodeW, Opcode10W, Signed;
    if b.FromReg? {
      DecodeW(op, rt, ra, b.r);
    } else if op.WCopy? {
      if b.v < 0x4_0000 {
        DecodeIla(rt, b.v);
      } else if Signed(b.v, 0x1_0000) {
        DecodeIl(rt, b.v);
      } else {
        DecodeIlhu(rt, b.v);
      }
    } else if op.WOrInto? {
      DecodeConstants(rt, b.v);
    } else if ShiftOpcodeW(op) != 0 {
      ShiftsAreShort(op, HRot);
      DecodeShiftW(op, rt, ra, b.v);
    } else {
      DecodeImmediates(op, HAdd, BAnd, rt, ra, b.v);
    }
  }

  /** No operation has both a shift form and an immediate form. */
  lemma ShiftsAreShort(w: WordOp, h: HalfOp)
    ensures ShiftOpcodeW(w) != 0 ==> Opcode10W(w) == 0
    ensures ShiftOpcodeH(h) != 0 ==> Opcode10H(h) == 0
  {
  }

  lemma DecodeAssembleH(op: HalfOp, rt: Reg, ra: Reg, b: Operand)
    requires HalfLanesOk(op, ra, b)
    ensures Decode(AssembleH(op, rt, ra, b)) == HalfLanes(op, rt, ra, b)
  {
    hide Decode, EncodeRR, EncodeRI10, EncodeRI16, OpcodeH, ShiftOpcodeH, Opcode10H, Signed;
    if b.FromReg? {
      DecodeH(op, rt, ra, b.r);
    } else if op.HCopy? {
      DecodeConstants(rt, b.v);
    } else if ShiftOpcodeH(op) != 0 {
      ShiftsAreShort(WRot, op);
      DecodeShiftH(op, rt, ra, b.v);
    } else {
      DecodeImmediates(WAdd, op, BAnd, rt, ra, b.v);
    }
  }

  lemma DecodeAssembleB(op: ByteOp, rt: Reg, ra: Reg, b: Operand)
    requires ByteLanesOk(op, b)
    ensures Decode(AssembleB(op, rt, ra, b)) == ByteLanes(op, rt, ra, b)
  {
    hide Decode, EncodeRR, EncodeRI10, OpcodeB, Opcode10B, Signed;
    if b.FromReg? {
      DecodeB(op, rt, ra, b.r);
    } else {
      DecodeImmediates(WAdd, HAdd, op, rt, ra, b.v);
    }
  }

  lemma DecodeAssembleMemory(store: bool, rt: Reg, a: Address)
    requires AddressOk(a)
    ensures Decode(AssembleMemory(store, rt, a)) == if store then Store(rt, a) else Load(rt, a)
  {
    hide Decode, AssembleMemory;
    match a {
      case Absolute(x) => DecodeAbsolute(store, rt, x);
      case Relative(off) => DecodeRelative(store, rt, off);
      case Displaced(ra, d) => DecodeDisplaced(store, rt, ra, d);
      case Indexed(ra, rb) => DecodeIndexed(store, rt, ra, rb);
    }
  }

  lemma DecodeAssembleBranch(c: Condition, link: bool, rt: Reg, t: Target)
    requires TargetOk(Branch(c, link, rt, t))
    ensures Decode(AssembleBranch(c, link, rt, t)) == Branch(c, link, rt, t)
  {
    hide Decode, AssembleBranch;
    match t {
      case ToAddress(a) => DecodeAbsoluteBranch(link, rt, a);
      case ToOffset(off) => DecodeOffsetBranch(c, link, rt, off);
      case ToRegister(ra) => DecodeRegisterBranch(c, link, rt, ra);
    }
  }

  lemma DecodeAssembleRest(i: Instr)
    requires i.OrAcross? || i.SumBytes? || i.ExtendWords? || i.ReadChannel? || i.WriteChannel? || i.CountChannel? ||
      i.Stop? || i.LinkOnly? || i.Clear? || i.Copy? || i.Halt? || i.Nop?
    requires Assembles(i)
    ensures Decode(Assemble(i)) == i
  {
    hide Decode, EncodeRR;
    match i {
      case OrAcross(rt, ra) => DecodeAcross(rt, ra, 0);
      case SumBytes(rt, ra, rb) => DecodeAcross(rt, ra, rb);
      case ExtendWords(rt, ra) => DecodeAcross(rt, ra, 0);
      case ReadChannel(rt, ch) => DecodeChannels(rt, ch);
      case WriteChannel(rt, ch) => DecodeChannels(rt, ch);
      case CountChannel(rt, ch) => DecodeChannels(rt, ch);
      case Stop(code) => DecodeStop(code);
      case LinkOnly(rt) => DecodeLinkClearCopy(rt, 0);
      case Clear(rt) => DecodeLinkClearCopy(rt, 0);
      case Copy(rt, rb) => DecodeLinkClearCopy(rt, rb);
      case Halt => DecodeHaltNop();
      case Nop => DecodeHaltNop();
    }
  }

  /** The decoder inverts the assembler: no opcode is shadowed by a shorter format or by an
  earlier table, and every field comes back from where it was put. */
  lemma DecodeAssemble(i: Instr)
    requires Assembles(i)
    ensures Decode(Assemble(i)) == i
  {
    hide Decode, AssembleW, AssembleH, AssembleB, AssembleMemory, AssembleBranch, EncodeRR, EncodeRRR, EncodeRI16;
    hide WordLanesOk, HalfLanesOk, ByteLanesOk, AddressOk, TargetOk, Signed, OpcodeQ, SizeIndex, CountIndex;
    match i {
      case WordLanes(op, rt, ra, b) => DecodeAssembleW(op, rt, ra, b);
      case HalfLanes(op, rt, ra, b) => DecodeAssembleH(op, rt, ra, b);
      case ByteLanes(op, rt, ra, b) => DecodeAssembleB(op, rt, ra, b);
      case ShiftQuad(op, rt, ra, b) => DecodeQ(op, rt, ra, b);
      case Controls(size, rt, ra, b) => DecodeControls(size, rt, ra, b);
      case FormMask(n, rt, b) => if b.FromReg? { DecodeMasks(n, rt, b.r); } else { DecodeConstants(rt, b.v); }
      case Gather(n, rt, ra) => DecodeMasks(n, rt, ra);
      case Load(rt, a) => DecodeAssembleMemory(false, rt, a);
      case Store(rt, a) => DecodeAssembleMemory(true, rt, a);
      case Branch(c, link, rt, t) => DecodeAssembleBranch(c, link, rt, t);
      case Shuffle(rt, ra, rb, rc) => DecodeFour(0xB, rt, rb, ra, rc);
      case Select(rt, ra, rb, rc) => DecodeFour(0x8, rt, rb, ra, rc);
      case MultiplyAdd(rt, ra, rb, rc) => DecodeFour(0xC, rt, rb, ra, rc);
      case Float(insn, rt, ra, rb, rc) =>
      case _ => DecodeAssembleRest(i);
    }
  }

  // ----- The assembler has all instructions -----

  /** Every word decodes to an instruction of the assembler, so assembling what was decoded and
  decoding again changes nothing. */
  lemma DecodedAssembles(w: word)
    ensures Assembles(Decode(w)) && Decode(Assemble(Decode(w))) == Decode(w)
  {
    hide Assembles, DecodeRRR, DecodeRI18, DecodeRI16, DecodeRI10, DecodeRR, Assemble;
    Covers18(w);
    Covers16(w);
    Covers10(w);
    CoversRR(w);
    FloatAssembles(w);
    assert Assembles(Decode(w));
    hide Decode;
    DecodeAssemble(Decode(w));
  }

  lemma FloatAssembles(w: word)
    ensures Decode(w).Float? ==> Assembles(Decode(w))
  {
    FloatKeepsWord(w);
    hide Decode;
  }

  lemma FloatKeepsWord(w: word)
    ensures Decode(w).Float? ==> Decode(w).insn == w
  {
    hide RegisterW, RegisterH, RegisterB, ShiftImmW, ShiftImmH, QuadReg, QuadImm, FloatOp;
    hide ImmediateW, ImmediateH, ImmediateB;
  }

  lemma Covers18(w: word)
    ensures DecodeRI18(w).Found? ==> Assembles(DecodeRI18(w).i)
    ensures DecodeRRR(w).Float? || Assembles(DecodeRRR(w))
  {
  }

  lemma SignedField(u: word, m: word)
    requires m in {0x80, 0x400, 0x1_0000} && u < m
    ensures Signed(SignExtend(u, m), m)
  {
  }

  lemma OffsetFits(u: word)
    requires u < 0x1_0000
    ensures OffsetOk(Wrap32(SignExtend(u, 0x1_0000) * 4))
  {
  }

  lemma Covers16(w: word)
    ensures DecodeRI16(w).Found? ==> Assembles(DecodeRI16(w).i)
  {
    hide SignExtend, OffsetOk, Signed, Wrap32, OpcodeW, OpcodeH, OpcodeB, OpcodeQ;
    var u := FieldI16U(w);
    OffsetFits(u);
    SignedField(u, 0x1_0000);
    hide FieldI16U;
  }

  lemma DisplacementFits(u: word)
    requires u < 0x400
    ensures DisplacementOk(Wrap32(SignExtend(u, 0x400) * 16))
  {
  }

  lemma Covers10(w: word)
    ensures DecodeRI10(w).Found? ==> Assembles(DecodeRI10(w).i)
  {
    var u, op := w / 0x4000 % 0x400, w / 0x100_0000;
    DisplacementFits(u);
    SignedField(u, 0x400);
    Known10(op);
    hide SignExtend, DisplacementOk, Signed, Wrap32, ImmediateW, ImmediateH, ImmediateB;
    hide Opcode10W, Opcode10H, Opcode10B, ShiftOpcodeW, ShiftOpcodeH, OpcodeW, OpcodeH, OpcodeB, OpcodeQ;
  }

  lemma Known10(op: nat)
    ensures ImmediateW(op).Some? ==> var x := ImmediateW(op).op; Opcode10W(x) != 0 && !x.WCopy? && !x.WOrInto?
    ensures ImmediateH(op).Some? ==> Opcode10H(ImmediateH(op).op) != 0 && !ImmediateH(op).op.HCopy?
    ensures ImmediateB(op).Some? ==> Opcode10B(ImmediateB(op).op) != 0
  {
  }

  lemma KnownRR(op: nat)
    ensures RegisterW(op).Some? ==> OpcodeW(RegisterW(op).op) != 0
    ensures RegisterH(op).Some? ==> OpcodeH(RegisterH(op).op) != 0
    ensures RegisterB(op).Some? ==> OpcodeB(RegisterB(op).op) != 0
    ensures ShiftImmW(op).Some? ==> ShiftOpcodeW(ShiftImmW(op).op) != 0
    ensures ShiftImmH(op).Some? ==> ShiftOpcodeH(ShiftImmH(op).op) != 0
    ensures QuadReg(op).Some? ==> OpcodeQ(QuadReg(op).op, false) != 0
    ensures QuadImm(op).Some? ==> OpcodeQ(QuadImm(op).op, true) != 0
  {
  }

  lemma CopiesDiffer(w: WordOp, h: HalfOp)
    ensures ShiftOpcodeW(w) != 0 ==> !w.WCopy? && !w.WOrInto?
    ensures ShiftOpcodeH(h) != 0 ==> !h.HCopy?
  {
  }

  lemma CoversRR(w: word)
    ensures DecodeRR(w).Float? || Assembles(DecodeRR(w))
  {
    hide RegisterW, RegisterH, RegisterB, ShiftImmW, ShiftImmH, QuadReg, QuadImm, DecodeMisc;
    var op := w / 0x20_0000;
    KnownRR(op);
    CoversMisc(w);
    if ShiftImmW(op).Some? { CopiesDiffer(ShiftImmW(op).op, HRot); }
    if ShiftImmH(op).Some? { CopiesDiffer(WRot, ShiftImmH(op).op); }
    hide Signed, Opcode10W, Opcode10H, Opcode10B, ShiftOpcodeW, ShiftOpcodeH, OpcodeW, OpcodeH, OpcodeB, OpcodeQ;
  }

  lemma CoversMisc(w: word)
    ensures DecodeMisc(w).Float? || Assembles(DecodeMisc(w))
  {
    SignedField(FieldI7(w), 0x80);
    CoversControl(w);
    hide SignExtend, Signed, FloatOp, DecodeControl;
  }

  lemma CoversControl(w: word)
    ensures DecodeControl(w).Float? || Assembles(DecodeControl(w))
  {
    hide FloatOp;
  }
}
