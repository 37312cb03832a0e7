/** One step of the interpreter, from the instruction word it fetches. */
module SpuFetch {
  import opened Bits
  import opened Quad
  import opened Spu
  import opened SpuCode
  import opened SpuDecode
  import opened SpuDma

  // ----- Fetching -----

  /** The next instruction is the word `w`, and no patch precedes it. */
  predicate Fetches(s: State, w: word) {
    var pc := s.pc % 0x4_0000;
    !(s.id == 2 && pc == 0x35FC) && Val(s.ls[pc / 4 * 4..pc / 4 * 4 + 4]) == w
  }

  /** Nothing has changed but RT and the program counter, which has moved on. */
  predicate OnlyRegister(s: State, s': State, rt: Reg) {
    s' == s.(pc := (s.pc + 4) % 0x4_0000, gpr := s.gpr[rt := s'.gpr[rt]])
  }

  /** The state in which a fetched instruction executes. */
  function Onward(s: State): State {
    s.(pc := (s.pc + 4) % 0x4_0000)
  }

  lemma StepDecodes(h: Host, s: State, w: word)
    requires Fetches(s, w)
    ensures Step(h, s) == Exec(h, Decode(w), s.pc % 0x4_0000, Onward(s))
  {
    hide Exec, Decode, Step, Read32, Val;
    StepUnpatched(h, s);
    FetchedWord(s.ls, s.pc % 0x4_0000);
    NextPc(s.pc);
  }

  lemma StepUnpatched(h: Host, s: State)
    requires !(s.id == 2 && s.pc % 0x4_0000 == 0x35FC)
    ensures var pc := s.pc % 0x4_0000;
      Step(h, s) == Exec(h, Decode(Read32(s.ls, pc)), pc, s.(pc := (pc + 4) % 0x4_0000))
  {
    hide Exec, Decode, Read32;
  }

  lemma FetchedWord(ls: LocalStore, pc: word)
    requires pc < 0x4_0000
    ensures var p := pc / 4 * 4; p + 4 <= 0x4_0000 && Read32(ls, pc) == Val(ls[p..p + 4])
  {
    var p := pc / 4 * 4;
    assert AlignDown(pc % LS_SIZE, 4) == p;
    hide Be32, Val;
    ValOfFour(ls[p..p + 4]);
  }

  lemma NextPc(pc: word)
    ensures (pc % 0x4_0000 + 4) % 0x4_0000 == (pc + 4) % 0x4_0000
  {
    ModTurn(pc % 0x4_0000 + 4, 0x4_0000, pc / 0x4_0000);
  }

  /** A register instruction computes RT and nothing else. */
  lemma StepComputes(h: Host, s: State, w: word)
    requires Fetches(s, w) && Pure(Decode(w))
    ensures OnlyRegister(s, Step(h, s), Decode(w).rt) && Step(h, s).gpr[Decode(w).rt] == Compute(Decode(w), s.gpr)
  {
    hide Decode, Compute, Step, Fetches;
    StepDecodes(h, s, w);
  }

  // ----- Words from their fields -----

  /** The word is put together from its fields. */
  lemma SplitRR(w: word)
    requires w / 0x20_0000 < 0x400
    ensures w == EncodeRR(w / 0x20_0000, FieldRb(w), FieldRa(w), FieldRt(w)) && FieldI7(w) == FieldRb(w)
  {
    var x, y := w / 0x80, w / 0x4000;
    DivUnique(w, 0x4000, x / 0x80, x % 0x80 * 0x80 + w % 0x80);
    DivUnique(w, 0x20_0000, y / 0x80, y % 0x80 * 0x4000 + w % 0x4000);
  }

  lemma SplitRI10(w: word)
    requires w / 0x100_0000 < 0x80
    ensures w == EncodeRI10(w / 0x100_0000, FieldI10(w) % 0x400, FieldRa(w), FieldRt(w)) && Signed(FieldI10(w), 0x400)
  {
    var x, y, u := w / 0x80, w / 0x4000, w / 0x4000 % 0x400;
    DivUnique(w, 0x4000, x / 0x80, x % 0x80 * 0x80 + w % 0x80);
    DivUnique(w, 0x100_0000, y / 0x400, u * 0x4000 + w % 0x4000);
    ExtendedLow(u);
    SignedField(u, 0x400);
    hide SignExtend, Signed;
  }

  lemma ExtendedLow(u: word)
    requires u < 0x400
    ensures SignExtend(u, 0x400) % 0x400 == u
  {
    if u >= 0x200 { DivUnique(u + (TWO32 - 0x400), 0x400, 0x3F_FFFF, u); }
  }

  /** A word of the RI16 format decodes as one. */
  lemma DecodesRI16(w: word)
    requires ClaimedRI16(w / 0x80_0000)
    ensures DecodeRI16(w).Found? && Decode(w) == DecodeRI16(w).i
  {
    var c, imm := w / 0x80_0000, FieldI16U(w);
    var x := w / 0x80;
    DivUnique(w, 0x80_0000, x / 0x1_0000, imm * 0x80 + w % 0x80);
    assert c < 0x100;
    hide Decode, DecodeRI16, ClaimedRI16;
    assert w == EncodeRI16(c, imm, FieldRt(w));
    hide EncodeRI16, FieldI16U;
    DecodesAs16(c, imm, FieldRt(w));
  }

  /** A word of the RR format that is none of the lane or quadword instructions. */
  lemma DecodesMisc(w: word)
    requires MiscOpcode(w / 0x20_0000)
    ensures Decode(w) == DecodeMisc(w)
  {
    var c := w / 0x20_0000;
    hide Decode, DecodeMisc, EncodeRR, MiscOpcode, FieldRt, FieldRa, FieldRb;
    MiscClear(c);
    BelowRR(c);
    SplitRR(w);
    DecodesAsMisc(c, FieldRb(w), FieldRa(w), FieldRt(w));
  }

  /** Opcodes that the assembler has no use for: second names. */
  predicate SpareOpcode(c: nat) {
    c in {0x140, 0x398}
  }

  lemma SpareUnclaimed(c: nat)
    requires SpareOpcode(c)
    ensures Unclaimed(c)
  {
  }

  lemma SpareNoLanes(c: nat)
    requires SpareOpcode(c)
    ensures NoLanes(c)
  {
  }

  lemma SpareNoShifts(c: nat)
    requires SpareOpcode(c)
    ensures NoShifts(c) && QuadReg(c).None? && QuadImm(c).None?
  {
  }

  lemma DecodesSpare(w: word)
    requires SpareOpcode(w / 0x20_0000)
    ensures Decode(w) == DecodeMisc(w)
  {
    var c := w / 0x20_0000;
    SpareUnclaimed(c);
    SpareNoLanes(c);
    SpareNoShifts(c);
    BelowRR(c);
    hide Decode, DecodeMisc, EncodeRR, Unclaimed, SpareOpcode, FieldRt, FieldRa, FieldRb;
    SplitRR(w);
    DecodesAsRR(c, FieldRb(w), FieldRa(w), FieldRt(w));
  }
}
