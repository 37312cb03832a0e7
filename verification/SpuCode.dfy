/** Instruction words: an assembler for the SPU's formats, which the decoder inverts. */
module SpuCode {
  import opened Bits
  import opened Lanes
  import opened Spu

  // ----- Formats -----

  function EncodeRR(op: nat, rb: Reg, ra: Reg, rt: Reg): word
    requires op < 0x400
  {
    op * 0x20_0000 + rb * 0x4000 + ra * 0x80 + rt
  }

  function EncodeRRR(op: nat, rt: Reg, rb: Reg, ra: Reg, rc: Reg): word
    requires 8 <= op < 16
  {
    op * 0x1000_0000 + rt * 0x20_0000 + rb * 0x4000 + ra * 0x80 + rc
  }

  function EncodeRI10(op: nat, imm: nat, ra: Reg, rt: Reg): word
    requires op < 0x80 && imm < 0x400
  {
    op * 0x100_0000 + imm * 0x4000 + ra * 0x80 + rt
  }

  function EncodeRI16(op: nat, imm: nat, rt: Reg): word
    requires op < 0x100 && imm < 0x1_0000
  {
    op * 0x80_0000 + imm * 0x80 + rt
  }

  function EncodeRI18(op: nat, imm: nat, rt: Reg): word
    requires op < 0x40 && imm < 0x4_0000
  {
    op * 0x200_0000 + imm * 0x80 + rt
  }

  // ----- Opcodes of the lane instructions, by format; 0 where there is none -----

  function OpcodeW(op: WordOp): nat {
    match op
    case WAdd => 0x0C0 case WSubFrom => 0x040 case WCarry => 0x0C2 case WBorrow => 0x042
    case WAddx => 0x340 case WSfx => 0x341 case WCgx => 0x342 case WBgx => 0x343
    case WClz => 0x2A5 case WXshw => 0x2AE
    case WRot => 0x058 case WRotm => 0x059 case WRotma => 0x05A case WShl => 0x05B
    case WCeq => 0x3C0 case WCgt => 0x240 case WClgt => 0x2C0
    case WMpy => 0x3C4 case WMpyu => 0x3CC case WMpyh => 0x3C5 case WMpys => 0x3C7
    case WMpyhh => 0x3C6 case WMpyhhu => 0x3CE case WMpyhha => 0x346 case WMpyhhau => 0x34E
    case _ => 0
  }

  function OpcodeH(op: HalfOp): nat {
    match op
    case HAdd => 0x0C8 case HSubFrom => 0x048 case HXsbh => 0x2B6
    case HRot => 0x05C case HRotm => 0x05D case HRotma => 0x05E case HShl => 0x05F
    case HCeq => 0x3C8 case HCgt => 0x248 case HClgt => 0x2C8
    case _ => 0
  }

  function OpcodeB(op: ByteOp): nat {
    match op
    case BAbsdb => 0x053 case BAvgb => 0x0D3 case BCntb => 0x2B4
    case BAnd => 0x0C1 case BOr => 0x041 case BXor => 0x241 case BNand => 0x0C9 case BNor => 0x049
    case BAndc => 0x2C1 case BOrc => 0x2C9 case BEqv => 0x249
    case BCeq => 0x3D0 case BCgt => 0x250 case BClgt => 0x2D0
    case BSel => 0
  }

  function OpcodeQ(op: QuadOp, immediate: bool): nat {
    match op
    case RotBit => (if immediate then 0x1F8 else 0x1D8)
    case ShrBit => (if immediate then 0x1F9 else 0x1D9)
    case ShlBit => (if immediate then 0x1FB else 0x1DB)
    case RotByte => (if immediate then 0x1FC else 0x1DC)
    case ShrByte => (if immediate then 0x1FD else 0x1DD)
    case ShlByte => (if immediate then 0x1FF else 0x1DF)
    case RotByteBit => (if immediate then 0 else 0x1CC)
    case ShrByteBit => (if immediate then 0 else 0x1CD)
    case ShlByteBit => (if immediate then 0 else 0x1CF)
  }

  function ShiftOpcodeW(op: WordOp): nat {
    match op
    case WRot => 0x078 case WRotm => 0x079 case WRotma => 0x07A case WShl => 0x07B
    case _ => 0
  }

  function ShiftOpcodeH(op: HalfOp): nat {
    match op
    case HRot => 0x07C case HRotm => 0x07D case HRotma => 0x07E case HShl => 0x07F
    case _ => 0
  }

  function Opcode10W(op: WordOp): nat {
    match op
    case WAdd => 0x1C case WSubFrom => 0x0C case WAnd => 0x14 case WOr => 0x04 case WXor => 0x44
    case WCeq => 0x7C case WCgt => 0x4C case WClgt => 0x5C case WMpy => 0x74 case WMpyu => 0x75
    case _ => 0
  }

  function Opcode10H(op: HalfOp): nat {
    match op
    case HAdd => 0x1D case HSubFrom => 0x0D case HAnd => 0x15 case HOr => 0x05 case HXor => 0x45
    case HCeq => 0x7D case HCgt => 0x4D case HClgt => 0x5D
    case _ => 0
  }

  function Opcode10B(op: ByteOp): nat {
    match op
    case BAnd => 0x16 case BOr => 0x06 case BXor => 0x46
    case BCeq => 0x7E case BCgt => 0x4E case BClgt => 0x5E
    case _ => 0
  }

  // ----- The instructions that have words -----

  /** `v` is the sign extension of its low bits, of which there are `m` values. */
  predicate Signed(v: word, m: word) {
    v < m / 2 || v >= TWO32 - m / 2
  }

  /** A branch offset or PC-relative address that a 16-bit field can hold. */
  predicate OffsetOk(off: word) {
    off % 4 == 0 && (off < 0x2_0000 || off >= TWO32 - 0x2_0000)
  }

  predicate AbsoluteOk(a: word) {
    a % 4 == 0 && a < 0x4_0000
  }

  predicate DisplacementOk(d: word) {
    d % 16 == 0 && (d < 0x2000 || d >= TWO32 - 0x2000)
  }

  predicate AddressOk(a: Address) {
    match a
    case Absolute(x) => AbsoluteOk(x)
    case Relative(off) => OffsetOk(off)
    case Displaced(ra, d) => DisplacementOk(d)
    case Indexed(ra, rb) => true
  }

  predicate WordLanesOk(op: WordOp, ra: Reg, b: Operand) {
    if b.FromReg? then OpcodeW(op) != 0
    else if op.WCopy? then ra == 0 && (b.v < 0x4_0000 || Signed(b.v, 0x1_0000) || b.v % 0x1_0000 == 0)
    else if op.WOrInto? then ra == 0 && b.v < 0x1_0000
    else (ShiftOpcodeW(op) != 0 && b.v < 0x80) || (Opcode10W(op) != 0 && Signed(b.v, 0x400))
  }

  predicate HalfLanesOk(op: HalfOp, ra: Reg, b: Operand) {
    if b.FromReg? then OpcodeH(op) != 0
    else if op.HCopy? then ra == 0 && b.v < 0x1_0000
    else (ShiftOpcodeH(op) != 0 && b.v < 0x80) || (Opcode10H(op) != 0 && Signed(b.v, 0x400))
  }

  predicate ByteLanesOk(op: ByteOp, b: Operand) {
    if b.FromReg? then OpcodeB(op) != 0 else Opcode10B(op) != 0 && Signed(b.v, 0x400)
  }

  predicate TargetOk(i: Instr)
    requires i.Branch?
  {
    match i.target
    case ToAddress(a) => AbsoluteOk(a) && i.cond.Always?
    case ToOffset(off) => OffsetOk(off) && (i.link ==> i.cond.Always?)
    case ToRegister(ra) => i.link ==> i.cond.Always?
  }

  /** Every instruction the decoder can produce. Of floating point it keeps the whole word. */
  predicate Assembles(i: Instr) {
    match i
    case WordLanes(op, rt, ra, b) => WordLanesOk(op, ra, b)
    case HalfLanes(op, rt, ra, b) => HalfLanesOk(op, ra, b)
    case ByteLanes(op, rt, ra, b) => ByteLanesOk(op, b)
    case ShiftQuad(op, rt, ra, b) => (b.Immediate? ==> b.v < 0x80) && OpcodeQ(op, b.Immediate?) != 0
    case Controls(size, rt, ra, b) => ControlSize(size) && (b.Immediate? ==> Signed(b.v, 0x80))
    case FormMask(n, rt, b) => if b.FromReg? then LaneCount(n) else n == 16 && b.v < 0x1_0000
    case Gather(n, rt, ra) => LaneCount(n)
    case Load(rt, a) => AddressOk(a)
    case Store(rt, a) => AddressOk(a)
    case Branch(c, link, rt, t) => TargetOk(i)
    case ReadChannel(rt, ch) => ch < 0x20
    case WriteChannel(rt, ch) => ch < 0x20
    case CountChannel(rt, ch) => ch < 0x20
    case Stop(code) => code < 0x4000
    case Float(insn, rt, ra, rb, rc) => Decode(insn) == i
    case _ => true
  }

  // ----- The assembler -----

  function AssembleW(op: WordOp, rt: Reg, ra: Reg, b: Operand): word
    requires WordLanesOk(op, ra, b)
  {
    if b.FromReg? then EncodeRR(OpcodeW(op), b.r, ra, rt)
    else if op.WCopy? then
      if b.v < 0x4_0000 then EncodeRI18(0x21, b.v, rt)
      else if Signed(b.v, 0x1_0000) then EncodeRI16(0x081, b.v % 0x1_0000, rt)
      else EncodeRI16(0x082, b.v / 0x1_0000, rt)
    else if op.WOrInto? then EncodeRI16(0x0C1, b.v, rt)
    else if ShiftOpcodeW(op) != 0 then EncodeRR(ShiftOpcodeW(op), b.v, ra, rt)
    else EncodeRI10(Opcode10W(op), b.v % 0x400, ra, rt)
  }

  function AssembleH(op: HalfOp, rt: Reg, ra: Reg, b: Operand): word
    requires HalfLanesOk(op, ra, b)
  {
    if b.FromReg? then EncodeRR(OpcodeH(op), b.r, ra, rt)
    else if op.HCopy? then EncodeRI16(0x083, b.v, rt)
    else if ShiftOpcodeH(op) != 0 then EncodeRR(ShiftOpcodeH(op), b.v, ra, rt)
    else EncodeRI10(Opcode10H(op), b.v % 0x400, ra, rt)
  }

  function AssembleB(op: ByteOp, rt: Reg, ra: Reg, b: Operand): word
    requires ByteLanesOk(op, b)
  {
    if b.FromReg? then EncodeRR(OpcodeB(op), b.r, ra, rt) else EncodeRI10(Opcode10B(op), b.v % 0x400, ra, rt)
  }

  function AssembleMemory(store: bool, rt: Reg, a: Address): word
    requires AddressOk(a)
  {
    match a
    case Absolute(x) => EncodeRI16(if store then 0x041 else 0x061, x / 4, rt)
    case Relative(off) => EncodeRI16(if store then 0x047 else 0x067, off / 4 % 0x1_0000, rt)
    case Displaced(ra, d) => EncodeRI10(if store then 0x24 else 0x34, d / 16 % 0x400, ra, rt)
    case Indexed(ra, rb) => EncodeRR(if store then 0x144 else 0x1C4, rb, ra, rt)
  }

  function AssembleBranch(c: Condition, link: bool, rt: Reg, t: Target): word
    requires TargetOk(Branch(c, link, rt, t))
  {
    match t
    case ToAddress(a) => EncodeRI16(if link then 0x062 else 0x060, a / 4, rt)
    case ToOffset(off) => EncodeRI16(OffsetOpcode(c, link), off / 4 % 0x1_0000, rt)
    case ToRegister(ra) => EncodeRR(RegisterOpcode(c, link), 0, ra, rt)
  }

  function OffsetOpcode(c: Condition, link: bool): nat {
    match c
    case Always => (if link then 0x066 else 0x064)
    case IfWord(zero) => (if zero then 0x040 else 0x042)
    case IfHalf(zero) => (if zero then 0x044 else 0x046)
  }

  function RegisterOpcode(c: Condition, link: bool): nat {
    match c
    case Always => (if link then 0x1A9 else 0x1A8)
    case IfWord(zero) => (if zero then 0x128 else 0x129)
    case IfHalf(zero) => (if zero then 0x12A else 0x12B)
  }

  /** Position of an element size among 1, 2, 4 and 8. */
  function SizeIndex(size: nat): (k: nat)
    requires ControlSize(size)
    ensures k < 4 && [1, 2, 4, 8][k] == size
  {
    if size == 1 then 0 else if size == 2 then 1 else if size == 4 then 2 else 3
  }

  /** Position of a lane count among 4, 8 and 16. */
  function CountIndex(n: nat): (k: nat)
    requires LaneCount(n)
    ensures k < 3 && [4, 8, 16][k] == n
  {
    if n == 4 then 0 else if n == 8 then 1 else 2
  }

  function Assemble(i: Instr): word
    requires Assembles(i)
  {
    match i
    case WordLanes(op, rt, ra, b) => AssembleW(op, rt, ra, b)
    case HalfLanes(op, rt, ra, b) => AssembleH(op, rt, ra, b)
    case ByteLanes(op, rt, ra, b) => AssembleB(op, rt, ra, b)
    case ShiftQuad(op, rt, ra, b) => EncodeRR(OpcodeQ(op, b.Immediate?), if b.FromReg? then b.r else b.v, ra, rt)
    case Controls(size, rt, ra, b) =>
      if b.FromReg? then EncodeRR(0x1D4 + SizeIndex(size), b.r, ra, rt)
      else EncodeRR(0x1F4 + SizeIndex(size), b.v % 0x80, ra, rt)
    case FormMask(n, rt, b) =>
      if b.FromReg? then EncodeRR(0x1B4 + CountIndex(n), 0, b.r, rt) else EncodeRI16(0x065, b.v, rt)
    case Gather(n, rt, ra) => EncodeRR(0x1B0 + CountIndex(n), 0, ra, rt)
    case Load(rt, a) => AssembleMemory(false, rt, a)
    case Store(rt, a) => AssembleMemory(true, rt, a)
    case Branch(c, link, rt, t) => AssembleBranch(c, link, rt, t)
    case Shuffle(rt, ra, rb, rc) => EncodeRRR(0xB, rt, rb, ra, rc)
    case Select(rt, ra, rb, rc) => EncodeRRR(0x8, rt, rb, ra, rc)
    case MultiplyAdd(rt, ra, rb, rc) => EncodeRRR(0xC, rt, rb, ra, rc)
    case OrAcross(rt, ra) => EncodeRR(0x1F0, 0, ra, rt)
    case SumBytes(rt, ra, rb) => EncodeRR(0x253, rb, ra, rt)
    case ExtendWords(rt, ra) => EncodeRR(0x2A6, 0, ra, rt)
    case ReadChannel(rt, ch) => EncodeRR(0x00D, 0, ch, rt)
    case WriteChannel(rt, ch) => EncodeRR(0x10D, 0, ch, rt)
    case CountChannel(rt, ch) => EncodeRR(0x00F, 0, ch, rt)
    case LinkOnly(rt) => EncodeRR(0x1AB, 0, 0, rt)
    case Stop(code) => EncodeRR(0x000, 0, code / 0x80, code % 0x80)
    case Halt => EncodeRR(0x1AA, 0, 0, 0)
    case Float(insn, rt, ra, rb, rc) => insn
    case Clear(rt) => EncodeRR(0x00C, 0, 0, rt)
    case Copy(rt, rb) => EncodeRR(0x3D4, rb, 0, rt)
    case Nop => EncodeRR(0x201, 0, 0, 0)
  }

  // ----- Fields come back from where they were put -----

  /** Fields of a word that ends in three 7-bit fields. */
  lemma LowFields(hi: nat, rb: Reg, ra: Reg, rt: Reg)
    ensures var w := hi * 0x20_0000 + rb * 0x4000 + ra * 0x80 + rt;
      w % 128 == rt && w / 0x80 % 128 == ra && w / 0x4000 % 128 == rb && w / 0x20_0000 == hi
  {
    var w := hi * 0x20_0000 + rb * 0x4000 + ra * 0x80 + rt;
    var x := hi * 0x80 + rb;
    DivUnique(w, 0x80, x * 0x80 + ra, rt);
    DivUnique(w, 0x4000, x, ra * 0x80 + rt);
    DivUnique(w, 0x20_0000, hi, rb * 0x4000 + ra * 0x80 + rt);
    DivUnique(x * 0x80 + ra, 0x80, x, ra);
    DivUnique(x, 0x80, hi, rb);
  }

  lemma FieldsRR(op: nat, rb: Reg, ra: Reg, rt: Reg)
    requires op < 0x400
    ensures var w := EncodeRR(op, rb, ra, rt);
      FieldRt(w) == rt && FieldRa(w) == ra && FieldRb(w) == rb && FieldI7(w) == rb && w / 0x20_0000 == op
    ensures FieldCh(EncodeRR(op, rb, ra, rt)) == ra % 0x20
    ensures EncodeRR(op, rb, ra, rt) % 0x4000 == ra * 0x80 + rt
  {
    LowFields(op, rb, ra, rt);
    var w := EncodeRR(op, rb, ra, rt);
    DivUnique(w, 0x4000, op * 0x80 + rb, ra * 0x80 + rt);
    DivUnique(w, 0x80, (op * 0x80 + rb) * 0x80 + ra, rt);
    ModOfSum((op * 0x80 + rb) * 4, ra);
  }

  lemma ModOfSum(k: nat, r: nat)
    ensures (k * 0x20 + r) % 0x20 == r % 0x20
  {
  }

  lemma FieldsRRR(op: nat, rt: Reg, rb: Reg, ra: Reg, rc: Reg)
    requires 8 <= op < 16
    ensures var w := EncodeRRR(op, rt, rb, ra, rc);
      FieldRt(w) == rc && FieldRa(w) == ra && FieldRb(w) == rb && FieldRc(w) == rt && w / 0x1000_0000 == op
  {
    var w := EncodeRRR(op, rt, rb, ra, rc);
    LowFields(op * 0x80 + rt, rb, ra, rc);
    DivUnique(op * 0x80 + rt, 0x80, op, rt);
    DivUnique(w, 0x1000_0000, op, rt * 0x20_0000 + rb * 0x4000 + ra * 0x80 + rc);
  }

  lemma FieldsRI10(op: nat, imm: nat, ra: Reg, rt: Reg)
    requires op < 0x80 && imm < 0x400
    ensures var w := EncodeRI10(op, imm, ra, rt);
      FieldRt(w) == rt && FieldRa(w) == ra && w / 0x4000 % 0x400 == imm && w / 0x100_0000 == op &&
      w / 0x80_0000 == 2 * op + imm / 0x200 && w / 0x200_0000 == op / 2 && w / 0x1000_0000 == op / 0x10
  {
    var w := EncodeRI10(op, imm, ra, rt);
    var x := op * 0x400 + imm;
    DivUnique(w, 0x80, x * 0x80 + ra, rt);
    DivUnique(x * 0x80 + ra, 0x80, x, ra);
    DivUnique(w, 0x4000, x, ra * 0x80 + rt);
    DivUnique(x, 0x400, op, imm);
    DivUnique(w, 0x100_0000, op, imm * 0x4000 + ra * 0x80 + rt);
    DivUnique(w, 0x80_0000, 2 * op + imm / 0x200, imm % 0x200 * 0x4000 + ra * 0x80 + rt);
    DivUnique(w, 0x200_0000, op / 2, op % 2 * 0x100_0000 + imm * 0x4000 + ra * 0x80 + rt);
    DivUnique(w, 0x1000_0000, op / 0x10, op % 0x10 * 0x100_0000 + imm * 0x4000 + ra * 0x80 + rt);
  }

  lemma FieldsRI16(op: nat, imm: nat, rt: Reg)
    requires op < 0x100 && imm < 0x1_0000
    ensures var w := EncodeRI16(op, imm, rt);
      FieldRt(w) == rt && FieldI16U(w) == imm && w / 0x80_0000 == op &&
      w / 0x200_0000 == op / 4 && w / 0x1000_0000 == op / 0x20
  {
    var w := EncodeRI16(op, imm, rt);
    DivUnique(w, 0x80, op * 0x1_0000 + imm, rt);
    DivUnique(op * 0x1_0000 + imm, 0x1_0000, op, imm);
    DivUnique(w, 0x80_0000, op, imm * 0x80 + rt);
    DivUnique(w, 0x200_0000, op / 4, op % 4 * 0x80_0000 + imm * 0x80 + rt);
    DivUnique(w, 0x1000_0000, op / 0x20, op % 0x20 * 0x80_0000 + imm * 0x80 + rt);
  }

  lemma SignExtendLow(v: word, m: word)
    requires m in {0x80, 0x400, 0x1_0000} && Signed(v, m)
    ensures SignExtend(v % m, m) == v
  {
    if v >= m / 2 {
      HighModulo(v, m);
    }
  }

  lemma HighModulo(v: word, m: word)
    requires m in {0x80, 0x400, 0x1_0000} && v >= TWO32 - m / 2
    ensures v % m == v - (TWO32 - m)
  {
    var r := v - (TWO32 - m);
    if m == 0x80 {
      DivUnique(v, 0x80, 0x1FF_FFFF, r);
    } else if m == 0x400 {
      DivUnique(v, 0x400, 0x3F_FFFF, r);
    } else {
      DivUnique(v, 0x1_0000, 0xFFFF, r);
    }
  }

  // ----- No format claims a word of another -----

  /** The nine-bit opcodes of the RI16 format. */
  predicate ClaimedRI16(op: nat) {
    op in {0x040, 0x042, 0x044, 0x046, 0x041, 0x047, 0x061, 0x067, 0x060, 0x062, 0x064, 0x066, 0x065,
           0x081, 0x082, 0x083, 0x0C1}
  }

  predicate ClaimedRI18(op: nat) {
    op in {0x21, 0x08, 0x09}
  }

  predicate ClaimedRI10(op: nat) {
    op in {0x34, 0x24, 0x4F, 0x5F, 0x7F} ||
    ImmediateW(op).Some? || ImmediateH(op).Some? || ImmediateB(op).Some?
  }

  /** An 11-bit opcode none of the shorter formats claims. */
  predicate Unclaimed(op: nat) {
    op < 0x400 && !ClaimedRI18(op / 16) && !ClaimedRI16(op / 4) && !ClaimedRI10(op / 8)
  }

  lemma DecodesAsRR(op: nat, rb: Reg, ra: Reg, rt: Reg)
    requires Unclaimed(op)
    ensures Decode(EncodeRR(op, rb, ra, rt)) == DecodeRR(EncodeRR(op, rb, ra, rt))
  {
    PrefixesRR(op, rb, ra, rt);
    hide EncodeRR, DecodeRR, ImmediateW, ImmediateH, ImmediateB, SignExtend;
  }

  lemma PrefixesRR(op: nat, rb: Reg, ra: Reg, rt: Reg)
    requires op < 0x400
    ensures var w := EncodeRR(op, rb, ra, rt);
      w / 0x80_0000 == op / 4 && w / 0x100_0000 == op / 8 && w / 0x200_0000 == op / 16 && w / 0x1000_0000 == op / 128
  {
  }

  lemma DecodesAsRI10(op: nat, imm: nat, ra: Reg, rt: Reg)
    requires op < 0x80 && imm < 0x400 && ClaimedRI10(op)
    requires !ClaimedRI18(op / 2) && !ClaimedRI16(2 * op) && !ClaimedRI16(2 * op + 1)
    ensures var w := EncodeRI10(op, imm, ra, rt);
      DecodeRI10(w).Found? && Decode(w) == DecodeRI10(w).i
  {
    FieldsRI10(op, imm, ra, rt);
    hide EncodeRI10, ImmediateW, ImmediateH, ImmediateB, SignExtend, ClaimedRI16, DecodeRI16;
    NotRI16(EncodeRI10(op, imm, ra, rt));
  }

  lemma NotRI16(w: word)
    requires !ClaimedRI16(w / 0x80_0000)
    ensures DecodeRI16(w).Missing?
  {
  }
}
