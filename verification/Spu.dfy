/** The SPU interpreter as a state transformer: fetch, decode, execute (`spu_step` and
`spu_run` in `spu_interp.cpp`). The class in `SpuContext.dfy` implements it in place. */
module Spu {
  import opened Bits
  import opened Quad
  import opened Lanes
  import opened SpuDma
  import Shifts

  const EDGE_FIXUP_PC: nat := 0x35FC

  type Reg = r: int | 0 <= r < 128
  type RegFile = g: seq<Quad> | |g| == 128 witness ZeroQuads(128)
  type Lanes2 = v: seq<word> | |v| == 2 witness [0, 0]
  type Counts2 = v: seq<int> | |v| == 2 witness [0, 0]

  /** `spu_ctx_t`, without the trace counters. */
  datatype State = State(
    gpr: RegFile, ls: LocalStore, pc: word, running: bool, stopCode: word,
    mfc: Mfc, inMbox: word, inCount: int, outMbox: word, outCount: int,
    signal: Lanes2, signalCount: Counts2, tagPending: bool, decr: word,
    id: int, insnCount: dword, vm: Memory)

  /** What the host supplies: floating point, and whatever it does with a DMA command to which
  the source gives no meaning. */
  datatype Host = Host(
    fp: (word, Quad, Quad, Quad) -> Quad,
    dma: (Mfc, word, LocalStore, Memory) -> (LocalStore, Memory))

  // ----- Instructions -----

  datatype Operand = FromReg(r: Reg) | Immediate(v: word)

  datatype QuadOp = RotBit | ShrBit | ShlBit | RotByte | ShrByte | ShlByte | RotByteBit | ShrByteBit | ShlByteBit

  datatype Address =
    | Absolute(a: word)
    | Relative(offset: word)
    | Displaced(ra: Reg, d: word)
    | Indexed(ra: Reg, rb: Reg)

  datatype Condition = Always | IfWord(zero: bool) | IfHalf(zero: bool)

  datatype Target = ToAddress(a: word) | ToOffset(offset: word) | ToRegister(ra: Reg)

  datatype Instr =
    | WordLanes(wop: WordOp, rt: Reg, ra: Reg, b: Operand)
    | HalfLanes(hop: HalfOp, rt: Reg, ra: Reg, b: Operand)
    | ByteLanes(bop: ByteOp, rt: Reg, ra: Reg, b: Operand)
    | MultiplyAdd(rt: Reg, ra: Reg, rb: Reg, rc: Reg)
    | Select(rt: Reg, ra: Reg, rb: Reg, rc: Reg)
    | Shuffle(rt: Reg, ra: Reg, rb: Reg, rc: Reg)
    | ShiftQuad(qop: QuadOp, rt: Reg, ra: Reg, b: Operand)
    | Controls(size: nat, rt: Reg, ra: Reg, b: Operand)
    | FormMask(lanes: nat, rt: Reg, b: Operand)
    | Gather(lanes: nat, rt: Reg, ra: Reg)
    | OrAcross(rt: Reg, ra: Reg)
    | SumBytes(rt: Reg, ra: Reg, rb: Reg)
    | ExtendWords(rt: Reg, ra: Reg)
    | Load(rt: Reg, addr: Address)
    | Store(rt: Reg, addr: Address)
    | Branch(cond: Condition, link: bool, rt: Reg, target: Target)
    | LinkOnly(rt: Reg)
    | ReadChannel(rt: Reg, ch: nat)
    | WriteChannel(rt: Reg, ch: nat)
    | CountChannel(rt: Reg, ch: nat)
    | Stop(code: word)
    | Halt
    | Clear(rt: Reg)
    | Copy(rt: Reg, rb: Reg)
    | Float(insn: word, rt: Reg, ra: Reg, rb: Reg, rc: Reg)
    | Nop

  predicate LaneCount(n: nat) { n == 4 || n == 8 || n == 16 }

  /** Bytes in one of `n` equal lanes. */
  function LaneBytes(n: nat): (w: nat)
    requires LaneCount(n)
    ensures n * w == 16
  {
    if n == 4 then 4 else if n == 8 then 2 else 1
  }

  predicate ControlSize(n: nat) { n == 1 || n == 2 || n == 4 || n == 8 }

  predicate WellFormed(i: Instr) {
    (i.Controls? ==> ControlSize(i.size)) &&
    (i.FormMask? ==> LaneCount(i.lanes)) &&
    (i.Gather? ==> LaneCount(i.lanes))
  }

  // ----- Decode -----

  function FieldRt(insn: word): Reg { insn % 128 }
  function FieldRa(insn: word): Reg { insn / 0x80 % 128 }
  function FieldRb(insn: word): Reg { insn / 0x4000 % 128 }
  function FieldRc(insn: word): Reg { insn / 0x20_0000 % 128 }
  function FieldI7(insn: word): word { insn / 0x4000 % 0x80 }
  function FieldI10(insn: word): word { SignExtend(insn / 0x4000 % 0x400, 0x400) }
  function FieldI16(insn: word): word { SignExtend(FieldI16U(insn), 0x1_0000) }
  function FieldI16U(insn: word): word { insn / 0x80 % 0x1_0000 }
  function FieldI18(insn: word): word { insn / 0x80 % 0x4_0000 }
  function FieldCh(insn: word): nat { insn / 0x80 % 0x20 }

  /** Sign extension to 32 bits of a field with `m` values. */
  function SignExtend(v: word, m: word): word
    requires v < m
  {
    if v < m / 2 then v else v + (TWO32 - m)
  }

  datatype Decoded = Found(i: Instr) | Missing

  function Decode(insn: word): (i: Instr)
    ensures WellFormed(i)
  {
    if insn / 0x1000_0000 >= 8 then DecodeRRR(insn)
    else if DecodeRI18(insn).Found? then DecodeRI18(insn).i
    else if DecodeRI16(insn).Found? then DecodeRI16(insn).i
    else if DecodeRI10(insn).Found? then DecodeRI10(insn).i
    else DecodeRR(insn)
  }

  function DecodeRRR(insn: word): (i: Instr)
    ensures WellFormed(i)
  {
    var op := insn / 0x1000_0000;
    var rt, ra, rb, rc := FieldRc(insn), FieldRa(insn), FieldRb(insn), FieldRt(insn);
    if op == 0x8 then Select(rt, ra, rb, rc)
    else if op == 0xB then Shuffle(rt, ra, rb, rc)
    else if op == 0xC then MultiplyAdd(rt, ra, rb, rc)
    else if op == 0xD || op == 0xE || op == 0xF then Float(insn, rt, ra, rb, rc)
    else Nop
  }

  function DecodeRI18(insn: word): (d: Decoded)
    ensures d.Found? ==> WellFormed(d.i)
  {
    var op := insn / 0x200_0000;
    if op == 0x21 then Found(WordLanes(WCopy, FieldRt(insn), 0, Immediate(FieldI18(insn))))
    else if op == 0x08 || op == 0x09 then Found(Nop)
    else Missing
  }

  function DecodeRI16(insn: word): (d: Decoded)
    ensures d.Found? ==> WellFormed(d.i)
  {
    var op := insn / 0x80_0000;
    var rt := FieldRt(insn);
    var u := FieldI16U(insn);
    var off := Wrap32(FieldI16(insn) * 4);
    if op == 0x040 then Found(Branch(IfWord(true), false, rt, ToOffset(off)))
    else if op == 0x042 then Found(Branch(IfWord(false), false, rt, ToOffset(off)))
    else if op == 0x044 then Found(Branch(IfHalf(true), false, rt, ToOffset(off)))
    else if op == 0x046 then Found(Branch(IfHalf(false), false, rt, ToOffset(off)))
    else if op == 0x041 then Found(Store(rt, Absolute(u * 4)))
    else if op == 0x047 then Found(Store(rt, Relative(off)))
    else if op == 0x061 then Found(Load(rt, Absolute(u * 4)))
    else if op == 0x067 then Found(Load(rt, Relative(off)))
    else if op == 0x060 then Found(Branch(Always, false, rt, ToAddress(u * 4)))
    else if op == 0x062 then Found(Branch(Always, true, rt, ToAddress(u * 4)))
    else if op == 0x064 then Found(Branch(Always, false, rt, ToOffset(off)))
    else if op == 0x066 then Found(Branch(Always, true, rt, ToOffset(off)))
    else if op == 0x065 then Found(FormMask(16, rt, Immediate(u)))
    else if op == 0x081 then Found(WordLanes(WCopy, rt, 0, Immediate(SignExtend(u, 0x1_0000))))
    else if op == 0x082 then Found(WordLanes(WCopy, rt, 0, Immediate(u * 0x1_0000)))
    else if op == 0x083 then Found(HalfLanes(HCopy, rt, 0, Immediate(u)))
    else if op == 0x0C1 then Found(WordLanes(WOrInto, rt, 0, Immediate(u)))
    else Missing
  }

  function DecodeRI10(insn: word): (d: Decoded)
    ensures d.Found? ==> WellFormed(d.i)
  {
    var op := insn / 0x100_0000;
    var rt, ra, imm := FieldRt(insn), FieldRa(insn), Immediate(FieldI10(insn));
    if op == 0x34 then Found(Load(rt, Displaced(ra, Wrap32(imm.v * 16))))
    else if op == 0x24 then Found(Store(rt, Displaced(ra, Wrap32(imm.v * 16))))
    else if op == 0x4F || op == 0x5F || op == 0x7F then Found(Nop)
    else if ImmediateW(op).Some? then Found(WordLanes(ImmediateW(op).op, rt, ra, imm))
    else if ImmediateH(op).Some? then Found(HalfLanes(ImmediateH(op).op, rt, ra, imm))
    else if ImmediateB(op).Some? then Found(ByteLanes(ImmediateB(op).op, rt, ra, imm))
    else Missing
  }

  datatype Entry<T> = Some(op: T) | None

  function ImmediateW(op: nat): Entry<WordOp> {
    if op == 0x1C then Some(WAdd) else if op == 0x0C then Some(WSubFrom)
    else if op == 0x14 then Some(WAnd) else if op == 0x04 then Some(WOr) else if op == 0x44 then Some(WXor)
    else if op == 0x7C then Some(WCeq) else if op == 0x4C then Some(WCgt) else if op == 0x5C then Some(WClgt)
    else if op == 0x74 then Some(WMpy) else if op == 0x75 then Some(WMpyu)
    else None
  }

  function ImmediateH(op: nat): Entry<HalfOp> {
    if op == 0x1D then Some(HAdd) else if op == 0x0D then Some(HSubFrom)
    else if op == 0x15 then Some(HAnd) else if op == 0x05 then Some(HOr) else if op == 0x45 then Some(HXor)
    else if op == 0x7D then Some(HCeq) else if op == 0x4D then Some(HCgt) else if op == 0x5D then Some(HClgt)
    else None
  }

  function ImmediateB(op: nat): Entry<ByteOp> {
    if op == 0x16 then Some(BAnd) else if op == 0x06 then Some(BOr) else if op == 0x46 then Some(BXor)
    else if op == 0x7E then Some(BCeq) else if op == 0x4E then Some(BCgt) else if op == 0x5E then Some(BClgt)
    else None
  }

  function DecodeRR(insn: word): (i: Instr)
    ensures WellFormed(i)
  {
    var op := insn / 0x20_0000;
    var rt, ra, rb, i7 := FieldRt(insn), FieldRa(insn), FieldRb(insn), Immediate(FieldI7(insn));
    if RegisterW(op).Some? then WordLanes(RegisterW(op).op, rt, ra, FromReg(rb))
    else if RegisterH(op).Some? then HalfLanes(RegisterH(op).op, rt, ra, FromReg(rb))
    else if RegisterB(op).Some? then ByteLanes(RegisterB(op).op, rt, ra, FromReg(rb))
    else if ShiftImmW(op).Some? then WordLanes(ShiftImmW(op).op, rt, ra, i7)
    else if ShiftImmH(op).Some? then HalfLanes(ShiftImmH(op).op, rt, ra, i7)
    else if QuadReg(op).Some? then ShiftQuad(QuadReg(op).op, rt, ra, FromReg(rb))
    else if QuadImm(op).Some? then ShiftQuad(QuadImm(op).op, rt, ra, i7)
    else DecodeMisc(insn)
  }

  function DecodeMisc(insn: word): (i: Instr)
    ensures WellFormed(i)
  {
    var op := insn / 0x20_0000;
    var rt, ra, rb, ch := FieldRt(insn), FieldRa(insn), FieldRb(insn), FieldCh(insn);
    var disp := Immediate(SignExtend(FieldI7(insn), 0x80));
    if op == 0x1C4 then Load(rt, Indexed(ra, rb))
    else if op == 0x144 then Store(rt, Indexed(ra, rb))
    else if 0x1F4 <= op <= 0x1F7 then Controls([1, 2, 4, 8][op - 0x1F4], rt, ra, disp)
    else if 0x1D4 <= op <= 0x1D7 then Controls([1, 2, 4, 8][op - 0x1D4], rt, ra, FromReg(rb))
    else if 0x1B4 <= op <= 0x1B6 then FormMask([4, 8, 16][op - 0x1B4], rt, FromReg(ra))
    else if 0x1B0 <= op <= 0x1B2 then Gather([4, 8, 16][op - 0x1B0], rt, ra)
    else if op == 0x1F0 then OrAcross(rt, ra)
    else if op == 0x253 then SumBytes(rt, ra, rb)
    else if op == 0x2A6 then ExtendWords(rt, ra)
    else if op == 0x00D then ReadChannel(rt, ch)
    else if op == 0x10D then WriteChannel(rt, ch)
    else if op == 0x00F then CountChannel(rt, ch)
    else DecodeControl(insn)
  }

  function DecodeControl(insn: word): (i: Instr)
    ensures WellFormed(i)
  {
    var op := insn / 0x20_0000;
    var rt, ra, rb := FieldRt(insn), FieldRa(insn), FieldRb(insn);
    if op == 0x000 || op == 0x140 then Stop(insn % 0x4000)
    else if op == 0x1AA then Halt
    else if op == 0x1A8 then Branch(Always, false, rt, ToRegister(ra))
    else if op == 0x1A9 then Branch(Always, true, rt, ToRegister(ra))
    else if op == 0x1AB then LinkOnly(rt)
    else if op == 0x128 then Branch(IfWord(true), false, rt, ToRegister(ra))
    else if op == 0x129 then Branch(IfWord(false), false, rt, ToRegister(ra))
    else if op == 0x12A then Branch(IfHalf(true), false, rt, ToRegister(ra))
    else if op == 0x12B then Branch(IfHalf(false), false, rt, ToRegister(ra))
    else if op == 0x00C || op == 0x398 then Clear(rt)
    else if op == 0x3D4 then Copy(rt, rb)
    else if FloatOp(op) then Float(insn, rt, ra, rb, rt)
    else Nop
  }

  predicate FloatOp(op: nat) {
    op in {0x2C4, 0x2C5, 0x2C6, 0x3C2, 0x3CA, 0x2C2, 0x2CA, 0x1B8, 0x1B9} ||
    op in {0x2CC, 0x2CD, 0x2CE, 0x35C, 0x35D, 0x35E, 0x35F, 0x3C3, 0x3CB, 0x2C3, 0x2CB, 0x3B8, 0x3B9} ||
    0x3B0 <= op <= 0x3B7
  }

  function RegisterW(op: nat): Entry<WordOp> {
    if op == 0x0C0 then Some(WAdd) else if op == 0x040 then Some(WSubFrom)
    else if op == 0x0C2 then Some(WCarry) else if op == 0x042 then Some(WBorrow)
    else if op == 0x340 then Some(WAddx) else if op == 0x341 then Some(WSfx)
    else if op == 0x342 then Some(WCgx) else if op == 0x343 then Some(WBgx)
    else if op == 0x2A5 then Some(WClz) else if op == 0x2AE then Some(WXshw)
    else if op == 0x058 then Some(WRot) else if op == 0x059 then Some(WRotm)
    else if op == 0x05A then Some(WRotma) else if op == 0x05B then Some(WShl)
    else if op == 0x3C0 then Some(WCeq) else if op == 0x240 then Some(WCgt) else if op == 0x2C0 then Some(WClgt)
    else if op == 0x3C4 then Some(WMpy) else if op == 0x3CC then Some(WMpyu)
    else if op == 0x3C5 then Some(WMpyh) else if op == 0x3C7 then Some(WMpys)
    else if op == 0x3C6 then Some(WMpyhh) else if op == 0x3CE then Some(WMpyhhu)
    else if op == 0x346 then Some(WMpyhha) else if op == 0x34E then Some(WMpyhhau)
    else None
  }

  function RegisterH(op: nat): Entry<HalfOp> {
    if op == 0x0C8 then Some(HAdd) else if op == 0x048 then Some(HSubFrom)
    else if op == 0x2B6 then Some(HXsbh)
    else if op == 0x05C then Some(HRot) else if op == 0x05D then Some(HRotm)
    else if op == 0x05E then Some(HRotma) else if op == 0x05F then Some(HShl)
    else if op == 0x3C8 then Some(HCeq) else if op == 0x248 then Some(HCgt) else if op == 0x2C8 then Some(HClgt)
    else None
  }

  function RegisterB(op: nat): Entry<ByteOp> {
    if op == 0x053 then Some(BAbsdb) else if op == 0x0D3 then Some(BAvgb) else if op == 0x2B4 then Some(BCntb)
    else if op == 0x0C1 then Some(BAnd) else if op == 0x041 then Some(BOr) else if op == 0x241 then Some(BXor)
    else if op == 0x0C9 then Some(BNand) else if op == 0x049 then Some(BNor)
    else if op == 0x2C1 then Some(BAndc) else if op == 0x2C9 then Some(BOrc) else if op == 0x249 then Some(BEqv)
    else if op == 0x3D0 then Some(BCeq) else if op == 0x250 then Some(BCgt) else if op == 0x2D0 then Some(BClgt)
    else None
  }

  function ShiftImmW(op: nat): Entry<WordOp> {
    if op == 0x078 then Some(WRot) else if op == 0x079 then Some(WRotm)
    else if op == 0x07A then Some(WRotma) else if op == 0x07B then Some(WShl)
    else None
  }

  function ShiftImmH(op: nat): Entry<HalfOp> {
    if op == 0x07C then Some(HRot) else if op == 0x07D then Some(HRotm)
    else if op == 0x07E then Some(HRotma) else if op == 0x07F then Some(HShl)
    else None
  }

  function QuadReg(op: nat): Entry<QuadOp> {
    if op == 0x1D8 then Some(RotBit) else if op == 0x1D9 then Some(ShrBit) else if op == 0x1DB then Some(ShlBit)
    else if op == 0x1DC then Some(RotByte) else if op == 0x1DD then Some(ShrByte) else if op == 0x1DF then Some(ShlByte)
    else if op == 0x1CC then Some(RotByteBit) else if op == 0x1CD then Some(ShrByteBit)
    else if op == 0x1CF then Some(ShlByteBit)
    else None
  }

  function QuadImm(op: nat): Entry<QuadOp> {
    if op == 0x1F8 then Some(RotBit) else if op == 0x1F9 then Some(ShrBit) else if op == 0x1FB then Some(ShlBit)
    else if op == 0x1FC then Some(RotByte) else if op == 0x1FD then Some(ShrByte) else if op == 0x1FF then Some(ShlByte)
    else None
  }

  // ----- What instructions compute -----

  /** The second operand, lane by lane. */
  function OperandW(g: RegFile, b: Operand, i: nat): word
    requires i < 4
  {
    if b.FromReg? then GetW(g[b.r], i) else b.v
  }

  function OperandH(g: RegFile, b: Operand, i: nat): half
    requires i < 8
  {
    if b.FromReg? then GetH(g[b.r], i) else b.v % 0x1_0000
  }

  function OperandB(g: RegFile, b: Operand, i: nat): byte
    requires i < 16
  {
    if b.FromReg? then g[b.r][i] else b.v % 0x100
  }

  function LaneW(op: WordOp, g: RegFile, rt: Reg, ra: Reg, b: Operand, i: nat): word
    requires i < 4
  {
    EvalW(op, GetW(g[ra], i), OperandW(g, b, i), GetW(g[rt], i))
  }

  function LaneH(op: HalfOp, g: RegFile, ra: Reg, b: Operand, i: nat): half
    requires i < 8
  {
    EvalH(op, GetH(g[ra], i), OperandH(g, b, i))
  }

  function LaneB(op: ByteOp, g: RegFile, ra: Reg, b: Operand, i: nat): byte
    requires i < 16
  {
    EvalB(op, g[ra][i], OperandB(g, b, i), 0)
  }

  function ResultW(op: WordOp, g: RegFile, rt: Reg, ra: Reg, b: Operand): Quad {
    OfWords([LaneW(op, g, rt, ra, b, 0), LaneW(op, g, rt, ra, b, 1),
             LaneW(op, g, rt, ra, b, 2), LaneW(op, g, rt, ra, b, 3)])
  }

  function ResultH(op: HalfOp, g: RegFile, ra: Reg, b: Operand): Quad {
    OfHalves(seq(8, i requires 0 <= i < 8 => LaneH(op, g, ra, b, i)))
  }

  function ResultB(op: ByteOp, g: RegFile, ra: Reg, b: Operand): Quad {
    seq(16, i requires 0 <= i < 16 => LaneB(op, g, ra, b, i))
  }

  function MultiplyAddQ(a: Quad, b: Quad, c: Quad): Quad {
    OfWords([EvalW(WMpya, GetW(a, 0), GetW(b, 0), GetW(c, 0)), EvalW(WMpya, GetW(a, 1), GetW(b, 1), GetW(c, 1)),
             EvalW(WMpya, GetW(a, 2), GetW(b, 2), GetW(c, 2)), EvalW(WMpya, GetW(a, 3), GetW(b, 3), GetW(c, 3))])
  }

  function SelectQ(a: Quad, b: Quad, c: Quad): Quad {
    seq(16, i requires 0 <= i < 16 => EvalB(BSel, a[i], b[i], c[i]))
  }

  /** One byte of `shufb`: the control byte's top bits choose a constant or a byte of RA ++ RB. */
  function ShuffleByte(a: Quad, b: Quad, sel: byte): byte {
    if sel / 0x40 == 2 then 0x00
    else if sel / 0x20 == 6 then 0xFF
    else if sel / 0x20 == 7 then 0x80
    else (a + b)[sel % 0x20]
  }

  function ShuffleQ(a: Quad, b: Quad, c: Quad): Quad {
    seq(16, i requires 0 <= i < 16 => ShuffleByte(a, b, c[i]))
  }

  function ShiftQ(op: QuadOp, q: Quad, c: word): Quad {
    match op
    case RotBit => Shifts.RotBits(q, c % 8)
    case ShrBit => Shifts.ShrBits(q, NegMod(c, 8))
    case ShlBit => Shifts.ShlBits(q, c % 8)
    case RotByte => Shifts.RotBytes(q, c % 16)
    case ShrByte => Shifts.ShrBytes(q, NegMod(c, 32))
    case ShlByte => Shifts.ShlBytes(q, c % 32)
    case RotByteBit => Shifts.RotBytes(q, c / 8 % 16)
    case ShrByteBit => Shifts.ShrBytes(q, NegMod(c / 8, 32))
    case ShlByteBit => Shifts.ShlBytes(q, c / 8 % 32)
  }

  /** Start of the `size`-byte element that holds byte `pos` of a quadword. */
  function ElementStart(pos: nat, size: nat): (p: nat)
    requires ControlSize(size)
    ensures p + size <= 16 && p % size == 0 && p <= pos % 16 < p + size
  {
    pos % 16 / size * size
  }

  function ControlsQ(pos: nat, size: nat): Quad
    requires ControlSize(size)
  {
    var p := ElementStart(pos, size);
    seq(16, k requires 0 <= k < 16 => if p <= k < p + size then k - p else 0x10 + k)
  }

  /** All-ones lanes where the mask has a one, the leftmost lane taking the highest of `n` bits. */
  function FormMaskQ(n: nat, m: word): Quad
    requires LaneCount(n)
  {
    seq(16, k requires 0 <= k < 16 => Mask8(Bit(n - 1 - k / LaneBytes(n), m)))
  }

  /** Least significant bit of lane `i` of `n`. */
  function LaneLsb(n: nat, q: Quad, i: nat): (b: nat)
    requires LaneCount(n) && i < n
    ensures b < 2
  {
    q[LaneBytes(n) * (i + 1) - 1] % 2
  }

  function GatherBits(n: nat, q: Quad, i: nat): nat
    requires LaneCount(n) && i <= n
  {
    if i == 0 then 0 else 2 * GatherBits(n, q, i - 1) + LaneLsb(n, q, i - 1)
  }

  lemma {:induction false} GatherBitsBound(n: nat, q: Quad, i: nat)
    requires LaneCount(n) && i <= n
    ensures GatherBits(n, q, i) < Pow2(i)
  {
    if i > 0 { GatherBitsBound(n, q, i - 1); }
  }

  /** A register with `v` in its preferred word and zeros elsewhere. */
  function Preferred(v: word): Quad {
    SetW(Zeros(16), 0, v)
  }

  function OrAcrossQ(a: Quad): Quad {
    Preferred(Wrap32(Or(Or(Or(GetW(a, 0), GetW(a, 1)), GetW(a, 2)), GetW(a, 3))))
  }

  function ByteSum(q: Quad, i: nat): half
    requires i < 4
  {
    q[4 * i] as int + q[4 * i + 1] + q[4 * i + 2] + q[4 * i + 3]
  }

  function SumBytesQ(a: Quad, b: Quad): Quad {
    OfHalves([ByteSum(b, 0), ByteSum(a, 0), ByteSum(b, 1), ByteSum(a, 1),
              ByteSum(b, 2), ByteSum(a, 2), ByteSum(b, 3), ByteSum(a, 3)])
  }

  function ExtendQ(a: Quad): Quad {
    OfWords([Mask32(S32(GetW(a, 1)) < 0), GetW(a, 1), Mask32(S32(GetW(a, 3)) < 0), GetW(a, 3)])
  }

  // ----- Local store -----

  function AlignDown(x: nat, m: nat): (r: nat)
    requires m > 0
  {
    x / m * m
  }

  function Read32(ls: LocalStore, addr: word): word {
    var p := AlignDown(addr % LS_SIZE, 4);
    Be32(ls[p], ls[p + 1], ls[p + 2], ls[p + 3])
  }

  function QuadAddr(x: nat): (p: nat)
    ensures p % 16 == 0 && p + 16 <= LS_SIZE
  {
    AlignDown(x % LS_SIZE, 16)
  }

  function Write128(ls: LocalStore, p: nat, q: Quad): (r: LocalStore)
    requires p + 16 <= LS_SIZE
  {
    Spliced(ls, p, q)
  }

  function Effective(g: RegFile, pc: word, a: Address): (p: nat)
    ensures p % 16 == 0 && p + 16 <= LS_SIZE
  {
    match a
    case Absolute(x) => QuadAddr(x)
    case Relative(off) => QuadAddr(Wrap32(pc + off))
    case Displaced(ra, d) => QuadAddr(Wrap32(GetW(g[ra], 0) + d))
    case Indexed(ra, rb) => QuadAddr(Wrap32(GetW(g[ra], 0) + GetW(g[rb], 0)))
  }

  // ----- Channels -----

  function ReadCh(s: State, ch: nat): (State, word) {
    if ch == 24 then (s.(tagPending := false), s.mfc.tagMask)
    else if ch == 29 then
      if s.inCount > 0 then (s.(inCount := 0), s.inMbox) else (s.(running := false), 0)
    else if ch == 3 || ch == 4 then
      var k := ch - 3;
      if s.signalCount[k] != 0
      then (s.(signalCount := s.signalCount[k := s.signalCount[k] - 1]), s.signal[k])
      else (s.(running := false), 0)
    else if ch == 8 then (s, s.decr)
    else if ch == 15 then (s, s.pc)
    else (s, 0)
  }

  function CountCh(s: State, ch: nat): word {
    if ch == 29 then Wrap32(s.inCount)
    else if ch == 28 then (if s.outCount == 0 then 1 else 0)
    else if ch == 23 || ch == 24 then 1
    else if ch == 3 || ch == 4 then Wrap32(s.signalCount[ch - 3])
    else 0
  }

  /** A DMA command. */
  function Dma(h: Host, m: Mfc, cmd: word, ls: LocalStore, vm: Memory): (LocalStore, Memory) {
    match Transfer(m, cmd, ls, vm)
    case Moved(ls', vm') => (ls', vm')
    case Undefined => h.dma(m, cmd, ls, vm)
  }

  function WriteCh(h: Host, s: State, ch: nat, v: word): State {
    if ch == 16 then s.(mfc := s.mfc.(lsa := v))
    else if ch == 17 then s.(mfc := s.mfc.(eah := v))
    else if ch == 18 then s.(mfc := s.mfc.(eal := v))
    else if ch == 19 then s.(mfc := s.mfc.(size := v))
    else if ch == 20 then s.(mfc := s.mfc.(tag := v))
    else if ch == 21 then var r := Dma(h, s.mfc, v, s.ls, s.vm); s.(ls := r.0, vm := r.1)
    else if ch == 22 then s.(mfc := s.mfc.(tagMask := v))
    else if ch == 23 then s.(tagPending := true)
    else if ch == 28 || ch == 30 then s.(outMbox := v, outCount := 1)
    else if ch == 7 then s.(decr := v)
    else if ch == 14 then s.(pc := v)
    else s
  }

  // ----- Branches -----

  predicate Taken(c: Condition, q: Quad) {
    match c
    case Always => true
    case IfWord(zero) => (GetW(q, 0) == 0) == zero
    case IfHalf(zero) => (GetW(q, 0) % 0x1_0000 == 0) == zero
  }

  function Destination(g: RegFile, pc: word, t: Target): word {
    match t
    case ToAddress(a) => a % LS_SIZE
    case ToOffset(off) => Wrap32(pc + off) % LS_SIZE
    case ToRegister(ra) => AlignDown(GetW(g[ra], 0) % LS_SIZE, 4)
  }

  // ----- Execute -----

  /** The register an instruction computes from the register file alone. */
  predicate Pure(i: Instr) {
    i.WordLanes? || i.HalfLanes? || i.ByteLanes? || i.MultiplyAdd? || i.Select? || i.Shuffle? || i.ShiftQuad? ||
    i.Controls? || i.FormMask? || i.Gather? || i.OrAcross? || i.SumBytes? || i.ExtendWords? || i.Clear? || i.Copy?
  }

  function Compute(i: Instr, g: RegFile): Quad
    requires WellFormed(i) && Pure(i)
  {
    match i
    case WordLanes(op, rt, ra, b) => ResultW(op, g, rt, ra, b)
    case HalfLanes(op, rt, ra, b) => ResultH(op, g, ra, b)
    case ByteLanes(op, rt, ra, b) => ResultB(op, g, ra, b)
    case MultiplyAdd(rt, ra, rb, rc) => MultiplyAddQ(g[ra], g[rb], g[rc])
    case Select(rt, ra, rb, rc) => SelectQ(g[ra], g[rb], g[rc])
    case Shuffle(rt, ra, rb, rc) => ShuffleQ(g[ra], g[rb], g[rc])
    case ShiftQuad(op, rt, ra, b) => ShiftQ(op, g[ra], OperandW(g, b, 0))
    case Controls(size, rt, ra, b) => ControlsQ(Wrap32(GetW(g[ra], 0) + OperandW(g, b, 0)), size)
    case FormMask(n, rt, b) => FormMaskQ(n, OperandW(g, b, 0))
    case Gather(n, rt, ra) => Preferred(Wrap32(GatherBits(n, g[ra], n)))
    case OrAcross(rt, ra) => OrAcrossQ(g[ra])
    case SumBytes(rt, ra, rb) => SumBytesQ(g[ra], g[rb])
    case ExtendWords(rt, ra) => ExtendQ(g[ra])
    case Clear(rt) => Zeros(16)
    case Copy(rt, rb) => g[rb]
  }

  function DoBranch(s: State, pc: word, c: Condition, link: bool, rt: Reg, t: Target): State {
    if Taken(c, s.gpr[rt])
    then s.(gpr := if link then s.gpr[rt := Preferred(s.pc)] else s.gpr, pc := Destination(s.gpr, pc, t))
    else s
  }

  function DoRead(s: State, rt: Reg, ch: nat): State {
    var r := ReadCh(s, ch);
    r.0.(gpr := s.gpr[rt := Preferred(r.1)])
  }

  /** Executes `i`, fetched at `pc`, in a state whose program counter has already moved on. */
  function Exec(h: Host, i: Instr, pc: word, s: State): State
    requires WellFormed(i)
  {
    if Pure(i) then s.(gpr := s.gpr[i.rt := Compute(i, s.gpr)])
    else match i
    case Load(rt, a) =>
      var p := Effective(s.gpr, pc, a);
      s.(gpr := s.gpr[rt := s.ls[p..p + 16]])
    case Store(rt, a) => s.(ls := Write128(s.ls, Effective(s.gpr, pc, a), s.gpr[rt]))
    case Branch(c, link, rt, t) => DoBranch(s, pc, c, link, rt, t)
    case LinkOnly(rt) => s.(gpr := s.gpr[rt := Preferred(s.pc)])
    case ReadChannel(rt, ch) => DoRead(s, rt, ch)
    case WriteChannel(rt, ch) => WriteCh(h, s, ch, GetW(s.gpr[rt], 0))
    case CountChannel(rt, ch) => s.(gpr := s.gpr[rt := Preferred(CountCh(s, ch))])
    case Stop(code) => s.(stopCode := code, running := false)
    case Halt => s.(running := false)
    case Float(insn, rt, ra, rb, rc) => s.(gpr := s.gpr[rt := h.fp(insn, s.gpr[ra], s.gpr[rb], s.gpr[rc])])
    case Nop => s
  }

  /** The stream-descriptor patch applied before the instruction at 0x35FC of SPU 2. */
  function EdgeFixup(s: State, pc: word): State {
    if pc == EDGE_FIXUP_PC && s.id == 2 then
      var at := QuadAddr(Wrap32(GetW(s.gpr[49], 0) + GetW(s.gpr[124], 0)));
      var redirect := at < 0x80;
      var p := if redirect then 0xADD0 else at;
      var g := if redirect then s.gpr[49 := SetW(s.gpr[49], 0, p)][124 := SetW(s.gpr[124], 0, 0)] else s.gpr;
      s.(gpr := g, ls := s.ls[p + 4 := 0xD0][p + 5 := 0x10][p + 6 := 0x00][p + 7 := 0x00])
    else s
  }

  function Step(h: Host, s: State): State {
    var pc := s.pc % LS_SIZE;
    var s1 := EdgeFixup(s, pc);
    Exec(h, Decode(Read32(s1.ls, pc)), pc, s1.(pc := (pc + 4) % LS_SIZE))
  }


  function Counted(s: State): State {
    s.(insnCount := (s.insnCount + 1) % TWO64)
  }

  /** State after at most `max` instructions, and the number executed. */
  function Run(h: Host, s: State, max: nat): (State, nat)
    decreases max
  {
    if !s.running || max == 0 then (s, 0)
    else var r := Run(h, Counted(Step(h, s)), max - 1); (r.0, r.1 + 1)
  }
}
