/** Loads, stores, branches, channels and stops do what their instruction words say. */
module SpuIsaControl {
  import opened Bits
  import opened Quad
  import opened Lanes
  import opened Spu
  import opened SpuCode
  import opened SpuDecode
  import opened SpuFetch

  // ----- Loads and stores -----

  /** The instructions that load or store a quadword. */
  predicate IsMemory(w: word) {
    w / 0x80_0000 in {0x061, 0x067, 0x041, 0x047} || w / 0x100_0000 in {0x34, 0x24} || w / 0x20_0000 in {0x1C4, 0x144}
  }

  predicate IsStore(w: word) {
    w / 0x80_0000 in {0x041, 0x047} || w / 0x100_0000 == 0x24 || w / 0x20_0000 == 0x144
  }

  /** The address as an integer: absolute, relative to the program counter, displaced, or indexed. */
  function AddressOf(s: State, w: word): int {
    if w / 0x80_0000 in {0x061, 0x041} then 4 * FieldI16U(w)
    else if w / 0x80_0000 in {0x067, 0x047} then s.pc + 4 * S16(FieldI16U(w))
    else if w / 0x100_0000 in {0x34, 0x24} then GetW(s.gpr[FieldRa(w)], 0) + 16 * S32(FieldI10(w))
    else GetW(s.gpr[FieldRa(w)], 0) + GetW(s.gpr[FieldRb(w)], 0)
  }

  function DecodedAddress(w: word): Address {
    if w / 0x80_0000 in {0x061, 0x041} then Absolute(4 * FieldI16U(w))
    else if w / 0x80_0000 in {0x067, 0x047} then Relative(Wrap32(FieldI16(w) * 4))
    else if w / 0x100_0000 in {0x34, 0x24} then Displaced(FieldRa(w), Wrap32(FieldI10(w) * 16))
    else Indexed(FieldRa(w), FieldRb(w))
  }

  function MemoryInstr(w: word): Instr {
    if IsStore(w) then Store(FieldRt(w), DecodedAddress(w)) else Load(FieldRt(w), DecodedAddress(w))
  }

  lemma DecodedMemory(w: word)
    requires IsMemory(w)
    ensures Decode(w) == MemoryInstr(w)
  {
    if w / 0x80_0000 in {0x061, 0x067, 0x041, 0x047} {
      Memory16(w);
    } else if w / 0x100_0000 in {0x34, 0x24} {
      Memory10(w);
    } else {
      MemoryRR(w);
    }
  }

  lemma Memory16(w: word)
    requires w / 0x80_0000 in {0x061, 0x067, 0x041, 0x047}
    ensures IsStore(w) <==> w / 0x80_0000 in {0x041, 0x047}
    ensures Decode(w) == MemoryInstr(w)
  {
    Prefixes(w);
    hide Decode, SignExtend, Wrap32, FieldI16;
    DecodesRI16(w);
  }

  /** A shorter opcode begins a longer one. */
  lemma Prefixes(w: word)
    ensures w / 0x100_0000 == w / 0x80_0000 / 2 && w / 0x80_0000 == w / 0x20_0000 / 4
  {
    var c := w / 0x20_0000;
    var d := c / 4;
    DivUnique(w, 0x80_0000, d, c % 4 * 0x20_0000 + w % 0x20_0000);
    DivUnique(w, 0x100_0000, d / 2, d % 2 * 0x80_0000 + w % 0x80_0000);
  }

  lemma Memory10(w: word)
    requires w / 0x100_0000 in {0x34, 0x24}
    ensures IsStore(w) <==> w / 0x100_0000 == 0x24
    ensures Decode(w) == MemoryInstr(w)
  {
    var c := w / 0x100_0000;
    Prefixes(w);
    SplitRI10(w);
    hide Decode, EncodeRI10, FieldI10, Signed, Wrap32;
    DecodesAs10(c, FieldI10(w), FieldRa(w), FieldRt(w));
  }

  lemma MemoryRR(w: word)
    requires w / 0x20_0000 in {0x1C4, 0x144}
    ensures IsStore(w) <==> w / 0x20_0000 == 0x144
    ensures Decode(w) == MemoryInstr(w)
  {
    Prefixes(w);
    hide Decode, SignExtend, FieldI10;
    DecodesMisc(w);
  }

  /** The quadword of an address: the address modulo the size of local store, rounded down. */
  function QuadwordOf(x: int): (p: nat)
    ensures p + 16 <= 0x4_0000
  {
    x % 0x4_0000 / 16 * 16
  }

  lemma QuadAddrWraps(x: int, y: word)
    requires y == Wrap32(x)
    ensures QuadAddr(y) == QuadwordOf(x)
  {
    ModTurn(x, 0x4_0000, -(x / TWO32 * 0x4000));
  }

  lemma EffectiveIs(s: State, w: word)
    requires IsMemory(w)
    ensures Effective(s.gpr, s.pc % 0x4_0000, DecodedAddress(w)) == QuadwordOf(AddressOf(s, w))
  {
    hide GetW, QuadAddr, QuadwordOf, FieldI10, S32, S16, SignExtend;
    if w / 0x80_0000 in {0x061, 0x041} {
      QuadAddrWraps(4 * FieldI16U(w), 4 * FieldI16U(w));
    } else if w / 0x80_0000 in {0x067, 0x047} {
      RelativeIs(s.pc, FieldI16U(w));
    } else if w / 0x100_0000 in {0x34, 0x24} {
      DisplacedIs(GetW(s.gpr[FieldRa(w)], 0), FieldI10(w));
    } else {
      var x := GetW(s.gpr[FieldRa(w)], 0) + GetW(s.gpr[FieldRb(w)], 0);
      QuadAddrWraps(x, Wrap32(x));
    }
  }

  lemma RelativeIs(pc: word, u: half)
    ensures QuadAddr(Wrap32(pc % 0x4_0000 + Wrap32(SignExtend(u, 0x1_0000) * 4))) == QuadwordOf(pc + 4 * S16(u))
  {
    RelativeWraps(pc, u);
    var x := pc % 0x4_0000 + Wrap32(SignExtend(u, 0x1_0000) * 4);
    hide Wrap32, SignExtend, S16, QuadAddr;
    QuadAddrWraps(x, Wrap32(x));
  }

  /** An offset counted in words, sign-extended and wrapped, is that offset in local store. */
  lemma RelativeWraps(pc: word, u: half)
    ensures (pc % 0x4_0000 + Wrap32(SignExtend(u, 0x1_0000) * 4)) % 0x4_0000 == (pc + 4 * S16(u)) % 0x4_0000
  {
    var x := pc + 4 * S16(u);
    ExtendedTimes(u);
    ModTurn(x, 0x4_0000, -(pc / 0x4_0000));
    if u >= 0x8000 { ModTurn(x - pc / 0x4_0000 * 0x4_0000, 0x4_0000, 0x4000); }
    hide SignExtend, Wrap32;
  }

  lemma ExtendedTimes(u: half)
    ensures Wrap32(SignExtend(u, 0x1_0000) * 4) == 4 * S16(u) + if u < 0x8000 then 0 else TWO32
  {
    if u >= 0x8000 { ModTurn(4 * S16(u) + TWO32, TWO32, 3); }
  }

  lemma DisplacedIs(base: word, v: word)
    ensures QuadAddr(Wrap32(base + Wrap32(v * 16))) == QuadwordOf(base + 16 * S32(v))
  {
    var x, d := base + 16 * S32(v), base + Wrap32(v * 16);
    var k := v * 16 / TWO32;
    assert Wrap32(v * 16) == v * 16 - k * TWO32;
    ModTurn(x, 0x4_0000, if v < 0x8000_0000 then -(k * 0x4000) else (16 - k) * 0x4000);
    hide Wrap32, QuadAddr;
    QuadAddrWraps(d, Wrap32(d));
  }

  /** `lqa`, `lqr`, `lqd`, `lqx`, `stqa`, `stqr`, `stqd` and `stqx` move the quadword at their address. */
  lemma MemoryInstructions(h: Host, s: State, w: word)
    requires Fetches(s, w) && IsMemory(w)
    ensures var p := QuadwordOf(AddressOf(s, w));
      p + 16 <= 0x4_0000 &&
      Step(h, s) ==
        if IsStore(w) then Onward(s).(ls := s.ls[..p] + s.gpr[FieldRt(w)] + s.ls[p + 16..])
        else Onward(s).(gpr := s.gpr[FieldRt(w) := s.ls[p..p + 16]])
  {
    hide Decode, Step, Fetches, IsMemory, IsStore, AddressOf, DecodedAddress, QuadwordOf, Effective;
    DecodedMemory(w);
    EffectiveIs(s, w);
    StepDecodes(h, s, w);
  }

  // ----- Branches -----

  /** What a branch tests in RT, if anything. */
  datatype Test = Nothing | WordZero | WordNotZero | HalfZero | HalfNotZero

  /** The test passes: on the first four bytes of the register, or on its bytes 2 and 3. */
  predicate Passes(t: Test, q: Quad) {
    match t
    case Nothing => true
    case WordZero => q[0] == 0 && q[1] == 0 && q[2] == 0 && q[3] == 0
    case WordNotZero => q[0] != 0 || q[1] != 0 || q[2] != 0 || q[3] != 0
    case HalfZero => q[2] == 0 && q[3] == 0
    case HalfNotZero => q[2] != 0 || q[3] != 0
  }

  /** The branches to an offset or an address. */
  predicate IsJump(w: word) {
    w / 0x80_0000 in {0x040, 0x042, 0x044, 0x046, 0x060, 0x062, 0x064, 0x066}
  }

  /** The branches to the address in RA. */
  predicate IsIndirect(w: word) {
    w / 0x20_0000 in {0x1A8, 0x1A9, 0x128, 0x129, 0x12A, 0x12B}
  }

  function TestOf(w: word): Test {
    if w / 0x80_0000 == 0x040 || w / 0x20_0000 == 0x128 then WordZero                   // brz, biz
    else if w / 0x80_0000 == 0x042 || w / 0x20_0000 == 0x129 then WordNotZero           // brnz, binz
    else if w / 0x80_0000 == 0x044 || w / 0x20_0000 == 0x12A then HalfZero              // brhz, bihz
    else if w / 0x80_0000 == 0x046 || w / 0x20_0000 == 0x12B then HalfNotZero           // brhnz, bihnz
    else Nothing                                                             // bra, brasl, br, brsl, bi, bisl
  }

  /** Where it goes. */
  function TargetOf(s: State, w: word): word {
    if IsIndirect(w) then InstructionOf(GetW(s.gpr[FieldRa(w)], 0))
    else if w / 0x80_0000 in {0x060, 0x062} then InStore(4 * FieldI16U(w))
    else InStore(s.pc + 4 * S16(FieldI16U(w)))
  }

  /** The instruction word of an address, as `QuadwordOf`. */
  function InstructionOf(x: int): (a: word)
    ensures a < 0x4_0000
  {
    x % 0x4_0000 / 4 * 4
  }

  /** An address in local store. */
  function InStore(x: int): (a: word)
    ensures a < 0x4_0000
  {
    x % 0x4_0000
  }

  /** `brasl`, `brsl` and `bisl` */
  predicate Links(w: word) {
    w / 0x80_0000 in {0x062, 0x066} || w / 0x20_0000 == 0x1A9
  }

  /** A word in the first four bytes, with zeros after it. */
  predicate ShowsWord(r: Quad, v: word) {
    Val(r[..4]) == v && forall k :: 4 <= k < 16 ==> r[k] == 0
  }

  lemma PreferredShows(v: word)
    ensures ShowsWord(Preferred(v), v)
  {
    var r := Preferred(v);
    assert Be32(r[0], r[1], r[2], r[3]) == v by { WordSplit(v); }
    hide Preferred, Be32, Val;
    ValOfFour(r[..4]);
  }

  function ConditionOf(t: Test): Condition {
    match t
    case Nothing => Always
    case WordZero => IfWord(true)
    case WordNotZero => IfWord(false)
    case HalfZero => IfHalf(true)
    case HalfNotZero => IfHalf(false)
  }

  lemma TakenMeans(t: Test, q: Quad)
    ensures Taken(ConditionOf(t), q) <==> Passes(t, q)
  {
    LowHalf(q);
    hide GetW;
  }

  lemma LowHalf(q: Quad)
    ensures GetW(q, 0) % 0x1_0000 == q[2] as int * 0x100 + q[3]
    ensures GetW(q, 0) == 0 <==> q[0] == 0 && q[1] == 0 && q[2] == 0 && q[3] == 0
  {
    DivUnique(GetW(q, 0), 0x1_0000, q[0] as int * 0x100 + q[1], q[2] as int * 0x100 + q[3]);
  }

  function DecodedTarget(w: word): Target {
    if IsIndirect(w) then ToRegister(FieldRa(w))
    else if w / 0x80_0000 in {0x060, 0x062} then ToAddress(4 * FieldI16U(w))
    else ToOffset(Wrap32(FieldI16(w) * 4))
  }

  lemma DecodedJump(w: word)
    requires IsJump(w)
    ensures !IsIndirect(w) && Decode(w) == Branch(ConditionOf(TestOf(w)), Links(w), FieldRt(w), DecodedTarget(w))
  {
    Prefixes(w);
    hide Decode, SignExtend, Wrap32, FieldI16;
    DecodesRI16(w);
  }

  lemma DecodedIndirect(w: word)
    requires IsIndirect(w)
    ensures Decode(w) == Branch(ConditionOf(TestOf(w)), Links(w), FieldRt(w), DecodedTarget(w))
  {
    Prefixes(w);
    hide Decode, SignExtend, Wrap32, FieldI16, FloatOp;
    DecodesMisc(w);
  }

  lemma DestinationIs(s: State, w: word)
    requires IsJump(w) || IsIndirect(w)
    ensures Destination(s.gpr, s.pc % 0x4_0000, DecodedTarget(w)) == TargetOf(s, w)
  {
    hide GetW, Wrap32, SignExtend, S16;
    if !IsIndirect(w) && w / 0x80_0000 !in {0x060, 0x062} {
      var x := s.pc % 0x4_0000 + Wrap32(FieldI16(w) * 4);
      RelativeWraps(s.pc, FieldI16U(w));
      WrappedInStore(x);
    }
  }

  lemma WrappedInStore(x: int)
    ensures Wrap32(x) % 0x4_0000 == x % 0x4_0000
  {
    ModTurn(x, 0x4_0000, -(x / TWO32 * 0x4000));
  }

  /** A branch whose test passes goes to its target, and links if it is one that links; any other
  goes on. Nothing else changes. */
  predicate Branched(s: State, s': State, w: word) {
    var rt := FieldRt(w);
    if !Passes(TestOf(w), s.gpr[rt]) then s' == Onward(s)
    else if Links(w) then
      s' == Onward(s).(pc := TargetOf(s, w), gpr := s.gpr[rt := s'.gpr[rt]]) &&
      ShowsWord(s'.gpr[rt], (s.pc + 4) % 0x4_0000)
    else s' == Onward(s).(pc := TargetOf(s, w))
  }

  lemma BranchInstructions(h: Host, s: State, w: word)
    requires Fetches(s, w) && (IsJump(w) || IsIndirect(w))
    ensures Branched(s, Step(h, s), w)
  {
    hide Decode, Step, Fetches, IsJump, IsIndirect, TestOf, TargetOf, Links, DecodedTarget, Destination, Passes, Taken;
    hide Preferred, ShowsWord, ConditionOf;
    if IsJump(w) { DecodedJump(w); } else { DecodedIndirect(w); }
    TakenMeans(TestOf(w), s.gpr[FieldRt(w)]);
    DestinationIs(s, w);
    PreferredShows((s.pc + 4) % 0x4_0000);
    StepDecodes(h, s, w);
  }

  /** `bisled` links and goes on: there are no external events. */
  lemma EventBranchInstruction(h: Host, s: State, w: word)
    requires Fetches(s, w) && w / 0x20_0000 == 0x1AB
    ensures OnlyRegister(s, Step(h, s), FieldRt(w))
    ensures ShowsWord(Step(h, s).gpr[FieldRt(w)], (s.pc + 4) % 0x4_0000)
  {
    hide Decode, Step, Fetches, Preferred, ShowsWord;
    assert Decode(w) == LinkOnly(FieldRt(w)) by { hide SignExtend, FloatOp; DecodesMisc(w); }
    PreferredShows((s.pc + 4) % 0x4_0000);
    StepDecodes(h, s, w);
  }

  // ----- Stopping -----

  /** `stop`, `stopd` and `iret` stop the SPU; the first two leave a code. */
  lemma StopInstructions(h: Host, s: State, w: word)
    requires Fetches(s, w) && w / 0x20_0000 in {0x000, 0x140, 0x1AA}
    ensures Step(h, s) ==
      if w / 0x20_0000 == 0x1AA then Onward(s).(running := false)
      else Onward(s).(running := false, stopCode := w % 0x4000)
  {
    hide Decode, Step, Fetches;
    assert Decode(w) == if w / 0x20_0000 == 0x1AA then Halt else Stop(w % 0x4000) by {
      hide SignExtend, FloatOp;
      if w / 0x20_0000 == 0x140 { DecodesSpare(w); } else { DecodesMisc(w); }
    }
    StepDecodes(h, s, w);
  }

  // ----- Channels -----

  /** `rdch`: what a channel read returns, and what it leaves behind. */
  function ChannelRead(s: State, ch: nat): (State, word) {
    match ch
    case 3 =>                                                                   // SPU_RdSigNotify1
      if s.signalCount[0] == 0 then (s.(running := false), 0)
      else (s.(signalCount := [s.signalCount[0] - 1, s.signalCount[1]]), s.signal[0])
    case 4 =>                                                                   // SPU_RdSigNotify2
      if s.signalCount[1] == 0 then (s.(running := false), 0)
      else (s.(signalCount := [s.signalCount[0], s.signalCount[1] - 1]), s.signal[1])
    case 8 => (s, s.decr)                                                       // SPU_RdDec
    case 15 => (s, (s.pc + 4) % 0x4_0000)                                       // SPU_RdSRR0
    case 24 => (s.(tagPending := false), s.mfc.tagMask)                         // MFC_RdTagStat
    case 29 =>                                                                  // SPU_RdInMbox
      if s.inCount <= 0 then (s.(running := false), 0) else (s.(inCount := 0), s.inMbox)
    case _ => (s, 0)
  }

  lemma ReadInstruction(h: Host, s: State, w: word)
    requires Fetches(s, w) && w / 0x20_0000 == 0x00D
    ensures var s', rt, r := Step(h, s), FieldRt(w), ChannelRead(s, w / 0x80 % 0x20);
      s' == r.0.(pc := (s.pc + 4) % 0x4_0000, gpr := s.gpr[rt := s'.gpr[rt]]) && ShowsWord(s'.gpr[rt], r.1)
  {
    hide Decode, Step, Fetches, Preferred, ShowsWord;
    var ch := w / 0x80 % 0x20;
    assert Decode(w) == ReadChannel(FieldRt(w), ch) by { hide SignExtend, DecodeControl; DecodesMisc(w); }
    ChannelReads(s, ch);
    StepDecodes(h, s, w);
    PreferredShows(ReadCh(Onward(s), ch).1);
    hide ReadCh, ChannelRead;
  }

  lemma ChannelReads(s: State, ch: nat)
    ensures ReadCh(Onward(s), ch) == (Onward(ChannelRead(s, ch).0), ChannelRead(s, ch).1)
    ensures ChannelRead(s, ch).0.gpr == s.gpr && ChannelRead(s, ch).0.pc == s.pc
  {
    assert |s.signalCount| == 2;
    var n := s.signalCount;
    assert n[0 := n[0] - 1] == [n[0] - 1, n[1]] && n[1 := n[1] - 1] == [n[0], n[1] - 1];
  }

  /** `wrch`: what a channel write leaves behind; a DMA command moves bytes. */
  function ChannelWritten(h: Host, s: State, ch: nat, v: word): State {
    match ch
    case 7 => s.(decr := v)                                                     // SPU_WrDec
    case 14 => s.(pc := v)                                                      // SPU_WrSRR0
    case 16 => s.(mfc := s.mfc.(lsa := v))                                      // MFC_LSA
    case 17 => s.(mfc := s.mfc.(eah := v))                                      // MFC_EAH
    case 18 => s.(mfc := s.mfc.(eal := v))                                      // MFC_EAL
    case 19 => s.(mfc := s.mfc.(size := v))                                     // MFC_Size
    case 20 => s.(mfc := s.mfc.(tag := v))                                      // MFC_TagID
    case 21 => var r := Dma(h, s.mfc, v, s.ls, s.vm); s.(ls := r.0, vm := r.1)  // MFC_Cmd
    case 22 => s.(mfc := s.mfc.(tagMask := v))                                  // MFC_WrTagMask
    case 23 => s.(tagPending := true)                                           // MFC_WrTagUpdate
    case 28 => s.(outMbox := v, outCount := 1)                                  // SPU_WrOutMbox
    case 30 => s.(outMbox := v, outCount := 1)                                  // SPU_WrOutIntrMbox
    case _ => s
  }

  lemma WriteInstruction(h: Host, s: State, w: word)
    requires Fetches(s, w) && w / 0x20_0000 == 0x10D
    ensures Step(h, s) == ChannelWritten(h, Onward(s), w / 0x80 % 0x20, GetW(s.gpr[FieldRt(w)], 0))
  {
    hide Decode, Step, Fetches, GetW;
    var ch, v := w / 0x80 % 0x20, GetW(s.gpr[FieldRt(w)], 0);
    assert Decode(w) == WriteChannel(FieldRt(w), ch) by { hide SignExtend, DecodeControl; DecodesMisc(w); }
    StepDecodes(h, s, w);
    assert WriteCh(h, Onward(s), ch, v) == ChannelWritten(h, Onward(s), ch, v) by { hide Dma; }
    hide WriteCh, ChannelWritten;
  }

  /** `rchcnt` */
  function ChannelCounted(s: State, ch: nat): int {
    match ch
    case 3 => s.signalCount[0]
    case 4 => s.signalCount[1]
    case 23 => 1
    case 24 => 1
    case 28 => if s.outCount == 0 then 1 else 0
    case 29 => s.inCount
    case _ => 0
  }

  lemma CountInstruction(h: Host, s: State, w: word)
    requires Fetches(s, w) && w / 0x20_0000 == 0x00F
    ensures OnlyRegister(s, Step(h, s), FieldRt(w))
    ensures ShowsWord(Step(h, s).gpr[FieldRt(w)], ChannelCounted(s, w / 0x80 % 0x20) % TWO32)
  {
    hide Decode, Step, Fetches, Preferred, ShowsWord;
    var ch := w / 0x80 % 0x20;
    assert Decode(w) == CountChannel(FieldRt(w), ch) by { hide SignExtend, DecodeControl; DecodesMisc(w); }
    StepDecodes(h, s, w);
    assert CountCh(Onward(s), ch) == ChannelCounted(s, ch) % TWO32;
    PreferredShows(CountCh(Onward(s), ch));
    hide CountCh, ChannelCounted;
  }

  // ----- Floating point -----

  /** Floating-point instructions: the host gets the word and the registers it names. */
  lemma FloatInstructions(h: Host, s: State, w: word)
    requires Fetches(s, w) && (w / 0x1000_0000 in {0xD, 0xE, 0xF} || FloatOpcode(w / 0x20_0000))
    ensures var rt, rc := if w / 0x1000_0000 >= 8 then FieldRc(w) else FieldRt(w), FieldRt(w);
      Step(h, s) == Onward(s).(
        gpr := s.gpr[rt := h.fp(w, s.gpr[FieldRa(w)], s.gpr[FieldRb(w)], s.gpr[rc])])
  {
    hide Decode, Step, Fetches;
    DecodedFloat(w);
    StepDecodes(h, s, w);
  }

  predicate FloatOpcode(c: nat) {
    c in {0x2C4, 0x2C5, 0x2C6, 0x3C2, 0x3CA, 0x2C2, 0x2CA, 0x1B8, 0x1B9, 0x2CC, 0x2CD, 0x2CE, 0x35C, 0x35D, 0x35E,
          0x35F, 0x3C3, 0x3CB, 0x2C3, 0x2CB, 0x3B8, 0x3B9, 0x3B0, 0x3B1, 0x3B2, 0x3B3, 0x3B4, 0x3B5, 0x3B6, 0x3B7}
  }

  lemma DecodedFloat(w: word)
    requires w / 0x1000_0000 in {0xD, 0xE, 0xF} || FloatOpcode(w / 0x20_0000)
    ensures Decode(w) ==
      Float(w, if w / 0x1000_0000 >= 8 then FieldRc(w) else FieldRt(w), FieldRa(w), FieldRb(w), FieldRt(w))
  {
    if w / 0x1000_0000 in {0xD, 0xE, 0xF} {
      hide DecodeRI18, DecodeRI16, DecodeRI10, DecodeRR, FloatOpcode;
    } else {
      var c := w / 0x20_0000;
      FloatUnclaimed(c);
      FloatNoLanes(c);
      FloatNoShifts(c);
      BelowRR(c);
      hide Decode, EncodeRR, Unclaimed, FloatOpcode, SignExtend;
      SplitRR(w);
      DecodesAsRR(c, FieldRb(w), FieldRa(w), FieldRt(w));
      LowOpcode(w);
      FloatMisc(w);
    }
  }

  lemma LowOpcode(w: word)
    requires w / 0x20_0000 < 0x400
    ensures w / 0x1000_0000 < 8
  {
  }

  lemma FloatUnclaimed(c: nat)
    requires FloatOpcode(c)
    ensures Unclaimed(c)
  {
  }

  lemma FloatNoLanes(c: nat)
    requires FloatOpcode(c)
    ensures NoLanes(c)
  {
    FloatNoWords(c);
    hide FloatOpcode, RegisterW;
    FloatNoShortLanes(c);
  }

  lemma FloatNoWords(c: nat)
    requires FloatOpcode(c)
    ensures RegisterW(c).None?
  {
  }

  lemma FloatNoShortLanes(c: nat)
    requires FloatOpcode(c)
    ensures RegisterH(c).None? && RegisterB(c).None?
  {
  }

  lemma FloatNoShifts(c: nat)
    requires FloatOpcode(c)
    ensures NoShifts(c) && QuadReg(c).None? && QuadImm(c).None?
  {
  }

  lemma FloatMisc(w: word)
    requires FloatOpcode(w / 0x20_0000)
    ensures DecodeMisc(w) == Float(w, FieldRt(w), FieldRa(w), FieldRb(w), FieldRt(w))
  {
    var c := w / 0x20_0000;
    assert FloatOp(c);
    assert c !in {0x1C4, 0x144, 0x1F0, 0x253, 0x2A6, 0x00D, 0x10D, 0x00F, 0x000, 0x140, 0x00C, 0x398, 0x3D4};
    assert !(0x1F4 <= c <= 0x1F7) && !(0x1D4 <= c <= 0x1D7) && !(0x1B0 <= c <= 0x1B6) && !(0x1A8 <= c <= 0x1AB);
    assert !(0x128 <= c <= 0x12B);
    hide SignExtend, FloatOpcode, FloatOp;
  }
}
