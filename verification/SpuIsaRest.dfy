/** Words that no other description claims do nothing; and the one patched instruction. */
module SpuIsaRest {
  import opened Bits
  import opened Quad
  import opened SpuDma
  import Lanes
  import SpuDecode
  import opened Spu
  import opened SpuFetch
  import opened SpuIsaControl
  import opened SpuReference

  /** The instructions described elsewhere, by the length of their opcode. */
  predicate Described(w: word) {
    w / 0x1000_0000 in {0x8, 0xB, 0xC, 0xD, 0xE, 0xF} ||
    (w / 0x1000_0000 < 8 &&
     (w / 0x200_0000 == 0x21 || DescribedLong(w / 0x80_0000) || DescribedImmediate(w / 0x100_0000) ||
      DescribedLanes(w / 0x20_0000) || DescribedRest(w / 0x20_0000)))
  }

  predicate DescribedLong(c: nat) {
    c in {0x040, 0x042, 0x044, 0x046, 0x060, 0x062, 0x064, 0x066, 0x041, 0x047, 0x061, 0x067,
          0x081, 0x082, 0x083, 0x0C1, 0x065}
  }

  predicate DescribedImmediate(c: nat) {
    WordForm(c) != 0 || HalfForm(c) != 0 || ByteForm(c) != 0 || c in {0x34, 0x24}
  }

  predicate DescribedLanes(c: nat) {
    SpuDecode.WordOpcode(c) || SpuDecode.HalfOpcode(c) || SpuDecode.ByteOpcode(c) || SpuDecode.ShiftOpcode(c)
  }

  predicate DescribedRest(c: nat) {
    c in {0x1D8, 0x1D9, 0x1DB, 0x1DC, 0x1DD, 0x1DF, 0x1CC, 0x1CD, 0x1CF, 0x1F8, 0x1F9, 0x1FB, 0x1FC, 0x1FD, 0x1FF,
          0x1C4, 0x144, 0x253, 0x2A6, 0x00D, 0x10D, 0x00F, 0x1F0, 0x000, 0x140, 0x00C, 0x398, 0x3D4,
          0x2C4, 0x2C5, 0x2C6, 0x3C2, 0x3CA, 0x2C2, 0x2CA, 0x1B8, 0x1B9, 0x2CC, 0x2CD, 0x2CE, 0x35C, 0x35D, 0x35E,
          0x35F, 0x3C3, 0x3CB, 0x2C3, 0x2CB, 0x3B8, 0x3B9} ||
    0x1F4 <= c <= 0x1F7 || 0x1D4 <= c <= 0x1D7 || 0x1B4 <= c <= 0x1B6 || 0x1B0 <= c <= 0x1B2 ||
    0x1A8 <= c <= 0x1AB || 0x128 <= c <= 0x12B || 0x3B0 <= c <= 0x3B7
  }

  lemma NoLanes(c: nat)
    requires !DescribedLanes(c)
    ensures RegisterW(c).None? && RegisterH(c).None? && RegisterB(c).None? && ShiftImmW(c).None? && ShiftImmH(c).None?
  {
  }

  lemma NoImmediates(c: nat)
    requires !DescribedImmediate(c)
    ensures ImmediateW(c).None? && ImmediateH(c).None? && ImmediateB(c).None? && c != 0x34 && c != 0x24
  {
  }

  lemma NoQuads(c: nat)
    requires !DescribedRest(c)
    ensures QuadReg(c).None? && QuadImm(c).None?
  {
  }

  lemma NoMisc(w: word)
    requires !DescribedRest(w / 0x20_0000)
    ensures DecodeMisc(w) == Nop
  {
    NoControl(w);
    hide SignExtend, DecodeControl;
  }

  lemma NoControl(w: word)
    requires !DescribedRest(w / 0x20_0000)
    ensures DecodeControl(w) == Nop
  {
    NoFloat(w / 0x20_0000);
    hide FloatOp;
  }

  lemma NoFloat(c: nat)
    requires !DescribedRest(c)
    ensures !FloatOp(c)
  {
  }

  lemma DecodedRest(w: word)
    requires !Described(w)
    ensures Decode(w) == Nop
  {
    hide DescribedRest, DescribedLanes, DescribedImmediate, DecodeMisc, SignExtend;
    hide RegisterW, RegisterH, RegisterB, ShiftImmW, ShiftImmH, QuadReg, QuadImm, ImmediateW, ImmediateH, ImmediateB;
    TopFour(w);
    if w / 0x1000_0000 >= 8 {
      hide DecodeRI18, DecodeRI16, DecodeRI10, DecodeRR, DescribedLong;
    } else {
      hide DecodeRRR;
      NoMisc(w);
      NoQuads(w / 0x20_0000);
      NoLanes(w / 0x20_0000);
      NoImmediates(w / 0x100_0000);
    }
  }

  lemma TopFour(w: word)
    ensures w / 0x1000_0000 < 0x10
  {
  }

  lemma OtherWords(h: Host, s: State, w: word)
    requires Fetches(s, w) && !Described(w)
    ensures Step(h, s) == Onward(s)
  {
    hide Decode, Step, Fetches, Described;
    DecodedRest(w);
    StepDecodes(h, s, w);
  }

  // ----- The instruction with a patch before it -----

  /** The quadword of the stream descriptor whose bytes 4 to 7 are patched. */
  function DescriptorAt(s: State): (at: nat)
    ensures at + 16 <= 0x4_0000
  {
    var at := QuadwordOf(GetW(s.gpr[49], 0) + GetW(s.gpr[124], 0));
    if at < 0x80 then 0xADD0 else at
  }

  /** The state `p` is `s` with the descriptor's bytes 4 to 7 set to D0100000, and, where the
  registers name no descriptor, with the preferred words of r49 and r124 made to name one. */
  predicate Patched(s: State, p: State) {
    var at := DescriptorAt(s);
    var found := QuadwordOf(GetW(s.gpr[49], 0) + GetW(s.gpr[124], 0)) >= 0x80;
    p == s.(ls := p.ls, gpr := p.gpr) && at + 8 <= 0x4_0000 &&
    Val(p.ls[at + 4..at + 8]) == 0xD010_0000 && p.ls[..at + 4] == s.ls[..at + 4] && p.ls[at + 8..] == s.ls[at + 8..] &&
    (found ==> p.gpr == s.gpr) &&
    (!found ==>
      (forall r: Reg :: r != 49 && r != 124 ==> p.gpr[r] == s.gpr[r]) &&
      GetW(p.gpr[49], 0) == at && GetW(p.gpr[124], 0) == 0 &&
      p.gpr[49][4..] == s.gpr[49][4..] && p.gpr[124][4..] == s.gpr[124][4..])
  }

  lemma PatchMeans(s: State)
    requires s.id == 2
    ensures Patched(s, EdgeFixup(s, 0x35FC))
  {
    hide GetW, SetW, QuadwordOf, QuadAddr, Val, Lanes.Wrap32;
    var x := GetW(s.gpr[49], 0) + GetW(s.gpr[124], 0);
    QuadAddrWraps(x, Lanes.Wrap32(x));
    PatchedRegisters(s);
    PatchedStore(s.ls, DescriptorAt(s));
  }

  lemma PatchedStore(ls: LocalStore, at: nat)
    requires at + 16 <= 0x4_0000
    ensures var ls' := ls[at + 4 := 0xD0][at + 5 := 0x10][at + 6 := 0x00][at + 7 := 0x00];
      Val(ls'[at + 4..at + 8]) == 0xD010_0000 && ls'[..at + 4] == ls[..at + 4] && ls'[at + 8..] == ls[at + 8..]
  {
    hide Val;
    var ls' := ls[at + 4 := 0xD0][at + 5 := 0x10][at + 6 := 0x00][at + 7 := 0x00];
    assert ls'[at + 4..at + 8] == [0xD0, 0x10, 0x00, 0x00];
    FourBytes();
    assert ls'[..at + 4] == ls[..at + 4] && ls'[at + 8..] == ls[at + 8..];
  }

  lemma FourBytes()
    ensures Val([0xD0, 0x10, 0x00, 0x00]) == 0xD010_0000
  {
    var four: seq<byte> := [0xD0, 0x10, 0x00, 0x00];
    hide Val;
    ValOfFour(four);
  }

  lemma PatchedRegisters(s: State)
    ensures GetW(SetW(s.gpr[49], 0, 0xADD0), 0) == 0xADD0 && GetW(SetW(s.gpr[124], 0, 0), 0) == 0
    ensures SetW(s.gpr[49], 0, 0xADD0)[4..] == s.gpr[49][4..] && SetW(s.gpr[124], 0, 0)[4..] == s.gpr[124][4..]
  {
    hide WordByte, GetW;
    GetSetW(s.gpr[49], 0, 0xADD0, 0);
    GetSetW(s.gpr[124], 0, 0, 0);
  }

  /** SPU 2 executes the word at 0x35FC in the patched state. */
  lemma PatchedStep(h: Host, s: State)
    requires s.id == 2 && s.pc % 0x4_0000 == 0x35FC
    ensures var p := EdgeFixup(s, 0x35FC);
      Patched(s, p) && Val(p.ls[0x35FC..0x3600]) < TWO32 &&
      Step(h, s) == Exec(h, Decode(Val(p.ls[0x35FC..0x3600])), 0x35FC, Onward(p))
  {
    hide Exec, Decode, EdgeFixup, Read32, Val, Patched;
    PatchMeans(s);
    var p := EdgeFixup(s, 0x35FC);
    FetchedWord(p.ls, 0x35FC);
    StepPatched(h, s);
    assert p.pc == s.pc by { hide *; EdgeFixupKeepsPc(s); }
    NextPc(s.pc);
    hide Step;
  }

  lemma EdgeFixupKeepsPc(s: State)
    ensures EdgeFixup(s, 0x35FC).pc == s.pc
  {
    hide SetW, GetW, QuadAddr;
  }

  lemma StepPatched(h: Host, s: State)
    requires s.pc % 0x4_0000 == 0x35FC
    ensures var p := EdgeFixup(s, 0x35FC);
      Step(h, s) == Exec(h, Decode(Read32(p.ls, 0x35FC)), 0x35FC, p.(pc := (0x35FC + 4) % 0x4_0000))
  {
    hide Exec, Decode, EdgeFixup, Read32;
  }
}
