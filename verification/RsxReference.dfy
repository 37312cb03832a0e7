/** The register handler and the command loop, in the numbers of the command buffer: register
addresses, header bits, and addresses of the guest. */
module RsxReference {
  import opened Bits
  import opened Quad
  import opened Draw
  import opened Fifo

  // ----- Registers -----

  /** A colour register holds R, G, B, A from its top byte down; the framebuffer A, R, G, B. */
  predicate SameColor(rgba: word, argb: word) {
    argb / 0x100_0000 == rgba % 0x100 && argb / 0x1_0000 % 0x100 == rgba / 0x100_0000 &&
    argb / 0x100 % 0x100 == rgba / 0x1_0000 % 0x100 && argb % 0x100 == rgba / 0x100 % 0x100
  }

  lemma BgraMeans(rgba: word)
    ensures SameColor(rgba, Bgra(rgba))
  {
    var r, g, b, a := rgba / 0x100_0000, rgba / 0x1_0000 % 0x100, rgba / 0x100 % 0x100, rgba % 0x100;
    var x := Bgra(rgba);
    assert x == a * 0x100_0000 + r * 0x1_0000 + g * 0x100 + b;
    hide Bgra;
    DivUnique(x, 0x100_0000, a, r * 0x1_0000 + g * 0x100 + b);
    DivUnique(x, 0x1_0000, a * 0x100 + r, g * 0x100 + b);
    DivUnique(a * 0x100 + r, 0x100, a, r);
    DivUnique(x, 0x100, (a * 0x100 + r) * 0x100 + g, b);
    DivUnique((a * 0x100 + r) * 0x100 + g, 0x100, a * 0x100 + r, g);
  }

  /** Guest address of an RSX offset: below 16 MB it lies in the command buffer. */
  predicate IsAddress(off: word, ea: word) {
    ea == if off < 0x100_0000 then 0xD010_0000 + off else off
  }

  /** What writing `arg` to the register `m` does. */
  predicate RegisterMeans(m: nat, arg: word, s: State, s': State) {
    if m == 0x1820 then s' == s.(clearColor := arg)
    else if m == 0x0200 then s' == s.(surface := (0xD000_0000 + arg) % 0x1_0000_0000)
    else if m == 0x1D94 then ClearMeans(arg, s, s')
    else if m == 0x17FC then (if arg != 0 then s' == s.(start := 0xFFFF_FFFF, total := 0) else EndMeans(s, s'))
    else if m == 0x1808 then
      s' == s.(start := if s.start == 0xFFFF_FFFF then arg % 0x100_0000 else s.start,
               total := (s.total + arg / 0x100_0000 + 1) % 0x1_0000_0000)
    else if 0x1680 <= m < 0x16C0 then s' == s.(vtxOffset := s.vtxOffset[(m - 0x1680) / 4 := arg])
    else if 0x1740 <= m < 0x1780 then s' == s.(vtxFormat := s.vtxFormat[(m - 0x1740) / 4 := arg])
    else s' == s
  }

  /** CLEAR_SURFACE clears if one of its four colour bits is set. */
  predicate ClearMeans(arg: word, s: State, s': State) {
    if arg / 16 % 16 == 0 then s' == s
    else
      s' == s.(output := s'.output) && |s'.output| == |s.output| + 1 && s'.output[..|s.output|] == s.output &&
      var last := s'.output[|s.output|];
      last.Cleared? && SameColor(s.clearColor, last.bgra)
  }

  /** The end of a batch draws its vertices, sixteen bytes each, if there are three and attribute 0
  has an offset. */
  predicate EndMeans(s: State, s': State) {
    s' == s.(start := 0xFFFF_FFFF, total := 0, output := s'.output) &&
    if s.total < 3 || s.vtxOffset[0] == 0 then s'.output == s.output
    else
      |s'.output| == |s.output| + 1 && s'.output[..|s.output|] == s.output &&
      var last := s'.output[|s.output|];
      last.Drawn? && last.count == s.total &&
      IsAddress(s.vtxOffset[0], (last.vertexEa - 16 * s.start) % 0x1_0000_0000)
  }

  lemma EndBatchMeans(s: State)
    ensures EndMeans(s, EndBatch(s))
  {
    if s.total >= 3 && s.vtxOffset[0] != 0 {
      var base := IoToEa(s.vtxOffset[0]);
      AddedBack(base, 16 * s.start);
      hide Add32;
    }
  }

  lemma AddedBack(base: word, k: nat)
    ensures (Add32(base, k) - k) % 0x1_0000_0000 == base
  {
    ModTurn(base, 0x1_0000_0000, -((base + k) / 0x1_0000_0000));
  }

  lemma HandleMeans(s: State, w: Write)
    ensures RegisterMeans(w.reg % 0x1_0000, w.arg, s, Handle(s, w))
  {
    hide EndBatch, Bgra, SameColor, EndMeans;
    EndBatchMeans(s);
    BgraMeans(s.clearColor);
    assert VertexCount(w.arg) == w.arg / 0x100_0000 + 1;
  }

  // ----- Command headers -----

  /** Where the loop goes from `ptr`, and what it writes, by the header there. */
  predicate RoundMeans(vm: Memory, put: word, ptr: word, next: Position, ws: seq<Write>) {
    if ptr >= 0xD020_0000 || ptr + 4 > put then next == Ended && ws == []
    else
      var hdr := Read32(vm, ptr);
      var count := hdr / 0x4_0000 % 0x800;
      if hdr == 0 then next == At(ptr + 4) && ws == []
      else if hdr / 0x2000_0000 % 2 == 1 then ws == [] && JumpMeans(hdr, next)
      else if count == 0 || ptr + 4 + 4 * count > 0xD020_0000 then next == At(ptr + 4) && ws == []
      else
        next == At(ptr + 4 + 4 * count) && |ws| == count &&
        forall i :: 0 <= i < count ==> ArgumentMeans(vm, hdr, ptr, i, ws[i])
  }

  /** A jump goes to the address in its low bits if that lies in the buffer, and ends the loop if not. */
  predicate JumpMeans(hdr: word, next: Position)
    requires hdr / 0x2000_0000 % 2 == 1
  {
    var off := hdr - 0x2000_0000;
    var ea := if off < 0x100_0000 then 0xD010_0000 + off else off;
    next == if 0xD010_0000 <= ea < 0xD020_0000 then At(ea) else Ended
  }

  /** Argument `i` goes to the register of the header, or to the `i`-th one after it. */
  predicate ArgumentMeans(vm: Memory, hdr: word, ptr: word, i: nat, w: Write) {
    ptr + 4 + 4 * i < 0x1_0000_0000 && w.arg == Read32(vm, ptr + 4 + 4 * i) &&
    w.reg == hdr % 0x4_0000 + if hdr / 0x4000_0000 % 2 == 1 then 0 else 4 * i
  }

  lemma MoveMeans(vm: Memory, put: word, ptr: word)
    ensures RoundMeans(vm, put, ptr, Move(vm, put, ptr), Dispatched(vm, put, ptr))
  {
    hide Read32;
    if Live(ptr, put) && IsCommand(Read32(vm, ptr), ptr) {
      var hdr := Read32(vm, ptr);
      forall i | 0 <= i < Count(hdr)
        ensures ArgumentMeans(vm, hdr, ptr, i, CommandWrites(vm, hdr, ptr)[i])
      {
      }
    }
    hide ArgumentMeans, CommandWrites;
  }

  /** Words are read most significant byte first, modulo 2^32. */
  lemma ReadMeans(vm: Memory, ea: word)
    ensures Read32(vm, ea) ==
      Val([vm(ea), vm((ea + 1) % 0x1_0000_0000), vm((ea + 2) % 0x1_0000_0000), vm((ea + 3) % 0x1_0000_0000)])
  {
    hide Val;
    ValOfFour([vm(ea), vm((ea + 1) % 0x1_0000_0000), vm((ea + 2) % 0x1_0000_0000), vm((ea + 3) % 0x1_0000_0000)]);
  }
}
