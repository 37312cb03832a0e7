/** The interpreter in the form of its source: one mutable context whose registers, local
store and program counter each instruction updates in place (`spu_interp.cpp`). */
module SpuContext {
  import opened Bits
  import opened Quad
  import opened Lanes
  import opened Spu
  import opened SpuDma

  /** Leading zeros of a non-zero word, by shifting until the top bit is set. */
  method CountLeadingZeros(v: word) returns (n: word)
    requires v != 0
    ensures n == Clz(v)
  {
    var x := v;
    n := 0;
    Clz32();
    while x < 0x8000_0000
      invariant n <= 31
      invariant x == v as int * Pow2(n) < TWO32
      decreases TWO32 - x
    {
      hide Clz;
      TopBitReached(v, n);
      x := Wrap32(x as int * 2);
      n := n + 1;
    }
    ClzUnique(v, n);
  }

  lemma TopBitReached(v: word, n: nat)
    requires v != 0
    ensures v as int * Pow2(n + 1) == 2 * (v as int * Pow2(n))
    ensures n == 31 ==> v as int * Pow2(n) >= 0x8000_0000
  {
    Clz32();
    var p := Pow2(n);
    assert Pow2(n + 1) == 2 * p;
    hide *;
    MulMono(1, v, p);
    assert v as int * (2 * p) == 2 * (v as int * p);
  }

  lemma {:induction false} ClzUnique(v: word, n: word)
    requires v != 0 && n <= 31
    requires 0x8000_0000 <= v as int * Pow2(n) < TWO32
    ensures n == Clz(v)
  {
    hide *;
    var m := Clz(v);
    ClzScales(v, m);
    DoublingOnce(v, n, m);
    DoublingOnce(v, m, n);
  }

  /** A word shifted left by its number of leading zeros has its top bit set. */
  lemma ClzScales(v: word, m: nat)
    requires m <= 31 && Pow2(31 - m) <= v < Pow2(32 - m)
    ensures 0x8000_0000 <= v as int * Pow2(m) < TWO32
  {
    Clz32();
    Pow2Add(31 - m, m);
    Pow2Add(32 - m, m);
    ScaleBounds(v, Pow2(31 - m), Pow2(32 - m), Pow2(m));
  }

  lemma ScaleBounds(v: nat, lo: nat, hi: nat, p: nat)
    requires lo <= v < hi && p > 0
    ensures lo * p <= v * p < hi * p
  {
    MulMono(lo, v, p);
    MulGap(v, hi, p);
  }

  lemma {:induction false} DoublingOnce(v: nat, a: nat, b: nat)
    requires 0x8000_0000 <= v * Pow2(a)
    ensures a < b ==> v * Pow2(b) >= TWO32
  {
    if a < b {
      Pow2Mono(a + 1, b);
      var p := Pow2(a);
      assert Pow2(a + 1) == 2 * p;
      hide *;
      MulMono(2 * p, Pow2(b), v);
    }
  }

  method CountBits(v: byte) returns (n: byte)
    ensures n == PopCount(v)
  {
    var x := v;
    n := 0;
    while x != 0
      invariant n as int + PopCount(x) == PopCount(v)
      decreases x
    {
      n := n + x % 2;
      x := x / 2;
    }
  }

  /** Byte `k` of lane `i` of a form-select mask. */
  lemma MaskLane(n: nat, m: word, i: nat, k: nat)
    requires LaneCount(n) && i < n && k < LaneBytes(n)
    ensures i * LaneBytes(n) + k < 16
    ensures FormMaskQ(n, m)[i * LaneBytes(n) + k] == Mask8(Shr(m, n - 1 - i) % 2 == 1)
  {
    BitShr(0, m, n - 1 - i);
    hide Shr, Mask8;
    if n == 4 {
      assert (i * 4 + k) / 4 == i;
    } else if n == 8 {
      assert (i * 2 + k) / 2 == i;
    } else {
      assert n == 16 && (i * 1 + k) / 1 == i;
    }
  }

  lemma {:induction false} GatherBitsSmall(n: nat, q: Quad)
    requires LaneCount(n)
    ensures GatherBits(n, q, n) < 0x1_0000
  {
    GatherBitsBound(n, q, n);
    Pow2Mono(n, 16);
    assert Pow2(16) == 0x1_0000 by {
      assert Pow2(8) == 0x100;
      Pow2Add(8, 8);
    }
    hide *;
  }

  lemma GatherNextBit(n: nat, q: Quad, i: nat)
    requires LaneCount(n) && i < n
    ensures var next := i + 1;
      Or(Shl(GatherBits(n, q, i), n - i), Shl(LaneLsb(n, q, i), n - i - 1)) == Shl(GatherBits(n, q, next), n - next)
  {
    hide Shl, Or, LaneLsb, LaneBytes;
    OrNextBit(GatherBits(n, q, i), LaneLsb(n, q, i), n - i - 1);
  }

  /** Putting one more bit below a number that ends at bit `k + 1`. */
  lemma OrNextBit(g: nat, bit: nat, k: nat)
    requires bit < 2
    ensures Or(Shl(g, k + 1), Shl(bit, k)) == Shl(2 * g + bit, k)
  {
    var p := Pow2(k);
    assert Pow2(k + 1) == 2 * p;
    hide Or, Pow2;
    assert g * (2 * p) == 2 * g * p;
    if bit == 0 {
      OrDisjoint(g, 0, k + 1);
    } else {
      OrDisjoint(g, p, k + 1);
      assert (2 * g + 1) * p == 2 * g * p + p;
    }
  }

  lemma ClzLane(a: word, b: word, t: word)
    ensures EvalW(WClz, a, b, t) == Clz(a)
  {
    hide Clz;
  }

  class Context {
    const host: Host
    const gpr: array<Quad>
    const ls: array<byte>
    var pc: word
    var running: bool
    var stopCode: word
    var mfc: Mfc
    var inMbox: word
    var inCount: int
    var outMbox: word
    var outCount: int
    var signal: Lanes2
    var signalCount: Counts2
    var tagPending: bool
    var decr: word
    var id: int
    var insnCount: dword
    var vm: Memory

    ghost predicate Valid() {
      gpr.Length == 128 && ls.Length == LS_SIZE
    }

    ghost function Abs(): State
      requires Valid()
      reads this, gpr, ls
    {
      State(gpr[..], ls[..], pc, running, stopCode, mfc, inMbox, inCount, outMbox, outCount,
            signal, signalCount, tagPending, decr, id, insnCount, vm)
    }

    constructor (host: Host, id: int, vm: Memory)
      ensures Valid() && fresh(gpr) && fresh(ls)
      ensures this.host == host && this.id == id && this.vm == vm
      ensures !running && pc == 0 && insnCount == 0
      ensures (forall r :: 0 <= r < 128 ==> gpr[r] == Zeros(16)) && (forall k :: 0 <= k < LS_SIZE ==> ls[k] == 0)
    {
      this.host := host;
      gpr := new Quad[128](_ => Zeros(16));
      ls := new byte[LS_SIZE](_ => 0);
      pc, running, stopCode := 0, false, 0;
      mfc := Mfc(0, 0, 0, 0, 0, 0);
      inMbox, inCount, outMbox, outCount := 0, 0, 0, 0;
      signal, signalCount := [0, 0], [0, 0];
      tagPending, decr, insnCount := false, 0, 0;
      this.id := id;
      this.vm := vm;
    }

    // ----- Lane loops: RT may be RA, RB or both -----

    method WordLoop(op: WordOp, rt: Reg, ra: Reg, b: Operand)
      requires Valid()
      modifies gpr
      ensures gpr[..] == old(gpr[..])[rt := ResultW(op, old(gpr[..]), rt, ra, b)]
    {
      hide GetW, OfWords, EvalW, Clz;
      ghost var g: RegFile := gpr[..];
      for i := 0 to 4
        invariant forall r: Reg :: r != rt ==> gpr[r] == g[r]
        invariant forall j :: 0 <= j < i ==> GetW(gpr[rt], j) == LaneW(op, g, rt, ra, b, j)
        invariant forall j :: i <= j < 4 ==> GetW(gpr[rt], j) == GetW(g[rt], j)
      {
        var y := if b.FromReg? then GetW(gpr[b.r], i) else b.v;
        var v: word;
        if op.WClz? && GetW(gpr[ra], i) != 0 {
          v := CountLeadingZeros(GetW(gpr[ra], i));
          ClzLane(GetW(gpr[ra], i), y, GetW(gpr[rt], i));
        } else {
          v := EvalW(op, GetW(gpr[ra], i), y, GetW(gpr[rt], i));
        }
        assert v == LaneW(op, g, rt, ra, b, i);
        WriteW(rt, i, v);
      }
      var q := ResultW(op, g, rt, ra, b);
      WordsOfWords([LaneW(op, g, rt, ra, b, 0), LaneW(op, g, rt, ra, b, 1),
                    LaneW(op, g, rt, ra, b, 2), LaneW(op, g, rt, ra, b, 3)]);
      assert Words(gpr[rt]) == Words(q);
      WordsDetermine(gpr[rt], q);
    }

    /** `SW(R[rt], i, v)` */
    method WriteW(rt: Reg, i: nat, v: word)
      requires Valid() && i < 4
      modifies gpr
      ensures forall r: Reg :: r != rt ==> gpr[r] == old(gpr[r])
      ensures forall j :: 0 <= j < 4 ==> GetW(gpr[rt], j) == if j == i then v else GetW(old(gpr[rt]), j)
    {
      forall j | 0 <= j < 4
        ensures GetW(SetW(gpr[rt], i, v), j) == if j == i then v else GetW(gpr[rt], j)
      {
        GetSetW(gpr[rt], i, v, j);
      }
      gpr[rt] := SetW(gpr[rt], i, v);
    }

    method HalfLoop(op: HalfOp, rt: Reg, ra: Reg, b: Operand)
      requires Valid()
      modifies gpr
      ensures gpr[..] == old(gpr[..])[rt := ResultH(op, old(gpr[..]), ra, b)]
    {
      hide EvalH, GetH, OfHalves;
      ghost var g: RegFile := gpr[..];
      for i := 0 to 8
        invariant forall r: Reg :: r != rt ==> gpr[r] == g[r]
        invariant forall j :: 0 <= j < i ==> GetH(gpr[rt], j) == LaneH(op, g, ra, b, j)
        invariant forall j :: i <= j < 8 ==> GetH(gpr[rt], j) == GetH(g[rt], j)
      {
        var y := if b.FromReg? then GetH(gpr[b.r], i) else b.v % 0x1_0000;
        var v := EvalH(op, GetH(gpr[ra], i), y);
        assert v == LaneH(op, g, ra, b, i);
        WriteH(rt, i, v);
      }
      ghost var hs := seq(8, i requires 0 <= i < 8 => LaneH(op, g, ra, b, i));
      HalvesOfHalves(hs);
      forall j | 0 <= j < 8
        ensures Halves(gpr[rt])[j] == hs[j]
      {
        assert Halves(gpr[rt])[j] == GetH(gpr[rt], j);
      }
      HalvesDetermine(gpr[rt], ResultH(op, g, ra, b));
    }

    method WriteH(rt: Reg, i: nat, v: half)
      requires Valid() && i < 8
      modifies gpr
      ensures forall r: Reg :: r != rt ==> gpr[r] == old(gpr[r])
      ensures forall j :: 0 <= j < 8 ==> GetH(gpr[rt], j) == if j == i then v else GetH(old(gpr[rt]), j)
    {
      forall j | 0 <= j < 8
        ensures GetH(SetH(gpr[rt], i, v), j) == if j == i then v else GetH(gpr[rt], j)
      {
        GetSetH(gpr[rt], i, v, j);
      }
      gpr[rt] := SetH(gpr[rt], i, v);
    }

    method ByteLoop(op: ByteOp, rt: Reg, ra: Reg, b: Operand)
      requires Valid()
      modifies gpr
      ensures gpr[..] == old(gpr[..])[rt := ResultB(op, old(gpr[..]), ra, b)]
    {
      ghost var g: RegFile := gpr[..];
      for i := 0 to 16
        invariant forall r: Reg :: r != rt ==> gpr[r] == g[r]
        invariant forall j :: 0 <= j < i ==> gpr[rt][j] == LaneB(op, g, ra, b, j)
        invariant forall j :: i <= j < 16 ==> gpr[rt][j] == g[rt][j]
      {
        var y := if b.FromReg? then gpr[b.r][i] else b.v % 0x100;
        var v: byte;
        if op.BCntb? {
          v := CountBits(gpr[ra][i]);
        } else {
          v := EvalB(op, gpr[ra][i], y, 0);
        }
        assert v == LaneB(op, g, ra, b, i);
        gpr[rt] := gpr[rt][i := v];
      }
      assert gpr[rt] == ResultB(op, g, ra, b);
    }

    // ----- Instructions that build their result in a local quadword -----

    method MultiplyAddLoop(a: Quad, b: Quad, c: Quad) returns (t: Quad)
      ensures t == MultiplyAddQ(a, b, c)
    {
      t := Zeros(16);
      for i := 0 to 4
        invariant forall j :: 0 <= j < i ==> GetW(t, j) == EvalW(WMpya, GetW(a, j), GetW(b, j), GetW(c, j))
      {
        var v := EvalW(WMpya, GetW(a, i), GetW(b, i), GetW(c, i));
        forall j | 0 <= j < i + 1
          ensures GetW(SetW(t, i, v), j) == if j == i then v else GetW(t, j)
        {
          GetSetW(t, i, v, j);
        }
        t := SetW(t, i, v);
      }
      WordsOfWords([EvalW(WMpya, GetW(a, 0), GetW(b, 0), GetW(c, 0)), EvalW(WMpya, GetW(a, 1), GetW(b, 1), GetW(c, 1)),
                    EvalW(WMpya, GetW(a, 2), GetW(b, 2), GetW(c, 2)),
                    EvalW(WMpya, GetW(a, 3), GetW(b, 3), GetW(c, 3))]);
      WordsDetermine(t, MultiplyAddQ(a, b, c));
    }

    method SelectLoop(a: Quad, b: Quad, c: Quad) returns (t: Quad)
      ensures t == SelectQ(a, b, c)
    {
      var buf := new byte[16](_ => 0);
      for i := 0 to 16
        invariant forall j :: 0 <= j < i ==> buf[j] == SelectQ(a, b, c)[j]
      {
        buf[i] := Or(And(c[i], b[i]), And(0xFF - c[i], a[i])) % 0x100;
      }
      t := buf[..];
    }

    method ShuffleLoop(a: Quad, b: Quad, c: Quad) returns (t: Quad)
      ensures t == ShuffleQ(a, b, c)
    {
      var buf := new byte[16](_ => 0);
      for i := 0 to 16
        invariant forall j :: 0 <= j < i ==> buf[j] == ShuffleQ(a, b, c)[j]
      {
        var sel := c[i];
        if sel / 0x40 * 0x40 == 0x80 {
          buf[i] := 0x00;
        } else if sel / 0x20 * 0x20 == 0xC0 {
          buf[i] := 0xFF;
        } else if sel / 0x20 * 0x20 == 0xE0 {
          buf[i] := 0x80;
        } else {
          var k := sel % 0x20;
          buf[i] := if k < 16 then a[k] else b[k - 16];
        }
      }
      t := buf[..];
    }

    method ControlsLoop(pos: word, size: nat) returns (t: Quad)
      requires ControlSize(size)
      ensures t == ControlsQ(pos, size)
    {
      var buf := new byte[16](_ => 0);
      for k := 0 to 16
        invariant forall j :: 0 <= j < k ==> buf[j] == 0x10 + j
      {
        buf[k] := 0x10 + k;
      }
      var p := ElementStart(pos, size);
      for k := 0 to size
        invariant forall j :: 0 <= j < 16 ==> buf[j] == if p <= j < p + k then j - p else 0x10 + j
      {
        buf[p + k] := k;
      }
      t := buf[..];
    }

    method FormMaskLoop(n: nat, m: word) returns (t: Quad)
      requires LaneCount(n)
      ensures t == FormMaskQ(n, m)
    {
      var buf := new byte[16](_ => 0);
      var w := LaneBytes(n);
      for i := 0 to n
        invariant forall j :: 0 <= j < i * w ==> buf[j] == FormMaskQ(n, m)[j]
      {
        hide FormMaskQ, Shr, Bit;
        var v := Mask8(Shr(m, n - 1 - i) % 2 == 1);
        hide Mask8;
        for k := 0 to w
          invariant forall j :: 0 <= j < i * w + k ==> buf[j] == FormMaskQ(n, m)[j]
        {
          MaskLane(n, m, i, k);
          buf[i * w + k] := v;
        }
        assert (i + 1) * w == i * w + w;
      }
      t := buf[..];
    }

    method GatherLoop(n: nat, q: Quad) returns (v: word)
      requires LaneCount(n)
      ensures v == GatherBits(n, q, n)
    {
      var acc: nat := 0;
      for i := 0 to n
        invariant acc == Shl(GatherBits(n, q, i), n - i)
      {
        hide *;
        GatherNextBit(n, q, i);
        acc := Or(acc, Shl(LaneLsb(n, q, i), n - i - 1));
      }
      GatherBitsSmall(n, q);
      v := acc;
    }

    method SumBytesLoop(a: Quad, b: Quad) returns (t: Quad)
      ensures t == SumBytesQ(a, b)
    {
      var hs: seq<half> := [];
      for i := 0 to 4
        invariant |hs| == 2 * i
        invariant forall j :: 0 <= j < i ==> hs[2 * j] == ByteSum(b, j) && hs[2 * j + 1] == ByteSum(a, j)
      {
        hs := hs + [ByteSum(b, i), ByteSum(a, i)];
      }
      assert hs == [hs[2 * 0], hs[2 * 0 + 1], hs[2 * 1], hs[2 * 1 + 1],
                    hs[2 * 2], hs[2 * 2 + 1], hs[2 * 3], hs[2 * 3 + 1]];
      t := OfHalves(hs);
    }

    method ShiftQuadword(op: QuadOp, q: Quad, c: word) returns (t: Quad)
      ensures t == ShiftQ(op, q, c)
    {
      match op
      case RotBit => t := Shifts.QRotBits(q, c % 8);
      case ShrBit => t := Shifts.QShrBits(q, NegMod(c, 8));
      case ShlBit => t := Shifts.QShlBits(q, c % 8);
      case RotByte => t := Shifts.QRotBytes(q, c % 16);
      case ShrByte => t := Shifts.QShrBytes(q, NegMod(c, 32));
      case ShlByte => t := Shifts.QShlBytes(q, c % 32);
      case RotByteBit => t := Shifts.QRotBytes(q, c / 8 % 16);
      case ShrByteBit => t := Shifts.QShrBytes(q, NegMod(c / 8, 32));
      case ShlByteBit => t := Shifts.QShlBytes(q, c / 8 % 32);
    }

    // ----- Execution -----

    method ReadOperand(b: Operand) returns (v: word)
      requires Valid()
      ensures v == OperandW(gpr[..], b, 0)
    {
      v := if b.FromReg? then GetW(gpr[b.r], 0) else b.v;
    }

    /** Instructions that compute RT from registers. */
    method ComputeRegister(i: Instr)
      requires Valid() && WellFormed(i) && Pure(i)
      modifies gpr
      ensures gpr[..] == old(gpr[..])[i.rt := Compute(i, old(gpr[..]))]
    {
      if i.WordLanes? {
        WordLoop(i.wop, i.rt, i.ra, i.b);
      } else if i.HalfLanes? {
        HalfLoop(i.hop, i.rt, i.ra, i.b);
      } else if i.ByteLanes? {
        ByteLoop(i.bop, i.rt, i.ra, i.b);
      } else {
        var t := BuildRegister(i);
        gpr[i.rt] := t;
      }
    }

    method BuildRegister(i: Instr) returns (t: Quad)
      requires Valid() && WellFormed(i) && Pure(i) && !i.WordLanes? && !i.HalfLanes? && !i.ByteLanes?
      ensures t == Compute(i, gpr[..])
    {
      hide MultiplyAddQ, SelectQ, ShuffleQ, ShiftQ, ControlsQ, FormMaskQ, OrAcrossQ, SumBytesQ, ExtendQ, Preferred;
      match i {
        case MultiplyAdd(rt, ra, rb, rc) => t := MultiplyAddLoop(gpr[ra], gpr[rb], gpr[rc]);
        case Select(rt, ra, rb, rc) => t := SelectLoop(gpr[ra], gpr[rb], gpr[rc]);
        case Shuffle(rt, ra, rb, rc) => t := ShuffleLoop(gpr[ra], gpr[rb], gpr[rc]);
        case ShiftQuad(op, rt, ra, b) =>
          var c := ReadOperand(b);
          t := ShiftQuadword(op, gpr[ra], c);
        case Controls(size, rt, ra, b) =>
          var c := ReadOperand(b);
          t := ControlsLoop(Wrap32(GetW(gpr[ra], 0) + c), size);
        case FormMask(n, rt, b) =>
          var c := ReadOperand(b);
          t := FormMaskLoop(n, c);
        case Gather(n, rt, ra) =>
          var v := GatherLoop(n, gpr[ra]);
          t := Preferred(v);
        case OrAcross(rt, ra) => t := OrAcrossQ(gpr[ra]);
        case SumBytes(rt, ra, rb) => t := SumBytesLoop(gpr[ra], gpr[rb]);
        case ExtendWords(rt, ra) => t := ExtendQ(gpr[ra]);
        case Clear(rt) => t := Zeros(16);
        case Copy(rt, rb) => t := gpr[rb];
      }
    }

    method EffectiveAddress(a: Address, at: word) returns (p: nat)
      requires Valid()
      ensures p == Effective(gpr[..], at, a) && p + 16 <= LS_SIZE
    {
      hide QuadAddr, GetW, Wrap32;
      match a
      case Absolute(x) => p := QuadAddr(x);
      case Relative(off) => p := QuadAddr(Wrap32(at + off));
      case Displaced(ra, d) => p := QuadAddr(Wrap32(GetW(gpr[ra], 0) + d));
      case Indexed(ra, rb) => p := QuadAddr(Wrap32(GetW(gpr[ra], 0) + GetW(gpr[rb], 0)));
    }

    method WriteQuad(p: nat, q: Quad)
      requires Valid() && p + 16 <= LS_SIZE
      modifies ls
      ensures ls[..] == Write128(old(ls[..]), p, q)
    {
      forall k | 0 <= k < 16 {
        ls[p + k] := q[k];
      }
    }

    method BranchTo(c: Condition, link: bool, rt: Reg, t: Target, at: word)
      requires Valid()
      modifies this`pc, gpr
      ensures Abs() == old(DoBranch(Abs(), at, c, link, rt, t))
    {
      hide Taken, Preferred, GetW;
      if Taken(c, gpr[rt]) {
        var returnTo := pc;
        pc := match t
              case ToAddress(a) => a % LS_SIZE
              case ToOffset(off) => Wrap32(at + off) % LS_SIZE
              case ToRegister(ra) => AlignDown(GetW(gpr[ra], 0) % LS_SIZE, 4);
        if link {
          gpr[rt] := Preferred(returnTo);
        }
      }
    }

    method ReadChannelInto(rt: Reg, ch: nat)
      requires Valid()
      modifies this, gpr
      ensures Abs() == old(DoRead(Abs(), rt, ch))
    {
      hide Preferred;
      var v: word := 0;
      if ch == 24 {
        tagPending := false;
        v := mfc.tagMask;
      } else if ch == 29 {
        if inCount > 0 {
          inCount := 0;
          v := inMbox;
        } else {
          running := false;
        }
      } else if ch == 3 || ch == 4 {
        if signalCount[ch - 3] != 0 {
          signalCount := signalCount[ch - 3 := signalCount[ch - 3] - 1];
          v := signal[ch - 3];
        } else {
          running := false;
        }
      } else if ch == 8 {
        v := decr;
      } else if ch == 15 {
        v := pc;
      }
      gpr[rt] := Preferred(v);
    }

    /** `memcpy` into local store. */
    method CopyIn(at: nat, bytes: seq<byte>)
      requires Valid() && at + |bytes| <= LS_SIZE
      modifies ls
      ensures ls[..] == Spliced(old(ls[..]), at, bytes)
    {
      ghost var was := ls[..];
      for k := 0 to |bytes|
        invariant forall j :: 0 <= j < LS_SIZE ==> ls[j] == if at <= j < at + k then bytes[j - at] else was[j]
      {
        ls[at + k] := bytes[k];
      }
    }

    /** `mfc_execute` */
    method ExecuteDma(cmd: word)
      requires Valid()
      modifies this`vm, ls
      ensures (ls[..], vm) == old(Dma(host, mfc, cmd, ls[..], vm))
    {
      if vm == [] { return; }
      var lsa, size := mfc.lsa % LS_SIZE, mfc.size;
      if size > MAX_SIZE { size := MAX_SIZE; }
      var defined := true;
      if IsGet(cmd) {
        defined := GetInto(lsa, mfc.eal, size);
      } else if IsPut(cmd) {
        defined := PutFrom(lsa, mfc.eal, size);
      }
      if !defined {
        UndefinedDma(cmd);
      }
    }

    method GetInto(lsa: nat, ea: word, size: nat) returns (defined: bool)
      requires Valid() && lsa < LS_SIZE && size <= MAX_SIZE && vm != []
      modifies ls
      ensures defined <==> old(Get(lsa, ea, size, ls[..], vm)).Moved?
      ensures if defined then Moved(ls[..], vm) == old(Get(lsa, ea, size, ls[..], vm)) else ls[..] == old(ls[..])
    {
      hide Spliced;
      defined := true;
      if InWindow(ea, size) {
        var from := ea - LS_WINDOW;
        if from + size <= LS_SIZE {
          defined := Copyable(lsa, from, size);
          if defined { CopyIn(lsa, ls[from..from + size]); }
        }
      } else if InRam(ea, size) {
        defined := lsa + size <= LS_SIZE;
        if defined { CopyIn(lsa, vm[ea..ea + size]); }
      }
    }

    method PutFrom(lsa: nat, ea: word, size: nat) returns (defined: bool)
      requires Valid() && lsa < LS_SIZE && size <= MAX_SIZE && vm != []
      modifies this`vm, ls
      ensures defined <==> old(Put(lsa, ea, size, ls[..], vm)).Moved?
      ensures defined ==> Moved(ls[..], vm) == old(Put(lsa, ea, size, ls[..], vm))
      ensures !defined ==> ls[..] == old(ls[..]) && vm == old(vm)
    {
      hide Spliced;
      defined := true;
      if InWindow(ea, size) {
        var to := ea - LS_WINDOW;
        if to + size <= LS_SIZE {
          defined := Copyable(to, lsa, size);
          if defined { CopyIn(to, ls[lsa..lsa + size]); }
        }
      } else if InRam(ea, size) || InCommandBuffer(ea, size) {
        defined := lsa + size <= LS_SIZE;
        if defined { vm := Spliced(vm, ea, ls[lsa..lsa + size]); }
      }
    }

    /** What the host makes of a copy that C does not define. */
    method UndefinedDma(cmd: word)
      requires Valid()
      modifies this`vm, ls
      ensures (ls[..], vm) == old(host.dma(mfc, cmd, ls[..], vm))
    {
      var r := host.dma(mfc, cmd, ls[..], vm);
      assert Spliced(ls[..], 0, r.0) == r.0;
      CopyIn(0, r.0);
      vm := r.1;
    }

    method WriteChannelFrom(rt: Reg, ch: nat)
      requires Valid()
      modifies this, ls
      ensures Abs() == old(WriteCh(host, Abs(), ch, GetW(gpr[rt], 0)))
    {
      hide GetW;
      var v := GetW(gpr[rt], 0);
      if ch == 16 { mfc := mfc.(lsa := v); }
      else if ch == 17 { mfc := mfc.(eah := v); }
      else if ch == 18 { mfc := mfc.(eal := v); }
      else if ch == 19 { mfc := mfc.(size := v); }
      else if ch == 20 { mfc := mfc.(tag := v); }
      else if ch == 21 {
        ExecuteDma(v);
      }
      else if ch == 22 { mfc := mfc.(tagMask := v); }
      else if ch == 23 { tagPending := true; }
      else if ch == 28 || ch == 30 { outMbox, outCount := v, 1; }
      else if ch == 7 { decr := v; }
      else if ch == 14 { pc := v; }
    }

    method CountChannelInto(rt: Reg, ch: nat)
      requires Valid()
      modifies gpr
      ensures gpr[..] == old(gpr[..][rt := Preferred(CountCh(Abs(), ch))])
    {
      hide Preferred;
      var v := if ch == 29 then Wrap32(inCount)
               else if ch == 28 then (if outCount == 0 then 1 else 0)
               else if ch == 23 || ch == 24 then 1
               else if ch == 3 || ch == 4 then Wrap32(signalCount[ch - 3])
               else 0;
      gpr[rt] := Preferred(v);
    }

    method Execute(i: Instr, at: word)
      requires Valid() && WellFormed(i)
      modifies this, gpr, ls
      ensures Abs() == old(Exec(host, i, at, Abs()))
    {
      hide Compute, Preferred, DoBranch, DoRead, WriteCh, CountCh, Effective, Write128, GetW, WellFormed;
      if Pure(i) {
        ComputeRegister(i);
        return;
      }
      match i {
        case Load(rt, a) =>
          var p := EffectiveAddress(a, at);
          gpr[rt] := ls[p..p + 16];
        case Store(rt, a) =>
          var p := EffectiveAddress(a, at);
          WriteQuad(p, gpr[rt]);
        case Branch(c, link, rt, t) => BranchTo(c, link, rt, t, at);
        case LinkOnly(rt) => gpr[rt] := Preferred(pc);
        case ReadChannel(rt, ch) => ReadChannelInto(rt, ch);
        case WriteChannel(rt, ch) => WriteChannelFrom(rt, ch);
        case CountChannel(rt, ch) => CountChannelInto(rt, ch);
        case Stop(code) =>
          stopCode := code;
          running := false;
        case Halt => running := false;
        case Float(insn, rt, ra, rb, rc) => gpr[rt] := host.fp(insn, gpr[ra], gpr[rb], gpr[rc]);
        case Nop =>
      }
    }

    method PatchStreamDescriptor(at: word)
      requires Valid()
      modifies gpr, ls
      ensures Abs() == old(EdgeFixup(Abs(), at))
    {
      hide SetW, GetW, QuadAddr;
      if at == EDGE_FIXUP_PC && id == 2 {
        var p := QuadAddr(Wrap32(GetW(gpr[49], 0) + GetW(gpr[124], 0)));
        if p < 0x80 {
          p := 0xADD0;
          gpr[49] := SetW(gpr[49], 0, p);
          gpr[124] := SetW(gpr[124], 0, 0);
        }
        ls[p + 4] := 0xD0;
        ls[p + 5] := 0x10;
        ls[p + 6] := 0x00;
        ls[p + 7] := 0x00;
      }
    }

    method ReadWord(a: word) returns (v: word)
      requires Valid()
      ensures v == Read32(ls[..], a)
    {
      var p := AlignDown(a % LS_SIZE, 4);
      v := Be32(ls[p], ls[p + 1], ls[p + 2], ls[p + 3]);
    }

    method StepOnce()
      requires Valid()
      modifies this, gpr, ls
      ensures Abs() == old(Step(host, Abs()))
    {
      hide Exec, Decode, EdgeFixup;
      var at := pc % LS_SIZE;
      PatchStreamDescriptor(at);
      var insn := ReadWord(at);
      hide Read32;
      pc := (at + 4) % LS_SIZE;
      Execute(Decode(insn), at);
    }

    method RunFor(max: word) returns (n: word)
      requires Valid()
      modifies this, gpr, ls
      ensures n <= max
      ensures Abs() == old(Run(host, Abs(), max)).0 && n == old(Run(host, Abs(), max)).1
    {
      hide Step;
      n := 0;
      while running && n < max
        invariant n <= max
        invariant Run(host, Abs(), max - n).0 == old(Run(host, Abs(), max)).0
        invariant Run(host, Abs(), max - n).1 + n == old(Run(host, Abs(), max)).1
        decreases max - n
      {
        StepOnce();
        insnCount := (insnCount + 1) % TWO64;
        n := n + 1;
      }
    }
  }
}
