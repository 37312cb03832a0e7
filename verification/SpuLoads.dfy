/** Loads narrower than a quadword, and differences added back: instruction sequences over
several opcodes, up to their instruction words in local store. */
module SpuLoads {
  import opened Bits
  import opened Quad
  import opened Lanes
  import opened Spu
  import opened SpuDma
  import opened SpuPrograms
  import opened SpuStraight
  import LaneMeanings
  import Shifts
  import SpuIdioms
  import SpuIsaLanes
  import SpuRuns

  // ----- Scalar loads -----

  /** lqx t,a,b; a x,a,b; rotqby t,t,x */
  function ScalarLoad(t: Reg, x: Reg, a: Reg, b: Reg): seq<Instr> {
    [Load(t, Indexed(a, b)), WordLanes(WAdd, x, a, FromReg(b)), ShiftQuad(RotByte, t, t, FromReg(x))]
  }

  /** The address, in local store. */
  function At(g: RegFile, a: Reg, b: Reg): (y: nat)
    ensures y < 0x4_0000
  {
    (GetW(g[a], 0) + GetW(g[b], 0)) % 0x4_0000
  }

  lemma {:induction false} StraightThree(h: Host, s: State, i: Instr, j: Instr, k: Instr)
    requires WellFormed(i) && WellFormed(j) && WellFormed(k)
    ensures Straight(h, s, [i, j, k]) == Advance(h, Advance(h, Advance(h, s, i), j), k)
  {
    hide Advance;
    assert [i, j, k][1..] == [j, k];
    assert [j, k][1..] == [k];
    assert [k][1..] == [];
    assert Straight(h, Advance(h, s, i), [j, k]) == Straight(h, Advance(h, Advance(h, s, i), j), [k]);
  }

  lemma AdvancePure(h: Host, s: State, i: Instr)
    requires WellFormed(i) && Pure(i)
    ensures Advance(h, s, i).gpr == s.gpr[i.rt := Compute(i, s.gpr)] && Advance(h, s, i).ls == s.ls
  {
    hide Compute;
  }

  /** The byte `k` places after address `y`, going round within its quadword. */
  function Around(ls: LocalStore, y: nat, k: nat): byte
    requires y < 0x4_0000 && k < 16
  {
    ls[y / 16 * 16 + (y + k) % 16]
  }

  predicate ShowsFrom(q: Quad, ls: LocalStore, y: nat)
    requires y < 0x4_0000
  {
    forall k :: 0 <= k < 16 ==> q[k] == Around(ls, y, k)
  }

  /** The sequence brings the bytes from the address on to the front of the register, going round
  within the quadword, and changes nothing but its two registers. */
  lemma {:induction false} ScalarLoadLoads(h: Host, s: State, t: Reg, x: Reg, a: Reg, b: Reg)
    requires t != x && t != a && t != b
    ensures var s' := Straight(h, s, ScalarLoad(t, x, a, b));
      s'.ls == s.ls && (forall r: Reg :: r != t && r != x ==> s'.gpr[r] == s.gpr[r]) &&
      ShowsFrom(s'.gpr[t], s.ls, At(s.gpr, a, b))
  {
    hide Straight, Advance, GetW, Compute, ShowsFrom, Around;
    var i, j, l := Load(t, Indexed(a, b)), WordLanes(WAdd, x, a, FromReg(b)), ShiftQuad(RotByte, t, t, FromReg(x));
    StraightThree(h, s, i, j, l);
    AdvanceLoad(h, s, t, Indexed(a, b));
    var s1 := Advance(h, s, i);
    AdvancePure(h, s1, j);
    var s2 := Advance(h, s1, j);
    AdvancePure(h, s2, l);
    SpuIsaLanes.WordLane(WAdd, s1.gpr, x, a, FromReg(b), 0);
    RotatedBytes(s.ls, s2.gpr, t, x, GetW(s.gpr[a], 0) + GetW(s.gpr[b], 0));
  }

  lemma RotatedBytes(ls: LocalStore, g: RegFile, t: Reg, x: Reg, sum: nat)
    requires GetW(g[x], 0) == Wrap32(sum)
    requires var p := QuadAddr(Wrap32(sum)); g[t] == ls[p..p + 16]
    ensures ShowsFrom(Compute(ShiftQuad(RotByte, t, t, FromReg(x)), g), ls, sum % 0x4_0000)
  {
    var y, n := sum % 0x4_0000, Wrap32(sum) % 16;
    WrappedInStore(sum);
    assert QuadAddr(Wrap32(sum)) == y / 16 * 16;
    hide GetW, Wrap32, QuadAddr;
    assert Compute(ShiftQuad(RotByte, t, t, FromReg(x)), g) == Shifts.RotBytes(g[t], n);
    hide Compute;
    RotatedFrom(g[t], ls, y, n);
  }

  lemma RotatedFrom(q: Quad, ls: LocalStore, y: nat, n: nat)
    requires y < 0x4_0000 && n == y % 16 && y / 16 * 16 + 16 <= LS_SIZE && q == ls[y / 16 * 16..y / 16 * 16 + 16]
    ensures ShowsFrom(Shifts.RotBytes(q, n), ls, y)
  {
    var p := y / 16 * 16;
    forall k | 0 <= k < 16
      ensures Shifts.RotBytes(q, n)[k] == Around(ls, y, k)
    {
      RoundTheQuadword(n, y, k);
    }
  }

  lemma WrappedInStore(sum: nat)
    ensures Wrap32(sum) % 0x4_0000 == sum % 0x4_0000 && Wrap32(sum) % 16 == sum % 0x4_0000 % 16
  {
    ModTurn(sum, 0x4_0000, -(sum / TWO32 * 0x4000));
    ModTurn(sum, 16, -(sum / TWO32 * 0x1000_0000));
    ModTurn(sum, 16, -(sum / 0x4_0000 * 0x4000));
  }

  lemma RoundTheQuadword(n: nat, y: nat, k: nat)
    requires n == y % 16 && k < 16
    ensures (y + k) % 16 == if n + k < 16 then n + k else n + k - 16
  {
    DivUnique(y + k, 16, y / 16 + if n + k < 16 then 0 else 1, if n + k < 16 then n + k else n + k - 16);
  }

  /** Loaded in local store and run, the three words bring every aligned element of 1, 2, 4, 8 or
  16 bytes to the front of the register. */
  lemma ScalarLoadRuns(h: Host, s: State, t: Reg, x: Reg, a: Reg, b: Reg, size: nat)
    requires t != x && t != a && t != b && s.running && Loaded(s, ScalarLoad(t, x, a, b))
    requires size in {1, 2, 4, 8, 16} && At(s.gpr, a, b) % size == 0
    ensures var r, y := RunAll(h, s, ScalarLoad(t, x, a, b)), At(s.gpr, a, b);
      r.1 == 3 && r.0.ls == s.ls && (forall z: Reg :: z != t && z != x ==> r.0.gpr[z] == s.gpr[z]) &&
      y + size <= LS_SIZE && r.0.gpr[t][..size] == s.ls[y..y + size]
  {
    hide *;
    var code := ScalarLoad(t, x, a, b);
    StoresNothing(t, x, a, b);
    LoadedCode(s, code);
    StoresLastSpares(h, s, code);
    RunStraight(h, s, code);
    ScalarLoadLoads(h, s, t, x, a, b);
    ElementFront(Straight(h, s, code).gpr[t], s.ls, At(s.gpr, a, b), size);
  }

  lemma StoresNothing(t: Reg, x: Reg, a: Reg, b: Reg)
    ensures var code := ScalarLoad(t, x, a, b);
      |code| == 3 && (forall k :: 0 <= k < |code| - 1 ==> !code[k].Store?) && forall i | i in code :: FallsThrough(i)
  {
  }

  lemma ElementFront(q: Quad, ls: LocalStore, y: nat, size: nat)
    requires y < 0x4_0000 && size in {1, 2, 4, 8, 16} && y % size == 0 && ShowsFrom(q, ls, y)
    ensures y + size <= LS_SIZE && q[..size] == ls[y..y + size]
  {
    hide ShowsFrom;
    InsideQuadword(y, size, size - 1);
    forall k | 0 <= k < size
      ensures q[k] == ls[y..y + size][k]
    {
      InsideQuadword(y, size, k);
      ShowsAt(q, ls, y, k);
    }
  }

  lemma ShowsAt(q: Quad, ls: LocalStore, y: nat, k: nat)
    requires y < 0x4_0000 && k < 16 && ShowsFrom(q, ls, y)
    ensures q[k] == Around(ls, y, k)
  {
  }

  lemma InsideQuadword(y: nat, size: nat, k: nat)
    requires size in {1, 2, 4, 8, 16} && y % size == 0 && k < size && y < 0x4_0000
    ensures y + k < 0x4_0000 && y / 16 * 16 + (y + k) % 16 == y + k
  {
    var q, r := y / 16, y % 16;
    Aligned(q, r, size);
    DivUnique(y + k, 16, q, r + k);
  }

  lemma Aligned(q: nat, r: nat, size: nat)
    requires size in {1, 2, 4, 8, 16} && r < 16 && (q * 16 + r) % size == 0
    ensures r + size <= 16
  {
    ModTurn(r, size, q * (16 / size));
    var k := r / size;
    assert q * (16 / size) * size == q * 16 by { Whole(q, size); }
    assert r == k * size;
    if size == 2 { } else if size == 4 { } else if size == 8 { } else if size == 16 { } else { }
  }

  lemma Whole(q: nat, size: nat)
    requires size in {1, 2, 4, 8, 16}
    ensures q * (16 / size) * size == q * 16
  {
    if size == 2 { } else if size == 4 { } else if size == 8 { } else if size == 16 { } else { }
  }

  // ----- Differences added back -----

  /** sf t,a,b; a t,t,a */
  function SubtractAdd(t: Reg, a: Reg, b: Reg): (code: seq<Instr>)
    ensures SpuIdioms.Registers(code) && |code| == 2
  {
    [WordLanes(WSubFrom, t, a, FromReg(b)), WordLanes(WAdd, t, t, FromReg(a))]
  }

  /** Taking RA from RB and adding it again gives RB, in every lane. */
  lemma {:induction false} SubtractAddRestores(g: RegFile, t: Reg, a: Reg, b: Reg)
    requires t != a
    ensures SpuIdioms.Regs(g, SubtractAdd(t, a, b)) == g[t := g[b]]
  {
    hide Compute, GetW, SpuIdioms.Regs;
    var i, j := WordLanes(WSubFrom, t, a, FromReg(b)), WordLanes(WAdd, t, t, FromReg(a));
    assert SubtractAdd(t, a, b) == ([] + [i]) + [j];
    SpuIdioms.RegsNone(g);
    SpuIdioms.RegsThen(g, [], i);
    SpuIdioms.RegsThen(g, [] + [i], j);
    var g1 := g[t := Compute(i, g)];
    var q := Compute(j, g1);
    forall k | 0 <= k < 4
      ensures GetW(q, k) == GetW(g[b], k)
    {
      SpuIsaLanes.WordLane(WSubFrom, g, t, a, FromReg(b), k);
      SpuIsaLanes.WordLane(WAdd, g1, t, t, FromReg(a), k);
      LaneMeanings.SubtractAddBack(GetW(g[a], k), GetW(g[b], k), GetW(g[t], k), GetW(g1[t], k));
    }
    WordsDetermine(q, g[b]);
  }

  lemma {:induction false} SubtractAddRuns(h: Host, s: State, t: Reg, a: Reg, b: Reg)
    requires t != a && s.running && Loaded(s, SubtractAdd(t, a, b))
    ensures var r := RunAll(h, s, SubtractAdd(t, a, b));
      r.1 == 2 && r.0.ls == s.ls && r.0.gpr == s.gpr[t := s.gpr[b]]
  {
    hide *;
    RunRegisters(h, s, SubtractAdd(t, a, b));
    SubtractAddRestores(s.gpr, t, a, b);
  }

  /** Both sequences have instruction words, whatever registers they use. */
  lemma SequencesLoad(s: State, t: Reg, x: Reg, a: Reg, b: Reg)
    requires SpuRuns.AlignedPc(s.pc) && s.pc + 12 <= LS_SIZE && Unpatched(s, 3)
    ensures forall code | code in {ScalarLoad(t, x, a, b), SubtractAdd(t, a, b)} ::
      Assembled(code) && s.pc + 4 * |code| <= LS_SIZE && Loaded(s.(ls := WithCode(s.ls, s.pc, code)), code)
  {
    assert Assembled(ScalarLoad(t, x, a, b)) && Assembled(SubtractAdd(t, a, b)) by { hide Decode; }
    assert |ScalarLoad(t, x, a, b)| == 3;
    hide Assembled, Loaded, WithCode, ScalarLoad, SubtractAdd;
    CodeLoads(s, ScalarLoad(t, x, a, b));
    CodeLoads(s, SubtractAdd(t, a, b));
  }
}
