/** Stores narrower than a quadword, and the mask instructions: round trips through the
generated control words of `spu_interp.cpp`. */
module SpuInsert {
  import opened Bits
  import opened Quad
  import opened Lanes
  import opened Spu
  import opened SpuCode
  import opened SpuStraight
  import opened SpuDma

  // ----- Generated controls -----

  /** `shufb` under generated controls inserts the leading `size` bytes of RA at an element. */
  lemma ControlsInsert(a: Quad, b: Quad, pos: nat, size: nat)
    requires ControlSize(size)
    ensures var p := ElementStart(pos, size);
      ShuffleQ(a, b, ControlsQ(pos, size)) == b[..p] + a[..size] + b[p + size..]
  {
    var p := ElementStart(pos, size);
    var c := ControlsQ(pos, size);
    forall k | 0 <= k < 16
      ensures ShuffleByte(a, b, c[k]) == (b[..p] + a[..size] + b[p + size..])[k]
    {
      assert c[k] == if p <= k < p + size then k - p else 0x10 + k;
    }
  }

  /** First byte of the slot from which the SPU instruction set takes a scalar of `size` bytes. */
  function PreferredStart(size: nat): nat
    requires ControlSize(size)
  {
    if size == 1 then 3 else if size == 2 then 2 else 0
  }

  /** Register `b` with the element at `pos` replaced by the scalar in the preferred slot of `a`. */
  function InsertedScalar(a: Quad, b: Quad, pos: nat, size: nat): seq<byte>
    requires ControlSize(size)
  {
    var p, from := ElementStart(pos, size), PreferredStart(size);
    b[..p] + a[from..from + size] + b[p + size..]
  }

  /** The insertion the instruction set defines happens exactly when the leading bytes of RA
  equal its preferred slot: always for words and doublewords, whose slot is leading. */
  lemma InsertsScalarIff(a: Quad, b: Quad, pos: nat, size: nat)
    requires ControlSize(size)
    ensures var from := PreferredStart(size);
      ShuffleQ(a, b, ControlsQ(pos, size)) == InsertedScalar(a, b, pos, size) <==> a[..size] == a[from..from + size]
    ensures size == 4 || size == 8 ==> ShuffleQ(a, b, ControlsQ(pos, size)) == InsertedScalar(a, b, pos, size)
  {
    ControlsInsert(a, b, pos, size);
    var p, from := ElementStart(pos, size), PreferredStart(size);
    var got, wanted := ShuffleQ(a, b, ControlsQ(pos, size)), InsertedScalar(a, b, pos, size);
    hide ShuffleQ, ControlsQ, ElementStart;
    assert got[p..p + size] == a[..size];
    assert wanted[p..p + size] == a[from..from + size];
  }

  /** A byte scalar, kept in byte 3 as the instruction set has it, is not what gets inserted. */
  lemma ByteScalarMissed(b: Quad, pos: nat)
    ensures var a := SetW(Zeros(16), 0, 1);
      ShuffleQ(a, b, ControlsQ(pos, 1)) != InsertedScalar(a, b, pos, 1)
  {
    var a := SetW(Zeros(16), 0, 1);
    assert a[0] == 0 && a[3] == 1;
    assert a[..1][0] != a[3..4][0];
    hide ShuffleQ, ControlsQ, InsertedScalar, SetW;
    InsertsScalarIff(a, b, pos, 1);
  }

  /** The element at an address: its quadword, and its place in the quadword. */
  lemma ElementAddress(x: word, size: nat)
    requires ControlSize(size)
    ensures QuadAddr(x) + ElementStart(x, size) == AlignDown(x % LS_SIZE, size)
  {
    PlaceInQuadword(x);
    ElementOf(x % LS_SIZE, size);
  }

  lemma PlaceInQuadword(x: word)
    ensures x % LS_SIZE % 16 == x % 16
  {
    var k, y := x / LS_SIZE, x % LS_SIZE;
    var q, r := y / 16, y % 16;
    assert x == k * LS_SIZE + y && y == q * 16 + r;
    DivUnique(x, 16, k * 0x4000 + q, r);
  }

  lemma ElementOf(y: nat, size: nat)
    requires ControlSize(size)
    ensures y / 16 * 16 + y % 16 / size * size == y / size * size
  {
    var q, r := y / 16, y % 16;
    assert y == q * 16 + r && 0 <= r < 16;
    if size == 1 {
      DivUnique(y, 1, q * 16 + r, 0);
    } else if size == 2 {
      DivUnique(y, 2, q * 8 + r / 2, r % 2);
    } else if size == 4 {
      DivUnique(y, 4, q * 4 + r / 4, r % 4);
    } else {
      DivUnique(y, 8, q * 2 + r / 8, r % 8);
    }
  }

  /** Load a quadword, generate controls, shuffle the source in, store the quadword. */
  function StoreElementAt(size: nat, src: Reg, t: Reg, c: Reg, q: Address, ra: Reg, b: Operand): seq<Instr> {
    [Load(t, q), Controls(size, c, ra, b), Shuffle(t, src, t, c), Store(t, q)]
  }

  /** The value of the address does not depend on the program counter or on the given register. */
  predicate Independent(a: Address, r: Reg) {
    match a
    case Absolute(x) => true
    case Relative(off) => false
    case Displaced(ra, d) => r != ra
    case Indexed(ra, rb) => r != ra && r != rb
  }

  /** Neither scratch register is written over something that a later instruction reads. */
  predicate ScratchApart(src: Reg, t: Reg, c: Reg, q: Address, ra: Reg, b: Operand) {
    t != c && Independent(q, t) && Independent(q, c) && t !in {src, ra} && c != src && b != FromReg(t)
  }

  lemma SameEffective(g: RegFile, g': RegFile, pc: word, pc': word, a: Address, t: Reg, c: Reg)
    requires Independent(a, t) && Independent(a, c) && forall r: Reg :: r != t && r != c ==> g'[r] == g[r]
    ensures Effective(g', pc', a) == Effective(g, pc, a)
  {
    hide GetW, QuadAddr, Wrap32;
  }

  /** The address that the controls are generated for. */
  function ControlAddress(g: RegFile, ra: Reg, b: Operand): word {
    Wrap32(GetW(g[ra], 0) + OperandW(g, b, 0))
  }

  /** The idiom replaces exactly one element by the leading bytes of the source register, and
  leaves every other byte of local store as it was. It is the element at the address of the
  controls exactly when load and store go to the quadword of that address. */
  lemma {:induction false} StoreElementAtStores(h: Host, s: State, size: nat, src: Reg, t: Reg, c: Reg,
                                                q: Address, ra: Reg, b: Operand)
    requires ControlSize(size) && ScratchApart(src, t, c, q, ra, b)
    ensures var x := ControlAddress(s.gpr, ra, b);
      var p := Effective(s.gpr, s.pc, q);
      var at := p + ElementStart(x, size);
      at + size <= LS_SIZE &&
      Straight(h, s, StoreElementAt(size, src, t, c, q, ra, b)).ls == Spliced(s.ls, at, s.gpr[src][..size]) &&
      (at == AlignDown(x % LS_SIZE, size) <==> p == QuadAddr(x))
    ensures forall r: Reg :: r != t && r != c ==>
      Straight(h, s, StoreElementAt(size, src, t, c, q, ra, b)).gpr[r] == s.gpr[r]
  {
    hide Exec, GetW, Straight, Advance, Spliced, ShuffleQ, ControlsQ, QuadAddr, ElementStart, Wrap32, AlignDown;
    hide Effective, Independent;
    var x := ControlAddress(s.gpr, ra, b);
    var p, e := Effective(s.gpr, s.pc, q), ElementStart(x, size);
    StraightFour(h, s, Load(t, q), Controls(size, c, ra, b), Shuffle(t, src, t, c), Store(t, q));
    AdvanceLoad(h, s, t, q);
    var s1 := Advance(h, s, Load(t, q));
    AdvanceControls(h, s1, size, c, ra, b);
    var s2 := Advance(h, s1, Controls(size, c, ra, b));
    AdvanceShuffle(h, s2, t, src, t, c);
    var s3 := Advance(h, s2, Shuffle(t, src, t, c));
    AdvanceStore(h, s3, t, q);
    SameEffective(s.gpr, s3.gpr, s.pc, s3.pc, q, t, c);
    ControlsInsert(s.gpr[src], s.ls[p..p + 16], x, size);
    ElementAddress(x, size);
    WriteInserted(s.ls, p, e, s.gpr[src][..size]);
  }

  /** lqx t,ra,rb; c?x c,ra,rb; shufb t,src,t,c; stqx t,ra,rb */
  function StoreElement(size: nat, src: Reg, t: Reg, c: Reg, ra: Reg, rb: Reg): seq<Instr> {
    StoreElementAt(size, src, t, c, Indexed(ra, rb), ra, FromReg(rb))
  }

  /** The indexed forms always store the addressed element. */
  lemma {:induction false} StoreElementStores(h: Host, s: State, size: nat, src: Reg, t: Reg, c: Reg, ra: Reg, rb: Reg)
    requires ControlSize(size) && t != c && t !in {src, ra, rb} && c !in {src, ra, rb}
    ensures var at := AlignDown(Wrap32(GetW(s.gpr[ra], 0) + GetW(s.gpr[rb], 0)) % LS_SIZE, size);
      at + size <= LS_SIZE &&
      Straight(h, s, StoreElement(size, src, t, c, ra, rb)).ls == Spliced(s.ls, at, s.gpr[src][..size])
    ensures forall r: Reg :: r != t && r != c ==>
      Straight(h, s, StoreElement(size, src, t, c, ra, rb)).gpr[r] == s.gpr[r]
  {
    hide GetW, Straight, Spliced, QuadAddr, ElementStart, Wrap32, AlignDown;
    assert Effective(s.gpr, s.pc, Indexed(ra, rb)) == QuadAddr(ControlAddress(s.gpr, ra, FromReg(rb)));
    StoreElementAtStores(h, s, size, src, t, c, Indexed(ra, rb), ra, FromReg(rb));
  }

  /** lqd t,d(ra); c?d c,i(ra); shufb t,src,t,c; stqd t,d(ra) */
  function StoreElementDisplaced(size: nat, src: Reg, t: Reg, c: Reg, ra: Reg, d: word, i: word): seq<Instr> {
    StoreElementAt(size, src, t, c, Displaced(ra, d), ra, Immediate(i))
  }

  /** From this base the displacement `d` leads to the quadword of the byte at displacement `i`. */
  predicate Matches(base: word, d: word, i: word) {
    (base % 16 + S32(i)) / 16 * 16 == S32(d)
  }

  /** The displacement forms store the element at the byte displacement `i` from the base exactly
  when the quadword displacement `d` matches it. */
  lemma {:induction false} StoreElementDisplacedStores(h: Host, s: State, size: nat, src: Reg, t: Reg, c: Reg,
                                                       ra: Reg, d: word, i: word)
    requires ControlSize(size) && t != c && t !in {src, ra} && c !in {src, ra} && DisplacementOk(d) && Signed(i, 0x80)
    ensures var x := Wrap32(GetW(s.gpr[ra], 0) + i);
      var at := QuadAddr(Wrap32(GetW(s.gpr[ra], 0) + d)) + ElementStart(x, size);
      at + size <= LS_SIZE &&
      Straight(h, s, StoreElementDisplaced(size, src, t, c, ra, d, i)).ls == Spliced(s.ls, at, s.gpr[src][..size]) &&
      (at == AlignDown(x % LS_SIZE, size) <==> Matches(GetW(s.gpr[ra], 0), d, i))
    ensures forall r: Reg :: r != t && r != c ==>
      Straight(h, s, StoreElementDisplaced(size, src, t, c, ra, d, i)).gpr[r] == s.gpr[r]
  {
    hide GetW, Straight, Spliced, QuadAddr, ElementStart, Wrap32, AlignDown, Matches, DisplacementOk, Signed;
    StoreElementAtStores(h, s, size, src, t, c, Displaced(ra, d), ra, Immediate(i));
    SameQuadwordIff(GetW(s.gpr[ra], 0), d, i);
  }

  lemma SameQuadwordIff(base: word, d: word, i: word)
    requires DisplacementOk(d) && Signed(i, 0x80)
    ensures QuadAddr(Wrap32(base + d)) == QuadAddr(Wrap32(base + i)) <==> Matches(base, d, i)
  {
    var q, r := base / 16, base % 16;
    var k, n := S32(d) / 16, (r + S32(i)) / 16;
    assert -0x200 <= k < 0x200 && -4 <= n < 5 && S32(d) == k * 16;
    assert base == q * 16 + r;
    QuadAddrIs(base + d, q + k, r, if d < 0x2000 then 0 else 1);
    QuadAddrIs(base + i, q + n, (r + S32(i)) % 16, if i < 0x40 then 0 else 1);
    hide *;
    NearbyDiffer(q, k, n);
  }

  /** The quadword of a sum that may have wrapped around. */
  lemma QuadAddrIs(x: int, q: int, r: nat, turns: int)
    requires r < 16 && x == q * 16 + r + turns * TWO32
    ensures QuadAddr(Wrap32(x)) == q % 0x4000 * 16
  {
    var y, m := Wrap32(x), q % 0x4000;
    var k := q / 0x4000;
    assert y == x - x / TWO32 * TWO32;
    var z := (turns - x / TWO32) * 0x4000;
    DivUnique(y, LS_SIZE, k + z, m * 16 + r);
    hide Wrap32;
    DivUnique(m * 16 + r, 16, m, r);
  }

  lemma NearbyDiffer(q: int, k: int, n: int)
    requires -0x4000 < k - n < 0x4000
    ensures (q + k) % 0x4000 == (q + n) % 0x4000 <==> k == n
  {
    var m := (q + k) % 0x4000;
    if m == (q + n) % 0x4000 {
      assert (q + k) - (q + n) == ((q + k) / 0x4000 - (q + n) / 0x4000) * 0x4000;
    }
  }

  lemma WriteInserted(ls: LocalStore, p: nat, e: nat, bytes: seq<byte>)
    requires p + 16 <= LS_SIZE && e + |bytes| <= 16
    ensures var was := ls[p..p + 16];
      Write128(ls, p, was[..e] + bytes + was[e + |bytes|..]) == Spliced(ls, p + e, bytes)
  {
    var was := ls[p..p + 16];
    var q := was[..e] + bytes + was[e + |bytes|..];
    var r := Write128(ls, p, q);
    forall k | 0 <= k < LS_SIZE
      ensures r[k] == Spliced(ls, p + e, bytes)[k]
    {
    }
  }

  // ----- Form-select masks and gathering -----

  /** Gathering the lanes of a form-select mask gives back the low bits it was made from. */
  lemma {:induction false} GatherOfMask(n: nat, m: word)
    requires LaneCount(n)
    ensures GatherBits(n, FormMaskQ(n, m), n) == m % Pow2(n)
  {
    GatherPrefix(n, m, n);
    assert Shr(m, 0) == m by { assert Pow2(0) == 1; }
    LowIsMod(m, n);
  }

  /** The first `i` lanes of the mask carry the bits `n - 1` down to `n - i`. */
  lemma {:induction false} GatherPrefix(n: nat, m: word, i: nat)
    requires LaneCount(n) && i <= n
    ensures GatherBits(n, FormMaskQ(n, m), i) == Low(Shr(m, n - i), i)
  {
    if i == 0 {
      assert Pow2(0) == 1;
    } else {
      GatherPrefix(n, m, i - 1);
      var k := n - i;
      MaskLsb(n, m, i - 1);
      hide FormMaskQ, Shr, Low, LaneLsb;
      ShrStep(m, k);
      LowStep(Shr(m, k), i);
    }
  }

  lemma MaskLsb(n: nat, m: word, i: nat)
    requires LaneCount(n) && i < n
    ensures LaneLsb(n, FormMaskQ(n, m), i) == Shr(m, n - i - 1) % 2
  {
    hide Shr, LaneBytes;
    var k := n - i - 1;
    BitShr(0, m, k);
    assert Bit(0, Shr(m, k)) <==> Shr(m, k) % 2 == 1;
    hide Bit;
    LastByteOfLane(n, i);
    var last := LaneBytes(n) * (i + 1) - 1;
    assert FormMaskQ(n, m)[last] == Mask8(Bit(k, m));
    hide FormMaskQ;
    assert Mask8(true) % 2 == 1 && Mask8(false) % 2 == 0;
  }

  lemma LastByteOfLane(n: nat, i: nat)
    requires LaneCount(n) && i < n
    ensures 0 <= LaneBytes(n) * (i + 1) - 1 < 16
    ensures (LaneBytes(n) * (i + 1) - 1) / LaneBytes(n) == i
  {
    if n == 4 {
      assert (4 * (i + 1) - 1) / 4 == i;
    } else if n == 8 {
      assert (2 * (i + 1) - 1) / 2 == i;
    } else {
      assert n == 16 && (1 * (i + 1) - 1) / 1 == i;
    }
  }

  lemma ShrStep(m: nat, k: nat)
    ensures Shr(m, k) / 2 == Shr(m, k + 1)
  {
    var p := Pow2(k);
    var q := Shr(m, k);
    var r := m - q * p;
    assert Pow2(k + 1) == 2 * p;
    var h := q / 2;
    assert q == 2 * h + q % 2;
    Regroup(h, p, q, r, m);
    DivUnique(m, 2 * p, h, q % 2 * p + r);
  }

  lemma Regroup(h: nat, p: nat, q: nat, r: nat, m: nat)
    requires q == 2 * h + q % 2 && m == q * p + r && r < p
    ensures m == h * (2 * p) + (q % 2 * p + r) && 0 <= q % 2 * p + r < 2 * p
  {
    assert q * p == 2 * h * p + q % 2 * p;
    if q % 2 == 0 { assert q % 2 * p == 0; } else { assert q % 2 * p == p; }
  }
}
