/** What the SPU's integer instructions do, opcode by opcode, on registers read as numbers and as
bits. Nothing here knows how the interpreter decodes or computes. */
module SpuReference {
  import opened Bits
  import opened Quad
  import opened Lanes
  import LaneMeanings
  import Wide

  // ----- Lanes -----

  /** The logic instructions on one pair of bits. */
  predicate BitMeans(c: nat, x: bool, y: bool) {
    match c
    case 0x0C1 => x && y                            // and
    case 0x041 => x || y                            // or
    case 0x241 => x != y                            // xor
    case 0x0C9 => !(x && y)                         // nand
    case 0x049 => !(x || y)                         // nor
    case 0x2C1 => x && !y                           // andc
    case 0x2C9 => x || !y                           // orc
    case _ => x == y                                // eqv
  }

  /** The logic instructions on lanes of `w` bits. */
  predicate LogicMeans(c: nat, w: nat, a: nat, b: nat, r: nat) {
    forall k :: 0 <= k < w ==> (Bit(k, r) <==> BitMeans(c, Bit(k, a), Bit(k, b)))
  }

  /** Every bit moves up by `s`, and round. */
  predicate Rotated(w: nat, a: nat, s: int, r: nat)
    requires w > 0
  {
    forall k :: 0 <= k < w ==> (Bit(k, r) <==> Bit((k - s) % w, a))
  }

  /** The count that brings `b` to a multiple of `m`: right shifts are given by it. */
  function Back(b: nat, m: nat): (s: nat)
    requires m > 0
    ensures s < m && (b + s) % m == 0
  {
    BackSum(b, m);
    if b % m == 0 then 0 else m - b % m
  }

  lemma BackSum(b: nat, m: nat)
    requires m > 0
    ensures b % m != 0 ==> (b + (m - b % m)) % m == 0
  {
    if b % m != 0 { DivUnique(b + (m - b % m), m, b / m + 1, 0); }
  }

  /** A mask of all ones or all zeros. */
  predicate Says(r: nat, ones: nat, holds: bool) {
    r == if holds then ones else 0
  }

  /** A word lane `r` of RT from lanes `a` of RA and `b` of RB (or the immediate), and the lane
  `t` that RT held before. */
  predicate WordMeans(c: nat, a: word, b: word, t: word, r: word) {
    match c
    case 0x0C0 => r == (a + b) % TWO32                                      // a
    case 0x040 => (r + a) % TWO32 == b                                      // sf
    case 0x0C2 => r == if a + b >= TWO32 then 1 else 0                      // cg
    case 0x042 => r == if b >= a then 1 else 0                              // bg
    case 0x340 => r == (a + b + t % 2) % TWO32                              // addx
    case 0x341 => (r + a + (1 - t % 2)) % TWO32 == b                        // sfx
    case 0x342 => r == if a + b + t % 2 >= TWO32 then 1 else 0              // cgx
    case 0x343 => r == if b >= a + (1 - t % 2) then 1 else 0                // bgx
    case 0x2A5 => if a == 0 then r == 32 else r < 32 && Pow2(31 - r) <= a < Pow2(32 - r)      // clz
    case 0x2AE => S32(r) == S16(a % 0x1_0000)                               // xshw
    case 0x058 => Rotated(32, a, b, r)                                      // rot
    case 0x059 => r == Shr(a, Back(b, 64))                                  // rotm
    case 0x05A => S32(r) == LaneMeanings.FloorShr(S32(a), Back(b, 64))      // rotma
    case 0x05B => r == Low(Shl(a, b % 64), 32)                              // shl
    case 0x3C0 => Says(r, 0xFFFF_FFFF, a == b)                              // ceq
    case 0x240 => Says(r, 0xFFFF_FFFF, S32(a) > S32(b))                     // cgt
    case 0x2C0 => Says(r, 0xFFFF_FFFF, a > b)                               // clgt
    case _ => ProductMeans(c, a, b, t, r) || (c in {0x0C1, 0x041, 0x241} && LogicMeans(c, 32, a, b, r))
  }

  /** The multiplications, of the low or the high halves of a word. */
  predicate ProductMeans(c: nat, a: word, b: word, t: word, r: word) {
    var ah, al, bh, bl := a / 0x1_0000, a % 0x1_0000, b / 0x1_0000, b % 0x1_0000;
    match c
    case 0x3C4 => S32(r) == S16(al) * S16(bl)                               // mpy
    case 0x3CC => r == Times(al, bl)                                        // mpyu
    case 0x3C5 => r == S16(ah) * S16(bl) * 0x1_0000 % TWO32                 // mpyh
    case 0x3C7 => S32(r) == S16(al) * S16(bl) / 0x1_0000                    // mpys
    case 0x3C6 => S32(r) == S16(ah) * S16(bh)                               // mpyhh
    case 0x3CE => r == Times(ah, bh)                                        // mpyhhu
    case 0x346 => r == (t + S16(ah) * S16(bh)) % TWO32                      // mpyhha
    case 0x34E => r == (t + Times(ah, bh)) % TWO32                          // mpyhhau
    case _ => false
  }

  /** A halfword lane. */
  predicate HalfMeans(c: nat, a: half, b: half, r: half) {
    match c
    case 0x0C8 => r == (a + b) % 0x1_0000                                   // ah
    case 0x048 => (r + a) % 0x1_0000 == b                                   // sfh
    case 0x2B6 => S16(r) == S8(a % 0x100)                                   // xsbh
    case 0x05C => Rotated(16, a, b, r)                                      // roth
    case 0x05D => r == Shr(a, Back(b, 32))                                  // rothm
    case 0x05E => S16(r) == LaneMeanings.FloorShr(S16(a), Back(b, 32))      // rotmah
    case 0x05F => r == Low(Shl(a, b % 32), 16)                              // shlh
    case 0x3C8 => Says(r, 0xFFFF, a == b)                                   // ceqh
    case 0x248 => Says(r, 0xFFFF, S16(a) > S16(b))                          // cgth
    case 0x2C8 => Says(r, 0xFFFF, a > b)                                    // clgth
    case _ => c in {0x0C1, 0x041, 0x241} && LogicMeans(c, 16, a, b, r)
  }

  /** A byte lane. */
  predicate ByteMeans(c: nat, a: byte, b: byte, r: byte) {
    match c
    case 0x053 => r == if a >= b then a - b else b - a                      // absdb
    case 0x0D3 => a + b <= 2 * r <= a + b + 1                               // avgb
    case 0x2B4 => r == LaneMeanings.OneBits(a, 8)                           // cntb
    case 0x3D0 => Says(r, 0xFF, a == b)                                     // ceqb
    case 0x250 => Says(r, 0xFF, S8(a) > S8(b))                              // cgtb
    case 0x2D0 => Says(r, 0xFF, a > b)                                      // clgtb
    case _ => c in {0x0C1, 0x041, 0x241, 0x0C9, 0x049, 0x2C1, 0x2C9, 0x249} && LogicMeans(c, 8, a, b, r)
  }

  /** The register form of a word instruction with a 10-bit immediate. */
  function WordForm(c: nat): nat {
    match c
    case 0x1C => 0x0C0 case 0x0C => 0x040 case 0x14 => 0x0C1 case 0x04 => 0x041 case 0x44 => 0x241
    case 0x7C => 0x3C0 case 0x4C => 0x240 case 0x5C => 0x2C0 case 0x74 => 0x3C4 case 0x75 => 0x3CC
    case _ => 0
  }

  function HalfForm(c: nat): nat {
    match c
    case 0x1D => 0x0C8 case 0x0D => 0x048 case 0x15 => 0x0C1 case 0x05 => 0x041 case 0x45 => 0x241
    case 0x7D => 0x3C8 case 0x4D => 0x248 case 0x5D => 0x2C8
    case _ => 0
  }

  function ByteForm(c: nat): nat {
    match c
    case 0x16 => 0x0C1 case 0x06 => 0x041 case 0x46 => 0x241
    case 0x7E => 0x3D0 case 0x4E => 0x250 case 0x5E => 0x2D0
    case _ => 0
  }

  // ----- Quadwords -----

  /** The quadword shifts and rotates by a count `n`, on 128-bit values. */
  predicate QuadMeans(c: nat, v: nat, n: word, r: nat) {
    match c
    case 0x1D8 => r == Wide.RotL(v, Pow2(n % 8), TWO128)                    // rotqbi
    case 0x1D9 => r == Shr(v, Back(n, 8))                                   // rotqmbi
    case 0x1DB => r == Shl(v, n % 8) % TWO128                               // shlqbi
    case 0x1DC => r == Wide.RotL(v, Pow2(8 * (n % 16)), TWO128)             // rotqby
    case 0x1DD => r == Shr(v, 8 * Back(n, 32))                              // rotqmby
    case 0x1DF => r == Shl(v, 8 * (n % 32)) % TWO128                        // shlqby
    case 0x1CC => r == Wide.RotL(v, Pow2(8 * (n / 8 % 16)), TWO128)         // rotqbybi
    case 0x1CD => r == Shr(v, 8 * Back(n / 8, 32))                          // rotqmbybi
    case 0x1CF => r == Shl(v, 8 * (n / 8 % 32)) % TWO128                    // shlqbybi
    case _ => false
  }

  /** `selb`: a one in RC takes the bit of RB, a zero that of RA. */
  predicate SelectMeans(a: Quad, b: Quad, c: Quad, r: Quad) {
    forall i, k :: 0 <= i < 16 && 0 <= k < 8 ==>
      (Bit(k, r[i]) <==> if Bit(k, c[i]) then Bit(k, b[i]) else Bit(k, a[i]))
  }

  /** `shufb`: every byte of RC asks for a constant, or for a byte of RA followed by RB. */
  predicate ShuffleMeans(a: Quad, b: Quad, c: Quad, r: Quad) {
    forall i :: 0 <= i < 16 ==> ShuffledByte(a, b, c[i], r[i])
  }

  predicate ShuffledByte(a: Quad, b: Quad, sel: byte, r: byte) {
    if 0x80 <= sel < 0xC0 then r == 0
    else if 0xC0 <= sel < 0xE0 then r == 0xFF
    else if sel >= 0xE0 then r == 0x80
    else if sel % 0x20 < 0x10 then r == a[sel % 0x20]
    else r == b[sel % 0x20 - 0x10]
  }

  /** `mpya` */
  predicate MultiplyAddMeans(a: Quad, b: Quad, c: Quad, r: Quad) {
    forall i :: 0 <= i < 4 ==>
      GetW(r, i) == (S16(GetW(a, i) % 0x1_0000) * S16(GetW(b, i) % 0x1_0000) + GetW(c, i)) % TWO32
  }

  /** The instructions with a 16- or 18-bit constant `u`; `t` is RT before. */
  predicate ConstantMeans(c: nat, u: word, t: Quad, r: Quad) {
    match c
    case 0x081 => forall i :: 0 <= i < 4 ==> S32(GetW(r, i)) == S16(u % 0x1_0000)              // il
    case 0x082 => forall i :: 0 <= i < 4 ==> GetW(r, i) == u * 0x1_0000                        // ilhu
    case 0x083 => forall i :: 0 <= i < 8 ==> GetH(r, i) == u                                   // ilh
    case 0x0C1 => forall i :: 0 <= i < 4 ==> LogicMeans(0x041, 32, GetW(t, i), u, GetW(r, i))  // iohl
    case 0x065 => FormMaskMeans(16, u, r)                                                      // fsmbi
    case _ => false
  }

  /** `fsm`, `fsmh`, `fsmb`: bit after bit of `m` spreads over one of `n` lanes. */
  predicate FormMaskMeans(n: nat, m: word, r: Quad)
    requires n <= 16
  {
    forall k :: 0 <= k < 16 ==> Says(r[k], 0xFF, MaskBit(n, m, k))
  }

  /** The bit of the mask that byte `k` shows. */
  predicate MaskBit(n: nat, m: word, k: nat)
    requires n <= 16 && k < 16
  {
    k * n / 16 < n && Bit(n - 1 - k * n / 16, m)
  }

  /** `gb`, `gbh`, `gbb`: the lowest bits of `n` lanes, the leftmost highest. */
  predicate GatherMeans(n: nat, a: Quad, r: Quad)
    requires n in {4, 8, 16}
  {
    GetW(r, 1) == GetW(r, 2) == GetW(r, 3) == 0 &&
    forall k :: 0 <= k < 32 ==> (Bit(k, GetW(r, 0)) <==> k < n && OddLane(n, a, n - 1 - k))
  }

  predicate OddLane(n: nat, a: Quad, i: nat)
    requires n in {4, 8, 16} && i < n
  {
    a[if n == 4 then 4 * i + 3 else if n == 8 then 2 * i + 1 else i] % 2 == 1
  }

  /** `orx` */
  predicate OrAcrossMeans(a: Quad, r: Quad) {
    GetW(r, 1) == GetW(r, 2) == GetW(r, 3) == 0 &&
    forall k :: 0 <= k < 32 ==>
      (Bit(k, GetW(r, 0)) <==> Bit(k, GetW(a, 0)) || Bit(k, GetW(a, 1)) || Bit(k, GetW(a, 2)) || Bit(k, GetW(a, 3)))
  }

  /** `sumb` */
  predicate SumBytesMean(a: Quad, b: Quad, r: Quad) {
    forall i :: 0 <= i < 4 ==>
      GetH(r, 2 * i) == b[4 * i] as int + b[4 * i + 1] + b[4 * i + 2] + b[4 * i + 3] &&
      GetH(r, 2 * i + 1) == a[4 * i] as int + a[4 * i + 1] + a[4 * i + 2] + a[4 * i + 3]
  }

  /** `xswd`: the odd words stay, the even ones become their signs. */
  predicate ExtendMeans(a: Quad, r: Quad) {
    GetW(r, 1) == GetW(a, 1) && Says(GetW(r, 0), 0xFFFF_FFFF, S32(GetW(a, 1)) < 0) &&
    GetW(r, 3) == GetW(a, 3) && Says(GetW(r, 2), 0xFFFF_FFFF, S32(GetW(a, 3)) < 0)
  }

  /** The insertion controls for the element of `size` bytes that holds byte `at`. */
  predicate ControlsMean(size: nat, at: nat, r: Quad)
    requires size > 0
  {
    forall k :: 0 <= k < 16 ==> r[k] == if k / size == at / size then k % size else 0x10 + k
  }
}
