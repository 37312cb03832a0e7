/** 64-bit rotate-and-mask instructions of the PowerPC (`extra_funcs.cpp`).

A mask is given by two bit numbers in IBM order, where bit 0 is the most significant. */
module Rotate {
  import opened Bits

  const ALL_ONES: nat := 0xFFFF_FFFF_FFFF_FFFF

  type BitNumber = b: int | 0 <= b < 64

  // ----- The code -----

  /** `ppc_rotl64`. A shift by 64 has no value in C, so a rotation by 0 is taken to do nothing. */
  function Rotl64(v: dword, n: int): nat {
    var s := n % 64;
    if s == 0 then v else Or(Shl(v, s) % TWO64, Shr(v, 64 - s))
  }

  /** `ppc_mask64` */
  function Mask64(mb: BitNumber, me: BitNumber): nat {
    if mb <= me then
      And(if mb == 0 then ALL_ONES else Shr(ALL_ONES, mb),
          if me == 63 then ALL_ONES else Shl(ALL_ONES, 63 - me) % TWO64)
    else
      Or(Shr(ALL_ONES, mb), Shl(ALL_ONES, 63 - me) % TWO64)
  }

  /** `ppc_rldicl` */
  function Rldicl(rs: dword, sh: int, mb: BitNumber): nat {
    And(Rotl64(rs, sh), Mask64(mb, 63))
  }

  /** `ppc_rldicr` */
  function Rldicr(rs: dword, sh: int, me: BitNumber): nat {
    And(Rotl64(rs, sh), Mask64(0, me))
  }

  // ----- Bit by bit -----

  lemma {:induction false} BitInside(k: nat, v: dword)
    ensures Bit(k, v) ==> k < 64
  {
    Word64();
    if Bit(k, v) { BitBound(k, v, 64); }
  }

  /** Rotating left by `n` moves every bit `n` places up, modulo 64. */
  lemma {:induction false} RotlMovesBits(k: nat, v: dword, n: int)
    ensures Bit(k, Rotl64(v, n)) <==> k < 64 && Bit((k - n) % 64, v)
  {
    var s := n % 64;
    Word64();
    BitInside(k, v);
    hide Bit, Or, Shl, Shr, Pow2;
    Rotated(k, n);
    if s != 0 {
      BitOr(k, Shl(v, s) % TWO64, Shr(v, 64 - s));
      BitMod(k, Shl(v, s), 64);
      BitShlOf(k, v, s);
      BitShr(k, v, 64 - s);
      BitInside(k + (64 - s), v);
    }
  }

  lemma Rotated(k: nat, n: int)
    ensures k < 64 ==> (k - n) % 64 == if k >= n % 64 then k - n % 64 else k + 64 - n % 64
  {
    var t, s := n / 64, n % 64;
    assert n == t * 64 + s;
    if s <= k < 64 {
      DivUnique(k - n, 64, -t, k - s);
    } else if k < 64 {
      DivUnique(k - n, 64, -t - 1, k + 64 - s);
    }
  }

  /** Bit `i`, in IBM order, lies in the range from `mb` to `me`, which may wrap around. */
  predicate InRange(i: int, mb: BitNumber, me: BitNumber) {
    if mb <= me then mb <= i <= me else i >= mb || i <= me
  }

  /** The mask has exactly the bits from `mb` to `me`, wrapping past bit 63 when `mb > me`. */
  lemma {:induction false} MaskIsRange(k: nat, mb: BitNumber, me: BitNumber)
    ensures Bit(k, Mask64(mb, me)) <==> k < 64 && InRange(63 - k, mb, me)
  {
    var low, high := Shr(ALL_ONES, mb), Shl(ALL_ONES, 63 - me) % TWO64;
    hide Bit, Or, And, Shl, Shr, Pow2;
    Ends(k, mb, me);
    BitOr(k, low, high);
    BitAnd(k, if mb == 0 then ALL_ONES else low, if me == 63 then ALL_ONES else high);
  }

  /** The two ends of a mask: ones shifted right, and ones shifted left. */
  lemma {:induction false} Ends(k: nat, mb: BitNumber, me: BitNumber)
    ensures Bit(k, ALL_ONES) <==> k < 64
    ensures Bit(k, Shr(ALL_ONES, mb)) <==> k < 64 - mb
    ensures Bit(k, Shl(ALL_ONES, 63 - me) % TWO64) <==> 63 - me <= k < 64
  {
    hide Bit, Shl, Shr, Pow2;
    Word64();
    BitOnes(k, 64);
    BitOnes(k + mb, 64);
    if k >= 63 - me { BitOnes(k - (63 - me), 64); }
    BitShr(k, ALL_ONES, mb);
    BitMod(k, Shl(ALL_ONES, 63 - me), 64);
    BitShlOf(k, ALL_ONES, 63 - me);
  }

  /** Rotate left, then clear the `mb` most significant bits. */
  lemma {:induction false} RldiclBits(k: nat, rs: dword, sh: int, mb: BitNumber)
    ensures Bit(k, Rldicl(rs, sh, mb)) <==> k < 64 - mb && Bit((k - sh) % 64, rs)
  {
    hide Bit, And, Rotl64, Mask64;
    BitAnd(k, Rotl64(rs, sh), Mask64(mb, 63));
    RotlMovesBits(k, rs, sh);
    MaskIsRange(k, mb, 63);
  }

  /** Rotate left, then clear the bits below IBM bit `me`. */
  lemma {:induction false} RldicrBits(k: nat, rs: dword, sh: int, me: BitNumber)
    ensures Bit(k, Rldicr(rs, sh, me)) <==> 63 - me <= k < 64 && Bit((k - sh) % 64, rs)
  {
    hide Bit, And, Rotl64, Mask64;
    BitAnd(k, Rotl64(rs, sh), Mask64(0, me));
    RotlMovesBits(k, rs, sh);
    MaskIsRange(k, 0, me);
  }

  // ----- As arithmetic -----

  /** `rldicl(x, 64 - n, n)` is a logical shift right. */
  lemma {:induction false} RldiclShiftsRight(x: dword, n: nat)
    requires 0 < n < 64
    ensures Rldicl(x, 64 - n, n) == x / Pow2(n)
  {
    hide Bit, Rldicl, Shr, Pow2;
    forall k: nat
      ensures Bit(k, Rldicl(x, 64 - n, n)) == Bit(k, Shr(x, n))
    {
      RldiclBits(k, x, 64 - n, n);
      BitShr(k, x, n);
      BitInside(k + n, x);
      assert k < 64 - n ==> (k - (64 - n)) % 64 == k + n;
    }
    BitsDetermine(Rldicl(x, 64 - n, n), Shr(x, n));
    ShrIsDiv(x, n);
  }

  lemma {:induction false} ShrIsDiv(x: nat, n: nat)
    ensures Shr(x, n) == x / Pow2(n)
  {
  }

  /** `rldicr(x, n, 63 - n)` is a shift left that drops what leaves the register. */
  lemma {:induction false} RldicrShiftsLeft(x: dword, n: nat)
    requires 0 < n < 64
    ensures Rldicr(x, n, 63 - n) == x as int * Pow2(n) % TWO64
  {
    Word64();
    hide Bit, Rldicr, Shl, Pow2;
    forall k: nat
      ensures Bit(k, Rldicr(x, n, 63 - n)) == Bit(k, Shl(x, n) % TWO64)
    {
      RldicrBits(k, x, n, 63 - n);
      BitMod(k, Shl(x, n), 64);
      BitShlOf(k, x, n);
      assert n <= k < 64 ==> (k - n) % 64 == k - n;
    }
    BitsDetermine(Rldicr(x, n, 63 - n), Shl(x, n) % TWO64);
    ShlIsTimes(x, n);
  }

  /** `rldicl(x, 0, n)` keeps the low `64 - n` bits. */
  lemma {:induction false} RldiclKeepsLow(x: dword, n: BitNumber)
    ensures Rldicl(x, 0, n) == x % Pow2(64 - n)
  {
    hide Bit, Rldicl, Pow2;
    forall k: nat
      ensures Bit(k, Rldicl(x, 0, n)) == Bit(k, x % Pow2(64 - n))
    {
      RldiclBits(k, x, 0, n);
      BitMod(k, x, 64 - n);
      assert k < 64 ==> (k - 0) % 64 == k;
    }
    BitsDetermine(Rldicl(x, 0, n), x % Pow2(64 - n));
  }

  /** Two rotations are one rotation by the sum, and rotating back undoes a rotation. */
  lemma RotationsAdd(x: dword, m: int, n: int)
    ensures Rotl64(x, m) < TWO64
    ensures Rotl64(Rotl64(x, m), n) == Rotl64(x, m + n)
    ensures m + n == 0 ==> Rotl64(Rotl64(x, m), n) == x
  {
    RotlInside(x, m);
    var y := Rotl64(x, m);
    assert Rotl64(x, 0) == x;
    hide *;
    forall k: nat
      ensures Bit(k, Rotl64(y, n)) == Bit(k, Rotl64(x, m + n))
    {
      RotlMovesBits(k, y, n);
      RotlMovesBits((k - n) % 64, x, m);
      RotlMovesBits(k, x, m + n);
      ModStep(k - n, m);
      assert k - n - m == k - (m + n);
    }
    BitsDetermine(Rotl64(y, n), Rotl64(x, m + n));
  }

  lemma ModStep(a: int, m: int)
    ensures (a % 64 - m) % 64 == (a - m) % 64
  {
    ModTurn(a % 64 - m, 64, a / 64);
  }

  lemma RotlInside(x: dword, m: int)
    ensures Rotl64(x, m) < TWO64
  {
    Word64();
    var s := m % 64;
    if s != 0 {
      var q := Shr(x, 64 - s);
      assert q < TWO64 by {
        hide Pow2;
        MulMono(1, Pow2(64 - s), q);
      }
      hide Or, Shr, Shl, Pow2;
      OrBound(Shl(x, s) % TWO64, q, 64);
    }
  }
}
