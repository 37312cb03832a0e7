/** Overlay blitting with alpha blending in unsigned arithmetic (`blit_overlay` in
`runtime_glue.cpp`). */
module Blend {
  import opened Bits

  const OPAQUE_BITS: nat := 0xFF00_0000

  // ----- One channel -----

  /** `d + ((s - d) * a >> 8)` in 32-bit unsigned arithmetic, where `s - d` may wrap. */
  function CBlend(s: byte, d: byte, a: byte): word {
    (d + (s as int - d as int) % TWO32 * a % TWO32 / 0x100) % TWO32
  }

  /** The channel a blend means: `d + floor((s - d) * a / 256)`. */
  function Mix(s: byte, d: byte, a: byte): int {
    d + (s as int - d as int) * a / 0x100
  }

  /** The mixed channel lies between the two channels it mixes. */
  lemma MixBetween(s: byte, d: byte, a: byte)
    ensures if d <= s then d <= Mix(s, d, a) <= s else s <= Mix(s, d, a) <= d
  {
    var e := s as int - d as int;
    if e >= 0 {
      MulMono(0, e, a);
      MulMono(a, 0x100, e);
    } else {
      MulMono(a, 0x100, -e);
      assert (-e) * a == -(e * a);
    }
  }

  /** The wrapped computation is the mixed channel, plus 2^24 when the difference was negative. */
  lemma CBlendMixes(s: byte, d: byte, a: byte)
    ensures CBlend(s, d, a) == Mix(s, d, a) + (if (s as int - d as int) * a < 0 then 0x100_0000 else 0)
  {
    var e := s as int - d as int;
    MixBetween(s, d, a);
    ProductBound(e, a);
    WrapTimes(e, a);
    ShiftWrapped(e * a, d);
  }

  lemma ProductBound(e: int, a: byte)
    requires -0x100 < e < 0x100
    ensures -0x1_0000 < e * a < 0x1_0000
  {
    MulMono(e, 0xFF, a);
    MulMono(-0xFF, e, a);
  }

  /** Shifting a wrapped product right by 8: a negative one shows up 2^24 too large. */
  lemma ShiftWrapped(x: int, d: byte)
    requires -0x1_0000 < x < 0x1_0000 && 0 <= d + x / 0x100 < 0x100
    ensures (d + x % 0x1_0000_0000 / 0x100) % 0x1_0000_0000 == d + x / 0x100 + (if x < 0 then 0x100_0000 else 0)
  {
    var y := x % 0x1_0000_0000;
    assert y == if x < 0 then x + 0x1_0000_0000 else x;
    assert y / 0x100 == x / 0x100 + if x < 0 then 0x100_0000 else 0;
  }

  lemma WrapTimes(e: int, a: byte)
    requires -0x100 < e < 0x100
    ensures e % 0x1_0000_0000 * a % 0x1_0000_0000 == e * a % 0x1_0000_0000
  {
    if e < 0 {
      ModTurn(e, 0x1_0000_0000, 1);
      assert (e + 0x1_0000_0000) * a == e * a + a * 0x1_0000_0000;
      ModTurn(e * a, 0x1_0000_0000, a as int);
    }
  }

  // ----- One pixel -----

  /** `0xFF000000 | (r << 16) | (g << 8) | b` */
  function CPack(r: word, g: word, b: word): nat {
    Or(Or(Or(OPAQUE_BITS, Shl(r, 16) % TWO32), Shl(g, 8) % TWO32), b)
  }

  /** An opaque pixel with the given channels. */
  function Opaque(r: int, g: int, b: int): int {
    OPAQUE_BITS + r * 0x1_0000 + g * 0x100 + b
  }

  /** Packing keeps three byte channels apart, and a carry into bit 24 of any of them is lost. */
  lemma CPackPacks(r: byte, g: byte, b: byte, er: nat, eg: nat, eb: nat)
    requires er <= 1 && eg <= 1 && eb <= 1
    ensures CPack(r + er * 0x100_0000, g + eg * 0x100_0000, b + eb * 0x100_0000) == Opaque(r, g, b)
  {
    Powers();
    ShlDrops(r, er);
    ShlDrops(g, eg);
    hide Pow2, Or, Shl;
    OrDisjoint(0xFF, r as int * 0x1_0000, 24);
    OrDisjoint(0xFF00 + r, g as int * 0x100, 16);
    PackBlue(r, g, b, eb);
  }

  lemma Powers()
    ensures Pow2(8) == 0x100 && Pow2(16) == 0x1_0000 && Pow2(24) == 0x100_0000
  {
    assert Pow2(8) == 0x100;
    Pow2Add(8, 8);
    Pow2Add(8, 16);
  }

  lemma PackBlue(r: byte, g: byte, b: byte, e: nat)
    requires e <= 1
    ensures Or(OPAQUE_BITS + r as int * 0x1_0000 + g as int * 0x100, b + e * 0x100_0000) == Opaque(r, g, b)
  {
    Powers();
    hide Pow2, Or;
    var rg := r as int * 0x1_0000 + g as int * 0x100;
    OrSplit(0xFF, rg, e, b, 24);
    OrDisjoint(r as int * 0x100 + g, b, 8);
    OrFull(e);
  }

  /** A bit 24 is shifted out of the word. */
  lemma ShlDrops(c: byte, e: nat)
    requires e <= 1
    ensures Shl(c + e * 0x100_0000, 16) % TWO32 == c as int * 0x1_0000
    ensures Shl(c + e * 0x100_0000, 8) % TWO32 == c as int * 0x100
  {
    Powers();
    hide Pow2;
    assert e == 0 || e == 1;
  }

  lemma {:induction false} OrFull(e: nat)
    requires e <= 1
    ensures Or(0xFF, e) == 0xFF
  {
    assert Or(0x7F, 0) == 0x7F;
  }

  function Blue(p: word): byte { p % 0x100 }
  function Green(p: word): byte { p / 0x100 % 0x100 }
  function Red(p: word): byte { p / 0x1_0000 % 0x100 }

  /** What the loop body stores over `dst` for source bytes B, G, R, A. */
  function COver(dst: word, b: byte, g: byte, r: byte, a: byte): nat {
    if a == 0 then dst
    else if a == 255 then CPack(r, g, b)
    else CPack(CBlend(r, Red(dst), a), CBlend(g, Green(dst), a), CBlend(b, Blue(dst), a))
  }

  /** What it means: transparent keeps, opaque replaces, anything else mixes channel by channel. */
  function Over(dst: word, b: byte, g: byte, r: byte, a: byte): int {
    if a == 0 then dst
    else if a == 255 then Opaque(r, g, b)
    else Opaque(Mix(r, Red(dst), a), Mix(g, Green(dst), a), Mix(b, Blue(dst), a))
  }

  /** The unsigned arithmetic computes the blend: opaque alpha, each channel mixed, and no
  spill from one channel into another. */
  lemma COverIsOver(dst: word, b: byte, g: byte, r: byte, a: byte)
    ensures COver(dst, b, g, r, a) == Over(dst, b, g, r, a)
    ensures 0 <= Over(dst, b, g, r, a) < TWO32
  {
    hide CPack, CBlend, Mix, Red, Green, Blue;
    if a == 255 {
      CPackPacks(r, g, b, 0, 0, 0);
    } else if a != 0 {
      CBlendMixes(r, Red(dst), a);
      CBlendMixes(g, Green(dst), a);
      CBlendMixes(b, Blue(dst), a);
      MixBetween(r, Red(dst), a);
      MixBetween(g, Green(dst), a);
      MixBetween(b, Blue(dst), a);
      CPackPacks(Mix(r, Red(dst), a), Mix(g, Green(dst), a), Mix(b, Blue(dst), a),
                 if (r as int - Red(dst) as int) * a < 0 then 1 else 0,
                 if (g as int - Green(dst) as int) * a < 0 then 1 else 0,
                 if (b as int - Blue(dst) as int) * a < 0 then 1 else 0);
    }
  }

  /** A channel once `s` is drawn over it with alpha `a`: replaced, or moved towards `s` by a / 256
  of the way, rounding down. */
  predicate ChannelMeans(now: int, was: int, s: int, a: int) {
    now == if a == 255 then s else was + (s - was) * a / 256
  }

  /** A framebuffer word once source bytes B, G, R, A are drawn over it: as before if transparent,
  and otherwise opaque with three such channels. */
  predicate PixelMeans(now: word, was: word, b: byte, g: byte, r: byte, a: byte) {
    if a == 0 then now == was
    else
      now / 0x100_0000 == 0xFF &&
      ChannelMeans(now / 0x1_0000 % 0x100, was / 0x1_0000 % 0x100, r, a) &&
      ChannelMeans(now / 0x100 % 0x100, was / 0x100 % 0x100, g, a) &&
      ChannelMeans(now % 0x100, was % 0x100, b, a)
  }

  lemma OverMeans(was: word, b: byte, g: byte, r: byte, a: byte)
    ensures 0 <= Over(was, b, g, r, a) < TWO32 && PixelMeans(Over(was, b, g, r, a), was, b, g, r, a)
  {
    COverIsOver(was, b, g, r, a);
    if a == 255 {
      OpaqueFields(r, g, b);
    } else if a != 0 {
      MixBetween(r, Red(was), a);
      MixBetween(g, Green(was), a);
      MixBetween(b, Blue(was), a);
      OpaqueFields(Mix(r, Red(was), a), Mix(g, Green(was), a), Mix(b, Blue(was), a));
    }
    hide COver;
  }

  lemma OpaqueFields(r: byte, g: byte, b: byte)
    ensures var p := Opaque(r, g, b);
      p / 0x100_0000 == 0xFF && p / 0x1_0000 % 0x100 == r && p / 0x100 % 0x100 == g && p % 0x100 == b
  {
    var p := Opaque(r, g, b);
    DivUnique(p, 0x100_0000, 0xFF, r as int * 0x1_0000 + g as int * 0x100 + b);
    DivUnique(p, 0x1_0000, 0xFF00 + r, g as int * 0x100 + b);
    DivUnique(0xFF00 + r, 0x100, 0xFF, r);
    DivUnique(p, 0x100, 0xFF_0000 + r as int * 0x100 + g, b);
    DivUnique(0xFF_0000 + r as int * 0x100 + g, 0x100, 0xFF00 + r, g);
    hide *;
  }

  // ----- The blit -----

  /** Where the overlay lies and how large it is drawn. */
  datatype Placement = Placement(srcW: nat, srcH: nat, ox: int, oy: int, dstW: int, dstH: int)

  /** Nearest-neighbour source coordinate. */
  function Scaled(d: nat, src: nat, dst: nat): nat
    requires dst > 0
  {
    Div(Times(d, src), dst)
  }

  lemma ScaledInside(d: nat, src: nat, dst: nat)
    requires d < dst && src > 0
    ensures Scaled(d, src, dst) < src
  {
    var q := Scaled(d, src, dst);
    assert Times(d, src) < dst * src by { MulMono(d + 1, dst, src); }
    MulMono(src, q, dst);
  }

  predicate Covers(p: Placement, x: int, y: int) {
    p.ox <= x < p.ox + p.dstW && p.oy <= y < p.oy + p.dstH
  }

  /** Offset of the source pixel drawn at (x, y). */
  function SourceAt(p: Placement, x: int, y: int): nat
    requires Covers(p, x, y)
  {
    4 * Flat(p.srcW, Scaled(x - p.ox, p.srcW, p.dstW), Scaled(y - p.oy, p.srcH, p.dstH))
  }

  lemma SourceInside(p: Placement, x: int, y: int)
    requires Covers(p, x, y) && p.srcW > 0 && p.srcH > 0
    ensures SourceAt(p, x, y) + 4 <= 4 * Times(p.srcW, p.srcH)
  {
    ScaledInside(x - p.ox, p.srcW, p.dstW);
    ScaledInside(y - p.oy, p.srcH, p.dstH);
    hide Scaled;
    FlatFacts(p.srcW, p.srcH, Scaled(x - p.ox, p.srcW, p.dstW), Scaled(y - p.oy, p.srcH, p.dstH));
  }

  /** Of `src` source coordinates drawn over a length of `dst`, `s` is the one at `d`. */
  predicate Nearest(d: int, src: nat, dst: int, s: nat) {
    s * dst <= d * src < (s + 1) * dst
  }

  /** The source pixel drawn at (x, y). */
  predicate NearestPixel(p: Placement, x: int, y: int, sx: nat, sy: nat) {
    Nearest(x - p.ox, p.srcW, p.dstW, sx) && Nearest(y - p.oy, p.srcH, p.dstH, sy)
  }

  lemma NearestIsScaled(d: nat, src: nat, dst: nat, s: nat)
    requires dst > 0
    ensures Nearest(d, src, dst, s) <==> s == Scaled(d, src, dst)
  {
    var x, q := Times(d, src), Scaled(d, src, dst);
    assert x == q * dst + x % dst;
    if Nearest(d, src, dst, s) {
      assert s * dst <= x && x - s * dst < dst;
      DivUnique(x, dst, s, x - s * dst);
    }
  }

  /** Drawn at its own size, a source is drawn pixel for pixel. */
  lemma Unscaled(d: nat, n: nat)
    requires d < n
    ensures Nearest(d, n, n, d)
  {
  }

  lemma NearestInside(d: nat, src: nat, dst: nat, s: nat)
    requires d < dst && src > 0 && Nearest(d, src, dst, s)
    ensures s < src
  {
    NearestIsScaled(d, src, dst, s);
    ScaledInside(d, src, dst);
  }

  /** The pixel at (x, y) shows the source pixel nearest to it, if the overlay covers it, and is
  as before if not. */
  ghost predicate PixelShown(now: seq<word>, was: seq<word>, w: nat, h: nat, src: seq<byte>, p: Placement,
                             x: nat, y: nat)
    requires |now| == |was|
  {
    var at := y * w + x;
    at < |now| &&
    if p.ox <= x < p.ox + p.dstW && p.oy <= y < p.oy + p.dstH then
      forall sx: nat, sy: nat :: NearestPixel(p, x, y, sx, sy) ==>
        SourceShown(now[at], was[at], src, 4 * (sy * p.srcW + sx))
    else now[at] == was[at]
  }

  predicate SourceShown(now: word, was: word, src: seq<byte>, i: nat) {
    i + 4 <= |src| && PixelMeans(now, was, src[i], src[i + 1], src[i + 2], src[i + 3])
  }

  /** The pixel at (x, y) once rows above `y0` and, in row `y0`, columns left of `x0` are drawn. */
  function Drawn(was: word, src: seq<byte>, p: Placement, x: int, y: int, x0: int, y0: int): int {
    if Covers(p, x, y) && Before(x, y, x0, y0) then Blended(was, src, p, x, y) else was
  }

  predicate Before(x: int, y: int, x0: int, y0: int) {
    y < y0 || (y == y0 && x < x0)
  }

  function Blended(was: word, src: seq<byte>, p: Placement, x: int, y: int): int
    requires Covers(p, x, y)
  {
    var i := SourceAt(p, x, y);
    if i + 4 <= |src| then Over(was, src[i], src[i + 1], src[i + 2], src[i + 3]) else was
  }

  /** Every framebuffer pixel is as `Drawn` says. */
  ghost predicate Progress(fb: seq<word>, was: seq<word>, w: nat, h: nat, src: seq<byte>, p: Placement,
                           x0: int, y0: int)
    requires |fb| == |was| == Times(w, h)
  {
    forall x: nat, y: nat :: x < w && y < h ==> PixelIs(fb, was, w, h, src, p, x, y, x0, y0)
  }

  predicate PixelIs(fb: seq<word>, was: seq<word>, w: nat, h: nat, src: seq<byte>, p: Placement,
                    x: nat, y: nat, x0: int, y0: int)
    requires |fb| == |was| == Times(w, h) && x < w && y < h
  {
    FlatFacts(w, h, x, y);
    fb[Flat(w, x, y)] == Drawn(was[Flat(w, x, y)], src, p, x, y, x0, y0)
  }

  /** `blit_overlay`: afterwards every pixel under the overlay, clipped to the screen, is
  blended with its source pixel, and every other pixel is unchanged. */
  method BlitOverlay(fb: array<word>, w: nat, h: nat, src: array<byte>, p: Placement)
    requires fb.Length == Times(w, h) && src.Length == 4 * Times(p.srcW, p.srcH) && p.srcW > 0 && p.srcH > 0
    modifies fb
    ensures Progress(fb[..], old(fb[..]), w, h, src[..], p, 0, p.oy + p.dstH)
    ensures forall x: nat, y: nat :: x < w && y < h ==> PixelShown(fb[..], old(fb[..]), w, h, src[..], p, x, y)
  {
    ghost var was := fb[..];
    hide Times, Progress, PixelShown;
    var dy := 0;
    NothingDrawn(was, w, h, src[..], p);
    while dy < p.dstH
      invariant 0 <= dy && (dy <= p.dstH || dy == 0)
      invariant Progress(fb[..], was, w, h, src[..], p, 0, p.oy + dy)
    {
      var y := p.oy + dy;
      if 0 <= y < h {
        BlitRow(fb, was, w, h, src, p, y);
        Transfer(fb[..], was, w, h, src[..], p, p.ox + p.dstW, y, 0, y + 1);
      } else {
        Transfer(fb[..], was, w, h, src[..], p, 0, y, 0, y + 1);
      }
      dy := dy + 1;
    }
    Transfer(fb[..], was, w, h, src[..], p, 0, p.oy + dy, 0, p.oy + p.dstH);
    AllShown(fb[..], was, w, h, src[..], p);
  }

  lemma AllShown(fb: seq<word>, was: seq<word>, w: nat, h: nat, src: seq<byte>, p: Placement)
    requires |fb| == |was| == Times(w, h) && |src| == 4 * Times(p.srcW, p.srcH) && p.srcW > 0 && p.srcH > 0
    requires Progress(fb, was, w, h, src, p, 0, p.oy + p.dstH)
    ensures forall x: nat, y: nat :: x < w && y < h ==> PixelShown(fb, was, w, h, src, p, x, y)
  {
    hide Times, PixelShown, PixelIs;
    forall x: nat, y: nat | x < w && y < h
      ensures PixelShown(fb, was, w, h, src, p, x, y)
    {
      assert PixelIs(fb, was, w, h, src, p, x, y, 0, p.oy + p.dstH);
      OneShown(fb, was, w, h, src, p, x, y);
    }
  }

  lemma OneShown(fb: seq<word>, was: seq<word>, w: nat, h: nat, src: seq<byte>, p: Placement, x: nat, y: nat)
    requires |fb| == |was| == Times(w, h) && |src| == 4 * Times(p.srcW, p.srcH) && p.srcW > 0 && p.srcH > 0
    requires x < w && y < h && PixelIs(fb, was, w, h, src, p, x, y, 0, p.oy + p.dstH)
    ensures PixelShown(fb, was, w, h, src, p, x, y)
  {
    FlatFacts(w, h, x, y);
    assert Flat(w, x, y) == y * w + x;
    if Covers(p, x, y) {
      var sx0, sy0 := Scaled(x - p.ox, p.srcW, p.dstW), Scaled(y - p.oy, p.srcH, p.dstH);
      SourceInside(p, x, y);
      hide Times, Over, Scaled;
      var i := SourceAt(p, x, y);
      assert i == 4 * (sy0 * p.srcW + sx0);
      OverMeans(was[Flat(w, x, y)], src[i], src[i + 1], src[i + 2], src[i + 3]);
      hide Flat, PixelMeans, Nearest;
      forall sx: nat, sy: nat | NearestPixel(p, x, y, sx, sy)
        ensures sx == sx0 && sy == sy0
      {
        NearestIsScaled(x - p.ox, p.srcW, p.dstW, sx);
        NearestIsScaled(y - p.oy, p.srcH, p.dstH, sy);
      }
    }
  }

  /** Drawn at its own size, pixel (i, j) of the source is drawn over pixel (ox + i, oy + j). */
  lemma BlitUnscaled(now: seq<word>, was: seq<word>, w: nat, h: nat, src: seq<byte>, p: Placement, i: nat, j: nat)
    requires |now| == |was| && p.dstW == p.srcW && p.dstH == p.srcH && i < p.srcW && j < p.srcH
    requires 0 <= p.ox + i < w && 0 <= p.oy + j < h && PixelShown(now, was, w, h, src, p, p.ox + i, p.oy + j)
    ensures var at := (p.oy + j) * w + p.ox + i;
      0 <= at < |now| && SourceShown(now[at], was[at], src, 4 * (j * p.srcW + i))
  {
    Unscaled(i, p.srcW);
    Unscaled(j, p.srcH);
    assert NearestPixel(p, p.ox + i, p.oy + j, i, j);
    hide Nearest, SourceShown;
  }

  /** Every covered place has a nearest source pixel, which lies inside the source. */
  lemma NearestExists(d: nat, src: nat, dst: nat)
    requires d < dst && src > 0
    ensures exists s: nat :: s < src && Nearest(d, src, dst, s)
  {
    var s := Scaled(d, src, dst);
    NearestIsScaled(d, src, dst, s);
    NearestInside(d, src, dst, s);
  }

  /** The inner loop: one row of the screen. */
  method BlitRow(fb: array<word>, ghost was: seq<word>, w: nat, h: nat, src: array<byte>, p: Placement, y: nat)
    requires fb.Length == |was| == Times(w, h) && src.Length == 4 * Times(p.srcW, p.srcH) && p.srcW > 0 && p.srcH > 0
    requires y < h && p.oy <= y < p.oy + p.dstH
    requires Progress(fb[..], was, w, h, src[..], p, 0, y)
    modifies fb
    ensures Progress(fb[..], was, w, h, src[..], p, p.ox + p.dstW, y)
  {
    hide Times, Flat, Progress, COver, SourceAt;
    var dx := 0;
    Transfer(fb[..], was, w, h, src[..], p, 0, y, p.ox, y);
    while dx < p.dstW
      invariant 0 <= dx && (dx <= p.dstW || dx == 0)
      invariant Progress(fb[..], was, w, h, src[..], p, p.ox + dx, y)
    {
      var x := p.ox + dx;
      if 0 <= x < w {
        DrawPixel(fb, was, w, h, src, p, x, y);
      } else {
        Transfer(fb[..], was, w, h, src[..], p, x, y, x + 1, y);
      }
      dx := dx + 1;
    }
    Transfer(fb[..], was, w, h, src[..], p, p.ox + dx, y, p.ox + p.dstW, y);
  }

  /** The loop body for a pixel on the screen. */
  method DrawPixel(fb: array<word>, ghost was: seq<word>, w: nat, h: nat, src: array<byte>, p: Placement,
                   x: nat, y: nat)
    requires fb.Length == |was| == Times(w, h) && src.Length == 4 * Times(p.srcW, p.srcH) && p.srcW > 0 && p.srcH > 0
    requires x < w && y < h && Covers(p, x, y)
    requires Progress(fb[..], was, w, h, src[..], p, x, y)
    modifies fb
    ensures Progress(fb[..], was, w, h, src[..], p, x + 1, y)
  {
    hide Times, Flat, Progress, COver, Over, SourceAt;
    SourceInside(p, x, y);
    FlatFacts(w, h, x, y);
    var s := SourceAt(p, x, y);
    var i := Flat(w, x, y);
    ghost var before := fb[..];
    COverIsOver(fb[i], src[s], src[s + 1], src[s + 2], src[s + 3]);
    fb[i] := COver(fb[i], src[s], src[s + 1], src[s + 2], src[s + 3]);
    OneDrawn(before, fb[..], was, w, h, src[..], p, x, y);
  }

  lemma NothingDrawn(was: seq<word>, w: nat, h: nat, src: seq<byte>, p: Placement)
    requires |was| == Times(w, h)
    ensures Progress(was, was, w, h, src, p, 0, p.oy)
  {
    hide Times, Flat, Blended;
  }

  /** Progress depends only on which covered pixels of the screen are already passed. */
  lemma Transfer(fb: seq<word>, was: seq<word>, w: nat, h: nat, src: seq<byte>, p: Placement,
                 x0: int, y0: int, x1: int, y1: int)
    requires |fb| == |was| == Times(w, h) && Progress(fb, was, w, h, src, p, x0, y0)
    requires forall x: nat, y: nat :: x < w && y < h && Covers(p, x, y) ==>
      (Before(x, y, x0, y0) <==> Before(x, y, x1, y1))
    ensures Progress(fb, was, w, h, src, p, x1, y1)
  {
    hide Times, Flat, Blended;
    forall x: nat, y: nat | x < w && y < h
      ensures PixelIs(fb, was, w, h, src, p, x, y, x1, y1)
    {
      assert PixelIs(fb, was, w, h, src, p, x, y, x0, y0);
    }
  }

  /** Storing the blended pixel moves the progress past it. */
  lemma OneDrawn(before: seq<word>, fb: seq<word>, was: seq<word>, w: nat, h: nat, src: seq<byte>, p: Placement,
                 x: nat, y: nat)
    requires |before| == |fb| == |was| == Times(w, h) && x < w && y < h && Covers(p, x, y)
    requires Progress(before, was, w, h, src, p, x, y) && Flat(w, x, y) < |fb|
    requires fb == before[Flat(w, x, y) := fb[Flat(w, x, y)]]
    requires fb[Flat(w, x, y)] == Blended(before[Flat(w, x, y)], src, p, x, y)
    ensures Progress(fb, was, w, h, src, p, x + 1, y)
  {
    hide Times, Flat, Blended;
    assert PixelIs(before, was, w, h, src, p, x, y, x, y);
    var next := x + 1;
    forall x': nat, y': nat | x' < w && y' < h
      ensures PixelIs(fb, was, w, h, src, p, x', y', next, y)
    {
      assert PixelIs(before, was, w, h, src, p, x', y', x, y);
      FlatFacts(w, h, x', y');
      FlatPlace(w, x, y);
      FlatPlace(w, x', y');
      assert Flat(w, x', y') == Flat(w, x, y) ==> x' == x && y' == y;
    }
  }
}
