/** The RSX register handler: clear colour, vertex arrays, and the begin / accumulate / end
state machine that turns DRAW_ARRAYS arguments into draws (`rsx_handle` in `runtime_glue.cpp`). */
module Draw {
  import opened Bits

  const NO_START: word := 0xFFFF_FFFF
  const CMD_BUF: nat := 0xD010_0000
  const CMD_BUF_END: nat := 0xD020_0000

  const BEGIN_END: nat := 0x17FC
  const DRAW_ARRAYS: nat := 0x1808
  const CLEAR_COLOR: nat := 0x1820
  const SURFACE_OFFSET: nat := 0x0200
  const CLEAR_SURFACE: nat := 0x1D94
  const VERTEX_OFFSET: nat := 0x1680
  const VERTEX_FORMAT: nat := 0x1740

  type Sixteen = s: seq<word> | |s| == 16 witness [0, 0, 0, 0, 0, 0, 0, 0, 0, 0, 0, 0, 0, 0, 0, 0]

  /** What reaches the framebuffer. */
  datatype Output = Cleared(bgra: word) | Drawn(vertexEa: word, count: word)

  datatype State = State(
    clearColor: word, surface: word, vtxOffset: Sixteen, vtxFormat: Sixteen,
    start: word, total: word, output: seq<Output>)

  datatype Write = Write(reg: nat, arg: word)

  /** RSX offsets below 16 MB lie in the command buffer's region; anything else is an address already. */
  function IoToEa(off: word): word {
    if off < 0x100_0000 then CMD_BUF + off else off
  }

  function Add32(a: nat, b: nat): word { (a + b) % TWO32 }

  /** RGBA to the framebuffer's BGRA word. */
  function Bgra(rgba: word): word {
    rgba % 0x100 * 0x100_0000 + rgba / 0x100_0000 * 0x1_0000 + rgba / 0x1_0000 % 0x100 * 0x100 + rgba / 0x100 % 0x100
  }

  function FirstVertex(arg: word): word { arg % 0x100_0000 }

  function VertexCount(arg: word): word { arg / 0x100_0000 % 0x100 + 1 }

  /** END of a batch: draws if there are at least three vertices and attribute 0 has an offset. */
  function EndBatch(s: State): State {
    var drawn :=
      if s.total >= 3 && s.vtxOffset[0] != 0
      then [Drawn(Add32(IoToEa(s.vtxOffset[0]), s.start * 16), s.total)] else [];
    s.(output := s.output + drawn, start := NO_START, total := 0)
  }

  function Accumulate(s: State, arg: word): State {
    s.(start := if s.start == NO_START then FirstVertex(arg) else s.start, total := Add32(s.total, VertexCount(arg)))
  }

  function Handle(s: State, w: Write): State {
    var m := w.reg % 0x1_0000;
    if m == CLEAR_COLOR then s.(clearColor := w.arg)
    else if m == SURFACE_OFFSET then s.(surface := Add32(0xD000_0000, w.arg))
    else if m == CLEAR_SURFACE then
      if w.arg / 0x10 % 0x10 != 0 then s.(output := s.output + [Cleared(Bgra(s.clearColor))]) else s
    else if m == BEGIN_END then
      if w.arg != 0 then s.(start := NO_START, total := 0) else EndBatch(s)
    else if m == DRAW_ARRAYS then Accumulate(s, w.arg)
    else if VERTEX_OFFSET <= m < VERTEX_OFFSET + 0x40 then
      s.(vtxOffset := s.vtxOffset[(m - VERTEX_OFFSET) / 4 := w.arg])
    else if VERTEX_FORMAT <= m < VERTEX_FORMAT + 0x40 then
      s.(vtxFormat := s.vtxFormat[(m - VERTEX_FORMAT) / 4 := w.arg])
    else s
  }

  function HandleAll(s: State, ws: seq<Write>): State
    decreases |ws|
  {
    if ws == [] then s else HandleAll(Handle(s, ws[0]), ws[1..])
  }

  lemma {:induction false} HandleAllConcat(s: State, a: seq<Write>, b: seq<Write>)
    ensures HandleAll(s, a + b) == HandleAll(HandleAll(s, a), b)
    decreases |a|
  {
    hide Handle;
    if a == [] {
      assert a + b == b;
    } else {
      assert (a + b)[1..] == a[1..] + b;
      HandleAllConcat(Handle(s, a[0]), a[1..], b);
    }
  }

  // ----- Batches -----

  /** One DRAW_ARRAYS argument: `count` vertices from `first`. */
  datatype Chunk = Chunk(first: nat, count: nat)

  predicate ChunkOk(c: Chunk) {
    c.first < 0x100_0000 && 1 <= c.count <= 0x100
  }

  function ChunkArg(c: Chunk): word
    requires ChunkOk(c)
  {
    (c.count - 1) * 0x100_0000 + c.first
  }

  predicate ChunksOk(cs: seq<Chunk>) {
    forall i :: 0 <= i < |cs| ==> ChunkOk(cs[i])
  }

  function ChunkWrites(cs: seq<Chunk>): (ws: seq<Write>)
    requires ChunksOk(cs)
    ensures |ws| == |cs|
  {
    seq(|cs|, i requires 0 <= i < |cs| => Write(DRAW_ARRAYS, ChunkArg(cs[i])))
  }

  function Total(cs: seq<Chunk>): nat {
    if cs == [] then 0 else Total(cs[..|cs| - 1]) + cs[|cs| - 1].count
  }

  /** The vertex indices one chunk names. */
  function ChunkVertices(c: Chunk): (vs: seq<nat>)
    ensures |vs| == c.count
  {
    seq(c.count, i requires 0 <= i < c.count => c.first + i)
  }

  /** The vertex indices the chunks name, in order. */
  function Vertices(cs: seq<Chunk>): (vs: seq<nat>)
    ensures |vs| == Total(cs)
  {
    if cs == [] then [] else Vertices(cs[..|cs| - 1]) + ChunkVertices(cs[|cs| - 1])
  }

  /** Every chunk starts where the one before it ended. */
  predicate Contiguous(cs: seq<Chunk>) {
    forall i :: 1 <= i < |cs| ==> cs[i].first == cs[i - 1].first + cs[i - 1].count
  }

  predicate Consecutive(vs: seq<nat>, start: nat) {
    forall i :: 0 <= i < |vs| ==> vs[i] == start + i
  }

  /** One start and one total describe a batch exactly when its chunks are contiguous. */
  lemma {:induction false} ContiguousRange(cs: seq<Chunk>)
    requires cs != [] && ChunksOk(cs)
    ensures Contiguous(cs) <==> Consecutive(Vertices(cs), cs[0].first)
    ensures Contiguous(cs) ==> cs[|cs| - 1].first + cs[|cs| - 1].count == cs[0].first + Total(cs)
  {
    var f, c := cs[..|cs| - 1], cs[|cs| - 1];
    var vs, us, n := Vertices(cs), Vertices(f), Total(f);
    assert ChunkOk(c);
    VerticesSplit(cs);
    if f == [] {
      assert us == [];
      hide Vertices, Total, ChunkOk;
    } else {
      ContiguousRange(f);
      assert Contiguous(cs) <==> Contiguous(f) && c.first == f[|f| - 1].first + f[|f| - 1].count;
      hide Vertices, Total, ChunkOk, Contiguous;
      assert Consecutive(vs, cs[0].first) <==> Consecutive(us, cs[0].first) && c.first == cs[0].first + n;
    }
  }

  /** The vertices of all chunks but the last, and those of the last. */
  lemma {:induction false} VerticesSplit(cs: seq<Chunk>)
    requires cs != [] && ChunkOk(cs[|cs| - 1])
    ensures var f, c := cs[..|cs| - 1], cs[|cs| - 1];
      var vs, us, n := Vertices(cs), Vertices(f), Total(f);
      Total(cs) == n + c.count && vs[n] == c.first &&
      (forall i :: 0 <= i < n ==> vs[i] == us[i]) && forall i :: n <= i < |vs| ==> vs[i] == c.first + (i - n)
  {
  }

  /** begin, chunks, end */
  function BatchWrites(prim: word, cs: seq<Chunk>): seq<Write>
    requires ChunksOk(cs)
  {
    [Write(BEGIN_END, prim)] + ChunkWrites(cs) + [Write(BEGIN_END, 0)]
  }

  /** After the chunks, the accumulator holds their first start and their total. */
  lemma {:induction false} ChunksAccumulate(s: State, cs: seq<Chunk>)
    requires ChunksOk(cs) && s.start == NO_START && s.total == 0 && Total(cs) < TWO32
    ensures HandleAll(s, ChunkWrites(cs)) == s.(start := if cs == [] then NO_START else cs[0].first, total := Total(cs))
    decreases |cs|
  {
    if cs != [] {
      var f, c := cs[..|cs| - 1], cs[|cs| - 1];
      assert ChunkWrites(cs) == ChunkWrites(f) + [Write(DRAW_ARRAYS, ChunkArg(c))];
      HandleAllConcat(s, ChunkWrites(f), [Write(DRAW_ARRAYS, ChunkArg(c))]);
      ChunksAccumulate(s, f);
      assert Total(cs) == Total(f) + c.count && ChunkOk(c) && (f == [] || ChunkOk(f[0]));
      hide HandleAll, ChunkWrites, Total, ChunksOk;
      ChunkAdds(HandleAll(s, ChunkWrites(f)), c);
    }
  }

  lemma {:induction false} ChunkAdds(s: State, c: Chunk)
    requires ChunkOk(c) && s.total + c.count < TWO32
    ensures HandleAll(s, [Write(DRAW_ARRAYS, ChunkArg(c))]) ==
      s.(start := if s.start == NO_START then c.first else s.start, total := s.total + c.count)
  {
    hide HandleAll, ChunkArg, FirstVertex, VertexCount, Handle;
    OneWrite(s, Write(DRAW_ARRAYS, ChunkArg(c)));
    HandleDraw(s, ChunkArg(c));
    ChunkFields(c);
  }

  lemma HandleDraw(s: State, arg: word)
    ensures Handle(s, Write(DRAW_ARRAYS, arg)) == Accumulate(s, arg)
  {
    hide Accumulate, EndBatch;
  }

  lemma {:induction false} OneWrite(s: State, w: Write)
    ensures HandleAll(s, [w]) == Handle(s, w)
  {
    hide Handle;
    assert [w][1..] == [];
  }

  lemma ChunkFields(c: Chunk)
    requires ChunkOk(c)
    ensures FirstVertex(ChunkArg(c)) == c.first && VertexCount(ChunkArg(c)) == c.count
  {
  }

  /** Where the draw of a batch reads its vertices. */
  function DrawAddress(s: State, cs: seq<Chunk>): word
    requires cs != []
  {
    Add32(IoToEa(s.vtxOffset[0]), cs[0].first * 16)
  }

  /** A batch produces exactly one draw, of exactly the accumulated vertices, when it has at
  least three of them and attribute 0 has an offset, and none otherwise; afterwards the
  accumulator is clear and everything else is as before. */
  lemma {:induction false} BatchDraws(s: State, prim: word, cs: seq<Chunk>)
    requires prim != 0 && ChunksOk(cs) && Total(cs) < TWO32
    ensures HandleAll(s, BatchWrites(prim, cs)) ==
      s.(start := NO_START, total := 0,
         output := s.output +
           if Total(cs) >= 3 && s.vtxOffset[0] != 0 then [Drawn(DrawAddress(s, cs), Total(cs))] else [])
  {
    hide HandleAll, ChunkWrites, ChunksOk, Total;
    var b, e := Write(BEGIN_END, prim), Write(BEGIN_END, 0);
    HandleAllConcat(s, [b] + ChunkWrites(cs), [e]);
    HandleAllConcat(s, [b], ChunkWrites(cs));
    OneWrite(s, b);
    var s1 := Handle(s, b);
    assert s1 == s.(start := NO_START, total := 0);
    ChunksAccumulate(s1, cs);
    var s2 := HandleAll(s1, ChunkWrites(cs));
    OneWrite(s2, e);
    assert Handle(s2, e) == EndBatch(s2);
    hide Handle;
    TotalOfNone(cs);
  }

  lemma {:induction false} TotalOfNone(cs: seq<Chunk>)
    ensures cs == [] ==> Total(cs) == 0
  {
  }
}
