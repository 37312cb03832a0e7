/** From a command stream to draws: whatever commands encode a list of batches, flushing them
produces one draw per batch. */
module FifoDraws {
  import opened Bits
  import opened Draw
  import opened DrawFetch
  import opened Fifo
  import opened FifoStream

  datatype Batch = Batch(prim: word, chunks: seq<Chunk>)

  /** A batch of at least three vertices, as many as the accumulator can count. */
  predicate BatchOk(b: Batch) {
    b.prim != 0 && ChunksOk(b.chunks) && 3 <= Total(b.chunks) < TWO32
  }

  predicate BatchesOk(bs: seq<Batch>) {
    forall k :: 0 <= k < |bs| ==> BatchOk(bs[k])
  }

  /** Begin, chunks and end of every batch in turn. */
  function BatchesWrites(bs: seq<Batch>): seq<Write>
    requires BatchesOk(bs)
  {
    if bs == [] then [] else
      assert BatchOk(bs[0]);
      BatchWrites(bs[0].prim, bs[0].chunks) + BatchesWrites(bs[1..])
  }

  lemma NotEmpty(b: Batch)
    requires BatchOk(b)
    ensures b.chunks != []
  {
  }

  /** The draw of one batch. */
  function DrawOf(s: State, b: Batch): (d: Output)
    requires BatchOk(b)
    ensures d.Drawn?
  {
    NotEmpty(b);
    Drawn(DrawAddress(s, b.chunks), Total(b.chunks))
  }

  function DrawsOf(s: State, bs: seq<Batch>): (out: seq<Output>)
    requires BatchesOk(bs)
    ensures |out| == |bs|
  {
    if bs == [] then [] else
      assert BatchOk(bs[0]);
      [DrawOf(s, bs[0])] + DrawsOf(s, bs[1..])
  }

  lemma {:induction false} DrawsAt(s: State, bs: seq<Batch>, k: nat)
    requires BatchesOk(bs) && k < |bs|
    ensures BatchOk(bs[k]) && DrawsOf(s, bs)[k] == DrawOf(s, bs[k])
  {
    hide BatchOk, DrawOf;
    if k > 0 {
      DrawsAt(s, bs[1..], k - 1);
    }
  }

  lemma {:induction false} SameDraws(s: State, s': State, bs: seq<Batch>)
    requires BatchesOk(bs) && s.vtxOffset == s'.vtxOffset
    ensures DrawsOf(s, bs) == DrawsOf(s', bs)
  {
    hide BatchOk;
    if bs != [] {
      SameDraws(s, s', bs[1..]);
    }
  }

  lemma {:induction false} BatchesDraw(s: State, bs: seq<Batch>)
    requires BatchesOk(bs) && s.vtxOffset[0] != 0
    ensures var s' := HandleAll(s, BatchesWrites(bs));
      s'.output == s.output + DrawsOf(s, bs) && s'.vtxOffset == s.vtxOffset
    decreases |bs|
  {
    hide BatchWrites, HandleAll;
    if bs == [] {
      NoWrites(s);
      assert s.output + DrawsOf(s, bs) == s.output;
    } else {
      var b, rest := bs[0], bs[1..];
      assert BatchOk(b);
      var s1 := HandleAll(s, BatchWrites(b.prim, b.chunks));
      BatchDraws(s, b.prim, b.chunks);
      NotEmpty(b);
      hide BatchOk;
      HandleAllConcat(s, BatchWrites(b.prim, b.chunks), BatchesWrites(rest));
      BatchesDraw(s1, rest);
      SameDraws(s, s1, rest);
      assert s.output + [DrawOf(s, b)] + DrawsOf(s, rest) == s.output + ([DrawOf(s, b)] + DrawsOf(s, rest));
    }
  }

  /** The handler looks at the low 16 bits of a register number only. */
  function Masked(ws: seq<Write>): seq<Write> {
    seq(|ws|, i requires 0 <= i < |ws| => Write(ws[i].reg % 0x1_0000, ws[i].arg))
  }

  lemma {:induction false} HandleAllMasked(s: State, ws: seq<Write>)
    ensures HandleAll(s, ws) == HandleAll(s, Masked(ws))
    decreases |ws|
  {
    if ws != [] {
      var ms := Masked(ws);
      assert ms[0] == Write(ws[0].reg % 0x1_0000, ws[0].arg) && ms[1..] == Masked(ws[1..]);
      assert Handle(s, ms[0]) == Handle(s, ws[0]);
      hide Handle, Masked;
      HandleAllMasked(Handle(s, ws[0]), ws[1..]);
    }
  }

  /** What the rasterizer fetches for a draw: its batch's vertices, or those of its whole
  triangles, exactly under the conditions of `FetchesBatchIff` and `FetchesTrianglesIff`. */
  predicate FetchesAsSaid(s: State, d: Output, cs: seq<Chunk>) {
    d.Drawn? &&
    (Fetched(d) == VertexAddresses(s, Vertices(cs)) <==> BatchCondition(cs)) &&
    (Fetched(d) == VertexAddresses(s, TriangleVertices(cs)) <==> TrianglesCondition(cs))
  }

  /** End to end: any stream of commands and NOPs that writes a list of batches, flushed, produces
  exactly one draw per batch, in order. The rasterizer then fetches exactly the vertices the
  batch names if and only if its chunks are contiguous and make whole triangles, and exactly
  those of its whole triangles if and only if these are consecutive. */
  lemma {:induction false} FlushedBatchesDraw(vm: Memory, f: Queue, put: word, items: seq<Item>, bs: seq<Batch>)
    requires ItemsOk(items) && BatchesOk(bs) && Masked(StreamWrites(items)) == BatchesWrites(bs)
    requires f.regs.vtxOffset[0] != 0 && Placed(vm, IoToEa(f.get), Encode(items))
    requires IoToEa(put) == IoToEa(f.get) + 4 * |Encode(items)|
    ensures CanFlush(vm, f, put) && Flush(vm, f, put).get == put
    ensures var drawn := Flush(vm, f, put).regs.output;
      drawn == f.regs.output + DrawsOf(f.regs, bs) &&
      forall k :: 0 <= k < |bs| ==> FetchesAsSaid(f.regs, drawn[|f.regs.output| + k], bs[k].chunks)
  {
    hide HandleAll, Placed, Encode, StreamWrites, Masked, IoToEa, CanFlush, Flush, BatchesWrites;
    FlushStream(vm, f, put, items);
    HandleAllMasked(f.regs, StreamWrites(items));
    BatchesDraw(f.regs, bs);
    forall k | 0 <= k < |bs|
      ensures FetchesAsSaid(f.regs, DrawsOf(f.regs, bs)[k], bs[k].chunks)
    {
      DrawsAt(f.regs, bs, k);
      DrawFetches(f.regs, bs[k]);
    }
  }

  lemma DrawFetches(s: State, b: Batch)
    requires BatchOk(b)
    ensures FetchesAsSaid(s, DrawOf(s, b), b.chunks)
  {
    NotEmpty(b);
    hide Fetched, VertexAddresses, Vertices, BatchCondition, TrianglesCondition;
    FetchesBatchIff(s, b.chunks);
    FetchesTrianglesIff(s, b.chunks);
  }

  // ----- Every list of batches has a stream -----

  /** One single-argument command per write. */
  function OneByOne(ws: seq<Write>): seq<Item> {
    seq(|ws|, i requires 0 <= i < |ws| => Command(ws[i].reg, [ws[i].arg], false))
  }

  lemma {:induction false} EveryWriteEncodes(ws: seq<Write>)
    requires forall i :: 0 <= i < |ws| ==> ws[i].reg < 0x4_0000
    ensures ItemsOk(OneByOne(ws)) && StreamWrites(OneByOne(ws)) == ws
  {
    if ws != [] {
      var w, items := ws[0], OneByOne(ws);
      EveryWriteEncodes(ws[1..]);
      assert items[0] == Command(w.reg, [w.arg], false) && items[1..] == OneByOne(ws[1..]);
      assert ItemWrites(items[0]) == [w];
      assert ws == [w] + ws[1..];
    }
  }
}
