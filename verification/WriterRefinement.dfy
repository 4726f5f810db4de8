/** The streaming conversion of the file writer against the whole-file conversion. */
module WriterRefinement {
  import opened Bytes
  import opened Modular
  import opened Eol
  import opened WriterSpec
  import opened Storage

  // ---- One scan ----

  /** The scan sees exactly the bytes of g from position w on, and exactly the CRLF pairs of g. */
  ghost predicate Sees(mem: bytes, buffered: nat, cursor: nat, processed: nat, limit: nat, g: bytes, w: nat)
    requires processed < limit ==> cursor + (limit - processed) < 2 * |mem|
  {
    && (processed < limit ==> w + (limit - processed) <= |g|)
    && forall x :: w <= x < w + (limit - processed) ==>
      && At(mem, cursor + (x - w)) == g[x]
      && ((g[x] == CR && processed + (x - w) + 1 < buffered && At(mem, cursor + (x - w) + 1) == LF) <==> PairAt(g, x))
  }

  predicate PairAt(g: bytes, i: nat)
  {
    i + 1 < |g| && g[i] == CR && g[i + 1] == LF
  }

  /** Where a scan that is to pass x bytes stops: a pair that begins inside is finished. */
  function PastPair(g: bytes, x: nat): (stop: nat)
    ensures x <= |g| ==> x <= stop <= |g|
  {
    if x > 0 && PairAt(g, x - 1) then x + 1 else x
  }

  /** One step of the scan takes one whole unit of g. */
  lemma ScanStep(mem: bytes, buffered: nat, cursor: nat, processed: nat, limit: nat, g: bytes, w: nat)
    requires processed < limit && cursor + (limit - processed) < 2 * |mem|
    requires Sees(mem, buffered, cursor, processed, limit, g, w)
    ensures var u := if PairAt(g, w) then 2 else 1;
      var r := Scan(mem, buffered, cursor, processed, limit);
      var rest := Scan(mem, buffered, cursor + u, processed + u, limit);
      r.0 == (if PairAt(g, w) || g[w] == LF then CRLF else [g[w]]) + rest.0 && r.1 == rest.1
  {
    assert At(mem, cursor + (w - w)) == g[w];
  }

  lemma SeesRest(mem: bytes, buffered: nat, cursor: nat, processed: nat, limit: nat, g: bytes, w: nat, u: nat)
    requires processed + u < limit && cursor + (limit - processed) < 2 * |mem|
    requires Sees(mem, buffered, cursor, processed, limit, g, w)
    ensures Sees(mem, buffered, cursor + u, processed + u, limit, g, w + u)
  {
    forall x | w + u <= x < w + (limit - processed)
      ensures At(mem, cursor + u + (x - (w + u))) == g[x]
      ensures (g[x] == CR && processed + u + (x - (w + u)) + 1 < buffered
               && At(mem, cursor + u + (x - (w + u)) + 1) == LF) <==> PairAt(g, x)
    {
      assert At(mem, cursor + (x - w)) == g[x];
    }
  }

  lemma {:induction false} ScanNormalizes(mem: bytes, buffered: nat, cursor: nat,
                                          processed: nat, limit: nat, g: bytes, w: nat)
    requires processed < limit && cursor + (limit - processed) < 2 * |mem|
    requires Sees(mem, buffered, cursor, processed, limit, g, w)
    ensures var r := Scan(mem, buffered, cursor, processed, limit);
      var stop := PastPair(g, w + (limit - processed));
      r.1 == cursor + (stop - w) && r.0 == Normalize(g[w..stop])
    decreases limit - processed
  {
    hide Normalize;
    var u := if PairAt(g, w) then 2 else 1;
    var stop := PastPair(g, w + (limit - processed));
    assert stop >= w + u;
    ScanStep(mem, buffered, cursor, processed, limit, g, w);
    UnitFirst(g, w, u, stop);
    hide Sees, At;
    if processed + u < limit {
      SeesRest(mem, buffered, cursor, processed, limit, g, w, u);
      ScanNormalizes(mem, buffered, cursor + u, processed + u, limit, g, w + u);
    } else {
      NormalizeUnit([]);
      assert stop == w + u && g[w + u..stop] == [];
    }
  }

  lemma UnitFirst(g: bytes, w: nat, u: nat, stop: nat)
    requires w + u <= stop <= |g| && u == if PairAt(g, w) then 2 else 1
    ensures Normalize(g[w..stop]) == (if PairAt(g, w) || g[w] == LF then CRLF else [g[w]]) + Normalize(g[w + u..stop])
  {
    var s := g[w..stop];
    assert s[0] == g[w] && (|s| > 1 ==> s[1] == g[w + 1]);
    assert Width(s) == u;
    assert s[u..] == g[w + u..stop];
  }

  // ---- The ring ----

  /** The ring that first held m0 has taken the bytes of f: its newest bytes are those of f, the rest is m0. */
  ghost predicate RingHolds(mem: bytes, m0: bytes, f: bytes)
  {
    && |mem| == |m0| > 0
    && (forall i :: 0 <= i < |f| <= i + |m0| ==> mem[i % |m0|] == f[i])
    && (forall i :: |f| <= i < |m0| ==> mem[i] == m0[i])
  }

  ghost predicate Holds(v: View, m0: bytes, f: bytes)
  {
    RingHolds(v.mem, m0, f) && v.buffered == |f|
  }

  /** What the ring holds in the cell after the last byte of f. */
  function Stale(m0: bytes, f: bytes): byte
    requires m0 != []
  {
    if |f| < |m0| then m0[|f|] else f[|f| - |m0|]
  }

  lemma StaleCell(v: View, m0: bytes, f: bytes)
    requires Holds(v, m0, f)
    ensures v.mem[|f| % |m0|] == Stale(m0, f)
  {
    if |f| < |m0| {
      RingOffset(0, |f|, |m0|);
    } else {
      RingOffset(|f| - |m0|, |m0|, |m0|);
    }
  }

  lemma BufferKeepsRing(v: View, m0: bytes, f: bytes, block: bytes)
    requires Holds(v, m0, f) && |block| <= |m0|
    ensures Holds(BufferBlock(v, block), m0, f + block)
  {
    hide Stored;
    var size, r, g := |m0|, BufferBlock(v, block), f + block;
    forall i | 0 <= i < |g| <= i + size ensures r.mem[i % size] == g[i] {
      if i >= |f| {
        StoredNew(v.mem, |f|, block, i - |f|);
      } else {
        StoredOld(v.mem, i, |f|, block);
        assert v.mem[i % size] == f[i];
      }
    }
    forall i | |g| <= i < size ensures r.mem[i] == m0[i] {
      StoredAhead(v.mem, i, |f|, block);
    }
  }

  lemma StoredNew(mem: bytes, at: nat, block: bytes, d: nat)
    requires d < |block| <= |mem|
    ensures Stored(mem, at % |mem|, block)[(at + d) % |mem|] == block[d]
  {
    hide Stored;
    RingOffset(at, d, |mem|);
  }

  lemma StoredOld(mem: bytes, i: nat, at: nat, block: bytes)
    requires i < at && at + |block| <= i + |mem|
    ensures Stored(mem, at % |mem|, block)[i % |mem|] == mem[i % |mem|]
  {
    RingOffset(i, at - i, |mem|);
  }

  lemma StoredAhead(mem: bytes, i: nat, at: nat, block: bytes)
    requires at + |block| <= i < |mem|
    ensures Stored(mem, at % |mem|, block)[i] == mem[i]
  {
    RingOffset(0, at, |mem|);
  }

  // ---- One pass over the ring ----

  /** The next pass would take the stale byte after the last buffered one for the second half of a pair. */
  predicate Hazard(m0: bytes, f: bytes, written: nat, limit: nat)
    requires m0 != []
  {
    0 < limit == |f| - written && written > 0 && f[|f| - 1] == CR && Stale(m0, f) == LF
  }

  /** The mapped address of position x, counted from the address of the first unwritten byte. */
  lemma PassCell(v: View, m0: bytes, f: bytes, x: nat)
    requires Holds(v, m0, f) && v.written <= x <= |f| && |f| - v.written <= |m0|
    ensures v.written % |m0| + (x - v.written) < 2 * |m0|
    ensures At(v.mem, v.written % |m0| + (x - v.written)) == if x < |f| then f[x] else Stale(m0, f)
  {
    RingOffset(v.written, x - v.written, |m0|);
    if x < |f| {
      assert v.mem[x % |m0|] == f[x];
    } else {
      StaleCell(v, m0, f);
    }
  }

  /** The bytes a pass over the next limit bytes of the ring stands for. */
  function Visible(m0: bytes, f: bytes, written: nat, limit: nat): bytes
    requires m0 != []
  {
    if Hazard(m0, f, written, limit) then f + [LF] else f
  }

  lemma PassSeesAt(v: View, m0: bytes, f: bytes, limit: nat, x: nat)
    requires Holds(v, m0, f) && limit <= |f| - v.written <= |m0| && v.written <= x < v.written + limit
    ensures var g, at := Visible(m0, f, v.written, limit), v.written % |m0| + (x - v.written);
      && at + 1 < 2 * |m0| && At(v.mem, at) == g[x]
      && ((g[x] == CR && x - v.written + 1 < |f| && At(v.mem, at + 1) == LF) <==> PairAt(g, x))
  {
    PassCell(v, m0, f, x);
    PassCell(v, m0, f, x + 1);
    assert v.written % |m0| + (x + 1 - v.written) == v.written % |m0| + (x - v.written) + 1;
    var g := Visible(m0, f, v.written, limit);
    if x + 1 < |f| {
      assert g[x + 1] == f[x + 1];
    } else {
      assert limit == |f| - v.written;
    }
  }

  lemma PassSees(v: View, m0: bytes, f: bytes, limit: nat)
    requires Holds(v, m0, f) && limit <= |f| - v.written <= |m0|
    ensures Sees(v.mem, |f|, v.written % |m0|, 0, limit, Visible(m0, f, v.written, limit), v.written)
  {
    forall x | v.written <= x < v.written + limit
      ensures var g, at := Visible(m0, f, v.written, limit), v.written % |m0| + (x - v.written);
        && at + 1 < 2 * |m0| && At(v.mem, at) == g[x]
        && ((g[x] == CR && x - v.written + 1 < |f| && At(v.mem, at + 1) == LF) <==> PairAt(g, x))
    {
      PassSeesAt(v, m0, f, limit, x);
    }
  }

  lemma PassEmits(v: View, limit: nat, g: bytes)
    requires 0 < limit <= |v.mem| && Sees(v.mem, v.buffered, v.written % |v.mem|, 0, limit, g, v.written)
    ensures var r := BufferOut(v, limit);
      && r.written == PastPair(g, v.written + limit)
      && r.out == v.out + Normalize(g[v.written..r.written])
  {
    hide Normalize, PastPair;
    ScanNormalizes(v.mem, v.buffered, v.written % |v.mem|, 0, limit, g, v.written);
    hide Scan, Sees;
  }

  /** A pass from v to r: r has passed limit bytes of g more, and the pair that begins at the last of
      them, and has put out their conversion. */
  predicate Passed(v: View, g: bytes, limit: nat, r: View)
  {
    && v.written + limit <= |g|
    && r.written == (if limit == 0 then v.written else PastPair(g, v.written + limit))
    && r.out == v.out + Normalize(g[v.written..r.written])
  }

  /** A pass that is not misled puts out the conversion of the bytes it passes. */
  lemma PassSound(v: View, m0: bytes, f: bytes, limit: nat)
    requires Holds(v, m0, f) && limit <= |f| - v.written <= |m0| && !Hazard(m0, f, v.written, limit)
    ensures Passed(v, f, limit, BufferOut(v, limit))
  {
    hide Normalize;
    if limit == 0 {
      NormalizeUnit([]);
      assert f[v.written..v.written] == [];
      assert v.out + [] == v.out;
    } else {
      PassSees(v, m0, f, limit);
      hide Sees, BufferOut;
      PassEmits(v, limit, f);
    }
  }

  /** A pass that takes the stale byte for a line feed writes one byte too many and passes one too many. */
  lemma PassMisled(v: View, m0: bytes, f: bytes, limit: nat)
    requires Holds(v, m0, f) && limit <= |f| - v.written <= |m0| && Hazard(m0, f, v.written, limit)
    ensures var r := BufferOut(v, limit);
      r.written == |f| + 1 && r.out == v.out + Normalize(f[v.written..] + [LF])
  {
    MisledEmits(v, m0, f, limit);
    hide BufferOut, Normalize, PastPair;
    StalePair(f, v.written);
  }

  lemma MisledEmits(v: View, m0: bytes, f: bytes, limit: nat)
    requires Holds(v, m0, f) && limit <= |f| - v.written <= |m0| && Hazard(m0, f, v.written, limit)
    ensures var g, r := f + [LF], BufferOut(v, limit);
      r.written == PastPair(g, |f|) && r.out == v.out + Normalize(g[v.written..r.written])
  {
    PassSees(v, m0, f, limit);
    hide Sees, BufferOut, Normalize, PastPair;
    PassEmits(v, limit, f + [LF]);
  }

  lemma StalePair(f: bytes, w: nat)
    requires w < |f| && f[|f| - 1] == CR
    ensures PastPair(f + [LF], |f|) == |f| + 1 && (f + [LF])[w..|f| + 1] == f[w..] + [LF]
  {
    assert PairAt(f + [LF], |f| - 1);
  }

  // ---- One block ----

  /** How many bytes a block makes the writer pass: half of it while nothing has been written. */
  function Budget(written: nat, block: bytes): nat
  {
    if written == 0 then |block| / 2 else |block|
  }

  lemma BlockPasses(v: View, m0: bytes, f: bytes, block: bytes)
    requires Holds(v, m0, f) && v.written <= |f| && |f| + |block| - v.written <= |m0|
    requires !Hazard(m0, f + block, v.written, Budget(v.written, block))
    ensures Holds(WriteBlock(v, true, block), m0, f + block)
    ensures Passed(v, f + block, Budget(v.written, block), WriteBlock(v, true, block))
  {
    hide BufferOut, Stored, PastPair, Hazard, Normalize;
    BufferKeepsRing(v, m0, f, block);
    PassSound(BufferBlock(v, block), m0, f + block, Budget(v.written, block));
  }

  lemma BlockMisled(v: View, m0: bytes, f: bytes, block: bytes)
    requires Holds(v, m0, f) && v.written <= |f| && |f| + |block| - v.written <= |m0|
    requires Hazard(m0, f + block, v.written, Budget(v.written, block))
    ensures WriteBlock(v, true, block).written == |f| + |block| + 1
    ensures WriteBlock(v, true, block).out == v.out + Normalize((f + block)[v.written..] + [LF])
  {
    hide Normalize, BufferOut;
    BufferKeepsRing(v, m0, f, block);
    PassMisled(BufferBlock(v, block), m0, f + block, Budget(v.written, block));
  }

  /** out is exactly the conversion of the first w bytes of f, and no pair of f is cut there. */
  predicate Converted(out: bytes, f: bytes, w: nat)
  {
    w <= |f| && out == Normalize(f[..w]) && CleanCut(f[..w], f[w..])
  }

  /** The writer is in step with the whole-file conversion: it has put out exactly the conversion of
      the bytes it has passed, has passed no byte it was not given, and cuts no pair. */
  ghost predicate InStep(v: View, m0: bytes, f: bytes)
  {
    Holds(v, m0, f) && Converted(v.out, f, v.written) && |f| - v.written <= |m0|
  }

  /** What has to hold of a block for the writer to stay in step: some look-ahead is left, or the block
      neither continues a pair nor ends in a CR that stale ring contents complete. */
  predicate BlockSafe(m0: bytes, f: bytes, written: nat, block: bytes)
    requires m0 != []
  {
    || written < |f| || f == []
    || (CleanCut(f, block) && !(block != [] && block[|block| - 1] == CR && Stale(m0, f + block) == LF))
  }

  lemma ConvertedGrows(out: bytes, f: bytes, w: nat, block: bytes, x: nat, stop: nat)
    requires Converted(out, f, w) && (w < |f| || CleanCut(f, block))
    requires w <= x <= |f + block| && stop == if x == w then w else PastPair(f + block, x)
    ensures Converted(out + Normalize((f + block)[w..stop]), f + block, stop)
  {
    hide Normalize, PairAt;
    var g := f + block;
    CutKept(f, w, block);
    assert g[..stop] == g[..w] + g[w..stop];
    assert g[w..stop] != [] ==> g[w..stop][0] == g[w..][0];
    assert CleanCut(g[..w], g[w..stop]);
    NormalizeCut(g[..w], g[w..stop]);
    if x > w {
      StopIsClean(g, x);
    }
  }

  lemma StopIsClean(g: bytes, x: nat)
    requires 0 < x <= |g|
    ensures CleanCut(g[..PastPair(g, x)], g[PastPair(g, x)..])
  {
    var stop := PastPair(g, x);
    assert g[..stop][stop - 1] == g[stop - 1];
  }

  lemma CutKept(f: bytes, w: nat, block: bytes)
    requires w <= |f| && CleanCut(f[..w], f[w..]) && (w < |f| || CleanCut(f, block))
    ensures (f + block)[..w] == f[..w] && CleanCut((f + block)[..w], (f + block)[w..])
  {
    var g := f + block;
    assert g[..w] == f[..w] && g[w..] == f[w..] + block;
    if w == |f| {
      assert f[..w] == f && f[w..] + block == block;
    }
  }

  lemma SafeBlockNotMisled(m0: bytes, f: bytes, w: nat, block: bytes)
    requires m0 != [] && w <= |f| && BlockSafe(m0, f, w, block)
    ensures !Hazard(m0, f + block, w, Budget(w, block)) && (w < |f| || CleanCut(f, block))
  {
    var g := f + block;
    if block != [] {
      assert g[|g| - 1] == block[|block| - 1];
    }
  }

  lemma ConvertedStops(out: bytes, f: bytes, block: bytes, stop: nat)
    requires Converted(out, f, |f|) && !CleanCut(f, block) && |f| < stop <= |f + block|
    ensures !Converted(out + Normalize((f + block)[|f|..stop]), f + block, stop)
  {
    var g := f + block;
    assert f[..|f|] == f && g[..stop] == f + g[|f|..stop];
    NormalizeDirtyCut(f, g[|f|..stop]);
  }

  /** A safe block keeps the writer in step and moves it past its budget and the pair that begins there. */
  lemma SafeBlockKeepsStep(v: View, m0: bytes, f: bytes, block: bytes)
    requires InStep(v, m0, f) && |f| + |block| - v.written <= |m0| && BlockSafe(m0, f, v.written, block)
    ensures var r, limit := WriteBlock(v, true, block), Budget(v.written, block);
      InStep(r, m0, f + block) && r.written == if limit == 0 then v.written else PastPair(f + block, v.written + limit)
  {
    hide WriteBlock, PastPair, Hazard, Normalize, CleanCut, BlockSafe;
    SafeBlockNotMisled(m0, f, v.written, block);
    BlockPasses(v, m0, f, block);
    var r, limit := WriteBlock(v, true, block), Budget(v.written, block);
    ConvertedGrows(v.out, f, v.written, block, v.written + limit, r.written);
  }

  /** An unsafe block always throws the writer out of step. */
  lemma UnsafeBlockBreaksStep(v: View, m0: bytes, f: bytes, block: bytes)
    requires InStep(v, m0, f) && |f| + |block| - v.written <= |m0| && !BlockSafe(m0, f, v.written, block)
    ensures !InStep(WriteBlock(v, true, block), m0, f + block)
  {
    if Hazard(m0, f + block, v.written, |block|) {
      BlockMisled(v, m0, f, block);
    } else {
      BlockPasses(v, m0, f, block);
      ConvertedStops(v.out, f, block, WriteBlock(v, true, block).written);
    }
  }

  lemma WriteBlockInStepIff(v: View, m0: bytes, f: bytes, block: bytes)
    requires InStep(v, m0, f) && |f| + |block| - v.written <= |m0|
    ensures InStep(WriteBlock(v, true, block), m0, f + block) <==> BlockSafe(m0, f, v.written, block)
  {
    if BlockSafe(m0, f, v.written, block) {
      SafeBlockKeepsStep(v, m0, f, block);
    } else {
      UnsafeBlockBreaksStep(v, m0, f, block);
    }
  }
}
