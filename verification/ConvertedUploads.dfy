/** A whole netascii upload: when the file on disk is the conversion of the file that was sent. */
module ConvertedUploads {
  import opened Bytes
  import opened Eol
  import opened WriterSpec
  import opened WriterRefinement

  const BLOCK_SIZE: nat := 512

  /** The writer after a list of blocks. */
  function WriteBlocks(v: View, convert: bool, blocks: seq<bytes>): (r: View)
    requires v.mem != [] && forall i :: 0 <= i < |blocks| ==> |blocks[i]| <= |v.mem|
    ensures |r.mem| == |v.mem|
  {
    if blocks == [] then v
    else WriteBlock(WriteBlocks(v, convert, blocks[..|blocks| - 1]), convert, blocks[|blocks| - 1])
  }

  /** Full blocks, then one that is shorter. */
  predicate UploadShape(blocks: seq<bytes>)
  {
    && blocks != [] && |blocks[|blocks| - 1]| < BLOCK_SIZE
    && forall i :: 0 <= i < |blocks| - 1 ==> |blocks[i]| == BLOCK_SIZE
  }

  /** Full blocks only. */
  predicate AllFull(blocks: seq<bytes>)
  {
    forall i :: 0 <= i < |blocks| ==> |blocks[i]| == BLOCK_SIZE
  }

  /** Full blocks leave at most half a block unwritten, so the ring never overruns. */
  lemma {:induction false} FullBlocksFit(v: View, convert: bool, blocks: seq<bytes>)
    requires |v.mem| >= 2 * BLOCK_SIZE && AllFull(blocks) && v.buffered == v.written == 0
    ensures var r := WriteBlocks(v, convert, blocks);
      r.buffered <= r.written + BLOCK_SIZE / 2 && (blocks != [] ==> r.written > 0)
  {
    if blocks != [] {
      FullBlocksFit(v, convert, blocks[..|blocks| - 1]);
    }
  }

  lemma {:induction false} FullBlocks(blocks: seq<bytes>, j: nat)
    requires UploadShape(blocks) && j < |blocks|
    ensures |Flatten(blocks[..j])| == BLOCK_SIZE * j
    ensures Flatten(blocks) == Flatten(blocks[..j]) + Flatten(blocks[j..])
  {
    if j > 0 {
      FullBlocks(blocks, j - 1);
      assert blocks[..j][..j - 1] == blocks[..j - 1];
    }
    assert blocks == blocks[..j] + blocks[j..];
    FlattenConcat(blocks[..j], blocks[j..]);
  }

  lemma FlattenNext(blocks: seq<bytes>, j: nat)
    requires j < |blocks|
    ensures Flatten(blocks[..j + 1]) == Flatten(blocks[..j]) + blocks[j]
    ensures Flatten(blocks[j..]) == blocks[j] + Flatten(blocks[j + 1..])
  {
    assert blocks[..j + 1][..j] == blocks[..j];
    assert blocks[j..] == [blocks[j]] + blocks[j + 1..];
    FlattenConcat([blocks[j]], blocks[j + 1..]);
    assert Flatten([blocks[j]]) == [] + blocks[j] by { assert Flatten([]) == []; }
  }

  /** The bytes of the first j blocks, the next block, and the whole file. */
  lemma BlockInFile(blocks: seq<bytes>, j: nat)
    requires UploadShape(blocks) && j < |blocks|
    ensures var f := Flatten(blocks);
      && |f| >= BLOCK_SIZE * j + |blocks[j]| && f[..BLOCK_SIZE * j] == Flatten(blocks[..j])
      && Flatten(blocks[..j + 1]) == Flatten(blocks[..j]) + blocks[j] == f[..BLOCK_SIZE * j + |blocks[j]|]
  {
    hide UploadShape, Flatten;
    FullBlocks(blocks, j);
    FlattenNext(blocks, j);
    TakeAcross(Flatten(blocks[..j]), blocks[j], Flatten(blocks[j + 1..]));
  }

  lemma TakeAcross(a: bytes, b: bytes, c: bytes)
    ensures (a + (b + c))[..|a|] == a && (a + (b + c))[..|a| + |b|] == a + b
  {
  }

  /** What the writer stays behind its input: half a block, less one byte for every straddling pair. */
  const LOOK_AHEAD: nat := BLOCK_SIZE / 2

  /** How many CRLF pairs of f lie across the writer's output boundary after one of its first j blocks.
      The boundary starts half a block behind the input and moves one byte closer with every such pair,
      until it has caught up. */
  function Straddles(f: bytes, j: nat): (n: nat)
    ensures n <= j && n <= LOOK_AHEAD
  {
    if j == 0 then 0
    else var n := Straddles(f, j - 1);
      if n < LOOK_AHEAD && PairAt(f, BLOCK_SIZE * j - LOOK_AHEAD + n - 1) then n + 1 else n
  }

  lemma {:induction false} StraddlesGrow(f: bytes, i: nat, j: nat)
    requires i <= j
    ensures Straddles(f, i) <= Straddles(f, j)
    decreases j
  {
    if i < j {
      StraddlesGrow(f, i, j - 1);
    }
  }

  function Fresh(m0: bytes): View
  {
    View(m0, 0, 0, [])
  }

  /** Where the writer is after j full blocks. */
  function Boundary(f: bytes, j: nat): int
  {
    if j == 0 then 0 else BLOCK_SIZE * j - LOOK_AHEAD + Straddles(f, j)
  }

  lemma WriteBlocksStep(v: View, convert: bool, blocks: seq<bytes>, j: nat)
    requires 0 < j <= |blocks| && v.mem != [] && forall i :: 0 <= i < |blocks| ==> |blocks[i]| <= |v.mem|
    ensures WriteBlocks(v, convert, blocks[..j])
      == WriteBlock(WriteBlocks(v, convert, blocks[..j - 1]), convert, blocks[j - 1])
  {
    assert blocks[..j][..j - 1] == blocks[..j - 1];
  }

  lemma FreshInStep(m0: bytes)
    requires m0 != []
    ensures InStep(Fresh(m0), m0, []) && WriteBlocks(Fresh(m0), true, []) == Fresh(m0) && Flatten([]) == []
  {
  }

  // ---- Block ends the writer reads without look-ahead ----

  /** The writer has caught up with its input, and the last byte of block j is a CR: it looks at the ring
      cell behind that byte before the next block is there. */
  predicate Exposed(f: bytes, j: nat)
  {
    0 < j && BLOCK_SIZE * j <= |f| && Straddles(f, j) == LOOK_AHEAD && f[BLOCK_SIZE * j - 1] == CR
  }

  /** The file goes on with a line feed. */
  predicate GoesOnWithLineFeed(f: bytes, j: nat)
  {
    BLOCK_SIZE * j < |f| && f[BLOCK_SIZE * j] == LF
  }

  /** The stale byte there is a line feed: it is taken for the second half of a pair. */
  predicate Misled(m0: bytes, f: bytes, j: nat)
    requires m0 != []
  {
    Exposed(f, j) && Stale(m0, f[..BLOCK_SIZE * j]) == LF
  }

  /** The stale byte is none, but the next block begins with one: the pair is taken for two line ends. */
  predicate Torn(m0: bytes, f: bytes, j: nat)
    requires m0 != []
  {
    Exposed(f, j) && Stale(m0, f[..BLOCK_SIZE * j]) != LF && GoesOnWithLineFeed(f, j)
  }

  predicate Disturbed(m0: bytes, f: bytes, j: nat)
    requires m0 != []
  {
    Misled(m0, f, j) || Torn(m0, f, j)
  }

  /** The file ends in a CR that a stale line feed follows. */
  predicate EndHazard(m0: bytes, f: bytes)
    requires m0 != []
  {
    |f| >= 2 && f[|f| - 1] == CR && Stale(m0, f) == LF
  }

  // ---- Up to the first disturbance ----

  lemma {:induction false} FullBlocksInStep(m0: bytes, blocks: seq<bytes>, j: nat)
    requires UploadShape(blocks) && j < |blocks| && |m0| >= 2 * BLOCK_SIZE
    requires forall i :: 0 < i < j ==> !Disturbed(m0, Flatten(blocks), i)
    requires !Misled(m0, Flatten(blocks), j)
    ensures var f, v := Flatten(blocks), WriteBlocks(Fresh(m0), true, blocks[..j]);
      InStep(v, m0, Flatten(blocks[..j])) && v.written == Boundary(f, j)
  {
    hide InStep, WriteBlock, WriteBlocks, Flatten, Disturbed, Misled, Torn;
    if j == 0 {
      assert blocks[..j] == [];
      FreshInStep(m0);
    } else {
      var f := Flatten(blocks);
      UndisturbedIsNeither(m0, f, j - 1);
      FullBlocksInStep(m0, blocks, j - 1);
      BlockInFile(blocks, j - 1);
      FullBlocks(blocks, j - 1);
      WriteBlocksStep(Fresh(m0), true, blocks, j);
      hide Straddles;
      var v, g := WriteBlocks(Fresh(m0), true, blocks[..j - 1]), Flatten(blocks[..j - 1]);
      BlockAhead(v, m0, g, blocks[j - 1], f, j);
    }
  }

  lemma UndisturbedIsNeither(m0: bytes, f: bytes, j: nat)
    requires m0 != [] && (0 < j ==> !Disturbed(m0, f, j))
    ensures !Misled(m0, f, j) && !Torn(m0, f, j)
  {
  }

  /** What keeps a block safe: look-ahead, or undisturbed ends before and behind it. */
  lemma EndsMakeSafe(m0: bytes, g: bytes, block: bytes, f: bytes, j: nat, written: nat)
    requires j > 0 && |block| == BLOCK_SIZE && |g| == BLOCK_SIZE * (j - 1) && m0 != []
    requires |f| >= BLOCK_SIZE * j && g + block == f[..BLOCK_SIZE * j] && written == Boundary(f, j - 1)
    requires !Torn(m0, f, j - 1) && !Misled(m0, f, j - 1) && !Misled(m0, f, j)
    ensures BlockSafe(m0, g, written, block)
  {
    hide Stale;
    if Straddles(f, j - 1) == LOOK_AHEAD && j > 1 {
      assert (g + block)[|g|] == block[0] == f[BLOCK_SIZE * (j - 1)];
      assert g == (g + block)[..|g|] == f[..BLOCK_SIZE * (j - 1)];
      assert g[|g| - 1] == f[BLOCK_SIZE * (j - 1) - 1];
      assert (g + block)[BLOCK_SIZE * j - 1] == block[BLOCK_SIZE - 1] == f[BLOCK_SIZE * j - 1];
    }
  }

  /** One more full block. */
  lemma BlockAhead(v: View, m0: bytes, g: bytes, block: bytes, f: bytes, j: nat)
    requires j > 0 && |block| == BLOCK_SIZE && |g| == BLOCK_SIZE * (j - 1) && |m0| >= 2 * BLOCK_SIZE
    requires |f| >= BLOCK_SIZE * j && g + block == f[..BLOCK_SIZE * j]
    requires InStep(v, m0, g) && v.written == Boundary(f, j - 1)
    requires !Torn(m0, f, j - 1) && !Misled(m0, f, j - 1) && !Misled(m0, f, j)
    ensures InStep(WriteBlock(v, true, block), m0, g + block) && WriteBlock(v, true, block).written == Boundary(f, j)
  {
    hide Holds, Converted, WriteBlock, Normalize, BlockSafe, Torn, Misled;
    EndsMakeSafe(m0, g, block, f, j, v.written);
    SafeBlockKeepsStep(v, m0, g, block);
    assert Straddles(f, 0) == 0;
    var x := BLOCK_SIZE * j - LOOK_AHEAD + Straddles(f, j - 1);
    assert x < |g + block| ==> (PairAt(g + block, x - 1) <==> PairAt(f, x - 1));
  }

  // ---- The end of the upload ----

  /** Flushing completes the conversion unless the file ends in a CR that a stale line feed follows. */
  lemma FlushIff(v: View, m0: bytes, f: bytes)
    requires InStep(v, m0, f)
    ensures Flush(v).out == Normalize(f) <==> !Hazard(m0, f, v.written, |f| - v.written)
  {
    hide Normalize, RingHolds, BufferOut, Stale;
    var limit, w := |f| - v.written, v.written;
    if limit == 0 {
      assert f[..w] == f;
    } else if Hazard(m0, f, w, limit) {
      PassMisled(v, m0, f, limit);
      MisledTail(f, w);
    } else {
      PassSound(v, m0, f, limit);
      hide PastPair;
      RestNormalized(f, w);
      assert f[w..|f|] == f[w..];
    }
  }

  lemma RestNormalized(f: bytes, w: nat)
    requires w < |f| && CleanCut(f[..w], f[w..])
    ensures Normalize(f[..w]) + Normalize(f[w..]) == Normalize(f) && PastPair(f, |f|) == |f|
  {
    hide Normalize;
    assert f == f[..w] + f[w..];
    NormalizeCut(f[..w], f[w..]);
  }

  /** A pass that reaches the end of what it was given and is misled there puts out one line end more. */
  lemma MisledOutput(v: View, m0: bytes, g: bytes, block: bytes)
    requires InStep(v, m0, g) && |g| + |block| - v.written <= |m0|
    requires Hazard(m0, g + block, v.written, Budget(v.written, block)) && (v.written < |g| || CleanCut(g, block))
    ensures var r := WriteBlock(v, true, block);
      r.written == |g| + |block| + 1 && r.out == Normalize(g + block) + [LF]
  {
    hide Normalize, Holds, WriteBlock, Stale;
    var f, w := g + block, v.written;
    BlockMisled(v, m0, g, block);
    CutKept(g, w, block);
    MisledTail(f, w);
  }

  lemma MisledTail(f: bytes, w: nat)
    requires w < |f| && f[|f| - 1] == CR && CleanCut(f[..w], f[w..])
    ensures Normalize(f[..w]) + Normalize(f[w..] + [LF]) == Normalize(f) + [LF]
  {
    hide Normalize;
    NormalizeCut(f[..w], f[w..] + [LF]);
    assert f[..w] + (f[w..] + [LF]) == f + [LF];
    NormalizeEndsInCr(f);
  }

  lemma NormalizeEndsInCr(f: bytes)
    requires f != [] && f[|f| - 1] == CR
    ensures Normalize(f + [LF]) == Normalize(f) + [LF]
  {
    hide Normalize;
    var a := f[..|f| - 1];
    assert f == a + [CR] && f + [LF] == a + CRLF;
    LineEndNormals();
    NormalizeCut(a, [CR]);
    NormalizeCut(a, CRLF);
  }

  lemma LineEndNormals()
    ensures Normalize([CR]) == [CR] && Normalize(CRLF) == CRLF == [CR] + [LF]
  {
    assert CRLF[2..] == [] && [CR][1..] == [];
  }

  /** Without conversion the file written is the file sent, for every list of blocks. */
  lemma {:induction false} OctetUpload(v: View, blocks: seq<bytes>)
    requires v.mem != [] && v.buffered == 0 && forall i :: 0 <= i < |blocks| ==> |blocks[i]| <= |v.mem|
    ensures var r := WriteBlocks(v, false, blocks);
      r.buffered == 0 && Flush(r).out == v.out + Flatten(blocks)
  {
    if blocks != [] {
      OctetUpload(v, blocks[..|blocks| - 1]);
    }
  }
}
