/** A whole netascii upload: when the file on disk is the conversion of the file that was sent. */
module WholeUploads {
  import opened Bytes
  import opened Modular
  import opened Eol
  import opened WriterSpec
  import opened WriterRefinement
  import opened ConvertedUploads
  import opened Blocks
  import opened Storage

  /** The writer after the first j blocks of an upload. */
  function After(m0: bytes, blocks: seq<bytes>, j: nat): (v: View)
    requires UploadShape(blocks) && |m0| >= 2 * BLOCK_SIZE && j <= |blocks|
    ensures |v.mem| == |m0|
  {
    WriteBlocks(Fresh(m0), true, blocks[..j])
  }

  lemma AfterNext(m0: bytes, blocks: seq<bytes>, j: nat)
    requires UploadShape(blocks) && |m0| >= 2 * BLOCK_SIZE && j < |blocks|
    ensures |blocks[j]| <= BLOCK_SIZE && After(m0, blocks, j + 1) == WriteBlock(After(m0, blocks, j), true, blocks[j])
  {
    WriteBlocksStep(Fresh(m0), true, blocks, j + 1);
    hide WriteBlocks, WriteBlock;
  }

  /** What an upload leaves in the temporary file. */
  function Written(m0: bytes, blocks: seq<bytes>): bytes
    requires UploadShape(blocks) && |m0| >= 2 * BLOCK_SIZE
  {
    UploadFlushes(m0, blocks);
    Flush(After(m0, blocks, |blocks|)).out
  }

  lemma UploadFlushes(m0: bytes, blocks: seq<bytes>)
    requires UploadShape(blocks) && |m0| >= 2 * BLOCK_SIZE
    ensures var v := After(m0, blocks, |blocks|); v.buffered <= v.written + |v.mem|
  {
    FullBlocksFit(Fresh(m0), true, blocks[..|blocks| - 1]);
    AfterNext(m0, blocks, |blocks| - 1);
    hide WriteBlocks;
  }

  lemma AfterAll(m0: bytes, blocks: seq<bytes>)
    requires UploadShape(blocks) && |m0| >= 2 * BLOCK_SIZE
    ensures After(m0, blocks, |blocks|) == WriteBlocks(Fresh(m0), true, blocks)
  {
    assert blocks[..|blocks|] == blocks;
  }

  /** Where block j lies in the file. */
  lemma BlockLies(blocks: seq<bytes>, j: nat)
    requires UploadShape(blocks) && j < |blocks|
    ensures var f, at := Flatten(blocks), BLOCK_SIZE * j;
      && |f| >= at + |blocks[j]| && f[..at] + blocks[j] == f[..at + |blocks[j]|]
      && f[..at] == Flatten(blocks[..j]) && f == f[..at] + Flatten(blocks[j..])
      && (j < |blocks| - 1 ==> |blocks[j]| == BLOCK_SIZE)
      && (j == |blocks| - 1 ==> |blocks[j]| < BLOCK_SIZE && f == f[..at] + blocks[j])
  {
    BlockInFile(blocks, j);
    FullBlocks(blocks, j);
    if j == |blocks| - 1 {
      assert blocks[..j + 1] == blocks;
    }
    hide Flatten;
  }

  lemma InStepAfter(m0: bytes, blocks: seq<bytes>, j: nat)
    requires UploadShape(blocks) && j < |blocks| && |m0| >= 2 * BLOCK_SIZE
    requires forall i :: 0 < i < j ==> !Disturbed(m0, Flatten(blocks), i)
    requires !Misled(m0, Flatten(blocks), j)
    ensures BLOCK_SIZE * j <= |Flatten(blocks)|
    ensures var f, v := Flatten(blocks), After(m0, blocks, j);
      InStep(v, m0, f[..BLOCK_SIZE * j]) && v.written == Boundary(f, j)
  {
    hide InStep, WriteBlocks, Flatten, Disturbed, Misled, Boundary, Fresh;
    FullBlocksInStep(m0, blocks, j);
    BlockLies(blocks, j);
  }

  // ---- Undisturbed uploads ----

  /** The last, short block, with only undisturbed block ends before it. */
  lemma LastBlockIff(v: View, m0: bytes, g: bytes, block: bytes, f: bytes, n: nat)
    requires |block| < BLOCK_SIZE && |g| == BLOCK_SIZE * n && |m0| >= 2 * BLOCK_SIZE && f == g + block
    requires InStep(v, m0, g) && v.written == Boundary(f, n) && !Torn(m0, f, n) && !Misled(m0, f, n)
    ensures var r := WriteBlock(v, true, block);
      r.mem != [] && r.buffered <= r.written + |r.mem| && (Flush(r).out == Normalize(f) <==> !EndHazard(m0, f))
  {
    if BlockSafe(m0, g, v.written, block) {
      LastBlockSafe(v, m0, g, block, f, n);
    } else {
      LastBlockMisled(v, m0, g, block, f, n);
    }
  }

  lemma LastBlockSafe(v: View, m0: bytes, g: bytes, block: bytes, f: bytes, n: nat)
    requires |block| < BLOCK_SIZE && |g| == BLOCK_SIZE * n && |m0| >= 2 * BLOCK_SIZE && f == g + block
    requires InStep(v, m0, g) && v.written == Boundary(f, n) && !Torn(m0, f, n) && !Misled(m0, f, n)
    requires BlockSafe(m0, g, v.written, block)
    ensures var r := WriteBlock(v, true, block);
      r.mem != [] && r.buffered <= r.written + |r.mem| && (Flush(r).out == Normalize(f) <==> !EndHazard(m0, f))
  {
    hide Holds, Converted, WriteBlock, Normalize, Straddles, Flush, Stale;
    InStepFits(v, m0, g);
    SafeBlockKeepsStep(v, m0, g, block);
    var r := WriteBlock(v, true, block);
    InStepFits(r, m0, f);
    FlushIff(r, m0, f);
    HazardAtEndIff(m0, g, block, f, n, v.written, r.written);
  }

  lemma InStepFits(v: View, m0: bytes, f: bytes)
    requires InStep(v, m0, f)
    ensures |v.mem| == |m0| > 0 && v.buffered <= v.written + |v.mem|
  {
  }

  lemma HazardAtEndIff(m0: bytes, g: bytes, block: bytes, f: bytes, n: nat, before: nat, written: nat)
    requires |block| < BLOCK_SIZE && |g| == BLOCK_SIZE * n && m0 != [] && f == g + block
    requires before == Boundary(f, n) && !Misled(m0, f, n) && BlockSafe(m0, g, before, block)
    requires var limit := Budget(before, block); written == if limit == 0 then before else PastPair(f, before + limit)
    ensures Hazard(m0, f, written, |f| - written) <==> EndHazard(m0, f)
  {
    hide Straddles, Stale;
    assert Straddles(f, 0) == 0 by { StraddlesStart(f); }
    assert f[..|g|] == g;
    if n > 0 && block == [] {
      assert f == f[..BLOCK_SIZE * n];
    }
  }

  lemma StraddlesStart(f: bytes)
    ensures Straddles(f, 0) == 0
  {
  }

  lemma LastBlockMisled(v: View, m0: bytes, g: bytes, block: bytes, f: bytes, n: nat)
    requires |block| < BLOCK_SIZE && |g| == BLOCK_SIZE * n && |m0| >= 2 * BLOCK_SIZE && f == g + block
    requires InStep(v, m0, g) && v.written == Boundary(f, n) && !Torn(m0, f, n) && !Misled(m0, f, n)
    requires !BlockSafe(m0, g, v.written, block)
    ensures var r := WriteBlock(v, true, block);
      && r.mem != [] && r.buffered <= r.written + |r.mem|
      && EndHazard(m0, f) && Flush(r).out != Normalize(f)
  {
    hide Holds, Converted, Normalize, Straddles, Stale, BufferOut;
    assert f[..|g|] == g;
    assert block != [] ==> f[|g|] == block[0] && f[|f| - 1] == block[|block| - 1];
    hide WriteBlock;
    MisledOutput(v, m0, g, block);
    Buffers(v, m0, g, block);
  }

  lemma Buffers(v: View, m0: bytes, g: bytes, block: bytes)
    requires InStep(v, m0, g) && |block| <= |m0|
    ensures var r := WriteBlock(v, true, block); r.mem != [] && r.buffered == |g| + |block|
  {
  }

  /** Without a disturbed block end the file written is the conversion of the file sent, except exactly
      when the file ends in a CR that a stale line feed follows. */
  lemma UndisturbedIff(m0: bytes, blocks: seq<bytes>)
    requires UploadShape(blocks) && |m0| >= 2 * BLOCK_SIZE
    requires forall j :: 0 < j < |blocks| ==> !Disturbed(m0, Flatten(blocks), j)
    ensures Written(m0, blocks) == Normalize(Flatten(blocks)) <==> !EndHazard(m0, Flatten(blocks))
  {
    hide InStep, WriteBlock, After, Flush, Normalize, EndHazard, Disturbed, Misled, Torn, Flatten, Boundary;
    var n := |blocks| - 1;
    EndUndisturbed(m0, blocks);
    InStepAfter(m0, blocks, n);
    BlockLies(blocks, n);
    AfterNext(m0, blocks, n);
    hide UploadShape;
    LastBlockIff(After(m0, blocks, n), m0, Flatten(blocks)[..BLOCK_SIZE * n], blocks[n], Flatten(blocks), n);
  }

  lemma EndUndisturbed(m0: bytes, blocks: seq<bytes>)
    requires UploadShape(blocks) && m0 != []
    requires forall j :: 0 < j < |blocks| ==> !Disturbed(m0, Flatten(blocks), j)
    ensures !Misled(m0, Flatten(blocks), |blocks| - 1) && !Torn(m0, Flatten(blocks), |blocks| - 1)
  {
    assert |blocks| > 1 ==> !Disturbed(m0, Flatten(blocks), |blocks| - 1);
  }

  // ---- Output only grows ----

  /** Every byte passed puts out at least one byte. */
  lemma {:induction false} ScanEmits(mem: bytes, buffered: nat, cursor: nat, processed: nat, limit: nat)
    requires processed < limit ==> cursor + (limit - processed) < 2 * |mem|
    ensures var r := Scan(mem, buffered, cursor, processed, limit); |r.0| >= r.1 - cursor
    decreases limit - processed
  {
    if processed < limit {
      var u := if At(mem, cursor) == CR && processed + 1 < buffered && At(mem, cursor + 1) == LF then 2 else 1;
      ScanEmits(mem, buffered, cursor + u, processed + u, limit);
    }
  }

  /** From v on to r the output has only grown, by at least one byte for every byte passed. */
  predicate Grows(v: View, r: View)
  {
    v.out <= r.out && v.written <= r.written && |r.out| - |v.out| >= r.written - v.written
  }

  lemma BufferOutGrows(v: View, limit: nat)
    requires limit <= |v.mem| && v.mem != []
    ensures Grows(v, BufferOut(v, limit)) && BufferOut(v, limit).written >= v.written + limit
  {
    ScanEmits(v.mem, v.buffered, v.written % |v.mem|, 0, limit);
    hide Scan;
  }

  lemma BlockGrows(v: View, block: bytes)
    requires |block| <= |v.mem| && v.mem != []
    ensures Grows(v, WriteBlock(v, true, block))
    ensures v.written > 0 ==> WriteBlock(v, true, block).written >= v.written + |block|
  {
    BufferOutGrows(BufferBlock(v, block), if v.written == 0 then |block| / 2 else |block|);
    hide BufferOut;
  }

  lemma FlushGrows(v: View)
    requires v.buffered <= v.written + |v.mem| && v.mem != []
    ensures Grows(v, Flush(v))
  {
    if v.buffered > v.written {
      BufferOutGrows(v, v.buffered - v.written);
    }
    hide BufferOut;
  }

  /** The bytes of blocks k to n. */
  lemma {:induction false} LaterBlocksGrow(v: View, blocks: seq<bytes>, k: nat, n: nat)
    requires k <= n <= |blocks| && v.mem != [] && forall i :: 0 <= i < |blocks| ==> |blocks[i]| <= |v.mem|
    ensures var early, late := WriteBlocks(v, true, blocks[..k]), WriteBlocks(v, true, blocks[..n]);
      && Grows(early, late)
      && (early.written > 0 ==> late.written >= early.written + |Flatten(blocks[k..n])|)
    decreases n
  {
    hide WriteBlock, Grows;
    if k < n {
      LaterBlocksGrow(v, blocks, k, n - 1);
      WriteBlocksStep(v, true, blocks, n);
      assert blocks[k..n][..n - 1 - k] == blocks[k..n - 1];
      hide WriteBlocks;
      BlockGrows(WriteBlocks(v, true, blocks[..n - 1]), blocks[n - 1]);
      var early, before := WriteBlocks(v, true, blocks[..k]), WriteBlocks(v, true, blocks[..n - 1]);
      OneMoreGrows(early, before, WriteBlocks(v, true, blocks[..n]));
    } else {
      GrowsItself(WriteBlocks(v, true, blocks[..k]));
      assert blocks[k..n] == [];
    }
  }

  lemma GrowsItself(v: View)
    ensures Grows(v, v)
  {
  }

  lemma OneMoreGrows(u: View, v: View, w: View)
    requires Grows(u, v) && Grows(v, w)
    ensures Grows(u, w) && v.written >= u.written
  {
  }

  /** What the writer has put out after k blocks stays at the front of the file. */
  lemma WrittenGrows(m0: bytes, blocks: seq<bytes>, k: nat)
    requires UploadShape(blocks) && |m0| >= 2 * BLOCK_SIZE && k <= |blocks|
    ensures var v := After(m0, blocks, k);
      && v.out <= Written(m0, blocks)
      && (v.written > 0 ==> |Written(m0, blocks)| >= |v.out| + |Flatten(blocks[k..])|)
  {
    hide WriteBlocks, Flush;
    var n := |blocks|;
    assert blocks[..n] == blocks && blocks[k..n] == blocks[k..];
    UploadFlushes(m0, blocks);
    LaterBlocksGrow(Fresh(m0), blocks, k, n);
    FlushGrows(After(m0, blocks, n));
  }

  // ---- Disturbed uploads ----

  /** At the first disturbance the writer has caught up one block before. */
  lemma ExposedSince(f: bytes, j: nat)
    requires Exposed(f, j)
    ensures j > 1 && Straddles(f, j - 1) == LOOK_AHEAD
  {
    assert Straddles(f, 0) == 0;
  }

  /** The block end after j full blocks is the first disturbed one. */
  predicate FirstDisturbed(m0: bytes, f: bytes, j: nat)
    requires m0 != []
  {
    Disturbed(m0, f, j) && forall i :: 0 < i < j ==> !Disturbed(m0, f, i)
  }

  lemma NotMisledBefore(m0: bytes, f: bytes, j: nat)
    requires m0 != [] && FirstDisturbed(m0, f, j)
    ensures j > 1 && !Misled(m0, f, j - 1) && !Torn(m0, f, j - 1)
    ensures Straddles(f, j - 1) == LOOK_AHEAD && Boundary(f, j - 1) == BLOCK_SIZE * (j - 1)
  {
    ExposedSince(f, j);
    assert !Disturbed(m0, f, j - 1);
  }

  lemma FirstMeansNoneBefore(m0: bytes, f: bytes, j: nat)
    requires m0 != [] && FirstDisturbed(m0, f, j)
    ensures forall i :: 0 < i < j ==> !Disturbed(m0, f, i)
  {
  }

  /** A misled end puts one line feed too many behind the conversion of what was sent so far. */
  lemma MisledFirst(m0: bytes, blocks: seq<bytes>, j: nat)
    requires UploadShape(blocks) && |m0| >= 2 * BLOCK_SIZE && 0 < j < |blocks|
    requires FirstDisturbed(m0, Flatten(blocks), j) && Misled(m0, Flatten(blocks), j)
    ensures BLOCK_SIZE * j <= |Flatten(blocks)|
    ensures var v := After(m0, blocks, j);
      v.written == BLOCK_SIZE * j + 1 && v.out == Normalize(Flatten(blocks)[..BLOCK_SIZE * j]) + [LF]
  {
    hide InStep, WriteBlock, After, Flatten, Misled, FirstDisturbed, Normalize;
    BlockLies(blocks, j - 1);
    BeforeMisled(m0, blocks, j);
    AfterNext(m0, blocks, j - 1);
    hide UploadShape;
    var f, at := Flatten(blocks), BLOCK_SIZE * (j - 1);
    MisledBlock(After(m0, blocks, j - 1), m0, f[..at], blocks[j - 1], f, j);
  }

  lemma BeforeMisled(m0: bytes, blocks: seq<bytes>, j: nat)
    requires UploadShape(blocks) && |m0| >= 2 * BLOCK_SIZE && 0 < j < |blocks| && FirstDisturbed(m0, Flatten(blocks), j)
    ensures BLOCK_SIZE * (j - 1) <= |Flatten(blocks)|
    ensures var f, v := Flatten(blocks), After(m0, blocks, j - 1);
      InStep(v, m0, f[..BLOCK_SIZE * (j - 1)]) && v.written == BLOCK_SIZE * (j - 1)
  {
    hide InStep, After, Flatten, Misled, Disturbed, FirstDisturbed, Straddles, Boundary, UploadShape;
    NotMisledBefore(m0, Flatten(blocks), j);
    FirstMeansNoneBefore(m0, Flatten(blocks), j);
    InStepAfter(m0, blocks, j - 1);
  }

  lemma MisledBlock(v: View, m0: bytes, g: bytes, block: bytes, f: bytes, j: nat)
    requires j > 0 && |block| == BLOCK_SIZE && |g| == BLOCK_SIZE * (j - 1) && |m0| >= 2 * BLOCK_SIZE
    requires |f| >= BLOCK_SIZE * j && g + block == f[..BLOCK_SIZE * j]
    requires InStep(v, m0, g) && v.written == BLOCK_SIZE * (j - 1)
    requires Misled(m0, f, j) && FirstDisturbed(m0, f, j)
    ensures var r := WriteBlock(v, true, block);
      r.written == BLOCK_SIZE * j + 1 && r.out == Normalize(g + block) + [LF]
  {
    hide Normalize, Straddles, Stale, WriteBlock, InStep, FirstDisturbed;
    NotMisledBefore(m0, f, j);
    assert (g + block)[|g|] == block[0] == f[BLOCK_SIZE * (j - 1)];
    assert g == (g + block)[..|g|] == f[..BLOCK_SIZE * (j - 1)];
    assert g[|g| - 1] == f[BLOCK_SIZE * (j - 1) - 1];
    assert (g + block)[BLOCK_SIZE * j - 1] == f[BLOCK_SIZE * j - 1];
    MisledOutput(v, m0, g, block);
  }

  /** A torn end puts a CR where the conversion has the line feed of the pair. */
  lemma TornFirst(m0: bytes, blocks: seq<bytes>, j: nat)
    requires UploadShape(blocks) && |m0| >= 2 * BLOCK_SIZE && 0 < j < |blocks|
    requires FirstDisturbed(m0, Flatten(blocks), j) && Torn(m0, Flatten(blocks), j)
    ensures BLOCK_SIZE * j <= |Flatten(blocks)|
    ensures Normalize(Flatten(blocks)[..BLOCK_SIZE * j]) + [CR] <= After(m0, blocks, j + 1).out
  {
    hide InStep, WriteBlock, After, Flatten, Misled, Disturbed, Torn, FirstDisturbed, Normalize, Boundary;
    var f := Flatten(blocks);
    TornIsNotMisled(m0, f, j);
    FirstMeansNoneBefore(m0, f, j);
    BlockLies(blocks, j);
    InStepAfter(m0, blocks, j);
    AfterNext(m0, blocks, j);
    hide UploadShape;
    NextByte(f, blocks[j], BLOCK_SIZE * j);
    TornBlock(After(m0, blocks, j), m0, f[..BLOCK_SIZE * j], blocks[j]);
  }

  lemma TornIsNotMisled(m0: bytes, f: bytes, j: nat)
    requires m0 != [] && Torn(m0, f, j)
    ensures !Misled(m0, f, j) && 0 < j && BLOCK_SIZE * j < |f| && f[BLOCK_SIZE * j] == LF
    ensures Boundary(f, j) == BLOCK_SIZE * j
  {
  }

  /** The byte behind the first at bytes is the first of the next block. */
  lemma NextByte(f: bytes, block: bytes, at: nat)
    requires at < |f| && at + |block| <= |f| && f[..at] + block == f[..at + |block|]
    requires |block| == BLOCK_SIZE || f == f[..at] + block
    ensures block != [] && block[0] == f[at]
  {
    assert (f[..at] + block)[at] == block[0];
  }

  lemma TornBlock(v: View, m0: bytes, g: bytes, block: bytes)
    requires InStep(v, m0, g) && v.written == |g| > 0 && 0 < |block| <= |m0| && block[0] == LF
    ensures Normalize(g) + [CR] <= WriteBlock(v, true, block).out
  {
    hide Normalize, Holds, WriteBlock, Stale, PastPair;
    InStepFits(v, m0, g);
    var f, r := g + block, WriteBlock(v, true, block);
    assert v.out == Normalize(g) by { assert g[..|g|] == g; }
    hide Converted;
    if Hazard(m0, f, v.written, |block|) {
      BlockMisled(v, m0, g, block);
      GoesOnWith(v.out, r.out, f[|g|..] + [LF]);
    } else {
      BlockPasses(v, m0, g, block);
      PastPairBounds(f, v.written + |block|);
      GoesOnWith(v.out, r.out, f[|g|..r.written]);
    }
  }

  lemma GoesOnWith(before: bytes, after: bytes, s: bytes)
    requires s != [] && s[0] == LF && after == before + Normalize(s)
    ensures before + [CR] <= after
  {
    hide Normalize;
    LineFeedFirst(s);
  }

  lemma PastPairBounds(g: bytes, x: nat)
    requires x <= |g|
    ensures x <= PastPair(g, x) <= |g|
  {
  }

  lemma LineFeedFirst(s: bytes)
    requires s != [] && s[0] == LF
    ensures [CR] <= Normalize(s)
  {
    hide Normalize;
    NormalizeUnit(s);
  }

  // ---- Why that is never repaired ----

  /** No conversion begins with a line feed. */
  lemma NeverLineFeedFirst(s: bytes)
    ensures Normalize(s) != [] ==> Normalize(s)[0] != LF
  {
    hide Normalize;
    NormalizeUnit(s);
  }

  /** The conversion across a pair has the line feed right behind the conversion of the first part. */
  lemma LineFeedBehind(a: bytes, b: bytes)
    requires a != [] && a[|a| - 1] == CR && b != [] && b[0] == LF
    ensures Normalize(a) + [LF] <= Normalize(a + b)
  {
    hide Normalize;
    var b' := b[1..];
    NormalizeEndsInCr(a);
    assert a + b == (a + [LF]) + b';
    NormalizeCut(a + [LF], b');
  }

  lemma PrefixesDiffer(a: bytes, x: byte, y: byte, s: bytes, t: bytes)
    requires a + [x] <= s && a + [y] <= t && x != y
    ensures s != t
  {
    assert s[|a|] == (a + [x])[|a|] && t[|a|] == (a + [y])[|a|];
  }

  lemma MisledIsWrong(a: bytes, b: bytes, out: bytes)
    requires CleanCut(a, b) && Normalize(a) + [LF] <= out
    ensures out != Normalize(a + b)
  {
    hide Normalize;
    NormalizeCut(a, b);
    NeverLineFeedFirst(b);
    assert Normalize(b) != [] ==> (Normalize(a) + Normalize(b))[|Normalize(a)|] == Normalize(b)[0];
    assert (Normalize(a) + [LF])[|Normalize(a)|] == LF;
  }

  /** A disturbed block end makes the file wrong, whatever follows, except where a misled one happens to
      have read what the file goes on with. */
  lemma FirstDisturbedIsWrong(m0: bytes, blocks: seq<bytes>, j: nat)
    requires UploadShape(blocks) && |m0| >= 2 * BLOCK_SIZE && 0 < j < |blocks|
    requires FirstDisturbed(m0, Flatten(blocks), j)
    requires Misled(m0, Flatten(blocks), j) ==> !GoesOnWithLineFeed(Flatten(blocks), j)
    ensures Written(m0, blocks) != Normalize(Flatten(blocks))
  {
    hide After, Normalize, Straddles, Stale, Written, UploadShape, Flatten;
    var f, at := Flatten(blocks), BLOCK_SIZE * j;
    var a, b := f[..at], f[at..];
    assert f == a + b && a[|a| - 1] == CR && (b != [] ==> b[0] == f[at]);
    if Misled(m0, f, j) {
      MisledFirst(m0, blocks, j);
      WrittenGrows(m0, blocks, j);
      hide FirstDisturbed;
      MisledIsWrong(a, b, Written(m0, blocks));
    } else {
      TornFirst(m0, blocks, j);
      WrittenGrows(m0, blocks, j + 1);
      hide FirstDisturbed;
      LineFeedBehind(a, b);
      PrefixesDiffer(Normalize(a), CR, LF, Written(m0, blocks), Normalize(f));
    }
  }

  lemma NativePartLength(a: bytes, b: bytes)
    requires b != [] && b[0] == CR && NativeLineEnds(b)
    ensures |Normalize(a + b)| == |Normalize(a + [CR])| - 1 + |b|
  {
    hide Normalize, NativeLineEnds;
    NormalizeCut(a, b);
    NormalizeFixpoint(b);
    NormalizeCut(a, [CR]);
    LineEndNormals();
  }

  /** If the line ends of the file are native from there on, also in that case: the output is too long. */
  lemma MisledNativeIsWrong(m0: bytes, blocks: seq<bytes>, j: nat)
    requires UploadShape(blocks) && |m0| >= 2 * BLOCK_SIZE && 0 < j < |blocks|
    requires FirstDisturbed(m0, Flatten(blocks), j) && Misled(m0, Flatten(blocks), j)
    requires BLOCK_SIZE * j <= |Flatten(blocks)| && NativeLineEnds(Flatten(blocks)[BLOCK_SIZE * j - 1..])
    ensures Written(m0, blocks) != Normalize(Flatten(blocks))
  {
    hide After, Normalize, Written, NativeLineEnds, FirstDisturbed, UploadShape, Flatten, Stale, Straddles;
    var f, x := Flatten(blocks), BLOCK_SIZE * j - 1;
    assert f[x] == CR;
    hide Misled;
    MisledFirst(m0, blocks, j);
    WrittenGrows(m0, blocks, j);
    BlockLies(blocks, j);
    assert f[..x + 1] == f[..x] + [CR] && f == f[..x] + f[x..];
    NativePartLength(f[..x], f[x..]);
  }

  // ---- Main results ----

  /** The first disturbed block end, if there is one before block n. */
  lemma {:induction false} FindFirst(m0: bytes, f: bytes, n: nat) returns (j: nat)
    requires m0 != []
    ensures j <= n
    ensures 0 < j < n ==> FirstDisturbed(m0, f, j)
    ensures j == 0 || j == n ==> forall i :: 0 < i < n ==> !Disturbed(m0, f, i)
  {
    hide Disturbed;
    if n == 0 {
      j := 0;
    } else {
      var k := FindFirst(m0, f, n - 1);
      j := if 0 < k < n - 1 then k else if n - 1 > 0 && Disturbed(m0, f, n - 1) then n - 1 else n;
    }
  }

  /** The first disturbed block end is misled, the file happens to go on with the line feed that was read
      there, and further on has a line feed without a CR; the writer is then one byte ahead of the file. */
  predicate AheadFirst(m0: bytes, f: bytes, n: nat)
    requires m0 != []
  {
    exists j :: 0 < j < n && FirstDisturbed(m0, f, j) && Misled(m0, f, j)
      && GoesOnWithLineFeed(f, j) && !NativeLineEnds(f[BLOCK_SIZE * j - 1..])
  }

  /** For every netascii upload that does not get the writer ahead of a file that is not native from there
      on, whatever its length and the earlier contents of the ring: the file written is the conversion of
      the file sent if and only if no block end is disturbed and the file does not end in a CR before a
      stale line feed. */
  lemma WholeFileIff(m0: bytes, blocks: seq<bytes>)
    requires UploadShape(blocks) && |m0| >= 2 * BLOCK_SIZE
    requires !AheadFirst(m0, Flatten(blocks), |blocks|)
    ensures Written(m0, blocks) == Normalize(Flatten(blocks)) <==>
      (forall j :: 0 < j < |blocks| ==> !Disturbed(m0, Flatten(blocks), j)) && !EndHazard(m0, Flatten(blocks))
  {
    var f := Flatten(blocks);
    hide Flatten, Written, Normalize, NativeLineEnds, Torn, UploadShape, EndHazard, Stale, Straddles;
    var j := FindFirst(m0, f, |blocks|);
    if 0 < j < |blocks| {
      if Misled(m0, f, j) && GoesOnWithLineFeed(f, j) {
        MisledNativeIsWrong(m0, blocks, j);
      } else {
        FirstDisturbedIsWrong(m0, blocks, j);
      }
    } else {
      UndisturbedIff(m0, blocks);
    }
  }

  /** In particular for every file whose line ends are native already. */
  lemma NativeFileIff(m0: bytes, blocks: seq<bytes>)
    requires UploadShape(blocks) && |m0| >= 2 * BLOCK_SIZE && NativeLineEnds(Flatten(blocks))
    ensures Written(m0, blocks) == Flatten(blocks) <==>
      (forall j :: 0 < j < |blocks| ==> !Disturbed(m0, Flatten(blocks), j)) && !EndHazard(m0, Flatten(blocks))
  {
    var f := Flatten(blocks);
    hide Flatten, Written, Normalize, Torn, UploadShape, EndHazard, Stale, Straddles, FirstDisturbed;
    forall j | 0 < j < |blocks| && Misled(m0, f, j) ensures NativeLineEnds(f[BLOCK_SIZE * j - 1..]) {
      NativeFrom(f, BLOCK_SIZE * j - 1);
    }
    NormalizeFixpoint(f);
    WholeFileIff(m0, blocks);
  }

  lemma NativeFrom(f: bytes, x: nat)
    requires NativeLineEnds(f) && x < |f| && f[x] == CR
    ensures NativeLineEnds(f[x..])
  {
    assert forall i :: 0 <= i < |f[x..]| ==> f[x..][i] == f[x + i];
  }

  lemma CaughtUpOnly(m0: bytes, f: bytes, n: nat, j: nat)
    requires m0 != [] && j <= n && Straddles(f, n) < LOOK_AHEAD
    ensures !Disturbed(m0, f, j)
  {
    StraddlesGrow(f, j, n);
  }

  /** Uploads with at most 255 straddling pairs have no disturbed block end. */
  lemma ConversionIff(m0: bytes, blocks: seq<bytes>)
    requires UploadShape(blocks) && |m0| >= 2 * BLOCK_SIZE
    requires Straddles(Flatten(blocks), |blocks| - 1) <= 255
    ensures Written(m0, blocks) == Normalize(Flatten(blocks)) <==> !EndHazard(m0, Flatten(blocks))
  {
    hide Written, Normalize, Disturbed, EndHazard, Straddles, Flatten, UploadShape;
    forall j | 0 < j < |blocks| ensures !Disturbed(m0, Flatten(blocks), j) {
      CaughtUpOnly(m0, Flatten(blocks), |blocks| - 1, j);
    }
    UndisturbedIff(m0, blocks);
  }

  /** Nor has any upload of at most 256 blocks; the stale cell behind its end is then still what the ring
      held before the upload. */
  lemma ShortUploadIff(m0: bytes, blocks: seq<bytes>)
    requires UploadShape(blocks) && |blocks| <= 256 && |m0| == 0x20000
    ensures var f := Flatten(blocks);
      && |f| < |m0|
      && (Written(m0, blocks) == Normalize(f) <==> !(|f| >= 2 && f[|f| - 1] == CR && m0[|f|] == LF))
  {
    BlockInFile(blocks, |blocks| - 1);
    assert blocks[..|blocks|] == blocks;
    hide Written, Normalize, Flatten;
    ConversionIff(m0, blocks);
  }

  lemma {:induction false} NoPairsNoStraddles(f: bytes, j: nat)
    requires CR !in f
    ensures Straddles(f, j) == 0
  {
    if j > 0 {
      NoPairsNoStraddles(f, j - 1);
    }
  }

  /** A file without CR is converted correctly, however long it is. */
  lemma CrFreeUpload(m0: bytes, blocks: seq<bytes>)
    requires UploadShape(blocks) && |m0| >= 2 * BLOCK_SIZE && CR !in Flatten(blocks)
    ensures Written(m0, blocks) == Normalize(Flatten(blocks))
  {
    hide Written, Normalize, Flatten;
    NoPairsNoStraddles(Flatten(blocks), |blocks| - 1);
    ConversionIff(m0, blocks);
  }

  // ---- Failing uploads ----

  /** The end hazard at its smallest: a letter and a CR, sent after an upload that left a line feed. */
  lemma StaleLineFeedAppended(m0: bytes)
    requires |m0| == 0x20000 && m0[2] == LF
    ensures Written(m0, [[97, CR]]) != Normalize([97, CR])
  {
    var blocks := [[97, CR]];
    assert Flatten(blocks) == [97, CR] by { assert blocks[..0] == [] && Flatten([]) == []; }
    hide Written, Normalize;
    ShortUploadIff(m0, blocks);
  }

  /** A CRLF pair every 513 bytes, so that one lies across every output boundary. */
  function LinesOf513(i: nat): byte
  {
    if i % 513 == 255 then CR else if i % 513 == 256 then LF else 97
  }

  /** 257 such lines end, 258 blocks: the look-ahead is used up after 256 of them. */
  function LongLines(): (f: bytes)
    ensures |f| == 131587 && forall i :: 0 <= i < |f| ==> f[i] == LinesOf513(i)
  {
    seq<byte>(131587, i requires 0 <= i < 131587 => LinesOf513(i))
  }

  lemma LineEnds(k: nat)
    requires k <= 256
    ensures PairAt(LongLines(), 513 * k + 255)
  {
    hide LongLines;
    EndOfLine(k);
    hide LinesOf513;
    var f := LongLines();
    assert f[513 * k + 255] == CR && f[513 * k + 256] == LF;
  }

  lemma EndOfLine(k: nat)
    ensures LinesOf513(513 * k + 255) == CR && LinesOf513(513 * k + 256) == LF
  {
    QuotientUnique(513 * k + 255, 513, k, 255);
    QuotientUnique(513 * k + 256, 513, k, 256);
  }

  lemma {:induction false} EveryLineStraddles(j: nat)
    requires j <= 256
    ensures Straddles(LongLines(), j) == j
  {
    hide LongLines, PairAt, LinesOf513;
    if j > 0 {
      EveryLineStraddles(j - 1);
      LineEnds(j - 1);
      assert BLOCK_SIZE * j - LOOK_AHEAD + (j - 1) - 1 == 513 * (j - 1) + 255;
    }
  }

  lemma LinesEarlyQuiet(m0: bytes, i: nat)
    requires m0 != [] && 0 < i < 257
    ensures !Disturbed(m0, LongLines(), i)
  {
    EveryLineStraddles(i);
    BoundaryInLine();
    hide LongLines, Stale, Straddles;
    if i == 256 {
      assert LongLines()[BLOCK_SIZE * i - 1] == LF;
    }
  }

  lemma BoundaryInLine()
    ensures LongLines()[131071] == LF
  {
    hide LongLines;
    assert LongLines()[131071] == LinesOf513(131071);
  }

  lemma LongLinesTorn(m0: bytes)
    requires |m0| == 0x20000
    ensures Torn(m0, LongLines(), 257)
  {
    hide LongLines;
    assert Straddles(LongLines(), 257) == LOOK_AHEAD by { EveryLineStraddles(256); }
    hide Straddles;
    assert LinesOf513(131583) == CR && LinesOf513(131584) == LF && LinesOf513(512) == 97;
    hide LinesOf513;
    TornAtBlock257(m0, LongLines());
  }

  lemma TornAtBlock257(m0: bytes, f: bytes)
    requires |m0| == 0x20000 && |f| == 131587 && Straddles(f, 257) == LOOK_AHEAD
    requires f[131583] == CR && f[131584] == LF && f[512] != LF
    ensures Torn(m0, f, 257)
  {
    hide Straddles;
    StaleWrapped(m0, f, BLOCK_SIZE * 257);
    hide Stale;
  }

  lemma StaleWrapped(m0: bytes, f: bytes, n: nat)
    requires 0 < |m0| <= n <= |f|
    ensures Stale(m0, f[..n]) == f[n - |m0|]
  {
  }

  lemma LongLinesFirst(m0: bytes)
    requires |m0| == 0x20000
    ensures FirstDisturbed(m0, LongLines(), 257) && !Misled(m0, LongLines(), 257)
  {
    hide LongLines, Torn, Misled;
    LongLinesTorn(m0);
    TornIsNotMisled(m0, LongLines(), 257);
    forall i | 0 < i < 257 ensures !Disturbed(m0, LongLines(), i) {
      LinesEarlyQuiet(m0, i);
    }
  }

  /** A pair across the end of block 257 comes out as two line ends, whatever the ring held before. */
  lemma LongLinesFail(m0: bytes)
    requires |m0| == 0x20000
    ensures UploadShape(Split(LongLines())) && Written(m0, Split(LongLines())) != Normalize(LongLines())
  {
    var f := LongLines();
    SplitShape(f);
    SplitFlatten(f);
    LongLinesFirst(m0);
    hide Written, Normalize, Misled, Straddles, LongLines, Split;
    FirstDisturbedIsWrong(m0, Split(f), 257);
  }
}
