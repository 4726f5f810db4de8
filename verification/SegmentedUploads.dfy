/** What a netascii upload leaves in every case: the conversion, pass by pass, of what the writer reads from
    the ring, be it the file, what the ring held before the upload, or bytes of one round before. */
module SegmentedUploads {
  import opened Bytes
  import opened Modular
  import opened Eol
  import opened Storage
  import opened WriterSpec
  import opened WriterRefinement
  import opened ConvertedUploads
  import opened WholeUploads
  import opened AheadUploads

  // ---- Reading the ring past the input ----

  /** What stands at position x for a reader of the ring when it has taken the bytes of f. */
  function RingByte(m0: bytes, f: bytes, x: nat): byte
    requires m0 != []
  {
    if x < |f| then f[x] else if x < |m0| then m0[x] else RingByte(m0, f, x - |m0|)
  }

  function Reread(m0: bytes, f: bytes, n: nat): (g: bytes)
    requires m0 != []
    ensures |g| == n && forall x :: 0 <= x < n ==> g[x] == RingByte(m0, f, x)
  {
    seq<byte>(n, x requires 0 <= x => RingByte(m0, f, x))
  }

  lemma {:induction false} RingCell(mem: bytes, m0: bytes, f: bytes, x: nat)
    requires RingHolds(mem, m0, f) && |f| <= x + |m0|
    ensures mem[x % |m0|] == RingByte(m0, f, x)
  {
    if x >= |f| {
      if x < |m0| {
        RingOffset(0, x, |m0|);
      } else {
        RingCell(mem, m0, f, x - |m0|);
        RingOffset(x - |m0|, |m0|, |m0|);
      }
    }
  }

  lemma ReadCell(v: View, m0: bytes, f: bytes, x: nat)
    requires Holds(v, m0, f) && |f| <= v.written + |m0| && v.written <= x <= v.written + |m0|
    ensures v.written % |m0| + (x - v.written) < 2 * |m0|
    ensures At(v.mem, v.written % |m0| + (x - v.written)) == RingByte(m0, f, x)
  {
    RingOffset(v.written, x - v.written, |m0|);
    RingCell(v.mem, m0, f, x);
  }

  /** How far a pass over limit bytes from w on looks: one byte further, unless that would make as many bytes
      as there are in all. */
  function Reach(f: bytes, w: nat, limit: nat): nat
  {
    if limit < |f| then w + limit + 1 else w + limit
  }

  /** Where such a pass stops. */
  function Stop(m0: bytes, f: bytes, w: nat, limit: nat): nat
    requires m0 != []
  {
    if limit == 0 then w else PastPair(Reread(m0, f, Reach(f, w, limit)), w + limit)
  }

  /** The bytes it reads, each taken once. */
  function Piece(m0: bytes, f: bytes, w: nat, limit: nat): bytes
    requires m0 != []
  {
    Reread(m0, f, Stop(m0, f, w, limit))[w..]
  }

  lemma PieceOfReach(m0: bytes, f: bytes, w: nat, limit: nat)
    requires m0 != [] && limit > 0
    ensures var stop := Stop(m0, f, w, limit);
      w + limit <= stop <= Reach(f, w, limit)
      && Reread(m0, f, Reach(f, w, limit))[w..stop] == Piece(m0, f, w, limit)
  {
    hide RingByte, PairAt;
  }

  /** Every pass puts out the conversion of the piece it reads. */
  lemma PassReads(v: View, m0: bytes, f: bytes, limit: nat)
    requires Holds(v, m0, f) && |f| <= v.written + |m0| && limit <= |f| && limit < |m0|
    ensures var r := BufferOut(v, limit);
      r.written == Stop(m0, f, v.written, limit) && r.out == v.out + Normalize(Piece(m0, f, v.written, limit))
  {
    hide Normalize, RingByte, PairAt;
    if limit == 0 {
      NormalizeUnit([]);
      assert Piece(m0, f, v.written, limit) == [];
      assert v.out + [] == v.out;
    } else {
      RereadSeen(v, m0, f, limit);
      PieceOfReach(m0, f, v.written, limit);
      hide BufferOut, Sees, Holds, Piece, Reach;
      PassEmits(v, limit, Reread(m0, f, Reach(f, v.written, limit)));
    }
  }

  lemma RereadSeen(v: View, m0: bytes, f: bytes, limit: nat)
    requires Holds(v, m0, f) && |f| <= v.written + |m0| && 0 < limit <= |f| && limit < |m0|
    ensures Sees(v.mem, |f|, v.written % |m0|, 0, limit, Reread(m0, f, Reach(f, v.written, limit)), v.written)
  {
    assert |v.mem| == |m0|;
    hide RingByte, RingHolds, At;
    var w, g, cursor := v.written, Reread(m0, f, Reach(f, v.written, limit)), v.written % |m0|;
    forall x | w <= x < w + limit
      ensures cursor + (x - w) + 1 < 2 * |m0| && At(v.mem, cursor + (x - w)) == g[x]
      ensures (g[x] == CR && 0 + (x - w) + 1 < |f| && At(v.mem, cursor + (x - w) + 1) == LF) <==> PairAt(g, x)
    {
      ReadCell(v, m0, f, x);
      ReadCell(v, m0, f, x + 1);
      assert cursor + (x + 1 - w) == cursor + (x - w) + 1;
    }
  }

  // ---- Whole uploads ----

  /** The bytes of the first j blocks. */
  function Given(blocks: seq<bytes>, j: nat): bytes
    requires j <= |blocks|
  {
    Flatten(blocks[..j])
  }

  /** Where the writer is after j blocks. */
  function Place(m0: bytes, blocks: seq<bytes>, j: nat): nat
    requires m0 != [] && j <= |blocks|
  {
    if j == 0 then 0
    else
      var w := Place(m0, blocks, j - 1);
      Stop(m0, Given(blocks, j), w, Budget(w, blocks[j - 1]))
  }

  /** The conversions of the pieces read for the first j blocks, one after the other. */
  function Pieces(m0: bytes, blocks: seq<bytes>, j: nat): bytes
    requires m0 != [] && j <= |blocks|
  {
    if j == 0 then []
    else
      var w := Place(m0, blocks, j - 1);
      Pieces(m0, blocks, j - 1) + Normalize(Piece(m0, Given(blocks, j), w, Budget(w, blocks[j - 1])))
  }

  /** What is read when the file is closed. */
  function LastPiece(m0: bytes, blocks: seq<bytes>): bytes
    requires m0 != []
  {
    var f, w := Given(blocks, |blocks|), Place(m0, blocks, |blocks|);
    if w < |f| then Piece(m0, f, w, |f| - w) else []
  }

  lemma NeverFarBehind(m0: bytes, blocks: seq<bytes>, j: nat)
    requires UploadShape(blocks) && |m0| >= 2 * BLOCK_SIZE && j < |blocks|
    ensures var v := After(m0, blocks, j); v.buffered <= v.written + BLOCK_SIZE / 2
  {
    FullBlocksFit(Fresh(m0), true, blocks[..j]);
  }

  lemma BlockReads(m0: bytes, blocks: seq<bytes>, j: nat)
    requires UploadShape(blocks) && |m0| >= 2 * BLOCK_SIZE && j < |blocks|
    ensures var v, r, f := After(m0, blocks, j), After(m0, blocks, j + 1), Given(blocks, j + 1);
      var limit := Budget(v.written, blocks[j]);
      r.written == Stop(m0, f, v.written, limit) && r.out == v.out + Normalize(Piece(m0, f, v.written, limit))
  {
    var v := After(m0, blocks, j);
    RingAfter(m0, blocks, j);
    NeverFarBehind(m0, blocks, j);
    AfterNext(m0, blocks, j);
    FlattenNext(blocks, j);
    hide UploadShape, After, Flatten, RingHolds, Stored, Normalize, Piece, Stop, BufferOut;
    BufferKeepsRing(v, m0, Flatten(blocks[..j]), blocks[j]);
    PassReads(BufferBlock(v, blocks[j]), m0, Flatten(blocks[..j]) + blocks[j], Budget(v.written, blocks[j]));
  }

  lemma {:induction false} OutputAfter(m0: bytes, blocks: seq<bytes>, j: nat)
    requires UploadShape(blocks) && |m0| >= 2 * BLOCK_SIZE && j <= |blocks|
    ensures var v := After(m0, blocks, j); v.written == Place(m0, blocks, j) && v.out == Pieces(m0, blocks, j)
  {
    if j == 0 {
      assert blocks[..0] == [];
      FreshInStep(m0);
    } else {
      OutputAfter(m0, blocks, j - 1);
      hide UploadShape, After, Normalize, Piece, Stop, Given;
      BlockReads(m0, blocks, j - 1);
    }
  }

  lemma FlushReads(v: View, m0: bytes, f: bytes)
    requires Holds(v, m0, f) && |f| < v.written + |m0|
    ensures Flush(v).out
      == v.out + Normalize(if v.written < |f| then Piece(m0, f, v.written, |f| - v.written) else [])
  {
    hide BufferOut, Normalize, Piece, RingHolds, Stop;
    if v.written < |f| {
      PassReads(v, m0, f, |f| - v.written);
    } else {
      NormalizeUnit([]);
      assert v.out + [] == v.out;
    }
  }

  /** What any netascii upload leaves, disturbed or not: the conversions of the pieces the writer has read, up
      to the last block and when it closes the file. */
  lemma ExactOutput(m0: bytes, blocks: seq<bytes>)
    requires UploadShape(blocks) && |m0| >= 2 * BLOCK_SIZE
    ensures Written(m0, blocks) == Pieces(m0, blocks, |blocks|) + Normalize(LastPiece(m0, blocks))
  {
    hide UploadShape, After, Normalize, Piece, Stop, Flatten, RingHolds, Pieces, Place, Flush;
    OutputAfter(m0, blocks, |blocks|);
    RingAfter(m0, blocks, |blocks|);
    UploadFlushes(m0, blocks);
    EndsNear(m0, blocks);
    FlushReads(After(m0, blocks, |blocks|), m0, Given(blocks, |blocks|));
  }

  lemma EndsNear(m0: bytes, blocks: seq<bytes>)
    requires UploadShape(blocks) && |m0| >= 2 * BLOCK_SIZE
    ensures var v := After(m0, blocks, |blocks|); v.buffered <= v.written + 2 * BLOCK_SIZE - 1
  {
    var n := |blocks| - 1;
    NeverFarBehind(m0, blocks, n);
    AfterNext(m0, blocks, n);
    hide After;
    BlockGrows(After(m0, blocks, n), blocks[n]);
  }

  // ---- Writers that get ahead and stay there ----

  /** The ring cell behind the first at bytes holds what the file goes on with, and that is no CR. */
  predicate RightAt(m0: bytes, f: bytes, at: nat)
    requires m0 != []
  {
    at < |f| && f[at] != CR && f[at] == Stale(m0, f[..at])
  }

  /** So it is behind the end of every block after the first j. */
  ghost predicate ReadsOnRightly(m0: bytes, f: bytes, j: nat)
    requires m0 != []
  {
    forall k :: j < k && BLOCK_SIZE * k < |f| ==> RightAt(m0, f, BLOCK_SIZE * k)
  }

  /** The writer has read one byte more than it was given, and rightly. */
  ghost predicate OneAhead(v: View, f: bytes, at: nat)
  {
    at < |f| && v.written == at + 1 && v.out == Normalize(f[..at + 1]) && f[at] != CR
  }

  lemma StaleIsRead(m0: bytes, f: bytes)
    requires m0 != []
    ensures RingByte(m0, f, |f|) == Stale(m0, f)
  {
    if |f| >= |m0| {
      assert RingByte(m0, f, |f| - |m0|) == f[|f| - |m0|];
    }
  }

  lemma FirstMisledIsAhead(m0: bytes, blocks: seq<bytes>, j: nat)
    requires UploadShape(blocks) && |m0| >= 2 * BLOCK_SIZE && 0 < j < |blocks|
    requires FirstDisturbed(m0, Flatten(blocks), j) && Misled(m0, Flatten(blocks), j)
    requires GoesOnWithLineFeed(Flatten(blocks), j)
    ensures OneAhead(After(m0, blocks, j), Flatten(blocks), BLOCK_SIZE * j)
  {
    hide After, Flatten, FirstDisturbed, UploadShape, Normalize, Stale, Straddles;
    var f, at := Flatten(blocks), BLOCK_SIZE * j;
    MisledFirst(m0, blocks, j);
    assert f[..at + 1] == f[..at] + [LF] && f[..at][at - 1] == CR;
    NormalizeEndsInCr(f[..at]);
  }

  /** A block read by a writer that is ahead: all the rest of it, and at least one byte that was not given. */
  lemma ReadsOn(v: View, f: bytes, at: nat, m0: bytes, g: bytes, size: nat)
    requires OneAhead(v, f, at) && m0 != [] && at > 0 && 0 < size && at + size <= |f| && g == f[..at + size]
    ensures var stop := Stop(m0, g, at + 1, size);
      && stop > |g| && v.out + Normalize(Piece(m0, g, at + 1, size)) == Normalize(Reread(m0, g, stop))
      && Reread(m0, g, stop)[..|g|] == g && Reread(m0, g, stop)[|g|] == Stale(m0, g)
      && (Stale(m0, g) != CR ==> stop == |g| + 1)
  {
    hide Normalize, Stale;
    StaleIsRead(m0, g);
    PieceOfReach(m0, g, at + 1, size);
    var stop := Stop(m0, g, at + 1, size);
    var r := Reread(m0, g, stop);
    assert Reread(m0, g, Reach(g, at + 1, size))[|g|] == Stale(m0, g);
    hide RingByte;
    assert r[..at + 1] == f[..at + 1] && r == r[..at + 1] + r[at + 1..];
    NormalizeCut(r[..at + 1], r[at + 1..]);
  }

  /** The next block of such a writer. */
  lemma AheadReads(m0: bytes, blocks: seq<bytes>, k: nat, end: nat)
    requires UploadShape(blocks) && |m0| >= 2 * BLOCK_SIZE && 0 < k < |blocks| && blocks[k] != []
    requires OneAhead(After(m0, blocks, k), Flatten(blocks), BLOCK_SIZE * k)
    requires end == BLOCK_SIZE * k + |blocks[k]|
    ensures end <= |Flatten(blocks)|
    ensures var g, r := Flatten(blocks)[..end], After(m0, blocks, k + 1);
      && r.written > |g| && r.out == Normalize(Reread(m0, g, r.written))
      && Reread(m0, g, r.written)[..|g|] == g && Reread(m0, g, r.written)[|g|] == Stale(m0, g)
      && (Stale(m0, g) != CR ==> r.written == |g| + 1)
  {
    hide UploadShape, After, Flatten, Normalize, Piece, Stop, Stale, OneAhead;
    var f, at, v := Flatten(blocks), BLOCK_SIZE * k, After(m0, blocks, k);
    assert v.written == at + 1 by { AheadWritten(v, f, at); }
    BlockReads(m0, blocks, k);
    BlockInFile(blocks, k);
    ReadsOn(v, f, at, m0, f[..end], |blocks[k]|);
  }

  lemma AheadWritten(v: View, f: bytes, at: nat)
    requires OneAhead(v, f, at)
    ensures v.written == at + 1
  {
  }

  lemma StaysAhead(m0: bytes, blocks: seq<bytes>, k: nat, next: nat)
    requires UploadShape(blocks) && |m0| >= 2 * BLOCK_SIZE && 0 < k < |blocks| - 1
    requires OneAhead(After(m0, blocks, k), Flatten(blocks), BLOCK_SIZE * k)
    requires next == BLOCK_SIZE * (k + 1) && RightAt(m0, Flatten(blocks), next)
    ensures OneAhead(After(m0, blocks, k + 1), Flatten(blocks), next)
  {
    assert |blocks[k]| == BLOCK_SIZE && BLOCK_SIZE * k + BLOCK_SIZE == next;
    hide UploadShape, After, Flatten, Normalize, Stale, Reread, OneAhead, RingByte;
    AheadReads(m0, blocks, k, next);
    AheadAgain(After(m0, blocks, k + 1), m0, Flatten(blocks), next);
  }

  lemma AheadAgain(r: View, m0: bytes, f: bytes, next: nat)
    requires m0 != [] && RightAt(m0, f, next)
    requires r.written == next + 1 && r.out == Normalize(Reread(m0, f[..next], r.written))
    requires var g := Reread(m0, f[..next], r.written); g[..next] == f[..next] && g[next] == Stale(m0, f[..next])
    ensures OneAhead(r, f, next)
  {
    hide Normalize, Stale, Reread;
    var g := Reread(m0, f[..next], r.written);
    assert forall i :: 0 <= i < next ==> g[i] == g[..next][i] == f[..next][i] == f[i];
    assert g == f[..next + 1];
  }

  /** When the file ends, such a writer has put out more than its conversion. */
  lemma AheadAtEndIsLong(m0: bytes, blocks: seq<bytes>, k: nat)
    requires UploadShape(blocks) && |m0| >= 2 * BLOCK_SIZE && 0 < k < |blocks|
    requires OneAhead(After(m0, blocks, k), Flatten(blocks), BLOCK_SIZE * k)
    requires |Flatten(blocks)| == BLOCK_SIZE * k + |blocks[k]|
    ensures |Written(m0, blocks)| > |Normalize(Flatten(blocks))|
  {
    hide UploadShape, After, Flatten, Normalize, Stale, Written, RingByte;
    var f := Flatten(blocks);
    AheadReads(m0, blocks, k, |f|);
    WrittenGrows(m0, blocks, k + 1);
    assert f[..|f|] == f;
    LongerInputLonger(f, Reread(m0, f, After(m0, blocks, k + 1).written));
  }

  lemma LongerInputLonger(a: bytes, c: bytes)
    requires |a| < |c| && c[..|a|] == a
    ensures |Normalize(a)| < |Normalize(c)|
  {
    hide Normalize;
    var b := c[|a|..];
    assert c == a + b;
    NormalizeUnit(b);
    if CleanCut(a, b) {
      NormalizeCut(a, b);
    } else {
      NormalizeDirtyCut(a, b);
    }
  }

  lemma RightThere(m0: bytes, f: bytes, j: nat, k: nat)
    requires m0 != [] && ReadsOnRightly(m0, f, j) && j < k && BLOCK_SIZE * k < |f|
    ensures RightAt(m0, f, BLOCK_SIZE * k)
  {
    hide RightAt;
  }

  lemma {:induction false} AheadUntil(m0: bytes, blocks: seq<bytes>, j: nat, k: nat)
    requires UploadShape(blocks) && |m0| >= 2 * BLOCK_SIZE && 0 < j <= k < |blocks|
    requires OneAhead(After(m0, blocks, j), Flatten(blocks), BLOCK_SIZE * j)
    requires ReadsOnRightly(m0, Flatten(blocks), j) && BLOCK_SIZE * k < |Flatten(blocks)|
    ensures OneAhead(After(m0, blocks, k), Flatten(blocks), BLOCK_SIZE * k)
  {
    hide UploadShape, After, Flatten, OneAhead, RightAt, ReadsOnRightly;
    if j < k {
      RightThere(m0, Flatten(blocks), j, k);
      AheadUntil(m0, blocks, j, k - 1);
      StaysAhead(m0, blocks, k - 1, BLOCK_SIZE * k);
    }
  }

  /** The last block with bytes in it. */
  lemma LastBytes(blocks: seq<bytes>, j: nat) returns (k: nat)
    requires UploadShape(blocks) && BLOCK_SIZE * j < |Flatten(blocks)| && j < |blocks|
    ensures j <= k < |blocks| && BLOCK_SIZE * k < |Flatten(blocks)| == BLOCK_SIZE * k + |blocks[k]|
  {
    var n := |blocks| - 1;
    BlockLies(blocks, n);
    hide Flatten;
    k := if blocks[n] == [] then n - 1 else n;
  }

  /** A writer that is misled for the first time where the file goes on with a line feed, and from there on
      reads rightly beyond every block, leaves more than the conversion of the file. */
  lemma AheadForGoodIsLong(m0: bytes, blocks: seq<bytes>, j: nat)
    requires UploadShape(blocks) && |m0| >= 2 * BLOCK_SIZE && 0 < j < |blocks|
    requires FirstDisturbed(m0, Flatten(blocks), j) && Misled(m0, Flatten(blocks), j)
    requires GoesOnWithLineFeed(Flatten(blocks), j) && ReadsOnRightly(m0, Flatten(blocks), j)
    ensures |Written(m0, blocks)| > |Normalize(Flatten(blocks))|
  {
    FirstMisledIsAhead(m0, blocks, j);
    var k := LastBytes(blocks, j);
    hide UploadShape, Flatten, After, Written, Normalize, OneAhead, ReadsOnRightly, FirstDisturbed, Misled;
    AheadUntil(m0, blocks, j, k);
    AheadAtEndIsLong(m0, blocks, k);
  }

  /** The writer gets ahead at the first disturbed block end and reads rightly beyond all later ones. */
  ghost predicate AheadForGood(m0: bytes, f: bytes, n: nat)
    requires m0 != []
  {
    exists j :: 0 < j < n && FirstDisturbed(m0, f, j) && Misled(m0, f, j)
      && GoesOnWithLineFeed(f, j) && ReadsOnRightly(m0, f, j)
  }

  /** The writer does not get ahead of the file, or it does for good, or the file is native from there on. */
  ghost predicate Settled(m0: bytes, f: bytes, n: nat)
    requires m0 != []
  {
    AheadFirst(m0, f, n) ==> AheadForGood(m0, f, n)
  }

  /** Which files come out right is settled the same way for writers that get ahead for good, as when the
      block end at which they do is the last one. */
  lemma SettledFileIff(m0: bytes, blocks: seq<bytes>)
    requires UploadShape(blocks) && |m0| >= 2 * BLOCK_SIZE
    requires Settled(m0, Flatten(blocks), |blocks|)
    ensures Written(m0, blocks) == Normalize(Flatten(blocks)) <==>
      (forall j :: 0 < j < |blocks| ==> !Disturbed(m0, Flatten(blocks), j)) && !EndHazard(m0, Flatten(blocks))
  {
    var f := Flatten(blocks);
    hide Flatten, Written, Normalize, NativeLineEnds, UploadShape, EndHazard, Misled, Torn, ReadsOnRightly;
    if AheadFirst(m0, f, |blocks|) {
      var j :| 0 < j < |blocks| && FirstDisturbed(m0, f, j) && Misled(m0, f, j)
        && GoesOnWithLineFeed(f, j) && ReadsOnRightly(m0, f, j);
      AheadForGoodIsLong(m0, blocks, j);
    } else {
      WholeFileIff(m0, blocks);
    }
  }

  /** At the last block end nothing is left to make good what was read there. */
  lemma LastEndIsForGood(m0: bytes, f: bytes, j: nat)
    requires m0 != [] && |f| <= BLOCK_SIZE * (j + 1)
    ensures ReadsOnRightly(m0, f, j)
  {
  }
}
