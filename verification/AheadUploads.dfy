/** Why netascii uploads that get the writer ahead of the file are a case of their own: a file of that kind
    whose disturbed block end is made good by later accidents. */
module AheadUploads {
  import opened Bytes
  import opened Modular
  import opened Eol
  import opened Storage
  import opened WriterSpec
  import opened WriterRefinement
  import opened ConvertedUploads
  import opened WholeUploads
  import opened Blocks

  // ---- The ring, whatever the writer made of it ----

  lemma {:induction false} RingAfter(m0: bytes, blocks: seq<bytes>, j: nat)
    requires UploadShape(blocks) && |m0| >= 2 * BLOCK_SIZE && j <= |blocks|
    ensures Holds(After(m0, blocks, j), m0, Flatten(blocks[..j]))
  {
    if j == 0 {
      assert blocks[..0] == [];
      FreshInStep(m0);
    } else {
      RingAfter(m0, blocks, j - 1);
      AfterNext(m0, blocks, j - 1);
      FlattenNext(blocks, j - 1);
      hide UploadShape, After, Flatten, Holds, Stored;
      BufferKeepsRing(After(m0, blocks, j - 1), m0, Flatten(blocks[..j - 1]), blocks[j - 1]);
      OutKeepsRing(After(m0, blocks, j - 1), m0, Flatten(blocks[..j - 1]), blocks[j - 1]);
    }
  }

  lemma OutKeepsRing(v: View, m0: bytes, f: bytes, block: bytes)
    requires |block| <= |v.mem| && v.mem != [] && Holds(BufferBlock(v, block), m0, f + block)
    ensures Holds(WriteBlock(v, true, block), m0, f + block)
  {
    hide RingHolds;
  }

  /** Beyond its input the writer reads what the ring held one round before. */
  lemma CellBeyond(v: View, m0: bytes, f: bytes, w: nat, x: nat)
    requires Holds(v, m0, f) && |m0| <= |f| <= x < w + |m0| && w <= |f|
    ensures w % |m0| + (x - w) < 2 * |m0| && At(v.mem, w % |m0| + (x - w)) == f[x - |m0|]
  {
    var i := x - |m0|;
    RingOffset(w, x - w, |m0|);
    RingOffset(i, |m0|, |m0|);
    assert v.mem[i % |m0|] == f[i];
  }

  lemma CellWithin(v: View, m0: bytes, f: bytes, w: nat, x: nat)
    requires Holds(v, m0, f) && w <= x < |f| && |f| - w <= |m0|
    ensures w % |m0| + (x - w) < 2 * |m0| && At(v.mem, w % |m0| + (x - w)) == f[x]
  {
    RingOffset(w, x - w, |m0|);
    assert v.mem[x % |m0|] == f[x];
  }

  /** The bytes of the file and those one round before its end. */
  predicate GoesOn(m0: bytes, f: bytes, g: bytes)
  {
    |m0| <= |f| <= |g| <= |f| + |m0| && f == g[..|f|] && forall x :: |f| <= x < |g| ==> g[x] == f[x - |m0|]
  }

  lemma SeesBeyond(v: View, m0: bytes, f: bytes, g: bytes, w: nat, limit: nat)
    requires Holds(v, m0, f) && GoesOn(m0, f, g) && w <= |f| < w + limit < |g| < w + |m0| && limit < |f|
    ensures Sees(v.mem, |f|, w % |m0|, 0, limit, g, w)
  {
    forall x | w <= x < |g|
      ensures w % |m0| + (x - w) < 2 * |m0| && At(v.mem, w % |m0| + (x - w)) == g[x]
    {
      if x < |f| {
        CellWithin(v, m0, f, w, x);
      } else {
        CellBeyond(v, m0, f, w, x);
      }
    }
    hide Holds, At;
    forall x | w <= x < w + limit
      ensures At(v.mem, w % |m0| + (x - w)) == g[x]
      ensures (g[x] == CR && 0 + (x - w) + 1 < |f| && At(v.mem, w % |m0| + (x - w) + 1) == LF) <==> PairAt(g, x)
    {
      assert w % |m0| + (x + 1 - w) == w % |m0| + (x - w) + 1;
    }
  }

  /** A block read to beyond the end of the input. */
  lemma BlockBeyond(v: View, m0: bytes, f: bytes, block: bytes, g: bytes)
    requires Holds(v, m0, f) && |block| <= |m0| && GoesOn(m0, f + block, g) && v.written > 0
    requires v.written <= |f + block| < v.written + |block| < |g| < v.written + |m0| && |block| < |f + block|
    ensures var r := WriteBlock(v, true, block);
      r.written == PastPair(g, v.written + |block|) && r.out == v.out + Normalize(g[v.written..r.written])
  {
    hide Normalize, GoesOn, BufferOut, PastPair;
    BufferKeepsRing(v, m0, f, block);
    SeesBeyond(BufferBlock(v, block), m0, f + block, g, v.written, |block|);
    hide Sees;
    PassEmits(BufferBlock(v, block), |block|, g);
  }

  // ---- The file ----

  /** Lines of 513 bytes, with a few line feeds put where the writer will meet them. */
  function LuckyByte(i: nat): byte
  {
    if i == 512 || i == 1025 || i == 1027 || i == 132096 || i == 132097 then LF
    else if i == 1024 || i == 1026 then CR
    else LinesOf513(i)
  }

  function LuckyFile(): (f: bytes)
    ensures |f| == 132098 && forall i :: 0 <= i < |f| ==> f[i] == LuckyByte(i)
  {
    seq<byte>(132098, i requires 0 <= i < 132098 => LuckyByte(i))
  }

  lemma LuckyLineEnds(k: nat)
    requires k <= 256
    ensures PairAt(LuckyFile(), 513 * k + 255)
  {
    hide LuckyFile;
    EndOfLine(k);
    hide LinesOf513;
    var f := LuckyFile();
    assert f[513 * k + 255] == CR && f[513 * k + 256] == LF;
  }

  lemma {:induction false} LuckyStraddles(j: nat)
    requires j <= 256
    ensures Straddles(LuckyFile(), j) == j
  {
    hide LuckyFile, PairAt, LuckyByte;
    if j > 0 {
      LuckyStraddles(j - 1);
      LuckyLineEnds(j - 1);
      assert BLOCK_SIZE * j - LOOK_AHEAD + (j - 1) - 1 == 513 * (j - 1) + 255;
    }
  }

  /** Some of its bytes. */
  lemma LuckyBytes(f: bytes)
    requires f == LuckyFile()
    ensures |f| == 132098 && f[512] == LF && f[1024] == CR && f[1025] == LF && f[1026] == CR && f[1027] == LF
    ensures f[131071] == LF && f[131583] == CR && f[131584] == LF && f[132095] == 97
    ensures f[132096] == LF && f[132097] == LF
  {
    hide LuckyFile;
    assert LinesOf513(131583) == CR && LinesOf513(131584) == LF && LinesOf513(132095) == 97;
    assert LinesOf513(131071) == LF;
  }

  lemma LuckyQuiet(m0: bytes, i: nat)
    requires m0 != [] && 0 < i < 257
    ensures !Disturbed(m0, LuckyFile(), i)
  {
    hide LuckyFile, LuckyByte, Stale;
    LuckyStraddles(i);
    hide Straddles;
    LuckyBytes(LuckyFile());
  }

  lemma LuckyIsMisled(m0: bytes)
    requires |m0| == 0x20000
    ensures FirstDisturbed(m0, LuckyFile(), 257) && Misled(m0, LuckyFile(), 257)
  {
    hide LuckyFile;
    var f := LuckyFile();
    assert Straddles(f, 257) == LOOK_AHEAD by { LuckyStraddles(256); }
    hide Straddles, LuckyByte;
    LuckyBytes(f);
    StaleWrapped(m0, f, BLOCK_SIZE * 257);
    hide Stale;
    forall i | 0 < i < 257 ensures !Disturbed(m0, f, i) {
      LuckyQuiet(m0, i);
    }
  }

  lemma LuckyGetsAhead(m0: bytes)
    requires |m0| == 0x20000
    ensures AheadFirst(m0, LuckyFile(), 259)
  {
    hide LuckyFile, LuckyByte;
    var f := LuckyFile();
    LuckyIsMisled(m0);
    LuckyBytes(f);
    hide FirstDisturbed, Misled;
    var g := f[BLOCK_SIZE * 257 - 1..];
    assert g[514] == f[132097] == LF && g[513] == f[132096] == LF;
    assert !NativeLineEnds(g);
  }

  // ---- What is written for it ----

  lemma LuckyBlocks() returns (blocks: seq<bytes>)
    ensures blocks == Split(LuckyFile()) && UploadShape(blocks) && |blocks| == 259 && Flatten(blocks) == LuckyFile()
    ensures var f := LuckyFile();
      && f[..131584] + blocks[257] == f[..132096] && |blocks[257]| == BLOCK_SIZE
      && f[..132096] + blocks[258] == f && |blocks[258]| == 2
  {
    hide LuckyByte;
    blocks := Split(LuckyFile());
    SplitShape(LuckyFile());
    SplitFlatten(LuckyFile());
    hide Split;
    BlockLies(blocks, 257);
    BlockLies(blocks, 258);
    hide UploadShape, Flatten;
  }

  lemma LuckyRing(m0: bytes, blocks: seq<bytes>, j: nat)
    requires |m0| == 0x20000 && UploadShape(blocks) && j < |blocks|
    ensures BLOCK_SIZE * j <= |Flatten(blocks)| && Holds(After(m0, blocks, j), m0, Flatten(blocks)[..BLOCK_SIZE * j])
  {
    hide UploadShape, Flatten, After, Holds;
    RingAfter(m0, blocks, j);
    BlockLies(blocks, j);
  }

  /** The first block beyond: a stale pair is read for the bare line feed that follows. */
  lemma SecondToLast(v: View, m0: bytes, f: bytes, block: bytes)
    requires |m0| == 0x20000 && f == LuckyFile() && f[..131584] + block == f[..132096] && |block| == BLOCK_SIZE
    requires Holds(v, m0, f[..131584]) && v.written == 131585
    ensures var r := WriteBlock(v, true, block);
      r.written == 132098 && r.out == v.out + Normalize(f[131585..132096] + CRLF)
  {
    hide Holds, Normalize, WriteBlock, LuckyFile, LuckyByte;
    LuckyBytes(f);
    var g := f[..132096] + CRLF;
    assert forall x :: 132096 <= x < |g| ==> g[x] == f[x - |m0|];
    assert g[..132096] == f[..132096];
    assert PairAt(g, 132096);
    BlockBeyond(v, m0, f[..131584], block, g);
    assert g[131585..132098] == f[131585..132096] + CRLF;
  }

  /** The last block: two stale bytes stand for its two line feeds, one of them read already. */
  lemma Last(v: View, m0: bytes, f: bytes, block: bytes)
    requires |m0| == 0x20000 && f == LuckyFile() && f[..132096] + block == f && |block| == 2
    requires Holds(v, m0, f[..132096]) && v.written == 132098
    ensures var r := WriteBlock(v, true, block); r.written == 132100 && r.out == v.out + CRLF
  {
    hide Holds, Normalize, WriteBlock, LuckyFile, LuckyByte;
    LuckyBytes(f);
    var g := f + [CR, LF, f[1028]];
    assert forall x :: 132098 <= x < |g| ==> g[x] == f[x - |m0|];
    assert g[..132098] == f;
    BlockBeyond(v, m0, f[..132096], block, g);
    assert g[132098..132100] == CRLF;
    LineEndNormals();
  }

  lemma LuckyNormal(f: bytes, a: bytes)
    requires f == LuckyFile() && a == f[131585..132096]
    ensures Normalize(f[..131584]) + [LF] + Normalize(a + CRLF) + CRLF == Normalize(f)
  {
    hide Normalize, LuckyFile, LuckyByte;
    LuckyBytes(f);
    var head, feeds := f[..131585], [LF, LF];
    assert f[..131584] + [LF] == head;
    NormalizeEndsInCr(f[..131584]);
    assert f == head + (a + feeds);
    assert a[|a| - 1] == f[132095];
    NormalizeCut(head, a + feeds);
    NormalizeCut(a, feeds);
    NormalizeCut(a, CRLF);
    LineEndNormals();
    TwoFeeds();
  }

  lemma TwoFeeds()
    ensures Normalize([LF, LF]) == CRLF + CRLF
  {
    hide Normalize;
    var two: bytes, one: bytes := [LF, LF], [LF];
    assert two[1..] == one && one[1..] == [];
    NormalizeUnit(two);
    NormalizeUnit(one);
    NormalizeUnit([]);
  }

  /** A block end is disturbed, and the file comes out right all the same. */
  lemma AheadCanBeRight(m0: bytes)
    requires |m0| == 0x20000
    ensures UploadShape(Split(LuckyFile())) && AheadFirst(m0, LuckyFile(), 259)
    ensures Written(m0, Split(LuckyFile())) == Normalize(LuckyFile())
  {
    hide Holds, Normalize, WriteBlock, LuckyFile, LuckyByte, After, Flatten, Split, FirstDisturbed, Misled, AheadFirst;
    var f := LuckyFile();
    LuckyGetsAhead(m0);
    LuckyIsMisled(m0);
    var blocks := LuckyBlocks();
    MisledFirst(m0, blocks, 257);
    LuckyRing(m0, blocks, 257);
    LuckyRing(m0, blocks, 258);
    AfterNext(m0, blocks, 257);
    AfterNext(m0, blocks, 258);
    RingAfter(m0, blocks, 259);
    hide UploadShape;
    SecondToLast(After(m0, blocks, 257), m0, f, blocks[257]);
    Last(After(m0, blocks, 258), m0, f, blocks[258]);
    LuckyNormal(f, f[131585..132096]);
    assert blocks[..259] == blocks;
    NothingToFlush(After(m0, blocks, 259), m0, Flatten(blocks));
  }

  lemma NothingToFlush(v: View, m0: bytes, f: bytes)
    requires Holds(v, m0, f) && v.written >= |f|
    ensures v.buffered <= v.written && Flush(v) == v
  {
  }
}
