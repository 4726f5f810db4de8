/** Sizes and size classes of the allocator. */
module AllocatorSizes {
  const MAX_BLOCK_SIZE: nat := 0x10000
  const MIN_BLOCK_SIZE: nat := 0x10
  const CACHE_SIZE: nat := 13
  const HEADER: nat := 8

  function BitWidth(n: nat): nat
  {
    if n == 0 then 0 else 1 + BitWidth(n / 2)
  }

  function Power2(k: nat): (p: nat)
    ensures p > 0
  {
    if k == 0 then 1 else 2 * Power2(k - 1)
  }

  lemma {:induction false} WidthBounds(n: nat)
    requires n > 0
    ensures BitWidth(n) > 0 && Power2(BitWidth(n) - 1) <= n < Power2(BitWidth(n))
  {
    if n > 1 {
      WidthBounds(n / 2);
    }
  }

  lemma {:induction false} Power2Grows(i: nat, j: nat)
    requires i <= j
    ensures Power2(i) <= Power2(j)
    decreases j - i
  {
    if i < j {
      Power2Grows(i, j - 1);
    }
  }

  /** The width is the one exponent that fits. */
  lemma WidthUnique(n: nat, k: nat)
    requires Power2(k) <= n < Power2(k + 1)
    ensures BitWidth(n) == k + 1
  {
    WidthBounds(n);
    if BitWidth(n) > k + 1 {
      Power2Grows(k + 1, BitWidth(n) - 1);
    } else if BitWidth(n) < k + 1 {
      Power2Grows(BitWidth(n), k);
    }
  }

  lemma {:induction false} WidthMonotone(a: nat, b: nat)
    requires a <= b
    ensures BitWidth(a) <= BitWidth(b)
  {
    if a > 0 {
      WidthMonotone(a / 2, b / 2);
    }
  }

  lemma Widths()
    ensures Power2(4) == 16 && Power2(5) == 32 && Power2(16) == 0x10000 && Power2(17) == 0x20000
    ensures BitWidth(15) == 4 && BitWidth(16) == 5 && BitWidth(0xFFFF) == 16 && BitWidth(0x10000) == 17
  {
    assert Power2(8) == 256;
    assert Power2(12) == 4096;
    WidthUnique(15, 3);
    WidthUnique(16, 4);
    WidthUnique(0xFFFF, 15);
    WidthUnique(0x10000, 16);
  }

  /** What a request is rounded to: a power of two; 0 refuses it. */
  function BlockSize(size: nat): nat
  {
    if size >= MAX_BLOCK_SIZE then 0
    else if Power2(BitWidth(size)) > MIN_BLOCK_SIZE then Power2(BitWidth(size)) else MIN_BLOCK_SIZE
  }

  /** The free list a size belongs to; negative below the smallest block. */
  function Class(size: nat): int
  {
    BitWidth(size) - BitWidth(MIN_BLOCK_SIZE)
  }

  /** A rounded block is larger than what was asked for and wastes at most half of itself. */
  lemma BlockSizeBounds(size: nat)
    requires 0 < size < MAX_BLOCK_SIZE
    ensures size < BlockSize(size) <= if size < 8 then 16 else 2 * size
  {
    WidthBounds(size);
  }

  /** Unrounded, the list index is in range exactly for requests of at least eight bytes. */
  lemma ClassInRangeIff(request: nat)
    requires 0 < request && request + HEADER < MAX_BLOCK_SIZE
    ensures 0 <= Class(request + HEADER) < CACHE_SIZE <==> request >= 8
  {
    Widths();
    WidthMonotone(request + HEADER, 0xFFFF);
    if request >= 8 {
      WidthMonotone(16, request + HEADER);
    } else {
      WidthMonotone(request + HEADER, 15);
    }
  }

  /** Rounded, it always is, and the class determines the size. */
  lemma RoundedClass(size: nat)
    requires 0 < size < MAX_BLOCK_SIZE
    ensures 0 <= Class(BlockSize(size)) < CACHE_SIZE && BlockSize(size) == Power2(Class(BlockSize(size)) + 4)
    ensures BlockSize(size) >= MIN_BLOCK_SIZE
  {
    Widths();
    WidthMonotone(size, 0xFFFF);
    var k := if Power2(BitWidth(size)) > MIN_BLOCK_SIZE then BitWidth(size) else 4;
    if k < 4 {
      Power2Grows(k, 4);
    }
    Power2Grows(k, 16);
    WidthUnique(Power2(k), k);
  }
}

/** The allocator's blocks, as values: where they were carved, which are live, which are on which list. */
module AllocatorSpec {
  import opened Bytes
  import opened AllocatorSizes

  /** Blocks are named by their offset in the buffer. carved gives the size a block was cut with, live the
      size it was last handed out with. */
  datatype Heap = Heap(cursor: nat, lists: seq<seq<nat>>, carved: map<nat, nat>, live: map<nat, nat>)

  predicate Listed(lists: seq<seq<nat>>, b: nat)
  {
    exists c :: 0 <= c < |lists| && b in lists[c]
  }

  /** Every carved block is live or on the list of its class, never both and never twice; carved blocks
      lie one after the other below the cursor. */
  ghost predicate Conserved(h: Heap, limit: nat)
  {
    && |h.lists| == CACHE_SIZE && h.cursor <= limit
    && (forall b :: b in h.live ==> b in h.carved && Class(h.live[b]) == Class(h.carved[b]) && !Listed(h.lists, b))
    && (forall c, i :: 0 <= c < CACHE_SIZE && 0 <= i < |h.lists[c]| ==>
          h.lists[c][i] in h.carved && Class(h.carved[h.lists[c][i]]) == c)
    && (forall c, i, j :: 0 <= c < CACHE_SIZE && 0 <= i < j < |h.lists[c]| ==> h.lists[c][i] != h.lists[c][j])
    && (forall b :: b in h.carved ==> b in h.live || Listed(h.lists, b))
    && (forall b :: b in h.carved ==> h.carved[b] >= MIN_BLOCK_SIZE && b + h.carved[b] <= h.cursor)
    && (forall a, b :: a in h.carved && b in h.carved && a < b ==> a + h.carved[a] <= b)
    && (forall b :: b in h.carved ==> 0 <= Class(h.carved[b]) < CACHE_SIZE)
  }

  /** Taking a block of this size (header included): from its list if it has one, else off the buffer. */
  function Take(h: Heap, size: nat, limit: nat): (r: (Heap, Option<nat>))
    requires |h.lists| == CACHE_SIZE && 0 <= Class(size) < CACHE_SIZE
    ensures |r.0.lists| == CACHE_SIZE
  {
    var c := Class(size);
    if h.lists[c] != [] then
      var b := h.lists[c][0];
      (h.(lists := h.lists[c := h.lists[c][1..]], live := h.live[b := size]), Some(b))
    else if h.cursor + size <= limit then
      (Heap(h.cursor + size, h.lists, h.carved[h.cursor := size], h.live[h.cursor := size]), Some(h.cursor))
    else (h, None)
  }

  /** Giving a live block back: to the list of the size it was handed out with. */
  function Give(h: Heap, b: nat): (r: Heap)
    requires |h.lists| == CACHE_SIZE && b in h.live && 0 <= Class(h.live[b]) < CACHE_SIZE
    ensures |r.lists| == CACHE_SIZE
  {
    var c := Class(h.live[b]);
    h.(lists := h.lists[c := [b] + h.lists[c]], live := h.live - {b})
  }

  lemma TakeFromListConserves(h: Heap, size: nat, limit: nat)
    requires Conserved(h, limit) && 0 <= Class(size) < CACHE_SIZE && h.lists[Class(size)] != []
    ensures Conserved(Take(h, size, limit).0, limit) && Take(h, size, limit).1.value !in h.live
  {
    hide Class;
    var c := Class(size);
    var b := h.lists[c][0];
    var t := Take(h, size, limit).0;
    assert t == h.(lists := h.lists[c := h.lists[c][1..]], live := h.live[b := size]);
    hide Take;
    assert Listed(h.lists, b);
    forall d, i | 0 <= d < CACHE_SIZE && 0 <= i < |t.lists[d]|
      ensures t.lists[d][i] == h.lists[d][if d == c then i + 1 else i] && t.lists[d][i] != b
    {
      if d != c {
        assert Class(h.carved[h.lists[d][i]]) == d;
      }
    }
    forall x ensures Listed(t.lists, x) <==> Listed(h.lists, x) && x != b {
      ListedAfterTake(h.lists, c, x);
    }
    hide Listed;
  }

  lemma ListedAfterTake(lists: seq<seq<nat>>, c: nat, x: nat)
    requires c < |lists| && lists[c] != [] && lists[c][0] !in lists[c][1..]
    requires forall d :: 0 <= d < |lists| && d != c ==> lists[c][0] !in lists[d]
    ensures Listed(lists[c := lists[c][1..]], x) <==> Listed(lists, x) && x != lists[c][0]
  {
    var rest := lists[c := lists[c][1..]];
    forall d | 0 <= d < |lists| ensures x in rest[d] <==> x in lists[d] && x != lists[c][0] {
      if d == c {
        assert lists[c] == [lists[c][0]] + lists[c][1..];
      }
    }
  }

  lemma TakeFromBufferConserves(h: Heap, size: nat, limit: nat)
    requires Conserved(h, limit) && 0 <= Class(size) < CACHE_SIZE && size >= MIN_BLOCK_SIZE
    requires h.lists[Class(size)] == []
    ensures Conserved(Take(h, size, limit).0, limit)
    ensures Take(h, size, limit).1.Some? ==> Take(h, size, limit).1.value !in h.live
  {
    hide Class, Conserved;
    if h.cursor + size <= limit {
      CarvedConserves(h, size, limit);
    }
  }

  lemma CarvedConserves(h: Heap, size: nat, limit: nat)
    requires Conserved(h, limit) && 0 <= Class(size) < CACHE_SIZE && size >= MIN_BLOCK_SIZE
    requires h.cursor + size <= limit
    ensures Conserved(Heap(h.cursor + size, h.lists, h.carved[h.cursor := size], h.live[h.cursor := size]), limit)
    ensures h.cursor !in h.live
  {
    hide Class;
    assert h.cursor !in h.carved;
    assert !Listed(h.lists, h.cursor);
    hide Listed;
  }

  lemma GiveConserves(h: Heap, b: nat, limit: nat)
    requires Conserved(h, limit) && b in h.live
    ensures Conserved(Give(h, b), limit)
  {
    hide Class;
    var c := Class(h.live[b]);
    var t := Give(h, b);
    assert b in t.lists[c] by { assert t.lists[c][0] == b; }
    assert !Listed(h.lists, b);
    forall x | Listed(t.lists, x) ensures x == b || Listed(h.lists, x) {
      var d :| 0 <= d < |t.lists| && x in t.lists[d];
    }
    forall x | x in t.carved ensures x in t.live || Listed(t.lists, x) {
      if x !in h.live {
        var d :| 0 <= d < |h.lists| && x in h.lists[d];
        assert x in t.lists[d];
      }
    }
  }
}

/** Runs of requests and returns: conservation always, disjointness exactly while reused blocks fit. */
module AllocatorRuns {
  import opened Bytes
  import opened AllocatorSizes
  import opened AllocatorSpec

  datatype Op = Allocate(request: nat) | Release(block: nat)

  /** The size handed to the two helpers: as the code has it, the request and its header; as the helpers'
      parameter is named, the rounded block. */
  function Passed(request: nat, rounded: bool): nat
  {
    if rounded then BlockSize(request + HEADER) else request + HEADER
  }

  /** Requests the class index is in range for. */
  predicate Indexed(op: Op, rounded: bool)
  {
    op.Allocate? && op.request > 0 ==> rounded || op.request >= 8
  }

  /** Zero and oversized requests are refused; returning a block that is not live is no operation. */
  predicate Grants(op: Op)
  {
    op.Allocate? && 0 < op.request && op.request + HEADER < MAX_BLOCK_SIZE
  }

  lemma PassedClass(op: Op, rounded: bool)
    requires Grants(op) && Indexed(op, rounded)
    ensures var size := Passed(op.request, rounded);
      0 <= Class(size) < CACHE_SIZE && size >= MIN_BLOCK_SIZE && size >= op.request + HEADER
  {
    ClassInRangeIff(op.request);
    if rounded {
      RoundedClass(op.request + HEADER);
      BlockSizeBounds(op.request + HEADER);
    }
  }

  function Perform(h: Heap, op: Op, limit: nat, rounded: bool): (r: Heap)
    requires |h.lists| == CACHE_SIZE && Indexed(op, rounded)
    ensures |r.lists| == CACHE_SIZE
  {
    match op
    case Allocate(request) =>
      if Grants(op) then
        PassedClass(op, rounded);
        Take(h, Passed(request, rounded), limit).0
      else h
    case Release(block) =>
      if block in h.live && 0 <= Class(h.live[block]) < CACHE_SIZE then Give(h, block) else h
  }

  lemma PerformConserves(h: Heap, op: Op, limit: nat, rounded: bool)
    requires Conserved(h, limit) && Indexed(op, rounded)
    ensures Conserved(Perform(h, op, limit, rounded), limit)
  {
    if Grants(op) {
      PassedClass(op, rounded);
      var size := Passed(op.request, rounded);
      hide Conserved;
      assert |h.lists| == CACHE_SIZE by { ListsThere(h, limit); }
      if h.lists[Class(size)] != [] {
        TakeFromListConserves(h, size, limit);
      } else {
        TakeFromBufferConserves(h, size, limit);
      }
    } else if op.Release? && op.block in h.live {
      GiveConserves(h, op.block, limit);
    }
  }

  lemma ListsThere(h: Heap, limit: nat)
    requires Conserved(h, limit)
    ensures |h.lists| == CACHE_SIZE
  {
  }

  const START := Heap(0, [[], [], [], [], [], [], [], [], [], [], [], [], []], map[], map[])

  ghost function Exec(ops: seq<Op>, limit: nat, rounded: bool): (h: Heap)
    requires forall i :: 0 <= i < |ops| ==> Indexed(ops[i], rounded)
    ensures |h.lists| == CACHE_SIZE
  {
    if ops == [] then START
    else Perform(Exec(ops[..|ops| - 1], limit, rounded), ops[|ops| - 1], limit, rounded)
  }

  /** Over every sequence of allocations and returns, every carved block is live or on exactly one free
      list, the one of its class, and no block is handed out while it is live. */
  lemma {:induction false} ConservedAlways(ops: seq<Op>, limit: nat, rounded: bool)
    requires forall i :: 0 <= i < |ops| ==> Indexed(ops[i], rounded)
    ensures Conserved(Exec(ops, limit, rounded), limit)
  {
    if ops != [] {
      ConservedAlways(ops[..|ops| - 1], limit, rounded);
      hide Conserved;
      PerformConserves(Exec(ops[..|ops| - 1], limit, rounded), ops[|ops| - 1], limit, rounded);
    }
  }

  lemma NoLiveBlockHandedOut(ops: seq<Op>, limit: nat, rounded: bool, request: nat)
    requires forall i :: 0 <= i < |ops| ==> Indexed(ops[i], rounded)
    requires Grants(Allocate(request)) && Indexed(Allocate(request), rounded)
    ensures var h := Exec(ops, limit, rounded);
      && 0 <= Class(Passed(request, rounded)) < CACHE_SIZE
      && var got := Take(h, Passed(request, rounded), limit).1; got.Some? ==> got.value !in h.live
  {
    ConservedAlways(ops, limit, rounded);
    PassedClass(Allocate(request), rounded);
    hide Exec;
    var h, size := Exec(ops, limit, rounded), Passed(request, rounded);
    if h.lists[Class(size)] != [] {
      TakeFromListConserves(h, size, limit);
    } else {
      TakeFromBufferConserves(h, size, limit);
    }
  }

  // ---- Disjointness ----

  /** Every live block is no larger than it was carved. */
  ghost predicate Snug(h: Heap)
  {
    forall b :: b in h.live && b in h.carved ==> h.live[b] <= h.carved[b]
  }

  /** The next operation reuses no block that was carved smaller than it is now handed out. */
  ghost predicate Fits(h: Heap, op: Op, rounded: bool)
    requires |h.lists| == CACHE_SIZE && Indexed(op, rounded)
  {
    if !Grants(op) then true
    else
      PassedClass(op, rounded);
      var c := Class(Passed(op.request, rounded));
      h.lists[c] != [] && h.lists[c][0] in h.carved ==> Passed(op.request, rounded) <= h.carved[h.lists[c][0]]
  }

  /** An operation keeps live blocks inside their places exactly when a block it reuses is large enough. */
  lemma StaysSnugIff(h: Heap, op: Op, limit: nat, rounded: bool)
    requires Conserved(h, limit) && Snug(h) && Indexed(op, rounded)
    ensures Snug(Perform(h, op, limit, rounded)) <==> Fits(h, op, rounded)
  {
    var t := Perform(h, op, limit, rounded);
    if Grants(op) {
      PassedClass(op, rounded);
      var size := Passed(op.request, rounded);
      var c := Class(size);
      if h.lists[c] != [] {
        var b := h.lists[c][0];
        assert b in h.carved && t.live[b] == size;
      } else if h.cursor + size <= limit {
        assert h.cursor !in h.carved;
      }
    }
  }

  /** Live payloads are apart, inside the buffer, and clear of every block header. */
  ghost predicate Apart(h: Heap, limit: nat)
  {
    && (forall a :: a in h.live ==> a + HEADER <= a + h.live[a] <= limit)
    && (forall a, b :: a in h.live && b in h.live && a != b ==>
          a + h.live[a] <= b + HEADER || b + h.live[b] <= a + HEADER)
    && (forall a, b :: a in h.live && b in h.carved && a != b ==> a + h.live[a] <= b || b + HEADER <= a + HEADER)
  }

  lemma SnugIsApart(h: Heap, limit: nat)
    requires Conserved(h, limit) && Snug(h) && forall b :: b in h.live ==> h.live[b] >= HEADER
    ensures Apart(h, limit)
  {
    forall a, b | a in h.live && b in h.carved && a != b ensures a + h.live[a] <= b || b <= a {
      assert a in h.carved;
    }
    forall a, b | a in h.live && b in h.live && a != b
      ensures a + h.live[a] <= b + HEADER || b + h.live[b] <= a + HEADER
    {
      assert a in h.carved && b in h.carved;
    }
  }

  /** Whether all blocks of one class have one size, which is then the size they are asked for with. */
  ghost predicate OneSizePerClass(h: Heap, sizes: int -> nat)
  {
    && (forall b :: b in h.carved ==> h.carved[b] == sizes(Class(h.carved[b])))
    && (forall b :: b in h.live ==> b in h.carved && h.live[b] == sizes(Class(h.live[b])) && h.live[b] >= HEADER)
  }

  lemma OneSizeStaysSnug(h: Heap, op: Op, limit: nat, rounded: bool, sizes: int -> nat)
    requires Conserved(h, limit) && OneSizePerClass(h, sizes) && Indexed(op, rounded)
    requires Grants(op) ==> Passed(op.request, rounded) == sizes(Class(Passed(op.request, rounded)))
    ensures OneSizePerClass(Perform(h, op, limit, rounded), sizes)
  {
    if Grants(op) {
      PassedClass(op, rounded);
      var size := Passed(op.request, rounded);
      var c := Class(size);
      if h.lists[c] != [] {
        assert h.lists[c][0] in h.carved;
      }
    }
  }

  lemma {:induction false} OneSizeAlways(ops: seq<Op>, limit: nat, rounded: bool, sizes: int -> nat)
    requires forall i :: 0 <= i < |ops| ==> Indexed(ops[i], rounded)
    requires forall i :: 0 <= i < |ops| && Grants(ops[i]) ==>
      Passed(ops[i].request, rounded) == sizes(Class(Passed(ops[i].request, rounded)))
    ensures OneSizePerClass(Exec(ops, limit, rounded), sizes)
  {
    if ops != [] {
      OneSizeAlways(ops[..|ops| - 1], limit, rounded, sizes);
      ConservedAlways(ops[..|ops| - 1], limit, rounded);
      hide OneSizePerClass, Conserved;
      OneSizeStaysSnug(Exec(ops[..|ops| - 1], limit, rounded), ops[|ops| - 1], limit, rounded, sizes);
    }
  }

  lemma OneSizeIsApart(h: Heap, limit: nat, sizes: int -> nat)
    requires Conserved(h, limit) && OneSizePerClass(h, sizes)
    ensures Apart(h, limit)
  {
    forall b | b in h.live ensures h.live[b] <= h.carved[b] {
      assert Class(h.live[b]) == Class(h.carved[b]);
    }
    SnugIsApart(h, limit);
  }

  /** As written, live payloads stay apart over every run in which the requests of each class have one
      size and are at least eight bytes. */
  lemma OneRequestSizePerClassApart(ops: seq<Op>, limit: nat, sizes: int -> nat)
    requires forall i :: 0 <= i < |ops| ==> Indexed(ops[i], false)
    requires forall i :: 0 <= i < |ops| && Grants(ops[i]) ==>
      ops[i].request + HEADER == sizes(Class(ops[i].request + HEADER))
    ensures Apart(Exec(ops, limit, false), limit)
  {
    OneSizeAlways(ops, limit, false, sizes);
    ConservedAlways(ops, limit, false);
    OneSizeIsApart(Exec(ops, limit, false), limit, sizes);
  }

  /** With the rounded size passed on, they stay apart over every run whatsoever. */
  lemma RoundedAlwaysApart(ops: seq<Op>, limit: nat)
    requires forall i :: 0 <= i < |ops| ==> Indexed(ops[i], true)
    ensures Apart(Exec(ops, limit, true), limit)
  {
    var sizes := (c: int) => if c >= 0 then Power2(c + 4) else 0;
    forall i | 0 <= i < |ops| && Grants(ops[i])
      ensures Passed(ops[i].request, true) == sizes(Class(Passed(ops[i].request, true)))
    {
      RoundedClass(ops[i].request + HEADER);
    }
    OneSizeAlways(ops, limit, true, sizes);
    ConservedAlways(ops, limit, true);
    OneSizeIsApart(Exec(ops, limit, true), limit, sizes);
  }

  // ---- As written: the exact condition ----

  // ---- What is refused, and what returning a block undoes ----

  lemma TakesIff(h: Heap, size: nat, limit: nat)
    requires Conserved(h, limit) && 0 <= Class(size) < CACHE_SIZE && size >= MIN_BLOCK_SIZE
    ensures |h.lists| == CACHE_SIZE
    ensures Take(h, size, limit).0 == h <==> h.lists[Class(size)] == [] && h.cursor + size > limit
  {
    hide Class;
    var c := Class(size);
    if h.lists[c] != [] {
      assert Take(h, size, limit).0.lists[c] == h.lists[c][1..];
    }
  }

  /** In every run a request is refused if and only if it is empty or has, with its header, 65536 bytes or
      more, or neither its list nor the rest of the buffer has a block for it. */
  lemma RefusedIff(ops: seq<Op>, request: nat, limit: nat, rounded: bool)
    requires (forall i :: 0 <= i < |ops| ==> Indexed(ops[i], rounded)) && Indexed(Allocate(request), rounded)
    ensures forall i :: 0 <= i < |ops + [Allocate(request)]| ==> Indexed((ops + [Allocate(request)])[i], rounded)
    ensures var h, size := Exec(ops, limit, rounded), Passed(request, rounded);
      && (0 < request < 65528 ==> 0 <= Class(size) < CACHE_SIZE)
      && (Exec(ops + [Allocate(request)], limit, rounded) == h <==>
            || request == 0 || request >= 65528
            || (h.lists[Class(size)] == [] && h.cursor + size > limit))
  {
    assert (ops + [Allocate(request)])[..|ops|] == ops;
    ConservedAlways(ops, limit, rounded);
    hide Class, Passed, Conserved;
    if Grants(Allocate(request)) {
      PassedClass(Allocate(request), rounded);
      TakesIff(Exec(ops, limit, rounded), Passed(request, rounded), limit);
      hide Take;
    }
  }

  /** Returning a block and asking for its size again leaves everything as it was. */
  lemma ReleaseUndone(ops: seq<Op>, b: nat, request: nat, limit: nat, rounded: bool)
    requires (forall i :: 0 <= i < |ops| ==> Indexed(ops[i], rounded)) && Indexed(Allocate(request), rounded)
    requires b in Exec(ops, limit, rounded).live && 0 < request < 65528
    requires Exec(ops, limit, rounded).live[b] == Passed(request, rounded)
    ensures var more := ops + [Release(b)] + [Allocate(request)];
      && (forall i :: 0 <= i < |more| ==> Indexed(more[i], rounded))
      && Exec(more, limit, rounded) == Exec(ops, limit, rounded)
  {
    var one, more := ops + [Release(b)], ops + [Release(b)] + [Allocate(request)];
    assert one[..|ops|] == ops && more[..|one|] == one;
    PassedClass(Allocate(request), rounded);
    GiveTakes(Exec(ops, limit, rounded), b, limit);
    hide Class, Passed, Take, Give;
  }

  lemma GiveTakes(h: Heap, b: nat, limit: nat)
    requires |h.lists| == CACHE_SIZE && b in h.live && 0 <= Class(h.live[b]) < CACHE_SIZE
    ensures Take(Give(h, b), h.live[b], limit).0 == h
  {
    hide Class;
    var c := Class(h.live[b]);
    assert ([b] + h.lists[c])[1..] == h.lists[c];
    assert (h.live - {b})[b := h.live[b]] == h.live;
  }

  lemma ExecMore(ops: seq<Op>, op: Op, limit: nat)
    requires (forall i :: 0 <= i < |ops| ==> Indexed(ops[i], false)) && Indexed(op, false)
    ensures forall i :: 0 <= i < |ops + [op]| ==> Indexed((ops + [op])[i], false)
    ensures Exec(ops + [op], limit, false) == Perform(Exec(ops, limit, false), op, limit, false)
  {
    assert (ops + [op])[..|ops|] == ops;
  }

  lemma AllocatesNew(h: Heap, request: nat, limit: nat)
    requires |h.lists| == CACHE_SIZE && Grants(Allocate(request)) && request >= 8
    requires 0 <= Class(request + HEADER) < CACHE_SIZE
    requires h.lists[Class(request + HEADER)] == [] && h.cursor + request + HEADER <= limit
    ensures var size := request + HEADER;
      Perform(h, Allocate(request), limit, false)
      == Heap(h.cursor + size, h.lists, h.carved[h.cursor := size], h.live[h.cursor := size])
  {
    hide Class;
  }

  lemma AllocatesListed(h: Heap, request: nat, limit: nat, b: nat)
    requires |h.lists| == CACHE_SIZE && Grants(Allocate(request)) && request >= 8
    requires 0 <= Class(request + HEADER) < CACHE_SIZE && h.lists[Class(request + HEADER)] == [b]
    ensures Perform(h, Allocate(request), limit, false).live == h.live[b := request + HEADER]
    ensures Perform(h, Allocate(request), limit, false).carved == h.carved
  {
    hide Class;
  }

  lemma ReleasesFirst(h: Heap, b: nat, limit: nat)
    requires |h.lists| == CACHE_SIZE && b in h.live && 0 <= Class(h.live[b]) < CACHE_SIZE
    requires h.lists[Class(h.live[b])] == []
    ensures var t := Perform(h, Release(b), limit, false);
      t.lists[Class(h.live[b])] == [b] && t.live == h.live - {b} && t.carved == h.carved
  {
    hide Class;
    assert [b] + [] == [b];
  }

  /** A first request is cut from the start of the buffer. */
  lemma FirstAllocated(small: nat, limit: nat) returns (ops: seq<Op>)
    requires small >= 8 && Grants(Allocate(small)) && small + HEADER <= limit && 0 <= Class(small + HEADER) < CACHE_SIZE
    ensures ops == [Allocate(small)] && forall i :: 0 <= i < |ops| ==> Indexed(ops[i], false)
    ensures var h, size := Exec(ops, limit, false), small + HEADER;
      h == Heap(size, START.lists, map[0 := size], map[0 := size])
  {
    hide Exec, Perform, Class;
    StartIsEmpty(limit);
    ops := [Allocate(small)];
    ExecMore([], Allocate(small), limit);
    AllocatesNew(START, small, limit);
    assert [] + ops == ops;
  }

  lemma TwoAllocated(small: nat, other: nat, limit: nat) returns (ops: seq<Op>)
    requires small >= 8 && Grants(Allocate(small)) && 0 <= Class(small + HEADER) < CACHE_SIZE
    requires other >= 8 && Grants(Allocate(other)) && 0 <= Class(other + HEADER) < CACHE_SIZE
    requires small + HEADER + other + HEADER <= limit
    ensures ops == [Allocate(small), Allocate(other)] && forall i :: 0 <= i < |ops| ==> Indexed(ops[i], false)
    ensures var h, size := Exec(ops, limit, false), small + HEADER;
      h.lists == START.lists && h.live == map[0 := size, size := other + HEADER] == h.carved
  {
    hide Exec, Perform, Class;
    StartIsEmpty(limit);
    var one := FirstAllocated(small, limit);
    ExecMore(one, Allocate(other), limit);
    AllocatesNew(Exec(one, limit, false), other, limit);
    ops := one + [Allocate(other)];
  }

  /** A payload that reaches past the start of another carved block. */
  lemma ReachesOver(h: Heap, a: nat, b: nat, limit: nat)
    requires a in h.live && b in h.carved && a < b < a + h.live[a]
    ensures !Apart(h, limit)
  {
  }

  lemma ReachesOut(h: Heap, a: nat, limit: nat)
    requires a in h.live && a + h.live[a] > limit
    ensures !Apart(h, limit)
  {
  }

  /** The first block is returned and handed out again for a larger request of its class. */
  lemma ReusedLarger(before: seq<Op>, small: nat, large: nat, limit: nat) returns (ops: seq<Op>)
    requires forall i :: 0 <= i < |before| ==> Indexed(before[i], false)
    requires 8 <= small < large && large + HEADER < MAX_BLOCK_SIZE && Class(small + HEADER) == Class(large + HEADER)
    requires var h := Exec(before, limit, false); h.lists == START.lists && 0 in h.live && h.live[0] == small + HEADER
    ensures ops == before + [Release(0), Allocate(large)] && forall i :: 0 <= i < |ops| ==> Indexed(ops[i], false)
    ensures var h, t := Exec(before, limit, false), Exec(ops, limit, false);
      t.live == (h.live - {0})[0 := large + HEADER] && t.carved == h.carved
  {
    ClassInRangeIff(small);
    hide Exec, Perform, Class;
    StartIsEmpty(limit);
    ReleasesFirst(Exec(before, limit, false), 0, limit);
    ExecMore(before, Release(0), limit);
    var released := before + [Release(0)];
    AllocatesListed(Exec(released, limit, false), large, limit, 0);
    ExecMore(released, Allocate(large), limit);
    ops := released + [Allocate(large)];
    assert ops == before + [Release(0), Allocate(large)];
  }

  lemma FirstReplaced(size: nat, other: nat, large: nat)
    requires size > 0
    ensures (map[0 := size, size := other] - {0})[0 := large] == map[0 := large, size := other]
  {
  }

  /** A request and another one, the first returned, then a larger one of its class: it is given the first
      block, and its payload runs over the header and payload of the second. */
  lemma ReuseOverlaps(small: nat, other: nat, large: nat, limit: nat) returns (ops: seq<Op>)
    requires 8 <= small < large && large + HEADER < MAX_BLOCK_SIZE && Class(small + HEADER) == Class(large + HEADER)
    requires 8 <= other && other + HEADER < MAX_BLOCK_SIZE && small + HEADER + other + HEADER <= limit
    ensures ops == [Allocate(small), Allocate(other), Release(0), Allocate(large)]
    ensures forall i :: 0 <= i < |ops| ==> Indexed(ops[i], false)
    ensures Exec(ops, limit, false).live == map[0 := large + HEADER, small + HEADER := other + HEADER]
    ensures !Apart(Exec(ops, limit, false), limit)
  {
    ClassInRangeIff(small);
    ClassInRangeIff(other);
    hide Exec, Perform, Class, Apart;
    var two := TwoAllocated(small, other, limit);
    ops := ReusedLarger(two, small, large, limit);
    FirstReplaced(small + HEADER, other + HEADER, large + HEADER);
    ReachesOver(Exec(ops, limit, false), 0, small + HEADER, limit);
  }

  /** In a buffer that holds the smaller of two requests of a class and not the larger, the larger is given
      the block of the smaller all the same, and runs out of the buffer. */
  lemma ReuseOverruns(small: nat, large: nat, limit: nat) returns (ops: seq<Op>)
    requires 8 <= small < large && large + HEADER < MAX_BLOCK_SIZE && Class(small + HEADER) == Class(large + HEADER)
    requires small + HEADER <= limit < large + HEADER
    ensures ops == [Allocate(small), Release(0), Allocate(large)]
    ensures forall i :: 0 <= i < |ops| ==> Indexed(ops[i], false)
    ensures !Apart(Exec(ops, limit, false), limit)
  {
    ClassInRangeIff(small);
    hide Exec, Perform, Class, Apart;
    var one := FirstAllocated(small, limit);
    ops := ReusedLarger(one, small, large, limit);
    ReachesOut(Exec(ops, limit, false), 0, limit);
  }

  /** In particular after two requests of one size. */
  lemma SharedClassOverlaps(small: nat, large: nat, limit: nat) returns (ops: seq<Op>)
    requires 8 <= small < large && large + HEADER < MAX_BLOCK_SIZE && 2 * (small + HEADER) <= limit
    requires Class(small + HEADER) == Class(large + HEADER)
    ensures ops == [Allocate(small), Allocate(small), Release(0), Allocate(large)]
    ensures forall i :: 0 <= i < |ops| ==> Indexed(ops[i], false)
    ensures Exec(ops, limit, false).live == map[0 := large + HEADER, small + HEADER := small + HEADER]
    ensures !Apart(Exec(ops, limit, false), limit)
  {
    hide Exec, Class, Apart;
    ops := ReuseOverlaps(small, small, large, limit);
  }

  lemma StartIsEmpty(limit: nat)
    ensures Exec([], limit, false) == START && forall c :: 0 <= c < CACHE_SIZE ==> START.lists[c] == []
  {
  }

  lemma ClassesOfCounterexample()
    ensures Class(16) == 0 && Class(31) == 0
  {
    Widths();
    WidthUnique(31, 4);
  }

  /** At its smallest: requests of 8 and 23 bytes. */
  lemma MixedSizesOverlap()
    ensures var ops := [Allocate(8), Allocate(8), Release(0), Allocate(23)];
      && (forall i :: 0 <= i < |ops| ==> Indexed(ops[i], false))
      && Exec(ops, 1024, false).live == map[0 := 31, 16 := 16] && !Apart(Exec(ops, 1024, false), 1024)
  {
    ClassesOfCounterexample();
    hide Exec;
    var ops := SharedClassOverlaps(8, 23, 1024);
  }

  /** Runs whose requests all have one of these sizes. */
  predicate Over(ops: seq<Op>, sizes: set<nat>)
  {
    forall i :: 0 <= i < |ops| && ops[i].Allocate? ==> ops[i].request in sizes
  }

  /** Two requests of one class, the smaller first: reusing its block for the larger does harm. It runs out
      of the buffer, or there was room for another block behind it. */
  predicate Clash(sizes: set<nat>, s: nat, t: nat, limit: nat)
  {
    && s in sizes && t in sizes && s < t && Grants(Allocate(s)) && Grants(Allocate(t))
    && Class(s + HEADER) == Class(t + HEADER) && s + HEADER <= limit
    && (t + HEADER > limit || exists r :: r in sizes && Behind(s, r, limit))
  }

  predicate Behind(s: nat, r: nat, limit: nat)
  {
    Grants(Allocate(r)) && s + HEADER + r + HEADER <= limit
  }

  predicate NoClash(sizes: set<nat>, limit: nat)
  {
    forall s, t :: s in sizes && t in sizes ==> !Clash(sizes, s, t, limit)
  }

  /** A size some request was passed on with. */
  predicate Asked(sizes: set<nat>, size: nat)
  {
    size >= HEADER && size - HEADER in sizes && Grants(Allocate(size - HEADER))
  }

  /** All blocks were cut and handed out for requests of the set, and the first one at the start. */
  ghost predicate CutFor(h: Heap, sizes: set<nat>)
  {
    && (forall b :: b in h.carved ==> Asked(sizes, h.carved[b]))
    && (forall b :: b in h.live ==> Asked(sizes, h.live[b]))
    && (h.cursor > 0 || h.carved != map[] ==> 0 in h.carved)
  }

  lemma StepKeepsCut(h: Heap, op: Op, limit: nat, sizes: set<nat>)
    requires |h.lists| == CACHE_SIZE && CutFor(h, sizes) && Indexed(op, false)
    requires op.Allocate? ==> op.request in sizes
    ensures CutFor(Perform(h, op, limit, false), sizes)
  {
    hide Class, Asked;
    if Grants(op) {
      PassedClass(op, false);
      assert Asked(sizes, op.request + HEADER) by { IsAsked(sizes, op.request); }
    }
  }

  lemma IsAsked(sizes: set<nat>, request: nat)
    requires request in sizes && Grants(Allocate(request))
    ensures Asked(sizes, request + HEADER)
  {
  }

  lemma {:induction false} AlwaysCut(ops: seq<Op>, limit: nat, sizes: set<nat>)
    requires Over(ops, sizes) && forall i :: 0 <= i < |ops| ==> Indexed(ops[i], false)
    ensures CutFor(Exec(ops, limit, false), sizes)
  {
    if ops != [] {
      AlwaysCut(ops[..|ops| - 1], limit, sizes);
      hide CutFor, Perform;
      StepKeepsCut(Exec(ops[..|ops| - 1], limit, false), ops[|ops| - 1], limit, sizes);
    }
  }

  /** A live block larger than it was cut clashes with any other block, and if it runs out of the buffer. */
  lemma GrownClashes(h: Heap, limit: nat, sizes: set<nat>, a: nat, b: nat)
    requires Conserved(h, limit) && CutFor(h, sizes) && a in h.live && a in h.carved && h.live[a] > h.carved[a]
    requires b in h.carved && (a != b || h.live[a] > limit)
    ensures h.carved[a] >= HEADER && Clash(sizes, h.carved[a] - HEADER, h.live[a] - HEADER, limit)
  {
    hide Class;
    if a != b {
      BothFit(h, limit, a, b);
      assert Behind(h.carved[a] - HEADER, h.carved[b] - HEADER, limit);
    }
  }

  lemma NoClashTells(sizes: set<nat>, limit: nat, s: nat, t: nat)
    requires NoClash(sizes, limit)
    ensures !Clash(sizes, s, t, limit)
  {
  }

  lemma GrownIsAlone(h: Heap, limit: nat, sizes: set<nat>, a: nat, b: nat)
    requires Conserved(h, limit) && CutFor(h, sizes) && NoClash(sizes, limit)
    requires a in h.live && a in h.carved && h.live[a] > h.carved[a] && b in h.carved
    ensures a == b == 0 && h.live[a] <= limit
  {
    assert 0 in h.carved && h.carved[a] >= HEADER;
    hide Conserved, CutFor, NoClash, Clash;
    NoClashTells(sizes, limit, h.carved[a] - HEADER, h.live[a] - HEADER);
    if a != b || h.live[a] > limit {
      GrownClashes(h, limit, sizes, a, b);
    } else if a != 0 {
      GrownClashes(h, limit, sizes, a, 0);
    }
  }

  lemma BothFit(h: Heap, limit: nat, a: nat, b: nat)
    requires Conserved(h, limit) && a in h.carved && b in h.carved && a != b
    ensures h.carved[a] + h.carved[b] <= limit
  {
  }

  lemma NoClashIsApart(h: Heap, limit: nat, sizes: set<nat>)
    requires Conserved(h, limit) && CutFor(h, sizes) && NoClash(sizes, limit)
    ensures Apart(h, limit)
  {
    LiveAsked(h, limit, sizes);
    hide NoClash, CutFor;
    if Snug(h) {
      SnugIsApart(h, limit);
    } else {
      var a :| a in h.live && a in h.carved && h.live[a] > h.carved[a];
      hide Conserved, Snug;
      forall b | b in h.carved ensures b == a == 0 && h.live[a] <= limit {
        GrownIsAlone(h, limit, sizes, a, b);
      }
      OnlyOneIsApart(h, limit, a);
    }
  }

  lemma LiveAsked(h: Heap, limit: nat, sizes: set<nat>)
    requires Conserved(h, limit) && CutFor(h, sizes)
    ensures forall b :: b in h.live ==> b in h.carved && h.live[b] >= HEADER
  {
  }

  lemma OnlyOneIsApart(h: Heap, limit: nat, a: nat)
    requires (forall b :: b in h.live ==> b in h.carved && h.live[b] >= HEADER) && a in h.live
    requires forall b :: b in h.carved ==> b == a == 0 && h.live[a] <= limit
    ensures Apart(h, limit)
  {
  }

  /** As written, and in a buffer of any size, live payloads stay apart in all runs over a set of request
      sizes if and only if no two of the sizes clash. */
  lemma ApartIff(sizes: set<nat>, limit: nat)
    requires forall s :: s in sizes ==> Indexed(Allocate(s), false)
    ensures (forall ops :: Over(ops, sizes) ==>
               (forall i :: 0 <= i < |ops| ==> Indexed(ops[i], false)) && Apart(Exec(ops, limit, false), limit))
      <==> NoClash(sizes, limit)
  {
    hide Exec, Class, Apart, Conserved, CutFor;
    if NoClash(sizes, limit) {
      forall ops | Over(ops, sizes)
        ensures (forall i :: 0 <= i < |ops| ==> Indexed(ops[i], false)) && Apart(Exec(ops, limit, false), limit)
      {
        AlwaysCut(ops, limit, sizes);
        ConservedAlways(ops, limit, false);
        NoClashIsApart(Exec(ops, limit, false), limit, sizes);
      }
    } else {
      var s, t :| s in sizes && t in sizes && Clash(sizes, s, t, limit);
      var ops := ClashRun(sizes, s, t, limit);
    }
  }

  lemma ClashRun(sizes: set<nat>, s: nat, t: nat, limit: nat) returns (ops: seq<Op>)
    requires (forall r :: r in sizes ==> Indexed(Allocate(r), false)) && Clash(sizes, s, t, limit)
    ensures Over(ops, sizes) && (forall i :: 0 <= i < |ops| ==> Indexed(ops[i], false))
    ensures !Apart(Exec(ops, limit, false), limit)
  {
    hide Exec, Class, Apart;
    assert Indexed(Allocate(s), false) && Indexed(Allocate(t), false);
    if t + HEADER > limit {
      ops := ReuseOverruns(s, t, limit);
    } else {
      var r :| r in sizes && Behind(s, r, limit);
      assert Indexed(Allocate(r), false);
      ops := ReuseOverlaps(s, r, t, limit);
    }
  }

  /** In a buffer with room for two blocks of every size that is: if and only if no two share a class. */
  lemma RoomyApartIff(sizes: set<nat>, limit: nat)
    requires forall s :: s in sizes ==> 8 <= s && s + HEADER < MAX_BLOCK_SIZE && 2 * (s + HEADER) <= limit
    ensures NoClash(sizes, limit) <==>
      forall s, t :: s in sizes && t in sizes && Class(s + HEADER) == Class(t + HEADER) ==> s == t
  {
    hide Class;
    forall s, t | s in sizes && t in sizes && s < t && Class(s + HEADER) == Class(t + HEADER)
      ensures Clash(sizes, s, t, limit)
    {
      assert Behind(s, s, limit);
    }
    forall s, t | s in sizes && t in sizes && Clash(sizes, s, t, limit)
      ensures s != t && Class(s + HEADER) == Class(t + HEADER)
    {
    }
  }
}

/** The allocator itself: a bump pointer and free lists threaded through the blocks' own headers. */
module Allocators {
  import opened Bytes
  import opened AllocatorSizes
  import opened AllocatorSpec
  import opened AllocatorRuns

  /** From the address head on, the header words link exactly the blocks of the list, then end. */
  ghost predicate Chain(words: map<nat, nat>, base: nat, head: nat, list: seq<nat>)
    decreases list
  {
    if list == [] then head == 0
    else head == base + list[0] && head in words && Chain(words, base, words[head], list[1..])
  }

  /** Every list of blocks is chained from its head. */
  ghost predicate Linked(words: map<nat, nat>, base: nat, heads: seq<nat>, lists: seq<seq<nat>>)
  {
    |heads| == |lists| && forall c :: 0 <= c < |lists| ==> Chain(words, base, heads[c], lists[c])
  }

  /** The header of every live block holds the size it was handed out with. */
  ghost predicate Sized(words: map<nat, nat>, base: nat, live: map<nat, nat>)
  {
    forall b :: b in live ==> base + b in words && words[base + b] == live[b]
  }

  lemma {:induction false} WriteKeepsChain(words: map<nat, nat>, base: nat, head: nat, list: seq<nat>, b: nat, v: nat)
    requires Chain(words, base, head, list) && b !in list
    ensures Chain(words[base + b := v], base, head, list)
    decreases list
  {
    if list != [] {
      assert list[0] in list;
      WriteKeepsChain(words, base, words[head], list[1..], b, v);
    }
  }

  /** Writing the header of a block that is on no list breaks no list. */
  lemma WriteKeepsLinks(words: map<nat, nat>, base: nat, heads: seq<nat>, lists: seq<seq<nat>>, b: nat, v: nat)
    requires Linked(words, base, heads, lists) && forall c :: 0 <= c < |lists| ==> b !in lists[c]
    ensures Linked(words[base + b := v], base, heads, lists)
  {
    forall c | 0 <= c < |lists| ensures Chain(words[base + b := v], base, heads[c], lists[c]) {
      WriteKeepsChain(words, base, heads[c], lists[c], b, v);
    }
  }

  lemma PopKeepsLinks(words: map<nat, nat>, base: nat, heads: seq<nat>, lists: seq<seq<nat>>, c: nat, size: nat)
    requires Linked(words, base, heads, lists) && c < |lists| && lists[c] != []
    requires forall d :: 0 <= d < |lists| && d != c ==> lists[c][0] !in lists[d]
    requires lists[c][0] !in lists[c][1..]
    ensures heads[c] == base + lists[c][0] && heads[c] in words
    ensures Linked(words[heads[c] := size], base, heads[c := words[heads[c]]], lists[c := lists[c][1..]])
  {
    WriteKeepsLinks(words, base, heads[c := words[heads[c]]], lists[c := lists[c][1..]], lists[c][0], size);
  }

  lemma PushKeepsLinks(words: map<nat, nat>, base: nat, heads: seq<nat>, lists: seq<seq<nat>>, c: nat, b: nat)
    requires Linked(words, base, heads, lists) && c < |lists| && forall d :: 0 <= d < |lists| ==> b !in lists[d]
    ensures Linked(words[base + b := heads[c]], base, heads[c := base + b], lists[c := [b] + lists[c]])
  {
    WriteKeepsLinks(words, base, heads, lists, b, heads[c]);
    assert ([b] + lists[c])[1..] == lists[c];
  }

  /** The first block of a list is nowhere else. */
  lemma HeadIsOnce(h: Heap, limit: nat, c: nat)
    requires Conserved(h, limit) && c < CACHE_SIZE && h.lists[c] != []
    ensures |h.lists| == CACHE_SIZE && h.lists[c][0] !in h.live && h.lists[c][0] !in h.lists[c][1..]
    ensures forall d :: 0 <= d < |h.lists| && d != c ==> h.lists[c][0] !in h.lists[d]
  {
    assert Listed(h.lists, h.lists[c][0]);
  }

  lemma LiveIsUnlisted(h: Heap, limit: nat, b: nat)
    requires Conserved(h, limit) && b in h.live
    ensures |h.lists| == CACHE_SIZE && 0 <= Class(h.live[b]) < CACHE_SIZE
    ensures forall d :: 0 <= d < |h.lists| ==> b !in h.lists[d]
  {
    assert !Listed(h.lists, b);
  }

  lemma CursorIsUnlisted(h: Heap, limit: nat)
    requires Conserved(h, limit)
    ensures |h.lists| == CACHE_SIZE && h.cursor !in h.live
    ensures forall d :: 0 <= d < |h.lists| ==> h.cursor !in h.lists[d]
  {
    assert h.cursor !in h.carved;
  }

  /** The heap as the allocator's own memory shows it. */
  ghost predicate Shows(h: Heap, limit: nat, words: map<nat, nat>, base: nat, heads: seq<nat>)
  {
    && base > 0 && |heads| == CACHE_SIZE && Conserved(h, limit)
    && Sized(words, base, h.live) && Linked(words, base, heads, h.lists)
  }

  lemma ShownHeads(h: Heap, limit: nat, words: map<nat, nat>, base: nat, heads: seq<nat>, c: nat)
    requires Shows(h, limit, words, base, heads) && c < CACHE_SIZE
    ensures |h.lists| == CACHE_SIZE && base > 0
    ensures h.lists[c] == [] ==> heads[c] == 0
    ensures h.lists[c] != [] ==> heads[c] == base + h.lists[c][0] && heads[c] in words
  {
    assert Chain(words, base, heads[c], h.lists[c]);
  }

  lemma WriteKeepsSized(words: map<nat, nat>, base: nat, live: map<nat, nat>, b: nat, v: nat)
    requires Sized(words, base, live)
    ensures Sized(words[base + b := v], base, live - {b})
    ensures Sized(words[base + b := v], base, live[b := v])
  {
  }

  lemma PopShows(h: Heap, limit: nat, words: map<nat, nat>, base: nat, heads: seq<nat>, c: nat, size: nat)
    requires Shows(h, limit, words, base, heads) && c == Class(size) < CACHE_SIZE
    requires |h.lists| == CACHE_SIZE && h.lists[c] != [] && heads[c] in words
    ensures Shows(Take(h, size, limit).0, limit, words[heads[c] := size], base, heads[c := words[heads[c]]])
    ensures h.lists[c][0] !in h.live
  {
    hide Conserved, Chain, Class, Linked, Sized;
    var t := Take(h, size, limit).0;
    assert t.lists == h.lists[c := h.lists[c][1..]] && t.live == h.live[h.lists[c][0] := size];
    TakeFromListConserves(h, size, limit);
    HeadIsOnce(h, limit, c);
    hide Take;
    PopKeepsLinks(words, base, heads, h.lists, c, size);
    WriteKeepsSized(words, base, h.live, h.lists[c][0], size);
  }

  lemma CarveShows(h: Heap, limit: nat, words: map<nat, nat>, base: nat, heads: seq<nat>, size: nat)
    requires Shows(h, limit, words, base, heads) && 0 <= Class(size) < CACHE_SIZE && size >= MIN_BLOCK_SIZE
    requires |h.lists| == CACHE_SIZE && h.lists[Class(size)] == [] && h.cursor + size <= limit
    ensures Shows(Take(h, size, limit).0, limit, words[base + h.cursor := size], base, heads)
    ensures h.cursor !in h.live
  {
    hide Conserved, Chain, Class, Linked, Sized;
    var t := Take(h, size, limit).0;
    assert t.lists == h.lists && t.live == h.live[h.cursor := size];
    TakeFromBufferConserves(h, size, limit);
    CursorIsUnlisted(h, limit);
    hide Take;
    WriteKeepsLinks(words, base, heads, h.lists, h.cursor, size);
    WriteKeepsSized(words, base, h.live, h.cursor, size);
  }

  lemma PushShows(h: Heap, limit: nat, words: map<nat, nat>, base: nat, heads: seq<nat>, b: nat)
    requires Shows(h, limit, words, base, heads) && b in h.live
    ensures base + b in words && words[base + b] == h.live[b]
    ensures |h.lists| == CACHE_SIZE && 0 <= Class(h.live[b]) < CACHE_SIZE
    ensures var c := Class(h.live[b]);
      Shows(Give(h, b), limit, words[base + b := heads[c]], base, heads[c := base + b])
  {
    hide Conserved, Chain, Class, Linked;
    LiveIsUnlisted(h, limit, b);
    var c := Class(h.live[b]);
    GiveConserves(h, b, limit);
    assert words[base + b] == h.live[b];
    PushKeepsLinks(words, base, heads, h.lists, c, b);
    WriteKeepsSized(words, base, h.live, b, heads[c]);
    hide Sized;
  }

  lemma ReleaseGives(h: Heap, b: nat, limit: nat)
    requires |h.lists| == CACHE_SIZE && b in h.live && 0 <= Class(h.live[b]) < CACHE_SIZE
    ensures Perform(h, Release(b), limit, false) == Give(h, b)
    ensures Give(h, b).cursor == h.cursor
  {
  }

  class Allocator {
    /** The address of the buffer, never null, and its size. */
    const base: nat
    const bufferSize: nat
    const freeLists: array<nat>
    var cursor: nat
    /** The 8-byte words the allocator has written, by address: a size, or the address of the next block. */
    var words: map<nat, nat>
    ghost var heap: Heap

    ghost predicate Valid()
      reads this, freeLists
    {
      && cursor == heap.cursor && freeLists.Length == |heap.lists| == CACHE_SIZE
      && Shows(heap, bufferSize, words, base, freeLists[..])
    }

    constructor (bufSz: nat, base: nat)
      requires base > 0
      ensures Valid() && fresh(freeLists) && heap == START && this.base == base
      ensures bufferSize == if bufSz < MIN_BLOCK_SIZE then MIN_BLOCK_SIZE else bufSz
    {
      bufferSize := if bufSz < MIN_BLOCK_SIZE then MIN_BLOCK_SIZE else bufSz;
      this.base := base;
      cursor := 0;
      freeLists := new nat[CACHE_SIZE](i => 0);
      words := map[];
      heap := START;
    }

    /** Hands out a block, or 0. The size passed to the two helpers is the unrounded one. */
    method Allocate(request: nat) returns (ptr: nat)
      requires Valid() && Indexed(AllocatorRuns.Allocate(request), false)
      modifies this, freeLists
      ensures Valid() && heap == Perform(old(heap), AllocatorRuns.Allocate(request), bufferSize, false)
      ensures ptr == 0 ==> heap == old(heap)
      ensures 0 < request < 65528 ==> 0 <= Class(request + HEADER) < |old(heap).lists|
      ensures ptr == 0 <==>
        || request == 0 || request >= 65528
        || (old(heap).lists[Class(request + HEADER)] == [] && old(heap).cursor + request + HEADER > bufferSize)
      ensures ptr != 0 ==> ptr >= base + HEADER && ptr - base - HEADER !in old(heap).live
      ensures ptr != 0 ==> heap.live == old(heap).live[ptr - base - HEADER := request + HEADER]
    {
      hide Shows, Class;
      if request == 0 {
        return 0;
      }
      var size := request + HEADER;
      if BlockSize(size) == 0 {
        return 0;
      }
      PassedClass(AllocatorRuns.Allocate(request), false);
      ptr := AllocFromCache(size);
      if ptr == 0 {
        ptr := AllocFromBuffer(size);
      }
    }

    method AllocFromCache(size: nat) returns (ptr: nat)
      requires Valid() && 0 <= Class(size) < CACHE_SIZE
      modifies this`words, this`heap, freeLists
      ensures Valid()
      ensures ptr == 0 <==> old(heap).lists[Class(size)] == []
      ensures ptr == 0 ==> heap == old(heap)
      ensures ptr != 0 ==> heap == Take(old(heap), size, bufferSize).0
      ensures ptr != 0 ==> ptr == base + old(heap).lists[Class(size)][0] + HEADER
      ensures ptr != 0 ==> ptr - base - HEADER !in old(heap).live
    {
      hide Shows, Class;
      ghost var heads := freeLists[..];
      var index: nat := Class(size);
      ShownHeads(heap, bufferSize, words, base, heads, index);
      var head: nat := freeLists[index];
      if head == 0 {
        return 0;
      }
      PopShows(heap, bufferSize, words, base, heads, index, size);
      freeLists[index] := words[head];
      words := words[head := size];
      heap := Take(heap, size, bufferSize).0;
      assert freeLists[..] == heads[index := freeLists[index]];
      ptr := head + HEADER;
    }

    method AllocFromBuffer(size: nat) returns (ptr: nat)
      requires Valid() && 0 <= Class(size) < CACHE_SIZE && size >= MIN_BLOCK_SIZE
      requires heap.lists[Class(size)] == []
      modifies this`words, this`heap, this`cursor
      ensures Valid() && heap == Take(old(heap), size, bufferSize).0
      ensures ptr == 0 <==> old(cursor) + size > bufferSize
      ensures ptr != 0 ==> ptr == base + old(heap).cursor + HEADER && old(heap).cursor !in old(heap).live
    {
      hide Shows, Class;
      if cursor + size > bufferSize {
        return 0;
      }
      CarveShows(heap, bufferSize, words, base, freeLists[..], size);
      var at := base + cursor;
      heap := Take(heap, size, bufferSize).0;
      cursor := cursor + size;
      words := words[at := size];
      ptr := at + HEADER;
    }

    /** Takes a live block back onto the list of the size its header shows; null is no operation. */
    method Free(ptr: nat)
      requires Valid() && (ptr != 0 ==> ptr >= base + HEADER && ptr - base - HEADER in heap.live)
      modifies this`words, this`heap, freeLists
      ensures Valid()
      ensures ptr == 0 ==> heap == old(heap)
      ensures ptr != 0 ==> heap == Perform(old(heap), Release(ptr - base - HEADER), bufferSize, false)
    {
      hide Shows, Class, Give, Perform;
      if ptr == 0 {
        return;
      }
      ghost var b: nat, heads := ptr - base - HEADER, freeLists[..];
      PushShows(heap, bufferSize, words, base, heads, b);
      ReleaseGives(heap, b, bufferSize);
      var handle: nat := ptr - HEADER;
      assert handle == base + b;
      var size: nat := words[handle];
      var index: nat := Class(size);
      words := words[handle := freeLists[index]];
      freeLists[index] := handle;
      heap := Give(heap, b);
      assert freeLists[..] == heads[index := handle];
    }
  }
}
