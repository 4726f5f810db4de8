/** Pools of equal buffers: a flag per slot and a cursor from which the next free slot is sought. */
module Pools {
  import opened Bytes
  import opened Modular

  /** One past the largest address; pointer differences wrap here. */
  const WORD: nat := 0x1_0000_0000_0000_0000

  datatype Pool = Pool(used: seq<bool>, cursor: nat)

  predicate InRange(p: Pool)
  {
    p.cursor < |p.used|
  }

  predicate Full(p: Pool)
  {
    forall i :: 0 <= i < |p.used| ==> p.used[i]
  }

  /** The slot k places on from the cursor. */
  function SlotAt(p: Pool, k: nat): (slot: nat)
    requires InRange(p)
    ensures slot < |p.used|
  {
    (p.cursor + k) % |p.used|
  }

  /** How far on from the cursor the first free slot is, from k places on. */
  function FirstFree(p: Pool, k: nat): (r: Option<nat>)
    requires InRange(p) && k <= |p.used|
    ensures r.Some? ==> k <= r.value < |p.used|
    decreases |p.used| - k
  {
    if k == |p.used| then None else if !p.used[SlotAt(p, k)] then Some(k) else FirstFree(p, k + 1)
  }

  /** The pool after an allocation, and the slot taken. */
  function Taken(p: Pool): (r: (Pool, Option<nat>))
    requires InRange(p)
    ensures InRange(r.0) && |r.0.used| == |p.used| && (r.1.Some? ==> r.1.value < |p.used|)
  {
    match FirstFree(p, 0)
    case None => (p, None)
    case Some(k) => (Pool(p.used[SlotAt(p, k) := true], SlotAt(p, k + 1)), Some(SlotAt(p, k)))
  }

  function Freed(p: Pool, slot: nat): Pool
  {
    if slot < |p.used| then p.(used := p.used[slot := false]) else p
  }

  lemma {:induction false} FirstFreeIsFirst(p: Pool, k: nat)
    requires InRange(p) && k <= |p.used|
    ensures FirstFree(p, k).None? ==> forall j :: k <= j < |p.used| ==> p.used[SlotAt(p, j)]
    ensures FirstFree(p, k).Some? ==> !p.used[SlotAt(p, FirstFree(p, k).value)]
    ensures FirstFree(p, k).Some? ==> forall j :: k <= j < FirstFree(p, k).value ==> p.used[SlotAt(p, j)]
    decreases |p.used| - k
  {
    hide SlotAt;
    if k < |p.used| {
      FirstFreeIsFirst(p, k + 1);
    }
  }

  /** How far on from one cell of a ring another one is. */
  lemma RingReach(from: nat, to: nat, size: nat) returns (k: nat)
    requires from < size && to < size
    ensures k < size && (from + k) % size == to
  {
    k := if to >= from then to - from else to + size - from;
    QuotientUnique(from, size, 0, from);
    RingOffset(from, k, size);
  }

  lemma RingNext(x: nat, size: nat)
    requires size > 0
    ensures (x + 1) % size == (x % size + 1) % size
  {
    RingOffset(x, 1, size);
    if x % size + 1 < size {
      QuotientUnique(x % size + 1, size, 0, x % size + 1);
    }
  }

  lemma RingWhole(from: nat, k: nat, size: nat)
    requires from < size && 0 < k <= size
    ensures (from + k) % size == from <==> k == size
  {
    QuotientUnique(from, size, 0, from);
    RingOffset(from, k, size);
  }

  /** Going once round visits every slot, each at one distance only. */
  lemma OnceRound(p: Pool, slot: nat) returns (k: nat)
    requires InRange(p) && slot < |p.used|
    ensures k < |p.used| && SlotAt(p, k) == slot
    ensures forall j :: 0 <= j < |p.used| && j != k ==> SlotAt(p, j) != slot
  {
    k := RingReach(p.cursor, slot, |p.used|);
    forall j | 0 <= j < |p.used| && j != k ensures SlotAt(p, j) != SlotAt(p, k) {
      SlotsDiffer(p, j, k);
    }
  }

  lemma SlotsDiffer(p: Pool, j: nat, k: nat)
    requires InRange(p) && j < |p.used| && k < |p.used| && j != k
    ensures SlotAt(p, j) != SlotAt(p, k)
  {
    if j < k {
      RingDistinct(p.cursor + j, p.cursor + k, |p.used|);
    } else {
      RingDistinct(p.cursor + k, p.cursor + j, |p.used|);
    }
  }

  /** An allocation fails exactly when every slot is used, and leaves the pool as it was. */
  lemma RefusedIffFull(p: Pool)
    requires InRange(p)
    ensures Taken(p).1.None? <==> Full(p)
    ensures Taken(p).1.None? ==> Taken(p).0 == p
  {
    FirstFreeIsFirst(p, 0);
    hide SlotAt;
    if FirstFree(p, 0).None? {
      forall i | 0 <= i < |p.used| ensures p.used[i] {
        var k := OnceRound(p, i);
      }
    }
  }

  /** Otherwise the slot taken is the nearest free one: every other free slot is farther from the cursor. */
  lemma TakenIsNearest(p: Pool, slot: nat, k: nat)
    requires InRange(p) && k < |p.used| && Taken(p).1 == Some(slot)
    ensures !p.used[slot] && Taken(p).0.used == p.used[slot := true]
    ensures !p.used[SlotAt(p, k)] ==> FirstFree(p, 0).value <= k
    ensures SlotAt(p, k) == slot ==> FirstFree(p, 0) == Some(k)
  {
    hide SlotAt;
    FirstFreeIsFirst(p, 0);
    var d := FirstFree(p, 0).value;
    var k' := OnceRound(p, slot);
    assert d == k';
  }

  /** The search goes on behind it. */
  lemma CursorPassesTaken(p: Pool, slot: nat)
    requires InRange(p) && Taken(p).1 == Some(slot)
    ensures Taken(p).0.cursor == (slot + 1) % |p.used|
  {
    hide SlotAt;
    NextSlot(p, FirstFree(p, 0).value);
  }

  lemma NextSlot(p: Pool, k: nat)
    requires InRange(p)
    ensures SlotAt(p, k + 1) == (SlotAt(p, k) + 1) % |p.used|
  {
    RingNext(p.cursor + k, |p.used|);
  }

  /** Taking a slot and giving it back restores every flag; only the cursor has moved. */
  lemma TakeFreeRestores(p: Pool)
    requires InRange(p) && Taken(p).1.Some?
    ensures Freed(Taken(p).0, Taken(p).1.value).used == p.used
  {
    TakenIsNearest(p, Taken(p).1.value, 0);
  }

  // ---- Addresses ----

  /** The index an address is turned into, with the wrap-around of the unsigned division. */
  function SlotOf(ptr: nat, buffer: nat, bufSz: nat): nat
    requires bufSz > 0 && buffer < WORD
  {
    (if ptr >= buffer then ptr - buffer else WORD - (buffer - ptr)) / bufSz
  }

  predicate InSlot(ptr: nat, buffer: nat, bufSz: nat, slot: nat)
  {
    buffer + slot * bufSz <= ptr < buffer + slot * bufSz + bufSz
  }

  lemma QuotientIff(x: nat, size: nat, q: nat)
    requires size > 0
    ensures x / size == q <==> q * size <= x < q * size + size
  {
    var q', r := x / size, x % size;
    assert x == size * q' + r;
    if q < q' {
      MultipleAtLeast(size, q' - q);
    } else if q' < q {
      MultipleAtLeast(size, q - q');
    }
  }

  /** The index is a slot of the pool exactly for the addresses inside that slot; addresses before the
      pool wrap to an index past its end. */
  lemma SlotOfIff(ptr: nat, buffer: nat, bufSz: nat, poolSize: nat, slot: nat)
    requires bufSz > 0 && buffer < WORD && buffer + poolSize * bufSz <= WORD && slot < poolSize
    ensures SlotOf(ptr, buffer, bufSz) == slot <==> InSlot(ptr, buffer, bufSz, slot)
  {
    if ptr >= buffer {
      QuotientIff(ptr - buffer, bufSz, slot);
    } else {
      QuotientIff(WORD - (buffer - ptr), bufSz, slot);
      MultipleAtLeast(bufSz, poolSize - slot);
      assert poolSize * bufSz == slot * bufSz + bufSz * (poolSize - slot);
    }
  }

  class PoolOfBuffers {
    const buffer: nat
    const bufSz: nat
    const poolSize: nat
    const used: array<bool>
    var cursor: nat

    predicate Valid()
      reads this
    {
      && 0 < buffer < WORD && bufSz > 0 && buffer + poolSize * bufSz <= WORD
      && poolSize == used.Length && cursor < poolSize
    }

    function Contents(): Pool
      reads this, used
    {
      Pool(used[..], cursor)
    }

    constructor (bufSz: nat, poolSize: nat, buffer: nat)
      requires poolSize > 0 && bufSz > 0 && 0 < buffer < WORD && buffer + poolSize * bufSz <= WORD
      ensures Valid() && fresh(used) && Contents() == Pool(seq(poolSize, i => false), 0)
      ensures this.buffer == buffer && this.bufSz == bufSz && this.poolSize == poolSize
    {
      this.bufSz := bufSz;
      this.poolSize := poolSize;
      this.buffer := buffer;
      used := new bool[poolSize](i => false);
      cursor := 0;
      new;
      assert used[..] == seq(poolSize, i => false);
    }

    /** An empty pool is refused. */
    static method Make(bufSz: nat, poolSize: nat, buffer: nat) returns (pool: PoolOfBuffers?)
      requires bufSz > 0 && 0 < buffer < WORD && buffer + poolSize * bufSz <= WORD
      ensures pool == null <==> poolSize == 0
      ensures pool != null ==> fresh(pool) && fresh(pool.used) && pool.Valid() && pool.poolSize == poolSize
      ensures pool != null ==> pool.Contents() == Pool(seq(poolSize, i => false), 0)
    {
      if poolSize == 0 {
        return null;
      }
      pool := new PoolOfBuffers(bufSz, poolSize, buffer);
    }

    /** The address of the nearest free slot, or 0 after one full round. */
    method Alloc() returns (ptr: nat)
      requires Valid()
      modifies this`cursor, used
      ensures Valid() && Contents() == Taken(old(Contents())).0
      ensures match Taken(old(Contents())).1
        case None => ptr == 0
        case Some(slot) => ptr == buffer + slot * bufSz
    {
      ghost var was := Contents();
      var backupCursor := cursor;
      ghost var k := 0;
      while true
        invariant Valid() && k < poolSize && used[..] == was.used && cursor == SlotAt(was, k)
        invariant FirstFree(was, 0) == FirstFree(was, k)
        decreases poolSize - k
      {
        var current := cursor;
        cursor := (cursor + 1) % poolSize;
        NextSlot(was, k);
        if !used[current] {
          used[current] := true;
          return buffer + current * bufSz;
        }
        RingWhole(was.cursor, k + 1, poolSize);
        if cursor == backupCursor {
          return 0;
        }
        k := k + 1;
      }
    }

    /** Gives the slot an address lies in back; refuses addresses outside the pool and free slots. */
    method Free(ptr: nat) returns (ok: bool)
      requires Valid()
      modifies used
      ensures Valid() && cursor == old(cursor)
      ensures ok <==>
        (ptr == 0 || exists slot: nat :: slot < poolSize && InSlot(ptr, buffer, bufSz, slot) && old(used[slot]))
      ensures ptr == 0 || !ok ==> Contents() == old(Contents())
      ensures forall slot: nat :: ptr != 0 && ok && slot < poolSize && InSlot(ptr, buffer, bufSz, slot) ==>
        Contents() == Freed(old(Contents()), slot)
    {
      if ptr == 0 {
        return true;
      }
      var index := SlotOf(ptr, buffer, bufSz);
      forall slot: nat | slot < poolSize
        ensures SlotOf(ptr, buffer, bufSz) == slot <==> InSlot(ptr, buffer, bufSz, slot)
      {
        SlotOfIff(ptr, buffer, bufSz, poolSize, slot);
      }
      hide SlotOf, InSlot;
      if index < poolSize && used[index] {
        used[index] := false;
        ok := true;
      } else {
        ok := false;
      }
    }
  }
}
