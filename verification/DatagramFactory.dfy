/** The factory behind every datagram: two pools, for data and for control data, moved in lock step. */
module DatagramFactories {
  import opened Bytes
  import opened Pools

  const DATA_BUFFER: nat := 0xFFFF
  const CONTROL_BUFFER: nat := 0x80

  /** A datagram as the factory sees it: the addresses of its two buffers, 0 for none. */
  datatype Datagram = Datagram(data: nat, control: nat)

  ghost function UsedSlots(p: Pool): set<nat>
  {
    set i: nat | i < |p.used| && p.used[i]
  }

  lemma UsedAfterTake(p: Pool)
    requires InRange(p)
    ensures Taken(p).1.None? <==> Full(p)
    ensures Taken(p).1.None? ==> Taken(p).0 == p
    ensures Taken(p).1.Some? ==> Taken(p).1.value !in UsedSlots(p)
    ensures Taken(p).1.Some? ==> UsedSlots(Taken(p).0) == UsedSlots(p) + {Taken(p).1.value}
  {
    RefusedIffFull(p);
    if Taken(p).1.Some? {
      TakenIsNearest(p, Taken(p).1.value, 0);
    }
  }

  lemma UsedAfterFree(p: Pool, slot: nat)
    ensures UsedSlots(Freed(p, slot)) == UsedSlots(p) - {slot}
  {
  }

  class DatagramFactory {
    const dataPool: PoolOfBuffers
    const controlPool: PoolOfBuffers
    /** The slots of the datagrams that have been assembled and not yet reclaimed. */
    ghost var live: set<nat>

    ghost predicate Valid()
      reads this, dataPool, controlPool, dataPool.used, controlPool.used
    {
      && dataPool != controlPool && dataPool.used != controlPool.used
      && dataPool.Valid() && controlPool.Valid()
      && dataPool.bufSz == DATA_BUFFER && controlPool.bufSz == CONTROL_BUFFER
      && dataPool.Contents() == controlPool.Contents()
      && live == UsedSlots(dataPool.Contents())
    }

    /** The two buffers of a datagram are the same slot of the two pools. */
    predicate Occupies(d: Datagram, slot: nat)
    {
      && d.data == dataPool.buffer + slot * dataPool.bufSz
      && d.control == controlPool.buffer + slot * controlPool.bufSz
    }

    constructor (poolSize: nat, data: nat, control: nat)
      requires poolSize > 0 && 0 < data < WORD && data + poolSize * DATA_BUFFER <= WORD
      requires 0 < control < WORD && control + poolSize * CONTROL_BUFFER <= WORD
      ensures Valid() && live == {} && dataPool.poolSize == poolSize
      ensures fresh(dataPool) && fresh(controlPool) && fresh(dataPool.used) && fresh(controlPool.used)
    {
      dataPool := new PoolOfBuffers(DATA_BUFFER, poolSize, data);
      controlPool := new PoolOfBuffers(CONTROL_BUFFER, poolSize, control);
      live := {};
    }

    /** An empty pool is refused. */
    static method Instantiate(poolSize: nat, data: nat, control: nat) returns (factory: DatagramFactory?)
      requires 0 < data < WORD && data + poolSize * DATA_BUFFER <= WORD
      requires 0 < control < WORD && control + poolSize * CONTROL_BUFFER <= WORD
      ensures factory == null <==> poolSize == 0
      ensures factory != null ==> fresh(factory) && factory.Valid() && factory.live == {}
      ensures factory != null ==> factory.dataPool.poolSize == poolSize
    {
      if poolSize == 0 {
        return null;
      }
      factory := new DatagramFactory(poolSize, data, control);
    }

    /** Takes one slot of each pool: the same one, not held by any live datagram. The assembly is invalid
        exactly when every slot is held; it then has neither buffer. */
    method InitializeDatagramBuffers() returns (d: Datagram, valid: bool, ghost slot: nat)
      requires Valid()
      modifies this`live, dataPool`cursor, controlPool`cursor, dataPool.used, controlPool.used
      ensures Valid() && dataPool.Contents() == Taken(old(dataPool.Contents())).0
      ensures valid <==> !Full(old(dataPool.Contents()))
      ensures valid ==> slot !in old(live) && slot < dataPool.poolSize && Occupies(d, slot)
      ensures valid ==> live == old(live) + {slot}
      ensures valid ==> d.data + 0xFFFF <= dataPool.buffer + dataPool.poolSize * dataPool.bufSz
      ensures valid ==> d.control + 0x80 <= controlPool.buffer + controlPool.poolSize * controlPool.bufSz
      ensures !valid ==> d == Datagram(0, 0) && live == old(live) && dataPool.Contents() == old(dataPool.Contents())
    {
      ghost var was := dataPool.Contents();
      UsedAfterTake(was);
      hide Taken, Full, UsedSlots;
      slot := if Taken(was).1.Some? then Taken(was).1.value else 0;
      var data := dataPool.Alloc();
      var control := controlPool.Alloc();
      d := Datagram(data, control);
      valid := data != 0 && control != 0;
      if valid {
        live := live + {slot};
      }
    }

    /** Gives both buffers back; the slot is free again in both pools. */
    method Reclaim(d: Datagram, ghost slot: nat) returns (ok: bool)
      requires Valid() && (d != Datagram(0, 0) ==> slot in live && Occupies(d, slot))
      modifies this`live, dataPool.used, controlPool.used
      ensures ok && Valid()
      ensures live == if d == Datagram(0, 0) then old(live) else old(live) - {slot}
    {
      ghost var was := dataPool.Contents();
      UsedAfterFree(was, slot);
      assert slot in live ==> slot < dataPool.poolSize && dataPool.used[slot];
      hide UsedSlots, Freed;
      ok := dataPool.Free(d.data);
      var also := controlPool.Free(d.control);
      ok := ok && also;
      if d.data != 0 {
        live := live - {slot};
      }
    }
  }
}
