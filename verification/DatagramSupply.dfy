/** Datagrams of many threads from one factory. A datagram takes and gives back its data buffer and its
    control buffer in two calls, between which other threads make theirs; each call is one step. */
module DatagramSupply {
  import opened Bytes
  import opened Counting
  import opened Pools

  /** What a thread assembles a datagram for: the DATA message it is sending, a datagram it receives, or
      the ACK, ERROR or refusal it answers with. */
  datatype Purpose = DataMessage | Received | Reply

  /** The slots of the two buffers; none where the pool had none. */
  datatype Datagram = Datagram(purpose: Purpose, data: Option<nat>, control: Option<nat>)

  /** Between the two calls: has its data buffer and not yet its control buffer, or has given the data buffer
      back and not yet the control buffer. */
  datatype Doing = Ready | Assembling(purpose: Purpose, data: Option<nat>) | Reclaiming(control: Option<nat>)

  /** The live datagrams of a thread, the innermost scope last. */
  datatype Thread = Thread(held: seq<Datagram>, doing: Doing)

  /** A pool, and for each slot the thread that was given it. */
  datatype Side = Side(pool: Pool, owner: seq<Option<nat>>)

  datatype State = State(data: Side, control: Side, threads: seq<Thread>)
  datatype Action = Build(t: nat, purpose: Purpose) | Drop(t: nat) | Finish(t: nat)

  /** What may be assembled while these are alive: an answer to a received datagram; while a DATA message
      is alive, the datagram with its ACK or an ERROR; nothing beside those. */
  predicate MayBuild(held: seq<Datagram>, purpose: Purpose)
  {
    match |held|
    case 0 => true
    case 1 => (held[0].purpose.DataMessage? && !purpose.DataMessage?) || (held[0].purpose.Received? && purpose.Reply?)
    case _ => false
  }

  predicate Sized(s: Side)
  {
    InRange(s.pool) && |s.owner| == |s.pool.used|
  }

  function Take(s: Side, t: nat): (r: (Side, Option<nat>))
    requires Sized(s)
    ensures Sized(r.0) && |r.0.owner| == |s.owner| && (r.1.Some? ==> r.1.value < |s.owner|)
  {
    var (pool, slot) := Taken(s.pool);
    if slot.Some? then (Side(pool, s.owner[slot.value := Some(t)]), slot) else (s, None)
  }

  function Release(s: Side, slot: Option<nat>): (r: Side)
    requires Sized(s)
    ensures Sized(r) && |r.owner| == |s.owner|
  {
    if slot.Some? && slot.value < |s.owner|
    then Side(Freed(s.pool, slot.value), s.owner[slot.value := None]) else s
  }

  function SetThread(s: State, t: nat, u: Thread): State
    requires t < |s.threads|
  {
    s.(threads := s.threads[t := u])
  }

  function Step(s: State, a: Action): (r: State)
    requires Sized(s.data) && Sized(s.control)
    ensures Sized(r.data) && Sized(r.control) && |r.threads| == |s.threads|
    ensures |r.data.owner| == |s.data.owner| && |r.control.owner| == |s.control.owner|
  {
    if a.t >= |s.threads| then s
    else
      var u := s.threads[a.t];
      match a
      case Build(t, purpose) =>
        if !u.doing.Ready? || !MayBuild(u.held, purpose) then s
        else
          var (side, slot) := Take(s.data, t);
          SetThread(s, t, u.(doing := Assembling(purpose, slot))).(data := side)
      case Drop(t) =>
        if !u.doing.Ready? || u.held == [] then s
        else
          var d := u.held[|u.held| - 1];
          SetThread(s, t, Thread(u.held[..|u.held| - 1], Reclaiming(d.control))).(data := Release(s.data, d.data))
      case Finish(t) =>
        match u.doing
        case Ready => s
        case Assembling(purpose, data) =>
          var (side, slot) := Take(s.control, t);
          SetThread(s, t, Thread(u.held + [Datagram(purpose, data, slot)], Ready)).(control := side)
        case Reclaiming(control) =>
          SetThread(s, t, u.(doing := Ready)).(control := Release(s.control, control))
  }

  function Fresh(size: nat): Side
  {
    Side(Pool(seq(size, i => false), 0), seq(size, i => None))
  }

  function Init(size: nat, n: nat): State
  {
    State(Fresh(size), Fresh(size), seq(n, i => Thread([], Ready)))
  }

  ghost function Exec(size: nat, n: nat, acts: seq<Action>): (s: State)
    requires size > 0
    ensures Sized(s.data) && Sized(s.control) && |s.data.owner| == |s.control.owner| == size && |s.threads| == n
  {
    if acts == [] then Init(size, n) else Step(Exec(size, n, acts[..|acts| - 1]), acts[|acts| - 1])
  }

  // ---- One pool and the slots of its threads ----

  function Mine(t: nat): Option<nat> -> nat
  {
    (o: Option<nat>) => if o == Some(t) then 1 else 0
  }

  function Below(n: nat): Option<nat> -> nat
  {
    (o: Option<nat>) => if o.Some? && o.value < n then 1 else 0
  }

  /** The slots in a list that are there. */
  function Slots(list: seq<Option<nat>>): (slots: seq<nat>)
    ensures |slots| <= |list|
  {
    if list == [] then []
    else
      var last := list[|list| - 1];
      Slots(list[..|list| - 1]) + if last.Some? then [last.value] else []
  }

  lemma SlotsMore(list: seq<Option<nat>>, slot: Option<nat>)
    ensures Slots(list + [slot]) == Slots(list) + if slot.Some? then [slot.value] else []
  {
    assert (list + [slot])[..|list|] == list;
  }

  predicate Holds(slots: seq<nat>, slot: nat)
  {
    exists k :: 0 <= k < |slots| && slots[k] == slot
  }

  /** The slots of thread t are the ones it owns, one each. */
  ghost predicate Owns(owner: seq<Option<nat>>, t: nat, slots: seq<nat>)
  {
    && |slots| <= 2 && Total(owner, Mine(t)) == |slots|
    && (forall i :: 0 <= i < |slots| ==> slots[i] < |owner| && owner[slots[i]] == Some(t))
    && (|slots| == 2 ==> slots[0] != slots[1])
    && (forall slot :: 0 <= slot < |owner| && owner[slot] == Some(t) ==> Holds(slots, slot))
  }

  /** A slot is used exactly while it has an owner, which has it in its list. */
  ghost predicate Kept(s: Side, lists: seq<seq<Option<nat>>>)
  {
    && Sized(s)
    && (forall i :: 0 <= i < |s.owner| ==> (s.pool.used[i] <==> s.owner[i].Some?))
    && (forall i :: 0 <= i < |s.owner| && s.owner[i].Some? ==> s.owner[i].value < |lists|)
    && (forall t :: 0 <= t < |lists| ==> Owns(s.owner, t, Slots(lists[t])))
  }

  lemma OwnsAfterTake(owner: seq<Option<nat>>, t: nat, slots: seq<nat>, slot: nat, taker: nat)
    requires Owns(owner, t, slots) && slot < |owner| && owner[slot].None?
    ensures t != taker ==> Owns(owner[slot := Some(taker)], t, slots)
    ensures t == taker && |slots| < 2 ==> Owns(owner[slot := Some(taker)], t, slots + [slot])
  {
    TotalUpdate(owner, slot, Some(taker), Mine(t));
    hide Total;
    if t == taker {
      HoldsMore(slots, slot);
    }
  }

  lemma HoldsMore(slots: seq<nat>, slot: nat)
    ensures Holds(slots + [slot], slot) && forall x :: Holds(slots, x) ==> Holds(slots + [slot], x)
  {
    assert (slots + [slot])[|slots|] == slot;
    forall x | Holds(slots, x) ensures Holds(slots + [slot], x) {
      var k :| 0 <= k < |slots| && slots[k] == x;
      assert (slots + [slot])[k] == x;
    }
  }

  lemma OwnsAfterOther(owner: seq<Option<nat>>, t: nat, slots: seq<nat>, slot: nat)
    requires Owns(owner, t, slots) && slot < |owner| && owner[slot] != Some(t)
    ensures Owns(owner[slot := None], t, slots)
  {
    TotalUpdate(owner, slot, None, Mine(t));
    hide Holds;
  }

  lemma OwnsAfterRelease(owner: seq<Option<nat>>, t: nat, slots: seq<nat>)
    requires Owns(owner, t, slots) && slots != []
    ensures Owns(owner[slots[|slots| - 1] := None], t, slots[..|slots| - 1])
  {
    var slot, left := slots[|slots| - 1], slots[..|slots| - 1];
    TotalUpdate(owner, slot, None, Mine(t));
    hide Total;
    forall i | 0 <= i < |owner| && i != slot && Holds(slots, i) ensures Holds(left, i) {
      var k :| 0 <= k < |slots| && slots[k] == i;
      assert left[k] == i;
    }
    hide Holds;
  }

  lemma TakeKeeps(s: Side, lists: seq<seq<Option<nat>>>, t: nat)
    requires Kept(s, lists) && t < |lists| && |lists[t]| <= 1
    ensures var (side, slot) := Take(s, t); Kept(side, lists[t := lists[t] + [slot]])
  {
    var slot := Taken(s.pool).1;
    SlotsMore(lists[t], slot);
    if slot.Some? {
      TakenIsNearest(s.pool, slot.value, 0);
      hide Taken, Slots;
      var owner, lists' := s.owner[slot.value := Some(t)], lists[t := lists[t] + [slot]];
      forall u | 0 <= u < |lists| ensures Owns(owner, u, Slots(lists'[u])) {
        assert Owns(s.owner, u, Slots(lists[u]));
        hide Owns;
        OwnsAfterTake(s.owner, u, Slots(lists[u]), slot.value, t);
      }
      hide Owns;
    } else {
      hide Taken, Slots, Owns;
      assert Slots(lists[t]) + [] == Slots(lists[t]);
    }
  }

  /** The last slot of a thread given back: everybody's slots, its own one fewer. */
  lemma OwnedAfterRelease(s: Side, lists: seq<seq<Option<nat>>>, t: nat, slot: nat, rest: seq<seq<Option<nat>>>)
    requires Kept(s, lists) && t < |lists| == |rest| && rest == lists[t := rest[t]]
    requires Slots(lists[t]) == Slots(rest[t]) + [slot]
    ensures slot < |s.owner| && s.owner[slot] == Some(t)
    ensures forall u :: 0 <= u < |rest| ==> Owns(s.owner[slot := None], u, Slots(rest[u]))
  {
    hide Slots;
    var slots := Slots(lists[t]);
    assert Owns(s.owner, t, slots);
    assert slots[|slots| - 1] == slot && slots[..|slots| - 1] == Slots(rest[t]);
    OwnsAfterRelease(s.owner, t, slots);
    hide Total, Holds;
    forall u | 0 <= u < |rest| ensures Owns(s.owner[slot := None], u, Slots(rest[u])) {
      if u != t {
        assert rest[u] == lists[u] && Owns(s.owner, u, Slots(lists[u]));
        OwnsAfterOther(s.owner, u, Slots(lists[u]), slot);
      }
    }
  }

  lemma ReleaseKeeps(s: Side, lists: seq<seq<Option<nat>>>, t: nat)
    requires Kept(s, lists) && t < |lists| && lists[t] != []
    ensures var slot := lists[t][|lists[t]| - 1];
      Kept(Release(s, slot), lists[t := lists[t][..|lists[t]| - 1]])
  {
    var left, slot := lists[t][..|lists[t]| - 1], lists[t][|lists[t]| - 1];
    assert lists[t] == left + [slot];
    SlotsMore(left, slot);
    hide Slots, Owns;
    if slot.Some? {
      OwnedAfterRelease(s, lists, t, slot.value, lists[t := left]);
    } else {
      assert Slots(left) + [] == Slots(left);
    }
  }

  // ---- Both pools ----

  function DataOf(u: Thread): seq<Option<nat>>
  {
    seq(|u.held|, i requires 0 <= i < |u.held| => u.held[i].data) + if u.doing.Assembling? then [u.doing.data] else []
  }

  function ControlOf(u: Thread): seq<Option<nat>>
  {
    seq(|u.held|, i requires 0 <= i < |u.held| => u.held[i].control)
    + if u.doing.Reclaiming? then [u.doing.control] else []
  }

  function DataLists(threads: seq<Thread>): seq<seq<Option<nat>>>
  {
    seq(|threads|, t requires 0 <= t < |threads| => DataOf(threads[t]))
  }

  function ControlLists(threads: seq<Thread>): seq<seq<Option<nat>>>
  {
    seq(|threads|, t requires 0 <= t < |threads| => ControlOf(threads[t]))
  }

  lemma ListsUpdate(threads: seq<Thread>, t: nat, u: Thread)
    requires t < |threads|
    ensures DataLists(threads[t := u]) == DataLists(threads)[t := DataOf(u)]
    ensures ControlLists(threads[t := u]) == ControlLists(threads)[t := ControlOf(u)]
  {
    hide DataOf, ControlOf;
  }

  /** At most two datagrams, one being assembled or reclaimed included. */
  predicate Nested(u: Thread)
  {
    |u.held| + (if u.doing.Ready? then 0 else 1) <= 2
  }

  ghost predicate Inv(s: State)
  {
    && Kept(s.data, DataLists(s.threads)) && Kept(s.control, ControlLists(s.threads))
    && forall t :: 0 <= t < |s.threads| ==> Nested(s.threads[t])
  }

  lemma ListsOfBuild(u: Thread, purpose: Purpose, slot: Option<nat>)
    requires u.doing.Ready?
    ensures var v := u.(doing := Assembling(purpose, slot));
      DataOf(v) == DataOf(u) + [slot] && ControlOf(v) == ControlOf(u)
  {
  }

  lemma ListsOfDrop(u: Thread)
    requires u.doing.Ready? && u.held != []
    ensures var n := |u.held| - 1;
      var v := Thread(u.held[..n], Reclaiming(u.held[n].control));
      && |DataOf(u)| == n + 1 && DataOf(u)[n] == u.held[n].data
      && DataOf(v) == DataOf(u)[..n] && ControlOf(v) == ControlOf(u)
  {
  }

  lemma ListsOfAssembled(u: Thread, slot: Option<nat>)
    requires u.doing.Assembling?
    ensures var v := Thread(u.held + [Datagram(u.doing.purpose, u.doing.data, slot)], Ready);
      DataOf(v) == DataOf(u) && ControlOf(v) == ControlOf(u) + [slot]
  {
  }

  lemma ListsOfReclaimed(u: Thread)
    requires u.doing.Reclaiming?
    ensures var n, v := |u.held|, u.(doing := Ready);
      && |ControlOf(u)| == n + 1 && ControlOf(u)[n] == u.doing.control
      && ControlOf(v) == ControlOf(u)[..n] && DataOf(v) == DataOf(u)
  {
  }

  lemma BuildKeepsInv(s: State, a: Action)
    requires Inv(s) && a.Build? && a.t < |s.threads|
    requires s.threads[a.t].doing.Ready? && MayBuild(s.threads[a.t].held, a.purpose)
    ensures Inv(Step(s, a))
  {
    var u, slot := s.threads[a.t], Take(s.data, a.t).1;
    ListsOfBuild(u, a.purpose, slot);
    ListsUpdate(s.threads, a.t, u.(doing := Assembling(a.purpose, slot)));
    assert |DataOf(u)| == |u.held|;
    hide Kept, DataOf, ControlOf, Take;
    TakeKeeps(s.data, DataLists(s.threads), a.t);
    SameList(ControlLists(s.threads), a.t);
  }

  lemma SameList(lists: seq<seq<Option<nat>>>, t: nat)
    requires t < |lists|
    ensures lists[t := lists[t]] == lists
  {
  }

  lemma DropKeepsInv(s: State, a: Action)
    requires Inv(s) && a.Drop? && a.t < |s.threads| && s.threads[a.t].doing.Ready? && s.threads[a.t].held != []
    ensures Inv(Step(s, a))
  {
    var u := s.threads[a.t];
    var n := |u.held| - 1;
    ListsOfDrop(u);
    ListsUpdate(s.threads, a.t, Thread(u.held[..n], Reclaiming(u.held[n].control)));
    hide Kept, DataOf, ControlOf, Release;
    ReleaseKeeps(s.data, DataLists(s.threads), a.t);
    SameList(ControlLists(s.threads), a.t);
  }

  lemma AssembledKeepsInv(s: State, a: Action)
    requires Inv(s) && a.Finish? && a.t < |s.threads| && s.threads[a.t].doing.Assembling?
    ensures Inv(Step(s, a))
  {
    var u, slot := s.threads[a.t], Take(s.control, a.t).1;
    ListsOfAssembled(u, slot);
    ListsUpdate(s.threads, a.t, Thread(u.held + [Datagram(u.doing.purpose, u.doing.data, slot)], Ready));
    assert |ControlOf(u)| == |u.held|;
    assert Nested(u);
    hide Kept, DataOf, ControlOf, Take;
    TakeKeeps(s.control, ControlLists(s.threads), a.t);
    SameList(DataLists(s.threads), a.t);
  }

  lemma ReclaimedKeepsInv(s: State, a: Action)
    requires Inv(s) && a.Finish? && a.t < |s.threads| && s.threads[a.t].doing.Reclaiming?
    ensures Inv(Step(s, a))
  {
    var u := s.threads[a.t];
    ListsOfReclaimed(u);
    ListsUpdate(s.threads, a.t, u.(doing := Ready));
    hide Kept, DataOf, ControlOf, Release;
    ReleaseKeeps(s.control, ControlLists(s.threads), a.t);
    SameList(DataLists(s.threads), a.t);
  }

  lemma StepKeepsInv(s: State, a: Action)
    requires Inv(s)
    ensures Inv(Step(s, a))
  {
    hide Kept, Take, Release;
    if a.t < |s.threads| {
      var u := s.threads[a.t];
      if a.Build? && u.doing.Ready? && MayBuild(u.held, a.purpose) {
        BuildKeepsInv(s, a);
      } else if a.Drop? && u.doing.Ready? && u.held != [] {
        DropKeepsInv(s, a);
      } else if a.Finish? && u.doing.Assembling? {
        AssembledKeepsInv(s, a);
      } else if a.Finish? && u.doing.Reclaiming? {
        ReclaimedKeepsInv(s, a);
      }
    }
  }

  lemma FreshKept(size: nat, lists: seq<seq<Option<nat>>>)
    requires size > 0 && forall t :: 0 <= t < |lists| ==> lists[t] == []
    ensures Kept(Fresh(size), lists)
  {
    forall t | 0 <= t < |lists| ensures Owns(Fresh(size).owner, t, Slots(lists[t])) {
      TotalZero(Fresh(size).owner, Mine(t));
    }
  }

  lemma {:induction false} InvHolds(size: nat, n: nat, acts: seq<Action>)
    requires size > 0
    ensures Inv(Exec(size, n, acts))
  {
    if acts != [] {
      InvHolds(size, n, acts[..|acts| - 1]);
      hide Inv, Step;
      StepKeepsInv(Exec(size, n, acts[..|acts| - 1]), acts[|acts| - 1]);
    } else {
      var s := Init(size, n);
      FreshKept(size, DataLists(s.threads));
      FreshKept(size, ControlLists(s.threads));
    }
  }

  // ---- Which slots are used ----

  lemma KeptMeans(s: Side, lists: seq<seq<Option<nat>>>, slot: nat)
    requires Kept(s, lists) && slot < |s.owner|
    ensures s.pool.used[slot] <==> exists t :: 0 <= t < |lists| && Holds(Slots(lists[t]), slot)
  {
    if s.pool.used[slot] {
      var t := s.owner[slot].value;
      assert Owns(s.owner, t, Slots(lists[t]));
      assert Holds(Slots(lists[t]), slot);
    }
  }

  /** In every run a slot of either pool is used exactly while some thread has a datagram in it, alive,
      being assembled or being reclaimed. */
  lemma UsedIffHeld(size: nat, n: nat, acts: seq<Action>, slot: nat)
    requires slot < size
    ensures var s := Exec(size, n, acts);
      && (s.data.pool.used[slot] <==>
            exists t :: 0 <= t < |s.threads| && Holds(Slots(DataLists(s.threads)[t]), slot))
      && (s.control.pool.used[slot] <==>
            exists t :: 0 <= t < |s.threads| && Holds(Slots(ControlLists(s.threads)[t]), slot))
  {
    InvHolds(size, n, acts);
    hide Exec, Kept;
    var s := Exec(size, n, acts);
    KeptMeans(s.data, DataLists(s.threads), slot);
    KeptMeans(s.control, ControlLists(s.threads), slot);
  }

  /** And no two threads have one slot of a pool, nor one thread twice. */
  ghost predicate Apart(lists: seq<seq<Option<nat>>>)
  {
    && (forall t, u, slot: nat :: 0 <= t < u < |lists| && Holds(Slots(lists[t]), slot) ==>
          !Holds(Slots(lists[u]), slot))
    && (forall t, i, j :: 0 <= t < |lists| && 0 <= i < j < |Slots(lists[t])| ==>
          Slots(lists[t])[i] != Slots(lists[t])[j])
  }

  lemma KeptApart(s: Side, lists: seq<seq<Option<nat>>>)
    requires Kept(s, lists)
    ensures Apart(lists)
  {
    forall t, slot: nat | 0 <= t < |lists| && Holds(Slots(lists[t]), slot)
      ensures slot < |s.owner| && s.owner[slot] == Some(t)
    {
      assert Owns(s.owner, t, Slots(lists[t]));
    }
    forall t | 0 <= t < |lists| ensures Owns(s.owner, t, Slots(lists[t])) {
    }
  }

  lemma NeverShared(size: nat, n: nat, acts: seq<Action>)
    requires size > 0
    ensures var s := Exec(size, n, acts); Apart(DataLists(s.threads)) && Apart(ControlLists(s.threads))
  {
    InvHolds(size, n, acts);
    hide Exec, Kept, Apart;
    var s := Exec(size, n, acts);
    KeptApart(s.data, DataLists(s.threads));
    KeptApart(s.control, ControlLists(s.threads));
  }

  // ---- How many slots are enough ----

  lemma {:induction false} BelowSplits(owner: seq<Option<nat>>, n: nat)
    ensures Total(owner, Below(n + 1)) == Total(owner, Below(n)) + Total(owner, Mine(n))
  {
    if owner != [] {
      BelowSplits(owner[..|owner| - 1], n);
    }
  }

  /** n threads with at most two slots each hold at most 2n. */
  lemma {:induction false} AtMostTwoEach(owner: seq<Option<nat>>, n: nat)
    requires forall t: nat :: t < n ==> Total(owner, Mine(t)) <= 2
    ensures Total(owner, Below(n)) <= 2 * n
  {
    if n == 0 {
      TotalZero(owner, Below(0));
    } else {
      AtMostTwoEach(owner, n - 1);
      BelowSplits(owner, n - 1);
      assert Total(owner, Mine(n - 1)) <= 2;
    }
  }

  lemma {:induction false} OneLess(owner: seq<Option<nat>>, n: nat, t: nat)
    requires t < n && Total(owner, Mine(t)) <= 1 && forall u: nat :: u < n ==> Total(owner, Mine(u)) <= 2
    ensures Total(owner, Below(n)) < 2 * n
  {
    BelowSplits(owner, n - 1);
    assert Total(owner, Mine(n - 1)) <= 2;
    if t == n - 1 {
      AtMostTwoEach(owner, n - 1);
    } else {
      OneLess(owner, n - 1, t);
    }
  }

  lemma {:induction false} AllOwnedIff(owner: seq<Option<nat>>, n: nat)
    ensures Total(owner, Below(n)) <= |owner|
    ensures Total(owner, Below(n)) == |owner| <==> forall i :: 0 <= i < |owner| ==> owner[i].Some? && owner[i].value < n
  {
    if owner != [] {
      AllOwnedIff(owner[..|owner| - 1], n);
    }
  }

  lemma FullIff(s: Side, lists: seq<seq<Option<nat>>>)
    requires Kept(s, lists)
    ensures Taken(s.pool).1.None? <==> Total(s.owner, Below(|lists|)) == |s.owner|
  {
    RefusedIffFull(s.pool);
    AllOwnedIff(s.owner, |lists|);
  }

  /** A thread with at most one slot finds another one. */
  lemma RoomFor(s: Side, lists: seq<seq<Option<nat>>>, t: nat)
    requires Kept(s, lists) && t < |lists| && |lists[t]| <= 1 && 2 * |lists| <= |s.owner|
    ensures Taken(s.pool).1.Some?
  {
    FullIff(s, lists);
    forall u: nat | u < |lists| ensures Total(s.owner, Mine(u)) <= 2 && (u == t ==> Total(s.owner, Mine(u)) <= 1) {
      assert Owns(s.owner, u, Slots(lists[u]));
    }
    OneLess(s.owner, |lists|, t);
  }

  /** Thread t is about to make a pool call for an assembly and finds that pool empty. */
  ghost predicate Starved(s: State, t: nat, purpose: Purpose)
    requires Sized(s.data) && Sized(s.control)
  {
    && t < |s.threads|
    && ((s.threads[t].doing.Ready? && MayBuild(s.threads[t].held, purpose) && Taken(s.data.pool).1.None?)
        || (s.threads[t].doing.Assembling? && Taken(s.control.pool).1.None?))
  }

  lemma NeverStarved(size: nat, n: nat, acts: seq<Action>, t: nat, purpose: Purpose)
    requires 0 < size && 2 * n <= size
    ensures !Starved(Exec(size, n, acts), t, purpose)
  {
    var s := Exec(size, n, acts);
    InvHolds(size, n, acts);
    hide Exec, Kept, Taken;
    if t < n {
      assert Nested(s.threads[t]);
      if s.threads[t].doing.Ready? && MayBuild(s.threads[t].held, purpose) {
        RoomFor(s.data, DataLists(s.threads), t);
      } else if s.threads[t].doing.Assembling? {
        RoomFor(s.control, ControlLists(s.threads), t);
      }
    }
  }

  /** The server sizes its pools at eight slots per worker; with its workers and one dispatcher no assembly
      ever finds either pool empty. */
  lemma ServerNeverStarved(workers: nat, acts: seq<Action>, t: nat, purpose: Purpose)
    requires workers >= 1
    ensures !Starved(Exec(8 * workers, workers + 1, acts), t, purpose)
  {
    NeverStarved(8 * workers, workers + 1, acts, t, purpose);
  }

  // ---- Fewer than two slots per thread are not enough ----

  /** The threads before k / 2 hold two datagrams, the next one k % 2, the others none. */
  ghost predicate Filled(s: State, k: nat)
  {
    && k < 2 * |s.threads|
    && (forall t :: 0 <= t < |s.threads| ==> s.threads[t].doing.Ready?)
    && (forall t :: 0 <= t < |s.threads| ==>
          |s.threads[t].held| == if 2 * t + 1 < k then 2 else if 2 * t < k then 1 else 0)
    && (forall t :: 0 <= t < |s.threads| && 2 * t + 1 == k ==> s.threads[t].held[0].purpose == DataMessage)
  }

  function NextPurpose(k: nat): Purpose
  {
    if k % 2 == 0 then DataMessage else Received
  }

  lemma NextMayBuild(s: State, k: nat)
    requires Filled(s, k)
    ensures MayBuild(s.threads[k / 2].held, NextPurpose(k))
  {
    assert |s.threads[k / 2].held| == k % 2;
  }

  /** Thread k / 2 assembles its next datagram, both buffers. */
  lemma NextFills(s: State, k: nat)
    requires Sized(s.data) && Sized(s.control) && Filled(s, k) && k + 1 < 2 * |s.threads|
    ensures var t := Step(s, Build(k / 2, NextPurpose(k)));
      var u := Step(t, Finish(k / 2));
      && Filled(u, k + 1) && t.control == s.control
      && u.data == Take(s.data, k / 2).0 && u.control == Take(s.control, k / 2).0
  {
    hide Take;
    NextMayBuild(s, k);
  }

  lemma TakeCounts(s: Side, t: nat, n: nat)
    requires Sized(s) && Taken(s.pool).1.Some? && t < n
    requires forall i :: 0 <= i < |s.owner| ==> (s.pool.used[i] <==> s.owner[i].Some?)
    ensures Total(Take(s, t).0.owner, Below(n)) == Total(s.owner, Below(n)) + 1
  {
    var slot := Taken(s.pool).1.value;
    TakenIsNearest(s.pool, slot, 0);
    TotalUpdate(s.owner, slot, Some(t), Below(n));
  }

  ghost predicate Counted(s: State, k: nat)
  {
    Filled(s, k) && Total(s.data.owner, Below(|s.threads|)) == k == Total(s.control.owner, Below(|s.threads|))
  }

  lemma NextCounts(s: State, k: nat)
    requires Inv(s) && Counted(s, k) && k + 1 < 2 * |s.threads| && k < |s.data.owner| == |s.control.owner|
    ensures Counted(Step(Step(s, Build(k / 2, NextPurpose(k))), Finish(k / 2)), k + 1)
  {
    var n := |s.threads|;
    FullIff(s.data, DataLists(s.threads));
    FullIff(s.control, ControlLists(s.threads));
    TakeCounts(s.data, k / 2, n);
    TakeCounts(s.control, k / 2, n);
    hide Filled, Take, Taken, Total, Step, Kept;
    NextFills(s, k);
  }

  lemma Go(size: nat, n: nat, acts: seq<Action>, a: Action) returns (more: seq<Action>)
    requires size > 0
    ensures Exec(size, n, more) == Step(Exec(size, n, acts), a)
  {
    more := acts + [a];
    assert more[..|acts|] == acts;
  }

  /** Some run takes any number of slots short of two per thread. */
  lemma {:induction false} Fill(size: nat, n: nat, k: nat) returns (acts: seq<Action>)
    requires 0 < size < 2 * n && k <= size
    ensures Inv(Exec(size, n, acts)) && Counted(Exec(size, n, acts), k)
  {
    if k == 0 {
      acts := [];
      InvHolds(size, n, acts);
      TotalZero(Fresh(size).owner, Below(n));
      hide Inv;
    } else {
      var before := Fill(size, n, k - 1);
      acts := FillNext(size, n, before, k - 1);
    }
  }

  lemma FillNext(size: nat, n: nat, before: seq<Action>, k: nat) returns (acts: seq<Action>)
    requires 0 < size < 2 * n && k < size && Inv(Exec(size, n, before)) && Counted(Exec(size, n, before), k)
    ensures Inv(Exec(size, n, acts)) && Counted(Exec(size, n, acts), k + 1)
  {
    hide Exec, Inv, Counted, Step, NextPurpose;
    NextCounts(Exec(size, n, before), k);
    var built := Go(size, n, before, Build(k / 2, NextPurpose(k)));
    acts := Go(size, n, built, Finish(k / 2));
    InvHolds(size, n, acts);
  }

  ghost predicate Suffices(size: nat, n: nat)
    requires size > 0
  {
    forall acts, t, purpose :: !Starved(Exec(size, n, acts), t, purpose)
  }

  lemma FilledStarves(s: State, size: nat)
    requires Inv(s) && Counted(s, size) && |s.data.owner| == size < 2 * |s.threads|
    ensures Starved(s, size / 2, NextPurpose(size))
  {
    FullIff(s.data, DataLists(s.threads));
    NextMayBuild(s, size);
    hide Taken, Kept, Total, MayBuild;
  }

  /** Pools are large enough for n threads exactly when they have two slots for each. */
  lemma SufficesIff(size: nat, n: nat)
    requires size > 0
    ensures Suffices(size, n) <==> 2 * n <= size
  {
    hide Exec, Starved, Inv, Counted;
    if 2 * n <= size {
      forall acts, t, purpose ensures !Starved(Exec(size, n, acts), t, purpose) {
        NeverStarved(size, n, acts, t, purpose);
      }
    } else {
      var acts := Fill(size, n, size);
      FilledStarves(Exec(size, n, acts), size);
    }
  }

  /** What a thread may have at once is reached: a DATA message and the datagram received for it, or a received
      datagram and the answer to it. */
  lemma BothKindsHeld(size: nat, n: nat, purpose: Purpose) returns (acts: seq<Action>)
    requires size > 0 && n >= 1 && !purpose.Reply?
    ensures var held := Exec(size, n, acts).threads[0].held;
      |held| == 2 && held[0].purpose == purpose && held[1].purpose == if purpose.DataMessage? then Received else Reply
  {
    assert Exec(size, n, []).threads[0] == Thread([], Ready);
    hide Exec;
    acts := HoldsOneMore(size, n, [], purpose);
    acts := HoldsOneMore(size, n, acts, if purpose.DataMessage? then Received else Reply);
  }

  lemma HoldsOneMore(size: nat, n: nat, before: seq<Action>, purpose: Purpose) returns (acts: seq<Action>)
    requires size > 0 && n >= 1
    requires var u := Exec(size, n, before).threads[0]; u.doing.Ready? && MayBuild(u.held, purpose)
    ensures var u, v := Exec(size, n, before).threads[0], Exec(size, n, acts).threads[0];
      && v.doing.Ready? && |v.held| == |u.held| + 1 && v.held[..|u.held|] == u.held
      && v.held[|u.held|].purpose == purpose
  {
    hide Exec, Take, MayBuild;
    acts := Go(size, n, before, Build(0, purpose));
    acts := Go(size, n, acts, Finish(0));
  }

  // ---- Whether the two pools move in lock step ----

  predicate AtRest(s: State)
  {
    forall t :: 0 <= t < |s.threads| ==> s.threads[t].doing.Ready?
  }

  /** The two pools use the same slots. */
  predicate Agree(s: State)
  {
    s.data.pool.used == s.control.pool.used
  }

  /** A thread makes a pool call only while no other thread is between its two. */
  predicate Alone(s: State, a: Action)
  {
    forall t :: 0 <= t < |s.threads| && t != a.t ==> s.threads[t].doing.Ready?
  }

  ghost predicate Undivided(size: nat, n: nat, acts: seq<Action>)
    requires size > 0
  {
    forall k :: 0 <= k < |acts| ==> Alone(Exec(size, n, acts[..k]), acts[k])
  }

  function FreedOption(p: Pool, slot: Option<nat>): Pool
  {
    if slot.Some? then Freed(p, slot.value) else p
  }

  /** Every datagram has the same slot of both pools, and the control pool is at most one call behind. */
  ghost predicate LockStep(s: State)
    requires Sized(s.data) && Sized(s.control)
  {
    && |s.data.owner| == |s.control.owner|
    && (forall t, i :: 0 <= t < |s.threads| && 0 <= i < |s.threads[t].held| ==>
          s.threads[t].held[i].data == s.threads[t].held[i].control)
    && (AtRest(s) ==> s.data.pool == s.control.pool)
    && (forall t :: 0 <= t < |s.threads| && s.threads[t].doing.Assembling? ==>
          Taken(s.control.pool) == (s.data.pool, s.threads[t].doing.data))
    && (forall t :: 0 <= t < |s.threads| && s.threads[t].doing.Reclaiming? ==>
          FreedOption(s.control.pool, s.threads[t].doing.control) == s.data.pool)
  }

  lemma TakePool(s: Side, t: nat)
    requires Sized(s)
    ensures Take(s, t).1 == Taken(s.pool).1 && Take(s, t).0.pool == Taken(s.pool).0
  {
    RefusedIffFull(s.pool);
  }

  lemma ReleasePool(s: Side, slot: Option<nat>)
    requires Sized(s)
    ensures Release(s, slot).pool == FreedOption(s.pool, slot)
  {
  }

  lemma BuildKeepsLockStep(s: State, a: Action)
    requires Sized(s.data) && Sized(s.control) && LockStep(s) && Alone(s, a) && a.t < |s.threads|
    requires a.Build? && s.threads[a.t].doing.Ready? && MayBuild(s.threads[a.t].held, a.purpose)
    ensures LockStep(Step(s, a))
  {
    assert AtRest(s);
    TakePool(s.data, a.t);
    hide Taken, Take, FreedOption, MayBuild;
    var u := Step(s, a);
    assert u.threads[a.t].doing == Assembling(a.purpose, Take(s.data, a.t).1) && u.control == s.control;
    assert !AtRest(u);
    assert Taken(u.control.pool) == (u.data.pool, u.threads[a.t].doing.data);
  }

  lemma DropKeepsLockStep(s: State, a: Action)
    requires Sized(s.data) && Sized(s.control) && LockStep(s) && Alone(s, a) && a.t < |s.threads|
    requires a.Drop? && s.threads[a.t].doing.Ready? && s.threads[a.t].held != []
    ensures LockStep(Step(s, a))
  {
    assert AtRest(s);
    var held := s.threads[a.t].held;
    ReleasePool(s.data, held[|held| - 1].data);
    hide Taken, Release, FreedOption;
    var u := Step(s, a);
    assert u.threads[a.t].doing == Reclaiming(held[|held| - 1].control) && u.control == s.control;
    assert !AtRest(u);
  }

  lemma FinishKeepsLockStep(s: State, a: Action)
    requires Sized(s.data) && Sized(s.control) && LockStep(s) && Alone(s, a) && a.t < |s.threads|
    requires a.Finish? && !s.threads[a.t].doing.Ready?
    ensures LockStep(Step(s, a))
  {
    TakePool(s.control, a.t);
    if s.threads[a.t].doing.Reclaiming? {
      ReleasePool(s.control, s.threads[a.t].doing.control);
    }
    hide Taken, Take, Release, FreedOption;
  }

  lemma StepKeepsLockStep(s: State, a: Action)
    requires Sized(s.data) && Sized(s.control) && LockStep(s) && Alone(s, a)
    ensures LockStep(Step(s, a))
  {
    hide LockStep, Alone, Take, Release;
    if a.t < |s.threads| {
      var u := s.threads[a.t];
      if a.Build? && u.doing.Ready? && MayBuild(u.held, a.purpose) {
        BuildKeepsLockStep(s, a);
      } else if a.Drop? && u.doing.Ready? && u.held != [] {
        DropKeepsLockStep(s, a);
      } else if a.Finish? && !u.doing.Ready? {
        FinishKeepsLockStep(s, a);
      }
    }
  }

  lemma UndividedLast(size: nat, n: nat, acts: seq<Action>)
    requires size > 0 && Undivided(size, n, acts) && acts != []
    ensures Undivided(size, n, acts[..|acts| - 1])
    ensures Alone(Exec(size, n, acts[..|acts| - 1]), acts[|acts| - 1])
  {
    hide Exec, Alone;
    var before := acts[..|acts| - 1];
    forall k | 0 <= k < |before| ensures Alone(Exec(size, n, before[..k]), before[k]) {
      assert before[..k] == acts[..k];
    }
  }

  lemma {:induction false} UndividedLockStep(size: nat, n: nat, acts: seq<Action>)
    requires size > 0 && Undivided(size, n, acts)
    ensures LockStep(Exec(size, n, acts))
  {
    if acts != [] {
      UndividedLast(size, n, acts);
      hide LockStep, Step, Alone, Undivided;
      UndividedLockStep(size, n, acts[..|acts| - 1]);
      StepKeepsLockStep(Exec(size, n, acts[..|acts| - 1]), acts[|acts| - 1]);
    }
  }

  /** In runs whose pairs of calls are not divided by other threads, flags and cursors of the two pools are
      the same whenever no thread is between its calls, and every datagram has one slot of both. */
  lemma UndividedAgree(size: nat, n: nat, acts: seq<Action>)
    requires size > 0 && Undivided(size, n, acts)
    ensures LockStep(Exec(size, n, acts))
    ensures AtRest(Exec(size, n, acts)) ==> Exec(size, n, acts).data.pool == Exec(size, n, acts).control.pool
  {
    UndividedLockStep(size, n, acts);
    hide Exec, AtRest;
  }

  lemma FirstSlot(p: Pool)
    requires InRange(p) && p.cursor == 0 && !p.used[0]
    ensures Taken(p).1 == Some(0) && Taken(p).0.used == p.used[0 := true]
  {
    assert SlotAt(p, 0) == 0;
  }

  /** A slot that is used is not taken. */
  lemma OtherSlot(p: Pool)
    requires InRange(p) && p.used[0]
    ensures Taken(p).1 != Some(0) && Taken(p).0.used[0]
  {
    RefusedIffFull(p);
    if Taken(p).1.Some? {
      TakenIsNearest(p, Taken(p).1.value, 0);
    }
  }

  /** Threads 0 and 1 of at least two, the others at rest; slot 0 of both pools. */
  ghost predicate At(s: State, u: Thread, v: Thread, data0: bool, control0: bool)
  {
    && Sized(s.data) && Sized(s.control) && |s.threads| >= 2 && s.threads[0] == u && s.threads[1] == v
    && (forall t :: 2 <= t < |s.threads| ==> s.threads[t].doing.Ready?)
    && s.data.pool.used[0] == data0 && s.control.pool.used[0] == control0
  }

  const HALF: Thread := Thread([], Assembling(Received, Some(0)))

  function Holder(d: Option<nat>): Thread
  {
    Thread([Datagram(Received, d, Some(0))], Ready)
  }

  lemma FirstTakesData(size: nat, n: nat) returns (acts: seq<Action>)
    requires size > 0 && n >= 2
    ensures At(Exec(size, n, acts), HALF, Thread([], Ready), true, false)
    ensures Exec(size, n, acts).control.pool.cursor == 0
  {
    var s := Exec(size, n, []);
    FirstSlot(s.data.pool);
    TakePool(s.data, 0);
    hide Exec, Taken, Take;
    acts := Go(size, n, [], Build(0, Received));
  }

  /** Thread 0 has taken its data buffer, slot 0, and then thread 1 both its buffers. */
  lemma DividedByOther(size: nat, n: nat) returns (acts: seq<Action>, d: Option<nat>)
    requires size > 0 && n >= 2
    ensures d != Some(0) && At(Exec(size, n, acts), HALF, Holder(d), true, true)
  {
    hide Exec, Taken, Take;
    acts := FirstTakesData(size, n);
    var s := Exec(size, n, acts);
    OtherSlot(s.data.pool);
    TakePool(s.data, 1);
    d := Taken(s.data.pool).1;
    acts := Go(size, n, acts, Build(1, Received));
    var t := Exec(size, n, acts);
    assert At(t, HALF, Thread([], Assembling(Received, d)), true, false) && t.control == s.control;
    FirstSlot(t.control.pool);
    TakePool(t.control, 1);
    acts := Go(size, n, acts, Finish(1));
    assert [] + [Datagram(Received, d, Some(0))] == Holder(d).held;
  }

  lemma FinishesBeside(size: nat, n: nat, before: seq<Action>, d: Option<nat>)
    returns (acts: seq<Action>, u: Thread)
    requires size > 0 && n >= 2 && At(Exec(size, n, before), HALF, Holder(d), true, true)
    ensures u.doing.Ready? && At(Exec(size, n, acts), u, Holder(d), true, true)
  {
    hide Exec, Taken, Take;
    var s := Exec(size, n, before);
    OtherSlot(s.control.pool);
    TakePool(s.control, 0);
    acts := Go(size, n, before, Finish(0));
    u := Exec(size, n, acts).threads[0];
  }

  /** Two threads make their calls in turns, and one gives its datagram back: at rest data slot 0 is used
      and control slot 0 is not. */
  lemma Drift(size: nat, n: nat) returns (acts: seq<Action>)
    requires size > 0 && n >= 2
    ensures AtRest(Exec(size, n, acts)) && !Agree(Exec(size, n, acts))
  {
    var before, d := DividedByOther(size, n);
    var u: Thread;
    acts, u := FinishesBeside(size, n, before, d);
    acts := SecondDrops(size, n, acts, u, d);
  }

  lemma SecondDrops(size: nat, n: nat, before: seq<Action>, u: Thread, d: Option<nat>) returns (acts: seq<Action>)
    requires size > 0 && n >= 2 && d != Some(0)
    requires u.doing.Ready? && At(Exec(size, n, before), u, Holder(d), true, true)
    ensures AtRest(Exec(size, n, acts)) && !Agree(Exec(size, n, acts))
  {
    hide Exec, Taken, Take;
    acts := Go(size, n, before, Drop(1));
    assert At(Exec(size, n, acts), u, Thread([], Reclaiming(Some(0))), true, true);
    acts := Go(size, n, acts, Finish(1));
    assert At(Exec(size, n, acts), u, Thread([], Ready), true, false);
  }

  lemma {:induction false} OneThreadLockStep(size: nat, n: nat, acts: seq<Action>)
    requires size > 0 && n <= 1
    ensures LockStep(Exec(size, n, acts))
  {
    if acts != [] {
      var s, a := Exec(size, n, acts[..|acts| - 1]), acts[|acts| - 1];
      OneThreadLockStep(size, n, acts[..|acts| - 1]);
      if a.t < n {
        hide LockStep, Step;
        StepKeepsLockStep(s, a);
      }
    }
  }

  /** At rest the two pools agree, in all runs, if and only if there is at most one thread. */
  lemma AgreeAtRestIff(size: nat, n: nat)
    requires size > 0
    ensures (forall acts :: AtRest(Exec(size, n, acts)) ==> Agree(Exec(size, n, acts))) <==> n <= 1
  {
    hide Exec;
    if n <= 1 {
      forall acts | AtRest(Exec(size, n, acts)) ensures Agree(Exec(size, n, acts)) {
        OneThreadLockStep(size, n, acts);
      }
    } else {
      var acts := Drift(size, n);
    }
  }

  /** And in one run, at rest, exactly when the same slots of both pools are in use by datagrams. */
  lemma AgreeIffSameSlots(size: nat, n: nat, acts: seq<Action>)
    requires size > 0
    ensures var s := Exec(size, n, acts);
      Agree(s) <==> forall slot :: 0 <= slot < size ==>
        (InUse(DataLists(s.threads), slot) <==> InUse(ControlLists(s.threads), slot))
  {
    var s := Exec(size, n, acts);
    forall slot | 0 <= slot < size
      ensures s.data.pool.used[slot] <==> InUse(DataLists(s.threads), slot)
      ensures s.control.pool.used[slot] <==> InUse(ControlLists(s.threads), slot)
    {
      UsedIffHeld(size, n, acts, slot);
    }
    hide Exec;
  }

  predicate InUse(lists: seq<seq<Option<nat>>>, slot: nat)
  {
    exists t :: 0 <= t < |lists| && Holds(Slots(lists[t]), slot)
  }
}
