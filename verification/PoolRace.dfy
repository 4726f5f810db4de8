/** One pool used by several threads without a lock, each read and each write of its fields one step. */
module PoolRaces {
  import opened Bytes
  import opened Pools

  /** Where a thread stands. In Alloc(): Scanning (about to read the cursor), Moving (about to read it again),
      Storing (about to write it), Testing (about to read the flag), Marking (about to write it), Comparing
      (about to read the cursor for the end of the round). Holding: has a buffer. In Free(): Releasing (has
      seen the flag, about to clear it). Failed: has found the flag of its buffer cleared. */
  datatype Place =
    | Outside
    | Scanning(backup: nat) | Moving(backup: nat, current: nat) | Storing(backup: nat, current: nat, next: nat)
    | Testing(backup: nat, current: nat) | Marking(slot: nat) | Comparing(backup: nat)
    | Holding(slot: nat) | Releasing(slot: nat) | Failed

  datatype State = State(used: seq<bool>, cursor: nat, threads: seq<Place>)

  /** Call begins an allocation, or gives back what the thread holds; Advance is its next read or write. */
  datatype Action = Call(t: nat) | Advance(t: nat)

  predicate InBounds(size: nat, p: Place)
  {
    match p
    case Moving(_, current) => current < size
    case Storing(_, current, next) => current < size && next < size
    case Testing(_, current) => current < size
    case Marking(slot) => slot < size
    case Holding(slot) => slot < size
    case Releasing(slot) => slot < size
    case _ => true
  }

  ghost predicate Sized(s: State)
  {
    s.cursor < |s.used| && forall t :: 0 <= t < |s.threads| ==> InBounds(|s.used|, s.threads[t])
  }

  function Move(s: State, t: nat, p: Place): State
    requires t < |s.threads|
  {
    s.(threads := s.threads[t := p])
  }

  function Step(s: State, a: Action): (r: State)
    requires Sized(s)
    ensures Sized(r) && |r.used| == |s.used| && |r.threads| == |s.threads|
  {
    if a.t >= |s.threads| then s
    else if a.Call? then
      match s.threads[a.t]
      case Outside => Move(s, a.t, Scanning(s.cursor))
      case Holding(slot) => Move(s, a.t, if s.used[slot] then Releasing(slot) else Failed)
      case _ => s
    else
      match s.threads[a.t]
      case Scanning(backup) => Move(s, a.t, Moving(backup, s.cursor))
      case Moving(backup, current) => Move(s, a.t, Storing(backup, current, (s.cursor + 1) % |s.used|))
      case Storing(backup, current, next) => Move(s, a.t, Testing(backup, current)).(cursor := next)
      case Testing(backup, current) =>
        Move(s, a.t, if s.used[current] then Comparing(backup) else Marking(current))
      case Marking(slot) => Move(s, a.t, Holding(slot)).(used := s.used[slot := true])
      case Comparing(backup) => Move(s, a.t, if s.cursor != backup then Scanning(backup) else Outside)
      case Releasing(slot) => Move(s, a.t, Outside).(used := s.used[slot := false])
      case _ => s
  }

  ghost function Exec(size: nat, n: nat, acts: seq<Action>): (s: State)
    requires size > 0
    ensures Sized(s) && |s.used| == size && |s.threads| == n
  {
    if acts == [] then State(seq(size, i => false), 0, seq(n, i => Outside))
    else Step(Exec(size, n, acts[..|acts| - 1]), acts[|acts| - 1])
  }

  // ---- What a pool is for ----

  /** No two threads hold one buffer. */
  ghost predicate Distinct(s: State)
  {
    forall i, j :: 0 <= i < j < |s.threads| && s.threads[i].Holding? && s.threads[j].Holding? ==>
      s.threads[i].slot != s.threads[j].slot
  }

  /** A buffer that is held is flagged. */
  ghost predicate Flagged(s: State)
    requires Sized(s)
  {
    forall i :: 0 <= i < |s.threads| && s.threads[i].Holding? ==> s.used[s.threads[i].slot]
  }

  predicate Resting(p: Place)
  {
    p.Outside? || p.Holding? || p.Failed?
  }

  /** A thread moves only while no other thread is inside a call. */
  predicate Alone(s: State, a: Action)
  {
    forall t :: 0 <= t < |s.threads| && t != a.t ==> Resting(s.threads[t])
  }

  ghost predicate Serial(size: nat, n: nat, acts: seq<Action>)
    requires size > 0
  {
    forall k :: 0 <= k < |acts| ==> Alone(Exec(size, n, acts[..k]), acts[k])
  }

  predicate Has(p: Place, slot: nat)
  {
    (p.Holding? || p.Releasing?) && p.slot == slot
  }

  /** One thread at most is inside a call; flags and buffers belong together. */
  ghost predicate InOrder(s: State)
  {
    && Sized(s)
    && (forall i, j :: 0 <= i < j < |s.threads| ==> Resting(s.threads[i]) || Resting(s.threads[j]))
    && (forall i, j, slot :: 0 <= i < j < |s.threads| && Has(s.threads[i], slot) ==> !Has(s.threads[j], slot))
    && (forall i, slot: nat :: 0 <= i < |s.threads| && slot < |s.used| && Has(s.threads[i], slot) ==> s.used[slot])
    && (forall i :: 0 <= i < |s.threads| && s.threads[i].Marking? ==> !s.used[s.threads[i].slot])
    && (forall i :: 0 <= i < |s.threads| ==> !s.threads[i].Failed?)
  }

  lemma StepKeepsOrder(s: State, a: Action)
    requires InOrder(s) && Alone(s, a)
    ensures InOrder(Step(s, a))
  {
    if a.t < |s.threads| {
      var p := s.threads[a.t];
      if p.Marking? {
        MarkKeepsOrder(s, a);
      } else if p.Releasing? {
        ReleaseKeepsOrder(s, a);
      } else {
        MoveKeepsOrder(s, a);
      }
    }
  }

  lemma MarkKeepsOrder(s: State, a: Action)
    requires InOrder(s) && Alone(s, a) && a.t < |s.threads| && s.threads[a.t].Marking?
    ensures InOrder(Step(s, a))
  {
    forall j | 0 <= j < |s.threads| ensures !Has(s.threads[j], s.threads[a.t].slot) {
    }
  }

  lemma ReleaseKeepsOrder(s: State, a: Action)
    requires InOrder(s) && Alone(s, a) && a.t < |s.threads| && s.threads[a.t].Releasing?
    ensures InOrder(Step(s, a))
  {
    var slot := s.threads[a.t].slot;
    assert Has(s.threads[a.t], slot);
    forall j | 0 <= j < |s.threads| && j != a.t ensures !Has(s.threads[j], slot) {
      assert j < a.t || a.t < j;
    }
  }

  lemma MoveKeepsOrder(s: State, a: Action)
    requires InOrder(s) && Alone(s, a) && a.t < |s.threads|
    requires !s.threads[a.t].Marking? && !s.threads[a.t].Releasing?
    ensures InOrder(Step(s, a))
  {
    if s.threads[a.t].Holding? {
      assert Has(s.threads[a.t], s.threads[a.t].slot);
    }
    MoveGainsNothing(s, a);
    hide Step, InBounds;
  }

  /** Apart from writing and clearing a flag, a step gives its thread no buffer, and sends it on to a flag
      only when that is clear. */
  lemma MoveGainsNothing(s: State, a: Action)
    requires Sized(s) && a.t < |s.threads| && !s.threads[a.t].Marking? && !s.threads[a.t].Releasing?
    ensures var t, q := Step(s, a), Step(s, a).threads[a.t];
      && t.threads == s.threads[a.t := q] && t.used == s.used
      && (forall slot :: Has(q, slot) ==> Has(s.threads[a.t], slot))
      && (q.Marking? ==> !s.used[q.slot])
      && (q.Failed? && !s.threads[a.t].Failed? ==> s.threads[a.t].Holding? && !s.used[s.threads[a.t].slot])
  {
  }

  lemma SerialLast(size: nat, n: nat, acts: seq<Action>)
    requires size > 0 && Serial(size, n, acts) && acts != []
    ensures Serial(size, n, acts[..|acts| - 1])
    ensures Alone(Exec(size, n, acts[..|acts| - 1]), acts[|acts| - 1])
  {
    hide Exec, Alone;
    var before := acts[..|acts| - 1];
    forall k | 0 <= k < |before| ensures Alone(Exec(size, n, before[..k]), before[k]) {
      assert before[..k] == acts[..k];
    }
  }

  lemma {:induction false} SerialInOrder(size: nat, n: nat, acts: seq<Action>)
    requires size > 0 && Serial(size, n, acts)
    ensures InOrder(Exec(size, n, acts))
  {
    if acts != [] {
      SerialLast(size, n, acts);
      hide InOrder, Step, Alone, Serial;
      SerialInOrder(size, n, acts[..|acts| - 1]);
      StepKeepsOrder(Exec(size, n, acts[..|acts| - 1]), acts[|acts| - 1]);
    }
  }

  lemma OrderMeans(s: State)
    requires InOrder(s)
    ensures Distinct(s) && Flagged(s)
  {
    forall i | 0 <= i < |s.threads| && s.threads[i].Holding? ensures Has(s.threads[i], s.threads[i].slot) {
    }
  }

  // ---- A call that is left alone ----

  /** The state after thread t has made its next k reads and writes with no other thread in between. */
  ghost function UndisturbedFor(s: State, t: nat, k: nat): (r: State)
    requires Sized(s)
    ensures Sized(r) && |r.used| == |s.used| && |r.threads| == |s.threads|
  {
    if k == 0 then s else Step(UndisturbedFor(s, t, k - 1), Advance(t))
  }

  lemma {:induction false} UndisturbedMore(s: State, t: nat, i: nat, k: nat)
    requires Sized(s)
    ensures UndisturbedFor(UndisturbedFor(s, t, i), t, k) == UndisturbedFor(s, t, i + k)
  {
    if k > 0 {
      UndisturbedMore(s, t, i, k - 1);
    }
  }

  /** The state with this pool and thread t there. */
  function WithPool(s: State, p: Pool, t: nat, place: Place): State
    requires t < |s.threads|
  {
    State(p.used, p.cursor, s.threads[t := place])
  }

  /** Five reads and writes look at one slot: it is taken, or the search goes on, or has come round. */
  lemma LooksAtOne(s: State, t: nat, backup: nat)
    requires Sized(s) && t < |s.threads| && s.threads[t] == Scanning(backup)
    ensures var next := (s.cursor + 1) % |s.used|;
      UndisturbedFor(s, t, 5)
      == if !s.used[s.cursor] then WithPool(s, Pool(s.used[s.cursor := true], next), t, Holding(s.cursor))
         else WithPool(s, Pool(s.used, next), t, if next != backup then Scanning(backup) else Outside)
  {
    var next := (s.cursor + 1) % |s.used|;
    assert UndisturbedFor(s, t, 1) == Move(s, t, Moving(backup, s.cursor)) by {
      assert UndisturbedFor(s, t, 0) == s;
    }
    assert UndisturbedFor(s, t, 2) == Move(s, t, Storing(backup, s.cursor, next));
    assert UndisturbedFor(s, t, 3) == Move(s, t, Testing(backup, s.cursor)).(cursor := next);
    assert UndisturbedFor(s, t, 4)
      == Move(s, t, if s.used[s.cursor] then Comparing(backup) else Marking(s.cursor)).(cursor := next);
  }

  lemma RoundIff(p: Pool, k: nat)
    requires InRange(p) && 0 < k <= |p.used|
    ensures SlotAt(p, k) == p.cursor <==> k == |p.used|
  {
    RingWhole(p.cursor, k, |p.used|);
  }

  lemma {:induction false} SearchesOn(s: State, t: nat, p: Pool, i: nat) returns (k: nat)
    requires Sized(s) && t < |s.threads| && s.threads[t] == Scanning(p.cursor)
    requires InRange(p) && s.used == p.used && i < |p.used| && s.cursor == SlotAt(p, i)
    requires FirstFree(p, 0) == FirstFree(p, i)
    ensures var (after, slot) := Taken(p);
      UndisturbedFor(s, t, k) == WithPool(s, after, t, if slot.Some? then Holding(slot.value) else Outside)
    decreases |p.used| - i
  {
    hide Step, InBounds, SlotAt;
    k := 5;
    LooksAtOne(s, t, p.cursor);
    NextSlot(p, i);
    RoundIff(p, i + 1);
    if p.used[SlotAt(p, i)] && i + 1 < |p.used| {
      var u := UndisturbedFor(s, t, 5);
      var more := SearchesOn(u, t, p, i + 1);
      UndisturbedMore(s, t, 5, more);
      k := 5 + more;
    }
  }

  /** An allocation with no other call in between does what the pool's own allocation does: the nearest free
      slot, the cursor behind it, or nothing in a full pool. */
  lemma AllocatesAsPool(s: State, t: nat) returns (k: nat)
    requires Sized(s) && t < |s.threads| && s.threads[t].Outside?
    ensures var (after, slot) := Taken(Pool(s.used, s.cursor));
      UndisturbedFor(Step(s, Call(t)), t, k)
      == WithPool(s, after, t, if slot.Some? then Holding(slot.value) else Outside)
  {
    var p := Pool(s.used, s.cursor);
    RingWhole(s.cursor, |s.used|, |s.used|);
    assert SlotAt(p, 0) == s.cursor;
    k := SearchesOn(Step(s, Call(t)), t, p, 0);
  }

  /** And so does giving back a buffer whose flag is up. */
  lemma FreesAsPool(s: State, t: nat)
    requires Sized(s) && t < |s.threads| && s.threads[t].Holding? && s.used[s.threads[t].slot]
    ensures UndisturbedFor(Step(s, Call(t)), t, 1)
      == WithPool(s, Freed(Pool(s.used, s.cursor), s.threads[t].slot), t, Outside)
  {
    assert UndisturbedFor(Step(s, Call(t)), t, 0) == Step(s, Call(t));
  }

  // ---- Main results ----

  /** Calls that do not overlap hand out every buffer once, and keep its flag while it is held. */
  lemma SerialSafe(size: nat, n: nat, acts: seq<Action>)
    requires size > 0 && Serial(size, n, acts)
    ensures Distinct(Exec(size, n, acts)) && Flagged(Exec(size, n, acts))
  {
    SerialInOrder(size, n, acts);
    OrderMeans(Exec(size, n, acts));
  }

  lemma {:induction false} OneThreadInOrder(size: nat, n: nat, acts: seq<Action>)
    requires size > 0 && n <= 1
    ensures InOrder(Exec(size, n, acts))
  {
    if acts != [] {
      OneThreadInOrder(size, n, acts[..|acts| - 1]);
      var s, a := Exec(size, n, acts[..|acts| - 1]), acts[|acts| - 1];
      if a.t < n {
        hide InOrder, Step;
        StepKeepsOrder(s, a);
      }
    }
  }

  lemma Go(size: nat, n: nat, acts: seq<Action>, a: Action) returns (more: seq<Action>)
    requires size > 0
    ensures Exec(size, n, more) == Step(Exec(size, n, acts), a)
  {
    more := acts + [a];
    assert more[..|acts|] == acts;
  }

  /** Threads 0 and 1 of at least two, and the flag of slot 0. */
  ghost predicate At(s: State, p: Place, q: Place, flag: bool)
  {
    Sized(s) && |s.threads| >= 2 && s.threads[0] == p && s.threads[1] == q && s.used[0] == flag
  }

  /** Both have read the cursor before either has written it. */
  lemma BothRead(size: nat, n: nat) returns (acts: seq<Action>)
    requires size > 0 && n >= 2
    ensures At(Exec(size, n, acts), Moving(0, 0), Moving(0, 0), false)
  {
    var s := Exec(size, n, []);
    assert At(s, Outside, Outside, false) && s.cursor == 0;
    hide Exec;
    acts := Go(size, n, [], Call(0));
    acts := Go(size, n, acts, Call(1));
    assert At(Exec(size, n, acts), Scanning(0), Scanning(0), false) && Exec(size, n, acts).cursor == 0;
    acts := Go(size, n, acts, Advance(0));
    acts := Go(size, n, acts, Advance(1));
  }

  lemma BothTested(size: nat, n: nat) returns (acts: seq<Action>)
    requires size > 0 && n >= 2
    ensures At(Exec(size, n, acts), Testing(0, 0), Testing(0, 0), false)
  {
    acts := BothRead(size, n);
    hide Exec;
    var next := (Exec(size, n, acts).cursor + 1) % size;
    acts := Go(size, n, acts, Advance(0));
    acts := Go(size, n, acts, Advance(1));
    assert At(Exec(size, n, acts), Storing(0, 0, next), Storing(0, 0, next), false);
    acts := Go(size, n, acts, Advance(0));
    acts := Go(size, n, acts, Advance(1));
  }

  /** Two threads are given the same buffer. */
  lemma SameSlotTwice(size: nat, n: nat) returns (acts: seq<Action>)
    requires size > 0 && n >= 2
    ensures At(Exec(size, n, acts), Holding(0), Holding(0), true)
  {
    acts := BothTested(size, n);
    hide Exec;
    acts := Go(size, n, acts, Advance(0));
    acts := Go(size, n, acts, Advance(1));
    assert At(Exec(size, n, acts), Marking(0), Marking(0), false);
    acts := Go(size, n, acts, Advance(0));
    acts := Go(size, n, acts, Advance(1));
  }

  /** And when the first gives it back, the second holds a buffer that the pool takes for free. */
  lemma HeldAndFree(size: nat, n: nat) returns (acts: seq<Action>)
    requires size > 0 && n >= 2
    ensures At(Exec(size, n, acts), Outside, Holding(0), false)
  {
    acts := SameSlotTwice(size, n);
    hide Exec;
    acts := Go(size, n, acts, Call(0));
    acts := Go(size, n, acts, Advance(0));
  }

  /** No two threads hold one buffer, in all runs, if and only if there is at most one thread. */
  lemma DistinctIff(size: nat, n: nat)
    requires size > 0
    ensures (forall acts :: Distinct(Exec(size, n, acts))) <==> n <= 1
  {
    hide Exec;
    if n <= 1 {
      forall acts ensures Distinct(Exec(size, n, acts)) {
        OneThreadInOrder(size, n, acts);
        OrderMeans(Exec(size, n, acts));
      }
    } else {
      var acts := SameSlotTwice(size, n);
    }
  }

  /** A buffer that is held is flagged, in all runs, on the same condition. */
  lemma FlaggedIff(size: nat, n: nat)
    requires size > 0
    ensures (forall acts :: Flagged(Exec(size, n, acts))) <==> n <= 1
  {
    hide Exec;
    if n <= 1 {
      forall acts ensures Flagged(Exec(size, n, acts)) {
        OneThreadInOrder(size, n, acts);
        OrderMeans(Exec(size, n, acts));
      }
    } else {
      var acts := HeldAndFree(size, n);
    }
  }
}
