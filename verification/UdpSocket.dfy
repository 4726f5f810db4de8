/** The life cycle of the UDP socket: threads that bind it, unbind it and use its OS handle, each atomic
    operation one step. OS objects are numbered; an object is destroyed when its last strong reference goes. */
module UdpSockets {
  import opened Bytes
  import opened Counting

  datatype Lifecycle = Inactive | Binding | Bound | Unbinding

  /** Where a thread stands. Os(): Entering (about to count itself in), Checking (about to read the state),
      Locking (about to lock the handle), Leaving (about to count itself out), Using (has returned).
      Bind(): Draining, Creating, Publishing (about to write the owning pointer), Handing (about to write
      the handle), Announcing (about to set Bound). Unbind(): Dropping, Retiring. Peeking: has seen Bound
      and is about to lock the handle without being counted, as GetSocketPort() does. */
  datatype Place =
    | Idle
    | Entering | Checking | Locking | Leaving(got: Option<nat>) | Using(os: nat)
    | Draining | Creating | Publishing(os: nat) | Handing | Announcing
    | Dropping | Retiring
    | Peeking

  datatype State = State(phase: Lifecycle, counter: int, owner: Option<nat>, handle: Option<nat>,
                         next: nat, destroyed: set<nat>, threads: seq<Place>)

  /** Advance takes the thread's next step; created says whether making the OS socket succeeds. */
  datatype Action =
    | CallOs(t: nat) | CallPort(t: nat) | CallBind(t: nat) | CallUnbind(t: nat)
    | Advance(t: nat, created: bool) | Drop(t: nat)

  /** The object a thread keeps alive by a strong reference of its own. */
  function HeldBy(p: Place): Option<nat>
  {
    match p
    case Leaving(got) => got
    case Using(os) => Some(os)
    case Publishing(os) => Some(os)
    case _ => None
  }

  predicate Referenced(owner: Option<nat>, threads: seq<Place>, os: nat)
  {
    owner == Some(os) || exists i :: 0 <= i < |threads| && HeldBy(threads[i]) == Some(os)
  }

  /** Destroys an object that has lost its last strong reference. */
  function Reap(s: State, lost: Option<nat>): (r: State)
    ensures r == s.(destroyed := r.destroyed) && s.destroyed <= r.destroyed
  {
    if lost.Some? && !Referenced(s.owner, s.threads, lost.value) then s.(destroyed := s.destroyed + {lost.value}) else s
  }

  function Move(s: State, t: nat, p: Place): State
    requires t < |s.threads|
  {
    s.(threads := s.threads[t := p])
  }

  /** Locking the weak handle yields the object while it has not been destroyed. */
  function LockHandle(s: State): Option<nat>
  {
    if s.handle.Some? && s.handle.value !in s.destroyed then s.handle else None
  }

  function Advanced(s: State, t: nat, created: bool): State
    requires t < |s.threads|
  {
    match s.threads[t]
    case Entering => Move(s, t, Checking).(counter := s.counter + 1)
    case Checking => Move(s, t, if s.phase.Bound? then Locking else Leaving(None))
    case Locking => Move(s, t, Leaving(LockHandle(s)))
    case Leaving(got) => Move(s, t, if got.Some? then Using(got.value) else Idle).(counter := s.counter - 1)
    case Draining => if s.counter > 0 then s else Move(s, t, Creating)
    case Creating => if created then Move(s, t, Publishing(s.next)).(next := s.next + 1) else Move(s, t, Idle)
    case Publishing(os) => Reap(Move(s, t, Handing).(owner := Some(os)), s.owner)
    case Handing => Move(s, t, Announcing).(handle := s.owner)
    case Announcing => Move(s, t, Idle).(phase := Bound)
    case Dropping => Reap(Move(s, t, Retiring).(owner := None), s.owner)
    case Retiring => Move(s, t, Idle).(phase := Inactive)
    case Peeking => Move(s, t, Idle)
    case _ => s
  }

  function Step(s: State, a: Action): State
  {
    if a.t >= |s.threads| then s
    else match a
      case CallOs(t) => if s.threads[t].Idle? then Move(s, t, Entering) else s
      case CallPort(t) => if s.threads[t].Idle? && s.phase.Bound? then Move(s, t, Peeking) else s
      case CallBind(t) =>
        if s.threads[t].Idle? && s.phase.Inactive? then Move(s, t, Draining).(phase := Binding) else s
      case CallUnbind(t) =>
        if s.threads[t].Idle? && s.phase.Bound? then Move(s, t, Dropping).(phase := Unbinding) else s
      case Advance(t, created) => Advanced(s, t, created)
      case Drop(t) => if s.threads[t].Using? then Reap(Move(s, t, Idle), Some(s.threads[t].os)) else s
  }

  function Init(n: nat): State
  {
    State(Inactive, 0, None, None, 0, {}, seq(n, i => Idle))
  }

  function Exec(n: nat, acts: seq<Action>): (s: State)
    ensures |s.threads| == n
  {
    if acts == [] then Init(n) else Step(Exec(n, acts[..|acts| - 1]), acts[|acts| - 1])
  }

  // ---- Who is where ----

  predicate InsideGuard(p: Place)
  {
    p.Checking? || p.Locking? || p.Leaving?
  }

  function Guarded(p: Place): nat
  {
    if InsideGuard(p) then 1 else 0
  }

  predicate InBind(p: Place)
  {
    p.Draining? || p.Creating? || p.Publishing? || p.Handing? || p.Announcing?
  }

  predicate InUnbind(p: Place)
  {
    p.Dropping? || p.Retiring?
  }

  function Changing(p: Place): nat
  {
    if InBind(p) || InUnbind(p) then 1 else 0
  }

  /** Past the drain: from here on the binder writes the owning pointer and the handle. */
  predicate PastDrain(p: Place)
  {
    p.Creating? || p.Publishing? || p.Handing? || p.Announcing?
  }

  /** The activity counter counts the threads inside Os(); at most one thread changes the binding, and the
      state names what it does; nobody is at the handle while a binder is past its drain. */
  ghost predicate Ordered(s: State)
  {
    && s.counter == Total(s.threads, Guarded)
    && Total(s.threads, Changing) <= 1
    && (forall i :: 0 <= i < |s.threads| ==>
          && (InBind(s.threads[i]) ==> s.phase.Binding?)
          && (InUnbind(s.threads[i]) ==> s.phase.Unbinding?))
    && (forall i, j :: 0 <= i < |s.threads| && 0 <= j < |s.threads| && PastDrain(s.threads[i]) ==>
          !s.threads[j].Locking?)
  }

  lemma OnlyChanger(s: State, i: nat, j: nat)
    requires Ordered(s) && i < |s.threads| && j < |s.threads|
    requires Changing(s.threads[i]) == 1 && Changing(s.threads[j]) == 1
    ensures i == j
  {
    if i != j {
      TotalAtLeastTwo(s.threads, if i < j then i else j, if i < j then j else i, Changing);
    }
  }

  lemma NobodyChanges(s: State)
    requires Ordered(s) && (s.phase.Inactive? || s.phase.Bound?)
    ensures Total(s.threads, Changing) == 0
  {
    TotalZero(s.threads, Changing);
  }

  lemma DrainedMeansNobodyLocking(s: State, j: nat)
    requires Ordered(s) && s.counter <= 0 && j < |s.threads|
    ensures !InsideGuard(s.threads[j])
  {
    TotalAtLeast(s.threads, j, Guarded);
  }

  lemma AdvancedMoves(s: State, t: nat, created: bool)
    requires t < |s.threads|
    ensures var r := Advanced(s, t, created);
      && |r.threads| == |s.threads| && r.threads == s.threads[t := r.threads[t]]
      && r.counter == s.counter - Guarded(s.threads[t]) + Guarded(r.threads[t])
  {
    hide Reap, LockHandle;
  }

  /** The part of a step that the order depends on. */
  lemma StepMoves(s: State, a: Action)
    requires a.t < |s.threads|
    ensures var t := Step(s, a);
      && |t.threads| == |s.threads| && t.threads == s.threads[a.t := t.threads[a.t]]
      && t.counter == s.counter - Guarded(s.threads[a.t]) + Guarded(t.threads[a.t])
  {
    hide Reap, Advanced;
    if a.Advance? {
      AdvancedMoves(s, a.t, a.created);
    }
  }

  lemma StepKeepsPlaces(s: State, a: Action)
    requires Ordered(s) && a.t < |s.threads|
    ensures var t := Step(s, a);
      && Changing(t.threads[a.t]) <= 1 - Total(s.threads, Changing) + Changing(s.threads[a.t])
      && (forall i :: 0 <= i < |t.threads| ==>
            && (InBind(t.threads[i]) ==> t.phase.Binding?)
            && (InUnbind(t.threads[i]) ==> t.phase.Unbinding?))
  {
    StepMoves(s, a);
    if s.phase.Inactive? || s.phase.Bound? {
      NobodyChanges(s);
    }
    var t := Step(s, a);
    forall i | 0 <= i < |t.threads|
      ensures (InBind(t.threads[i]) ==> t.phase.Binding?) && (InUnbind(t.threads[i]) ==> t.phase.Unbinding?)
    {
      if i != a.t && Changing(s.threads[i]) == 1 && Changing(s.threads[a.t]) == 1 {
        OnlyChanger(s, i, a.t);
      }
    }
  }

  lemma StepKeepsHandleAlone(s: State, a: Action)
    requires Ordered(s) && a.t < |s.threads|
    ensures var t := Step(s, a);
      forall i, j :: 0 <= i < |t.threads| && 0 <= j < |t.threads| && PastDrain(t.threads[i]) ==> !t.threads[j].Locking?
  {
    StepMoves(s, a);
    var t := Step(s, a);
    forall i, j | 0 <= i < |t.threads| && 0 <= j < |t.threads| && PastDrain(t.threads[i])
      ensures !t.threads[j].Locking?
    {
      if s.threads[a.t].Draining? && s.counter <= 0 {
        DrainedMeansNobodyLocking(s, j);
      }
    }
  }

  lemma StepKeepsOrdered(s: State, a: Action)
    requires Ordered(s)
    ensures Ordered(Step(s, a))
  {
    if a.t < |s.threads| {
      var t := Step(s, a);
      StepMoves(s, a);
      StepKeepsPlaces(s, a);
      StepKeepsHandleAlone(s, a);
      TotalUpdate(s.threads, a.t, t.threads[a.t], Guarded);
      TotalUpdate(s.threads, a.t, t.threads[a.t], Changing);
    }
  }

  lemma {:induction false} OrderedHolds(n: nat, acts: seq<Action>)
    ensures Ordered(Exec(n, acts))
  {
    if acts == [] {
      TotalZero(Init(n).threads, Guarded);
      TotalZero(Init(n).threads, Changing);
    } else {
      OrderedHolds(n, acts[..|acts| - 1]);
      hide Ordered, Step;
      StepKeepsOrdered(Exec(n, acts[..|acts| - 1]), acts[|acts| - 1]);
    }
  }

  // ---- Main results ----

  /** In every run, while a thread is about to write the owning pointer or the handle, no thread is at
      the handle inside Os(). */
  lemma PublicationIsQuiescent(n: nat, acts: seq<Action>, i: nat, j: nat)
    requires i < n && j < n && (Exec(n, acts).threads[i].Publishing? || Exec(n, acts).threads[i].Handing?)
    ensures !Exec(n, acts).threads[j].Locking?
  {
    OrderedHolds(n, acts);
  }

  /** In every run at most one thread is inside Bind() or Unbind() past its first step, and the state
      says which. */
  lemma BindUnbindExclusive(n: nat, acts: seq<Action>, i: nat, j: nat)
    requires i < n && j < n && (InBind(Exec(n, acts).threads[i]) || InUnbind(Exec(n, acts).threads[i]))
    requires InBind(Exec(n, acts).threads[j]) || InUnbind(Exec(n, acts).threads[j])
    ensures i == j
    ensures InBind(Exec(n, acts).threads[i]) ==> Exec(n, acts).phase == Binding
    ensures InUnbind(Exec(n, acts).threads[i]) ==> Exec(n, acts).phase == Unbinding
  {
    OrderedHolds(n, acts);
    hide Exec;
    OnlyChanger(Exec(n, acts), i, j);
  }

  // ---- Objects ----

  /** No object that somebody references has been destroyed; numbers are handed out once. */
  ghost predicate AliveWhileHeld(s: State)
  {
    && (forall os :: os in s.destroyed ==> os < s.next && !Referenced(s.owner, s.threads, os))
    && (s.owner.Some? ==> s.owner.value < s.next) && (s.handle.Some? ==> s.handle.value < s.next)
    && forall i :: 0 <= i < |s.threads| && HeldBy(s.threads[i]).Some? ==> HeldBy(s.threads[i]).value < s.next
  }

  /** A destroyed object gains no reference. */
  lemma DestroyedStaysUnreferenced(s: State, a: Action, os: nat)
    requires AliveWhileHeld(s) && a.t < |s.threads| && os in s.destroyed
    ensures !Referenced(Step(s, a).owner, Step(s, a).threads, os)
  {
    StepMoves(s, a);
    var t := Step(s, a);
    assert !Referenced(s.owner, s.threads, os);
    assert HeldBy(s.threads[a.t]) != Some(os);
    assert HeldBy(t.threads[a.t]) != Some(os) && t.owner != Some(os);
    forall i | 0 <= i < |t.threads| ensures HeldBy(t.threads[i]) != Some(os) {
      if i != a.t {
        assert t.threads[i] == s.threads[i];
      }
    }
  }

  /** What a step destroys has just lost its last reference. */
  lemma NewlyDestroyedUnreferenced(s: State, a: Action, os: nat)
    requires AliveWhileHeld(s) && a.t < |s.threads| && os in Step(s, a).destroyed && os !in s.destroyed
    ensures os < s.next && !Referenced(Step(s, a).owner, Step(s, a).threads, os)
  {
    hide Referenced;
  }

  lemma AdvancedKeepsNumbers(s: State, t: nat, created: bool)
    requires t < |s.threads| && (HeldBy(s.threads[t]).Some? ==> HeldBy(s.threads[t]).value < s.next)
    requires (s.owner.Some? ==> s.owner.value < s.next) && (s.handle.Some? ==> s.handle.value < s.next)
    ensures var r := Advanced(s, t, created);
      && s.next <= r.next
      && (r.owner.Some? ==> r.owner.value < r.next) && (r.handle.Some? ==> r.handle.value < r.next)
      && |r.threads| == |s.threads|
      && (HeldBy(r.threads[t]).Some? ==> HeldBy(r.threads[t]).value < r.next)
  {
    hide Reap, LockHandle;
    if s.threads[t].Locking? {
      LockedIsHandle(s);
    }
  }

  lemma LockedIsHandle(s: State)
    ensures LockHandle(s).Some? ==> LockHandle(s) == s.handle
  {
  }

  lemma ActorKeepsNumbers(s: State, a: Action)
    requires AliveWhileHeld(s) && a.t < |s.threads|
    ensures var t := Step(s, a);
      && s.next <= t.next
      && (t.owner.Some? ==> t.owner.value < t.next) && (t.handle.Some? ==> t.handle.value < t.next)
      && |t.threads| == |s.threads|
      && (HeldBy(t.threads[a.t]).Some? ==> HeldBy(t.threads[a.t]).value < t.next)
  {
    hide Referenced, Advanced;
    assert HeldBy(s.threads[a.t]).Some? ==> HeldBy(s.threads[a.t]).value < s.next;
    if a.Advance? {
      AdvancedKeepsNumbers(s, a.t, a.created);
    }
  }

  lemma StepKeepsNumbers(s: State, a: Action)
    requires AliveWhileHeld(s) && a.t < |s.threads|
    ensures var t := Step(s, a);
      && s.next <= t.next
      && (t.owner.Some? ==> t.owner.value < t.next) && (t.handle.Some? ==> t.handle.value < t.next)
      && forall i :: 0 <= i < |t.threads| && HeldBy(t.threads[i]).Some? ==> HeldBy(t.threads[i]).value < t.next
  {
    StepMoves(s, a);
    var t := Step(s, a);
    ActorKeepsNumbers(s, a);
    hide Step, HeldBy;
    forall i | 0 <= i < |t.threads| && HeldBy(t.threads[i]).Some? ensures HeldBy(t.threads[i]).value < t.next {
      assert i != a.t ==> t.threads[i] == s.threads[i];
    }
  }

  lemma StepKeepsAlive(s: State, a: Action)
    requires AliveWhileHeld(s)
    ensures AliveWhileHeld(Step(s, a))
  {
    if a.t < |s.threads| {
      var t := Step(s, a);
      StepKeepsNumbers(s, a);
      hide Step, Referenced;
      forall os | os in t.destroyed ensures os < t.next && !Referenced(t.owner, t.threads, os) {
        if os in s.destroyed {
          DestroyedStaysUnreferenced(s, a, os);
        } else {
          NewlyDestroyedUnreferenced(s, a, os);
        }
      }
    }
  }

  lemma {:induction false} AliveHolds(n: nat, acts: seq<Action>)
    ensures AliveWhileHeld(Exec(n, acts))
  {
    if acts != [] {
      AliveHolds(n, acts[..|acts| - 1]);
      hide AliveWhileHeld, Step;
      StepKeepsAlive(Exec(n, acts[..|acts| - 1]), acts[|acts| - 1]);
    }
  }

  /** A socket object held through Os() is never destroyed while it is held. */
  lemma HeldSocketLives(n: nat, acts: seq<Action>, i: nat)
    requires i < n && HeldBy(Exec(n, acts).threads[i]).Some?
    ensures HeldBy(Exec(n, acts).threads[i]).value !in Exec(n, acts).destroyed
  {
    AliveHolds(n, acts);
  }

  /** Every object that was ever made and that nobody references has been destroyed. */
  ghost predicate DeadWhenLoose(s: State)
  {
    forall os: nat :: os < s.next && !Referenced(s.owner, s.threads, os) ==> os in s.destroyed
  }

  /** A step that takes a reference away from an object takes it from the owning pointer or from what its
      thread held. */
  lemma LooseBefore(s: State, t: State, k: nat, os: nat)
    requires k < |s.threads| == |t.threads| && t.threads == s.threads[k := t.threads[k]]
    requires !Referenced(t.owner, t.threads, os) && s.owner != Some(os) && HeldBy(s.threads[k]) != Some(os)
    ensures !Referenced(s.owner, s.threads, os)
  {
    forall i | 0 <= i < |s.threads| ensures HeldBy(s.threads[i]) != Some(os) {
      if i != k {
        assert t.threads[i] == s.threads[i];
      }
    }
  }

  lemma AdvancedReaps(s: State, t: nat, created: bool, os: nat)
    requires t < |s.threads| && os < s.next && (s.owner == Some(os) || HeldBy(s.threads[t]) == Some(os))
    ensures var r := Advanced(s, t, created); Referenced(r.owner, r.threads, os) || os in r.destroyed
  {
    hide LockHandle;
    var r := Advanced(s, t, created);
    if HeldBy(r.threads[t]) == Some(os) {
      assert Referenced(r.owner, r.threads, os);
    }
  }

  lemma AdvancedMakes(s: State, t: nat, created: bool)
    requires t < |s.threads|
    ensures var r := Advanced(s, t, created);
      r.next == s.next || (r.next == s.next + 1 && HeldBy(r.threads[t]) == Some(s.next))
  {
    hide Reap, LockHandle;
  }

  /** What the thread of a step and the owning pointer let go is reaped; what it makes it holds. */
  lemma ActorReaps(s: State, a: Action, os: nat)
    requires a.t < |s.threads| && os < Step(s, a).next
    requires s.owner == Some(os) || HeldBy(s.threads[a.t]) == Some(os) || os >= s.next
    ensures var r := Step(s, a); Referenced(r.owner, r.threads, os) || os in r.destroyed
  {
    var r := Step(s, a);
    hide Advanced;
    if a.Advance? {
      if os < s.next {
        AdvancedReaps(s, a.t, a.created, os);
      } else {
        AdvancedMakes(s, a.t, a.created);
        StepMoves(s, a);
      }
    } else if HeldBy(r.threads[a.t]) == Some(os) {
      StepMoves(s, a);
    }
  }

  lemma StepKeepsDead(s: State, a: Action)
    requires DeadWhenLoose(s)
    ensures DeadWhenLoose(Step(s, a))
  {
    if a.t < |s.threads| {
      var t := Step(s, a);
      StepMoves(s, a);
      DestroyedStays(s, a);
      hide Step, Referenced, HeldBy;
      forall os: nat | os < t.next && !Referenced(t.owner, t.threads, os) ensures os in t.destroyed {
        if s.owner == Some(os) || HeldBy(s.threads[a.t]) == Some(os) || os >= s.next {
          ActorReaps(s, a, os);
        } else {
          LooseBefore(s, t, a.t, os);
        }
      }
    }
  }

  lemma DestroyedStays(s: State, a: Action)
    ensures s.destroyed <= Step(s, a).destroyed
  {
    hide Referenced;
  }

  lemma {:induction false} DeadHolds(n: nat, acts: seq<Action>)
    ensures DeadWhenLoose(Exec(n, acts))
  {
    if acts != [] {
      DeadHolds(n, acts[..|acts| - 1]);
      hide DeadWhenLoose, Step;
      StepKeepsDead(Exec(n, acts[..|acts| - 1]), acts[|acts| - 1]);
    }
  }

  /** In every run a socket object has been destroyed if and only if it was made and neither the owning
      pointer nor any thread refers to it. */
  lemma DestroyedIff(n: nat, acts: seq<Action>, os: nat)
    ensures var s := Exec(n, acts);
      os in s.destroyed <==> os < s.next && !Referenced(s.owner, s.threads, os)
  {
    AliveHolds(n, acts);
    DeadHolds(n, acts);
  }

  // ---- What Os() returns ----

  /** Where the owning pointer and the handle stand in each phase. */
  ghost predicate Published(s: State)
  {
    && (s.phase.Inactive? ==> s.owner.None?)
    && (s.phase.Bound? ==> s.owner.Some? && s.handle == s.owner)
    && forall i :: 0 <= i < |s.threads| ==>
         && (s.threads[i].Draining? || s.threads[i].Creating? || s.threads[i].Publishing? || s.threads[i].Retiring? ==>
               s.owner.None?)
         && (s.threads[i].Handing? || s.threads[i].Dropping? ==> s.owner.Some?)
         && (s.threads[i].Announcing? ==> s.owner.Some? && s.handle == s.owner)
  }

  lemma StepKeepsPublished(s: State, a: Action)
    requires Ordered(s) && Published(s)
    ensures Published(Step(s, a))
  {
    if a.t < |s.threads| {
      var t := Step(s, a);
      StepMoves(s, a);
      hide Reap, LockHandle, Guarded;
      forall i | 0 <= i < |t.threads| && i != a.t && Changing(s.threads[i]) == 1
        ensures t.phase == s.phase && t.owner == s.owner && t.handle == s.handle
      {
        if Changing(s.threads[a.t]) == 1 {
          OnlyChanger(s, i, a.t);
        }
      }
    }
  }

  lemma {:induction false} PublishedHolds(n: nat, acts: seq<Action>)
    ensures Published(Exec(n, acts))
  {
    if acts != [] {
      var before := acts[..|acts| - 1];
      PublishedHolds(n, before);
      OrderedHolds(n, before);
      hide Published, Ordered, Step;
      StepKeepsPublished(Exec(n, before), acts[|acts| - 1]);
    }
  }

  /** In every run, whoever locks the handle while the socket is bound gets the current OS object. */
  lemma BoundHandleIsCurrent(n: nat, acts: seq<Action>)
    requires Exec(n, acts).phase.Bound?
    ensures Exec(n, acts).owner.Some? && LockHandle(Exec(n, acts)) == Exec(n, acts).owner
  {
    PublishedHolds(n, acts);
    AliveHolds(n, acts);
  }

  // ---- Nobody gets stuck ----

  /** The steps a thread has before it is idle. */
  function StepsLeft(p: Place): nat
  {
    match p
    case Idle => 0
    case Entering => 5
    case Checking => 4
    case Locking => 3
    case Leaving(_) => 2
    case Using(_) => 1
    case Draining => 5
    case Creating => 4
    case Publishing(_) => 3
    case Handing => 2
    case Announcing => 1
    case Dropping => 2
    case Retiring => 1
    case Peeking => 1
  }

  lemma GoesOn(s: State, t: nat)
    requires t < |s.threads| && !s.threads[t].Idle? && (s.threads[t].Draining? ==> s.counter <= 0)
    ensures var r := Step(s, if s.threads[t].Using? then Drop(t) else Advance(t, true));
      && r.threads == s.threads[t := r.threads[t]] && StepsLeft(r.threads[t]) < StepsLeft(s.threads[t])
      && !r.threads[t].Draining?
  {
    StepMoves(s, if s.threads[t].Using? then Drop(t) else Advance(t, true));
    hide Reap, LockHandle;
  }

  lemma {:induction false} ThreadFinishes(n: nat, acts: seq<Action>, t: nat) returns (more: seq<Action>)
    requires t < n && (Exec(n, acts).threads[t].Draining? ==> Exec(n, acts).counter <= 0)
    ensures acts <= more && Exec(n, more).threads == Exec(n, acts).threads[t := Idle]
    decreases StepsLeft(Exec(n, acts).threads[t])
  {
    hide Exec, Step;
    var s := Exec(n, acts);
    if s.threads[t].Idle? {
      more := acts;
      assert s.threads[t := Idle] == s.threads;
    } else {
      GoesOn(s, t);
      var next := Go(n, acts, if s.threads[t].Using? then Drop(t) else Advance(t, true));
      more := ThreadFinishes(n, next, t);
    }
  }

  /** The threads before k are done, but for one that waits in Bind() for the others to leave. */
  ghost predicate DoneBefore(s: State, k: nat)
  {
    forall i :: 0 <= i < k && i < |s.threads| ==> s.threads[i].Idle? || s.threads[i].Draining?
  }

  lemma {:induction false} OthersFinish(n: nat, acts: seq<Action>, k: nat) returns (more: seq<Action>)
    requires k <= n
    ensures acts <= more && DoneBefore(Exec(n, more), k)
  {
    more := acts;
    if k > 0 {
      more := OthersFinish(n, acts, k - 1);
      hide Exec;
      if !Exec(n, more).threads[k - 1].Draining? {
        more := ThreadFinishes(n, more, k - 1);
      }
    }
  }

  lemma NobodyInside(s: State)
    requires Ordered(s) && DoneBefore(s, |s.threads|)
    ensures s.counter == 0
  {
    TotalZero(s.threads, Guarded);
  }

  lemma {:induction false} BindersFinish(n: nat, acts: seq<Action>, k: nat) returns (more: seq<Action>)
    requires k <= n && DoneBefore(Exec(n, acts), n)
    ensures acts <= more && DoneBefore(Exec(n, more), n) && forall i :: 0 <= i < k ==> Exec(n, more).threads[i].Idle?
  {
    more := acts;
    if k > 0 {
      more := BindersFinish(n, acts, k - 1);
      OrderedHolds(n, more);
      hide Exec;
      NobodyInside(Exec(n, more));
      more := ThreadFinishes(n, more, k - 1);
    }
  }

  /** From every state that a run can reach, if sockets can be made, some continuation brings every call to its
      end; what is then alive is the one object the owning pointer has. */
  lemma CanAlwaysRest(n: nat, acts: seq<Action>) returns (more: seq<Action>)
    ensures acts <= more && forall i :: 0 <= i < n ==> Exec(n, more).threads[i].Idle?
    ensures forall os: nat :: os < Exec(n, more).next ==>
      (os !in Exec(n, more).destroyed <==> Exec(n, more).owner == Some(os))
  {
    var others := OthersFinish(n, acts, n);
    more := BindersFinish(n, others, n);
    forall os: nat | os < Exec(n, more).next
      ensures os !in Exec(n, more).destroyed <==> Exec(n, more).owner == Some(os)
    {
      DestroyedIff(n, more, os);
    }
  }

  // ---- After a failed Bind ----

  /** The state says that somebody binds, and nobody does. */
  ghost predicate Stuck(s: State)
  {
    s.phase.Binding? && forall i :: 0 <= i < |s.threads| ==> !InBind(s.threads[i]) && !InUnbind(s.threads[i])
  }

  lemma StepKeepsStuck(s: State, a: Action)
    requires Stuck(s)
    ensures Stuck(Step(s, a))
  {
    if a.t < |s.threads| {
      StepMoves(s, a);
      hide Reap, LockHandle;
    }
  }

  lemma {:induction false} StaysStuck(n: nat, acts: seq<Action>, more: seq<Action>)
    requires Stuck(Exec(n, acts))
    ensures Stuck(Exec(n, acts + more))
  {
    if more == [] {
      assert acts + more == acts;
    } else {
      StaysStuck(n, acts, more[..|more| - 1]);
      assert (acts + more)[..|acts + more| - 1] == acts + more[..|more| - 1];
      hide Stuck, Step;
      StepKeepsStuck(Exec(n, acts + more[..|more| - 1]), more[|more| - 1]);
    }
  }

  /** While the state says that somebody unbinds, somebody does. */
  ghost predicate UnbindingBySomebody(s: State)
  {
    s.phase.Unbinding? ==> exists i :: 0 <= i < |s.threads| && InUnbind(s.threads[i])
  }

  lemma StepKeepsSomebody(s: State, a: Action)
    requires Ordered(s) && UnbindingBySomebody(s)
    ensures UnbindingBySomebody(Step(s, a))
  {
    if a.t < |s.threads| {
      var t := Step(s, a);
      StepMoves(s, a);
      PhaseFromUnbind(s, a);
      if t.phase.Unbinding? && !InUnbind(t.threads[a.t]) {
        var i :| 0 <= i < |s.threads| && InUnbind(s.threads[i]);
        assert InUnbind(t.threads[i]);
      }
    }
  }

  lemma PhaseFromUnbind(s: State, a: Action)
    requires a.t < |s.threads|
    ensures var t := Step(s, a);
      && (t.phase.Unbinding? && !s.phase.Unbinding? ==> |t.threads| == |s.threads| && InUnbind(t.threads[a.t]))
      && (InUnbind(s.threads[a.t]) && |t.threads| == |s.threads| && !InUnbind(t.threads[a.t]) ==> t.phase.Inactive?)
  {
    hide Reap, LockHandle;
  }

  lemma {:induction false} SomebodyUnbinds(n: nat, acts: seq<Action>)
    ensures UnbindingBySomebody(Exec(n, acts))
  {
    if acts != [] {
      SomebodyUnbinds(n, acts[..|acts| - 1]);
      OrderedHolds(n, acts[..|acts| - 1]);
      hide UnbindingBySomebody, Ordered, Step;
      StepKeepsSomebody(Exec(n, acts[..|acts| - 1]), acts[|acts| - 1]);
    }
  }

  /** Thread t binds while everybody else is idle. */
  lemma BindsAlone(n: nat, acts: seq<Action>, t: nat) returns (more: seq<Action>)
    requires t < n && Exec(n, acts).phase.Inactive? && forall i :: 0 <= i < n ==> Exec(n, acts).threads[i].Idle?
    ensures acts <= more && Exec(n, more).phase.Bound?
  {
    OrderedHolds(n, acts);
    NobodyInside(Exec(n, acts));
    hide Exec, Ordered;
    var called := Go(n, acts, CallBind(t));
    var drained := Go(n, called, Advance(t, true));
    assert Exec(n, drained).threads[t] == Creating && Exec(n, drained).phase.Binding?;
    more := BindsOn(n, drained, t);
  }

  lemma BindsOn(n: nat, acts: seq<Action>, t: nat) returns (more: seq<Action>)
    requires t < n && Exec(n, acts).threads[t].Creating? && Exec(n, acts).phase.Binding?
    ensures acts <= more && Exec(n, more).phase.Bound?
  {
    hide Exec, Reap;
    var created := Go(n, acts, Advance(t, true));
    assert Exec(n, created).threads[t].Publishing? && Exec(n, created).phase.Binding?;
    var published := Go(n, created, Advance(t, true));
    assert Exec(n, published).threads[t].Handing? && Exec(n, published).phase.Binding?;
    var handed := Go(n, published, Advance(t, true));
    assert Exec(n, handed).threads[t].Announcing? && Exec(n, handed).phase.Binding?;
    more := Go(n, handed, Advance(t, true));
  }

  /** When every call has returned, the socket can be bound in some continuation if and only if the state is
      not Binding: a Bind() that could not make its socket has left it there for good. */
  lemma CanBindIff(n: nat, acts: seq<Action>)
    requires n >= 1 && forall i :: 0 <= i < n ==> Exec(n, acts).threads[i].Idle?
    ensures (exists more :: Exec(n, acts + more).phase.Bound?) <==> !Exec(n, acts).phase.Binding?
  {
    hide Exec;
    if Exec(n, acts).phase.Binding? {
      forall more ensures !Exec(n, acts + more).phase.Bound? {
        StaysStuck(n, acts, more);
      }
    } else {
      SomebodyUnbinds(n, acts);
      var all := acts;
      if Exec(n, acts).phase.Inactive? {
        all := BindsAlone(n, acts, 0);
      }
      assert all == acts + all[|acts|..];
      assert Exec(n, acts + all[|acts|..]).phase.Bound?;
    }
  }

  /** And that happens: a first Bind() fails. */
  lemma BindCanFail(n: nat) returns (acts: seq<Action>)
    requires n >= 1
    ensures Exec(n, acts).phase.Binding? && forall i :: 0 <= i < n ==> Exec(n, acts).threads[i].Idle?
  {
    var s := Exec(n, []);
    assert s == Init(n);
    hide Exec;
    acts := Go(n, [], CallBind(0));
    acts := Go(n, acts, Advance(0, true));
    acts := Go(n, acts, Advance(0, false));
  }

  // ---- Reads outside the guard ----

  /** Poll() reads the owning pointer again once it has the object; it is not empty. */
  ghost predicate OwnerFound(s: State)
  {
    forall i :: 0 <= i < |s.threads| && s.threads[i].Using? ==> s.owner.Some?
  }

  /** GetSocketPort() locks the handle without being counted; nobody is about to write it. */
  ghost predicate PortReadAlone(s: State)
  {
    forall i, j :: 0 <= i < |s.threads| && 0 <= j < |s.threads| && s.threads[i].Peeking? ==>
      !s.threads[j].Publishing? && !s.threads[j].Handing?
  }

  /** The thread has seen Bound and still works on what it saw. */
  predicate SawBound(p: Place)
  {
    p.Locking? || p.Using? || p.Peeking? || (p.Leaving? && p.got.Some?)
  }

  ghost predicate StillBound(s: State)
  {
    forall i :: 0 <= i < |s.threads| && SawBound(s.threads[i]) ==> s.phase.Bound?
  }

  /** Whether anybody may unbind in a run. */
  predicate Allowed(acts: seq<Action>, unbinds: bool)
  {
    unbinds || forall i :: 0 <= i < |acts| ==> !acts[i].CallUnbind?
  }

  lemma StepKeepsBound(s: State, a: Action)
    requires StillBound(s) && Ordered(s) && (|s.threads| <= 1 || !a.CallUnbind?)
    ensures StillBound(Step(s, a))
  {
    if a.t < |s.threads| {
      StepMoves(s, a);
      var t := Step(s, a);
      forall i | 0 <= i < |t.threads| && SawBound(t.threads[i]) ensures t.phase.Bound? {
        assert i != a.t ==> t.threads[i] == s.threads[i];
      }
    }
  }

  lemma {:induction false} BoundHolds(n: nat, acts: seq<Action>, unbinds: bool)
    requires Allowed(acts, unbinds) && (n <= 1 || !unbinds)
    ensures StillBound(Exec(n, acts))
  {
    if acts != [] {
      var before := acts[..|acts| - 1];
      BoundHolds(n, before, unbinds);
      OrderedHolds(n, before);
      hide StillBound, Ordered, Step;
      StepKeepsBound(Exec(n, before), acts[|acts| - 1]);
    }
  }

  lemma ReadersSafe(n: nat, acts: seq<Action>, unbinds: bool)
    requires Allowed(acts, unbinds) && (n <= 1 || !unbinds)
    ensures OwnerFound(Exec(n, acts)) && PortReadAlone(Exec(n, acts))
  {
    BoundHolds(n, acts, unbinds);
    PublishedHolds(n, acts);
    OrderedHolds(n, acts);
    hide Exec;
  }

  lemma Go(n: nat, acts: seq<Action>, a: Action) returns (more: seq<Action>)
    ensures more == acts + [a] && Exec(n, more) == Step(Exec(n, acts), a)
  {
    more := acts + [a];
    assert more[..|acts|] == acts;
  }

  /** Threads 0 and 1 of at least two, the phase and the counter. */
  ghost predicate At(s: State, phase: Lifecycle, counter: int, p: Place, q: Place)
  {
    |s.threads| >= 2 && s.phase == phase && s.counter == counter && s.threads[0] == p && s.threads[1] == q
  }

  /** Thread 0 has drained and made a socket while thread 1 is at q. */
  lemma FirstCreates(n: nat, before: seq<Action>, q: Place) returns (acts: seq<Action>)
    requires At(Exec(n, before), Inactive, 0, Idle, q)
    ensures exists os :: At(Exec(n, acts), Binding, 0, Publishing(os), q)
  {
    hide Exec;
    acts := Go(n, before, CallBind(0));
    assert At(Exec(n, acts), Binding, 0, Draining, q);
    acts := Go(n, acts, Advance(0, true));
    assert At(Exec(n, acts), Binding, 0, Creating, q);
    ghost var os := Exec(n, acts).next;
    acts := Go(n, acts, Advance(0, true));
    assert At(Exec(n, acts), Binding, 0, Publishing(os), q);
  }

  lemma FirstBinds(n: nat) returns (acts: seq<Action>)
    requires n >= 2
    ensures At(Exec(n, acts), Bound, 0, Idle, Idle)
  {
    assert At(Exec(n, []), Inactive, 0, Idle, Idle);
    hide Exec, Referenced;
    acts := FirstCreates(n, [], Idle);
    ghost var os := Exec(n, acts).threads[0].os;
    acts := FirstPublishes(n, acts, os);
  }

  lemma FirstPublishes(n: nat, before: seq<Action>, os: nat) returns (acts: seq<Action>)
    requires n >= 2 && At(Exec(n, before), Binding, 0, Publishing(os), Idle)
    ensures At(Exec(n, acts), Bound, 0, Idle, Idle)
  {
    hide Exec, Referenced;
    acts := Go(n, before, Advance(0, true));
    assert At(Exec(n, acts), Binding, 0, Handing, Idle);
    acts := Go(n, acts, Advance(0, true));
    assert At(Exec(n, acts), Binding, 0, Announcing, Idle);
    acts := Go(n, acts, Advance(0, true));
  }

  /** Thread 1 obtains the object. */
  lemma SecondUses(n: nat) returns (acts: seq<Action>)
    requires n >= 2
    ensures exists os :: At(Exec(n, acts), Bound, 0, Idle, Using(os))
  {
    hide Exec, Referenced, LockHandle;
    acts := FirstBinds(n);
    acts := Go(n, acts, CallOs(1));
    assert At(Exec(n, acts), Bound, 0, Idle, Entering);
    acts := Go(n, acts, Advance(1, true));
    assert At(Exec(n, acts), Bound, 1, Idle, Checking);
    acts := Go(n, acts, Advance(1, true));
    assert At(Exec(n, acts), Bound, 1, Idle, Locking);
    BoundHandleIsCurrent(n, acts);
    ghost var os := Exec(n, acts).owner.value;
    acts := Go(n, acts, Advance(1, true));
    assert At(Exec(n, acts), Bound, 1, Idle, Leaving(Some(os)));
    acts := Go(n, acts, Advance(1, true));
    assert At(Exec(n, acts), Bound, 0, Idle, Using(os));
  }

  /** With two threads a poller that has the object can find the owning pointer empty. */
  lemma PollCanMissOwner(n: nat) returns (acts: seq<Action>)
    requires n >= 2
    ensures !OwnerFound(Exec(n, acts))
  {
    hide Exec, Referenced;
    acts := SecondUses(n);
    acts := Go(n, acts, CallUnbind(0));
    acts := Go(n, acts, Advance(0, true));
    assert Exec(n, acts).threads[1].Using? && Exec(n, acts).owner.None?;
  }

  /** With two threads a reader that is not counted can be at the handle while a binder writes it. */
  lemma UncountedReadOverlaps(n: nat) returns (acts: seq<Action>)
    requires n >= 2
    ensures !PortReadAlone(Exec(n, acts))
  {
    hide Exec, Referenced;
    acts := FirstBinds(n);
    acts := Go(n, acts, CallPort(1));
    acts := Go(n, acts, CallUnbind(0));
    assert At(Exec(n, acts), Unbinding, 0, Dropping, Peeking);
    acts := Go(n, acts, Advance(0, true));
    assert At(Exec(n, acts), Unbinding, 0, Retiring, Peeking);
    acts := Go(n, acts, Advance(0, true));
    assert At(Exec(n, acts), Inactive, 0, Idle, Peeking);
    acts := FirstCreates(n, acts, Peeking);
    assert Exec(n, acts).threads[0].Publishing? && Exec(n, acts).threads[1].Peeking?;
  }

  /** A poller always finds the owning pointer if and only if there is one thread, or nobody unbinds. */
  lemma OwnerFoundIff(n: nat, unbinds: bool)
    ensures (forall acts :: Allowed(acts, unbinds) ==> OwnerFound(Exec(n, acts))) <==> n <= 1 || !unbinds
  {
    hide Exec, OwnerFound;
    if n <= 1 || !unbinds {
      forall acts | Allowed(acts, unbinds) ensures OwnerFound(Exec(n, acts)) {
        ReadersSafe(n, acts, unbinds);
      }
    } else {
      var acts := PollCanMissOwner(n);
      assert Allowed(acts, unbinds);
    }
  }

  /** A port query is never at the handle with a binder about to write, on the same condition. */
  lemma PortReadAloneIff(n: nat, unbinds: bool)
    ensures (forall acts :: Allowed(acts, unbinds) ==> PortReadAlone(Exec(n, acts))) <==> n <= 1 || !unbinds
  {
    hide Exec, PortReadAlone;
    if n <= 1 || !unbinds {
      forall acts | Allowed(acts, unbinds) ensures PortReadAlone(Exec(n, acts)) {
        ReadersSafe(n, acts, unbinds);
      }
    } else {
      var acts := UncountedReadOverlaps(n);
      assert Allowed(acts, unbinds);
    }
  }
}
