/** How a worker's transaction fields pass between the dispatcher thread and the worker thread: the atomic
    transaction state decides who may write them. Before shutdown; any number of workers, one dispatcher. */
module HandOffs {
  import opened ServerWorkers

  /** The fields, in the order in which a request writes them: last ACK, client host, client port, server
      port and socket while the request is set up; path, operation, mode, lock flag, writer and reader
      while it is processed. A field shows the number of the transaction that wrote it last. */
  const SETUP_FIELDS: nat := 5
  const FIELDS: nat := 11
  const LAST_ACK: nat := 0
  /** The fields the end of a transaction clears: writer, reader, socket. */
  const CLEARED: seq<nat> := [9, 10, 4]

  /** Working: at the fields for one block, which leaves them to the same transaction; Ending(k): has cleared k
      fields. */
  datatype WorkerPlace = NotStarted | Polling | Working | Ending(k: nat)

  /** open lists the writer, reader and socket fields that are set. */
  datatype Worker = Worker(state: TransactionState, place: WorkerPlace, fields: seq<nat>, current: nat, open: set<nat>)

  /** Setting(w, k) and Opening(w, k): has written the fields before k; Rejecting(w, k): has cleared k
      fields; Acking: has published a write request and is about to write the last ACK; Ringing: about
      to emit the signal. */
  datatype DispatcherPlace =
    | Free | Setting(w: nat, k: nat) | Opening(w: nat, k: nat) | Rejecting(w: nat, k: nat)
    | Acking(w: nat) | Ringing(w: nat)

  /** rejected and ended list the transactions that the dispatcher turned down and that a worker finished;
      writes the write requests it has published, noted those whose ACK 0 it has noted. */
  datatype State = State(dispatcher: DispatcherPlace, next: nat, workers: seq<Worker>,
                         rejected: set<nat>, ended: set<nat>, writes: set<nat>, noted: set<nat>)

  datatype Verdict = Proceed | Reject
  datatype Action =
    | Start(w: nat) | Claim(w: nat) | Dispatch(verdict: Verdict, write: bool) | Work(w: nat, ends: bool)

  function SetWorker(s: State, w: nat, v: Worker): State
    requires w < |s.workers|
  {
    s.(workers := s.workers[w := v])
  }

  function Put(v: Worker, field: nat): Worker
  {
    if field < |v.fields|
    then v.(fields := v.fields[field := v.current], open := if field in CLEARED then v.open + {field} else v.open)
    else v
  }

  function Clear(v: Worker, field: nat): Worker
  {
    if field < |v.fields| then v.(fields := v.fields[field := v.current], open := v.open - {field}) else v
  }

  function Dispatched(s: State, verdict: Verdict, write: bool): State
  {
    match s.dispatcher
    case Free => s
    case Setting(w, k) =>
      if w >= |s.workers| then s
      else if k < SETUP_FIELDS then SetWorker(s, w, Put(s.workers[w], k)).(dispatcher := Setting(w, k + 1))
      else
        var v := s.workers[w];
        var state := if v.state == SETTING_UP_REQUEST then PROCESSING_REQUEST else v.state;
        SetWorker(s, w, v.(state := state)).(dispatcher := Opening(w, SETUP_FIELDS))
    case Opening(w, k) =>
      if w >= |s.workers| then s
      else if verdict.Reject? then s.(dispatcher := Rejecting(w, 0))
      else if k < FIELDS then SetWorker(s, w, Put(s.workers[w], k)).(dispatcher := Opening(w, k + 1))
      else if write then
        SetWorker(s, w, s.workers[w].(state := WAITING_FOR_DATA))
          .(dispatcher := Acking(w), writes := s.writes + {s.workers[w].current})
      else SetWorker(s, w, s.workers[w].(state := WAITING_FOR_ACK)).(dispatcher := Ringing(w))
    case Rejecting(w, k) =>
      if w >= |s.workers| then s
      else if k < |CLEARED| then SetWorker(s, w, Clear(s.workers[w], CLEARED[k])).(dispatcher := Rejecting(w, k + 1))
      else
        SetWorker(s, w, s.workers[w].(state := WAITING_FOR_REQUEST))
          .(dispatcher := Free, rejected := s.rejected + {s.workers[w].current})
    case Acking(w) =>
      if w >= |s.workers| then s
      else
        SetWorker(s, w, Put(s.workers[w], LAST_ACK))
          .(dispatcher := Ringing(w), noted := s.noted + {s.workers[w].current})
    case Ringing(w) => s.(dispatcher := Free)
  }

  function Worked(v: Worker, ends: bool): Worker
  {
    match v.place
    case NotStarted => v
    case Polling => if v.state == WAITING_FOR_ACK || v.state == WAITING_FOR_DATA then v.(place := Working) else v
    case Working => v.(place := if ends then Ending(0) else Polling)
    case Ending(k) =>
      if k < |CLEARED| then Clear(v, CLEARED[k]).(place := Ending(k + 1))
      else v.(state := WAITING_FOR_REQUEST, place := Polling)
  }

  /** About to publish that it waits for a request again. */
  predicate AtEnd(v: Worker)
  {
    v.place.Ending? && v.place.k >= |CLEARED|
  }

  function Step(s: State, a: Action): (t: State)
    ensures |t.workers| == |s.workers|
  {
    match a
    case Start(w) =>
      if w < |s.workers| && s.workers[w].place.NotStarted?
      then SetWorker(s, w, s.workers[w].(state := WAITING_FOR_REQUEST, place := Polling)) else s
    case Claim(w) =>
      // Compare-and-swap: takes the worker only if it is waiting for a request.
      if w < |s.workers| && s.dispatcher.Free? && s.workers[w].state == WAITING_FOR_REQUEST
      then
        var v := s.workers[w].(state := SETTING_UP_REQUEST, current := s.next);
        SetWorker(s, w, v).(dispatcher := Setting(w, 0), next := s.next + 1)
      else s
    case Dispatch(verdict, write) => Dispatched(s, verdict, write)
    case Work(w, ends) =>
      if w < |s.workers| then
        var v := s.workers[w];
        var t := SetWorker(s, w, Worked(v, ends));
        if AtEnd(v) then t.(ended := s.ended + {v.current}) else t
      else s
  }

  function Init(n: nat): State
  {
    State(Free, 1, seq(n, i => Worker(INACTIVE, NotStarted, seq(FIELDS, j => 0), 0, {})), {}, {}, {}, {})
  }

  function Exec(n: nat, acts: seq<Action>): (s: State)
    ensures |s.workers| == n
  {
    if acts == [] then Init(n) else Step(Exec(n, acts[..|acts| - 1]), acts[|acts| - 1])
  }

  // ---- Who may touch the fields ----

  predicate DispatcherAt(d: DispatcherPlace, w: nat)
  {
    !d.Free? && !d.Ringing? && d.w == w
  }

  predicate WorkerAt(v: Worker)
  {
    v.place.Working? || v.place.Ending?
  }

  /** Worker w as the dispatcher's place allows it to be. */
  ghost predicate Coherent(d: DispatcherPlace, w: nat, v: Worker)
  {
    && |v.fields| == FIELDS
    && (v.state == SETTING_UP_REQUEST <==> d.Setting? && d.w == w)
    && (v.state == PROCESSING_REQUEST <==> (d.Opening? || d.Rejecting?) && d.w == w)
    && (WorkerAt(v) ==> v.state == WAITING_FOR_ACK || v.state == WAITING_FOR_DATA)
    && (v.place.NotStarted? <==> v.state == INACTIVE) && (v.place.NotStarted? ==> v.current == 0)
    && v.state != TERMINATING && (d.Rejecting? && d.w == w ==>
          d.k <= |CLEARED| && forall i :: 0 <= i < d.k ==> CLEARED[i] !in v.open)
    && (v.state != INACTIVE && v.state != WAITING_FOR_REQUEST ==> v.current > 0)
    && (v.place.Ending? ==> v.place.k <= |CLEARED| && forall i :: 0 <= i < v.place.k ==> CLEARED[i] !in v.open)
    && (forall f :: f in v.open ==> f in CLEARED)
    && (v.state == INACTIVE || v.state == WAITING_FOR_REQUEST ==> v.open == {})
    && (d.Setting? && d.w == w ==> d.k <= SETUP_FIELDS && forall i :: 0 <= i < d.k ==> v.fields[i] == v.current)
    && (d.Opening? && d.w == w ==>
          SETUP_FIELDS <= d.k <= FIELDS && forall i :: 0 <= i < d.k ==> v.fields[i] == v.current)
    && (v.state == WAITING_FOR_ACK || v.state == WAITING_FOR_DATA ==>
          forall i :: 0 <= i < FIELDS ==> v.fields[i] == v.current)
  }

  ghost predicate Inv(s: State)
  {
    && (!s.dispatcher.Free? ==> s.dispatcher.w < |s.workers|)
    && (forall w :: 0 <= w < |s.workers| ==> Coherent(s.dispatcher, w, s.workers[w]))
    && (forall w :: 0 <= w < |s.workers| ==> s.workers[w].current < s.next)
    && (forall v, w :: 0 <= v < w < |s.workers| && s.workers[v].current == s.workers[w].current ==>
          s.workers[v].current == 0)
    && s.next > 0
  }

  lemma WorkKeepsCoherent(d: DispatcherPlace, w: nat, v: Worker, ends: bool)
    requires Coherent(d, w, v)
    ensures Coherent(d, w, Worked(v, ends))
  {
  }

  lemma DispatchKeepsOwn(s: State, verdict: Verdict, write: bool, w: nat)
    requires w < |s.workers| && Coherent(s.dispatcher, w, s.workers[w]) && !s.dispatcher.Free? && s.dispatcher.w == w
    ensures var t := Dispatched(s, verdict, write);
      |t.workers| == |s.workers| && Coherent(t.dispatcher, w, t.workers[w])
  {
  }

  lemma DispatchKeepsOther(s: State, verdict: Verdict, write: bool, w: nat)
    requires w < |s.workers| && Coherent(s.dispatcher, w, s.workers[w]) && (s.dispatcher.Free? || s.dispatcher.w != w)
    ensures var t := Dispatched(s, verdict, write);
      |t.workers| == |s.workers| && Coherent(t.dispatcher, w, t.workers[w])
  {
    hide Put, Clear;
  }

  lemma DispatchKeepsCoherent(s: State, verdict: Verdict, write: bool, w: nat)
    requires Inv(s) && w < |s.workers|
    ensures var t := Dispatched(s, verdict, write);
      |t.workers| == |s.workers| && Coherent(t.dispatcher, w, t.workers[w])
  {
    assert Coherent(s.dispatcher, w, s.workers[w]);
    hide Coherent, Dispatched;
    if s.dispatcher.Free? || s.dispatcher.w != w {
      DispatchKeepsOther(s, verdict, write, w);
    } else {
      DispatchKeepsOwn(s, verdict, write, w);
    }
  }

  lemma StepKeepsNumbers(s: State, a: Action)
    requires Inv(s)
    ensures var t := Step(s, a);
      && |t.workers| == |s.workers| && t.next > 0
      && (!t.dispatcher.Free? ==> t.dispatcher.w < |t.workers|)
      && (forall w :: 0 <= w < |t.workers| ==> t.workers[w].current < t.next)
      && (forall v, w :: 0 <= v < w < |t.workers| && t.workers[v].current == t.workers[w].current ==>
            t.workers[v].current == 0)
  {
    hide Coherent;
    var t := Step(s, a);
    assert forall w :: 0 <= w < |t.workers| ==>
      || t.workers[w].current == s.workers[w].current
      || (a.Claim? && w == a.w && t.workers[w].current == s.next && t.next == s.next + 1);
  }

  lemma StepKeepsInv(s: State, a: Action)
    requires Inv(s)
    ensures Inv(Step(s, a))
  {
    var t := Step(s, a);
    StepKeepsNumbers(s, a);
    forall w | 0 <= w < |t.workers| ensures Coherent(t.dispatcher, w, t.workers[w]) {
      assert Coherent(s.dispatcher, w, s.workers[w]);
      if a.Dispatch? {
        DispatchKeepsCoherent(s, a.verdict, a.write, w);
      } else if a.Work? && a.w == w {
        WorkKeepsCoherent(s.dispatcher, w, s.workers[w], a.ends);
      }
    }
  }

  lemma {:induction false} InvHolds(n: nat, acts: seq<Action>)
    ensures Inv(Exec(n, acts))
  {
    if acts != [] {
      InvHolds(n, acts[..|acts| - 1]);
      hide Inv, Step;
      StepKeepsInv(Exec(n, acts[..|acts| - 1]), acts[|acts| - 1]);
    }
  }

  // ---- No request is lost ----

  predicate Closed(s: State, k: nat)
  {
    k in s.rejected || k in s.ended
  }

  predicate Given(s: State, k: nat)
  {
    exists w :: 0 <= w < |s.workers| && s.workers[w].current == k
  }

  /** Every transaction so far has been rejected or ended, not both, or is the one a worker has; a worker that
      has one waits for requests exactly when it is closed. */
  ghost predicate Accounted(s: State)
  {
    && s.rejected !! s.ended && (forall k: nat :: Closed(s, k) ==> 0 < k < s.next)
    && (forall w :: 0 <= w < |s.workers| && s.workers[w].current > 0 ==>
          (s.workers[w].state == WAITING_FOR_REQUEST <==> Closed(s, s.workers[w].current)))
    && (forall k :: 0 < k < s.next ==> Closed(s, k) || Given(s, k))
  }

  lemma GivenKept(s: State, a: Action, k: nat)
    requires Inv(s) && Accounted(s) && 0 < k < s.next && !Closed(s, k)
    ensures Given(Step(s, a), k)
  {
    hide Coherent;
    var w :| 0 <= w < |s.workers| && s.workers[w].current == k;
    CurrentKept(s, a, w);
    hide Step;
    assert Step(s, a).workers[w].current == k;
  }

  lemma CurrentKept(s: State, a: Action, w: nat)
    requires w < |s.workers|
    ensures Step(s, a).workers[w].current != s.workers[w].current ==>
      a == Claim(w) && s.workers[w].state == WAITING_FOR_REQUEST
  {
  }

  lemma ClosesOwn(s: State, a: Action)
    requires Inv(s) && Accounted(s)
    ensures var t := Step(s, a);
      && s.next <= t.next && s.rejected <= t.rejected && s.ended <= t.ended && t.rejected !! t.ended
      && (forall k :: Closed(t, k) && !Closed(s, k) ==>
            exists w :: 0 <= w < |s.workers| && s.workers[w].current == k > 0
                        && t.workers[w].current == k && t.workers[w].state == WAITING_FOR_REQUEST)
  {
    var t := Step(s, a);
    forall w | 0 <= w < |s.workers| ensures Coherent(s.dispatcher, w, s.workers[w]) {
    }
  }

  lemma WaitingMeansClosed(s: State, a: Action, w: nat)
    requires Inv(s) && Accounted(s) && w < |s.workers| && Step(s, a).workers[w].current > 0
    ensures var t := Step(s, a);
      t.workers[w].state == WAITING_FOR_REQUEST <==> Closed(t, t.workers[w].current)
  {
    var t, k := Step(s, a), Step(s, a).workers[w].current;
    assert Coherent(s.dispatcher, w, s.workers[w]);
    ClosesOwn(s, a);
    StepKeepsNumbers(s, a);
    if Closed(t, k) && !Closed(s, k) {
      var v :| 0 <= v < |s.workers| && t.workers[v].current == k && t.workers[v].state == WAITING_FOR_REQUEST;
      assert v == w;
    } else {
      WaitingStays(s, a, w);
    }
  }

  /** Who begins to wait has just closed its transaction; who waited and is not claimed goes on waiting. */
  lemma WaitingStays(s: State, a: Action, w: nat)
    requires Inv(s) && w < |s.workers| && Step(s, a).workers[w].current > 0
    requires forall k: nat :: Closed(s, k) ==> 0 < k < s.next
    requires s.workers[w].current > 0 ==>
      (s.workers[w].state == WAITING_FOR_REQUEST <==> Closed(s, s.workers[w].current))
    ensures var t := Step(s, a);
      && (t.workers[w].state == WAITING_FOR_REQUEST ==> Closed(t, t.workers[w].current))
      && (Closed(s, t.workers[w].current) ==> t.workers[w].state == WAITING_FOR_REQUEST)
  {
    assert Coherent(s.dispatcher, w, s.workers[w]);
  }

  lemma StepKeepsAccounted(s: State, a: Action)
    requires Inv(s) && Accounted(s)
    ensures Accounted(Step(s, a))
  {
    var t := Step(s, a);
    ClosesOwn(s, a);
    forall w | 0 <= w < |t.workers| && t.workers[w].current > 0
      ensures t.workers[w].state == WAITING_FOR_REQUEST <==> Closed(t, t.workers[w].current)
    {
      WaitingMeansClosed(s, a, w);
    }
    forall k | 0 < k < t.next ensures Closed(t, k) || Given(t, k) {
      if k >= s.next {
        assert t.workers[a.w].current == k;
      } else if !Closed(s, k) {
        GivenKept(s, a, k);
      }
    }
  }

  /** In every run no request is lost: each is rejected, is ended by its worker, or is still the worker's. */
  lemma {:induction false} NothingLost(n: nat, acts: seq<Action>)
    ensures Accounted(Exec(n, acts))
  {
    if acts != [] {
      NothingLost(n, acts[..|acts| - 1]);
      InvHolds(n, acts[..|acts| - 1]);
      hide Inv, Accounted, Step;
      StepKeepsAccounted(Exec(n, acts[..|acts| - 1]), acts[|acts| - 1]);
    }
  }

  /** In every run a worker that waits for a request has no writer, reader or socket left over. */
  lemma NothingLeftOver(n: nat, acts: seq<Action>, w: nat)
    requires w < n && Exec(n, acts).workers[w].state == WAITING_FOR_REQUEST
    ensures Exec(n, acts).workers[w].open == {}
  {
    InvHolds(n, acts);
    hide Exec;
    assert Coherent(Exec(n, acts).dispatcher, w, Exec(n, acts).workers[w]);
  }

  /** The ACK 0 of every published write request has been noted, but for the one the dispatcher is about to
      note. */
  ghost predicate AcksNoted(s: State)
  {
    && (forall k :: k in s.writes ==> k < s.next) && s.noted <= s.writes
    && (forall w :: 0 <= w < |s.workers| && DispatcherAt(s.dispatcher, w) && !s.dispatcher.Acking? ==>
          s.workers[w].current !in s.writes)
    && (s.dispatcher.Acking? ==> s.dispatcher.w < |s.workers| && s.workers[s.dispatcher.w].current !in s.noted)
    && s.writes == s.noted + if s.dispatcher.Acking? then {s.workers[s.dispatcher.w].current} else {}
  }

  lemma StepKeepsAcksNoted(s: State, a: Action)
    requires Inv(s) && AcksNoted(s)
    ensures AcksNoted(Step(s, a))
  {
    hide Coherent;
  }

  /** In every run, once the dispatcher is past its last store, every write request has its ACK noted once. */
  lemma {:induction false} EveryAckNoted(n: nat, acts: seq<Action>)
    ensures AcksNoted(Exec(n, acts))
    ensures !Exec(n, acts).dispatcher.Acking? ==> Exec(n, acts).noted == Exec(n, acts).writes
  {
    if acts != [] {
      EveryAckNoted(n, acts[..|acts| - 1]);
      InvHolds(n, acts[..|acts| - 1]);
      StepKeepsAcksNoted(Exec(n, acts[..|acts| - 1]), acts[|acts| - 1]);
      hide Inv, Step;
    }
  }

  // ---- Main results ----

  /** In every run dispatcher and worker are at the fields of one worker at once only where a write
      request has been published and its last ACK is still to be written. */
  lemma OverlapOnlyAtLateAck(n: nat, acts: seq<Action>, w: nat)
    requires w < n
    requires DispatcherAt(Exec(n, acts).dispatcher, w) && WorkerAt(Exec(n, acts).workers[w])
    ensures Exec(n, acts).dispatcher == Acking(w)
  {
    InvHolds(n, acts);
  }

  predicate NoWrites(acts: seq<Action>)
  {
    forall i :: 0 <= i < |acts| && acts[i].Dispatch? ==> !acts[i].write
  }

  lemma {:induction false} NoWriteNoAcking(n: nat, acts: seq<Action>)
    requires NoWrites(acts)
    ensures !Exec(n, acts).dispatcher.Acking?
  {
    if acts != [] {
      NoWriteNoAcking(n, acts[..|acts| - 1]);
    }
  }

  /** With read requests and rejected requests only, they never are. */
  lemma ReadersNeverOverlap(n: nat, acts: seq<Action>, w: nat)
    requires w < n
    requires NoWrites(acts)
    ensures !(DispatcherAt(Exec(n, acts).dispatcher, w) && WorkerAt(Exec(n, acts).workers[w]))
  {
    NoWriteNoAcking(n, acts);
    if DispatcherAt(Exec(n, acts).dispatcher, w) && WorkerAt(Exec(n, acts).workers[w]) {
      OverlapOnlyAtLateAck(n, acts, w);
    }
  }

  /** While a worker serves a transaction, every field shows that transaction, and no other worker
      serves it. */
  lemma FieldsBelongToTransaction(n: nat, acts: seq<Action>, w: nat, v: nat)
    requires w < n && v < n && v != w && WorkerAt(Exec(n, acts).workers[w])
    ensures var s := Exec(n, acts);
      && (forall i :: 0 <= i < |s.workers[w].fields| ==> s.workers[w].fields[i] == s.workers[w].current)
      && s.workers[v].current != s.workers[w].current
  {
    InvHolds(n, acts);
  }

  lemma Played(n: nat, acts: seq<Action>, a: Action) returns (more: seq<Action>)
    ensures more == acts + [a] && Exec(n, more) == Step(Exec(n, acts), a)
  {
    more := acts + [a];
    assert more[..|acts|] == acts;
  }

  /** Worker 0 of at least one, polling in this state, and the dispatcher. */
  ghost predicate At(s: State, d: DispatcherPlace, state: TransactionState)
  {
    |s.workers| >= 1 && s.dispatcher == d && s.workers[0].place.Polling? && s.workers[0].state == state
  }

  lemma Claimed(n: nat) returns (acts: seq<Action>)
    requires n >= 1
    ensures At(Exec(n, acts), Setting(0, 0), SETTING_UP_REQUEST) && NoWrites(acts)
  {
    acts := Played(n, [], Start(0));
    assert At(Exec(n, acts), Free, WAITING_FOR_REQUEST);
    hide Exec;
    acts := Played(n, acts, Claim(0));
  }

  /** The dispatcher takes k steps of the set-up. */
  lemma {:induction false} SetsUp(n: nat, k: nat) returns (acts: seq<Action>)
    requires n >= 1 && k <= SETUP_FIELDS
    ensures At(Exec(n, acts), Setting(0, k), SETTING_UP_REQUEST) && NoWrites(acts)
  {
    if k == 0 {
      acts := Claimed(n);
    } else {
      var before := SetsUp(n, k - 1);
      hide Exec;
      acts := Played(n, before, Dispatch(Proceed, false));
    }
  }

  /** And then of the processing. */
  lemma {:induction false} Opens(n: nat, k: nat) returns (acts: seq<Action>)
    requires n >= 1 && SETUP_FIELDS <= k <= FIELDS
    ensures At(Exec(n, acts), Opening(0, k), PROCESSING_REQUEST) && NoWrites(acts)
  {
    var before: seq<Action>;
    if k == SETUP_FIELDS {
      before := SetsUp(n, k);
    } else {
      before := Opens(n, k - 1);
    }
    hide Exec;
    acts := Played(n, before, Dispatch(Proceed, false));
  }

  /** A read request reaches its worker: the worker is at work on it, and no write was asked for. */
  lemma ReadRequestServed(n: nat) returns (acts: seq<Action>)
    requires n >= 1
    ensures NoWrites(acts)
    ensures WorkerAt(Exec(n, acts).workers[0]) && Exec(n, acts).workers[0].state == WAITING_FOR_ACK
  {
    var before := Opens(n, FIELDS);
    hide Exec;
    var read := Played(n, before, Dispatch(Proceed, false));
    assert At(Exec(n, read), Ringing(0), WAITING_FOR_ACK);
    acts := Played(n, read, Work(0, false));
  }

  // ---- Nobody gets stuck ----

  /** The steps the dispatcher has before it is free again, if it is not asked to reject. */
  function DispatcherLeft(d: DispatcherPlace): int
  {
    match d
    case Free => 0
    case Ringing(_) => 1
    case Acking(_) => 2
    case Rejecting(_, k) => 1 + |CLEARED| - k
    case Opening(_, k) => 3 + FIELDS - k
    case Setting(_, k) => 4 + FIELDS + SETUP_FIELDS - k
  }

  /** And those a worker has until it waits for a request. */
  function WorkerLeft(v: Worker): int
  {
    if v.state != WAITING_FOR_ACK && v.state != WAITING_FOR_DATA then 0
    else match v.place
      case NotStarted => 0
      case Polling => 3 + |CLEARED|
      case Working => 2 + |CLEARED|
      case Ending(k) => 1 + |CLEARED| - k
  }

  lemma DispatcherGoesOn(s: State)
    requires Inv(s) && !s.dispatcher.Free?
    ensures var t := Step(s, Dispatch(Proceed, false));
      0 <= DispatcherLeft(t.dispatcher) < DispatcherLeft(s.dispatcher)
  {
    assert Coherent(s.dispatcher, s.dispatcher.w, s.workers[s.dispatcher.w]);
  }

  lemma WorkerGoesOn(s: State, w: nat)
    requires Inv(s) && w < |s.workers| && WorkerLeft(s.workers[w]) > 0
    ensures var t := Step(s, Work(w, true));
      && 0 <= WorkerLeft(t.workers[w]) < WorkerLeft(s.workers[w])
      && t.dispatcher == s.dispatcher && t.next == s.next
      && forall v :: 0 <= v < |s.workers| && v != w ==> t.workers[v] == s.workers[v]
  {
    assert Coherent(s.dispatcher, w, s.workers[w]);
  }

  /** A request that is being processed can be turned down: some continuation has it rejected and its worker
      waiting. */
  lemma CanBeRejected(n: nat, acts: seq<Action>, w: nat) returns (more: seq<Action>)
    requires Exec(n, acts).dispatcher.Opening? && Exec(n, acts).dispatcher.w == w
    ensures acts <= more && w < n && Exec(n, more).workers[w].state == WAITING_FOR_REQUEST
    ensures Exec(n, more).workers[w].current == Exec(n, acts).workers[w].current
    ensures Exec(n, acts).workers[w].current in Exec(n, more).rejected
  {
    InvHolds(n, acts);
    hide Exec, Inv;
    assert w < n by { DispatcherInRange(Exec(n, acts)); }
    more := Played(n, acts, Dispatch(Reject, false));
    var k := 0;
    while k < |CLEARED|
      invariant k <= |CLEARED| && acts <= more && Exec(n, more).dispatcher == Rejecting(w, k)
      invariant Exec(n, more).workers[w].current == Exec(n, acts).workers[w].current
    {
      more := Played(n, more, Dispatch(Reject, false));
      k := k + 1;
    }
    more := Played(n, more, Dispatch(Reject, false));
  }

  lemma DispatcherInRange(s: State)
    requires Inv(s) && !s.dispatcher.Free?
    ensures s.dispatcher.w < |s.workers|
  {
  }

  lemma DispatcherLeftBounds(s: State)
    requires Inv(s)
    ensures DispatcherLeft(s.dispatcher) >= 0 && (DispatcherLeft(s.dispatcher) == 0 ==> s.dispatcher.Free?)
  {
    if !s.dispatcher.Free? {
      DispatcherGoesOn(s);
    }
  }

  lemma {:induction false} DispatcherFinishes(n: nat, acts: seq<Action>) returns (more: seq<Action>)
    ensures acts <= more && Exec(n, more).dispatcher.Free?
    decreases DispatcherLeft(Exec(n, acts).dispatcher)
  {
    InvHolds(n, acts);
    hide Exec, Inv, DispatcherLeft, Step;
    more := acts;
    if !Exec(n, acts).dispatcher.Free? {
      DispatcherGoesOn(Exec(n, acts));
      var next := Played(n, acts, Dispatch(Proceed, false));
      InvHolds(n, next);
      DispatcherLeftBounds(Exec(n, next));
      more := DispatcherFinishes(n, next);
    }
  }

  lemma {:induction false} WorkerFinishes(n: nat, acts: seq<Action>, w: nat) returns (more: seq<Action>)
    requires w < n
    ensures acts <= more && WorkerLeft(Exec(n, more).workers[w]) <= 0
    ensures var s, t := Exec(n, acts), Exec(n, more);
      t.dispatcher == s.dispatcher && forall v :: 0 <= v < n && v != w ==> t.workers[v] == s.workers[v]
    decreases WorkerLeft(Exec(n, acts).workers[w])
  {
    InvHolds(n, acts);
    hide Exec, Inv, WorkerLeft, Step;
    more := acts;
    if WorkerLeft(Exec(n, acts).workers[w]) > 0 {
      WorkerGoesOn(Exec(n, acts), w);
      var next := Played(n, acts, Work(w, true));
      more := WorkerFinishes(n, next, w);
    }
  }

  lemma {:induction false} WorkersFinish(n: nat, acts: seq<Action>, k: nat) returns (more: seq<Action>)
    requires k <= n
    ensures acts <= more && Exec(n, more).dispatcher == Exec(n, acts).dispatcher
    ensures forall w :: 0 <= w < k ==> WorkerLeft(Exec(n, more).workers[w]) <= 0
  {
    hide Exec, WorkerLeft;
    more := acts;
    if k > 0 {
      var before := WorkersFinish(n, acts, k - 1);
      more := WorkerFinishes(n, before, k - 1);
    }
  }

  /** From every state that a run can reach, some continuation brings every transaction begun so far to its
      end and leaves the dispatcher free and every worker that has started waiting for a request. */
  lemma CanAlwaysFinish(n: nat, acts: seq<Action>) returns (more: seq<Action>)
    ensures acts <= more && Exec(n, more).dispatcher.Free?
    ensures var t := Exec(n, more);
      && (forall w :: 0 <= w < n ==> t.workers[w].place.NotStarted? || t.workers[w].state == WAITING_FOR_REQUEST)
      && forall k :: 0 < k < t.next ==> Closed(t, k)
  {
    var before := DispatcherFinishes(n, acts);
    more := WorkersFinish(n, before, n);
    InvHolds(n, more);
    NothingLost(n, more);
    hide Exec;
    RestingIsDone(Exec(n, more));
  }

  lemma RestingIsDone(s: State)
    requires Inv(s) && Accounted(s) && s.dispatcher.Free?
    requires forall w :: 0 <= w < |s.workers| ==> WorkerLeft(s.workers[w]) <= 0
    ensures forall w :: 0 <= w < |s.workers| ==>
      s.workers[w].place.NotStarted? || s.workers[w].state == WAITING_FOR_REQUEST
    ensures forall k :: 0 < k < s.next ==> Closed(s, k)
  {
    forall w | 0 <= w < |s.workers|
      ensures s.workers[w].place.NotStarted? || s.workers[w].state == WAITING_FOR_REQUEST
      ensures s.workers[w].place.NotStarted? ==> s.workers[w].current == 0
    {
      assert Coherent(s.dispatcher, w, s.workers[w]);
    }
  }

  /** Dispatcher and worker are at the fields of one worker at once. */
  ghost predicate Overlap(s: State)
  {
    exists w :: 0 <= w < |s.workers| && DispatcherAt(s.dispatcher, w) && WorkerAt(s.workers[w])
  }

  /** A write request can reach the overlap: the worker is at work on the transfer while the dispatcher
      is about to write its last ACK number. */
  lemma WriteRequestCanOverlap(n: nat) returns (acts: seq<Action>)
    requires n >= 1
    ensures DispatcherAt(Exec(n, acts).dispatcher, 0) && WorkerAt(Exec(n, acts).workers[0])
  {
    acts := Opens(n, FIELDS);
    hide Exec;
    acts := Played(n, acts, Dispatch(Proceed, true));
    assert At(Exec(n, acts), Acking(0), WAITING_FOR_DATA);
    acts := Played(n, acts, Work(0, false));
  }

  /** Whether requests of a run may be writes. */
  predicate Allowed(acts: seq<Action>, writes: bool)
  {
    writes || NoWrites(acts)
  }

  /** They never are, in all runs, if and only if no request is a write, or there is no worker. */
  lemma NeverOverlapIff(n: nat, writes: bool)
    ensures (forall acts :: Allowed(acts, writes) ==> !Overlap(Exec(n, acts))) <==> n == 0 || !writes
  {
    if writes && n >= 1 {
      var acts := WriteRequestCanOverlap(n);
      assert Allowed(acts, writes) && Overlap(Exec(n, acts));
    } else {
      forall acts | Allowed(acts, writes) ensures !Overlap(Exec(n, acts)) {
        hide Exec;
        forall w | 0 <= w < n
          ensures !(DispatcherAt(Exec(n, acts).dispatcher, w) && WorkerAt(Exec(n, acts).workers[w]))
        {
          ReadersNeverOverlap(n, acts, w);
        }
      }
    }
  }
}
