/** The signal: two binary semaphores that pass one token, for any number of emitters and waiters. */
module Signals {
  import opened Counting

  /** Emitting: has taken the mallet, is about to ring the bell. Waking: has taken the bell, is about to
      give the mallet back and return. */
  datatype Place = Idle | Emitting | Waking

  /** overflowed: some release found its semaphore full. answered counts the waits that have returned true. */
  datatype State = State(bell: nat, mallet: nat, overflowed: bool, threads: seq<Place>, answered: nat)

  /** Emit is an emitter's attempt at the mallet, Listen a waiter's attempt at the bell (timed or not),
      Advance the release that follows a success. */
  datatype Action = Emit(t: nat) | Listen(t: nat) | Advance(t: nat)

  function Step(s: State, a: Action): State
  {
    if a.t >= |s.threads| then s
    else match a
      case Emit(t) =>
        if s.threads[t].Idle? && s.mallet > 0
        then s.(mallet := s.mallet - 1, threads := s.threads[t := Emitting]) else s
      case Listen(t) =>
        if s.threads[t].Idle? && s.bell > 0 then s.(bell := s.bell - 1, threads := s.threads[t := Waking]) else s
      case Advance(t) =>
        match s.threads[t]
        case Idle => s
        case Emitting =>
          s.(bell := s.bell + 1, overflowed := s.overflowed || s.bell >= 1, threads := s.threads[t := Idle])
        case Waking =>
          s.(mallet := s.mallet + 1, overflowed := s.overflowed || s.mallet >= 1,
             threads := s.threads[t := Idle], answered := s.answered + 1)
  }

  /** Reset() in a state where nothing else runs: two attempts to take, then one release. */
  function Reset(s: State): State
  {
    var u := s.(bell := if s.bell > 0 then s.bell - 1 else 0, mallet := if s.mallet > 0 then s.mallet - 1 else 0);
    u.(mallet := u.mallet + 1, overflowed := u.overflowed || u.mallet >= 1)
  }

  function Init(n: nat): State
  {
    State(0, 1, false, seq(n, i => Idle), 0)
  }

  function Run(s: State, acts: seq<Action>): (r: State)
    ensures |r.threads| == |s.threads|
  {
    if acts == [] then s else Step(Run(s, acts[..|acts| - 1]), acts[|acts| - 1])
  }

  function Busy(p: Place): nat
  {
    if p.Idle? then 0 else 1
  }

  /** There is one token: in the bell, in the mallet, or in the hands of one thread. */
  ghost predicate OneToken(s: State)
  {
    s.bell + s.mallet + Total(s.threads, Busy) == 1 && !s.overflowed
  }

  lemma StepKeepsToken(s: State, a: Action)
    requires OneToken(s)
    ensures OneToken(Step(s, a))
  {
    if a.t < |s.threads| {
      TotalUpdate(s.threads, a.t, Step(s, a).threads[a.t], Busy);
      TotalAtLeast(s.threads, a.t, Busy);
      assert s.threads[a.t := s.threads[a.t]] == s.threads;
    }
  }

  lemma {:induction false} RunKeepsToken(s: State, acts: seq<Action>)
    requires OneToken(s)
    ensures OneToken(Run(s, acts))
  {
    if acts != [] {
      RunKeepsToken(s, acts[..|acts| - 1]);
      StepKeepsToken(Run(s, acts[..|acts| - 1]), acts[|acts| - 1]);
    }
  }

  /** In every run there is one token, so no release ever finds its semaphore full. */
  lemma TokenConserved(n: nat, acts: seq<Action>)
    ensures OneToken(Run(Init(n), acts))
  {
    TotalZero(Init(n).threads, Busy);
    RunKeepsToken(Init(n), acts);
  }

  // ---- No signal is lost ----

  lemma {:induction false} ReturnsGrow(s: State, acts: seq<Action>)
    ensures Run(s, acts).answered >= s.answered
  {
    if acts != [] {
      ReturnsGrow(s, acts[..|acts| - 1]);
    }
  }

  /** Without a return the token does not come back to the mallet. */
  lemma {:induction false} TokenComesBackByReturn(s: State, acts: seq<Action>)
    requires OneToken(s) && s.mallet == 0 && Run(s, acts).answered == s.answered
    ensures Run(s, acts).mallet == 0
  {
    if acts != [] {
      var before := acts[..|acts| - 1];
      ReturnsGrow(s, before);
      RunKeepsToken(s, before);
      TokenComesBackByReturn(s, before);
    }
  }

  /** Whether or not an emitter gets the mallet: from its attempt on, until some waiter returns, the
      signal stays pending - the bell rings, or the token is on its way to or from the bell. */
  lemma EmitIsAnswered(s: State, t: nat, acts: seq<Action>)
    requires OneToken(s) && t < |s.threads| && s.threads[t].Idle?
    ensures var r := Run(Step(s, Emit(t)), acts);
      r.answered > s.answered || (r.mallet == 0 && r.bell + Total(r.threads, Busy) == 1)
  {
    var u := Step(s, Emit(t));
    StepKeepsToken(s, Emit(t));
    RunKeepsToken(u, acts);
    ReturnsGrow(u, acts);
    if Run(u, acts).answered == u.answered {
      TokenComesBackByReturn(u, acts);
    }
  }

  lemma RunMore(s: State, acts: seq<Action>, a: Action)
    ensures Run(s, acts + [a]) == Step(Run(s, acts), a)
  {
    assert (acts + [a])[..|acts|] == acts;
  }

  /** The thread that has the token while neither semaphore does. */
  lemma TokenHolder(s: State) returns (t: nat)
    requires OneToken(s) && s.bell == 0 && s.mallet == 0
    ensures t < |s.threads| && !s.threads[t].Idle?
  {
    t := TotalSource(s.threads, Busy);
  }

  /** A pending signal wakes: whoever has the token, one step of its holder and two of any waiter that is not
      busy are enough for a wait to return. */
  lemma PendingWakes(s: State, u: nat) returns (acts: seq<Action>)
    requires OneToken(s) && s.mallet == 0 && u < |s.threads| && s.threads[u].Idle?
    ensures |acts| <= 3 && Run(s, acts).answered == s.answered + 1 && Run(s, acts).mallet == 1
  {
    acts := [];
    if s.bell == 0 {
      var t := TokenHolder(s);
      acts := [Advance(t)];
      RunMore(s, [], Advance(t));
    }
    RunKeepsToken(s, acts);
    hide OneToken;
    if Run(s, acts).answered == s.answered {
      RunMore(s, acts, Listen(u));
      RunMore(s, acts + [Listen(u)], Advance(u));
      RunKeepsToken(s, acts + [Listen(u)]);
      acts := acts + [Listen(u)] + [Advance(u)];
    }
  }

  /** How many emits have got the mallet. */
  function Granted(s: State, acts: seq<Action>): nat
  {
    if acts == [] then 0
    else
      var r, a := Run(s, acts[..|acts| - 1]), acts[|acts| - 1];
      var got := a.Emit? && a.t < |r.threads| && r.threads[a.t].Idle? && r.mallet > 0;
      Granted(s, acts[..|acts| - 1]) + if got then 1 else 0
  }

  /** In every run each return answers one granted emit, and at most one is still to be answered, the one
      that is pending. */
  lemma {:induction false} ReturnsAnswerEmits(n: nat, acts: seq<Action>)
    ensures var r := Run(Init(n), acts);
      Granted(Init(n), acts) == r.answered + if r.mallet == 0 then 1 else 0
  {
    if acts != [] {
      ReturnsAnswerEmits(n, acts[..|acts| - 1]);
      TokenConserved(n, acts[..|acts| - 1]);
      TokenMoves(Run(Init(n), acts[..|acts| - 1]), acts[|acts| - 1]);
      hide OneToken;
    }
  }

  lemma TokenMoves(s: State, a: Action)
    requires OneToken(s)
    ensures s.mallet <= 1
    ensures a.t < |s.threads| && s.threads[a.t].Waking? ==> s.mallet == 0
  {
    if a.t < |s.threads| {
      TotalAtLeast(s.threads, a.t, Busy);
    }
  }

  // ---- Reset ----

  /** Reset() restores one token exactly when no thread is about to release one. */
  lemma ResetRestoresIff(s: State)
    requires OneToken(s)
    ensures Reset(s).bell == 0 && Reset(s).mallet == 1
    ensures OneToken(Reset(s)) <==> forall i :: 0 <= i < |s.threads| ==> s.threads[i].Idle?
  {
    if forall i :: 0 <= i < |s.threads| ==> s.threads[i].Idle? {
      TotalZero(s.threads, Busy);
    } else {
      var i :| 0 <= i < |s.threads| && !s.threads[i].Idle?;
      TotalAtLeast(s.threads, i, Busy);
    }
  }
}
