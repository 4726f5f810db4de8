/** The readers/writer interlock: one 32-bit word, readers in the low bits, a writer in the top bit. */
module RWInterlocks {
  const WRITE_FLAG: nat := 0x8000_0000
  const WORD: nat := 0x1_0000_0000
  const ATTEMPTS: nat := 3

  type u32 = x: int | 0 <= x < 0x1_0000_0000

  predicate HasFlag(c: u32)
  {
    c >= WRITE_FLAG
  }

  /** The atomic operations on the word. */
  function Increment(c: u32): u32
  {
    (c + 1) % WORD
  }

  function Decrement(c: u32): u32
  {
    (c + WORD - 1) % WORD
  }

  function SetFlag(c: u32): u32
  {
    if HasFlag(c) then c else c + WRITE_FLAG
  }

  function ClearFlag(c: u32): u32
  {
    c % WRITE_FLAG
  }

  /** The interlock used by one thread at a time, as under the lock table's mutex. */
  class RWInterlock {
    var counter: u32

    constructor ()
      ensures counter == 0
    {
      counter := 0;
    }

    /** Succeeds exactly when no writer holds the lock; a failed attempt leaves no trace. */
    method TryLockRead() returns (result: bool)
      modifies this
      ensures result == !HasFlag(old(counter))
      ensures counter == if result then Increment(old(counter)) else old(counter)
    {
      var attempt := ATTEMPTS;
      result := false;
      while !result && attempt > 0
        invariant counter == if result then Increment(old(counter)) else old(counter)
        invariant result ==> !HasFlag(old(counter))
        invariant !result ==> attempt == ATTEMPTS || HasFlag(old(counter))
        decreases !result, attempt
      {
        attempt := attempt - 1;
        result := LockReadAttempt();
      }
    }

    /** Succeeds exactly when the lock is free; a failed attempt leaves no trace. */
    method TryLockWrite() returns (result: bool)
      modifies this
      ensures result == (old(counter) == 0)
      ensures counter == if result then WRITE_FLAG else old(counter)
    {
      var attempt := ATTEMPTS;
      result := false;
      while !result && attempt > 0
        invariant counter == if result then WRITE_FLAG else old(counter)
        invariant result ==> old(counter) == 0
        invariant !result ==> attempt == ATTEMPTS || old(counter) != 0
        decreases !result, attempt
      {
        attempt := attempt - 1;
        result := LockWriteAttempt();
      }
    }

    method UnlockRead()
      modifies this
      ensures counter == Decrement(old(counter))
    {
      counter := Decrement(counter);
    }

    method UnlockWrite()
      modifies this
      ensures counter == ClearFlag(old(counter))
    {
      counter := ClearFlag(counter);
    }

    method LockReadAttempt() returns (result: bool)
      modifies this
      ensures result == !HasFlag(old(counter))
      ensures counter == if result then Increment(old(counter)) else old(counter)
    {
      var was := counter;
      counter := Increment(counter);
      if HasFlag(was) {
        counter := Decrement(counter);
        return false;
      }
      result := true;
    }

    method LockWriteAttempt() returns (result: bool)
      modifies this
      ensures result == (old(counter) == 0)
      ensures counter == if result then WRITE_FLAG else old(counter)
    {
      var r := counter;
      counter := SetFlag(counter);
      if HasFlag(r) {
        return false;
      } else if r != 0 {
        counter := ClearFlag(counter);
        return false;
      }
      result := true;
    }
  }
}

/** Any number of threads on one interlock, each atomic operation one step. */
module RWInterlockThreads {
  import opened Counting
  import opened RWInterlocks

  /** Where a thread stands; left counts the attempts it has, the current one included. */
  datatype Place =
    | Idle
    | ReadTry(left: nat) | ReadUndo(left: nat) | Reading
    | WriteTry(left: nat) | WriteUndo(left: nat) | Writing

  datatype State = State(counter: u32, threads: seq<Place>)

  /** Advance performs the thread's next atomic operation. */
  datatype Action = BeginRead(t: nat) | BeginWrite(t: nat) | Advance(t: nat) | Unlock(t: nat)

  function NextRead(left: nat): Place
  {
    if left > 1 then ReadTry(left - 1) else Idle
  }

  function NextWrite(left: nat): Place
  {
    if left > 1 then WriteTry(left - 1) else Idle
  }

  /** The word and the thread's place after its next operation. */
  function Operate(c: u32, p: Place): (u32, Place)
  {
    match p
    case ReadTry(left) => (Increment(c), if HasFlag(c) then ReadUndo(left) else Reading)
    case ReadUndo(left) => (Decrement(c), NextRead(left))
    case WriteTry(left) =>
      (SetFlag(c), if HasFlag(c) then NextWrite(left) else if c != 0 then WriteUndo(left) else Writing)
    case WriteUndo(left) => (ClearFlag(c), NextWrite(left))
    case _ => (c, p)
  }

  function Release(c: u32, p: Place): (u32, Place)
  {
    match p
    case Reading => (Decrement(c), Idle)
    case Writing => (ClearFlag(c), Idle)
    case _ => (c, p)
  }

  function Step(s: State, a: Action): State
  {
    if a.t >= |s.threads| then s
    else
      var p := s.threads[a.t];
      var r := match a
        case BeginRead(_) => (s.counter, if p.Idle? then ReadTry(ATTEMPTS) else p)
        case BeginWrite(_) => (s.counter, if p.Idle? then WriteTry(ATTEMPTS) else p)
        case Advance(_) => Operate(s.counter, p)
        case Unlock(_) => Release(s.counter, p);
      State(r.0, s.threads[a.t := r.1])
  }

  function Init(n: nat): State
  {
    State(0, seq(n, i => Idle))
  }

  function Exec(n: nat, acts: seq<Action>): (s: State)
    ensures |s.threads| == n
  {
    if acts == [] then Init(n) else Step(Exec(n, acts[..|acts| - 1]), acts[|acts| - 1])
  }

  /** Threads counted in the low bits, in the flag, and as readers that hold the lock. */
  function InLowBits(p: Place): nat
  {
    if p.Reading? || p.ReadUndo? then 1 else 0
  }

  function InFlag(p: Place): nat
  {
    if p.Writing? || p.WriteUndo? then 1 else 0
  }

  /** The word says exactly how many threads are readers or about to undo, and whether one is a writer or
      about to undo; a writer that holds the lock leaves no reader that holds it. */
  ghost predicate Inv(s: State)
  {
    && Total(s.threads, InFlag) <= 1
    && s.counter == Total(s.threads, InLowBits) + WRITE_FLAG * Total(s.threads, InFlag)
    && (forall i, j :: 0 <= i < |s.threads| && 0 <= j < |s.threads| && s.threads[i].Writing? ==> !s.threads[j].Reading?)
  }

  lemma {:induction false} ReadersFit(s: State)
    ensures Total(s.threads, InLowBits) <= |s.threads|
  {
    TotalAtMost(s.threads, InLowBits);
  }

  /** One operation on the word moves the thread's share of it from its old place to its new one. */
  lemma WordAccount(c: u32, p: Place, low: nat, flag: nat, r: (u32, Place))
    requires c == low + WRITE_FLAG * flag && low < WRITE_FLAG && flag <= 1
    requires InLowBits(p) <= low && InFlag(p) <= flag && low - InLowBits(p) + InLowBits(r.1) < WRITE_FLAG
    requires r == Operate(c, p) || r == Release(c, p)
    ensures var low', flag' := low - InLowBits(p) + InLowBits(r.1), flag - InFlag(p) + InFlag(r.1);
      flag' <= 1 && r.0 == low' + WRITE_FLAG * flag'
  {
  }

  /** A step moves one thread and operates on the word, or leaves the word and the thread's shares alone. */
  lemma StepMoves(s: State, a: Action)
    requires a.t < |s.threads|
    ensures var t, p := Step(s, a), s.threads[a.t];
      var q := t.threads[a.t];
      && t.threads == s.threads[a.t := q]
      && (|| (t.counter, q) == Operate(s.counter, p)
          || (t.counter, q) == Release(s.counter, p)
          || (t.counter == s.counter && InLowBits(q) == InLowBits(p) && InFlag(q) == InFlag(p)))
  {
    hide Operate, Release;
  }

  lemma StepKeepsInv(s: State, a: Action)
    requires |s.threads| < WRITE_FLAG && Inv(s)
    ensures Inv(Step(s, a))
  {
    if a.t < |s.threads| {
      var t, p, q := Step(s, a), s.threads[a.t], Step(s, a).threads[a.t];
      var low, flag := Total(s.threads, InLowBits), Total(s.threads, InFlag);
      StepMoves(s, a);
      HeldApart(s, a);
      hide Step, Operate, Release, InLowBits, InFlag, Total;
      ReadersFit(s);
      ReadersFit(t);
      TotalUpdate(s.threads, a.t, q, InLowBits);
      TotalUpdate(s.threads, a.t, q, InFlag);
      TotalAtLeast(s.threads, a.t, InLowBits);
      TotalAtLeast(s.threads, a.t, InFlag);
      if (t.counter, q) == Operate(s.counter, p) || (t.counter, q) == Release(s.counter, p) {
        WordAccount(s.counter, p, low, flag, (t.counter, q));
      }
    }
  }

  /** A thread that gets the lock finds no thread that holds it the other way. */
  lemma HeldApart(s: State, a: Action)
    requires |s.threads| < WRITE_FLAG && Inv(s) && a.t < |s.threads|
    ensures var u := Step(s, a).threads;
      forall i, j :: 0 <= i < |u| && 0 <= j < |u| && u[i].Writing? ==> !u[j].Reading?
  {
    var u := Step(s, a).threads;
    forall i, j | 0 <= i < |u| && 0 <= j < |u| && u[i].Writing? ensures !u[j].Reading? {
      if i != a.t {
        TotalAtLeast(s.threads, i, InFlag);
      }
      if j != a.t {
        TotalAtLeast(s.threads, j, InLowBits);
      }
    }
  }

  lemma {:induction false} InvHolds(n: nat, acts: seq<Action>)
    requires n < WRITE_FLAG
    ensures Inv(Exec(n, acts))
  {
    if acts == [] {
      TotalZero(Init(n).threads, InLowBits);
      TotalZero(Init(n).threads, InFlag);
    } else {
      InvHolds(n, acts[..|acts| - 1]);
      hide Inv, Step;
      StepKeepsInv(Exec(n, acts[..|acts| - 1]), acts[|acts| - 1]);
    }
  }

  /** A held write lock excludes every other holder, in every run of fewer than 2^31 threads. */
  lemma WriterExcludesAll(n: nat, acts: seq<Action>, i: nat, j: nat)
    requires n < WRITE_FLAG && i < n && j < n && i != j && Exec(n, acts).threads[i].Writing?
    ensures !Exec(n, acts).threads[j].Writing? && !Exec(n, acts).threads[j].Reading?
  {
    InvHolds(n, acts);
    hide Exec;
    TotalAtLeastTwo(Exec(n, acts).threads, if i < j then i else j, if i < j then j else i, InFlag);
  }

  // ---- A thread that is left alone ----

  /** The state after thread t has performed its next k operations with no other thread in between. */
  function Alone(s: State, t: nat, k: nat): State
  {
    if k == 0 then s else Step(Alone(s, t, k - 1), Advance(t))
  }

  lemma {:induction false} AloneMore(s: State, t: nat, i: nat, k: nat)
    ensures Alone(Alone(s, t, i), t, k) == Alone(s, t, i + k)
  {
    if k > 0 {
      AloneMore(s, t, i, k - 1);
    }
  }

  /** One failed attempt, undone, leaves the word as it was. */
  lemma AttemptUndone(s: State, t: nat)
    requires t < |s.threads| && s.threads[t].ReadTry? && HasFlag(s.counter)
    ensures Alone(s, t, 2) == State(s.counter, s.threads[t := NextRead(s.threads[t].left)])
  {
    assert Alone(s, t, 2) == Step(Step(Alone(s, t, 0), Advance(t)), Advance(t));
  }

  /** From any word: a thread that is to read gets the lock exactly if the flag is not up, counted in the
      word; otherwise it gives up after its attempts and leaves the word untouched, as TryLockRead does. */
  lemma {:induction false} ReadAlone(s: State, t: nat) returns (k: nat)
    requires t < |s.threads| && s.threads[t].ReadTry? && s.threads[t].left > 0
    ensures k == if HasFlag(s.counter) then 2 * s.threads[t].left else 1
    ensures Alone(s, t, k)
      == if HasFlag(s.counter) then State(s.counter, s.threads[t := Idle])
         else State(Increment(s.counter), s.threads[t := Reading])
    decreases s.threads[t].left
  {
    if HasFlag(s.counter) {
      AttemptUndone(s, t);
      k := 2;
      if s.threads[t].left > 1 {
        var more := ReadAlone(Alone(s, t, 2), t);
        AloneMore(s, t, 2, more);
        k := 2 + more;
      }
    } else {
      k := 1;
      assert Alone(s, t, 0) == s;
    }
  }

  lemma WriteAttempt(s: State, t: nat) returns (k: nat)
    requires t < |s.threads| && s.threads[t].WriteTry? && s.counter != 0
    ensures k == if HasFlag(s.counter) then 1 else 2
    ensures Alone(s, t, k) == State(s.counter, s.threads[t := NextWrite(s.threads[t].left)])
  {
    k := if HasFlag(s.counter) then 1 else 2;
    assert Alone(s, t, 1) == Step(Alone(s, t, 0), Advance(t));
    assert Alone(s, t, 2) == Step(Alone(s, t, 1), Advance(t));
  }

  /** A thread that is to write gets the lock exactly if the word is 0, and leaves it untouched otherwise,
      as TryLockWrite does. */
  lemma {:induction false} WriteAlone(s: State, t: nat) returns (k: nat)
    requires t < |s.threads| && s.threads[t].WriteTry? && s.threads[t].left > 0
    ensures k == if s.counter == 0 then 1 else if HasFlag(s.counter) then s.threads[t].left else 2 * s.threads[t].left
    ensures Alone(s, t, k)
      == if s.counter == 0 then State(WRITE_FLAG, s.threads[t := Writing]) else State(s.counter, s.threads[t := Idle])
    decreases s.threads[t].left
  {
    if s.counter != 0 {
      k := WriteAttempt(s, t);
      if s.threads[t].left > 1 {
        var more := WriteAlone(Alone(s, t, k), t);
        AloneMore(s, t, k, more);
        k := k + more;
      }
    } else {
      k := 1;
      assert Alone(s, t, 0) == s;
    }
  }

  /** An idle thread that wants the lock and is refused tries three times: two operations for each attempt
      that has to be taken back, one for each that finds the flag up already. */
  lemma ThreeAttempts(s: State, t: nat) returns (ofRead: nat, ofWrite: nat)
    requires t < |s.threads| && s.threads[t].Idle? && s.counter != 0
    ensures HasFlag(s.counter) ==> ofRead == 6 && Alone(Step(s, BeginRead(t)), t, ofRead) == s
    ensures ofWrite == (if HasFlag(s.counter) then 3 else 6) && Alone(Step(s, BeginWrite(t)), t, ofWrite) == s
  {
    ofRead := ReadAlone(Step(s, BeginRead(t)), t);
    ofWrite := WriteAlone(Step(s, BeginWrite(t)), t);
    assert s.threads[t := s.threads[t]] == s.threads;
  }

  // ---- Who gets the lock ----

  predicate Counted(p: Place)
  {
    p.Reading? || p.ReadUndo? || p.Writing? || p.WriteUndo?
  }

  lemma FreeIff(s: State)
    requires |s.threads| < WRITE_FLAG && Inv(s)
    ensures s.counter == 0 <==> forall i :: 0 <= i < |s.threads| ==> !Counted(s.threads[i])
  {
    ReadersFit(s);
    if s.counter == 0 {
      forall i | 0 <= i < |s.threads| ensures !Counted(s.threads[i]) {
        TotalAtLeast(s.threads, i, InLowBits);
        TotalAtLeast(s.threads, i, InFlag);
      }
    } else if Total(s.threads, InFlag) > 0 {
      var i := TotalSource(s.threads, InFlag);
    } else {
      var i := TotalSource(s.threads, InLowBits);
    }
  }

  lemma ExecMore(n: nat, acts: seq<Action>, a: Action)
    ensures Exec(n, acts + [a]) == Step(Exec(n, acts), a)
  {
    assert (acts + [a])[..|acts|] == acts;
  }

  /** In every run an attempt to write gets the lock if and only if no thread reads or writes or has an
      attempt to take back. */
  lemma WriterEntersIff(n: nat, acts: seq<Action>, t: nat)
    requires n < WRITE_FLAG && t < n && Exec(n, acts).threads[t].WriteTry?
    ensures Exec(n, acts + [Advance(t)]).threads[t].Writing?
      <==> forall i :: 0 <= i < n ==> !Counted(Exec(n, acts).threads[i])
  {
    InvHolds(n, acts);
    FreeIff(Exec(n, acts));
    ExecMore(n, acts, Advance(t));
    hide Exec, Inv, Counted;
  }

  /** And an attempt to read if and only if no thread writes or has an attempt to write to take back. */
  lemma ReaderEntersIff(n: nat, acts: seq<Action>, t: nat)
    requires n < WRITE_FLAG && t < n && Exec(n, acts).threads[t].ReadTry?
    ensures Exec(n, acts + [Advance(t)]).threads[t].Reading?
      <==> forall i :: 0 <= i < n ==> !Exec(n, acts).threads[i].Writing? && !Exec(n, acts).threads[i].WriteUndo?
  {
    InvHolds(n, acts);
    InvGivesFlagMeaning(Exec(n, acts));
    ExecMore(n, acts, Advance(t));
    hide Exec, Inv;
  }

  /** The lock is passed on: when its only holder unlocks and every other thread is idle, the next thread
      that wants to write gets it at once. */
  lemma PassedOn(n: nat, acts: seq<Action>, t: nat, u: nat)
    requires n < WRITE_FLAG && t < n && u < n
    requires Exec(n, acts).threads[t].Reading? || Exec(n, acts).threads[t].Writing?
    requires forall i :: 0 <= i < n && i != t ==> Exec(n, acts).threads[i].Idle?
    ensures Exec(n, acts + [Unlock(t)] + [BeginWrite(u)] + [Advance(u)]).threads[u].Writing?
  {
    ExecMore(n, acts, Unlock(t));
    ExecMore(n, acts + [Unlock(t)], BeginWrite(u));
    WriterEntersIff(n, acts + [Unlock(t)] + [BeginWrite(u)], u);
    hide Exec;
  }

  // ---- Why fewer than 2^31 threads ----

  /** The flag is up exactly while some thread writes or is about to take its flag back. */
  ghost predicate FlagMeansWriter(s: State)
  {
    HasFlag(s.counter) <==> exists i :: 0 <= i < |s.threads| && (s.threads[i].Writing? || s.threads[i].WriteUndo?)
  }

  lemma InvGivesFlagMeaning(s: State)
    requires |s.threads| < WRITE_FLAG && Inv(s)
    ensures FlagMeansWriter(s)
  {
    ReadersFit(s);
    if Total(s.threads, InFlag) > 0 {
      var i := TotalSource(s.threads, InFlag);
    } else {
      forall i | 0 <= i < |s.threads| ensures !s.threads[i].Writing? && !s.threads[i].WriteUndo? {
        TotalAtLeast(s.threads, i, InFlag);
      }
    }
  }

  /** k threads, one after another, take the lock for reading. */
  lemma {:induction false} ReadersOnly(n: nat, k: nat) returns (acts: seq<Action>)
    requires k <= n && k <= WRITE_FLAG
    ensures var s := Exec(n, acts);
      s.counter == k && forall i :: 0 <= i < n ==> s.threads[i] == if i < k then Reading else Idle
  {
    if k == 0 {
      acts := [];
    } else {
      var before := ReadersOnly(n, k - 1);
      ExecMore(n, before, BeginRead(k - 1));
      ExecMore(n, before + [BeginRead(k - 1)], Advance(k - 1));
      hide Exec;
      acts := before + [BeginRead(k - 1)] + [Advance(k - 1)];
    }
  }

  /** The reader count and the flag stay apart, in every run, exactly for fewer than 2^31 threads. */
  lemma FlagMeansWriterIff(n: nat)
    ensures (forall acts :: FlagMeansWriter(Exec(n, acts))) <==> n < WRITE_FLAG
  {
    if n < WRITE_FLAG {
      forall acts ensures FlagMeansWriter(Exec(n, acts)) {
        InvHolds(n, acts);
        InvGivesFlagMeaning(Exec(n, acts));
      }
    } else {
      var acts := ReadersOnly(n, WRITE_FLAG);
      assert !FlagMeansWriter(Exec(n, acts));
    }
  }
}
