/** The file lock table: a sparse map of interlock words. */
module LockTables {
  import opened RWInterlocks

  type Path = string

  /** What an interlock word says about its file. */
  datatype Holders = Holders(readers: nat, writer: bool)

  function Meaning(c: u32): Holders
  {
    Holders(c % WRITE_FLAG, HasFlag(c))
  }

  const FREE := Holders(0, false)

  /** The abstract table: every path has an entry. */
  function Lookup(locks: map<Path, u32>, p: Path): Holders
  {
    if p in locks then Meaning(locks[p]) else FREE
  }

  /** No entry is kept for a file that nobody holds. */
  predicate Sparse(locks: map<Path, u32>)
  {
    forall p :: p in locks ==> locks[p] != 0
  }

  /** Entry p of the abstract table is now h; all other entries are as before. */
  ghost predicate Becomes(locks: map<Path, u32>, locks': map<Path, u32>, p: Path, h: Holders)
  {
    && Lookup(locks', p) == h
    && forall q :: q != p ==> (q in locks' <==> q in locks) && (q in locks ==> locks'[q] == locks[q])
  }

  // What the four operations do to the map.

  function ReadLocked(locks: map<Path, u32>, p: Path): map<Path, u32>
  {
    var c := if p in locks then locks[p] else 0;
    if HasFlag(c) then locks else locks[p := Increment(c)]
  }

  function WriteLocked(locks: map<Path, u32>, p: Path): map<Path, u32>
  {
    if p in locks && locks[p] != 0 then locks else locks[p := WRITE_FLAG]
  }

  function Released(locks: map<Path, u32>, p: Path, c: u32): map<Path, u32>
  {
    if c == 0 then locks - {p} else locks[p := c]
  }

  function ReadUnlocked(locks: map<Path, u32>, p: Path): map<Path, u32>
  {
    if p in locks then Released(locks, p, Decrement(locks[p])) else locks
  }

  function WriteUnlocked(locks: map<Path, u32>, p: Path): map<Path, u32>
  {
    if p in locks then Released(locks, p, ClearFlag(locks[p])) else locks
  }

  class FileSecurityHandler {
    var locks: map<Path, u32>

    constructor ()
      ensures locks == map[]
    {
      locks := map[];
    }

    /** Indexing creates the entry; the attempt then runs on the interlock. */
    method LockFileForRead(file: Path) returns (locked: bool)
      modifies this
      ensures locks == ReadLocked(old(locks), file)
      ensures locked == !Lookup(old(locks), file).writer
    {
      if file !in locks {
        locks := locks[file := 0];
      }
      var interlock := new RWInterlock();
      interlock.counter := locks[file];
      locked := interlock.TryLockRead();
      locks := locks[file := interlock.counter];
    }

    method LockFileForWrite(file: Path) returns (locked: bool)
      modifies this
      ensures locks == WriteLocked(old(locks), file)
      ensures locked == (Lookup(old(locks), file) == FREE)
    {
      if file !in locks {
        locks := locks[file := 0];
      }
      var interlock := new RWInterlock();
      interlock.counter := locks[file];
      locked := interlock.TryLockWrite();
      locks := locks[file := interlock.counter];
    }

    method UnlockFileForRead(file: Path) returns (known: bool)
      modifies this
      ensures known == (file in old(locks)) && locks == ReadUnlocked(old(locks), file)
    {
      if file !in locks {
        return false;
      }
      locks := locks[file := Decrement(locks[file])];
      if locks[file] == 0 {
        locks := locks - {file};
      }
      known := true;
    }

    method UnlockFileForWrite(file: Path) returns (known: bool)
      modifies this
      ensures known == (file in old(locks)) && locks == WriteUnlocked(old(locks), file)
    {
      if file !in locks {
        return false;
      }
      locks := locks[file := ClearFlag(locks[file])];
      if locks[file] == 0 {
        locks := locks - {file};
      }
      known := true;
    }
  }

  // ---- Refinement of the abstract table ----

  /** A read lock is granted exactly when there is no writer, adds one reader and touches nothing else;
      a refused one changes nothing. Only a count of 2^31 - 1 readers is out of reach. */
  lemma ReadLockRefines(locks: map<Path, u32>, p: Path)
    requires Sparse(locks) && Lookup(locks, p).readers + 1 < WRITE_FLAG
    ensures var locks', h := ReadLocked(locks, p), Lookup(locks, p);
      && Sparse(locks')
      && (h.writer ==> locks' == locks)
      && (!h.writer ==> Becomes(locks, locks', p, Holders(h.readers + 1, false)))
  {
  }

  lemma WriteLockRefines(locks: map<Path, u32>, p: Path)
    requires Sparse(locks)
    ensures var locks', h := WriteLocked(locks, p), Lookup(locks, p);
      && Sparse(locks')
      && (h != FREE ==> locks' == locks)
      && (h == FREE ==> Becomes(locks, locks', p, Holders(0, true)))
  {
  }

  function OneReaderLess(h: Holders): Holders
  {
    h.(readers := if h.readers > 0 then h.readers - 1 else 0)
  }

  /** Unlocking what one holds takes one reader away and leaves no free entry behind; unlocking a file
      that no reader holds breaks the table, unless nobody holds it at all. */
  lemma ReadUnlockRefinesIff(locks: map<Path, u32>, p: Path)
    requires Sparse(locks)
    ensures var locks', h := ReadUnlocked(locks, p), Lookup(locks, p);
      && Sparse(locks')
      && (h.readers > 0 <==> h != FREE && Becomes(locks, locks', p, OneReaderLess(h)))
      && (h == FREE ==> locks' == locks)
  {
  }

  lemma WriteUnlockRefines(locks: map<Path, u32>, p: Path)
    requires Sparse(locks)
    ensures var locks', h := WriteUnlocked(locks, p), Lookup(locks, p);
      Sparse(locks') && Becomes(locks, locks', p, h.(writer := false))
  {
  }

  /** Locking and unlocking leaves the map as it was. */
  lemma LockUnlockRestores(locks: map<Path, u32>, p: Path)
    requires Sparse(locks) && Lookup(locks, p).readers + 1 < WRITE_FLAG
    ensures !Lookup(locks, p).writer ==> ReadUnlocked(ReadLocked(locks, p), p) == locks
    ensures Lookup(locks, p) == FREE ==> WriteUnlocked(WriteLocked(locks, p), p) == locks
  {
  }
}

/** The lock table together with the workers that use it. */
module LockingWorkers {
  import opened Counting
  import opened RWInterlocks
  import opened LockTables

  datatype Operation = UNDEF | RRQ | WRQ

  /** The worker's fields, and whether its current transaction holds the lock it believes to hold. */
  datatype Worker = Worker(fileLocked: bool, operation: Operation, path: Path, holds: bool)

  datatype State = State(locks: map<Path, u32>, workers: seq<Worker>)

  /** Request reaches the lock step; Malformed is rejected before the path is set, Invalid after it;
      End is the end of a transaction that holds its lock. */
  datatype Action =
    | Request(w: nat, operation: Operation, path: Path)
    | Malformed(w: nat) | Invalid(w: nat, path: Path)
    | End(w: nat)

  /** The end of every transaction: unlock if the flag says so; the flag itself stays. */
  function Terminate(locks: map<Path, u32>, w: Worker): map<Path, u32>
  {
    if !w.fileLocked || w.operation.UNDEF? then locks
    else if w.operation.RRQ? then ReadUnlocked(locks, w.path)
    else WriteUnlocked(locks, w.path)
  }

  function Step(s: State, a: Action): State
  {
    if a.w >= |s.workers| then s
    else
      var w := s.workers[a.w];
      match a
      case Request(i, op, path) =>
        if w.holds || op.UNDEF? then s
        else
          var granted := if op.RRQ? then !Lookup(s.locks, path).writer else Lookup(s.locks, path) == FREE;
          var locks := if op.RRQ? then ReadLocked(s.locks, path) else WriteLocked(s.locks, path);
          var v := Worker(granted, op, path, granted);
          State(if granted then locks else Terminate(locks, v), s.workers[i := v])
      case Malformed(i) =>
        if w.holds then s else State(Terminate(s.locks, w), s.workers)
      case Invalid(i, path) =>
        if w.holds then s
        else State(Terminate(s.locks, w.(path := path)), s.workers[i := w.(path := path)])
      case End(i) =>
        if !w.holds then s
        else State(Terminate(s.locks, w), s.workers[i := w.(holds := false)])
  }

  function Exec(workers: nat, acts: seq<Action>): (s: State)
    ensures |s.workers| == workers
  {
    if acts == [] then State(map[], seq(workers, i => Worker(false, UNDEF, "", false)))
    else Step(Exec(workers, acts[..|acts| - 1]), acts[|acts| - 1])
  }

  function Reads(p: Path): Worker -> nat
  {
    (w: Worker) => if w.holds && w.operation.RRQ? && w.path == p then 1 else 0
  }

  function Writes(p: Path): Worker -> nat
  {
    (w: Worker) => if w.holds && w.operation.WRQ? && w.path == p then 1 else 0
  }

  /** The entry of file p counts the workers that hold p, and these are compatible. */
  ghost predicate Agrees(locks: map<Path, u32>, workers: seq<Worker>, p: Path)
  {
    var readers, writers := Total(workers, Reads(p)), Total(workers, Writes(p));
    && Lookup(locks, p) == Holders(readers, writers == 1)
    && writers <= 1 && (writers == 1 ==> readers == 0)
  }

  /** The table records exactly the locks the workers hold. */
  ghost predicate Faithful(s: State)
  {
    && Sparse(s.locks)
    && (forall i :: 0 <= i < |s.workers| && s.workers[i].holds ==>
          s.workers[i].fileLocked && !s.workers[i].operation.UNDEF?)
    && forall p :: Agrees(s.locks, s.workers, p)
  }

  // ---- Runs in which every request reaches the lock step ----

  /** Changing one worker moves the counts of its old and its new path. */
  lemma CountsMove(workers: seq<Worker>, i: nat, v: Worker, p: Path)
    requires i < |workers|
    ensures Total(workers[i := v], Reads(p)) + Reads(p)(workers[i]) == Total(workers, Reads(p)) + Reads(p)(v)
    ensures Total(workers[i := v], Writes(p)) + Writes(p)(workers[i]) == Total(workers, Writes(p)) + Writes(p)(v)
    ensures Total(workers, Reads(p)) >= Reads(p)(workers[i]) && Total(workers, Writes(p)) >= Writes(p)(workers[i])
    ensures Total(workers[i := v], Reads(p)) <= |workers|
  {
    TotalUpdate(workers, i, v, Reads(p));
    TotalUpdate(workers, i, v, Writes(p));
    TotalAtLeast(workers, i, Reads(p));
    TotalAtLeast(workers, i, Writes(p));
    TotalAtMost(workers[i := v], Reads(p));
  }

  lemma AgreesAfter(locks: map<Path, u32>, locks': map<Path, u32>, workers: seq<Worker>, i: nat, v: Worker, p: Path)
    requires i < |workers| && Agrees(locks, workers, p)
    requires var w, h := workers[i], Lookup(locks, p);
      var readers := h.readers - Reads(p)(w) + Reads(p)(v);
      var writers := (if h.writer then 1 else 0) - Writes(p)(w) + Writes(p)(v);
      && readers >= 0 && 0 <= writers <= 1 && (writers == 1 ==> readers == 0)
      && Lookup(locks', p) == Holders(readers, writers == 1)
    ensures Agrees(locks', workers[i := v], p)
  {
    CountsMove(workers, i, v, p);
  }

  lemma ReadersFit(s: State, p: Path)
    requires Agrees(s.locks, s.workers, p)
    ensures Lookup(s.locks, p).readers <= |s.workers|
  {
    TotalAtMost(s.workers, Reads(p));
  }

  /** A request that reaches the lock step keeps the table faithful, granted or refused. */
  lemma RequestKeepsFaithful(s: State, a: Action)
    requires Faithful(s) && |s.workers| + 1 < WRITE_FLAG && a.Request? && a.w < |s.workers|
    requires !s.workers[a.w].holds && !a.operation.UNDEF?
    ensures Faithful(Step(s, a))
  {
    var t := Step(s, a);
    var v := t.workers[a.w];
    assert Agrees(s.locks, s.workers, a.path);
    ReadersFit(s, a.path);
    ReadLockRefines(s.locks, a.path);
    WriteLockRefines(s.locks, a.path);
    forall p ensures Agrees(t.locks, t.workers, p) {
      assert Agrees(s.locks, s.workers, p);
      hide Agrees, ReadLocked, WriteLocked, Sparse, Total;
      AgreesNow(s, p);
      AgreesAfter(s.locks, t.locks, s.workers, a.w, v, p);
    }
  }

  lemma AgreesNow(s: State, p: Path)
    requires Agrees(s.locks, s.workers, p)
    ensures Lookup(s.locks, p).writer ==> Lookup(s.locks, p).readers == 0
    ensures forall i :: 0 <= i < |s.workers| ==>
      && Reads(p)(s.workers[i]) <= Lookup(s.locks, p).readers
      && (Writes(p)(s.workers[i]) == 1 ==> Lookup(s.locks, p).writer)
  {
    forall i | 0 <= i < |s.workers|
      ensures Reads(p)(s.workers[i]) <= Lookup(s.locks, p).readers
      ensures Writes(p)(s.workers[i]) == 1 ==> Lookup(s.locks, p).writer
    {
      TotalAtLeast(s.workers, i, Reads(p));
      TotalAtLeast(s.workers, i, Writes(p));
    }
  }

  lemma EndKeepsFaithful(s: State, a: Action)
    requires Faithful(s) && a.End? && a.w < |s.workers| && s.workers[a.w].holds
    ensures Faithful(Step(s, a))
  {
    var t := Step(s, a);
    var w := s.workers[a.w];
    assert Agrees(s.locks, s.workers, w.path);
    ReadUnlockRefinesIff(s.locks, w.path);
    WriteUnlockRefines(s.locks, w.path);
    AgreesNow(s, w.path);
    forall p ensures Agrees(t.locks, t.workers, p) {
      assert Agrees(s.locks, s.workers, p);
      hide Agrees, ReadUnlocked, WriteUnlocked, Sparse, Total;
      AgreesNow(s, p);
      AgreesAfter(s.locks, t.locks, s.workers, a.w, w.(holds := false), p);
    }
  }

  // ---- Rejected requests ----

  /** What the worker's stale flag would make its end of transaction unlock is held by somebody. */
  predicate UnlocksOther(locks: map<Path, u32>, w: Worker)
  {
    && w.fileLocked && !w.operation.UNDEF?
    && if w.operation.RRQ? then Lookup(locks, w.path) != FREE else Lookup(locks, w.path).writer
  }

  /** An action that does not make a worker release a lock it does not hold. */
  predicate Harmless(s: State, a: Action)
  {
    a.w < |s.workers| && !s.workers[a.w].holds ==>
      match a
      case Malformed(i) => !UnlocksOther(s.locks, s.workers[i])
      case Invalid(i, path) => !UnlocksOther(s.locks, s.workers[i].(path := path))
      case _ => true
  }

  lemma TerminateChangesIff(locks: map<Path, u32>, w: Worker)
    requires Sparse(locks)
    ensures !UnlocksOther(locks, w) ==> Terminate(locks, w) == locks
    ensures UnlocksOther(locks, w) ==> Lookup(Terminate(locks, w), w.path) != Lookup(locks, w.path)
  {
  }

  lemma IdleCountsKept(workers: seq<Worker>, i: nat, v: Worker, p: Path)
    requires i < |workers| && !workers[i].holds && !v.holds
    ensures Total(workers[i := v], Reads(p)) == Total(workers, Reads(p))
    ensures Total(workers[i := v], Writes(p)) == Total(workers, Writes(p))
  {
    CountsMove(workers, i, v, p);
  }

  lemma RejectionFaithfulIff(s: State, a: Action)
    requires Faithful(s) && (a.Malformed? || a.Invalid?) && a.w < |s.workers| && !s.workers[a.w].holds
    ensures Faithful(Step(s, a)) <==> Harmless(s, a)
  {
    var t := Step(s, a);
    var w := s.workers[a.w];
    var v := if a.Malformed? then w else w.(path := a.path);
    assert s.workers[a.w := w] == s.workers;
    assert t.workers == s.workers[a.w := v] && t.locks == Terminate(s.locks, v);
    TerminateChangesIff(s.locks, v);
    hide Terminate, Sparse, Total, Lookup;
    if Harmless(s, a) {
      forall p ensures Agrees(t.locks, t.workers, p) {
        assert Agrees(s.locks, s.workers, p);
        IdleCountsKept(s.workers, a.w, v, p);
      }
    } else {
      assert Agrees(s.locks, s.workers, v.path);
      IdleCountsKept(s.workers, a.w, v, v.path);
      assert !Agrees(t.locks, t.workers, v.path);
    }
  }

  lemma StepFaithfulIff(s: State, a: Action)
    requires Faithful(s) && |s.workers| + 1 < WRITE_FLAG
    ensures Faithful(Step(s, a)) <==> Harmless(s, a)
  {
    hide Faithful;
    if a.w < |s.workers| {
      if a.Request? && !s.workers[a.w].holds && !a.operation.UNDEF? {
        RequestKeepsFaithful(s, a);
      } else if a.End? && s.workers[a.w].holds {
        EndKeepsFaithful(s, a);
      } else if (a.Malformed? || a.Invalid?) && !s.workers[a.w].holds {
        RejectionFaithfulIff(s, a);
      }
    }
  }

  // ---- Whole runs ----

  lemma ExecPrefix(n: nat, acts: seq<Action>, k: nat)
    requires k < |acts|
    ensures Exec(n, acts[..k + 1]) == Step(Exec(n, acts[..k]), acts[k])
  {
    assert acts[..k + 1][..k] == acts[..k];
  }

  lemma InitFaithful(n: nat)
    ensures Faithful(Exec(n, []))
  {
    forall p ensures Agrees(Exec(n, []).locks, Exec(n, []).workers, p) {
      TotalZero(Exec(n, []).workers, Reads(p));
      TotalZero(Exec(n, []).workers, Writes(p));
    }
  }

  lemma {:induction false} HarmlessPrefixFaithful(n: nat, acts: seq<Action>, k: nat)
    requires n + 1 < WRITE_FLAG && k <= |acts|
    requires forall i :: 0 <= i < k ==> Harmless(Exec(n, acts[..i]), acts[i])
    ensures Faithful(Exec(n, acts[..k]))
  {
    hide Exec, Faithful, Harmless;
    if k == 0 {
      assert acts[..0] == [];
      InitFaithful(n);
    } else {
      HarmlessPrefixFaithful(n, acts, k - 1);
      ExecPrefix(n, acts, k - 1);
      StepFaithfulIff(Exec(n, acts[..k - 1]), acts[k - 1]);
    }
  }

  /** The table tells the truth throughout a run exactly when no request that was rejected before its
      lock step made its worker, by the flag left over from an earlier transfer, unlock a held file. */
  lemma RunFaithfulIff(n: nat, acts: seq<Action>)
    requires n + 1 < WRITE_FLAG
    ensures (forall k :: 0 <= k <= |acts| ==> Faithful(Exec(n, acts[..k])))
      <==> (forall k :: 0 <= k < |acts| ==> Harmless(Exec(n, acts[..k]), acts[k]))
  {
    hide Exec, Faithful, Harmless;
    if forall k :: 0 <= k < |acts| ==> Harmless(Exec(n, acts[..k]), acts[k]) {
      forall k | 0 <= k <= |acts| ensures Faithful(Exec(n, acts[..k])) {
        HarmlessPrefixFaithful(n, acts, k);
      }
    } else {
      var k :| 0 <= k < |acts| && !Harmless(Exec(n, acts[..k]), acts[k]);
      if Faithful(Exec(n, acts[..k])) {
        ExecPrefix(n, acts, k);
        StepFaithfulIff(Exec(n, acts[..k]), acts[k]);
        assert !Faithful(Exec(n, acts[..k + 1]));
      }
    }
  }

  predicate WritesFileOf(v: Worker, w: Worker)
  {
    v.holds && v.operation.WRQ? && w.path == v.path
  }

  /** A file being written is held by its writer alone. */
  ghost predicate Exclusive(s: State)
  {
    forall i, j :: 0 <= i < |s.workers| && 0 <= j < |s.workers| && i != j ==>
      WritesFileOf(s.workers[i], s.workers[j]) ==> !s.workers[j].holds
  }

  lemma FaithfulIsExclusive(s: State)
    requires Faithful(s)
    ensures Exclusive(s)
  {
    forall i, j | 0 <= i < |s.workers| && 0 <= j < |s.workers| && i != j && WritesFileOf(s.workers[i], s.workers[j])
      ensures !s.workers[j].holds
    {
      WriterAlone(s, i, j);
    }
  }

  lemma WriterAlone(s: State, i: nat, j: nat)
    requires Faithful(s) && i < |s.workers| && j < |s.workers| && i != j
    requires WritesFileOf(s.workers[i], s.workers[j])
    ensures !s.workers[j].holds
  {
    var p := s.workers[i].path;
    assert Agrees(s.locks, s.workers, p);
    TotalAtLeastTwo(s.workers, if i < j then i else j, if i < j then j else i, Writes(p));
    TotalAtLeast(s.workers, j, Reads(p));
    TotalAtLeast(s.workers, i, Writes(p));
  }

  /** No rejected request of the run makes its worker unlock a held file. */
  ghost predicate HarmlessRun(n: nat, acts: seq<Action>)
  {
    forall k :: 0 <= k < |acts| ==> Harmless(Exec(n, acts[..k]), acts[k])
  }

  /** In harmless runs a file being written is held by its writer alone. */
  lemma WritersExclusive(n: nat, acts: seq<Action>)
    requires n + 1 < WRITE_FLAG && HarmlessRun(n, acts)
    ensures Exclusive(Exec(n, acts))
  {
    assert acts[..|acts|] == acts;
    hide Exec, Faithful, Exclusive, Harmless;
    HarmlessPrefixFaithful(n, acts, |acts|);
    FaithfulIsExclusive(Exec(n, acts));
  }

  /** Runs in which every request reaches its lock step are harmless. */
  lemma UnrejectedIsHarmless(n: nat, acts: seq<Action>)
    requires forall k :: 0 <= k < |acts| ==> acts[k].Request? || acts[k].End?
    ensures HarmlessRun(n, acts)
  {
  }

  lemma Played(n: nat, acts: seq<Action>, a: Action, s: State)
    requires Exec(n, acts) == s
    ensures Exec(n, acts + [a]) == Step(s, a)
  {
    assert (acts + [a])[..|acts|] == acts;
  }

  const IDLE: Worker := Worker(false, UNDEF, "", false)

  /** The first two of at least two workers; the others have done nothing. */
  function Pair(n: nat, v: Worker, w: Worker): seq<Worker>
    requires n >= 2
  {
    seq(n, i => if i == 0 then v else if i == 1 then w else IDLE)
  }

  lemma PairUpdate(n: nat, v: Worker, w: Worker, u: Worker)
    requires n >= 2
    ensures Pair(n, v, w)[0 := u] == Pair(n, u, w) && Pair(n, v, w)[1 := u] == Pair(n, v, u)
    ensures |Pair(n, v, w)| == n && Pair(n, v, w)[0] == v && Pair(n, v, w)[1] == w
  {
  }

  lemma PairStart(n: nat)
    requires n >= 2
    ensures Exec(n, []) == State(map[], Pair(n, IDLE, IDLE))
  {
    assert seq(n, i => Worker(false, UNDEF, "", false)) == Pair(n, IDLE, IDLE);
  }

  /** The first worker has once written the file. */
  lemma WrittenOnce(n: nat, f: Path) returns (acts: seq<Action>)
    requires n >= 2
    ensures Exec(n, acts) == State(map[], Pair(n, Worker(true, WRQ, f, false), IDLE))
  {
    var done, busy := Worker(true, WRQ, f, false), Worker(true, WRQ, f, true);
    PairStart(n);
    PairUpdate(n, IDLE, IDLE, busy);
    PairUpdate(n, busy, IDLE, done);
    hide Exec, Pair;
    Played(n, [], Request(0, WRQ, f), State(map[], Pair(n, IDLE, IDLE)));
    acts := [] + [Request(0, WRQ, f)];
    Played(n, acts, End(0), State(map[f := WRITE_FLAG], Pair(n, busy, IDLE)));
    acts := acts + [End(0)];
  }

  /** The second worker is writing it; a malformed request makes the first release it. */
  lemma ReleasedByFirst(n: nat, f: Path) returns (acts: seq<Action>)
    requires n >= 2
    ensures Exec(n, acts) == State(map[], Pair(n, Worker(true, WRQ, f, false), Worker(true, WRQ, f, true)))
  {
    var done, busy := Worker(true, WRQ, f, false), Worker(true, WRQ, f, true);
    acts := WrittenOnce(n, f);
    PairUpdate(n, done, IDLE, busy);
    PairUpdate(n, done, busy, busy);
    hide Exec, Pair;
    Played(n, acts, Request(1, WRQ, f), State(map[], Pair(n, done, IDLE)));
    acts := acts + [Request(1, WRQ, f)];
    Played(n, acts, Malformed(0), State(map[f := WRITE_FLAG], Pair(n, done, busy)));
    acts := acts + [Malformed(0)];
  }

  /** Two workers can write one file: after that the first gets it again. */
  lemma TwoWriters(n: nat, f: Path) returns (acts: seq<Action>)
    requires n >= 2
    ensures var s := Exec(n, acts);
      && |s.workers| == n && s.workers[0] == Worker(true, WRQ, f, true) && s.workers[1] == Worker(true, WRQ, f, true)
  {
    var done, busy := Worker(true, WRQ, f, false), Worker(true, WRQ, f, true);
    acts := ReleasedByFirst(n, f);
    PairUpdate(n, done, busy, busy);
    PairUpdate(n, busy, busy, busy);
    hide Exec, Pair;
    Played(n, acts, Request(0, WRQ, f), State(map[], Pair(n, done, busy)));
    acts := acts + [Request(0, WRQ, f)];
  }

  /** With rejected requests in the run, exclusion holds in all runs if and only if there is one worker. */
  lemma ExclusiveIff(n: nat)
    ensures (forall acts :: Exclusive(Exec(n, acts))) <==> n <= 1
  {
    if n <= 1 {
      forall acts ensures Exclusive(Exec(n, acts)) {
      }
    } else {
      var acts := TwoWriters(n, "");
      assert !Exclusive(Exec(n, acts));
    }
  }
}

/** Which paths a request may name. */
module FilePaths {
  /** A path as a root name and the directories below it. */
  datatype FilePath = FilePath(absolute: bool, rootName: string, parts: seq<string>)

  datatype ValidationResult = VALID | INVALID_FORMAT | INVALID_ESCAPE_ROOT

  function Parent(p: FilePath): FilePath
    requires p.parts != []
  {
    p.(parts := p.parts[..|p.parts| - 1])
  }

  /** The file lies strictly below the directory. */
  predicate Below(dir: FilePath, p: FilePath)
  {
    dir.absolute == p.absolute && dir.rootName == p.rootName && dir.parts < p.parts
  }

  /** Climbs from the file towards the top until it meets the server's root directory. */
  method IsFilePathValid(path: FilePath, rootDirectory: FilePath) returns (result: ValidationResult)
    ensures result == INVALID_FORMAT <==> !path.absolute
    ensures result == VALID <==> path.absolute && Below(rootDirectory, path)
  {
    if !path.absolute {
      return INVALID_FORMAT;
    }
    var validation := path;
    while validation.parts != []
      invariant validation.absolute && validation.rootName == path.rootName && validation.parts <= path.parts
      invariant Below(rootDirectory, path) ==> Below(rootDirectory, validation)
      decreases |validation.parts|
    {
      validation := Parent(validation);
      if validation == rootDirectory {
        return VALID;
      }
    }
    result := INVALID_ESCAPE_ROOT;
  }
}
