/** Several uploads at once. The temporary file is asked for with a fixed number, so all uploads name the same
    one; it is opened without sharing. */
module SharedTemporaries {
  import opened Bytes
  import opened Storage

  /** The temporary file: not there, open for one writer, or closed and kept. */
  datatype Temporary = Absent | Open(owner: nat, contents: bytes) | Kept(contents: bytes)

  /** handle: opening succeeded; otherwise every operation on the file fails unnoticed. data is what this
      upload has written. */
  datatype Writer =
    | Idle
    | Writing(handle: bool, path: Path, data: bytes)
    | Committed(path: Path, data: bytes)

  /** intact: every finished upload so far left exactly its data under its path, and nothing else. */
  datatype State = State(files: map<Path, bytes>, temporary: Temporary, writers: seq<Writer>, intact: bool)

  datatype Action =
    | Begin(w: nat, path: Path) | Write(w: nat, block: bytes) | Commit(w: nat) | Replace(w: nat) | Discard(w: nat)

  /** Creates the target if it is missing, then moves the temporary file over it if that is closed. */
  function Replaced(files: map<Path, bytes>, temporary: Temporary, path: Path): map<Path, bytes>
  {
    if temporary.Kept? then files[path := temporary.contents]
    else if path in files then files
    else files[path := []]
  }

  function SetWriter(s: State, w: nat, v: Writer): State
    requires w < |s.writers|
  {
    s.(writers := s.writers[w := v])
  }

  function Step(s: State, a: Action): State
  {
    if a.w >= |s.writers| then s
    else
      var v := s.writers[a.w];
      match a
      case Begin(w, path) =>
        if !v.Idle? then s
        else if s.temporary.Open? then SetWriter(s, w, Writing(false, path, []))
        else SetWriter(s, w, Writing(true, path, [])).(temporary := Open(w, []))
      case Write(w, block) =>
        if !v.Writing? then s
        else
          var t := SetWriter(s, w, Writing(v.handle, v.path, v.data + block));
          if v.handle && s.temporary.Open? then t.(temporary := Open(w, s.temporary.contents + block)) else t
      case Commit(w) =>
        if !v.Writing? then s
        else
          var t := SetWriter(s, w, Committed(v.path, v.data));
          if v.handle && s.temporary.Open? then t.(temporary := Kept(s.temporary.contents)) else t
      case Replace(w) =>
        if !v.Committed? then s
        else
          var files := Replaced(s.files, s.temporary, v.path);
          State(files, if s.temporary.Kept? then Absent else s.temporary, s.writers[w := Idle],
                s.intact && files == s.files[v.path := v.data])
      case Discard(w) =>
        if !v.Writing? then s
        else
          var t := SetWriter(s, w, Idle);
          if v.handle && s.temporary.Open? then t.(temporary := Absent) else t
  }

  function Exec(files: map<Path, bytes>, n: nat, acts: seq<Action>): (s: State)
    ensures |s.writers| == n
  {
    if acts == [] then State(files, Absent, seq(n, i => Idle), true)
    else Step(Exec(files, n, acts[..|acts| - 1]), acts[|acts| - 1])
  }

  // ---- Who has the temporary file ----

  /** The writer whose file was opened owns it, and it holds what that writer has written; all others that
      write have none. */
  ghost predicate HandleOwns(s: State)
  {
    && (forall i :: 0 <= i < |s.writers| && s.writers[i].Writing? && s.writers[i].handle ==>
          s.temporary == Open(i, s.writers[i].data))
    && (s.temporary.Open? ==>
          && s.temporary.owner < |s.writers| && s.writers[s.temporary.owner].Writing?
          && s.writers[s.temporary.owner].handle)
  }

  lemma StepKeepsHandle(s: State, a: Action)
    requires HandleOwns(s)
    ensures HandleOwns(Step(s, a))
  {
  }

  /** In every run, whatever else goes on, an upload whose temporary file could be opened owns it until it
      commits or discards, and nothing but its own data is in it. */
  lemma {:induction false} OwnedWhileOpen(files: map<Path, bytes>, n: nat, acts: seq<Action>)
    ensures HandleOwns(Exec(files, n, acts))
  {
    if acts != [] {
      OwnedWhileOpen(files, n, acts[..|acts| - 1]);
      hide HandleOwns, Step;
      StepKeepsHandle(Exec(files, n, acts[..|acts| - 1]), acts[|acts| - 1]);
    }
  }

  /** What is kept is what some upload that has committed has written. */
  ghost predicate KeptCommitted(s: State)
  {
    s.temporary.Kept? ==> exists w :: 0 <= w < |s.writers| && Wrote(s.writers[w], s.temporary.contents)
  }

  predicate Wrote(v: Writer, data: bytes)
  {
    v.Committed? && v.data == data
  }

  lemma StepKeepsCommitted(s: State, a: Action)
    requires HandleOwns(s) && KeptCommitted(s)
    ensures KeptCommitted(Step(s, a))
  {
    var t := Step(s, a);
    if s.temporary.Kept? && t.temporary.Kept? && a.w < |s.writers| {
      var w :| 0 <= w < |s.writers| && Wrote(s.writers[w], s.temporary.contents);
      assert Wrote(t.writers[w], t.temporary.contents);
    } else if t.temporary.Kept? && a.w < |s.writers| {
      assert Wrote(t.writers[a.w], t.temporary.contents);
    }
  }

  lemma {:induction false} OnlyCommittedKept(files: map<Path, bytes>, n: nat, acts: seq<Action>)
    ensures KeptCommitted(Exec(files, n, acts))
  {
    if acts != [] {
      var before := acts[..|acts| - 1];
      OnlyCommittedKept(files, n, before);
      OwnedWhileOpen(files, n, before);
      hide HandleOwns, KeptCommitted, Step;
      StepKeepsCommitted(Exec(files, n, before), acts[|acts| - 1]);
    }
  }

  ghost predicate ServedBy(s: State, a: Action, path: Path, data: bytes)
  {
    && a.Replace? && a.w < |s.writers| && s.writers[a.w].Committed? && s.writers[a.w].path == path
    && (data == [] || exists w :: 0 <= w < |s.writers| && Wrote(s.writers[w], data))
  }

  lemma StepServes(s: State, a: Action, path: Path)
    requires KeptCommitted(s) && path in Step(s, a).files
    requires path in s.files ==> Step(s, a).files[path] != s.files[path]
    ensures ServedBy(s, a, path, Step(s, a).files[path])
  {
    hide Wrote;
  }

  /** In every run a step changes at most the target of an upload that has committed, and puts there what an
      upload that has committed has written, or nothing: an upload that is discarded leaves no trace. */
  lemma OnlyCommittedServed(files: map<Path, bytes>, n: nat, acts: seq<Action>, a: Action, path: Path)
    requires path in Exec(files, n, acts + [a]).files
    requires var s := Exec(files, n, acts); path in s.files ==> Exec(files, n, acts + [a]).files[path] != s.files[path]
    ensures ServedBy(Exec(files, n, acts), a, path, Exec(files, n, acts + [a]).files[path])
  {
    OnlyCommittedKept(files, n, acts);
    assert (acts + [a])[..|acts|] == acts;
    assert Exec(files, n, acts + [a]) == Step(Exec(files, n, acts), a);
    hide Exec, KeptCommitted, ServedBy, Step;
    StepServes(Exec(files, n, acts), a, path);
  }

  /** An upload that is given up before it commits leaves everything as it found it, only that a temporary
      file it could open, and with it what was kept there, is gone. */
  lemma {:induction false} DiscardUndoes(s: State, w: nat, path: Path, blocks: seq<bytes>)
    requires w < |s.writers| && s.writers[w].Idle?
    ensures var t := Step(Written(Step(s, Begin(w, path)), w, blocks), Discard(w));
      && t.files == s.files && t.writers == s.writers && t.intact == s.intact
      && t.temporary == if s.temporary.Open? then s.temporary else Absent
  {
    WrittenOn(Step(s, Begin(w, path)), w, blocks);
    assert s.writers[w := Idle] == s.writers;
  }

  /** After it has written these blocks. */
  function Written(s: State, w: nat, blocks: seq<bytes>): State
  {
    if blocks == [] then s else Step(Written(s, w, blocks[..|blocks| - 1]), Write(w, blocks[|blocks| - 1]))
  }

  lemma {:induction false} WrittenOn(s: State, w: nat, blocks: seq<bytes>)
    requires w < |s.writers| && s.writers[w].Writing?
    ensures var t := Written(s, w, blocks);
      && t.files == s.files && t.intact == s.intact && |t.writers| == |s.writers|
      && t.writers == s.writers[w := t.writers[w]]
      && t.writers[w].Writing? && t.writers[w].handle == s.writers[w].handle
      && (if s.writers[w].handle then t.temporary.Open? == s.temporary.Open? else t.temporary == s.temporary)
  {
    if blocks != [] {
      WrittenOn(s, w, blocks[..|blocks| - 1]);
    }
  }

  // ---- One run ----

  /** An upload that replaces its target finds its data: in the file that was kept, or else in the target. */
  predicate Served(s: State, a: Action)
  {
    a.Replace? && a.w < |s.writers| && s.writers[a.w].Committed? ==>
      var v := s.writers[a.w];
      if s.temporary.Kept? then s.temporary.contents == v.data
      else if v.path in s.files then s.files[v.path] == v.data
      else v.data == []
  }

  ghost predicate AllServed(files: map<Path, bytes>, n: nat, acts: seq<Action>)
  {
    forall k :: 0 <= k < |acts| ==> Served(Exec(files, n, acts[..k]), acts[k])
  }

  lemma StepIntactIff(s: State, a: Action)
    ensures Step(s, a).intact <==> s.intact && Served(s, a)
  {
    if a.Replace? && a.w < |s.writers| && s.writers[a.w].Committed? {
      var v := s.writers[a.w];
      var files := Replaced(s.files, s.temporary, v.path);
      assert files[v.path] == v.data ==> files == s.files[v.path := v.data];
    }
  }

  lemma AllServedLast(files: map<Path, bytes>, n: nat, acts: seq<Action>)
    requires acts != []
    ensures var before, last := acts[..|acts| - 1], acts[|acts| - 1];
      AllServed(files, n, acts) <==> AllServed(files, n, before) && Served(Exec(files, n, before), last)
  {
    hide Exec, Served;
    var before := acts[..|acts| - 1];
    forall k | 0 <= k < |before| ensures before[..k] == acts[..k] && before[k] == acts[k] {
    }
    if AllServed(files, n, acts) {
      forall k | 0 <= k < |before| ensures Served(Exec(files, n, before[..k]), before[k]) {
        assert Served(Exec(files, n, acts[..k]), acts[k]);
      }
    } else {
      var k :| 0 <= k < |acts| && !Served(Exec(files, n, acts[..k]), acts[k]);
      assert k < |before| ==> !Served(Exec(files, n, before[..k]), before[k]);
    }
  }

  /** One run leaves every finished upload intact exactly when each upload that replaces its target finds
      its data. */
  lemma {:induction false} RunIntactIff(files: map<Path, bytes>, n: nat, acts: seq<Action>)
    ensures Exec(files, n, acts).intact <==> AllServed(files, n, acts)
  {
    if acts != [] {
      var before := acts[..|acts| - 1];
      RunIntactIff(files, n, before);
      AllServedLast(files, n, acts);
      hide AllServed, Step, Served;
      StepIntactIff(Exec(files, n, before), acts[|acts| - 1]);
    }
  }

  // ---- Uploads that do not overlap ----

  /** No upload begins while another one is on. */
  predicate Alone(s: State, a: Action)
  {
    a.Begin? ==> forall i :: 0 <= i < |s.writers| ==> s.writers[i].Idle?
  }

  ghost predicate NeverOverlaps(files: map<Path, bytes>, n: nat, acts: seq<Action>)
  {
    forall k :: 0 <= k < |acts| ==> Alone(Exec(files, n, acts[..k]), acts[k])
  }

  /** The one upload that is on owns the temporary file, which holds what it has written. */
  ghost predicate Owned(s: State)
  {
    && s.intact
    && (forall i, j :: 0 <= i < j < |s.writers| ==> s.writers[i].Idle? || s.writers[j].Idle?)
    && (forall i :: 0 <= i < |s.writers| && s.writers[i].Writing? ==>
          s.writers[i].handle && s.temporary == Open(i, s.writers[i].data))
    && (forall i :: 0 <= i < |s.writers| && s.writers[i].Committed? ==> s.temporary == Kept(s.writers[i].data))
    && (s.temporary.Open? ==> s.temporary.owner < |s.writers| && s.writers[s.temporary.owner].Writing?)
  }

  lemma StepKeepsOwned(s: State, a: Action)
    requires Owned(s) && Alone(s, a)
    ensures Owned(Step(s, a))
  {
  }

  lemma {:induction false} PrefixOwned(files: map<Path, bytes>, n: nat, acts: seq<Action>, k: nat)
    requires NeverOverlaps(files, n, acts) && k <= |acts|
    ensures Owned(Exec(files, n, acts[..k]))
  {
    if k == 0 {
      assert acts[..0] == [];
    } else {
      PrefixOwned(files, n, acts, k - 1);
      assert acts[..k][..k - 1] == acts[..k - 1];
      hide Owned, Step, Alone;
      StepKeepsOwned(Exec(files, n, acts[..k - 1]), acts[k - 1]);
    }
  }

  // ---- Main results ----

  /** Uploads that do not overlap all leave exactly their data. */
  lemma ApartIntact(files: map<Path, bytes>, n: nat, acts: seq<Action>)
    requires NeverOverlaps(files, n, acts)
    ensures Exec(files, n, acts).intact
  {
    PrefixOwned(files, n, acts, |acts|);
    assert acts[..|acts|] == acts;
  }

  lemma {:induction false} OneWriterIntact(files: map<Path, bytes>, acts: seq<Action>)
    ensures Owned(Exec(files, 1, acts))
  {
    if acts != [] {
      var s, a := Exec(files, 1, acts[..|acts| - 1]), acts[|acts| - 1];
      OneWriterIntact(files, acts[..|acts| - 1]);
      if Alone(s, a) || a.w >= 1 {
        hide Owned;
        StepKeepsOwned(s, if a.w >= 1 then Commit(a.w) else a);
      }
    }
  }

  lemma Played(files: map<Path, bytes>, n: nat, acts: seq<Action>, a: Action) returns (more: seq<Action>)
    ensures Exec(files, n, more) == Step(Exec(files, n, acts), a)
  {
    more := acts + [a];
    assert more[..|acts|] == acts;
  }

  /** The second of two overlapping uploads writes nothing, finishes, and leaves an empty file. */
  lemma OverlapLeavesEmptyFile(files: map<Path, bytes>, n: nat, p: Path, q: Path) returns (acts: seq<Action>)
    requires n >= 2 && q !in files
    ensures Exec(files, n, acts).files == files[q := []] && !Exec(files, n, acts).intact
  {
    acts := Played(files, n, [], Begin(0, p));
    acts := Played(files, n, acts, Begin(1, q));
    acts := SecondFinishes(files, n, acts, q);
  }

  lemma SecondFinishes(files: map<Path, bytes>, n: nat, before: seq<Action>, q: Path) returns (acts: seq<Action>)
    requires n >= 2 && q !in files && Exec(files, n, before).files == files
    requires Exec(files, n, before).writers[1] == Writing(false, q, []) && Exec(files, n, before).temporary.Open?
    ensures Exec(files, n, acts).files == files[q := []] && !Exec(files, n, acts).intact
  {
    var block: bytes := [97];
    hide Exec;
    acts := Played(files, n, before, Write(1, block));
    assert [] + block == block;
    acts := Played(files, n, acts, Commit(1));
    acts := Played(files, n, acts, Replace(1));
    assert files[q := []][q] == [] && files[q := block][q] == block;
  }

  /** All runs leave every finished upload intact if and only if there is at most one worker. */
  lemma IntactIff(n: nat)
    ensures (forall files, acts :: Exec(files, n, acts).intact) <==> n <= 1
  {
    if n == 0 {
      forall files, acts ensures Exec(files, n, acts).intact {
        NobodyWrites(files, acts);
      }
    } else if n == 1 {
      forall files, acts ensures Exec(files, n, acts).intact {
        OneWriterIntact(files, acts);
      }
    } else {
      var acts := OverlapLeavesEmptyFile(map[], n, "", "");
    }
  }

  lemma {:induction false} NobodyWrites(files: map<Path, bytes>, acts: seq<Action>)
    ensures Exec(files, 0, acts).intact
  {
    if acts != [] {
      NobodyWrites(files, acts[..|acts| - 1]);
    }
  }
}
