/** The worker sends a file to a client (RFC 1350, sections 2, 5 and 6) over a network that loses, repeats
    and reorders datagrams: what was ever sent stays deliverable, so a client that repeats an acknowledgement
    does nothing new. Reads of the served file succeed. */
module Download {
  import opened Bytes
  import opened ConvertedUploads
  import opened Blocks
  import opened Transfer
  import Upload

  /** waiting: the current block has been sent and its acknowledgement is awaited; sends counts the DATA
      datagrams sent; received is what the client has accepted. */
  datatype State = State(server: Sender, waiting: bool, sends: nat,
                         received: seq<bytes>, toServer: set<Message>, toClient: set<Message>)

  datatype Action =
    | ServerSend | ServerWait(e: WaitEvent)
    | ClientReceive(m: Message) | ClientError

  /** The client has accepted a short block, so it has the whole file as far as it can tell. */
  predicate ClientDone(s: State)
  {
    s.received != [] && |s.received[|s.received| - 1]| < BLOCK_SIZE
  }

  const INIT := State(Sender(Active, 0, 0, 0), false, 0, [], {}, {})

  function DataOf(blocks: seq<bytes>, k: nat): Message
    requires 1 <= k <= |blocks|
  {
    Data(k % WRAP, blocks[k - 1])
  }

  /** An action that is not enabled changes nothing. */
  function Step(blocks: seq<bytes>, s: State, a: Action): State
  {
    match a
    case ServerSend =>
      if s.server.phase.Active? && !s.waiting && s.server.index < |blocks| then
        s.(waiting := true, sends := s.sends + 1,
           toClient := s.toClient + {Data(Expected(s.server.lastAck), blocks[s.server.index])})
      else s
    case ServerWait(e) =>
      if s.server.phase.Active? && s.waiting && s.server.index < |blocks| && (e.Arrived? ==> e.m in s.toServer) then
        s.(waiting := false, server := OnWait(s.server, blocks[s.server.index], e))
      else s
    case ClientReceive(m) =>
      if m in s.toClient && m.Data? && !ClientDone(s) && m.block == (|s.received| + 1) % WRAP then
        s.(received := s.received + [m.payload], toServer := s.toServer + {Ack(m.block)})
      else s
    case ClientError =>
      s.(toServer := s.toServer + {Error})
  }

  function Exec(blocks: seq<bytes>, acts: seq<Action>): State
  {
    if acts == [] then INIT else Step(blocks, Exec(blocks, acts[..|acts| - 1]), acts[|acts| - 1])
  }

  lemma ExecMore(blocks: seq<bytes>, acts: seq<Action>, a: Action)
    ensures Exec(blocks, acts + [a]) == Step(blocks, Exec(blocks, acts), a)
  {
    assert (acts + [a])[..|acts|] == acts;
  }

  // ---- Every transmission carries the block it names ----

  ghost predicate OnlyFileData(blocks: seq<bytes>, net: set<Message>)
  {
    forall m :: m in net ==> exists k :: 1 <= k <= |blocks| && m == DataOf(blocks, k)
  }

  /** The sender's place in the file, its number on the wire, and its retry budget. */
  ghost predicate InPlace(blocks: seq<bytes>, s: State)
  {
    && s.server.index <= |blocks| && s.server.lastAck == s.server.index % WRAP
    && (s.server.phase.Finished? <==> s.server.index == |blocks|)
    && s.server.attempt <= RETRIES + 1 && (s.server.phase.Finished? ==> s.server.attempt == 0 && !s.waiting)
    && s.sends <= (RETRIES + 2) * s.server.index
                  + (if s.server.phase.Aborted? then RETRIES + 2 else s.server.attempt + if s.waiting then 1 else 0)
  }

  lemma StepKeepsPlace(blocks: seq<bytes>, s: State, a: Action)
    requires UploadShape(blocks) && InPlace(blocks, s)
    ensures InPlace(blocks, Step(blocks, s, a))
  {
  }

  lemma StepKeepsNet(blocks: seq<bytes>, s: State, a: Action)
    requires InPlace(blocks, s) && OnlyFileData(blocks, s.toClient)
    ensures OnlyFileData(blocks, Step(blocks, s, a).toClient)
  {
    hide OnlyFileData;
    NetMoves(blocks, s, a);
    hide Step;
    if Step(blocks, s, a).toClient != s.toClient {
      OneMoreOfFile(blocks, s.toClient, s.server.index + 1);
    }
  }

  lemma NetMoves(blocks: seq<bytes>, s: State, a: Action)
    requires InPlace(blocks, s)
    ensures var t := Step(blocks, s, a).toClient;
      t == s.toClient || (s.server.index < |blocks| && t == s.toClient + {DataOf(blocks, s.server.index + 1)})
  {
  }

  lemma OneMoreOfFile(blocks: seq<bytes>, net: set<Message>, k: nat)
    requires OnlyFileData(blocks, net) && 1 <= k <= |blocks|
    ensures OnlyFileData(blocks, net + {DataOf(blocks, k)})
  {
  }

  lemma {:induction false} PlaceHolds(blocks: seq<bytes>, acts: seq<Action>)
    requires UploadShape(blocks)
    ensures InPlace(blocks, Exec(blocks, acts)) && OnlyFileData(blocks, Exec(blocks, acts).toClient)
  {
    if acts != [] {
      var s, a := Exec(blocks, acts[..|acts| - 1]), acts[|acts| - 1];
      PlaceHolds(blocks, acts[..|acts| - 1]);
      hide InPlace, OnlyFileData, UploadShape, Step;
      StepKeepsPlace(blocks, s, a);
      StepKeepsNet(blocks, s, a);
    }
  }

  /** All datagrams sent for one block number are the same. */
  ghost predicate Agree(s: State)
  {
    forall m1, m2 :: m1 in s.toClient && m2 in s.toClient ==>
      m1.Data? && m2.Data? && (m1.block == m2.block ==> m1 == m2)
  }

  lemma FileDataAgrees(blocks: seq<bytes>, s: State)
    requires OnlyFileData(blocks, s.toClient) && Upload.WireDistinct(blocks)
    ensures Agree(s)
  {
    forall m1, m2 | m1 in s.toClient && m2 in s.toClient
      ensures m1.Data? && m2.Data? && (m1.block == m2.block ==> m1 == m2)
    {
      var k1 :| 1 <= k1 <= |blocks| && m1 == DataOf(blocks, k1);
      var k2 :| 1 <= k2 <= |blocks| && m2 == DataOf(blocks, k2);
      if k1 % WRAP == k2 % WRAP {
        SameOnTheWire(blocks, k1, k2);
      }
    }
  }

  lemma SameOnTheWire(blocks: seq<bytes>, k1: nat, k2: nat)
    requires Upload.WireDistinct(blocks) && 1 <= k1 <= |blocks| && 1 <= k2 <= |blocks| && k1 % WRAP == k2 % WRAP
    ensures blocks[k1 - 1] == blocks[k2 - 1]
  {
    var i, j := if k1 < k2 then k1 - 1 else k2 - 1, if k1 < k2 then k2 - 1 else k1 - 1;
    assert (i + 1) % WRAP == (j + 1) % WRAP;
  }

  /** In every run all transmissions of a block number carry the same bytes if and only if blocks that look
      the same on the wire are the same. */
  lemma TransmissionsAgreeIff(blocks: seq<bytes>)
    requires UploadShape(blocks)
    ensures (forall acts :: Agree(Exec(blocks, acts))) <==> Upload.WireDistinct(blocks)
  {
    hide Exec;
    if Upload.WireDistinct(blocks) {
      forall acts ensures Agree(Exec(blocks, acts)) {
        PlaceHolds(blocks, acts);
        FileDataAgrees(blocks, Exec(blocks, acts));
      }
    } else {
      var i, j :| 0 <= i < j < |blocks| && (i + 1) % WRAP == (j + 1) % WRAP && blocks[i] != blocks[j];
      var before := Exchange(blocks, j);
      var acts := Sent(blocks, before, j);
      var m1, m2 := DataOf(blocks, i + 1), DataOf(blocks, j + 1);
      assert m1 in Exec(blocks, acts).toClient && m2 in Exec(blocks, acts).toClient;
      assert !Agree(Exec(blocks, acts));
    }
  }

  // ---- What the client accepts ----

  lemma DueBlockTaken(blocks: seq<bytes>, s: State, m: Message)
    requires UploadShape(blocks) && Upload.WireDistinct(blocks) && OnlyFileData(blocks, s.toClient)
    requires s.received <= blocks && !ClientDone(s)
    requires m in s.toClient && m.Data? && m.block == (|s.received| + 1) % WRAP
    ensures s.received + [m.payload] <= blocks
  {
    var n := |s.received|;
    assert n < |blocks| by { assert blocks[..n] == s.received; }
    var k :| 1 <= k <= |blocks| && m == DataOf(blocks, k);
    var i := k - 1;
    assert (i + 1) % WRAP == (n + 1) % WRAP;
    assert m.payload == blocks[n];
    assert s.received + [m.payload] == blocks[..n + 1];
  }

  predicate DueBlock(s: State, a: Action)
  {
    a.ClientReceive? && a.m in s.toClient && a.m.Data? && !ClientDone(s) && a.m.block == (|s.received| + 1) % WRAP
  }

  lemma ReceivedMoves(blocks: seq<bytes>, s: State, a: Action)
    ensures Step(blocks, s, a).received == if DueBlock(s, a) then s.received + [a.m.payload] else s.received
  {
  }

  lemma {:induction false} PrefixHolds(blocks: seq<bytes>, acts: seq<Action>)
    requires UploadShape(blocks) && Upload.WireDistinct(blocks)
    ensures Exec(blocks, acts).received <= blocks
  {
    if acts != [] {
      var s, a := Exec(blocks, acts[..|acts| - 1]), acts[|acts| - 1];
      PrefixHolds(blocks, acts[..|acts| - 1]);
      PlaceHolds(blocks, acts[..|acts| - 1]);
      ReceivedMoves(blocks, s, a);
      hide UploadShape, Upload.WireDistinct, OnlyFileData, InPlace, Step;
      if DueBlock(s, a) {
        DueBlockTaken(blocks, s, a.m);
      }
    }
  }

  // ---- Runs without loss ----

  /** The first j blocks have been exchanged; the worker is about to send the next one. */
  ghost predicate Exchanged(blocks: seq<bytes>, s: State, j: nat)
  {
    && j < |blocks| && s.server == Sender(Active, j % WRAP, j, 0) && !s.waiting && s.received == blocks[..j]
    && (forall k :: 1 <= k <= j ==> DataOf(blocks, k) in s.toClient)
    && (forall k :: 1 <= k <= j ==> Ack(k % WRAP) in s.toServer)
  }

  lemma Sent(blocks: seq<bytes>, acts: seq<Action>, j: nat) returns (more: seq<Action>)
    requires Exchanged(blocks, Exec(blocks, acts), j)
    ensures var s, t := Exec(blocks, acts), Exec(blocks, more);
      && t.server == s.server && t.waiting && t.received == s.received && t.toServer == s.toServer
      && t.toClient == s.toClient + {DataOf(blocks, j + 1)}
  {
    ExecMore(blocks, acts, ServerSend);
    hide Exec;
    more := acts + [ServerSend];
  }

  lemma ClientTakes(blocks: seq<bytes>, acts: seq<Action>, m: Message) returns (more: seq<Action>)
    requires var s := Exec(blocks, acts);
      m in s.toClient && m.Data? && !ClientDone(s) && m.block == (|s.received| + 1) % WRAP
    ensures var s, t := Exec(blocks, acts), Exec(blocks, more);
      t == s.(received := s.received + [m.payload], toServer := s.toServer + {Ack(m.block)})
  {
    ExecMore(blocks, acts, ClientReceive(m));
    hide Exec;
    more := acts + [ClientReceive(m)];
  }

  lemma AckTaken(blocks: seq<bytes>, acts: seq<Action>) returns (more: seq<Action>)
    requires var s := Exec(blocks, acts);
      s.server.phase.Active? && s.waiting && s.server.index < |blocks| && Ack(Expected(s.server.lastAck)) in s.toServer
    ensures var s, t := Exec(blocks, acts), Exec(blocks, more);
      t == s.(waiting := false, server := Sender(if |blocks[s.server.index]| < BLOCK_SIZE then Finished else Active,
                                                 Expected(s.server.lastAck), s.server.index + 1, 0))
  {
    var e := Arrived(Ack(Expected(Exec(blocks, acts).server.lastAck)));
    ExecMore(blocks, acts, ServerWait(e));
    hide Exec;
    more := acts + [ServerWait(e)];
  }

  lemma NotYetDone(blocks: seq<bytes>, s: State, j: nat)
    requires UploadShape(blocks) && j < |blocks| && s.received == blocks[..j]
    ensures !ClientDone(s)
  {
  }

  lemma ExchangeOne(blocks: seq<bytes>, before: seq<Action>, j: nat) returns (acts: seq<Action>)
    requires UploadShape(blocks) && j + 1 < |blocks| && Exchanged(blocks, Exec(blocks, before), j)
    ensures Exchanged(blocks, Exec(blocks, acts), j + 1)
  {
    hide Exec, ClientDone;
    var sent := Sent(blocks, before, j);
    NotYetDone(blocks, Exec(blocks, sent), j);
    var taken := ClientTakes(blocks, sent, DataOf(blocks, j + 1));
    acts := AckTaken(blocks, taken);
    assert blocks[..j + 1] == blocks[..j] + [blocks[j]];
  }

  lemma {:induction false} Exchange(blocks: seq<bytes>, j: nat) returns (acts: seq<Action>)
    requires UploadShape(blocks) && j < |blocks|
    ensures Exchanged(blocks, Exec(blocks, acts), j)
  {
    if j == 0 {
      acts := [];
      assert blocks[..0] == [];
    } else {
      var before := Exchange(blocks, j - 1);
      acts := ExchangeOne(blocks, before, j - 1);
    }
  }

  // ---- Main results ----

  /** What the client has accepted is, in every run, a prefix of the served file exactly when blocks
      that look the same on the wire are the same. */
  lemma DownloadSafeIff(blocks: seq<bytes>)
    requires UploadShape(blocks)
    ensures (forall acts :: Exec(blocks, acts).received <= blocks) <==> Upload.WireDistinct(blocks)
  {
    hide Exec;
    if Upload.WireDistinct(blocks) {
      forall acts ensures Exec(blocks, acts).received <= blocks {
        PrefixHolds(blocks, acts);
      }
    } else {
      var i, j :| 0 <= i < j < |blocks| && (i + 1) % WRAP == (j + 1) % WRAP && blocks[i] != blocks[j];
      var acts := OldBlockTaken(blocks, i, j);
    }
  }

  lemma OldBlockTaken(blocks: seq<bytes>, i: nat, j: nat) returns (acts: seq<Action>)
    requires UploadShape(blocks) && i < j < |blocks| && (i + 1) % WRAP == (j + 1) % WRAP && blocks[i] != blocks[j]
    ensures !(Exec(blocks, acts).received <= blocks)
  {
    hide Exec, ClientDone;
    var before := Exchange(blocks, j);
    NotYetDone(blocks, Exec(blocks, before), j);
    acts := ClientTakes(blocks, before, DataOf(blocks, i + 1));
    assert (blocks[..j] + [blocks[i]])[j] == blocks[i];
  }

  /** Up to 65536 blocks every acknowledgement on the network is for a block the client holds. */
  ghost predicate AckInv(blocks: seq<bytes>, s: State)
  {
    && (forall m :: m in s.toServer ==> m.Error? || exists k :: 1 <= k <= |s.received| && m == Ack(k % WRAP))
    && s.server.index <= |s.received|
  }

  lemma StepKeepsAckInv(blocks: seq<bytes>, s: State, a: Action)
    requires |blocks| <= WRAP && InPlace(blocks, s) && s.received <= blocks && AckInv(blocks, s)
    ensures AckInv(blocks, Step(blocks, s, a))
  {
    var t := Step(blocks, s, a);
    forall m | m in t.toServer ensures m.Error? || exists k :: 1 <= k <= |t.received| && m == Ack(k % WRAP) {
      if m in s.toServer && !m.Error? {
        var k :| 1 <= k <= |s.received| && m == Ack(k % WRAP);
      } else if !m.Error? {
        assert m == Ack(|t.received| % WRAP);
      }
    }
    if t.server.index != s.server.index {
      assert a.e.Arrived? && a.e.m == Ack(Expected(s.server.lastAck));
      var k :| 1 <= k <= |s.received| && a.e.m == Ack(k % WRAP);
    }
  }

  lemma {:induction false} AckInvHolds(blocks: seq<bytes>, acts: seq<Action>)
    requires UploadShape(blocks) && |blocks| <= WRAP
    ensures AckInv(blocks, Exec(blocks, acts))
  {
    if acts != [] {
      var before := acts[..|acts| - 1];
      AckInvHolds(blocks, before);
      Upload.ShortFilesWireDistinct(blocks);
      PrefixHolds(blocks, before);
      PlaceHolds(blocks, before);
      hide AckInv, InPlace, UploadShape, OnlyFileData, Step;
      StepKeepsAckInv(blocks, Exec(blocks, before), acts[|acts| - 1]);
    }
  }

  lemma FinishedClientHasFile(blocks: seq<bytes>, acts: seq<Action>)
    requires UploadShape(blocks) && |blocks| <= WRAP && Exec(blocks, acts).server.phase.Finished?
    ensures Exec(blocks, acts).received == blocks
  {
    AckInvHolds(blocks, acts);
    Upload.ShortFilesWireDistinct(blocks);
    PrefixHolds(blocks, acts);
    PlaceHolds(blocks, acts);
  }

  /** An acknowledgement 65536 blocks old ends the transfer before the client has the last block. */
  lemma StaleAckFinishes(blocks: seq<bytes>) returns (acts: seq<Action>)
    requires UploadShape(blocks) && |blocks| > WRAP
    ensures Exec(blocks, acts).server.phase.Finished? && |Exec(blocks, acts).received| < |blocks|
  {
    hide Exec, Step, Exchanged;
    var n := |blocks|;
    var before := Exchange(blocks, n - 1);
    OldAckThere(blocks, Exec(blocks, before));
    var sent := Sent(blocks, before, n - 1);
    acts := AckTaken(blocks, sent);
  }

  lemma OldAckThere(blocks: seq<bytes>, s: State)
    requires |blocks| > WRAP && Exchanged(blocks, s, |blocks| - 1)
    ensures s.server == Sender(Active, (|blocks| - 1) % WRAP, |blocks| - 1, 0) && |s.received| == |blocks| - 1
    ensures Ack(Expected(s.server.lastAck)) in s.toServer
  {
    assert Ack((|blocks| - WRAP) % WRAP) in s.toServer;
  }

  /** A download that ends normally has, in every run, given the client the whole file exactly when the
      file has at most 65536 blocks. */
  lemma NormalEndIff(blocks: seq<bytes>)
    requires UploadShape(blocks)
    ensures (forall acts :: Exec(blocks, acts).server.phase.Finished? ==> Exec(blocks, acts).received == blocks)
      <==> |blocks| <= WRAP
  {
    hide Exec;
    if |blocks| <= WRAP {
      forall acts | Exec(blocks, acts).server.phase.Finished? ensures Exec(blocks, acts).received == blocks {
        FinishedClientHasFile(blocks, acts);
      }
    } else {
      var acts := StaleAckFinishes(blocks);
    }
  }

  /** For a file: its bytes have all arrived, lengths that are multiples of 512 included. */
  lemma NormalEndDeliversFile(f: bytes, acts: seq<Action>)
    requires |Split(f)| <= WRAP && Exec(Split(f), acts).server.phase.Finished?
    ensures Flatten(Exec(Split(f), acts).received) == f
  {
    hide Exec;
    SplitShape(f);
    FinishedClientHasFile(Split(f), acts);
    SplitFlatten(f);
  }

  // ---- What can still happen ----

  /** A client that gives up ends the transfer at the worker's next wait. */
  lemma CanAlwaysCancel(blocks: seq<bytes>, acts: seq<Action>) returns (more: seq<Action>)
    requires UploadShape(blocks) && Exec(blocks, acts).server.phase.Active?
    ensures acts <= more && Exec(blocks, more).server.phase.Aborted?
  {
    PlaceHolds(blocks, acts);
    InOrderToWait(blocks, Exec(blocks, acts));
    more := if Exec(blocks, acts).waiting then acts else acts + [ServerSend];
    ExecMore(blocks, acts, ServerSend);
    ExecMore(blocks, more, ClientError);
    ExecMore(blocks, more + [ClientError], ServerWait(Arrived(Error)));
    hide Exec, InPlace;
    more := more + [ClientError] + [ServerWait(Arrived(Error))];
  }

  lemma InOrderToWait(blocks: seq<bytes>, s: State)
    requires InPlace(blocks, s) && s.server.phase.Active?
    ensures s.server.index < |blocks|
    ensures s.server == Sender(Active, s.server.index % WRAP, s.server.index, s.server.attempt)
  {
  }

  /** Every block the client has is acknowledged on the network, and the block waited for is on it. */
  ghost predicate Underway(blocks: seq<bytes>, s: State)
  {
    && (forall k :: 1 <= k <= |s.received| ==> Ack(k % WRAP) in s.toServer)
    && (s.waiting && s.server.phase.Active? && s.server.index < |blocks| ==>
          DataOf(blocks, s.server.index + 1) in s.toClient)
  }

  lemma StepKeepsUnderway(blocks: seq<bytes>, s: State, a: Action)
    requires InPlace(blocks, s) && Underway(blocks, s)
    ensures Underway(blocks, Step(blocks, s, a))
  {
  }

  lemma {:induction false} UnderwayHolds(blocks: seq<bytes>, acts: seq<Action>)
    requires UploadShape(blocks)
    ensures Underway(blocks, Exec(blocks, acts))
  {
    if acts != [] {
      UnderwayHolds(blocks, acts[..|acts| - 1]);
      PlaceHolds(blocks, acts[..|acts| - 1]);
      hide Underway, InPlace, OnlyFileData, UploadShape, Step;
      StepKeepsUnderway(blocks, Exec(blocks, acts[..|acts| - 1]), acts[|acts| - 1]);
    }
  }

  /** Where an active download of at most 65536 blocks stands, in any run. */
  ghost predicate Standing(blocks: seq<bytes>, s: State, j: nat)
  {
    && j < |blocks| && s.server == Sender(Active, j % WRAP, j, s.server.attempt)
    && j <= |s.received| && s.received <= blocks && Underway(blocks, s)
  }

  lemma StandingHolds(blocks: seq<bytes>, acts: seq<Action>)
    requires UploadShape(blocks) && |blocks| <= WRAP && Exec(blocks, acts).server.phase.Active?
    ensures Standing(blocks, Exec(blocks, acts), Exec(blocks, acts).server.index)
  {
    PlaceHolds(blocks, acts);
    UnderwayHolds(blocks, acts);
    AckInvHolds(blocks, acts);
    Upload.ShortFilesWireDistinct(blocks);
    PrefixHolds(blocks, acts);
    hide Exec, Underway, AckInv, OnlyFileData;
    AckInvMeans(blocks, Exec(blocks, acts));
  }

  lemma AckInvMeans(blocks: seq<bytes>, s: State)
    requires AckInv(blocks, s)
    ensures s.server.index <= |s.received|
  {
  }

  lemma SendsNext(blocks: seq<bytes>, s: State, j: nat)
    requires Standing(blocks, s, j) && !s.waiting
    ensures var t := Step(blocks, s, ServerSend);
      t.waiting && t.server == s.server && t.received == s.received
  {
    hide Underway;
  }

  /** The worker waits for the block it is at. */
  lemma ComesToWait(blocks: seq<bytes>, acts: seq<Action>, j: nat) returns (more: seq<Action>)
    requires UploadShape(blocks) && Standing(blocks, Exec(blocks, acts), j)
    ensures acts <= more && Standing(blocks, Exec(blocks, more), j) && Exec(blocks, more).waiting
  {
    hide Exec, Underway, UploadShape, Step;
    more := acts;
    if !Exec(blocks, acts).waiting {
      SendsNext(blocks, Exec(blocks, acts), j);
      ExecMore(blocks, acts, ServerSend);
      UnderwayHolds(blocks, acts + [ServerSend]);
      more := acts + [ServerSend];
    }
  }

  lemma TakesNext(blocks: seq<bytes>, s: State, j: nat)
    requires UploadShape(blocks) && Standing(blocks, s, j) && s.waiting && |s.received| == j
    ensures var t := Step(blocks, s, ClientReceive(DataOf(blocks, j + 1)));
      t.waiting && t.server == s.server && t.received == blocks[..j + 1]
  {
    assert s.received == blocks[..j];
    NotYetDone(blocks, s, j);
    hide ClientDone, UploadShape;
    assert DataOf(blocks, j + 1) in s.toClient;
    hide Underway;
    assert blocks[..j] + [blocks[j]] == blocks[..j + 1];
  }

  /** The client has it. */
  lemma ComesToHave(blocks: seq<bytes>, acts: seq<Action>, j: nat) returns (more: seq<Action>)
    requires UploadShape(blocks) && Standing(blocks, Exec(blocks, acts), j) && Exec(blocks, acts).waiting
    ensures acts <= more && Standing(blocks, Exec(blocks, more), j) && Exec(blocks, more).waiting
    ensures |Exec(blocks, more).received| > j
  {
    hide Exec, Underway, UploadShape, Step;
    more := acts;
    if |Exec(blocks, acts).received| == j {
      var take := ClientReceive(DataOf(blocks, j + 1));
      TakesNext(blocks, Exec(blocks, acts), j);
      ExecMore(blocks, acts, take);
      UnderwayHolds(blocks, acts + [take]);
      more := acts + [take];
    }
  }

  /** As long as the worker is active, whatever was lost, a download of at most 65536 blocks can still come to
      its normal end. */
  lemma {:induction false} CanStillFinish(blocks: seq<bytes>, acts: seq<Action>) returns (more: seq<Action>)
    requires UploadShape(blocks) && |blocks| <= WRAP && Exec(blocks, acts).server.phase.Active?
    ensures acts <= more && Exec(blocks, more).server.phase.Finished?
    decreases |blocks| - Exec(blocks, acts).server.index
  {
    var j := Exec(blocks, acts).server.index;
    StandingHolds(blocks, acts);
    var waits := ComesToWait(blocks, acts, j);
    var has := ComesToHave(blocks, waits, j);
    hide Exec, UploadShape;
    NumberDue(blocks, Exec(blocks, has), j);
    hide Underway;
    var next := AckTakenNext(blocks, has);
    if Exec(blocks, next).server.phase.Finished? {
      more := next;
    } else {
      more := CanStillFinish(blocks, next);
    }
  }

  lemma NumberDue(blocks: seq<bytes>, s: State, j: nat)
    requires Standing(blocks, s, j) && |s.received| > j
    ensures Ack(Expected(s.server.lastAck)) in s.toServer
  {
    assert Ack((j + 1) % WRAP) in s.toServer;
  }

  lemma AckTakenNext(blocks: seq<bytes>, acts: seq<Action>) returns (more: seq<Action>)
    requires var s := Exec(blocks, acts);
      s.server.phase.Active? && s.waiting && s.server.index < |blocks| && Ack(Expected(s.server.lastAck)) in s.toServer
    ensures acts <= more
    ensures var s, t := Exec(blocks, acts), Exec(blocks, more);
      (t.server.phase.Active? || t.server.phase.Finished?) && t.server.index == s.server.index + 1
  {
    var e := Arrived(Ack(Expected(Exec(blocks, acts).server.lastAck)));
    ExecMore(blocks, acts, ServerWait(e));
    hide Exec;
    more := acts + [ServerWait(e)];
  }

  // ---- Termination ----

  /** No run sends more than five DATA datagrams for every block of the file. */
  lemma SendsBounded(blocks: seq<bytes>, acts: seq<Action>)
    requires UploadShape(blocks)
    ensures Exec(blocks, acts).sends <= 5 * |blocks|
  {
    hide Exec;
    PlaceHolds(blocks, acts);
  }

  /** What the worker still may do: sends and waits left for the blocks left. */
  function Budget(blocks: seq<bytes>, s: State): int
  {
    if !s.server.phase.Active? then 0
    else 10 * (|blocks| - s.server.index) - 2 * s.server.attempt - (if s.waiting then 1 else 0)
  }

  /** Whatever the client and the network do, every step of the worker uses up its budget, and an active
      worker has budget left: no run keeps it busy for ever. */
  lemma WorkerStepsEnd(blocks: seq<bytes>, acts: seq<Action>, a: Action)
    requires UploadShape(blocks)
    ensures var s := Exec(blocks, acts);
      && Budget(blocks, s) >= 0 && (s.server.phase.Active? ==> Budget(blocks, s) > 0)
      && var t := Step(blocks, s, a);
         if t.server != s.server || t.waiting != s.waiting then Budget(blocks, t) < Budget(blocks, s)
         else Budget(blocks, t) == Budget(blocks, s)
  {
    PlaceHolds(blocks, acts);
    hide Exec, OnlyFileData;
    StepKeepsPlace(blocks, Exec(blocks, acts), a);
  }
}
