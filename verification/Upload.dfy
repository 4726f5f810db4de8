/** A client that sends a file (RFC 1350, sections 2, 5 and 6), the receiving worker, and a network that
    loses, repeats and reorders datagrams: what was ever sent stays deliverable, any number of times. */
module Upload {
  import opened Bytes
  import opened ConvertedUploads
  import opened Blocks
  import opened Transfer

  /** The blocks of the file; whether the worker's socket may refuse to send an acknowledgement; and whether
      the dispatcher, which publishes a write request before it notes its ACK 0, may note it late. */
  datatype Config = Config(blocks: seq<bytes>, sendMayFail: bool, lateAck: bool)

  /** current is the block the client has sent last, 0 before the first acknowledgement, one more than
      the number of blocks when every block has been acknowledged. ackPending: the dispatcher has sent
      ACK 0 and still has to write the worker's last ACK number. */
  datatype State = State(server: Receiver, current: nat,
                         toServer: set<Message>, toClient: set<Message>, ackPending: bool)

  datatype Action =
    | ClientSend | ClientReceive | ClientError
    | ServerReceive(m: Message, ackSent: bool) | ServerTimeout | DispatcherNotesAck

  ghost predicate Legal(c: Config)
  {
    UploadShape(c.blocks)
  }

  /** The request has been published: the worker is active and its ACK 0 is on the network. */
  function Init(c: Config): State
  {
    State(Receiver(Active, 0, []), 0, {}, {Ack(0)}, c.lateAck)
  }

  function DataOf(c: Config, k: nat): Message
    requires 1 <= k <= |c.blocks|
  {
    Data(k % WRAP, c.blocks[k - 1])
  }

  /** An action that is not enabled changes nothing. */
  function Step(c: Config, s: State, a: Action): State
  {
    match a
    case ClientSend =>
      if 1 <= s.current <= |c.blocks| then s.(toServer := s.toServer + {DataOf(c, s.current)}) else s
    case ClientReceive =>
      if s.current <= |c.blocks| && Ack(s.current % WRAP) in s.toClient then s.(current := s.current + 1) else s
    case ClientError =>
      s.(toServer := s.toServer + {Error})
    case ServerReceive(m, ackSent) =>
      if s.server.phase.Active? && m in s.toServer && (ackSent || c.sendMayFail) then
        s.(server := OnDatagram(s.server, m, ackSent),
           toClient := if ackSent && Accepts(s.server, m) then s.toClient + {Ack(m.block)} else s.toClient)
      else s
    case ServerTimeout =>
      if s.server.phase.Active? then s.(server := s.server.(phase := Aborted)) else s
    case DispatcherNotesAck =>
      if s.ackPending then s.(server := s.server.(lastAck := 0), ackPending := false) else s
  }

  function Exec(c: Config, acts: seq<Action>): State
  {
    if acts == [] then Init(c) else Step(c, Exec(c, acts[..|acts| - 1]), acts[|acts| - 1])
  }

  lemma ExecMore(c: Config, acts: seq<Action>, a: Action)
    ensures Exec(c, acts + [a]) == Step(c, Exec(c, acts), a)
  {
    assert (acts + [a])[..|acts|] == acts;
  }

  // ---- Safety ----

  /** Blocks whose numbers look the same on the wire have the same contents. */
  predicate WireDistinct(blocks: seq<bytes>)
  {
    forall i, j :: 0 <= i < j < |blocks| && (i + 1) % WRAP == (j + 1) % WRAP ==> blocks[i] == blocks[j]
  }

  ghost predicate OnlyFileData(c: Config, net: set<Message>)
  {
    forall m :: m in net ==> m.Error? || exists k :: 1 <= k <= |c.blocks| && m == DataOf(c, k)
  }

  ghost predicate Inv(c: Config, s: State)
  {
    OnlyFileData(c, s.toServer) && InOrder(c, s.server) && (s.ackPending ==> c.lateAck)
  }

  /** What keeps an upload of more than one block safe. */
  predicate Orderly(c: Config)
  {
    WireDistinct(c.blocks) && (|c.blocks| == 1 || (!c.sendMayFail && !c.lateAck))
  }

  lemma ExpectedIsNext(n: nat)
    ensures Expected(n % WRAP) == (n + 1) % WRAP
  {
  }

  lemma DueBlockTaken(c: Config, s: State, m: Message)
    requires Legal(c) && WireDistinct(c.blocks) && Inv(c, s) && m in s.toServer && Accepts(s.server, m)
    ensures |s.server.accepted| < |c.blocks| && m.payload == c.blocks[|s.server.accepted|]
  {
    var n := |s.server.accepted|;
    ExpectedIsNext(n);
    hide Expected;
    assert n < |c.blocks| by { assert c.blocks[..n] == s.server.accepted; }
    var k :| 1 <= k <= |c.blocks| && m == DataOf(c, k);
    var i := k - 1;
    assert (i + 1) % WRAP == (n + 1) % WRAP;
  }

  lemma NetKept(c: Config, s: State, a: Action)
    requires OnlyFileData(c, s.toServer)
    ensures OnlyFileData(c, Step(c, s, a).toServer)
  {
  }

  /** The receiver's share of the invariant. */
  ghost predicate InOrder(c: Config, r: Receiver)
  {
    && r.accepted <= c.blocks
    && (r.phase.Active? ==> r.lastAck == |r.accepted| % WRAP)
    && (r.phase.Finished? <==> r.accepted == c.blocks)
  }

  lemma AcceptKeepsOrder(c: Config, r: Receiver, m: Message, ackSent: bool)
    requires Legal(c) && InOrder(c, r) && Accepts(r, m) && (ackSent || |c.blocks| == 1)
    requires |r.accepted| < |c.blocks| && m.payload == c.blocks[|r.accepted|]
    ensures InOrder(c, OnDatagram(r, m, ackSent))
  {
    var n := |r.accepted|;
    assert r.accepted + [m.payload] == c.blocks[..n + 1];
    assert c.blocks[..|c.blocks|] == c.blocks;
  }

  lemma SingleBlockPending(blocks: seq<bytes>, accepted: seq<bytes>)
    requires |blocks| == 1 && accepted <= blocks && accepted != blocks
    ensures accepted == []
  {
    assert accepted == blocks[..|accepted|] && blocks[..1] == blocks;
  }

  lemma StepKeepsInv(c: Config, s: State, a: Action)
    requires Legal(c) && Orderly(c) && Inv(c, s)
    ensures Inv(c, Step(c, s, a))
  {
    NetKept(c, s, a);
    if a.ServerReceive? && a.m in s.toServer && (a.ackSent || c.sendMayFail) && Accepts(s.server, a.m) {
      DueBlockTaken(c, s, a.m);
      hide OnlyFileData, WireDistinct, UploadShape;
      AcceptKeepsOrder(c, s.server, a.m, a.ackSent);
    } else if a.DispatcherNotesAck? && s.ackPending && s.server.phase.Active? {
      assert |c.blocks| == 1 && s.server.accepted != c.blocks;
      SingleBlockPending(c.blocks, s.server.accepted);
    }
  }

  lemma {:induction false} InvHolds(c: Config, acts: seq<Action>)
    requires Legal(c) && Orderly(c)
    ensures Inv(c, Exec(c, acts))
  {
    if acts != [] {
      InvHolds(c, acts[..|acts| - 1]);
      StepKeepsInv(c, Exec(c, acts[..|acts| - 1]), acts[|acts| - 1]);
    }
  }

  /** The payloads handed to the file writer are always the first blocks of the client's file, in order. */
  ghost predicate UploadSafe(c: Config)
  {
    forall acts :: Exec(c, acts).server.accepted <= c.blocks
  }

  // ---- Runs that show the conditions are needed ----

  /** The exchange of the first j blocks without any loss is over; taken is what the writer was handed. */
  ghost predicate Exchanged(c: Config, s: State, taken: seq<bytes>, j: nat)
  {
    && j < |c.blocks| && s.current == j
    && s.server == Receiver(Active, j % WRAP, taken)
    && (forall k :: 1 <= k <= j ==> DataOf(c, k) in s.toServer)
    && (forall k :: 0 <= k <= j ==> Ack(k % WRAP) in s.toClient)
  }

  /** The client sends block j + 1. */
  lemma NextBlockSent(c: Config, acts: seq<Action>, taken: seq<bytes>, j: nat) returns (more: seq<Action>)
    requires Exchanged(c, Exec(c, acts), taken, j)
    ensures var s, t := Exec(c, acts), Exec(c, more);
      t == s.(current := j + 1, toServer := s.toServer + {DataOf(c, j + 1)})
  {
    ExecMore(c, acts, ClientReceive);
    ExecMore(c, acts + [ClientReceive], ClientSend);
    more := acts + [ClientReceive] + [ClientSend];
  }

  /** The worker takes a datagram it accepts. */
  lemma Delivered(c: Config, acts: seq<Action>, m: Message, ackSent: bool) returns (more: seq<Action>)
    requires m in Exec(c, acts).toServer && Accepts(Exec(c, acts).server, m) && (ackSent || c.sendMayFail)
    ensures var s, t := Exec(c, acts), Exec(c, more);
      t == s.(server := Receiver(if |m.payload| != BLOCK_SIZE then Finished else Active,
                                 if ackSent then m.block else s.server.lastAck, s.server.accepted + [m.payload]),
              toClient := if ackSent then s.toClient + {Ack(m.block)} else s.toClient)
  {
    more := acts + [ServerReceive(m, ackSent)];
    ExecMore(c, acts, ServerReceive(m, ackSent));
    hide Exec;
  }

  lemma ExchangeOne(c: Config, before: seq<Action>, taken: seq<bytes>, j: nat) returns (acts: seq<Action>)
    requires Legal(c) && j + 1 < |c.blocks| && Exchanged(c, Exec(c, before), taken, j)
    ensures Exchanged(c, Exec(c, acts), taken + [c.blocks[j]], j + 1)
    ensures Exec(c, acts).ackPending == Exec(c, before).ackPending
  {
    hide Exec;
    var sent := NextBlockSent(c, before, taken, j);
    acts := Delivered(c, sent, DataOf(c, j + 1), true);
  }

  lemma {:induction false} ExchangeOn(c: Config, before: seq<Action>, taken: seq<bytes>, i: nat, j: nat)
    returns (acts: seq<Action>)
    requires Legal(c) && i <= j < |c.blocks| && Exchanged(c, Exec(c, before), taken, i)
    ensures Exchanged(c, Exec(c, acts), taken + c.blocks[i..j], j)
    ensures Exec(c, acts).ackPending == Exec(c, before).ackPending
    decreases j
  {
    hide Exec, Exchanged;
    if i == j {
      acts := before;
      assert taken + c.blocks[i..j] == taken;
    } else {
      var most := ExchangeOn(c, before, taken, i, j - 1);
      acts := ExchangeOne(c, most, taken + c.blocks[i..j - 1], j - 1);
      assert taken + c.blocks[i..j - 1] + [c.blocks[j - 1]] == taken + c.blocks[i..j];
    }
  }

  lemma Exchange(c: Config, j: nat) returns (acts: seq<Action>)
    requires Legal(c) && j < |c.blocks|
    ensures Exchanged(c, Exec(c, acts), c.blocks[..j], j) && Exec(c, acts).ackPending == c.lateAck
  {
    acts := ExchangeOn(c, [], [], 0, j);
    assert [] + c.blocks[0..j] == c.blocks[..j];
  }

  /** The exchange ends with the last block. */
  lemma LastBlockTaken(c: Config, before: seq<Action>, taken: seq<bytes>) returns (acts: seq<Action>)
    requires Legal(c) && Exchanged(c, Exec(c, before), taken, |c.blocks| - 1) && c.blocks[|c.blocks| - 1] != []
    ensures Exec(c, acts).server.phase.Finished?
    ensures Exec(c, acts).server.accepted == taken + [c.blocks[|c.blocks| - 1]]
  {
    hide Exec;
    var sent := NextBlockSent(c, before, taken, |c.blocks| - 1);
    acts := Delivered(c, sent, DataOf(c, |c.blocks|), true);
  }

  /** Block j + 1 has just been sent; an old block with the same number on the wire is taken for it. */
  lemma OldBlockAccepted(c: Config, i: nat, j: nat) returns (acts: seq<Action>)
    requires Legal(c) && i < j < |c.blocks| && (i + 1) % WRAP == (j + 1) % WRAP && c.blocks[i] != c.blocks[j]
    ensures var s := Exec(c, acts);
      && s.server == Receiver(Active, (i + 1) % WRAP, c.blocks[..j] + [c.blocks[i]]) && s.current == j + 1
      && (forall k :: 1 <= k <= j + 1 ==> DataOf(c, k) in s.toServer)
      && (forall k :: 0 <= k <= j + 1 ==> Ack(k % WRAP) in s.toClient)
  {
    hide Exec;
    var before := Exchange(c, j);
    var sent := NextBlockSent(c, before, c.blocks[..j], j);
    acts := Delivered(c, sent, DataOf(c, i + 1), true);
  }

  lemma NotInPlace(blocks: seq<bytes>, i: nat, j: nat, rest: seq<bytes>)
    requires i < |blocks| && j < |blocks| && blocks[i] != blocks[j]
    ensures !(blocks[..j] + [blocks[i]] + rest <= blocks)
  {
    var accepted := blocks[..j] + [blocks[i]] + rest;
    assert accepted[j] == blocks[i];
  }

  lemma AckNoted(c: Config, acts: seq<Action>) returns (more: seq<Action>)
    requires Exec(c, acts).ackPending
    ensures var s := Exec(c, acts); Exec(c, more) == s.(server := s.server.(lastAck := 0), ackPending := false)
  {
    ExecMore(c, acts, DispatcherNotesAck);
    hide Exec;
    more := acts + [DispatcherNotesAck];
  }

  /** When the dispatcher notes its ACK 0 after block 1 has been accepted, a copy of block 1 is accepted
      again, and the file goes on behind it. */
  lemma LateAckRepeatsBlock(c: Config) returns (acts: seq<Action>)
    requires Legal(c) && c.lateAck && |c.blocks| > 1
    ensures Exchanged(c, Exec(c, acts), [c.blocks[0], c.blocks[0]], 1)
  {
    var first := Exchange(c, 1);
    var noted := AckNoted(c, first);
    hide Exec;
    assert c.blocks[..1] + [c.blocks[0]] == [c.blocks[0], c.blocks[0]];
    acts := Delivered(c, noted, DataOf(c, 1), true);
  }

  /** The same when the acknowledgement of block 1 could not be sent. */
  lemma UnsentAckRepeatsBlock(c: Config) returns (acts: seq<Action>)
    requires Legal(c) && c.sendMayFail && |c.blocks| > 1
    ensures Exchanged(c, Exec(c, acts), [c.blocks[0], c.blocks[0]], 1)
  {
    var before := Exchange(c, 0);
    hide Exec;
    assert c.blocks[..0] == [];
    var sent := NextBlockSent(c, before, [], 0);
    var once := Delivered(c, sent, DataOf(c, 1), false);
    assert [] + [c.blocks[0]] + [c.blocks[0]] == [c.blocks[0], c.blocks[0]];
    acts := Delivered(c, once, DataOf(c, 1), true);
  }

  lemma RepeatedIsLonger(blocks: seq<bytes>)
    requires UploadShape(blocks) && |blocks| > 1
    ensures !([blocks[0], blocks[0]] + blocks[1..|blocks| - 1] <= blocks)
  {
    var accepted := [blocks[0], blocks[0]] + blocks[1..|blocks| - 1];
    assert |accepted| == |blocks| && accepted[|blocks| - 1] == blocks[|blocks| - 2];
  }

  /** A run that hands the writer something else than the first blocks of the file. */
  lemma UnsafeRun(c: Config) returns (acts: seq<Action>)
    requires Legal(c) && !Orderly(c)
    ensures !(Exec(c, acts).server.accepted <= c.blocks)
  {
    hide Exec;
    if !WireDistinct(c.blocks) {
      var i, j :| 0 <= i < j < |c.blocks| && (i + 1) % WRAP == (j + 1) % WRAP && c.blocks[i] != c.blocks[j];
      acts := OldBlockAccepted(c, i, j);
      NotInPlace(c.blocks, i, j, []);
      assert c.blocks[..j] + [c.blocks[i]] + [] == c.blocks[..j] + [c.blocks[i]];
    } else {
      var before := RepeatedBlock(c);
      acts := ExchangeOn(c, before, [c.blocks[0], c.blocks[0]], 1, |c.blocks| - 1);
      RepeatedIsLonger(c.blocks);
    }
  }

  lemma RepeatedBlock(c: Config) returns (acts: seq<Action>)
    requires Legal(c) && |c.blocks| > 1 && (c.sendMayFail || c.lateAck)
    ensures Exchanged(c, Exec(c, acts), [c.blocks[0], c.blocks[0]], 1)
  {
    if c.sendMayFail {
      acts := UnsentAckRepeatsBlock(c);
    } else {
      acts := LateAckRepeatsBlock(c);
    }
  }

  /** While acknowledgements cannot be sent the first block is accepted again and again. */
  lemma {:induction false} BlockRepeated(c: Config, n: nat) returns (acts: seq<Action>)
    requires Legal(c) && c.sendMayFail && |c.blocks| > 1
    ensures var s := Exec(c, acts);
      && s.server.phase.Active? && s.server.lastAck == 0 && |s.server.accepted| == n
      && DataOf(c, 1) in s.toServer
  {
    if n == 0 {
      var before := Exchange(c, 0);
      acts := NextBlockSent(c, before, c.blocks[..0], 0);
    } else {
      hide Exec;
      var before := BlockRepeated(c, n - 1);
      acts := Delivered(c, before, DataOf(c, 1), false);
    }
  }

  /** Uploads are safe in every run exactly when blocks that look the same on the wire are the same and,
      if there is more than one block, no acknowledgement can fail to be sent or be noted late. */
  lemma UploadSafeIff(c: Config)
    requires Legal(c)
    ensures UploadSafe(c) <==> Orderly(c)
  {
    if Orderly(c) {
      forall acts ensures Exec(c, acts).server.accepted <= c.blocks {
        InvHolds(c, acts);
      }
    } else {
      var acts := UnsafeRun(c);
    }
  }

  /** Every file of at most 65536 blocks meets the condition on block numbers. */
  lemma ShortFilesWireDistinct(blocks: seq<bytes>)
    requires |blocks| <= WRAP
    ensures WireDistinct(blocks)
  {
  }

  /** No longer one does: its last block is shorter than the one 65536 before it. */
  lemma WireDistinctIff(blocks: seq<bytes>)
    requires UploadShape(blocks)
    ensures WireDistinct(blocks) <==> |blocks| <= WRAP
  {
    if |blocks| > WRAP {
      var j := |blocks| - 1;
      var i := j - WRAP;
      assert (i + 1) % WRAP == (j + 1) % WRAP && |blocks[i]| == BLOCK_SIZE;
    }
  }

  // ---- What becomes of every datagram ----

  /** The datagram an action hands to an active worker, if it hands one over. */
  function HandedOver(c: Config, s: State, a: Action): seq<Message>
  {
    if a.ServerReceive? && s.server.phase.Active? && a.m in s.toServer && (a.ackSent || c.sendMayFail)
    then [a.m] else []
  }

  function AllHandedOver(c: Config, acts: seq<Action>): seq<Message>
  {
    if acts == [] then []
    else
      var before := acts[..|acts| - 1];
      AllHandedOver(c, before) + HandedOver(c, Exec(c, before), acts[|acts| - 1])
  }

  /** The payloads of DATA datagrams with a payload, one for one. */
  ghost predicate PayloadsOf(accepted: seq<bytes>, handed: seq<Message>)
  {
    && |accepted| == |handed|
    && forall i :: 0 <= i < |handed| ==> handed[i].Data? && handed[i].payload == accepted[i] != []
  }

  /** The worker has written every datagram it was handed, except the one at which it gave up. */
  ghost predicate TookAll(r: Receiver, handed: seq<Message>)
  {
    if r.phase.Aborted?
    then PayloadsOf(r.accepted, handed) || (handed != [] && PayloadsOf(r.accepted, handed[..|handed| - 1]))
    else PayloadsOf(r.accepted, handed)
  }

  lemma StepTakesAll(c: Config, s: State, a: Action, handed: seq<Message>)
    requires TookAll(s.server, handed)
    ensures TookAll(Step(c, s, a).server, handed + HandedOver(c, s, a))
  {
    if HandedOver(c, s, a) == [] {
      assert handed + [] == handed;
    } else {
      assert (handed + [a.m])[..|handed|] == handed;
    }
  }

  /** In every run, of any configuration: a worker that has not given up has written the payload of every
      single datagram it was handed, in order; one that has has written all but the last. */
  lemma {:induction false} NothingSkipped(c: Config, acts: seq<Action>)
    ensures TookAll(Exec(c, acts).server, AllHandedOver(c, acts))
  {
    if acts != [] {
      var before := acts[..|acts| - 1];
      NothingSkipped(c, before);
      hide TookAll, Step, HandedOver;
      StepTakesAll(c, Exec(c, before), acts[|acts| - 1], AllHandedOver(c, before));
    }
  }

  lemma GoesOnStep(c: Config, s: State, m: Message, ackSent: bool)
    requires Legal(c) && Orderly(c) && Inv(c, s)
    requires s.server.phase.Active? && m in s.toServer && (ackSent || c.sendMayFail)
    ensures |s.server.accepted| < |c.blocks|
    ensures var n, t := |s.server.accepted|, Step(c, s, ServerReceive(m, ackSent)).server;
      if m == DataOf(c, n + 1) && m.payload != [] then !t.phase.Aborted? && t.accepted == c.blocks[..n + 1]
      else t.phase.Aborted? && t.accepted == s.server.accepted
  {
    ActiveHasMore(c, s.server);
    ExpectedIsNext(|s.server.accepted|);
    hide Expected, InOrder, OnlyFileData, Orderly;
    if Accepts(s.server, m) {
      DueIsNext(c, s, m);
    }
  }

  /** In an orderly upload an active worker goes on exactly if the datagram it is handed is the block after
      those it has, and that is not empty; any other datagram ends the upload. */
  lemma GoesOnIff(c: Config, acts: seq<Action>, m: Message, ackSent: bool)
    requires Legal(c) && Orderly(c)
    requires var s := Exec(c, acts); s.server.phase.Active? && m in s.toServer && (ackSent || c.sendMayFail)
    ensures |Exec(c, acts).server.accepted| < |c.blocks|
    ensures var r := Exec(c, acts).server;
      var next := DataOf(c, |r.accepted| + 1);
      var t := Exec(c, acts + [ServerReceive(m, ackSent)]).server;
      if m == next && m.payload != []
      then !t.phase.Aborted? && t.accepted == c.blocks[..|r.accepted| + 1]
      else t.phase.Aborted? && t.accepted == r.accepted
  {
    hide Exec, Inv, Orderly, UploadShape, Step, DataOf;
    InvHolds(c, acts);
    GoesOnStep(c, Exec(c, acts), m, ackSent);
    ExecMore(c, acts, ServerReceive(m, ackSent));
  }

  lemma ActiveHasMore(c: Config, r: Receiver)
    requires InOrder(c, r) && r.phase.Active?
    ensures |r.accepted| < |c.blocks| && r.accepted == c.blocks[..|r.accepted|] && r.lastAck == |r.accepted| % WRAP
  {
    assert c.blocks[..|c.blocks|] == c.blocks;
  }

  lemma DueIsNext(c: Config, s: State, m: Message)
    requires Legal(c) && Orderly(c) && Inv(c, s) && m in s.toServer && Accepts(s.server, m)
    ensures var n := |s.server.accepted|; n < |c.blocks| && m == DataOf(c, n + 1)
    ensures s.server.accepted + [m.payload] == c.blocks[..|s.server.accepted| + 1]
  {
    DueBlockTaken(c, s, m);
    ExpectedIsNext(|s.server.accepted|);
    assert c.blocks[..|s.server.accepted|] == s.server.accepted;
  }

  /** So every second copy of a block, every ERROR and every empty block does. */
  lemma UnwantedAborts(c: Config, acts: seq<Action>, m: Message, ackSent: bool)
    requires Legal(c) && Orderly(c)
    requires var s := Exec(c, acts); s.server.phase.Active? && m in s.toServer && (ackSent || c.sendMayFail)
    requires m.Error? || (m.Data? && m.payload == [])
      || exists k :: 1 <= k <= |Exec(c, acts).server.accepted| <= |c.blocks| && m == DataOf(c, k)
    ensures Exec(c, acts + [ServerReceive(m, ackSent)]).server.phase.Aborted?
  {
    WireDistinctIff(c.blocks);
    hide Exec, UploadShape, WireDistinct, Orderly, DataOf;
    GoesOnIff(c, acts, m, ackSent);
    if k :| 1 <= k <= |Exec(c, acts).server.accepted| && m == DataOf(c, k) {
      CopyIsNotNext(c, k, |Exec(c, acts).server.accepted| + 1);
    } else {
      NextIsData(c, |Exec(c, acts).server.accepted| + 1);
    }
  }

  lemma CopyIsNotNext(c: Config, i: nat, j: nat)
    requires 1 <= i < j <= |c.blocks| <= WRAP
    ensures DataOf(c, i) != DataOf(c, j)
  {
    NumbersDiffer(i, j);
  }

  lemma NextIsData(c: Config, k: nat)
    requires 1 <= k <= |c.blocks|
    ensures DataOf(c, k).Data?
  {
  }

  lemma NumbersDiffer(i: nat, j: nat)
    requires 1 <= i < j <= WRAP
    ensures i % WRAP != j % WRAP
  {
  }

  // ---- What a finished upload means ----

  /** When the worker finalises, what it handed to the writer is the client's file. */
  lemma FinishedHasWholeFile(c: Config, f: bytes, acts: seq<Action>)
    requires c.blocks == Split(f) && Orderly(c)
    requires Exec(c, acts).server.phase.Finished?
    ensures Exec(c, acts).server.accepted == Split(f) && Flatten(Exec(c, acts).server.accepted) == f
  {
    SplitShape(f);
    hide Exec;
    InvHolds(c, acts);
    SplitFlatten(f);
  }

  /** All blocks have been sent and the worker waits for number k: it can be fed old blocks to the end. */
  lemma {:induction false} OldBlocksToTheEnd(c: Config, before: seq<Action>, k: nat) returns (acts: seq<Action>)
    requires Legal(c) && k < |c.blocks| && c.blocks[|c.blocks| - 1] != []
    requires Exec(c, before).server.phase.Active? && Exec(c, before).server.lastAck == k % WRAP
    requires forall i :: 1 <= i <= |c.blocks| ==> DataOf(c, i) in Exec(c, before).toServer
    ensures Exec(c, acts).server.phase.Finished?
    ensures Exec(c, acts).server.accepted == Exec(c, before).server.accepted + c.blocks[k..]
    decreases |c.blocks| - k
  {
    hide Exec;
    var more := Delivered(c, before, DataOf(c, k + 1), true);
    assert c.blocks[k..] == [c.blocks[k]] + c.blocks[k + 1..];
    if k + 1 == |c.blocks| {
      acts := more;
    } else {
      acts := OldBlocksToTheEnd(c, more, k + 1);
      assert Exec(c, before).server.accepted + [c.blocks[k]] + c.blocks[k + 1..]
        == Exec(c, before).server.accepted + c.blocks[k..];
    }
  }

  /** A finished run with an old block in place of block j. */
  lemma OldBlockFinishes(c: Config, i: nat, j: nat) returns (acts: seq<Action>)
    requires Legal(c) && c.blocks[|c.blocks| - 1] != []
    requires i < j < |c.blocks| && (i + 1) % WRAP == (j + 1) % WRAP && c.blocks[i] != c.blocks[j]
    ensures Exec(c, acts).server.phase.Finished? && Exec(c, acts).server.accepted != c.blocks
  {
    hide Exec;
    var n, taken := |c.blocks|, c.blocks[..j] + [c.blocks[i]];
    var before := OldBlockAccepted(c, i, j);
    if j == n - 1 {
      acts := OldBlocksToTheEnd(c, before, i + 1);
      NotInPlace(c.blocks, i, j, c.blocks[i + 1..]);
    } else {
      assert Exchanged(c, Exec(c, before), taken, j + 1);
      var most := ExchangeOn(c, before, taken, j + 1, n - 1);
      acts := LastBlockTaken(c, most, taken + c.blocks[j + 1..n - 1]);
      var rest := c.blocks[j + 1..n - 1] + [c.blocks[n - 1]];
      assert taken + c.blocks[j + 1..n - 1] + [c.blocks[n - 1]] == taken + rest;
      NotInPlace(c.blocks, i, j, rest);
    }
  }

  lemma RepeatFinishes(c: Config) returns (acts: seq<Action>)
    requires Legal(c) && |c.blocks| > 1 && (c.sendMayFail || c.lateAck) && c.blocks[|c.blocks| - 1] != []
    ensures Exec(c, acts).server.phase.Finished? && Exec(c, acts).server.accepted != c.blocks
  {
    hide Exec;
    var n, taken := |c.blocks|, [c.blocks[0], c.blocks[0]];
    var before := RepeatedBlock(c);
    var most := ExchangeOn(c, before, taken, 1, n - 1);
    acts := LastBlockTaken(c, most, taken + c.blocks[1..n - 1]);
    assert |Exec(c, acts).server.accepted| == n + 1;
  }

  /** Finished means, in every run, that the writer was handed exactly the file, if and only if the upload
      is orderly, or cannot finish because its last block is empty. */
  lemma FinishedHasFileIff(c: Config)
    requires Legal(c)
    ensures (forall acts :: Exec(c, acts).server.phase.Finished? ==> Exec(c, acts).server.accepted == c.blocks)
      <==> Orderly(c) || c.blocks[|c.blocks| - 1] == []
  {
    hide Exec;
    if Orderly(c) {
      forall acts | Exec(c, acts).server.phase.Finished? ensures Exec(c, acts).server.accepted == c.blocks {
        InvHolds(c, acts);
      }
    } else if c.blocks[|c.blocks| - 1] == [] {
      forall acts ensures !Exec(c, acts).server.phase.Finished? {
        EmptyLastBlockNeverFinishes(c, acts);
      }
    } else if !WireDistinct(c.blocks) {
      var i, j :| 0 <= i < j < |c.blocks| && (i + 1) % WRAP == (j + 1) % WRAP && c.blocks[i] != c.blocks[j];
      var acts := OldBlockFinishes(c, i, j);
    } else {
      var acts := RepeatFinishes(c);
    }
  }

  // ---- Which uploads can finish at all ----

  ghost predicate NotFinished(c: Config, s: State)
  {
    && OnlyFileData(c, s.toServer) && !s.server.phase.Finished?
  }

  lemma {:induction false} EmptyLastBlockNeverFinishes(c: Config, acts: seq<Action>)
    requires Legal(c) && c.blocks[|c.blocks| - 1] == []
    ensures NotFinished(c, Exec(c, acts))
  {
    if acts != [] {
      var s, a := Exec(c, acts[..|acts| - 1]), acts[|acts| - 1];
      EmptyLastBlockNeverFinishes(c, acts[..|acts| - 1]);
      if a.ServerReceive? && a.m in s.toServer && Accepts(s.server, a.m) {
        var k :| 1 <= k <= |c.blocks| && a.m == DataOf(c, k);
        assert c.blocks[k - 1] != [];
      }
    }
  }

  /** A run without losses finishes when the last block is not empty. */
  lemma LosslessRunFinishes(c: Config) returns (acts: seq<Action>)
    requires Legal(c) && c.blocks[|c.blocks| - 1] != []
    ensures Exec(c, acts).server.phase.Finished?
  {
    hide Exec;
    var n := |c.blocks|;
    var before := Exchange(c, n - 1);
    acts := LastBlockTaken(c, before, c.blocks[..n - 1]);
  }

  /** An upload can finish, in some run, exactly when the length of the file is not a multiple of 512:
      the empty DATA datagram that ends the others is refused. */
  lemma UploadCanFinishIff(c: Config, f: bytes)
    requires c.blocks == Split(f)
    ensures (exists acts :: Exec(c, acts).server.phase.Finished?) <==> |f| % BLOCK_SIZE != 0
  {
    SplitShape(f);
    if |f| % BLOCK_SIZE != 0 {
      var acts := LosslessRunFinishes(c);
    } else {
      forall acts ensures !Exec(c, acts).server.phase.Finished? {
        EmptyLastBlockNeverFinishes(c, acts);
      }
    }
  }

  // ---- What the client may conclude ----

  /** Below 65536 blocks only the last block brings the acknowledgement of the last block. */
  ghost predicate AckInv(c: Config, s: State)
  {
    && OnlyFileData(c, s.toServer) && s.current <= |c.blocks| + 1
    && (Ack(|c.blocks| % WRAP) in s.toClient ==> s.server.phase.Finished?)
    && (s.current == |c.blocks| + 1 ==> s.server.phase.Finished?)
  }

  lemma {:induction false} AckInvHolds(c: Config, acts: seq<Action>)
    requires Legal(c) && |c.blocks| < WRAP
    ensures AckInv(c, Exec(c, acts))
  {
    if acts != [] {
      var s, a := Exec(c, acts[..|acts| - 1]), acts[|acts| - 1];
      AckInvHolds(c, acts[..|acts| - 1]);
      if a.ServerReceive? && a.m in s.toServer && Accepts(s.server, a.m) {
        var k :| 1 <= k <= |c.blocks| && a.m == DataOf(c, k);
      }
    }
  }

  lemma AckTaken(c: Config, acts: seq<Action>) returns (more: seq<Action>)
    requires Exec(c, acts).current <= |c.blocks| && Ack(Exec(c, acts).current % WRAP) in Exec(c, acts).toClient
    ensures Exec(c, more).current == Exec(c, acts).current + 1 && Exec(c, more).server == Exec(c, acts).server
  {
    ExecMore(c, acts, ClientReceive);
    hide Exec;
    more := acts + [ClientReceive];
  }

  /** An acknowledgement 65536 blocks old is taken for the last one. */
  lemma StaleAckConcludes(c: Config) returns (acts: seq<Action>)
    requires Legal(c) && |c.blocks| >= WRAP
    ensures Exec(c, acts).current == |c.blocks| + 1 && !Exec(c, acts).server.phase.Finished?
  {
    hide Exec, Step, Exchanged;
    var before := Exchange(c, |c.blocks| - 1);
    OldAckThere(c, Exec(c, before));
    var sent := NextBlockSent(c, before, c.blocks[..|c.blocks| - 1], |c.blocks| - 1);
    acts := AckTaken(c, sent);
  }

  lemma OldAckThere(c: Config, s: State)
    requires |c.blocks| >= WRAP && Exchanged(c, s, c.blocks[..|c.blocks| - 1], |c.blocks| - 1)
    ensures Ack(|c.blocks| % WRAP) in s.toClient && s.server.phase.Active?
  {
    assert Ack((|c.blocks| - WRAP) % WRAP) in s.toClient;
  }

  /** A client that holds the acknowledgement of its last block may conclude that the worker has the
      whole file exactly when the file has fewer than 65536 blocks: from there on an old
      acknowledgement can pass for the last one. */
  lemma ClientConclusionIff(c: Config)
    requires Legal(c)
    ensures (forall acts :: Exec(c, acts).current == |c.blocks| + 1 ==> Exec(c, acts).server.phase.Finished?)
      <==> |c.blocks| < WRAP
  {
    hide Exec;
    if |c.blocks| < WRAP {
      forall acts | Exec(c, acts).current == |c.blocks| + 1 ensures Exec(c, acts).server.phase.Finished? {
        AckInvHolds(c, acts);
      }
    } else {
      var acts := StaleAckConcludes(c);
    }
  }

  // ---- What can still happen ----

  /** A client that gives up ends the upload. */
  lemma CanAlwaysCancel(c: Config, acts: seq<Action>)
    requires Exec(c, acts).server.phase.Active?
    ensures Exec(c, acts + [ClientError] + [ServerReceive(Error, true)]).server.phase.Aborted?
  {
    ExecMore(c, acts, ClientError);
    ExecMore(c, acts + [ClientError], ServerReceive(Error, true));
    hide Exec;
  }

  /** While the worker is active the client is at most one block ahead of it, and every acknowledgement up to
      the last block written is on the network, and no other. */
  ghost predicate Underway(c: Config, s: State)
  {
    s.server.phase.Active? ==>
      var n := |s.server.accepted|;
      && s.current <= n + 1 && (forall k :: 0 <= k <= n ==> Ack(k % WRAP) in s.toClient)
      && (forall m :: m in s.toClient ==> exists k :: 0 <= k <= n && m == Ack(k % WRAP))
  }

  lemma StepKeepsUnderway(c: Config, s: State, a: Action)
    requires Legal(c) && Orderly(c) && |c.blocks| < WRAP && Inv(c, s) && Underway(c, s)
    ensures Underway(c, Step(c, s, a))
  {
    var t := Step(c, s, a);
    if t.server.phase.Active? {
      ActiveHasMore(c, s.server);
      hide InOrder, OnlyFileData, UploadShape, WireDistinct;
      if a.ClientReceive? && t.current != s.current {
        var k :| 0 <= k <= |s.server.accepted| && Ack(s.current % WRAP) == Ack(k % WRAP);
      } else if a.ServerReceive? && t.server != s.server {
        AckedNext(c, s, a);
      }
    }
  }

  lemma AckedNext(c: Config, s: State, a: Action)
    requires Legal(c) && Orderly(c) && Inv(c, s) && a.ServerReceive?
    requires Step(c, s, a).server.phase.Active? && Step(c, s, a).server != s.server
    ensures var t, n := Step(c, s, a), |s.server.accepted|;
      |t.server.accepted| == n + 1 && t.current == s.current && t.toClient == s.toClient + {Ack((n + 1) % WRAP)}
  {
    DueBlockTaken(c, s, a.m);
    ExpectedIsNext(|s.server.accepted|);
    SingleBlockEnds(c, s, a.m);
  }

  lemma SingleBlockEnds(c: Config, s: State, m: Message)
    requires Legal(c) && |s.server.accepted| < |c.blocks| && m.Data? && m.payload == c.blocks[|s.server.accepted|]
    ensures |c.blocks| == 1 ==> |m.payload| != BLOCK_SIZE
  {
  }

  lemma {:induction false} UnderwayHolds(c: Config, acts: seq<Action>)
    requires Legal(c) && Orderly(c) && |c.blocks| < WRAP
    ensures Underway(c, Exec(c, acts))
  {
    if acts == [] {
      assert Ack(0 % WRAP) in Init(c).toClient;
    } else {
      UnderwayHolds(c, acts[..|acts| - 1]);
      InvHolds(c, acts[..|acts| - 1]);
      hide Underway, Inv, Orderly, UploadShape, Step;
      StepKeepsUnderway(c, Exec(c, acts[..|acts| - 1]), acts[|acts| - 1]);
    }
  }

  /** The client takes the acknowledgements that are there. */
  lemma {:induction false} CatchesUp(c: Config, acts: seq<Action>) returns (more: seq<Action>)
    requires Legal(c) && Orderly(c) && |c.blocks| < WRAP && Exec(c, acts).server.phase.Active?
    ensures acts <= more && Exec(c, more).server == Exec(c, acts).server
    ensures Exec(c, more).current == |Exec(c, acts).server.accepted| + 1
    decreases |Exec(c, acts).server.accepted| + 1 - Exec(c, acts).current
  {
    UnderwayHolds(c, acts);
    InvHolds(c, acts);
    ActiveHasMore(c, Exec(c, acts).server);
    ExecMore(c, acts, ClientReceive);
    hide Exec, Inv, Orderly, UploadShape;
    more := acts;
    if Exec(c, acts).current <= |Exec(c, acts).server.accepted| {
      assert Ack(Exec(c, acts).current % WRAP) in Exec(c, acts).toClient;
      hide Underway;
      more := CatchesUp(c, acts + [ClientReceive]);
    }
  }

  lemma OneMoreBlock(c: Config, acts: seq<Action>) returns (more: seq<Action>)
    requires Legal(c) && Orderly(c) && |c.blocks| < WRAP && c.blocks[|c.blocks| - 1] != []
    requires Exec(c, acts).server.phase.Active?
    ensures acts <= more && !Exec(c, more).server.phase.Aborted?
    ensures |Exec(c, acts).server.accepted| < |Exec(c, more).server.accepted| <= |c.blocks|
  {
    var n := |Exec(c, acts).server.accepted|;
    InvHolds(c, acts);
    ActiveHasMore(c, Exec(c, acts).server);
    NotEmptyBefore(c.blocks, n);
    hide Exec, Inv, Orderly, UploadShape, InOrder;
    var ready := CatchesUp(c, acts);
    ExecMore(c, ready, ClientSend);
    more := ready + [ClientSend] + [ServerReceive(DataOf(c, n + 1), true)];
    GoesOnIff(c, ready + [ClientSend], DataOf(c, n + 1), true);
  }

  /** As long as the worker is active, whatever was lost, an orderly upload of fewer than 65536 blocks with a
      last block that is not empty can still be finished. */
  lemma {:induction false} CanStillFinish(c: Config, acts: seq<Action>) returns (more: seq<Action>)
    requires Legal(c) && Orderly(c) && |c.blocks| < WRAP && c.blocks[|c.blocks| - 1] != []
    requires Exec(c, acts).server.phase.Active?
    ensures acts <= more && Exec(c, more).server.phase.Finished?
    decreases |c.blocks| - |Exec(c, acts).server.accepted|
  {
    hide Exec, Orderly, UploadShape;
    more := OneMoreBlock(c, acts);
    if Exec(c, more).server.phase.Active? {
      more := CanStillFinish(c, more);
    }
  }

  lemma NotEmptyBefore(blocks: seq<bytes>, n: nat)
    requires UploadShape(blocks) && n < |blocks| && blocks[|blocks| - 1] != []
    ensures blocks[n] != []
  {
  }
}
