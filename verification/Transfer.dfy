/** How a file becomes DATA blocks. */
module Blocks {
  import opened Bytes
  import opened ConvertedUploads

  /** Blocks of 512 bytes; the last one is shorter, and empty when the length is a multiple of 512. */
  function Split(f: bytes): (blocks: seq<bytes>)
    ensures blocks != []
  {
    if |f| < BLOCK_SIZE then [f] else [f[..BLOCK_SIZE]] + Split(f[BLOCK_SIZE..])
  }

  lemma {:induction false} SplitShape(f: bytes)
    ensures UploadShape(Split(f)) && |Split(f)| == |f| / BLOCK_SIZE + 1
    ensures |Split(f)[|Split(f)| - 1]| == |f| % BLOCK_SIZE
  {
    if |f| >= BLOCK_SIZE {
      SplitShape(f[BLOCK_SIZE..]);
    }
  }

  /** Block k is the next 512 bytes of the file, or what is left of it. */
  lemma {:induction false} SplitAt(f: bytes, k: nat)
    requires k < |Split(f)|
    ensures BLOCK_SIZE * k <= |f|
    ensures Split(f)[k] == f[BLOCK_SIZE * k..if BLOCK_SIZE * (k + 1) < |f| then BLOCK_SIZE * (k + 1) else |f|]
    ensures k + 1 < |Split(f)| <==> |Split(f)[k]| == BLOCK_SIZE
    ensures |Split(f)[k]| <= BLOCK_SIZE
  {
    if k > 0 {
      SplitAt(f[BLOCK_SIZE..], k - 1);
    }
  }

  lemma FlattenOne(b: bytes)
    ensures Flatten([b]) == b
  {
    assert [b][..0] == [] && Flatten([]) == [] && [] + b == b;
  }

  lemma {:induction false} SplitFlatten(f: bytes)
    ensures Flatten(Split(f)) == f
  {
    if |f| < BLOCK_SIZE {
      FlattenOne(f);
    } else {
      SplitFlatten(f[BLOCK_SIZE..]);
      FlattenConcat([f[..BLOCK_SIZE]], Split(f[BLOCK_SIZE..]));
      FlattenOne(f[..BLOCK_SIZE]);
    }
  }

  /** The blocks of a file determine it and are determined by it. */
  lemma {:induction false} FlattenSplit(blocks: seq<bytes>)
    requires UploadShape(blocks)
    ensures Split(Flatten(blocks)) == blocks
  {
    if |blocks| == 1 {
      assert blocks == [blocks[0]];
      FlattenOne(blocks[0]);
    } else {
      assert blocks == [blocks[0]] + blocks[1..];
      FlattenConcat([blocks[0]], blocks[1..]);
      FlattenOne(blocks[0]);
      FlattenSplit(blocks[1..]);
      assert Flatten(blocks)[BLOCK_SIZE..] == Flatten(blocks[1..]);
    }
  }
}

/** The two halves of a transfer as the worker runs them, one step at a time. */
module Transfer {
  import opened Bytes
  import opened ConvertedUploads

  const RETRIES: nat := 3

  /** Data stands for every datagram that is neither an ACK nor an ERROR and has a block number: the worker
      that receives a file does not look at the opcode any closer. Runt is one too short for its kind. */
  datatype Message = Data(block: u16, payload: bytes) | Ack(block: u16) | Error | Runt

  datatype Phase = Active | Finished | Aborted

  // ---- Receiving a file ----

  /** accepted lists the payloads handed to the file writer. */
  datatype Receiver = Receiver(phase: Phase, lastAck: u16, accepted: seq<bytes>)

  function Expected(lastAck: u16): (e: u16)
    ensures e == (lastAck + 1) % WRAP
  {
    if lastAck == 0xFFFF then 0 else lastAck + 1
  }

  /** A DATA datagram below the size of the message structure, one payload byte included, is refused. */
  predicate Accepts(r: Receiver, m: Message)
  {
    r.phase.Active? && m.Data? && m.payload != [] && m.block == Expected(r.lastAck)
  }

  /** The worker after a datagram; ackSent says whether the socket took the acknowledgement. */
  function OnDatagram(r: Receiver, m: Message, ackSent: bool): Receiver
  {
    if !r.phase.Active? then r
    else if Accepts(r, m) then
      Receiver(if |m.payload| != BLOCK_SIZE then Finished else Active,
               if ackSent then m.block else r.lastAck,
               r.accepted + [m.payload])
    else r.(phase := Aborted)
  }

  // ---- Sending a file ----

  /** index counts the blocks acknowledged so far; attempt counts the resends of the current one. */
  datatype Sender = Sender(phase: Phase, lastAck: u16, index: nat, attempt: nat)

  /** What one wait for an acknowledgement can end with. */
  datatype WaitEvent = Silence | Arrived(m: Message) | ShuttingDown | FactoryGone

  datatype WaitResult = NoError | Timeout | Fatal

  /** An acknowledgement of another block counts as a timeout. */
  function WaitOutcome(lastAck: u16, e: WaitEvent): WaitResult
  {
    match e
    case Silence => Timeout
    case ShuttingDown => Fatal
    case FactoryGone => Fatal
    case Arrived(m) =>
      if !m.Ack? then Fatal
      else if m.block != Expected(lastAck) then Timeout
      else NoError
  }

  /** The worker after a wait for the acknowledgement of a block with this payload. */
  function OnWait(s: Sender, payload: bytes, e: WaitEvent): Sender
  {
    if !s.phase.Active? then s
    else match WaitOutcome(s.lastAck, e)
      case NoError =>
        Sender(if |payload| < BLOCK_SIZE then Finished else Active, Expected(s.lastAck), s.index + 1, 0)
      case Timeout =>
        if s.attempt <= RETRIES then s.(attempt := s.attempt + 1) else s.(phase := Aborted)
      case Fatal => s.(phase := Aborted)
  }

  /** The worker after the first n of a run of waits for one block. */
  function Waits(s: Sender, payload: bytes, wait: nat -> WaitEvent, n: nat): Sender
  {
    if n == 0 then s else OnWait(Waits(s, payload, wait, n - 1), payload, wait(n - 1))
  }

  /** n transmissions of one datagram. */
  function Copies(m: Message, n: nat): seq<Message>
  {
    if n == 0 then [] else Copies(m, n - 1) + [m]
  }

  /** The worker after a wait in a download of these blocks. */
  function AfterWait(blocks: seq<bytes>, s: Sender, e: WaitEvent): Sender
  {
    if s.phase.Active? && s.index < |blocks| then OnWait(s, blocks[s.index], e) else s
  }

  function AfterWaits(blocks: seq<bytes>, s: Sender, events: seq<WaitEvent>): Sender
  {
    if events == [] then s
    else AfterWait(blocks, AfterWaits(blocks, s, events[..|events| - 1]), events[|events| - 1])
  }

  /** What the worker sends before a wait: the block it is at, under the next number. */
  function Transmission(blocks: seq<bytes>, s: Sender): seq<Message>
  {
    if s.phase.Active? && s.index < |blocks| then [Data(Expected(s.lastAck), blocks[s.index])] else []
  }

  function Transmissions(blocks: seq<bytes>, s: Sender, events: seq<WaitEvent>): seq<Message>
  {
    if events == [] then []
    else
      var before := events[..|events| - 1];
      Transmissions(blocks, s, before) + Transmission(blocks, AfterWaits(blocks, s, before))
  }

  lemma OneWaitMore(blocks: seq<bytes>, s0: Sender, events: seq<WaitEvent>, m: nat)
    requires m < |events|
    ensures var s := AfterWaits(blocks, s0, events[..m]);
      && AfterWaits(blocks, s0, events[..m + 1]) == AfterWait(blocks, s, events[m])
      && Transmissions(blocks, s0, events[..m + 1])
         == Transmissions(blocks, s0, events[..m]) + Transmission(blocks, s)
  {
    assert events[..m + 1][..m] == events[..m];
  }

  /** Before each of the first n waits the worker is still at the block it began with. */
  ghost predicate StaysAt(s: Sender, payload: bytes, wait: nat -> WaitEvent, n: nat)
  {
    forall k: nat :: k < n ==> Waits(s, payload, wait, k) == s.(attempt := k)
  }

  lemma NoWaitsYet(blocks: seq<bytes>, s: Sender, payload: bytes, wait: nat -> WaitEvent, m: Message)
    ensures AfterWaits(blocks, s, []) == s && Transmissions(blocks, s, []) == []
    ensures Waits(s, payload, wait, 0) == s && StaysAt(s, payload, wait, 0) && Copies(m, 0) == []
  {
  }

  lemma OneResendMore(s: Sender, payload: bytes, wait: nat -> WaitEvent, n: nat, m: Message)
    ensures Waits(s, payload, wait, n + 1) == OnWait(Waits(s, payload, wait, n), payload, wait(n))
    ensures Copies(m, n + 1) == Copies(m, n) + [m]
    ensures StaysAt(s, payload, wait, n) && Waits(s, payload, wait, n) == s.(attempt := n) ==>
      StaysAt(s, payload, wait, n + 1)
  {
  }

  /** The waits for one block, begun after the first from events of a download, as part of the whole. */
  lemma {:induction false} WaitsForBlock(blocks: seq<bytes>, s0: Sender, events: seq<WaitEvent>, from: nat,
                                         wait: nat -> WaitEvent, n: nat)
    requires from + n <= |events| && forall k: nat :: k < n ==> wait(k) == events[from + k]
    requires var s := AfterWaits(blocks, s0, events[..from]);
      s.phase.Active? && s.index < |blocks| && StaysAt(s, blocks[s.index], wait, n)
    ensures var s := AfterWaits(blocks, s0, events[..from]);
      && AfterWaits(blocks, s0, events[..from + n]) == Waits(s, blocks[s.index], wait, n)
      && Transmissions(blocks, s0, events[..from + n])
         == Transmissions(blocks, s0, events[..from]) + Copies(Data(Expected(s.lastAck), blocks[s.index]), n)
  {
    hide AfterWaits, Transmissions, OnWait, Expected;
    if n > 0 {
      var s := AfterWaits(blocks, s0, events[..from]);
      assert Waits(s, blocks[s.index], wait, n - 1) == s.(attempt := n - 1);
      WaitsForBlock(blocks, s0, events, from, wait, n - 1);
      OneWaitMore(blocks, s0, events, from + n - 1);
    }
  }

  /** Once a download is over, later events change nothing. */
  lemma {:induction false} AllWaits(blocks: seq<bytes>, s0: Sender, events: seq<WaitEvent>, from: nat)
    requires from <= |events| && (from < |events| ==> !AfterWaits(blocks, s0, events[..from]).phase.Active?)
    ensures AfterWaits(blocks, s0, events) == AfterWaits(blocks, s0, events[..from])
    ensures Transmissions(blocks, s0, events) == Transmissions(blocks, s0, events[..from])
    decreases |events| - from
  {
    if from == |events| {
      assert events[..from] == events;
    } else {
      OneWaitMore(blocks, s0, events, from);
      AllWaits(blocks, s0, events, from + 1);
    }
  }

  /** The worker sent one datagram n times and nothing else. */
  lemma {:induction false} CopiesAgree(m: Message, n: nat)
    ensures |Copies(m, n)| == n && forall i :: 0 <= i < n ==> Copies(m, n)[i] == m
  {
    if n > 0 {
      CopiesAgree(m, n - 1);
    }
  }
}
