/** The worker that runs one transfer: the receiving and the sending half, over the file writer. */
module ServerWorkers {
  import opened Bytes
  import opened Storage
  import opened ConvertedUploads
  import opened Blocks
  import opened Transfer
  import opened FileWriting
  import Spec = WriterSpec

  datatype TransactionState =
    | INACTIVE | WAITING_FOR_REQUEST | SETTING_UP_REQUEST | PROCESSING_REQUEST
    | WAITING_FOR_DATA | WAITING_FOR_ACK | TERMINATING

  datatype MessageErrorCategory =
    | NO_ERROR | INVALID_BLOCK | TIMEOUT | INVALID_MESSAGE_SIZE | INVALID_OPCODE
    | CLIENT_ERROR | CRITICAL_SERVER_ERROR | SHUTTING_DOWN

  /** How a wait for the next DATA datagram ends. */
  datatype DataEvent = NoData | Received(m: Message) | Stopping | NoFactory

  /** What happens to a worker that receives a file: a round of its loop, with what its socket does with the
      ACK and the ERROR it may send, or the dispatcher noting the ACK 0 of the request late. */
  datatype WorkerEvent = Round(e: DataEvent, ackTaken: bool, errorTaken: bool) | AckNoted

  const RING_SIZE: nat := 0x20000

  function AfterEvent(r: Receiver, event: WorkerEvent): Receiver
  {
    match event
    case AckNoted => r.(lastAck := 0)
    case Round(e, ackTaken, _) =>
      if !r.phase.Active? then r
      else match e
        case Stopping => r
        case NoFactory => r
        case NoData => r.(phase := Aborted)
        case Received(m) => OnDatagram(r, m, ackTaken)
  }

  function AfterEvents(r: Receiver, events: seq<WorkerEvent>): Receiver
  {
    if events == [] then r else AfterEvent(AfterEvents(r, events[..|events| - 1]), events[|events| - 1])
  }

  /** Datagrams hold less than 65536 bytes. */
  predicate Deliverable(event: WorkerEvent)
  {
    event.Round? && event.e.Received? && event.e.m.Data? ==> |event.e.m.payload| < 0x10000
  }

  /** What an upload leaves among the served files, given the payloads the writer was handed. */
  function ServedAfter(served: map<Path, bytes>, path: Path, ring: bytes, convert: bool, r: Receiver): map<Path, bytes>
    requires |ring| == RING_SIZE && (r.phase.Finished? ==> Uploaded(r.accepted))
  {
    if r.phase.Finished? then
      UploadFits(Fresh(ring), convert, r.accepted);
      served[path := Spec.Flush(WriteBlocks(Fresh(ring), convert, r.accepted)).out]
    else served
  }

  /** Full blocks, then one of another size: what a finished upload has handed to the writer. */
  predicate Uploaded(blocks: seq<bytes>)
  {
    blocks != [] && AllFull(blocks[..|blocks| - 1]) && |blocks[|blocks| - 1]| < 0x10000
  }

  /** The ring is large enough for the blocks of the protocol. */
  lemma UploadFits(v: Spec.View, convert: bool, blocks: seq<bytes>)
    requires |v.mem| == RING_SIZE && Uploaded(blocks) && v.buffered == v.written == 0
    ensures var r := WriteBlocks(v, convert, blocks); r.buffered <= r.written + RING_SIZE
  {
    FullBlocksFit(v, convert, blocks[..|blocks| - 1]);
  }

  /** The served file as the worker reads it. */
  class FileReader {
    const content: bytes
    var position: nat

    constructor (content: bytes)
      ensures this.content == content && position == 0
    {
      this.content, position := content, 0;
    }

    method ReadBlock(size: nat) returns (data: bytes)
      requires position <= |content|
      modifies this
      ensures position == old(position) + |data| <= |content| && data == content[old(position)..position]
      ensures |data| == size || (|data| < size && position == |content|)
    {
      var end := if position + size < |content| then position + size else |content|;
      data := content[position..end];
      position := end;
    }
  }

  /** What a read at the start of a block returns. */
  lemma BlockRead(content: bytes, index: nat, data: bytes)
    requires index < |Split(content)| && BLOCK_SIZE * index + |data| <= |content|
    requires data == content[BLOCK_SIZE * index..BLOCK_SIZE * index + |data|]
    requires |data| == BLOCK_SIZE || (|data| < BLOCK_SIZE && BLOCK_SIZE * index + |data| == |content|)
    ensures data == Split(content)[index] && (|data| < BLOCK_SIZE <==> index + 1 == |Split(content)|)
    ensures Expected(index % WRAP) == (index + 1) % WRAP
  {
    SplitAt(content, index);
  }

  class ServerWorker {
    const disk: Disk
    const fileBuffer: HaloBuffer
    var state: TransactionState
    var lastAck: u16
    var fw: FileWriter?
    var fr: FileReader?
    /** The datagrams the socket has taken. */
    var sent: seq<Message>
    /** The payloads handed to the writer in this upload, and the ring as the upload found it. */
    ghost var accepted: seq<bytes>
    ghost var ring: bytes
    /** How many blocks of this download have been acknowledged. */
    ghost var index: nat

    ghost function Footprint(): set<object>
      reads this
    {
      {this, disk, fileBuffer.mem} + (if fw == null then {} else {fw, fw.file}) + (if fr == null then {} else {fr})
    }

    /** An upload is in progress. */
    ghost predicate Receiving()
      reads this, Footprint()
    {
      && state == WAITING_FOR_DATA && fw != null && fr == null && fw.Valid() && fileBuffer.mem.Length == RING_SIZE
      && fw.disk == disk && fw.buffer == fileBuffer
      && |ring| == RING_SIZE && AllFull(accepted)
      && fw.View() == WriteBlocks(Fresh(ring), fw.forceNativeEol, accepted)
    }

    ghost function Upload(): Receiver
      reads this
    {
      Receiver(Active, lastAck, accepted)
    }

    constructor (disk: Disk)
      ensures this.disk == disk && fresh(fileBuffer) && fresh(fileBuffer.mem) && fileBuffer.mem.Length == RING_SIZE
      ensures state == INACTIVE && fw == null && fr == null && sent == []
    {
      this.disk := disk;
      fileBuffer := new HaloBuffer(RING_SIZE);
      state, lastAck, fw, fr, sent := INACTIVE, 0, null, null, [];
    }

    /** A write request has been accepted: a fresh writer over whatever the ring holds, then ACK 0. */
    method StartUpload(path: Path, asciiMode: bool, ackTaken: bool)
      requires state == PROCESSING_REQUEST && lastAck == 0 && fileBuffer.mem.Length == RING_SIZE
      modifies this
      ensures Receiving() && fresh(fw) && fresh(fw.file) && fw.endPath == path && fw.forceNativeEol == asciiMode
      ensures Upload() == Receiver(Active, 0, []) && ring == fileBuffer.mem[..]
      ensures sent == if ackTaken then old(sent) + [Ack(0)] else old(sent)
    {
      fw := new FileWriter(disk, path, fileBuffer, asciiMode);
      fr := null;
      accepted, ring := [], fileBuffer.mem[..];
      state := WAITING_FOR_DATA;
      SendAck(0, ackTaken);
    }

    /** Sends an acknowledgement; it counts as sent only if the socket took it. */
    method SendAck(ack: u16, taken: bool)
      modifies this`sent, this`lastAck
      ensures sent == if taken then old(sent) + [Ack(ack)] else old(sent)
      ensures lastAck == if taken then ack else old(lastAck)
    {
      if taken {
        sent := sent + [Ack(ack)];
        lastAck := ack;
      }
    }

    method ProcessDataMessage(m: Message, ackTaken: bool) returns (error: MessageErrorCategory)
      requires Receiving() && (m.Data? ==> |m.payload| < 0x10000)
      modifies Footprint()
      ensures var r := OnDatagram(old(Upload()), m, ackTaken);
        && (error == NO_ERROR <==> !r.phase.Aborted?)
        && (error == NO_ERROR <==> m.Data? && m.payload != [] && m.block == (old(lastAck) + 1) % WRAP)
        && (r.phase.Active? ==>
              && Receiving() && Upload() == r && fw == old(fw) && ring == old(ring)
              && disk.files == old(disk.files))
        && (r.phase.Aborted? ==>
              && Receiving() && Upload() == old(Upload()) && fw == old(fw) && fr == old(fr) && ring == old(ring)
              && disk.files == old(disk.files) && sent == old(sent))
        && (r.phase.Finished? ==>
              && state == WAITING_FOR_REQUEST && fw == null && fr == null && !old(fw.file).present
              && Uploaded(r.accepted)
              && disk.files == ServedAfter(old(disk.files), old(fw.endPath), old(ring), old(fw.forceNativeEol), r))
        && (!r.phase.Aborted? ==> sent == if ackTaken then old(sent) + [Ack(m.block)] else old(sent))
    {
      hide Spec.WriteBlock, Spec.Flush, WriteBlocks, ServedAfter, AllFull, Uploaded;
      if m.Runt? || m.Ack? || (m.Data? && m.payload == []) {
        return INVALID_MESSAGE_SIZE;
      }
      if m.Error? {
        return CLIENT_ERROR;
      }
      var isLastMessage := |m.payload| != BLOCK_SIZE;
      var expectedBlock := if lastAck == 0xFFFF then 0 else lastAck + 1;
      if m.block != expectedBlock {
        return INVALID_BLOCK;
      }
      AcceptBlock(m.payload, m.block, isLastMessage, ackTaken);
      error := NO_ERROR;
    }

    /** Writes a block, acknowledges it, and ends the upload if it was the last one. */
    method AcceptBlock(payload: bytes, block: u16, isLastMessage: bool, ackTaken: bool)
      requires Receiving() && |payload| < 0x10000 && isLastMessage == (|payload| != BLOCK_SIZE)
      modifies Footprint()
      ensures sent == if ackTaken then old(sent) + [Ack(block)] else old(sent)
      ensures !isLastMessage ==>
        && Receiving() && fw == old(fw) && ring == old(ring) && disk.files == old(disk.files)
        && Upload() == Receiver(Active, if ackTaken then block else old(lastAck), old(accepted) + [payload])
      ensures isLastMessage ==>
        var r := Receiver(Finished, if ackTaken then block else old(lastAck), old(accepted) + [payload]);
        && state == WAITING_FOR_REQUEST && fw == null && fr == null && !old(fw.file).present && Uploaded(r.accepted)
        && disk.files == ServedAfter(old(disk.files), old(fw.endPath), old(ring), old(fw.forceNativeEol), r)
    {
      ghost var blocks := accepted + [payload];
      hide Spec.WriteBlock, Spec.Flush;
      FullBlocksFit(Fresh(ring), fw.forceNativeEol, accepted);
      fw.WriteBlock(payload);
      assert blocks[..|blocks| - 1] == accepted;
      accepted := blocks;
      SendAck(block, ackTaken);
      if isLastMessage {
        UploadFits(Fresh(ring), fw.forceNativeEol, blocks);
        fw.Finalize();
        TerminateTransaction();
      }
    }

    /** One round of the receiving half: wait for a datagram, handle it, abort on an error. */
    method ProcessWaitingForDataState(e: DataEvent, ackTaken: bool, errorTaken: bool)
      requires Receiving() && (e.Received? && e.m.Data? ==> |e.m.payload| < 0x10000)
      modifies Footprint()
      ensures e.Stopping? || e.NoFactory? ==> Receiving() && Upload() == old(Upload()) && fw == old(fw)
      ensures e.Stopping? || e.NoFactory? ==> ring == old(ring) && disk.files == old(disk.files) && sent == old(sent)
      ensures e.NoData? || e.Received? ==>
        var r := if e.NoData? then old(Upload()).(phase := Aborted) else OnDatagram(old(Upload()), e.m, ackTaken);
        && (r.phase.Finished? ==> Uploaded(r.accepted))
        && disk.files == ServedAfter(old(disk.files), old(fw.endPath), old(ring), old(fw.forceNativeEol), r)
        && (r.phase.Active? ==> Receiving() && Upload() == r && fw == old(fw) && ring == old(ring))
        && (!r.phase.Active? ==> state == WAITING_FOR_REQUEST && fw == null && fr == null && !old(fw.file).present)
        && (r.phase.Aborted? ==> sent == old(sent) + if errorTaken then [Error] else [])
      ensures e.NoData? || (e.Received? && !(e.m.Data? && e.m.payload != [] && e.m.block == (old(lastAck) + 1) % WRAP))
        ==> && state == WAITING_FOR_REQUEST && fw == null && !old(fw.file).present && disk.files == old(disk.files)
            && sent == old(sent) + if errorTaken then [Error] else []
    {
      if e.Stopping? || e.NoFactory? {
        return;
      }
      var error := TIMEOUT;
      if e.Received? {
        error := ProcessDataMessage(e.m, ackTaken);
      }
      if error != NO_ERROR {
        Abort(error, errorTaken);
      }
    }

    /** Worker, disk and temporary file are where the receiver r says, in the upload of this writer. */
    ghost predicate Follows(r: Receiver, writer: FileWriter, ring0: bytes, served: map<Path, bytes>)
      reads this, Footprint(), writer.file
    {
      && |ring0| == RING_SIZE && (r.phase.Finished? ==> Uploaded(r.accepted))
      && disk.files == ServedAfter(served, writer.endPath, ring0, writer.forceNativeEol, r)
      && (r.phase.Active? ==> Receiving() && Upload() == r && fw == writer && ring == ring0)
      && (!r.phase.Active? ==> state == WAITING_FOR_REQUEST && fw == null && fr == null && !writer.file.present)
    }

    method HandleEvent(event: WorkerEvent, ghost r: Receiver, ghost writer: FileWriter,
                       ghost ring0: bytes, ghost served: map<Path, bytes>)
      requires Follows(r, writer, ring0, served) && Deliverable(event)
      modifies Footprint()
      ensures Follows(AfterEvent(r, event), writer, ring0, served)
    {
      hide Spec.Flush, Spec.WriteBlock, WriteBlocks, AllFull, Uploaded;
      match event {
        case AckNoted =>
          lastAck := 0;
        case Round(e, ackTaken, errorTaken) =>
          if state == WAITING_FOR_DATA {
            ProcessWaitingForDataState(e, ackTaken, errorTaken);
          }
      }
    }

    /** A whole upload: the worker's loop over any sequence of events. The disk and the temporary file are
        what the run of the receiver says. */
    method ReceiveUpload(events: seq<WorkerEvent>)
      requires Receiving() && forall i :: 0 <= i < |events| ==> Deliverable(events[i])
      modifies Footprint()
      ensures old(fw) != null && Follows(AfterEvents(old(Upload()), events), old(fw), old(ring), old(disk.files))
    {
      ghost var r, writer, ring0, served := Upload(), fw, ring, disk.files;
      hide AfterEvent, Deliverable, WriteBlocks, AllFull, Uploaded;
      var i := 0;
      while i < |events|
        invariant i <= |events| && Follows(AfterEvents(r, events[..i]), writer, ring0, served)
        invariant fw == null || fw == writer
        invariant fr == null
      {
        assert events[..i + 1][..i] == events[..i];
        HandleEvent(events[i], AfterEvents(r, events[..i]), writer, ring0, served);
        i := i + 1;
      }
      assert events[..i] == events;
    }

    /** A download is in progress. */
    ghost predicate Sending()
      reads this, fr
    {
      && state == WAITING_FOR_ACK && fr != null && fw == null
      && index < |Split(fr.content)| && fr.position == BLOCK_SIZE * index <= |fr.content|
      && lastAck == index % WRAP
    }

    ghost function Download(): Sender
      reads this
    {
      Sender(Active, lastAck, index, 0)
    }

    /** A read request has been accepted. */
    method StartDownload(content: bytes)
      requires state == PROCESSING_REQUEST && lastAck == 0
      modifies this
      ensures Sending() && fresh(fr) && fr.content == content && Download() == Sender(Active, 0, 0, 0)
      ensures sent == old(sent)
    {
      fw := null;
      fr := new FileReader(content);
      index := 0;
      state := WAITING_FOR_ACK;
      SplitShape(content);
    }

    /** Worker and reader are where the sender r says, in the download of this reader. gone: activity has
        ended in the middle of a block. */
    ghost predicate Serves(r: Sender, reader: FileReader?, gone: bool)
      reads this, fr
    {
      && (r.phase.Active? ==>
            && state == WAITING_FOR_ACK && lastAck == r.lastAck && index == r.index
            && (!gone ==> Sending() && Download() == r && fr == reader))
      && (!r.phase.Active? ==> state == WAITING_FOR_REQUEST && fr == null)
    }

    /** One block of the sending half: read it, then send it and wait, again and again, until it is
        acknowledged or the transfer is given up. active and wait are what the activity flag and the
        socket show at each attempt. */
    method ProcessWaitingForAckState(active: nat -> bool, wait: nat -> WaitEvent, errorTaken: bool) returns (sends: nat)
      requires Sending()
      modifies this, fr
      ensures var payload := Split(old(fr.content))[old(index)];
        var r := Waits(old(Download()), payload, wait, sends);
        && Serves(r, old(fr), r.index == old(index))
        && sent == old(sent) + Copies(Data(Expected(old(lastAck)), payload), sends)
                   + (if r.phase.Aborted? && errorTaken then [Error] else [])
        && (r.phase.Active? && r.index == old(index) ==> !active(sends))
        && (r.phase.Finished? ==> index == |Split(old(fr.content))|)
      ensures sends <= RETRIES + 2
      ensures sends == 0 ==> !active(0)
      ensures StaysAt(old(Download()), Split(old(fr.content))[old(index)], wait, sends)
      ensures forall k: nat :: k < sends ==> active(k)
    {
      hide Split, Waits, StaysAt, Copies, Expected;
      ghost var position := fr.position;
      var message := fr.ReadBlock(BLOCK_SIZE);
      BlockRead(fr.content, index, message);
      assert position == BLOCK_SIZE * index;
      var result, acked := NO_ERROR, false;
      sends, result, acked := SendUntilAcknowledged(message, active, wait);
      EndOfBlock(result, acked, |message| < BLOCK_SIZE, errorTaken);
    }

    /** After the waits for a block: on to the next one, or the end of the transfer. */
    method EndOfBlock(result: MessageErrorCategory, acked: bool, last: bool, errorTaken: bool)
      requires state == WAITING_FOR_ACK && fw == null && fr != null
      modifies this, fr
      ensures lastAck == old(lastAck) && index == old(index) + if acked then 1 else 0
      ensures sent == old(sent) + if !acked && result != NO_ERROR && errorTaken then [Error] else []
      ensures if (if acked then last else result != NO_ERROR)
        then state == WAITING_FOR_REQUEST && fr == null && fw == null
        else state == WAITING_FOR_ACK && fr != null && fr == old(fr) && fr.position == old(fr.position) && fw == null
    {
      if acked {
        index := index + 1;
        if last {
          TerminateTransaction();
        }
      } else if result != NO_ERROR {
        Abort(result, errorTaken);
      }
    }

    /** A whole download: the worker's loop over the waits of any run, one after the other; activity ends
        with the last of them. It sends what the run of the sender says and ends where that ends. */
    method ServeDownload(events: seq<WaitEvent>, errorTaken: bool)
      requires Sending()
      modifies this, fr
      ensures var blocks := Split(old(fr.content));
        var r := AfterWaits(blocks, old(Download()), events);
        && sent == old(sent) + Transmissions(blocks, old(Download()), events)
                   + (if r.phase.Aborted? && errorTaken then [Error] else [])
        && (r.phase.Active? ==> state == WAITING_FOR_ACK && lastAck == r.lastAck && index == r.index)
        && (!r.phase.Active? ==> state == WAITING_FOR_REQUEST && fr == null)
    {
      hide Split, AfterWaits, Transmissions, Waits, StaysAt, Copies;
      ghost var s0, reader, blocks := Download(), fr, Split(fr.content);
      var from := 0;
      NoWaitsYet(blocks, s0, [], _ => Silence, Error);
      assert events[..0] == [];
      while state == WAITING_FOR_ACK && from < |events|
        invariant from <= |events| && reader.content == old(fr.content)
        invariant Serves(AfterWaits(blocks, s0, events[..from]), reader, from == |events|)
        invariant sent == old(sent) + Transmissions(blocks, s0, events[..from])
                          + (if AfterWaits(blocks, s0, events[..from]).phase.Aborted? && errorTaken
                             then [Error] else [])
        decreases |events| - from
      {
        ghost var s, was := AfterWaits(blocks, s0, events[..from]), sent;
        var start := from;
        var active := (i: nat) => start + i < |events|;
        var wait := (i: nat) => if start + i < |events| then events[start + i] else Silence;
        var sends := ProcessWaitingForAckState(active, wait, errorTaken);
        assert sends <= |events| - start by {
          if sends > 0 {
            assert active(sends - 1);
          }
        }
        WaitsForBlock(blocks, s0, events, start, wait, sends);
        from := start + sends;
      }
      AllWaits(blocks, s0, events, from);
      assert events[..|events|] == events;
    }

    /** The send and wait loop for one block: until the acknowledgement, a fatal event, the end of the
        retry budget, or the end of activity. */
    method SendUntilAcknowledged(message: bytes, active: nat -> bool, wait: nat -> WaitEvent)
      returns (sends: nat, result: MessageErrorCategory, acked: bool)
      modifies this`sent, this`lastAck
      ensures sends <= RETRIES + 2 && (sends == 0 ==> !active(0))
      ensures StaysAt(old(Download()), message, wait, sends) && forall k: nat :: k < sends ==> active(k)
      ensures sent == old(sent) + Copies(Data(Expected(old(lastAck)), message), sends)
      ensures var s, r := old(Download()), Waits(old(Download()), message, wait, sends);
        && (acked ==>
              && result == NO_ERROR && lastAck == Expected(old(lastAck))
              && r == Sender(if |message| < BLOCK_SIZE then Finished else Active, lastAck, s.index + 1, 0))
        && (!acked ==> lastAck == old(lastAck))
        && (!acked && result != NO_ERROR ==> r == s.(phase := Aborted, attempt := r.attempt))
        && (!acked && result == NO_ERROR ==> !active(sends) && r == s.(attempt := r.attempt))
    {
      hide Waits, StaysAt, Copies, Expected;
      ghost var s0 := Download();
      var expected: u16 := Expected(lastAck);
      var attempt: nat := 0;
      NoWaitsYet([], s0, message, wait, Data(expected, message));
      sends, acked := 0, false;
      while active(sends)
        invariant Waits(s0, message, wait, sends) == s0.(attempt := attempt)
        invariant StaysAt(s0, message, wait, sends) && forall k: nat :: k < sends ==> active(k)
        invariant sends == attempt <= RETRIES + 1 && lastAck == s0.lastAck && !acked
        invariant sent == old(sent) + Copies(Data(expected, message), sends)
        decreases RETRIES + 2 - attempt
      {
        sent := sent + [Data(expected, message)];
        OneResendMore(s0, message, wait, sends, Data(expected, message));
        result := WaitForAck(expected, wait(sends));
        sends := sends + 1;
        match result {
          case NO_ERROR =>
            acked := true;
            return;
          case TIMEOUT =>
            if attempt <= RETRIES {
              attempt := attempt + 1;
            } else {
              return;
            }
          case _ =>
            return;
        }
      }
      result := NO_ERROR;
    }

    /** Waits for one datagram and judges it; the right acknowledgement advances the block number. */
    method WaitForAck(ack: u16, e: WaitEvent) returns (result: MessageErrorCategory)
      requires ack == Expected(lastAck)
      modifies this`lastAck
      ensures result == NO_ERROR <==> WaitOutcome(old(lastAck), e) == NoError
      ensures result == TIMEOUT <==> WaitOutcome(old(lastAck), e) == Timeout
      ensures lastAck == if result == NO_ERROR then ack else old(lastAck)
    {
      match e
      case FactoryGone => result := CRITICAL_SERVER_ERROR;
      case ShuttingDown => result := SHUTTING_DOWN;
      case Silence => result := TIMEOUT;
      case Arrived(m) => result := ProcessAckMessage(ack, m);
    }

    method ProcessAckMessage(expectedAck: u16, m: Message) returns (result: MessageErrorCategory)
      modifies this`lastAck
      ensures result == NO_ERROR <==> m == Ack(expectedAck)
      ensures result == TIMEOUT <==> m.Ack? && m.block != expectedAck
      ensures lastAck == if m == Ack(expectedAck) then expectedAck else old(lastAck)
    {
      if m.Runt? {
        return INVALID_MESSAGE_SIZE;
      }
      if m.Error? {
        return CLIENT_ERROR;
      }
      if !m.Ack? {
        return INVALID_OPCODE;
      }
      if m.block != expectedAck {
        return TIMEOUT;
      }
      lastAck := expectedAck;
      result := NO_ERROR;
    }

    /** Tells the client, if the socket takes the message, and gives the transfer up. */
    method Abort(error: MessageErrorCategory, errorTaken: bool)
      requires error != NO_ERROR && (fw != null ==> fw.Valid())
      modifies Footprint() - {disk, fileBuffer.mem}
      ensures state == WAITING_FOR_REQUEST && fw == null && fr == null
      ensures lastAck == old(lastAck) && index == old(index)
      ensures sent == old(sent) + if errorTaken then [Error] else []
      ensures old(fw) != null ==> !old(fw).file.present
    {
      sent := sent + if errorTaken then [Error] else [];
      TerminateTransaction();
    }

    /** Drops the writer, which discards a temporary file that was not finalised, and the reader. */
    method TerminateTransaction()
      requires fw != null ==> fw.Valid() || (!fw.file.isOpen && !fw.file.present)
      modifies Footprint() - {disk, fileBuffer.mem}
      ensures state == WAITING_FOR_REQUEST && fw == null && fr == null
      ensures sent == old(sent) && lastAck == old(lastAck) && index == old(index)
      ensures old(fw) != null ==> !old(fw).file.present
    {
      if fw != null && fw.file.isOpen {
        fw.Discard();
      }
      fw := null;
      fr := null;
      state := WAITING_FOR_REQUEST;
    }
  }
}
