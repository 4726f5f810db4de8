/** From the client's file to the served file: the protocol, the worker, its writer and the disk together. */
module UploadOutcomes {
  import opened Bytes
  import opened Eol
  import opened Storage
  import opened ConvertedUploads
  import opened WholeUploads
  import opened SegmentedUploads
  import opened WriterRefinement
  import opened Blocks
  import opened Transfer
  import opened ServerWorkers
  import opened FileWriting
  import Spec = WriterSpec
  import Upload

  // ---- What the worker is put through in a run of the protocol ----

  function EventOf(c: Upload.Config, s: Upload.State, a: Upload.Action): seq<WorkerEvent>
  {
    match a
    case ServerReceive(m, ackSent) =>
      if s.server.phase.Active? && m in s.toServer && (ackSent || c.sendMayFail)
      then [Round(Received(m), ackSent, true)] else []
    case ServerTimeout => if s.server.phase.Active? then [Round(NoData, false, true)] else []
    case DispatcherNotesAck => if s.ackPending then [AckNoted] else []
    case _ => []
  }

  /** The worker's events in a run, in order. */
  function EventsOf(c: Upload.Config, acts: seq<Upload.Action>): seq<WorkerEvent>
  {
    if acts == [] then []
    else
      var before := acts[..|acts| - 1];
      EventsOf(c, before) + EventOf(c, Upload.Exec(c, before), acts[|acts| - 1])
  }

  const FRESH: Receiver := Receiver(Active, 0, [])

  lemma EventsMore(r: Receiver, events: seq<WorkerEvent>, more: seq<WorkerEvent>)
    requires |more| <= 1
    ensures AfterEvents(r, events + more)
      == if more == [] then AfterEvents(r, events) else AfterEvent(AfterEvents(r, events), more[0])
  {
    if more == [] {
      assert events + more == events;
    } else {
      assert (events + more)[..|events|] == events;
    }
  }

  lemma StepIsEvent(c: Upload.Config, s: Upload.State, a: Upload.Action)
    ensures var e := EventOf(c, s, a);
      |e| <= 1 && Upload.Step(c, s, a).server == if e == [] then s.server else AfterEvent(s.server, e[0])
  {
  }

  /** The worker's part of a run is what its events make of it. */
  lemma {:induction false} RunIsEvents(c: Upload.Config, acts: seq<Upload.Action>)
    ensures Upload.Exec(c, acts).server == AfterEvents(FRESH, EventsOf(c, acts))
  {
    if acts != [] {
      var before, a := acts[..|acts| - 1], acts[|acts| - 1];
      RunIsEvents(c, before);
      hide AfterEvents, AfterEvent, EventOf, Upload.Step;
      StepIsEvent(c, Upload.Exec(c, before), a);
      EventsMore(FRESH, EventsOf(c, before), EventOf(c, Upload.Exec(c, before), a));
    }
  }

  /** The client sends no datagram longer than a block. */
  ghost predicate SmallData(net: set<Message>)
  {
    forall m :: m in net && m.Data? ==> |m.payload| <= BLOCK_SIZE
  }

  lemma {:induction false} EventsDeliverable(c: Upload.Config, acts: seq<Upload.Action>)
    requires UploadShape(c.blocks)
    ensures SmallData(Upload.Exec(c, acts).toServer)
    ensures forall i :: 0 <= i < |EventsOf(c, acts)| ==> Deliverable(EventsOf(c, acts)[i])
  {
    if acts != [] {
      EventsDeliverable(c, acts[..|acts| - 1]);
      NextDeliverable(c, Upload.Exec(c, acts[..|acts| - 1]), acts[|acts| - 1]);
      hide UploadShape, SmallData, Upload.Step, Deliverable, EventOf;
    }
  }

  lemma NextDeliverable(c: Upload.Config, s: Upload.State, a: Upload.Action)
    requires UploadShape(c.blocks) && SmallData(s.toServer)
    ensures SmallData(Upload.Step(c, s, a).toServer)
    ensures forall i :: 0 <= i < |EventOf(c, s, a)| ==> Deliverable(EventOf(c, s, a)[i])
  {
  }

  // ---- What is left of a finished upload ----

  lemma FinishedUpload(c: Upload.Config, f: bytes, acts: seq<Upload.Action>)
    requires c.blocks == Split(f) && Upload.Orderly(c) && Upload.Exec(c, acts).server.phase.Finished?
    ensures Upload.Exec(c, acts).server.accepted == Split(f) && Uploaded(Split(f))
  {
    hide Upload.Exec;
    Upload.FinishedHasWholeFile(c, f, acts);
    SplitShape(f);
  }

  lemma FinishedOctet(f: bytes, served: map<Path, bytes>, path: Path, ring: bytes, r: Receiver)
    requires r.phase.Finished? && r.accepted == Split(f) && Uploaded(r.accepted) && |ring| == RING_SIZE
    ensures ServedAfter(served, path, ring, false, r) == served[path := f]
  {
    SplitShape(f);
    SplitFlatten(f);
    UploadFits(Fresh(ring), false, Split(f));
    OctetUpload(Fresh(ring), Split(f));
    assert [] + f == f;
  }

  lemma FinishedNetascii(f: bytes, served: map<Path, bytes>, path: Path, ring: bytes, r: Receiver)
    requires r.phase.Finished? && r.accepted == Split(f) && Uploaded(r.accepted) && |ring| == RING_SIZE
    ensures UploadShape(Split(f))
    ensures ServedAfter(served, path, ring, true, r) == served[path := Written(ring, Split(f))]
  {
    SplitShape(f);
    AfterAll(ring, Split(f));
    hide Normalize, WriteBlocks, Spec.Flush, Split, Flatten, Fresh;
  }

  // ---- Main results ----

  /** Octet mode, a fresh worker with its disk, and any run: the worker is handed the events of the run, and
      the served files are those from before, except that a finished orderly upload leaves exactly the client's
      file under the target path. The temporary file is there until the transfer is over, and no longer. */
  method RunOctetUpload(worker: ServerWorker, path: Path, ghost c: Upload.Config, ghost f: bytes,
                        ghost acts: seq<Upload.Action>, events: seq<WorkerEvent>) returns (writer: FileWriter)
    requires c.blocks == Split(f) && events == EventsOf(c, acts)
    requires worker.state == PROCESSING_REQUEST && worker.lastAck == 0 && worker.fw == null && worker.fr == null
    requires worker.fileBuffer.mem.Length == RING_SIZE
    modifies worker, worker.disk, worker.fileBuffer.mem
    ensures var r := Upload.Exec(c, acts).server;
      && (!r.phase.Finished? ==> worker.disk.files == old(worker.disk.files))
      && (r.phase.Finished? && Upload.Orderly(c) ==> worker.disk.files == old(worker.disk.files)[path := f])
      && (r.phase.Active? <==> writer.file.present)
  {
    hide Upload.Exec, ServedAfter, AfterEvents;
    SplitShape(f);
    RunIsEvents(c, acts);
    EventsDeliverable(c, acts);
    worker.StartUpload(path, false, true);
    ghost var ring := worker.ring;
    writer := worker.fw;
    worker.ReceiveUpload(events);
    if Upload.Exec(c, acts).server.phase.Finished? && Upload.Orderly(c) {
      FinishedUpload(c, f, acts);
      FinishedOctet(f, old(worker.disk.files), path, ring, Upload.Exec(c, acts).server);
    } else if !Upload.Exec(c, acts).server.phase.Finished? {
      UnfinishedServes(old(worker.disk.files), path, ring, false, Upload.Exec(c, acts).server);
    }
  }

  /** The same in netascii mode: what a finished upload leaves is what the writer puts out for the file. */
  method RunNetasciiUpload(worker: ServerWorker, path: Path, ghost c: Upload.Config, ghost f: bytes,
                           ghost acts: seq<Upload.Action>, events: seq<WorkerEvent>) returns (writer: FileWriter)
    requires c.blocks == Split(f) && events == EventsOf(c, acts)
    requires worker.state == PROCESSING_REQUEST && worker.lastAck == 0 && worker.fw == null && worker.fr == null
    requires worker.fileBuffer.mem.Length == RING_SIZE
    modifies worker, worker.disk, worker.fileBuffer.mem
    ensures UploadShape(Split(f))
    ensures var r, ring := Upload.Exec(c, acts).server, old(worker.fileBuffer.mem[..]);
      && (!r.phase.Finished? ==> worker.disk.files == old(worker.disk.files))
      && (r.phase.Finished? && Upload.Orderly(c) ==>
            worker.disk.files == old(worker.disk.files)[path := Written(ring, Split(f))])
      && (r.phase.Active? <==> writer.file.present)
  {
    hide Upload.Exec, ServedAfter, AfterEvents, Written;
    SplitShape(f);
    RunIsEvents(c, acts);
    EventsDeliverable(c, acts);
    worker.StartUpload(path, true, true);
    ghost var ring := worker.ring;
    writer := worker.fw;
    worker.ReceiveUpload(events);
    if Upload.Exec(c, acts).server.phase.Finished? && Upload.Orderly(c) {
      FinishedUpload(c, f, acts);
      FinishedNetascii(f, old(worker.disk.files), path, ring, Upload.Exec(c, acts).server);
    } else if !Upload.Exec(c, acts).server.phase.Finished? {
      UnfinishedServes(old(worker.disk.files), path, ring, true, Upload.Exec(c, acts).server);
    }
  }

  lemma UnfinishedServes(served: map<Path, bytes>, path: Path, ring: bytes, convert: bool, r: Receiver)
    requires |ring| == RING_SIZE && !r.phase.Finished?
    ensures ServedAfter(served, path, ring, convert, r) == served
  {
  }

  /** A finished upload left this under the target path. */
  predicate Leaves(served: map<Path, bytes>, path: Path, ring: bytes, convert: bool, r: Receiver, file: bytes)
    requires |ring| == RING_SIZE
  {
    r.phase.Finished? ==> Uploaded(r.accepted) && ServedAfter(served, path, ring, convert, r) == served[path := file]
  }

  /** Whatever was accepted, a finished run accepted full blocks and then a shorter one. */
  lemma {:induction false} AcceptedShape(c: Upload.Config, acts: seq<Upload.Action>)
    requires UploadShape(c.blocks)
    ensures var r := Upload.Exec(c, acts).server;
      if r.phase.Finished? then UploadShape(r.accepted) else AllFull(r.accepted)
  {
    if acts != [] {
      var before := acts[..|acts| - 1];
      AcceptedShape(c, before);
      EventsDeliverable(c, before);
      ShapeKept(c, Upload.Exec(c, before), acts[|acts| - 1]);
      hide Upload.Step, UploadShape, AllFull;
    }
  }

  lemma ShapeKept(c: Upload.Config, s: Upload.State, a: Upload.Action)
    requires SmallData(s.toServer)
    requires if s.server.phase.Finished? then UploadShape(s.server.accepted) else AllFull(s.server.accepted)
    ensures var r := Upload.Step(c, s, a).server;
      if r.phase.Finished? then UploadShape(r.accepted) else AllFull(r.accepted)
  {
  }

  lemma FinishedLeaves(f: bytes, served: map<Path, bytes>, path: Path, ring: bytes, r: Receiver)
    requires r.phase.Finished? && UploadShape(r.accepted) && |ring| == RING_SIZE
    ensures Leaves(served, path, ring, false, r, f) <==> r.accepted == Split(f)
  {
    var g := Flatten(r.accepted);
    FlattenSplit(r.accepted);
    hide Split, Flatten;
    FinishedOctet(g, served, path, ring, r);
    SplitFlatten(f);
    assert served[path := g][path] == g && served[path := f][path] == f;
  }

  /** All or nothing in octet mode: every finished run leaves exactly the client's file if and only if the
      upload is orderly, or cannot finish because the length of the file is a multiple of 512. */
  lemma OctetUploadIff(c: Upload.Config, f: bytes, served: map<Path, bytes>, path: Path, ring: bytes)
    requires c.blocks == Split(f) && |ring| == RING_SIZE
    ensures (forall acts :: Leaves(served, path, ring, false, Upload.Exec(c, acts).server, f))
      <==> Upload.Orderly(c) || |f| % BLOCK_SIZE == 0
  {
    SplitShape(f);
    hide Upload.Exec, Upload.Orderly;
    Upload.FinishedHasFileIff(c);
    forall acts ensures Leaves(served, path, ring, false, Upload.Exec(c, acts).server, f)
      <==> (Upload.Exec(c, acts).server.phase.Finished? ==> Upload.Exec(c, acts).server.accepted == c.blocks)
    {
      AcceptedShape(c, acts);
      if Upload.Exec(c, acts).server.phase.Finished? {
        FinishedLeaves(f, served, path, ring, Upload.Exec(c, acts).server);
      }
    }
  }

  /** The block ends and the end of the file are read as the file goes on. */
  predicate ReadsTrue(f: bytes, ring: bytes)
    requires ring != []
  {
    (forall j :: 0 < j <= |f| / BLOCK_SIZE ==> !Disturbed(ring, f, j)) && !EndHazard(ring, f)
  }

  /** Which files a finished netascii upload leaves converted, at any length. */
  lemma NetasciiFileIff(f: bytes, ring: bytes)
    requires |ring| == RING_SIZE && Settled(ring, f, |Split(f)|)
    ensures UploadShape(Split(f))
    ensures Written(ring, Split(f)) == Normalize(f) <==> ReadsTrue(f, ring)
  {
    SplitShape(f);
    SplitFlatten(f);
    hide Written, Normalize, Split, Flatten, Disturbed, EndHazard, Settled;
    SettledFileIff(ring, Split(f));
  }

  /** Files of up to 131071 bytes come out right exactly unless they end in a CR and the worker's ring, as the
      upload found it, has a line feed where they end. */
  lemma ShortNetasciiIff(f: bytes, ring: bytes)
    requires |ring| == RING_SIZE && |f| < 0x20000
    ensures UploadShape(Split(f))
    ensures Written(ring, Split(f)) == Normalize(f) <==> !(|f| >= 2 && f[|f| - 1] == CR && ring[|f|] == LF)
  {
    SplitShape(f);
    SplitFlatten(f);
    hide Written, Normalize, Split, Flatten;
    ShortUploadIff(ring, Split(f));
  }

  lemma NetasciiLeaves(f: bytes, served: map<Path, bytes>, path: Path, ring: bytes, r: Receiver)
    requires r.phase.Finished? && r.accepted == Split(f) && Uploaded(r.accepted)
    requires |ring| == RING_SIZE && Settled(ring, f, |Split(f)|)
    ensures Leaves(served, path, ring, true, r, Normalize(f)) <==> ReadsTrue(f, ring)
  {
    hide Written, Normalize, Split, Disturbed, EndHazard, Settled, ServedAfter, Uploaded;
    FinishedNetascii(f, served, path, ring, r);
    NetasciiFileIff(f, ring);
    var out := Written(ring, Split(f));
    assert served[path := out][path] == out && served[path := Normalize(f)][path] == Normalize(f);
  }

  /** All or nothing in netascii mode, for orderly uploads: every finished run leaves exactly the conversion
      of the client's file if and only if the ring is read truly, or the upload cannot finish. */
  lemma NetasciiUploadIff(c: Upload.Config, f: bytes, served: map<Path, bytes>, path: Path, ring: bytes)
    requires c.blocks == Split(f) && Upload.Orderly(c)
    requires |ring| == RING_SIZE && Settled(ring, f, |Split(f)|)
    ensures (forall acts :: Leaves(served, path, ring, true, Upload.Exec(c, acts).server, Normalize(f)))
      <==> ReadsTrue(f, ring) || |f| % BLOCK_SIZE == 0
  {
    hide Upload.Exec, Upload.Orderly, Normalize, Settled, ReadsTrue, ServedAfter, Uploaded;
    Upload.UploadCanFinishIff(c, f);
    forall acts ensures Leaves(served, path, ring, true, Upload.Exec(c, acts).server, Normalize(f))
      <==> (Upload.Exec(c, acts).server.phase.Finished? ==> ReadsTrue(f, ring))
    {
      if Upload.Exec(c, acts).server.phase.Finished? {
        FinishedUpload(c, f, acts);
        NetasciiLeaves(f, served, path, ring, Upload.Exec(c, acts).server);
      }
    }
  }
}
