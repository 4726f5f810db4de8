/** From the served file to the client: the protocol of a download and the worker that runs it together. */
module DownloadOutcomes {
  import opened Bytes
  import opened ConvertedUploads
  import opened Blocks
  import opened Transfer
  import opened ServerWorkers
  import Download

  // ---- What the worker is put through in a run of the protocol ----

  /** The wait that an action ends, if it ends one. */
  function WaitOf(blocks: seq<bytes>, s: Download.State, a: Download.Action): seq<WaitEvent>
  {
    if a.ServerWait? && s.server.phase.Active? && s.waiting && s.server.index < |blocks|
       && (a.e.Arrived? ==> a.e.m in s.toServer)
    then [a.e] else []
  }

  /** The worker's waits in a run, in order. */
  function WaitsOf(blocks: seq<bytes>, acts: seq<Download.Action>): seq<WaitEvent>
  {
    if acts == [] then []
    else
      var before := acts[..|acts| - 1];
      WaitsOf(blocks, before) + WaitOf(blocks, Download.Exec(blocks, before), acts[|acts| - 1])
  }

  const FRESH: Sender := Sender(Active, 0, 0, 0)

  function ToSet(data: seq<Message>): set<Message>
  {
    set m | m in data
  }

  /** The sender is where the waits so far put it, and has sent what they say, and once more when it has
      begun the next wait. */
  ghost predicate Matches(blocks: seq<bytes>, s: Download.State, r: Sender, data: seq<Message>)
  {
    && s.server == r && (s.waiting ==> r.phase.Active? && r.index < |blocks|)
    && s.sends == |data| + (if s.waiting then 1 else 0)
    && s.toClient == ToSet(data) + (if s.waiting then ToSet(Transmission(blocks, r)) else {})
  }

  lemma WaitsMore(blocks: seq<bytes>, events: seq<WaitEvent>, more: seq<WaitEvent>)
    requires |more| <= 1
    ensures var r := AfterWaits(blocks, FRESH, events);
      && AfterWaits(blocks, FRESH, events + more) == (if more == [] then r else AfterWait(blocks, r, more[0]))
      && Transmissions(blocks, FRESH, events + more)
         == Transmissions(blocks, FRESH, events) + (if more == [] then [] else Transmission(blocks, r))
  {
    if more == [] {
      assert events + more == events;
    } else {
      assert (events + more)[..|events|] == events;
    }
  }

  lemma StepIsWait(blocks: seq<bytes>, s: Download.State, a: Download.Action, data: seq<Message>)
    requires Matches(blocks, s, s.server, data)
    ensures var e := WaitOf(blocks, s, a);
      var r := if e == [] then s.server else AfterWait(blocks, s.server, e[0]);
      |e| <= 1 && Matches(blocks, Download.Step(blocks, s, a), r,
                          data + if e == [] then [] else Transmission(blocks, s.server))
  {
    hide OnWait;
    if WaitOf(blocks, s, a) == [] {
      assert data + [] == data;
    } else {
      var more := Transmission(blocks, s.server);
      assert ToSet(data + more) == ToSet(data) + ToSet(more);
    }
  }

  /** The worker's part of a run is what its waits make of it, and the client's side of the network has
      carried exactly what the worker sends before them. */
  lemma {:induction false} RunIsWaits(blocks: seq<bytes>, acts: seq<Download.Action>)
    ensures var waits := WaitsOf(blocks, acts);
      Matches(blocks, Download.Exec(blocks, acts),
              AfterWaits(blocks, FRESH, waits), Transmissions(blocks, FRESH, waits))
  {
    if acts != [] {
      var before, a := acts[..|acts| - 1], acts[|acts| - 1];
      var s, waits := Download.Exec(blocks, before), WaitsOf(blocks, before);
      RunIsWaits(blocks, before);
      assert s.server == AfterWaits(blocks, FRESH, waits);
      hide Matches, WaitOf, AfterWaits, AfterWait, Transmissions, Transmission, Download.Step;
      StepIsWait(blocks, s, a, Transmissions(blocks, FRESH, waits));
      WaitsMore(blocks, waits, WaitOf(blocks, s, a));
    }
  }

  // ---- Main result ----

  /** A fresh worker, a served file, and any run: the worker is handed the waits of the run. It goes back to
      waiting for requests exactly when the run of the sender is over; every datagram it has sent is one the
      run has put on the network, as often, at most five for a block, and an ERROR at the end of an aborted
      run; and when it ends normally, the client has exactly the file, up to 65536 blocks. */
  method RunDownload(worker: ServerWorker, f: bytes, ghost acts: seq<Download.Action>, waits: seq<WaitEvent>,
                     errorTaken: bool) returns (ghost data: seq<Message>)
    requires waits == WaitsOf(Split(f), acts)
    requires worker.state == PROCESSING_REQUEST && worker.lastAck == 0
    modifies worker
    ensures var s := Download.Exec(Split(f), acts);
      && worker.sent == old(worker.sent) + data + (if s.server.phase.Aborted? && errorTaken then [Error] else [])
      && s.sends == |data| + (if s.waiting then 1 else 0) && |data| <= 5 * |Split(f)|
      && (forall m :: m in data ==> m in s.toClient)
      && (!s.waiting ==> forall m :: m in s.toClient ==> m in data)
      && (worker.state == WAITING_FOR_REQUEST <==> !s.server.phase.Active?)
      && (s.server.phase.Finished? && |Split(f)| <= WRAP ==> Flatten(s.received) == f)
  {
    hide Split, AfterWaits, Transmissions, Transmission, Download.Exec, WaitsOf;
    SplitShape(f);
    RunIsWaits(Split(f), acts);
    Download.SendsBounded(Split(f), acts);
    if Download.Exec(Split(f), acts).server.phase.Finished? && |Split(f)| <= WRAP {
      Download.NormalEndDeliversFile(f, acts);
    }
    worker.StartDownload(f);
    worker.ServeDownload(waits, errorTaken);
    data := Transmissions(Split(f), FRESH, waits);
  }
}
