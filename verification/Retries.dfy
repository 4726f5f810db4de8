/** How a download ends, told by what its waits end with: when the worker sends a block again, goes on to the
    next one, gives up, or is done. */
module Retries {
  import opened Bytes
  import opened ConvertedUploads
  import opened Blocks
  import opened Transfer
  import opened DownloadOutcomes
  import Download

  // ---- What a wait for block k can end with ----

  predicate RightAck(k: nat, e: WaitEvent)
  {
    e == Arrived(Ack((k + 1) % WRAP))
  }

  /** Nothing, or the acknowledgement of another block. */
  predicate Lapse(k: nat, e: WaitEvent)
  {
    e.Silence? || (e.Arrived? && e.m.Ack? && e.m.block != (k + 1) % WRAP)
  }

  predicate Fatal(e: WaitEvent)
  {
    e.ShuttingDown? || e.FactoryGone? || (e.Arrived? && !e.m.Ack?)
  }

  /** A block is waited for at most this often. */
  const WAITS: nat := 5

  predicate Lapses(k: nat, events: seq<WaitEvent>, from: nat, to: nat)
    requires to <= |events|
  {
    forall i :: from <= i < to ==> Lapse(k, events[i])
  }

  // ---- The waits, block by block ----

  /** The first wait for block k, if block j was answered at wait ends[j]. */
  function Begin(ends: seq<nat>, k: nat): nat
    requires k <= |ends|
  {
    if k == 0 then 0 else ends[k - 1] + 1
  }

  /** The first blocks have got their right acknowledgement, block k at wait ends[k], within five waits and
      with nothing worse than lapses before it. */
  ghost predicate Answered(events: seq<WaitEvent>, ends: seq<nat>)
  {
    forall k :: 0 <= k < |ends| ==> AnsweredHere(events, ends, k)
  }

  predicate AnsweredHere(events: seq<WaitEvent>, ends: seq<nat>, k: nat)
    requires k < |ends|
  {
    AnsweredAt(events, k, Begin(ends, k), ends[k])
  }

  predicate AnsweredAt(events: seq<WaitEvent>, k: nat, from: nat, at: nat)
  {
    from <= at < |events| && at - from < WAITS && RightAck(k, events[at]) && Lapses(k, events, from, at)
  }

  /** The next block has not: at wait i something fatal happened, or the fifth lapse in a row. */
  predicate GivesUpAt(events: seq<WaitEvent>, k: nat, from: nat, i: nat)
  {
    && from <= i < |events| && i - from < WAITS && Lapses(k, events, from, i)
    && (Fatal(events[i]) || (Lapse(k, events[i]) && i - from == WAITS - 1))
  }

  // ---- What the worker makes of them ----

  /** At block k, which has lapsed so often. */
  function At(k: nat, lapsed: nat): Sender
  {
    Sender(Active, k % WRAP, k, lapsed)
  }

  lemma NextNumber(k: nat)
    ensures Expected(k % WRAP) == (k + 1) % WRAP
  {
  }

  lemma OneWait(blocks: seq<bytes>, k: nat, lapsed: nat, e: WaitEvent)
    requires UploadShape(blocks) && k < |blocks| && lapsed < WAITS
    ensures var r := AfterWait(blocks, At(k, lapsed), e);
      && (RightAck(k, e) ==>
            r == if k + 1 == |blocks| then Sender(Finished, (k + 1) % WRAP, k + 1, 0) else At(k + 1, 0))
      && (Lapse(k, e) && lapsed < WAITS - 1 ==> r == At(k, lapsed + 1))
      && ((Lapse(k, e) && lapsed == WAITS - 1) || Fatal(e) ==> r.phase.Aborted?)
      && (RightAck(k, e) || Lapse(k, e) || Fatal(e))
    ensures Transmission(blocks, At(k, lapsed)) == [Data((k + 1) % WRAP, blocks[k])]
  {
    NextNumber(k);
    hide Expected;
  }

  /** Up to four lapses leave the worker at its block. */
  lemma {:induction false} StaysAtBlock(blocks: seq<bytes>, s0: Sender, events: seq<WaitEvent>,
                                        k: nat, from: nat, i: nat)
    requires UploadShape(blocks) && k < |blocks| && from <= i <= |events| && i - from < WAITS
    requires AfterWaits(blocks, s0, events[..from]) == At(k, 0) && Lapses(k, events, from, i)
    ensures AfterWaits(blocks, s0, events[..i]) == At(k, i - from)
  {
    hide AfterWaits, Transmissions, Transmission, AfterWait, UploadShape;
    if i > from {
      assert Lapse(k, events[i - 1]);
      StaysAtBlock(blocks, s0, events, k, from, i - 1);
      hide Lapses, Lapse;
      OneWaitMore(blocks, s0, events, i - 1);
      OneWait(blocks, k, i - 1 - from, events[i - 1]);
    }
  }

  /** The right acknowledgement takes it to the next one, or to the end. */
  lemma AnswerTaken(blocks: seq<bytes>, events: seq<WaitEvent>, k: nat, from: nat, at: nat)
    requires UploadShape(blocks) && k < |blocks| && from <= |events| && AnsweredAt(events, k, from, at)
    requires AfterWaits(blocks, FRESH, events[..from]) == At(k, 0)
    ensures AfterWaits(blocks, FRESH, events[..at + 1])
      == if k + 1 == |blocks| then Sender(Finished, (k + 1) % WRAP, k + 1, 0) else At(k + 1, 0)
  {
    StaysAtBlock(blocks, FRESH, events, k, from, at);
    OneWaitMore(blocks, FRESH, events, at);
    hide AfterWaits, Transmissions, UploadShape, AfterWait;
    OneWait(blocks, k, at - from, events[at]);
  }

  /** The worker is at the next block once the ones before it are answered. */
  lemma {:induction false} BeginsBlock(blocks: seq<bytes>, events: seq<WaitEvent>, ends: seq<nat>, k: nat)
    requires UploadShape(blocks) && Answered(events, ends) && k <= |ends| <= |blocks|
    ensures Begin(ends, k) <= |events|
    ensures AfterWaits(blocks, FRESH, events[..Begin(ends, k)])
      == if k == |blocks| then Sender(Finished, k % WRAP, k, 0) else At(k, 0)
  {
    if k > 0 {
      BeginsBlock(blocks, events, ends, k - 1);
      assert AnsweredHere(events, ends, k - 1);
      hide AfterWaits, Answered, UploadShape;
      AnswerTaken(blocks, events, k - 1, Begin(ends, k - 1), ends[k - 1]);
    }
  }

  lemma AtWait(blocks: seq<bytes>, events: seq<WaitEvent>, ends: seq<nat>, i: nat)
    requires UploadShape(blocks) && Answered(events, ends) && |ends| < |blocks|
    requires Begin(ends, |ends|) <= i <= |events| && i - Begin(ends, |ends|) < WAITS
    requires Lapses(|ends|, events, Begin(ends, |ends|), i)
    ensures AfterWaits(blocks, FRESH, events[..i]) == At(|ends|, i - Begin(ends, |ends|))
  {
    BeginsBlock(blocks, events, ends, |ends|);
    StaysAtBlock(blocks, FRESH, events, |ends|, Begin(ends, |ends|), i);
  }

  // ---- Every wait is a resend ----

  lemma {:induction false} SendsStay(blocks: seq<bytes>, s: Sender, events: seq<WaitEvent>, m: nat)
    requires m <= |events|
    ensures Transmissions(blocks, s, events[..m]) <= Transmissions(blocks, s, events)
    decreases |events| - m
  {
    if m == |events| {
      assert events[..m] == events;
    } else {
      OneWaitMore(blocks, s, events, m);
      SendsStay(blocks, s, events, m + 1);
    }
  }

  /** While the worker is active it has sent once before every wait. */
  lemma {:induction false} OneSendEach(blocks: seq<bytes>, events: seq<WaitEvent>)
    requires UploadShape(blocks)
    ensures var r := AfterWaits(blocks, FRESH, events);
      r.phase.Active? ==>
        && r == At(r.index, r.attempt) && r.index < |blocks| && r.attempt < WAITS
        && |Transmissions(blocks, FRESH, events)| == |events|
  {
    if events != [] {
      var last := |events| - 1;
      OneSendEach(blocks, events[..last]);
      var r := AfterWaits(blocks, FRESH, events[..last]);
      hide AfterWait, UploadShape, Transmission;
      if r.phase.Active? {
        OneWait(blocks, r.index, r.attempt, events[last]);
      } else {
        OverStays(blocks, r, events[last]);
      }
    }
  }

  lemma OverStays(blocks: seq<bytes>, r: Sender, e: WaitEvent)
    requires !r.phase.Active?
    ensures AfterWait(blocks, r, e) == r && Transmission(blocks, r) == []
  {
  }

  /** Block k is what is sent before every wait for it, whether it is then answered or not: lapse after
      lapse the same datagram goes out again. */
  lemma EveryWaitResends(blocks: seq<bytes>, events: seq<WaitEvent>, ends: seq<nat>, i: nat)
    requires UploadShape(blocks) && Answered(events, ends) && |ends| < |blocks|
    requires Begin(ends, |ends|) <= i < |events| && i - Begin(ends, |ends|) < WAITS
    requires Lapses(|ends|, events, Begin(ends, |ends|), i)
    ensures var sent := Transmissions(blocks, FRESH, events);
      |sent| > i && sent[i] == Data((|ends| + 1) % WRAP, blocks[|ends|])
  {
    AtWait(blocks, events, ends, i);
    OneSendEach(blocks, events[..i]);
    OneWaitMore(blocks, FRESH, events, i);
    SendsStay(blocks, FRESH, events, i + 1);
    hide AfterWaits, Transmissions, Transmission, Answered, Lapses, UploadShape;
    OneWaitIsSend(blocks, |ends|, i - Begin(ends, |ends|));
  }

  lemma OneWaitIsSend(blocks: seq<bytes>, k: nat, lapsed: nat)
    requires k < |blocks|
    ensures Transmission(blocks, At(k, lapsed)) == [Data((k + 1) % WRAP, blocks[k])]
  {
    NextNumber(k);
  }

  // ---- How a download ends ----

  /** Where the worker is, told by the answers it has got. */
  ghost predicate Told(blocks: seq<bytes>, events: seq<WaitEvent>, r: Sender, ends: seq<nat>)
  {
    && Answered(events, ends) && |ends| <= |blocks|
    && match r.phase
       case Finished => |ends| == |blocks|
       case Active =>
         var from := Begin(ends, |ends|);
         && |ends| < |blocks| && from <= |events| && |events| - from < WAITS
         && Lapses(|ends|, events, from, |events|) && r == At(|ends|, |events| - from)
       case Aborted => |ends| < |blocks| && exists i: nat :: GivesUpAt(events, |ends|, Begin(ends, |ends|), i)
  }

  lemma AnsweredLonger(events: seq<WaitEvent>, e: WaitEvent, ends: seq<nat>)
    requires Answered(events, ends)
    ensures Answered(events + [e], ends)
  {
    forall k | 0 <= k < |ends| ensures AnsweredHere(events + [e], ends, k) {
      assert AnsweredHere(events, ends, k);
    }
  }

  lemma AnsweredMore(events: seq<WaitEvent>, ends: seq<nat>, at: nat)
    requires Answered(events, ends) && AnsweredAt(events, |ends|, Begin(ends, |ends|), at)
    ensures Answered(events, ends + [at])
  {
    var more := ends + [at];
    forall k | 0 <= k < |more| ensures AnsweredHere(events, more, k) {
      assert Begin(more, k) == Begin(ends, k);
      assert k < |ends| ==> AnsweredHere(events, ends, k);
    }
  }

  /** One wait more. */
  lemma ToldOneMore(blocks: seq<bytes>, events: seq<WaitEvent>, e: WaitEvent, r: Sender, before: seq<nat>)
    returns (ends: seq<nat>)
    requires UploadShape(blocks) && Told(blocks, events, r, before)
    ensures Told(blocks, events + [e], AfterWait(blocks, r, e), ends)
  {
    var longer, k, from := events + [e], |before|, Begin(before, |before|);
    AnsweredLonger(events, e, before);
    ends := before;
    if r.phase.Active? {
      OneWait(blocks, k, |events| - from, e);
      hide AfterWait, UploadShape, Answered;
      if RightAck(k, e) {
        assert AnsweredAt(longer, k, from, |events|);
        AnsweredMore(longer, before, |events|);
        ends := before + [|events|];
      } else if Fatal(e) || |events| - from == WAITS - 1 {
        assert GivesUpAt(longer, k, from, |events|);
      }
    } else {
      OverStays(blocks, r, e);
      hide AfterWait, UploadShape, Answered;
      if r.phase.Aborted? {
        var i: nat :| GivesUpAt(events, k, from, i);
        assert GivesUpAt(longer, k, from, i);
      }
    }
  }

  lemma {:induction false} Tell(blocks: seq<bytes>, events: seq<WaitEvent>) returns (ends: seq<nat>)
    requires UploadShape(blocks)
    ensures Told(blocks, events, AfterWaits(blocks, FRESH, events), ends)
  {
    if events == [] {
      ends := [];
    } else {
      var last := |events| - 1;
      var before := Tell(blocks, events[..last]);
      assert events == events[..last] + [events[last]];
      hide Told, UploadShape, AfterWait;
      ends := ToldOneMore(blocks, events[..last], events[last], AfterWaits(blocks, FRESH, events[..last]), before);
    }
  }

  /** A download is finished if and only if every block got its right acknowledgement within five waits,
      with nothing but lapses before it. */
  lemma FinishesIff(blocks: seq<bytes>, events: seq<WaitEvent>)
    requires UploadShape(blocks)
    ensures AfterWaits(blocks, FRESH, events).phase.Finished?
      <==> exists ends :: |ends| == |blocks| && Answered(events, ends)
  {
    if ends :| |ends| == |blocks| && Answered(events, ends) {
      BeginsBlock(blocks, events, ends, |ends|);
      hide AfterWaits, Answered, UploadShape;
      AllWaits(blocks, FRESH, events, Begin(ends, |ends|));
    }
    var told := Tell(blocks, events);
    hide AfterWaits, Answered, UploadShape;
  }

  /** It is given up if and only if, at the first block that did not, something fatal happened within five
      waits, or five lapses in a row. */
  lemma AbortsIff(blocks: seq<bytes>, events: seq<WaitEvent>)
    requires UploadShape(blocks)
    ensures AfterWaits(blocks, FRESH, events).phase.Aborted?
      <==> exists ends, i: nat :: |ends| < |blocks| && Answered(events, ends)
                             && GivesUpAt(events, |ends|, Begin(ends, |ends|), i)
  {
    hide AfterWaits, AfterWait, Answered, UploadShape, GivesUpAt, Begin;
    if ends: seq<nat>, i: nat :|
      |ends| < |blocks| && Answered(events, ends) && GivesUpAt(events, |ends|, Begin(ends, |ends|), i)
    {
      GivenUp(blocks, events, ends, i);
    }
    var told := Tell(blocks, events);
  }

  lemma GivenUp(blocks: seq<bytes>, events: seq<WaitEvent>, ends: seq<nat>, i: nat)
    requires UploadShape(blocks) && |ends| < |blocks| && Answered(events, ends)
    requires GivesUpAt(events, |ends|, Begin(ends, |ends|), i)
    ensures AfterWaits(blocks, FRESH, events).phase.Aborted?
  {
    hide AfterWaits, AfterWait, Answered, UploadShape, Transmissions, Begin;
    AtWait(blocks, events, ends, i);
    OneWaitMore(blocks, FRESH, events, i);
    OneWait(blocks, |ends|, i - Begin(ends, |ends|), events[i]);
    AllWaits(blocks, FRESH, events, i + 1);
  }

  // ---- Runs of the protocol ----

  /** The same of a run of client, network and worker. */
  lemma RunEndsIff(blocks: seq<bytes>, acts: seq<Download.Action>)
    requires UploadShape(blocks)
    ensures var s, waits := Download.Exec(blocks, acts), WaitsOf(blocks, acts);
      && (s.server.phase.Finished? <==> exists ends :: |ends| == |blocks| && Answered(waits, ends))
      && (s.server.phase.Aborted? <==>
            exists ends, i: nat :: |ends| < |blocks| && Answered(waits, ends)
                              && GivesUpAt(waits, |ends|, Begin(ends, |ends|), i))
  {
    RunIsWaits(blocks, acts);
    hide Download.Exec, WaitsOf, AfterWaits, UploadShape;
    FinishesIff(blocks, WaitsOf(blocks, acts));
    AbortsIff(blocks, WaitsOf(blocks, acts));
  }
}
