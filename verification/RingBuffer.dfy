/** The ring buffer: one producer, one consumer, one slot always left empty. */
module RingBuffers {
  /** The slots from the read head up to the write head, in order. */
  function Between<T>(buffer: seq<T>, readHead: nat, writeHead: nat): seq<T>
    requires readHead < |buffer| && writeHead < |buffer|
  {
    if readHead <= writeHead then buffer[readHead..writeHead] else buffer[readHead..] + buffer[..writeHead]
  }

  function Following(head: nat, size: nat): (r: nat)
    requires head < size
    ensures r < size
  {
    if head + 1 == size then 0 else head + 1
  }

  lemma FollowingIsModulo(head: nat, size: nat)
    requires head < size
    ensures (head + 1) % size == Following(head, size)
  {
  }

  predicate Within(i: nat, readHead: nat, writeHead: nat)
  {
    if readHead <= writeHead then readHead <= i < writeHead else i < writeHead || readHead <= i
  }

  /** Every slot without an element is blank: what has been read is not kept. */
  ghost predicate Clean<T>(buffer: seq<T>, readHead: nat, writeHead: nat, blank: T)
  {
    forall i :: 0 <= i < |buffer| && !Within(i, readHead, writeHead) ==> buffer[i] == blank
  }

  /** Writing into the free slot and moving the head appends one element. */
  lemma WriteAppends<T>(buffer: seq<T>, readHead: nat, writeHead: nat, v: T)
    requires readHead < |buffer| && writeHead < |buffer| && Following(writeHead, |buffer|) != readHead
    ensures Between(buffer[writeHead := v], readHead, Following(writeHead, |buffer|))
      == Between(buffer, readHead, writeHead) + [v]
  {
  }

  /** Clearing the oldest slot and moving the head takes the first element off. */
  lemma ReadRemoves<T>(buffer: seq<T>, readHead: nat, writeHead: nat, blank: T)
    requires readHead < |buffer| && writeHead < |buffer| && readHead != writeHead
    ensures Between(buffer, readHead, writeHead) == [buffer[readHead]]
      + Between(buffer[readHead := blank], Following(readHead, |buffer|), writeHead)
  {
  }

  lemma WriteKeepsClean<T>(buffer: seq<T>, readHead: nat, writeHead: nat, v: T, blank: T)
    requires readHead < |buffer| && writeHead < |buffer| && Following(writeHead, |buffer|) != readHead
    requires Clean(buffer, readHead, writeHead, blank)
    ensures Clean(buffer[writeHead := v], readHead, Following(writeHead, |buffer|), blank)
  {
  }

  lemma ReadKeepsClean<T>(buffer: seq<T>, readHead: nat, writeHead: nat, blank: T)
    requires readHead < |buffer| && writeHead < |buffer| && readHead != writeHead
    requires Clean(buffer, readHead, writeHead, blank)
    ensures Clean(buffer[readHead := blank], Following(readHead, |buffer|), writeHead, blank)
  {
  }

  datatype ReadResult<T> = Value(v: T) | Empty

  class RingBuffer<T(0)> {
    const buffer: array<T>
    const blank: T
    var readHead: nat
    var writeHead: nat

    ghost predicate Valid()
      reads this, buffer
    {
      && readHead < buffer.Length && writeHead < buffer.Length && buffer.Length >= 4
      && Clean(buffer[..], readHead, writeHead, blank)
    }

    ghost function Contents(): seq<T>
      reads this, buffer
      requires Valid()
    {
      Between(buffer[..], readHead, writeHead)
    }

    constructor (size: nat, blank: T)
      requires size >= 4
      ensures Valid() && fresh(buffer) && buffer.Length == size && this.blank == blank && Contents() == []
    {
      buffer := new T[size](i => blank);
      this.blank := blank;
      readHead, writeHead := 0, 0;
    }

    /** A size below four is refused. */
    static method Make(size: nat, blank: T) returns (made: RingBuffer?<T>)
      ensures made == null <==> size < 4
      ensures made != null ==> fresh(made) && fresh(made.buffer) && made.Valid() && made.Contents() == []
      ensures made != null ==> made.buffer.Length == size
    {
      if size < 4 {
        return null;
      }
      made := new RingBuffer<T>(size, blank);
    }

    predicate IsEmpty()
      reads this
    {
      readHead == writeHead
    }

    predicate IsFull()
      reads this
      requires buffer.Length > 0
    {
      (writeHead + 1) % buffer.Length == readHead
    }

    /** Refuses when the buffer holds one element less than its size, appends otherwise. */
    method Write(v: T) returns (written: bool)
      requires Valid()
      modifies this`writeHead, buffer
      ensures Valid() && written == (|old(Contents())| < buffer.Length - 1)
      ensures Contents() == if written then old(Contents()) + [v] else old(Contents())
    {
      FollowingIsModulo(writeHead, buffer.Length);
      if IsFull() {
        return false;
      }
      WriteAppends(buffer[..], readHead, writeHead, v);
      WriteKeepsClean(buffer[..], readHead, writeHead, v, blank);
      hide Clean, Between, Following;
      buffer[writeHead] := v;
      writeHead := (writeHead + 1) % buffer.Length;
      written := true;
    }

    /** Takes the oldest element, or reports that there is none. */
    method Read() returns (r: ReadResult<T>)
      requires Valid()
      modifies this`readHead, buffer
      ensures Valid()
      ensures old(Contents()) == [] <==> r == Empty
      ensures Contents() == if r.Empty? then old(Contents()) else old(Contents())[1..]
      ensures r.Value? ==> r.v == old(Contents())[0]
    {
      if IsEmpty() {
        return Empty;
      }
      FollowingIsModulo(readHead, buffer.Length);
      hide Clean, Between, Following;
      ReadRemoves(buffer[..], readHead, writeHead, blank);
      ReadKeepsClean(buffer[..], readHead, writeHead, blank);
      r := Value(buffer[readHead]);
      buffer[readHead] := blank;
      readHead := (readHead + 1) % buffer.Length;
    }
  }
}

/** The same buffer between two threads, each check, slot access and publication one step. */
module RingBufferThreads {
  import opened RingBuffers

  /** Where the producer stands: has seen room for v; has stored v and is about to publish it. */
  datatype Producer<T> = Free | Checked(v: T) | Stored(v: T)

  /** Where the consumer stands: has seen an element; has copied it; has cleared its slot. */
  datatype Consumer<T> = Waiting | Seen | Copied(v: T) | Cleared(v: T)

  /** written and read are the values published by the producer and delivered by the consumer. */
  datatype State<T> = State(buffer: seq<T>, readHead: nat, writeHead: nat,
                            producer: Producer<T>, consumer: Consumer<T>, written: seq<T>, read: seq<T>)

  datatype Action<T> = Produce(v: T) | Consume

  ghost predicate Sized<T>(s: State<T>)
  {
    s.readHead < |s.buffer| && s.writeHead < |s.buffer|
  }

  /** One step of one side; blank is what a read slot is overwritten with. */
  function Step<T>(s: State<T>, a: Action<T>, blank: T): State<T>
    requires Sized(s)
  {
    match a
    case Produce(v) =>
      (match s.producer
       case Free => if Following(s.writeHead, |s.buffer|) == s.readHead then s else s.(producer := Checked(v))
       case Checked(w) => s.(producer := Stored(w), buffer := s.buffer[s.writeHead := w])
       case Stored(w) =>
         s.(producer := Free, writeHead := Following(s.writeHead, |s.buffer|), written := s.written + [w]))
    case Consume =>
      (match s.consumer
       case Waiting => if s.readHead == s.writeHead then s else s.(consumer := Seen)
       case Seen => s.(consumer := Copied(s.buffer[s.readHead]))
       case Copied(w) => s.(consumer := Cleared(w), buffer := s.buffer[s.readHead := blank])
       case Cleared(w) => s.(consumer := Waiting, readHead := Following(s.readHead, |s.buffer|), read := s.read + [w]))
  }

  /** The values the producer has published and the consumer has not yet delivered. */
  ghost function Pending<T>(s: State<T>): seq<T>
    requires Sized(s)
  {
    var slots := Between(s.buffer, s.readHead, s.writeHead);
    if s.consumer.Cleared? && slots != [] then [s.consumer.v] + slots[1..] else slots
  }

  ghost predicate Inv<T>(s: State<T>)
  {
    && Sized(s)
    && s.written == s.read + Pending(s)
    && (!s.producer.Free? ==> Following(s.writeHead, |s.buffer|) != s.readHead)
    && (s.producer.Stored? ==> s.buffer[s.writeHead] == s.producer.v)
    && (!s.consumer.Waiting? ==> s.readHead != s.writeHead)
    && (s.consumer.Copied? ==> s.buffer[s.readHead] == s.consumer.v)
  }

  function Init<T>(buffer: seq<T>): State<T>
  {
    State(buffer, 0, 0, Free, Waiting, [], [])
  }

  ghost function Exec<T>(buffer: seq<T>, blank: T, acts: seq<Action<T>>): (s: State<T>)
    requires buffer != []
    ensures |s.buffer| == |buffer| && Sized(s)
  {
    if acts == [] then Init(buffer) else Step(Exec(buffer, blank, acts[..|acts| - 1]), acts[|acts| - 1], blank)
  }

  lemma StoreKeepsOthers<T>(buffer: seq<T>, readHead: nat, writeHead: nat, v: T)
    requires readHead < |buffer| && writeHead < |buffer|
    ensures Between(buffer[writeHead := v], readHead, writeHead) == Between(buffer, readHead, writeHead)
  {
  }

  lemma ClearKeepsOthers<T>(buffer: seq<T>, readHead: nat, writeHead: nat, v: T)
    requires readHead < |buffer| && writeHead < |buffer| && readHead != writeHead
    ensures Between(buffer, readHead, writeHead) != []
    ensures Between(buffer, readHead, writeHead)[0] == buffer[readHead]
    ensures Between(buffer[readHead := v], readHead, writeHead) == [v] + Between(buffer, readHead, writeHead)[1..]
  {
  }

  lemma PublishGrows<T>(buffer: seq<T>, readHead: nat, writeHead: nat)
    requires readHead < |buffer| && writeHead < |buffer| && Following(writeHead, |buffer|) != readHead
    ensures Between(buffer, readHead, Following(writeHead, |buffer|))
      == Between(buffer, readHead, writeHead) + [buffer[writeHead]]
  {
  }

  lemma DeliverShrinks<T>(buffer: seq<T>, readHead: nat, writeHead: nat)
    requires readHead < |buffer| && writeHead < |buffer| && readHead != writeHead
    ensures Between(buffer, readHead, writeHead)
      == [buffer[readHead]] + Between(buffer, Following(readHead, |buffer|), writeHead)
  {
  }

  lemma StoreKeepsInv<T>(s: State<T>, a: Action<T>, blank: T)
    requires Inv(s) && a.Produce? && !s.producer.Stored?
    ensures Inv(Step(s, a, blank))
  {
    if s.producer.Checked? {
      StoreKeepsOthers(s.buffer, s.readHead, s.writeHead, s.producer.v);
    }
    hide Between, Following;
  }

  lemma PublishKeepsInv<T>(s: State<T>, a: Action<T>, blank: T)
    requires Inv(s) && a.Produce? && s.producer.Stored?
    ensures Inv(Step(s, a, blank))
  {
    PublishGrows(s.buffer, s.readHead, s.writeHead);
    var slots := Between(s.buffer, s.readHead, s.writeHead);
    if s.consumer.Cleared? {
      ClearKeepsOthers(s.buffer, s.readHead, s.writeHead, s.buffer[s.readHead]);
      assert (slots + [s.producer.v])[1..] == slots[1..] + [s.producer.v];
    }
    assert Step(s, a, blank).written == s.read + (Pending(s) + [s.producer.v]);
    hide Between;
  }

  lemma ClearKeepsInv<T>(s: State<T>, a: Action<T>, blank: T)
    requires Inv(s) && a.Consume? && !s.consumer.Cleared?
    ensures Inv(Step(s, a, blank))
  {
    if s.consumer.Copied? {
      ClearKeepsOthers(s.buffer, s.readHead, s.writeHead, blank);
      var slots := Between(s.buffer, s.readHead, s.writeHead);
      assert slots == [slots[0]] + slots[1..];
      assert ([blank] + slots[1..])[1..] == slots[1..];
    }
    hide Between, Following;
  }

  lemma DeliverKeepsInv<T>(s: State<T>, a: Action<T>, blank: T)
    requires Inv(s) && a.Consume? && s.consumer.Cleared?
    ensures Inv(Step(s, a, blank))
  {
    DeliverShrinks(s.buffer, s.readHead, s.writeHead);
    var rest := Between(s.buffer, Following(s.readHead, |s.buffer|), s.writeHead);
    assert ([s.buffer[s.readHead]] + rest)[1..] == rest;
    assert s.read + ([s.consumer.v] + rest) == (s.read + [s.consumer.v]) + rest;
    hide Between;
  }

  lemma {:induction false} InvHolds<T>(buffer: seq<T>, blank: T, acts: seq<Action<T>>)
    requires buffer != []
    ensures Inv(Exec(buffer, blank, acts))
  {
    if acts != [] {
      InvHolds(buffer, blank, acts[..|acts| - 1]);
      var s, a := Exec(buffer, blank, acts[..|acts| - 1]), acts[|acts| - 1];
      hide Inv, Step;
      if a.Produce? && s.producer.Stored? {
        PublishKeepsInv(s, a, blank);
      } else if a.Produce? {
        StoreKeepsInv(s, a, blank);
      } else if s.consumer.Cleared? {
        DeliverKeepsInv(s, a, blank);
      } else {
        ClearKeepsInv(s, a, blank);
      }
    }
  }

  /** Under every interleaving: what has been delivered is what was published first, in order; what has
      not been delivered is in the buffer, which never holds more than its size less one. */
  lemma FirstInFirstOut<T>(buffer: seq<T>, blank: T, acts: seq<Action<T>>)
    requires buffer != []
    ensures var s := Exec(buffer, blank, acts);
      s.written == s.read + Pending(s) && |s.written| - |s.read| <= |buffer| - 1
  {
    InvHolds(buffer, blank, acts);
  }

  /** Between its check and its publication each side works on one slot; the slots are never the same. */
  lemma SlotsApart<T>(buffer: seq<T>, blank: T, acts: seq<Action<T>>)
    requires buffer != []
    requires !Exec(buffer, blank, acts).producer.Free? && !Exec(buffer, blank, acts).consumer.Waiting?
    ensures Exec(buffer, blank, acts).writeHead != Exec(buffer, blank, acts).readHead
  {
    InvHolds(buffer, blank, acts);
  }

  /** A producer that finds the buffer full has published exactly as many values more than were delivered
      as fit; a consumer that finds it empty has delivered everything published. */
  lemma RefusalsJustified<T>(buffer: seq<T>, blank: T, acts: seq<Action<T>>)
    requires buffer != []
    ensures var s := Exec(buffer, blank, acts);
      && (Following(s.writeHead, |buffer|) == s.readHead <==> |s.written| - |s.read| == |buffer| - 1)
      && (s.readHead == s.writeHead <==> s.written == s.read)
  {
    InvHolds(buffer, blank, acts);
    var s := Exec(buffer, blank, acts);
    assert |Pending(s)| == |Between(s.buffer, s.readHead, s.writeHead)|;
  }

  lemma ExecMore<T>(buffer: seq<T>, blank: T, acts: seq<Action<T>>, a: Action<T>)
    requires buffer != []
    ensures Exec(buffer, blank, acts + [a]) == Step(Exec(buffer, blank, acts), a, blank)
  {
    assert (acts + [a])[..|acts|] == acts;
  }

  /** In every run the three steps of a producer that is between values publish its value, unless exactly
      size - 1 values are still to be delivered; then they change nothing. */
  lemma PublishesIff<T>(buffer: seq<T>, blank: T, acts: seq<Action<T>>, v: T)
    requires buffer != [] && Exec(buffer, blank, acts).producer.Free?
    ensures var s := Exec(buffer, blank, acts);
      var t := Exec(buffer, blank, acts + [Produce(v)] + [Produce(v)] + [Produce(v)]);
      && t.producer.Free? && t.read == s.read && t.consumer == s.consumer
      && t.written == if |s.written| - |s.read| == |buffer| - 1 then s.written else s.written + [v]
  {
    RefusalsJustified(buffer, blank, acts);
    ExecMore(buffer, blank, acts, Produce(v));
    ExecMore(buffer, blank, acts + [Produce(v)], Produce(v));
    ExecMore(buffer, blank, acts + [Produce(v)] + [Produce(v)], Produce(v));
    hide Exec;
  }

  /** And the four steps of a consumer deliver the oldest value that is still to be delivered, unless there
      is none. */
  lemma DeliversIff<T>(buffer: seq<T>, blank: T, acts: seq<Action<T>>)
    requires buffer != [] && Exec(buffer, blank, acts).consumer.Waiting?
    ensures var s := Exec(buffer, blank, acts);
      var t := Exec(buffer, blank, acts + [Consume] + [Consume] + [Consume] + [Consume]);
      && t.consumer.Waiting? && t.written == s.written && t.producer == s.producer
      && t.read <= s.written && |t.read| == if s.written == s.read then |s.read| else |s.read| + 1
  {
    var four := acts + [Consume] + [Consume] + [Consume] + [Consume];
    RefusalsJustified(buffer, blank, acts);
    FirstInFirstOut(buffer, blank, acts);
    FirstInFirstOut(buffer, blank, four);
    ExecMore(buffer, blank, acts, Consume);
    ExecMore(buffer, blank, acts + [Consume], Consume);
    ExecMore(buffer, blank, acts + [Consume] + [Consume], Consume);
    ExecMore(buffer, blank, acts + [Consume] + [Consume] + [Consume], Consume);
    hide Exec, Pending;
  }

  /** The slots without an element are blank, but for one that has been stored and is not yet published; the
      one that has been cleared is blank already. */
  ghost predicate Blanked<T>(s: State<T>, blank: T)
  {
    && (forall i :: 0 <= i < |s.buffer| ==>
          || Within(i, s.readHead, s.writeHead) || (s.producer.Stored? && i == s.writeHead)
          || s.buffer[i] == blank)
    && (s.consumer.Cleared? && s.readHead < |s.buffer| ==> s.buffer[s.readHead] == blank)
  }

  lemma StepKeepsBlanked<T>(s: State<T>, a: Action<T>, blank: T)
    requires Inv(s) && Blanked(s, blank)
    ensures Blanked(Step(s, a, blank), blank)
  {
    hide Pending;
  }

  /** In every run from a blank buffer no slot keeps what has been delivered: with both sides between two
      values, every slot without a value that is still to be delivered is blank. */
  lemma {:induction false} NothingKept<T>(buffer: seq<T>, blank: T, acts: seq<Action<T>>)
    requires buffer != [] && forall i :: 0 <= i < |buffer| ==> buffer[i] == blank
    ensures Blanked(Exec(buffer, blank, acts), blank)
    ensures var s := Exec(buffer, blank, acts);
      s.producer.Free? ==> Clean(s.buffer, s.readHead, s.writeHead, blank)
  {
    if acts != [] {
      NothingKept(buffer, blank, acts[..|acts| - 1]);
      InvHolds(buffer, blank, acts[..|acts| - 1]);
      StepKeepsBlanked(Exec(buffer, blank, acts[..|acts| - 1]), acts[|acts| - 1], blank);
      hide Inv, Step;
    }
  }
}
