/**
 The broker between its publishers and its two outputs: a bounded import queue, one propagator
 that numbers packets, and bounded publish and store queues. Each critical section is one step;
 the propagator holds its packet across three of them.
 */
module Pipeline {
  import opened ByteStrings
  import opened KeyCodec
  import opened StoreModel

  const IMPORT_LIMIT: nat := 8192
  const OUTPUT_LIMIT: nat := 4096

  /** Where the propagator is: between packets, or holding one it has numbered. */
  datatype Flight =
    | Idle
    | Numbered(held: Received)
    | Published(held: Received)

  datatype State = State(
    importQueue: seq<Packet>,
    publishQueue: seq<Packet>,
    storeQueue: seq<Received>,
    counter: U64,
    flight: Flight)

  /** A critical section, with what its surroundings supply. */
  datatype Event =
    | Accept(packet: Packet)
    | Reject(packet: Packet)
    | Dequeue(now: I64)
    | PushPublish
    | PushStore
    | PublishPop
    | StoreDrain

  function Initial(recovered: U64): State { State([], [], [], recovered, Idle) }

  /** Keeps the newest elements so that one more fits the limit. */
  function MakeRoom<T>(q: seq<T>, limit: nat): (r: seq<T>)
    requires limit > 0
    ensures |r| < limit
    ensures |r| <= |q| && r == q[|q| - |r|..]
    ensures |q| < limit ==> r == q
    ensures |q| >= limit ==> |r| == limit - 1
  {
    if |q| >= limit then q[|q| - (limit - 1)..] else q
  }

  /** The import queue only makes room once it is past its limit, down to one below it. */
  function ImportRoom(q: seq<Packet>): (r: seq<Packet>)
    ensures |q| <= IMPORT_LIMIT ==> r == q
    ensures |q| > IMPORT_LIMIT ==> |r| + 1 == IMPORT_LIMIT
  {
    if |q| > IMPORT_LIMIT then MakeRoom(q, IMPORT_LIMIT) else q
  }

  /** What an overfull import queue keeps is its newest packets, in order. */
  lemma ImportKeepsNewest(q: seq<Packet>)
    ensures |ImportRoom(q)| <= |q| && ImportRoom(q) == q[|q| - |ImportRoom(q)|..]
    ensures |ImportRoom(q)| == if |q| > IMPORT_LIMIT then IMPORT_LIMIT - 1 else |q|
  {
  }

  function Stamp(p: Packet, n: U64): Packet { p.(sequenceNumber := n) }

  function Next(counter: U64): U64 { (counter + 1) % TWO64 }

  function Step(s: State, e: Event): State {
    match e
    case Accept(p) => s.(importQueue := ImportRoom(s.importQueue) + [p])
    case Reject(_) => s
    case Dequeue(now) =>
      if s.flight.Idle? && s.importQueue != []
      then s.(importQueue := s.importQueue[1..], counter := Next(s.counter),
              flight := Numbered(Received(now, Stamp(s.importQueue[0], Next(s.counter)))))
      else s
    case PushPublish =>
      if s.flight.Numbered?
      then s.(publishQueue := MakeRoom(s.publishQueue, OUTPUT_LIMIT) + [s.flight.held.packet],
              flight := Published(s.flight.held))
      else s
    case PushStore =>
      if s.flight.Published?
      then s.(storeQueue := MakeRoom(s.storeQueue, OUTPUT_LIMIT) + [s.flight.held], flight := Idle)
      else s
    case PublishPop =>
      if s.publishQueue != [] then s.(publishQueue := s.publishQueue[1..]) else s
    case StoreDrain => s.(storeQueue := [])
  }

  // -------------------------------------------------------------- as it is run

  /** Pops from the front until one more element fits. */
  method PopDownTo<T>(q: seq<T>, limit: nat) returns (r: seq<T>, popped: nat)
    requires limit > 0
    ensures r == MakeRoom(q, limit)
    ensures popped == |q| - |r|
  {
    r, popped := q, 0;
    while |r| >= limit
      invariant popped <= |q| && r == q[popped..]
      invariant popped > 0 ==> |r| >= limit - 1
    {
      r := r[1..];
      popped := popped + 1;
    }
  }

  class Broker {
    var importQueue: seq<Packet>
    var publishQueue: seq<Packet>
    var storeQueue: seq<Received>
    var globalSequenceNumber: U64
    var flight: Flight

    function Now(): State
      reads this
    {
      State(importQueue, publishQueue, storeQueue, globalSequenceNumber, flight)
    }

    /** Numbering resumes after what the store last held. */
    constructor (recovered: U64)
      ensures Now() == Initial(recovered)
    {
      importQueue, publishQueue, storeQueue := [], [], [];
      globalSequenceNumber := recovered;
      flight := Idle;
    }

    /** Accepts a valid packet; an invalid one is refused and leaves the queue alone. */
    method AddPacketCallback(packet: Packet, valid: bool) returns (accepted: bool, popped: nat)
      modifies this
      ensures accepted == valid
      ensures Now() == Step(old(Now()), if valid then Accept(packet) else Reject(packet))
      ensures popped == if valid then old(|importQueue|) + 1 - |importQueue| else 0
    {
      popped := 0;
      if !valid {
        return false, 0;
      }
      if |importQueue| > IMPORT_LIMIT {
        importQueue, popped := PopDownTo(importQueue, IMPORT_LIMIT);
      }
      importQueue := importQueue + [packet];
      accepted := true;
    }

    /** First section of the propagator: take the oldest import and number it. */
    method TakeAndNumber(now: I64) returns (got: bool)
      requires flight.Idle?
      modifies this
      ensures got == (old(importQueue) != [])
      ensures Now() == Step(old(Now()), Dequeue(now))
      ensures got ==> flight.Numbered? && flight.held.at == now &&
                      flight.held.packet == old(importQueue)[0].(sequenceNumber := globalSequenceNumber)
    {
      got := importQueue != [];
      if got {
        var packet := importQueue[0];
        importQueue := importQueue[1..];
        globalSequenceNumber := (globalSequenceNumber + 1) % TWO64;
        packet := packet.(sequenceNumber := globalSequenceNumber);
        flight := Numbered(Received(now, packet));
      }
    }

    /** Second section: enqueue for publication. */
    method EnqueueForPublication() returns (popped: nat)
      requires flight.Numbered?
      modifies this
      ensures Now() == Step(old(Now()), PushPublish)
      ensures popped == old(|publishQueue|) + 1 - |publishQueue|
    {
      publishQueue, popped := PopDownTo(publishQueue, OUTPUT_LIMIT);
      publishQueue := publishQueue + [flight.held.packet];
      flight := Published(flight.held);
    }

    /** Third section: enqueue for the data store. */
    method EnqueueForStore() returns (popped: nat)
      requires flight.Published?
      modifies this
      ensures Now() == Step(old(Now()), PushStore)
      ensures popped == old(|storeQueue|) + 1 - |storeQueue|
    {
      storeQueue, popped := PopDownTo(storeQueue, OUTPUT_LIMIT);
      storeQueue := storeQueue + [flight.held];
      flight := Idle;
    }

    /** The publisher's pop. */
    method TakeForPublication() returns (packet: Option<Packet>)
      modifies this
      ensures packet == if old(publishQueue) == [] then None else Some(old(publishQueue)[0])
      ensures Now() == Step(old(Now()), PublishPop)
    {
      packet := None;
      if publishQueue != [] {
        packet := Some(publishQueue[0]);
        publishQueue := publishQueue[1..];
      }
    }

    /** The store writer's drain: everything queued, oldest first. */
    method DrainForStore() returns (batch: seq<Received>)
      modifies this
      ensures batch == old(storeQueue)
      ensures Now() == Step(old(Now()), StoreDrain)
    {
      batch := [];
      while storeQueue != []
        invariant batch + storeQueue == old(storeQueue)
        invariant Now() == old(Now()).(storeQueue := storeQueue)
        decreases |storeQueue|
      {
        batch := batch + [storeQueue[0]];
        storeQueue := storeQueue[1..];
      }
    }
  }
}
