/**
 Nothing is invented between a publisher and the store: whatever a broker started on an empty
 store ever keeps, queues or is about to write came from an accepted packet, under that packet's
 own stream, with its own bytes but for the number stamped on it, which is the key's, and with
 the time at which some packet was numbered.
 */
module Provenance {
  import opened ByteStrings
  import opened KeyCodec
  import opened StoreModel
  import opened StoreIndex
  import opened Pipeline
  import opened EndToEnd

  predicate Accepted(moves: seq<Move>, p: Packet) { Internal(Accept(p)) in moves }

  /** An accepted packet, up to its number. */
  ghost predicate Known(moves: seq<Move>, q: Packet) {
    exists p :: Accepted(moves, p) && q == Stamp(p, q.sequenceNumber)
  }

  ghost predicate AllKnown(moves: seq<Move>, ps: seq<Packet>) { forall i :: 0 <= i < |ps| ==> Known(moves, ps[i]) }

  /** The clock read this when the propagator took a packet. */
  predicate Dequeued(moves: seq<Move>, at: I64) { Internal(Dequeue(at)) in moves }

  /** An accepted packet, up to its number, with a time read while numbering. */
  ghost predicate KnownItem(moves: seq<Move>, item: Received) {
    Known(moves, item.packet) && Dequeued(moves, item.at)
  }

  ghost predicate ItemsKnown(moves: seq<Move>, items: seq<Received>) {
    forall i :: 0 <= i < |items| ==> KnownItem(moves, items[i])
  }

  /** A stored packet that p accounts for: p's bytes, stamped with the number the key carries. */
  predicate Explains(p: Packet, k: Bytes, v: Bytes) {
    && Encodable(p.identifier)
    && |k| == PACKET_KEY_LENGTH && StreamKey(p.identifier) == Ok(StreamOf(k))
    && |v| >= PACKETS_HEADER_LENGTH && PayloadOf(v) == Serialized(Stamp(p, SequenceOf(k)))
  }

  ghost predicate Explained(moves: seq<Move>, k: Bytes, v: Bytes) {
    exists p :: Accepted(moves, p) && Explains(p, k, v) && Dequeued(moves, ReceivedAt(v))
  }

  ghost predicate StoreExplained(moves: seq<Move>, packets: map<Bytes, Bytes>) {
    forall k | k in packets :: Explained(moves, k, packets[k])
  }

  ghost predicate Sourced(moves: seq<Move>, y: System) {
    && AllKnown(moves, y.pipe.importQueue)
    && AllKnown(moves, y.pipe.publishQueue)
    && ItemsKnown(moves, y.pipe.storeQueue)
    && ItemsKnown(moves, InFlight(y.pipe))
    && ItemsKnown(moves, y.held)
    && StoreExplained(moves, y.db.packets)
  }

  lemma KnownLonger(moves: seq<Move>, m: Move, q: Packet)
    requires Known(moves, q)
    ensures Known(moves + [m], q)
  {
    var p :| Accepted(moves, p) && q == Stamp(p, q.sequenceNumber);
    assert Accepted(moves + [m], p);
  }

  lemma DequeuedLonger(moves: seq<Move>, m: Move, at: I64)
    requires Dequeued(moves, at)
    ensures Dequeued(moves + [m], at)
  {
  }

  lemma ExplainedLonger(moves: seq<Move>, m: Move, k: Bytes, v: Bytes)
    requires Explained(moves, k, v)
    ensures Explained(moves + [m], k, v)
  {
    hide StreamKey, Serialized, Decode64;
    var p :| Accepted(moves, p) && Explains(p, k, v) && Dequeued(moves, ReceivedAt(v));
    assert Accepted(moves + [m], p) && Dequeued(moves + [m], ReceivedAt(v));
  }

  lemma SourcedLonger(moves: seq<Move>, m: Move, y: System)
    requires Sourced(moves, y)
    ensures Sourced(moves + [m], y)
  {
    hide Explained, Known, Dequeued;
    forall at | Dequeued(moves, at) ensures Dequeued(moves + [m], at) {
      DequeuedLonger(moves, m, at);
    }
    forall q | Known(moves, q) ensures Known(moves + [m], q) {
      KnownLonger(moves, m, q);
    }
    forall k, v | Explained(moves, k, v) ensures Explained(moves + [m], k, v) {
      ExplainedLonger(moves, m, k, v);
    }
  }

  lemma KnownItemExplains(moves: seq<Move>, item: Received)
    requires KnownItem(moves, item) && Keyable(item)
    ensures Explained(moves, KeyOf(item), EncodeValue(item.at, Serialized(item.packet)))
  {
    hide StreamKey, Encodable, PacketKey;
    var p :| Accepted(moves, p) && item.packet == Stamp(p, item.packet.sequenceNumber);
    ItemKeyParts(item);
    ValueRoundTrip(item.at, Serialized(item.packet));
    KeyableStreamKey(item);
    assert Explains(p, KeyOf(item), EncodeValue(item.at, Serialized(item.packet)));
  }

  lemma KeyableStreamKey(item: Received)
    requires Keyable(item)
    ensures StreamKey(item.packet.identifier) == Ok(StreamKeyOf(item))
  {
  }

  lemma WriteStaysExplained(moves: seq<Move>, db: Database, items: seq<Received>)
    requires StoreExplained(moves, db.packets) && ItemsKnown(moves, items)
    ensures StoreExplained(moves, InsertAll(db, items).packets)
  {
    hide Explained, InsertAll, KnownItem, StreamKey, PacketKey, Encodable;
    var after := InsertAll(db, items).packets;
    forall k | k in after ensures Explained(moves, k, after[k]) {
      if exists i :: 0 <= i < |items| && Keyable(items[i]) && KeyOf(items[i]) == k {
        var i := LastWriterOf(items, k);
        LastOneWins(db, items, i);
        KnownItemExplains(moves, items[i]);
      } else {
        WriteTouchesOnlyItsKeys(db, items, k);
      }
    }
  }

  lemma TruncateStaysExplained(moves: seq<Move>, db: Database, n: U64)
    requires StoreExplained(moves, db.packets)
    ensures StoreExplained(moves, Truncate(db, n).packets)
  {
    hide Explained, Purged;
  }

  lemma RoomStaysKnown(moves: seq<Move>, q: seq<Packet>, room: seq<Packet>, p: Packet)
    requires AllKnown(moves, q) && |room| <= |q| && room == q[|q| - |room|..] && Known(moves, p)
    ensures AllKnown(moves, room + [p])
  {
    hide Known;
  }

  lemma RoomItemsStayKnown(moves: seq<Move>, q: seq<Received>, room: seq<Received>, item: Received)
    requires ItemsKnown(moves, q) && |room| <= |q| && room == q[|q| - |room|..] && KnownItem(moves, item)
    ensures ItemsKnown(moves, room + [item])
  {
    hide KnownItem;
  }

  lemma StampedStaysKnown(moves: seq<Move>, q: Packet, n: U64)
    requires Known(moves, q)
    ensures Known(moves, Stamp(q, n))
  {
    var p :| Accepted(moves, p) && q == Stamp(p, q.sequenceNumber);
    assert Stamp(q, n) == Stamp(p, n);
  }

  lemma StepStaysSourced(moves: seq<Move>, y: System, e: Event)
    requires Sourced(moves, y) && (e.Accept? ==> Known(moves, e.packet)) && (e.Dequeue? ==> Dequeued(moves, e.now))
    ensures Sourced(moves, y.(pipe := Step(y.pipe, e)))
  {
    hide Known, StoreExplained, Dequeued;
    var s := y.pipe;
    match e
    case Accept(p) => RoomStaysKnown(moves, s.importQueue, ImportRoom(s.importQueue), p);
    case Reject(_) =>
    case Dequeue(now) =>
      if s.flight.Idle? && s.importQueue != [] {
        StampedStaysKnown(moves, s.importQueue[0], Next(s.counter));
      }
    case PushPublish =>
      if s.flight.Numbered? {
        assert InFlight(s)[0] == s.flight.held;
        RoomStaysKnown(moves, s.publishQueue, MakeRoom(s.publishQueue, OUTPUT_LIMIT), s.flight.held.packet);
      }
    case PushStore =>
      if s.flight.Published? {
        assert InFlight(s)[0] == s.flight.held;
        RoomItemsStayKnown(moves, s.storeQueue, MakeRoom(s.storeQueue, OUTPUT_LIMIT), s.flight.held);
      }
    case PublishPop =>
    case StoreDrain =>
  }

  lemma AdvanceStaysSourced(moves: seq<Move>, y: System, m: Move)
    requires Sourced(moves, y)
    ensures Sourced(moves + [m], Advance(y, m))
  {
    hide Known, StoreExplained, Step;
    var longer := moves + [m];
    SourcedLonger(moves, m, y);
    match m
    case Internal(e) =>
      if e.Accept? {
        JustAccepted(longer, e.packet);
      }
      if !e.StoreDrain? {
        StepStaysSourced(longer, y, e);
      }
    case Collect =>
      if y.held == [] {
        StepStaysSourced(longer, y, StoreDrain);
      }
    case WriteHeld(commits) =>
      if commits { WriteStaysExplained(longer, y.db, y.held); }
    case Truncation(n, commits) =>
      if commits { TruncateStaysExplained(longer, y.db, n); }
    case Restart =>
  }

  lemma JustAccepted(moves: seq<Move>, p: Packet)
    requires Internal(Accept(p)) in moves
    ensures Known(moves, p)
  {
    assert Accepted(moves, p) && p == Stamp(p, p.sequenceNumber);
  }

  /** Holds after any moves from an empty store, restarts, truncations and failed commits included. */
  lemma {:induction false} NothingIsInvented(moves: seq<Move>)
    ensures Sourced(moves, After(Started(EMPTY), moves))
  {
    hide Sourced, Advance;
    if moves == [] {
      EmptySourced();
    } else {
      var init, m := moves[..|moves| - 1], moves[|moves| - 1];
      NothingIsInvented(init);
      AdvanceStaysSourced(init, After(Started(EMPTY), init), m);
      assert init + [m] == moves;
    }
  }

  lemma EmptySourced()
    ensures Sourced([], Started(EMPTY))
  {
  }
}
