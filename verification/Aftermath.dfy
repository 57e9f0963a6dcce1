/**
 What becomes of a packet whose number lies above the recovered maximum, as the truncation race
 leaves one: the restarted broker counts up to that number again and writes over the packet.
 */
module Aftermath {
  import opened ByteStrings
  import opened KeyCodec
  import opened StoreModel
  import opened StoreIndex
  import opened Snapshots
  import opened TruncationRace
  import opened Pipeline
  import opened EndToEnd

  /** One packet's way through the broker: accepted, numbered, queued for both outputs, drained and written. */
  function Trip(arrival: Received): seq<Move> {
    [Internal(Accept(arrival.packet)), Internal(Dequeue(arrival.at)), Internal(PushPublish), Internal(PushStore),
     Collect, WriteHeld(true)]
  }

  /** The packets of some arrivals, each through before the next arrives. */
  function Trips(arrivals: seq<Received>): seq<Move> {
    if arrivals == [] then [] else Trips(arrivals[..|arrivals| - 1]) + Trip(arrivals[|arrivals| - 1])
  }

  /** Nothing is under way. */
  predicate Quiet(y: System) {
    y.held == [] && y.pipe.importQueue == [] && y.pipe.storeQueue == [] && y.pipe.flight.Idle?
  }

  lemma {:induction false} AfterConcat(y: System, a: seq<Move>, b: seq<Move>)
    ensures After(y, a + b) == After(After(y, a), b)
    decreases |b|
  {
    hide Advance;
    if b == [] {
      assert a + b == a;
    } else {
      var init := b[..|b| - 1];
      assert (a + b)[..|a + b| - 1] == a + init;
      AfterConcat(y, a, init);
    }
  }

  lemma AfterNone(y: System)
    ensures After(y, []) == y
  {
  }

  lemma AfterSnoc(y: System, moves: seq<Move>, m: Move)
    ensures After(y, moves + [m]) == Advance(After(y, moves), m)
  {
    assert (moves + [m])[..|moves|] == moves;
  }

  /** Up to the write, a trip turns the packet into the one held item. */
  lemma TripUntilWrite(y: System, arrival: Received)
    requires Quiet(y)
    ensures var stamped := Received(arrival.at, Stamp(arrival.packet, Next(y.pipe.counter)));
            var y' := Advance(Advance(Advance(Advance(Advance(y, Internal(Accept(arrival.packet))),
                        Internal(Dequeue(arrival.at))), Internal(PushPublish)), Internal(PushStore)), Collect);
            && y'.held == [stamped] && y'.db == y.db && y'.pipe.counter == Next(y.pipe.counter)
            && y'.pipe.importQueue == [] && y'.pipe.storeQueue == [] && y'.pipe.flight.Idle?
  {
    hide InsertAll, Truncate;
    var y1 := Advance(y, Internal(Accept(arrival.packet)));
    assert y1.pipe.importQueue == [arrival.packet];
  }

  lemma TripWrites(y: System, arrival: Received)
    requires Quiet(y)
    ensures var y' := After(y, Trip(arrival));
            && Quiet(y') && y'.pipe.counter == Next(y.pipe.counter)
            && y'.db == InsertAll(y.db, [Received(arrival.at, Stamp(arrival.packet, Next(y.pipe.counter)))])
  {
    hide InsertAll, Truncate, After;
    AfterNone(y);
    var (a, b, c, d) := (Internal(Accept(arrival.packet)), Internal(Dequeue(arrival.at)), Internal(PushPublish),
                         Internal(PushStore));
    TripUntilWrite(y, arrival);
    assert [] + [a] == [a] && [a] + [b] == [a, b] && [a, b] + [c] == [a, b, c] && [a, b, c] + [d] == [a, b, c, d];
    assert [a, b, c, d] + [Collect] == [a, b, c, d, Collect];
    assert [a, b, c, d, Collect] + [WriteHeld(true)] == Trip(arrival);
    AfterSnoc(y, [], a);
    AfterSnoc(y, [a], b);
    AfterSnoc(y, [a, b], c);
    AfterSnoc(y, [a, b, c], d);
    AfterSnoc(y, [a, b, c, d], Collect);
    AfterSnoc(y, [a, b, c, d, Collect], WriteHeld(true));
  }

  lemma {:induction false} TripsCount(y: System, arrivals: seq<Received>)
    requires Quiet(y) && y.pipe.counter + |arrivals| < TWO64
    ensures Quiet(After(y, Trips(arrivals)))
    ensures After(y, Trips(arrivals)).pipe.counter == y.pipe.counter + |arrivals|
  {
    hide Quiet, Trip, Advance;
    if arrivals != [] {
      var n := |arrivals| - 1;
      TripsCount(y, arrivals[..n]);
      assert arrivals == arrivals[..n] + [arrivals[n]];
      TripsSnoc(y, arrivals[..n], arrivals[n]);
      TripWrites(After(y, Trips(arrivals[..n])), arrivals[n]);
    }
  }

  lemma TripsSnoc(y: System, arrivals: seq<Received>, last: Received)
    ensures After(y, Trips(arrivals + [last])) == After(After(y, Trips(arrivals)), Trip(last))
  {
    hide Trip, Advance;
    assert (arrivals + [last])[..|arrivals|] == arrivals;
    AfterConcat(y, Trips(arrivals), Trip(last));
  }

  /** One more arrival is stored under the number counted up to it. */
  lemma LastTrip(y: System, arrivals: seq<Received>, last: Received) returns (earlier: Database)
    requires Quiet(y) && y.pipe.counter + |arrivals| + 1 < TWO64
    ensures After(y, Trips(arrivals + [last])).db ==
            Insert(earlier, Received(last.at, Stamp(last.packet, y.pipe.counter + |arrivals| + 1)))
  {
    hide Quiet, Trip, Trips, After, InsertAll, Insert;
    TripsCount(y, arrivals);
    TripsSnoc(y, arrivals, last);
    TripWrites(After(y, Trips(arrivals)), last);
    earlier := After(y, Trips(arrivals)).db;
    OneItem(earlier, Received(last.at, Stamp(last.packet, y.pipe.counter + |arrivals| + 1)));
  }

  /**
   A stored packet numbered above the recovered maximum is lost: a broker started on that store
   gives its number to a later packet, and if that one is of the same stream it takes its place.
   */
  lemma UnregisteredIsOverwritten(db: Database, k: Bytes, arrivals: seq<Received>, last: Received)
    requires k in db.packets && |k| == PACKET_KEY_LENGTH
    requires GlobalMax(db.streams) + |arrivals| + 1 == SequenceOf(k)
    requires StreamKey(last.packet.identifier) == Ok(StreamOf(k))
    ensures var packets := After(Started(db), Trips(arrivals + [last])).db.packets;
            k in packets && packets[k] == EncodeValue(last.at, Serialized(Stamp(last.packet, SequenceOf(k))))
  {
    hide Trips, After, Insert, StreamKey, EncodeValue, Serialized, Decode64, IsGlobalMax;
    var earlier := LastTrip(Started(db), arrivals, last);
    LandsOn(earlier, Received(last.at, Stamp(last.packet, SequenceOf(k))), k);
  }

  lemma LandsOn(db: Database, item: Received, k: Bytes)
    requires |k| == PACKET_KEY_LENGTH && SequenceOf(k) == item.packet.sequenceNumber
    requires StreamKey(item.packet.identifier) == Ok(StreamOf(k))
    ensures k in Insert(db, item).packets
    ensures Insert(db, item).packets[k] == EncodeValue(item.at, Serialized(item.packet))
  {
    hide EncodeValue, Serialized;
    assert Keyable(item) && StreamKeyOf(item) == StreamOf(k);
    PacketKeyRejoin(k);
  }

  /** The end of the smallest race: a restart begins at 1 again, and the second arrival replaces the survivor. */
  lemma RaceLosesPacket(s: Bytes, at: I64, payload: Bytes, first: Received, second: Received)
    requires |s| == STREAM_KEY_LENGTH && StreamKey(second.packet.identifier) == Ok(s)
    ensures var one := Put(EMPTY, s, 1, at, payload);
            var raced := StalePurge(one.streams, Put(one, s, 2, at, payload), 2);
            var k := s + Encode64(2);
            && raced == Database(map[k := EncodeValue(at, payload)], map[])
            && Started(raced).pipe.counter == 0
            && After(Started(raced), Trips([first, second])).db.packets.Keys >= {k}
            && After(Started(raced), Trips([first, second])).db.packets[k] ==
               EncodeValue(second.at, Serialized(Stamp(second.packet, 2)))
  {
    hide EncodeEntry, DecodeEntry, EncodeValue, Encode64, Decode64, StreamKey, Serialized, Trips, Advance, StalePurge;
    var one := Put(EMPTY, s, 1, at, payload);
    var raced := StalePurge(one.streams, Put(one, s, 2, at, payload), 2);
    var k := s + Encode64(2);
    RaceOutcome(s, at, payload);
    PacketKeyParts(s, 2);
    GlobalMaxUnique(raced.streams, 0);
    UnregisteredIsOverwritten(raced, k, [first], second);
    assert [first] + [second] == [first, second];
  }

  lemma RaceOutcome(s: Bytes, at: I64, payload: Bytes)
    requires |s| == STREAM_KEY_LENGTH
    ensures var one := Put(EMPTY, s, 1, at, payload);
            StalePurge(one.streams, Put(one, s, 2, at, payload), 2) ==
            Database(map[s + Encode64(2) := EncodeValue(at, payload)], map[])
  {
    hide EncodeEntry, DecodeEntry, EncodeValue, Encode64, Decode64, Less;
    var one := Put(EMPTY, s, 1, at, payload);
    var two := Put(one, s, 2, at, payload);
    PutEntry(EMPTY, s, 1, at, payload);
    PacketKeyParts(s, 1);
    PacketKeyParts(s, 2);
    RangeIsOlderTail(s, 2, s + Encode64(1));
    RangeIsOlderTail(s, 2, s + Encode64(2));
    assert EntryOf(one.streams, s) == Entry(1, 1, at);
    assert Selected(one.streams, s, 2) && Reaped(one.streams, s, 2);
    assert one.streams.Keys == {s} && two.streams.Keys == {s};
    assert two.packets.Keys == {s + Encode64(1), s + Encode64(2)};
    var raced := StalePurge(one.streams, two, 2);
    assert raced.streams == map[];
    assert s in one.streams && InRange(s, 2, s + Encode64(1));
    assert raced.packets == map[s + Encode64(2) := EncodeValue(at, payload)];
  }
}
