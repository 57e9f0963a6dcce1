/**
 The packet store as the code runs it: write batches, an aggregate per stream merged in no
 particular order, per-stream byte-range deletes, and iterator scans. Every method is tied to
 the loop-free description in StoreModel. Whether a commit succeeds is a parameter.
 */
module RocksStore {
  import opened ByteStrings
  import opened KeyCodec
  import opened StoreModel
  import opened Snapshots

  /** One operation of a write batch. */
  datatype Op =
    | PutPacket(key: Bytes, value: Bytes)
    | PutStream(key: Bytes, value: Bytes)
    | DeleteStream(key: Bytes)
    | DeletePacketRange(begin: Bytes, end: Bytes)

  function ApplyOp(db: Database, op: Op): Database {
    match op
    case PutPacket(key, value) => db.(packets := db.packets[key := value])
    case PutStream(key, value) => db.(streams := db.streams[key := value])
    case DeleteStream(key) => db.(streams := db.streams - {key})
    case DeletePacketRange(begin, end) =>
      db.(packets := map k | k in db.packets && !(!Less(k, begin) && Less(k, end)) :: db.packets[k])
  }

  /** A batch applies in order, as a whole. */
  function ApplyAll(db: Database, batch: seq<Op>): Database {
    if batch == [] then db else ApplyOp(ApplyAll(db, batch[..|batch| - 1]), batch[|batch| - 1])
  }

  lemma ApplySnoc(db: Database, batch: seq<Op>, op: Op)
    ensures ApplyAll(db, batch + [op]) == ApplyOp(ApplyAll(db, batch), op)
  {
    assert (batch + [op])[..|batch|] == batch;
  }

  /** The aggregate kept per stream while a batch is filled agrees with inserting one by one. */
  ghost predicate AggregateAgrees(registry: map<Bytes, Bytes>, aggregate: map<Bytes, Entry>, after: map<Bytes, Bytes>) {
    && (forall s | s in aggregate :: s in after && after[s] == EncodeEntry(Merged(registry, s, aggregate[s])))
    && (forall s | s !in aggregate :: s in registry <==> s in after)
    && (forall s | s !in aggregate && s in registry :: after[s] == registry[s])
  }

  function Widen(aggregate: map<Bytes, Entry>, s: Bytes, e: Entry): map<Bytes, Entry> {
    aggregate[s := if s in aggregate then MergeEntries(aggregate[s], e) else e]
  }

  /** Merging is associative, so aggregating first and merging once is merging each time. */
  lemma MergedTwice(streams: map<Bytes, Bytes>, s: Bytes, a: Entry, b: Entry)
    ensures Merged(streams[s := EncodeEntry(Merged(streams, s, a))], s, b) ==
            Merged(streams, s, MergeEntries(a, b))
  {
    EntryRoundTrip(Merged(streams, s, a));
  }

  lemma MergedCongruent(a: map<Bytes, Bytes>, b: map<Bytes, Bytes>, s: Bytes, e: Entry)
    requires s in a <==> s in b
    requires s in a ==> a[s] == b[s]
    ensures Merged(a, s, e) == Merged(b, s, e)
  {
  }

  lemma AggregateStep(registry: map<Bytes, Bytes>, aggregate: map<Bytes, Entry>, after: Database, item: Received)
    requires AggregateAgrees(registry, aggregate, after.streams) && Keyable(item)
    ensures AggregateAgrees(registry, Widen(aggregate, StreamKeyOf(item), SingleEntry(item)),
                            Insert(after, item).streams)
  {
    var s := StreamKeyOf(item);
    var e := SingleEntry(item);
    if s in aggregate {
      MergedTwice(registry, s, aggregate[s], e);
      MergedCongruent(after.streams, registry[s := EncodeEntry(Merged(registry, s, aggregate[s]))], s, e);
    } else {
      MergedCongruent(after.streams, registry, s, e);
    }
  }

  /** The registry values put for the aggregates. */
  function MergedEntries(registry: map<Bytes, Bytes>, aggregate: map<Bytes, Entry>): map<Bytes, Bytes> {
    map s | s in aggregate :: EncodeEntry(Merged(registry, s, aggregate[s]))
  }

  /** One aggregate per touched stream, merged once, is the registry part of the write. */
  lemma AggregatesSuffice(registry: map<Bytes, Bytes>, aggregate: map<Bytes, Entry>, items: seq<Received>)
    requires AggregateAgrees(registry, aggregate, InsertAll(Database(map[], registry), items).streams)
    requires forall s :: s in aggregate <==> Touches(items, s)
    ensures MergedEntries(registry, aggregate) == StaleEntries(registry, items)
  {
    hide InsertAll, Merged, EncodeEntry, Touches;
  }

  /** The registry value the write loop puts for one aggregated stream. */
  method MergedValue(streams: map<Bytes, Bytes>, s: Bytes, aggregate: Entry) returns (value: Bytes)
    ensures value == EncodeEntry(Merged(streams, s, aggregate))
    ensures var e := DecodeEntry(value);
            if Registered(streams, s) then IsMerge(e, EntryOf(streams, s), aggregate) else e == aggregate
  {
    hide Encode64, Decode64;
    EntryRoundTrip(Merged(streams, s, aggregate));
    var lo, hi, last := aggregate.minSeq, aggregate.maxSeq, aggregate.lastReceived;
    if s in streams && |streams[s]| >= STREAMS_VALUE_LENGTH {
      var existing := streams[s];
      var oldLo := GetBigEndian64(existing, 0);
      var oldHi := GetBigEndian64(existing, 8);
      var oldLast := GetBigEndian64(existing, 16);
      lo := Min(lo, oldLo);
      hi := Max(hi, oldHi);
      last := Max(last, ToSigned(oldLast));
    }
    value := PutBigEndian64([], lo);
    value := PutBigEndian64(value, hi);
    value := PutBigEndian64(value, ToUnsigned(last));
    assert [] + Encode64(lo) == Encode64(lo);
  }

  /** The store value of one packet. */
  method PacketValue(item: Received) returns (value: Bytes)
    ensures value == EncodeValue(item.at, Serialized(item.packet))
  {
    value := PutBigEndian64([], ToUnsigned(item.at));
    assert value == Encode64(ToUnsigned(item.at));
    value := value + [PACKET_VERSION_ONE];
    value := value + Serialized(item.packet);
  }

  lemma MergeOne(streams: map<Bytes, Bytes>, merged: map<Bytes, Bytes>, todo: set<Bytes>, s: Bytes)
    requires s in todo && s in merged
    ensures (streams + (merged - todo))[s := merged[s]] == streams + (merged - (todo - {s}))
  {
  }

  lemma AvailableNone(streams: map<Bytes, Bytes>)
    ensures AvailableStreams(streams, []) == []
  {
  }

  lemma AvailableSnoc(streams: map<Bytes, Bytes>, order: seq<Bytes>, s: Bytes)
    requires s in streams
    ensures AvailableStreams(streams, order + [s]) == AvailableStreams(streams, order) + AvailableAt(streams, s)
  {
    hide AvailableAt;
    assert (order + [s])[..|order|] == order;
  }

  lemma InsertAllSnoc(db: Database, items: seq<Received>, item: Received)
    ensures InsertAll(db, items + [item]) == Insert(InsertAll(db, items), item)
    ensures Unkeyable(items + [item]) == Unkeyable(items) + (if Keyable(item) then [] else [item.packet])
  {
    hide Insert;
    assert (items + [item])[..|items|] == items;
  }

  lemma NothingFilled(db: Database)
    ensures InsertAll(db, []) == db && forall s :: !Touches([], s)
  {
  }

  lemma ScanStep(streams: map<Bytes, Bytes>, order: seq<Bytes>, i: nat)
    requires order == SortedKeys(streams.Keys) && i < |order|
    ensures order[i] in streams
    ensures forall k | k in order[..i] :: k != order[i]
    ensures forall k :: k in order[..i + 1] <==> k in order[..i] || k == order[i]
  {
    SortedKeysMeaning(streams.Keys);
    assert order[i] in order;
    forall k | k in order[..i] ensures k != order[i] {
      var j :| 0 <= j < i && order[j] == k;
      if k == order[i] {
        AscendingDistinct(order, j, i);
      }
    }
  }

  class RocksDatabase {
    var packets: map<Bytes, Bytes>
    var streams: map<Bytes, Bytes>

    function Contents(): Database
      reads this
    {
      Database(packets, streams)
    }

    constructor ()
      ensures Contents() == EMPTY
    {
      packets, streams := map[], map[];
    }

    /** Commits a batch: all of it, or nothing. */
    method Commit(batch: seq<Op>, succeeds: bool)
      modifies this
      ensures Contents() == if succeeds then ApplyAll(old(Contents()), batch) else old(Contents())
    {
      if succeeds {
        var after := ApplyAll(Contents(), batch);
        packets, streams := after.packets, after.streams;
      }
    }

    /** The largest registered max sequence number. */
    method GetGlobalSequenceNumber() returns (g: U64)
      ensures g == GlobalMax(streams)
    {
      hide SortedKeys, Decode64;
      g := 0;
      var registry := streams;
      var order := SortedKeys(registry.Keys);
      for i := 0 to |order|
        invariant LargestSoFar(registry, order[..i], g)
      {
        ScanStep(registry, order, i);
        LargestStep(registry, order[..i], g, order[i]);
        assert order[..i + 1] == order[..i] + [order[i]];
        var value := registry[order[i]];
        if |value| >= STREAMS_VALUE_LENGTH {
          var hi := GetBigEndian64(value, 8);
          g := Max(g, hi);
        }
      }
      assert order[..|order|] == order;
      LargestComplete(registry, g);
    }

    /** Stores a batch: what is written, and which packets come back. */
    method Write(items: seq<Received>, commitSucceeds: bool) returns (notWritten: seq<Packet>)
      modifies this
      ensures commitSucceeds ==> Contents() == InsertAll(old(Contents()), items) && notWritten == Unkeyable(items)
      ensures !commitSucceeds ==> Contents() == old(Contents()) && notWritten == PacketsOf(items)
      ensures !commitSucceeds ==>
                |notWritten| == |items| && forall i :: 0 <= i < |items| ==> notWritten[i] == items[i].packet
    {
      notWritten := [];
      if items == [] {
        return;
      }
      ghost var before := Contents();
      var batch: seq<Op>;
      batch, notWritten := PlanWrite(streams, items, before);
      FreshReads(before, items);
      Commit(batch, commitSucceeds);
      if !commitSucceeds {
        notWritten := [];
        for i := 0 to |items|
          invariant Contents() == before
          invariant notWritten == PacketsOf(items)[..i]
        {
          notWritten := notWritten + [items[i].packet];
        }
      }
    }

    /** Everything write decides before it commits, on whatever the store holds by then. */
    static method PlanWrite(registry: map<Bytes, Bytes>, items: seq<Received>, ghost now: Database)
        returns (batch: seq<Op>, notWritten: seq<Packet>)
      ensures ApplyAll(now, batch) == StaleWrite(registry, now, items)
      ensures notWritten == Unkeyable(items)
    {
      hide InsertAll, Touches, MergedEntries, StaleEntries, ApplyAll, AggregateAgrees;
      var aggregate: map<Bytes, Entry>;
      aggregate, batch, notWritten := FillBatch(items, registry, now);
      batch := MergeRegistry(registry, aggregate, batch, now);
      AggregatesSuffice(registry, aggregate, items);
    }

    /** The first loop of write: one put per keyable packet, one aggregate per stream. */
    static method FillBatch(items: seq<Received>, ghost registry: map<Bytes, Bytes>, ghost now: Database)
        returns (aggregate: map<Bytes, Entry>, batch: seq<Op>, notWritten: seq<Packet>)
      ensures AggregateAgrees(registry, aggregate, InsertAll(Database(map[], registry), items).streams)
      ensures forall s :: s in aggregate <==> Touches(items, s)
      ensures ApplyAll(now, batch) == Database(InsertAll(now, items).packets, now.streams)
      ensures notWritten == Unkeyable(items)
    {
      hide StreamKey, Encode64, Encodable, Merged, Touches, EncodeEntry, EncodeValue, InsertAll;
      aggregate, batch, notWritten := map[], [], [];
      ghost var alone := Database(map[], registry);
      NothingFilled(alone);
      NothingFilled(now);
      for i := 0 to |items|
        invariant AggregateAgrees(registry, aggregate, InsertAll(alone, items[..i]).streams)
        invariant forall s :: s in aggregate <==> Touches(items[..i], s)
        invariant ApplyAll(now, batch) == Database(InsertAll(now, items[..i]).packets, now.streams)
        invariant notWritten == Unkeyable(items[..i])
      {
        var item := items[i];
        assert items[..i + 1] == items[..i] + [item];
        forall s ensures Touches(items[..i + 1], s) <==>
                         Touches(items[..i], s) || (Keyable(item) && StreamKeyOf(item) == s)
        {
          TouchesSnoc(items[..i], item, s);
        }
        InsertAllSnoc(alone, items[..i], item);
        InsertAllSnoc(now, items[..i], item);
        var packetKey := ToPacketKey(item.packet.identifier, item.packet.sequenceNumber);
        if packetKey.Err? {
          notWritten := notWritten + [item.packet];
        } else {
          var streamKey := ToStreamKey(item.packet.identifier);
          var value := PacketValue(item);
          ApplySnoc(now, batch, PutPacket(packetKey.value, value));
          batch := batch + [PutPacket(packetKey.value, value)];
          AggregateStep(registry, aggregate, InsertAll(alone, items[..i]), item);
          aggregate := Widen(aggregate, streamKey.value, SingleEntry(item));
        }
      }
      assert items[..|items|] == items;
    }

    /** The second loop of write: one registry put per aggregated stream, in any order. */
    static method MergeRegistry(registry: map<Bytes, Bytes>, aggregate: map<Bytes, Entry>, puts: seq<Op>,
                                ghost now: Database)
        returns (batch: seq<Op>)
      ensures var filled := ApplyAll(now, puts);
              ApplyAll(now, batch) == filled.(streams := filled.streams + MergedEntries(registry, aggregate))
    {
      hide EncodeEntry, Merged, ApplyAll;
      batch := puts;
      var todo := aggregate.Keys;
      ghost var (filled, merged) := (ApplyAll(now, puts), MergedEntries(registry, aggregate));
      while todo != {}
        invariant todo <= aggregate.Keys
        invariant ApplyAll(now, batch) == filled.(streams := filled.streams + (merged - todo))
        decreases |todo|
      {
        var s :| s in todo;
        var value := MergedValue(registry, s, aggregate[s]);
        ApplySnoc(now, batch, PutStream(s, value));
        batch := batch + [PutStream(s, value)];
        MergeOne(filled.streams, merged, todo, s);
        todo := todo - {s};
      }
      assert merged - {} == merged;
    }

    /** Purges the oldest n sequence numbers and reports how many that was. */
    method TruncateOldest(n: U64, commitSucceeds: bool) returns (purged: U64)
      modifies this
      ensures Contents() == if commitSucceeds then Truncate(old(Contents()), n) else old(Contents())
      ensures purged == if commitSucceeds then PurgedCount(old(streams), n) else 0
    {
      var batch: seq<Op>;
      batch, purged := PlanTruncation(streams, n, Contents());
      if purged != 0 {
        FreshSnapshot(Contents(), Cutoff(streams, n));
        Commit(batch, commitSucceeds);
        if !commitSucceeds {
          purged := 0;
        }
      }
    }

    /** Everything truncateOldest decides before it commits, on whatever the store holds by then. */
    static method PlanTruncation(registry: map<Bytes, Bytes>, n: U64, ghost now: Database)
        returns (batch: seq<Op>, purged: U64)
      ensures purged == PurgedCount(registry, n)
      ensures purged != 0 ==> ApplyAll(now, batch) == StalePurge(registry, now, Cutoff(registry, n))
    {
      hide StalePurge, SortedKeys, ReadableKeys, DecodeEntry;
      batch, purged := [], 0;
      if n == 0 {
        return;
      }
      var entries, lo, hi := Snapshot(registry);
      if entries == [] || lo > hi {
        return;
      }
      var cutoff: U64 := (lo + n) % TWO64;
      if cutoff > (hi + 1) % TWO64 {
        cutoff := (hi + 1) % TWO64;
      }
      assert cutoff == Cutoff(registry, n);
      purged := (cutoff - lo) % TWO64;
      if purged == 0 {
        return;
      }
      batch := PurgeBatch(registry, entries, cutoff, now);
    }

    /** The registry scan of truncateOldest: readable entries in key order, and the global bounds. */
    static method Snapshot(streams: map<Bytes, Bytes>) returns (entries: seq<Bytes>, lo: U64, hi: U64)
      ensures entries == ReadableKeys(streams, SortedKeys(streams.Keys))
      ensures entries == [] <==> NothingRegistered(streams)
      ensures lo == GlobalMin(streams) && hi == GlobalMax(streams)
    {
      hide SortedKeys, Decode64;
      entries, lo, hi := [], TWO64 - 1, 0;
      var order := SortedKeys(streams.Keys);
      for i := 0 to |order|
        invariant entries == ReadableKeys(streams, order[..i])
        invariant Bounded(streams, entries, lo, hi)
      {
        ScanStep(streams, order, i);
        assert order[..i + 1][..i] == order[..i];
        var value := streams[order[i]];
        if |value| < STREAMS_VALUE_LENGTH {
          continue;
        }
        var first := GetBigEndian64(value, 0);
        var last := GetBigEndian64(value, 8);
        BoundedStep(streams, entries, lo, hi, order[i]);
        lo := Min(lo, first);
        hi := Max(hi, last);
        entries := entries + [order[i]];
      }
      assert order[..|order|] == order;
      SnapshotComplete(streams, entries, lo, hi);
    }

    /** The batch loop of truncateOldest, over the registry snapshot. */
    static method PurgeBatch(registry: map<Bytes, Bytes>, entries: seq<Bytes>, cutoff: U64, ghost now: Database)
        returns (batch: seq<Op>)
      requires entries == ReadableKeys(registry, SortedKeys(registry.Keys))
      ensures ApplyAll(now, batch) == StalePurge(registry, now, cutoff)
    {
      hide AdvancedValue, Reaped, SortedKeys, ReadableKeys, DecodeEntry, StalePurge, PurgedOne;
      batch := [];
      ReadableMeaning(registry);
      ghost var handled: set<Bytes> := {};
      for i := 0 to |entries|
        invariant forall s :: s in handled <==> s in entries[..i]
        invariant PartlyPurged(registry, now, cutoff, handled, ApplyAll(now, batch))
      {
        var s := entries[i];
        assert s in entries;
        assert entries[..i + 1] == entries[..i] + [s];
        PurgeStep(registry, now, cutoff, handled, s, ApplyAll(now, batch));
        batch := PurgeEntry(registry, batch, s, cutoff, now);
        handled := handled + {s};
      }
      assert entries[..|entries|] == entries;
      PurgeComplete(registry, now, cutoff, handled, ApplyAll(now, batch));
    }

    /** One round of the batch loop: skip, or delete the range and reap or advance the entry. */
    static method PurgeEntry(registry: map<Bytes, Bytes>, batch: seq<Op>, s: Bytes, cutoff: U64, ghost now: Database)
        returns (longer: seq<Op>)
      requires Registered(registry, s)
      ensures ApplyAll(now, longer) == PurgedOne(registry, s, cutoff, ApplyAll(now, batch))
    {
      hide Encode64, Decode64, Less;
      var value := registry[s];
      var first := GetBigEndian64(value, 0);
      var last := GetBigEndian64(value, 8);
      var received := GetBigEndian64(value, 16);
      if first >= cutoff {
        return batch;
      }
      var begin := PutBigEndian64(s, 0);
      var end := PutBigEndian64(s, cutoff);
      ApplySnoc(now, batch, DeletePacketRange(begin, end));
      longer := batch + [DeletePacketRange(begin, end)];
      if last < cutoff {
        ApplySnoc(now, longer, DeleteStream(s));
        longer := longer + [DeleteStream(s)];
      } else {
        var advanced := PutBigEndian64([], cutoff);
        advanced := PutBigEndian64(advanced, last);
        advanced := PutBigEndian64(advanced, ToUnsigned(ToSigned(received)));
        assert [] + Encode64(cutoff) == Encode64(cutoff);
        ApplySnoc(now, longer, PutStream(s, advanced));
        longer := longer + [PutStream(s, advanced)];
      }
    }

    /** Seeks to each request's first key and scans while the prefix holds. */
    method Query(requests: seq<Request>) returns (responses: seq<Response>)
      requires KeysAreWide(packets)
      ensures responses == Answer(packets, requests)
    {
      responses := [];
      for i := 0 to |requests|
        invariant responses == Answer(packets, requests[..i])
      {
        var request := requests[i];
        assert requests[..i + 1][..i] == requests[..i];
        var prefix := ToStreamKey(request.identifier);
        var seek := ToPacketKey(request.identifier, request.start);
        if prefix.Err? || seek.Err? {
          continue;
        }
        var found := Scan(packets, prefix.value, request.start, seek.value);
        responses := responses + found;
      }
      assert requests[..|requests|] == requests;
    }

    /** One seek and scan. */
    static method Scan(packets: map<Bytes, Bytes>, prefix: Bytes, ghost start: U64, seek: Bytes)
        returns (found: seq<Response>)
      requires KeysAreWide(packets)
      requires |prefix| == STREAM_KEY_LENGTH && seek == prefix + Encode64(start)
      ensures found == AnswerOne(packets, prefix, start)
    {
      hide SortedKeys, Less;
      ScanStart(packets, prefix);
      found := [];
      var order := SortedKeys(AtOrAfter(packets, seek));
      SortedKeysMeaning(AtOrAfter(packets, seek));
      ghost var seen: set<Bytes> := {};
      var i := 0;
      while i < |order| && prefix <= order[i]
        invariant 0 <= i <= |order|
        invariant Scanned(packets, prefix, order[..i], seen)
        invariant found == Responses(packets, SortedKeys(seen))
      {
        var k := order[i];
        VisitNext(order, i);
        if |packets[k]| >= PACKETS_HEADER_LENGTH {
          ScannedTake(packets, prefix, order[..i], seen, k);
          var response := ReadResponse(packets, k);
          found := found + [response];
          seen := seen + {k};
        } else {
          ScannedSkip(packets, prefix, order[..i], seen, k);
        }
        i := i + 1;
      }
      ScanComplete(packets, prefix, start, order, i, seen);
    }

    /** One response, read off a key and its value. */
    static method ReadResponse(packets: map<Bytes, Bytes>, k: Bytes) returns (response: Response)
      requires k in packets && |k| == PACKET_KEY_LENGTH && |packets[k]| >= PACKETS_HEADER_LENGTH
      ensures response == ResponseAt(packets, k)
    {
      var at := GetBigEndian64(packets[k], 0);
      var number := GetBigEndian64(k, STREAM_KEY_LENGTH);
      assert k[STREAM_KEY_LENGTH..STREAM_KEY_LENGTH + 8] == k[STREAM_KEY_LENGTH..];
      response := Response(packets[k][PACKETS_HEADER_LENGTH..], ToSigned(at), number);
    }

    /** The last-received time of a registry value, or 0 when it is too short to hold one. */
    static method LastReceived(value: Bytes) returns (last: I64)
      ensures last == if |value| >= STREAMS_VALUE_LENGTH then DecodeEntry(value).lastReceived else 0
    {
      last := 0;
      if |value| >= STREAMS_VALUE_LENGTH {
        var raw := GetBigEndian64(value, 16);
        last := ToSigned(raw);
      }
    }

    /** The registered streams, in key order. */
    method QueryAvailableStreams() returns (result: seq<Available>)
      ensures result == Listing(streams)
    {
      hide SortedKeys, DecodeStreamKey, DecodeEntry, Ascending, AvailableStreams;
      result := [];
      AvailableNone(streams);
      var streams := streams;
      var order := SortedKeys(streams.Keys);
      SortedKeysMeaning(streams.Keys);
      for i := 0 to |order|
        invariant result == AvailableStreams(streams, order[..i])
      {
        ScanStep(streams, order, i);
        AvailableSnoc(streams, order[..i], order[i]);
        assert order[..i + 1] == order[..i] + [order[i]];
        var decoded := FromStreamKey(order[i]);
        if decoded.Err? {
          continue;
        }
        var last := LastReceived(streams[order[i]]);
        result := result + [Available(last, decoded.value)];
      }
      assert order[..|order|] == order;
    }
  }

  // ------------------------------------------------------------ purge batches

  /** lo and hi are the extremes of the entries scanned so far. */
  ghost predicate Bounded(streams: map<Bytes, Bytes>, entries: seq<Bytes>, lo: U64, hi: U64) {
    && (forall s | s in entries :: Registered(streams, s))
    && (forall s | s in entries :: lo <= EntryOf(streams, s).minSeq && EntryOf(streams, s).maxSeq <= hi)
    && (hi == 0 || exists s :: s in entries && EntryOf(streams, s).maxSeq == hi)
    && (lo == TWO64 - 1 || exists s :: s in entries && EntryOf(streams, s).minSeq == lo)
  }

  /** g is the largest max among the readable entries visited so far. */
  ghost predicate LargestSoFar(streams: map<Bytes, Bytes>, visited: seq<Bytes>, g: U64) {
    && (forall s | s in visited && Registered(streams, s) :: EntryOf(streams, s).maxSeq <= g)
    && (g == 0 || exists s :: Registered(streams, s) && EntryOf(streams, s).maxSeq == g)
  }

  lemma LargestStep(streams: map<Bytes, Bytes>, visited: seq<Bytes>, g: U64, s: Bytes)
    requires LargestSoFar(streams, visited, g)
    ensures LargestSoFar(streams, visited + [s],
                         if Registered(streams, s) then Max(g, EntryOf(streams, s).maxSeq) else g)
  {
    hide DecodeEntry;
    assert forall t :: t in visited + [s] <==> t in visited || t == s;
  }

  lemma LargestComplete(streams: map<Bytes, Bytes>, g: U64)
    requires LargestSoFar(streams, SortedKeys(streams.Keys), g)
    ensures g == GlobalMax(streams)
  {
    hide DecodeEntry;
    SortedKeysMeaning(streams.Keys);
    GlobalMaxUnique(streams, g);
  }

  /** The keys of an order whose values can be read as entries. */
  function ReadableKeys(streams: map<Bytes, Bytes>, order: seq<Bytes>): seq<Bytes> {
    if order == [] then []
    else
      var last := order[|order| - 1];
      ReadableKeys(streams, order[..|order| - 1]) + (if Registered(streams, last) then [last] else [])
  }

  lemma {:induction false} ReadableOfAscending(streams: map<Bytes, Bytes>, order: seq<Bytes>)
    requires Ascending(order)
    ensures Ascending(ReadableKeys(streams, order))
    ensures forall s :: s in ReadableKeys(streams, order) <==> s in order && Registered(streams, s)
  {
    if order != [] {
      var init, last := order[..|order| - 1], order[|order| - 1];
      assert order == init + [last];
      ReadableOfAscending(streams, init);
      forall s | s in ReadableKeys(streams, init) ensures Less(s, last) {
        assert s in init;
      }
      AscendingSnoc(ReadableKeys(streams, init), last);
    }
  }

  lemma AscendingSnoc(order: seq<Bytes>, last: Bytes)
    requires Ascending(order) && forall s | s in order :: Less(s, last)
    ensures Ascending(order + [last])
  {
  }

  /** The snapshot lists each registered stream once. */
  lemma ReadableMeaning(streams: map<Bytes, Bytes>)
    ensures var entries := ReadableKeys(streams, SortedKeys(streams.Keys));
            && (forall s :: s in entries <==> Registered(streams, s))
            && (forall i, j :: 0 <= i < j < |entries| ==> entries[i] != entries[j])
  {
    SortedKeysMeaning(streams.Keys);
    ReadableOfAscending(streams, SortedKeys(streams.Keys));
    var entries := ReadableKeys(streams, SortedKeys(streams.Keys));
    forall i, j | 0 <= i < j < |entries| ensures entries[i] != entries[j] {
      LessIrreflexive(entries[i]);
    }
  }

  lemma SnapshotComplete(streams: map<Bytes, Bytes>, entries: seq<Bytes>, lo: U64, hi: U64)
    requires entries == ReadableKeys(streams, SortedKeys(streams.Keys)) && Bounded(streams, entries, lo, hi)
    ensures entries == [] <==> NothingRegistered(streams)
    ensures lo == GlobalMin(streams) && hi == GlobalMax(streams)
  {
    ReadableMeaning(streams);
    assert entries != [] ==> entries[0] in entries;
    GlobalMaxUnique(streams, hi);
    GlobalMinUnique(streams, lo);
  }

  lemma BoundedStep(streams: map<Bytes, Bytes>, entries: seq<Bytes>, lo: U64, hi: U64, s: Bytes)
    requires Bounded(streams, entries, lo, hi) && Registered(streams, s)
    ensures Bounded(streams, entries + [s], Min(lo, EntryOf(streams, s).minSeq), Max(hi, EntryOf(streams, s).maxSeq))
  {
    assert forall t :: t in entries + [s] <==> t in entries || t == s;
  }

  predicate PurgedBy(streams: map<Bytes, Bytes>, handled: set<Bytes>, cutoff: U64, k: Bytes) {
    exists s | s in handled :: Selected(streams, s, cutoff) && InRange(s, cutoff, k)
  }

  /** What the batch has done to db once the given snapshot entries are handled. */
  ghost predicate PartlyPurged(registry: map<Bytes, Bytes>, db: Database, cutoff: U64, handled: set<Bytes>,
                               now: Database)
  {
    && now.packets == (map k | k in db.packets && !PurgedBy(registry, handled, cutoff, k) :: db.packets[k])
    && (forall s :: s in now.streams <==>
          if s in handled && Selected(registry, s, cutoff) then !Reaped(registry, s, cutoff) else s in db.streams)
    && (forall s | s in now.streams ::
          now.streams[s] == if s in handled && Selected(registry, s, cutoff) then AdvancedValue(registry, s, cutoff)
                            else db.streams[s])
  }

  lemma PurgedByOneMore(streams: map<Bytes, Bytes>, handled: set<Bytes>, s: Bytes, cutoff: U64, k: Bytes)
    ensures PurgedBy(streams, handled + {s}, cutoff, k) <==>
            PurgedBy(streams, handled, cutoff, k) || (Selected(streams, s, cutoff) && InRange(s, cutoff, k))
  {
    if Selected(streams, s, cutoff) && InRange(s, cutoff, k) {
      assert s in handled + {s};
    }
    if PurgedBy(streams, handled, cutoff, k) {
      var t :| t in handled && Selected(streams, t, cutoff) && InRange(t, cutoff, k);
      assert t in handled + {s};
    }
  }

  /** The effect of one snapshot entry on what the batch has done so far. */
  function PurgedOne(streams: map<Bytes, Bytes>, s: Bytes, cutoff: U64, now: Database): Database
    requires Registered(streams, s)
  {
    if !Selected(streams, s, cutoff) then now
    else Database(
      map k | k in now.packets && !InRange(s, cutoff, k) :: now.packets[k],
      if Reaped(streams, s, cutoff) then now.streams - {s} else now.streams[s := AdvancedValue(streams, s, cutoff)])
  }

  lemma PurgeStep(registry: map<Bytes, Bytes>, db: Database, cutoff: U64, handled: set<Bytes>, s: Bytes, now: Database)
    requires PartlyPurged(registry, db, cutoff, handled, now) && s !in handled && Registered(registry, s)
    ensures PartlyPurged(registry, db, cutoff, handled + {s}, PurgedOne(registry, s, cutoff, now))
  {
    hide DecodeEntry, AdvancedValue, InRange;
    var next := PurgedOne(registry, s, cutoff, now);
    assert next.packets ==
           (map k | k in db.packets && !PurgedBy(registry, handled + {s}, cutoff, k) :: db.packets[k]) by {
      forall k
        ensures PurgedBy(registry, handled + {s}, cutoff, k) <==>
                PurgedBy(registry, handled, cutoff, k) || (Selected(registry, s, cutoff) && InRange(s, cutoff, k))
      {
        PurgedByOneMore(registry, handled, s, cutoff, k);
      }
    }
  }

  lemma PurgeComplete(registry: map<Bytes, Bytes>, db: Database, cutoff: U64, handled: set<Bytes>, now: Database)
    requires PartlyPurged(registry, db, cutoff, handled, now)
    requires forall s :: s in handled <==> Registered(registry, s)
    ensures now == StalePurge(registry, db, cutoff)
  {
    hide DecodeEntry, AdvancedValue, InRange;
    forall k ensures PurgedBy(registry, handled, cutoff, k) <==> Purged(registry, cutoff, k) {
      if Purged(registry, cutoff, k) {
        var s :| s in registry && Selected(registry, s, cutoff) && InRange(s, cutoff, k);
        assert s in handled;
      }
    }
    assert now.packets == StalePurge(registry, db, cutoff).packets;
    assert now.streams == StalePurge(registry, db, cutoff).streams;
  }

  // -------------------------------------------------------------------- scans

  lemma VisitNext(order: seq<Bytes>, i: nat)
    requires Ascending(order) && i < |order|
    ensures order[i] in order
    ensures order[..i + 1] == order[..i] + [order[i]]
    ensures forall k | k in order[..i] :: Less(k, order[i])
  {
  }

  /** Where an iterator can be after seeking. */
  function AtOrAfter(packets: map<Bytes, Bytes>, seek: Bytes): set<Bytes> {
    set k | k in packets && !Less(k, seek)
  }

  /** The readable keys among those visited, all of one stream. */
  ghost predicate Scanned(packets: map<Bytes, Bytes>, prefix: Bytes, visited: seq<Bytes>, seen: set<Bytes>)
    requires KeysAreWide(packets)
  {
    && (forall k | k in visited :: k in packets && StreamOf(k) == prefix)
    && (forall k :: k in seen <==> k in visited && |packets[k]| >= PACKETS_HEADER_LENGTH)
    && Readable(packets, SortedKeys(seen))
  }

  lemma ResponsesSnoc(packets: map<Bytes, Bytes>, keys: seq<Bytes>, k: Bytes)
    requires Readable(packets, keys + [k])
    ensures k in packets && |k| == PACKET_KEY_LENGTH && |packets[k]| >= PACKETS_HEADER_LENGTH
    ensures Readable(packets, keys)
    ensures Responses(packets, keys + [k]) == Responses(packets, keys) + [ResponseAt(packets, k)]
  {
    hide ResponseAt;
    assert k in keys + [k];
    assert forall j :: j in keys ==> j in keys + [k];
  }

  lemma ScanStart(packets: map<Bytes, Bytes>, prefix: Bytes)
    requires KeysAreWide(packets)
    ensures Scanned(packets, prefix, [], {}) && Responses(packets, SortedKeys({})) == []
  {
  }

  lemma ScannedSkip(packets: map<Bytes, Bytes>, prefix: Bytes, visited: seq<Bytes>, seen: set<Bytes>, k: Bytes)
    requires KeysAreWide(packets) && |prefix| == STREAM_KEY_LENGTH
    requires Scanned(packets, prefix, visited, seen)
    requires k in packets && prefix <= k && |packets[k]| < PACKETS_HEADER_LENGTH
    ensures Scanned(packets, prefix, visited + [k], seen)
  {
    hide SortedKeys, Readable;
    assert forall j :: j in visited + [k] <==> j in visited || j == k;
    assert StreamOf(k) == prefix;
  }

  lemma ReadableTake(packets: map<Bytes, Bytes>, seen: set<Bytes>, k: Bytes)
    requires Readable(packets, SortedKeys(seen))
    requires k in packets && |k| == PACKET_KEY_LENGTH && |packets[k]| >= PACKETS_HEADER_LENGTH
    ensures Readable(packets, SortedKeys(seen + {k}))
  {
    hide SortedKeys, Less, Ascending;
    SortedKeysMeaning(seen);
    SortedKeysMeaning(seen + {k});
  }

  lemma ScannedTake(packets: map<Bytes, Bytes>, prefix: Bytes, visited: seq<Bytes>, seen: set<Bytes>, k: Bytes)
    requires KeysAreWide(packets) && |prefix| == STREAM_KEY_LENGTH
    requires Scanned(packets, prefix, visited, seen)
    requires k in packets && prefix <= k && |packets[k]| >= PACKETS_HEADER_LENGTH
    requires forall j | j in visited :: Less(j, k)
    ensures Scanned(packets, prefix, visited + [k], seen + {k})
    ensures Responses(packets, SortedKeys(seen + {k})) ==
            Responses(packets, SortedKeys(seen)) + [ResponseAt(packets, k)]
  {
    hide SortedKeys, Less, ResponseAt, Responses, Ascending, Readable;
    assert forall j :: j in visited + [k] <==> j in visited || j == k;
    assert StreamOf(k) == prefix;
    ReadableTake(packets, seen, k);
    SortedKeysSnoc(seen, k);
    ResponsesSnoc(packets, SortedKeys(seen), k);
  }

  /** The scan stops only when no later key can belong to the stream. */
  lemma ScanComplete(packets: map<Bytes, Bytes>, prefix: Bytes, start: U64, order: seq<Bytes>, i: nat, seen: set<Bytes>)
    requires KeysAreWide(packets) && |prefix| == STREAM_KEY_LENGTH
    requires order == SortedKeys(AtOrAfter(packets, prefix + Encode64(start)))
    requires i <= |order| && (i < |order| ==> !(prefix <= order[i]))
    requires Scanned(packets, prefix, order[..i], seen)
    ensures seen == Matching(packets, prefix, start)
  {
    SortedKeysMeaning(AtOrAfter(packets, prefix + Encode64(start)));
    forall k | k in packets && StreamOf(k) == prefix
      ensures k in order <==> SequenceOf(k) >= start
    {
      KeyAgainst(prefix, start, k);
      LessIrreflexive(prefix);
    }
    forall k | k in order && StreamOf(k) == prefix ensures k in order[..i] {
      var j :| 0 <= j < |order| && order[j] == k;
      if i <= j {
        PrefixIsContiguous(packets, prefix, start, order, i, j);
      }
    }
  }

  lemma PrefixIsContiguous(packets: map<Bytes, Bytes>, prefix: Bytes, start: U64, order: seq<Bytes>, i: nat, j: nat)
    requires KeysAreWide(packets) && |prefix| == STREAM_KEY_LENGTH
    requires Ascending(order) && i <= j < |order|
    requires forall k | k in order :: k in packets && !Less(k, prefix + Encode64(start))
    requires |order[j]| == PACKET_KEY_LENGTH && StreamOf(order[j]) == prefix
    ensures prefix <= order[i]
  {
    assert order[i] in order && order[j] in order;
    var a := StreamOf(order[i]);
    KeyAgainst(prefix, start, order[i]);
    LessTotal(a, prefix);
    if i < j {
      PacketKeyRejoin(order[i]);
      PacketKeyRejoin(order[j]);
      LessFixedWidth(a, prefix, Encode64(SequenceOf(order[i])), Encode64(SequenceOf(order[j])));
    }
  }
}
