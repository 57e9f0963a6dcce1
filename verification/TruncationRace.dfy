/**
 write and truncateOldest both read the registry and then commit, on different threads, and no
 lock covers both. Here the other one lands in between. A truncation with a write in its gap
 keeps the index exactly when its registry scan bounded all that is left past its cutoff in the
 streams it selected; a write with a truncation in its gap, exactly when each stream it touches
 keeps the newest packet it read of or gets one at least as new, as broker numbers always do.
 */
module TruncationRace {
  import opened ByteStrings
  import opened KeyCodec
  import opened StoreModel
  import opened StoreIndex
  import opened Snapshots

  /** A packet past the cutoff, in a selected stream, was already bounded by the snapshot. */
  predicate Foreseen(snapshot: map<Bytes, Bytes>, db: Database, cutoff: U64, k: Bytes)
    requires k in db.packets && |k| == PACKET_KEY_LENGTH && |db.packets[k]| >= PACKETS_HEADER_LENGTH
  {
    Selected(snapshot, StreamOf(k), cutoff) && SequenceOf(k) >= cutoff ==>
      Covers(EntryOf(snapshot, StreamOf(k)), SequenceOf(k), ReceivedAt(db.packets[k]))
  }

  ghost predicate AllForeseen(snapshot: map<Bytes, Bytes>, db: Database, cutoff: U64)
    requires WellFormed(db)
  {
    forall k | k in db.packets :: Foreseen(snapshot, db, cutoff, k)
  }

  lemma StaleSurvivors(before: Database, db: Database, cutoff: U64, k: Bytes)
    requires IndexAgrees(before) && WellFormed(db) && k in db.packets
    ensures k in StalePurge(before.streams, db, cutoff).packets <==>
            !(Selected(before.streams, StreamOf(k), cutoff) && SequenceOf(k) < cutoff)
  {
    if Purged(before.streams, cutoff, k) {
      var s :| s in before.streams && Selected(before.streams, s, cutoff) && InRange(s, cutoff, k);
      RangeIsOlderTail(s, cutoff, k);
    }
    if Selected(before.streams, StreamOf(k), cutoff) && SequenceOf(k) < cutoff {
      RangeIsOlderTail(StreamOf(k), cutoff, k);
      assert StreamOf(k) in before.streams && InRange(StreamOf(k), cutoff, k);
    }
  }

  lemma StaleEntry(before: Database, db: Database, cutoff: U64, s: Bytes, after: Database)
    requires IndexAgrees(before) && WellFormed(db) && after == StalePurge(before.streams, db, cutoff)
    requires s in after.streams
    ensures |s| == STREAM_KEY_LENGTH && |after.streams[s]| == STREAMS_VALUE_LENGTH
    ensures if Selected(before.streams, s, cutoff)
            then EntryOf(after.streams, s) == AdvancedEntry(EntryOf(before.streams, s), cutoff) &&
                 EntryOf(before.streams, s).maxSeq >= cutoff
            else s in db.streams && EntryOf(after.streams, s) == EntryOf(db.streams, s)
  {
    if Selected(before.streams, s, cutoff) {
      EntryRoundTrip(AdvancedEntry(EntryOf(before.streams, s), cutoff));
    }
  }

  lemma StaleShape(before: Database, db: Database, cutoff: U64)
    requires IndexAgrees(before) && WellFormed(db)
    ensures WellFormed(StalePurge(before.streams, db, cutoff))
  {
    hide Purged;
    var after := StalePurge(before.streams, db, cutoff);
    forall s | s in after.streams ensures |s| == STREAM_KEY_LENGTH && |after.streams[s]| == STREAMS_VALUE_LENGTH {
      StaleEntry(before, db, cutoff, s, after);
    }
  }

  lemma StaleNewest(before: Database, db: Database, cutoff: U64, s: Bytes, after: Database)
    requires IndexAgrees(before) && IndexAgrees(db) && before.packets.Keys <= db.packets.Keys
    requires after == StalePurge(before.streams, db, cutoff) && s in after.streams && Registered(after.streams, s)
    ensures NewestStored(after, s)
  {
    hide DecodeEntry;
    StaleEntry(before, db, cutoff, s, after);
    var source := if Selected(before.streams, s, cutoff) then before else db;
    assert NewestStored(source, s);
    PacketKeyParts(s, EntryOf(source.streams, s).maxSeq);
    StaleSurvivors(before, db, cutoff, NewestKey(source, s));
  }

  lemma ForeseenIsIndexed(before: Database, db: Database, cutoff: U64, k: Bytes, after: Database)
    requires IndexAgrees(before) && IndexAgrees(db) && after == StalePurge(before.streams, db, cutoff)
    requires k in after.packets && Foreseen(before.streams, db, cutoff, k)
    ensures PacketIndexed(after, k)
  {
    hide DecodeEntry;
    StaleSurvivors(before, db, cutoff, k);
    assert PacketIndexed(db, k);
    StaleEntry(before, db, cutoff, StreamOf(k), after);
  }

  lemma IndexedIsForeseen(before: Database, db: Database, cutoff: U64, k: Bytes, after: Database)
    requires IndexAgrees(before) && IndexAgrees(db) && after == StalePurge(before.streams, db, cutoff)
    requires k in db.packets && IndexAgrees(after)
    ensures Foreseen(before.streams, db, cutoff, k)
  {
    hide DecodeEntry;
    if Selected(before.streams, StreamOf(k), cutoff) && SequenceOf(k) >= cutoff {
      StaleSurvivors(before, db, cutoff, k);
      assert PacketIndexed(after, k);
      StaleEntry(before, db, cutoff, StreamOf(k), after);
    }
  }

  /** The exact price of the missing lock. */
  lemma StalePurgeKeepsIndexIff(before: Database, db: Database, cutoff: U64)
    requires IndexAgrees(before) && IndexAgrees(db) && before.packets.Keys <= db.packets.Keys
    ensures IndexAgrees(StalePurge(before.streams, db, cutoff)) <==> AllForeseen(before.streams, db, cutoff)
  {
    hide StalePurge;
    var after := StalePurge(before.streams, db, cutoff);
    StaleShape(before, db, cutoff);
    if IndexAgrees(after) {
      forall k | k in db.packets ensures Foreseen(before.streams, db, cutoff, k) {
        IndexedIsForeseen(before, db, cutoff, k, after);
      }
    }
    if AllForeseen(before.streams, db, cutoff) {
      forall k | k in after.packets ensures PacketIndexed(after, k) {
        StalePackets(before, db, cutoff, k);
        ForeseenIsIndexed(before, db, cutoff, k, after);
      }
      forall s | s in after.streams ensures NewestStored(after, s) {
        StaleNewest(before, db, cutoff, s, after);
      }
    }
  }

  lemma StalePackets(before: Database, db: Database, cutoff: U64, k: Bytes)
    requires k in StalePurge(before.streams, db, cutoff).packets
    ensures k in db.packets
  {
  }

  /** The items all carry numbers the store has not reached, as the broker's do. */
  predicate Fresh(items: seq<Received>, above: U64) {
    forall i :: 0 <= i < |items| ==> items[i].packet.sequenceNumber > above
  }

  lemma FreshKeepsOld(db: Database, items: seq<Received>, k: Bytes)
    requires IndexAgrees(db) && Fresh(items, GlobalMax(db.streams)) && k in db.packets
    ensures InsertAll(db, items).packets.Keys >= {k} && InsertAll(db, items).packets[k] == db.packets[k]
  {
    GlobalMaxIsNewestStored(db);
    forall i | 0 <= i < |items| && Keyable(items[i]) ensures KeyOf(items[i]) != k {
      ItemKeyParts(items[i]);
    }
    WriteTouchesOnlyItsKeys(db, items, k);
  }

  lemma OldForeseen(db: Database, items: seq<Received>, cutoff: U64, k: Bytes, after: Database)
    requires IndexAgrees(db) && Fresh(items, GlobalMax(db.streams))
    requires after == InsertAll(db, items) && WellFormed(after) && k in after.packets && k in db.packets
    ensures Foreseen(db.streams, after, cutoff, k)
  {
    hide DecodeEntry, InsertAll, Decode64;
    FreshKeepsOld(db, items, k);
    assert PacketIndexed(db, k);
  }

  lemma NewForeseen(db: Database, items: seq<Received>, cutoff: U64, k: Bytes, after: Database)
    requires IndexAgrees(db) && Fresh(items, GlobalMax(db.streams)) && cutoff <= GlobalMax(db.streams) + 1
    requires after == InsertAll(db, items) && WellFormed(after) && k in after.packets && k !in db.packets
    ensures Touches(items, StreamOf(k))
    ensures Foreseen(db.streams, after, cutoff, k) <==> !Selected(db.streams, StreamOf(k), cutoff)
  {
    hide DecodeEntry, InsertAll, Decode64, StreamKey, PacketKey, Encodable;
    WriteAddsItsKeys(db, items, k);
    var i :| 0 <= i < |items| && Keyable(items[i]) && KeyOf(items[i]) == k;
    ItemKeyParts(items[i]);
  }

  /** For a broker-numbered write in the gap: the index survives exactly when no selected stream was written. */
  lemma RaceIsSafeIff(db: Database, items: seq<Received>, cutoff: U64)
    requires IndexAgrees(db) && Fresh(items, GlobalMax(db.streams)) && cutoff <= GlobalMax(db.streams) + 1
    ensures IndexAgrees(StalePurge(db.streams, InsertAll(db, items), cutoff)) <==>
            forall s | Selected(db.streams, s, cutoff) :: !Touches(items, s)
  {
    hide StalePurge, DecodeEntry, InsertAll, IndexAgrees;
    var after := InsertAll(db, items);
    WriteKeepsIndex(db, items);
    assert WellFormed(db) && WellFormed(after) by { IndexIsWellFormed(db); IndexIsWellFormed(after); }
    forall k | k in db.packets ensures k in after.packets {
      WriteAddsItsKeys(db, items, k);
    }
    StalePurgeKeepsIndexIff(db, after, cutoff);
    forall k | k in after.packets && (forall s | Selected(db.streams, s, cutoff) :: !Touches(items, s))
      ensures Foreseen(db.streams, after, cutoff, k)
    {
      if k in db.packets {
        OldForeseen(db, items, cutoff, k, after);
      } else {
        NewForeseen(db, items, cutoff, k, after);
      }
    }
    forall s | Selected(db.streams, s, cutoff) && Touches(items, s) ensures !AllForeseen(db.streams, after, cutoff) {
      TouchedIsUnforeseen(db, items, cutoff, s, after);
    }
  }

  lemma IndexIsWellFormed(db: Database)
    requires IndexAgrees(db)
    ensures WellFormed(db)
  {
  }

  lemma TouchedIsUnforeseen(db: Database, items: seq<Received>, cutoff: U64, s: Bytes, after: Database)
    requires IndexAgrees(db) && Fresh(items, GlobalMax(db.streams)) && cutoff <= GlobalMax(db.streams) + 1
    requires after == InsertAll(db, items) && WellFormed(after)
    requires Selected(db.streams, s, cutoff) && Touches(items, s)
    ensures !AllForeseen(db.streams, after, cutoff)
  {
    hide DecodeEntry, InsertAll;
    var i :| 0 <= i < |items| && Keyable(items[i]) && StreamKeyOf(items[i]) == s;
    var k := KeyOf(items[i]);
    KeyableStored(db, items, i);
    ItemKeyParts(items[i]);
    GlobalMaxIsNewestStored(db);
    NewForeseen(db, items, cutoff, k, after);
    assert !Foreseen(db.streams, after, cutoff, k);
  }

  /** The smallest race: one stored packet, truncated, while its stream's next packet is written. */
  lemma RaceBreaksIndex(s: Bytes, at: I64, payload: Bytes)
    requires |s| == STREAM_KEY_LENGTH
    ensures var one := Put(EMPTY, s, 1, at, payload);
            var two := Put(one, s, 2, at, payload);
            IndexAgrees(one) && IndexAgrees(two) && Cutoff(one.streams, 1) == 2 &&
            !IndexAgrees(StalePurge(one.streams, two, 2))
  {
    hide EncodeEntry, DecodeEntry, EncodeValue, StalePurge, Encode64, Decode64, IndexAgrees;
    var one := Put(EMPTY, s, 1, at, payload);
    var two := Put(one, s, 2, at, payload);
    PutKeepsIndex(EMPTY, s, 1, at, payload);
    PutKeepsIndex(one, s, 2, at, payload);
    PutEntry(EMPTY, s, 1, at, payload);
    assert Registered(one.streams, s) && EntryOf(one.streams, s) == Entry(1, 1, at);
    GlobalMaxUnique(one.streams, 1);
    GlobalMinUnique(one.streams, 1);
    IndexIsWellFormed(two);
    StalePurgeKeepsIndexIff(one, two, 2);
    PacketKeyParts(s, 2);
    assert !Foreseen(one.streams, two, 2, s + Encode64(2));
  }

  // ------------------------------------------------------------ the other half

  predicate SameEntry(a: map<Bytes, Bytes>, b: map<Bytes, Bytes>, s: Bytes) {
    (s in a <==> s in b) && (s in a ==> a[s] == b[s])
  }

  /** What a write makes of one stream's entry depends on that entry alone. */
  lemma {:induction false} EntriesAreIndependent(a: Database, b: Database, items: seq<Received>, s: Bytes)
    requires SameEntry(a.streams, b.streams, s)
    ensures SameEntry(InsertAll(a, items).streams, InsertAll(b, items).streams, s)
  {
    hide EncodeEntry, DecodeEntry, EncodeValue, StreamKey, Encode64, Encodable;
    if items != [] {
      EntriesAreIndependent(a, b, items[..|items| - 1], s);
    }
  }

  /** The write merged stream s with the entry it had in before. */
  lemma StaleWriteEntry(snapshot: map<Bytes, Bytes>, before: Database, db: Database, items: seq<Received>, s: Bytes)
    requires Touches(items, s) ==> SameEntry(snapshot, before.streams, s)
    ensures var after := StaleWrite(snapshot, db, items);
            var whole := InsertAll(before, items);
            if Touches(items, s) then s in after.streams && s in whole.streams && after.streams[s] == whole.streams[s]
            else SameEntry(after.streams, db.streams, s)
  {
    hide InsertAll, Touches;
    WriteTouchesOnlyItsStreams(before, items, s);
    if Touches(items, s) {
      EntriesAreIndependent(Database(map[], snapshot), before, items, s);
    }
  }

  predicate Writes(items: seq<Received>, k: Bytes) {
    exists i :: 0 <= i < |items| && Keyable(items[i]) && KeyOf(items[i]) == k
  }

  /** What an item wrote is there as the whole write leaves it; the rest is what the purge left. */
  lemma StaleWritePacket(snapshot: map<Bytes, Bytes>, before: Database, db: Database, items: seq<Received>,
        k: Bytes)
    ensures var after := StaleWrite(snapshot, db, items).packets;
            var whole := InsertAll(before, items).packets;
            if Writes(items, k)
            then k in after && k in whole && after[k] == whole[k] &&
                 |k| == PACKET_KEY_LENGTH && Touches(items, StreamOf(k))
            else (k in after <==> k in db.packets) && (k in db.packets ==> after[k] == db.packets[k]) &&
                 (k in whole <==> k in before.packets) && (k in before.packets ==> whole[k] == before.packets[k])
  {
    hide InsertAll, StreamKey, PacketKey, Encodable;
    if Writes(items, k) {
      var i := LastWriterOf(items, k);
      LastOneWins(before, items, i);
      LastOneWins(db, items, i);
      ItemKeyParts(items[i]);
    } else {
      WriteTouchesOnlyItsKeys(before, items, k);
      WriteTouchesOnlyItsKeys(db, items, k);
    }
  }

  /** Nothing but removals has happened to the packets. */
  ghost predicate Remains(before: map<Bytes, Bytes>, now: map<Bytes, Bytes>) {
    forall k | k in now :: k in before && now[k] == before[k]
  }

  /** Each touched stream's entry was read from some earlier store, and only removals have happened since. */
  ghost predicate ReadFrom(snapshot: map<Bytes, Bytes>, origins: map<Bytes, Database>, db: Database,
                           items: seq<Received>)
  {
    forall s | Touches(items, s) :: s in origins && EntryReadFrom(snapshot, origins[s], db, s)
  }

  ghost predicate EntryReadFrom(snapshot: map<Bytes, Bytes>, before: Database, db: Database, s: Bytes) {
    SameEntry(snapshot, before.streams, s) && IndexAgrees(before) && Remains(before.packets, db.packets)
  }

  lemma StaleWriteShape(snapshot: map<Bytes, Bytes>, origins: map<Bytes, Database>, db: Database, items: seq<Received>)
    requires IndexAgrees(db) && ReadFrom(snapshot, origins, db, items)
    ensures WellFormed(StaleWrite(snapshot, db, items))
  {
    hide InsertAll, StaleWrite, IndexAgrees, Touches, Writes, Remains;
    var after := StaleWrite(snapshot, db, items);
    IndexIsWellFormed(db);
    WriteKeepsIndex(db, items);
    IndexIsWellFormed(InsertAll(db, items));
    forall k | k in after.packets ensures |k| == PACKET_KEY_LENGTH && |after.packets[k]| >= PACKETS_HEADER_LENGTH {
      StaleWritePackets(snapshot, db, items);
    }
    forall s | s in after.streams ensures |s| == STREAM_KEY_LENGTH && |after.streams[s]| == STREAMS_VALUE_LENGTH {
      if Touches(items, s) {
        WriteKeepsIndex(origins[s], items);
        IndexIsWellFormed(InsertAll(origins[s], items));
        StaleWriteEntry(snapshot, origins[s], db, items, s);
      } else {
        StaleWriteEntry(snapshot, db, db, items, s);
      }
    }
  }

  lemma StaleWritePackets(snapshot: map<Bytes, Bytes>, db: Database, items: seq<Received>)
    ensures StaleWrite(snapshot, db, items).packets == InsertAll(db, items).packets
  {
  }

  lemma StaleWriteIndexed(snapshot: map<Bytes, Bytes>, origins: map<Bytes, Database>, db: Database,
        items: seq<Received>, k: Bytes, after: Database)
    requires IndexAgrees(db) && ReadFrom(snapshot, origins, db, items)
    requires after == StaleWrite(snapshot, db, items) && WellFormed(after) && k in after.packets
    ensures PacketIndexed(after, k)
  {
    hide InsertAll, StaleWrite, Touches, Writes, DecodeEntry, Decode64;
    var s := StreamOf(k);
    if Touches(items, s) {
      var whole := InsertAll(origins[s], items);
      WriteKeepsIndex(origins[s], items);
      StaleWritePacket(snapshot, origins[s], db, items, k);
      StaleWriteEntry(snapshot, origins[s], db, items, s);
      assert PacketIndexed(whole, k);
    } else {
      StaleWritePacket(snapshot, db, db, items, k);
      StaleWriteEntry(snapshot, db, db, items, s);
      assert PacketIndexed(db, k);
    }
  }

  /** Some item of stream s is at least as new as everything the registry knows of s. */
  predicate Renews(streams: map<Bytes, Bytes>, items: seq<Received>, s: Bytes)
    requires Registered(streams, s)
  {
    exists i :: 0 <= i < |items| && Keyable(items[i]) && StreamKeyOf(items[i]) == s &&
                items[i].packet.sequenceNumber >= EntryOf(streams, s).maxSeq
  }

  lemma WrittenIsBounded(before: Database, items: seq<Received>, i: nat, whole: Database)
    requires whole == InsertAll(before, items) && IndexAgrees(whole)
    requires i < |items| && Keyable(items[i])
    ensures StreamKeyOf(items[i]) in whole.streams
    ensures items[i].packet.sequenceNumber <= EntryOf(whole.streams, StreamKeyOf(items[i])).maxSeq
  {
    hide InsertAll, DecodeEntry, Decode64, StreamKey, PacketKey, Encodable;
    KeyableStored(before, items, i);
    ItemKeyParts(items[i]);
    assert PacketIndexed(whole, KeyOf(items[i]));
  }

  /** After the whole write a touched stream's newest packet is an item's, if the write renews the stream. */
  lemma NewestIsWrittenIff(before: Database, items: seq<Received>, s: Bytes, whole: Database)
    requires IndexAgrees(before) && Touches(items, s)
    requires whole == InsertAll(before, items) && IndexAgrees(whole) && s in whole.streams
    ensures NewestKey(whole, s) in whole.packets
    ensures Writes(items, NewestKey(whole, s)) <==>
            (s in before.streams ==> Renews(before.streams, items, s))
  {
    hide InsertAll, DecodeEntry, Decode64, StreamKey, PacketKey, Encodable;
    var newest := NewestKey(whole, s);
    assert NewestStored(whole, s);
    PacketKeyParts(s, EntryOf(whole.streams, s).maxSeq);
    if Writes(items, newest) && s in before.streams {
      WrittenNewestRenews(before, items, s, whole);
    }
    if !Writes(items, newest) {
      WriteTouchesOnlyItsKeys(before, items, newest);
      assert PacketIndexed(before, newest);
      forall i | 0 <= i < |items| && Keyable(items[i]) && StreamKeyOf(items[i]) == s
        ensures items[i].packet.sequenceNumber < EntryOf(before.streams, s).maxSeq
      {
        WrittenIsBounded(before, items, i, whole);
        ItemKeyParts(items[i]);
      }
    }
  }

  lemma WrittenNewestRenews(before: Database, items: seq<Received>, s: Bytes, whole: Database)
    requires IndexAgrees(before) && whole == InsertAll(before, items) && IndexAgrees(whole)
    requires s in before.streams && s in whole.streams && Writes(items, NewestKey(whole, s))
    ensures Renews(before.streams, items, s)
  {
    hide InsertAll, DecodeEntry, Decode64, StreamKey, PacketKey, Encodable;
    var newest := NewestKey(whole, s);
    PacketKeyParts(s, EntryOf(whole.streams, s).maxSeq);
    var i :| 0 <= i < |items| && Keyable(items[i]) && KeyOf(items[i]) == newest;
    ItemKeyParts(items[i]);
    assert NewestStored(before, s);
    PacketKeyParts(s, EntryOf(before.streams, s).maxSeq);
    WriteAddsItsKeys(before, items, NewestKey(before, s));
    assert PacketIndexed(whole, NewestKey(before, s));
  }

  /** What the write merged with an entry for s still holds: its newest packet is there, or the write brings a newer. */
  predicate StaysCurrent(before: Database, db: Database, items: seq<Received>, s: Bytes)
    requires Registered(before.streams, s)
  {
    NewestKey(before, s) in db.packets || Renews(before.streams, items, s)
  }

  lemma TouchedNewestIff(snapshot: map<Bytes, Bytes>, before: Database, db: Database, items: seq<Received>, s: Bytes,
        after: Database)
    requires EntryReadFrom(snapshot, before, db, s) && Touches(items, s)
    requires after == StaleWrite(snapshot, db, items) && WellFormed(after)
    ensures s in after.streams && Registered(after.streams, s)
    ensures NewestStored(after, s) <==> (s in before.streams ==> StaysCurrent(before, db, items, s))
  {
    hide InsertAll, StaleWrite, Touches, Writes, Renews, DecodeEntry, Decode64;
    var whole := InsertAll(before, items);
    WriteKeepsIndex(before, items);
    StaleWriteEntry(snapshot, before, db, items, s);
    NewestIsWrittenIff(before, items, s, whole);
    StaleWritePacket(snapshot, before, db, items, NewestKey(whole, s));
    if !Writes(items, NewestKey(whole, s)) {
      UnwrittenNewestIsOld(before, items, s, whole);
    }
  }

  lemma UntouchedNewest(snapshot: map<Bytes, Bytes>, db: Database, items: seq<Received>, s: Bytes, after: Database)
    requires IndexAgrees(db) && !Touches(items, s)
    requires after == StaleWrite(snapshot, db, items) && WellFormed(after) && s in after.streams
    ensures NewestStored(after, s)
  {
    hide InsertAll, StaleWrite, Touches, Writes, DecodeEntry, Decode64;
    StaleWriteEntry(snapshot, db, db, items, s);
    assert NewestStored(db, s);
    StaleWritePacket(snapshot, db, db, items, NewestKey(db, s));
  }

  lemma UnwrittenNewestIsOld(before: Database, items: seq<Received>, s: Bytes, whole: Database)
    requires IndexAgrees(before) && whole == InsertAll(before, items) && IndexAgrees(whole)
    requires s in before.streams && s in whole.streams && NewestKey(whole, s) in before.packets
    ensures NewestKey(whole, s) == NewestKey(before, s)
  {
    hide InsertAll, DecodeEntry, Decode64;
    assert NewestStored(before, s);
    PacketKeyParts(s, EntryOf(before.streams, s).maxSeq);
    PacketKeyParts(s, EntryOf(whole.streams, s).maxSeq);
    WriteAddsItsKeys(before, items, NewestKey(before, s));
    assert PacketIndexed(whole, NewestKey(before, s));
    assert PacketIndexed(before, NewestKey(whole, s));
  }

  /**
   A write commits after packets were removed behind its registry reads, each read at its own
   moment: the index survives exactly when every stream it touches keeps the newest packet that
   was read of it, or gets one at least as new.
   */
  lemma StaleWriteKeepsIndexIff(snapshot: map<Bytes, Bytes>, origins: map<Bytes, Database>, db: Database,
        items: seq<Received>)
    requires IndexAgrees(db) && ReadFrom(snapshot, origins, db, items)
    ensures IndexAgrees(StaleWrite(snapshot, db, items)) <==>
            forall s | Touches(items, s) && s in origins[s].streams :: StaysCurrent(origins[s], db, items, s)
  {
    hide StaleWrite, InsertAll, Touches, StaysCurrent, DecodeEntry, Remains;
    var after := StaleWrite(snapshot, db, items);
    StaleWriteShape(snapshot, origins, db, items);
    forall k | k in after.packets ensures PacketIndexed(after, k) {
      StaleWriteIndexed(snapshot, origins, db, items, k, after);
    }
    if IndexAgrees(after) {
      forall s | Touches(items, s) && s in origins[s].streams ensures StaysCurrent(origins[s], db, items, s) {
        TouchedNewestIff(snapshot, origins[s], db, items, s, after);
        assert NewestStored(after, s);
      }
    }
    if forall s | Touches(items, s) && s in origins[s].streams :: StaysCurrent(origins[s], db, items, s) {
      forall s | s in after.streams ensures NewestStored(after, s) {
        if Touches(items, s) {
          TouchedNewestIff(snapshot, origins[s], db, items, s, after);
        } else {
          UntouchedNewest(snapshot, db, items, s, after);
        }
      }
    }
  }

  /** All of a write's reads answered by one store. */
  function AllFrom(before: Database, items: seq<Received>): map<Bytes, Database> {
    map s | s in InsertAll(before, items).streams && Touches(items, s) :: before
  }

  lemma AllFromReads(before: Database, db: Database, items: seq<Received>)
    requires IndexAgrees(before) && Remains(before.packets, db.packets)
    ensures ReadFrom(before.streams, AllFrom(before, items), db, items)
  {
    hide InsertAll, Touches, IndexAgrees, Remains;
    forall s | Touches(items, s) ensures s in AllFrom(before, items) {
      WriteTouchesOnlyItsStreams(before, items, s);
    }
  }

  lemma PurgeRemains(db: Database, cutoff: U64)
    ensures Remains(db.packets, Purge(db, cutoff).packets)
  {
    hide Purged;
  }

  /** A purge removes the newest packet of exactly the streams it reaps. */
  lemma NewestSurvivesIff(before: Database, cutoff: U64, s: Bytes)
    requires IndexAgrees(before) && s in before.streams
    ensures NewestKey(before, s) in Purge(before, cutoff).packets <==> !Reaped(before.streams, s, cutoff)
  {
    hide Purge, DecodeEntry, Decode64;
    assert NewestStored(before, s);
    PacketKeyParts(s, EntryOf(before.streams, s).maxSeq);
    PurgeIsGlobalCut(before, cutoff);
    RegisteredIffStored(before, s);
  }

  /**
   With a truncation in the gap: the index survives exactly when every stream it reaped and the
   write touches gets a packet at least as new as the newest reaped.
   */
  lemma TruncatedWriteKeepsIndexIff(before: Database, cutoff: U64, items: seq<Received>)
    requires IndexAgrees(before)
    ensures IndexAgrees(StaleWrite(before.streams, Purge(before, cutoff), items)) <==>
            forall s | s in before.streams && Reaped(before.streams, s, cutoff) && Touches(items, s) ::
              Renews(before.streams, items, s)
  {
    hide StaleWrite, Purge, InsertAll, Touches, Renews, DecodeEntry, Remains;
    PurgeKeepsIndex(before, cutoff);
    PurgeRemains(before, cutoff);
    AllFromReads(before, Purge(before, cutoff), items);
    StaleWriteKeepsIndexIff(before.streams, AllFrom(before, items), Purge(before, cutoff), items);
    forall s | s in before.streams
      ensures StaysCurrent(before, Purge(before, cutoff), items, s) <==>
              (Reaped(before.streams, s, cutoff) ==> Renews(before.streams, items, s))
    {
      NewestSurvivesIff(before, cutoff, s);
    }
  }

  /** Broker numbers always renew. */
  lemma FreshRenews(before: Database, items: seq<Received>, s: Bytes)
    requires Fresh(items, GlobalMax(before.streams)) && Registered(before.streams, s) && Touches(items, s)
    ensures Renews(before.streams, items, s)
  {
    hide DecodeEntry, StreamKey, Encodable;
    var i :| 0 <= i < |items| && Keyable(items[i]) && StreamKeyOf(items[i]) == s;
  }

  /** So a truncation in the gap of a broker's write does no harm. */
  lemma StaleWriteIsSafe(before: Database, cutoff: U64, items: seq<Received>)
    requires IndexAgrees(before) && Fresh(items, GlobalMax(before.streams))
    ensures IndexAgrees(StaleWrite(before.streams, Purge(before, cutoff), items))
  {
    hide StaleWrite, Purge, InsertAll, DecodeEntry, Renews, Touches, Fresh;
    TruncatedWriteKeepsIndexIff(before, cutoff, items);
    forall s | s in before.streams && Touches(items, s) ensures Renews(before.streams, items, s) {
      FreshRenews(before, items, s);
    }
  }

  /** Without broker numbering it does: number 5 is truncated while number 3 of its stream is written. */
  lemma StaleWriteBreaksIndex(item: Received, at: I64, payload: Bytes)
    requires Keyable(item) && item.packet.sequenceNumber == 3
    ensures var one := Put(EMPTY, StreamKeyOf(item), 5, at, payload);
            IndexAgrees(one) && Purge(one, 6) == EMPTY && !IndexAgrees(StaleWrite(one.streams, EMPTY, [item]))
  {
    hide EncodeEntry, DecodeEntry, EncodeValue, StreamKey, PacketKey, Encodable, Encode64;
    var s := StreamKeyOf(item);
    var one := Put(EMPTY, s, 5, at, payload);
    PutKeepsIndex(EMPTY, s, 5, at, payload);
    PutEntry(EMPTY, s, 5, at, payload);
    PacketKeyParts(s, 5);
    PurgeIsGlobalCut(one, 6);
    assert Purge(one, 6).packets == map[] && Purge(one, 6).streams == map[];
    var after := StaleWrite(one.streams, EMPTY, [item]);
    OneItem(EMPTY, item);
    OneItem(one, item);
    ItemKeyParts(item);
    assert Touches([item], s) by { assert [item][0] == item; }
    StaleWriteEntry(one.streams, one, EMPTY, [item], s);
    PutEntry(one, s, 3, item.at, Serialized(item.packet));
    assert EntryOf(after.streams, s).maxSeq == 5;
    assert after.packets.Keys == {KeyOf(item)};
    if WellFormed(after) {
      assert NewestKey(after, s) != KeyOf(item);
      assert !NewestStored(after, s);
    }
  }

  lemma OneItem(db: Database, item: Received)
    ensures InsertAll(db, [item]) == Insert(db, item)
  {
    assert [item][..0] == [];
  }
}
