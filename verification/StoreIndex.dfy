/**
 The registry is a hand-maintained index over the packets. This module states when it agrees
 with them and shows that every run of writes and truncations, with any commits failing,
 keeps it so.
 */
module StoreIndex {
  import opened ByteStrings
  import opened KeyCodec
  import opened StoreModel

  ghost predicate WellFormed(db: Database) {
    && (forall k | k in db.packets ::
          |k| == PACKET_KEY_LENGTH && |db.packets[k]| >= PACKETS_HEADER_LENGTH)
    && (forall s | s in db.streams :: |s| == STREAM_KEY_LENGTH && |db.streams[s]| == STREAMS_VALUE_LENGTH)
  }

  /** An entry bounds one stored packet. */
  predicate Covers(e: Entry, n: U64, at: I64) {
    e.minSeq <= n <= e.maxSeq && at <= e.lastReceived
  }

  /** The stream of a stored packet is registered and its entry bounds the packet. */
  predicate PacketIndexed(db: Database, k: Bytes)
    requires k in db.packets && |k| == PACKET_KEY_LENGTH && |db.packets[k]| >= PACKETS_HEADER_LENGTH
  {
    && Registered(db.streams, StreamOf(k))
    && Covers(EntryOf(db.streams, StreamOf(k)), SequenceOf(k), ReceivedAt(db.packets[k]))
  }

  /** The key of the newest packet an entry claims. */
  function NewestKey(db: Database, s: Bytes): Bytes
    requires Registered(db.streams, s)
  {
    s + Encode64(EntryOf(db.streams, s).maxSeq)
  }

  predicate NewestStored(db: Database, s: Bytes)
    requires Registered(db.streams, s)
  {
    NewestKey(db, s) in db.packets
  }

  /** Registered streams are exactly those with packets; min bounds below, max is attained, last bounds above. */
  ghost predicate IndexAgrees(db: Database) {
    && WellFormed(db)
    && (forall k {:trigger PacketIndexed(db, k)} | k in db.packets :: PacketIndexed(db, k))
    && (forall s {:trigger NewestStored(db, s)} | s in db.streams :: NewestStored(db, s))
  }

  /** Read off the index: a stream is registered exactly when it holds a packet. */
  lemma RegisteredIffStored(db: Database, s: Bytes)
    requires IndexAgrees(db)
    ensures s in db.streams <==> exists k :: k in db.packets && StreamOf(k) == s
    ensures s in db.streams ==> EntryOf(db.streams, s).minSeq <= EntryOf(db.streams, s).maxSeq
  {
    forall k | k in db.packets ensures StreamOf(k) in db.streams {
      assert PacketIndexed(db, k);
    }
    if s in db.streams {
      var k := NewestKey(db, s);
      assert NewestStored(db, s);
      PacketKeyParts(s, EntryOf(db.streams, s).maxSeq);
      assert PacketIndexed(db, k) && StreamOf(k) == s;
    }
  }

  // ------------------------------------------------------------------- writes

  lemma PutEntry(db: Database, s: Bytes, n: U64, at: I64, payload: Bytes)
    ensures Registered(Put(db, s, n, at, payload).streams, s)
    ensures EntryOf(Put(db, s, n, at, payload).streams, s) == Merged(db.streams, s, Entry(n, n, at))
  {
    EntryRoundTrip(Merged(db.streams, s, Entry(n, n, at)));
  }

  lemma PutKeepsPacketIndexed(db: Database, s: Bytes, n: U64, at: I64, payload: Bytes, k: Bytes)
    requires IndexAgrees(db) && |s| == STREAM_KEY_LENGTH
    requires WellFormed(Put(db, s, n, at, payload)) && k in Put(db, s, n, at, payload).packets
    ensures PacketIndexed(Put(db, s, n, at, payload), k)
  {
    PutEntry(db, s, n, at, payload);
    PacketKeyParts(s, n);
    if k == s + Encode64(n) {
      ValueRoundTrip(at, payload);
    } else {
      assert PacketIndexed(db, k);
    }
  }

  lemma PutKeepsNewest(db: Database, s: Bytes, n: U64, at: I64, payload: Bytes, t: Bytes)
    requires IndexAgrees(db) && |s| == STREAM_KEY_LENGTH
    requires WellFormed(Put(db, s, n, at, payload)) && t in Put(db, s, n, at, payload).streams
    ensures NewestStored(Put(db, s, n, at, payload), t)
  {
    PutEntry(db, s, n, at, payload);
    if t in db.streams {
      assert NewestStored(db, t);
    }
  }

  /** Storing one packet keeps the index in agreement. */
  lemma PutKeepsIndex(db: Database, s: Bytes, n: U64, at: I64, payload: Bytes)
    requires IndexAgrees(db) && |s| == STREAM_KEY_LENGTH
    ensures IndexAgrees(Put(db, s, n, at, payload))
  {
    var after := Put(db, s, n, at, payload);
    assert WellFormed(after);
    forall k | k in after.packets ensures PacketIndexed(after, k) {
      PutKeepsPacketIndexed(db, s, n, at, payload, k);
    }
    forall t | t in after.streams ensures NewestStored(after, t) {
      PutKeepsNewest(db, s, n, at, payload, t);
    }
  }

  lemma InsertKeepsIndex(db: Database, item: Received)
    requires IndexAgrees(db)
    ensures IndexAgrees(Insert(db, item))
  {
    if Keyable(item) {
      PutKeepsIndex(db, StreamKeyOf(item), item.packet.sequenceNumber, item.at, Serialized(item.packet));
    }
  }

  lemma {:induction false} WriteKeepsIndex(db: Database, items: seq<Received>)
    requires IndexAgrees(db)
    ensures IndexAgrees(InsertAll(db, items))
  {
    if items != [] {
      WriteKeepsIndex(db, items[..|items| - 1]);
      InsertKeepsIndex(InsertAll(db, items[..|items| - 1]), items[|items| - 1]);
    }
  }

  /** Splitting a batch changes nothing: packets, registry and rejects are those of one batch. */
  lemma {:induction false} BatchSplit(db: Database, a: seq<Received>, b: seq<Received>)
    ensures InsertAll(InsertAll(db, a), b) == InsertAll(db, a + b)
    ensures Unkeyable(a) + Unkeyable(b) == Unkeyable(a + b)
    decreases |b|
  {
    if b == [] {
      assert a + b == a;
    } else {
      var init := b[..|b| - 1];
      assert (a + b)[..|a + b| - 1] == a + init;
      BatchSplit(db, a, init);
    }
  }

  /** Item i decides what is stored under its key: no later item has the same key. */
  predicate LastForKey(items: seq<Received>, i: nat)
    requires i < |items|
  {
    Keyable(items[i]) &&
    forall j :: i < j < |items| && Keyable(items[j]) ==> KeyOf(items[j]) != KeyOf(items[i])
  }

  /** After a write every keyable item is stored under its key, the last one winning. */
  lemma {:induction false} LastOneWins(db: Database, items: seq<Received>, i: nat)
    requires i < |items| && LastForKey(items, i)
    ensures KeyOf(items[i]) in InsertAll(db, items).packets
    ensures InsertAll(db, items).packets[KeyOf(items[i])] == EncodeValue(items[i].at, Serialized(items[i].packet))
  {
    if i < |items| - 1 {
      LastOneWins(db, items[..|items| - 1], i);
    }
  }

  /** A write touches no key but those of its items. */
  lemma {:induction false} WriteTouchesOnlyItsKeys(db: Database, items: seq<Received>, k: Bytes)
    requires forall i :: 0 <= i < |items| && Keyable(items[i]) ==> KeyOf(items[i]) != k
    ensures k in InsertAll(db, items).packets <==> k in db.packets
    ensures k in db.packets ==> InsertAll(db, items).packets[k] == db.packets[k]
  {
    if items != [] {
      WriteTouchesOnlyItsKeys(db, items[..|items| - 1], k);
    }
  }

  /** A write only adds keys, and the new ones belong to its items. */
  lemma {:induction false} WriteAddsItsKeys(db: Database, items: seq<Received>, k: Bytes)
    ensures k in db.packets ==> k in InsertAll(db, items).packets
    ensures k in InsertAll(db, items).packets && k !in db.packets ==>
              exists i :: 0 <= i < |items| && Keyable(items[i]) && KeyOf(items[i]) == k
  {
    if items != [] {
      var init := items[..|items| - 1];
      WriteAddsItsKeys(db, init, k);
      if k in InsertAll(db, init).packets && k !in db.packets {
        var i :| 0 <= i < |init| && Keyable(init[i]) && KeyOf(init[i]) == k;
        assert Keyable(items[i]) && KeyOf(items[i]) == k;
      }
    }
  }

  /** Every keyable item has something stored under its key afterwards. */
  lemma {:induction false} KeyableStored(db: Database, items: seq<Received>, i: nat)
    requires i < |items| && Keyable(items[i])
    ensures KeyOf(items[i]) in InsertAll(db, items).packets
  {
    if i < |items| - 1 {
      KeyableStored(db, items[..|items| - 1], i);
    }
  }

  /** The last keyable item with a given key, when there is one. */
  lemma {:induction false} LastWriterOf(items: seq<Received>, k: Bytes) returns (i: nat)
    requires exists j :: 0 <= j < |items| && Keyable(items[j]) && KeyOf(items[j]) == k
    ensures i < |items| && LastForKey(items, i) && KeyOf(items[i]) == k
  {
    hide StreamKey, PacketKey, Encodable, StreamKeyOf;
    var n := |items| - 1;
    if Keyable(items[n]) && KeyOf(items[n]) == k {
      i := n;
    } else {
      var j :| 0 <= j < |items| && Keyable(items[j]) && KeyOf(items[j]) == k;
      assert items[..n][j] == items[j];
      i := LastWriterOf(items[..n], k);
    }
  }

  /** The packets a write hands back are the unkeyable ones, in input order. */
  lemma {:induction false} UnkeyableMeaning(items: seq<Received>, p: Packet)
    ensures p in Unkeyable(items) <==> exists i :: 0 <= i < |items| && items[i].packet == p && !Keyable(items[i])
    ensures |Unkeyable(items)| <= |items|
  {
    if items != [] {
      var init, last := items[..|items| - 1], items[|items| - 1];
      UnkeyableMeaning(init, p);
      if p in Unkeyable(init) {
        var i :| 0 <= i < |init| && init[i].packet == p && !Keyable(init[i]);
        assert items[i].packet == p;
      }
      if exists i :: 0 <= i < |items| && items[i].packet == p && !Keyable(items[i]) {
        var i :| 0 <= i < |items| && items[i].packet == p && !Keyable(items[i]);
        assert i < |init| ==> init[i].packet == p;
      }
    }
  }

  // -------------------------------------------------------------- truncations

  /** The packets from a sequence number on, in every stream. */
  function KeepFrom(packets: map<Bytes, Bytes>, cutoff: int): map<Bytes, Bytes>
    requires KeysAreWide(packets)
  {
    map k | k in packets && SequenceOf(k) >= cutoff :: packets[k]
  }

  /** Streams the registry skips provably hold nothing older than the cutoff. */
  lemma PurgedIffOlder(db: Database, cutoff: U64, k: Bytes)
    requires IndexAgrees(db) && k in db.packets
    ensures Purged(db.streams, cutoff, k) <==> SequenceOf(k) < cutoff
  {
    assert PacketIndexed(db, k);
    if Purged(db.streams, cutoff, k) {
      var s :| s in db.streams && Selected(db.streams, s, cutoff) && InRange(s, cutoff, k);
      RangeIsOlderTail(s, cutoff, k);
    }
    if SequenceOf(k) < cutoff {
      var s := StreamOf(k);
      RangeIsOlderTail(s, cutoff, k);
      assert Selected(db.streams, s, cutoff) && InRange(s, cutoff, k);
    }
  }

  /** The per-stream byte-range deletes drop exactly the older packets of every stream. */
  lemma PurgeIsGlobalCut(db: Database, cutoff: U64)
    requires IndexAgrees(db)
    ensures Purge(db, cutoff).packets == KeepFrom(db.packets, cutoff)
  {
    forall k | k in db.packets ensures Purged(db.streams, cutoff, k) <==> SequenceOf(k) < cutoff {
      PurgedIffOlder(db, cutoff, k);
    }
  }

  lemma PurgeEntryOf(db: Database, cutoff: U64, s: Bytes, after: map<Bytes, Bytes>)
    requires IndexAgrees(db) && after == Purge(db, cutoff).streams && s in after
    ensures s in db.streams && |after[s]| == STREAMS_VALUE_LENGTH
    ensures var e := EntryOf(db.streams, s);
            EntryOf(after, s) == e.(minSeq := Max(e.minSeq, cutoff)) && e.maxSeq >= cutoff
  {
    EntryRoundTrip(AdvancedEntry(EntryOf(db.streams, s), cutoff));
    RegisteredIffStored(db, s);
  }

  lemma PurgeKeepsPacketIndexed(db: Database, cutoff: U64, k: Bytes)
    requires IndexAgrees(db) && k in db.packets && SequenceOf(k) >= cutoff && k in Purge(db, cutoff).packets
    ensures PacketIndexed(Purge(db, cutoff), k)
  {
    assert PacketIndexed(db, k);
    assert !Reaped(db.streams, StreamOf(k), cutoff);
    PurgeEntryOf(db, cutoff, StreamOf(k), Purge(db, cutoff).streams);
  }

  lemma PurgeKeepsNewest(db: Database, cutoff: U64, s: Bytes, after: Database)
    requires IndexAgrees(db) && after == Purge(db, cutoff) && s in after.streams
    ensures Registered(after.streams, s) && NewestStored(after, s)
  {
    PurgeIsGlobalCut(db, cutoff);
    PurgeEntryOf(db, cutoff, s, after.streams);
    assert NewestStored(db, s);
    PacketKeyParts(s, EntryOf(db.streams, s).maxSeq);
  }

  /** Purging up to any cutoff keeps the index in agreement. */
  lemma PurgeKeepsIndex(db: Database, cutoff: U64)
    requires IndexAgrees(db)
    ensures IndexAgrees(Purge(db, cutoff))
  {
    var after := Purge(db, cutoff);
    PurgeIsGlobalCut(db, cutoff);
    forall s | s in after.streams
      ensures s in db.streams && |after.streams[s]| == STREAMS_VALUE_LENGTH && NewestStored(after, s)
    {
      PurgeEntryOf(db, cutoff, s, after.streams);
      PurgeKeepsNewest(db, cutoff, s, after);
    }
    assert WellFormed(after);
    forall k | k in after.packets ensures PacketIndexed(after, k) {
      PurgeKeepsPacketIndexed(db, cutoff, k);
    }
  }

  lemma TruncateKeepsIndex(db: Database, n: U64)
    requires IndexAgrees(db)
    ensures IndexAgrees(Truncate(db, n))
  {
    PurgeKeepsIndex(db, Cutoff(db.streams, n));
  }

  // -------------------------------------------------------------------- runs

  /** A store call and whether its commit succeeds. */
  datatype Command =
    | WriteBatch(items: seq<Received>, commits: bool)
    | TruncateOldest(n: U64, commits: bool)

  ghost function Exec(db: Database, c: Command): Database {
    if !c.commits then db
    else match c
      case WriteBatch(items, _) => InsertAll(db, items)
      case TruncateOldest(n, _) => Truncate(db, n)
  }

  ghost function Run(db: Database, commands: seq<Command>): Database {
    if commands == [] then db
    else Exec(Run(db, commands[..|commands| - 1]), commands[|commands| - 1])
  }

  lemma {:induction false} RunKeepsIndex(db: Database, commands: seq<Command>)
    requires IndexAgrees(db)
    ensures IndexAgrees(Run(db, commands))
  {
    if commands != [] {
      var init, c := commands[..|commands| - 1], commands[|commands| - 1];
      RunKeepsIndex(db, init);
      if c.commits {
        match c
        case WriteBatch(items, _) => WriteKeepsIndex(Run(db, init), items);
        case TruncateOldest(n, _) => TruncateKeepsIndex(Run(db, init), n);
      }
    }
  }

  /** The index agrees with the packets in every state a store can reach. */
  lemma ReachableIndexAgrees(commands: seq<Command>)
    ensures IndexAgrees(Run(EMPTY, commands))
  {
    RunKeepsIndex(EMPTY, commands);
  }

  // --------------------------------------------------------- recovery by scan

  /** The recovered counter bounds every stored sequence number and is one of them, unless nothing is stored. */
  lemma GlobalMaxIsNewestStored(db: Database)
    requires IndexAgrees(db)
    ensures forall k | k in db.packets :: SequenceOf(k) <= GlobalMax(db.streams)
    ensures db.packets == map[] ==> GlobalMax(db.streams) == 0
    ensures db.packets != map[] ==> exists k :: k in db.packets && SequenceOf(k) == GlobalMax(db.streams)
  {
    forall k | k in db.packets ensures SequenceOf(k) <= GlobalMax(db.streams) {
      assert PacketIndexed(db, k);
    }
    if db.packets == map[] {
      forall s ensures !Registered(db.streams, s) {
        RegisteredIffStored(db, s);
      }
    } else {
      var k0 :| k0 in db.packets;
      assert PacketIndexed(db, k0);
      var hi := GlobalMax(db.streams);
      var s: Bytes;
      if hi == 0 {
        s := StreamOf(k0);
      } else {
        s :| Registered(db.streams, s) && EntryOf(db.streams, s).maxSeq == hi;
      }
      assert NewestStored(db, s);
      PacketKeyParts(s, EntryOf(db.streams, s).maxSeq);
      assert SequenceOf(NewestKey(db, s)) == hi;
    }
  }
}
