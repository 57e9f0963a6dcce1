/**
 What the two read operations tell a subscriber: a query is one canonical stream's stored
 packets in ascending sequence order, and the available streams are those with packets.
 */
module QueryMeaning {
  import opened ByteStrings
  import opened KeyCodec
  import opened StoreModel
  import opened StoreIndex

  predicate StrictlyAscending(rs: seq<Response>) {
    forall i, j :: 0 <= i < j < |rs| ==> rs[i].sequenceNumber < rs[j].sequenceNumber
  }

  lemma MatchingOrder(packets: map<Bytes, Bytes>, s: Bytes, start: U64, i: nat, j: nat)
    requires KeysAreWide(packets) && |s| == STREAM_KEY_LENGTH
    requires i < j < |AnswerOne(packets, s, start)|
    ensures AnswerOne(packets, s, start)[i].sequenceNumber < AnswerOne(packets, s, start)[j].sequenceNumber
  {
    hide SortedKeys, Decode64, Less;
    var order := SortedKeys(Matching(packets, s, start));
    SortedKeysMeaning(Matching(packets, s, start));
    assert order[i] in order && order[j] in order;
    KeyAgainst(s, SequenceOf(order[j]), order[i]);
    PacketKeyRejoin(order[j]);
    LessIrreflexive(s);
  }

  /** A query answers with exactly the readable packets of that stream from start on, each once, ascending. */
  lemma AnswerOneMeaning(packets: map<Bytes, Bytes>, s: Bytes, start: U64)
    requires KeysAreWide(packets) && |s| == STREAM_KEY_LENGTH
    ensures StrictlyAscending(AnswerOne(packets, s, start))
    ensures forall r :: r in AnswerOne(packets, s, start) <==>
                        exists k :: k in Matching(packets, s, start) && r == ResponseAt(packets, k)
  {
    hide SortedKeys, ResponseAt, Matching;
    var rs := AnswerOne(packets, s, start);
    forall i, j | 0 <= i < j < |rs| ensures rs[i].sequenceNumber < rs[j].sequenceNumber {
      MatchingOrder(packets, s, start, i, j);
    }
    AnswerOneContents(packets, s, start);
  }

  lemma AnswerOneContents(packets: map<Bytes, Bytes>, s: Bytes, start: U64)
    requires KeysAreWide(packets)
    ensures forall k | k in Matching(packets, s, start) ::
              k in packets && |k| == PACKET_KEY_LENGTH && |packets[k]| >= PACKETS_HEADER_LENGTH
    ensures forall r :: r in AnswerOne(packets, s, start) <==>
                        exists k :: k in Matching(packets, s, start) && r == ResponseAt(packets, k)
  {
    hide SortedKeys, ResponseAt;
    var keys := Matching(packets, s, start);
    var order := SortedKeys(keys);
    var rs := AnswerOne(packets, s, start);
    SortedKeysMeaning(keys);
    forall r | r in rs ensures exists k :: k in keys && r == ResponseAt(packets, k) {
      var i :| 0 <= i < |rs| && rs[i] == r;
      assert order[i] in order;
      assert r == ResponseAt(packets, order[i]);
    }
    forall k | k in keys ensures ResponseAt(packets, k) in rs {
      assert k in order;
      var i :| 0 <= i < |order| && order[i] == k;
      assert rs[i] == ResponseAt(packets, k);
    }
  }

  /** On a store whose index agrees, nothing of the stream is skipped and nothing of a neighbour appears. */
  lemma QueryIsExact(db: Database, id: Identifier, start: U64)
    requires IndexAgrees(db) && Encodable(id)
    ensures var rs := AnswerOne(db.packets, StreamKey(id).value, start);
            StrictlyAscending(rs) &&
            forall r :: r in rs <==>
                        exists k :: k in db.packets && StreamOf(k) == StreamKey(id).value && SequenceOf(k) >= start &&
                                    r == ResponseAt(db.packets, k)
  {
    var s := StreamKey(id).value;
    AnswerOneMeaning(db.packets, s, start);
    QueryMatches(db, s, start);
  }

  /** The answer to a list of requests is the answers to its parts, in order. */
  lemma {:induction false} AnswerSplits(packets: map<Bytes, Bytes>, a: seq<Request>, b: seq<Request>)
    requires KeysAreWide(packets)
    ensures Answer(packets, a + b) == Answer(packets, a) + Answer(packets, b)
    decreases |b|
  {
    hide AnswerOne, StreamKey;
    if b == [] {
      assert a + b == a;
    } else {
      assert (a + b)[..|a + b| - 1] == a + b[..|b| - 1];
      AnswerSplits(packets, a, b[..|b| - 1]);
    }
  }

  /**
   What Query returns for one request: nothing if no key can be built for it, else exactly that
   stream's readable packets from the requested number on, strictly ascending, each with the
   number of its key and the time and bytes of its value.
   */
  lemma AnswerToOne(packets: map<Bytes, Bytes>, q: Request)
    requires KeysAreWide(packets)
    ensures !Encodable(q.identifier) ==> Answer(packets, [q]) == []
    ensures Encodable(q.identifier) ==>
              && StrictlyAscending(Answer(packets, [q]))
              && forall r :: r in Answer(packets, [q]) <==> Requested(packets, q, r)
  {
    hide AnswerOne, StreamKey;
    assert [q][..0] == [];
    assert Answer(packets, [q]) ==
           if Encodable(q.identifier) then AnswerOne(packets, StreamKey(q.identifier).value, q.start) else [];
    if Encodable(q.identifier) {
      AnswerOneMeaning(packets, StreamKey(q.identifier).value, q.start);
      forall r ensures r in AnswerOne(packets, StreamKey(q.identifier).value, q.start) <==> Requested(packets, q, r) {
        MatchesAreRequested(packets, q, r);
      }
    }
  }

  /** r is a stored packet that q asks for. */
  ghost predicate Requested(packets: map<Bytes, Bytes>, q: Request, r: Response)
    requires KeysAreWide(packets) && Encodable(q.identifier)
  {
    exists k :: k in packets && AsksFor(q, k) && |packets[k]| >= PACKETS_HEADER_LENGTH &&
                r == Response(PayloadOf(packets[k]), ReceivedAt(packets[k]), SequenceOf(k))
  }

  predicate AsksFor(q: Request, k: Bytes)
    requires Encodable(q.identifier) && |k| == PACKET_KEY_LENGTH
  {
    StreamOf(k) == StreamKey(q.identifier).value && SequenceOf(k) >= q.start
  }

  lemma MatchesAreRequested(packets: map<Bytes, Bytes>, q: Request, r: Response)
    requires KeysAreWide(packets) && Encodable(q.identifier)
    ensures (exists k :: k in Matching(packets, StreamKey(q.identifier).value, q.start) && r == ResponseAt(packets, k))
            <==> Requested(packets, q, r)
  {
    hide StreamKey, Decode64;
    if Requested(packets, q, r) {
      var k :| k in packets && AsksFor(q, k) && |packets[k]| >= PACKETS_HEADER_LENGTH &&
               r == Response(PayloadOf(packets[k]), ReceivedAt(packets[k]), SequenceOf(k));
      assert k in Matching(packets, StreamKey(q.identifier).value, q.start) && r == ResponseAt(packets, k);
    }
    if k :| k in Matching(packets, StreamKey(q.identifier).value, q.start) && r == ResponseAt(packets, k) {
      assert k in packets && AsksFor(q, k);
    }
  }

  /** On a store whose index agrees every value is readable, so nothing the request asks for is left out. */
  lemma AnswerIsExact(db: Database, q: Request, r: Response)
    requires IndexAgrees(db) && Encodable(q.identifier)
    ensures StrictlyAscending(Answer(db.packets, [q]))
    ensures r in Answer(db.packets, [q]) <==>
            exists k :: k in db.packets && AsksFor(q, k) &&
                        r == Response(PayloadOf(db.packets[k]), ReceivedAt(db.packets[k]), SequenceOf(k))
  {
    hide AsksFor, StreamKey, Answer, Decode64;
    AnswerToOne(db.packets, q);
  }

  lemma QueryMatches(db: Database, s: Bytes, start: U64)
    requires IndexAgrees(db)
    ensures forall k :: k in Matching(db.packets, s, start) <==>
                        k in db.packets && StreamOf(k) == s && SequenceOf(k) >= start
  {
  }

  /** Every spelling of an identifier reads back what was written under any other: time, payload and number. */
  lemma QueryRecoversWrite(db: Database, items: seq<Received>, i: nat, id: Identifier, start: U64)
    requires IndexAgrees(db) && i < |items| && LastForKey(items, i)
    requires Encodable(id) && Canonical(id) == Canonical(items[i].packet.identifier)
    requires start <= items[i].packet.sequenceNumber
    ensures KeysAreWide(InsertAll(db, items).packets)
    ensures Response(Serialized(items[i].packet), items[i].at, items[i].packet.sequenceNumber)
            in AnswerOne(InsertAll(db, items).packets, StreamKey(id).value, start)
  {
    hide InsertAll, StreamKey, Canonical, SortedKeys;
    var after := InsertAll(db, items);
    var k := KeyOf(items[i]);
    WriteKeepsIndex(db, items);
    LastOneWins(db, items, i);
    ItemKeyParts(items[i]);
    ValueRoundTrip(items[i].at, Serialized(items[i].packet));
    SameKeyIffSameStream(id, items[i].packet.identifier);
    SameStreamKey(items[i], id);
    AnswerOneContents(after.packets, StreamKey(id).value, start);
    assert k in Matching(after.packets, StreamKey(id).value, start);
    assert ResponseAt(after.packets, k) ==
           Response(Serialized(items[i].packet), items[i].at, items[i].packet.sequenceNumber);
  }

  lemma SameStreamKey(item: Received, id: Identifier)
    requires Keyable(item) && Encodable(id)
    ensures StreamKeyOf(item) == StreamKey(id).value <==> Canonical(item.packet.identifier) == Canonical(id)
  {
    hide Encodable;
    SameKeyIffSameStream(id, item.packet.identifier);
    assert StreamKey(id).Ok? && StreamKey(item.packet.identifier).Ok?;
  }

  /** A committed write with an item under key k. */
  ghost predicate CommitsKey(command: Command, k: Bytes) {
    command.WriteBatch? && command.commits &&
    exists j :: 0 <= j < |command.items| && Keyable(command.items[j]) && KeyOf(command.items[j]) == k
  }

  /** Item i of the c-th command, a committed write, is the last word on key k. */
  ghost predicate LastWord(commands: seq<Command>, c: nat, i: nat, k: Bytes) {
    && c < |commands| && commands[c].WriteBatch? && commands[c].commits
    && i < |commands[c].items| && LastForKey(commands[c].items, i) && KeyOf(commands[c].items[i]) == k
    && forall d :: c < d < |commands| ==> !CommitsKey(commands[d], k)
  }

  lemma LastWordSnoc(commands: seq<Command>, c: nat, i: nat, k: Bytes)
    requires commands != [] && LastWord(commands[..|commands| - 1], c, i, k)
    requires !CommitsKey(commands[|commands| - 1], k)
    ensures LastWord(commands, c, i, k)
  {
    hide LastForKey, CommitsKey, StreamKey, PacketKey, Encodable;
    var init := commands[..|commands| - 1];
    assert forall d :: 0 <= d < |init| ==> init[d] == commands[d];
  }

  /** Whatever a store built by any run holds was written by the last committed item with its key. */
  lemma {:induction false} StoredHasLastWord(commands: seq<Command>, k: Bytes) returns (c: nat, i: nat)
    requires k in Run(EMPTY, commands).packets
    ensures LastWord(commands, c, i, k)
    ensures var item := commands[c].items[i];
            Run(EMPTY, commands).packets[k] == EncodeValue(item.at, Serialized(item.packet))
  {
    hide InsertAll, Purged, StreamKey, PacketKey, Encodable, LastWord;
    var n := |commands| - 1;
    var init, last := commands[..n], commands[n];
    if CommitsKey(last, k) {
      i := LastWriterOf(last.items, k);
      c := n;
      LastOneWins(Run(EMPTY, init), last.items, i);
      WroteLast(commands, i, k);
    } else {
      if last.WriteBatch? && last.commits {
        WriteTouchesOnlyItsKeys(Run(EMPTY, init), last.items, k);
      }
      c, i := StoredHasLastWord(init, k);
      LastWordSnoc(commands, c, i, k);
      LastWordIsCommand(init, c, i, k);
      assert init[c] == commands[c];
    }
  }

  lemma WroteLast(commands: seq<Command>, i: nat, k: Bytes)
    requires commands != []
    requires var last := commands[|commands| - 1];
             && last.WriteBatch? && last.commits
             && i < |last.items| && LastForKey(last.items, i) && KeyOf(last.items[i]) == k
    ensures LastWord(commands, |commands| - 1, i, k)
  {
  }

  lemma LastWordIsCommand(commands: seq<Command>, c: nat, i: nat, k: Bytes)
    requires LastWord(commands, c, i, k)
    ensures c < |commands| && commands[c].WriteBatch? && commands[c].commits && i < |commands[c].items|
    ensures Keyable(commands[c].items[i]) && KeyOf(commands[c].items[i]) == k
  {
  }

  /** Over every run from an empty store, whatever a query returns is the last thing committed to that very stream. */
  lemma QueryReturnsOnlyWritten(commands: seq<Command>, id: Identifier, start: U64, r: Response)
      returns (c: nat, i: nat, k: Bytes)
    requires Encodable(id) && KeysAreWide(Run(EMPTY, commands).packets)
    requires r in AnswerOne(Run(EMPTY, commands).packets, StreamKey(id).value, start)
    ensures LastWord(commands, c, i, k)
    ensures var item := commands[c].items[i];
            && Canonical(item.packet.identifier) == Canonical(id)
            && start <= item.packet.sequenceNumber
            && r == Response(Serialized(item.packet), item.at, item.packet.sequenceNumber)
  {
    hide Run, StreamKey, Canonical, SortedKeys, LastWord, Serialized;
    var packets := Run(EMPTY, commands).packets;
    AnswerOneContents(packets, StreamKey(id).value, start);
    k :| k in Matching(packets, StreamKey(id).value, start) && r == ResponseAt(packets, k);
    c, i := StoredHasLastWord(commands, k);
    LastWordIsCommand(commands, c, i, k);
    var item := commands[c].items[i];
    ItemKeyParts(item);
    ValueRoundTrip(item.at, Serialized(item.packet));
    SameStreamKey(item, id);
  }

  // --------------------------------------------------------- available streams

  /** Every registered key is the encoding of some identifier. */
  ghost predicate NamesStreams(streams: map<Bytes, Bytes>) {
    forall s | s in streams :: IsStreamKey(s)
  }

  lemma InsertKeepsNames(db: Database, item: Received)
    requires NamesStreams(db.streams)
    ensures NamesStreams(Insert(db, item).streams)
  {
    if Keyable(item) {
      assert StreamKey(item.packet.identifier) == Ok(StreamKeyOf(item));
      assert IsStreamKey(StreamKeyOf(item));
    }
  }

  lemma {:induction false} WriteKeepsNames(db: Database, items: seq<Received>)
    requires NamesStreams(db.streams)
    ensures NamesStreams(InsertAll(db, items).streams)
  {
    hide IsStreamKey, Insert;
    if items != [] {
      WriteKeepsNames(db, items[..|items| - 1]);
      InsertKeepsNames(InsertAll(db, items[..|items| - 1]), items[|items| - 1]);
    }
  }

  lemma PurgeKeepsNames(db: Database, cutoff: U64)
    requires NamesStreams(db.streams)
    ensures NamesStreams(Purge(db, cutoff).streams)
  {
    hide IsStreamKey, Purged, AdvancedValue, Reaped;
  }

  lemma {:induction false} ReachableNamesStreams(commands: seq<Command>)
    ensures NamesStreams(Run(EMPTY, commands).streams)
  {
    hide NamesStreams, Purge, InsertAll;
    if commands == [] {
      NothingNamed();
    } else {
      var init, c := commands[..|commands| - 1], commands[|commands| - 1];
      ReachableNamesStreams(init);
      if c.commits {
        match c
        case WriteBatch(items, _) => WriteKeepsNames(Run(EMPTY, init), items);
        case TruncateOldest(n, _) => PurgeKeepsNames(Run(EMPTY, init), Cutoff(Run(EMPTY, init).streams, n));
      }
    }
  }

  lemma NothingNamed()
    ensures NamesStreams(EMPTY.streams)
  {
  }

  lemma {:induction false} AvailableIsPointwise(streams: map<Bytes, Bytes>, order: seq<Bytes>)
    requires forall s | s in order :: Registered(streams, s) && |s| == STREAM_KEY_LENGTH
    ensures |AvailableStreams(streams, order)| == |order|
    ensures forall i :: 0 <= i < |order| ==>
              AvailableStreams(streams, order)[i] ==
              Available(EntryOf(streams, order[i]).lastReceived, DecodeStreamKey(order[i]))
  {
    hide DecodeStreamKey, DecodeEntry;
    assert forall s | s in order :: FromStreamKey(s).Ok?;
    if order != [] {
      AvailableIsPointwise(streams, order[..|order| - 1]);
      assert order[|order| - 1] in order;
    }
  }

  /** The decoded identifier of a stream key is canonical and encodes back to it. */
  lemma DecodedIsCanonical(s: Bytes)
    requires IsStreamKey(s)
    ensures |s| == STREAM_KEY_LENGTH
    ensures var id := DecodeStreamKey(s); Canonical(id) == id && Encodable(id) && StreamKey(id) == Ok(s)
  {
    hide DecodeStreamKey, Canonical;
    var id :| StreamKey(id) == Ok(s);
    StreamKeyRoundTrip(id);
    CanonicalIdempotent(id);
  }

  /** The available streams are exactly those that hold a packet, under their canonical names. */
  lemma AvailableStreamsMeaning(db: Database, id: Identifier)
    requires IndexAgrees(db) && NamesStreams(db.streams)
    requires Encodable(id) && Canonical(id) == id
    ensures (exists a :: a in Listing(db.streams) && a.identifier == id) <==>
            exists k :: k in db.packets && StreamOf(k) == StreamKey(id).value
  {
    hide StreamKey, Listing, IndexAgrees;
    RegisteredIffStored(db, StreamKey(id).value);
    IndexShape(db);
    ListedIffRegistered(db.streams, id);
  }

  predicate RegistryShaped(streams: map<Bytes, Bytes>) {
    forall s | s in streams :: Registered(streams, s) && |s| == STREAM_KEY_LENGTH
  }

  lemma IndexShape(db: Database)
    requires IndexAgrees(db)
    ensures RegistryShaped(db.streams)
  {
  }

  lemma ListedIffRegistered(streams: map<Bytes, Bytes>, id: Identifier)
    requires RegistryShaped(streams) && NamesStreams(streams)
    requires Encodable(id) && Canonical(id) == id
    ensures (exists a :: a in Listing(streams) && a.identifier == id) <==> StreamKey(id).value in streams
  {
    hide SortedKeys, StreamKey, Canonical, DecodeStreamKey, DecodeEntry, AvailableStreams, Encodable, IsStreamKey;
    var order := SortedKeys(streams.Keys);
    SortedKeysMeaning(streams.Keys);
    AvailableIsPointwise(streams, order);
    var list := Listing(streams);
    if StreamKey(id).value in streams {
      var i :| 0 <= i < |order| && order[i] == StreamKey(id).value;
      StreamKeyRoundTrip(id);
      assert list[i].identifier == id;
    }
    if a :| a in list && a.identifier == id {
      var i :| 0 <= i < |list| && list[i] == a;
      assert order[i] in order;
      DecodedIsCanonical(order[i]);
    }
  }

  lemma AvailableStreamsOrder(db: Database, i: nat, j: nat)
    requires IndexAgrees(db) && NamesStreams(db.streams)
    requires i < j < |Listing(db.streams)|
    ensures var list := Listing(db.streams);
            StreamBefore(list[i].identifier, list[j].identifier)
  {
    hide SortedKeys, StreamKey, Canonical, DecodeStreamKey, DecodeEntry, AvailableStreams, Decode64, StreamBefore, Less;
    var order := SortedKeys(db.streams.Keys);
    SortedKeysMeaning(db.streams.Keys);
    AvailableIsPointwise(db.streams, order);
    assert order[i] in order && order[j] in order;
    DecodedIsCanonical(order[i]);
    DecodedIsCanonical(order[j]);
    StreamKeyOrder(DecodeStreamKey(order[i]), DecodeStreamKey(order[j]));
  }

  /** The time listed for a stream is no earlier than the receipt of any of its stored packets. */
  lemma AvailableTimeBounds(db: Database, i: nat, k: Bytes)
    requires IndexAgrees(db) && k in db.packets
    requires i < |SortedKeys(db.streams.Keys)| && SortedKeys(db.streams.Keys)[i] == StreamOf(k)
    ensures i < |Listing(db.streams)|
    ensures ReceivedAt(db.packets[k]) <= Listing(db.streams)[i].lastReceived
  {
    hide SortedKeys, DecodeStreamKey, DecodeEntry, AvailableStreams, Decode64;
    var order := SortedKeys(db.streams.Keys);
    SortedKeysMeaning(db.streams.Keys);
    IndexShape(db);
    AvailableIsPointwise(db.streams, order);
    assert PacketIndexed(db, k);
  }
}
