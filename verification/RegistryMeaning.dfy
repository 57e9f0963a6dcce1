/**
 What a registry entry says: its bounds are not only bounds but numbers and times that were
 written, and the listing shows those times.
 */
module RegistryMeaning {
  import opened ByteStrings
  import opened KeyCodec
  import opened StoreModel
  import opened StoreIndex
  import opened Snapshots
  import opened QueryMeaning

  predicate OfStream(items: seq<Received>, i: nat, s: Bytes)
    requires i < |items|
  {
    Keyable(items[i]) && StreamKeyOf(items[i]) == s
  }

  /** e bounds the old entry of s, if it can be read, and every item of s. */
  ghost predicate Bounds(streams: map<Bytes, Bytes>, items: seq<Received>, s: Bytes, e: Entry) {
    && (Registered(streams, s) ==>
          var was := EntryOf(streams, s);
          e.minSeq <= was.minSeq && was.maxSeq <= e.maxSeq && was.lastReceived <= e.lastReceived)
    && forall i: nat | i < |items| && OfStream(items, i, s) ::
         e.minSeq <= items[i].packet.sequenceNumber <= e.maxSeq && items[i].at <= e.lastReceived
  }

  /** The smallest number is the old one or an item's. */
  ghost predicate MinWritten(streams: map<Bytes, Bytes>, items: seq<Received>, s: Bytes, n: U64) {
    || (Registered(streams, s) && EntryOf(streams, s).minSeq == n)
    || exists i: nat :: i < |items| && OfStream(items, i, s) && items[i].packet.sequenceNumber == n
  }

  ghost predicate MaxWritten(streams: map<Bytes, Bytes>, items: seq<Received>, s: Bytes, n: U64) {
    || (Registered(streams, s) && EntryOf(streams, s).maxSeq == n)
    || exists i: nat :: i < |items| && OfStream(items, i, s) && items[i].packet.sequenceNumber == n
  }

  ghost predicate TimeWritten(streams: map<Bytes, Bytes>, items: seq<Received>, s: Bytes, at: I64) {
    || (Registered(streams, s) && EntryOf(streams, s).lastReceived == at)
    || exists i: nat :: i < |items| && OfStream(items, i, s) && items[i].at == at
  }

  /** e is exactly the extremes of the old entry of s and the items of s. */
  ghost predicate Tight(streams: map<Bytes, Bytes>, items: seq<Received>, s: Bytes, e: Entry) {
    && Bounds(streams, items, s, e)
    && MinWritten(streams, items, s, e.minSeq)
    && MaxWritten(streams, items, s, e.maxSeq)
    && TimeWritten(streams, items, s, e.lastReceived)
  }

  lemma OfStreamSnoc(items: seq<Received>, item: Received, s: Bytes)
    ensures forall i: nat :: i < |items| ==> (OfStream(items + [item], i, s) <==> OfStream(items, i, s))
    ensures OfStream(items + [item], |items|, s) <==> Keyable(item) && StreamKeyOf(item) == s
  {
    hide StreamKey, Encodable;
  }

  /** One more item of s widens a tight entry to a tight entry. */
  lemma TightWidens(streams: map<Bytes, Bytes>, items: seq<Received>, s: Bytes, e: Entry, item: Received)
    requires Tight(streams, items, s, e) && Keyable(item) && StreamKeyOf(item) == s
    ensures Tight(streams, items + [item], s, MergeEntries(e, SingleEntry(item)))
  {
    hide StreamKey, Encodable, DecodeEntry, OfStream;
    TightStays(streams, items, s, e, item);
    OfStreamSnoc(items, item, s);
    assert (items + [item])[|items|] == item;
  }

  /** What was written stays written. */
  lemma TightStays(streams: map<Bytes, Bytes>, items: seq<Received>, s: Bytes, e: Entry, item: Received)
    requires Tight(streams, items, s, e)
    ensures MinWritten(streams, items + [item], s, e.minSeq)
    ensures MaxWritten(streams, items + [item], s, e.maxSeq)
    ensures TimeWritten(streams, items + [item], s, e.lastReceived)
    ensures !(Keyable(item) && StreamKeyOf(item) == s) ==> Tight(streams, items + [item], s, e)
  {
    hide StreamKey, Encodable, DecodeEntry, OfStream;
    OfStreamSnoc(items, item, s);
    assert forall i :: 0 <= i < |items| ==> (items + [item])[i] == items[i];
  }

  lemma TightAlone(streams: map<Bytes, Bytes>, items: seq<Received>, s: Bytes, item: Received)
    requires !Registered(streams, s) && !Touches(items, s) && Keyable(item) && StreamKeyOf(item) == s
    ensures Tight(streams, items + [item], s, SingleEntry(item))
  {
    hide StreamKey, Encodable, DecodeEntry;
    OfStreamSnoc(items, item, s);
    assert (items + [item])[|items|] == item;
    forall i: nat | i < |items| ensures !OfStream(items, i, s) {
    }
  }

  /**
   After a write, the entry of every stream it touches is exactly the smallest number, the largest
   number and the latest time among its old entry and the items of that stream.
   */
  lemma {:induction false} WriteIsTight(db: Database, items: seq<Received>, s: Bytes)
    requires Touches(items, s) || Registered(db.streams, s)
    ensures Registered(InsertAll(db, items).streams, s)
    ensures Tight(db.streams, items, s, EntryOf(InsertAll(db, items).streams, s))
  {
    hide StreamKey, Encodable, DecodeEntry, EncodeEntry, Tight, Put, Touches;
    if items == [] {
      NothingTouched(s);
      OldIsTight(db.streams, s);
    } else {
      var n := |items| - 1;
      var (init, item) := (items[..n], items[n]);
      assert items == init + [item];
      TouchesSnoc(init, item, s);
      var before := InsertAll(db, init);
      if Touches(init, s) || Registered(db.streams, s) {
        WriteIsTight(db, init, s);
        var e := EntryOf(before.streams, s);
        if Keyable(item) && StreamKeyOf(item) == s {
          InsertedEntry(before, item);
          TightWidens(db.streams, init, s, e, item);
        } else {
          InsertKeepsEntry(before, item, s);
          TightStays(db.streams, init, s, e, item);
        }
      } else {
        WriteTouchesOnlyItsStreams(db, init, s);
        InsertedEntry(before, item);
        TightAlone(db.streams, init, s, item);
      }
    }
  }

  lemma NothingTouched(s: Bytes)
    ensures !Touches([], s)
  {
  }

  lemma OldIsTight(streams: map<Bytes, Bytes>, s: Bytes)
    requires Registered(streams, s)
    ensures Tight(streams, [], s, EntryOf(streams, s))
  {
  }

  lemma InsertedEntry(db: Database, item: Received)
    requires Keyable(item)
    ensures var (s, after) := (StreamKeyOf(item), Insert(db, item).streams);
            Registered(after, s) && EntryOf(after, s) == Merged(db.streams, s, SingleEntry(item))
  {
    PutEntry(db, StreamKeyOf(item), item.packet.sequenceNumber, item.at, Serialized(item.packet));
  }

  lemma InsertKeepsEntry(db: Database, item: Received, s: Bytes)
    requires Registered(db.streams, s) && !(Keyable(item) && StreamKeyOf(item) == s)
    ensures Registered(Insert(db, item).streams, s)
    ensures EntryOf(Insert(db, item).streams, s) == EntryOf(db.streams, s)
  {
    hide EncodeEntry, DecodeEntry;
  }

  // -------------------------------------------------------------------- runs

  /** Item i of the c-th command, a committed write, is of stream s. */
  predicate Committed(commands: seq<Command>, c: nat, i: nat, s: Bytes) {
    && c < |commands| && commands[c].WriteBatch? && commands[c].commits
    && i < |commands[c].items| && OfStream(commands[c].items, i, s)
  }

  lemma CommittedLonger(commands: seq<Command>, c: nat, i: nat, s: Bytes)
    requires commands != [] && Committed(commands[..|commands| - 1], c, i, s)
    ensures Committed(commands, c, i, s) && commands[c] == commands[..|commands| - 1][c]
  {
  }

  /** Over every run, the time an entry shows is the receipt time of some committed item of that stream. */
  lemma {:induction false} EntryTimeWasReceived(commands: seq<Command>, s: Bytes) returns (c: nat, i: nat)
    requires s in Run(EMPTY, commands).streams && Registered(Run(EMPTY, commands).streams, s)
    ensures Committed(commands, c, i, s)
    ensures commands[c].items[i].at == EntryOf(Run(EMPTY, commands).streams, s).lastReceived
  {
    hide InsertAll, Purge, StreamKey, Encodable, DecodeEntry, IndexAgrees, OfStream, PurgedCount, Touches;
    var n := |commands| - 1;
    var (init, last) := (commands[..n], commands[n]);
    var before := Run(EMPTY, init);
    ReachableIndexAgrees(init);
    if last.WriteBatch? && last.commits {
      var at := EntryOf(Run(EMPTY, commands).streams, s).lastReceived;
      var found, j := WrittenTime(before, last.items, s);
      if found {
        c, i := n, j;
      } else {
        c, i := EntryTimeWasReceived(init, s);
        CommittedLonger(commands, c, i, s);
      }
    } else {
      if last.commits && PurgedCount(before.streams, last.n) != 0 {
        PurgeEntryOf(before, Cutoff(before.streams, last.n), s, Run(EMPTY, commands).streams);
        RegistryIsReadable(before);
      }
      c, i := EntryTimeWasReceived(init, s);
      CommittedLonger(commands, c, i, s);
    }
  }

  lemma RegistryIsReadable(db: Database)
    requires IndexAgrees(db)
    ensures forall s | s in db.streams :: Registered(db.streams, s)
  {
  }

  /** After a write, an entry's time is an item's, or was there before. */
  lemma WrittenTime(db: Database, items: seq<Received>, s: Bytes) returns (found: bool, i: nat)
    requires IndexAgrees(db)
    requires s in InsertAll(db, items).streams && Registered(InsertAll(db, items).streams, s)
    ensures var at := EntryOf(InsertAll(db, items).streams, s).lastReceived;
            if found then i < |items| && OfStream(items, i, s) && items[i].at == at
            else Registered(db.streams, s) && EntryOf(db.streams, s).lastReceived == at
  {
    hide InsertAll, DecodeEntry, OfStream, Touches;
    found, i := false, 0;
    var at := EntryOf(InsertAll(db, items).streams, s).lastReceived;
    WriteTouchesOnlyItsStreams(db, items, s);
    RegistryIsReadable(db);
    WriteIsTight(db, items, s);
    if !(Registered(db.streams, s) && EntryOf(db.streams, s).lastReceived == at) {
      found := true;
      i :| i < |items| && OfStream(items, i, s) && items[i].at == at;
    }
  }

  /** Every time the listing shows is the receipt time of a committed packet of that very stream. */
  lemma ListedTimeWasReceived(commands: seq<Command>, j: nat) returns (c: nat, i: nat)
    requires j < |Listing(Run(EMPTY, commands).streams)|
    ensures var listed := Listing(Run(EMPTY, commands).streams)[j];
            && c < |commands| && commands[c].WriteBatch? && commands[c].commits && i < |commands[c].items|
            && Keyable(commands[c].items[i])
            && Canonical(commands[c].items[i].packet.identifier) == listed.identifier
            && commands[c].items[i].at == listed.lastReceived
  {
    hide Run, SortedKeys, StreamKey, Encodable, Canonical, DecodeStreamKey, DecodeEntry, AvailableStreams, IsStreamKey;
    var streams := Run(EMPTY, commands).streams;
    var order := SortedKeys(streams.Keys);
    SortedKeysMeaning(streams.Keys);
    ReachableIndexAgrees(commands);
    ReachableNamesStreams(commands);
    IndexShape(Run(EMPTY, commands));
    AvailableIsPointwise(streams, order);
    assert order[j] in order;
    c, i := EntryTimeWasReceived(commands, order[j]);
    DecodedIsCanonical(order[j]);
    SameStreamKey(commands[c].items[i], DecodeStreamKey(order[j]));
  }

  // ---------------------------------------------------------- any registry

  /** The listing of any registry whatever: one line per 32-byte key, with its entry's time, or 0 if cut short. */
  lemma ListingOfAnyRegistry(streams: map<Bytes, Bytes>, a: Available)
    ensures a in Listing(streams) <==>
            exists s :: s in streams && |s| == STREAM_KEY_LENGTH &&
                        a == Available(TimeShown(streams[s]), DecodeStreamKey(s))
  {
    hide SortedKeys, DecodeStreamKey, DecodeEntry, AvailableStreams;
    SortedKeysMeaning(streams.Keys);
    ListedFrom(streams, SortedKeys(streams.Keys), a);
  }

  /** The last-received time read off a registry value. */
  function TimeShown(value: Bytes): I64 {
    if |value| < STREAMS_VALUE_LENGTH then 0 else ToSigned(Decode64(value[16..24]))
  }

  lemma {:induction false} ListedFrom(streams: map<Bytes, Bytes>, order: seq<Bytes>, a: Available)
    ensures a in AvailableStreams(streams, order) <==>
            exists s :: s in order && s in streams && |s| == STREAM_KEY_LENGTH &&
                        a == Available(TimeShown(streams[s]), DecodeStreamKey(s))
  {
    hide DecodeStreamKey, Decode64;
    if order != [] {
      ListedFrom(streams, order[..|order| - 1], a);
      assert order == order[..|order| - 1] + [order[|order| - 1]];
    }
  }
}
