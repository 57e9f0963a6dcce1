/**
 write and truncateOldest both read the registry, plan a batch, and commit it later. What that
 batch does to whatever the store holds by then, and that it is the operation itself when
 nothing came in between.
 */
module Snapshots {
  import opened ByteStrings
  import opened KeyCodec
  import opened StoreModel

  /** Commits, on db, the purge planned from an earlier registry snapshot. */
  function StalePurge(snapshot: map<Bytes, Bytes>, db: Database, cutoff: U64): Database {
    Database(map k | k in db.packets && !Purged(snapshot, cutoff, k) :: db.packets[k],
             map s | s in db.streams + snapshot &&
                     (if Selected(snapshot, s, cutoff) then !Reaped(snapshot, s, cutoff) else s in db.streams) ::
               if Selected(snapshot, s, cutoff) then AdvancedValue(snapshot, s, cutoff) else db.streams[s])
  }

  /** With nothing in between, this is the purge itself. */
  lemma FreshSnapshot(db: Database, cutoff: U64)
    ensures StalePurge(db.streams, db, cutoff) == Purge(db, cutoff)
  {
    assert StalePurge(db.streams, db, cutoff).streams == Purge(db, cutoff).streams;
  }

  predicate Touches(items: seq<Received>, s: Bytes) {
    exists i :: 0 <= i < |items| && Keyable(items[i]) && StreamKeyOf(items[i]) == s
  }

  lemma TouchesSnoc(items: seq<Received>, item: Received, s: Bytes)
    ensures Touches(items + [item], s) <==> Touches(items, s) || (Keyable(item) && StreamKeyOf(item) == s)
  {
    hide StreamKey, Encodable;
    var longer := items + [item];
    if Touches(items, s) {
      var i :| 0 <= i < |items| && Keyable(items[i]) && StreamKeyOf(items[i]) == s;
      assert longer[i] == items[i];
    }
    if Keyable(item) && StreamKeyOf(item) == s {
      assert longer[|items|] == item;
    }
  }

  /** The registry part of a write whose entries were merged with an earlier registry. */
  function StaleEntries(snapshot: map<Bytes, Bytes>, items: seq<Received>): map<Bytes, Bytes> {
    var merged := InsertAll(Database(map[], snapshot), items).streams;
    map s | s in merged && Touches(items, s) :: merged[s]
  }

  /** Commits, on db, a write whose registry reads came from an earlier snapshot. */
  function StaleWrite(snapshot: map<Bytes, Bytes>, db: Database, items: seq<Received>): Database {
    Database(InsertAll(db, items).packets, db.streams + StaleEntries(snapshot, items))
  }

  /** What a write puts in one family does not depend on the other. */
  lemma {:induction false} FamiliesAreIndependent(a: Database, b: Database, items: seq<Received>)
    ensures a.packets == b.packets ==> InsertAll(a, items).packets == InsertAll(b, items).packets
    ensures a.streams == b.streams ==> InsertAll(a, items).streams == InsertAll(b, items).streams
  {
    hide Merged, EncodeEntry, EncodeValue, StreamKey, Encode64;
    if items != [] {
      FamiliesAreIndependent(a, b, items[..|items| - 1]);
    }
  }

  /** A write registers the streams it touches and leaves the other entries alone. */
  lemma {:induction false} WriteTouchesOnlyItsStreams(db: Database, items: seq<Received>, s: Bytes)
    ensures Touches(items, s) ==> s in InsertAll(db, items).streams
    ensures !Touches(items, s) ==>
              (s in InsertAll(db, items).streams <==> s in db.streams) &&
              (s in db.streams ==> InsertAll(db, items).streams[s] == db.streams[s])
  {
    hide Merged, EncodeEntry, EncodeValue, StreamKey, Encode64, Encodable;
    if items != [] {
      var n := |items| - 1;
      WriteTouchesOnlyItsStreams(db, items[..n], s);
      if Touches(items[..n], s) {
        var i :| 0 <= i < n && Keyable(items[..n][i]) && StreamKeyOf(items[..n][i]) == s;
        assert Keyable(items[i]) && StreamKeyOf(items[i]) == s;
      }
      if Keyable(items[n]) && StreamKeyOf(items[n]) == s {
        assert Touches(items, s);
      } else if Touches(items, s) {
        var i :| 0 <= i < |items| && Keyable(items[i]) && StreamKeyOf(items[i]) == s;
        assert items[..n][i] == items[i];
      }
    }
  }

  /** With nothing in between, this is the write itself. */
  lemma FreshReads(db: Database, items: seq<Received>)
    ensures StaleWrite(db.streams, db, items) == InsertAll(db, items)
  {
    hide InsertAll, Touches;
    FamiliesAreIndependent(db, Database(map[], db.streams), items);
    forall s ensures Touches(items, s) ==> s in InsertAll(db, items).streams
             ensures !Touches(items, s) ==>
                       (s in InsertAll(db, items).streams <==> s in db.streams) &&
                       (s in db.streams ==> InsertAll(db, items).streams[s] == db.streams[s])
    {
      WriteTouchesOnlyItsStreams(db, items, s);
    }
    assert StaleWrite(db.streams, db, items).streams == InsertAll(db, items).streams;
  }
}
