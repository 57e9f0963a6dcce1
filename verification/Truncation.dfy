/**
 What truncateOldest is for, stated in unbounded integers, and exactly when the 64-bit code
 does that; what its return value says; and what changes when sequence numbers are dense.
 */
module Truncation {
  import opened ByteStrings
  import opened KeyCodec
  import opened StoreModel
  import opened StoreIndex

  // ------------------------------------------------------------------- intent

  /** The first sequence number meant to survive, without 64-bit wrap-around. */
  ghost function IntendedCutoff(streams: map<Bytes, Bytes>, n: U64): int {
    Min(GlobalMin(streams) + n, GlobalMax(streams) + 1)
  }

  function RaisedEntry(e: Entry, cutoff: int): Entry
    requires cutoff <= e.maxSeq
  {
    if e.minSeq < cutoff then e.(minSeq := cutoff) else e
  }

  predicate Survives(streams: map<Bytes, Bytes>, s: Bytes, cutoff: int) {
    Registered(streams, s) && EntryOf(streams, s).maxSeq >= cutoff
  }

  /** Everything older than the cutoff goes, in every stream; entries follow. */
  function CutAt(db: Database, cutoff: int): Database
    requires KeysAreWide(db.packets)
  {
    Database(KeepFrom(db.packets, cutoff),
             map s | s in db.streams && Survives(db.streams, s, cutoff) ::
               EncodeEntry(RaisedEntry(EntryOf(db.streams, s), cutoff)))
  }

  ghost function Intended(db: Database, n: U64): Database
    requires KeysAreWide(db.packets)
  {
    CutAt(db, IntendedCutoff(db.streams, n))
  }

  ghost function IntendedCount(streams: map<Bytes, Bytes>, n: U64): int {
    IntendedCutoff(streams, n) - GlobalMin(streams)
  }

  /** Neither 64-bit sum in truncateOldest wraps. */
  ghost predicate NoWrap(streams: map<Bytes, Bytes>, n: U64) {
    GlobalMin(streams) + n < TWO64 && GlobalMax(streams) + 1 < TWO64
  }

  lemma BoundsOrdered(db: Database)
    requires IndexAgrees(db) && db.streams != map[]
    ensures !NothingRegistered(db.streams)
    ensures GlobalMin(db.streams) <= GlobalMax(db.streams)
    ensures exists s :: Registered(db.streams, s) && EntryOf(db.streams, s).minSeq == GlobalMin(db.streams)
  {
    var s :| s in db.streams;
    assert Registered(db.streams, s);
    RegisteredIffStored(db, s);
    if GlobalMin(db.streams) == TWO64 - 1 {
      assert EntryOf(db.streams, s).minSeq == TWO64 - 1;
    }
  }

  /** A cutoff at or below every registered min purges nothing. */
  lemma PurgeBelowMin(db: Database, cutoff: U64)
    requires cutoff <= GlobalMin(db.streams)
    ensures Purge(db, cutoff) == db
  {
    assert forall s :: !Selected(db.streams, s, cutoff);
    assert Purge(db, cutoff).packets == db.packets;
    assert Purge(db, cutoff).streams == db.streams;
  }

  lemma WrapArithmetic(lo: U64, hi: U64, n: U64)
    requires lo <= hi && n > 0 && (lo + n >= TWO64 || hi + 1 >= TWO64)
    ensures CutoffFrom(lo, hi, n) <= lo
  {
  }

  lemma WrapPurgesNothing(db: Database, n: U64)
    requires IndexAgrees(db) && db.streams != map[] && n > 0 && !NoWrap(db.streams, n)
    ensures Truncate(db, n) == db
  {
    hide Purge, CutoffFrom, DecodeEntry, IndexAgrees;
    BoundsOrdered(db);
    WrapArithmetic(GlobalMin(db.streams), GlobalMax(db.streams), n);
    PurgeBelowMin(db, Cutoff(db.streams, n));
  }

  lemma PurgeIsCut(db: Database, cutoff: U64)
    requires IndexAgrees(db)
    ensures Purge(db, cutoff) == CutAt(db, cutoff)
  {
    PurgeIsGlobalCut(db, cutoff);
    forall s | s in db.streams
      ensures Reaped(db.streams, s, cutoff) <==> !Survives(db.streams, s, cutoff)
      ensures Survives(db.streams, s, cutoff) ==>
                AdvancedValue(db.streams, s, cutoff) == EncodeEntry(RaisedEntry(EntryOf(db.streams, s), cutoff))
    {
      RegisteredIffStored(db, s);
      EntryValueRoundTrip(db.streams[s]);
    }
    assert Purge(db, cutoff).streams == CutAt(db, cutoff).streams;
  }

  lemma IntentMovesTheMin(db: Database, n: U64)
    requires IndexAgrees(db) && db.streams != map[] && n > 0
    ensures Intended(db, n) != db
  {
    BoundsOrdered(db);
    var s :| Registered(db.streams, s) && EntryOf(db.streams, s).minSeq == GlobalMin(db.streams);
    var cutoff := IntendedCutoff(db.streams, n);
    assert cutoff > EntryOf(db.streams, s).minSeq;
    if s in Intended(db, n).streams {
      EntryRoundTrip(RaisedEntry(EntryOf(db.streams, s), cutoff));
      assert EntryOf(Intended(db, n).streams, s).minSeq == cutoff;
    }
  }

  lemma CutoffArithmetic(lo: U64, hi: U64, n: U64)
    requires lo <= hi && n > 0 && lo + n < TWO64 && hi + 1 < TWO64
    ensures CutoffFrom(lo, hi, n) == Min(lo + n, hi + 1) > lo
    ensures (CutoffFrom(lo, hi, n) - lo) % TWO64 == Min(lo + n, hi + 1) - lo
  {
  }

  lemma NoWrapMeetsIntent(db: Database, n: U64)
    requires IndexAgrees(db) && db.streams != map[] && n > 0 && NoWrap(db.streams, n)
    ensures Truncate(db, n) == Intended(db, n)
    ensures PurgedCount(db.streams, n) == IntendedCount(db.streams, n) > 0
  {
    hide Purge, CutAt;
    BoundsOrdered(db);
    CutoffArithmetic(GlobalMin(db.streams), GlobalMax(db.streams), n);
    PurgeIsCut(db, Cutoff(db.streams, n));
  }

  /** The code does what it is for exactly when neither sum wraps. */
  lemma TruncationMeetsIntent(db: Database, n: U64)
    requires IndexAgrees(db) && db.streams != map[] && n > 0
    ensures Truncate(db, n) == Intended(db, n) <==> NoWrap(db.streams, n)
    ensures NoWrap(db.streams, n) ==> PurgedCount(db.streams, n) == IntendedCount(db.streams, n)
  {
    hide Truncate, CutAt;
    if NoWrap(db.streams, n) {
      NoWrapMeetsIntent(db, n);
    } else {
      WrapPurgesNothing(db, n);
      IntentMovesTheMin(db, n);
    }
  }

  /** With no wrap, what is left is every stored packet from the cutoff on and nothing else. */
  lemma TruncationLeavesSuffix(db: Database, n: U64)
    requires IndexAgrees(db) && db.streams != map[] && n > 0 && NoWrap(db.streams, n)
    ensures Truncate(db, n).packets == KeepFrom(db.packets, GlobalMin(db.streams) + PurgedCount(db.streams, n))
  {
    TruncationMeetsIntent(db, n);
  }

  lemma EmptyIndex(db: Database)
    requires IndexAgrees(db)
    ensures db.streams == map[] <==> db.packets == map[]
    ensures db.streams == map[] ==> NothingRegistered(db.streams)
  {
    if db.packets != map[] {
      var k :| k in db.packets;
      assert PacketIndexed(db, k);
    }
    if db.streams != map[] {
      var s :| s in db.streams;
      RegisteredIffStored(db, s);
    }
  }

  lemma ZeroArithmetic(lo: U64, hi: U64, n: U64)
    requires lo <= hi && n > 0
    ensures (CutoffFrom(lo, hi, n) - lo) % TWO64 == 0 <==> lo == 0 && hi == TWO64 - 1
  {
  }

  /** The exact meaning of a zero return; only a store spanning the whole 64-bit range stalls. */
  lemma ZeroMeansEmpty(db: Database, n: U64)
    requires IndexAgrees(db) && n > 0
    ensures PurgedCount(db.streams, n) == 0 <==>
            db.packets == map[] || (GlobalMin(db.streams) == 0 && GlobalMax(db.streams) == TWO64 - 1)
  {
    EmptyIndex(db);
    if db.streams != map[] {
      BoundsOrdered(db);
      ZeroArithmetic(GlobalMin(db.streams), GlobalMax(db.streams), n);
    }
  }

  lemma PurgeKeepsMax(db: Database, cutoff: U64)
    requires IndexAgrees(db) && Purge(db, cutoff).packets != map[]
    ensures GlobalMax(Purge(db, cutoff).streams) == GlobalMax(db.streams)
  {
    var after := Purge(db, cutoff);
    PurgeKeepsIndex(db, cutoff);
    PurgeIsGlobalCut(db, cutoff);
    GlobalMaxIsNewestStored(db);
    GlobalMaxIsNewestStored(after);
    var k :| k in after.packets && SequenceOf(k) == GlobalMax(after.streams);
    var newest :| newest in db.packets && SequenceOf(newest) == GlobalMax(db.streams);
    assert newest in after.packets;
  }

  /** The recovered sequence number survives truncation unless the store is emptied. */
  lemma TruncateKeepsMax(db: Database, n: U64)
    requires IndexAgrees(db) && Truncate(db, n).packets != map[]
    ensures GlobalMax(Truncate(db, n).streams) == GlobalMax(db.streams)
  {
    if PurgedCount(db.streams, n) != 0 {
      PurgeKeepsMax(db, Cutoff(db.streams, n));
    }
  }

  // ------------------------------------------------------------ a wrapped call

  /** One packet within a request of 2^64: the call reports progress and changes nothing, whatever the numbers. */
  lemma WrappedCallStalls(s: Bytes, hi: U64, n: U64, at: I64, payload: Bytes)
    requires |s| == STREAM_KEY_LENGTH && n > 0 && hi + n >= TWO64
    ensures var db := Put(EMPTY, s, hi, at, payload);
            && IndexAgrees(db) && GlobalMax(db.streams) == hi
            && PurgedCount(db.streams, n) != 0
            && Truncate(db, n) == db && db.packets != map[]
  {
    hide EncodeEntry, DecodeEntry, Encode64, EncodeValue, Truncate, PurgedCount;
    var db := Put(EMPTY, s, hi, at, payload);
    PutKeepsIndex(EMPTY, s, hi, at, payload);
    PutEntry(EMPTY, s, hi, at, payload);
    assert Registered(db.streams, s) && EntryOf(db.streams, s) == Entry(hi, hi, at);
    GlobalMaxUnique(db.streams, hi);
    GlobalMinUnique(db.streams, hi);
    assert s + Encode64(hi) in db.packets;
    WrapPurgesNothing(db, n);
    ZeroMeansEmpty(db, n);
  }

  // --------------------------------------------------------------------- span

  /** How many sequence numbers the registry spans. */
  ghost function Span(streams: map<Bytes, Bytes>): int {
    if NothingRegistered(streams) then 0 else GlobalMax(streams) + 1 - GlobalMin(streams)
  }

  lemma PurgeRaisesMin(db: Database, cutoff: U64)
    requires IndexAgrees(db) && cutoff >= GlobalMin(db.streams) && Purge(db, cutoff).packets != map[]
    ensures GlobalMin(Purge(db, cutoff).streams) >= cutoff
  {
    hide Purge, DecodeEntry;
    var after := Purge(db, cutoff);
    PurgeKeepsIndex(db, cutoff);
    EmptyIndex(after);
    BoundsOrdered(after);
    var s :| Registered(after.streams, s) && EntryOf(after.streams, s).minSeq == GlobalMin(after.streams);
    PurgeEntryOf(db, cutoff, s, after.streams);
  }

  lemma SpanNonNegative(db: Database)
    requires IndexAgrees(db)
    ensures Span(db.streams) >= 0
    ensures Span(db.streams) == 0 <==> db.packets == map[]
  {
    EmptyIndex(db);
    if db.streams != map[] {
      BoundsOrdered(db);
    }
  }

  lemma PurgeShrinksSpan(db: Database, cutoff: U64)
    requires IndexAgrees(db) && db.packets != map[]
    requires GlobalMin(db.streams) <= cutoff <= GlobalMax(db.streams) + 1
    ensures Span(Purge(db, cutoff).streams) + cutoff <= GlobalMax(db.streams) + 1
    ensures GlobalMax(Purge(db, cutoff).streams) <= GlobalMax(db.streams)
    ensures Purge(db, cutoff).packets != map[] ==> GlobalMin(Purge(db, cutoff).streams) >= cutoff
  {
    hide Purge, DecodeEntry;
    var after := Purge(db, cutoff);
    PurgeKeepsIndex(db, cutoff);
    EmptyIndex(after);
    if after.packets != map[] {
      PurgeRaisesMin(db, cutoff);
      PurgeKeepsMax(db, cutoff);
    } else {
      GlobalMaxIsNewestStored(after);
    }
  }

  /** No call ever raises the newest number, lowers the oldest, or widens the span. */
  lemma TruncateNarrows(db: Database, n: U64)
    requires IndexAgrees(db)
    ensures IndexAgrees(Truncate(db, n))
    ensures GlobalMax(Truncate(db, n).streams) <= GlobalMax(db.streams)
    ensures 0 <= Span(Truncate(db, n).streams) <= Span(db.streams)
    ensures Truncate(db, n).packets != map[] ==> GlobalMin(Truncate(db, n).streams) >= GlobalMin(db.streams)
  {
    hide Purge, DecodeEntry, PurgedCount, Span, IndexAgrees, Truncate, CutAt;
    SpanNonNegative(db);
    TruncateKeepsIndex(db, n);
    SpanNonNegative(Truncate(db, n));
    NothingToDo(db, n);
    if n > 0 && PurgedCount(db.streams, n) != 0 && NoWrap(db.streams, n) {
      NoWrapShrinksSpan(db, n);
    } else if n > 0 && PurgedCount(db.streams, n) != 0 {
      ZeroMeansEmpty(db, n);
      EmptyIndex(db);
      WrapPurgesNothing(db, n);
    }
  }

  lemma NothingToDo(db: Database, n: U64)
    ensures PurgedCount(db.streams, n) == 0 ==> Truncate(db, n) == db
    ensures n == 0 ==> PurgedCount(db.streams, n) == 0
  {
  }

  lemma NoWrapShrinksSpan(db: Database, n: U64)
    requires IndexAgrees(db) && PurgedCount(db.streams, n) != 0 && NoWrap(db.streams, n)
    ensures Span(Truncate(db, n).streams) + PurgedCount(db.streams, n) <= Span(db.streams)
    ensures GlobalMax(Truncate(db, n).streams) <= GlobalMax(db.streams)
    ensures Truncate(db, n).packets != map[] ==> GlobalMin(Truncate(db, n).streams) > GlobalMin(db.streams)
  {
    hide Purge, DecodeEntry, CutoffFrom, IndexAgrees;
    ZeroMeansEmpty(db, n);
    EmptyIndex(db);
    BoundsOrdered(db);
    CutoffArithmetic(GlobalMin(db.streams), GlobalMax(db.streams), n);
    PurgeShrinksSpan(db, Cutoff(db.streams, n));
  }

  /** A call that reports progress shrinks the span by at least what it reports exactly when no sum wraps. */
  lemma SpanShrinksIff(db: Database, n: U64)
    requires IndexAgrees(db) && PurgedCount(db.streams, n) != 0
    ensures Span(Truncate(db, n).streams) + PurgedCount(db.streams, n) <= Span(db.streams) <==> NoWrap(db.streams, n)
    ensures !NoWrap(db.streams, n) ==> Truncate(db, n) == db
  {
    hide Truncate, PurgedCount, Span, IndexAgrees;
    if NoWrap(db.streams, n) {
      NoWrapShrinksSpan(db, n);
    } else {
      NothingToDo(db, n);
      ZeroMeansEmpty(db, n);
      EmptyIndex(db);
      WrapPurgesNothing(db, n);
    }
  }

  // --------------------------------------------------------- no gaps in the registry

  ghost predicate InSomeRange(streams: map<Bytes, Bytes>, m: int) {
    exists s :: Registered(streams, s) && EntryOf(streams, s).minSeq <= m <= EntryOf(streams, s).maxSeq
  }

  /** Every number between the registered bounds lies within some stream's range. */
  ghost predicate Covered(streams: map<Bytes, Bytes>) {
    forall m: int | GlobalMin(streams) <= m <= GlobalMax(streams) :: InSomeRange(streams, m)
  }

  lemma OneStreamIsCovered(db: Database, s: Bytes)
    requires IndexAgrees(db) && db.streams.Keys == {s}
    ensures Covered(db.streams)
  {
    hide DecodeEntry;
    BoundsOrdered(db);
    var e := EntryOf(db.streams, s);
    RegisteredIffStored(db, s);
    assert forall t :: Registered(db.streams, t) ==> t == s;
    GlobalMinUnique(db.streams, e.minSeq);
    GlobalMaxUnique(db.streams, e.maxSeq);
  }

  lemma PurgedRange(db: Database, cutoff: U64, m: int)
    requires IndexAgrees(db) && InSomeRange(db.streams, m) && cutoff <= m
    ensures InSomeRange(Purge(db, cutoff).streams, m)
    ensures m == cutoff ==> GlobalMin(Purge(db, cutoff).streams) <= cutoff
    ensures Purge(db, cutoff).streams != map[]
  {
    hide DecodeEntry, EncodeEntry;
    var after := Purge(db, cutoff);
    var s :| Registered(db.streams, s) && EntryOf(db.streams, s).minSeq <= m <= EntryOf(db.streams, s).maxSeq;
    assert s in after.streams;
    PurgeEntryOf(db, cutoff, s, after.streams);
    assert Registered(after.streams, s);
  }

  /** Inside a covered store the oldest number after a purge is exactly the cutoff, and the store stays covered. */
  lemma CoveredPurge(db: Database, cutoff: U64)
    requires IndexAgrees(db) && Covered(db.streams) && GlobalMin(db.streams) <= cutoff <= GlobalMax(db.streams)
    ensures var after := Purge(db, cutoff);
            && after.packets != map[] && Covered(after.streams)
            && GlobalMin(after.streams) == cutoff && GlobalMax(after.streams) == GlobalMax(db.streams)
  {
    hide Purge, InSomeRange, IndexAgrees;
    var after := Purge(db, cutoff);
    assert InSomeRange(db.streams, cutoff);
    PurgedRange(db, cutoff, cutoff);
    PurgeKeepsIndex(db, cutoff);
    EmptyIndex(after);
    PurgeRaisesMin(db, cutoff);
    PurgeKeepsMax(db, cutoff);
    forall m: int | GlobalMin(after.streams) <= m <= GlobalMax(after.streams) ensures InSomeRange(after.streams, m) {
      PurgedRange(db, cutoff, m);
    }
  }
}
