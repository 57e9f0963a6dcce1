/**
 The broker numbers packets from one counter, so stored sequence numbers are unique, and dense
 while nothing is dropped. Exactly when the count truncateOldest reports is a count of packets,
 and exactly when truncations compose.
 */
module Density {
  import opened ByteStrings
  import opened KeyCodec
  import opened StoreModel
  import opened StoreIndex
  import opened Truncation

  /** A sequence number names at most one stored packet, across all streams. */
  ghost predicate UniqueNumbers(packets: map<Bytes, Bytes>)
    requires KeysAreWide(packets)
  {
    forall j, k | j in packets && k in packets && SequenceOf(j) == SequenceOf(k) :: j == k
  }

  ghost predicate HasNumber(packets: map<Bytes, Bytes>, n: int)
    requires KeysAreWide(packets)
  {
    exists k :: k in packets && SequenceOf(k) == n
  }

  /** Unique, and no number between the registered bounds is missing. */
  ghost predicate Dense(db: Database)
    requires KeysAreWide(db.packets)
  {
    && UniqueNumbers(db.packets)
    && (db.packets == map[] ||
        forall n :: GlobalMin(db.streams) <= n <= GlobalMax(db.streams) ==> HasNumber(db.packets, n))
  }

  // ---------------------------------------------------------------- counting

  ghost predicate Numbered(keys: set<Bytes>) {
    && (forall k | k in keys :: |k| == PACKET_KEY_LENGTH)
    && (forall j, k | j in keys && k in keys && SequenceOf(j) == SequenceOf(k) :: j == k)
  }

  ghost function Numbers(keys: set<Bytes>): set<int>
    requires forall k | k in keys :: |k| == PACKET_KEY_LENGTH
  {
    set k | k in keys :: SequenceOf(k)
  }

  lemma {:induction false} NumbersCount(keys: set<Bytes>)
    requires Numbered(keys)
    ensures |Numbers(keys)| == |keys|
    decreases |keys|
  {
    if keys != {} {
      var k :| k in keys;
      NumbersCount(keys - {k});
      assert Numbers(keys) == Numbers(keys - {k}) + {SequenceOf(k)};
    }
  }

  function Interval(a: int, b: int): (s: set<int>)
    requires a <= b
    ensures forall i :: i in s <==> a <= i < b
    ensures |s| == b - a
    decreases b - a
  {
    if a == b then {} else Interval(a, b - 1) + {b - 1}
  }

  lemma SubsetCount(a: set<int>, b: set<int>)
    requires a <= b
    ensures |a| <= |b|
    ensures |a| == |b| <==> a == b
  {
    assert b == a + (b - a);
  }

  // ------------------------------------------------------------ what is removed

  ghost function RemovedKeys(db: Database, cutoff: int): set<Bytes>
    requires KeysAreWide(db.packets)
  {
    set k | k in db.packets && SequenceOf(k) < cutoff
  }

  lemma KeepFromCount(db: Database, cutoff: int)
    requires KeysAreWide(db.packets)
    ensures |db.packets| == |KeepFrom(db.packets, cutoff)| + |RemovedKeys(db, cutoff)|
  {
    var kept := KeepFrom(db.packets, cutoff).Keys;
    assert db.packets.Keys == kept + RemovedKeys(db, cutoff);
    assert kept !! RemovedKeys(db, cutoff);
  }

  /** Every number from a up to b names a stored packet. */
  ghost predicate Filled(packets: map<Bytes, Bytes>, a: int, b: int)
    requires KeysAreWide(packets)
  {
    forall m :: a <= m < b ==> HasNumber(packets, m)
  }

  /** A cut removes at most as many packets as it spans numbers, and exactly as many when none is missing. */
  lemma RemovedFillIff(db: Database, cutoff: int)
    requires IndexAgrees(db) && UniqueNumbers(db.packets) && GlobalMin(db.streams) <= cutoff
    ensures |RemovedKeys(db, cutoff)| <= cutoff - GlobalMin(db.streams)
    ensures |RemovedKeys(db, cutoff)| == cutoff - GlobalMin(db.streams) <==>
            Filled(db.packets, GlobalMin(db.streams), cutoff)
  {
    hide Decode64, DecodeEntry;
    var lo := GlobalMin(db.streams);
    var removed := RemovedKeys(db, cutoff);
    NumbersCount(removed);
    forall k | k in removed ensures SequenceOf(k) in Interval(lo, cutoff) {
      StoredAboveMin(db, k);
    }
    SubsetCount(Numbers(removed), Interval(lo, cutoff));
    forall m | lo <= m < cutoff ensures HasNumber(db.packets, m) <==> m in Numbers(removed) {
      RemovedNumber(db, cutoff, m);
    }
    if Filled(db.packets, lo, cutoff) {
      assert Interval(lo, cutoff) == Numbers(removed);
    }
  }

  lemma StoredAboveMin(db: Database, k: Bytes)
    requires IndexAgrees(db) && k in db.packets
    ensures GlobalMin(db.streams) <= SequenceOf(k) <= GlobalMax(db.streams)
  {
    assert PacketIndexed(db, k);
  }

  lemma RemovedNumber(db: Database, cutoff: int, m: int)
    requires KeysAreWide(db.packets) && m < cutoff
    ensures forall k | k in RemovedKeys(db, cutoff) :: |k| == PACKET_KEY_LENGTH
    ensures HasNumber(db.packets, m) <==> m in Numbers(RemovedKeys(db, cutoff))
  {
    if HasNumber(db.packets, m) {
      var k :| k in db.packets && SequenceOf(k) == m;
      assert k in RemovedKeys(db, cutoff);
    }
  }

  lemma NonemptyStreams(db: Database)
    requires IndexAgrees(db) && db.packets != map[]
    ensures db.streams != map[] && GlobalMin(db.streams) <= GlobalMax(db.streams)
  {
    EmptyIndex(db);
    BoundsOrdered(db);
  }

  /** Unique numbers alone: never more packets go than are reported, wrap-around included. */
  lemma RemovesAtMostReported(db: Database, n: U64)
    requires IndexAgrees(db) && UniqueNumbers(db.packets) && n > 0
    ensures |db.packets| - |Truncate(db, n).packets| <= PurgedCount(db.streams, n)
  {
    hide Truncate, CutAt, KeepFrom, PurgedCount, Filled, DecodeEntry, Decode64;
    if db.packets == map[] {
      ZeroMeansEmpty(db, n);
      ZeroLeavesAlone(db, n);
    } else {
      NonemptyStreams(db);
      if NoWrap(db.streams, n) {
        NoWrapMeetsIntent(db, n);
        TruncationLeavesSuffix(db, n);
        var cutoff := IntendedCutoff(db.streams, n);
        KeepFromCount(db, cutoff);
        RemovedFillIff(db, cutoff);
      } else {
        WrapPurgesNothing(db, n);
      }
    }
  }

  lemma ZeroLeavesAlone(db: Database, n: U64)
    requires PurgedCount(db.streams, n) == 0
    ensures Truncate(db, n) == db
  {
  }

  /**
   Unique numbers: the reported count is the packets removed exactly when no number it is to drop
   is missing; or, when a sum wraps, when the store spans every 64-bit number and 0 is reported.
   */
  lemma CountIsExactIff(db: Database, n: U64)
    requires IndexAgrees(db) && UniqueNumbers(db.packets) && db.packets != map[] && n > 0
    ensures |db.packets| - |Truncate(db, n).packets| == PurgedCount(db.streams, n) <==>
            if NoWrap(db.streams, n)
            then Filled(db.packets, GlobalMin(db.streams), IntendedCutoff(db.streams, n))
            else GlobalMin(db.streams) == 0 && GlobalMax(db.streams) == TWO64 - 1
  {
    hide Truncate, CutAt, KeepFrom, PurgedCount, Filled;
    NonemptyStreams(db);
    if NoWrap(db.streams, n) {
      NoWrapMeetsIntent(db, n);
      TruncationLeavesSuffix(db, n);
      var cutoff := IntendedCutoff(db.streams, n);
      KeepFromCount(db, cutoff);
      RemovedFillIff(db, cutoff);
    } else {
      WrapPurgesNothing(db, n);
      ZeroMeansEmpty(db, n);
    }
  }

  /** In a dense store no number is missing. */
  lemma DenseCountIsExact(db: Database, n: U64)
    requires IndexAgrees(db) && Dense(db) && db.packets != map[] && n > 0
    ensures |db.packets| - |Truncate(db, n).packets| == PurgedCount(db.streams, n) <==>
            NoWrap(db.streams, n) || (GlobalMin(db.streams) == 0 && GlobalMax(db.streams) == TWO64 - 1)
  {
    hide Truncate, PurgedCount;
    CountIsExactIff(db, n);
  }

  /** The call removes no packet exactly when a sum wraps or every number it is to drop is missing. */
  lemma RemovesNothingIff(db: Database, n: U64)
    requires IndexAgrees(db) && db.packets != map[] && n > 0
    ensures Truncate(db, n).packets == db.packets <==>
            !NoWrap(db.streams, n) || forall k | k in db.packets :: SequenceOf(k) >= IntendedCutoff(db.streams, n)
    ensures PurgedCount(db.streams, n) != 0 <==> !(GlobalMin(db.streams) == 0 && GlobalMax(db.streams) == TWO64 - 1)
  {
    hide Truncate, CutAt, PurgedCount;
    NonemptyStreams(db);
    ZeroMeansEmpty(db, n);
    if NoWrap(db.streams, n) {
      NoWrapMeetsIntent(db, n);
      TruncationLeavesSuffix(db, n);
      var kept := KeepFrom(db.packets, IntendedCutoff(db.streams, n));
      assert forall k :: k in kept <==> k in db.packets && SequenceOf(k) >= IntendedCutoff(db.streams, n);
      if forall k | k in db.packets :: SequenceOf(k) >= IntendedCutoff(db.streams, n) {
        assert kept == db.packets;
      }
    } else {
      WrapPurgesNothing(db, n);
    }
  }

  /** The smallest gap: one stream holding numbers a and b with something missing between them. */
  ghost predicate Gap(db: Database, s: Bytes, a: U64, b: U64) {
    && IndexAgrees(db) && UniqueNumbers(db.packets)
    && a + 1 < b && |s| == STREAM_KEY_LENGTH && db.packets.Keys == {s + Encode64(a), s + Encode64(b)}
    && GlobalMin(db.streams) == a && GlobalMax(db.streams) == b
  }

  lemma GapExists(s: Bytes, a: U64, b: U64, at: I64, payload: Bytes)
    requires |s| == STREAM_KEY_LENGTH && a + 1 < b
    ensures Gap(Put(Put(EMPTY, s, a, at, payload), s, b, at, payload), s, a, b)
  {
    hide EncodeEntry, DecodeEntry, EncodeValue, Encode64, Decode64, IndexAgrees;
    var one := Put(EMPTY, s, a, at, payload);
    var two := Put(one, s, b, at, payload);
    PutKeepsIndex(EMPTY, s, a, at, payload);
    PutKeepsIndex(one, s, b, at, payload);
    PutEntry(EMPTY, s, a, at, payload);
    PutEntry(one, s, b, at, payload);
    PacketKeyParts(s, a);
    PacketKeyParts(s, b);
    assert EntryOf(one.streams, s) == Entry(a, a, at);
    assert Registered(two.streams, s) && EntryOf(two.streams, s) == Entry(a, b, at);
    GlobalMinUnique(two.streams, a);
    GlobalMaxUnique(two.streams, b);
  }

  /**
   On such a store the count is wrong both ways it can be: asked for b - a packets the call reports
   b - a and removes one; asked for one, twice, it reports one each time and removes one in all.
   */
  lemma GapMiscounts(db: Database, s: Bytes, a: U64, b: U64)
    requires Gap(db, s, a, b) && b + 1 < TWO64
    ensures PurgedCount(db.streams, b - a) == b - a > 1
    ensures Truncate(db, b - a).packets.Keys == {s + Encode64(b)}
    ensures var once := Truncate(db, 1);
            && once.packets.Keys == {s + Encode64(b)} && PurgedCount(db.streams, 1) == 1
            && PurgedCount(once.streams, 1) == 1 && Truncate(once, 1).packets == once.packets
  {
    hide Truncate, CutAt, PurgedCount, IndexAgrees, Encode64, Decode64;
    GapCut(db, s, a, b, b - a);
    GapCut(db, s, a, b, 1);
    var once := Truncate(db, 1);
    GapAfterOne(db, s, a, b, once);
    RemovesNothingIff(once, 1);
    NonemptyStreams(once);
    NoWrapMeetsIntent(once, 1);
  }

  lemma GapCut(db: Database, s: Bytes, a: U64, b: U64, n: U64)
    requires Gap(db, s, a, b) && b + 1 < TWO64 && 0 < n <= b - a
    ensures PurgedCount(db.streams, n) == n
    ensures Truncate(db, n).packets.Keys == {s + Encode64(b)}
  {
    hide Truncate, CutAt, PurgedCount, IndexAgrees, Encode64, Decode64;
    NonemptyStreams(db);
    NoWrapMeetsIntent(db, n);
    TruncationLeavesSuffix(db, n);
    PacketKeyParts(s, a);
    PacketKeyParts(s, b);
    var kept := KeepFrom(db.packets, a + n);
    assert s + Encode64(b) in db.packets && SequenceOf(s + Encode64(b)) == b;
    assert forall k :: k in kept <==> k == s + Encode64(b);
  }

  lemma GapAfterOne(db: Database, s: Bytes, a: U64, b: U64, once: Database)
    requires Gap(db, s, a, b) && b + 1 < TWO64 && once == Truncate(db, 1)
    requires once.packets.Keys == {s + Encode64(b)}
    ensures IndexAgrees(once) && once.packets != map[]
    ensures GlobalMin(once.streams) == a + 1 && GlobalMax(once.streams) == b
    ensures forall k | k in once.packets :: SequenceOf(k) == b
  {
    hide Purge, DecodeEntry, IndexAgrees, Encode64, Decode64;
    NonemptyStreams(db);
    PacketKeyParts(s, a);
    PacketKeyParts(s, b);
    CutoffArithmetic(a, b, 1);
    GapIsOneStream(db, s, a, b);
    OneStreamIsCovered(db, s);
    CoveredPurge(db, a + 1);
    PurgeKeepsIndex(db, a + 1);
    assert s + Encode64(b) in once.packets;
  }

  lemma GapIsOneStream(db: Database, s: Bytes, a: U64, b: U64)
    requires Gap(db, s, a, b)
    ensures db.streams.Keys == {s}
  {
    hide DecodeEntry, Encode64, Decode64;
    PacketKeyParts(s, a);
    PacketKeyParts(s, b);
    forall t ensures t in db.streams <==> t == s {
      RegisteredIffStored(db, t);
      assert s + Encode64(b) in db.packets;
    }
  }

  // ------------------------------------------------------------ density is kept

  lemma CutUnique(db: Database, cutoff: int)
    requires KeysAreWide(db.packets) && UniqueNumbers(db.packets)
    ensures UniqueNumbers(KeepFrom(db.packets, cutoff))
  {
  }

  /** Dense numbers leave no gap in the registry either. */
  lemma DenseIsCovered(db: Database)
    requires IndexAgrees(db) && Dense(db) && db.packets != map[]
    ensures Covered(db.streams)
  {
    hide DecodeEntry;
    forall m: int | GlobalMin(db.streams) <= m <= GlobalMax(db.streams) ensures InSomeRange(db.streams, m) {
      assert HasNumber(db.packets, m);
      var k :| k in db.packets && SequenceOf(k) == m;
      assert PacketIndexed(db, k);
    }
  }

  lemma DensePurge(db: Database, cutoff: U64)
    requires IndexAgrees(db) && Dense(db) && db.packets != map[]
    requires GlobalMin(db.streams) <= cutoff <= GlobalMax(db.streams) + 1
    ensures KeysAreWide(Purge(db, cutoff).packets) && Dense(Purge(db, cutoff))
  {
    hide Purge;
    var after := Purge(db, cutoff);
    PurgeIsGlobalCut(db, cutoff);
    CutUnique(db, cutoff);
    if cutoff <= GlobalMax(db.streams) {
      DenseIsCovered(db);
      CoveredPurge(db, cutoff);
      forall n | GlobalMin(after.streams) <= n <= GlobalMax(after.streams) ensures HasNumber(after.packets, n) {
        assert HasNumber(db.packets, n);
        var k :| k in db.packets && SequenceOf(k) == n;
        assert k in after.packets;
      }
    } else {
      GlobalMaxIsNewestStored(db);
      assert after.packets == map[];
    }
  }

  /** Truncation keeps a dense store dense. */
  lemma TruncateKeepsDense(db: Database, n: U64)
    requires IndexAgrees(db) && Dense(db)
    ensures KeysAreWide(Truncate(db, n).packets) && Dense(Truncate(db, n))
  {
    hide Purge, Dense;
    if PurgedCount(db.streams, n) != 0 {
      ZeroMeansEmpty(db, n);
      NonemptyStreams(db);
      if NoWrap(db.streams, n) {
        CutoffArithmetic(GlobalMin(db.streams), GlobalMax(db.streams), n);
        DensePurge(db, Cutoff(db.streams, n));
      } else {
        WrapPurgesNothing(db, n);
      }
    }
  }

  lemma PutBounds(db: Database, s: Bytes, n: U64, at: I64, payload: Bytes)
    requires IndexAgrees(db) && (db.packets == map[] || n == GlobalMax(db.streams) + 1)
    ensures var after := Put(db, s, n, at, payload).streams;
            GlobalMax(after) == n && GlobalMin(after) == if db.packets == map[] then n else GlobalMin(db.streams)
  {
    hide DecodeEntry, EncodeEntry, Encode64;
    var after := Put(db, s, n, at, payload).streams;
    PutEntry(db, s, n, at, payload);
    EmptyIndex(db);
    assert forall t | t != s :: Registered(after, t) <==> Registered(db.streams, t);
    assert Registered(after, s) && EntryOf(after, s).maxSeq == n;
    GlobalMaxUnique(after, n);
    if db.packets == map[] {
      assert EntryOf(after, s).minSeq == n;
      GlobalMinUnique(after, n);
    } else {
      BoundsOrdered(db);
      var t :| Registered(db.streams, t) && EntryOf(db.streams, t).minSeq == GlobalMin(db.streams);
      assert Registered(after, t) && EntryOf(after, t).minSeq == GlobalMin(db.streams);
      GlobalMinUnique(after, GlobalMin(db.streams));
    }
  }

  /** Storing the next number keeps a dense store dense. */
  lemma AppendKeepsDense(db: Database, s: Bytes, n: U64, at: I64, payload: Bytes)
    requires IndexAgrees(db) && Dense(db) && |s| == STREAM_KEY_LENGTH
    requires db.packets == map[] || n == GlobalMax(db.streams) + 1
    ensures var after := Put(db, s, n, at, payload); KeysAreWide(after.packets) && Dense(after)
  {
    hide EncodeValue, EncodeEntry, Encode64, DecodeEntry;
    var after := Put(db, s, n, at, payload);
    var key := s + Encode64(n);
    PacketKeyParts(s, n);
    PutBounds(db, s, n, at, payload);
    GlobalMaxIsNewestStored(db);
    assert key in after.packets;
    forall m | GlobalMin(after.streams) <= m <= GlobalMax(after.streams) ensures HasNumber(after.packets, m) {
      if m != n {
        assert HasNumber(db.packets, m);
        var k :| k in db.packets && SequenceOf(k) == m;
        assert k in after.packets;
      }
    }
  }

  // -------------------------------------------------------------- composition

  /** Two cuts are one cut at the later cutoff. */
  lemma CutTwice(db: Database, a: int, b: int)
    requires KeysAreWide(db.packets) && a <= b
    ensures CutAt(CutAt(db, a), b) == CutAt(db, b)
  {
    assert KeepFrom(KeepFrom(db.packets, a), b) == KeepFrom(db.packets, b);
    var once := CutAt(db, a).streams;
    forall s | s in once
      ensures Registered(once, s) && EntryOf(once, s) == RaisedEntry(EntryOf(db.streams, s), a)
    {
      EntryRoundTrip(RaisedEntry(EntryOf(db.streams, s), a));
    }
    CutStreamsTwice(db, a, b);
  }

  lemma CutStreamsTwice(db: Database, a: int, b: int)
    requires KeysAreWide(db.packets) && a <= b
    requires forall s | s in CutAt(db, a).streams ::
               Registered(CutAt(db, a).streams, s) &&
               EntryOf(CutAt(db, a).streams, s) == RaisedEntry(EntryOf(db.streams, s), a)
    ensures CutAt(CutAt(db, a), b).streams == CutAt(db, b).streams
  {
    hide EncodeEntry, DecodeEntry, KeepFrom;
  }

  /**
   Where the registry leaves no gap, truncating a and then b is truncating a + b, exactly when the
   longer request does not wrap either, or when both shorter ones already do.
   */
  lemma TruncationsComposeIff(db: Database, a: U64, b: U64)
    requires IndexAgrees(db) && Covered(db.streams) && a > 0 && b > 0 && a + b < TWO64
    ensures Truncate(Truncate(db, a), b) == Truncate(db, a + b) <==>
            db.packets == map[] || NoWrap(db.streams, a + b) || (!NoWrap(db.streams, a) && !NoWrap(db.streams, b))
  {
    hide Purge, CutAt, Truncate, Covered, IndexAgrees, PurgedCount;
    if db.packets == map[] {
      ZeroMeansEmpty(db, a);
      ZeroMeansEmpty(db, b);
      ZeroMeansEmpty(db, a + b);
      ZeroLeavesAlone(db, a);
      ZeroLeavesAlone(db, b);
      ZeroLeavesAlone(db, a + b);
    } else {
      NonemptyStreams(db);
      if NoWrap(db.streams, a + b) {
        NoWrapMeetsIntent(db, a);
        NoWrapMeetsIntent(db, a + b);
        ComposeNonempty(db, a, b);
      } else {
        WrapPurgesNothing(db, a + b);
        if NoWrap(db.streams, a) {
          NeverGoesBack(db, a, b);
        } else {
          WrapPurgesNothing(db, a);
          if NoWrap(db.streams, b) {
            TruncationMeetsIntent(db, b);
            IntentMovesTheMin(db, b);
          } else {
            WrapPurgesNothing(db, b);
          }
        }
      }
    }
  }

  /** What a call has moved no later call moves back. */
  lemma NeverGoesBack(db: Database, a: U64, b: U64)
    requires IndexAgrees(db) && db.packets != map[] && a > 0 && NoWrap(db.streams, a)
    ensures Truncate(Truncate(db, a), b) != db
  {
    hide Truncate, IndexAgrees, PurgedCount, Span;
    NonemptyStreams(db);
    ZeroMeansEmpty(db, a);
    NoWrapShrinksSpan(db, a);
    TruncateNarrows(db, a);
    var mid := Truncate(db, a);
    TruncateNarrows(mid, b);
    if Truncate(mid, b) == db && mid.packets == map[] {
      SpanNonNegative(mid);
      SpanNonNegative(db);
    }
  }

  lemma ComposeNonempty(db: Database, a: U64, b: U64)
    requires IndexAgrees(db) && Covered(db.streams) && a > 0 && b > 0 && db.packets != map[]
    requires a + b < TWO64 && NoWrap(db.streams, a + b)
    ensures KeysAreWide(Intended(db, a).packets)
    ensures Truncate(Intended(db, a), b) == Intended(db, a + b)
  {
    hide Purge, CutAt, Truncate, DecodeEntry, Covered, PurgedCount;
    NonemptyStreams(db);
    var (lo, hi) := (GlobalMin(db.streams), GlobalMax(db.streams));
    var cutoff := IntendedCutoff(db.streams, a);
    PurgeIsCut(db, cutoff);
    PurgeKeepsIndex(db, cutoff);
    var mid := Intended(db, a);
    CutTwice(db, cutoff, IntendedCutoff(db.streams, a + b));
    if cutoff <= hi {
      CoveredPurge(db, cutoff);
      EmptyIndex(mid);
      NoWrapMeetsIntent(mid, b);
    } else {
      PurgeIsGlobalCut(db, cutoff);
      GlobalMaxIsNewestStored(db);
      assert mid.packets == map[];
      ZeroMeansEmpty(mid, b);
      ZeroLeavesAlone(mid, b);
    }
  }
}
