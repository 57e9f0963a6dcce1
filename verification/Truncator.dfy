/**
 The broker's size monitor: truncate while the store is too large, and adapt the pause between
 rounds. Sizes on disk and commit outcomes are arbitrary, call by call. When the loop ends, when
 it does not, and when its int total tells the truth.
 */
module Truncator {
  import opened ByteStrings
  import opened KeyCodec
  import opened StoreModel
  import opened StoreIndex
  import opened Truncation
  import opened Density
  import opened RocksStore

  const TWO32: int := 0x1_0000_0000
  const TWO31: int := 0x8000_0000
  const MINIMUM_INTERVAL: int := 10

  type I32 = n: int | -TWO31 <= n < TWO31

  /** Storing a 64-bit sum into an int. */
  function ToI32(x: int): I32 {
    var low := x % TWO32;
    if low >= TWO31 then low - TWO32 else low
  }

  lemma ToI32Adds(x: int, y: int)
    ensures ToI32(ToI32(x) + y) == ToI32(x + y)
  {
  }

  // ------------------------------------------------------------- a run of calls

  /** The store after k calls, the i-th of which commits if commits(i). */
  ghost function After(db: Database, chunk: U64, commits: nat -> bool, k: nat): Database {
    if k == 0 then db else Exec(After(db, chunk, commits, k - 1), TruncateOldest(chunk, commits(k - 1)))
  }

  /** What the i-th call returns. */
  ghost function Report(db: Database, chunk: U64, commits: nat -> bool, i: nat): U64 {
    if commits(i) then PurgedCount(After(db, chunk, commits, i).streams, chunk) else 0
  }

  /** What the first k calls return in all. */
  ghost function Total(db: Database, chunk: U64, commits: nat -> bool, k: nat): nat {
    if k == 0 then 0 else Total(db, chunk, commits, k - 1) + Report(db, chunk, commits, k - 1)
  }

  /** Each of the first k calls reports progress. */
  ghost predicate Productive(db: Database, chunk: U64, commits: nat -> bool, k: nat) {
    forall i: nat :: i < k ==> Report(db, chunk, commits, i) != 0
  }

  /** The loop gets as far as a k-th look at the size. */
  ghost predicate Reaches(db: Database, size: nat -> nat, desired: nat, chunk: U64, commits: nat -> bool, k: nat) {
    Productive(db, chunk, commits, k) && forall i: nat :: i < k ==> size(i) > desired
  }

  /** The loop ends after k productive calls: the size fits, or one more call returns 0. */
  ghost predicate Ends(db: Database, size: nat -> nat, desired: nat, chunk: U64, commits: nat -> bool, k: nat) {
    Reaches(db, size, desired, chunk, commits, k) && (size(k) <= desired || Report(db, chunk, commits, k) == 0)
  }

  /** A call on this store would report progress and change nothing. */
  ghost predicate Stuck(db: Database, chunk: U64) {
    PurgedCount(db.streams, chunk) != 0 && !NoWrap(db.streams, chunk)
  }

  lemma NothingYet(db: Database, chunk: U64, commits: nat -> bool)
    ensures After(db, chunk, commits, 0) == db && Productive(db, chunk, commits, 0)
    ensures Total(db, chunk, commits, 0) == 0 && ToI32(0) == 0
  {
  }

  lemma NextCall(db: Database, chunk: U64, commits: nat -> bool, k: nat)
    ensures After(db, chunk, commits, k + 1) ==
            if commits(k) then Truncate(After(db, chunk, commits, k), chunk) else After(db, chunk, commits, k)
    ensures Total(db, chunk, commits, k + 1) == Total(db, chunk, commits, k) + Report(db, chunk, commits, k)
  {
  }

  lemma ProductiveSnoc(db: Database, chunk: U64, commits: nat -> bool, k: nat)
    requires Productive(db, chunk, commits, k) && Report(db, chunk, commits, k) != 0
    ensures Productive(db, chunk, commits, k + 1)
  {
  }

  lemma ExecNarrows(db: Database, chunk: U64, commits: bool)
    requires IndexAgrees(db)
    ensures var after := Exec(db, TruncateOldest(chunk, commits));
            && IndexAgrees(after) && GlobalMax(after.streams) <= GlobalMax(db.streams)
            && 0 <= Span(after.streams) <= Span(db.streams)
            && (Stuck(db, chunk) ==> after == db)
            && (commits && PurgedCount(db.streams, chunk) != 0 && !Stuck(db, chunk) ==>
                  Span(after.streams) + PurgedCount(db.streams, chunk) <= Span(db.streams))
  {
    hide Truncate, PurgedCount, Span, IndexAgrees, NoWrap;
    SpanNonNegative(db);
    TruncateNarrows(db, chunk);
    if PurgedCount(db.streams, chunk) != 0 {
      SpanShrinksIff(db, chunk);
    }
  }

  lemma {:induction false} AfterNarrows(db: Database, chunk: U64, commits: nat -> bool, k: nat)
    requires IndexAgrees(db)
    ensures var after := After(db, chunk, commits, k);
            && IndexAgrees(after) && GlobalMax(after.streams) <= GlobalMax(db.streams)
            && 0 <= Span(after.streams) <= Span(db.streams)
  {
    hide Exec, Span, IndexAgrees;
    if k == 0 {
      SpanNonNegative(db);
    } else {
      AfterNarrows(db, chunk, commits, k - 1);
      ExecNarrows(After(db, chunk, commits, k - 1), chunk, commits(k - 1));
    }
  }

  // ------------------------------------------------------- when the loop ends

  /** From call i on, some size reading fits or some commit fails. */
  ghost predicate Relents(size: nat -> nat, desired: nat, commits: nat -> bool, i: nat) {
    exists j: nat :: j >= i && (size(j) <= desired || !commits(j))
  }

  /** The loop reaches a store that a call cannot change. */
  ghost predicate StuckAt(db: Database, size: nat -> nat, desired: nat, chunk: U64, commits: nat -> bool, i: nat) {
    Reaches(db, size, desired, chunk, commits, i) && Stuck(After(db, chunk, commits, i), chunk)
  }

  lemma OneMoreCall(db: Database, size: nat -> nat, desired: nat, chunk: U64, commits: nat -> bool, i: nat)
    requires IndexAgrees(db) && Reaches(db, size, desired, chunk, commits, i)
    requires !Ends(db, size, desired, chunk, commits, i)
    ensures commits(i) && size(i) > desired && PurgedCount(After(db, chunk, commits, i).streams, chunk) != 0
    ensures Reaches(db, size, desired, chunk, commits, i + 1)
    ensures var (now, next) := (After(db, chunk, commits, i), After(db, chunk, commits, i + 1));
            && IndexAgrees(now) && IndexAgrees(next) && 0 <= Span(next.streams)
            && if Stuck(now, chunk) then next == now else Span(next.streams) < Span(now.streams)
  {
    hide Exec, Span, IndexAgrees, PurgedCount, NoWrap;
    AfterNarrows(db, chunk, commits, i);
    ExecNarrows(After(db, chunk, commits, i), chunk, commits(i));
  }

  /** A stuck store stays as it is until the loop is let go from outside. */
  lemma {:induction false} StuckUntil(db: Database, size: nat -> nat, desired: nat, chunk: U64, commits: nat -> bool,
        i: nat, j: nat) returns (k: nat)
    requires IndexAgrees(db) && StuckAt(db, size, desired, chunk, commits, i)
    requires j >= i && (size(j) <= desired || !commits(j))
    ensures Ends(db, size, desired, chunk, commits, k)
    decreases j - i
  {
    hide After, IndexAgrees, Stuck, Span, Reaches;
    if Ends(db, size, desired, chunk, commits, i) {
      k := i;
    } else {
      OneMoreCall(db, size, desired, chunk, commits, i);
      k := StuckUntil(db, size, desired, chunk, commits, i + 1, j);
    }
  }

  lemma {:induction false} EndsFrom(db: Database, size: nat -> nat, desired: nat, chunk: U64, commits: nat -> bool,
        i: nat) returns (k: nat)
    requires IndexAgrees(db) && Reaches(db, size, desired, chunk, commits, i)
    requires forall m: nat :: StuckAt(db, size, desired, chunk, commits, m) ==> Relents(size, desired, commits, m)
    ensures Ends(db, size, desired, chunk, commits, k)
    decreases Span(After(db, chunk, commits, i).streams)
  {
    hide After, IndexAgrees, Stuck, Span, Reaches;
    if Ends(db, size, desired, chunk, commits, i) {
      k := i;
    } else {
      OneMoreCall(db, size, desired, chunk, commits, i);
      if StuckAt(db, size, desired, chunk, commits, i) {
        var j: nat :| j >= i && (size(j) <= desired || !commits(j));
        k := StuckUntil(db, size, desired, chunk, commits, i, j);
      } else {
        k := EndsFrom(db, size, desired, chunk, commits, i + 1);
      }
    }
  }

  lemma {:induction false} StuckMustRelent(db: Database, size: nat -> nat, desired: nat, chunk: U64,
        commits: nat -> bool, i: nat, k: nat)
    requires IndexAgrees(db) && StuckAt(db, size, desired, chunk, commits, i)
    requires Ends(db, size, desired, chunk, commits, k)
    ensures Relents(size, desired, commits, i)
    decreases k - i
  {
    hide After, IndexAgrees, Span;
    if size(i) > desired && commits(i) {
      assert Report(db, chunk, commits, i) != 0;
      assert !Ends(db, size, desired, chunk, commits, i);
      OneMoreCall(db, size, desired, chunk, commits, i);
      assert k > i;
      StuckMustRelent(db, size, desired, chunk, commits, i + 1, k);
      var j: nat :| j >= i + 1 && (size(j) <= desired || !commits(j));
    }
  }

  /** The loop ends exactly when any store it gets stuck on is followed by a size that fits or a commit that fails. */
  lemma LoopEndsIff(db: Database, size: nat -> nat, desired: nat, chunk: U64, commits: nat -> bool)
    requires IndexAgrees(db)
    ensures (exists k: nat :: Ends(db, size, desired, chunk, commits, k)) <==>
            forall i: nat :: StuckAt(db, size, desired, chunk, commits, i) ==> Relents(size, desired, commits, i)
  {
    hide After, IndexAgrees, Stuck, Relents, Ends;
    if forall i: nat :: StuckAt(db, size, desired, chunk, commits, i) ==> Relents(size, desired, commits, i)
    {
      var k := EndsFrom(db, size, desired, chunk, commits, 0);
    }
    if k: nat :| Ends(db, size, desired, chunk, commits, k) {
      forall i: nat | StuckAt(db, size, desired, chunk, commits, i)
        ensures Relents(size, desired, commits, i)
      {
        StuckMustRelent(db, size, desired, chunk, commits, i, k);
      }
    }
  }

  /** The newest number leaves room for one more chunk. */
  ghost predicate Roomy(db: Database, chunk: U64) { GlobalMax(db.streams) + chunk < TWO64 }

  lemma RoomyIsNotStuck(db: Database, chunk: U64)
    requires IndexAgrees(db) && Roomy(db, chunk)
    ensures !Stuck(db, chunk)
  {
    if chunk > 0 && db.packets != map[] {
      NonemptyStreams(db);
    } else if chunk > 0 {
      ZeroMeansEmpty(db, chunk);
    }
  }

  /** What a caller can check beforehand: with room for a chunk above the newest number the loop always ends. */
  lemma RoomyLoopEnds(db: Database, size: nat -> nat, desired: nat, chunk: U64, commits: nat -> bool)
    requires IndexAgrees(db) && Roomy(db, chunk)
    ensures forall i: nat :: !Stuck(After(db, chunk, commits, i), chunk)
    ensures exists k: nat :: Ends(db, size, desired, chunk, commits, k)
  {
    hide After, IndexAgrees, Stuck, Ends, Reaches;
    forall i: nat ensures !Stuck(After(db, chunk, commits, i), chunk) {
      AfterNarrows(db, chunk, commits, i);
      RoomyIsNotStuck(After(db, chunk, commits, i), chunk);
    }
    LoopEndsIff(db, size, desired, chunk, commits);
  }

  // ----------------------------------------------------------- what it adds up

  /** Short of a stuck store, the counts never exceed the registered span. */
  lemma {:induction false} TotalWithinSpan(db: Database, chunk: U64, commits: nat -> bool, k: nat)
    requires IndexAgrees(db) && Productive(db, chunk, commits, k)
    requires forall i: nat :: i < k ==> !Stuck(After(db, chunk, commits, i), chunk)
    ensures k <= Total(db, chunk, commits, k) <= Span(db.streams) - Span(After(db, chunk, commits, k).streams)
  {
    hide Exec, IndexAgrees, Stuck, Span, PurgedCount;
    if k > 0 {
      TotalWithinSpan(db, chunk, commits, k - 1);
      AfterNarrows(db, chunk, commits, k - 1);
      ExecNarrows(After(db, chunk, commits, k - 1), chunk, commits(k - 1));
      assert Report(db, chunk, commits, k - 1) != 0;
    }
  }

  /** A span below 2^31 cannot overflow the int: it is positive exactly when something was reported. */
  lemma ShortSpanIsSeen(db: Database, chunk: U64, commits: nat -> bool, k: nat)
    requires IndexAgrees(db) && Productive(db, chunk, commits, k) && Span(db.streams) < TWO31
    requires forall i: nat :: i < k ==> !Stuck(After(db, chunk, commits, i), chunk)
    ensures ToI32(Total(db, chunk, commits, k)) == Total(db, chunk, commits, k)
    ensures ToI32(Total(db, chunk, commits, k)) > 0 <==> k > 0
  {
    hide IndexAgrees, Stuck, Span, Productive, After;
    TotalWithinSpan(db, chunk, commits, k);
    AfterNarrows(db, chunk, commits, k);
  }

  /**
   The inner loop. It ends whenever the code's does: after k productive calls, with the size in
   bounds or after one more call that returned 0. If that call committed, the store is empty (or
   spans every 64-bit number).
   */
  method TruncateToFit(store: RocksDatabase, size: nat -> nat, desired: nat, chunk: U64, commits: nat -> bool)
      returns (total: I32, ghost k: nat)
    requires IndexAgrees(store.Contents())
    requires exists k: nat :: Ends(store.Contents(), size, desired, chunk, commits, k)
    modifies store
    ensures Ends(old(store.Contents()), size, desired, chunk, commits, k)
    ensures store.Contents() == After(old(store.Contents()), chunk, commits, if size(k) <= desired then k else k + 1)
    ensures IndexAgrees(store.Contents())
    ensures total == ToI32(Total(old(store.Contents()), chunk, commits, k))
    ensures old(Roomy(store.Contents(), chunk) && Span(store.streams) < TWO31) ==> (total > 0 <==> k > 0)
    ensures size(k) > desired && commits(k) && chunk > 0 ==>
              store.packets == map[] || (GlobalMin(store.streams) == 0 && GlobalMax(store.streams) == TWO64 - 1)
  {
    hide PurgedCount, Truncate, Span, IndexAgrees, ToI32, Stuck, Roomy, After, Total;
    ghost var start := store.Contents();
    ghost var last: nat :| Ends(start, size, desired, chunk, commits, last);
    total, k := 0, 0;
    var calls := 0;
    NothingYet(start, chunk, commits);
    while size(calls) > desired
      invariant calls == k <= last
      invariant Reaches(start, size, desired, chunk, commits, k)
      invariant store.Contents() == After(start, chunk, commits, k)
      invariant total == ToI32(Total(start, chunk, commits, k))
      decreases last - calls
    {
      var truncated := store.TruncateOldest(chunk, commits(calls));
      NextCall(start, chunk, commits, k);
      if truncated == 0 {
        break;
      }
      ToI32Adds(Total(start, chunk, commits, k), truncated);
      total := ToI32(total + truncated);
      calls := calls + 1;
      k := k + 1;
    }
    LoopResult(start, size, desired, chunk, commits, k);
  }

  lemma LoopResult(start: Database, size: nat -> nat, desired: nat, chunk: U64, commits: nat -> bool, k: nat)
    requires IndexAgrees(start) && Ends(start, size, desired, chunk, commits, k)
    ensures var after := After(start, chunk, commits, if size(k) <= desired then k else k + 1);
            && IndexAgrees(after)
            && (Roomy(start, chunk) && Span(start.streams) < TWO31 ==>
                  (ToI32(Total(start, chunk, commits, k)) > 0 <==> k > 0))
            && (size(k) > desired && commits(k) && chunk > 0 ==>
                  after.packets == map[] || (GlobalMin(after.streams) == 0 && GlobalMax(after.streams) == TWO64 - 1))
  {
    hide PurgedCount, Truncate, Span, IndexAgrees, ToI32, Stuck, Productive;
    AfterNarrows(start, chunk, commits, k);
    AfterNarrows(start, chunk, commits, k + 1);
    if Roomy(start, chunk) && Span(start.streams) < TWO31 {
      RoomyLoopEnds(start, size, desired, chunk, commits);
      ShortSpanIsSeen(start, chunk, commits, k);
    }
    if size(k) > desired && commits(k) && chunk > 0 {
      var now := After(start, chunk, commits, k);
      ZeroMeansEmpty(now, chunk);
      NothingToDo(now, chunk);
    }
  }

  // ------------------------------------------------- a registry without gaps

  lemma CoveredCall(db: Database, n: U64)
    requires IndexAgrees(db) && Covered(db.streams) && db.packets != map[] && n > 0 && NoWrap(db.streams, n)
    ensures PurgedCount(db.streams, n) == Min(n, Span(db.streams)) > 0
    ensures var (after, lo, hi) := (Truncate(db, n), GlobalMin(db.streams), GlobalMax(db.streams));
            && (n < Span(db.streams) ==>
                  after.packets != map[] && Covered(after.streams) &&
                  GlobalMin(after.streams) == lo + n && GlobalMax(after.streams) == hi)
            && (n >= Span(db.streams) ==> after.packets == map[])
  {
    hide Purge, Covered, IndexAgrees, CutoffFrom;
    NonemptyStreams(db);
    BoundsOrdered(db);
    var (lo, hi) := (GlobalMin(db.streams), GlobalMax(db.streams));
    CutoffArithmetic(lo, hi, n);
    if n < Span(db.streams) {
      CoveredPurge(db, lo + n);
    } else {
      PurgedAll(db, hi + 1);
    }
  }

  lemma PurgedAll(db: Database, cutoff: U64)
    requires IndexAgrees(db) && cutoff > GlobalMax(db.streams)
    ensures Purge(db, cutoff).packets == map[]
  {
    hide Purge;
    PurgeIsGlobalCut(db, cutoff);
    GlobalMaxIsNewestStored(db);
  }

  /** A store without gaps that spans lo to hi. */
  ghost predicate CoveredFrom(db: Database, lo: int, hi: int) {
    && IndexAgrees(db) && db.packets != map[] && Covered(db.streams)
    && GlobalMin(db.streams) == lo && GlobalMax(db.streams) == hi
  }

  /** The k-th call of a covered store has dropped exactly k chunks, or everything. */
  lemma {:induction false} CoveredRun(db: Database, chunk: U64, commits: nat -> bool, k: nat)
    requires IndexAgrees(db) && Covered(db.streams) && db.packets != map[] && chunk > 0
    requires GlobalMax(db.streams) + 1 < TWO64 && GlobalMin(db.streams) + k * chunk < TWO64
    requires (k - 1) * chunk < Span(db.streams) && forall i: nat :: commits(i)
    ensures Productive(db, chunk, commits, k)
    ensures Total(db, chunk, commits, k) == Min(k * chunk, Span(db.streams))
    ensures if k * chunk < Span(db.streams)
            then CoveredFrom(After(db, chunk, commits, k), GlobalMin(db.streams) + k * chunk, GlobalMax(db.streams))
            else After(db, chunk, commits, k).packets == map[]
  {
    hide Productive, Total, After, Covered, IndexAgrees, Span;
    NothingYet(db, chunk, commits);
    if k == 0 {
      NonemptyStreams(db);
      SpanNonNegative(db);
    } else {
      var done := (k - 1) * chunk;
      assert k * chunk == done + chunk && (k - 2) * chunk < done by { assert (k - 2) * chunk == done - chunk; }
      CoveredRun(db, chunk, commits, k - 1);
      CoveredStep(db, chunk, commits, k - 1, done);
    }
  }

  lemma CoveredStep(db: Database, chunk: U64, commits: nat -> bool, k: nat, done: nat)
    requires IndexAgrees(db) && chunk > 0 && commits(k) && db.packets != map[]
    requires GlobalMax(db.streams) + 1 < TWO64 && GlobalMin(db.streams) + done + chunk < TWO64
    requires Productive(db, chunk, commits, k) && Total(db, chunk, commits, k) == done < Span(db.streams)
    requires CoveredFrom(After(db, chunk, commits, k), GlobalMin(db.streams) + done, GlobalMax(db.streams))
    ensures Productive(db, chunk, commits, k + 1)
    ensures Total(db, chunk, commits, k + 1) == Min(done + chunk, Span(db.streams))
    ensures if done + chunk < Span(db.streams)
            then CoveredFrom(After(db, chunk, commits, k + 1), GlobalMin(db.streams) + done + chunk,
                             GlobalMax(db.streams))
            else After(db, chunk, commits, k + 1).packets == map[]
  {
    hide Truncate, PurgedCount, Covered, IndexAgrees, After, Total, Productive, Span;
    var now := After(db, chunk, commits, k);
    SpanOf(db);
    SpanOf(now);
    CoveredCall(now, chunk);
    NextCall(db, chunk, commits, k);
    ProductiveSnoc(db, chunk, commits, k);
    AfterNarrows(db, chunk, commits, k + 1);
  }

  /**
   With no size that fits and no commit that fails, the loop on a covered store ends exactly when
   the end of its last chunk is below 2^64.
   */
  lemma CoveredLoopEndsIff(db: Database, size: nat -> nat, desired: nat, chunk: U64, commits: nat -> bool)
    requires IndexAgrees(db) && Covered(db.streams) && db.packets != map[] && chunk > 0
    requires forall i: nat :: size(i) > desired && commits(i)
    ensures var (lo, hi) := (GlobalMin(db.streams), GlobalMax(db.streams));
            (exists k: nat :: Ends(db, size, desired, chunk, commits, k)) <==>
            (lo == 0 && hi == TWO64 - 1) || (hi + 1 < TWO64 && lo + ((hi - lo) / chunk + 1) * chunk < TWO64)
  {
    hide After, IndexAgrees, Covered, PurgedCount, Ends, StuckAt, NoWrap;
    NonemptyStreams(db);
    var (lo, hi) := (GlobalMin(db.streams), GlobalMax(db.streams));
    var k: nat := (hi - lo) / chunk;
    Quotient(hi - lo, chunk, k);
    if lo == 0 && hi == TWO64 - 1 {
      FullRangeEnds(db, size, desired, chunk, commits);
    } else if hi + 1 >= TWO64 {
      TopSticks(db, size, desired, chunk, commits);
      StuckForever(db, size, desired, chunk, commits, 0);
    } else if lo + k * chunk + chunk < TWO64 {
      CoveredLoopEnds(db, size, desired, chunk, commits, k + 1);
    } else {
      CoveredLoopSticks(db, size, desired, chunk, commits, k);
      StuckForever(db, size, desired, chunk, commits, k);
    }
  }

  lemma Quotient(x: nat, chunk: U64, k: nat)
    requires chunk > 0 && k == x / chunk
    ensures k * chunk <= x < k * chunk + chunk
    ensures (k + 1) * chunk == k * chunk + chunk && (k + 1 - 1) * chunk == k * chunk
  {
  }

  /** With no reading that fits and no commit that fails, a stuck store keeps the loop going for ever. */
  lemma StuckForever(db: Database, size: nat -> nat, desired: nat, chunk: U64, commits: nat -> bool, i: nat)
    requires IndexAgrees(db) && StuckAt(db, size, desired, chunk, commits, i)
    requires forall j: nat :: size(j) > desired && commits(j)
    ensures !exists k: nat :: Ends(db, size, desired, chunk, commits, k)
  {
    hide After, IndexAgrees, StuckAt, Ends;
    if k: nat :| Ends(db, size, desired, chunk, commits, k) {
      StuckMustRelent(db, size, desired, chunk, commits, i, k);
    }
  }

  lemma FullRangeEnds(db: Database, size: nat -> nat, desired: nat, chunk: U64, commits: nat -> bool)
    requires IndexAgrees(db) && chunk > 0 && GlobalMin(db.streams) == 0 && GlobalMax(db.streams) == TWO64 - 1
    ensures Ends(db, size, desired, chunk, commits, 0)
  {
    hide IndexAgrees, PurgedCount;
    NothingYet(db, chunk, commits);
    ZeroMeansEmpty(db, chunk);
  }

  lemma TopSticks(db: Database, size: nat -> nat, desired: nat, chunk: U64, commits: nat -> bool)
    requires IndexAgrees(db) && chunk > 0 && db.packets != map[]
    requires GlobalMin(db.streams) > 0 && GlobalMax(db.streams) == TWO64 - 1
    ensures StuckAt(db, size, desired, chunk, commits, 0)
  {
    hide IndexAgrees, PurgedCount;
    NothingYet(db, chunk, commits);
    ZeroMeansEmpty(db, chunk);
  }

  lemma CoveredLoopEnds(db: Database, size: nat -> nat, desired: nat, chunk: U64, commits: nat -> bool, k: nat)
    requires IndexAgrees(db) && Covered(db.streams) && db.packets != map[] && chunk > 0
    requires forall i: nat :: size(i) > desired && commits(i)
    requires GlobalMax(db.streams) + 1 < TWO64 && GlobalMin(db.streams) + k * chunk < TWO64
    requires (k - 1) * chunk <= GlobalMax(db.streams) - GlobalMin(db.streams) < k * chunk
    ensures Ends(db, size, desired, chunk, commits, k)
  {
    hide After, IndexAgrees, Covered, PurgedCount, Productive;
    NonemptyStreams(db);
    BoundsOrdered(db);
    CoveredRun(db, chunk, commits, k);
    AfterNarrows(db, chunk, commits, k);
    ZeroMeansEmpty(After(db, chunk, commits, k), chunk);
  }

  lemma CoveredLoopSticks(db: Database, size: nat -> nat, desired: nat, chunk: U64, commits: nat -> bool, k: nat)
    requires IndexAgrees(db) && Covered(db.streams) && db.packets != map[] && chunk > 0
    requires forall i: nat :: size(i) > desired && commits(i)
    requires GlobalMax(db.streams) + 1 < TWO64 && GlobalMin(db.streams) + k * chunk + chunk >= TWO64
    requires k * chunk <= GlobalMax(db.streams) - GlobalMin(db.streams)
    ensures StuckAt(db, size, desired, chunk, commits, k)
  {
    hide After, IndexAgrees, Covered, PurgedCount, Productive;
    NonemptyStreams(db);
    BoundsOrdered(db);
    assert (k - 1) * chunk < k * chunk by { assert (k - 1) * chunk == k * chunk - chunk; }
    CoveredRun(db, chunk, commits, k);
    ZeroMeansEmpty(After(db, chunk, commits, k), chunk);
  }

  // ------------------------------------------------------ when the total lies

  /** A loop that made progress whose int total says it made none. */
  ghost predicate Misread(db: Database, size: nat -> nat, desired: nat, chunk: U64, commits: nat -> bool, k: nat) {
    k > 0 && Ends(db, size, desired, chunk, commits, k) && ToI32(Total(db, chunk, commits, k)) <= 0
  }

  /** On a covered store with room, some course of size readings is misread exactly when the span reaches 2^31. */
  lemma MisreadIff(db: Database, desired: nat, chunk: U64, commits: nat -> bool)
    requires IndexAgrees(db) && Covered(db.streams) && Roomy(db, chunk) && 0 < chunk < TWO31
    requires forall i: nat :: commits(i)
    ensures (exists size: nat -> nat, k: nat :: Misread(db, size, desired, chunk, commits, k)) <==>
            Span(db.streams) >= TWO31
  {
    hide After, IndexAgrees, Covered, Stuck, Span, Roomy, Total, ToI32, Reaches;
    if Span(db.streams) >= TWO31 {
      var size, k := LongSpanMisreads(db, desired, chunk, commits);
    } else if size: nat -> nat, k: nat :| Misread(db, size, desired, chunk, commits, k) {
      RoomyLoopEnds(db, size, desired, chunk, commits);
      ReachedIsProductive(db, size, desired, chunk, commits, k);
      ShortSpanIsSeen(db, chunk, commits, k);
    }
  }

  lemma ReachedIsProductive(db: Database, size: nat -> nat, desired: nat, chunk: U64, commits: nat -> bool, k: nat)
    requires Ends(db, size, desired, chunk, commits, k)
    ensures Productive(db, chunk, commits, k)
  {
  }

  lemma LongSpanMisreads(db: Database, desired: nat, chunk: U64, commits: nat -> bool)
      returns (size: nat -> nat, k: nat)
    requires IndexAgrees(db) && Covered(db.streams) && Roomy(db, chunk) && 0 < chunk < TWO31
    requires Span(db.streams) >= TWO31 && forall i: nat :: commits(i)
    ensures Misread(db, size, desired, chunk, commits, k)
  {
    hide After, IndexAgrees, Covered, Total, Productive, PurgedCount, Span, Ends, ToI32, Report;
    k := CallsPast(chunk);
    LongTotal(db, chunk, commits, k);
    size := FitsAfter(k, desired);
    StopsAt(db, desired, chunk, commits, k);
    LooksNegative(Total(db, chunk, commits, k));
  }

  lemma LongTotal(db: Database, chunk: U64, commits: nat -> bool, k: nat)
    requires IndexAgrees(db) && Covered(db.streams) && Roomy(db, chunk) && Span(db.streams) >= TWO31
    requires TWO31 <= k * chunk < TWO31 + chunk < TWO32 && (k - 1) * chunk < TWO31 && forall i: nat :: commits(i)
    ensures Productive(db, chunk, commits, k) && TWO31 <= Total(db, chunk, commits, k) < TWO32
  {
    hide After, IndexAgrees, Covered, Total, Productive, PurgedCount, Span, Report;
    SpanNonNegative(db);
    SpanOf(db);
    CoveredRun(db, chunk, commits, k);
  }

  lemma LooksNegative(x: int)
    requires TWO31 <= x < TWO32
    ensures ToI32(x) < 0
  {
  }

  lemma SpanOf(db: Database)
    requires IndexAgrees(db) && db.packets != map[]
    ensures Span(db.streams) == GlobalMax(db.streams) + 1 - GlobalMin(db.streams) > 0
  {
    NonemptyStreams(db);
    BoundsOrdered(db);
  }

  /** The first number of chunks to reach 2^31. */
  lemma CallsPast(chunk: U64) returns (k: nat)
    requires 0 < chunk < TWO31
    ensures k > 0 && TWO31 <= k * chunk < TWO31 + chunk && (k - 1) * chunk < TWO31
  {
    k := (TWO31 + chunk - 1) / chunk;
    assert (k - 1) * chunk == k * chunk - chunk;
  }

  /** Over budget for k looks, then within it. */
  function FitsAfter(k: nat, desired: nat): nat -> nat {
    i => if i < k then desired + 1 else desired
  }

  lemma StopsAt(db: Database, desired: nat, chunk: U64, commits: nat -> bool, k: nat)
    requires Productive(db, chunk, commits, k)
    ensures Ends(db, FitsAfter(k, desired), desired, chunk, commits, k)
  {
    hide Productive;
  }

  /** Two packets of one stream suffice, with the chunk the broker uses unless told otherwise. */
  lemma TwoPacketsMisread(s: Bytes, at: I64, payload: Bytes, desired: nat, commits: nat -> bool)
      returns (size: nat -> nat, k: nat)
    requires |s| == STREAM_KEY_LENGTH && forall i: nat :: commits(i)
    ensures Misread(Put(Put(EMPTY, s, 1, at, payload), s, TWO31 + 1, at, payload), size, desired, 128, commits, k)
  {
    hide Put, IndexAgrees, Covered, Misread, UniqueNumbers;
    var db := Put(Put(EMPTY, s, 1, at, payload), s, TWO31 + 1, at, payload);
    GapExists(s, 1, TWO31 + 1, at, payload);
    GapIsOneStream(db, s, 1, TWO31 + 1);
    OneStreamIsCovered(db, s);
    BoundsOrdered(db);
    size, k := LongSpanMisreads(db, desired, 128, commits);
  }

  // ------------------------------------------------------------------ pausing

  /** The pause after a round: halved after progress, doubled otherwise, within its bounds. */
  function NextInterval(base: int, current: int, total: I32): int {
    if total > 0 then Max(MINIMUM_INTERVAL, current / 2) else Min(base, current * 2)
  }

  /** One pass of the monitor, up to its sleep. */
  method Round(store: RocksDatabase, size: nat -> nat, desired: Option<nat>, chunk: U64, commits: nat -> bool,
               base: int, current: int)
      returns (interval: int, ghost k: nat)
    requires IndexAgrees(store.Contents())
    requires desired.Some? ==> exists k: nat :: Ends(store.Contents(), size, desired.value, chunk, commits, k)
    modifies store
    ensures IndexAgrees(store.Contents())
    ensures desired.None? ==> interval == current && store.Contents() == old(store.Contents())
    ensures desired.Some? ==>
              && Ends(old(store.Contents()), size, desired.value, chunk, commits, k)
              && store.Contents() ==
                 After(old(store.Contents()), chunk, commits, if size(k) <= desired.value then k else k + 1)
              && interval == NextInterval(base, current, ToI32(Total(old(store.Contents()), chunk, commits, k)))
    ensures desired.Some? && old(Roomy(store.Contents(), chunk) && Span(store.streams) < TWO31) ==>
              interval == if k > 0 then Max(MINIMUM_INTERVAL, current / 2) else Min(base, current * 2)
  {
    hide Ends, After, Span, ToI32, IndexAgrees, Roomy, Total;
    interval, k := current, 0;
    if desired.Some? {
      var total: I32;
      total, k := TruncateToFit(store, size, desired.value, chunk, commits);
      if total > 0 {
        interval := Max(MINIMUM_INTERVAL, current / 2);
      } else {
        interval := Min(base, current * 2);
      }
    }
  }

  /** The pause after a run of rounds that started from current. */
  function IntervalAfter(base: int, current: int, totals: seq<I32>): int {
    if totals == [] then current
    else NextInterval(base, IntervalAfter(base, current, totals[..|totals| - 1]), totals[|totals| - 1])
  }

  function Pow2(k: nat): (p: int)
    ensures p >= 1
  {
    if k == 0 then 1 else 2 * Pow2(k - 1)
  }

  /** k truncating rounds from the base interval divide it by 2^k, down to the minimum. */
  lemma {:induction false} TruncatingRounds(base: int, totals: seq<I32>)
    requires base >= MINIMUM_INTERVAL
    requires forall i :: 0 <= i < |totals| ==> totals[i] > 0
    ensures IntervalAfter(base, base, totals) == Max(MINIMUM_INTERVAL, base / Pow2(|totals|))
  {
    if totals != [] {
      var k := |totals| - 1;
      TruncatingRounds(base, totals[..k]);
      DivDiv(base, Pow2(k), 2);
    }
  }

  /** n idle rounds multiply the interval by 2^n, up to the base. */
  lemma {:induction false} IdleRounds(base: int, current: int, totals: seq<I32>)
    requires MINIMUM_INTERVAL <= current <= base
    requires forall i :: 0 <= i < |totals| ==> totals[i] <= 0
    ensures IntervalAfter(base, current, totals) == Min(base, current * Pow2(|totals|))
  {
    if totals != [] {
      var n := |totals| - 1;
      IdleRounds(base, current, totals[..n]);
      assert current * Pow2(n + 1) == 2 * (current * Pow2(n));
    }
  }

  /** Any mix of rounds stays between the minimum and the base. */
  lemma {:induction false} MixedRounds(base: int, current: int, totals: seq<I32>)
    requires MINIMUM_INTERVAL <= current <= base
    ensures MINIMUM_INTERVAL <= IntervalAfter(base, current, totals) <= base
  {
    if totals != [] {
      MixedRounds(base, current, totals[..|totals| - 1]);
    }
  }
}
