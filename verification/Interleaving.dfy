/**
 The writer thread and the truncation thread over whole runs: each reads the registry, and commits
 later whatever it planned, with any number of the other's steps in between. The index agrees with
 the packets throughout such a run exactly when every commit that lands is harmless.
 */
module Interleaving {
  import opened ByteStrings
  import opened KeyCodec
  import opened StoreModel
  import opened StoreIndex
  import opened Snapshots
  import opened TruncationRace

  /** A write under way, with the store that answered each of its registry reads so far. */
  datatype PendingWrite = PendingWrite(items: seq<Received>, origins: map<Bytes, Database>)

  /** A truncation whose registry scan saw before. */
  datatype PendingPurge = PendingPurge(before: Database, cutoff: U64)

  datatype Threads = Threads(db: Database, write: Option<PendingWrite>, purge: Option<PendingPurge>)

  datatype Step =
    | BeginWrite(items: seq<Received>)
    | ReadEntry(stream: Bytes)
    | CommitWrite(succeeds: bool)
    | BeginTruncation(n: U64)
    | CommitTruncation(succeeds: bool)

  const START := Threads(EMPTY, None, None)

  /** The entries those reads returned. */
  function Answers(origins: map<Bytes, Database>): map<Bytes, Bytes> {
    map s | s in origins && s in origins[s].streams :: origins[s].streams[s]
  }

  ghost predicate AllRead(w: PendingWrite) { forall s :: Touches(w.items, s) ==> s in w.origins }

  ghost function Next(c: Threads, step: Step): Threads {
    match step
    case BeginWrite(items) => if c.write.None? then c.(write := Some(PendingWrite(items, map[]))) else c
    case ReadEntry(s) =>
      if c.write.Some? && Touches(c.write.value.items, s) && s !in c.write.value.origins
      then c.(write := Some(c.write.value.(origins := c.write.value.origins[s := c.db]))) else c
    case CommitWrite(succeeds) =>
      if c.write.None? || !AllRead(c.write.value) then c
      else if !succeeds then c.(write := None)
      else c.(db := StaleWrite(Answers(c.write.value.origins), c.db, c.write.value.items), write := None)
    case BeginTruncation(n) =>
      if c.purge.None? && PurgedCount(c.db.streams, n) != 0
      then c.(purge := Some(PendingPurge(c.db, Cutoff(c.db.streams, n)))) else c
    case CommitTruncation(succeeds) =>
      if c.purge.None? then c
      else if !succeeds then c.(purge := None)
      else c.(db := StalePurge(c.purge.value.before.streams, c.db, c.purge.value.cutoff), purge := None)
  }

  ghost function After(c: Threads, steps: seq<Step>): Threads {
    if steps == [] then c else Next(After(c, steps[..|steps| - 1]), steps[|steps| - 1])
  }

  /** The streams a pending write touches keep the newest packet it read of, or get one at least as new. */
  ghost predicate WriteIsHarmless(db: Database, w: PendingWrite) {
    forall s | Touches(w.items, s) && s in w.origins && Registered(w.origins[s].streams, s) ::
      StaysCurrent(w.origins[s], db, w.items, s)
  }

  /** The streams a pending truncation selected hold nothing past its cutoff that its scan did not bound. */
  ghost predicate PurgeIsHarmless(db: Database, p: PendingPurge) {
    WellFormed(db) && AllForeseen(p.before.streams, db, p.cutoff)
  }

  ghost predicate Harmless(c: Threads, step: Step) {
    && (step == CommitWrite(true) && c.write.Some? && AllRead(c.write.value) ==> WriteIsHarmless(c.db, c.write.value))
    && (step == CommitTruncation(true) && c.purge.Some? ==> PurgeIsHarmless(c.db, c.purge.value))
  }

  ghost predicate OnlyRemovedSince(origins: map<Bytes, Database>, db: Database) {
    forall s | s in origins :: IndexAgrees(origins[s]) && Remains(origins[s].packets, db.packets)
  }

  /** Since its reads, only truncations have run beside a pending write and only writes beside a pending truncation. */
  ghost predicate Coherent(c: Threads) {
    && IndexAgrees(c.db)
    && (c.write.Some? ==> OnlyRemovedSince(c.write.value.origins, c.db))
    && (c.purge.Some? ==>
          IndexAgrees(c.purge.value.before) && c.purge.value.before.packets.Keys <= c.db.packets.Keys)
  }

  lemma WriteStep(c: Threads)
    requires Coherent(c) && c.write.Some? && AllRead(c.write.value)
    ensures IndexAgrees(Next(c, CommitWrite(true)).db) <==> WriteIsHarmless(c.db, c.write.value)
    ensures WriteIsHarmless(c.db, c.write.value) ==> Coherent(Next(c, CommitWrite(true)))
  {
    hide StaleWrite, Touches, StaysCurrent, Remains, IndexAgrees;
    var w := c.write.value;
    var snapshot := Answers(w.origins);
    assert ReadFrom(snapshot, w.origins, c.db, w.items);
    StaleWriteKeepsIndexIff(snapshot, w.origins, c.db, w.items);
    forall s | s in w.origins ensures s in w.origins[s].streams <==> Registered(w.origins[s].streams, s) {
      AllRegistered(w.origins[s]);
    }
    forall k | k in c.db.packets ensures k in StaleWrite(snapshot, c.db, w.items).packets {
      StaleWriteAdds(snapshot, c.db, w.items, k);
    }
  }

  lemma AllRegistered(db: Database)
    requires IndexAgrees(db)
    ensures forall s :: s in db.streams <==> Registered(db.streams, s)
  {
  }

  lemma StaleWriteAdds(snapshot: map<Bytes, Bytes>, db: Database, items: seq<Received>, k: Bytes)
    requires k in db.packets
    ensures k in StaleWrite(snapshot, db, items).packets
  {
    hide InsertAll;
    WriteAddsItsKeys(db, items, k);
  }

  lemma PurgeStep(c: Threads)
    requires Coherent(c) && c.purge.Some?
    ensures IndexAgrees(Next(c, CommitTruncation(true)).db) <==> PurgeIsHarmless(c.db, c.purge.value)
    ensures PurgeIsHarmless(c.db, c.purge.value) ==> Coherent(Next(c, CommitTruncation(true)))
  {
    hide StalePurge, AllForeseen, IndexAgrees;
    var p := c.purge.value;
    IndexIsWellFormed(c.db);
    StalePurgeKeepsIndexIff(p.before, c.db, p.cutoff);
    StalePurgeRemoves(p.before.streams, c.db, p.cutoff);
    if c.write.Some? {
      RemovedAgain(c.write.value.origins, c.db, StalePurge(p.before.streams, c.db, p.cutoff));
    }
  }

  lemma RemovedAgain(origins: map<Bytes, Database>, db: Database, after: Database)
    requires OnlyRemovedSince(origins, db) && Remains(db.packets, after.packets)
    ensures OnlyRemovedSince(origins, after)
  {
    hide IndexAgrees;
  }

  lemma ReadStep(c: Threads, s: Bytes)
    requires Coherent(c)
    ensures Coherent(Next(c, ReadEntry(s)))
  {
    hide IndexAgrees, Touches;
  }

  lemma StalePurgeRemoves(snapshot: map<Bytes, Bytes>, db: Database, cutoff: U64)
    ensures Remains(db.packets, StalePurge(snapshot, db, cutoff).packets)
  {
    hide Purged;
  }

  /** One step from a coherent state: the index survives it exactly when it is harmless. */
  lemma StepKeepsIndexIff(c: Threads, step: Step)
    requires Coherent(c)
    ensures IndexAgrees(Next(c, step).db) <==> Harmless(c, step)
    ensures Harmless(c, step) ==> Coherent(Next(c, step))
  {
    hide StaleWrite, StalePurge, IndexAgrees, PurgedCount, WriteIsHarmless, PurgeIsHarmless, AllRead, Touches;
    if step == CommitWrite(true) && c.write.Some? && AllRead(c.write.value) {
      WriteStep(c);
    }
    if step.ReadEntry? {
      ReadStep(c, step.stream);
    }
    if step == CommitTruncation(true) && c.purge.Some? {
      PurgeStep(c);
    }
  }

  ghost predicate AlwaysAgrees(steps: seq<Step>) {
    forall i :: 0 <= i <= |steps| ==> IndexAgrees(After(START, steps[..i]).db)
  }

  ghost predicate AlwaysHarmless(steps: seq<Step>) {
    forall i :: 0 <= i < |steps| ==> Harmless(After(START, steps[..i]), steps[i])
  }

  lemma {:induction false} HarmlessRunIsCoherent(steps: seq<Step>)
    requires AlwaysHarmless(steps)
    ensures Coherent(After(START, steps))
  {
    hide Coherent, Harmless, Next;
    if steps == [] {
      StartIsCoherent();
    } else {
      var n := |steps| - 1;
      assert forall i :: 0 <= i < n ==> steps[..n][..i] == steps[..i] && steps[..n][i] == steps[i];
      HarmlessRunIsCoherent(steps[..n]);
      StepKeepsIndexIff(After(START, steps[..n]), steps[n]);
    }
  }

  lemma StartIsCoherent()
    ensures Coherent(START)
  {
  }

  lemma CoherentAgrees(c: Threads)
    requires Coherent(c)
    ensures IndexAgrees(c.db)
  {
  }

  lemma HarmlessPrefix(steps: seq<Step>, i: nat)
    requires AlwaysHarmless(steps) && i <= |steps|
    ensures AlwaysHarmless(steps[..i])
  {
    hide Harmless, After;
    assert forall j :: 0 <= j < i ==> steps[..i][..j] == steps[..j] && steps[..i][j] == steps[j];
  }

  lemma {:induction false} AgreeingRunIsHarmless(steps: seq<Step>)
    requires AlwaysAgrees(steps)
    ensures AlwaysHarmless(steps)
  {
    hide Harmless, Next, IndexAgrees, Coherent;
    if steps != [] {
      var n := |steps| - 1;
      assert forall i :: 0 <= i <= n ==> steps[..n][..i] == steps[..i];
      assert forall i :: 0 <= i < n ==> steps[..n][i] == steps[i];
      AgreeingRunIsHarmless(steps[..n]);
      HarmlessRunIsCoherent(steps[..n]);
      assert steps[..n + 1] == steps;
      StepKeepsIndexIff(After(START, steps[..n]), steps[n]);
    }
  }

  /** The exact price of the missing lock, over every interleaving of the two threads from an empty store. */
  lemma InterleavedRunAgreesIff(steps: seq<Step>)
    ensures AlwaysAgrees(steps) <==> AlwaysHarmless(steps)
  {
    hide Harmless, After, IndexAgrees;
    if AlwaysAgrees(steps) {
      AgreeingRunIsHarmless(steps);
    }
    if AlwaysHarmless(steps) {
      forall i | 0 <= i <= |steps| ensures IndexAgrees(After(START, steps[..i]).db) {
        HarmlessPrefix(steps, i);
        HarmlessRunIsCoherent(steps[..i]);
        CoherentAgrees(After(START, steps[..i]));
      }
    }
  }

  // ------------------------------------------------------------ the broker's runs

  /** Whenever a write reads the registry its numbers are above all that is registered, as the broker's are. */
  ghost predicate BrokerNumbered(steps: seq<Step>) {
    forall i :: 0 <= i < |steps| && steps[i].ReadEntry? ==> NumberedAbove(After(START, steps[..i]))
  }

  ghost predicate NumberedAbove(c: Threads) {
    c.write.Some? ==> Fresh(c.write.value.items, GlobalMax(c.db.streams))
  }

  ghost predicate PendingFresh(c: Threads) {
    c.write.Some? ==>
      forall s | s in c.write.value.origins ::
        Fresh(c.write.value.items, GlobalMax(c.write.value.origins[s].streams))
  }

  lemma PendingStaysFresh(c: Threads, step: Step)
    requires PendingFresh(c) && (step.ReadEntry? ==> NumberedAbove(c))
    ensures PendingFresh(Next(c, step))
  {
    hide StaleWrite, StalePurge, PurgedCount, Fresh;
  }

  lemma {:induction false} BrokerPending(steps: seq<Step>)
    requires BrokerNumbered(steps)
    ensures PendingFresh(After(START, steps))
  {
    hide Next, NumberedAbove, PendingFresh;
    if steps == [] {
      NothingPending();
    } else {
      var n := |steps| - 1;
      assert forall i :: 0 <= i < n ==> steps[..n][..i] == steps[..i] && steps[..n][i] == steps[i];
      BrokerPending(steps[..n]);
      PendingStaysFresh(After(START, steps[..n]), steps[n]);
    }
  }

  lemma NothingPending()
    ensures PendingFresh(START)
  {
  }

  lemma FreshWriteIsHarmless(c: Threads)
    requires PendingFresh(c) && c.write.Some?
    ensures WriteIsHarmless(c.db, c.write.value)
  {
    hide Touches, Fresh, Renews, DecodeEntry;
    var w := c.write.value;
    forall s | Touches(w.items, s) && s in w.origins && Registered(w.origins[s].streams, s)
      ensures StaysCurrent(w.origins[s], c.db, w.items, s)
    {
      FreshRenews(w.origins[s], w.items, s);
    }
  }

  /** In a broker's run only truncations can do harm: the index agrees throughout exactly when none does. */
  lemma BrokerRunAgreesIff(steps: seq<Step>)
    requires BrokerNumbered(steps)
    ensures AlwaysAgrees(steps) <==>
            forall i :: 0 <= i < |steps| && steps[i] == CommitTruncation(true) ==>
              var c := After(START, steps[..i]); c.purge.Some? ==> PurgeIsHarmless(c.db, c.purge.value)
  {
    hide After, AlwaysAgrees, WriteIsHarmless, PurgeIsHarmless, Fresh;
    InterleavedRunAgreesIff(steps);
    forall i | 0 <= i < |steps| && After(START, steps[..i]).write.Some?
      ensures WriteIsHarmless(After(START, steps[..i]).db, After(START, steps[..i]).write.value)
    {
      assert forall j :: 0 <= j < i ==> steps[..i][..j] == steps[..j] && steps[..i][j] == steps[j];
      BrokerPending(steps[..i]);
      FreshWriteIsHarmless(After(START, steps[..i]));
    }
  }
}
