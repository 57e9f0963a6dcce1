/**
 The broker and its store together, over any interleaving of accepting, numbering, draining,
 writing, truncating and restarting. The store writer is modelled as the first-in-first-out
 drain its commented-out loop sketches: it holds one batch and retries it until a commit succeeds.
 */
module EndToEnd {
  import opened ByteStrings
  import opened KeyCodec
  import opened StoreModel
  import opened StoreIndex
  import opened Density
  import opened Pipeline

  datatype System = System(pipe: State, held: seq<Received>, db: Database)

  datatype Move =
    | Internal(event: Event)
    | Collect
    | WriteHeld(commits: bool)
    | Truncation(n: U64, commits: bool)
    | Restart

  /** A broker started on a store: numbering resumes after the recovered maximum. */
  ghost function Started(db: Database): System {
    System(Initial(GlobalMax(db.streams)), [], db)
  }

  ghost function Advance(y: System, m: Move): System {
    match m
    case Internal(e) => if e.StoreDrain? then y else y.(pipe := Step(y.pipe, e))
    case Collect =>
      if y.held == [] then y.(pipe := Step(y.pipe, StoreDrain), held := y.pipe.storeQueue) else y
    case WriteHeld(commits) =>
      if commits then y.(db := InsertAll(y.db, y.held), held := []) else y
    case Truncation(n, commits) => if commits then y.(db := Truncate(y.db, n)) else y
    case Restart => Started(y.db)
  }

  ghost function After(y: System, moves: seq<Move>): System {
    if moves == [] then y else Advance(After(y, moves[..|moves| - 1]), moves[|moves| - 1])
  }

  // ----------------------------------------------------------------- invariant

  function InFlight(s: State): seq<Received> {
    if s.flight.Idle? then [] else [s.flight.held]
  }

  /** Numbered packets that have not been committed, oldest first. */
  function Waiting(y: System): seq<Received> { y.held + y.pipe.storeQueue + InFlight(y.pipe) }

  predicate Ascend(items: seq<Received>) {
    forall i, j :: 0 <= i < j < |items| ==> items[i].packet.sequenceNumber < items[j].packet.sequenceNumber
  }

  predicate AllAtMost(items: seq<Received>, n: U64) {
    forall i :: 0 <= i < |items| ==> items[i].packet.sequenceNumber <= n
  }

  predicate StoredBelow(packets: map<Bytes, Bytes>, items: seq<Received>)
    requires KeysAreWide(packets)
  {
    forall k, i | k in packets && 0 <= i < |items| :: SequenceOf(k) < items[i].packet.sequenceNumber
  }

  predicate StoredAtMost(packets: map<Bytes, Bytes>, n: U64)
    requires KeysAreWide(packets)
  {
    forall k | k in packets :: SequenceOf(k) <= n
  }

  /** Waiting numbers ascend, exceed every stored number, and the counter bounds them all. */
  ghost predicate Ordered(y: System) {
    && IndexAgrees(y.db)
    && UniqueNumbers(y.db.packets)
    && Ascend(Waiting(y))
    && AllAtMost(Waiting(y), y.pipe.counter)
    && StoredBelow(y.db.packets, Waiting(y))
    && StoredAtMost(y.db.packets, y.pipe.counter)
  }

  lemma StartedOrdered(db: Database)
    requires IndexAgrees(db) && UniqueNumbers(db.packets)
    ensures Ordered(Started(db))
  {
    GlobalMaxIsNewestStored(db);
  }

  // --------------------------------------------------------------------- steps

  /** Dropping from the middle keeps a sequence ascending. */
  lemma AscendDrop(a: seq<Received>, b: seq<Received>, c: seq<Received>, k: nat)
    requires k <= |b| && Ascend(a + b + c)
    ensures Ascend(a + b[k..] + c)
  {
    var shorter, longer := a + b[k..] + c, a + b + c;
    forall i, j | 0 <= i < j < |shorter|
      ensures shorter[i].packet.sequenceNumber < shorter[j].packet.sequenceNumber
    {
      var i' := if i < |a| then i else i + k;
      var j' := if j < |a| then j else j + k;
      assert shorter[i] == longer[i'] && shorter[j] == longer[j'];
    }
  }

  lemma WithinDrop(a: seq<Received>, b: seq<Received>, c: seq<Received>, k: nat)
    requires k <= |b|
    ensures forall i :: 0 <= i < |a + b[k..] + c| ==> (a + b[k..] + c)[i] in a + b + c
  {
    forall i | 0 <= i < |a + b[k..] + c| ensures (a + b[k..] + c)[i] in a + b + c {
      var i' := if i < |a| then i else i + k;
      assert (a + b[k..] + c)[i] == (a + b + c)[i'];
    }
  }

  lemma PushStoreKeepsOrder(y: System)
    requires Ordered(y) && y.pipe.flight.Published?
    ensures Ordered(Advance(y, Internal(PushStore)))
  {
    hide IndexAgrees, UniqueNumbers;
    WideKeys(y.db);
    var y' := Advance(y, Internal(PushStore));
    var (q, room) := (y.pipe.storeQueue, MakeRoom(y.pipe.storeQueue, OUTPUT_LIMIT));
    var k := |q| - |room|;
    assert Waiting(y') == y.held + q[k..] + InFlight(y.pipe);
    AscendDrop(y.held, q, InFlight(y.pipe), k);
    WithinDrop(y.held, q, InFlight(y.pipe), k);
    BoundsCarryOver(y, Waiting(y'));
  }

  lemma BoundsCarryOver(y: System, fewer: seq<Received>)
    requires Ordered(y) && forall i :: 0 <= i < |fewer| ==> fewer[i] in Waiting(y)
    ensures AllAtMost(fewer, y.pipe.counter) && StoredBelow(y.db.packets, fewer)
  {
    hide IndexAgrees;
    assert KeysAreWide(y.db.packets) by { WideKeys(y.db); }
    forall i | 0 <= i < |fewer| ensures fewer[i].packet.sequenceNumber <= y.pipe.counter {
      var j :| 0 <= j < |Waiting(y)| && Waiting(y)[j] == fewer[i];
    }
    forall k, i | k in y.db.packets && 0 <= i < |fewer| ensures SequenceOf(k) < fewer[i].packet.sequenceNumber {
      var j :| 0 <= j < |Waiting(y)| && Waiting(y)[j] == fewer[i];
    }
  }

  lemma WideKeys(db: Database)
    requires IndexAgrees(db)
    ensures KeysAreWide(db.packets)
  {
  }

  /** The counter has room, or there is nothing for a repeated number to clash with. */
  ghost predicate MayNumber(y: System) {
    y.pipe.counter < TWO64 - 1 || (Waiting(y) == [] && y.db.packets == map[])
  }

  ghost predicate Numbers(y: System, m: Move) {
    m.Internal? && m.event.Dequeue? && y.pipe.flight.Idle? && y.pipe.importQueue != []
  }

  lemma NumberedWaiting(y: System, now: I64)
    requires Numbers(y, Internal(Dequeue(now)))
    ensures var y' := Advance(y, Internal(Dequeue(now)));
            Waiting(y') == Waiting(y) + [y'.pipe.flight.held] &&
            y'.pipe.flight.held.packet.sequenceNumber == Next(y.pipe.counter) == y'.pipe.counter
  {
  }

  /** Numbering a packet keeps the order exactly when the counter has room. */
  lemma NumberingKeepsOrderIff(y: System, now: I64)
    requires Ordered(y) && Numbers(y, Internal(Dequeue(now)))
    ensures Ordered(Advance(y, Internal(Dequeue(now)))) <==> MayNumber(y)
  {
    hide IndexAgrees;
    WideKeys(y.db);
    var y' := Advance(y, Internal(Dequeue(now)));
    NumberedWaiting(y, now);
    var w, w' := Waiting(y), Waiting(y');
    if y.pipe.counter < TWO64 - 1 {
      RoomyNumbering(y, y', now);
    } else {
      assert w'[|w|].packet.sequenceNumber == 0;
      if w != [] {
        assert !(w'[0].packet.sequenceNumber < w'[|w|].packet.sequenceNumber);
      }
      if k :| k in y.db.packets {
        assert !(SequenceOf(k) < w'[|w|].packet.sequenceNumber);
      }
    }
  }

  lemma RoomyNumbering(y: System, y': System, now: I64)
    requires Ordered(y) && Numbers(y, Internal(Dequeue(now))) && y' == Advance(y, Internal(Dequeue(now)))
    requires y.pipe.counter < TWO64 - 1
    ensures Ordered(y')
  {
    hide IndexAgrees;
    WideKeys(y.db);
    NumberedWaiting(y, now);
  }

  lemma WritesBelow(db: Database, items: seq<Received>, rest: seq<Received>, n: U64)
    requires IndexAgrees(db) && UniqueNumbers(db.packets)
    requires Ascend(items + rest) && StoredBelow(db.packets, items + rest)
    requires AllAtMost(items + rest, n) && StoredAtMost(db.packets, n)
    ensures IndexAgrees(InsertAll(db, items))
    ensures UniqueNumbers(InsertAll(db, items).packets)
    ensures StoredBelow(InsertAll(db, items).packets, rest) && StoredAtMost(InsertAll(db, items).packets, n)
  {
    hide IndexAgrees, InsertAll;
    var after := InsertAll(db, items);
    WriteKeepsIndex(db, items);
    WideKeys(db);
    WideKeys(after);
    forall k | k in after.packets
      ensures SequenceOf(k) <= n && forall j :: 0 <= j < |rest| ==> SequenceOf(k) < rest[j].packet.sequenceNumber
    {
      StoredOrWritten(db, items, rest, n, k);
    }
    forall j, k | j in after.packets && k in after.packets && SequenceOf(j) == SequenceOf(k) ensures j == k {
      SameNumberSameKey(db, items, rest, j, k);
    }
  }

  lemma StoredOrWritten(db: Database, items: seq<Received>, rest: seq<Received>, n: U64, k: Bytes)
    requires KeysAreWide(db.packets) && |k| == PACKET_KEY_LENGTH && k in InsertAll(db, items).packets
    requires Ascend(items + rest) && StoredBelow(db.packets, items + rest)
    requires AllAtMost(items + rest, n) && StoredAtMost(db.packets, n)
    ensures SequenceOf(k) <= n && forall j :: 0 <= j < |rest| ==> SequenceOf(k) < rest[j].packet.sequenceNumber
  {
    hide InsertAll, StreamKey, PacketKey, Decode64;
    var all := items + rest;
    forall j | 0 <= j < |rest| ensures rest[j] == all[|items| + j] {
    }
    if k !in db.packets {
      WriteAddsItsKeys(db, items, k);
      var i :| 0 <= i < |items| && Keyable(items[i]) && KeyOf(items[i]) == k;
      ItemKeyParts(items[i]);
      assert items[i] == all[i];
    }
  }

  /** A key that a write adds carries a number above every number stored before. */
  lemma AddedKeyIsHigher(db: Database, items: seq<Received>, rest: seq<Received>, k: Bytes) returns (b: nat)
    requires KeysAreWide(db.packets) && StoredBelow(db.packets, items + rest)
    requires k in InsertAll(db, items).packets && k !in db.packets
    ensures b < |items| && Keyable(items[b]) && KeyOf(items[b]) == k
    ensures SequenceOf(k) == items[b].packet.sequenceNumber
    ensures forall j | j in db.packets :: SequenceOf(j) < SequenceOf(k)
  {
    hide InsertAll, StreamKey, PacketKey, Decode64;
    WriteAddsItsKeys(db, items, k);
    b :| 0 <= b < |items| && Keyable(items[b]) && KeyOf(items[b]) == k;
    ItemKeyParts(items[b]);
    assert items[b] == (items + rest)[b];
  }

  lemma SameNumberSameKey(db: Database, items: seq<Received>, rest: seq<Received>, j: Bytes, k: Bytes)
    requires KeysAreWide(db.packets) && |j| == PACKET_KEY_LENGTH && |k| == PACKET_KEY_LENGTH
    requires UniqueNumbers(db.packets)
    requires Ascend(items + rest) && StoredBelow(db.packets, items + rest)
    requires j in InsertAll(db, items).packets && k in InsertAll(db, items).packets && SequenceOf(j) == SequenceOf(k)
    ensures j == k
  {
    hide InsertAll, StreamKey, PacketKey, Decode64;
    var a, b: nat;
    if j !in db.packets {
      a := AddedKeyIsHigher(db, items, rest, j);
    }
    if k !in db.packets {
      b := AddedKeyIsHigher(db, items, rest, k);
      if j !in db.packets {
        assert items[a] == (items + rest)[a] && items[b] == (items + rest)[b];
        assert a == b;
      }
    }
  }

  lemma WriteKeepsOrder(y: System)
    requires Ordered(y)
    ensures Ordered(Advance(y, WriteHeld(true)))
  {
    hide IndexAgrees, InsertAll;
    WideKeys(y.db);
    var rest := y.pipe.storeQueue + InFlight(y.pipe);
    assert Waiting(y) == y.held + rest;
    WritesBelow(y.db, y.held, rest, y.pipe.counter);
    var y' := Advance(y, WriteHeld(true));
    assert Waiting(y') == rest;
    forall i | 0 <= i < |rest| ensures rest[i] == Waiting(y)[|y.held| + i] {
    }
  }

  lemma TruncatedPackets(db: Database, n: U64, k: Bytes)
    requires k in Truncate(db, n).packets
    ensures k in db.packets
  {
  }

  lemma TruncationKeepsOrder(y: System, n: U64)
    requires Ordered(y)
    ensures Ordered(Advance(y, Truncation(n, true)))
  {
    hide IndexAgrees, Truncate;
    var after := Truncate(y.db, n);
    TruncateKeepsIndex(y.db, n);
    WideKeys(y.db);
    WideKeys(after);
    forall k | k in after.packets ensures k in y.db.packets {
      TruncatedPackets(y.db, n, k);
    }
    assert Waiting(Advance(y, Truncation(n, true))) == Waiting(y);
  }

  lemma AdvanceKeepsOrder(y: System, m: Move)
    requires Ordered(y) && (Numbers(y, m) ==> MayNumber(y))
    ensures Ordered(Advance(y, m))
  {
    hide IndexAgrees, InsertAll, Truncate;
    match m
    case Internal(e) =>
      if Numbers(y, m) {
        NumberingKeepsOrderIff(y, e.now);
      } else if e.PushStore? && y.pipe.flight.Published? {
        PushStoreKeepsOrder(y);
      } else {
        assert Waiting(Advance(y, m)) == Waiting(y);
      }
    case Collect =>
      assert Waiting(Advance(y, m)) == Waiting(y);
    case WriteHeld(commits) =>
      if commits { WriteKeepsOrder(y); }
    case Truncation(n, commits) =>
      if commits { TruncationKeepsOrder(y, n); }
    case Restart => StartedOrdered(y.db);
  }

  // ------------------------------------------------------------------ theorems

  /** No packet of the run was numbered by a counter without room. */
  ghost predicate NeverWraps(y: System, moves: seq<Move>) {
    forall i :: 0 <= i < |moves| && Numbers(After(y, moves[..i]), moves[i]) ==> MayNumber(After(y, moves[..i]))
  }

  lemma {:induction false} RunKeepsOrder(y: System, moves: seq<Move>)
    requires Ordered(y) && NeverWraps(y, moves)
    ensures Ordered(After(y, moves))
  {
    hide Ordered, Numbers, MayNumber, Advance;
    if moves != [] {
      var n := |moves| - 1;
      var init := moves[..n];
      assert forall i :: 0 <= i < n ==> init[..i] == moves[..i] && init[i] == moves[i];
      assert NeverWraps(y, init);
      RunKeepsOrder(y, init);
      AdvanceKeepsOrder(After(y, init), moves[n]);
    }
  }

  /**
   From any store whose index agrees and whose numbers are unique, over any interleaving and
   any restarts: waiting numbers ascend above every stored one, and stored numbers stay unique.
   */
  lemma BrokerRunsStayOrdered(db: Database, moves: seq<Move>)
    requires IndexAgrees(db) && UniqueNumbers(db.packets)
    requires NeverWraps(Started(db), moves)
    ensures Ordered(After(Started(db), moves))
  {
    StartedOrdered(db);
    RunKeepsOrder(Started(db), moves);
  }

  /** How many packets a run can number. */
  function Dequeues(moves: seq<Move>): nat {
    if moves == [] then 0
    else
      var last := moves[|moves| - 1];
      Dequeues(moves[..|moves| - 1]) + (if last.Internal? && last.event.Dequeue? then 1 else 0)
  }

  lemma CounterGrows(y: System, m: Move)
    requires Ordered(y)
    ensures Advance(y, m).pipe.counter <= y.pipe.counter + Dequeues([m])
  {
    hide IndexAgrees;
    assert [m][..0] == [];
    WideKeys(y.db);
    GlobalMaxIsNewestStored(y.db);
  }

  lemma DequeuesSnoc(moves: seq<Move>, m: Move)
    ensures Dequeues(moves + [m]) == Dequeues(moves) + Dequeues([m])
  {
    assert (moves + [m])[..|moves|] == moves && [m][..0] == [];
  }

  /** What a caller can check beforehand: the recovered number leaves room for everything the run may number. */
  lemma {:induction false} RoomForAll(db: Database, moves: seq<Move>)
    requires IndexAgrees(db) && UniqueNumbers(db.packets)
    requires GlobalMax(db.streams) + Dequeues(moves) < TWO64
    ensures NeverWraps(Started(db), moves)
    ensures After(Started(db), moves).pipe.counter <= GlobalMax(db.streams) + Dequeues(moves)
  {
    hide IndexAgrees, Ordered, Advance, UniqueNumbers;
    if moves != [] {
      var n := |moves| - 1;
      var (init, m) := (moves[..n], moves[n]);
      assert moves == init + [m];
      DequeuesSnoc(init, m);
      RoomForAll(db, init);
      StartedOrdered(db);
      RunKeepsOrder(Started(db), init);
      CounterGrows(After(Started(db), init), m);
      assert forall i :: 0 <= i < n ==> init[..i] == moves[..i] && init[i] == moves[i];
      assert Numbers(After(Started(db), init), m) ==> Dequeues([m]) == 1 by { assert [m][..0] == []; }
    }
  }

  /** A drained batch never lands on a stored key, nor twice on its own. */
  lemma WriteNeverOverwrites(db: Database, moves: seq<Move>)
    requires IndexAgrees(db) && UniqueNumbers(db.packets)
    requires NeverWraps(Started(db), moves)
    ensures var y := After(Started(db), moves);
            && (forall i :: 0 <= i < |y.held| && Keyable(y.held[i]) ==> KeyOf(y.held[i]) !in y.db.packets)
            && (forall i, j :: 0 <= i < j < |y.held| && Keyable(y.held[i]) && Keyable(y.held[j]) ==>
                  KeyOf(y.held[i]) != KeyOf(y.held[j]))
            && (forall k | k in y.db.packets ::
                  k in InsertAll(y.db, y.held).packets && InsertAll(y.db, y.held).packets[k] == y.db.packets[k])
  {
    hide After, InsertAll, StreamKey, PacketKey, IndexAgrees;
    var y := After(Started(db), moves);
    BrokerRunsStayOrdered(db, moves);
    HeldIsNew(y);
    forall k | k in y.db.packets
      ensures k in InsertAll(y.db, y.held).packets && InsertAll(y.db, y.held).packets[k] == y.db.packets[k]
    {
      WriteTouchesOnlyItsKeys(y.db, y.held, k);
    }
  }

  lemma HeldIsNew(y: System)
    requires Ordered(y)
    ensures forall i :: 0 <= i < |y.held| && Keyable(y.held[i]) ==> KeyOf(y.held[i]) !in y.db.packets
    ensures forall i, j :: 0 <= i < j < |y.held| && Keyable(y.held[i]) && Keyable(y.held[j]) ==>
              KeyOf(y.held[i]) != KeyOf(y.held[j])
  {
    hide StreamKey, PacketKey, IndexAgrees, Decode64, Encodable;
    WideKeys(y.db);
    var w := Waiting(y);
    assert forall i :: 0 <= i < |y.held| ==> w[i] == y.held[i];
    forall i | 0 <= i < |y.held| && Keyable(y.held[i])
      ensures KeyOf(y.held[i]) !in y.db.packets && SequenceOf(KeyOf(y.held[i])) == w[i].packet.sequenceNumber
    {
      ItemKeyParts(y.held[i]);
    }
  }

  /** A store holding number 2^64 - 1: the next packet is numbered 0, below it. */
  lemma WrapBreaksOrder(s: Bytes, at: I64, p: Packet, now: I64)
    requires |s| == STREAM_KEY_LENGTH
    ensures var db := Put(EMPTY, s, TWO64 - 1, at, p.payload);
            var moves := [Internal(Accept(p)), Internal(Dequeue(now))];
            IndexAgrees(db) && UniqueNumbers(db.packets) && Ordered(Started(db)) && !Ordered(After(Started(db), moves))
  {
    hide IndexAgrees, EncodeEntry, EncodeValue;
    var db := Put(EMPTY, s, TWO64 - 1, at, p.payload);
    PutKeepsIndex(EMPTY, s, TWO64 - 1, at, p.payload);
    WideKeys(db);
    var k := s + Encode64(TWO64 - 1);
    PacketKeyParts(s, TWO64 - 1);
    assert k in db.packets && UniqueNumbers(db.packets);
    StartedOrdered(db);
    var y0 := Started(db);
    var accept, dequeue := Internal(Accept(p)), Internal(Dequeue(now));
    var y1 := Advance(y0, accept);
    assert [accept, dequeue][..1] == [accept] && [accept][..0] == [];
    assert After(y0, [accept]) == y1;
    assert y1.pipe.importQueue == [p];
    AdvanceKeepsOrder(y0, accept);
    NumberingKeepsOrderIff(y1, now);
    assert SequenceOf(k) <= GlobalMax(db.streams);
  }
}
