/**
 Every run of the pipeline, with a record of what happened to each packet: nothing is lost
 unaccounted for, order is kept, and each output queue is an unbroken run of numbers.
 */
module PipelineHistory {
  import opened ByteStrings
  import opened KeyCodec
  import opened StoreModel
  import opened Pipeline

  /** What became of an element that has left its queue. */
  datatype Fate = Dropped | Taken

  /** The elements that were taken, in order. */
  function Selected<T>(xs: seq<T>, fates: seq<Fate>): seq<T>
    requires |fates| <= |xs|
  {
    if fates == [] then []
    else
      var n := |fates| - 1;
      Selected(xs, fates[..n]) + (if fates[n].Taken? then [xs[n]] else [])
  }

  function Count(fates: seq<Fate>, f: Fate): nat {
    if fates == [] then 0
    else Count(fates[..|fates| - 1], f) + (if fates[|fates| - 1] == f then 1 else 0)
  }

  function Drops(k: nat): (d: seq<Fate>)
    ensures |d| == k
  {
    seq(k, _ => Dropped)
  }

  function Takes(k: nat): (d: seq<Fate>)
    ensures |d| == k
  {
    seq(k, _ => Taken)
  }

  lemma {:induction false} SelectedExtends<T>(xs: seq<T>, ys: seq<T>, fates: seq<Fate>)
    requires |fates| <= |xs|
    ensures Selected(xs + ys, fates) == Selected(xs, fates)
  {
    if fates != [] {
      SelectedExtends(xs, ys, fates[..|fates| - 1]);
    }
  }

  lemma {:induction false} SelectedDrops<T>(xs: seq<T>, fates: seq<Fate>, k: nat)
    requires |fates| + k <= |xs|
    ensures Selected(xs, fates + Drops(k)) == Selected(xs, fates)
    decreases k
  {
    if k == 0 {
      assert fates + Drops(0) == fates;
    } else {
      var longer := fates + Drops(k);
      assert longer[..|longer| - 1] == fates + Drops(k - 1);
      SelectedDrops(xs, fates, k - 1);
    }
  }

  lemma {:induction false} SelectedTakes<T>(xs: seq<T>, fates: seq<Fate>, k: nat)
    requires |fates| + k <= |xs|
    ensures Selected(xs, fates + Takes(k)) == Selected(xs, fates) + xs[|fates|..|fates| + k]
    decreases k
  {
    if k == 0 {
      assert fates + Takes(0) == fates;
    } else {
      var longer := fates + Takes(k);
      assert longer[..|longer| - 1] == fates + Takes(k - 1);
      SelectedTakes(xs, fates, k - 1);
    }
  }

  lemma {:induction false} CountsAddUp<T>(xs: seq<T>, fates: seq<Fate>)
    requires |fates| <= |xs|
    ensures Count(fates, Dropped) + Count(fates, Taken) == |fates|
    ensures |Selected(xs, fates)| == Count(fates, Taken)
  {
    if fates != [] {
      CountsAddUp(xs, fates[..|fates| - 1]);
    }
  }

  /** The taken elements sit at strictly increasing positions of the arrivals. */
  lemma {:induction false} SelectedIsSubsequence<T>(xs: seq<T>, fates: seq<Fate>) returns (at: seq<nat>)
    requires |fates| <= |xs|
    ensures |at| == |Selected(xs, fates)|
    ensures forall j :: 0 <= j < |at| ==> at[j] < |fates| && Selected(xs, fates)[j] == xs[at[j]]
    ensures forall i, j :: 0 <= i < j < |at| ==> at[i] < at[j]
  {
    if fates == [] {
      at := [];
    } else {
      var n := |fates| - 1;
      at := SelectedIsSubsequence(xs, fates[..n]);
      if fates[n].Taken? {
        at := at + [n];
      }
    }
  }

  // ------------------------------------------------------------------- record

  datatype Record = Record(
    state: State,
    accepted: seq<Packet>, importFates: seq<Fate>,
    numbered: seq<Received>,
    publishFates: seq<Fate>, published: seq<Packet>,
    storeFates: seq<Fate>, drained: seq<Received>)

  function Fresh(recovered: U64): Record { Record(Initial(recovered), [], [], [], [], [], [], []) }

  /** The same step, with the fate of every element that leaves a queue written down. */
  function Note(r: Record, e: Event): Record {
    var s, t := r.state, Step(r.state, e);
    match e
    case Accept(p) =>
      r.(state := t, accepted := r.accepted + [p],
         importFates := r.importFates + Drops(|s.importQueue| - |ImportRoom(s.importQueue)|))
    case Reject(_) => r.(state := t)
    case Dequeue(_) =>
      if s.flight.Idle? && s.importQueue != []
      then r.(state := t, importFates := r.importFates + Takes(1), numbered := r.numbered + [t.flight.held])
      else r.(state := t)
    case PushPublish =>
      if s.flight.Numbered?
      then r.(state := t,
              publishFates := r.publishFates + Drops(|s.publishQueue| - |MakeRoom(s.publishQueue, OUTPUT_LIMIT)|))
      else r.(state := t)
    case PushStore =>
      if s.flight.Published?
      then r.(state := t,
              storeFates := r.storeFates + Drops(|s.storeQueue| - |MakeRoom(s.storeQueue, OUTPUT_LIMIT)|))
      else r.(state := t)
    case PublishPop =>
      if s.publishQueue != []
      then r.(state := t, publishFates := r.publishFates + Takes(1), published := r.published + [s.publishQueue[0]])
      else r.(state := t)
    case StoreDrain =>
      r.(state := t, storeFates := r.storeFates + Takes(|s.storeQueue|), drained := r.drained + s.storeQueue)
  }

  function History(recovered: U64, events: seq<Event>): Record {
    if events == [] then Fresh(recovered)
    else Note(History(recovered, events[..|events| - 1]), events[|events| - 1])
  }

  /** The record adds nothing to the run itself. */
  function Replay(s: State, events: seq<Event>): State {
    if events == [] then s else Step(Replay(s, events[..|events| - 1]), events[|events| - 1])
  }

  lemma {:induction false} HistoryFollowsRun(recovered: U64, events: seq<Event>)
    ensures History(recovered, events).state == Replay(Initial(recovered), events)
  {
    if events != [] {
      HistoryFollowsRun(recovered, events[..|events| - 1]);
    }
  }

  // ---------------------------------------------------------------- invariants

  function PacketsIn(items: seq<Received>): (ps: seq<Packet>)
    ensures |ps| == |items|
    ensures forall i :: 0 <= i < |ps| ==> ps[i] == items[i].packet
  {
    seq(|items|, i requires 0 <= i < |items| => items[i].packet)
  }

  /** How many numbered packets have reached each output. */
  function SentToPublish(r: Record): int { |r.numbered| - (if r.state.flight.Numbered? then 1 else 0) }

  function SentToStore(r: Record): int { |r.numbered| - (if r.state.flight.Idle? then 0 else 1) }

  /** A queue is the unclaimed tail of its arrivals, and the claimed part is accounted for. */
  ghost predicate Accounts<T>(arrivals: seq<T>, fates: seq<Fate>, queue: seq<T>, taken: seq<T>) {
    |fates| <= |arrivals| && queue == arrivals[|fates|..] && taken == Selected(arrivals, fates)
  }

  /** The j-th packet numbered is the j-th one taken, stamped with the j-th number after the recovered one. */
  ghost predicate StampedFrom(recovered: U64, taken: seq<Packet>, numbered: seq<Received>) {
    |taken| == |numbered| &&
    forall j :: 0 <= j < |numbered| ==> numbered[j].packet == Stamp(taken[j], (recovered + 1 + j) % TWO64)
  }

  ghost predicate ImportSide(recovered: U64, r: Record) {
    && |r.importFates| <= |r.accepted|
    && Accounts(r.accepted, r.importFates, r.state.importQueue, Selected(r.accepted, r.importFates))
    && StampedFrom(recovered, Selected(r.accepted, r.importFates), r.numbered)
    && r.state.counter == (recovered + |r.numbered|) % TWO64
    && |r.state.importQueue| <= IMPORT_LIMIT + 1
  }

  ghost predicate PublishSide(r: Record) {
    && 0 <= SentToPublish(r)
    && Accounts(PacketsIn(r.numbered[..SentToPublish(r)]), r.publishFates, r.state.publishQueue, r.published)
    && |r.state.publishQueue| <= OUTPUT_LIMIT
  }

  ghost predicate StoreSide(r: Record) {
    && 0 <= SentToStore(r)
    && Accounts(r.numbered[..SentToStore(r)], r.storeFates, r.state.storeQueue, r.drained)
    && |r.state.storeQueue| <= OUTPUT_LIMIT
  }

  ghost predicate FlightSide(r: Record) {
    !r.state.flight.Idle? ==> r.numbered != [] && r.state.flight.held == r.numbered[|r.numbered| - 1]
  }

  ghost predicate Consistent(recovered: U64, r: Record) {
    ImportSide(recovered, r) && PublishSide(r) && StoreSide(r) && FlightSide(r)
  }

  /** A new arrival behind a queue that may first lose its oldest elements. */
  lemma AccountsArrival<T>(arrivals: seq<T>, fates: seq<Fate>, queue: seq<T>, taken: seq<T>, room: seq<T>, x: T)
    requires Accounts(arrivals, fates, queue, taken)
    requires |room| <= |queue| && room == queue[|queue| - |room|..]
    ensures Accounts(arrivals + [x], fates + Drops(|queue| - |room|), room + [x], taken)
  {
    SelectedExtends(arrivals, [x], fates);
    SelectedDrops(arrivals + [x], fates, |queue| - |room|);
  }

  /** Taking the k oldest elements. */
  lemma AccountsTake<T>(arrivals: seq<T>, fates: seq<Fate>, queue: seq<T>, taken: seq<T>, k: nat)
    requires Accounts(arrivals, fates, queue, taken) && k <= |queue|
    ensures Accounts(arrivals, fates + Takes(k), queue[k..], taken + queue[..k])
  {
    SelectedTakes(arrivals, fates, k);
  }

  lemma AcceptKeeps(recovered: U64, r: Record, p: Packet)
    requires ImportSide(recovered, r)
    ensures ImportSide(recovered, Note(r, Accept(p)))
  {
    AccountsArrival(r.accepted, r.importFates, r.state.importQueue, Selected(r.accepted, r.importFates),
                    ImportRoom(r.state.importQueue), p);
  }

  lemma StampedNext(recovered: U64, taken: seq<Packet>, numbered: seq<Received>, p: Packet, item: Received)
    requires StampedFrom(recovered, taken, numbered)
    requires item.packet == Stamp(p, (recovered + 1 + |numbered|) % TWO64)
    ensures StampedFrom(recovered, taken + [p], numbered + [item])
  {
  }

  lemma DequeueKeeps(recovered: U64, r: Record, now: I64)
    requires ImportSide(recovered, r) && r.state.flight.Idle? && r.state.importQueue != []
    ensures ImportSide(recovered, Note(r, Dequeue(now)))
  {
    hide Selected, StampedFrom;
    var taken, q := Selected(r.accepted, r.importFates), r.state.importQueue;
    AccountsTake(r.accepted, r.importFates, q, taken, 1);
    assert q[..1] == [q[0]];
    StampedNext(recovered, taken, r.numbered, q[0], Received(now, Stamp(q[0], Next(r.state.counter))));
  }

  lemma DequeueKeepsOutputs(r: Record, now: I64)
    requires PublishSide(r) && StoreSide(r) && r.state.flight.Idle? && r.state.importQueue != []
    ensures var r' := Note(r, Dequeue(now)); PublishSide(r') && StoreSide(r') && FlightSide(r')
  {
    var r' := Note(r, Dequeue(now));
    assert r'.numbered[..SentToPublish(r')] == r.numbered == r.numbered[..SentToPublish(r)];
  }

  lemma PushPublishKeeps(r: Record)
    requires PublishSide(r) && FlightSide(r) && r.state.flight.Numbered?
    ensures PublishSide(Note(r, PushPublish))
  {
    var r' := Note(r, PushPublish);
    var sent := SentToPublish(r);
    assert PacketsIn(r'.numbered[..SentToPublish(r')]) == PacketsIn(r.numbered[..sent]) + [r.state.flight.held.packet];
    AccountsArrival(PacketsIn(r.numbered[..sent]), r.publishFates, r.state.publishQueue, r.published,
                    MakeRoom(r.state.publishQueue, OUTPUT_LIMIT), r.state.flight.held.packet);
  }

  lemma PushStoreKeeps(r: Record)
    requires StoreSide(r) && FlightSide(r) && r.state.flight.Published?
    ensures StoreSide(Note(r, PushStore))
  {
    var r' := Note(r, PushStore);
    var sent := SentToStore(r);
    assert r'.numbered[..SentToStore(r')] == r.numbered[..sent] + [r.state.flight.held];
    AccountsArrival(r.numbered[..sent], r.storeFates, r.state.storeQueue, r.drained,
                    MakeRoom(r.state.storeQueue, OUTPUT_LIMIT), r.state.flight.held);
  }

  lemma PopKeeps(r: Record)
    requires PublishSide(r) && r.state.publishQueue != []
    ensures PublishSide(Note(r, PublishPop))
  {
    AccountsTake(PacketsIn(r.numbered[..SentToPublish(r)]), r.publishFates, r.state.publishQueue, r.published, 1);
    assert r.state.publishQueue[..1] == [r.state.publishQueue[0]];
  }

  lemma DrainKeeps(r: Record)
    requires StoreSide(r)
    ensures StoreSide(Note(r, StoreDrain))
  {
    var q := r.state.storeQueue;
    AccountsTake(r.numbered[..SentToStore(r)], r.storeFates, q, r.drained, |q|);
    assert q[..|q|] == q && q[|q|..] == [];
  }

  lemma NoteKeeps(recovered: U64, r: Record, e: Event)
    requires Consistent(recovered, r)
    ensures Consistent(recovered, Note(r, e))
  {
    hide Accounts, StampedFrom, Selected;
    var s := r.state;
    match e
    case Accept(p) => AcceptKeeps(recovered, r, p);
    case Reject(_) =>
    case Dequeue(now) =>
      if s.flight.Idle? && s.importQueue != [] {
        DequeueKeeps(recovered, r, now);
        DequeueKeepsOutputs(r, now);
      }
    case PushPublish =>
      if s.flight.Numbered? { PushPublishKeeps(r); }
    case PushStore =>
      if s.flight.Published? { PushStoreKeeps(r); }
    case PublishPop =>
      if s.publishQueue != [] { PopKeeps(r); }
    case StoreDrain => DrainKeeps(r);
  }

  /** Holds in every state any interleaving of the threads can reach. */
  lemma {:induction false} HistoryConsistent(recovered: U64, events: seq<Event>)
    ensures Consistent(recovered, History(recovered, events))
  {
    if events != [] {
      HistoryConsistent(recovered, events[..|events| - 1]);
      NoteKeeps(recovered, History(recovered, events[..|events| - 1]), events[|events| - 1]);
    }
  }

  // ------------------------------------------------------------------ theorems

  /** Every packet is accounted for at every stage. */
  lemma Conservation(recovered: U64, events: seq<Event>)
    ensures var r := History(recovered, events);
            && |r.accepted| == |r.state.importQueue| + Count(r.importFates, Dropped) + |r.numbered|
            && |r.numbered| == |r.state.publishQueue| + Count(r.publishFates, Dropped) + |r.published|
                               + (if r.state.flight.Numbered? then 1 else 0)
            && |r.numbered| == |r.state.storeQueue| + Count(r.storeFates, Dropped) + |r.drained|
                               + (if r.state.flight.Idle? then 0 else 1)
  {
    var r := History(recovered, events);
    HistoryConsistent(recovered, events);
    CountsAddUp(r.accepted, r.importFates);
    CountsAddUp(PacketsIn(r.numbered[..SentToPublish(r)]), r.publishFates);
    CountsAddUp(r.numbered[..SentToStore(r)], r.storeFates);
  }

  /** The same packet but for its number, which is n in 64 bits. */
  predicate Renumbered(from: Packet, to: Packet, n: nat) {
    to.identifier == from.identifier && to.payload == from.payload && to.sequenceNumber == n % TWO64
  }

  /** Numbering follows arrival order and changes nothing but the number. */
  lemma NumberingIsFifo(recovered: U64, events: seq<Event>) returns (at: seq<nat>)
    ensures var r := History(recovered, events);
            && |at| == |r.numbered|
            && (forall i, j :: 0 <= i < j < |at| ==> at[i] < at[j])
            && (forall j :: 0 <= j < |at| ==>
                  at[j] < |r.accepted| && Renumbered(r.accepted[at[j]], r.numbered[j].packet, recovered + 1 + j))
  {
    var r := History(recovered, events);
    HistoryConsistent(recovered, events);
    at := SelectedIsSubsequence(r.accepted, r.importFates);
  }

  /** Both outputs hand over packets in numbering order. */
  lemma OutputsAreFifo(recovered: U64, events: seq<Event>) returns (publishAt: seq<nat>, storeAt: seq<nat>)
    ensures var r := History(recovered, events);
            && |publishAt| == |r.published| && |storeAt| == |r.drained|
            && (forall i, j :: 0 <= i < j < |publishAt| ==> publishAt[i] < publishAt[j])
            && (forall i, j :: 0 <= i < j < |storeAt| ==> storeAt[i] < storeAt[j])
            && (forall j :: 0 <= j < |publishAt| ==>
                  publishAt[j] < |r.numbered| && r.published[j] == r.numbered[publishAt[j]].packet)
            && (forall j :: 0 <= j < |storeAt| ==> storeAt[j] < |r.numbered| && r.drained[j] == r.numbered[storeAt[j]])
  {
    var r := History(recovered, events);
    HistoryConsistent(recovered, events);
    publishAt := SelectedIsSubsequence(PacketsIn(r.numbered[..SentToPublish(r)]), r.publishFates);
    storeAt := SelectedIsSubsequence(r.numbered[..SentToStore(r)], r.storeFates);
  }

  /** The i-th event took a packet: the propagator was free and there was one. */
  predicate Took(recovered: U64, events: seq<Event>, i: nat)
    requires i < |events|
  {
    var s := Replay(Initial(recovered), events[..i]);
    events[i].Dequeue? && s.flight.Idle? && s.importQueue != []
  }

  lemma TookPrefix(recovered: U64, events: seq<Event>, n: nat)
    requires n <= |events|
    ensures forall i :: 0 <= i < n ==> (Took(recovered, events[..n], i) <==> Took(recovered, events, i))
  {
    assert forall i :: 0 <= i < n ==> events[..n][..i] == events[..i];
  }

  /** Each packet is numbered by its own event, in order, and carries the time read then; no other event takes one. */
  lemma {:induction false} NumberingTimes(recovered: U64, events: seq<Event>) returns (d: seq<nat>)
    ensures var r := History(recovered, events);
            && |d| == |r.numbered|
            && (forall i, j :: 0 <= i < j < |d| ==> d[i] < d[j])
            && (forall j :: 0 <= j < |d| ==> d[j] < |events| && events[d[j]] == Dequeue(r.numbered[j].at))
            && (forall i :: 0 <= i < |events| ==> (i in d <==> Took(recovered, events, i)))
  {
    hide Took, Replay;
    d := [];
    if events != [] {
      var n := |events| - 1;
      var e := events[n];
      d := NumberingTimes(recovered, events[..n]);
      TookPrefix(recovered, events, n);
      HistoryFollowsRun(recovered, events[..n]);
      var longer := NotedTime(recovered, events);
      if longer {
        assert forall i: nat :: i in d + [n] <==> i in d || i == n;
        d := d + [n];
      }
    }
  }

  /** The last event adds a numbered packet exactly when it took one, with the time it carries. */
  lemma NotedTime(recovered: U64, events: seq<Event>) returns (took: bool)
    requires events != []
    ensures took <==> Took(recovered, events, |events| - 1)
    ensures var (before, after) := (History(recovered, events[..|events| - 1]), History(recovered, events));
            if took
            then |after.numbered| == |before.numbered| + 1 && after.numbered[..|before.numbered|] == before.numbered &&
                 events[|events| - 1] == Dequeue(after.numbered[|before.numbered|].at)
            else after.numbered == before.numbered
  {
    HistoryFollowsRun(recovered, events[..|events| - 1]);
    var s := History(recovered, events[..|events| - 1]).state;
    took := events[|events| - 1].Dequeue? && s.flight.Idle? && s.importQueue != [];
  }

  lemma StampAt(recovered: U64, r: Record, j: nat, newest: int, behind: int)
    requires ImportSide(recovered, r) && j < |r.numbered| && recovered + 1 + j == newest - behind
    ensures r.numbered[j].packet.sequenceNumber == (newest - behind) % TWO64
  {
  }

  function NumbersOf(ps: seq<Packet>): (ns: seq<U64>)
    ensures |ns| == |ps|
    ensures forall i :: 0 <= i < |ns| ==> ns[i] == ps[i].sequenceNumber
  {
    seq(|ps|, i requires 0 <= i < |ps| => ps[i].sequenceNumber)
  }

  /** Consecutive 64-bit numbers, the last one being newest (before wrap-around). */
  predicate IsRunUpTo(numbers: seq<U64>, newest: int) {
    forall i :: 0 <= i < |numbers| ==> numbers[i] == (newest - (|numbers| - 1 - i)) % TWO64
  }

  /** Each output queue is bounded and holds a gap-free run that ends at the last number sent to it. */
  lemma QueuesAreRuns(recovered: U64, events: seq<Event>)
    ensures var r := History(recovered, events);
            var (p, q) := (r.state.publishQueue, r.state.storeQueue);
            && |p| <= OUTPUT_LIMIT && |q| <= OUTPUT_LIMIT && |r.state.importQueue| <= IMPORT_LIMIT + 1
            && r.state.counter == (recovered + |r.numbered|) % TWO64
            && IsRunUpTo(NumbersOf(p), recovered + SentToPublish(r))
            && IsRunUpTo(NumbersOf(PacketsIn(q)), recovered + SentToStore(r))
  {
    hide IsRunUpTo, ImportSide, PublishSide, StoreSide, FlightSide, History;
    var r := History(recovered, events);
    HistoryConsistent(recovered, events);
    QueueBounds(recovered, r);
    PublishRun(recovered, r);
    StoreRun(recovered, r);
  }

  lemma QueueBounds(recovered: U64, r: Record)
    requires Consistent(recovered, r)
    ensures |r.state.publishQueue| <= OUTPUT_LIMIT && |r.state.storeQueue| <= OUTPUT_LIMIT
    ensures |r.state.importQueue| <= IMPORT_LIMIT + 1
    ensures r.state.counter == (recovered + |r.numbered|) % TWO64
  {
    hide Accounts, StampedFrom, Selected;
  }

  lemma PublishRun(recovered: U64, r: Record)
    requires ImportSide(recovered, r) && PublishSide(r)
    ensures IsRunUpTo(NumbersOf(r.state.publishQueue), recovered + SentToPublish(r))
  {
    hide Selected, StampedFrom, ImportSide;
    var p := r.state.publishQueue;
    forall i | 0 <= i < |p|
      ensures p[i].sequenceNumber == (recovered + SentToPublish(r) - (|p| - 1 - i)) % TWO64
    {
      var j := |r.publishFates| + i;
      assert p[i] == r.numbered[j].packet;
      StampAt(recovered, r, j, recovered + SentToPublish(r), |p| - 1 - i);
    }
  }

  lemma StoreRun(recovered: U64, r: Record)
    requires ImportSide(recovered, r) && StoreSide(r)
    ensures IsRunUpTo(NumbersOf(PacketsIn(r.state.storeQueue)), recovered + SentToStore(r))
  {
    hide Selected, StampedFrom, ImportSide;
    var q := r.state.storeQueue;
    forall i | 0 <= i < |q|
      ensures q[i].packet.sequenceNumber == (recovered + SentToStore(r) - (|q| - 1 - i)) % TWO64
    {
      var j := |r.storeFates| + i;
      assert q[i] == r.numbered[j];
      StampAt(recovered, r, j, recovered + SentToStore(r), |q| - 1 - i);
    }
  }

  /** Strictly ascending numbers, however many packets are numbered, exactly until the counter wraps. */
  lemma NumbersAscendIff(recovered: U64, events: seq<Event>)
    ensures var r := History(recovered, events);
            (forall i, j :: 0 <= i < j < |r.numbered| ==>
               r.numbered[i].packet.sequenceNumber < r.numbered[j].packet.sequenceNumber) <==>
            |r.numbered| <= 1 || recovered + |r.numbered| < TWO64 || (recovered == TWO64 - 1 && |r.numbered| <= TWO64)
  {
    var r := History(recovered, events);
    HistoryConsistent(recovered, events);
    AscendingStampsIff(recovered, r.numbered);
  }

  lemma AscendingStampsIff(recovered: U64, numbered: seq<Received>)
    requires forall j :: 0 <= j < |numbered| ==> numbered[j].packet.sequenceNumber == (recovered + 1 + j) % TWO64
    ensures (forall i, j :: 0 <= i < j < |numbered| ==>
               numbered[i].packet.sequenceNumber < numbered[j].packet.sequenceNumber) <==>
            |numbered| <= 1 || recovered + |numbered| < TWO64 || (recovered == TWO64 - 1 && |numbered| <= TWO64)
  {
    var n := |numbered|;
    if n > 1 && recovered + n >= TWO64 {
      var wrap := TWO64 - 1 - recovered;
      if wrap > 0 {
        assert numbered[wrap - 1].packet.sequenceNumber == TWO64 - 1;
        assert numbered[wrap].packet.sequenceNumber == 0;
      } else if n > TWO64 {
        assert numbered[0].packet.sequenceNumber == 0;
        assert numbered[TWO64].packet.sequenceNumber == 0;
      }
    }
  }
}
