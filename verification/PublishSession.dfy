/**
 One publisher's session as the callback machine runs it: a read completes, the packet is
 accepted, refused or fails, and the session reads on or finishes.
 */
module PublishSession {
  import opened ByteStrings
  import opened KeyCodec
  import opened StoreModel

  const TWO32: int := 0x1_0000_0000

  type U32 = n: int | 0 <= n < TWO32

  /** What the broker's callback did with a packet: returned, threw invalid_argument, or threw anything else. */
  datatype Outcome = Success | Invalid | ServerError

  datatype Status = Fine | ResourceExhausted | Unauthenticated | InvalidArgument | Unavailable

  datatype LastPacket = LastPacket(identifier: Identifier, sequenceNumber: U64)

  datatype Summary = Summary(totalPackets: U64, invalidPackets: U64, last: Option<LastPacket>)

  /** A completed read, with what the callback did and whether the service is still running. */
  datatype Event =
    | Delivered(packet: Packet, outcome: Outcome, keepRunning: bool)
    | EndOfStream(keepRunning: bool)

  datatype Session = Session(
    total: U64, invalid: U64, consecutive: U32,
    last: Option<LastPacket>,
    pendingReads: int, finishes: seq<Status>,
    response: Option<Summary>,
    registered: bool)

  function StartRead(s: Session): Session { s.(pendingReads := s.pendingReads + 1) }

  function Finish(s: Session, status: Status): Session { s.(finishes := s.finishes + [status]) }

  /** What a constructor meets: room under the limit, a good token (or none asked for), a running service. */
  datatype Arrival = Arrival(hasRoom: bool, authorized: bool, keepRunning: bool)

  /** A session as its constructor leaves it: refused, or counted and reading unless the service is stopping. */
  function Constructed(a: Arrival): Session {
    var s := Session(0, 0, 0, None, 0, [], None, false);
    if !a.hasRoom then Finish(s, ResourceExhausted)
    else if !a.authorized then Finish(s, Unauthenticated)
    else
      var s := s.(registered := true);
      if a.keepRunning then StartRead(s) else Finish(s, Fine)
  }

  function ReadOn(s: Session, keepRunning: bool): Session {
    if keepRunning then StartRead(s) else Finish(s, Unavailable)
  }

  /** What one completed read does to the session. */
  function Step(limit: U32, s: Session, e: Event): Session {
    var s := s.(pendingReads := s.pendingReads - 1);
    match e
    case EndOfStream(keepRunning) =>
      Finish(s.(response := Some(Summary(s.total, s.invalid, s.last))), if keepRunning then Fine else Unavailable)
    case Delivered(p, outcome, keepRunning) =>
      var s := s.(total := (s.total + 1) % TWO64);
      match outcome
      case Success =>
        ReadOn(s.(consecutive := 0, last := Some(LastPacket(p.identifier, p.sequenceNumber))), keepRunning)
      case ServerError => ReadOn(s, keepRunning)
      case Invalid =>
        var s := s.(consecutive := (s.consecutive + 1) % TWO32, invalid := (s.invalid + 1) % TWO64);
        if s.consecutive > limit then Finish(s, InvalidArgument) else ReadOn(s, keepRunning)
  }

  class AsynchronousReader {
    const maximumConsecutiveInvalidMessages: U32
    var totalPackets: U64
    var invalidPackets: U64
    var invalidMessageCounter: U32
    var lastPacketIdentifier: Option<LastPacket>
    var pendingReads: int
    var finishes: seq<Status>
    var response: Option<Summary>
    var registered: bool

    function Now(): Session
      reads this
    {
      Session(totalPackets, invalidPackets, invalidMessageCounter, lastPacketIdentifier, pendingReads, finishes,
              response, registered)
    }

    constructor (limit: U32, a: Arrival)
      ensures maximumConsecutiveInvalidMessages == limit
      ensures Now() == Constructed(a)
    {
      maximumConsecutiveInvalidMessages := limit;
      totalPackets, invalidPackets, invalidMessageCounter := 0, 0, 0;
      lastPacketIdentifier, response := None, None;
      pendingReads, finishes, registered := 0, [], false;
      new;
      if !a.hasRoom {
        finishes := finishes + [ResourceExhausted];
        return;
      }
      if !a.authorized {
        finishes := finishes + [Unauthenticated];
        return;
      }
      registered := true;
      if a.keepRunning {
        pendingReads := pendingReads + 1;
      } else {
        finishes := finishes + [Fine];
      }
    }

    /** The read callback. */
    method OnReadDone(e: Event)
      requires pendingReads == 1
      modifies this
      ensures Now() == Step(maximumConsecutiveInvalidMessages, old(Now()), e)
    {
      pendingReads := pendingReads - 1;
      match e
      case Delivered(packet, outcome, keepRunning) =>
        totalPackets := (totalPackets + 1) % TWO64;
        match outcome {
          case Success =>
            invalidMessageCounter := 0;
            lastPacketIdentifier := Some(LastPacket(packet.identifier, packet.sequenceNumber));
          case Invalid =>
            invalidMessageCounter := (invalidMessageCounter + 1) % TWO32;
            invalidPackets := (invalidPackets + 1) % TWO64;
            if invalidMessageCounter > maximumConsecutiveInvalidMessages {
              finishes := finishes + [InvalidArgument];
              return;
            }
          case ServerError =>
        }
        if keepRunning {
          pendingReads := pendingReads + 1;
        } else {
          finishes := finishes + [Unavailable];
        }
      case EndOfStream(keepRunning) =>
        response := Some(Summary(totalPackets, invalidPackets, lastPacketIdentifier));
        finishes := finishes + [if keepRunning then Fine else Unavailable];
    }
  }

  // -------------------------------------------------------------------- traces

  function Run(limit: U32, start: Session, events: seq<Event>): Session {
    if events == [] then start
    else Step(limit, Run(limit, start, events[..|events| - 1]), events[|events| - 1])
  }

  /** The transport completes only reads that were started. */
  predicate Feasible(limit: U32, start: Session, events: seq<Event>) {
    forall i :: 0 <= i < |events| ==> Run(limit, start, events[..i]).pendingReads > 0
  }

  function CountOf(events: seq<Event>, o: Outcome): nat {
    if events == [] then 0
    else
      var e := events[|events| - 1];
      CountOf(events[..|events| - 1], o) + (if e.Delivered? && e.outcome == o then 1 else 0)
  }

  /** Invalid packets since the last success; server errors neither count nor reset. */
  function TrailingInvalid(events: seq<Event>): nat {
    if events == [] then 0
    else
      var e, before := events[|events| - 1], TrailingInvalid(events[..|events| - 1]);
      if e.EndOfStream? || e.outcome.ServerError? then before
      else if e.outcome.Success? then 0 else before + 1
  }

  function LatestSuccess(events: seq<Event>): Option<LastPacket> {
    if events == [] then None
    else
      var e := events[|events| - 1];
      if e.Delivered? && e.outcome.Success? then Some(LastPacket(e.packet.identifier, e.packet.sequenceNumber))
      else LatestSuccess(events[..|events| - 1])
  }

  lemma FeasiblePrefix(limit: U32, start: Session, events: seq<Event>)
    requires Feasible(limit, start, events) && events != []
    ensures Feasible(limit, start, events[..|events| - 1])
    ensures Run(limit, start, events[..|events| - 1]).pendingReads > 0
  {
    var init := events[..|events| - 1];
    forall i | 0 <= i < |init| ensures Run(limit, start, init[..i]).pendingReads > 0 {
      assert init[..i] == events[..i];
    }
  }

  /** At most one Finish, no read after it, and until then exactly one read outstanding. */
  lemma {:induction false} OneReadOrFinished(limit: U32, a: Arrival, events: seq<Event>)
    requires Feasible(limit, Constructed(a), events)
    ensures var s := Run(limit, Constructed(a), events);
            |s.finishes| <= 1 && s.pendingReads == 1 - |s.finishes|
  {
    if events != [] {
      FeasiblePrefix(limit, Constructed(a), events);
      OneReadOrFinished(limit, a, events[..|events| - 1]);
    }
  }

  lemma AddMod(x: nat, m: int)
    requires m > 1
    ensures (x % m + 1) % m == (x + 1) % m
  {
    var q, r := x / m, x % m;
    assert x == m * q + r;
    if r + 1 < m {
      DivUnique(x + 1, m, q, r + 1);
    } else {
      assert x + 1 == m * (q + 1) + 0;
      DivUnique(x + 1, m, q + 1, 0);
    }
  }

  function Deliveries(events: seq<Event>): nat {
    CountOf(events, Success) + CountOf(events, Invalid) + CountOf(events, ServerError)
  }

  lemma StepCounters(limit: U32, s: Session, e: Event)
    ensures var t := Step(limit, s, e);
            && t.total == (if e.Delivered? then (s.total + 1) % TWO64 else s.total)
            && t.invalid == (if e.Delivered? && e.outcome.Invalid? then (s.invalid + 1) % TWO64 else s.invalid)
            && t.consecutive == (if e.EndOfStream? || e.outcome.ServerError? then s.consecutive
                                 else if e.outcome.Success? then 0 else (s.consecutive + 1) % TWO32)
            && t.last == (if e.Delivered? && e.outcome.Success?
                          then Some(LastPacket(e.packet.identifier, e.packet.sequenceNumber)) else s.last)
  {
  }

  /** The counters say what the trace says. */
  lemma {:induction false} CountersMatchTrace(limit: U32, a: Arrival, events: seq<Event>)
    ensures var s := Run(limit, Constructed(a), events);
            && s.total == Deliveries(events) % TWO64
            && s.invalid == CountOf(events, Invalid) % TWO64
            && s.consecutive == TrailingInvalid(events) % TWO32
            && s.last == LatestSuccess(events)
  {
    hide Step;
    if events != [] {
      var init := events[..|events| - 1];
      CountersMatchTrace(limit, a, init);
      StepCounters(limit, Run(limit, Constructed(a), init), events[|events| - 1]);
      AddMod(Deliveries(init), TWO64);
      AddMod(CountOf(init, Invalid), TWO64);
      AddMod(TrailingInvalid(init), TWO32);
    }
  }

  /** How one read can close a session for invalidity. */
  lemma StepCloses(limit: U32, s: Session, e: Event)
    requires s.finishes == []
    ensures InvalidArgument in Step(limit, s, e).finishes <==>
            e.Delivered? && e.outcome.Invalid? && (s.consecutive + 1) % TWO32 > limit
  {
  }

  /** A session closes for invalidity exactly when its streak passes a limit below the largest 32-bit number. */
  lemma {:induction false} ClosesForInvalidityIff(limit: U32, a: Arrival, events: seq<Event>)
    requires Feasible(limit, Constructed(a), events)
    ensures InvalidArgument in Run(limit, Constructed(a), events).finishes <==>
            limit < TWO32 - 1 && TrailingInvalid(events) > limit
    ensures limit < TWO32 - 1 ==> TrailingInvalid(events) <= limit + 1
  {
    hide Step, Feasible, CountOf, LatestSuccess;
    if events != [] {
      var init := events[..|events| - 1];
      FeasiblePrefix(limit, Constructed(a), events);
      ClosesForInvalidityIff(limit, a, init);
      OneReadOrFinished(limit, a, init);
      CountersMatchTrace(limit, a, init);
      StepCloses(limit, Run(limit, Constructed(a), init), events[|events| - 1]);
    }
  }

  /** Only a session that found room and a good token is ever counted, and OnDone counts out exactly those. */
  lemma {:induction false} RegisteredIffAdmitted(limit: U32, a: Arrival, events: seq<Event>)
    ensures Run(limit, Constructed(a), events).registered <==> a.hasRoom && a.authorized
    ensures Feasible(limit, Constructed(a), events) && events != [] ==> a.hasRoom && a.authorized && a.keepRunning
  {
    hide Feasible, CountOf, TrailingInvalid, LatestSuccess;
    if events != [] {
      RegisteredIffAdmitted(limit, a, events[..|events| - 1]);
      if Feasible(limit, Constructed(a), events) {
        ReadsFromTheStart(limit, Constructed(a), events);
      }
    }
  }

  lemma ReadsFromTheStart(limit: U32, start: Session, events: seq<Event>)
    requires Feasible(limit, start, events) && events != []
    ensures start.pendingReads > 0
  {
    assert Run(limit, start, events[..0]).pendingReads > 0;
  }

  /** The summary is sent exactly when the publisher ends its stream, and reports the whole trace. */
  lemma {:induction false} SummaryIff(limit: U32, a: Arrival, events: seq<Event>)
    requires Feasible(limit, Constructed(a), events)
    ensures var s := Run(limit, Constructed(a), events);
            && (s.response.Some? <==> events != [] && events[|events| - 1].EndOfStream?)
            && (s.response.Some? ==> s.response.value == Summary(s.total, s.invalid, LatestSuccess(events)))
            && (s.response.Some? ==>
                  s.finishes == [if events[|events| - 1].keepRunning then Fine else Unavailable])
  {
    hide Feasible, CountOf, TrailingInvalid;
    if events != [] {
      var init := events[..|events| - 1];
      FeasiblePrefix(limit, Constructed(a), events);
      SummaryIff(limit, a, init);
      OneReadOrFinished(limit, a, init);
      CountersMatchTrace(limit, a, init);
      EndsOnce(limit, a, init);
    }
  }

  /** Its last read ended with the session to go on or to stop: the service was running then, or was not. */
  predicate StoppedAt(events: seq<Event>) { events != [] && !events[|events| - 1].keepRunning }

  predicate InvalidityCloses(limit: U32, events: seq<Event>) { limit < TWO32 - 1 && TrailingInvalid(events) > limit }

  /** How one read can close a session: each status exactly for its own reason. */
  lemma StepFinishes(limit: U32, s: Session, e: Event)
    requires s.finishes == []
    ensures var invalid := e.Delivered? && e.outcome.Invalid? && (s.consecutive + 1) % TWO32 > limit;
            Step(limit, s, e).finishes ==
            if invalid then [InvalidArgument]
            else if !e.keepRunning then [Unavailable]
            else if e.EndOfStream? then [Fine] else []
  {
  }

  /** A streak passes the limit only by the packet just refused, and nothing is read after that. */
  lemma StreakJustPassed(limit: U32, a: Arrival, events: seq<Event>)
    requires Feasible(limit, Constructed(a), events) && events != []
    ensures var (init, e) := (events[..|events| - 1], events[|events| - 1]);
            var s := Run(limit, Constructed(a), init);
            && s.finishes == []
            && (InvalidityCloses(limit, events) <==>
                  e.Delivered? && e.outcome.Invalid? && (s.consecutive + 1) % TWO32 > limit)
  {
    hide Step, Feasible, CountOf, LatestSuccess;
    var init := events[..|events| - 1];
    FeasiblePrefix(limit, Constructed(a), events);
    OneReadOrFinished(limit, a, init);
    ClosesForInvalidityIff(limit, a, init);
    ClosesForInvalidityIff(limit, a, events);
    StepCloses(limit, Run(limit, Constructed(a), init), events[|events| - 1]);
  }

  /** How the constructor itself can close a session. */
  lemma FinishedAtOnce(a: Arrival)
    ensures Constructed(a).finishes ==
            if !a.hasRoom then [ResourceExhausted]
            else if !a.authorized then [Unauthenticated]
            else if a.keepRunning then [] else [Fine]
  {
  }

  /**
   Which status closes a session, and exactly when. No room, and else no good token, close it at
   once; else a streak of invalid packets past the limit; else a service found stopped at a read;
   else the end of the stream, or a service found stopped before the first read.
   */
  lemma StatusIff(limit: U32, a: Arrival, events: seq<Event>)
    requires Feasible(limit, Constructed(a), events)
    ensures var finishes := Run(limit, Constructed(a), events).finishes;
            && (finishes == [ResourceExhausted] <==> !a.hasRoom)
            && (finishes == [Unauthenticated] <==> a.hasRoom && !a.authorized)
            && (finishes == [InvalidArgument] <==> InvalidityCloses(limit, events))
            && (finishes == [Unavailable] <==> StoppedAt(events) && !InvalidityCloses(limit, events))
            && (finishes == [Fine] <==>
                  a.hasRoom && a.authorized &&
                  if events == [] then !a.keepRunning
                  else events[|events| - 1].EndOfStream? && events[|events| - 1].keepRunning)
  {
    hide Step, Feasible, CountOf, LatestSuccess;
    RegisteredIffAdmitted(limit, a, events);
    if events == [] {
      FinishedAtOnce(a);
    } else {
      var init, e := events[..|events| - 1], events[|events| - 1];
      StreakJustPassed(limit, a, events);
      StepFinishes(limit, Run(limit, Constructed(a), init), e);
    }
  }

  lemma EndsOnce(limit: U32, a: Arrival, events: seq<Event>)
    requires Feasible(limit, Constructed(a), events)
    requires Run(limit, Constructed(a), events).pendingReads > 0
    ensures events == [] || events[|events| - 1].Delivered?
  {
    OneReadOrFinished(limit, a, events);
  }
}
