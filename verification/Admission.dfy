/**
 The shared publisher count: each session constructor checks it and increments it later, in
 separate steps, and start and stop reset it while old sessions may still be closing.
 */
module Admission {

  /** A constructor past the limit check, or a counted session not yet done. */
  datatype Phase = Passed | Registered

  datatype Service = Service(count: int, sessions: map<nat, Phase>, leftover: nat)

  datatype Event =
    | Check(id: nat)
    | Refuse(id: nat)
    | Register(id: nat)
    | Done(id: nat)
    | Reset

  const IDLE := Service(0, map[], 0)

  function InPhase(sessions: map<nat, Phase>, p: Phase): set<nat> { set id | id in sessions && sessions[id] == p }

  /** leftover is how many counted sessions the last reset forgot. */
  function Step(maximum: int, s: Service, e: Event): Service {
    match e
    case Check(id) =>
      if id !in s.sessions && s.count < maximum then s.(sessions := s.sessions[id := Passed]) else s
    case Refuse(id) =>
      if id in s.sessions && s.sessions[id].Passed? then s.(sessions := s.sessions - {id}) else s
    case Register(id) =>
      if id in s.sessions && s.sessions[id].Passed?
      then s.(count := s.count + 1, sessions := s.sessions[id := Registered]) else s
    case Done(id) =>
      if id in s.sessions && s.sessions[id].Registered?
      then s.(count := s.count - 1, sessions := s.sessions - {id}) else s
    case Reset => s.(count := 0, leftover := |InPhase(s.sessions, Registered)|)
  }

  /** The service's shared counter, with each live session's place in its constructor. */
  class PublishService {
    const maximumNumberOfPublishers: int
    var publisherCount: int
    var sessions: map<nat, Phase>
    ghost var leftover: nat

    ghost function Now(): Service
      reads this
    {
      Service(publisherCount, sessions, leftover)
    }

    constructor (maximum: int)
      ensures maximumNumberOfPublishers == maximum && Now() == IDLE
    {
      maximumNumberOfPublishers := maximum;
      publisherCount, sessions, leftover := 0, map[], 0;
    }

    /** The limit check at the top of a session's constructor; nothing is reserved yet. */
    method CheckLimit(id: nat) returns (hasRoom: bool)
      requires id !in sessions
      modifies this
      ensures hasRoom <==> old(publisherCount) < maximumNumberOfPublishers
      ensures publisherCount == old(publisherCount)
      ensures sessions == if hasRoom then old(sessions)[id := Passed] else old(sessions)
      ensures Now() == Step(maximumNumberOfPublishers, old(Now()), Check(id))
    {
      hasRoom := !(publisherCount >= maximumNumberOfPublishers);
      if hasRoom {
        sessions := sessions[id := Passed];
      }
    }

    /** An unauthorized session finishes between the check and the increment. */
    method RefuseToken(id: nat)
      requires id in sessions && sessions[id].Passed?
      modifies this
      ensures publisherCount == old(publisherCount) && sessions == old(sessions) - {id}
      ensures Now() == Step(maximumNumberOfPublishers, old(Now()), Refuse(id))
    {
      sessions := sessions - {id};
    }

    /** The increment, later in the same constructor. */
    method CountIn(id: nat) returns (nPublishers: int)
      requires id in sessions && sessions[id].Passed?
      modifies this
      ensures nPublishers == publisherCount == old(publisherCount) + 1 && sessions == old(sessions)[id := Registered]
      ensures Now() == Step(maximumNumberOfPublishers, old(Now()), Register(id))
    {
      publisherCount := publisherCount + 1;
      nPublishers := publisherCount;
      sessions := sessions[id := Registered];
    }

    /** OnDone: only a registered session is counted out. */
    method OnDone(id: nat)
      modifies this
      ensures id in old(sessions) && old(sessions)[id].Registered? ==>
                publisherCount == old(publisherCount) - 1 && sessions == old(sessions) - {id}
      ensures !(id in old(sessions) && old(sessions)[id].Registered?) ==>
                publisherCount == old(publisherCount) && sessions == old(sessions)
      ensures Now() == Step(maximumNumberOfPublishers, old(Now()), Done(id))
    {
      if id in sessions && sessions[id].Registered? {
        publisherCount := publisherCount - 1;
        sessions := sessions - {id};
      }
    }

    /** What start and stop do to the counter, whoever is still connected. */
    method StoreZero()
      modifies this
      ensures publisherCount == 0 && sessions == old(sessions)
      ensures Now() == Step(maximumNumberOfPublishers, old(Now()), Reset)
    {
      publisherCount := 0;
      leftover := |InPhase(old(Now()).sessions, Registered)|;
    }
  }

  function Run(maximum: int, s: Service, events: seq<Event>): Service {
    if events == [] then s else Step(maximum, Run(maximum, s, events[..|events| - 1]), events[|events| - 1])
  }

  /** At most crowd constructors are ever between their check and their increment. */
  predicate AtMostAtOnce(maximum: int, s: Service, events: seq<Event>, crowd: nat) {
    forall i :: 0 <= i <= |events| ==> |InPhase(Run(maximum, s, events[..i]).sessions, Passed)| <= crowd
  }

  lemma PhaseUpdate(s: Service, id: nat, p: Phase)
    ensures var t := s.(sessions := s.sessions[id := p]);
            var (q, other) := (InPhase(t.sessions, p), if p.Passed? then Registered else Passed);
            q == InPhase(s.sessions, p) + {id} && InPhase(t.sessions, other) == InPhase(s.sessions, other) - {id}
  {
  }

  lemma PhaseRemove(s: Service, id: nat)
    ensures var t := s.(sessions := s.sessions - {id});
            InPhase(t.sessions, Passed) == InPhase(s.sessions, Passed) - {id} &&
            InPhase(t.sessions, Registered) == InPhase(s.sessions, Registered) - {id}
  {
  }

  lemma PhaseOf(s: Service, id: nat)
    ensures forall p :: id in InPhase(s.sessions, p) <==> id in s.sessions && s.sessions[id] == p
  {
  }

  /** The count is the sessions registered and not done, less those the last reset forgot. */
  ghost predicate Counted(s: Service) { s.count == |InPhase(s.sessions, Registered)| - s.leftover }

  lemma StepCounts(maximum: int, s: Service, e: Event)
    requires Counted(s)
    ensures Counted(Step(maximum, s, e))
  {
    hide InPhase;
    if e.Check? || e.Refuse? || e.Register? || e.Done? {
      PhaseOf(s, e.id);
    }
    match e
    case Check(id) => PhaseUpdate(s, id, Passed);
    case Refuse(id) => PhaseRemove(s, id);
    case Register(id) => PhaseUpdate(s, id, Registered);
    case Done(id) => PhaseRemove(s, id);
    case Reset =>
  }

  /** Only a check below the limit, or a reset, can raise the count plus those about to be counted. */
  lemma StepRaises(maximum: int, s: Service, e: Event)
    ensures var t := Step(maximum, s, e);
            t.count + |InPhase(t.sessions, Passed)| <= s.count + |InPhase(s.sessions, Passed)|
            || (e.Check? && s.count < maximum && t.count == s.count)
            || e.Reset?
  {
    hide InPhase;
    if e.Check? || e.Refuse? || e.Register? || e.Done? {
      PhaseOf(s, e.id);
    }
    match e
    case Check(id) =>
    case Refuse(id) => PhaseRemove(s, id);
    case Register(id) => PhaseUpdate(s, id, Registered);
    case Done(id) => PhaseRemove(s, id);
    case Reset =>
  }

  lemma CrowdPrefix(maximum: int, s: Service, events: seq<Event>, crowd: nat)
    requires AtMostAtOnce(maximum, s, events, crowd) && events != []
    ensures AtMostAtOnce(maximum, s, events[..|events| - 1], crowd)
    ensures |InPhase(Run(maximum, s, events).sessions, Passed)| <= crowd
  {
    var init := events[..|events| - 1];
    assert forall i :: 0 <= i <= |init| ==> init[..i] == events[..i];
    assert events[..|events|] == events;
  }

  /** However checks, increments, departures and resets interleave, the count overshoots by less than the crowd. */
  lemma {:induction false} CountIsBounded(maximum: int, events: seq<Event>, crowd: nat)
    requires maximum >= 1 && crowd >= 1 && AtMostAtOnce(maximum, IDLE, events, crowd)
    ensures var s := Run(maximum, IDLE, events);
            && Counted(s)
            && s.count + |InPhase(s.sessions, Passed)| <= maximum + crowd - 1
            && |InPhase(s.sessions, Registered)| <= maximum + crowd - 1 + s.leftover
  {
    if events == [] {
      assert InPhase(IDLE.sessions, Passed) == {} && InPhase(IDLE.sessions, Registered) == {};
    } else {
      CrowdPrefix(maximum, IDLE, events, crowd);
      var init, e := events[..|events| - 1], events[|events| - 1];
      CountIsBounded(maximum, init, crowd);
      StepCounts(maximum, Run(maximum, IDLE, init), e);
      StepRaises(maximum, Run(maximum, IDLE, init), e);
    }
  }

  predicate NoReset(events: seq<Event>) { forall i :: 0 <= i < |events| ==> !events[i].Reset? }

  /** In every reachable state the count is short by exactly the sessions the last reset forgot. */
  lemma {:induction false} EveryRunCounts(maximum: int, events: seq<Event>)
    ensures Counted(Run(maximum, IDLE, events))
  {
    if events == [] {
      assert InPhase(IDLE.sessions, Registered) == {};
    } else {
      EveryRunCounts(maximum, events[..|events| - 1]);
      StepCounts(maximum, Run(maximum, IDLE, events[..|events| - 1]), events[|events| - 1]);
    }
  }

  /** What was forgotten stays so until the next reset. */
  lemma {:induction false} LeftoverStays(maximum: int, s: Service, events: seq<Event>)
    requires NoReset(events)
    ensures Run(maximum, s, events).leftover == s.leftover
  {
    if events != [] {
      var init, e := events[..|events| - 1], events[|events| - 1];
      assert !e.Reset? && forall i :: 0 <= i < |init| ==> init[i] == events[i];
      LeftoverStays(maximum, s, init);
    }
  }

  lemma {:induction false} RunConcat(maximum: int, s: Service, a: seq<Event>, b: seq<Event>)
    ensures Run(maximum, s, a + b) == Run(maximum, Run(maximum, s, a), b)
    decreases |b|
  {
    if b == [] {
      assert a + b == a;
    } else {
      var init := b[..|b| - 1];
      assert (a + b)[..|a + b| - 1] == a + init;
      RunConcat(maximum, s, a, init);
    }
  }

  /** The sessions still registered when the last reset comes, or none if there is none. */
  function Forgotten(maximum: int, events: seq<Event>): nat {
    if events == [] then 0
    else if events[|events| - 1].Reset? then
      |InPhase(Run(maximum, IDLE, events[..|events| - 1]).sessions, Registered)|
    else Forgotten(maximum, events[..|events| - 1])
  }

  lemma {:induction false} LeftoverIsForgotten(maximum: int, events: seq<Event>)
    ensures Run(maximum, IDLE, events).leftover == Forgotten(maximum, events)
  {
    if events != [] {
      LeftoverIsForgotten(maximum, events[..|events| - 1]);
    }
  }

  /**
   Over every run, resets included: the count is the registered sessions exactly when the last
   start or stop found none registered, and negative exactly when fewer are left than it found.
   */
  lemma CountIsRegisteredIff(maximum: int, events: seq<Event>)
    ensures var s := Run(maximum, IDLE, events);
            && (s.count == |InPhase(s.sessions, Registered)| <==> Forgotten(maximum, events) == 0)
            && (s.count < 0 <==> |InPhase(s.sessions, Registered)| < Forgotten(maximum, events))
  {
    EveryRunCounts(maximum, events);
    LeftoverIsForgotten(maximum, events);
  }

  /** From a start or stop that finds no session registered until the next, the count is the registered sessions. */
  lemma CleanCycleCounts(maximum: int, earlier: seq<Event>, cycle: seq<Event>)
    requires InPhase(Run(maximum, IDLE, earlier).sessions, Registered) == {} && NoReset(cycle)
    ensures var s := Run(maximum, IDLE, earlier + [Reset] + cycle);
            s.count == |InPhase(s.sessions, Registered)|
  {
    hide InPhase;
    var events := earlier + [Reset] + cycle;
    EveryRunCounts(maximum, events);
    RunConcat(maximum, IDLE, earlier + [Reset], cycle);
    RunSnoc(maximum, IDLE, earlier, Reset);
    LeftoverStays(maximum, Run(maximum, IDLE, earlier + [Reset]), cycle);
  }

  /** Whatever came before, a registered session that closes right after a stop drives the count below zero. */
  lemma LateDoneGoesNegative(maximum: int, earlier: seq<Event>, id: nat)
    requires id in InPhase(Run(maximum, IDLE, earlier).sessions, Registered)
    ensures Run(maximum, IDLE, earlier + [Reset] + [Done(id)]).count == -1
  {
    RunSnoc(maximum, IDLE, earlier, Reset);
    RunSnoc(maximum, IDLE, earlier + [Reset], Done(id));
  }

  // ----------------------------------------------------------------- tightness

  /** Sessions 0 to n - 1, each admitted before the next arrives. */
  function OneByOne(n: nat): seq<Event> {
    if n == 0 then [] else OneByOne(n - 1) + [Check(n - 1)] + [Register(n - 1)]
  }

  /** Constructors from to from + n - 1 all check before any increments. */
  function Checks(from: nat, n: nat): seq<Event> {
    if n == 0 then [] else Checks(from, n - 1) + [Check(from + n - 1)]
  }

  function Registers(from: nat, n: nat): seq<Event> {
    if n == 0 then [] else Registers(from, n - 1) + [Register(from + n - 1)]
  }

  lemma RunSnoc(maximum: int, s: Service, events: seq<Event>, e: Event)
    ensures Run(maximum, s, events + [e]) == Step(maximum, Run(maximum, s, events), e)
  {
    assert (events + [e])[..|events|] == events;
  }

  /** The registered sessions are those below split, the passed ones those from there to top. */
  ghost predicate Shape(s: Service, split: nat, top: nat) {
    && split <= top && s.count == split
    && (forall id: nat :: id in s.sessions <==> id < top)
    && (forall id | id in s.sessions :: s.sessions[id] == if id < split then Registered else Passed)
  }

  lemma CrowdSnoc(maximum: int, events: seq<Event>, e: Event, crowd: nat)
    requires AtMostAtOnce(maximum, IDLE, events, crowd)
    requires |InPhase(Step(maximum, Run(maximum, IDLE, events), e).sessions, Passed)| <= crowd
    ensures AtMostAtOnce(maximum, IDLE, events + [e], crowd)
  {
    RunSnoc(maximum, IDLE, events, e);
    var longer := events + [e];
    forall i | 0 <= i <= |longer| ensures |InPhase(Run(maximum, IDLE, longer[..i]).sessions, Passed)| <= crowd {
      if i <= |events| {
        assert longer[..i] == events[..i];
      } else {
        assert longer[..i] == longer;
      }
    }
  }

  function Between(a: nat, b: nat): (r: set<nat>)
    requires a <= b
    ensures forall id: nat :: id in r <==> a <= id < b
    ensures |r| == b - a
    decreases b
  {
    if a == b then {} else Between(a, b - 1) + {b - 1}
  }

  lemma ShapeCrowd(s: Service, split: nat, top: nat)
    requires Shape(s, split, top)
    ensures |InPhase(s.sessions, Passed)| == top - split
  {
    assert InPhase(s.sessions, Passed) == Between(split, top);
  }

  lemma NothingYet(maximum: int, crowd: nat)
    ensures Reaches(maximum, crowd, [], 0, 0)
  {
    var none: seq<Event> := [];
    assert InPhase(IDLE.sessions, Passed) == {};
    forall i | 0 <= i <= |none| ensures |InPhase(Run(maximum, IDLE, none[..i]).sessions, Passed)| <= crowd {
      assert none[..i] == [];
    }
  }

  /** After these events, never too crowded, the sessions have that shape. */
  ghost predicate Reaches(maximum: int, crowd: nat, events: seq<Event>, split: nat, top: nat) {
    Shape(Run(maximum, IDLE, events), split, top) && AtMostAtOnce(maximum, IDLE, events, crowd)
  }

  lemma CheckReaches(maximum: int, crowd: nat, events: seq<Event>, split: nat, top: nat)
    requires Reaches(maximum, crowd, events, split, top) && split < maximum && top + 1 - split <= crowd
    ensures Reaches(maximum, crowd, events + [Check(top)], split, top + 1)
  {
    RunSnoc(maximum, IDLE, events, Check(top));
    ShapeCrowd(Step(maximum, Run(maximum, IDLE, events), Check(top)), split, top + 1);
    CrowdSnoc(maximum, events, Check(top), crowd);
  }

  lemma RegisterReaches(maximum: int, crowd: nat, events: seq<Event>, split: nat, top: nat)
    requires Reaches(maximum, crowd, events, split, top) && split < top && top - split <= crowd
    ensures Reaches(maximum, crowd, events + [Register(split)], split + 1, top)
  {
    RunSnoc(maximum, IDLE, events, Register(split));
    ShapeCrowd(Step(maximum, Run(maximum, IDLE, events), Register(split)), split + 1, top);
    CrowdSnoc(maximum, events, Register(split), crowd);
  }

  lemma {:induction false} OneByOneReaches(maximum: int, crowd: nat, n: nat)
    requires n <= maximum && crowd >= 1
    ensures Reaches(maximum, crowd, OneByOne(n), n, n)
  {
    hide Reaches;
    if n == 0 {
      NothingYet(maximum, crowd);
    } else {
      OneByOneReaches(maximum, crowd, n - 1);
      CheckReaches(maximum, crowd, OneByOne(n - 1), n - 1, n - 1);
      RegisterReaches(maximum, crowd, OneByOne(n - 1) + [Check(n - 1)], n - 1, n);
    }
  }

  lemma {:induction false} ChecksReach(maximum: int, crowd: nat, events: seq<Event>, split: nat, n: nat)
    requires Reaches(maximum, crowd, events, split, split) && split < maximum && n <= crowd
    ensures Reaches(maximum, crowd, events + Checks(split, n), split, split + n)
    decreases n
  {
    hide Reaches;
    if n == 0 {
      assert events + [] == events;
    } else {
      ChecksReach(maximum, crowd, events, split, n - 1);
      CheckReaches(maximum, crowd, events + Checks(split, n - 1), split, split + n - 1);
      assert events + Checks(split, n) == events + Checks(split, n - 1) + [Check(split + n - 1)];
    }
  }

  lemma {:induction false} RegistersReach(maximum: int, crowd: nat, events: seq<Event>, split: nat, top: nat, n: nat)
    requires Reaches(maximum, crowd, events, split, top) && split + n <= top && top - split <= crowd
    ensures Reaches(maximum, crowd, events + Registers(split, n), split + n, top)
    decreases n
  {
    hide Reaches;
    if n == 0 {
      assert events + [] == events;
    } else {
      RegistersReach(maximum, crowd, events, split, top, n - 1);
      RegisterReaches(maximum, crowd, events + Registers(split, n - 1), split + n - 1, top);
      assert events + Registers(split, n) == events + Registers(split, n - 1) + [Register(split + n - 1)];
    }
  }

  /** The bound is reached, for every limit and every crowd. */
  lemma BoundIsReached(maximum: int, crowd: nat) returns (events: seq<Event>)
    requires maximum >= 1 && crowd >= 1
    ensures AtMostAtOnce(maximum, IDLE, events, crowd) && Run(maximum, IDLE, events).count == maximum + crowd - 1
  {
    var n := maximum - 1;
    OneByOneReaches(maximum, crowd, n);
    ChecksReach(maximum, crowd, OneByOne(n), n, crowd);
    events := OneByOne(n) + Checks(n, crowd) + Registers(n, crowd);
    RegistersReach(maximum, crowd, OneByOne(n) + Checks(n, crowd), n, n + crowd, crowd);
  }
}
