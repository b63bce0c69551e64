/** The concurrent-requests stage: one counter shared by every request that
    passes through the stage. A request increments it on entry and decrements
    it when it leaves, whatever happened in between; it is answered 503, and
    not handed downstream, when the incremented value is above the ceiling. */
module ConcurrentRequests {
  import opened Http

  /** The ceiling a request is checked against: 0 or less means unlimited,
      that is `int.MaxValue`. */
  function EffectiveCeiling(configured: int): (c: int)
    ensures c >= 1
    ensures configured <= 0 ==> c == IntMaxValue
    ensures configured > 0 ==> c == configured
  {
    if configured <= 0 then IntMaxValue else configured
  }

  /** The stage's shared state: the counter, the requests between their
      increment and their decrement, and those among them that were let
      through to the downstream stages. */
  datatype Gate = Gate(counter: int, inFlight: multiset<nat>, admitted: multiset<nat>)

  /** A request entering with the ceiling its provider answered, or leaving. */
  datatype Event = Enter(id: nat, configured: int) | Exit(id: nat)

  function Initial(): (g: Gate)
    ensures g.counter == 0 && |g.inFlight| == 0 && |g.admitted| == 0
  {
    Gate(0, multiset{}, multiset{})
  }

  /** The incremented counter is above the ceiling. */
  predicate Rejects(g: Gate, configured: int) {
    g.counter + 1 > EffectiveCeiling(configured)
  }

  /** An entry always increments; a rejected request is in flight but not
      admitted. An exit always decrements; one with no matching entry is
      ignored. */
  function Step(g: Gate, e: Event): Gate {
    match e
    case Enter(id, configured) =>
      Gate(g.counter + 1, g.inFlight + multiset{id},
           if Rejects(g, configured) then g.admitted else g.admitted + multiset{id})
    case Exit(id) =>
      if id in g.inFlight then Gate(g.counter - 1, g.inFlight - multiset{id}, g.admitted - multiset{id})
      else g
  }

  function Run(g: Gate, events: seq<Event>): Gate
    decreases |events|
  {
    if events == [] then g else Run(Step(g, events[0]), events[1..])
  }

  /** The counter counts the requests in flight; the admitted ones are among them. */
  predicate Consistent(g: Gate) {
    g.counter == |g.inFlight| && g.admitted <= g.inFlight
  }

  /** Every event keeps the gate consistent. */
  lemma StepConsistent(g: Gate, e: Event)
    requires Consistent(g)
    ensures Consistent(Step(g, e))
  {
    match e {
      case Enter(id, configured) =>
        assert g.admitted + multiset{id} <= g.inFlight + multiset{id};
      case Exit(id) =>
        if id in g.inFlight {
          RemovalKeepsInclusion(g.admitted, g.inFlight, id);
        }
    }
  }

  lemma RemovalKeepsInclusion(a: multiset<nat>, b: multiset<nat>, x: nat)
    requires a <= b && x in b
    ensures a - multiset{x} <= b - multiset{x}
    ensures |b - multiset{x}| == |b| - 1
  {
    assert (b - multiset{x}) + multiset{x} == b;
    forall y: nat ensures (a - multiset{x})[y] <= (b - multiset{x})[y] {
      assert a[y] <= b[y];
    }
  }

  /** Adding an element and taking it away again changes nothing. */
  lemma AddThenRemove(m: multiset<nat>, x: nat)
    ensures (m + multiset{x}) - multiset{x} == m
  {
  }

  lemma RemoveAbsent(m: multiset<nat>, x: nat)
    requires x !in m
    ensures m - multiset{x} == m
  {
  }

  /** Every entry is a request of its own: its id is not in flight when it
      enters. */
  predicate DistinctEntries(g: Gate, events: seq<Event>)
    decreases |events|
  {
    events == [] ||
    ((events[0].Enter? ==> events[0].id !in g.inFlight) && DistinctEntries(Step(g, events[0]), events[1..]))
  }

  /** The invariant of the stage: when every request is checked against the
      same ceiling, under any interleaving of entries and exits of distinct
      requests, the requests let through to the downstream stages and not yet
      gone are never more than the ceiling. */
  lemma {:induction false} AdmittedWithinCeiling(g: Gate, events: seq<Event>, configured: int)
    requires Consistent(g) && |g.admitted| <= EffectiveCeiling(configured)
    requires DistinctEntries(g, events)
    requires forall i :: 0 <= i < |events| && events[i].Enter? ==> events[i].configured == configured
    ensures Consistent(Run(g, events))
    ensures |Run(g, events).admitted| <= EffectiveCeiling(configured)
    decreases |events|
  {
    if events != [] {
      var e := events[0];
      var s := Step(g, e);
      StepConsistent(g, e);
      match e {
        case Enter(id, c) =>
          assert c == configured;
          if !Rejects(g, configured) {
            assert |s.admitted| <= |s.inFlight| by { MultisetSubsetSize(s.admitted, s.inFlight); }
          }
        case Exit(id) =>
          if id in g.inFlight {
            assert |s.admitted| <= |g.admitted|;
          }
      }
      assert forall i :: 0 <= i < |events[1..]| && events[1..][i].Enter? ==> events[1..][i].configured == configured by {
        forall i | 0 <= i < |events[1..]| && events[1..][i].Enter?
          ensures events[1..][i].configured == configured
        {
          assert events[1..][i] == events[i + 1];
        }
      }
      AdmittedWithinCeiling(s, events[1..], configured);
    }
  }

  lemma {:induction false} MultisetSubsetSize(a: multiset<nat>, b: multiset<nat>)
    requires a <= b
    ensures |a| <= |b|
    decreases |b|
  {
    if |b| != 0 {
      var x :| x in b;
      if x in a {
        MultisetSubsetSize(a - multiset{x}, b - multiset{x});
      } else {
        assert a <= b - multiset{x};
        MultisetSubsetSize(a, b - multiset{x});
      }
    }
  }

  /** A request that enters and leaves, with nothing in between, leaves the
      gate as it found it. */
  lemma EnterThenExitRestores(g: Gate, id: nat, configured: int)
    requires Consistent(g) && id !in g.inFlight
    ensures Run(g, [Enter(id, configured), Exit(id)]).counter == g.counter
    ensures Run(g, [Enter(id, configured), Exit(id)]).inFlight == g.inFlight
    ensures Run(g, [Enter(id, configured), Exit(id)]).admitted == g.admitted
  {
    var s := Step(g, Enter(id, configured));
    assert id !in g.admitted;
    assert s.inFlight - multiset{id} == g.inFlight;
    assert s.admitted - multiset{id} == g.admitted;
    assert Run(g, [Enter(id, configured), Exit(id)]) == Run(s, [Exit(id)]);
  }

  /** With an unlimited ceiling, no request is rejected while fewer than
      `int.MaxValue` are in flight. */
  lemma UnlimitedAdmitsAll(g: Gate, configured: int)
    requires configured <= 0 && g.counter < IntMaxValue
    ensures !Rejects(g, configured)
  {
  }

  /** The scenarios of the stage's tests: with a ceiling of 1 the second of two
      overlapping requests is rejected; with 2 or with 0 both are let through. */
  lemma TwoOverlappingRequests()
    ensures !Rejects(Initial(), 1) && Rejects(Step(Initial(), Enter(1, 1)), 1)
    ensures !Rejects(Initial(), 2) && !Rejects(Step(Initial(), Enter(1, 2)), 2)
    ensures !Rejects(Initial(), 0) && !Rejects(Step(Initial(), Enter(1, 0)), 0)
  {
  }

  /** The stage as an object: the counter is a field updated in place. */
  class ConcurrencyGate {
    var concurrentRequestCounter: int
    ghost var inFlight: multiset<nat>
    ghost var admitted: multiset<nat>

    ghost function State(): Gate
      reads this
    {
      Gate(concurrentRequestCounter, inFlight, admitted)
    }

    ghost predicate Valid()
      reads this
    {
      Consistent(State())
    }

    constructor ()
      ensures State() == Initial() && Valid()
    {
      concurrentRequestCounter := 0;
      inFlight := multiset{};
      admitted := multiset{};
    }

    /** The increment on entry and the check against the ceiling. */
    method Enter(id: nat, configured: int) returns (rejected: bool)
      requires Valid()
      modifies this
      ensures Valid()
      ensures State() == Step(old(State()), Event.Enter(id, configured))
      ensures rejected <==> concurrentRequestCounter > EffectiveCeiling(configured)
    {
      var maxConcurrentRequests := configured;
      if maxConcurrentRequests <= 0 {
        maxConcurrentRequests := IntMaxValue;
      }
      ghost var before := State();
      concurrentRequestCounter := concurrentRequestCounter + 1;
      inFlight := inFlight + multiset{id};
      rejected := concurrentRequestCounter > maxConcurrentRequests;
      if !rejected {
        admitted := admitted + multiset{id};
      }
      StepConsistent(before, Event.Enter(id, configured));
    }

    /** The decrement in the `finally` block. */
    method Exit(id: nat)
      requires Valid() && id in inFlight
      modifies this
      ensures Valid()
      ensures State() == Step(old(State()), Event.Exit(id))
      ensures concurrentRequestCounter == old(concurrentRequestCounter) - 1
    {
      ghost var before := State();
      concurrentRequestCounter := concurrentRequestCounter - 1;
      inFlight := inFlight - multiset{id};
      admitted := admitted - multiset{id};
      StepConsistent(before, Event.Exit(id));
    }

    /** One request through the stage when no other request overlaps it: 503
      when rejected, otherwise whatever the downstream stages answer. The
      counter and the sets are left as they were. */
    method Handle(id: nat, configured: int, downstreamStatus: int) returns (status: int)
      requires Valid() && id !in inFlight
      modifies this
      ensures Valid()
      ensures State() == old(State())
      ensures status == (if old(concurrentRequestCounter) + 1 > EffectiveCeiling(configured) then ServiceUnavailable else downstreamStatus)
    {
      var rejected := Enter(id, configured);
      if rejected {
        status := ServiceUnavailable;
      } else {
        status := downstreamStatus;
      }
      Exit(id);
      AddThenRemove(old(inFlight), id);
      AddThenRemove(old(admitted), id);
      assert id !in old(admitted);
      RemoveAbsent(old(admitted), id);
    }
  }

  /** Two requests that overlap: the first is still in flight when the second
      arrives. The downstream stages answer 200. */
  method OverlappingRequests(configured: int) returns (first: int, second: int)
    ensures first == 200
    ensures second == ServiceUnavailable <==> configured == 1
    ensures second == 200 <==> configured != 1
  {
    var gate := new ConcurrencyGate();
    var rejected1 := gate.Enter(1, configured);
    first := if rejected1 then ServiceUnavailable else 200;
    second := gate.Handle(2, configured, 200);
    gate.Exit(1);
  }
}
