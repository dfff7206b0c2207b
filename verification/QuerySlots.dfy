/** The concurrent query slots of HandleODataRequest (src/server/odata_server.cpp): a shared counter taken with
    fetch_add, tested, and given back with fetch_sub, interleaved with restarts of the server. */
module QuerySlots {
  /** A request after its fetch_add: holding the value it read, past the gate, or refused and still to give back
      its increment. */
  datatype Phase = Counted(seen: int) | Running | Refused

  /** The counter, the limit (none unless positive) and the requests holding an increment, by thread. */
  datatype State = State(active: int, limit: int, threads: map<nat, Phase>)

  datatype Event = Add(t: nat) | Test(t: nat) | Release(t: nat) | Restart(limit: int)

  predicate Enabled(s: State, e: Event) {
    match e
    case Add(t) => t !in s.threads
    case Test(t) => t in s.threads && s.threads[t].Counted?
    case Release(t) => t in s.threads && !s.threads[t].Counted?
    case Restart(_) => true
  }

  /** One atomic step. A restart resets the counter whatever is in flight. */
  function Step(s: State, e: Event): State
    requires Enabled(s, e)
  {
    match e
    case Add(t) => s.(active := s.active + 1, threads := s.threads[t := Counted(s.active)])
    case Test(t) =>
      var refused := s.limit > 0 && s.threads[t].seen >= s.limit;
      s.(threads := s.threads[t := if refused then Refused else Running])
    case Release(t) => s.(active := s.active - 1, threads := s.threads - {t})
    case Restart(limit) => s.(active := 0, limit := limit)
  }

  /** The events can happen one after the other. */
  predicate Possible(s: State, es: seq<Event>)
    decreases |es|
  {
    es == [] || (Enabled(s, es[0]) && Possible(Step(s, es[0]), es[1..]))
  }

  function After(s: State, es: seq<Event>): State
    requires Possible(s, es)
    decreases |es|
  {
    if es == [] then s else After(Step(s, es[0]), es[1..])
  }

  function Past(s: State): set<nat> {
    set t | t in s.threads && s.threads[t].Running?
  }

  /** Past the gate, or bound to pass it. */
  function Passing(s: State): set<nat> {
    set t | t in s.threads && (s.threads[t].Running? || (s.threads[t].Counted? && s.threads[t].seen < s.limit))
  }

  /** The counter is short of the requests in flight by `drift`, and the gate is exceeded by no more than that. */
  ghost predicate Invariant(s: State, drift: nat) {
    && s.active == |s.threads| - drift
    && (s.limit > 0 ==> |Passing(s)| <= s.limit + drift)
  }

  function Initial(limit: int): State {
    State(0, limit, map[])
  }

  /** The requests in flight at the last restart. */
  function Drift(s: State, es: seq<Event>, drift: nat): nat
    requires Possible(s, es)
    decreases |es|
  {
    if es == [] then drift
    else Drift(Step(s, es[0]), es[1..], if es[0].Restart? then |s.threads| else drift)
  }

  lemma Subset(a: set<nat>, b: set<nat>)
    requires a <= b
    ensures |a| <= |b|
  {
    assert b == a + (b - a);
  }

  lemma AddKeeps(s: State, t: nat, drift: nat)
    requires Invariant(s, drift) && Enabled(s, Add(t))
    ensures Invariant(Step(s, Add(t)), drift)
  {
    var s' := Step(s, Add(t));
    Subset(Passing(s), s.threads.Keys);
    assert s'.threads.Keys == s.threads.Keys + {t};
    Subset(Passing(s'), Passing(s) + (if s.active < s.limit then {t} else {}));
  }

  lemma StepKeeps(s: State, e: Event, drift: nat)
    requires Invariant(s, drift) && Enabled(s, e)
    ensures Invariant(Step(s, e), if e.Restart? then |s.threads| else drift)
  {
    var s' := Step(s, e);
    match e
    case Add(t) => AddKeeps(s, t, drift);
    case Test(t) =>
      assert s'.threads.Keys == s.threads.Keys;
      if s.limit > 0 {
        Subset(Passing(s'), Passing(s));
      }
    case Release(t) =>
      assert s'.threads.Keys == s.threads.Keys - {t};
      Subset(Passing(s'), Passing(s));
    case Restart(_) =>
      Subset(Passing(s'), s.threads.Keys);
  }

  lemma {:induction false} RunKeeps(s: State, es: seq<Event>, drift: nat)
    requires Invariant(s, drift) && Possible(s, es)
    ensures Invariant(After(s, es), Drift(s, es, drift))
    decreases |es|
  {
    hide Invariant;
    if es != [] {
      StepKeeps(s, es[0], drift);
      RunKeeps(Step(s, es[0]), es[1..], if es[0].Restart? then |s.threads| else drift);
    }
  }

  /** Every interleaving of any number of requests and restarts: the counter is the number of requests in flight
      less those in flight at the last restart, and no more run than the limit plus that number. */
  lemma GateBound(limit: int, es: seq<Event>)
    requires Possible(Initial(limit), es)
    ensures var s, drift := After(Initial(limit), es), Drift(Initial(limit), es, 0);
            && s.active == |s.threads| - drift
            && (s.limit > 0 ==> |Past(s)| <= s.limit + drift)
  {
    RunKeeps(Initial(limit), es, 0);
    var s := After(Initial(limit), es);
    Subset(Past(s), Passing(s));
  }

  predicate NoRestart(es: seq<Event>) {
    forall i | 0 <= i < |es| :: !es[i].Restart?
  }

  lemma {:induction false} NoRestartNoDrift(s: State, es: seq<Event>, drift: nat)
    requires Possible(s, es) && NoRestart(es)
    ensures Drift(s, es, drift) == drift && After(s, es).limit == s.limit
    decreases |es|
  {
    if es != [] {
      NoRestartNoDrift(Step(s, es[0]), es[1..], drift);
    }
  }

  /** Without restarts the gate holds, the counter is exact, and it is zero when nothing is in flight. */
  lemma GateHolds(limit: int, es: seq<Event>)
    requires Possible(Initial(limit), es) && NoRestart(es)
    ensures var s := After(Initial(limit), es);
            && s.active == |s.threads| && (s.threads == map[] ==> s.active == 0)
            && (limit > 0 ==> |Past(s)| <= limit)
  {
    GateBound(limit, es);
    NoRestartNoDrift(Initial(limit), es, 0);
  }

  // ----- exactly when a restart is harmless

  lemma {:induction false} AfterCat(s: State, a: seq<Event>, b: seq<Event>)
    requires Possible(s, a) && Possible(After(s, a), b)
    ensures Possible(s, a + b) && After(s, a + b) == After(After(s, a), b)
    decreases |a|
  {
    if a == [] {
      assert a + b == b;
    } else {
      assert (a + b)[1..] == a[1..] + b;
      AfterCat(Step(s, a[0]), a[1..], b);
    }
  }

  /** Requests `first`, ..., `first + n - 1` taking a slot and testing it, one after the other. */
  function Arrivals(first: nat, n: nat): seq<Event> {
    if n == 0 then [] else Arrivals(first, n - 1) + [Add(first + n - 1), Test(first + n - 1)]
  }

  lemma {:induction false} ArrivalsPass(s: State, first: nat, n: nat)
    requires s.active + n <= s.limit && forall t | t in s.threads :: t < first
    ensures Possible(s, Arrivals(first, n)) && NoRestart(Arrivals(first, n))
    ensures var r := After(s, Arrivals(first, n));
            && r.active == s.active + n && r.limit == s.limit
            && (forall t | t in r.threads :: t < first + n)
            && (forall t | first <= t < first + n :: t in r.threads && r.threads[t].Running?)
  {
    if n > 0 {
      ArrivalsPass(s, first, n - 1);
      var t := first + n - 1;
      var r := After(s, Arrivals(first, n - 1));
      var q := Step(r, Add(t));
      assert Possible(q, [Test(t)]) && After(q, [Test(t)]) == Step(q, Test(t)) by { AfterOne(q, Test(t)); }
      assert [Add(t), Test(t)][1..] == [Test(t)];
      assert Possible(r, [Add(t), Test(t)]) && After(r, [Add(t), Test(t)]) == Step(q, Test(t));
      AfterCat(s, Arrivals(first, n - 1), [Add(t), Test(t)]);
    }
  }

  lemma AfterOne(s: State, e: Event)
    requires Enabled(s, e)
    ensures Possible(s, [e]) && After(s, [e]) == Step(s, e)
  {
    assert [e][1..] == [];
  }

  function Range(first: nat, n: nat): (r: set<nat>)
    ensures |r| == n && forall t :: t in r <==> first <= t < first + n
  {
    if n == 0 then {} else Range(first, n - 1) + {first + n - 1}
  }

  lemma AboveAll(threads: set<nat>) returns (b: nat)
    ensures forall t | t in threads :: t < b
  {
    if threads == {} {
      return 0;
    }
    var t :| t in threads;
    var c := AboveAll(threads - {t});
    assert forall x | x in threads :: x == t || x in threads - {t};
    b := if c <= t then t + 1 else c;
  }

  /** Whatever happens next, short of another restart, no more requests run than the limit. */
  ghost predicate KeepsGate(s: State) {
    forall es | Possible(s, es) && NoRestart(es) :: |Past(After(s, es))| <= s.limit
  }

  lemma QuietRestart(s: State, es: seq<Event>)
    requires s.threads == map[] && s.active == 0 && s.limit > 0 && Possible(s, es) && NoRestart(es)
    ensures |Past(After(s, es))| <= s.limit
  {
    assert Passing(s) == {};
    RunKeeps(s, es, 0);
    NoRestartNoDrift(s, es, 0);
    Subset(Past(After(s, es)), Passing(After(s, es)));
  }

  /** A request in flight when the counter is reset takes it below zero on its way out, and one request too many
      passes the gate. */
  lemma BusyRestart(s: State, t: nat)
    requires t in s.threads && s.active == 0 && s.limit > 0
    ensures !KeepsGate(s)
  {
    var leave := if s.threads[t].Counted? then [Test(t), Release(t)] else [Release(t)];
    Leaves(s, t);
    var left := After(s, leave);
    var first := AboveAll(s.threads.Keys);
    var n := s.limit + 1;
    ArrivalsPass(left, first, n);
    AfterCat(s, leave, Arrivals(first, n));
    var es := leave + Arrivals(first, n);
    Subset(Range(first, n), Past(After(s, es)));
    assert NoRestart(es);
  }

  lemma Leaves(s: State, t: nat)
    requires t in s.threads
    ensures var leave := if s.threads[t].Counted? then [Test(t), Release(t)] else [Release(t)];
            && Possible(s, leave) && NoRestart(leave)
            && var left := After(s, leave); left.active == s.active - 1 && left.limit == s.limit && left.threads.Keys <= s.threads.Keys
  {
    if s.threads[t].Counted? {
      AfterOne(Step(s, Test(t)), Release(t));
      assert [Test(t), Release(t)][1..] == [Release(t)];
    } else {
      AfterOne(s, Release(t));
    }
  }

  /** A restart under a limit leaves the gate tight for good if and only if no request is in flight. */
  lemma RestartExact(s: State, limit: int)
    requires limit > 0
    ensures KeepsGate(Step(s, Restart(limit))) <==> s.threads == map[]
  {
    var r := Step(s, Restart(limit));
    if s.threads == map[] {
      forall es | Possible(r, es) && NoRestart(es) ensures |Past(After(r, es))| <= r.limit {
        QuietRestart(r, es);
      }
    } else {
      var t :| t in s.threads;
      BusyRestart(r, t);
    }
  }

  // ----- exactly when a request is refused

  /** Requests in flight that are not past the gate: still untested, or refused and not yet gone. */
  function Waiting(s: State): set<nat> {
    set t | t in s.threads && !s.threads[t].Running?
  }

  lemma InFlight(s: State)
    ensures |s.threads| == |Past(s)| + |Waiting(s)|
  {
    assert s.threads.Keys == Past(s) + Waiting(s);
    assert Past(s) !! Waiting(s);
  }

  lemma {:induction false} LastStep(s: State, es: seq<Event>, e: Event)
    requires Possible(s, es + [e])
    ensures Possible(s, es) && Enabled(After(s, es), e) && After(s, es + [e]) == Step(After(s, es), e)
    decreases |es|
  {
    if es == [] {
      assert es + [e] == [e] && [e][1..] == [];
    } else {
      assert (es + [e])[1..] == es[1..] + [e];
      LastStep(Step(s, es[0]), es[1..], e);
    }
  }

  /** A request that has not been tested yet took its increment earlier in the run, was left alone since, and holds
      the value the counter had then. */
  lemma {:induction false} SeenAtAdd(s: State, es: seq<Event>, t: nat) returns (i: nat)
    requires s.threads == map[] && Possible(s, es)
    requires t in After(s, es).threads && After(s, es).threads[t].Counted?
    ensures i < |es| && es[i] == Add(t) && Test(t) !in es[i..]
    ensures Possible(s, es[..i]) && After(s, es).threads[t].seen == After(s, es[..i]).active
    decreases |es|
  {
    assert es != [];
    var n := |es| - 1;
    var e := es[n];
    assert es == es[..n] + [e];
    LastStep(s, es[..n], e);
    if e == Add(t) {
      i := n;
    } else {
      i := SeenAtAdd(s, es[..n], t);
      assert es[..n][..i] == es[..i] && es[i..] == es[..n][i..] + [e];
    }
  }

  /** Over every restart-free run: a request is refused at its test if and only if at least the limit's worth of
      increments were held when it took its own; that is, when the requests in flight but not past the gate then
      numbered at least the limit less those past it. */
  lemma RefusalExact(limit: int, es: seq<Event>, t: nat) returns (i: nat)
    requires limit > 0 && Possible(Initial(limit), es + [Test(t)]) && NoRestart(es)
    ensures i < |es| && es[i] == Add(t) && Test(t) !in es[i..] && Possible(Initial(limit), es[..i])
    ensures t in After(Initial(limit), es + [Test(t)]).threads
    ensures var atAdd, phase := After(Initial(limit), es[..i]), After(Initial(limit), es + [Test(t)]).threads[t];
            && (phase == Refused || phase == Running)
            && (phase == Refused <==> |atAdd.threads| >= limit)
            && (phase == Refused <==> |Waiting(atAdd)| >= limit - |Past(atAdd)|)
  {
    hide Possible, After;
    LastStep(Initial(limit), es, Test(t));
    i := SeenAtAdd(Initial(limit), es, t);
    GateHolds(limit, es[..i]);
    NoRestartNoDrift(Initial(limit), es, 0);
    InFlight(After(Initial(limit), es[..i]));
  }

  /** The gate can also refuse while nothing runs: a refused request still counts until it has given its increment
      back. */
  lemma RefusedWhileIdle()
    ensures var es := [Add(0), Test(0), Add(1), Release(0), Add(2), Test(2)];
            && Possible(Initial(1), es) && NoRestart(es)
            && Past(After(Initial(1), es)) == {} && After(Initial(1), es).threads[2] == Refused
  {
  }
}
