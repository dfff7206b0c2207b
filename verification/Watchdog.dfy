/** The timeout watchdog of LocalDuckDBExecutor::Execute (src/execution/query_executor.cpp): the thread that runs
    the query and the thread that waits on the condition variable, step by step. */
module Watchdog {
  /** Where the querying thread is. It holds the mutex in Storing and Unlocking. */
  datatype Main = Querying | Completed | Storing | Unlocking | Notifying | Joining | Returned

  /** Where the watchdog is. It holds the mutex in Checking, Judging, Interrupting and Leaving; in Woken it has been
      woken, by the deadline or otherwise, and must take the mutex again. */
  datatype Dog = Starting | Checking | Waiting | Woken(timedOut: bool) | Judging | Interrupting | Leaving | Gone

  datatype Owner = Free | ByMain | ByDog

  datatype State = State(main: Main, dog: Dog, owner: Owner, done: bool, expired: bool, interrupts: nat)

  datatype Event =
    | Finish | LockMain | SetDone | UnlockMain | Notify | Join
    | LockDog(late: bool) | Check | Spurious | TimeOut | Judge | Interrupt | UnlockDog
    | Expire

  const START: State := State(Querying, Starting, Free, false, false, 0)

  predicate Enabled(s: State, e: Event) {
    match e
    case Finish => s.main == Querying
    case LockMain => s.main == Completed && s.owner == Free
    case SetDone => s.main == Storing
    case UnlockMain => s.main == Unlocking
    case Notify => s.main == Notifying
    case Join => s.main == Joining && s.dog == Gone
    case LockDog(late) =>
      && (s.dog == Starting || s.dog.Woken?) && s.owner == Free
      && (late ==> s.expired && s.dog.Woken?) && (s.dog == Woken(true) ==> late)
    case Check => s.dog == Checking
    case Spurious => s.dog == Waiting
    case TimeOut => s.dog == Waiting && s.expired
    case Judge => s.dog == Judging
    case Interrupt => s.dog == Interrupting
    case UnlockDog => s.dog == Leaving
    case Expire => !s.expired
  }

  /** `late` is a wait that reports a timeout: the predicate is then evaluated for the last time. */
  function Step(s: State, e: Event): State
    requires Enabled(s, e)
  {
    match e
    case Finish => s.(main := Completed)
    case LockMain => s.(main := Storing, owner := ByMain)
    case SetDone => s.(main := Unlocking, done := true)
    case UnlockMain => s.(main := Notifying, owner := Free)
    case Notify => s.(main := Joining, dog := if s.dog == Waiting then Woken(false) else s.dog)
    case Join => s.(main := Returned)
    case LockDog(late) => s.(dog := if late then Judging else Checking, owner := ByDog)
    case Check => if s.done then s.(dog := Leaving) else s.(dog := Waiting, owner := Free)
    case Spurious => s.(dog := Woken(false))
    case TimeOut => s.(dog := Woken(true))
    case Judge => s.(dog := if s.done then Leaving else Interrupting)
    case Interrupt => s.(dog := Leaving, interrupts := s.interrupts + 1)
    case UnlockDog => s.(dog := Gone, owner := Free)
    case Expire => s.(expired := true)
  }

  predicate Moves(s: State, e: Event, next: State) {
    Enabled(s, e) && Step(s, e) == next
  }

  predicate Possible(s: State, es: seq<Event>)
    decreases |es|
  {
    es == [] || (Enabled(s, es[0]) && Possible(Step(s, es[0]), es[1..]))
  }

  function After(s: State, es: seq<Event>): State
    requires Possible(s, es)
    decreases |es|
  {
    if es == [] then s else After(Step(s, es[0]), es[1..])
  }

  predicate Invariant(s: State) {
    && (s.owner == ByMain <==> s.main in {Storing, Unlocking})
    && (s.owner == ByDog <==> s.dog in {Checking, Judging, Interrupting, Leaving})
    && (s.done <==> s.main in {Unlocking, Notifying, Joining, Returned})
    && (s.dog == Waiting && s.done ==> s.main in {Unlocking, Notifying})
    && (s.dog == Interrupting ==> !s.done)
    && (s.main == Returned ==> s.dog == Gone)
    && (s.dog in {Leaving, Gone} ==> s.done || s.interrupts == 1)
    && s.interrupts <= (if s.dog in {Leaving, Gone} then 1 else 0)
    && (s.dog in {Woken(true), Judging, Interrupting} || s.interrupts > 0 ==> s.expired)
  }

  lemma StepKeeps(s: State, e: Event)
    requires Invariant(s) && Enabled(s, e)
    ensures Invariant(Step(s, e))
  {
  }

  lemma {:induction false} RunKeeps(s: State, es: seq<Event>)
    requires Invariant(s) && Possible(s, es)
    ensures Invariant(After(s, es))
    decreases |es|
  {
    hide Invariant;
    if es != [] {
      StepKeeps(s, es[0]);
      RunKeeps(Step(s, es[0]), es[1..]);
    }
  }

  // ----- safety

  /** Whatever the interleaving: at most one interrupt, only past the deadline, only while `done` is unset and hence
      before Execute returns; and once Execute has returned the watchdog is gone. */
  lemma InterruptsAreTimely(es: seq<Event>)
    requires Possible(START, es)
    ensures var s := After(START, es);
            && s.interrupts <= 1 && (s.interrupts == 1 ==> s.expired)
            && (Enabled(s, Interrupt) ==> !s.done && s.expired && s.main in {Querying, Completed})
            && (s.main == Returned ==> s.dog == Gone && forall e | Enabled(s, e) :: e == Expire)
  {
    RunKeeps(START, es);
  }

  /** `done` is never taken back, so no interrupt follows it in any run. */
  lemma {:induction false} NoInterruptAfterDone(s: State, es: seq<Event>)
    requires Invariant(s) && s.done && Possible(s, es)
    ensures Interrupt !in es && After(s, es).done && After(s, es).interrupts == s.interrupts
    decreases |es|
  {
    hide Invariant;
    if es != [] {
      DoneStays(s, es[0]);
      StepKeeps(s, es[0]);
      NoInterruptAfterDone(Step(s, es[0]), es[1..]);
      assert es == [es[0]] + es[1..];
    }
  }

  lemma DoneStays(s: State, e: Event)
    requires Invariant(s) && s.done && Enabled(s, e)
    ensures e != Interrupt && Step(s, e).done && Step(s, e).interrupts == s.interrupts
  {
  }

  /** The flag is set after the query returns, so an interrupt can still land on a query that has completed. */
  lemma InterruptAfterCompletion() returns (es: seq<Event>)
    ensures Possible(START, es) && After(START, es).main == Completed && After(START, es).interrupts == 1
  {
    hide Possible, After, Moves;
    LateMoves();
    Nothing(State(Completed, Leaving, ByDog, false, true, 1));
    es := Prepended(State(Completed, Interrupting, ByDog, false, true, 0), Interrupt, State(Completed, Leaving, ByDog, false, true, 1), []);
    es := Prepended(State(Querying, Interrupting, ByDog, false, true, 0), Finish, State(Completed, Interrupting, ByDog, false, true, 0), es);
    es := Prepended(State(Querying, Judging, ByDog, false, true, 0), Judge, State(Querying, Interrupting, ByDog, false, true, 0), es);
    es := Prepended(State(Querying, Woken(true), Free, false, true, 0), LockDog(true), State(Querying, Judging, ByDog, false, true, 0), es);
    es := Prepended(State(Querying, Waiting, Free, false, true, 0), TimeOut, State(Querying, Woken(true), Free, false, true, 0), es);
    es := Prepended(State(Querying, Waiting, Free, false, false, 0), Expire, State(Querying, Waiting, Free, false, true, 0), es);
    es := Prepended(State(Querying, Checking, ByDog, false, false, 0), Check, State(Querying, Waiting, Free, false, false, 0), es);
    es := Prepended(START, LockDog(false), State(Querying, Checking, ByDog, false, false, 0), es);
  }

  lemma LateMoves()
    ensures Moves(START, LockDog(false), State(Querying, Checking, ByDog, false, false, 0))
    ensures Moves(State(Querying, Checking, ByDog, false, false, 0), Check, State(Querying, Waiting, Free, false, false, 0))
    ensures Moves(State(Querying, Waiting, Free, false, false, 0), Expire, State(Querying, Waiting, Free, false, true, 0))
    ensures Moves(State(Querying, Waiting, Free, false, true, 0), TimeOut, State(Querying, Woken(true), Free, false, true, 0))
    ensures Moves(State(Querying, Woken(true), Free, false, true, 0), LockDog(true), State(Querying, Judging, ByDog, false, true, 0))
    ensures Moves(State(Querying, Judging, ByDog, false, true, 0), Judge, State(Querying, Interrupting, ByDog, false, true, 0))
    ensures Moves(State(Querying, Interrupting, ByDog, false, true, 0), Finish, State(Completed, Interrupting, ByDog, false, true, 0))
    ensures Moves(State(Completed, Interrupting, ByDog, false, true, 0), Interrupt, State(Completed, Leaving, ByDog, false, true, 1))
  {
  }

  lemma Prepended(s: State, e: Event, next: State, es: seq<Event>) returns (all: seq<Event>)
    requires Moves(s, e, next) && Possible(next, es)
    ensures Possible(s, all) && After(s, all) == After(next, es)
  {
    all := [e] + es;
    assert all[1..] == es;
  }

  lemma Nothing(s: State)
    ensures Possible(s, []) && After(s, []) == s
  {
  }

  // ----- progress

  /** Steps that either thread can be relied on to take; spurious wakeups and the clock are not among them. */
  predicate IsOwnStep(e: Event) {
    e != Spurious && e != Expire
  }

  /** No deadlock and no missed wakeup: until Execute returns, some thread can take a step of its own. */
  lemma SomeThreadCanMove(es: seq<Event>)
    requires Possible(START, es) && After(START, es).main != Returned
    ensures exists e :: IsOwnStep(e) && Enabled(After(START, es), e)
  {
    RunKeeps(START, es);
    var s := After(START, es);
    var mine :=
      match s.main
      case Querying => Finish
      case Completed => LockMain
      case Storing => SetDone
      case Unlocking => UnlockMain
      case Notifying => Notify
      case Joining => Join
      case Returned => Expire;
    var dogs :=
      match s.dog
      case Starting => LockDog(false)
      case Checking => Check
      case Waiting => TimeOut
      case Woken(late) => LockDog(late)
      case Judging => Judge
      case Interrupting => Interrupt
      case Leaving => UnlockDog
      case Gone => Join;
    assert Enabled(s, mine) || Enabled(s, dogs);
  }

  function MainRank(m: Main): nat {
    match m
    case Querying => 8
    case Completed => 7
    case Storing => 6
    case Unlocking => 5
    case Notifying => 4
    case Joining => 1
    case Returned => 0
  }

  function DogRank(d: Dog): nat {
    match d
    case Starting => 8
    case Checking => 7
    case Waiting => 6
    case Woken(late) => if late then 4 else 8
    case Judging => 3
    case Interrupting => 2
    case Leaving => 1
    case Gone => 0
  }

  function Rank(s: State): nat {
    MainRank(s.main) + DogRank(s.dog) + if s.expired then 0 else 1
  }

  function SpuriousIn(es: seq<Event>): nat {
    if es == [] then 0 else (if es[0] == Spurious then 1 else 0) + SpuriousIn(es[1..])
  }

  lemma {:induction false} RunIsBounded(s: State, es: seq<Event>)
    requires Possible(s, es)
    ensures |es| + Rank(After(s, es)) <= Rank(s) + 3 * SpuriousIn(es)
    decreases |es|
  {
    if es != [] {
      assert Rank(Step(s, es[0])) + 1 <= Rank(s) + if es[0] == Spurious then 3 else 0;
      RunIsBounded(Step(s, es[0]), es[1..]);
    }
  }

  /** Every run is finite, three more steps allowed for each spurious wakeup, and a run that cannot go on has
      returned: the join always gets its wakeup. */
  lemma ExecuteReturns(es: seq<Event>)
    requires Possible(START, es)
    ensures |es| <= 17 + 3 * SpuriousIn(es)
    ensures (forall e | IsOwnStep(e) :: !Enabled(After(START, es), e)) ==> After(START, es).main == Returned
  {
    RunIsBounded(START, es);
    if After(START, es).main != Returned {
      SomeThreadCanMove(es);
    }
  }

  /** A query that does not finish by itself is interrupted: when only the query itself could still move, the
      watchdog has fired. */
  lemma HangingQueryIsInterrupted(es: seq<Event>)
    requires Possible(START, es) && After(START, es).main == Querying
    requires forall e | e != Finish && e != Spurious :: !Enabled(After(START, es), e)
    ensures After(START, es).interrupts == 1
  {
    hide Possible, After, Step;
    RunKeeps(START, es);
    var s := After(START, es);
    assert !Enabled(s, Expire) && !Enabled(s, TimeOut) && !Enabled(s, Check) && !Enabled(s, Judge) && !Enabled(s, Interrupt);
    assert !Enabled(s, LockDog(false)) && !Enabled(s, LockDog(true)) && !Enabled(s, UnlockDog);
  }

  // ----- exactly when an interrupt can land on a completed query

  /** Some run from here reaches the interrupt with the query completed. */
  ghost predicate CanLandLate(s: State) {
    exists es :: LandsLate(s, es)
  }

  predicate LandsLate(s: State, es: seq<Event>) {
    Possible(s, es) && After(s, es).main == Completed && Enabled(After(s, es), Interrupt)
  }

  /** The flag is not being set yet and the watchdog has not decided yet. */
  predicate IsUndecided(s: State) {
    s.main in {Querying, Completed} && s.dog !in {Leaving, Gone}
  }

  lemma {:induction false} LandsWhileUndecided(s: State, es: seq<Event>)
    requires LandsLate(s, es)
    ensures IsUndecided(s)
    decreases |es|
  {
    if es != [] {
      LandsWhileUndecided(Step(s, es[0]), es[1..]);
    }
  }

  /** The step towards the interrupt: the query completes, the deadline passes, the watchdog goes on. */
  function Towards(s: State): Event {
    if s.main == Querying then Finish
    else if !s.expired then Expire
    else
      match s.dog
      case Starting => LockDog(false)
      case Checking => Check
      case Waiting => TimeOut
      case Woken(_) => LockDog(true)
      case Judging => Judge
      case Interrupting => Interrupt
      case Leaving => UnlockDog
      case Gone => Expire
  }

  lemma TowardsApproaches(s: State)
    requires Invariant(s) && IsUndecided(s) && !(s.main == Completed && s.dog == Interrupting)
    ensures Enabled(s, Towards(s)) && IsUndecided(Step(s, Towards(s))) && Rank(Step(s, Towards(s))) < Rank(s)
  {
  }

  lemma LateRun(s: State) returns (es: seq<Event>)
    requires Invariant(s) && IsUndecided(s)
    ensures LandsLate(s, es)
    decreases Rank(s)
  {
    if s.main == Completed && s.dog == Interrupting {
      Nothing(s);
      return [];
    }
    hide Possible, After, Invariant, IsUndecided, Rank, Enabled, Step, Towards;
    TowardsApproaches(s);
    var next := Step(s, Towards(s));
    StepKeeps(s, Towards(s));
    var rest := LateRun(next);
    assert Moves(s, Towards(s), next);
    es := Prepended(s, Towards(s), next, rest);
  }

  /** In every state of every run: an interrupt can still land on a completed query if and only if the querying thread
      has not taken the mutex to set the flag and the watchdog has not made its last decision. */
  lemma LateInterruptExact(s: State)
    requires Invariant(s)
    ensures CanLandLate(s) <==> IsUndecided(s)
  {
    hide LandsLate, IsUndecided, Invariant;
    if IsUndecided(s) {
      var es := LateRun(s);
    }
    forall es | LandsLate(s, es) ensures IsUndecided(s) {
      LandsWhileUndecided(s, es);
    }
  }

  /** The same along every run from the start. */
  lemma LateInterruptInRuns(es: seq<Event>)
    requires Possible(START, es)
    ensures CanLandLate(After(START, es)) <==> IsUndecided(After(START, es))
  {
    hide CanLandLate, IsUndecided;
    RunKeeps(START, es);
    LateInterruptExact(After(START, es));
  }
}
