/**
 * scope_runner: the counter that lets handlers in and lets stop() wait for them. Any number of
 * threads and calls run at once, one atomic access per step, and a weak compare-exchange may fail
 * for no reason.
 */
module Gate {

  /** Where one call of continue_lock (with the lock it returned) or of stop stands. */
  datatype Call =
    | Loaded(expected: int)  // continue_lock before its next loop test
    | Holding                // its shared_lock is alive
    | Refused                // it returned nullptr
    | Released
    | Stopping               // stop before its next compare-exchange
    | Stopped                // stop has returned

  datatype State = State(count: int, calls: map<nat, Call>)

  datatype Step =
    | EnterLock(c: nat)
    | TryLock(c: nat, spurious: bool)
    | Release(c: nat)
    | EnterStop(c: nat)
    | TryStop(c: nat, spurious: bool)

  const INITIAL := State(0, map[])

  function At(s: State, c: nat): Call
    requires c in s.calls
  {
    s.calls[c]
  }

  function Move(s: State, c: nat, to: Call): State {
    s.(calls := s.calls[c := to])
  }

  /** One step; a step that is not enabled changes nothing. */
  function Apply(s: State, step: Step): State {
    match step
    case EnterLock(c) =>
      if c in s.calls then s else Move(s, c, Loaded(s.count))
    case TryLock(c, spurious) =>
      if c !in s.calls || !At(s, c).Loaded? then s
      else
        var expected := At(s, c).expected;
        if expected < 0 then Move(s, c, Refused)
        else if s.count == expected && !spurious then Move(s, c, Holding).(count := expected + 1)
        else Move(s, c, Loaded(s.count))
    case Release(c) =>
      if c !in s.calls || At(s, c) != Holding then s
      else Move(s, c, Released).(count := s.count - 1)
    case EnterStop(c) =>
      if c in s.calls then s else Move(s, c, Stopping)
    case TryStop(c, spurious) =>
      if c !in s.calls || At(s, c) != Stopping then s
      else if s.count == 0 && !spurious then Move(s, c, Stopped).(count := -1)
      else if s.count < 0 then Move(s, c, Stopped)
      else s
  }

  function Run(s: State, steps: seq<Step>): State
    decreases |steps|
  {
    if steps == [] then s else Run(Apply(s, steps[0]), steps[1..])
  }

  function Holders(s: State): set<nat> {
    set c | c in s.calls && s.calls[c] == Holding
  }

  /** The counter is the number of live locks, or -1 with none live. */
  ghost predicate Inv(s: State) {
    && (s.count == |Holders(s)| || (s.count == -1 && Holders(s) == {}))
    && (s.count >= 0 ==> forall c :: c in s.calls ==> Undecided(s.calls[c]))
  }

  /** No trace of a stop: not returned from one, not refused by one, not about to be. */
  predicate Undecided(c: Call) {
    c != Stopped && c != Refused && (c.Loaded? ==> c.expected >= 0)
  }

  lemma HoldersMove(s: State, c: nat, to: Call)
    ensures Holders(Move(s, c, to)) == if to == Holding then Holders(s) + {c} else Holders(s) - {c}
  {
  }

  /** A call that neither takes nor gives back a lock. */
  lemma QuietKeeps(s: State, c: nat, to: Call)
    requires Inv(s) && to != Holding && (c in s.calls ==> s.calls[c] != Holding)
    requires s.count >= 0 ==> Undecided(to)
    ensures Inv(Move(s, c, to))
  {
    HoldersMove(s, c, to);
    assert Holders(s) - {c} == Holders(s);
  }

  lemma GrantKeeps(s: State, c: nat)
    requires Inv(s) && s.count >= 0 && c in s.calls && s.calls[c] != Holding
    ensures Inv(Move(s, c, Holding).(count := s.count + 1))
  {
    HoldersMove(s, c, Holding);
    assert Holders(Move(s, c, Holding).(count := s.count + 1)) == Holders(Move(s, c, Holding));
    assert c !in Holders(s);
  }

  lemma ReleaseKeeps(s: State, c: nat)
    requires Inv(s) && c in s.calls && s.calls[c] == Holding
    ensures Inv(Move(s, c, Released).(count := s.count - 1))
  {
    HoldersMove(s, c, Released);
    assert Holders(Move(s, c, Released).(count := s.count - 1)) == Holders(Move(s, c, Released));
    assert c in Holders(s);
  }

  lemma CloseKeeps(s: State, c: nat)
    requires Inv(s) && c in s.calls && s.calls[c] == Stopping && s.count == 0
    ensures Inv(Move(s, c, Stopped).(count := -1))
  {
    HoldersMove(s, c, Stopped);
    assert Holders(Move(s, c, Stopped).(count := -1)) == Holders(Move(s, c, Stopped));
  }

  lemma StepKeepsInv(s: State, step: Step)
    requires Inv(s)
    ensures Inv(Apply(s, step))
  {
    var c := step.c;
    var t := Apply(s, step);
    if t != s {
      if step.TryLock? && t.count == s.count + 1 {
        GrantKeeps(s, c);
      } else if step.Release? {
        ReleaseKeeps(s, c);
      } else if step.TryStop? && s.count == 0 {
        CloseKeeps(s, c);
      } else {
        QuietKeeps(s, c, t.calls[c]);
      }
    }
  }

  lemma {:induction false} RunKeepsInv(s: State, steps: seq<Step>)
    requires Inv(s)
    ensures Inv(Run(s, steps))
    decreases |steps|
  {
    if steps != [] {
      StepKeepsInv(s, steps[0]);
      RunKeepsInv(Apply(s, steps[0]), steps[1..]);
    }
  }

  /**
   * In every run, however calls interleave: the counter is the number of live locks or it is -1
   * with none live; a call is refused, and a stop returns, only when it is -1.
   */
  lemma CounterMeansLocks(steps: seq<Step>)
    ensures var s := Run(INITIAL, steps);
      && (s.count == |Holders(s)| || (s.count == -1 && Holders(s) == {}))
      && (forall c :: c in s.calls && (s.calls[c] == Refused || s.calls[c] == Stopped) ==> s.count == -1)
  {
    assert Holders(INITIAL) == {};
    RunKeepsInv(INITIAL, steps);
  }

  lemma {:induction false} StoppedForGood(s: State, steps: seq<Step>)
    requires Inv(s) && s.count == -1
    ensures Run(s, steps).count == -1 && Holders(Run(s, steps)) == {}
    ensures Inv(Run(s, steps))
    decreases |steps|
  {
    if steps != [] {
      var t := Apply(s, steps[0]);
      StepKeepsInv(s, steps[0]);
      var c := steps[0].c;
      assert c in s.calls && s.calls[c] == Holding ==> c in Holders(s);
      StoppedForGood(t, steps[1..]);
    }
  }

  /** Once a stop has returned, no lock is live and none is granted in any continuation. */
  lemma StopIsFinal(before: seq<Step>, c: nat, after: seq<Step>)
    requires var s := Run(INITIAL, before); c in s.calls && s.calls[c] == Stopped
    ensures Holders(Run(Run(INITIAL, before), after)) == {}
    ensures Run(Run(INITIAL, before), after).count == -1
  {
    var s := Run(INITIAL, before);
    assert Holders(INITIAL) == {};
    RunKeepsInv(INITIAL, before);
    assert s.count == -1;
    StoppedForGood(s, after);
  }

  /** stop() cannot get past a live lock: while one is held, no attempt of any stop returns. */
  lemma StopWaits(steps: seq<Step>, holder: nat, c: nat, spurious: bool)
    requires var s := Run(INITIAL, steps);
      holder in s.calls && s.calls[holder] == Holding && c in s.calls && s.calls[c] == Stopping
    ensures var s := Run(INITIAL, steps); Apply(s, TryStop(c, spurious)) == s
  {
    var s := Run(INITIAL, steps);
    assert Holders(INITIAL) == {};
    RunKeepsInv(INITIAL, steps);
    assert holder in Holders(s);
  }

  // ----- against the calls themselves -----

  lemma {:induction false} RunConcat(s: State, a: seq<Step>, b: seq<Step>)
    ensures Run(s, a + b) == Run(Run(s, a), b)
    decreases |a|
  {
    if a == [] {
      assert a + b == b;
    } else {
      assert (a + b)[0] == a[0] && (a + b)[1..] == a[1..] + b;
      RunConcat(Apply(s, a[0]), a[1..], b);
    }
  }

  lemma RunOne(s: State, step: Step)
    ensures Run(s, [step]) == Apply(s, step)
  {
    assert [step][1..] == [];
  }

  /** The compare-exchange of call `c` succeeds: the counter is as the call last saw it, and open. */
  predicate Grants(s: State, step: Step) {
    && step.TryLock? && !step.spurious && step.c in s.calls
    && s.calls[step.c].Loaded? && 0 <= s.calls[step.c].expected == s.count
  }

  /** The locks granted in a run and not given back, from the steps and the grants. */
  function Granted(steps: seq<Step>): set<nat>
    decreases |steps|
  {
    if steps == [] then {}
    else
      var before, last := steps[..|steps| - 1], steps[|steps| - 1];
      if Grants(Run(INITIAL, before), last) then Granted(before) + {last.c}
      else if last.Release? then Granted(before) - {last.c}
      else Granted(before)
  }

  /** The live locks are those granted and not given back, and the counter counts them. */
  lemma {:induction false} LiveLocksAreGranted(steps: seq<Step>)
    ensures var s := Run(INITIAL, steps);
      Holders(s) == Granted(steps) && (s.count == |Granted(steps)| || (s.count == -1 && Granted(steps) == {}))
    decreases |steps|
  {
    assert Holders(INITIAL) == {};
    RunKeepsInv(INITIAL, steps);
    if steps != [] {
      var before, last := steps[..|steps| - 1], steps[|steps| - 1];
      LiveLocksAreGranted(before);
      assert steps == before + [last];
      RunConcat(INITIAL, before, [last]);
      RunOne(Run(INITIAL, before), last);
      StepMovesLock(Run(INITIAL, before), last);
    }
  }

  lemma StepMovesLock(s: State, step: Step)
    ensures Holders(Apply(s, step)) ==
      if Grants(s, step) then Holders(s) + {step.c}
      else if step.Release? then Holders(s) - {step.c}
      else Holders(s)
  {
  }

  function Releases(order: seq<nat>): seq<Step> {
    if order == [] then [] else [Release(order[0])] + Releases(order[1..])
  }

  lemma {:induction false} ReleaseAll(s: State, order: seq<nat>)
    requires forall c :: c in s.calls && s.calls[c] == Holding ==> c in order
    ensures var t := Run(s, Releases(order));
      && Holders(t) == {}
      && (forall c :: c in s.calls && s.calls[c] != Holding ==> c in t.calls && t.calls[c] == s.calls[c])
    decreases |order|
  {
    if order != [] {
      assert forall c :: c in order ==> c == order[0] || c in order[1..];
      assert ([Release(order[0])] + Releases(order[1..]))[1..] == Releases(order[1..]);
      ReleaseAll(Apply(s, Release(order[0])), order[1..]);
    }
  }

  /**
   * A stop, already waiting or new, returns as soon as every lock has been given back: in any
   * reachable state, after the holders' releases in any order, its next attempt succeeds for good.
   */
  lemma StopCompletes(steps: seq<Step>, c: nat, order: seq<nat>)
    requires var s := Run(INITIAL, steps);
      && (c in s.calls ==> s.calls[c] == Stopping)
      && forall h :: h in s.calls && s.calls[h] == Holding ==> h in order
    ensures var t := Run(INITIAL, steps + ([EnterStop(c)] + Releases(order)) + [TryStop(c, false)]);
      c in t.calls && t.calls[c] == Stopped && t.count == -1 && Holders(t) == {}
  {
    var s := Run(INITIAL, steps);
    var more := [EnterStop(c)] + Releases(order);
    assert more[1..] == Releases(order);
    RunConcat(INITIAL, steps, more);
    ReleaseAll(Apply(s, EnterStop(c)), order);
    StopReturns(steps + more, c, false);
    RunConcat(INITIAL, steps + more, [TryStop(c, false)]);
    RunOne(Run(INITIAL, steps + more), TryStop(c, false));
    assert Holders(INITIAL) == {};
    RunKeepsInv(INITIAL, steps + more + [TryStop(c, false)]);
  }

  /**
   * And no longer than that: with no lock live, the next attempt that is not spurious returns; and
   * once the gate is closed, any attempt does.
   */
  lemma StopReturns(steps: seq<Step>, c: nat, spurious: bool)
    requires var s := Run(INITIAL, steps);
      && c in s.calls && s.calls[c] == Stopping
      && (s.count == -1 || (Holders(s) == {} && !spurious))
    ensures var s := Run(INITIAL, steps);
      var t := Apply(s, TryStop(c, spurious)); t.calls[c] == Stopped && t.count == -1
  {
    assert Holders(INITIAL) == {};
    RunKeepsInv(INITIAL, steps);
  }

  /**
   * Undisturbed, continue_lock decides within two attempts, the first of which may be spurious, and
   * what it decides is whether the gate is open: a stale value only costs the first attempt.
   */
  lemma LockDecides(steps: seq<Step>, c: nat, spurious: bool)
    requires var s := Run(INITIAL, steps); c in s.calls && s.calls[c].Loaded?
    ensures var s := Run(INITIAL, steps);
      var t := Apply(Apply(s, TryLock(c, spurious)), TryLock(c, false));
      t.calls[c] == (if s.count == -1 then Refused else Holding)
      && t.count == (if s.count == -1 then -1 else s.count + 1)
  {
    assert Holders(INITIAL) == {};
    RunKeepsInv(INITIAL, steps);
  }

  /** A new call that nothing disturbs decides at its first attempt. */
  lemma NewCallDecides(steps: seq<Step>, c: nat)
    requires c !in Run(INITIAL, steps).calls
    ensures var s := Run(INITIAL, steps);
      var t := Apply(Apply(s, EnterLock(c)), TryLock(c, false));
      t == State(if s.count == -1 then -1 else s.count + 1,
                 s.calls[c := if s.count == -1 then Refused else Holding])
  {
    assert Holders(INITIAL) == {};
    RunKeepsInv(INITIAL, steps);
  }

  /** A spurious failure is just one attempt more: it grants nothing and moves nothing else. */
  lemma SpuriousCostsOneAttempt(s: State, c: nat)
    requires c in s.calls
    ensures var t := Apply(s, TryLock(c, true));
      && t.count == s.count && Holders(t) == Holders(s)
      && forall d :: d in s.calls && d != c ==> d in t.calls && t.calls[d] == s.calls[d]
    ensures Holders(Apply(s, TryStop(c, true))) == Holders(s) && Apply(s, TryStop(c, true)).count == s.count
  {
  }
}
