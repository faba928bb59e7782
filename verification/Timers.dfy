/**
 * timers.h: the single-shot timer, whose posted tasks carry the generation of their start, and the
 * periodical timer, which starts itself again before it calls back. Steps of one event loop: start
 * and stop from anywhere, also from inside a callback, and the deadline of any posted task.
 */
module Timers {

  /** What an observer sees. `id` is the generation of the start the event belongs to. */
  datatype Event = Started(id: int) | StopCalled | Rearmed(id: int) | Fired(id: int)

  /** `tasks` are the generations captured by the tasks the loop still holds. */
  datatype Timer = Timer(periodical: bool, value: int, tasks: seq<int>, log: seq<Event>)

  datatype Step = Start | Stop | Elapse(k: nat)

  function New(periodical: bool): Timer {
    Timer(periodical, 0, [], [])
  }

  function Post(t: Timer, e: int -> Event): Timer {
    var id := t.value + 1;
    t.(value := id, tasks := t.tasks + [id], log := t.log + [e(id)])
  }

  /** The deadline of task k: it calls back only if its generation is still the current one. */
  function ElapseTask(t: Timer, k: nat): Timer
    requires k < |t.tasks|
  {
    var id := t.tasks[k];
    var u := t.(tasks := t.tasks[..k] + t.tasks[k + 1..]);
    if id != t.value then u
    else
      var v := if t.periodical then Post(u, n => Rearmed(n)) else u;
      v.(log := v.log + [Fired(id)])
  }

  function Apply(t: Timer, step: Step): Timer {
    match step
    case Start => Post(t, n => Started(n))
    case Stop => t.(value := t.value + 1, log := t.log + [StopCalled])
    case Elapse(k) => if k < |t.tasks| then ElapseTask(t, k) else t
  }

  function Run(t: Timer, steps: seq<Step>): Timer
    decreases |steps|
  {
    if steps == [] then t else Run(Apply(t, steps[0]), steps[1..])
  }

  // ----- what the log should look like, without generations or tasks -----

  /** The start a firing would now belong to. */
  function Armed(periodical: bool, log: seq<Event>): set<int> {
    if log == [] then {}
    else match log[|log| - 1]
      case Started(id) => {id}
      case Rearmed(id) => {id}
      case StopCalled => {}
      case Fired(_) => if periodical then Armed(periodical, log[..|log| - 1]) else {}
  }

  /** The event at `i`, if a firing, belongs to the start that is armed at that moment. */
  predicate RightfulAt(periodical: bool, log: seq<Event>, i: nat)
    requires i < |log|
  {
    log[i].Fired? ==>
      if periodical then
        i >= 1 && log[i - 1] == Rearmed(log[i].id + 1) && Armed(true, log[..i - 1]) == {log[i].id}
      else Armed(false, log[..i]) == {log[i].id}
  }

  ghost predicate Rightful(periodical: bool, log: seq<Event>) {
    forall i :: 0 <= i < |log| ==> RightfulAt(periodical, log, i)
  }

  ghost predicate Inv(t: Timer) {
    && (forall i, j :: 0 <= i < j < |t.tasks| ==> t.tasks[i] != t.tasks[j])
    && (forall i :: 0 <= i < |t.tasks| ==> t.tasks[i] <= t.value)
    && Armed(t.periodical, t.log) == (if t.value in t.tasks then {t.value} else {})
    && Rightful(t.periodical, t.log)
  }

  lemma RightfulSnoc(periodical: bool, log: seq<Event>, e: Event)
    requires Rightful(periodical, log)
    requires e.Fired? ==>
      if periodical then
        log != [] && log[|log| - 1] == Rearmed(e.id + 1) && Armed(true, log[..|log| - 1]) == {e.id}
      else Armed(false, log) == {e.id}
    ensures Rightful(periodical, log + [e])
  {
    var after := log + [e];
    forall i | 0 <= i < |after|
      ensures RightfulAt(periodical, after, i)
    {
      if i < |log| {
        assert RightfulAt(periodical, log, i);
        SamePrefix(log, after, i);
        if i > 0 {
          SamePrefix(log, after, i - 1);
        }
      } else {
        assert after[..i] == log;
        if i > 0 {
          assert after[..i - 1] == log[..i - 1];
        }
      }
    }
  }

  lemma SamePrefix(a: seq<Event>, b: seq<Event>, i: nat)
    requires i < |a| && a <= b
    ensures a[..i] == b[..i] && a[i] == b[i]
  {
  }

  lemma PostKeeps(t: Timer, e: int -> Event)
    requires Inv(t) && forall n :: e(n) == Started(n) || e(n) == Rearmed(n)
    ensures Inv(Post(t, e))
  {
    var u := Post(t, e);
    RightfulSnoc(t.periodical, t.log, e(u.value));
    assert u.tasks[|t.tasks|] == u.value;
  }

  lemma StopKeeps(t: Timer)
    requires Inv(t)
    ensures Inv(Apply(t, Stop))
  {
    RightfulSnoc(t.periodical, t.log, StopCalled);
  }

  lemma TakeTask(t: Timer, k: nat)
    requires Inv(t) && k < |t.tasks|
    ensures var tasks := t.tasks[..k] + t.tasks[k + 1..];
      && (forall i, j :: 0 <= i < j < |tasks| ==> tasks[i] != tasks[j])
      && (forall i :: 0 <= i < |tasks| ==> tasks[i] <= t.value)
      && (t.value in tasks <==> t.value in t.tasks && t.tasks[k] != t.value)
  {
    var tasks := t.tasks[..k] + t.tasks[k + 1..];
    if t.value in t.tasks && t.tasks[k] != t.value {
      var i :| 0 <= i < |t.tasks| && t.tasks[i] == t.value;
      assert tasks[if i < k then i else i - 1] == t.value;
    }
  }

  lemma ElapseKeeps(t: Timer, k: nat)
    requires Inv(t) && k < |t.tasks|
    ensures Inv(ElapseTask(t, k))
  {
    TakeTask(t, k);
    var id := t.tasks[k];
    var tasks := t.tasks[..k] + t.tasks[k + 1..];
    if id == t.value {
      assert Armed(t.periodical, t.log) == {id};
      if t.periodical {
        var n := id + 1;
        var mid := t.log + [Rearmed(n)];
        RightfulSnoc(true, t.log, Rearmed(n));
        assert mid[..|mid| - 1] == t.log;
        RightfulSnoc(true, mid, Fired(id));
        var log := mid + [Fired(id)];
        assert log[..|log| - 1] == mid;
        assert Armed(true, log) == Armed(true, mid) == {n};
        assert (tasks + [n])[|tasks|] == n;
      } else {
        RightfulSnoc(false, t.log, Fired(id));
      }
    }
  }

  lemma {:induction false} RunKeepsInv(t: Timer, steps: seq<Step>)
    requires Inv(t)
    ensures Inv(Run(t, steps)) && Run(t, steps).periodical == t.periodical
    decreases |steps|
  {
    if steps != [] {
      match steps[0] {
        case Start => PostKeeps(t, n => Started(n));
        case Stop => StopKeeps(t);
        case Elapse(k) => if k < |t.tasks| { ElapseKeeps(t, k); }
      }
      RunKeepsInv(Apply(t, steps[0]), steps[1..]);
    }
  }

  // ----- guarantees over whole runs -----

  /** However many tasks are left over, at most one of them can still call back. */
  lemma OneLiveTask(periodical: bool, steps: seq<Step>, j: nat, k: nat)
    requires var t := Run(New(periodical), steps);
      j < |t.tasks| && k < |t.tasks| && t.tasks[j] == t.value && t.tasks[k] == t.value
    ensures j == k
  {
    RunKeepsInv(New(periodical), steps);
  }

  /**
   * A single-shot timer fires right behind its own start: no stop, start or firing in between. So
   * it fires once at most per start, and never for a start that was replaced or stopped.
   */
  lemma SingleShotFiresOnce(steps: seq<Step>, i: nat)
    requires var log := Run(New(false), steps).log; i < |log| && log[i].Fired?
    ensures var log := Run(New(false), steps).log; i > 0 && log[i - 1] == Started(log[i].id)
  {
    RunKeepsInv(New(false), steps);
    NoRearm(New(false), steps);
    var log := Run(New(false), steps).log;
    assert RightfulAt(false, log, i);
    var before := log[..i];
    assert before != [] && log[i - 1] == before[|before| - 1] && log[i - 1] in log;
  }

  /** A single-shot timer never starts itself. */
  lemma {:induction false} NoRearm(t: Timer, steps: seq<Step>)
    requires !t.periodical && forall e :: e in t.log ==> !e.Rearmed?
    ensures forall e :: e in Run(t, steps).log ==> !e.Rearmed?
    decreases |steps|
  {
    if steps != [] {
      NoRearm(Apply(t, steps[0]), steps[1..]);
    }
  }

  /** The last explicit start or stop in a log was a start. */
  predicate Wanted(log: seq<Event>) {
    log != [] &&
    match log[|log| - 1]
    case Started(_) => true
    case StopCalled => false
    case _ => Wanted(log[..|log| - 1])
  }

  lemma {:induction false} ArmedIsWanted(log: seq<Event>)
    requires Rightful(true, log) && Sprouted(log) && Armed(true, log) != {}
    ensures Wanted(log)
    decreases |log|
  {
    var n := |log| - 1;
    if log[n].Fired? || log[n].Rearmed? {
      RightfulPrefix(log, n);
      assert RightfulAt(true, log, n);
      if log[n].Rearmed? {
        assert Armed(true, log[..n]) != {};
      }
      ArmedIsWanted(log[..n]);
    }
  }

  /** A periodical timer re-arms only while it is armed. */
  ghost predicate Sprouted(log: seq<Event>) {
    forall i :: 0 <= i < |log| && log[i].Rearmed? ==> Armed(true, log[..i]) != {}
  }

  lemma RightfulPrefix(log: seq<Event>, n: nat)
    requires n <= |log| && Rightful(true, log) && Sprouted(log)
    ensures Rightful(true, log[..n]) && Sprouted(log[..n])
  {
    forall i | 0 <= i < n
      ensures RightfulAt(true, log[..n], i)
      ensures log[..n][i].Rearmed? ==> Armed(true, log[..n][..i]) != {}
    {
      assert RightfulAt(true, log, i);
      SamePrefix(log[..n], log, i);
      if i > 0 {
        SamePrefix(log[..n], log, i - 1);
      }
    }
  }

  lemma SproutedSnoc(log: seq<Event>, e: Event)
    requires Sprouted(log) && (e.Rearmed? ==> Armed(true, log) != {})
    ensures Sprouted(log + [e])
  {
    forall i | 0 <= i < |log + [e]| && (log + [e])[i].Rearmed?
      ensures Armed(true, (log + [e])[..i]) != {}
    {
      assert (log + [e])[..i] == log[..i];
      if i == |log| {
        assert log[..i] == log;
      }
    }
  }

  lemma {:induction false} RunSprouts(t: Timer, steps: seq<Step>)
    requires Inv(t) && t.periodical && Sprouted(t.log)
    ensures Sprouted(Run(t, steps).log)
    decreases |steps|
  {
    if steps != [] {
      var u := Apply(t, steps[0]);
      RunKeepsInv(t, [steps[0]]);
      assert Run(t, [steps[0]]) == u by {
        assert [steps[0]][1..] == [];
      }
      match steps[0] {
        case Start => SproutedSnoc(t.log, Started(u.value));
        case Stop => SproutedSnoc(t.log, StopCalled);
        case Elapse(k) =>
          if k < |t.tasks| && t.tasks[k] == t.value {
            SproutedSnoc(t.log, Rearmed(t.value + 1));
            SproutedSnoc(t.log + [Rearmed(t.value + 1)], Fired(t.value));
          }
      }
      RunSprouts(u, steps[1..]);
    }
  }

  /**
   * A periodical timer fires only while it is wanted: the last start or stop before a firing is a
   * start. So one stopped inside its own callback, whose next task is already posted by then, stays
   * silent until it is started again.
   */
  lemma PeriodicalObeysStop(steps: seq<Step>, i: nat)
    requires var log := Run(New(true), steps).log; i < |log| && log[i].Fired?
    ensures var log := Run(New(true), steps).log;
      i > 0 && log[i - 1] == Rearmed(log[i].id + 1) && Wanted(log[..i])
  {
    var t := Run(New(true), steps);
    RunKeepsInv(New(true), steps);
    RunSprouts(New(true), steps);
    assert RightfulAt(true, t.log, i);
    RightfulPrefix(t.log, i - 1);
    ArmedIsWanted(t.log[..i - 1]);
    assert t.log[..i][..i - 1] == t.log[..i - 1];
  }

  /** And it does keep going: while it is armed one posted task will call back. */
  lemma ArmedFires(periodical: bool, steps: seq<Step>)
    requires var t := Run(New(periodical), steps); Armed(periodical, t.log) != {}
    ensures var t := Run(New(periodical), steps);
      exists k :: 0 <= k < |t.tasks| && Fired(t.value) in ElapseTask(t, k).log[|t.log|..]
  {
    RunKeepsInv(New(periodical), steps);
    var t := Run(New(periodical), steps);
    var k :| 0 <= k < |t.tasks| && t.tasks[k] == t.value;
    var log := ElapseTask(t, k).log;
    assert log[|log| - 1] == Fired(t.value);
    assert log[|t.log|..][|log| - 1 - |t.log|] == Fired(t.value);
  }

  // ----- against the calls themselves -----

  lemma {:induction false} RunConcat(t: Timer, a: seq<Step>, b: seq<Step>)
    ensures Run(t, a + b) == Run(Run(t, a), b)
    decreases |a|
  {
    if a == [] {
      assert a + b == b;
    } else {
      assert (a + b)[0] == a[0] && (a + b)[1..] == a[1..] + b;
      RunConcat(Apply(t, a[0]), a[1..], b);
    }
  }

  lemma RunOne(t: Timer, step: Step)
    ensures Run(t, [step]) == Apply(t, step)
  {
    assert [step][1..] == [];
  }

  /** The starts and stops a log tells of. */
  function Told(log: seq<Event>): seq<Step> {
    if log == [] then []
    else match log[0]
      case Started(_) => [Start] + Told(log[1..])
      case StopCalled => [Stop] + Told(log[1..])
      case _ => Told(log[1..])
  }

  /** The starts and stops of a run. */
  function Called(steps: seq<Step>): seq<Step> {
    if steps == [] then []
    else if steps[0].Elapse? then Called(steps[1..])
    else [steps[0]] + Called(steps[1..])
  }

  lemma {:induction false} ToldConcat(a: seq<Event>, b: seq<Event>)
    ensures Told(a + b) == Told(a) + Told(b)
  {
    if a == [] {
      assert a + b == b;
    } else {
      assert (a + b)[1..] == a[1..] + b;
      ToldConcat(a[1..], b);
    }
  }

  /** Every start and stop takes effect, in order, and nothing else does: the log is about the calls. */
  lemma {:induction false} LogTellsCalls(t: Timer, steps: seq<Step>)
    ensures Told(Run(t, steps).log) == Told(t.log) + Called(steps)
    decreases |steps|
  {
    if steps != [] {
      var u := Apply(t, steps[0]);
      StepTold(t, steps[0]);
      LogTellsCalls(u, steps[1..]);
    }
  }

  lemma StepTold(t: Timer, step: Step)
    ensures Told(Apply(t, step).log) == Told(t.log) + (if step.Elapse? then [] else [step])
  {
    var u := Apply(t, step);
    match step
    case Start => ToldConcat(t.log, [Started(t.value + 1)]);
    case Stop => ToldConcat(t.log, [StopCalled]);
    case Elapse(k) =>
      if k < |t.tasks| && t.tasks[k] == t.value {
        ToldConcat(t.log, [Fired(t.value)]);
        ToldConcat(t.log, [Rearmed(t.value + 1)]);
        ToldConcat(t.log + [Rearmed(t.value + 1)], [Fired(t.value)]);
      }
  }

  /** A stopped timer stays silent until it is started again, whatever deadlines pass. */
  lemma StopSilences(periodical: bool, before: seq<Step>, after: seq<Step>)
    requires Start !in after
    ensures var log, all := Run(New(periodical), before).log, Run(New(periodical), before + [Stop] + after).log;
      |log| < |all| && log == all[..|log|] && forall i :: |log| <= i < |all| ==> all[i] == StopCalled
  {
    var t := Run(New(periodical), before);
    RunKeepsInv(New(periodical), before);
    RunConcat(New(periodical), before + [Stop], after);
    RunConcat(New(periodical), before, [Stop]);
    RunOne(t, Stop);
    DeadStaysSilent(Apply(t, Stop), after);
  }

  /** No task has the current generation, and none ever had a later one. */
  predicate Dead(t: Timer) {
    forall i :: 0 <= i < |t.tasks| ==> t.tasks[i] < t.value
  }

  lemma {:induction false} DeadStaysSilent(t: Timer, steps: seq<Step>)
    requires Dead(t) && Start !in steps
    ensures var all := Run(t, steps).log;
      |t.log| <= |all| && t.log == all[..|t.log|] && forall i :: |t.log| <= i < |all| ==> all[i] == StopCalled
    decreases |steps|
  {
    if steps != [] {
      assert steps[0] in steps;
      var u := Apply(t, steps[0]);
      assert Dead(u);
      DeadStaysSilent(u, steps[1..]);
      assert t.log == u.log[..|t.log|];
    }
  }

  /** The deadline of some task the loop holds calls back, once, and re-arms if the timer is periodical. */
  ghost predicate WillFire(t: Timer) {
    exists k :: 0 <= k < |t.tasks| && Apply(t, Elapse(k)).log
      == t.log + (if t.periodical then [Rearmed(t.value + 1)] else []) + [Fired(t.value)]
  }

  /** One deadline is outstanding for the current generation. */
  predicate Alive(t: Timer) {
    t.value in t.tasks && forall i :: 0 <= i < |t.tasks| ==> t.tasks[i] <= t.value
  }

  lemma AliveFires(t: Timer)
    requires Alive(t)
    ensures WillFire(t)
  {
    var k :| 0 <= k < |t.tasks| && t.tasks[k] == t.value;
    var log := if t.periodical then t.log + [Rearmed(t.value + 1)] + [Fired(t.value)] else t.log + [Fired(t.value)];
    assert Apply(t, Elapse(k)).log == log;
    assert t.log + [] == t.log;
  }

  /**
   * A start is honoured: while no other start or stop is called, a periodical timer has a deadline
   * that calls back, and a single-shot one calls back exactly once, at the deadline of that start.
   */
  lemma StartIsHonoured(periodical: bool, before: seq<Step>, after: seq<Step>)
    requires Called(after) == []
    ensures var s, t := Run(New(periodical), before + [Start]), Run(New(periodical), before + [Start] + after);
      && Alive(s) && WillFire(s)
      && (periodical ==> WillFire(t))
      && (!periodical ==> t.log == s.log + [Fired(s.value)] || (t.log == s.log && WillFire(t)))
  {
    var s := Run(New(periodical), before);
    RunKeepsInv(New(periodical), before);
    RunConcat(New(periodical), before, [Start]);
    RunOne(s, Start);
    RunConcat(New(periodical), before + [Start], after);
    var u := Apply(s, Start);
    assert u.tasks[|u.tasks| - 1] == u.value;
    PostKeeps(s, n => Started(n));
    AliveFires(u);
    if periodical {
      AliveGoesOn(u, after);
      AliveFires(Run(u, after));
    } else {
      ShotOnce(u, after);
    }
  }

  lemma {:induction false} AliveGoesOn(t: Timer, steps: seq<Step>)
    requires Inv(t) && Alive(t) && t.periodical && Called(steps) == []
    ensures Alive(Run(t, steps)) && Run(t, steps).periodical
    decreases |steps|
  {
    if steps != [] {
      var u, k := Apply(t, steps[0]), steps[0].k;
      if k < |t.tasks| {
        TakeTask(t, k);
        ElapseKeeps(t, k);
        if t.tasks[k] == t.value {
          assert u.tasks[|u.tasks| - 1] == u.value;
        }
      }
      AliveGoesOn(u, steps[1..]);
    }
  }

  lemma {:induction false} ShotOnce(t: Timer, steps: seq<Step>)
    requires Inv(t) && Alive(t) && !t.periodical && Called(steps) == []
    ensures var u := Run(t, steps);
      u.log == t.log + [Fired(t.value)] || (u.log == t.log && WillFire(u))
    decreases |steps|
  {
    if steps == [] {
      AliveFires(t);
    } else {
      var u, k := Apply(t, steps[0]), steps[0].k;
      if k < |t.tasks| {
        TakeTask(t, k);
        ElapseKeeps(t, k);
      }
      if k < |t.tasks| && t.tasks[k] == t.value {
        assert Dead(u);
        NothingTold(u, steps[1..]);
      } else {
        ShotOnce(u, steps[1..]);
      }
    }
  }

  /** A silent timer that is not even stopped logs nothing at all. */
  lemma {:induction false} NothingTold(t: Timer, steps: seq<Step>)
    requires Dead(t) && Called(steps) == []
    ensures Run(t, steps).log == t.log
    decreases |steps|
  {
    if steps != [] {
      assert Dead(Apply(t, steps[0]));
      NothingTold(Apply(t, steps[0]), steps[1..]);
    }
  }

  /** A deadline takes its own task from the loop, and only a re-arming puts one back. */
  lemma DeadlineTakesTask(t: Timer, k: nat)
    requires k < |t.tasks|
    ensures var u := Apply(t, Elapse(k));
      multiset(u.tasks) == multiset(t.tasks) - multiset{t.tasks[k]}
        + (if t.periodical && t.tasks[k] == t.value then multiset{t.value + 1} else multiset{})
  {
    assert t.tasks == t.tasks[..k] + [t.tasks[k]] + t.tasks[k + 1..];
  }
}
