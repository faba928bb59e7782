/**
 * spawn_polling: one polling thread, any number of appending threads, one mutex, an atomic counter
 * and a break flag. A step is one atomic access or one critical section's worth of vector work; the
 * destructor is only called when no append is in progress.
 */
module SpawnPool {

  /** Where the polling thread stands in wait(). */
  datatype Poller =
    | AtTop                             // before `while (!_break)`
    | Grabbing                          // before it moves the pool out
    | InBatch                           // before the next process of its batch
    | Loaded(p: nat, breaking: bool)    // has read _break for process p
    | Keeping(p: nat, breaking: bool)   // about to push p back
    | Counting(p: nat)                  // saw p finished, about to decrement the counter
    | Killing                           // after the loop
    | Ended

  datatype State = State(
    pool: seq<nat>, batch: seq<nat>, size: int, breaking: bool, at: Poller,
    checked: multiset<nat>,             // appends that passed `if (!_break)`
    locked: bool,                       // an append holds the mutex between push and count
    appended: multiset<nat>, finished: multiset<nat>, killed: multiset<nat>)

  const INITIAL := State([], [], 0, false, AtTop, multiset{}, false, multiset{}, multiset{}, multiset{})

  datatype Step =
    | Check(p: nat) | Push(p: nat) | CountUp
    | Destroy
    | Poll(done: bool)  // the polling thread's next step; `done` is what poll() would answer

  function PollStep(s: State, done: bool): State {
    match s.at
    case AtTop => s.(at := if s.breaking then Killing else Grabbing)
    case Grabbing => if s.locked then s else s.(batch := s.pool, pool := [], at := InBatch)
    case InBatch =>
      if s.batch == [] then s.(at := AtTop)
      else s.(at := Loaded(s.batch[0], s.breaking), batch := s.batch[1..])
    case Loaded(p, breaking) =>
      if breaking || !done then s.(at := Keeping(p, breaking))
      else s.(at := Counting(p), finished := s.finished + multiset{p})
    case Keeping(p, breaking) =>
      if !breaking && s.locked then s else s.(pool := s.pool + [p], at := InBatch)
    case Counting(p) => s.(size := s.size - 1, at := InBatch)
    case Killing =>
      if s.pool == [] then s.(at := Ended)
      else s.(killed := s.killed + multiset{s.pool[0]}, pool := s.pool[1..])
    case Ended => s
  }

  function Apply(s: State, step: Step): State {
    match step
    case Check(p) => if s.breaking then s else s.(checked := s.checked + multiset{p})
    case Push(p) =>
      if p !in s.checked || s.locked then s
      else s.(checked := s.checked - multiset{p}, locked := true,
              pool := s.pool + [p], appended := s.appended + multiset{p})
    case CountUp => if !s.locked then s else s.(size := s.size + 1, locked := false)
    case Destroy => if s.checked != multiset{} || s.locked then s else s.(breaking := true)
    case Poll(done) => PollStep(s, done)
  }

  function Run(s: State, steps: seq<Step>): State
    decreases |steps|
  {
    if steps == [] then s else Run(Apply(s, steps[0]), steps[1..])
  }

  // ----- invariant -----

  /** The process the polling thread has in hand and has not seen finished. */
  function InHand(s: State): multiset<nat> {
    match s.at
    case Loaded(p, _) => multiset{p}
    case Keeping(p, _) => multiset{p}
    case _ => multiset{}
  }

  function Waiting(s: State): multiset<nat> {
    multiset(s.pool) + multiset(s.batch) + InHand(s)
  }

  /** Every process appended is somewhere, once. */
  ghost predicate Conserved(s: State) {
    s.appended == Waiting(s) + s.finished + s.killed
  }

  /** The counter, up to the one change another thread is in the middle of. */
  ghost predicate Counted(s: State) {
    s.size == |s.appended| - |s.finished| + (if s.at.Counting? then 1 else 0) - (if s.locked then 1 else 0)
  }

  ghost predicate Ordered(s: State) {
    && (s.locked ==> s.pool != [] && !s.breaking && !s.at.Killing? && !s.at.Ended?)
    && (s.breaking ==> s.checked == multiset{})
    && (s.at.Killing? || s.at.Ended? ==> s.breaking && s.batch == [])
    && (s.at.Loaded? || s.at.Keeping? ==> s.at.breaking ==> s.breaking)
    && (s.at.AtTop? || s.at.Grabbing? ==> s.batch == [])
    && (s.at.Ended? ==> s.pool == [])
  }

  ghost predicate Inv(s: State) {
    Conserved(s) && Counted(s) && Ordered(s)
  }

  lemma FirstOf(s: seq<nat>)
    requires s != []
    ensures multiset(s) == multiset{s[0]} + multiset(s[1..])
  {
    assert s == [s[0]] + s[1..];
  }

  lemma PollConserves(s: State, done: bool)
    requires Conserved(s) && Ordered(s)
    ensures Conserved(PollStep(s, done))
  {
    hide Conserved, Ordered;
    match s.at
    case Grabbing => GrabConserves(s, done);
    case InBatch => BatchConserves(s, done);
    case Loaded(p, breaking) => LoadedConserves(s, done);
    case Keeping(p, breaking) => KeepConserves(s, done);
    case Killing => KillConserves(s, done);
    case _ => OtherConserves(s, done);
  }

  lemma OtherConserves(s: State, done: bool)
    requires Conserved(s) && (s.at.AtTop? || s.at.Counting? || s.at.Ended?)
    ensures Conserved(PollStep(s, done))
  {
  }

  lemma GrabConserves(s: State, done: bool)
    requires Conserved(s) && Ordered(s) && s.at.Grabbing?
    ensures Conserved(PollStep(s, done))
  {
  }

  lemma KeepConserves(s: State, done: bool)
    requires Conserved(s) && s.at.Keeping?
    ensures Conserved(PollStep(s, done))
  {
    assert multiset(s.pool + [s.at.p]) == multiset(s.pool) + multiset{s.at.p};
  }

  lemma BatchConserves(s: State, done: bool)
    requires Conserved(s) && s.at.InBatch?
    ensures Conserved(PollStep(s, done))
  {
    if s.batch != [] {
      FirstOf(s.batch);
      Swap(multiset(s.pool), multiset{s.batch[0]}, multiset(s.batch[1..]), s.finished + s.killed);
    }
  }

  lemma LoadedConserves(s: State, done: bool)
    requires Conserved(s) && s.at.Loaded?
    ensures Conserved(PollStep(s, done))
  {
  }

  lemma KillConserves(s: State, done: bool)
    requires Conserved(s) && s.at.Killing?
    ensures Conserved(PollStep(s, done))
  {
    if s.pool != [] {
      FirstOf(s.pool);
    }
  }

  lemma Swap(a: multiset<nat>, b: multiset<nat>, c: multiset<nat>, d: multiset<nat>)
    ensures a + (b + c) + d == a + c + b + d
  {
  }

  lemma PollCounts(s: State, done: bool)
    requires Counted(s)
    ensures Counted(PollStep(s, done))
  {
  }

  lemma PollOrdered(s: State, done: bool)
    requires Ordered(s)
    ensures Ordered(PollStep(s, done))
  {
  }

  lemma StepKeepsInv(s: State, step: Step)
    requires Inv(s)
    ensures Inv(Apply(s, step))
  {
    match step
    case Poll(done) =>
      PollConserves(s, done);
      PollCounts(s, done);
      PollOrdered(s, done);
    case Push(p) => PushKeeps(s, p);
    case _ =>
  }

  lemma PushKeeps(s: State, p: nat)
    requires Inv(s)
    ensures Inv(Apply(s, Push(p)))
  {
    var t := Apply(s, Push(p));
    if t != s {
      assert multiset(t.pool) == multiset(s.pool) + multiset{p};
      assert |t.appended| == |s.appended| + 1;
    }
  }

  lemma {:induction false} RunKeepsInv(s: State, steps: seq<Step>)
    requires Inv(s)
    ensures Inv(Run(s, steps))
    decreases |steps|
  {
    hide Inv, Apply;
    if steps != [] {
      StepKeepsInv(s, steps[0]);
      RunKeepsInv(Apply(s, steps[0]), steps[1..]);
    }
  }

  lemma ReachableInv(steps: seq<Step>)
    ensures Inv(Run(INITIAL, steps))
  {
    RunKeepsInv(INITIAL, steps);
  }

  // ----- guarantees over whole runs -----

  /**
   * At every step of every interleaving, as bags: what was appended is what waits, what was seen
   * finished and what was killed. Nothing is lost and nothing is there twice.
   */
  lemma ProcessesConserved(steps: seq<Step>)
    ensures var s := Run(INITIAL, steps); s.appended == Waiting(s) + s.finished + s.killed
  {
    ReachableInv(steps);
  }

  /**
   * The counter never underflows, and outside critical sections (no append between push and count,
   * the poller not between seeing an end and counting it) it is the number not yet seen finished.
   */
  lemma CounterIsExact(steps: seq<Step>)
    ensures var s := Run(INITIAL, steps);
      && s.size >= 0
      && (s.at.Counting? ==> s.size >= 1)
      && (!s.locked && !s.at.Counting? ==> s.size == |s.appended - s.finished|)
  {
    ReachableInv(steps);
    var s := Run(INITIAL, steps);
    assert s.appended - s.finished == Waiting(s) + s.killed;
    assert |s.appended| == |Waiting(s) + s.killed| + |s.finished|;
    if s.locked {
      assert s.pool[0] in Waiting(s);
      assert |Waiting(s)| >= 1;
    }
  }

  /** When the polling thread has ended, every process was seen finished or killed, once. */
  lemma EveryProcessEnds(steps: seq<Step>)
    requires Run(INITIAL, steps).at.Ended?
    ensures var s := Run(INITIAL, steps); s.appended == s.finished + s.killed
  {
    ReachableInv(steps);
    var s := Run(INITIAL, steps);
    assert Waiting(s) == multiset{};
  }

  /** The push without the mutex is alone: by then no append is in progress or can begin. */
  lemma UnlockedPushIsAlone(steps: seq<Step>)
    requires var s := Run(INITIAL, steps); s.at.Keeping? && s.at.breaking
    ensures var s := Run(INITIAL, steps); s.breaking && !s.locked && s.checked == multiset{}
  {
    ReachableInv(steps);
  }

  // ----- the destructor's join returns -----

  function Remaining(s: State): nat {
    match s.at
    case AtTop => |s.pool| + 2
    case Grabbing => 4 * |s.pool| + 4
    case InBatch => 4 * |s.batch| + |s.pool| + 3
    case Loaded(_, _) => 4 * |s.batch| + |s.pool| + 6
    case Keeping(_, _) => 4 * |s.batch| + |s.pool| + 5
    case Counting(_) => 4 * |s.batch| + |s.pool| + 5
    case Killing => |s.pool| + 1
    case Ended => 0
  }

  /** Once the flag is set, each step of the polling thread brings its end nearer. */
  lemma BreakingEnds(steps: seq<Step>, done: bool)
    requires var s := Run(INITIAL, steps); s.breaking && !s.at.Ended?
    ensures var s := Run(INITIAL, steps); Remaining(PollStep(s, done)) < Remaining(s)
  {
    hide Run, PollStep, Remaining;
    ReachableInv(steps);
    StepShrinks(Run(INITIAL, steps), done);
  }

  lemma StepShrinks(s: State, done: bool)
    requires Ordered(s) && s.breaking && !s.at.Ended?
    ensures Remaining(PollStep(s, done)) < Remaining(s)
  {
  }

  // ----- against what the threads do -----

  lemma {:induction false} RunConcat(s: State, a: seq<Step>, b: seq<Step>)
    ensures Run(s, a + b) == Run(Run(s, a), b)
    decreases |a|
  {
    if a == [] {
      assert a + b == b;
    } else {
      assert (a + b)[0] == a[0] && (a + b)[1..] == a[1..] + b;
      RunConcat(Apply(s, a[0]), a[1..], b);
    }
  }

  /** The process, if any, that this step polls and that says it is done. */
  function SaysDone(s: State, step: Step): multiset<nat> {
    if s.at.Loaded? && !s.at.breaking && step == Poll(true) then multiset{s.at.p} else multiset{}
  }

  /** All those of a run. */
  function SeenDone(s: State, steps: seq<Step>): multiset<nat>
    decreases |steps|
  {
    if steps == [] then multiset{} else SaysDone(s, steps[0]) + SeenDone(Apply(s, steps[0]), steps[1..])
  }

  lemma StepSeen(s: State, step: Step)
    ensures Apply(s, step).finished == s.finished + SaysDone(s, step)
  {
  }

  /** A process counts as finished exactly when poll() said so, and then once. */
  lemma {:induction false} FinishedIsSeen(s: State, steps: seq<Step>)
    ensures Run(s, steps).finished == s.finished + SeenDone(s, steps)
    decreases |steps|
  {
    hide Apply, SaysDone;
    if steps != [] {
      StepSeen(s, steps[0]);
      FinishedIsSeen(Apply(s, steps[0]), steps[1..]);
    }
  }

  /**
   * append() in a pool that is not being destroyed, undisturbed, adds its process to those that wait
   * and counts it; in one that is, it does nothing.
   */
  lemma AppendTakes(steps: seq<Step>, p: nat)
    requires !Run(INITIAL, steps).locked
    ensures var s := Run(INITIAL, steps);
      var t := Apply(Apply(Apply(s, Check(p)), Push(p)), CountUp);
      if s.breaking then t == s
      else
        && t.appended == s.appended + multiset{p} && Waiting(t) == Waiting(s) + multiset{p}
        && t.size == s.size + 1 && !t.locked && t.checked == s.checked
        && t.finished == s.finished && t.killed == s.killed && t.at == s.at
  {
    ReachableInv(steps);
    var s := Run(INITIAL, steps);
    assert multiset(s.pool + [p]) == multiset(s.pool) + multiset{p};
    if !s.breaking {
      assert s.checked + multiset{p} - multiset{p} == s.checked;
    }
  }

  function Polls(answers: seq<bool>): seq<Step> {
    if answers == [] then [] else [Poll(answers[0])] + Polls(answers[1..])
  }

  /** The processes of a batch that answer that they are not done, in order. */
  function Unfinished(batch: seq<nat>, answers: seq<bool>): seq<nat>
    requires |batch| == |answers|
  {
    if batch == [] then []
    else (if answers[0] then [] else [batch[0]]) + Unfinished(batch[1..], answers[1..])
  }

  /** And those that are. */
  function Done(batch: seq<nat>, answers: seq<bool>): (r: multiset<nat>)
    requires |batch| == |answers|
    ensures |r| <= |batch|
  {
    if batch == [] then multiset{}
    else (if answers[0] then multiset{batch[0]} else multiset{}) + Done(batch[1..], answers[1..])
  }

  /** The polling thread's steps for a batch: take one up, poll it, put it away; then see the end. */
  function BatchSteps(answers: seq<bool>): seq<Step> {
    if answers == [] then [Poll(false)]
    else [Poll(false), Poll(answers[0]), Poll(false)] + BatchSteps(answers[1..])
  }

  lemma {:induction false} BatchPolled(s: State, answers: seq<bool>)
    requires s.at.InBatch? && !s.breaking && !s.locked && |answers| == |s.batch|
    ensures Run(s, BatchSteps(answers)) ==
      s.(at := AtTop, batch := [], pool := s.pool + Unfinished(s.batch, answers),
         finished := s.finished + Done(s.batch, answers), size := s.size - |Done(s.batch, answers)|)
    decreases |answers|
  {
    hide Apply;
    if answers == [] {
      RunOne(s, Poll(false));
      assert Apply(s, Poll(false)) == s.(at := AtTop) by { TopAgain(s); }
      assert s.pool + [] == s.pool;
    } else {
      var one := [Poll(false), Poll(answers[0]), Poll(false)];
      var t := OnePolled(s, answers[0]);
      RunConcat(s, one, BatchSteps(answers[1..]));
      BatchPolled(t, answers[1..]);
      Regroup(s, answers);
    }
  }

  lemma TopAgain(s: State)
    requires s.at.InBatch? && s.batch == []
    ensures Apply(s, Poll(false)) == s.(at := AtTop)
  {
  }

  lemma Regroup(s: State, answers: seq<bool>)
    requires |answers| == |s.batch| && answers != []
    ensures var p, pool, us, d :=
        s.batch[0], s.pool, Unfinished(s.batch[1..], answers[1..]), Done(s.batch[1..], answers[1..]);
      if answers[0] then
        && pool + us == pool + Unfinished(s.batch, answers)
        && s.finished + multiset{p} + d == s.finished + Done(s.batch, answers)
        && s.size - 1 - |d| == s.size - |Done(s.batch, answers)|
      else
        && pool + [p] + us == pool + Unfinished(s.batch, answers)
        && s.finished + d == s.finished + Done(s.batch, answers)
        && s.size - |d| == s.size - |Done(s.batch, answers)|
  {
    var us, d := Unfinished(s.batch[1..], answers[1..]), Done(s.batch[1..], answers[1..]);
    if answers[0] {
      assert Unfinished(s.batch, answers) == [] + us == us;
      assert Done(s.batch, answers) == multiset{s.batch[0]} + d;
    } else {
      assert Done(s.batch, answers) == multiset{} + d == d;
    }
  }

  lemma RunOne(s: State, step: Step)
    ensures Run(s, [step]) == Apply(s, step)
  {
    assert [step][1..] == [];
  }

  lemma RunThree(s: State, a: Step, b: Step, c: Step)
    ensures Run(s, [a, b, c]) == Apply(Apply(Apply(s, a), b), c)
  {
    assert [a, b, c] == [a] + ([b] + [c]);
    RunConcat(s, [a], [b] + [c]);
    RunConcat(Run(s, [a]), [b], [c]);
    RunOne(s, a);
    RunOne(Apply(s, a), b);
    RunOne(Apply(Apply(s, a), b), c);
  }

  lemma OnePolled(s: State, done: bool) returns (t: State)
    requires s.at.InBatch? && !s.breaking && !s.locked && s.batch != []
    ensures t == Run(s, [Poll(false), Poll(done), Poll(false)])
    ensures t == s.(batch := s.batch[1..],
                    pool := if done then s.pool else s.pool + [s.batch[0]],
                    finished := if done then s.finished + multiset{s.batch[0]} else s.finished,
                    size := if done then s.size - 1 else s.size)
  {
    RunThree(s, Poll(false), Poll(done), Poll(false));
    t := Apply(Apply(Apply(s, Poll(false)), Poll(done)), Poll(false));
  }

  /**
   * One round of the loop, with nobody appending: every waiting process is polled once; those that
   * are done leave the pool and the count, the others stay in their order.
   */
  lemma RoundPolled(s: State, answers: seq<bool>)
    requires s.at.AtTop? && s.batch == [] && !s.breaking && !s.locked && |answers| == |s.pool|
    ensures Run(s, [Poll(false), Poll(false)] + BatchSteps(answers)) ==
      s.(pool := Unfinished(s.pool, answers), finished := s.finished + Done(s.pool, answers),
         size := s.size - |Done(s.pool, answers)|)
  {
    var two := [Poll(false), Poll(false)];
    assert two[1..] == [Poll(false)] && two[1..][1..] == [];
    var t := Apply(Apply(s, Poll(false)), Poll(false));
    assert Run(s, two) == t;
    RunConcat(s, two, BatchSteps(answers));
    BatchPolled(t, answers);
    assert [] + Unfinished(s.pool, answers) == Unfinished(s.pool, answers);
  }

  /** Whatever poll() answers, so many steps of the polling thread end it once the flag is set. */
  lemma {:induction false} PollsEnd(s: State, answers: seq<bool>)
    requires Inv(s) && s.breaking && |answers| >= Remaining(s)
    ensures Run(s, Polls(answers)).at.Ended? && Inv(Run(s, Polls(answers)))
    ensures Run(s, Polls(answers)).appended == s.appended
    decreases |answers|
  {
    hide Inv, PollStep, Remaining;
    if answers != [] {
      var step := Poll(answers[0]);
      StepKeepsInv(s, step);
      BreakingStays(s, answers[0]);
      if !s.at.Ended? {
        StillOrdered(s);
        StepShrinks(s, answers[0]);
      } else {
        EndedStays(s, answers[0]);
      }
      PollsEnd(Apply(s, step), answers[1..]);
    } else {
      NoneRemaining(s);
    }
  }

  lemma BreakingStays(s: State, done: bool)
    ensures PollStep(s, done).breaking == s.breaking && PollStep(s, done).appended == s.appended
  {
  }

  lemma StillOrdered(s: State)
    requires Inv(s)
    ensures Ordered(s)
  {
  }

  lemma EndedStays(s: State, done: bool)
    requires s.at.Ended?
    ensures PollStep(s, done) == s && Remaining(s) == 0
  {
  }

  lemma NoneRemaining(s: State)
    requires Remaining(s) == 0
    ensures s.at.Ended?
  {
  }

  /**
   * The destructor, called when no append is in progress, gets its thread back after so many of its
   * steps, whatever poll() answers, and by then every process was seen finished or killed.
   */
  lemma DestructorReturns(steps: seq<Step>, answers: seq<bool>)
    requires var s := Run(INITIAL, steps); s.checked == multiset{} && !s.locked
    requires |answers| >= Remaining(Run(INITIAL, steps))
    ensures var s, t := Run(INITIAL, steps), Run(Apply(Run(INITIAL, steps), Destroy), Polls(answers));
      t.at.Ended? && t.appended == s.appended && s.appended == t.finished + t.killed
  {
    hide PollStep;
    ReachableInv(steps);
    var s := Run(INITIAL, steps);
    StepKeepsInv(s, Destroy);
    var b := Apply(s, Destroy);
    PollsEnd(b, answers);
    var t := Run(b, Polls(answers));
    assert Waiting(t) == multiset{};
  }
}
