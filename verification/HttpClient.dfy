/**
 * The HTTP client: the connection pool (http_client_impl.h), the automaton of one request, and the
 * table of response callbacks (web_client.cpp), as steps that any number of requests and worker
 * threads interleave. A critical section under a mutex, or a handler between two asynchronous
 * operations, is one step; sockets, timers and the server are the choice of the next step.
 */
module HttpClient {
  import opened Sequences
  import ChunkedBody

  /** The operation a session waits for, or how it ended. */
  datatype Phase =
    | Resolving | Connecting | Writing | ReadingHead
    | ReadingBody | ReadingToEnd | ReadingSize | ReadingChunk(chunk: Chunk)
    | Notifying(ok: bool)  // its connection is released, its callback not yet looked up
    | Finished(ok: bool)
    | Dropped              // the handler returned or threw without calling back

  datatype Session = Session(conn: nat, phase: Phase, retries: nat)

  datatype State = State(
    pool: set<nat>, inUse: set<nat>, mayRetry: set<nat>, nextConn: nat,
    sessions: map<nat, Session>,
    lastRequest: nat, callbacks: set<nat>, fired: multiset<nat>,
    stopped: bool, threw: set<nat>)  // `threw`: sessions one of whose handlers threw

  const INITIAL := State({}, {}, {}, 0, map[], 0, {}, multiset{}, false, {})

  /** What a complete response head announces. */
  datatype Head = Malformed | LengthHere | LengthMore | LengthUnreadable | Chunked | UntilClose | NoBody

  /** A chunk of length zero, one with data, or one too long for `2 + length` and for `new char[length]`. */
  datatype Chunk = Last | Data | Wrapped

  /** What a complete chunk-size line announces, and whether the chunk has already arrived. */
  datatype SizeLine = BadSize | Here(chunk: Chunk) | More(chunk: Chunk)

  datatype Outcome =
    | Good | Failed(aborted: bool) | Oversize
    | GoodHead(head: Head) | GoodLine(line: SizeLine)

  datatype Step =
    | Register                                        // web_client_impl::request takes an id
    | Begin(id: nat, pick: nat, open: bool)           // get_connection, then connect
    | Complete(id: nat, outcome: Outcome, keep: nat)  // an operation of the session completes
    | Notify(id: nat)                                 // on_response_impl
    | ClearPool                                       // stop() empties the pool
    | CloseGate                                       // stop() closes the gate

  predicate Live(p: Phase) {
    !p.Notifying? && !p.Finished? && !p.Dropped?
  }

  function Idle(s: State): set<nat> {
    s.pool - s.inUse
  }

  function SetPhase(s: State, id: nat, p: Phase): State
    requires id in s.sessions
  {
    s.(sessions := s.sessions[id := s.sessions[id].(phase := p)])
  }

  /** connect(): an open socket is written to at once. */
  function Connect(open: bool): Phase {
    if open then Writing else Resolving
  }

  /** get_connection: any idle pooled connection if there is one, else a new one. */
  ghost function BeginSession(s: State, id: nat, pick: nat, open: bool): State {
    var create := Idle(s) == {};
    var conn := if create then s.nextConn else pick;
    s.(pool := s.pool + {conn}, inUse := s.inUse + {conn}, mayRetry := s.mayRetry + {conn},
       nextConn := if create then s.nextConn + 1 else s.nextConn,
       sessions := s.sessions[id := Session(conn, if create then Resolving else Connect(open), 0)])
  }

  /**
   * The pool after a request on `conn` ended: without `conn` if it failed, and with one of the idle
   * connections, `keep` if that is idle.
   */
  ghost function Pruned(pool: set<nat>, inUse: set<nat>, conn: nat, ok: bool, keep: nat): (r: set<nat>)
    ensures r <= pool && pool * inUse - {conn} <= r
    ensures !ok ==> conn !in r
    ensures (pool - (if ok then {} else {conn})) - inUse != {} ==> exists k :: r - inUse == {k}
    ensures (pool - (if ok then {} else {conn})) - inUse == {} ==> r - inUse == {}
  {
    var remaining := if ok then pool else pool - {conn};
    var idle := remaining - inUse;
    if idle == {} then remaining
    else
      var kept: nat :| kept in idle && (keep in idle ==> kept == keep);
      assert (remaining - (idle - {kept})) - inUse == {kept};
      remaining - (idle - {kept})
  }

  /** The locked part of session->callback. */
  ghost function Finish(s: State, id: nat, ok: bool, keep: nat): State
    requires id in s.sessions
  {
    var conn := s.sessions[id].conn;
    var inUse := s.inUse - {conn};
    SetPhase(s, id, Notifying(ok)).(inUse := inUse, pool := Pruned(s.pool, inUse, conn, ok, keep))
  }

  /** A failed head read reconnects once, on a new connection, if the old one is still pooled. */
  ghost function HeadFailed(s: State, id: nat, aborted: bool, keep: nat): State
    requires id in s.sessions
  {
    var x := s.sessions[id];
    if x.conn in s.mayRetry && !aborted && x.conn in s.pool then
      s.(pool := s.pool - {x.conn} + {s.nextConn}, inUse := s.inUse + {s.nextConn},
         mayRetry := s.mayRetry - {s.nextConn}, nextConn := s.nextConn + 1,
         sessions := s.sessions[id := Session(s.nextConn, Resolving, x.retries + 1)])
    else Finish(s, id, false, keep)
  }

  /** An exception leaves the handler. */
  function Throw(s: State, id: nat): State
    requires id in s.sessions
  {
    SetPhase(s, id, Dropped).(threw := s.threw + {id})
  }

  ghost function HeadRead(s: State, id: nat, head: Head, keep: nat): State
    requires id in s.sessions
  {
    var t := s.(mayRetry := s.mayRetry + {s.sessions[id].conn});
    match head
    case Malformed => Finish(t, id, false, keep)
    case LengthHere => Finish(t, id, true, keep)
    case LengthMore => SetPhase(t, id, ReadingBody)
    case LengthUnreadable => Throw(t, id)
    case Chunked => SetPhase(t, id, ReadingSize)
    case UntilClose => SetPhase(t, id, ReadingToEnd)
    case NoBody => Finish(t, id, true, keep)
  }

  /** read_chunked_transfer_encoded_chunk, called when the chunk's bytes are taken to be there. */
  ghost function ChunkRead(s: State, id: nat, chunk: Chunk, keep: nat): State
    requires id in s.sessions
  {
    match chunk
    case Last => Finish(s, id, true, keep)
    case Data => SetPhase(s, id, ReadingSize)
    case Wrapped => Throw(s, id)
  }

  ghost function LineRead(s: State, id: nat, line: SizeLine, keep: nat): State
    requires id in s.sessions
  {
    match line
    case BadSize => Finish(s, id, false, keep)
    case Here(chunk) => ChunkRead(s, id, chunk, keep)
    case More(chunk) => SetPhase(s, id, ReadingChunk(chunk))
  }

  ghost function GoodRead(s: State, id: nat, keep: nat): State
    requires id in s.sessions
  {
    match s.sessions[id].phase
    case Resolving => SetPhase(s, id, Connecting)
    case Connecting => SetPhase(s, id, Writing)
    case Writing => SetPhase(s, id, ReadingHead)
    case ReadingBody => Finish(s, id, true, keep)
    case ReadingToEnd => Finish(s, id, true, keep)
    case ReadingChunk(chunk) => ChunkRead(s, id, chunk, keep)
    case _ => s
  }

  /** Can the operation the session waits for end this way? */
  predicate Possible(p: Phase, outcome: Outcome) {
    match outcome
    case Good => !p.ReadingHead? && !p.ReadingSize?
    case Failed(_) => true
    case Oversize => !p.Resolving? && !p.Connecting? && !p.Writing?
    case GoodHead(_) => p.ReadingHead?
    case GoodLine(_) => p.ReadingSize?
  }

  /** The completion handler of the pending operation. */
  ghost function Handle(s: State, id: nat, outcome: Outcome, keep: nat): State
    requires id in s.sessions
  {
    if s.stopped then SetPhase(s, id, Dropped)
    else match outcome
      case Good => GoodRead(s, id, keep)
      case Failed(aborted) =>
        if s.sessions[id].phase.ReadingHead? then HeadFailed(s, id, aborted, keep)
        else Finish(s, id, false, keep)
      case Oversize => Finish(s, id, false, keep)
      case GoodHead(head) => HeadRead(s, id, head, keep)
      case GoodLine(line) => LineRead(s, id, line, keep)
  }

  predicate Enabled(s: State, step: Step) {
    match step
    case Register => true
    case Begin(id, pick, _) =>
      1 <= id <= s.lastRequest && id !in s.sessions && (Idle(s) == {} || pick in Idle(s))
    case Complete(id, outcome, keep) =>
      id in s.sessions && Live(s.sessions[id].phase) && Possible(s.sessions[id].phase, outcome)
    case Notify(id) => id in s.sessions && s.sessions[id].phase.Notifying?
    case ClearPool => true
    case CloseGate => forall id :: id in s.sessions ==> !s.sessions[id].phase.Notifying?
  }

  ghost function Apply(s: State, step: Step): State {
    if !Enabled(s, step) then s
    else match step
      case Register =>
        var id := s.lastRequest + 1;
        s.(lastRequest := id, callbacks := s.callbacks + {id})
      case Begin(id, pick, open) => BeginSession(s, id, pick, open)
      case Complete(id, outcome, keep) => Handle(s, id, outcome, keep)
      case Notify(id) =>
        var t := SetPhase(s, id, Finished(s.sessions[id].phase.ok));
        if id in s.callbacks then t.(callbacks := s.callbacks - {id}, fired := s.fired + multiset{id})
        else t
      case ClearPool => s.(pool := {})
      case CloseGate => s.(stopped := true)
  }

  ghost function Run(s: State, steps: seq<Step>): State
    decreases |steps|
  {
    if steps == [] then s else Run(Apply(s, steps[0]), steps[1..])
  }

  // ----- invariants -----

  /** Live sessions hold different connections, all marked in use; dropped ones never let go. */
  ghost predicate Exclusive(s: State) {
    && (forall c :: c in s.pool || c in s.inUse || c in s.mayRetry ==> c < s.nextConn)
    && (forall i :: i in s.sessions ==> s.sessions[i].conn < s.nextConn)
    && (forall i :: i in s.sessions && Holds(s, i) ==> s.sessions[i].conn in s.inUse)
    && (forall i, j :: i in s.sessions && j in s.sessions && i != j && Holds(s, i) && Holds(s, j) ==>
          s.sessions[i].conn != s.sessions[j].conn)
  }

  predicate Holds(s: State, i: nat)
    requires i in s.sessions
  {
    Live(s.sessions[i].phase) || s.sessions[i].phase.Dropped?
  }

  /** Outside the lock at most one pooled connection is idle. */
  ghost predicate OneIdle(s: State) {
    forall a, b :: a in Idle(s) && b in Idle(s) ==> a == b
  }

  predicate BeforeBody(p: Phase) {
    p.Resolving? || p.Connecting? || p.Writing? || p.ReadingHead?
  }

  /** Until its head has arrived, a session may reconnect if and only if it has not done so yet. */
  predicate OneRetry(s: State, i: nat)
    requires i in s.sessions
  {
    var x := s.sessions[i];
    x.retries <= 1 && (BeforeBody(x.phase) ==> (x.conn in s.mayRetry <==> x.retries == 0))
  }

  /** A request's callback is in the table until its session has finished, and fires then. */
  ghost predicate Accounted(s: State) {
    && (forall i :: i in s.sessions ==> 1 <= i <= s.lastRequest)
    && (forall i: nat :: i in s.callbacks <==>
          1 <= i <= s.lastRequest && (i in s.sessions ==> !s.sessions[i].phase.Finished?))
    && (forall i: nat :: s.fired[i] == if i in s.sessions && s.sessions[i].phase.Finished? then 1 else 0)
    && (forall i :: i in s.sessions && s.sessions[i].phase.Dropped? ==> s.stopped || i in s.threw)
    && (forall i :: i in s.threw ==> i in s.sessions && s.sessions[i].phase.Dropped?)
  }

  ghost predicate Inv(s: State) {
    && Exclusive(s) && OneIdle(s) && Accounted(s)
    && forall i :: i in s.sessions ==> OneRetry(s, i)
  }

  /** The invariant while the handler of session `id` runs; its retry mark may be out of date. */
  ghost predicate InvBut(s: State, id: nat) {
    && Exclusive(s) && OneIdle(s) && Accounted(s)
    && id in s.sessions && Live(s.sessions[id].phase) && s.sessions[id].retries <= 1
    && forall i :: i in s.sessions && i != id ==> OneRetry(s, i)
  }

  /**
   * `t` is `s` with session `id` in another phase, perhaps fewer pooled connections, and its own
   * connection released if the session no longer holds it.
   */
  ghost predicate Moves(s: State, t: State, id: nat) {
    && id in s.sessions && id in t.sessions
    && t.sessions == s.sessions[id := s.sessions[id].(phase := t.sessions[id].phase)]
    && (Holds(t, id) ==> Holds(s, id))
    && t.pool <= s.pool && t.mayRetry == s.mayRetry && t.nextConn == s.nextConn
    && t.inUse <= s.inUse && s.inUse <= t.inUse + (if Holds(t, id) || !Holds(s, id) then {} else {s.sessions[id].conn})
  }

  lemma MoveExclusive(s: State, t: State, id: nat)
    requires Exclusive(s) && Moves(s, t, id)
    ensures Exclusive(t)
  {
    forall i | i in t.sessions && Holds(t, i)
      ensures t.sessions[i].conn in t.inUse
    {
      assert Holds(s, i);
    }
  }

  lemma MoveRetry(s: State, t: State, id: nat)
    requires Moves(s, t, id) && s.sessions[id].retries <= 1
    requires BeforeBody(t.sessions[id].phase) ==> BeforeBody(s.sessions[id].phase) && OneRetry(s, id)
    requires forall i :: i in s.sessions && i != id ==> OneRetry(s, i)
    ensures forall i :: i in t.sessions ==> OneRetry(t, i)
  {
    forall i | i in t.sessions
      ensures OneRetry(t, i)
    {
      assert i != id ==> OneRetry(s, i);
    }
  }

  lemma MoveAccounted(s: State, t: State, id: nat)
    requires Accounted(s) && Moves(s, t, id)
    requires !s.sessions[id].phase.Finished? && !s.sessions[id].phase.Dropped?
    requires !t.sessions[id].phase.Finished?
    requires t.lastRequest == s.lastRequest && t.callbacks == s.callbacks && t.fired == s.fired
    requires (s.stopped ==> t.stopped) && s.threw <= t.threw <= s.threw + {id}
    requires t.sessions[id].phase.Dropped? ==> t.stopped || id in t.threw
    requires id in t.threw && id !in s.threw ==> t.sessions[id].phase.Dropped?
    ensures Accounted(t)
  {
  }

  lemma MoveKeeps(s: State, t: State, id: nat)
    requires InvBut(s, id) && Moves(s, t, id) && OneIdle(t)
    requires BeforeBody(t.sessions[id].phase) ==> BeforeBody(s.sessions[id].phase) && OneRetry(s, id)
    requires !t.sessions[id].phase.Finished?
    requires t.lastRequest == s.lastRequest && t.callbacks == s.callbacks && t.fired == s.fired
    requires (s.stopped ==> t.stopped) && s.threw <= t.threw <= s.threw + {id}
    requires t.sessions[id].phase.Dropped? ==> t.stopped || id in t.threw
    requires id in t.threw && id !in s.threw ==> t.sessions[id].phase.Dropped?
    ensures Inv(t)
  {
    hide Exclusive, OneIdle, Accounted, OneRetry;
    MoveExclusive(s, t, id);
    MoveRetry(s, t, id);
    MoveAccounted(s, t, id);
  }

  lemma FinishKeeps(s: State, id: nat, ok: bool, keep: nat)
    requires InvBut(s, id)
    ensures Inv(Finish(s, id, ok, keep))
  {
    hide Pruned, Exclusive, Accounted, OneRetry;
    var t := Finish(s, id, ok, keep);
    assert Idle(t) == t.pool - t.inUse;
    assert OneIdle(t);
    MoveKeeps(s, t, id);
  }

  /** `t` is `s` after session `id` was given connection `c`, which nobody else was using. */
  ghost predicate Takes(s: State, t: State, id: nat, c: nat) {
    && c !in s.inUse && c < t.nextConn && s.nextConn <= t.nextConn
    && id in t.sessions && t.sessions[id].conn == c && Live(t.sessions[id].phase)
    && t.sessions == s.sessions[id := t.sessions[id]]
    && t.inUse == s.inUse + {c} && t.pool <= s.pool + {c}
    && (forall x :: x != c ==> (x in t.mayRetry <==> x in s.mayRetry))
    && t.lastRequest == s.lastRequest && t.callbacks == s.callbacks && t.fired == s.fired
    && t.stopped == s.stopped && t.threw == s.threw
  }

  lemma TakeExclusive(s: State, t: State, id: nat, c: nat)
    requires Exclusive(s) && Takes(s, t, id, c)
    ensures Exclusive(t)
  {
  }

  lemma TakeOneIdle(s: State, t: State, id: nat, c: nat)
    requires OneIdle(s) && Takes(s, t, id, c)
    ensures OneIdle(t)
  {
    assert Idle(t) <= Idle(s);
  }

  lemma TakeAccounted(s: State, t: State, id: nat, c: nat)
    requires Accounted(s) && Takes(s, t, id, c)
    requires 1 <= id <= s.lastRequest && (id in s.sessions ==> Live(s.sessions[id].phase))
    ensures Accounted(t)
  {
  }

  lemma TakeRetry(s: State, t: State, id: nat, c: nat, i: nat)
    requires Exclusive(s) && Takes(s, t, id, c)
    requires i != id && i in s.sessions && OneRetry(s, i)
    ensures OneRetry(t, i)
  {
    assert Holds(s, i) ==> s.sessions[i].conn != c;
  }

  lemma TakeKeeps(s: State, t: State, id: nat, c: nat)
    requires Exclusive(s) && OneIdle(s) && Accounted(s) && Takes(s, t, id, c)
    requires 1 <= id <= s.lastRequest && (id in s.sessions ==> Live(s.sessions[id].phase))
    requires forall i :: i in s.sessions && i != id ==> OneRetry(s, i)
    requires OneRetry(t, id)
    ensures Inv(t)
  {
    TakeExclusive(s, t, id, c);
    TakeOneIdle(s, t, id, c);
    TakeAccounted(s, t, id, c);
    forall i | i in t.sessions
      ensures OneRetry(t, i)
    {
      if i != id {
        TakeRetry(s, t, id, c, i);
      }
    }
  }

  lemma BeginKeeps(s: State, id: nat, pick: nat, open: bool)
    requires Inv(s) && Enabled(s, Begin(id, pick, open))
    ensures Inv(BeginSession(s, id, pick, open))
  {
    var t := BeginSession(s, id, pick, open);
    hide Exclusive, OneIdle, Accounted, OneRetry;
    var c := t.sessions[id].conn;
    assert c !in s.inUse by { NextUnused(s); }
    assert OneRetry(t, id) by { FirstTry(t, id); }
    assert c < t.nextConn by { NextUnused(s); }
    TakeKeeps(s, t, id, c);
  }

  lemma FirstTry(t: State, id: nat)
    requires id in t.sessions && t.sessions[id].retries == 0 && t.sessions[id].conn in t.mayRetry
    ensures OneRetry(t, id)
  {
  }

  lemma NextUnused(s: State)
    requires Exclusive(s)
    ensures s.nextConn !in s.inUse && s.nextConn !in s.mayRetry && s.nextConn !in s.pool
    ensures forall c :: c in s.pool ==> c < s.nextConn
  {
  }

  /** Moving on to the next operation; a head is only waited for before the body. */
  lemma PhaseKeeps(s: State, id: nat, p: Phase)
    requires InvBut(s, id) && Live(p)
    requires BeforeBody(p) ==> BeforeBody(s.sessions[id].phase) && OneRetry(s, id)
    ensures Inv(SetPhase(s, id, p))
  {
    hide Exclusive, Accounted, OneRetry;
    var t := SetPhase(s, id, p);
    assert Idle(t) == Idle(s);
    MoveKeeps(s, t, id);
  }

  /** A handler that ends without calling back, because the client is stopped or because it throws. */
  lemma DropKeeps(s: State, id: nat, t: State)
    requires InvBut(s, id)
    requires t == Throw(s, id) || (s.stopped && t == SetPhase(s, id, Dropped))
    ensures Inv(t)
  {
    hide Exclusive, Accounted, OneRetry;
    assert Idle(t) == Idle(s);
    MoveKeeps(s, t, id);
  }

  lemma RetryKeeps(s: State, id: nat, aborted: bool, keep: nat)
    requires InvBut(s, id) && BeforeBody(s.sessions[id].phase) && OneRetry(s, id)
    ensures Inv(HeadFailed(s, id, aborted, keep))
  {
    var x := s.sessions[id];
    if x.conn in s.mayRetry && !aborted && x.conn in s.pool {
      NextUnused(s);
      TakeKeeps(s, HeadFailed(s, id, aborted, keep), id, s.nextConn);
    } else {
      FinishKeeps(s, id, false, keep);
    }
  }

  lemma MarkKeeps(s: State, id: nat)
    requires InvBut(s, id)
    ensures InvBut(s.(mayRetry := s.mayRetry + {s.sessions[id].conn}), id)
  {
    var t := s.(mayRetry := s.mayRetry + {s.sessions[id].conn});
    assert Idle(t) == Idle(s);
    forall i | i in t.sessions && i != id
      ensures OneRetry(t, i)
    {
      assert OneRetry(s, i);
    }
  }

  lemma HeadKeeps(s: State, id: nat, head: Head, keep: nat)
    requires InvBut(s, id)
    ensures Inv(HeadRead(s, id, head, keep))
  {
    hide Inv, Finish, Exclusive, OneIdle, Accounted;
    MarkKeeps(s, id);
    var t := s.(mayRetry := s.mayRetry + {s.sessions[id].conn});
    match head
    case Malformed => FinishKeeps(t, id, false, keep);
    case LengthHere => FinishKeeps(t, id, true, keep);
    case NoBody => FinishKeeps(t, id, true, keep);
    case LengthMore => PhaseKeeps(t, id, ReadingBody);
    case LengthUnreadable => DropKeeps(t, id, Throw(t, id));
    case Chunked => PhaseKeeps(t, id, ReadingSize);
    case UntilClose => PhaseKeeps(t, id, ReadingToEnd);
  }

  lemma ChunkKeeps(s: State, id: nat, chunk: Chunk, keep: nat)
    requires id in s.sessions && InvBut(s, id)
    ensures Inv(ChunkRead(s, id, chunk, keep))
  {
    hide InvBut, Inv, Finish, Throw;
    match chunk
    case Last => FinishKeeps(s, id, true, keep);
    case Data => PhaseKeeps(s, id, ReadingSize);
    case Wrapped => DropKeeps(s, id, Throw(s, id));
  }

  lemma GoodKeeps(s: State, id: nat, keep: nat)
    requires id in s.sessions && InvBut(s, id) && OneRetry(s, id)
    requires Possible(s.sessions[id].phase, Good)
    ensures Inv(GoodRead(s, id, keep))
  {
    hide InvBut, Inv, Finish, OneRetry;
    match s.sessions[id].phase
    case Resolving => PhaseKeeps(s, id, Connecting);
    case Connecting => PhaseKeeps(s, id, Writing);
    case Writing => PhaseKeeps(s, id, ReadingHead);
    case ReadingBody => FinishKeeps(s, id, true, keep);
    case ReadingToEnd => FinishKeeps(s, id, true, keep);
    case ReadingChunk(chunk) => ChunkKeeps(s, id, chunk, keep);
    case _ => LiveOnly(s, id);
  }

  lemma LineKeeps(s: State, id: nat, line: SizeLine, keep: nat)
    requires id in s.sessions && InvBut(s, id) && OneRetry(s, id)
    ensures Inv(LineRead(s, id, line, keep))
  {
    hide InvBut, Finish, OneRetry;
    match line
    case BadSize => FinishKeeps(s, id, false, keep);
    case Here(chunk) => ChunkKeeps(s, id, chunk, keep);
    case More(chunk) => PhaseKeeps(s, id, ReadingChunk(chunk));
  }

  lemma LiveOnly(s: State, id: nat)
    requires id in s.sessions && InvBut(s, id) && OneRetry(s, id)
    ensures Inv(s) && Live(s.sessions[id].phase)
  {
  }

  lemma HandleKeeps(s: State, id: nat, outcome: Outcome, keep: nat)
    requires id in s.sessions && InvBut(s, id) && OneRetry(s, id)
    requires Possible(s.sessions[id].phase, outcome)
    ensures Inv(Handle(s, id, outcome, keep))
  {
    hide InvBut, Inv, Finish, OneRetry, HeadRead, HeadFailed, GoodRead, LineRead;
    if s.stopped {
      DropKeeps(s, id, SetPhase(s, id, Dropped));
    } else {
      match outcome
      case GoodHead(head) => HeadKeeps(s, id, head, keep);
      case Failed(aborted) =>
        if s.sessions[id].phase.ReadingHead? {
          RetryKeeps(s, id, aborted, keep);
        } else {
          FinishKeeps(s, id, false, keep);
        }
      case Oversize => FinishKeeps(s, id, false, keep);
      case GoodLine(line) => LineKeeps(s, id, line, keep);
      case Good => GoodKeeps(s, id, keep);
    }
  }

  lemma NotifyKeeps(s: State, id: nat)
    requires Inv(s) && Enabled(s, Notify(id))
    ensures Inv(Apply(s, Notify(id)))
  {
    var t := Apply(s, Notify(id));
    assert Accounted(t) by { NotifyAccounts(s, id); }
    hide Exclusive, Accounted, OneRetry;
    assert Idle(t) == Idle(s);
    MoveExclusive(s, t, id);
    assert s.sessions[id].retries <= 1 by { RetryAtMostOne(s, id); }
    MoveRetry(s, t, id);
  }

  lemma RetryAtMostOne(s: State, id: nat)
    requires id in s.sessions && OneRetry(s, id)
    ensures s.sessions[id].retries <= 1
  {
  }

  lemma NotifyAccounts(s: State, id: nat)
    requires Accounted(s) && Enabled(s, Notify(id))
    ensures Accounted(Apply(s, Notify(id)))
  {
  }

  /** Steps that leave sessions and connections alone and only take from the pool. */
  lemma OthersKeep(s: State, t: State)
    requires Exclusive(s) && OneIdle(s) && forall i :: i in s.sessions ==> OneRetry(s, i)
    requires t.sessions == s.sessions && t.inUse == s.inUse && t.mayRetry == s.mayRetry
    requires t.nextConn == s.nextConn && t.pool <= s.pool
    ensures Exclusive(t) && OneIdle(t) && forall i :: i in t.sessions ==> OneRetry(t, i)
  {
    assert forall i :: i in s.sessions ==> Holds(t, i) == Holds(s, i);
    assert forall i :: i in s.sessions && OneRetry(s, i) ==> OneRetry(t, i);
    assert Idle(t) <= Idle(s);
  }

  lemma RegisterKeeps(s: State)
    requires Inv(s)
    ensures Inv(Apply(s, Register))
  {
    OthersKeep(s, Apply(s, Register));
    hide Exclusive, OneIdle, OneRetry;
  }

  lemma StopKeeps(s: State)
    requires Inv(s)
    ensures Inv(s.(pool := {})) && Inv(s.(stopped := true))
  {
    hide Exclusive, OneIdle, OneRetry;
    OthersKeep(s, s.(pool := {}));
    OthersKeep(s, s.(stopped := true));
  }

  lemma StepKeepsInv(s: State, step: Step)
    requires Inv(s)
    ensures Inv(Apply(s, step))
  {
    if Enabled(s, step) {
      match step
      case Begin(id, pick, open) => BeginKeeps(s, id, pick, open);
      case Complete(id, outcome, keep) =>
        assert InvBut(s, id);
        HandleKeeps(s, id, outcome, keep);
      case Register => RegisterKeeps(s);
      case Notify(id) => NotifyKeeps(s, id);
      case ClearPool => StopKeeps(s);
      case CloseGate => StopKeeps(s);
    }
  }

  lemma {:induction false} RunKeepsInv(s: State, steps: seq<Step>)
    requires Inv(s)
    ensures Inv(Run(s, steps))
    decreases |steps|
  {
    hide Inv, Apply;
    if steps != [] {
      StepKeepsInv(s, steps[0]);
      RunKeepsInv(Apply(s, steps[0]), steps[1..]);
    }
  }

  lemma ReachableInv(steps: seq<Step>)
    ensures Inv(Run(INITIAL, steps))
  {
    assert Idle(INITIAL) == {};
    RunKeepsInv(INITIAL, steps);
  }

  // ----- guarantees over whole runs -----

  /**
   * In every reachable state two sessions that are not over hold different connections, each
   * marked in use, and at most one pooled connection is idle.
   */
  lemma PoolIsExclusive(steps: seq<Step>)
    ensures var s := Run(INITIAL, steps);
      && (forall i, j |
            i in s.sessions && j in s.sessions && i != j
            && Live(s.sessions[i].phase) && Live(s.sessions[j].phase)
          :: s.sessions[i].conn != s.sessions[j].conn)
      && (forall i :: i in s.sessions && Live(s.sessions[i].phase) ==> s.sessions[i].conn !in Idle(s))
      && |Idle(s)| <= 1
  {
    hide Run;
    ReachableInv(steps);
    var s := Run(INITIAL, steps);
    assert forall i, j :: i in s.sessions && j in s.sessions && Holds(s, i) && Holds(s, j) && i != j ==>
      s.sessions[i].conn != s.sessions[j].conn;
    assert forall i :: i in s.sessions && Live(s.sessions[i].phase) ==> Holds(s, i);
    AtMostOne(Idle(s));
  }

  lemma AtMostOne(x: set<nat>)
    requires forall a, b :: a in x && b in x ==> a == b
    ensures |x| <= 1
  {
    if x != {} {
      var a :| a in x;
      assert x == {a};
    }
  }

  /**
   * Ending one request never takes another's connection out of the pool, and it leaves an idle one
   * for the next request whenever it could: after a success its own connection counts.
   */
  lemma PruningSpares(steps: seq<Step>, id: nat, ok: bool, keep: nat, other: nat)
    requires var s := Run(INITIAL, steps);
      && id in s.sessions && Live(s.sessions[id].phase)
      && other in s.sessions && Live(s.sessions[other].phase) && other != id
    ensures var s := Run(INITIAL, steps);
      var t := Finish(s, id, ok, keep);
      && (s.sessions[other].conn in s.pool ==> s.sessions[other].conn in t.pool)
      && (ok && s.sessions[id].conn in s.pool ==> |Idle(t)| == 1)
      && (!ok ==> s.sessions[id].conn !in t.pool)
  {
    hide Run;
    ReachableInv(steps);
    var s := Run(INITIAL, steps);
    var t := Finish(s, id, ok, keep);
    assert Holds(s, id) && Holds(s, other);
    assert Idle(t) == t.pool - t.inUse;
  }

  /**
   * What a failed head read does: the first time, unless the operation was aborted or the pool no
   * longer has the connection, the request goes on with a connection nobody had before; any other
   * time it ends with the error.
   */
  lemma FailedHead(steps: seq<Step>, id: nat, aborted: bool, keep: nat)
    requires var s := Run(INITIAL, steps);
      id in s.sessions && s.sessions[id].phase.ReadingHead? && !s.stopped
    ensures var s := Run(INITIAL, steps);
      var t := Apply(s, Complete(id, Failed(aborted), keep));
      && id in t.sessions
      && if s.sessions[id].retries == 0 && !aborted && s.sessions[id].conn in s.pool then
           && t.sessions[id].phase == Resolving && t.sessions[id].retries == 1
           && t.sessions[id].conn !in s.pool + s.inUse
           && s.sessions[id].conn !in t.pool && t.sessions[id].conn in t.pool
         else t.sessions[id].phase == Notifying(false) && s.sessions[id].conn !in t.pool
  {
    hide Run, Pruned;
    ReachableInv(steps);
    var s := Run(INITIAL, steps);
    assert OneRetry(s, id);
    NextUnused(s);
  }

  /** Every callback fires at most once, and every request uses at most two connections. */
  lemma CallbackAtMostOnce(steps: seq<Step>, id: nat)
    ensures var s := Run(INITIAL, steps);
      && s.fired[id] <= 1
      && (id in s.callbacks ==> s.fired[id] == 0)
      && (id in s.sessions ==> s.sessions[id].retries <= 1)
  {
    hide Run;
    ReachableInv(steps);
    var s := Run(INITIAL, steps);
    assert id in s.sessions ==> OneRetry(s, id);
  }

  /**
   * The three completions whose handler throws: a head with an unreadable Content-Length, the size
   * line of a wrapped chunk whose wrapped count of bytes is there, and the read that brings them.
   */
  predicate Throws(s: State, step: Step, id: nat) {
    && Enabled(s, step) && !s.stopped && step.Complete? && step.id == id
    && (|| step.outcome == GoodHead(LengthUnreadable)
        || step.outcome == GoodLine(Here(Wrapped))
        || (step.outcome == Good && s.sessions[id].phase == ReadingChunk(Wrapped)))
  }

  /** Does a handler of request `id` throw somewhere in the run? */
  ghost predicate EverThrows(s: State, steps: seq<Step>, id: nat)
    decreases |steps|
  {
    steps != [] && (Throws(s, steps[0], id) || EverThrows(Apply(s, steps[0]), steps[1..], id))
  }

  lemma StepThrows(s: State, step: Step, id: nat)
    ensures id in Apply(s, step).threw <==> id in s.threw || Throws(s, step, id)
  {
    hide Pruned;
  }

  lemma {:induction false} RunThrows(s: State, steps: seq<Step>, id: nat)
    ensures id in Run(s, steps).threw <==> id in s.threw || EverThrows(s, steps, id)
    decreases |steps|
  {
    hide Apply, Throws;
    if steps != [] {
      StepThrows(s, steps[0], id);
      RunThrows(Apply(s, steps[0]), steps[1..], id);
    }
  }

  /**
   * A request of a client that was not stopped, once begun and with nothing pending any more, has
   * had its callback fired exactly once, if and only if none of its handlers threw; otherwise the
   * callback stays in the table for ever.
   */
  lemma CallbackExactlyOnce(steps: seq<Step>, id: nat)
    requires var s := Run(INITIAL, steps);
      && !s.stopped && id in s.sessions
      && !Live(s.sessions[id].phase) && !s.sessions[id].phase.Notifying?
    ensures var s := Run(INITIAL, steps);
      && (s.fired[id] == 1 <==> !EverThrows(INITIAL, steps, id))
      && (id in s.callbacks <==> EverThrows(INITIAL, steps, id))
  {
    hide Run, EverThrows;
    ReachableInv(steps);
    RunThrows(INITIAL, steps, id);
  }

  // ----- what one request goes through, told by its completions alone -----

  /** One completion of a request's operations, and whether its connection was in the pool then. */
  datatype Note = Note(outcome: Outcome, pooled: bool)

  /**
   * What an operation's completion leads to: the next operation, the end with or without an error,
   * or, with Dropped, an exception. None where the operation cannot end that way.
   */
  function Next(p: Phase, n: Note, reconnected: bool): Option<Phase> {
    match n.outcome
    case Failed(aborted) =>
      if !Live(p) then None
      else if p.ReadingHead? && !reconnected && !aborted && n.pooled then Some(Resolving)
      else Some(Notifying(false))
    case Oversize =>
      if p.ReadingHead? || p.ReadingBody? || p.ReadingToEnd? || p.ReadingSize? || p.ReadingChunk?
      then Some(Notifying(false)) else None
    case GoodHead(head) =>
      if !p.ReadingHead? then None
      else Some(
        if head.LengthHere? || head.NoBody? then Notifying(true)
        else if head.Malformed? then Notifying(false)
        else if head.LengthUnreadable? then Dropped
        else if head.LengthMore? then ReadingBody
        else if head.UntilClose? then ReadingToEnd
        else ReadingSize)
    case GoodLine(line) =>
      if !p.ReadingSize? then None
      else Some(
        if line.BadSize? then Notifying(false)
        else if line.More? then ReadingChunk(line.chunk)
        else AfterChunk(line.chunk))
    case Good =>
      match p
      case Resolving => Some(Connecting)
      case Connecting => Some(Writing)
      case Writing => Some(ReadingHead)
      case ReadingBody => Some(Notifying(true))
      case ReadingToEnd => Some(Notifying(true))
      case ReadingChunk(chunk) => Some(AfterChunk(chunk))
      case _ => None
  }

  function AfterChunk(chunk: Chunk): Phase {
    if chunk.Last? then Notifying(true) else if chunk.Data? then ReadingSize else Dropped
  }

  /** Where a list of completions leads from operation `p`; those that cannot happen do not count. */
  function Trace(p: Phase, reconnected: bool, notes: seq<Note>): (Phase, bool)
    decreases |notes|
  {
    if notes == [] || !Live(p) then (p, reconnected)
    else match Next(p, notes[0], reconnected)
      case None => Trace(p, reconnected, notes[1..])
      case Some(q) => Trace(q, reconnected || (p.ReadingHead? && q.Resolving?), notes[1..])
  }

  /** The completions of request `id` in a run. */
  ghost function Notes(s: State, steps: seq<Step>, id: nat): seq<Note>
    decreases |steps|
  {
    if steps == [] then []
    else
      (if steps[0].Complete? && steps[0].id == id && id in s.sessions
       then [Note(steps[0].outcome, s.sessions[id].conn in s.pool)] else [])
      + Notes(Apply(s, steps[0]), steps[1..], id)
  }

  /** The session is where `trace` says; the callback of one that ended may have fired. */
  predicate Shows(s: State, id: nat, trace: (Phase, bool)) {
    && id in s.sessions
    && (s.sessions[id].phase == trace.0
        || (trace.0.Notifying? && s.sessions[id].phase == Finished(trace.0.ok)))
    && s.sessions[id].retries == (if trace.1 then 1 else 0)
  }

  lemma {:induction false} StoppedStays(s: State, steps: seq<Step>)
    ensures s.stopped ==> Run(s, steps).stopped
    decreases |steps|
  {
    hide Apply;
    if steps != [] {
      StepStays(s, steps[0]);
      StoppedStays(Apply(s, steps[0]), steps[1..]);
    }
  }

  lemma StepStays(s: State, step: Step)
    ensures s.stopped ==> Apply(s, step).stopped
  {
    hide Pruned;
  }

  lemma OwnCompletion(s: State, id: nat, outcome: Outcome, keep: nat, reconnected: bool)
    requires Inv(s) && !s.stopped && id in s.sessions && Live(s.sessions[id].phase)
    requires s.sessions[id].retries == if reconnected then 1 else 0
    ensures var p, t := s.sessions[id].phase, Apply(s, Complete(id, outcome, keep));
      match Next(p, Note(outcome, s.sessions[id].conn in s.pool), reconnected)
      case None => t == s
      case Some(q) => Shows(t, id, (q, reconnected || (p.ReadingHead? && q.Resolving?)))
  {
    hide Pruned, Exclusive, OneIdle, Accounted;
    assert OneRetry(s, id);
  }

  /** A step that is not a completion of this request, or comes after its end. */
  lemma OtherStep(s: State, step: Step, id: nat, trace: (Phase, bool))
    requires Shows(s, id, trace) && !s.stopped && !(step.Complete? && step.id == id && Live(trace.0))
    ensures Shows(Apply(s, step), id, trace)
  {
    hide Pruned;
  }

  lemma {:induction false} TraceShown(s: State, steps: seq<Step>, id: nat, p: Phase, reconnected: bool)
    requires Inv(s) && Shows(s, id, (p, reconnected)) && !Run(s, steps).stopped
    ensures Shows(Run(s, steps), id, Trace(p, reconnected, Notes(s, steps, id)))
    decreases |steps|
  {
    hide Inv, Apply, Next;
    if steps != [] {
      var step := steps[0];
      var t := Apply(s, step);
      StoppedStays(s, steps);
      StepKeepsInv(s, step);
      var later := Notes(t, steps[1..], id);
      if step.Complete? && step.id == id {
        var note := Note(step.outcome, s.sessions[id].conn in s.pool);
        assert ([note] + later)[1..] == later;
        if Live(p) {
          OwnCompletion(s, id, step.outcome, step.keep, reconnected);
          match Next(p, note, reconnected)
          case None => TraceShown(t, steps[1..], id, p, reconnected);
          case Some(q) =>
            TraceShown(t, steps[1..], id, q, reconnected || (p.ReadingHead? && q.Resolving?));
        } else {
          OtherStep(s, step, id, (p, reconnected));
          TraceShown(t, steps[1..], id, p, reconnected);
        }
      } else {
        OtherStep(s, step, id, (p, reconnected));
        assert [] + later == later;
        TraceShown(t, steps[1..], id, p, reconnected);
      }
    }
  }

  /**
   * In every run of a client that is not stopped, what a request waits for, and whether its callback
   * gets a response or an error, is what its own completions say: it starts by connecting, or by
   * writing if it was given an open idle connection, and goes on as Trace tells.
   */
  lemma RequestFollowsTrace(before: seq<Step>, id: nat, pick: nat, open: bool, after: seq<Step>)
    requires var s := Run(INITIAL, before);
      1 <= id <= s.lastRequest && id !in s.sessions && (Idle(s) == {} || pick in Idle(s))
    requires !Run(INITIAL, before + ([Begin(id, pick, open)] + after)).stopped
    ensures var s := Run(INITIAL, before);
      Shows(Run(INITIAL, before + ([Begin(id, pick, open)] + after)), id,
            Trace(if open && Idle(s) != {} then Writing else Resolving, false,
                  Notes(Apply(s, Begin(id, pick, open)), after, id)))
  {
    hide Run, Inv, Trace, Notes;
    var s := Run(INITIAL, before);
    var t := Apply(s, Begin(id, pick, open));
    RunConcat(INITIAL, before, [Begin(id, pick, open)] + after);
    RunFirst(s, Begin(id, pick, open), after);
    ReachableInv(before);
    StepKeepsInv(s, Begin(id, pick, open));
    TraceShown(t, after, id, if open && Idle(s) != {} then Writing else Resolving, false);
  }

  // ----- the completions of a complete response -----

  /** Size lines and chunks up to the last one, each chunk there with its line or read after it. */
  predicate ChunkedBodyRead(os: seq<Outcome>) {
    os != [] &&
    match os[0]
    case GoodLine(Here(Last)) => |os| == 1
    case GoodLine(More(Last)) => os[1..] == [Good]
    case GoodLine(Here(Data)) => ChunkedBodyRead(os[1..])
    case GoodLine(More(Data)) => |os| > 1 && os[1] == Good && ChunkedBodyRead(os[2..])
    case _ => false
  }

  /** A head, and the body it announces to its end. */
  predicate ResponseRead(os: seq<Outcome>) {
    os != [] &&
    match os[0]
    case GoodHead(LengthHere) => |os| == 1
    case GoodHead(NoBody) => |os| == 1
    case GoodHead(LengthMore) => os[1..] == [Good]
    case GoodHead(UntilClose) => os[1..] == [Good]
    case GoodHead(Chunked) => ChunkedBodyRead(os[1..])
    case _ => false
  }

  /** The request went out on an open connection or a new one. */
  function Sent(open: bool): seq<Outcome> {
    if open then [Good] else [Good, Good, Good]
  }

  predicate StartsWith(os: seq<Outcome>, head: seq<Outcome>) {
    |head| <= |os| && os[..|head|] == head
  }

  /** A request that gets its response, at once or on a second connection after one failed head read. */
  predicate Answered(open: bool, os: seq<Outcome>) {
    var n := |Sent(open)|;
    StartsWith(os, Sent(open))
    && (|| ResponseRead(os[n..])
        || (|os| > n && os[n] == Failed(false)
            && StartsWith(os[n + 1..], Sent(false)) && ResponseRead(os[n + 4..])))
  }

  /** The completions that count. */
  function Counted(p: Phase, reconnected: bool, notes: seq<Note>): seq<Outcome>
    decreases |notes|
  {
    if notes == [] || !Live(p) then []
    else match Next(p, notes[0], reconnected)
      case None => Counted(p, reconnected, notes[1..])
      case Some(q) =>
        [notes[0].outcome] + Counted(q, reconnected || (p.ReadingHead? && q.Resolving?), notes[1..])
  }

  predicate HeadMissing(reconnected: bool, os: seq<Outcome>) {
    || ResponseRead(os)
    || (!reconnected && StartsWith(os, [Failed(false), Good, Good, Good]) && ResponseRead(os[4..]))
  }

  predicate ChunkMissing(chunk: Chunk, os: seq<Outcome>) {
    os != [] && os[0] == Good &&
    match chunk
    case Last => |os| == 1
    case Data => ChunkedBodyRead(os[1..])
    case Wrapped => false
  }

  /** What is still missing, in operation `p`, for the request to be answered. */
  predicate Missing(p: Phase, reconnected: bool, os: seq<Outcome>) {
    match p
    case Resolving => StartsWith(os, [Good, Good, Good]) && HeadMissing(reconnected, os[3..])
    case Connecting => StartsWith(os, [Good, Good]) && HeadMissing(reconnected, os[2..])
    case Writing => StartsWith(os, [Good]) && HeadMissing(reconnected, os[1..])
    case ReadingHead => HeadMissing(reconnected, os)
    case ReadingBody => os == [Good]
    case ReadingToEnd => os == [Good]
    case ReadingSize => ChunkedBodyRead(os)
    case ReadingChunk(chunk) => ChunkMissing(chunk, os)
    case Notifying(ok) => ok && os == []
    case _ => false
  }

  lemma FirstOf(o: Outcome, os: seq<Outcome>)
    ensures ([o] + os)[0] == o && ([o] + os)[1..] == os && |[o] + os| == 1 + |os|
    ensures |os| >= 1 ==> ([o] + os)[1] == os[0] && ([o] + os)[2..] == os[1..]
    ensures |os| >= 2 ==> ([o] + os)[3..] == os[2..]
    ensures |os| >= 3 ==> ([o] + os)[4..] == os[3..]
    ensures StartsWith(os, []) && (StartsWith([o] + os, [Good]) <==> o == Good)
    ensures StartsWith([o] + os, [Good, Good]) <==> o == Good && StartsWith(os, [Good])
    ensures StartsWith([o] + os, [Good, Good, Good]) <==> o == Good && StartsWith(os, [Good, Good])
    ensures StartsWith([o] + os, [Failed(false), Good, Good, Good])
       <==> o == Failed(false) && StartsWith(os, [Good, Good, Good])
  {
    Starts(o, os, Good, []);
    Starts(o, os, Good, [Good]);
    Starts(o, os, Good, [Good, Good]);
    Starts(o, os, Failed(false), [Good, Good, Good]);
    assert [Good] + [] == [Good] && [Good] + [Good] == [Good, Good] && [Good] + [Good, Good] == [Good, Good, Good];
    assert [Failed(false)] + [Good, Good, Good] == [Failed(false), Good, Good, Good];
  }

  lemma Starts(o: Outcome, os: seq<Outcome>, p: Outcome, ps: seq<Outcome>)
    ensures StartsWith([o] + os, [p] + ps) <==> o == p && StartsWith(os, ps)
  {
    if |ps| <= |os| {
      assert ([o] + os)[..1 + |ps|] == [o] + os[..|ps|];
      assert ([o] + os[..|ps|])[1..] == os[..|ps|] && ([p] + ps)[1..] == ps;
      assert ([o] + os[..|ps|])[0] == o && ([p] + ps)[0] == p;
    }
  }

  /** One completion takes away what it brings. */
  lemma OneLessMissing(p: Phase, n: Note, reconnected: bool, rest: seq<Outcome>)
    requires Live(p) && Next(p, n, reconnected).Some?
    requires !Live(Next(p, n, reconnected).value) ==> rest == []
    ensures var q := Next(p, n, reconnected).value;
      var re := reconnected || (p.ReadingHead? && q.Resolving?);
      Missing(p, reconnected, [n.outcome] + rest) <==> Missing(q, re, rest)
  {
    hide StartsWith;
    FirstOf(n.outcome, rest);
    LongEnough(rest, [Good]);
    LongEnough(rest, [Good, Good]);
    if p.ReadingHead? {
      OneLessOfHead(n, reconnected, rest);
    } else if p.ReadingSize? {
      OneLessOfSize(n, reconnected, rest);
    } else if p.ReadingBody? || p.ReadingToEnd? {
      assert [n.outcome] + rest == [n.outcome];
      assert [n.outcome] == [Good] <==> n.outcome == Good;
    }
  }

  lemma OneLessOfHead(n: Note, reconnected: bool, rest: seq<Outcome>)
    requires Next(ReadingHead, n, reconnected).Some?
    requires !Live(Next(ReadingHead, n, reconnected).value) ==> rest == []
    ensures var q := Next(ReadingHead, n, reconnected).value;
      HeadMissing(reconnected, [n.outcome] + rest) <==> Missing(q, reconnected || q.Resolving?, rest)
  {
    hide StartsWith;
    FirstOf(n.outcome, rest);
    match n.outcome
    case Failed(aborted) =>
      LongEnough(rest, [Good, Good, Good]);
    case _ =>
  }

  lemma LongEnough(os: seq<Outcome>, head: seq<Outcome>)
    ensures StartsWith(os, head) ==> |head| <= |os|
  {
  }

  lemma OneLessOfSize(n: Note, reconnected: bool, rest: seq<Outcome>)
    requires Next(ReadingSize, n, reconnected).Some?
    requires !Live(Next(ReadingSize, n, reconnected).value) ==> rest == []
    ensures ChunkedBodyRead([n.outcome] + rest) <==> Missing(Next(ReadingSize, n, reconnected).value, reconnected, rest)
  {
    FirstOf(n.outcome, rest);
    if n.outcome == GoodLine(More(Last)) {
      assert rest == [Good] <==> rest != [] && rest[0] == Good && |rest| == 1;
    }
  }

  lemma {:induction false} TraceEndsWell(p: Phase, reconnected: bool, notes: seq<Note>)
    ensures Trace(p, reconnected, notes).0 == Notifying(true)
       <==> Missing(p, reconnected, Counted(p, reconnected, notes))
    decreases |notes|
  {
    hide Next, Missing, Notes;
    if notes == [] || !Live(p) {
      NothingMissing(p, reconnected);
    } else {
      match Next(p, notes[0], reconnected)
      case None => TraceEndsWell(p, reconnected, notes[1..]);
      case Some(q) =>
        var re := reconnected || (p.ReadingHead? && q.Resolving?);
        TraceEndsWell(q, re, notes[1..]);
        OneLessMissing(p, notes[0], reconnected, Counted(q, re, notes[1..]));
    }
  }

  lemma NothingMissing(p: Phase, reconnected: bool)
    ensures Missing(p, reconnected, []) <==> p == Notifying(true)
  {
  }

  /**
   * A request that is over has ended without an error if and only if the completions that count are
   * those of a complete response: sent, a head, and all of the body that head announces, on the first
   * connection or, after one head read that failed, on a second.
   */
  lemma EndsWellExactly(open: bool, notes: seq<Note>)
    ensures var p := if open then Writing else Resolving;
      Trace(p, false, notes).0 == Notifying(true) <==> Answered(open, Counted(p, false, notes))
  {
    hide Trace, Counted, ResponseRead;
    var p := if open then Writing else Resolving;
    TraceEndsWell(p, false, notes);
    var os := Counted(p, false, notes);
    var n := |Sent(open)|;
    if n <= |os| {
      SecondTry(os[n..]);
      assert |os| > n ==> os[n] == os[n..][0] && os[n + 1..] == os[n..][1..];
      assert |os| >= n + 4 ==> os[n + 4..] == os[n..][4..];
    }
  }

  lemma SecondTry(os: seq<Outcome>)
    ensures StartsWith(os, [Failed(false), Good, Good, Good])
       <==> os != [] && os[0] == Failed(false) && StartsWith(os[1..], [Good, Good, Good])
  {
    if os != [] {
      assert os == [os[0]] + os[1..];
      FirstOf(os[0], os[1..]);
    }
  }

  // ----- the pool and stop() -----

  /** A new request takes an idle pooled connection whenever there is one, and only then opens none. */
  lemma IdleIsReused(steps: seq<Step>, id: nat, pick: nat, open: bool)
    requires var s := Run(INITIAL, steps);
      1 <= id <= s.lastRequest && id !in s.sessions && (Idle(s) == {} || pick in Idle(s))
    ensures var s := Run(INITIAL, steps);
      var t := Apply(s, Begin(id, pick, open));
      && id in t.sessions && t.sessions[id].conn in t.pool * t.inUse
      && if Idle(s) != {} then
           t.sessions[id].conn in Idle(s) && t.pool == s.pool && Idle(t) == {}
         else
           t.sessions[id].conn !in s.pool + s.inUse && t.pool == s.pool + {t.sessions[id].conn}
  {
    hide Run;
    ReachableInv(steps);
    var s := Run(INITIAL, steps);
    NextUnused(s);
    if Idle(s) != {} {
      assert s.pool + {pick} == s.pool;
      assert forall c :: c in Idle(s) ==> c == pick;
      assert Idle(Apply(s, Begin(id, pick, open))) == Idle(s) - {pick};
    }
  }

  /** A registered request gets an id of its own, and its callback is in the table until it fires. */
  lemma RegisterIsNew(steps: seq<Step>)
    ensures var s := Run(INITIAL, steps);
      var t := Apply(s, Register);
      && t.lastRequest !in s.callbacks && t.lastRequest !in s.sessions && s.fired[t.lastRequest] == 0
      && t.callbacks == s.callbacks + {t.lastRequest} && 1 <= t.lastRequest
  {
    hide Run, Exclusive, OneIdle, OneRetry;
    ReachableInv(steps);
  }

  /** Once stop() has closed the gate, which waits for the handlers, no callback fires any more. */
  lemma NothingFiresAfterStop(before: seq<Step>, after: seq<Step>)
    requires forall id :: id in Run(INITIAL, before).sessions ==> !Run(INITIAL, before).sessions[id].phase.Notifying?
    ensures Run(INITIAL, before + ([CloseGate] + after)).fired == Run(INITIAL, before).fired
    ensures Run(INITIAL, before + ([CloseGate] + after)).callbacks >= Run(INITIAL, before).callbacks
  {
    hide Run;
    RunConcat(INITIAL, before, [CloseGate] + after);
    RunFirst(Run(INITIAL, before), CloseGate, after);
    ClosedIsQuiet(Apply(Run(INITIAL, before), CloseGate), after);
  }

  ghost predicate Quiet(s: State) {
    s.stopped && forall id :: id in s.sessions ==> !s.sessions[id].phase.Notifying?
  }

  lemma {:induction false} ClosedIsQuiet(s: State, steps: seq<Step>)
    requires Quiet(s)
    ensures Run(s, steps).fired == s.fired && Run(s, steps).callbacks >= s.callbacks
    decreases |steps|
  {
    hide Quiet, Apply;
    if steps != [] {
      StepIsQuiet(s, steps[0]);
      ClosedIsQuiet(Apply(s, steps[0]), steps[1..]);
    }
  }

  lemma StepIsQuiet(s: State, step: Step)
    requires Quiet(s)
    ensures var t := Apply(s, step); Quiet(t) && t.fired == s.fired && t.callbacks >= s.callbacks
  {
    hide Pruned;
  }

  /** Once stop() has emptied the pool, no request that had begun reconnects any more. */
  lemma NoReconnectAfterStop(before: seq<Step>, id: nat, after: seq<Step>)
    requires id in Run(INITIAL, before).sessions
    ensures var s, t := Run(INITIAL, before), Run(INITIAL, before + ([ClearPool] + after));
      id in t.sessions && t.sessions[id].conn == s.sessions[id].conn && t.sessions[id].retries == s.sessions[id].retries
  {
    hide Run;
    var s := Run(INITIAL, before);
    RunConcat(INITIAL, before, [ClearPool] + after);
    RunFirst(s, ClearPool, after);
    ReachableInv(before);
    assert s.sessions[id].conn < s.nextConn;
    UnpooledStays(Apply(s, ClearPool), after, id);
  }

  /** The session's connection is not in the pool and cannot come back, because only new ones do. */
  predicate Unpooled(s: State, id: nat) {
    id in s.sessions && s.sessions[id].conn !in s.pool && s.sessions[id].conn < s.nextConn
  }

  lemma {:induction false} UnpooledStays(s: State, steps: seq<Step>, id: nat)
    requires Unpooled(s, id)
    ensures var t := Run(s, steps);
      id in t.sessions && t.sessions[id].conn == s.sessions[id].conn && t.sessions[id].retries == s.sessions[id].retries
    decreases |steps|
  {
    hide Apply;
    if steps != [] {
      UnpooledStep(s, steps[0], id);
      UnpooledStays(Apply(s, steps[0]), steps[1..], id);
    }
  }

  lemma UnpooledStep(s: State, step: Step, id: nat)
    requires Unpooled(s, id)
    ensures var t := Apply(s, step);
      Unpooled(t, id) && t.sessions[id].conn == s.sessions[id].conn && t.sessions[id].retries == s.sessions[id].retries
  {
  }

  // ----- size lines -----

  /** What the handler of the size line finds in the buffer. */
  function Announced(buf: string): SizeLine {
    match ChunkedBody.FirstSize(buf)
    case Number(length, _, used) =>
      var chunk := if 2 + length >= ChunkedBody.WORD then Wrapped else if length == 0 then Last else Data;
      if (2 + length) % ChunkedBody.WORD > |buf| - used then More(chunk) else Here(chunk)
    case _ => BadSize
  }

  predicate ReadAs(chunk: Chunk, r: ChunkedBody.Round) {
    match chunk
    case Last => r.Took? && r.last
    case Data => r.Took? && !r.last
    case Wrapped => r.Threw?
  }

  /**
   * The automaton and the decoder agree on every size line, and on every further read that such a
   * line asks for: it completes as announced, or the stream ends too early.
   */
  lemma AnnouncedIsRead(i: ChunkedBody.Input)
    ensures var line, r := Announced(i.buf), ChunkedBody.ReadLine(i);
      match line
      case BadSize => r.Failed?
      case Here(chunk) => ReadAs(chunk, r)
      case More(chunk) =>
        var z := ChunkedBody.FirstSize(i.buf);
        z.Number? && if |i.buf| + |i.net| >= z.used + (2 + z.length) % ChunkedBody.WORD
                     then ReadAs(chunk, r) else r.Failed?
  {
    hide ChunkedBody.FirstSize;
  }

  lemma {:induction false} RunConcat(s: State, a: seq<Step>, b: seq<Step>)
    ensures Run(s, a + b) == Run(Run(s, a), b)
    decreases |a|
  {
    if a == [] {
      assert a + b == b;
    } else {
      assert (a + b)[0] == a[0] && (a + b)[1..] == a[1..] + b;
      RunConcat(Apply(s, a[0]), a[1..], b);
    }
  }

  /** A session whose handler ended without calling back stays as it is, and so does its callback. */
  lemma {:induction false} DroppedForGood(s: State, steps: seq<Step>, id: nat)
    requires id in s.sessions && s.sessions[id].phase.Dropped? && id <= s.lastRequest
    ensures var t := Run(s, steps);
      && id in t.sessions && t.sessions[id].phase.Dropped?
      && t.fired[id] == s.fired[id] && (id in t.callbacks <==> id in s.callbacks)
    decreases |steps|
  {
    hide Apply;
    if steps != [] {
      DroppedStays(s, steps[0], id);
      DroppedForGood(Apply(s, steps[0]), steps[1..], id);
    }
  }

  lemma DroppedStays(s: State, step: Step, id: nat)
    requires id in s.sessions && s.sessions[id].phase.Dropped? && id <= s.lastRequest
    ensures var t := Apply(s, step);
      && id in t.sessions && t.sessions[id].phase.Dropped? && id <= t.lastRequest
      && t.fired[id] == s.fired[id] && (id in t.callbacks <==> id in s.callbacks)
  {
    hide Pruned;
  }

  const CONNECTING: seq<Step> := [Register, Begin(1, 0, true)]

  const EXCHANGING: seq<Step> :=
    [Complete(1, Good, 0), Complete(1, Good, 0), Complete(1, Good, 0), Complete(1, GoodHead(Chunked), 0)]

  /** An ordinary request whose response turns out to be chunked. */
  const ONE_CHUNKED := CONNECTING + EXCHANGING

  /** A client with one request, which is in phase `p`. */
  function Alone(p: Phase): State {
    State({0}, {0}, {0}, 1, map[1 := Session(0, p, 0)], 1, {1}, multiset{}, false, {})
  }

  const AWAITING_SIZE := Alone(ReadingSize)

  lemma AloneConnects()
    ensures Run(INITIAL, CONNECTING) == Alone(Resolving)
  {
    var s := Apply(INITIAL, Register);
    assert Idle(s) == {};
    assert Apply(s, Begin(1, 0, true)) == Alone(Resolving);
  }

  lemma AloneGoesOn(p: Phase, outcome: Outcome, q: Phase)
    requires (p, outcome, q) == (Resolving, Good, Connecting) || (p, outcome, q) == (Connecting, Good, Writing)
      || (p, outcome, q) == (Writing, Good, ReadingHead)
      || (p, outcome, q) == (ReadingHead, GoodHead(Chunked), ReadingSize)
    ensures Apply(Alone(p), Complete(1, outcome, 0)) == Alone(q)
  {
    assert {0} + {0} == {0};
  }

  lemma ChunkedRun()
    ensures Run(INITIAL, ONE_CHUNKED) == AWAITING_SIZE
  {
    hide Apply, Alone;
    AloneConnects();
    AloneGoesOn(Resolving, Good, Connecting);
    AloneGoesOn(Connecting, Good, Writing);
    AloneGoesOn(Writing, Good, ReadingHead);
    AloneGoesOn(ReadingHead, GoodHead(Chunked), ReadingSize);
    RunConcat(INITIAL, CONNECTING, EXCHANGING);
    assert Run(Alone(Resolving), EXCHANGING) == Run(Alone(Connecting), EXCHANGING[1..]);
    assert Run(Alone(Connecting), EXCHANGING[1..]) == Run(Alone(Writing), EXCHANGING[1..][1..]);
  }

  /** With the size line "-1" the callback is never fired, whatever happens later. */
  lemma MinusOneLosesCallback(later: seq<Step>)
    ensures var line := GoodLine(Announced("-1\r\n\r\n"));
      var s := Run(INITIAL, ONE_CHUNKED + ([Complete(1, line, 0)] + later));
      1 in s.sessions && s.sessions[1].phase.Dropped? && s.fired[1] == 0 && 1 in s.callbacks
  {
    hide Run, Apply, Announced;
    var step := Complete(1, GoodLine(Here(Wrapped)), 0);
    MinusOneThrows();
    ChunkedRun();
    RunConcat(INITIAL, ONE_CHUNKED, [step] + later);
    RunFirst(AWAITING_SIZE, step, later);
    DroppedForGood(Apply(AWAITING_SIZE, step), later, 1);
  }

  lemma MinusOneThrows()
    ensures Announced("-1\r\n\r\n") == Here(Wrapped)
    ensures Apply(AWAITING_SIZE, Complete(1, GoodLine(Here(Wrapped)), 0)) == Throw(AWAITING_SIZE, 1)
  {
    hide ChunkedBody.FirstSize, ChunkedBody.Body, Finish, HeadRead, HeadFailed, GoodRead;
    ChunkedBody.MinusOne();
  }

  lemma RunFirst(s: State, step: Step, later: seq<Step>)
    ensures Run(s, [step] + later) == Run(Apply(s, step), later)
  {
    assert ([step] + later)[1..] == later;
  }

  // ----- how long a session can last -----

  function PhaseRank(p: Phase): nat {
    match p
    case Resolving => 10
    case Connecting => 9
    case Writing => 8
    case ReadingHead => 7
    case ReadingBody => 5
    case ReadingToEnd => 5
    case ReadingChunk(chunk) => if chunk.Data? then 4 else 2
    case ReadingSize => 3
    case Notifying(_) => 1
    case Finished(_) => 0
    case Dropped => 0
  }

  function Rank(s: State, id: nat): int {
    if id !in s.sessions then 0
    else PhaseRank(s.sessions[id].phase) + 10 * (1 - s.sessions[id].retries)
  }

  predicate Concerns(s: State, step: Step, id: nat) {
    Enabled(s, step) && (step.Complete? || step.Notify?) && step.id == id
  }

  /** The server announces one more chunk of data. */
  predicate Announces(s: State, step: Step, id: nat) {
    && Concerns(s, step, id) && step.Complete?
    && (step.outcome == GoodLine(Here(Data)) || step.outcome == GoodLine(More(Data)))
  }

  ghost function Count(s: State, steps: seq<Step>, id: nat): (nat, nat)
    decreases |steps|
  {
    if steps == [] then (0, 0)
    else
      var (n, d) := Count(Apply(s, steps[0]), steps[1..], id);
      ((if Concerns(s, steps[0], id) then n + 1 else n), (if Announces(s, steps[0], id) then d + 1 else d))
  }

  lemma StepCost(s: State, step: Step, id: nat)
    requires id in s.sessions
    ensures id in Apply(s, step).sessions
    ensures var t := Apply(s, step);
      if Announces(s, step, id) then Rank(t, id) <= Rank(s, id) + 1
      else if Concerns(s, step, id) then Rank(t, id) < Rank(s, id)
      else Rank(t, id) == Rank(s, id)
  {
    hide Handle, BeginSession;
    if Enabled(s, step) {
      match step
      case Complete(i, outcome, keep) => HandleCost(s, i, outcome, keep, id);
      case Begin(i, pick, open) => BeginOnly(s, i, pick, open, id);
      case _ =>
    }
  }

  lemma BeginOnly(s: State, i: nat, pick: nat, open: bool, id: nat)
    requires id in s.sessions && i !in s.sessions
    ensures id in BeginSession(s, i, pick, open).sessions
    ensures Rank(BeginSession(s, i, pick, open), id) == Rank(s, id)
  {
  }

  /** Session `x` of `t` costs less than it did in `s`, and no other session changed. */
  predicate Cheaper(s: State, t: State, x: nat, id: nat)
    requires x in s.sessions && id in s.sessions
  {
    id in t.sessions && (if x == id then Rank(t, id) < Rank(s, id) else Rank(t, id) == Rank(s, id))
  }

  lemma PhaseCost(s: State, x: nat, p: Phase, id: nat)
    requires x in s.sessions && id in s.sessions
    requires PhaseRank(p) < PhaseRank(s.sessions[x].phase)
    ensures Cheaper(s, SetPhase(s, x, p), x, id)
  {
  }

  lemma FinishCost(s: State, x: nat, ok: bool, keep: nat, id: nat)
    requires x in s.sessions && id in s.sessions && Live(s.sessions[x].phase)
    ensures Cheaper(s, Finish(s, x, ok, keep), x, id)
  {
    hide Pruned;
    PhaseCost(s, x, Notifying(ok), id);
  }

  lemma HeadCost(s: State, x: nat, head: Head, keep: nat, id: nat)
    requires x in s.sessions && id in s.sessions && s.sessions[x].phase.ReadingHead?
    ensures Cheaper(s, HeadRead(s, x, head, keep), x, id)
  {
    hide Finish;
    var t := s.(mayRetry := s.mayRetry + {s.sessions[x].conn});
    match head
    case Malformed => FinishCost(t, x, false, keep, id);
    case LengthHere => FinishCost(t, x, true, keep, id);
    case NoBody => FinishCost(t, x, true, keep, id);
    case LengthMore => PhaseCost(t, x, ReadingBody, id);
    case LengthUnreadable => PhaseCost(t, x, Dropped, id);
    case Chunked => PhaseCost(t, x, ReadingSize, id);
    case UntilClose => PhaseCost(t, x, ReadingToEnd, id);
  }

  lemma RetryCost(s: State, x: nat, aborted: bool, keep: nat, id: nat)
    requires x in s.sessions && id in s.sessions && s.sessions[x].phase.ReadingHead?
    ensures Cheaper(s, HeadFailed(s, x, aborted, keep), x, id)
  {
    FinishCost(s, x, false, keep, id);
  }

  /** A data chunk only costs something if it was waited for. */
  lemma ChunkCost(s: State, x: nat, chunk: Chunk, keep: nat, id: nat)
    requires x in s.sessions && id in s.sessions && Live(s.sessions[x].phase)
    requires chunk.Data? ==> s.sessions[x].phase.ReadingChunk? && s.sessions[x].phase.chunk.Data?
    ensures Cheaper(s, ChunkRead(s, x, chunk, keep), x, id)
  {
    hide Finish;
    match chunk
    case Last => FinishCost(s, x, true, keep, id);
    case Data => PhaseCost(s, x, ReadingSize, id);
    case Wrapped => PhaseCost(s, x, Dropped, id);
  }

  lemma GoodCost(s: State, x: nat, keep: nat, id: nat)
    requires x in s.sessions && id in s.sessions && Live(s.sessions[x].phase)
    requires Possible(s.sessions[x].phase, Good)
    ensures Cheaper(s, GoodRead(s, x, keep), x, id)
  {
    hide Finish;
    FinishCost(s, x, true, keep, id);
    match s.sessions[x].phase
    case Resolving => PhaseCost(s, x, Connecting, id);
    case Connecting => PhaseCost(s, x, Writing, id);
    case Writing => PhaseCost(s, x, ReadingHead, id);
    case ReadingChunk(chunk) => ChunkCost(s, x, chunk, keep, id);
    case _ =>
  }

  lemma LineCost(s: State, x: nat, line: SizeLine, keep: nat, id: nat)
    requires x in s.sessions && id in s.sessions && s.sessions[x].phase.ReadingSize?
    ensures var t := LineRead(s, x, line, keep);
      if line == Here(Data) || line == More(Data) then
        id in t.sessions && Rank(t, id) <= Rank(s, id) + (if x == id then 1 else 0) && (x != id ==> Rank(t, id) == Rank(s, id))
      else Cheaper(s, t, x, id)
  {
    hide Finish;
    match line
    case BadSize => FinishCost(s, x, false, keep, id);
    case Here(chunk) => if !chunk.Data? { ChunkCost(s, x, chunk, keep, id); }
    case More(chunk) => if !chunk.Data? { PhaseCost(s, x, ReadingChunk(chunk), id); }
  }

  lemma HandleCost(s: State, x: nat, outcome: Outcome, keep: nat, id: nat)
    requires id in s.sessions && Enabled(s, Complete(x, outcome, keep))
    ensures var t := Handle(s, x, outcome, keep);
      if outcome == GoodLine(Here(Data)) || outcome == GoodLine(More(Data)) then
        id in t.sessions && Rank(t, id) <= Rank(s, id) + (if x == id then 1 else 0) && (x != id ==> Rank(t, id) == Rank(s, id))
      else Cheaper(s, t, x, id)
  {
    hide Finish, HeadRead, HeadFailed, GoodRead, LineRead;
    if s.stopped {
      PhaseCost(s, x, Dropped, id);
    } else {
      match outcome
      case GoodHead(head) => HeadCost(s, x, head, keep, id);
      case Failed(aborted) =>
        if s.sessions[x].phase.ReadingHead? {
          RetryCost(s, x, aborted, keep, id);
        } else {
          FinishCost(s, x, false, keep, id);
        }
      case Oversize => FinishCost(s, x, false, keep, id);
      case GoodLine(line) => LineCost(s, x, line, keep, id);
      case Good => GoodCost(s, x, keep, id);
    }
  }

  lemma {:induction false} RunCost(s: State, steps: seq<Step>, id: nat)
    requires id in s.sessions
    ensures id in Run(s, steps).sessions
    ensures var (n, d) := Count(s, steps, id); n + Rank(Run(s, steps), id) <= Rank(s, id) + 2 * d
    decreases |steps|
  {
    hide Apply, Rank, Concerns, Announces;
    if steps != [] {
      StepCost(s, steps[0], id);
      AnnouncesConcerns(s, steps[0], id);
      RunCost(Apply(s, steps[0]), steps[1..], id);
    }
  }

  lemma AnnouncesConcerns(s: State, step: Step, id: nat)
    ensures Announces(s, step, id) ==> Concerns(s, step, id)
  {
  }

  /**
   * A request needs at most twenty completions and two more for each data chunk the server
   * announces: it can only go on for ever on an endless chunked body.
   */
  lemma RequestIsShort(before: seq<Step>, id: nat, after: seq<Step>)
    requires id in Run(INITIAL, before).sessions
    ensures var (n, d) := Count(Run(INITIAL, before), after, id); n <= 20 + 2 * d
  {
    hide Run;
    var s := Run(INITIAL, before);
    RunCost(s, after, id);
    ReachableInv(before);
    RetriesBound(s, after, id);
  }

  lemma RetriesBound(s: State, steps: seq<Step>, id: nat)
    requires Inv(s) && id in s.sessions
    ensures id in Run(s, steps).sessions && 0 <= Rank(Run(s, steps), id) && Rank(s, id) <= 20
  {
    hide Run, Exclusive, OneIdle, Accounted;
    RunKeepsInv(s, steps);
    RunCost(s, steps, id);
    assert OneRetry(Run(s, steps), id);
  }

  // ----- the pruning loop -----

  function AsSet(s: seq<nat>): set<nat> {
    set c | c in s
  }

  /** The loop over the pool, in whatever order the hash set gives. */
  method PruneLoop(connections: seq<nat>, inUse: set<nat>, conn: nat, failed: bool)
    returns (left: seq<nat>, ghost keep: nat)
    ensures AsSet(left) == Pruned(AsSet(connections), inUse, conn, !failed, keep)
  {
    left := [];
    keep := 0;
    var unused := 0;
    for i := 0 to |connections|
      invariant forall c :: c in left <==> c in connections[..i] && !(failed && c == conn)
                                             && (c in inUse || (unused > 0 && c == keep))
      invariant unused > 0 ==> keep in connections[..i] && keep !in inUse && !(failed && keep == conn)
      invariant unused == 0 ==> forall c :: c in connections[..i] ==> c in inUse || (failed && c == conn)
    {
      var c := connections[i];
      assert connections[..i + 1] == connections[..i] + [c];
      if failed && conn == c {
      } else if c in inUse {
        left := left + [c];
      } else {
        unused := unused + 1;
        if unused == 1 {
          keep := c;
          left := left + [c];
        }
      }
    }
    assert connections[..|connections|] == connections;
    PrunedIs(AsSet(connections), inUse, conn, !failed, keep);
    assert AsSet(left) == Pruned(AsSet(connections), inUse, conn, !failed, keep);
  }

  /** With an idle connection to keep, pruning keeps that one. */
  lemma PrunedIs(pool: set<nat>, inUse: set<nat>, conn: nat, ok: bool, keep: nat)
    ensures var remaining := if ok then pool else pool - {conn};
      keep in remaining - inUse || remaining - inUse == {} ==>
        Pruned(pool, inUse, conn, ok, keep) == set c | c in remaining && (c in inUse || c == keep)
  {
  }
}
