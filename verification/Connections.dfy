/**
 * src/network/connection.cpp: post and commit on the sending side, on_raw_receive on the receiving
 * side, and the end-to-end guarantee between two connections of one protocol.
 */
module Connections {
  import opened Sequences
  import opened Units
  import opened Framing
  import opened Streams
  import opened Builders

  // ----- sending -----

  datatype Op = Post(msg: Bytes) | Commit

  /** Bytes posted and not committed, and the buffers handed to the transport so far. */
  datatype Outbox = Outbox(pending: Bytes, written: seq<Bytes>)

  function Send(p: Protocol, o: Outbox, op: Op): Outbox {
    match op
    case Post(msg) =>
      (match Frame(p, msg)
       case None => o
       case Some(wire) => o.(pending := o.pending + wire))
    case Commit => if o.pending == [] then o else Outbox([], o.written + [o.pending])
  }

  function SendAll(p: Protocol, o: Outbox, ops: seq<Op>): Outbox
    decreases |ops|
  {
    if ops == [] then o else SendAll(p, Send(p, o, ops[0]), ops[1..])
  }

  /** The messages `post` did not refuse, in order. */
  function Accepted(p: Protocol, ops: seq<Op>): (r: seq<Bytes>)
    ensures forall m :: m in r ==> Frame(p, m).Some?
  {
    if ops == [] then []
    else if ops[0].Post? && Frame(p, ops[0].msg).Some? then [ops[0].msg] + Accepted(p, ops[1..])
    else Accepted(p, ops[1..])
  }

  function Total(o: Outbox): Bytes {
    Flatten(o.written) + o.pending
  }

  lemma SendStep(p: Protocol, o: Outbox, op: Op)
    ensures Total(Send(p, o, op)) == Total(o) + Printed(p, Accepted(p, [op]))
  {
    assert [op][1..] == [] && Accepted(p, []) == [] && Printed(p, []) == [];
    match op
    case Commit =>
      FlattenSnoc(o.written, o.pending);
      assert Total(Send(p, o, op)) == Total(o);
    case Post(msg) =>
      if Frame(p, msg).Some? {
        assert [msg][1..] == [];
        assert Printed(p, [msg]) == Frame(p, msg).value + [];
      }
  }

  lemma {:induction false} PrintedConcat(p: Protocol, a: seq<Bytes>, b: seq<Bytes>)
    requires forall m :: m in a + b ==> Frame(p, m).Some?
    ensures forall m :: m in a ==> m in a + b
    ensures forall m :: m in b ==> m in a + b
    ensures Printed(p, a + b) == Printed(p, a) + Printed(p, b)
  {
    hide Frame;
    if a == [] {
      assert a + b == b;
    } else {
      assert (a + b)[0] == a[0] && (a + b)[1..] == a[1..] + b;
      assert forall m :: m in a[1..] + b ==> m in a + b;
      PrintedConcat(p, a[1..], b);
    }
  }

  /** Grouping into commits changes nothing: what is written and pending is the printed messages. */
  lemma {:induction false} SentIsPrinted(p: Protocol, o: Outbox, ops: seq<Op>)
    ensures Total(SendAll(p, o, ops)) == Total(o) + Printed(p, Accepted(p, ops))
    decreases |ops|
  {
    hide Total, Frame;
    if ops == [] {
      assert Total(o) + [] == Total(o);
    } else {
      SendStep(p, o, ops[0]);
      SentIsPrinted(p, Send(p, o, ops[0]), ops[1..]);
      var first, later := Accepted(p, [ops[0]]), Accepted(p, ops[1..]);
      assert [ops[0]][1..] == [] && Accepted(p, []) == [];
      assert Accepted(p, ops) == first + later;
      PrintedConcat(p, first, later);
      assert Total(o) + Printed(p, first) + Printed(p, later)
          == Total(o) + (Printed(p, first) + Printed(p, later));
    }
  }

  lemma {:induction false} SendAllSnoc(p: Protocol, o: Outbox, ops: seq<Op>, op: Op)
    ensures SendAll(p, o, ops + [op]) == Send(p, SendAll(p, o, ops), op)
    decreases |ops|
  {
    if ops == [] {
      assert [op][1..] == [];
      assert ops + [op] == [op];
    } else {
      assert (ops + [op])[1..] == ops[1..] + [op];
      SendAllSnoc(p, Send(p, o, ops[0]), ops[1..], op);
    }
  }

  lemma {:induction false} AcceptedConcat(p: Protocol, a: seq<Op>, b: seq<Op>)
    ensures Accepted(p, a + b) == Accepted(p, a) + Accepted(p, b)
  {
    if a == [] {
      assert a + b == b;
    } else {
      assert (a + b)[0] == a[0] && (a + b)[1..] == a[1..] + b;
      AcceptedConcat(p, a[1..], b);
    }
  }

  /** What was done up to the last commit, and what was posted since. */
  function Committed(ops: seq<Op>): (r: seq<Op>)
    ensures r <= ops && (r != [] ==> r[|r| - 1] == Commit)
    ensures Commit !in ops[|r|..]
  {
    if ops == [] then []
    else if ops[|ops| - 1] == Commit then ops
    else
      var r := Committed(ops[..|ops| - 1]);
      assert ops[|r|..] == ops[..|ops| - 1][|r|..] + [ops[|ops| - 1]];
      r
  }

  /**
   * What the transport was handed is exactly the printed messages posted before the last commit, in
   * nonempty buffers, and what is pending is exactly the printed messages posted since.
   */
  lemma {:induction false} WrittenIsCommitted(p: Protocol, ops: seq<Op>)
    ensures var o, c := SendAll(p, Outbox([], []), ops), Committed(ops);
      && Flatten(o.written) == Printed(p, Accepted(p, c))
      && o.pending == Printed(p, Accepted(p, ops[|c|..]))
      && [] !in o.written
    decreases |ops|
  {
    hide Frame, Printed, Accepted;
    var empty := Outbox([], []);
    if ops == [] {
      NothingPrinted(p);
    } else {
      var n := |ops| - 1;
      var last := ops[n];
      var o := SendAll(p, empty, ops[..n]);
      assert ops == ops[..n] + [last];
      WrittenIsCommitted(p, ops[..n]);
      SendAllSnoc(p, empty, ops[..n], last);
      match last
      case Commit =>
        SentIsPrinted(p, empty, ops);
        TotalOfNone();
        NothingPrinted(p);
        CommitWrites(p, o);
        assert ops[|ops|..] == [];
        assert [] + Printed(p, Accepted(p, ops)) == Printed(p, Accepted(p, ops));
        var after := Send(p, o, Commit);
        assert Flatten(after.written) + [] == Flatten(after.written);
      case Post(msg) =>
        PostPends(p, o, ops[..n][|Committed(ops)|..], msg);
        assert ops[|Committed(ops)|..] == ops[..n][|Committed(ops)|..] + [last];
    }
  }

  lemma NothingPrinted(p: Protocol)
    ensures Accepted(p, []) == [] && Printed(p, []) == []
  {
  }

  lemma PostPends(p: Protocol, o: Outbox, since: seq<Op>, msg: Bytes)
    requires o.pending == Printed(p, Accepted(p, since))
    ensures Send(p, o, Post(msg)).written == o.written
    ensures Send(p, o, Post(msg)).pending == Printed(p, Accepted(p, since + [Post(msg)]))
  {
    hide Frame, Printed, Accepted;
    AcceptedConcat(p, since, [Post(msg)]);
    SendStep(p, Outbox(o.pending, []), Post(msg));
    TotalOfPending(o.pending);
    TotalOfPending(Send(p, Outbox(o.pending, []), Post(msg)).pending);
    PrintedConcat(p, Accepted(p, since), Accepted(p, [Post(msg)]));
  }

  lemma TotalOfPending(pending: Bytes)
    ensures Total(Outbox(pending, [])) == pending
  {
  }

  /** After a commit nothing is pending, and everything that was pending is in one more buffer. */
  lemma CommitWrites(p: Protocol, o: Outbox)
    ensures var r := Send(p, o, Commit);
      && r.pending == []
      && r.written == o.written + (if o.pending == [] then [] else [o.pending])
  {
  }

  // ----- receiving -----

  /** A connection as its owner sees it: still up or not, and the units its callbacks were given. */
  datatype Link = Link(m: Manager, up: bool, delivered: seq<Unit>)

  /**
   * One packet, and for each test of `is_connected()` in the delivery loop whether the connection
   * is still up then: a callback, or another thread, may have disconnected it.
   */
  datatype Arrival = Arrival(chunk: Bytes, stay: nat -> bool)

  /** How many of `n` queued units are delivered before a test fails. */
  function Taken(stay: nat -> bool, n: nat, j: nat): (t: nat)
    requires j <= n
    ensures j <= t <= n
    ensures forall k :: j <= k < t ==> stay(k)
    ensures t < n ==> !stay(t)
    decreases n - j
  {
    if j == n || !stay(j) then j else Taken(stay, n, j + 1)
  }

  /** The unit at the front of the queue delivered. */
  function HandedOne(l: Link): Link
    requires l.m.replies != []
  {
    Link(l.m.(replies := l.m.replies[1..]), l.up, l.delivered + [l.m.replies[0]])
  }

  /** The delivery loop from its k-th test on. */
  function Handed(l: Link, stay: nat -> bool, k: nat): Link
    decreases |l.m.replies|
  {
    if !stay(k) then l.(up := false)
    else if l.m.replies == [] then l
    else Handed(HandedOne(l), stay, k + 1)
  }

  lemma OneMore(given: seq<Unit>, queue: seq<Unit>, t: nat)
    requires t < |queue|
    ensures queue[1..][t..] == queue[t + 1..]
    ensures given + [queue[0]] + queue[1..][..t] == given + queue[..t + 1]
  {
  }

  /** What the loop delivers is the queue up to the first failing test. */
  lemma {:induction false} HandedIsTaken(l: Link, stay: nat -> bool, k: nat)
    requires l.up
    ensures var queue := l.m.replies;
      var t := Taken(stay, k + |queue|, k) - k;
      Handed(l, stay, k) == Link(l.m.(replies := queue[t..]), stay(k + t), l.delivered + queue[..t])
    decreases |l.m.replies|
  {
    var queue := l.m.replies;
    if stay(k) && queue != [] {
      HandedIsTaken(HandedOne(l), stay, k + 1);
      var t := Taken(stay, k + |queue|, k + 1) - k - 1;
      OneMore(l.delivered, queue, t);
    } else {
      assert queue[0..] == queue && l.delivered + queue[..0] == l.delivered;
    }
  }

  /** on_raw_receive; the transport delivers nothing to a connection that is down. */
  function Receive(l: Link, a: Arrival): Link
    requires l.up ==> Valid(l.m)
  {
    if !l.up then l
    else
      var r := Feed(l.m, a.chunk);
      if r.fault != NoFault then Link(r.m, false, l.delivered)
      else
        var queue := r.m.replies;
        var t := Taken(a.stay, |queue|, 0);
        Link(r.m.(replies := queue[t..]), a.stay(t), l.delivered + queue[..t])
  }

  lemma ReceiveValid(l: Link, a: Arrival)
    requires l.up ==> Valid(l.m)
    ensures Receive(l, a).up ==> Valid(Receive(l, a).m)
  {
  }

  function ReceiveAll(l: Link, arrivals: seq<Arrival>): (r: Link)
    requires l.up ==> Valid(l.m)
    ensures r.up ==> Valid(r.m)
    decreases |arrivals|
  {
    ReceiveValid(l, if arrivals == [] then Arrival([], _ => true) else arrivals[0]);
    if arrivals == [] then l else ReceiveAll(Receive(l, arrivals[0]), arrivals[1..])
  }

  function Chunks(arrivals: seq<Arrival>): seq<Bytes> {
    if arrivals == [] then [] else [arrivals[0].chunk] + Chunks(arrivals[1..])
  }

  function Open(p: Protocol): Link {
    Link(Start(p), true, [])
  }

  /** Draining does not look at the units queued before. */
  lemma {:induction false} DrainQueue(m: Manager, q: seq<Unit>)
    requires Valid(m)
    ensures var r := Drain(m);
      Drain(m.(replies := q + m.replies)) == Fed(r.m.(replies := q + r.m.replies), r.fault)
    decreases |m.buffer|
  {
    if m.buffer != [] {
      var e := Eat(m.builder, m.buffer);
      EatProgress(m.builder, m.buffer);
      if e.fault == NoFault && Ready(e.state) {
        DrainQueue(Manager(e.rest, Reset(e.state), m.replies + [Built(e.state)]), q);
        assert q + m.replies + [Built(e.state)] == q + (m.replies + [Built(e.state)]);
      }
    }
  }

  /**
   * While the connection is up its queue is empty after every packet, and putting the delivered
   * units back in front of it gives the manager fed with everything received.
   */
  ghost predicate InStep(p: Protocol, l: Link, s: Bytes)
    requires Framing.Usable(p)
  {
    && Valid(Start(p))
    && l.delivered <= Parse(p, s).units
    && (l.up ==>
          && Settled(l.m) && l.m.replies == []
          && Feed(Start(p), s) == Fed(l.m.(replies := l.delivered), NoFault)
          && l.delivered == Parse(p, s).units
          && Parse(p, s).fault == NoFault)
  }

  lemma InStepAtOpen(p: Protocol)
    requires Framing.Usable(p)
    ensures InStep(p, Open(p), [])
  {
    StartSettled(p);
    assert Start(p).(buffer := [] + []) == Start(p);
    assert Parse(p, []) == Parsed([], [], NoFault);
  }

  /** What a settled, in-step manager does with one more chunk is what the whole stream says. */
  lemma FeedInStep(p: Protocol, l: Link, s: Bytes, chunk: Bytes)
    requires Framing.Usable(p) && InStep(p, l, s) && l.up
    ensures var r, parse := Feed(l.m, chunk), Parse(p, s + chunk);
      && r.fault == parse.fault
      && l.delivered + r.m.replies == parse.units
      && (r.fault == NoFault ==>
            && Settled(r.m)
            && Feed(Start(p), s + chunk) == Fed(r.m.(replies := l.delivered + r.m.replies), NoFault))
  {
    hide Drain, Parse, Resting;
    StartSettled(p);
    FeedTwice(Start(p), s, chunk);
    FeedTwice(l.m, [], chunk);
    var withQueue := l.m.(replies := l.delivered + []);
    assert l.delivered + [] == l.delivered;
    DrainQueue(l.m.(buffer := l.m.buffer + chunk), l.delivered);
    var r := Feed(l.m, chunk);
    assert Feed(withQueue, chunk) == Fed(r.m.(replies := l.delivered + r.m.replies), r.fault);
    assert Feed(Start(p), s + chunk) == Feed(withQueue, chunk);
    assert [] + (s + chunk) == s + chunk;
    DrainIsParse(p, Start(p).(buffer := s + chunk));
    assert [] + Parse(p, s + chunk).units == Parse(p, s + chunk).units;
    if r.fault == NoFault {
      DrainSettles(l.m.(buffer := l.m.buffer + chunk));
    }
  }

  /** A connection that is down delivered a prefix, whatever else arrives. */
  lemma DownInStep(p: Protocol, l: Link, s: Bytes, t: Bytes)
    requires Framing.Usable(p) && InStep(p, l, s) && !l.up
    ensures InStep(p, l, s + t)
  {
    hide Parse, Start, Valid, Settled;
    ParseAppend(p, s, t);
  }

  /** Delivering `t` units of the queue, and staying up only when that is all of it. */
  lemma DeliverInStep(p: Protocol, m: Manager, given: seq<Unit>, s: Bytes, t: nat, up: bool)
    requires Framing.Usable(p) && Settled(m) && Valid(Start(p)) && t <= |m.replies|
    requires up ==> t == |m.replies|
    requires Feed(Start(p), s) == Fed(m.(replies := given + m.replies), NoFault)
    requires Parse(p, s).units == given + m.replies && Parse(p, s).fault == NoFault
    ensures InStep(p, Link(m.(replies := m.replies[t..]), up, given + m.replies[..t]), s)
  {
    hide Parse, Start, Feed, Valid, Settled;
    assert given + m.replies == (given + m.replies[..t]) + m.replies[t..];
    SettledQueue(m, m.replies[t..]);
    if up {
      assert m.replies[..t] == m.replies && m.replies[t..] == [];
    }
  }

  lemma ReceiveInStep(p: Protocol, l: Link, s: Bytes, a: Arrival)
    requires Framing.Usable(p) && InStep(p, l, s)
    ensures InStep(p, Receive(l, a), s + a.chunk)
  {
    hide Parse, Start, Feed, Valid, Settled;
    if !l.up {
      DownInStep(p, l, s, a.chunk);
    } else {
      ValidInStep(p, l, s);
      FeedInStep(p, l, s, a.chunk);
      var r := Feed(l.m, a.chunk);
      if r.fault == NoFault {
        var t := Taken(a.stay, |r.m.replies|, 0);
        DeliverInStep(p, r.m, l.delivered, s + a.chunk, t, a.stay(t));
      }
    }
  }

  lemma SettledQueue(m: Manager, q: seq<Unit>)
    requires Settled(m)
    ensures Settled(m.(replies := q))
  {
    var bare := m.(replies := []);
    DrainQueue(bare, m.replies);
    DrainQueue(bare, q);
    assert m.replies + [] == m.replies && q + [] == q;
    assert bare.(replies := m.replies + []) == m;
  }

  lemma {:induction false} RunInStep(p: Protocol, l: Link, s: Bytes, arrivals: seq<Arrival>)
    requires Framing.Usable(p) && InStep(p, l, s)
    ensures InStep(p, ReceiveAll(l, arrivals), s + Flatten(Chunks(arrivals)))
    decreases |arrivals|
  {
    hide InStep, Receive, Parse, Drain;
    if arrivals == [] {
      assert s + [] == s;
    } else {
      var a, later := arrivals[0], arrivals[1..];
      ReceiveInStep(p, l, s, a);
      assert (l.up ==> Valid(l.m)) by { ValidInStep(p, l, s); }
      RunInStep(p, Receive(l, a), s + a.chunk, later);
      assert Chunks(arrivals)[1..] == Chunks(later);
      assert s + a.chunk + Flatten(Chunks(later)) == s + Flatten(Chunks(arrivals));
    }
  }

  lemma ValidInStep(p: Protocol, l: Link, s: Bytes)
    requires Framing.Usable(p) && InStep(p, l, s)
    ensures l.up ==> Valid(l.m)
  {
  }

  // ----- guarantees over whole runs -----

  /**
   * On any stream of headers of at most five bytes, oversize ones included, however it is cut and
   * whenever somebody disconnects (a sixth header byte, undefined in the source, ends it here): the units delivered are a prefix of the parse of what arrived up to its first bad
   * header, and all of it while the connection is up.
   */
  lemma PrefixSafety(p: Protocol, arrivals: seq<Arrival>)
    requires Framing.Usable(p)
    ensures Valid(Start(p))
    ensures var l, parse := ReceiveAll(Open(p), arrivals), Parse(p, Flatten(Chunks(arrivals)));
      && l.delivered <= parse.units
      && (l.up ==> l.delivered == parse.units && parse.fault == NoFault)
  {
    InStepAtOpen(p);
    RunInStep(p, Open(p), [], arrivals);
    assert [] + Flatten(Chunks(arrivals)) == Flatten(Chunks(arrivals));
  }

  lemma {:induction false} DownStaysDown(l: Link, arrivals: seq<Arrival>)
    requires !l.up
    ensures ReceiveAll(l, arrivals) == l
    decreases |arrivals|
  {
    if arrivals != [] {
      DownStaysDown(l, arrivals[1..]);
    }
  }

  lemma {:induction false} ReceiveConcat(l: Link, a: seq<Arrival>, b: seq<Arrival>)
    requires l.up ==> Valid(l.m)
    ensures ReceiveAll(l, a + b) == ReceiveAll(ReceiveAll(l, a), b)
    decreases |a|
  {
    hide Receive, Valid;
    if a == [] {
      assert a + b == b;
    } else {
      assert (a + b)[0] == a[0] && (a + b)[1..] == a[1..] + b;
      ReceiveValid(l, a[0]);
      ReceiveConcat(Receive(l, a[0]), a[1..], b);
    }
  }

  /** The delivery loop's k-th test is the first that fails. */
  ghost predicate FailsFirstAt(stay: nat -> bool, k: nat) {
    !stay(k) && forall j: nat :: j < k ==> stay(j)
  }

  /**
   * A disconnect cuts the delivered units at one exact place, whatever arrived before and arrives
   * later. When packet `a` brings units that are well formed and its k-th connection test is the
   * first to fail, the owner gets the units of everything before `a` and k more, and nothing after;
   * when the packet completes a bad header, none of the units in it is delivered.
   */
  lemma NothingAfterDisconnect(p: Protocol, before: seq<Arrival>, a: Arrival, k: nat, after: seq<Arrival>)
    requires Framing.Usable(p)
    ensures Valid(Start(p))
    ensures var s := Flatten(Chunks(before));
      var had, now, l := Parse(p, s).units, Parse(p, s + a.chunk), ReceiveAll(Open(p), before + [a] + after);
      (ReceiveAll(Open(p), before).up
       && (now.fault == NoFault ==> |had| + k <= |now.units| && FailsFirstAt(a.stay, k))) ==>
        && !l.up
        && had <= now.units
        && l.delivered == if now.fault == NoFault then now.units[..|had| + k] else had
  {
    hide Parse, Start, Feed, Valid, Settled, ReceiveAll, Receive, Chunks;
    InStepAtOpen(p);
    var s, l := Flatten(Chunks(before)), ReceiveAll(Open(p), before);
    var had, now := Parse(p, s).units, Parse(p, s + a.chunk);
    RunInStep(p, Open(p), [], before);
    assert [] + s == s;
    if l.up && (now.fault == NoFault ==> |had| + k <= |now.units| && FailsFirstAt(a.stay, k)) {
      ValidInStep(p, l, s);
      ReceiveValid(l, a);
      CutAt(p, l, s, a, k);
      assert before + [a] + after == before + ([a] + after);
      ReceiveConcat(Open(p), before, [a] + after);
      ReceiveOne(l, a, after);
      DownStaysDown(Receive(l, a), after);
    }
  }

  lemma ReceiveOne(l: Link, a: Arrival, after: seq<Arrival>)
    requires l.up ==> Valid(l.m)
    ensures Receive(l, a).up ==> Valid(Receive(l, a).m)
    ensures ReceiveAll(l, [a] + after) == ReceiveAll(Receive(l, a), after)
  {
    ReceiveValid(l, a);
    assert ([a] + after)[1..] == after;
  }

  /** What the packet in which the connection goes down delivers. */
  lemma CutAt(p: Protocol, l: Link, s: Bytes, a: Arrival, k: nat)
    requires Framing.Usable(p) && InStep(p, l, s) && l.up
    requires var now := Parse(p, s + a.chunk);
      now.fault == NoFault ==> |l.delivered| + k <= |now.units| && FailsFirstAt(a.stay, k)
    ensures Valid(l.m) && l.delivered == Parse(p, s).units
    ensures var now, r := Parse(p, s + a.chunk), Receive(l, a);
      && !r.up && l.delivered <= now.units
      && r.delivered == if now.fault == NoFault then now.units[..|l.delivered| + k] else l.delivered
  {
    hide Parse, Start, Feed, Valid, Settled;
    ValidInStep(p, l, s);
    FeedInStep(p, l, s, a.chunk);
    var r, now := Feed(l.m, a.chunk), Parse(p, s + a.chunk);
    if now.fault == NoFault {
      var n := |r.m.replies|;
      var t := Taken(a.stay, n, 0);
      assert t == k;
      assert now.units[..|l.delivered| + k] == l.delivered + r.m.replies[..k];
    }
  }

  ghost predicate NobodyDisconnects(arrivals: seq<Arrival>) {
    forall i, k: nat :: 0 <= i < |arrivals| ==> arrivals[i].stay(k)
  }

  /** A well-formed stream never brings the connection down by itself. */
  lemma {:induction false} StaysUp(p: Protocol, l: Link, s: Bytes, arrivals: seq<Arrival>)
    requires Framing.Usable(p) && InStep(p, l, s) && l.up
    requires NobodyDisconnects(arrivals)
    requires Parse(p, s + Flatten(Chunks(arrivals))).fault == NoFault
    ensures ReceiveAll(l, arrivals).up
    decreases |arrivals|
  {
    hide Drain, Parse;
    if arrivals != [] {
      var a, later := arrivals[0], arrivals[1..];
      var rest := Flatten(Chunks(later));
      assert Chunks(arrivals)[1..] == Chunks(later);
      assert s + Flatten(Chunks(arrivals)) == (s + a.chunk) + rest;
      ParseAppend(p, s + a.chunk, rest);
      FeedInStep(p, l, s, a.chunk);
      var n := |Feed(l.m, a.chunk).m.replies|;
      assert a.stay(Taken(a.stay, n, 0));
      ReceiveInStep(p, l, s, a);
      assert NobodyDisconnects(later) by {
        forall i, k: nat | 0 <= i < |later|
          ensures later[i].stay(k)
        {
          assert arrivals[i + 1].stay(k);
        }
      }
      StaysUp(p, Receive(l, a), s + a.chunk, later);
    }
  }

  /**
   * End to end: any messages, any grouping into commits, any fragmentation of the committed bytes,
   * any moment. What was delivered is the first of the messages committed, each once, in order; and
   * it is all of them once their bytes have arrived and nobody disconnected.
   */
  lemma EndToEnd(p: Protocol, ops: seq<Op>, arrivals: seq<Arrival>)
    requires Framing.Usable(p)
    requires forall m :: m in Accepted(p, ops) ==> Sendable(p, m)
    requires Flatten(Chunks(arrivals)) <= Flatten(SendAll(p, Outbox([], []), ops).written)
    ensures Valid(Start(p))
    ensures var o, l, sent :=
        SendAll(p, Outbox([], []), ops), ReceiveAll(Open(p), arrivals), Expected(p, Accepted(p, Committed(ops)));
      && l.delivered <= sent
      && (NobodyDisconnects(arrivals) ==> l.up)
      && (l.up && Flatten(Chunks(arrivals)) == Flatten(o.written) ==> l.delivered == sent)
  {
    hide Drain, Parse, Sendable, Settled, Feed, Start, Waiting, Open, ReceiveAll, SendAll, NobodyDisconnects;
    hide Accepted, Expected, Printed, Chunks, Flatten;
    var o := SendAll(p, Outbox([], []), ops);
    var s, c := Flatten(Chunks(arrivals)), Committed(ops);
    WrittenIsCommitted(p, ops);
    assert ops == c + ops[|c|..];
    AcceptedConcat(p, c, ops[|c|..]);
    PrefixSafety(p, arrivals);
    PrefixOfPrinted(p, Accepted(p, c), s, Flatten(o.written)[|s|..]);
    if NobodyDisconnects(arrivals) {
      UpOnGoodStream(p, arrivals);
    }
  }

  lemma CommitLast(p: Protocol, ops: seq<Op>)
    ensures Committed(ops + [Commit]) == ops + [Commit]
    ensures Accepted(p, ops + [Commit]) == Accepted(p, ops)
  {
    AcceptedConcat(p, ops, [Commit]);
    assert [Commit][1..] == [];
    assert Accepted(p, [Commit]) == [];
  }

  /**
   * With a commit at the end nothing stays behind: everything posted is written, and once it has
   * arrived and nobody disconnected, everything posted has been delivered.
   */
  lemma CommitDeliversAll(p: Protocol, ops: seq<Op>, arrivals: seq<Arrival>)
    requires Framing.Usable(p)
    requires forall m :: m in Accepted(p, ops) ==> Sendable(p, m)
    ensures Valid(Start(p))
    ensures var o := SendAll(p, Outbox([], []), ops + [Commit]);
      && o.pending == [] && Flatten(o.written) == Printed(p, Accepted(p, ops))
      && (Flatten(Chunks(arrivals)) == Flatten(o.written) && NobodyDisconnects(arrivals) ==>
            ReceiveAll(Open(p), arrivals).delivered == Expected(p, Accepted(p, ops)))
  {
    hide Sendable, Start, Open, ReceiveAll, SendAll, NobodyDisconnects, Accepted, Printed, Expected, Chunks, Flatten;
    CommitLast(p, ops);
    WrittenIsCommitted(p, ops + [Commit]);
    assert (ops + [Commit])[|ops + [Commit]|..] == [];
    NothingPrinted(p);
    StartSettled(p);
    var o := SendAll(p, Outbox([], []), ops + [Commit]);
    if Flatten(Chunks(arrivals)) == Flatten(o.written) && NobodyDisconnects(arrivals) {
      EndToEnd(p, ops + [Commit], arrivals);
    }
  }

  lemma TotalOfNone()
    ensures Total(Outbox([], [])) == []
  {
  }

  /** Only a bad header or somebody's disconnect takes a connection down. */
  lemma UpOnGoodStream(p: Protocol, arrivals: seq<Arrival>)
    requires Framing.Usable(p) && NobodyDisconnects(arrivals)
    requires Parse(p, Flatten(Chunks(arrivals))).fault == NoFault
    ensures Valid(Start(p)) && ReceiveAll(Open(p), arrivals).up
  {
    InStepAtOpen(p);
    assert [] + Flatten(Chunks(arrivals)) == Flatten(Chunks(arrivals));
    StaysUp(p, Open(p), [], arrivals);
  }

  /** The first bytes of a printed list parse to the first messages of it. */
  lemma PrefixOfPrinted(p: Protocol, msgs: seq<Bytes>, s: Bytes, t: Bytes)
    requires Framing.Usable(p) && forall m :: m in msgs ==> Sendable(p, m)
    requires forall m :: m in msgs ==> Frame(p, m).Some?
    requires s + t == Printed(p, msgs)
    ensures Parse(p, s).units <= Expected(p, msgs) && Parse(p, s).fault == NoFault
    ensures t == [] ==> Parse(p, s).units == Expected(p, msgs)
  {
    hide Parse, Sendable;
    ParsePrintedAlone(p, msgs);
    ParseAppend(p, s, t);
    assert t == [] ==> s + t == s;
  }

  // ----- the class -----

  class Connection {
    const protocol: UnitBuilderManager
    var sendBuffer: Bytes
    var connected: bool
    var written: seq<Bytes>    // buffers handed to async_write
    var delivered: seq<Unit>   // units the receive observers were notified of

    ghost predicate Sound()
      reads this, protocol
      reads match protocol.builder case OfMsg(b) => {b, b.sizeBuilder} case OfDStream(b) => {}
    {
      protocol.Usable() && this !in protocol.Repr()
    }

    ghost function Repr(): set<object> {
      {this} + protocol.Repr()
    }

    ghost function Speaks(): Protocol {
      match protocol.builder
      case OfMsg(b) => Lengths(b.max)
      case OfDStream(b) => Delimited(b.delimiter)
    }

    ghost function Out(): Outbox
      reads this
    {
      Outbox(sendBuffer, written)
    }

    ghost function In(): Link
      reads this, protocol
      reads match protocol.builder case OfMsg(b) => {b, b.sizeBuilder, b.msgBuilder} case OfDStream(b) => {b}
    {
      Link(protocol.State(), connected, delivered)
    }

    constructor (p: Protocol)
      ensures Sound() && fresh(Repr()) && Speaks() == p
      ensures Out() == Outbox([], []) && In() == Open(p)
    {
      var m := new UnitBuilderManager(p);
      protocol := m;
      sendBuffer, connected, written, delivered := [], true, [], [];
    }

    /** `post(string)`: refused, with nothing stored, exactly when create throws. */
    method Post(input: Bytes) returns (ok: bool)
      requires Sound()
      modifies this
      ensures Sound() && In() == old(In())
      ensures ok == Frame(Speaks(), input).Some?
      ensures Out() == Send(Speaks(), old(Out()), Op.Post(input))
    {
      match protocol.builder {
        case OfMsg(b) =>
          var u := b.Create(input);
          ok := u.Some?;
          if ok {
            PostUnit(u.value);
          }
        case OfDStream(b) =>
          var u := b.Create(input);
          ok := true;
          PostUnit(u);
      }
    }

    method PostUnit(u: Unit)
      requires Sound()
      modifies this
      ensures Sound() && In() == old(In())
      ensures Out() == old(Out()).(pending := old(sendBuffer) + Wire(Preorder(u)))
    {
      var wire := ToNetworkString(u);
      sendBuffer := sendBuffer + wire;
    }

    /** An empty commit writes nothing; a commit on a lost connection loses the buffer. */
    method Commit()
      requires Sound()
      modifies this
      ensures Sound() && In() == old(In())
      ensures connected ==> Out() == Send(Speaks(), old(Out()), Op.Commit)
      ensures connected ==>
        && sendBuffer == []
        && written == old(written) + (if old(sendBuffer) == [] then [] else [old(sendBuffer)])
      ensures !connected ==> Out() == old(Out()).(pending := [])
    {
      var buffer := sendBuffer;
      sendBuffer := [];
      if buffer != [] && connected {
        written := written + [buffer];
      }
    }

    method Disconnect()
      requires Sound()
      modifies this
      ensures Sound() && In() == old(In()).(up := false)
      ensures Out() == if old(connected) then old(Out()).(pending := []) else old(Out())
    {
      if connected {
        connected := false;
        sendBuffer := [];
      }
    }

    /** `stay(k)` is the answer of the k-th `is_connected()` test of the delivery loop. */
    method OnRawReceive(chunk: Bytes, stay: nat -> bool)
      requires Sound() && connected && Valid(protocol.State())
      modifies Repr()
      ensures Sound()
      ensures In() == Receive(old(In()), Arrival(chunk, stay))
      ensures Out() == if connected then old(Out()) else old(Out()).(pending := [])
    {
      var fault := protocol.Add(chunk);
      if fault != NoFault {
        Disconnect();
        return;
      }
      HandedIsTaken(In(), stay, 0);
      Deliver(stay);
    }

    /** One turn of the delivery loop, `go` being its `is_connected()` test. */
    method DeliverOne(go: bool) returns (again: bool)
      requires Sound() && connected
      modifies this, protocol
      ensures Sound()
      ensures again == (go && old(In()).m.replies != [])
      ensures In() == if again then HandedOne(old(In())) else old(In()).(up := go)
      ensures Out() == if go then old(Out()) else old(Out()).(pending := [])
    {
      if !go {
        Disconnect();
        return false;
      }
      var front := protocol.GetFront();
      if front.None? {
        return false;
      }
      var popped := protocol.PopFront();
      delivered := delivered + [front.value];
      return true;
    }

    /** The delivery loop. */
    method Deliver(stay: nat -> bool)
      requires Sound() && connected
      modifies this, protocol
      ensures Sound()
      ensures In() == Handed(old(In()), stay, 0)
      ensures Out() == if connected then old(Out()) else old(Out()).(pending := [])
    {
      var k, again := 0, true;
      while again
        invariant Sound()
        invariant again ==> connected && Handed(In(), stay, k) == Handed(old(In()), stay, 0)
        invariant !again ==> In() == Handed(old(In()), stay, 0)
        invariant Out() == if connected then old(Out()) else old(Out()).(pending := [])
        decreases again, |In().m.replies|
      {
        again := DeliverOne(stay(k));
        k := k + 1;
      }
    }
  }

  // ----- two connections -----

  /**
   * The end-to-end guarantee on the objects: one connection is driven through `ops`, the other
   * through `arrivals`, in which the transport carries bytes of what the first one wrote.
   */
  method Converse(p: Protocol, ops: seq<Op>, arrivals: seq<Arrival>)
    returns (sender: Connection, receiver: Connection)
    requires Framing.Usable(p)
    ensures fresh(sender) && fresh(receiver)
    ensures
      ((forall m :: m in Accepted(p, ops) ==> Sendable(p, m))
       && Flatten(Chunks(arrivals)) <= Flatten(sender.written)) ==>
        var sent := Expected(p, Accepted(p, Committed(ops)));
        && receiver.delivered <= sent
        && (NobodyDisconnects(arrivals) ==> receiver.connected)
        && (receiver.connected && Flatten(Chunks(arrivals)) == Flatten(sender.written) ==>
              receiver.delivered == sent)
  {
    sender := SendRun(p, ops);
    receiver := ReceiveRun(p, arrivals);
    if (forall m :: m in Accepted(p, ops) ==> Sendable(p, m))
      && Flatten(Chunks(arrivals)) <= Flatten(sender.written) {
      EndToEnd(p, ops, arrivals);
    }
  }

  method SendRun(p: Protocol, ops: seq<Op>) returns (c: Connection)
    ensures fresh(c.Repr()) && c.Sound()
    ensures c.Out() == SendAll(p, Outbox([], []), ops)
  {
    c := new Connection(p);
    var i := 0;
    assert ops[0..] == ops;
    while i < |ops|
      invariant 0 <= i <= |ops| && fresh(c.Repr()) && c.Sound() && c.connected && c.Speaks() == p
      invariant SendAll(p, c.Out(), ops[i..]) == SendAll(p, Outbox([], []), ops)
    {
      assert ops[i..][1..] == ops[i + 1..];
      match ops[i] {
        case Post(msg) => var ok := c.Post(msg);
        case Commit => c.Commit();
      }
      i := i + 1;
    }
  }

  /** The transport calls a connection only while it is up. */
  method ReceiveRun(p: Protocol, arrivals: seq<Arrival>) returns (c: Connection)
    requires Framing.Usable(p)
    ensures fresh(c.Repr()) && c.Sound()
    ensures Valid(Start(p)) && c.In() == ReceiveAll(Open(p), arrivals)
  {
    StartSettled(p);
    c := new Connection(p);
    var i := 0;
    assert arrivals[0..] == arrivals;
    while i < |arrivals|
      invariant 0 <= i <= |arrivals| && fresh(c.Repr()) && c.Sound()
      invariant c.connected ==> Valid(c.protocol.State())
      invariant ReceiveAll(c.In(), arrivals[i..]) == ReceiveAll(Open(p), arrivals)
    {
      assert arrivals[i..][1..] == arrivals[i + 1..];
      ReceiveValid(c.In(), arrivals[i]);
      if c.connected {
        c.OnRawReceive(arrivals[i].chunk, arrivals[i].stay);
      }
      i := i + 1;
    }
  }
}
