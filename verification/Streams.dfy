/**
 * The meaning of a byte stream, defined without the incremental builders, and the theorems that
 * tie the manager to it: it builds exactly the units of the parse, loses no byte and is the inverse
 * of the sender's `create`.
 */
module Streams {
  import opened Sequences
  import opened Units
  import opened Varint
  import opened Framing

  // ----- the sender's side -----

  /** `create(msg).to_network_string()`, or None where create throws. */
  function Frame(p: Protocol, msg: Bytes): Option<Bytes> {
    match p
    case Lengths(max) =>
      if |msg| <= max && |msg| < LIMIT then Some(Pack(|msg|) + msg) else None
    case Delimited(delim) => Some(msg + delim)
  }

  /** The unit a message is received as. */
  function Received(p: Protocol, msg: Bytes): Unit {
    if p.Lengths? then PayloadUnit(msg) else Text(msg)
  }

  /** The messages a receiver can tell apart from the framing around them. */
  predicate Sendable(p: Protocol, msg: Bytes) {
    match p
    case Lengths(max) => |msg| <= max && |msg| < LIMIT
    case Delimited(delim) => Find(msg + delim, delim) == Some(|msg|)
  }

  function Printed(p: Protocol, msgs: seq<Bytes>): Bytes
    requires forall m :: m in msgs ==> Frame(p, m).Some?
  {
    if msgs == [] then [] else Frame(p, msgs[0]).value + Printed(p, msgs[1..])
  }

  function Expected(p: Protocol, msgs: seq<Bytes>): (r: seq<Unit>)
    ensures |r| == |msgs|
    ensures forall i :: 0 <= i < |msgs| ==> r[i] == Received(p, msgs[i])
  {
    if msgs == [] then [] else [Received(p, msgs[0])] + Expected(p, msgs[1..])
  }

  // ----- the parse of a whole stream -----

  datatype Parsed = Parsed(units: seq<Unit>, rest: Bytes, fault: Fault)

  /** The first unit of a stream: what it is and how many bytes it takes. */
  datatype First = Incomplete | Bad(fault: Fault) | Whole(unit: Unit, used: nat)

  function ParseFirst(p: Protocol, s: Bytes): (r: First)
    requires Usable(p)
    ensures r.Whole? ==> 0 < r.used <= |s|
    ensures r.Bad? ==> r.fault != NoFault
  {
    match p
    case Lengths(max) =>
      (match Unpack(s)
       case Need => Incomplete
       case Undefined => Bad(Fault.Undefined)
       case Got(v, n) =>
         if v > max then Bad(TooLarge)
         else if |s| < n + v then Incomplete
         else Whole(PayloadUnit(s[n..n + v]), n + v))
    case Delimited(delim) =>
      match Find(s, delim)
      case None => Incomplete
      case Some(i) => Whole(Text(s[..i]), i + |delim|)
  }

  function Parse(p: Protocol, s: Bytes): Parsed
    requires Usable(p)
    decreases |s|
  {
    match ParseFirst(p, s)
    case Incomplete => Parsed([], s, NoFault)
    case Bad(fault) => Parsed([], s, fault)
    case Whole(unit, used) =>
      var tail := Parse(p, s[used..]);
      tail.(units := [unit] + tail.units)
  }

  /** The parse, one unit at a time. */
  lemma ParseUnfold(p: Protocol, s: Bytes)
    requires Usable(p)
    ensures var f := ParseFirst(p, s);
      && (f.Incomplete? ==> Parse(p, s) == Parsed([], s, NoFault))
      && (f.Bad? ==> Parse(p, s) == Parsed([], s, f.fault))
      && (f.Whole? ==> var tail := Parse(p, s[f.used..]);
                       Parse(p, s) == tail.(units := [f.unit] + tail.units))
  {
  }

  lemma ParseFirstAppend(p: Protocol, s: Bytes, t: Bytes)
    requires Usable(p) && ParseFirst(p, s) != Incomplete
    ensures ParseFirst(p, s + t) == ParseFirst(p, s)
  {
    match p
    case Lengths(max) =>
      UnpackAppend(s, t);
      if ParseFirst(p, s).Whole? {
        var n, v := Unpack(s).used, Unpack(s).value;
        assert (s + t)[n..n + v] == s[n..n + v];
      }
    case Delimited(delim) =>
      FindAppend(s, delim, t);
      var i := Find(s, delim).value;
      assert (s + t)[..i] == s[..i];
  }

  /** Parsing is a left fold over arrivals: later bytes extend the parse and never revise it. */
  lemma {:induction false} ParseAppend(p: Protocol, s: Bytes, t: Bytes)
    requires Usable(p)
    ensures var a, whole := Parse(p, s), Parse(p, s + t);
      if a.fault == NoFault then
        var b := Parse(p, a.rest + t);
        whole == b.(units := a.units + b.units)
      else whole == a.(rest := a.rest + t)
    decreases |s|
  {
    hide Parse, ParseFirst;
    var f := ParseFirst(p, s);
    ParseUnfold(p, s);
    ParseUnfold(p, s + t);
    if f != Incomplete {
      ParseFirstAppend(p, s, t);
    }
    if f.Whole? {
      assert (s + t)[f.used..] == s[f.used..] + t;
      ParseAppend(p, s[f.used..], t);
      var a := Parse(p, s[f.used..]);
      var b := Parse(p, a.rest + t);
      assert [f.unit] + (a.units + b.units) == ([f.unit] + a.units) + b.units;
    } else if f.Incomplete? {
      assert [] + Parse(p, s + t).units == Parse(p, s + t).units;
    }
  }

  // ----- parse after print -----

  lemma ParseFirstFrame(p: Protocol, m: Bytes, t: Bytes)
    requires Usable(p) && Sendable(p, m)
    ensures Frame(p, m).Some?
    ensures ParseFirst(p, Frame(p, m).value + t) == Whole(Received(p, m), |Frame(p, m).value|)
  {
    match p
    case Lengths(max) =>
      var h := Pack(|m|);
      RoundTrip(|m|, m + t);
      assert (h + m) + t == h + (m + t);
      assert (h + (m + t))[|h|..|h| + |m|] == m;
    case Delimited(delim) =>
      FindAppend(m + delim, delim, t);
      assert ((m + delim) + t)[..|m|] == m;
  }

  /** `create` refuses exactly the messages that would bring down a receiver with the same limit. */
  lemma RefusedIsUnreceivable(p: Protocol, m: Bytes)
    requires p.Lengths? && |m| < LIMIT
    ensures Frame(p, m).Some? <==> ParseFirst(p, Pack(|m|) + m) != Bad(TooLarge)
    ensures Frame(p, m).Some? ==> Frame(p, m).value == Pack(|m|) + m
  {
    RoundTrip(|m|, m);
  }

  lemma ParseFrame(p: Protocol, m: Bytes, later: Bytes)
    requires Usable(p) && Sendable(p, m)
    ensures Frame(p, m).Some?
    ensures var tail := Parse(p, later);
      Parse(p, Frame(p, m).value + later) == tail.(units := [Received(p, m)] + tail.units)
  {
    var f := Frame(p, m).value;
    ParseFirstFrame(p, m, later);
    assert (f + later)[|f|..] == later;
  }

  /** The receiver's parse inverts the sender's printing, unit by unit, for both protocols. */
  lemma {:induction false} ParsePrinted(p: Protocol, msgs: seq<Bytes>, t: Bytes)
    requires Usable(p) && forall m :: m in msgs ==> Sendable(p, m)
    ensures forall m :: m in msgs ==> Frame(p, m).Some?
    ensures var tail := Parse(p, t);
      Parse(p, Printed(p, msgs) + t) == tail.(units := Expected(p, msgs) + tail.units)
  {
    hide Parse, Received;
    if msgs == [] {
      assert Printed(p, msgs) + t == t;
      assert [] + Parse(p, t).units == Parse(p, t).units;
    } else {
      var m, rest := msgs[0], msgs[1..];
      assert m in msgs;
      ParsePrinted(p, rest, t);
      var f := Frame(p, m).value;
      var later := Printed(p, rest) + t;
      ParseFrame(p, m, later);
      assert Printed(p, msgs) + t == f + later;
      assert [Received(p, m)] + (Expected(p, rest) + Parse(p, t).units)
          == Expected(p, msgs) + Parse(p, t).units;
    }
  }

  /** No byte of a sendable list is left over. */
  lemma ParsePrintedAlone(p: Protocol, msgs: seq<Bytes>)
    requires Usable(p) && forall m :: m in msgs ==> Sendable(p, m)
    ensures forall m :: m in msgs ==> Frame(p, m).Some?
    ensures Parse(p, Printed(p, msgs)) == Parsed(Expected(p, msgs), [], NoFault)
  {
    ParsePrinted(p, msgs, []);
    assert Printed(p, msgs) + [] == Printed(p, msgs);
    assert Parse(p, []) == Parsed([], [], NoFault);
    assert Expected(p, msgs) + [] == Expected(p, msgs);
  }

  // ----- delimiter framing: exactly which lists survive -----

  /**
   * With a delimiter, the list comes back if and only if, message by message, the delimiter that
   * was appended is the first one in message ++ delimiter.
   */
  lemma {:induction false} DelimitedRoundTrip(delim: Bytes, msgs: seq<Bytes>)
    requires delim != []
    ensures Parse(Delimited(delim), Printed(Delimited(delim), msgs)).units
         == Expected(Delimited(delim), msgs)
       <==> forall m :: m in msgs ==> Sendable(Delimited(delim), m)
  {
    var p := Delimited(delim);
    if forall m :: m in msgs ==> Sendable(p, m) {
      ParsePrintedAlone(p, msgs);
    } else {
      DelimitedBreaks(delim, msgs);
    }
  }

  lemma {:induction false} DelimitedBreaks(delim: Bytes, msgs: seq<Bytes>)
    requires delim != [] && exists m :: m in msgs && !Sendable(Delimited(delim), m)
    ensures Parse(Delimited(delim), Printed(Delimited(delim), msgs)).units
         != Expected(Delimited(delim), msgs)
  {
    var p := Delimited(delim);
    var m, rest := msgs[0], msgs[1..];
    var f := m + delim;
    assert Printed(p, msgs) == f + Printed(p, rest);
    if Sendable(p, m) {
      ParseFirstFrame(p, m, Printed(p, rest));
      assert (f + Printed(p, rest))[|f|..] == Printed(p, rest);
      DelimitedBreaks(delim, rest);
      var got := Parse(p, Printed(p, rest)).units;
      assert ([Text(m)] + got)[1..] == got;
      assert Expected(p, msgs)[1..] == Expected(p, rest);
    } else {
      assert OccursAt(f, delim, |m|);
      FindAppend(f, delim, Printed(p, rest));
      var i := Find(f, delim).value;
      assert i < |m|;
      var first := Parse(p, Printed(p, msgs)).units[0];
      assert first == Text((f + Printed(p, rest))[..i]);
      assert Expected(p, msgs)[0] == Text(m);
    }
  }

  /** No proper nonempty prefix of the delimiter is also its suffix. */
  ghost predicate Unbordered(d: Bytes) {
    forall k :: 0 < k < |d| ==> d[..k] != d[|d| - k..]
  }

  /** An occurrence that overlaps the appended delimiter makes a border of it. */
  lemma OverlapIsBorder(d: Bytes, m: Bytes, i: nat)
    requires OccursAt(m + d, d, i) && i < |m| < i + |d|
    ensures !Unbordered(d)
  {
    var k := i + |d| - |m|;
    var w := (m + d)[i..i + |d|];
    assert w[|d| - k..] == d[..k];
    assert 0 < k < |d| && d[..k] == d[|d| - k..];
  }

  /** For such a delimiter the condition is simply that the message does not contain it. */
  lemma UnborderedSendable(d: Bytes, m: Bytes)
    requires d != [] && Unbordered(d)
    ensures Sendable(Delimited(d), m) <==> Find(m, d) == None
  {
    assert OccursAt(m + d, d, |m|);
    if Find(m, d).Some? {
      FindAppend(m, d, d);
    } else {
      forall i | 0 <= i < |m|
        ensures !OccursAt(m + d, d, i)
      {
        if OccursAt(m + d, d, i) {
          if i + |d| <= |m| {
            assert OccursAt(m, d, i) by {
              assert (m + d)[i..i + |d|] == m[i..i + |d|];
            }
            assert false;
          } else {
            OverlapIsBorder(d, m, i);
          }
        }
      }
      FindIs(m + d, d, |m|);
    }
  }

  const CRLF2: Bytes := [13, 10, 13, 10]

  /** The default delimiter has a border, and a message free of it can still be cut short. */
  lemma DefaultDelimiterBreaks()
    ensures Find([13, 10], CRLF2) == None
    ensures !Sendable(Delimited(CRLF2), [13, 10])
    ensures !Unbordered(CRLF2)
  {
    var s: Bytes := [13, 10] + CRLF2;
    assert OccursAt(s, CRLF2, 0);
    FindIs(s, CRLF2, 0);
    assert CRLF2[..2] == CRLF2[|CRLF2| - 2..];
  }

  // ----- the manager builds the parse -----

  /** The bytes the builder holds outside the manager's buffer, as the sender printed them. */
  function Held(b: Builder): Bytes {
    if b.Msg? && b.size.success && b.size.data.Int? then Pack(b.size.data.i) + b.body.buffer else []
  }

  /** A payload that starts with this call: all of it, or what there is of it. */
  lemma CountedFirst(c: Counted, data: Bytes)
    requires !c.ready && c.buffer == [] && c.unit == Flag(false)
    ensures EatCounted(c, data) ==
      if |data| < c.size then Eaten(c.(buffer := data), [], NoFault)
      else Eaten(Counted(c.size, [], true, PayloadUnit(data[..c.size])), data[c.size..], NoFault)
  {
    var add := if |data| < c.size then |data| else c.size;
    assert c.buffer + data[..add] == data[..add];
    assert |data| < c.size ==> data[..add] == data && data[add..] == [];
  }

  /** The first call on a fresh builder does what the parse of the first unit says. */
  lemma EatIsParseFirst(p: Protocol, b: Builder, s: Bytes)
    requires Usable(p) && s != [] && Idle(p, b)
    ensures var e, f := Eat(b, s), ParseFirst(p, s);
      match f
      case Bad(fault) => e.fault == fault && Resting(e.state, e.rest, s)
      case Whole(unit, used) => e.fault == NoFault && Ready(e.state) && Built(e.state) == unit
                                && e.rest == s[used..] && Idle(p, Reset(e.state))
      case Incomplete => e.fault == NoFault && !Ready(e.state) && Resting(e.state, e.rest, s)
  {
    hide EatCounted, Unpack;
    if p.Lengths? && Unpack(s).Got? {
      var n, v := Unpack(s).used, Unpack(s).value;
      assert s == s[..n] + s[n..];
      assert s == s[..n] + [] + s[n..];
      assert s == s[..n] + s[n..] + [];
      CountedFirst(b.body.(size := v), s[n..]);
      if |s| >= n + v {
        assert s[n..][..v] == s[n..n + v] && s[n..][v..] == s[n + v..];
      }
    }
  }

  /** A builder just created or reset; the size of the last payload may linger. */
  predicate Idle(p: Protocol, b: Builder) {
    match p
    case Lengths(max) =>
      b.Msg? && b.max == max && !b.ready && b.size == Flag(false)
      && b.body.buffer == [] && !b.body.ready && b.body.unit == Flag(false)
    case Delimited(delim) => b == DStream(delim, Flag(false))
  }

  /** Builder and buffer together hold the unparsed bytes `s`; an oversize payload stays in the buffer. */
  predicate Resting(b: Builder, buffer: Bytes, s: Bytes) {
    if b.Msg? && b.size.success then
      var u := Unpack(s);
      && u.Got? && b.size.data == Int(u.value) && s == s[..u.used] + b.body.buffer + buffer
      && (u.value <= b.max ==> buffer == [])
    else buffer == s && (b.Msg? ==> b.body.buffer == [] && !Unpack(s).Got?)
  }

  /** One turn of the drain loop from an idle builder follows the parse of the first unit. */
  lemma DrainTurn(p: Protocol, m: Manager) returns (next: Builder)
    requires Usable(p) && Idle(p, m.builder) && m.buffer != []
    ensures Valid(m) && Idle(p, next) && Waiting(next)
    ensures var f, r := ParseFirst(p, m.buffer), Drain(m);
      && (f.Bad? ==> r.fault == f.fault && r.m.replies == m.replies
                     && Resting(r.m.builder, r.m.buffer, m.buffer))
      && (f.Incomplete? ==> r.fault == NoFault && r.m.replies == m.replies
                            && Resting(r.m.builder, r.m.buffer, m.buffer))
      && (f.Whole? ==> r == Drain(Manager(m.buffer[f.used..], next, m.replies + [f.unit])))
  {
    EatIsParseFirst(p, m.builder, m.buffer);
    EatProgress(m.builder, m.buffer);
    next := m.builder;
    if ParseFirst(p, m.buffer).Whole? {
      next := Reset(Eat(m.builder, m.buffer).state);
    }
  }

  /** What draining builds is what the parse of the buffer says. */
  ghost predicate BuildsParse(m: Manager, r: Fed, parse: Parsed) {
    && r.m.replies == m.replies + parse.units
    && r.fault == parse.fault
    && Resting(r.m.builder, r.m.buffer, parse.rest)
  }

  lemma {:induction false} DrainIsParse(p: Protocol, m: Manager)
    requires Usable(p) && Idle(p, m.builder)
    ensures Valid(m) && BuildsParse(m, Drain(m), Parse(p, m.buffer))
    decreases |m.buffer|
  {
    hide Drain, Parse, Resting, ParseFirst, Eat;
    if m.buffer == [] {
      DrainNothing(p, m);
    } else {
      var next := DrainTurn(p, m);
      ParseUnfold(p, m.buffer);
      var f := ParseFirst(p, m.buffer);
      if f.Whole? {
        var later := Manager(m.buffer[f.used..], next, m.replies + [f.unit]);
        DrainIsParse(p, later);
        BuildsMore(p, m, f.unit, Drain(later), Parse(p, later.buffer));
      } else {
        assert m.replies + [] == m.replies;
      }
    }
  }

  lemma DrainNothing(p: Protocol, m: Manager)
    requires Usable(p) && Idle(p, m.builder) && m.buffer == []
    ensures Valid(m) && BuildsParse(m, Drain(m), Parse(p, m.buffer))
  {
    assert Parse(p, m.buffer) == Parsed([], [], NoFault);
  }

  lemma BuildsMore(p: Protocol, m: Manager, u: Unit, r: Fed, parse: Parsed)
    requires BuildsParse(m.(replies := m.replies + [u]), r, parse)
    ensures BuildsParse(m, r, parse.(units := [u] + parse.units))
  {
    assert m.replies + [u] + parse.units == m.replies + ([u] + parse.units);
  }

  lemma StartSettled(p: Protocol)
    requires Usable(p)
    ensures Settled(Start(p)) && Idle(p, Start(p).builder)
  {
  }

  /**
   * Any chunking of a stream yields the units and the throw of its parse, and leaves in builder and
   * buffer what the parse of the packets that arrived leaves over.
   */
  lemma ChunksAreParsed(p: Protocol, chunks: seq<Bytes>)
    requires Usable(p)
    ensures Settled(Start(p))
    ensures var r, n, parse :=
        FeedAll(Start(p), chunks), Arrived(Start(p), chunks), Parse(p, Flatten(chunks));
      && r.m.replies == parse.units && r.fault == parse.fault
      && BuildsParse(Start(p), r, Parse(p, Flatten(chunks[..n])))
  {
    hide Drain, Resting, Parse;
    StartSettled(p);
    Fragmentation(Start(p), chunks);
    WholeIsParsed(p, Flatten(chunks));
    WholeIsParsed(p, Flatten(chunks[..Arrived(Start(p), chunks)]));
  }

  lemma WholeIsParsed(p: Protocol, s: Bytes)
    requires Usable(p)
    ensures Settled(Start(p)) && BuildsParse(Start(p), Feed(Start(p), s), Parse(p, s))
    ensures Feed(Start(p), s).m.replies == Parse(p, s).units
  {
    hide Drain, Resting, Parse;
    StartSettled(p);
    assert [] + s == s;
    DrainIsParse(p, Start(p).(buffer := s));
    assert [] + Parse(p, s).units == Parse(p, s).units;
  }

  // ----- byte conservation -----

  /** If the stream starts with a complete header, it is the one the sender prints. */
  predicate CanonicalHeader(p: Protocol, s: Bytes) {
    p.Lengths? && Unpack(s).Got? ==> s[..Unpack(s).used] == Pack(Unpack(s).value)
  }

  /** Every header the parse reads is the one the sender prints. */
  predicate CanonicalHeaders(p: Protocol, s: Bytes)
    requires Usable(p)
    decreases |s|
  {
    && CanonicalHeader(p, s)
    && var f := ParseFirst(p, s);
       (f.Whole? ==> CanonicalHeaders(p, s[f.used..]))
  }

  /** The wire form of a received unit. */
  function Rewire(p: Protocol, u: Unit): Bytes {
    var payload := Wire(Preorder(u));
    if p.Lengths? then Pack(|payload|) + payload else payload + p.delim
  }

  function RewireAll(p: Protocol, us: seq<Unit>): Bytes {
    if us == [] then [] else Rewire(p, us[0]) + RewireAll(p, us[1..])
  }

  lemma WireOfPayload(s: Bytes)
    ensures Wire(Preorder(PayloadUnit(s))) == s && Wire(Preorder(Text(s))) == s
  {
    WireOfRoot(PayloadUnit(s));
    WireOfRoot(Text(s));
  }

  /** Whatever a message holds, the unit received for it is ok and carries exactly its bytes. */
  lemma ReceivedCarries(p: Protocol, msg: Bytes)
    ensures Received(p, msg).success && Wire(Preorder(Received(p, msg))) == msg
    ensures Received(p, msg).IsNull() <==> p.Lengths? && msg == []
  {
    WireOfPayload(msg);
  }

  /** A unit printed again is the bytes it was parsed from, if their header was the sender's. */
  lemma FirstRewired(p: Protocol, s: Bytes)
    requires Usable(p) && ParseFirst(p, s).Whole? && CanonicalHeader(p, s)
    ensures Rewire(p, ParseFirst(p, s).unit) == s[..ParseFirst(p, s).used]
  {
    match p
    case Lengths(max) =>
      var n, v := Unpack(s).used, Unpack(s).value;
      WireOfPayload(s[n..n + v]);
      assert s[..n] + s[n..n + v] == s[..n + v];
    case Delimited(delim) =>
      var i := Find(s, delim).value;
      WireOfPayload(s[..i]);
      assert s[..i] + s[i..i + |delim|] == s[..i + |delim|];
  }

  /** A stream that starts with a printed header of the value it reads as has a canonical header. */
  lemma PrintedIsCanonical(p: Protocol, s: Bytes, t: Bytes)
    requires p.Lengths? && Unpack(s).Got? && s == Pack(Unpack(s).value) + t
    ensures CanonicalHeader(p, s)
  {
    UnpackBelowLimit(s);
    RoundTrip(Unpack(s).value, t);
  }

  /** What builder and buffer hold of an unparsed rest: its header, if complete, as printed. */
  function RestForm(p: Protocol, s: Bytes): Bytes {
    if p.Lengths? && Unpack(s).Got? then Pack(Unpack(s).value) + s[Unpack(s).used..] else s
  }

  lemma RestCanonical(p: Protocol, s: Bytes)
    ensures RestForm(p, s) == s <==> CanonicalHeader(p, s)
  {
    if p.Lengths? && Unpack(s).Got? {
      assert s == s[..Unpack(s).used] + s[Unpack(s).used..];
      if RestForm(p, s) == s {
        PrintedIsCanonical(p, s, s[Unpack(s).used..]);
      }
    }
  }

  /** A unit printed again in front of anything gives the stream back only if its header was canonical. */
  lemma RewiredCanonical(p: Protocol, s: Bytes, t: Bytes)
    requires Usable(p) && ParseFirst(p, s).Whole? && Rewire(p, ParseFirst(p, s).unit) + t == s
    ensures CanonicalHeader(p, s)
  {
    hide CanonicalHeader, Unpack, Wire, Preorder;
    if p.Lengths? {
      var n, v := Unpack(s).used, Unpack(s).value;
      var payload := s[n..n + v];
      WireOfPayload(payload);
      assert Pack(v) + payload + t == Pack(v) + (payload + t);
      PrintedIsCanonical(p, s, payload + t);
    } else {
      NoHeader(p, s);
    }
  }

  lemma NoHeader(p: Protocol, s: Bytes)
    requires p.Delimited?
    ensures CanonicalHeader(p, s)
  {
  }

  /** Units and rest print back to the stream if and only if every header in it is canonical. */
  lemma {:induction false} ParseConserves(p: Protocol, s: Bytes)
    requires Usable(p)
    ensures RewireAll(p, Parse(p, s).units) + RestForm(p, Parse(p, s).rest) == s <==> CanonicalHeaders(p, s)
    decreases |s|
  {
    hide Parse, ParseFirst, Rewire, RestForm, CanonicalHeader;
    var f := ParseFirst(p, s);
    ParseUnfold(p, s);
    if f.Whole? {
      var later := s[f.used..];
      var us, rest := Parse(p, later).units, RestForm(p, Parse(p, later).rest);
      var first := Rewire(p, f.unit);
      assert ([f.unit] + us)[1..] == us;
      assert s == s[..f.used] + later;
      assert first + RewireAll(p, us) + rest == first + (RewireAll(p, us) + rest);
      ParseConserves(p, later);
      if first + (RewireAll(p, us) + rest) == s {
        RewiredCanonical(p, s, RewireAll(p, us) + rest);
      }
      if CanonicalHeader(p, s) {
        FirstRewired(p, s);
      }
    } else {
      RestCanonical(p, s);
      assert [] + RestForm(p, s) == RestForm(p, s);
    }
  }

  /**
   * At every point of every run, a throw included: the wire forms of all units built, then the
   * header and partial payload inside the builder, then the buffer, are exactly the bytes that
   * arrived, if and only if every header in them is the one the sender prints.
   */
  lemma BytesConserved(p: Protocol, chunks: seq<Bytes>)
    requires Usable(p)
    ensures Valid(Start(p))
    ensures var r, s := FeedAll(Start(p), chunks), Flatten(chunks[..Arrived(Start(p), chunks)]);
      RewireAll(p, r.m.replies) + Held(r.m.builder) + r.m.buffer == s <==> CanonicalHeaders(p, s)
  {
    hide Drain, Parse, Resting, Rewire, RestForm, CanonicalHeaders, Held;
    StartSettled(p);
    Fragmentation(Start(p), chunks);
    var r, s := FeedAll(Start(p), chunks), Flatten(chunks[..Arrived(Start(p), chunks)]);
    WholeIsParsed(p, s);
    ParseConserves(p, s);
    DrainKeepsProtocol(Start(p).(buffer := [] + s));
    HeldIsRest(p, r.m.builder, r.m.buffer, Parse(p, s).rest);
    assert RewireAll(p, r.m.replies) + Held(r.m.builder) + r.m.buffer
        == RewireAll(p, r.m.replies) + (Held(r.m.builder) + r.m.buffer);
  }

  lemma {:induction false} DelimitedIsCanonical(delim: Bytes, s: Bytes)
    requires delim != []
    ensures CanonicalHeaders(Delimited(delim), s)
    decreases |s|
  {
    var f := ParseFirst(Delimited(delim), s);
    if f.Whole? {
      DelimitedIsCanonical(delim, s[f.used..]);
    }
  }

  /** With a delimiter there is no condition: nothing throws, and no byte is ever lost. */
  lemma DelimitedBytesConserved(delim: Bytes, chunks: seq<Bytes>)
    requires delim != []
    ensures Valid(Start(Delimited(delim)))
    ensures var r := FeedAll(Start(Delimited(delim)), chunks);
      && r.fault == NoFault
      && RewireAll(Delimited(delim), r.m.replies) + r.m.buffer == Flatten(chunks)
  {
    hide Drain, Parse, Resting, Rewire, CanonicalHeaders;
    var p := Delimited(delim);
    StartSettled(p);
    BytesConserved(p, chunks);
    Fragmentation(Start(p), chunks);
    ChunksAreParsed(p, chunks);
    DelimitedNeverThrows(delim, Flatten(chunks));
    assert chunks[..|chunks|] == chunks;
    DelimitedIsCanonical(delim, Flatten(chunks));
    DrainKeepsProtocol(Start(p).(buffer := [] + Flatten(chunks)));
    var r := FeedAll(Start(p), chunks);
    assert RewireAll(p, r.m.replies) + [] == RewireAll(p, r.m.replies);
  }

  lemma {:induction false} DelimitedNeverThrows(delim: Bytes, s: Bytes)
    requires delim != []
    ensures Parse(Delimited(delim), s).fault == NoFault
    decreases |s|
  {
    var f := ParseFirst(Delimited(delim), s);
    if f.Whole? {
      DelimitedNeverThrows(delim, s[f.used..]);
    }
  }

  /** The protocol a builder was made for. */
  function Speaks(b: Builder): Protocol {
    if b.Msg? then Lengths(b.max) else Delimited(b.delim)
  }

  /** A call of the string builder moves bytes from the data to the payload, in order. */
  lemma PayloadConserves(c: Counted, data: Bytes)
    requires !c.ready && |c.buffer| <= c.size && c.unit == Flag(false)
    ensures var e := EatCounted(c, data);
      && e.fault == NoFault && e.state.size == c.size
      && (!e.state.ready ==> e.state.buffer + e.rest == c.buffer + data)
      && (e.state.ready ==>
            var payload := Wire(Preorder(e.state.unit));
            |payload| == c.size && payload + e.rest == c.buffer + data)
  {
    var left := c.size - |c.buffer|;
    var add := if |data| < left then |data| else left;
    assert data == data[..add] + data[add..];
    WireOfPayload(c.buffer + data[..add]);
  }

  /** No byte gets lost between builder and buffer, or on the way into a unit. */
  ghost predicate Conserves(b: Builder, s: Bytes, e: Eaten<Builder>) {
    if e.fault == NoFault && Ready(e.state)
    then Held(b) + s == Rewire(Speaks(b), Built(e.state)) + Held(Reset(e.state)) + e.rest
    else Held(b) + s == Held(e.state) + e.rest
  }

  lemma StreamTurn(b: Builder, s: Bytes)
    requires b.DStream? && Waiting(b)
    ensures Conserves(b, s, EatDStream(b, s))
  {
    hide Wire, Preorder;
    var i := Find(s, b.delim);
    if i.Some? {
      WireOfPayload(s[..i.value]);
      assert s == s[..i.value] + s[i.value..i.value + |b.delim|] + s[i.value + |b.delim|..];
    }
  }

  /** The header is known. */
  lemma PayloadTurn(b: Builder, s: Bytes)
    requires b.Msg? && !b.ready && b.size.success && b.size.data.Int? && !b.body.ready
    requires b.body.size == b.size.data.i && |b.body.buffer| <= b.body.size && b.body.unit == Flag(false)
    ensures Conserves(b, s, EatMsg(b, s))
  {
    hide EatCounted, Wire, Preorder, Pack;
    PayloadConserves(b.body, s);
    var e, h := EatCounted(b.body, s), Pack(b.size.data.i);
    assert h + b.body.buffer + s == h + (b.body.buffer + s);
    if e.state.ready {
      var payload := Wire(Preorder(e.state.unit));
      assert h + payload + [] + e.rest == h + (payload + e.rest);
    } else {
      assert h + e.state.buffer + e.rest == h + (e.state.buffer + e.rest);
    }
  }

  /** The header comes with this call: taking it off changes nothing, and the payload follows. */
  lemma HeaderTurn(b: Builder, s: Bytes)
    requires b.Msg? && Waiting(b) && !b.size.success && CanonicalHeader(Speaks(b), s)
    ensures Conserves(b, s, EatMsg(b, s))
  {
    hide EatCounted, UnpackFrom, Wire, Preorder, Pack, Conserves;
    if Unpack(s).Got? {
      var n, v := Unpack(s).used, Unpack(s).value;
      assert s == Pack(v) + s[n..];
      var known := b.(size := b.size.Set(Int(v), true), body := b.body.(size := v));
      assert Held(b) + s == Held(known) + s[n..] by { HeldHeader(b, known, s, s[n..]); }
      if v <= b.max {
        PayloadTurn(known, s[n..]);
        assert EatMsg(b, s) == EatMsg(known, s[n..]);
        SameHeld(b, s, known, s[n..], EatMsg(b, s));
      } else {
        TooLargeTurn(b, s);
      }
    } else {
      assert EatMsg(b, s).state == b && EatMsg(b, s).rest == s;
      UnmovedTurn(b, s, EatMsg(b, s));
    }
  }

  lemma HeldHeader(b: Builder, known: Builder, s: Bytes, t: Bytes)
    requires b.Msg? && !b.size.success && known.Msg? && known.size.success && known.size.data.Int?
    requires known.body.buffer == [] && s == Pack(known.size.data.i) + t
    ensures Held(b) + s == Held(known) + t
  {
    assert [] + s == s;
    assert Pack(known.size.data.i) + [] == Pack(known.size.data.i);
  }

  lemma SameHeld(b: Builder, s: Bytes, known: Builder, t: Bytes, e: Eaten<Builder>)
    requires Held(b) + s == Held(known) + t && Speaks(b) == Speaks(known) && Conserves(known, t, e)
    ensures Conserves(b, s, e)
  {
  }

  lemma UnmovedTurn(b: Builder, s: Bytes, e: Eaten<Builder>)
    requires e.state == b && e.rest == s && !Ready(b)
    ensures Conserves(b, s, e)
  {
  }

  lemma TooLargeTurn(b: Builder, s: Bytes)
    requires b.Msg? && Waiting(b) && !b.size.success && CanonicalHeader(Speaks(b), s)
    requires Unpack(s).Got? && Unpack(s).value > b.max
    ensures Conserves(b, s, EatMsg(b, s))
  {
    hide UnpackFrom, Pack;
    var n, v := Unpack(s).used, Unpack(s).value;
    assert s == Pack(v) + s[n..];
    HeldHeader(b, EatMsg(b, s).state, s, s[n..]);
  }

  /**
   * One turn of the drain loop loses no byte either, whatever state the builder is in and whether
   * it goes on waiting, finishes a unit or throws.
   */
  lemma TurnConserves(b: Builder, s: Bytes)
    requires Waiting(b) && s != []
    requires b.Msg? && !b.size.success ==> CanonicalHeader(Speaks(b), s)
    ensures Conserves(b, s, Eat(b, s))
  {
    hide Conserves, CanonicalHeader, EatMsg, EatDStream;
    if b.DStream? {
      StreamTurn(b, s);
    } else if b.size.success {
      PayloadTurn(b, s);
    } else {
      HeaderTurn(b, s);
    }
  }

  lemma {:induction false} DrainKeepsProtocol(m: Manager)
    requires Valid(m)
    ensures Drain(m).m.builder.Msg? == m.builder.Msg?
    decreases |m.buffer|
  {
    if m.buffer != [] {
      var e := Eat(m.builder, m.buffer);
      EatProgress(m.builder, m.buffer);
      if e.fault == NoFault && Ready(e.state) {
        DrainKeepsProtocol(Manager(e.rest, Reset(e.state), m.replies + [Built(e.state)]));
      }
    }
  }

  lemma HeldIsRest(p: Protocol, b: Builder, buffer: Bytes, s: Bytes)
    requires Resting(b, buffer, s) && (b.Msg? <==> p.Lengths?)
    ensures Held(b) + buffer == RestForm(p, s)
  {
    hide Unpack;
    if b.Msg? && b.size.success {
      var n := Unpack(s).used;
      var tail := b.body.buffer + buffer;
      assert s == s[..n] + tail;
      assert s[n..] == tail;
    }
  }
}
