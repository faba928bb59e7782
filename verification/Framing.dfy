/**
 * The message framing stack on values: what one call of each builder does and the drain loop of the
 * manager (src/network/unit_builder_manager.cpp). The theorems say that how a stream is cut into
 * packets does not matter; what the stream means is in Streams.
 */
module Framing {
  import opened Sequences
  import opened Units
  import opened Varint

  // ----- builder states and their calls -----

  /** Why a call threw. `Undefined` is a header whose sixth byte the source shifts out of range. */
  datatype Fault = NoFault | TooLarge | Overrun | Undefined

  /** string_builder: `size` bytes are collected in `buffer`. */
  datatype Counted = Counted(size: nat, buffer: Bytes, ready: bool, unit: Unit)

  datatype Builder =
    | Msg(max: nat, ready: bool, size: Unit, body: Counted)
    | DStream(delim: Bytes, unit: Unit)

  datatype Protocol = Lengths(max: nat) | Delimited(delim: Bytes)

  function Fresh(p: Protocol): Builder {
    match p
    case Lengths(max) => Msg(max, false, Flag(false), Counted(0, [], false, Flag(false)))
    case Delimited(delim) => DStream(delim, Flag(false))
  }

  /** The unit a received payload becomes: string_builder reports an empty one as an ok null unit. */
  function PayloadUnit(p: Bytes): Unit {
    if p == [] then Flag(true) else Text(p)
  }

  datatype Eaten<S> = Eaten(state: S, rest: Bytes, fault: Fault)

  function EatInteger(u: Unit, data: Bytes): Eaten<Unit> {
    if u.success then Eaten(u, data, NoFault)
    else match Unpack(data)
      case Need => Eaten(u, data, NoFault)
      case Undefined => Eaten(u, data, Fault.Undefined)
      case Got(v, n) => Eaten(u.Set(Int(v), true), data[n..], NoFault)
  }

  function EatCounted(c: Counted, data: Bytes): Eaten<Counted> {
    if c.ready then Eaten(c, data, NoFault)
    else
      var left := if |c.buffer| < c.size then c.size - |c.buffer| else 0;
      var add := if |data| < left then |data| else left;
      var buffer := c.buffer + data[..add];
      var rest := data[add..];
      if |buffer| > c.size then Eaten(c, rest, Overrun)
      else if |buffer| == c.size then
        var u := if buffer != [] then c.unit.Set(Str(buffer), true) else c.unit.Set(Bool(true), true);
        Eaten(Counted(c.size, [], true, u), rest, NoFault)
      else Eaten(c.(buffer := buffer), rest, NoFault)
  }

  function EatMsg(b: Builder, data: Bytes): Eaten<Builder>
    requires b.Msg?
    requires b.size.success ==> b.size.data.Int?
  {
    if b.ready then Eaten(b, data, NoFault)
    else
      var head := EatInteger(b.size, data);
      if head.fault != NoFault then Eaten(b, data, head.fault)
      else
        var b1 := b.(size := head.state);
        if !b.size.success && head.state.success && head.state.data.i > b.max
        then Eaten(b1, head.rest, TooLarge)
        else
          var body0 := if !b.size.success && head.state.success
                       then b.body.(size := head.state.data.i) else b.body;
          var tail := if head.state.success && !body0.ready then EatCounted(body0, head.rest)
                      else Eaten(body0, head.rest, NoFault);
          if tail.fault != NoFault then Eaten(b1.(body := tail.state), tail.rest, tail.fault)
          else Eaten(b1.(body := tail.state, ready := tail.state.ready), tail.rest, NoFault)
  }

  function EatDStream(b: Builder, data: Bytes): Eaten<Builder>
    requires b.DStream?
  {
    if b.unit.success then Eaten(b, data, NoFault)
    else match Find(data, b.delim)
      case None => Eaten(b, data, NoFault)
      case Some(i) => Eaten(b.(unit := b.unit.Set(Str(data[..i]), true)), data[i + |b.delim|..], NoFault)
  }

  predicate Ready(b: Builder) {
    match b
    case Msg(_, ready, _, _) => ready
    case DStream(_, unit) => unit.success
  }

  function Built(b: Builder): Unit {
    match b
    case Msg(_, _, _, body) => body.unit
    case DStream(_, unit) => unit
  }

  function Reset(b: Builder): Builder {
    match b
    case Msg(max, _, size, body) =>
      Msg(max, false, size.Set(Bool(false), false),
          Counted(body.size, [], false, body.unit.Set(Bool(false), false)))
    case DStream(delim, unit) => DStream(delim, unit.Set(Bool(false), false))
  }

  /** The builder states between calls: nothing complete, and a header is known or no payload is. */
  predicate Waiting(b: Builder) {
    match b
    case Msg(max, ready, size, body) =>
      && !ready && !body.ready && body.unit == Flag(false)
      && (|| (size == Flag(false) && body.buffer == [])
          || (size.success && size.data.Int? && size.nested == [] && size.data.i <= max
              && body.size == size.data.i && |body.buffer| < body.size))
    case DStream(delim, unit) => delim != [] && unit == Flag(false)
  }

  function Eat(b: Builder, data: Bytes): Eaten<Builder>
    requires Waiting(b)
  {
    if b.Msg? then EatMsg(b, data) else EatDStream(b, data)
  }

  /** One call on a nonempty buffer either keeps the builder waiting or finishes a unit, using bytes. */
  lemma EatProgress(b: Builder, data: Bytes)
    requires Waiting(b) && data != []
    ensures var e := Eat(b, data);
      e.fault == NoFault ==>
        if Ready(e.state) then |e.rest| < |data| && Waiting(Reset(e.state)) else Waiting(e.state)
    ensures var e := Eat(b, data); e.fault != Overrun
  {
    if b.Msg? {
      var head := EatInteger(b.size, data);
    }
  }

  // ----- the manager -----

  datatype Manager = Manager(buffer: Bytes, builder: Builder, replies: seq<Unit>)

  datatype Fed = Fed(m: Manager, fault: Fault)

  predicate Valid(m: Manager) {
    Waiting(m.builder)
  }

  /** `while (build_unit());` */
  function Drain(m: Manager): (r: Fed)
    requires Valid(m)
    ensures r.fault == NoFault ==> Valid(r.m)
    decreases |m.buffer|
  {
    if m.buffer == [] then Fed(m, NoFault)
    else
      var e := Eat(m.builder, m.buffer);
      EatProgress(m.builder, m.buffer);
      if e.fault != NoFault then Fed(Manager(e.rest, e.state, m.replies), e.fault)
      else if Ready(e.state) then
        Drain(Manager(e.rest, Reset(e.state), m.replies + [Built(e.state)]))
      else Fed(Manager(e.rest, e.state, m.replies), NoFault)
  }

  /** `manager << data` */
  function Feed(m: Manager, data: Bytes): Fed
    requires Valid(m)
  {
    Drain(m.(buffer := m.buffer + data))
  }

  /** The stream arrives in chunks; a throw is the end, because the connection disconnects. */
  function FeedAll(m: Manager, chunks: seq<Bytes>): Fed
    requires Valid(m)
    decreases |chunks|
  {
    if chunks == [] then Fed(m, NoFault)
    else
      var r := Feed(m, chunks[0]);
      if r.fault != NoFault then r else FeedAll(r.m, chunks[1..])
  }

  function Start(p: Protocol): Manager {
    Manager([], Fresh(p), [])
  }

  predicate Usable(p: Protocol) {
    p.Delimited? ==> p.delim != []
  }

  // ----- fragmentation independence -----

  /** Later bytes do not change a call that finished a unit or threw. */
  lemma EatAppend(b: Builder, data: Bytes, t: Bytes)
    requires Waiting(b)
    requires var e := Eat(b, data); e.fault != NoFault || Ready(e.state)
    ensures var e := Eat(b, data); Eat(b, data + t) == Eaten(e.state, e.rest + t, e.fault)
  {
    if b.Msg? {
      EatMsgAppend(b, data, t);
    } else {
      FindAppend(data, b.delim, t);
      var i := Find(data, b.delim).value;
      assert (data + t)[..i] == data[..i];
      assert (data + t)[i + |b.delim|..] == data[i + |b.delim|..] + t;
    }
  }

  lemma EatMsgAppend(b: Builder, data: Bytes, t: Bytes)
    requires Waiting(b) && b.Msg?
    requires var e := EatMsg(b, data); e.fault != NoFault || Ready(e.state)
    ensures var e := EatMsg(b, data); EatMsg(b, data + t) == Eaten(e.state, e.rest + t, e.fault)
  {
    if b.size.success {
      EatCountedAppend(b.body, data, t);
    } else {
      UnpackAppend(data, t);
      if Unpack(data).Got? {
        var n, v := Unpack(data).used, Unpack(data).value;
        assert (data + t)[n..] == data[n..] + t;
        if v <= b.max {
          EatCountedAppend(b.body.(size := v), data[n..], t);
        }
      }
    }
  }

  lemma EatCountedAppend(c: Counted, data: Bytes, t: Bytes)
    requires !c.ready && |c.buffer| <= c.size
    requires EatCounted(c, data).state.ready
    ensures var e := EatCounted(c, data);
      EatCounted(c, data + t) == Eaten(e.state, e.rest + t, e.fault)
  {
    var left := c.size - |c.buffer|;
    assert (data + t)[..left] == data[..left];
    assert (data + t)[left..] == data[left..] + t;
  }

  /** A call that left the builder waiting can be resumed: the two calls add up to one. */
  lemma EatResume(b: Builder, data: Bytes, t: Bytes)
    requires Waiting(b) && data != []
    requires var e := Eat(b, data); e.fault == NoFault && !Ready(e.state)
    ensures var e := Eat(b, data); Waiting(e.state) && Eat(e.state, e.rest + t) == Eat(b, data + t)
  {
    EatProgress(b, data);
    if b.Msg? {
      if b.size.success {
        EatPayloadResume(b, data, t);
      } else if Unpack(data).Got? {
        EatHeaderResume(b, data, t);
      }
    }
  }

  /** The chunk boundary falls inside a payload whose header came earlier. */
  lemma EatPayloadResume(b: Builder, data: Bytes, t: Bytes)
    requires Waiting(b) && b.Msg? && b.size.success
    requires var e := EatMsg(b, data); e.fault == NoFault && !Ready(e.state)
    ensures var e := EatMsg(b, data);
      e.state.size == b.size && EatMsg(e.state, e.rest + t) == EatMsg(b, data + t)
  {
    EatCountedResume(b.body, data, t);
    assert EatMsg(b, data) == Eaten(b.(body := b.body.(buffer := b.body.buffer + data)), [], NoFault);
    assert [] + t == t;
  }

  /** The header arrived with this call and the payload is still incomplete. */
  lemma EatHeaderResume(b: Builder, data: Bytes, t: Bytes)
    requires Waiting(b) && b.Msg? && !b.size.success && Unpack(data).Got?
    requires var e := EatMsg(b, data); e.fault == NoFault && !Ready(e.state)
    ensures var e := EatMsg(b, data);
      e.state.size.success && e.state.size.data.Int? && EatMsg(e.state, e.rest + t) == EatMsg(b, data + t)
  {
    UnpackAppend(data, t);
    var n, v := Unpack(data).used, Unpack(data).value;
    assert (data + t)[n..] == data[n..] + t;
    var body := b.body.(size := v);
    assert !EatCounted(body, data[n..]).state.ready;
    EatCountedResume(body, data[n..], t);
    assert EatMsg(b, data) == Eaten(
      b.(size := b.size.Set(Int(v), true), body := body.(buffer := body.buffer + data[n..])), [], NoFault);
    assert [] + t == t;
  }

  lemma EatCountedResume(c: Counted, data: Bytes, t: Bytes)
    requires !c.ready && |c.buffer| + |data| < c.size
    ensures EatCounted(c, data) == Eaten(c.(buffer := c.buffer + data), [], NoFault)
    ensures EatCounted(c.(buffer := c.buffer + data), t) == EatCounted(c, data + t)
  {
    var left := c.size - |c.buffer|;
    assert data[..|data|] == data && data[|data|..] == [];
    var add := if |data + t| < left then |data + t| else left;
    assert (data + t)[..add] == data + t[..add - |data|];
    assert c.buffer + (data + t[..add - |data|]) == (c.buffer + data) + t[..add - |data|];
    assert (data + t)[add..] == t[add - |data|..];
  }

  /** Draining early and draining late meet: in the whole state, or in the same throw. */
  lemma {:induction false} DrainAppend(m: Manager, t: Bytes)
    requires Valid(m)
    ensures var r := Drain(m);
      var late := Drain(m.(buffer := m.buffer + t));
      if r.fault == NoFault then late == Feed(r.m, t)
      else late == Fed(r.m.(buffer := r.m.buffer + t), r.fault)
    decreases |m.buffer|
  {
    if m.buffer != [] {
      var e := Eat(m.builder, m.buffer);
      EatProgress(m.builder, m.buffer);
      if e.fault != NoFault || Ready(e.state) {
        EatAppend(m.builder, m.buffer, t);
        if e.fault == NoFault {
          DrainAppend(Manager(e.rest, Reset(e.state), m.replies + [Built(e.state)]), t);
        }
      } else {
        EatResume(m.builder, m.buffer, t);
        if e.rest + t == [] {
          assert m.buffer + t == m.buffer;
        }
      }
    }
  }

  /** Nothing more can be built from what is buffered. */
  predicate Settled(m: Manager) {
    Valid(m) && Drain(m) == Fed(m, NoFault)
  }

  lemma DrainSettles(m: Manager)
    requires Valid(m) && Drain(m).fault == NoFault
    ensures Settled(Drain(m).m)
  {
    var r := Drain(m);
    DrainAppend(m, []);
    assert m.buffer + [] == m.buffer && r.m.buffer + [] == r.m.buffer;
  }

  /** Feeding `a` then `b` is feeding `a ++ b`, or the same throw. */
  lemma FeedTwice(m: Manager, a: Bytes, b: Bytes)
    requires Valid(m)
    ensures var r, whole := Feed(m, a), Feed(m, a + b);
      if r.fault == NoFault then Settled(r.m) && Feed(r.m, b) == whole
      else whole == Fed(r.m.(buffer := r.m.buffer + b), r.fault)
  {
    hide Drain;
    var first := m.(buffer := m.buffer + a);
    DrainAppend(first, b);
    assert m.buffer + (a + b) == first.buffer + b;
    if Feed(m, a).fault == NoFault {
      DrainSettles(first);
    }
  }

  /** How many of the packets are fed: all of them, or those up to the one that makes it throw. */
  function Arrived(m: Manager, chunks: seq<Bytes>): (n: nat)
    requires Valid(m)
    ensures n <= |chunks|
    ensures FeedAll(m, chunks).fault == NoFault ==> n == |chunks|
    decreases |chunks|
  {
    if chunks == [] then 0
    else
      var r := Feed(m, chunks[0]);
      if r.fault != NoFault then 1 else 1 + Arrived(r.m, chunks[1..])
  }

  /** Packets add up: the state, also after a throw, is the one all that arrived leaves at once. */
  lemma {:induction false} FedIsWhole(m: Manager, chunks: seq<Bytes>)
    requires Settled(m)
    ensures var r := FeedAll(m, chunks);
      && r == Feed(m, Flatten(chunks[..Arrived(m, chunks)]))
      && (r.fault == NoFault ==> Settled(r.m))
    decreases |chunks|
  {
    hide Drain;
    var n := Arrived(m, chunks);
    if chunks == [] {
      assert m.buffer + [] == m.buffer;
    } else {
      var c, later := chunks[0], chunks[1..];
      var r := Feed(m, c);
      assert chunks[..n][1..] == later[..n - 1];
      if r.fault == NoFault {
        FeedTwice(m, c, Flatten(later[..n - 1]));
        FedIsWhole(r.m, later);
      } else {
        assert c + [] == c;
      }
    }
  }

  /**
   * However the stream is cut, the manager ends in the same full state as when all that arrived is
   * fed at once; and it throws for the same reason, with the same builder and the same units built,
   * as when the whole stream is fed at once, packets behind the throw included.
   */
  lemma Fragmentation(m: Manager, chunks: seq<Bytes>)
    requires Settled(m)
    ensures var cut, whole := FeedAll(m, chunks), Feed(m, Flatten(chunks));
      && cut == Feed(m, Flatten(chunks[..Arrived(m, chunks)]))
      && cut.fault == whole.fault && cut.m.replies == whole.m.replies && cut.m.builder == whole.m.builder
      && (cut.fault == NoFault ==> cut == whole && Settled(cut.m))
  {
    hide Drain;
    var n := Arrived(m, chunks);
    FedIsWhole(m, chunks);
    FlattenConcat(chunks[..n], chunks[n..]);
    assert chunks == chunks[..n] + chunks[n..];
    FeedTwice(m, Flatten(chunks[..n]), Flatten(chunks[n..]));
    if n == |chunks| {
      assert chunks[..n] == chunks;
    }
  }
}
