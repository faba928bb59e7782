/**
 * The builder classes and the manager, with the fields the source updates in place. Each method is
 * proved to do to its object what the matching function of Framing does to a value. A buffer passed
 * by reference is an argument and a result; a throw is a Fault.
 */
module Builders {
  import opened Sequences
  import opened Units
  import opened Varint
  import opened Framing
  import Streams

  class IntegerBuilder {
    var unit: Unit

    constructor ()
      ensures unit == Flag(false)
    {
      unit := Flag(false);
    }

    method Consume(networkData: Bytes) returns (rest: Bytes, fault: Fault)
      modifies this
      ensures Eaten(unit, rest, fault) == EatInteger(old(unit), networkData)
    {
      rest, fault := networkData, NoFault;
      if unit.success {
        return;
      }
      var got := UnpackLoop(networkData);
      match got
      case Need =>
      case Undefined => fault := Fault.Undefined;
      case Got(value, used) =>
        rest := networkData[used..];
        unit := unit.Set(Int(value), true);
    }

    method Clear()
      modifies this
      ensures unit == old(unit).Set(Bool(false), false)
    {
      unit := unit.Set(Bool(false), false);
    }
  }

  class StringBuilder {
    var size: nat
    var buffer: Bytes
    var ready: bool
    var unit: Unit

    function State(): Counted
      reads this
    {
      Counted(size, buffer, ready, unit)
    }

    constructor ()
      ensures State() == Counted(0, [], false, Flag(false))
    {
      size, buffer, ready, unit := 0, [], false, Flag(false);
    }

    method SetSize(n: nat)
      modifies this
      ensures State() == old(State()).(size := n)
    {
      size := n;
    }

    method Consume(networkData: Bytes) returns (rest: Bytes, fault: Fault)
      modifies this
      ensures Eaten(State(), rest, fault) == EatCounted(old(State()), networkData)
    {
      rest, fault := networkData, NoFault;
      if ready {
        return;
      }
      if |buffer| < size {
        var left := size - |buffer|;
        var add := if |rest| < left then |rest| else left;
        buffer := buffer + rest[..add];
        rest := rest[add..];
      } else {
        assert buffer + networkData[..0] == buffer && networkData[0..] == networkData;
      }
      if |buffer| > size {
        fault := Overrun;
        return;
      }
      if |buffer| == size {
        ready := true;
        if buffer != [] {
          unit := unit.Set(Str(buffer), true);
        } else {
          unit := unit.Set(Bool(true), true);
        }
        buffer := [];
      }
    }

    method Clear()
      modifies this
      ensures State() == Counted(old(size), [], false, old(unit).Set(Bool(false), false))
    {
      unit := unit.Set(Bool(false), false);
      ready := false;
      buffer := [];
    }
  }

  class MsgBuilder {
    const max: nat
    var ready: bool
    const sizeBuilder: IntegerBuilder
    const msgBuilder: StringBuilder

    const Repr: set<object>

    ghost predicate Valid()
      reads this, sizeBuilder
    {
      && Repr == {this, sizeBuilder, msgBuilder}
      && (sizeBuilder.unit.success ==> sizeBuilder.unit.data.Int?)
    }

    function State(): Builder
      reads this, sizeBuilder, msgBuilder
    {
      Msg(max, ready, sizeBuilder.unit, msgBuilder.State())
    }

    constructor (max: nat)
      ensures Valid() && fresh(Repr)
      ensures State() == Fresh(Lengths(max))
    {
      this.max := max;
      ready := false;
      var s := new IntegerBuilder();
      var m := new StringBuilder();
      sizeBuilder := s;
      msgBuilder := m;
      Repr := {this, s, m};
    }

    /** A root holding the packed length and the message; it throws on a message that is too long. */
    method Create(msg: Bytes) returns (r: Option<Unit>)
      ensures r.Some? <==> Streams.Frame(Lengths(max), msg).Some?
      ensures r.Some? ==> Wire(Preorder(r.value)) == Streams.Frame(Lengths(max), msg).value
    {
      if !(|msg| <= max) || !(|msg| <= LIMIT - 1) {
        return None;
      }
      var header := PackLoop(|msg|);
      var root := Flag(true).Append(Text(header)).Append(Text(msg));
      WireOfRoot(root);
      assert root.nested == [Text(header)] + [Text(msg)];
      WireAllConcat([Text(header)], [Text(msg)]);
      WireOfOne(Text(header));
      WireOfOne(Text(msg));
      WireOfRoot(Text(header));
      WireOfRoot(Text(msg));
      return Some(root);
    }

    method Consume(networkData: Bytes) returns (rest: Bytes, fault: Fault)
      requires Valid()
      modifies Repr
      ensures Valid()
      ensures Eaten(State(), rest, fault) == EatMsg(old(State()), networkData)
    {
      rest, fault := networkData, NoFault;
      if ready {
        return;
      }
      if !sizeBuilder.unit.success {
        rest, fault := sizeBuilder.Consume(rest);
        if fault != NoFault {
          return;
        }
        if sizeBuilder.unit.success {
          var sz := sizeBuilder.unit.data.i;
          if sz > max {
            fault := TooLarge;
            return;
          }
          msgBuilder.SetSize(sz);
        }
      }
      if sizeBuilder.unit.success && !msgBuilder.ready {
        rest, fault := msgBuilder.Consume(rest);
        if fault != NoFault {
          return;
        }
      }
      if msgBuilder.ready {
        ready := true;
      }
    }

    method Clear()
      requires Valid()
      modifies Repr
      ensures Valid()
      ensures State() == Reset(old(State()))
    {
      ready := false;
      sizeBuilder.Clear();
      msgBuilder.Clear();
    }
  }

  class DStreamBuilder {
    const delimiter: Bytes
    var unit: Unit

    function State(): Builder
      reads this
    {
      DStream(delimiter, unit)
    }

    constructor (delimiter: Bytes)
      ensures State() == Fresh(Delimited(delimiter))
    {
      this.delimiter := delimiter;
      unit := Flag(false);
    }

    method Create(buff: Bytes) returns (r: Unit)
      ensures Some(Wire(Preorder(r))) == Streams.Frame(Delimited(delimiter), buff)
    {
      r := Text(buff + delimiter);
      WireOfRoot(r);
      assert Wire(Preorder(r)) == buff + delimiter;
    }

    method Consume(networkData: Bytes) returns (rest: Bytes)
      modifies this
      ensures Eaten(State(), rest, NoFault) == EatDStream(old(State()), networkData)
    {
      rest := networkData;
      if unit.success {
        return;
      }
      var endUnit := Find(networkData, delimiter);
      if endUnit.None? {
        return;
      }
      unit := unit.Set(Str(networkData[..endUnit.value]), true);
      rest := networkData[endUnit.value + |delimiter|..];
    }

    method Clear()
      modifies this
      ensures State() == Reset(old(State()))
    {
      unit := unit.Set(Bool(false), false);
    }
  }

  /** The builders a manager can drive through unit_builder_i. */
  datatype AnyBuilder = OfMsg(msg: MsgBuilder) | OfDStream(stream: DStreamBuilder) {
    ghost function Repr(): set<object> {
      match this
      case OfMsg(b) => b.Repr
      case OfDStream(b) => {b}
    }

    ghost predicate Valid()
      reads match this case OfMsg(b) => {b, b.sizeBuilder} case OfDStream(b) => {}
    {
      OfMsg? ==> msg.Valid()
    }

    function State(): Builder
      reads match this case OfMsg(b) => {b, b.sizeBuilder, b.msgBuilder} case OfDStream(b) => {b}
    {
      match this
      case OfMsg(b) => b.State()
      case OfDStream(b) => b.State()
    }
  }

  class UnitBuilderManager {
    var buffer: Bytes
    const builder: AnyBuilder
    var replies: seq<Unit>

    ghost function Repr(): set<object> {
      {this} + builder.Repr()
    }

    ghost predicate Usable()
      reads this, match builder case OfMsg(b) => {b, b.sizeBuilder} case OfDStream(b) => {}
    {
      builder.Valid() && this !in builder.Repr()
    }

    function State(): Manager
      reads this
      reads match builder case OfMsg(b) => {b, b.sizeBuilder, b.msgBuilder} case OfDStream(b) => {b}
    {
      Manager(buffer, builder.State(), replies)
    }

    constructor (p: Protocol)
      ensures Usable() && fresh(Repr())
      ensures State() == Start(p)
    {
      match p {
        case Lengths(max) =>
          var b := new MsgBuilder(max);
          builder := OfMsg(b);
        case Delimited(delim) =>
          var b := new DStreamBuilder(delim);
          builder := OfDStream(b);
      }
      buffer, replies := [], [];
    }

    /** One turn of the loop: `again` is what the source returns. */
    method BuildUnit() returns (again: bool, fault: Fault)
      requires Usable() && Waiting(builder.State())
      modifies Repr()
      ensures Usable()
      ensures var m := old(State());
        if m.buffer == [] then State() == m && !again && fault == NoFault
        else
          var e := Eat(m.builder, m.buffer);
          fault == e.fault && again == (e.fault == NoFault && Ready(e.state))
          && State() == if again then Manager(e.rest, Reset(e.state), m.replies + [Built(e.state)])
                        else Manager(e.rest, e.state, m.replies)
    {
      again, fault := false, NoFault;
      if buffer == [] {
        return;
      }
      var rest: Bytes;
      match builder {
        case OfMsg(b) =>
          rest, fault := b.Consume(buffer);
          buffer := rest;
          if fault == NoFault && b.ready {
            replies := replies + [b.msgBuilder.unit];
            b.Clear();
            again := true;
          }
        case OfDStream(b) =>
          rest := b.Consume(buffer);
          buffer := rest;
          if b.unit.success {
            replies := replies + [b.unit];
            b.Clear();
            again := true;
          }
      }
    }

    /** `manager << data`: the drain loop ends, and leaves the state Feed describes. */
    method Add(data: Bytes) returns (fault: Fault)
      requires Usable() && Valid(State())
      modifies Repr()
      ensures Usable()
      ensures Fed(State(), fault) == Feed(old(State()), data)
    {
      buffer := buffer + data;
      fault := NoFault;
      var again := true;
      while again
        invariant Usable()
        invariant fault == NoFault && again ==> Valid(State()) && Drain(State()) == Feed(old(State()), data)
        invariant !again ==> Fed(State(), fault) == Feed(old(State()), data)
        invariant fault != NoFault ==> !again
        decreases again, |buffer|
      {
        if buffer != [] {
          EatProgress(builder.State(), buffer);
        }
        again, fault := BuildUnit();
      }
    }

    /** get_front throws when nothing is available. */
    method GetFront() returns (r: Option<Unit>)
      ensures r == if State().replies == [] then None else Some(State().replies[0])
    {
      r := if replies == [] then None else Some(replies[0]);
    }

    method PopFront() returns (ok: bool)
      modifies this
      ensures ok == (old(replies) != [])
      ensures State() == if ok then old(State()).(replies := old(replies)[1..]) else old(State())
    {
      ok := replies != [];
      if ok {
        replies := replies[1..];
      }
    }
  }
}
