/** src/network/unit.cpp: the unit, a value or a tree of units. The source copies units by value. */
module Units {
  import opened Sequences
  import Varint

  datatype Data = Str(s: Bytes) | Int(i: nat) | Bool(b: bool)

  datatype Unit = Unit(success: bool, data: Data, nested: seq<Unit>) {
    predicate IsRoot() { nested != [] }
    predicate IsNull() { data.Bool? }

    /** `set` replaces the status and the data; nested units stay. */
    function Set(d: Data, ok: bool): Unit {
      this.(success := ok, data := d)
    }

    /** `operator<<` appends a nested unit. */
    function Append(u: Unit): Unit {
      this.(nested := nested + [u])
    }
  }

  /** unit(bool), the state every builder starts from and resets to with `false`. */
  function Flag(ok: bool): Unit {
    Unit(ok, Bool(ok), [])
  }

  function Text(s: Bytes): Unit {
    Unit(true, Str(s), [])
  }

  /** What the data of one unit puts on the wire: a boolean sends nothing. */
  function OwnBytes(d: Data): Bytes {
    match d
    case Str(s) => s
    case Int(i) => Varint.Pack(i)
    case Bool(_) => []
  }

  /** The data of a unit tree in reading order: each unit before the units nested in it. */
  function Preorder(u: Unit): seq<Data>
    decreases u, 1
  {
    [u.data] + PreorderAll(u.nested)
  }

  function PreorderAll(us: seq<Unit>): seq<Data>
    decreases us, 0
  {
    if us == [] then [] else Preorder(us[0]) + PreorderAll(us[1..])
  }

  function Wire(ds: seq<Data>): Bytes {
    if ds == [] then [] else OwnBytes(ds[0]) + Wire(ds[1..])
  }

  lemma {:induction false} WireConcat(a: seq<Data>, b: seq<Data>)
    ensures Wire(a + b) == Wire(a) + Wire(b)
  {
    if a == [] {
      assert a + b == b;
    } else {
      assert (a + b)[1..] == a[1..] + b;
      WireConcat(a[1..], b);
    }
  }

  lemma {:induction false} PreorderAllConcat(a: seq<Unit>, b: seq<Unit>)
    ensures PreorderAll(a + b) == PreorderAll(a) + PreorderAll(b)
  {
    if a == [] {
      assert a + b == b;
    } else {
      assert (a + b)[1..] == a[1..] + b;
      PreorderAllConcat(a[1..], b);
    }
  }

  function WireAll(us: seq<Unit>): Bytes {
    Wire(PreorderAll(us))
  }

  lemma WireAllConcat(a: seq<Unit>, b: seq<Unit>)
    ensures WireAll(a + b) == WireAll(a) + WireAll(b)
  {
    PreorderAllConcat(a, b);
    WireConcat(PreorderAll(a), PreorderAll(b));
  }

  lemma WireOfRoot(u: Unit)
    ensures Wire(Preorder(u)) == OwnBytes(u.data) + WireAll(u.nested)
  {
    WireConcat([u.data], PreorderAll(u.nested));
    assert [u.data][1..] == [];
  }

  lemma WireOfOne(u: Unit)
    ensures WireAll([u]) == Wire(Preorder(u))
  {
    assert [u][1..] == [];
    assert PreorderAll([u]) == Preorder(u);
  }

  lemma WireAllSnoc(us: seq<Unit>, k: nat)
    requires k < |us|
    ensures WireAll(us[..k + 1]) == WireAll(us[..k]) + Wire(Preorder(us[k]))
  {
    assert us[..k + 1] == us[..k] + [us[k]];
    WireAllConcat(us[..k], [us[k]]);
    WireOfOne(us[k]);
  }

  /** An integer unit goes out as the header the receiver's integer builder reads back. */
  lemma IntegerReadsBack(v: nat, ok: bool, t: Bytes)
    requires v < Varint.LIMIT
    ensures var wire := Wire(Preorder(Unit(ok, Int(v), [])));
      Varint.Unpack(wire + t) == Varint.Got(v, |wire|)
  {
    WireOfRoot(Unit(ok, Int(v), []));
    WireOfNone();
    assert Varint.Pack(v) + [] == Varint.Pack(v);
    Varint.RoundTrip(v, t);
  }

  /** The recursive serialiser emits the data of the whole tree once, in reading order. */
  method ToNetworkString(u: Unit) returns (result: Bytes)
    ensures result == Wire(Preorder(u))
    decreases u
  {
    hide Wire, Preorder, PreorderAll, WireAll;
    result := [];
    if !u.IsNull() {
      result := OwnBytes(u.data);
    }
    WireOfNone();
    if u.IsRoot() {
      for k := 0 to |u.nested|
        invariant result == OwnBytes(u.data) + WireAll(u.nested[..k])
      {
        var part := ToNetworkString(u.nested[k]);
        WireAllSnoc(u.nested, k);
        result := result + part;
      }
      assert u.nested[..|u.nested|] == u.nested;
    }
    WireOfRoot(u);
  }

  lemma WireOfNone()
    ensures WireAll([]) == []
  {
  }

  /** How the units are nested never reaches the wire: only the reading order of the data does. */
  lemma NestingInvisible(root: Unit, a: seq<Unit>, u: Unit, b: seq<Unit>)
    requires u.IsNull()
    ensures Wire(Preorder(root.(nested := a + [u] + b)))
         == Wire(Preorder(root.(nested := a + u.nested + b)))
  {
    WireOfRoot(root.(nested := a + [u] + b));
    WireOfRoot(root.(nested := a + u.nested + b));
    WireAllConcat(a + [u], b);
    WireAllConcat(a, [u]);
    WireAllConcat(a + u.nested, b);
    WireAllConcat(a, u.nested);
    WireOfOne(u);
    WireOfRoot(u);
  }
}
