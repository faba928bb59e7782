/** src/network/integer_builder.cpp: the base-128 length header (unsigned LEB128). */
module Varint {
  import opened Sequences

  const LIMIT: nat := 0x1_0000_0000 // one past the largest uint32_t

  function Pow128(n: nat): (p: nat)
    ensures p >= 1
  {
    if n == 0 then 1 else 128 * Pow128(n - 1)
  }

  /** The encoding: seven bits a byte, least significant first, high bit set on all but the last. */
  function Pack(v: nat): (r: Bytes)
    ensures |r| >= 1
  {
    if v < 128 then [v] else [v % 128 + 128] + Pack(v / 128)
  }

  /** Outcome of reading a header. `Undefined` is the shift by 35 bits or more of a sixth byte. */
  datatype Unpacked = Need | Got(value: nat, used: nat) | Undefined

  /** What byte number `i` contributes: seven bits shifted by 7*i and cut to 32 bits. */
  function Term(b: Byte, i: nat): nat {
    (b % 128) * Pow128(i) % LIMIT
  }

  function UnpackFrom(s: Bytes, i: nat, acc: nat): (r: Unpacked)
    ensures r.Got? ==> i < r.used <= |s| && r.used <= 5
    decreases |s| - i
  {
    if i >= |s| then Need
    else if i >= 5 then Undefined
    else if s[i] >= 128 then UnpackFrom(s, i + 1, acc + Term(s[i], i))
    else Got(acc + Term(s[i], i), i + 1)
  }

  function Unpack(s: Bytes): (r: Unpacked)
    ensures r.Got? ==> 0 < r.used <= |s|
  {
    UnpackFrom(s, 0, 0)
  }

  // ----- the two loops of the source -----

  method PackLoop(value: nat) returns (result: Bytes)
    requires value < LIMIT
    ensures result == Pack(value)
  {
    result := [];
    var val := value;
    var more := true;
    while more
      invariant more ==> result + Pack(val) == Pack(value)
      invariant !more ==> result == Pack(value)
      decreases more, val
    {
      ghost var before := val;
      var b := val % 128;
      val := val / 128;
      b := b + (if val > 0 then 128 else 0);
      assert before >= 128 ==> Pack(before) == [b] + Pack(val);
      result := result + [b];
      more := val > 0;
    }
  }

  /** `val |= x << by` is an addition here because `val` only has bits below 7*got. */
  method UnpackLoop(data: Bytes) returns (r: Unpacked)
    ensures r == Unpack(data)
    ensures r.Got? ==> r.value < LIMIT
  {
    var val: nat := 0;
    var got: nat := 0;
    Powers();
    while true
      invariant got <= |data| && got <= 5
      invariant val < Pow128(got) && val < LIMIT
      invariant Unpack(data) == UnpackFrom(data, got, val)
      decreases |data| - got
    {
      if got >= |data| {
        return Need;
      }
      if got >= 5 {
        return Undefined;
      }
      var b := data[got];
      TermBound(b, got, val);
      val := val + Term(b, got);
      got := got + 1;
      if b < 128 {
        return Got(val, got);
      }
    }
  }

  lemma Powers()
    ensures Pow128(0) == 1 && Pow128(1) == 0x80 && Pow128(2) == 0x4000
    ensures Pow128(3) == 0x20_0000 && Pow128(4) == 0x1000_0000 && Pow128(5) == 0x8_0000_0000
  {
    assert Pow128(1) == 128 * Pow128(0);
    assert Pow128(2) == 128 * Pow128(1);
    assert Pow128(3) == 128 * Pow128(2);
    assert Pow128(4) == 128 * Pow128(3);
    assert Pow128(5) == 128 * Pow128(4);
  }

  /** A byte adds its own bits at its own place; of the fifth only four bits survive. */
  lemma TermIsShift(b: Byte, i: nat)
    requires i < 5
    ensures i < 4 ==> Term(b, i) == (b % 128) * Pow128(i)
    ensures i == 4 ==> Term(b, i) == (b % 128 % 16) * Pow128(i)
  {
    if i < 4 {
      EarlyTerm(b % 128, i);
    } else {
      Powers();
      FifthTerm(b % 128, Pow128(4));
    }
  }

  lemma EarlyTerm(d: nat, i: nat)
    requires d < 128 && i < 4
    ensures d * Pow128(i) < LIMIT
  {
    PowMono(i, 3);
    Powers();
    var p := Pow128(i);
    MulMono(d, 127, p);
    assert 127 * p < LIMIT;
  }

  lemma FifthTerm(d: nat, p: nat)
    requires p == 0x1000_0000
    ensures d * p % LIMIT == (d % 16) * p
  {
    var a, c := d / 16, d % 16;
    assert d * p == a * LIMIT + c * p;
    assert (a * LIMIT + c * p) % LIMIT == c * p;
  }

  /** The running value never collides with the next seven bits and never exceeds 32 bits. */
  lemma TermBound(b: Byte, i: nat, acc: nat)
    requires i < 5 && acc < Pow128(i)
    ensures acc + Term(b, i) < Pow128(i + 1)
    ensures acc + Term(b, i) < LIMIT
  {
    TermIsShift(b, i);
    var q := if i < 4 then b % 128 else b % 128 % 16;
    var p := Pow128(i);
    MulMono(q, if i < 4 then 127 else 15, p);
    Powers();
    PowMono(i + 1, if i < 4 then 4 else 5);
  }

  /** Any 32-bit value written at any place is read back from there, whatever follows it. */
  lemma {:induction false} UnpackFromPack(s: Bytes, i: nat, acc: nat, w: nat)
    requires i < 5 && i + |Pack(w)| <= |s| && s[i..i + |Pack(w)|] == Pack(w)
    requires acc + w * Pow128(i) < LIMIT
    ensures UnpackFrom(s, i, acc) == Got(acc + w * Pow128(i), i + |Pack(w)|)
    decreases w
  {
    var p := Pow128(i);
    assert s[i] == Pack(w)[0];
    var d := s[i] % 128;
    assert d == w % 128 && d <= w;
    MulMono(d, w, p);
    assert Term(s[i], i) == d * p;
    if w >= 128 {
      var q := w / 128;
      assert w == 128 * q + d;
      assert w * p == q * Pow128(i + 1) + d * p by {
        Distribute(q, d, p);
      }
      assert Pack(w) == [s[i]] + Pack(q);
      assert s[i + 1..i + 1 + |Pack(q)|] == Pack(w)[1..];
      FitsInFive(i + 1, q, acc + d * p);
      UnpackFromPack(s, i + 1, acc + d * p, q);
    }
  }

  lemma Distribute(q: nat, d: nat, p: nat)
    ensures (128 * q + d) * p == q * (128 * p) + d * p
  {
  }

  lemma MulMono(a: nat, b: nat, p: nat)
    requires a <= b
    ensures a * p <= b * p
  {
  }

  /** A value that fits 32 bits from byte `i` on starts within the first five bytes. */
  lemma FitsInFive(i: nat, w: nat, acc: nat)
    requires acc + w * Pow128(i) < LIMIT
    ensures i < 5 || w == 0
  {
    if i >= 5 && w > 0 {
      PowMono(5, i);
      Powers();
      MulMono(1, w, Pow128(i));
      assert false;
    }
  }

  lemma {:induction false} PowMono(a: nat, b: nat)
    requires a <= b
    ensures Pow128(a) <= Pow128(b)
  {
    if a < b {
      PowMono(a, b - 1);
    }
  }

  // ----- what the encoding promises -----

  /** unpack(pack(v) ++ tail) gives back v and consumes exactly the encoding. */
  lemma RoundTrip(v: nat, tail: Bytes)
    requires v < LIMIT
    ensures Unpack(Pack(v) + tail) == Got(v, |Pack(v)|)
  {
    UnpackFromPack(Pack(v) + tail, 0, 0, v);
  }

  /** The length is the least n >= 1 with v < 128^n, which is at most five for a 32-bit value. */
  lemma {:induction false} PackLength(v: nat)
    ensures v < Pow128(|Pack(v)|)
    ensures |Pack(v)| > 1 ==> Pow128(|Pack(v)| - 1) <= v
    ensures v < LIMIT ==> |Pack(v)| <= 5
  {
    if v >= 128 {
      PackLength(v / 128);
      assert |Pack(v)| == 1 + |Pack(v / 128)|;
    }
    if v < LIMIT && |Pack(v)| > 5 {
      PowMono(5, |Pack(v)| - 1);
      Powers();
      assert false;
    }
  }

  /** Every byte but the last of an encoding announces another one. */
  lemma {:induction false} PackContinues(v: nat)
    ensures forall k :: 0 <= k < |Pack(v)| - 1 ==> Pack(v)[k] >= 128
    ensures Pack(v)[|Pack(v)| - 1] < 128
  {
    if v >= 128 {
      PackContinues(v / 128);
    }
  }

  lemma {:induction false} NeedsMore(s: Bytes, i: nat, acc: nat)
    requires |s| <= 5
    requires forall k :: i <= k < |s| ==> s[k] >= 128
    ensures UnpackFrom(s, i, acc) == Need
    decreases |s| - i
  {
    if i < |s| {
      NeedsMore(s, i + 1, acc + Term(s[i], i));
    }
  }

  /** A proper prefix of an encoding is never taken for a number. */
  lemma PrefixRejected(v: nat, k: nat)
    requires v < LIMIT && k < |Pack(v)|
    ensures Unpack(Pack(v)[..k]) == Need
  {
    PackLength(v);
    PackContinues(v);
    NeedsMore(Pack(v)[..k], 0, 0);
  }

  /** Hence no encoding is a prefix of another value's encoding. */
  lemma PrefixFree(v: nat, w: nat)
    requires v < LIMIT && w < LIMIT
    requires Pack(v) <= Pack(w)
    ensures v == w
  {
    var tail := Pack(w)[|Pack(v)|..];
    assert Pack(w) == Pack(v) + tail && Pack(w) + [] == Pack(w);
    RoundTrip(v, tail);
    RoundTrip(w, []);
  }

  lemma {:induction false} UnpackFromAppend(s: Bytes, t: Bytes, i: nat, acc: nat)
    requires UnpackFrom(s, i, acc) != Need
    ensures UnpackFrom(s + t, i, acc) == UnpackFrom(s, i, acc)
    decreases |s| - i
  {
    if i < |s| && i < 5 && s[i] >= 128 {
      UnpackFromAppend(s, t, i + 1, acc + Term(s[i], i));
    }
  }

  /** Bytes that arrive after a complete header do not change how it reads. */
  lemma UnpackAppend(s: Bytes, t: Bytes)
    requires Unpack(s) != Need
    ensures Unpack(s + t) == Unpack(s)
  {
    UnpackFromAppend(s, t, 0, 0);
  }

  // ----- which headers are canonical -----

  /** The number a run of header bytes spells when nothing is cut off. */
  function Spelled(s: Bytes): nat
    requires |s| >= 1
  {
    if |s| == 1 then s[0] % 128 else s[0] % 128 + 128 * Spelled(s[1..])
  }

  lemma {:induction false} UnpackFromSpelled(s: Bytes, i: nat, acc: nat)
    requires var u := UnpackFrom(s, i, acc); u.Got? && (u.used == 5 ==> s[4] < 16)
    ensures var u := UnpackFrom(s, i, acc);
      u.value == acc + Spelled(s[i..u.used]) * Pow128(i)
    ensures var u := UnpackFrom(s, i, acc);
      s[u.used - 1] < 128 && forall k :: i <= k < u.used - 1 ==> s[k] >= 128
    decreases |s| - i
  {
    var u := UnpackFrom(s, i, acc);
    var d := s[i] % 128;
    var t := s[i..u.used];
    Powers();
    assert Term(s[i], i) == d * Pow128(i) by {
      if i == 4 {
        assert d < 16;
      }
    }
    if s[i] >= 128 {
      UnpackFromSpelled(s, i + 1, acc + Term(s[i], i));
      assert t[1..] == s[i + 1..u.used];
      Distribute(Spelled(t[1..]), d, Pow128(i));
    }
  }

  lemma {:induction false} PackSpelled(s: Bytes)
    requires |s| >= 1 && s[|s| - 1] < 128
    requires forall k :: 0 <= k < |s| - 1 ==> s[k] >= 128
    requires |s| > 1 ==> s[|s| - 1] != 0
    ensures Pack(Spelled(s)) == s
    ensures |s| > 1 ==> Spelled(s) > 0
  {
    hide Pack, Spelled;
    if |s| > 1 {
      var t := s[1..];
      assert t[|t| - 1] == s[|s| - 1] && forall k :: 0 <= k < |t| - 1 ==> t[k] == s[k + 1];
      PackSpelled(t);
      SpelledStep(s);
      SpelledOne(t);
      PackDigit(s[0] - 128, Spelled(t));
      assert s == [s[0]] + t;
    } else {
      SpelledOne(s);
      PackOne(s[0]);
      assert s == [s[0]];
    }
  }

  lemma SpelledStep(s: Bytes)
    requires |s| > 1 && s[0] >= 128
    ensures Spelled(s) == s[0] - 128 + 128 * Spelled(s[1..])
  {
  }

  lemma SpelledOne(s: Bytes)
    requires |s| >= 1
    ensures |s| == 1 && s[0] < 128 ==> Spelled(s) == s[0]
  {
  }

  lemma PackOne(b: Byte)
    requires b < 128
    ensures Pack(b) == [b]
  {
  }

  lemma PackDigit(d: nat, rest: nat)
    requires d < 128 && rest > 0
    ensures Pack(d + 128 * rest) == [d + 128] + Pack(rest)
  {
  }

  lemma {:induction false} PackLast(v: nat)
    ensures |Pack(v)| > 1 ==> Pack(v)[|Pack(v)| - 1] != 0
  {
    if v >= 128 {
      PackLast(v / 128);
      assert v / 128 > 0;
    }
  }

  /**
   * A header that reads as v is the one the sender prints for v exactly when it carries no
   * redundant zero byte at the end and a fifth byte stays within the 32 bits.
   */
  lemma Canonical(s: Bytes)
    requires Unpack(s).Got?
    ensures var u := Unpack(s);
      s[..u.used] == Pack(u.value) <==>
      (u.used == 1 || s[u.used - 1] != 0) && (u.used == 5 ==> s[4] < 16)
  {
    var u := Unpack(s);
    if (u.used == 1 || s[u.used - 1] != 0) && (u.used == 5 ==> s[4] < 16) {
      UnpackFromSpelled(s, 0, 0);
      assert s[0..u.used] == s[..u.used];
      PackSpelled(s[..u.used]);
    }
    if s[..u.used] == Pack(u.value) {
      PackLast(u.value);
      UnpackBelowLimit(s);
      if u.used == 5 {
        FifthByte(u.value);
      }
    }
  }

  lemma FifthByte(v: nat)
    requires v < LIMIT && |Pack(v)| == 5
    ensures Pack(v)[4] < 16
  {
    var a := v / 128;
    var b := a / 128;
    var c := b / 128;
    var d := c / 128;
    assert Pack(v)[1..] == Pack(a);
    assert Pack(a)[1..] == Pack(b);
    assert Pack(b)[1..] == Pack(c);
    assert Pack(c)[1..] == Pack(d);
    assert Pack(v)[4] == Pack(d)[0];
    assert d < 16;
  }

  lemma {:induction false} UnpackFromBelowLimit(s: Bytes, i: nat, acc: nat)
    requires UnpackFrom(s, i, acc).Got? && acc < Pow128(i)
    ensures UnpackFrom(s, i, acc).value < LIMIT
    decreases |s| - i
  {
    TermBound(s[i], i, acc);
    if s[i] >= 128 {
      UnpackFromBelowLimit(s, i + 1, acc + Term(s[i], i));
    }
  }

  /** Whatever the header bytes are, the number read is a uint32_t. */
  lemma UnpackBelowLimit(s: Bytes)
    requires Unpack(s).Got?
    ensures Unpack(s).value < LIMIT
  {
    UnpackFromBelowLimit(s, 0, 0);
  }
}
