/** Percent coding (section 2.1 of RFC 3986) and query strings, from web_entities.h. */
module QueryString {
  import opened Sequences
  import opened ChunkedBody
  import opened RequestHead

  /** A byte of a std::string. */
  predicate IsOctet(c: char) { c as int < 256 }

  predicate Octets(s: string) {
    forall i :: 0 <= i < |s| ==> IsOctet(s[i])
  }

  // ----- percent coding -----

  /** The characters that stand for themselves; a byte above 127 is a negative char and is not one. */
  predicate Unreserved(c: char) {
    || '0' <= c <= '9' || 'A' <= c <= 'Z' || 'a' <= c <= 'z'
    || c == '-' || c == '.' || c == '_' || c == '~'
  }

  function HexChar(n: nat): char
    requires n < 16
  {
    "0123456789ABCDEF"[n]
  }

  function EncodeChar(c: char): string {
    if Unreserved(c) then [c] else ['%', HexChar(c as int % 256 / 16), HexChar(c as int % 256 % 16)]
  }

  function Encode(s: string): string {
    if s == "" then "" else EncodeChar(s[0]) + Encode(s[1..])
  }

  /** strtol(two characters, 16), cut to a char: blanks, a sign and non-digits as C reads them. */
  function Strtol2(a: char, b: char): char {
    match (HexDigit(a), HexDigit(b))
    case (Some(x), Some(y)) => (16 * x + y) as char
    case (Some(x), None) => x as char
    case (None, Some(y)) =>
      if IsSpace(a) || a == '+' then y as char
      else if a == '-' then ((256 - y) % 256) as char
      else '\0'
    case (None, None) => '\0'
  }

  function Decode(s: string): string {
    if s == "" then ""
    else if s[0] == '%' && |s| > 2 then [Strtol2(s[1], s[2])] + Decode(s[3..])
    else [if s[0] == '+' then ' ' else s[0]] + Decode(s[1..])
  }

  lemma EncodeSnoc(s: string, i: nat)
    requires i < |s|
    ensures Encode(s[..i + 1]) == Encode(s[..i]) + EncodeChar(s[i])
  {
    assert s[..i + 1] == s[..i] + [s[i]];
    EncodeConcat(s[..i], [s[i]]);
    assert [s[i]][1..] == "";
    assert EncodeChar(s[i]) + "" == EncodeChar(s[i]);
  }

  lemma {:induction false} EncodeConcat(a: string, b: string)
    ensures Encode(a + b) == Encode(a) + Encode(b)
  {
    if a == "" {
      assert a + b == b;
    } else {
      assert (a + b)[1..] == a[1..] + b;
      EncodeConcat(a[1..], b);
    }
  }

  method EncodeLoop(value: string) returns (result: string)
    ensures result == Encode(value)
  {
    result := "";
    for i := 0 to |value|
      invariant result == Encode(value[..i])
    {
      EncodeSnoc(value, i);
      var c := value[i];
      if !Unreserved(c) {
        result := result + "%" + [HexChar(c as int % 256 / 16)] + [HexChar(c as int % 256 % 16)];
      } else {
        result := result + [c];
      }
    }
    assert value[..|value|] == value;
  }

  method DecodeLoop(value: string) returns (result: string)
    ensures result == Decode(value)
  {
    hide Decode, Strtol2;
    result := "";
    var i := 0;
    assert value[0..] == value;
    DecodeNothing();
    while i < |value|
      invariant i <= |value|
      invariant Decode(value) == result + Decode(value[i..])
      decreases |value| - i
    {
      DecodeAt(value, i);
      if value[i] == '%' && i + 2 < |value| {
        result := result + [Strtol2(value[i + 1], value[i + 2])];
        i := i + 2;
      } else if value[i] == '+' {
        result := result + " ";
      } else {
        result := result + [value[i]];
      }
      i := i + 1;
    }
    assert value[i..] == "" && result + "" == result;
  }

  lemma DecodeNothing()
    ensures Decode("") == ""
  {
  }

  /** One turn of the decoding loop at index `i`. */
  lemma DecodeAt(s: string, i: nat)
    requires i < |s|
    ensures Decode(s[i..]) ==
      if s[i] == '%' && i + 2 < |s| then [Strtol2(s[i + 1], s[i + 2])] + Decode(s[i + 3..])
      else [if s[i] == '+' then ' ' else s[i]] + Decode(s[i + 1..])
  {
    hide Strtol2;
    var t := s[i..];
    assert t[1..] == s[i + 1..];
    if |t| > 2 {
      assert t[1] == s[i + 1] && t[2] == s[i + 2] && t[3..] == s[i + 3..];
    }
  }

  lemma HexCharDigit(n: nat)
    requires n < 16
    ensures HexDigit(HexChar(n)) == Some(n)
  {
  }

  lemma DecodeChar(c: char, t: string)
    requires IsOctet(c)
    ensures Decode(EncodeChar(c) + t) == [c] + Decode(t)
  {
    hide Decode, HexChar, HexDigit;
    var e := EncodeChar(c) + t;
    assert e[0..] == e;
    DecodeAt(e, 0);
    if Unreserved(c) {
      assert e[1..] == t;
    } else {
      var n := c as int;
      assert n / 16 < 16 && 16 * (n / 16) + n % 16 == n;
      assert e[3..] == t;
      assert e[1] == HexChar(n / 16) && e[2] == HexChar(n % 16);
      HexCharDigit(n / 16);
      HexCharDigit(n % 16);
    }
  }

  /** decode(encode(s)) == s for every byte string, wherever the encoding stands. */
  lemma {:induction false} PercentRoundTrip(s: string, t: string)
    requires Octets(s)
    ensures Decode(Encode(s) + t) == s + Decode(t)
  {
    hide EncodeChar, Decode;
    if s == "" {
      assert Encode(s) + t == t && "" + Decode(t) == Decode(t);
    } else {
      assert s == [s[0]] + s[1..];
      assert Encode(s) + t == EncodeChar(s[0]) + (Encode(s[1..]) + t);
      DecodeChar(s[0], Encode(s[1..]) + t);
      PercentRoundTrip(s[1..], t);
    }
  }

  lemma DecodeEncode(s: string)
    requires Octets(s)
    ensures Decode(Encode(s)) == s
  {
    PercentRoundTrip(s, "");
    assert Encode(s) + "" == Encode(s);
  }

  /** An encoded text consists of unreserved characters and '%', so no separator occurs in it. */
  lemma {:induction false} EncodeIsSafe(s: string)
    ensures forall i :: 0 <= i < |Encode(s)| ==> Unreserved(Encode(s)[i]) || Encode(s)[i] == '%'
  {
    if s != "" {
      EncodeIsSafe(s[1..]);
      assert forall n :: 0 <= n < 16 ==> Unreserved(HexChar(n));
    }
  }

  const UPPER := "ABCDEFGHIJKLMNOPQRSTUVWXYZ"
  const LOWER := "abcdefghijklmnopqrstuvwxyz"
  const DIGITS := "0123456789"
  const MARKS := "-._~"

  /** The unreserved characters of section 2.3 of RFC 3986. */
  const UNRESERVED := UPPER + LOWER + DIGITS + MARKS

  lemma UpperIsListed(c: char)
    ensures c in UPPER <==> 'A' <= c <= 'Z'
  {
    assert forall i :: 0 <= i < |UPPER| ==> UPPER[i] as int == 'A' as int + i;
    assert 'A' <= c <= 'Z' ==> UPPER[c as int - 'A' as int] == c;
  }

  lemma LowerIsListed(c: char)
    ensures c in LOWER <==> 'a' <= c <= 'z'
  {
    assert forall i :: 0 <= i < |LOWER| ==> LOWER[i] as int == 'a' as int + i;
    assert 'a' <= c <= 'z' ==> LOWER[c as int - 'a' as int] == c;
  }

  lemma DigitIsListed(c: char)
    ensures c in DIGITS <==> '0' <= c <= '9'
  {
    assert forall i :: 0 <= i < |DIGITS| ==> DIGITS[i] as int == '0' as int + i;
    assert '0' <= c <= '9' ==> DIGITS[c as int - '0' as int] == c;
  }

  lemma UnreservedIsListed(c: char)
    ensures Unreserved(c) <==> c in UNRESERVED
  {
    UpperIsListed(c);
    LowerIsListed(c);
    DigitIsListed(c);
    ListedMark(c);
    InFour(c, UPPER, LOWER, DIGITS, MARKS);
  }

  lemma ListedMark(c: char)
    ensures c in MARKS <==> c == '-' || c == '.' || c == '_' || c == '~'
  {
  }

  lemma InFour(x: char, a: string, b: string, c: string, d: string)
    ensures x in a + b + c + d <==> x in a || x in b || x in c || x in d
  {
  }

  /** Exactly the texts of unreserved characters encode to themselves; any other character makes three. */
  lemma {:induction false} EncodedLength(s: string)
    ensures |Encode(s)| >= |s|
    ensures Encode(s) == s <==> forall i :: 0 <= i < |s| ==> s[i] in UNRESERVED
    ensures |Encode(s)| == |s| <==> Encode(s) == s
  {
    if s != "" {
      UnreservedIsListed(s[0]);
      EncodedLength(s[1..]);
      assert s == [s[0]] + s[1..];
      if Unreserved(s[0]) {
        assert Encode(s)[1..] == Encode(s[1..]);
        assert (forall i :: 0 <= i < |s| ==> s[i] in UNRESERVED)
          <==> (forall i :: 0 <= i < |s[1..]| ==> s[1..][i] in UNRESERVED);
      }
    }
  }

  /** One way to write a byte in a query: as it is, a blank as '+', or an escape with digits of any case. */
  datatype Piece = Plain(c: char) | Plus | Escape(hi: char, lo: char)

  predicate WellFormed(p: Piece) {
    match p
    case Plain(c) => c != '%' && c != '+'
    case Plus => true
    case Escape(hi, lo) => HexDigit(hi).Some? && HexDigit(lo).Some?
  }

  function Written(p: Piece): string {
    match p
    case Plain(c) => [c]
    case Plus => "+"
    case Escape(hi, lo) => ['%', hi, lo]
  }

  function Stands(p: Piece): char
    requires WellFormed(p)
  {
    match p
    case Plain(c) => c
    case Plus => ' '
    case Escape(hi, lo) => (16 * HexDigit(hi).value + HexDigit(lo).value) as char
  }

  function AllWritten(ps: seq<Piece>): string {
    if ps == [] then "" else Written(ps[0]) + AllWritten(ps[1..])
  }

  function AllStand(ps: seq<Piece>): string
    requires forall p :: p in ps ==> WellFormed(p)
  {
    if ps == [] then "" else [Stands(ps[0])] + AllStand(ps[1..])
  }

  lemma PieceDecoded(p: Piece, t: string)
    requires WellFormed(p)
    ensures Decode(Written(p) + t) == [Stands(p)] + Decode(t)
  {
    hide Decode, HexDigit;
    var e := Written(p) + t;
    assert e[0..] == e;
    DecodeAt(e, 0);
    match p
    case Escape(hi, lo) => assert e[1] == hi && e[2] == lo && e[3..] == t;
    case _ => assert e[1..] == t;
  }

  /** Whatever spelling a sender chooses byte by byte, decoding gives the bytes. */
  lemma {:induction false} AnySpellingDecodes(ps: seq<Piece>)
    requires forall p :: p in ps ==> WellFormed(p)
    ensures Decode(AllWritten(ps)) == AllStand(ps)
  {
    hide Decode, Written, Stands, WellFormed;
    if ps == [] {
      DecodeNothing();
    } else {
      PieceDecoded(ps[0], AllWritten(ps[1..]));
      AnySpellingDecodes(ps[1..]);
    }
  }

  /** A '%' with fewer than two characters behind it stands for itself. */
  lemma ShortEscapeStays(s: string)
    requires |s| <= 1 && (s != "" ==> s[0] != '+')
    ensures Decode("%" + s) == "%" + s
  {
    DecodeAt("%" + s, 0);
    assert ("%" + s)[0..] == "%" + s && ("%" + s)[1..] == s;
    if s != "" {
      DecodeAt(s, 0);
      assert s[0..] == s && s[1..] == "";
    }
    DecodeNothing();
  }

  // ----- query strings -----

  function Pair(f: Field): string {
    f.name + "=" + Encode(f.value)
  }

  /** create(): fields in the order the multimap iterates. */
  function Create(fs: seq<Field>): string {
    if fs == [] then ""
    else if |fs| == 1 then Pair(fs[0])
    else Pair(fs[0]) + "&" + Create(fs[1..])
  }

  /** What one part between '&'s says: the last '=' splits it, and a nameless part says nothing. */
  function FieldOfPart(part: string): seq<Field> {
    var mark := LastIndex(part, '=', 0, |part|);
    var name := if mark.Some? then part[..mark.value] else part;
    var value := if mark.Some? then part[mark.value + 1..] else "";
    if name == "" then [] else [Field(name, Decode(value))]
  }

  function Parse(q: string): seq<Field>
    decreases |q|
  {
    match Find(q, "&")
    case None => FieldOfPart(q)
    case Some(i) => FieldOfPart(q[..i]) + Parse(q[i + 1..])
  }

  method CreateLoop(fields: seq<Field>) returns (result: string)
    ensures result == Create(fields)
  {
    result := "";
    var first := true;
    for i := 0 to |fields|
      invariant first == (i == 0)
      invariant result == Create(fields[..i])
    {
      CreateSnoc(fields, i);
      result := result + (if !first then "&" else "") + fields[i].name + "=" + Encode(fields[i].value);
      first := false;
    }
    assert fields[..|fields|] == fields;
  }

  lemma CreateSnoc(fs: seq<Field>, i: nat)
    requires i < |fs|
    ensures Create(fs[..i + 1]) == Create(fs[..i]) + (if i > 0 then "&" else "") + Pair(fs[i])
  {
    CreateLast(fs[..i], fs[i]);
    assert fs[..i + 1] == fs[..i] + [fs[i]];
  }

  lemma {:induction false} CreateLast(a: seq<Field>, f: Field)
    ensures Create(a + [f]) == Create(a) + (if a != [] then "&" else "") + Pair(f)
  {
    if a == [] {
      assert a + [f] == [f];
    } else {
      assert (a + [f])[1..] == a[1..] + [f];
      CreateLast(a[1..], f);
      if |a| == 1 {
        assert a[1..] == [];
      }
    }
  }

  /** The positions the parsing loop keeps, and the part they stand for. */
  lemma PartAt(q: string, from: nat, to: nat)
    requires from <= to <= |q|
    ensures var mark := LastIndex(q, '=', from, to);
      FieldOfPart(q[from..to]) ==
        var name := q[from..if mark.Some? then mark.value else to];
        if name == "" then []
        else [Field(name, Decode(if mark.Some? then q[mark.value + 1..to] else ""))]
  {
    var part := q[from..to];
    var mark, here := LastIndex(q, '=', from, to), LastIndex(part, '=', 0, |part|);
    assert forall k :: 0 <= k < |part| ==> part[k] == q[from + k];
    if mark.Some? {
      assert part[mark.value - from] == '=';
      assert here.Some?;
      assert q[from + here.value] == '=';
      assert here.value == mark.value - from;
      assert part[..here.value] == q[from..mark.value];
      assert part[here.value + 1..] == q[mark.value + 1..to];
    } else {
      assert here.None?;
      assert part[..] == q[from..to];
    }
  }

  method ParseLoop(query: string) returns (result: seq<Field>)
    ensures result == Parse(query)
  {
    hide Decode, FindFrom, OccursAt, Parse, FieldOfPart;
    result := [];
    assert query[0..] == query;
    if query == "" {
      LastPart(query, 0);
      PartAt(query, 0, 0);
      return;
    }
    var namePos := 0;
    var nameEnd: Option<nat> := None;
    for c := 0 to |query|
      invariant namePos <= c
      invariant forall k :: namePos <= k < c ==> query[k] != '&'
      invariant nameEnd == LastIndex(query, '=', namePos, c)
      invariant Parse(query) == result + Parse(query[namePos..])
    {
      if query[c] == '&' {
        NextPart(query, namePos, c);
        PartAt(query, namePos, c);
        ghost var before := result;
        var name := query[namePos..if nameEnd.Some? then nameEnd.value else c];
        if name != "" {
          var value := if nameEnd.Some? then query[nameEnd.value + 1..c] else "";
          result := result + [Field(name, Decode(value))];
        }
        assert before + (FieldOfPart(query[namePos..c]) + Parse(query[c + 1..]))
            == result + Parse(query[c + 1..]);
        namePos := c + 1;
        nameEnd := None;
      } else if query[c] == '=' {
        nameEnd := Some(c);
      }
    }
    LastPart(query, namePos);
    PartAt(query, namePos, |query|);
    assert query[namePos..|query|] == query[namePos..];
    if namePos < |query| {
      var name := query[namePos..if nameEnd.Some? then nameEnd.value else |query|];
      if name != "" {
        var value := if nameEnd.Some? then query[nameEnd.value + 1..|query|] else "";
        result := result + [Field(name, Decode(value))];
      }
    }
  }

  lemma NextPart(q: string, from: nat, c: nat)
    requires from <= c < |q| && q[c] == '&' && forall k :: from <= k < c ==> q[k] != '&'
    ensures Parse(q[from..]) == FieldOfPart(q[from..c]) + Parse(q[c + 1..])
  {
    var t := q[from..];
    FindChar(t, '&', c - from);
    assert t[..c - from] == q[from..c] && t[c - from + 1..] == q[c + 1..];
  }

  lemma LastPart(q: string, from: nat)
    requires from <= |q| && forall k :: from <= k < |q| ==> q[k] != '&'
    ensures Parse(q[from..]) == FieldOfPart(q[from..])
  {
    var t := q[from..];
    forall j | 0 <= j < |t|
      ensures !OccursAt(t, "&", j)
    {
      if OccursAt(t, "&", j) {
        SliceHead(t, j, j + 1);
      }
    }
  }

  // ----- what any query says -----

  /** Parts joined by '&'. */
  function Joined(parts: seq<string>): string {
    if parts == [] then "" else if |parts| == 1 then parts[0] else parts[0] + "&" + Joined(parts[1..])
  }

  function AllFields(parts: seq<string>): seq<Field> {
    if parts == [] then [] else FieldOfPart(parts[0]) + AllFields(parts[1..])
  }

  /** A query says what its parts say, one by one. */
  lemma {:induction false} ParseJoined(parts: seq<string>)
    requires forall part :: part in parts ==> '&' !in part
    ensures Parse(Joined(parts)) == AllFields(parts)
  {
    hide FindFrom, OccursAt, Parse, FieldOfPart;
    if parts == [] {
      assert ""[0..] == "";
      LastPart("", 0);
      EmptyPart();
    } else {
      var part, q := parts[0], Joined(parts);
      assert part in parts && q[0..] == q;
      if |parts| == 1 {
        LastPart(q, 0);
        assert parts[1..] == [];
      } else {
        var n := |part|;
        ParseJoined(parts[1..]);
        assert forall k :: 0 <= k < n ==> q[k] == part[k];
        assert q[n] == '&';
        NextPart(q, 0, n);
        assert q[0..n] == part && q[n + 1..] == Joined(parts[1..]);
      }
    }
  }

  /**
   * A part with a name and a value gives both, the value decoded; a name alone has an empty value;
   * without a name there is no field. Only the value may not hold a plain '='.
   */
  lemma PartSays(name: string, value: string)
    requires '=' !in value
    ensures FieldOfPart(name + "=" + value) == (if name == "" then [] else [Field(name, Decode(value))])
    ensures FieldOfPart(value) == (if value == "" then [] else [Field(value, "")])
  {
    hide Decode;
    var part, n := name + "=" + value, |name|;
    assert forall k :: n < k < |part| ==> part[k] == value[k - (n + 1)];
    assert part[n] == '=';
    assert LastIndex(part, '=', 0, |part|) == Some(n);
    assert part[..n] == name && part[n + 1..] == value;
    assert LastIndex(value, '=', 0, |value|) == None;
    DecodeNothing();
  }

  // ----- what survives -----

  /** A name the query syntax can carry. A '=' in it is harmless, because the last one splits. */
  predicate Nameable(f: Field) {
    f.name != "" && '&' !in f.name
  }

  lemma PairParsed(f: Field)
    requires Nameable(f) && Octets(f.value)
    ensures FieldOfPart(Pair(f)) == [f] && '&' !in Pair(f)
  {
    hide Encode, Decode;
    var part, n := Pair(f), |f.name|;
    var e := Encode(f.value);
    NoSeparators(f.value);
    assert forall k :: n < k < |part| ==> part[k] == e[k - (n + 1)];
    assert part[n] == '=';
    var mark := LastIndex(part, '=', 0, |part|);
    assert mark == Some(n);
    assert part[..n] == f.name && part[n + 1..] == e;
    DecodeEncode(f.value);
  }

  lemma NoSeparators(s: string)
    ensures '&' !in Encode(s) && '=' !in Encode(s)
  {
    EncodeIsSafe(s);
  }

  lemma EmptyPart()
    ensures FieldOfPart("") == []
  {
  }

  lemma {:induction false} ParseCreated(fs: seq<Field>)
    requires forall f :: f in fs ==> Nameable(f) && Octets(f.value)
    ensures Parse(Create(fs)) == fs
  {
    hide Decode, Encode, FindFrom, OccursAt, Parse, FieldOfPart, Pair, Nameable;
    if fs == [] {
      assert ""[0..] == "";
      LastPart("", 0);
      EmptyPart();
    } else {
      var f, q := fs[0], Create(fs);
      PairParsed(f);
      var n := |Pair(f)|;
      if |fs| == 1 {
        assert q[0..] == q;
        LastPart(q, 0);
        assert fs == [f];
      } else {
        ParseCreated(fs[1..]);
        assert forall k :: 0 <= k < n ==> q[k] == Pair(f)[k];
        assert q[0..] == q && q[n] == '&';
        NextPart(q, 0, n);
        assert q[0..n] == Pair(f) && q[n + 1..] == Create(fs[1..]);
      }
    }
  }

  /** Whatever the query, no parsed field has a name the syntax cannot carry. */
  lemma {:induction false} ParsedNameable(q: string)
    ensures forall f :: f in Parse(q) ==> Nameable(f)
    decreases |q|
  {
    match Find(q, "&")
    case None =>
      NoneMeansAbsent(q);
      PartNameable(q);
    case Some(i) =>
      AbsentBefore(q, i);
      PartNameable(q[..i]);
      ParsedNameable(q[i + 1..]);
  }

  lemma NoneMeansAbsent(q: string)
    requires Find(q, "&") == None
    ensures '&' !in q
  {
    forall k | 0 <= k < |q|
      ensures q[k] != '&'
    {
      assert !OccursAt(q, "&", k);
      assert q[k..k + 1] == [q[k]];
    }
  }

  lemma AbsentBefore(q: string, i: nat)
    requires Find(q, "&") == Some(i)
    ensures '&' !in q[..i]
  {
    forall k | 0 <= k < i
      ensures q[k] != '&'
    {
      assert !OccursAt(q, "&", k);
      assert q[k..k + 1] == [q[k]];
    }
  }

  lemma PartNameable(part: string)
    requires '&' !in part
    ensures forall f :: f in FieldOfPart(part) ==> Nameable(f)
  {
  }

  /**
   * parse(create(f)) is f as a multiset, for any iteration order and any byte values, if and only
   * if every name is nonempty and free of '&'.
   */
  lemma QueryRoundTrip(fs: seq<Field>)
    requires forall f :: f in fs ==> Octets(f.value)
    ensures multiset(Parse(Create(fs))) == multiset(fs) <==> forall f :: f in fs ==> Nameable(f)
  {
    if forall f :: f in fs ==> Nameable(f) {
      ParseCreated(fs);
    } else {
      var f :| f in fs && !Nameable(f);
      ParsedNameable(Create(fs));
      assert f in multiset(fs) && f !in multiset(Parse(Create(fs)));
    }
  }
}
