/**
 * The request a client prints (http_client_impl.h) and the request the server reads back
 * (http_utility.h, web_entities.h, http_server_impl.h), from sections 3 and 5 of RFC 9112. A char
 * is one byte; a list of fields is the multimap in the order it is iterated or filled.
 */
module RequestHead {
  import opened Sequences
  import opened ChunkedBody

  datatype Field = Field(name: string, value: string)

  // ----- decimal numbers -----

  function PrintDecimal(n: nat): string {
    var digit := ['0' + (n % 10) as char];
    if n < 10 then digit else PrintDecimal(n / 10) + digit
  }

  predicate IsDigit(c: char) { '0' <= c <= '9' }

  function DecimalRun(s: string, acc: nat): nat {
    if s != "" && IsDigit(s[0]) then DecimalRun(s[1..], 10 * acc + (s[0] as int - '0' as int)) else acc
  }

  /** stoull(s): None where it throws. */
  function Stoull(s: string): Option<nat> {
    var t := SkipSpaces(s);
    var negative := t != "" && t[0] == '-';
    var u := if t != "" && (t[0] == '+' || t[0] == '-') then t[1..] else t;
    if u == "" || !IsDigit(u[0]) then None
    else
      var v := DecimalRun(u, 0);
      if v >= WORD then None else Some(if negative then (WORD - v) % WORD else v)
  }

  lemma {:induction false} DecimalRunConcat(a: string, b: string, acc: nat)
    requires forall i :: 0 <= i < |a| ==> IsDigit(a[i])
    ensures DecimalRun(a + b, acc) == DecimalRun(b, DecimalRun(a, acc))
  {
    if a == "" {
      assert a + b == b;
    } else {
      assert (a + b)[1..] == a[1..] + b;
      DecimalRunConcat(a[1..], b, 10 * acc + (a[0] as int - '0' as int));
    }
  }

  lemma {:induction false} PrintedDecimal(n: nat)
    ensures PrintDecimal(n) != "" && forall i :: 0 <= i < |PrintDecimal(n)| ==> IsDigit(PrintDecimal(n)[i])
    ensures DecimalRun(PrintDecimal(n), 0) == n
  {
    var s := PrintDecimal(n);
    var digit := s[|s| - 1..];
    assert digit[0] as int - '0' as int == n % 10;
    if n < 10 {
      assert DecimalRun(s, 0) == DecimalRun(s[1..], n);
    } else {
      PrintedDecimal(n / 10);
      assert s == PrintDecimal(n / 10) + digit;
      DecimalRunConcat(PrintDecimal(n / 10), digit, 0);
      assert DecimalRun(digit, n / 10) == DecimalRun(digit[1..], 10 * (n / 10) + n % 10);
    }
  }

  /** stoull reads a printed number back. */
  lemma StoullPrinted(n: nat)
    requires n < WORD
    ensures Stoull(PrintDecimal(n)) == Some(n)
  {
    PrintedDecimal(n);
    assert IsDigit(PrintDecimal(n)[0]);
  }

  // ----- the multimap -----

  function Lower(c: char): char {
    if 'A' <= c <= 'Z' then (c as int + 32) as char else c
  }

  /** case_insensitive_equal */
  predicate SameName(a: string, b: string) {
    |a| == |b| && forall i :: 0 <= i < |a| ==> Lower(a[i]) == Lower(b[i])
  }

  predicate IsLetter(c: char) {
    'A' <= c <= 'Z' || 'a' <= c <= 'z'
  }

  /** Two names are the same if and only if they differ at most in the case of letters. */
  lemma SameNameIgnoresCase(a: string, b: string)
    ensures SameName(a, b) <==>
      |a| == |b| && forall i :: 0 <= i < |a| ==>
        a[i] == b[i]
        || (IsLetter(a[i]) && IsLetter(b[i])
            && (a[i] as int == b[i] as int + 32 || b[i] as int == a[i] as int + 32))
  {
    if SameName(a, b) {
      forall i | 0 <= i < |a|
        ensures a[i] == b[i]
          || (IsLetter(a[i]) && IsLetter(b[i])
              && (a[i] as int == b[i] as int + 32 || b[i] as int == a[i] as int + 32))
      {
        assert Lower(a[i]) == Lower(b[i]);
      }
    }
  }

  /** multimap::find: some field of that name; here the first of them in iteration order. */
  function Lookup(fields: seq<Field>, name: string): Option<string> {
    if fields == [] then None
    else if SameName(fields[0].name, name) then Some(fields[0].value)
    else Lookup(fields[1..], name)
  }

  lemma {:induction false} LookupSkips(a: seq<Field>, b: seq<Field>, name: string)
    requires Lookup(a, name) == None
    ensures Lookup(a + b, name) == Lookup(b, name)
  {
    if a == [] {
      assert a + b == b;
    } else {
      assert (a + b)[1..] == a[1..] + b;
      LookupSkips(a[1..], b, name);
    }
  }

  lemma {:induction false} LookupFound(fs: seq<Field>, name: string)
    ensures match Lookup(fs, name)
      case None => forall f :: f in fs ==> !SameName(f.name, name)
      case Some(v) => exists f :: f in fs && SameName(f.name, name) && f.value == v
  {
    if fs != [] && !SameName(fs[0].name, name) {
      LookupFound(fs[1..], name);
      assert forall f :: f in fs ==> f == fs[0] || f in fs[1..];
    } else if fs != [] {
      assert fs[0] in fs;
    }
  }

  /** The order of the multimap matters only where one name has different values. */
  lemma LookupAnyOrder(a: seq<Field>, b: seq<Field>, name: string)
    requires multiset(a) == multiset(b)
    requires forall f, g :: f in a && g in a && SameName(f.name, name) && SameName(g.name, name) ==> f.value == g.value
    ensures Lookup(a, name) == Lookup(b, name)
  {
    assert forall f :: f in a <==> f in multiset(a);
    assert forall f :: f in b <==> f in multiset(b);
    LookupFound(a, name);
    LookupFound(b, name);
  }

  // ----- the client prints -----

  datatype Request = Request(
    method_: string, path: string, host: string, port: nat, defaultPort: nat,
    fields: seq<Field>, content: string)

  function Target(r: Request): string {
    if r.path == "" then "/" else r.path
  }

  function HostPort(r: Request): string {
    r.host + (if r.port != r.defaultPort then ":" + PrintDecimal(r.port) else "")
  }

  /** Does the client add Content-Length? */
  predicate AddsLength(r: Request) {
    && r.content != ""
    && Lookup(r.fields, "Content-Length").None?
    && Lookup(r.fields, "Transfer-Encoding") != Some("chunked")
  }

  /** The fields on the wire, in order. */
  function SentFields(r: Request): seq<Field> {
    [Field("Host", HostPort(r))] + r.fields
    + (if AddsLength(r) then [Field("Content-Length", PrintDecimal(|r.content|))] else [])
  }

  /**
   * Which fields go out: Host, the caller's own in their order, and a Content-Length that reads back
   * as the length of the content exactly when there is content, the caller named no length and did
   * not choose the chunked coding.
   */
  lemma FieldsSent(r: Request)
    requires |r.content| < WORD
    ensures var own := [Field("Host", HostPort(r))] + r.fields;
      if |r.content| > 0
         && (forall f :: f in r.fields ==> !SameName(f.name, "Content-Length"))
         && Lookup(r.fields, "Transfer-Encoding") != Some("chunked")
      then
        && |SentFields(r)| == |own| + 1 && SentFields(r)[..|own|] == own
        && SentFields(r)[|own|].name == "Content-Length"
        && Stoull(SentFields(r)[|own|].value) == Some(|r.content|)
      else SentFields(r) == own
  {
    LookupFound(r.fields, "Content-Length");
    StoullPrinted(|r.content|);
  }

  /** parse_host_port: the host up to the first colon, and the port behind it, cut to 16 bits. */
  function ParseHostPort(s: string, defaultPort: nat): Option<(string, nat)> {
    match Find(s, ":")
    case None => Some((s, defaultPort))
    case Some(at) =>
      match Stoull(s[at + 1..])
      case None => None
      case Some(n) => Some((s[..at], n % 0x1_0000))
  }

  /** The Host field names the host and the port, by leaving the default one out, unless the host has a colon. */
  lemma HostReadsBack(r: Request)
    requires r.port < 0x1_0000
    ensures ParseHostPort(HostPort(r), r.defaultPort) == Some((r.host, r.port)) <==> ':' !in r.host
    ensures r.port == r.defaultPort ==> HostPort(r) == r.host
  {
    hide HostPort, FindFrom, OccursAt, Stoull;
    if ':' in r.host {
      ColonInHost(r);
    } else if r.port != r.defaultPort {
      PortReadsBack(r);
    } else {
      NoColon(r.host);
      PortLeftOut(r);
    }
    PortLeftOut(r);
  }

  lemma PortLeftOut(r: Request)
    ensures r.port == r.defaultPort ==> HostPort(r) == r.host
  {
  }

  lemma ColonInHost(r: Request)
    requires ':' in r.host
    ensures ParseHostPort(HostPort(r), r.defaultPort) != Some((r.host, r.port))
  {
    var s := HostPort(r);
    var k :| 0 <= k < |r.host| && r.host[k] == ':';
    assert s[k] == ':' && s[k..k + 1] == ":";
    assert OccursAt(s, ":", k);
    var at := Find(s, ":").value;
    assert |s[..at]| < |r.host|;
  }

  lemma NoColon(s: string)
    requires ':' !in s
    ensures Find(s, ":").None?
  {
    if Find(s, ":").Some? {
      var at := Find(s, ":").value;
      SliceHead(s, at, at + 1);
    }
  }

  lemma PortReadsBack(r: Request)
    requires ':' !in r.host && r.port != r.defaultPort && r.port < 0x1_0000
    ensures ParseHostPort(HostPort(r), r.defaultPort) == Some((r.host, r.port))
  {
    hide FindFrom, OccursAt, Stoull, PrintDecimal;
    var s, n, digits := HostPort(r), |r.host|, PrintDecimal(r.port);
    assert s == r.host + (":" + digits);
    FindChar(s, ':', n);
    assert s[..n] == r.host && s[n + 1..] == digits;
    StoullPrinted(r.port);
    assert r.port % 0x1_0000 == r.port;
  }

  function RequestLine(r: Request): string {
    r.method_ + " " + Target(r) + " HTTP/1.1"
  }

  function FieldLine(f: Field): string {
    f.name + ": " + f.value
  }

  function FieldLines(fs: seq<Field>): seq<string> {
    Map(FieldLine, fs)
  }

  /** Lines, each closed by CRLF. */
  function Closed(lines: seq<string>): string {
    if lines == [] then "" else lines[0] + CRLF + Closed(lines[1..])
  }

  /** create_request_header, the optional length and the blank line. */
  function HeadText(r: Request): string {
    Closed([RequestLine(r)] + FieldLines(SentFields(r))) + CRLF
  }

  function Print(r: Request): string {
    HeadText(r) + r.content
  }

  // ----- the server parses -----

  /** std::getline: the next line without its line feed, and what follows. */
  function GetLine(s: string): (string, string) {
    match Find(s, "\n")
    case Some(i) => (s[..i], s[i + 1..])
    case None => (s, "")
  }

  /** The value of a field line: blanks after the colon go, and so does the last character. */
  function ValueStart(line: string, i: nat): (r: nat)
    requires i <= |line|
    ensures i <= r <= |line|
    decreases |line| - i
  {
    if i + 1 < |line| && line[i] == ' ' then ValueStart(line, i + 1) else i
  }

  function FieldOf(line: string, colon: nat): seq<Field>
    requires colon < |line|
  {
    var start := ValueStart(line, colon + 1);
    if start < |line| then [Field(line[..colon], line[start..|line| - 1])] else []
  }

  /** http_header::parse: the fields, and the stream after the first line without a colon. */
  function ParseFields(s: string): (seq<Field>, string)
    decreases |s|
  {
    var (line, rest) := GetLine(s);
    match Find(line, ":")
    case None => ([], rest)
    case Some(colon) =>
      LineShorter(s);
      var (fields, after) := ParseFields(rest);
      (FieldOf(line, colon) + fields, after)
  }

  lemma LineShorter(s: string)
    ensures GetLine(s).0 != "" ==> |GetLine(s).1| < |s|
  {
  }

  datatype Start = Start(method_: string, path: string, query: string, version: string)

  /** The target line[from..end] as path and query. */
  function CutTarget(line: string, from: nat, end: nat): (string, string)
    requires from <= end <= |line|
  {
    match LastIndex(line, '?', from, end)
    case None => (line[from..end], "")
    case Some(mark) => (line[from..mark], line[mark + 1..end])
  }

  /** What follows the slash, without the last character. */
  function VersionAfter(line: string, slash: nat): string
    requires slash < |line|
  {
    if slash + 1 == |line| then "" else line[slash + 1..|line| - 1]
  }

  /** The request line: method, target cut at its last '?', and what follows "HTTP/". */
  function ParseStart(line: string): Option<Start> {
    match Find(line, " ")
    case None => None
    case Some(methodEnd) =>
      match FindFrom(line, " ", methodEnd + 1)
      case None => None
      case Some(end) =>
        match FindFrom(line, "/", end + 1)
        case None => None
        case Some(slash) =>
          if line[end + 1..slash] != "HTTP" then None
          else
            var (path, query) := CutTarget(line, methodEnd + 1, end);
            Some(Start(line[..methodEnd], path, query, VersionAfter(line, slash)))
  }

  /** A request line as section 3 of RFC 9112 has it, but with anything behind the slash. */
  ghost predicate LineShape(line: string, method_: string, target: string, tail: string) {
    line == method_ + " " + target + " HTTP/" + tail && ' ' !in method_ && ' ' !in target
  }

  datatype Head = Head(start: Start, fields: seq<Field>, rest: string)

  /** __http_request_message::parse */
  function ParseHead(s: string): Option<Head> {
    var (line, rest) := GetLine(s);
    match ParseStart(line)
    case None => None
    case Some(start) =>
      var (fields, after) := ParseFields(rest);
      Some(Head(start, fields, after))
  }

  // ----- the loops of the parser -----

  /** The scan over the target: where the query starts, and the space that ends the target. */
  method ScanTarget(line: string, from: nat) returns (queryStart: Option<nat>, end: Option<nat>)
    requires from <= |line|
    ensures end == FindFrom(line, " ", from)
    ensures end.Some? ==> queryStart == (match LastIndex(line, '?', from, end.value)
                                         case None => None
                                         case Some(k) => Some(k + 1))
  {
    queryStart, end := None, None;
    for i := from to |line|
      invariant forall k :: from <= k < i ==> line[k] != ' '
      invariant i < |line| ==> queryStart == (match LastIndex(line, '?', from, i)
                                              case None => None
                                              case Some(k) => Some(k + 1))
      invariant end == None
    {
      if line[i] == '?' && i + 1 < |line| {
        queryStart := Some(i + 1);
      } else if line[i] == ' ' {
        SpaceAt(line, from, i, true);
        end := Some(i);
        return;
      }
    }
    SpaceAt(line, from, |line|, false);
  }

  method ParseStartLine(line: string) returns (r: Option<Start>)
    ensures r == ParseStart(line)
  {
    hide FindFrom, OccursAt, LastIndex;
    var methodEnd := Find(line, " ");
    if methodEnd.None? {
      return None;
    }
    var from := methodEnd.value + 1;
    var queryStart, end := ScanTarget(line, from);
    if end.None? {
      return None;
    }
    var path, query := line[from..end.value], "";
    if queryStart.Some? {
      path, query := line[from..queryStart.value - 1], line[queryStart.value..end.value];
    }
    var protocolEnd := FindFrom(line, "/", end.value + 1);
    if protocolEnd.None? || line[end.value + 1..protocolEnd.value] != "HTTP" {
      return None;
    }
    var slash := protocolEnd.value;
    var version := if slash + 1 == |line| then "" else line[slash + 1..|line| - 1];
    r := Some(Start(line[..methodEnd.value], path, query, version));
  }

  lemma FieldFrom(line: string, colon: nat, start: nat)
    requires colon < |line| && start == ValueStart(line, colon + 1)
    ensures FieldOf(line, colon) ==
      if start < |line| then [Field(line[..colon], line[start..|line| - 1])] else []
  {
  }

  /** Scanning for a space and std::string::find agree. */
  lemma SpaceAt(line: string, from: nat, i: nat, found: bool)
    requires from <= i <= |line|
    requires forall k :: from <= k < i ==> line[k] != ' '
    requires if found then i < |line| && line[i] == ' ' else i == |line|
    ensures FindFrom(line, " ", from) == if found then Some(i) else None
  {
    assert forall j: nat :: OccursAt(line, " ", j) <==> j < |line| && line[j] == ' ' by {
      forall j: nat
        ensures OccursAt(line, " ", j) <==> j < |line| && line[j] == ' '
      {
        if j < |line| {
          assert line[j..j + 1] == [line[j]];
        }
      }
    }
  }

  method ParseFieldsLoop(s: string) returns (result: seq<Field>, rest: string)
    ensures (result, rest) == ParseFields(s)
  {
    hide FindFrom, OccursAt, FieldOf, GetLine;
    result := [];
    var line: string;
    line, rest := GetLine(s).0, GetLine(s).1;
    ghost var at := s;
    assert [] + ParseFields(s).0 == ParseFields(s).0;
    while Find(line, ":").Some?
      invariant (line, rest) == GetLine(at)
      invariant ParseFields(s).0 == result + ParseFields(at).0
      invariant ParseFields(s).1 == ParseFields(at).1
      decreases |at|
    {
      ghost var before := result;
      var paramEnd := Find(line, ":").value;
      var valueStart := paramEnd + 1;
      while valueStart + 1 < |line| && line[valueStart] == ' '
        invariant valueStart <= |line|
        invariant ValueStart(line, paramEnd + 1) == ValueStart(line, valueStart)
      {
        valueStart := valueStart + 1;
      }
      if valueStart < |line| {
        result := result + [Field(line[..paramEnd], line[valueStart..|line| - 1])];
      }
      FieldFrom(line, paramEnd, valueStart);
      LineShorter(at);
      assert result == before + FieldOf(line, paramEnd);
      assert before + (FieldOf(line, paramEnd) + ParseFields(rest).0)
          == before + FieldOf(line, paramEnd) + ParseFields(rest).0;
      at := rest;
      line, rest := GetLine(rest).0, GetLine(rest).1;
    }
    assert result + [] == result;
  }

  // ----- what a request must look like to survive -----

  predicate NoLineFeed(s: string) { '\n' !in s }

  /** No line break, no blank in the method or target, no colon in a name. */
  predicate Printable(r: Request) {
    && NoLineFeed(r.method_) && ' ' !in r.method_
    && NoLineFeed(r.path) && ' ' !in r.path
    && NoLineFeed(r.host)
    && forall f :: f in r.fields ==> GoodField(f)
  }

  predicate GoodField(f: Field) {
    NoLineFeed(f.name) && ':' !in f.name && NoLineFeed(f.value)
  }

  /** The blanks a parser drops at the front of a value. */
  function Trim(v: string): string {
    if v != "" && v[0] == ' ' then Trim(v[1..]) else v
  }

  function Trimmed(f: Field): Field {
    Field(f.name, Trim(f.value))
  }

  function AllTrimmed(fs: seq<Field>): seq<Field> {
    Map(Trimmed, fs)
  }

  // ----- lines -----

  lemma GetLineEnded(line: string, t: string)
    requires NoLineFeed(line)
    ensures GetLine(line + "\n" + t) == (line, t)
  {
    var s, n := line + "\n" + t, |line|;
    FindChar(s, '\n', n);
    assert s[..n] == line && s[n + 1..] == t;
  }

  /** A closed line is read back whole, with its carriage return. */
  lemma GetLineClosed(line: string, t: string)
    requires NoLineFeed(line)
    ensures GetLine(line + CRLF + t) == (line + "\r", t)
  {
    GetLineEnded(line + "\r", t);
    assert line + CRLF + t == line + "\r" + "\n" + t;
  }

  lemma FindChar(s: string, c: char, n: nat)
    requires n < |s| && s[n] == c && forall j :: 0 <= j < n ==> s[j] != c
    ensures Find(s, [c]) == Some(n)
  {
    assert s[n..n + 1] == [c];
    forall j | 0 <= j < n
      ensures !OccursAt(s, [c], j)
    {
      if OccursAt(s, [c], j) {
        SliceHead(s, j, j + 1);
      }
    }
    FindIs(s, [c], n);
  }

  lemma FindCharFrom(s: string, c: char, from: nat, n: nat)
    requires from <= n < |s| && s[n] == c && forall j :: from <= j < n ==> s[j] != c
    ensures FindFrom(s, [c], from) == Some(n)
  {
    assert s[n..n + 1] == [c];
    assert OccursAt(s, [c], n);
    var r := FindFrom(s, [c], from);
    if r.Some? && r.value < n {
      SliceHead(s, r.value, r.value + 1);
    }
  }

  /** The blanks of a value, seen from the line that holds it. */
  lemma {:induction false} ValueStartTrims(line: string, i: nat, v: string, last: char)
    requires i <= |line| && line[i..] == v + [last]
    ensures ValueStart(line, i) < |line|
    ensures line[ValueStart(line, i)..|line| - 1] == Trim(v)
    decreases |v|
  {
    assert |line| == i + |v| + 1;
    assert v != "" ==> line[i] == line[i..][0] == v[0];
    if v != "" && v[0] == ' ' {
      assert line[i + 1..] == line[i..][1..] == v[1..] + [last];
      ValueStartTrims(line, i + 1, v[1..], last);
    } else {
      assert v == "" ==> i + 1 == |line|;
      assert line[i..|line| - 1] == line[i..][..|v|] == v;
    }
  }

  /** A printed field is parsed back with its value trimmed. */
  lemma FieldParsed(f: Field)
    requires GoodField(f)
    ensures var line := FieldLine(f) + "\r";
      Find(line, ":") == Some(|f.name|) && FieldOf(line, |f.name|) == [Trimmed(f)]
  {
    var line := FieldLine(f) + "\r";
    var n := |f.name|;
    assert line == f.name + ": " + f.value + "\r";
    assert forall j :: 0 <= j < n ==> line[j] == f.name[j];
    FindChar(line, ':', n);
    assert line[n + 1..] == (" " + f.value) + "\r";
    ValueStartTrims(line, n + 1, " " + f.value, '\r');
    assert (" " + f.value)[1..] == f.value;
    assert Trim(" " + f.value) == Trim(f.value);
    assert line[..n] == f.name;
  }

  /**
   * What any line with a colon says, whoever wrote it: the name in front of the first colon, and what
   * follows without leading blanks and without its last character. With nothing behind the colon it
   * says nothing.
   */
  lemma AnyFieldLine(name: string, value: string, last: char)
    requires ':' !in name
    ensures Find(name + ":", ":") == Some(|name|) && FieldOf(name + ":", |name|) == []
    ensures var line := name + ":" + value + [last];
      Find(line, ":") == Some(|name|) && FieldOf(line, |name|) == [Field(name, Trim(value))]
  {
    var line, n := name + ":" + value + [last], |name|;
    assert forall j :: 0 <= j < n ==> line[j] == name[j] && (name + ":")[j] == name[j];
    FindChar(line, ':', n);
    FindChar(name + ":", ':', n);
    assert line[n + 1..] == value + [last];
    ValueStartTrims(line, n + 1, value, last);
    assert line[..n] == name;
  }

  /** Lines, each ended by a line feed. */
  function Ended(lines: seq<string>): string {
    if lines == [] then "" else lines[0] + "\n" + Ended(lines[1..])
  }

  function AllFieldsOf(lines: seq<string>): seq<Field>
    requires forall l :: l in lines ==> ':' in l
  {
    if lines == [] then []
    else
      ColonFound(lines[0]);
      FieldOf(lines[0], Find(lines[0], ":").value) + AllFieldsOf(lines[1..])
  }

  lemma ColonFound(l: string)
    ensures ':' in l <==> Find(l, ":").Some?
  {
    if ':' in l {
      var k :| 0 <= k < |l| && l[k] == ':';
      assert l[k..k + 1] == ":";
      assert OccursAt(l, ":", k);
    } else {
      NoColon(l);
    }
  }

  /** Any block of lines with colons is read field by field, up to and with the first line without one. */
  lemma {:induction false} BlockParsed(lines: seq<string>, stop: string, body: string)
    requires forall l :: l in lines ==> ':' in l && NoLineFeed(l)
    requires NoLineFeed(stop) && ':' !in stop
    ensures ParseFields(Ended(lines) + (stop + "\n" + body)) == (AllFieldsOf(lines), body)
  {
    hide FieldOf, GetLine, FindFrom, OccursAt;
    if lines == [] {
      GetLineEnded(stop, body);
      ColonFound(stop);
      assert "" + (stop + "\n" + body) == stop + "\n" + body;
    } else {
      var l, t := lines[0], Ended(lines[1..]) + (stop + "\n" + body);
      assert l in lines;
      BlockParsed(lines[1..], stop, body);
      GetLineEnded(l, t);
      ColonFound(l);
      assert Ended(lines) + (stop + "\n" + body) == l + "\n" + t;
    }
  }

  lemma ClosedFirst(line: string, lines: seq<string>, t: string)
    ensures Closed([line] + lines) + t == line + CRLF + (Closed(lines) + t)
  {
    assert ([line] + lines)[1..] == lines;
  }

  lemma FieldStep(f: Field, t: string)
    requires GoodField(f)
    ensures ParseFields(FieldLine(f) + CRLF + t) == ([Trimmed(f)] + ParseFields(t).0, ParseFields(t).1)
  {
    assert NoLineFeed(FieldLine(f));
    GetLineClosed(FieldLine(f), t);
    FieldParsed(f);
  }

  lemma BlankStep(body: string)
    ensures ParseFields("" + CRLF + body) == ([], body)
  {
    GetLineClosed("", body);
    assert Find("\r", ":") == None;
  }

  /** The printed fields come back in order, and the parser stops right behind the blank line. */
  lemma {:induction false} FieldsParsed(fs: seq<Field>, body: string)
    requires forall f :: f in fs ==> GoodField(f)
    ensures ParseFields(Closed(FieldLines(fs)) + (CRLF + body)) == (AllTrimmed(fs), body)
  {
    hide ParseFields, GoodField, Trimmed, FieldLine;
    if fs == [] {
      BlankStep(body);
      assert Closed([]) + (CRLF + body) == "" + CRLF + body;
    } else {
      var f, later := fs[0], fs[1..];
      assert f in fs;
      FieldsParsed(later, body);
      FieldStep(f, Closed(FieldLines(later)) + (CRLF + body));
      ClosedFirst(FieldLine(f), FieldLines(later), CRLF + body);
      assert FieldLines(fs) == [FieldLine(f)] + FieldLines(later);
      assert AllTrimmed(fs) == [Trimmed(f)] + AllTrimmed(later);
    }
  }

  // ----- the request line -----

  /** Where the separators of a request line are. */
  lemma Separators(method_: string, target: string, tail: string)
    requires ' ' !in method_ && ' ' !in target
    ensures var line := method_ + " " + target + " HTTP/" + tail;
      var m, end := |method_|, |method_| + 1 + |target|;
      && Find(line, " ") == Some(m)
      && FindFrom(line, " ", m + 1) == Some(end)
      && FindFrom(line, "/", end + 1) == Some(end + 5)
  {
    hide FindFrom, OccursAt;
    var line := method_ + " " + target + " HTTP/" + tail;
    var m, end := |method_|, |method_| + 1 + |target|;
    assert line == method_ + (" " + target + " HTTP/" + tail);
    CharsOf(line, method_, " " + target + " HTTP/" + tail, ' ');
    FindChar(line, ' ', m);
    assert line == (method_ + " ") + target + (" HTTP/" + tail);
    Middle(line, method_ + " ", target, " HTTP/" + tail, ' ');
    FindCharFrom(line, ' ', m + 1, end);
    assert line == (method_ + " " + target + " ") + "HTTP" + ("/" + tail);
    Middle(line, method_ + " " + target + " ", "HTTP", "/" + tail, '/');
    FindCharFrom(line, '/', end + 1, end + 5);
  }

  lemma CharsOf(line: string, a: string, b: string, c: char)
    requires line == a + b && c !in a && b != "" && b[0] == c
    ensures |a| < |line| && line[|a|] == c && forall j :: 0 <= j < |a| ==> line[j] != c
  {
  }

  lemma Middle(line: string, a: string, b: string, t: string, c: char)
    requires line == a + b + t && c !in b && t != "" && t[0] == c
    ensures |a| + |b| < |line| && line[|a| + |b|] == c
    ensures forall j :: |a| <= j < |a| + |b| ==> line[j] != c
  {
    forall j | |a| <= j < |a| + |b|
      ensures line[j] != c
    {
      assert line[j] == b[j - |a|];
    }
  }

  /** A line of that shape is cut into its parts, whatever they are. */
  lemma ShapeParsed(line: string, method_: string, target: string, tail: string)
    requires LineShape(line, method_, target, tail)
    ensures var p := ParseStart(line);
      && p.Some? && p.value.method_ == method_
      && p.value.version == (if tail == "" then "" else tail[..|tail| - 1])
      && '?' !in p.value.query
      && (if '?' in target then target == p.value.path + "?" + p.value.query
          else target == p.value.path && p.value.query == "")
  {
    hide FindFrom, OccursAt, LastIndex, ParseStart;
    var m, end := |method_|, |method_| + 1 + |target|;
    Separators(method_, target, tail);
    LineParts(method_, target, tail);
    StartFrom(line, m, end, end + 5);
    TargetSplits(line, m + 1, end, target);
  }

  /** And no other line is accepted. */
  lemma AcceptedExactly(line: string)
    ensures ParseStart(line).Some?
       <==> exists method_, target, tail :: LineShape(line, method_, target, tail)
  {
    hide ParseStart, FindFrom, OccursAt;
    if exists method_, target, tail :: LineShape(line, method_, target, tail) {
      var method_, target, tail :| LineShape(line, method_, target, tail);
      ShapeParsed(line, method_, target, tail);
    }
    if ParseStart(line).Some? {
      var m, end, slash := StartParts(line);
      NoCharBefore(line, ' ', 0, m);
      NoCharBefore(line, ' ', m + 1, end);
      PartsJoin(line, m, end, slash);
      assert LineShape(line, line[..m], line[m + 1..end], line[slash + 1..]);
    }
  }

  lemma PartsJoin(line: string, m: nat, end: nat, slash: nat)
    requires m < end < slash < |line| && line[end + 1..slash] == "HTTP"
    requires line[m] == ' ' && line[end] == ' ' && line[slash] == '/'
    ensures line == line[..m] + " " + line[m + 1..end] + " HTTP/" + line[slash + 1..]
    ensures line[..m] == line[0..m]
  {
    var tail := line[end..];
    assert tail == " " + line[end + 1..slash] + "/" + line[slash + 1..];
    assert " " + "HTTP" + "/" == " HTTP/";
    assert line == line[..m] + " " + line[m + 1..end] + tail;
  }

  lemma StartParts(line: string) returns (m: nat, end: nat, slash: nat)
    requires ParseStart(line).Some?
    ensures m < end < slash < |line| && line[end + 1..slash] == "HTTP"
    ensures FindFrom(line, " ", 0) == Some(m) && FindFrom(line, " ", m + 1) == Some(end)
    ensures line[m] == ' ' && line[end] == ' ' && line[slash] == '/'
  {
    m := Find(line, " ").value;
    end := FindFrom(line, " ", m + 1).value;
    slash := FindFrom(line, "/", end + 1).value;
    SliceHead(line, m, m + 1);
    SliceHead(line, end, end + 1);
    SliceHead(line, slash, slash + 1);
  }

  lemma NoCharBefore(s: string, c: char, from: nat, n: nat)
    requires FindFrom(s, [c], from) == Some(n)
    ensures c !in s[from..n]
  {
    forall k | from <= k < n
      ensures s[k] != c
    {
      assert !OccursAt(s, [c], k);
      assert s[k..k + 1] == [s[k]];
    }
  }

  lemma StartParsed(r: Request)
    requires Printable(r)
    ensures var p := ParseStart(RequestLine(r) + "\r");
      && p.Some? && p.value.method_ == r.method_ && p.value.version == "1.1"
      && '?' !in p.value.query
      && (if '?' in Target(r) then Target(r) == p.value.path + "?" + p.value.query
          else Target(r) == p.value.path && p.value.query == "")
  {
    hide ParseStart;
    LineOf(r);
    var tail := "1.1\r";
    assert tail[..3] == "1.1";
    ShapeParsed(RequestLine(r) + "\r", r.method_, Target(r), tail);
  }

  lemma LineOf(r: Request)
    ensures RequestLine(r) + "\r" == r.method_ + " " + Target(r) + " HTTP/" + "1.1\r"
  {
  }

  lemma StartFrom(line: string, m: nat, end: nat, slash: nat)
    requires Find(line, " ") == Some(m) && FindFrom(line, " ", m + 1) == Some(end)
    requires FindFrom(line, "/", end + 1) == Some(slash) && line[end + 1..slash] == "HTTP"
    ensures var (path, query) := CutTarget(line, m + 1, end);
      ParseStart(line) == Some(Start(line[..m], path, query, VersionAfter(line, slash)))
  {
    hide FindFrom, OccursAt, CutTarget, VersionAfter, Find;
  }

  lemma LineParts(method_: string, target: string, tail: string)
    ensures var line := method_ + " " + target + " HTTP/" + tail;
      var m, end := |method_|, |method_| + 1 + |target|;
      && line[..m] == method_ && line[m + 1..end] == target
      && line[end + 1..end + 5] == "HTTP" && line[end + 6..] == tail
      && end + 6 + |tail| == |line|
      && VersionAfter(line, end + 5) == (if tail == "" then "" else tail[..|tail| - 1])
  {
    var line := method_ + " " + target + " HTTP/" + tail;
    var end := |method_| + 1 + |target|;
    assert line[end + 6..] == tail;
    assert tail != "" ==> line[end + 6..|line| - 1] == tail[..|tail| - 1];
  }

  /** Cutting a target at its last '?' loses nothing but the '?'. */
  lemma TargetSplits(line: string, from: nat, end: nat, target: string)
    requires from <= end <= |line| && line[from..end] == target
    ensures var (path, query) := CutTarget(line, from, end);
      && '?' !in query
      && (if '?' in target then target == path + "?" + query else target == path && query == "")
  {
    var mark := LastIndex(line, '?', from, end);
    if mark.Some? {
      assert target[mark.value - from] == '?';
    } else {
      assert forall j :: 0 <= j < |target| ==> target[j] == line[from + j];
    }
  }

  // ----- the whole head -----

  lemma SentFieldsGood(r: Request)
    requires Printable(r)
    ensures forall f :: f in SentFields(r) ==> GoodField(f)
  {
    PrintedDecimal(r.port);
    PrintedDecimal(|r.content|);
    assert NoLineFeed(HostPort(r));
    forall f | f in SentFields(r)
      ensures GoodField(f)
    {
      if f !in r.fields && f.name != "Host" {
        assert f == Field("Content-Length", PrintDecimal(|r.content|));
      }
    }
  }

  lemma LineWithoutBreak(r: Request)
    requires Printable(r)
    ensures NoLineFeed(RequestLine(r))
  {
  }

  /**
   * The server reads back the method, the path ("/" for none) and the query behind its last '?', the
   * version and every field in order with blanks in front of the value dropped; the rest of the
   * stream is exactly what stands behind the blank line.
   */
  lemma HeadRoundTrip(r: Request, body: string)
    requires Printable(r)
    ensures var h := ParseHead(HeadText(r) + body);
      && h.Some? && h.value.rest == body && h.value.fields == AllTrimmed(SentFields(r))
      && h.value.start.method_ == r.method_ && h.value.start.version == "1.1"
      && (if r.path == "" then h.value.start.path == "/" && h.value.start.query == ""
          else if '?' in r.path then r.path == h.value.start.path + "?" + h.value.start.query
          else r.path == h.value.start.path && h.value.start.query == "")
  {
    hide ParseStart, ParseFields, GetLine;
    SentFieldsGood(r);
    var t := Closed(FieldLines(SentFields(r))) + (CRLF + body);
    ClosedFirst(RequestLine(r), FieldLines(SentFields(r)), CRLF + body);
    assert HeadText(r) + body == RequestLine(r) + CRLF + t;
    LineWithoutBreak(r);
    GetLineClosed(RequestLine(r), t);
    StartParsed(r);
    FieldsParsed(SentFields(r), body);
  }

  /** The multiset of fields survives if and only if no value starts with a blank. */
  lemma FieldsSurvive(r: Request)
    requires Printable(r)
    ensures ParseHead(Print(r)).Some?
    ensures multiset(ParseHead(Print(r)).value.fields) == multiset(SentFields(r))
       <==> forall f :: f in SentFields(r) ==> (f.value == "" || f.value[0] != ' ')
  {
    HeadRoundTrip(r, r.content);
    TrimmedBag(SentFields(r));
  }

  lemma TrimShortens(v: string)
    ensures |Trim(v)| <= |v|
    ensures Trim(v) == v <==> v == "" || v[0] != ' '
  {
  }

  function Size(fs: seq<Field>): nat {
    if fs == [] then 0 else |fs[0].value| + Size(fs[1..])
  }

  lemma {:induction false} SizeOfBag(a: seq<Field>, b: seq<Field>)
    requires multiset(a) == multiset(b)
    ensures Size(a) == Size(b)
    decreases |a|
  {
    hide Size;
    if a == [] {
      assert |multiset(b)| == 0;
      assert b == [];
    } else {
      assert a[0] in multiset(b);
      assert a[0] in b;
      var k :| 0 <= k < |b| && b[k] == a[0];
      TakeOut(a, 0);
      TakeOut(b, k);
      assert a[..0] + a[1..] == a[1..];
      assert multiset(a[1..]) == multiset(a) - multiset{a[0]};
      assert multiset(b[..k] + b[k + 1..]) == multiset(b) - multiset{a[0]};
      SizeOfBag(a[1..], b[..k] + b[k + 1..]);
    }
  }

  lemma TakeOut(b: seq<Field>, k: nat)
    requires k < |b|
    ensures multiset(b) == multiset(b[..k] + b[k + 1..]) + multiset{b[k]}
    ensures Size(b) == |b[k].value| + Size(b[..k] + b[k + 1..])
  {
    var tail := [b[k]] + b[k + 1..];
    assert b == b[..k] + tail;
    assert tail[1..] == b[k + 1..];
    SizeSplit(b[..k], tail);
    SizeSplit(b[..k], b[k + 1..]);
  }

  lemma {:induction false} SizeSplit(a: seq<Field>, b: seq<Field>)
    ensures Size(a + b) == Size(a) + Size(b)
  {
    if a == [] {
      assert a + b == b;
    } else {
      assert (a + b)[1..] == a[1..] + b;
      SizeSplit(a[1..], b);
    }
  }

  /** Trimming some value shrinks the bag's total size, so the bag cannot stay the same. */
  lemma {:induction false} TrimmedSize(fs: seq<Field>)
    ensures Size(AllTrimmed(fs)) <= Size(fs)
    ensures Size(AllTrimmed(fs)) == Size(fs) ==>
      AllTrimmed(fs) == fs && forall f :: f in fs ==> (f.value == "" || f.value[0] != ' ')
  {
    if fs != [] {
      TrimmedSize(fs[1..]);
      TrimShortens(fs[0].value);
      TrimStrict(fs[0].value);
      assert AllTrimmed(fs)[1..] == AllTrimmed(fs[1..]);
    }
  }

  lemma TrimStrict(v: string)
    ensures v != "" && v[0] == ' ' ==> |Trim(v)| < |v|
  {
    if v != "" && v[0] == ' ' {
      TrimShortens(v[1..]);
    }
  }

  lemma TrimmedBag(fs: seq<Field>)
    ensures multiset(AllTrimmed(fs)) == multiset(fs)
       <==> forall f :: f in fs ==> (f.value == "" || f.value[0] != ' ')
  {
    TrimmedSize(fs);
    if multiset(AllTrimmed(fs)) == multiset(fs) {
      SizeOfBag(AllTrimmed(fs), fs);
    }
    if forall f :: f in fs ==> (f.value == "" || f.value[0] != ' ') {
      assert AllTrimmed(fs) == fs;
    }
  }
}
