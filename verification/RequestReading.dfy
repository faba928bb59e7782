/**
 * server_base_impl::read: from bytes arriving on a socket to the request the application sees, for
 * every request the client can print and every way its bytes arrive.
 */
module RequestReading {
  import opened Sequences
  import opened ChunkedBody
  import opened RequestHead

  const BLANK := "\r\n\r\n"

  /** The request handed to find_resource, and the bytes that have not arrived. */
  datatype Served = Served(start: Start, fields: seq<Field>, content: string, net: string)

  /** Once the head is parsed: `additional` bytes behind the blank line are already buffered. */
  function ReadBody(h: Head, net: string, additional: nat, arrive: nat -> nat): Option<Served> {
    match Lookup(h.fields, "Content-Length")
    case Some(value) =>
      (match Stoull(value)
       case None => None
       case Some(length) =>
         if length > additional then
           (match ReadExactly(Input(h.rest, net), length - additional)
            case None => None
            case Some(i) => Some(Served(h.start, h.fields, i.buf, i.net)))
         else Some(Served(h.start, h.fields, h.rest, net)))
    case None =>
      if Lookup(h.fields, "Transfer-Encoding") == Some("chunked") then
        match Decode(Input(h.rest, net), "", arrive, 0)
        case Content(i) => Some(Served(h.start, h.fields, i.buf, i.net))
        case _ => None
      else Some(Served(h.start, h.fields, h.rest, net))
  }

  /** None where the server reports an error, or a handler throws, and no resource is looked for. */
  function ReadRequest(i: Input, more: nat, arrive: nat -> nat): Option<Served> {
    match ReadUntil(i, BLANK, more)
    case None => None
    case Some(j) =>
      match Find(j.buf, BLANK)
      case None => None
      case Some(at) =>
        match ParseHead(j.buf)
        case None => None
        case Some(h) => ReadBody(h, j.net, |j.buf| - (at + |BLANK|), arrive)
  }

  // ----- the blank line -----

  predicate HeadLine(l: string) {
    NoLineFeed(l) && l != ""
  }

  /** The first blank line ends the head: no earlier place looks like one. */
  lemma {:induction false} BlankLine(lines: seq<string>, body: string)
    requires lines != [] && forall l :: l in lines ==> HeadLine(l)
    ensures |Closed(lines)| >= 2
    ensures Find(Closed(lines) + CRLF + body, BLANK) == Some(|Closed(lines)| - 2)
  {
    hide FindFrom, OccursAt, HeadLine, Find;
    var l, later := lines[0], lines[1..];
    assert lines == [l] + later;
    assert l in lines;
    if later == [] {
      assert Closed(lines) + CRLF + body == l + CRLF + (CRLF + body);
      LastLine(l, body);
    } else {
      BlankLine(later, body);
      assert later[0] in lines;
      var next, t := later[0], CRLF + (Closed(later[1..]) + CRLF + body);
      Unfolded(l, later, body);
      OneMoreLine(l, next, t, |Closed(later)| - 2);
    }
  }

  lemma Unfolded(l: string, later: seq<string>, body: string)
    requires later != []
    ensures var t := CRLF + (Closed(later[1..]) + CRLF + body);
      && Closed(later) + CRLF + body == later[0] + t
      && Closed([l] + later) + CRLF + body == l + CRLF + (later[0] + t)
  {
    assert ([l] + later)[1..] == later;
    Regroup(later[0], CRLF, Closed(later[1..]), CRLF, body);
    Regroup(l, CRLF, Closed(later), CRLF, body);
    Regroup2(l, CRLF, Closed(later) + CRLF + body);
  }

  lemma Regroup(a: string, b: string, c: string, d: string, e: string)
    ensures (a + b + c) + d + e == a + (b + (c + d + e))
  {
  }

  lemma Regroup2(a: string, b: string, c: string)
    ensures a + b + c == a + (b + c)
  {
  }

  lemma LastLine(l: string, body: string)
    requires HeadLine(l)
    ensures Find(l + CRLF + (CRLF + body), BLANK) == Some(|l|)
  {
    var s := l + CRLF + (CRLF + body);
    assert s[|l|..|l| + 4] == BLANK;
    forall j | 0 <= j < |l|
      ensures !OccursAt(s, BLANK, j)
    {
      NotBefore(l, CRLF + body, j);
    }
    FindIs(s, BLANK, |l|);
  }

  lemma OneMoreLine(l: string, next: string, t: string, n: nat)
    requires HeadLine(l) && HeadLine(next) && |t| >= 2 && t[..2] == CRLF
    requires Find(next + t, BLANK) == Some(n)
    ensures Find(l + CRLF + (next + t), BLANK) == Some(|l| + 2 + n)
  {
    var s := l + CRLF + (next + t);
    var off := |l| + 2;
    AfterLine(l, next + t, n);
    forall j | 0 <= j < off + n
      ensures !OccursAt(s, BLANK, j)
    {
      if j < |l| {
        NotBefore(l, next + t, j);
      } else if j >= off {
        Shifted(l, next + t, j);
        Unfound(next + t, n, j - off);
      } else {
        NotAcross(l, next, t, j);
      }
    }
    FindIs(s, BLANK, off + n);
  }

  lemma BlankChars(s: string, j: nat)
    requires OccursAt(s, BLANK, j)
    ensures s[j] == '\r' && s[j + 1] == '\n' && s[j + 2] == '\r' && s[j + 3] == '\n'
  {
    var w := s[j..j + 4];
    assert s[j] == w[0] && s[j + 1] == w[1] && s[j + 2] == w[2] && s[j + 3] == w[3];
  }

  lemma NotBefore(l: string, t: string, j: nat)
    requires NoLineFeed(l) && j < |l|
    ensures !OccursAt(l + CRLF + t, BLANK, j)
  {
    var s := l + CRLF + t;
    assert j + 1 < |l| ==> s[j + 1] == l[j + 1];
    assert s[|l|] == '\r';
    if OccursAt(s, BLANK, j) {
      BlankChars(s, j);
    }
  }

  lemma AfterLine(l: string, t: string, n: nat)
    requires Find(t, BLANK) == Some(n)
    ensures OccursAt(l + CRLF + t, BLANK, |l| + 2 + n)
  {
    Shifted(l, t, |l| + 2 + n);
    Find4(t, n);
  }

  lemma Find4(t: string, n: nat)
    requires Find(t, BLANK) == Some(n)
    ensures OccursAt(t, BLANK, n)
  {
  }

  lemma Unfound(t: string, n: nat, j: nat)
    requires Find(t, BLANK) == Some(n) && j < n
    ensures !OccursAt(t, BLANK, j)
  {
  }

  lemma Shifted(l: string, t: string, j: nat)
    requires j >= |l| + 2
    ensures OccursAt(l + CRLF + t, BLANK, j) == OccursAt(t, BLANK, j - (|l| + 2))
  {
    var s := l + CRLF + t;
    if j + 4 <= |s| {
      assert s[j..j + 4] == t[j - (|l| + 2)..j - (|l| + 2) + 4];
    }
  }

  /** Across the end of a line a blank line would need the next one to be empty. */
  lemma NotAcross(l: string, next: string, t: string, j: nat)
    requires NoLineFeed(next) && next != "" && |l| <= j < |l| + 2
    requires |t| >= 2 && t[..2] == CRLF
    ensures !OccursAt(l + CRLF + (next + t), BLANK, j)
  {
    var s := l + CRLF + (next + t);
    assert s[|l| + 1] == '\n';
    assert s[|l| + 3] == (next + t)[1];
    assert (next + t)[1] == (if |next| > 1 then next[1] else t[..2][0]);
    if OccursAt(s, BLANK, j) {
      BlankChars(s, j);
    }
  }

  // ----- serving a printed request -----

  /** What the application must see of a printed head. */
  ghost predicate SeesHead(start: Start, fields: seq<Field>, r: Request) {
    && start.method_ == r.method_ && start.version == "1.1"
    && (if r.path == "" then start.path == "/" && start.query == ""
        else if '?' in r.path then r.path == start.path + "?" + start.query
        else r.path == start.path && start.query == "")
    && fields == AllTrimmed(SentFields(r))
  }

  /** And of a request with that content. */
  ghost predicate Sees(v: Served, r: Request, content: string) {
    SeesHead(v.start, v.fields, r) && v.content == content && v.net == ""
  }

  lemma HeadLinesGood(r: Request)
    requires Printable(r)
    ensures forall l :: l in [RequestLine(r)] + FieldLines(SentFields(r)) ==> HeadLine(l)
  {
    SentFieldsGood(r);
    var fs := SentFields(r);
    forall l | l in FieldLines(fs)
      ensures HeadLine(l)
    {
      var k :| 0 <= k < |fs| && FieldLines(fs)[k] == l;
      assert GoodField(fs[k]);
    }
  }

  /**
   * However the bytes arrive, the head is read to its end and not beyond: the number of extra bytes
   * the server computes is the number of content bytes already there.
   */
  lemma HeadRead(r: Request, i: Input, more: nat, content: string)
    requires Printable(r) && i.buf + i.net == HeadText(r) + content
    ensures var j := ReadUntil(i, BLANK, more);
      && j.Some?
      && Find(j.value.buf, BLANK) == Some(|HeadText(r)| - 4)
      && |HeadText(r)| <= |j.value.buf|
      && j.value.buf == HeadText(r) + j.value.buf[|HeadText(r)|..]
      && j.value.buf[|HeadText(r)|..] + j.value.net == content
  {
    hide ReadUntil;
    HeadLinesGood(r);
    var lines := [RequestLine(r)] + FieldLines(SentFields(r));
    BlankLine(lines, content);
    assert HeadText(r) + content == Closed(lines) + CRLF + content;
    ReadUntilFinds(i, BLANK, more);
    var j := ReadUntil(i, BLANK, more).value;
    var n := |HeadText(r)|;
    assert n - 4 == |Closed(lines)| - 2;
    var s := HeadText(r) + content;
    assert j.buf + j.net == s;
    assert j.buf[..n] == s[..n] == HeadText(r);
    assert j.buf[n..] + j.net == s[n..] == content;
  }

  lemma {:induction false} LookupTrimmed(fs: seq<Field>, name: string)
    ensures Lookup(AllTrimmed(fs), name) ==
      (match Lookup(fs, name) case None => None case Some(v) => Some(Trim(v)))
  {
    if fs != [] {
      assert AllTrimmed(fs)[1..] == AllTrimmed(fs[1..]);
      LookupTrimmed(fs[1..], name);
    }
  }

  /** The length the client added is the one the server finds. */
  lemma LengthFound(r: Request)
    requires AddsLength(r) && |r.content| < WORD
    ensures var v := Lookup(AllTrimmed(SentFields(r)), "Content-Length");
      v.Some? && Stoull(v.value) == Some(|r.content|)
  {
    var n := PrintDecimal(|r.content|);
    var a, b := [Field("Host", HostPort(r))] + r.fields, [Field("Content-Length", n)];
    NoLengthBefore(r);
    LookupSkips(a, b, "Content-Length");
    LookupTrimmed(SentFields(r), "Content-Length");
    StoullPrinted(|r.content|);
    PrintedDecimal(|r.content|);
    assert SameName(b[0].name, "Content-Length");
    assert IsDigit(n[0]) && Trim(n) == n;
  }

  lemma NoLengthBefore(r: Request)
    requires Lookup(r.fields, "Content-Length").None?
    ensures Lookup([Field("Host", HostPort(r))] + r.fields, "Content-Length").None?
  {
    assert ([Field("Host", HostPort(r))] + r.fields)[1..] == r.fields;
    assert |"Host"| != |"Content-Length"|;
  }

  /** Without an added length the fields are Host and the caller's own. */
  lemma OwnFields(r: Request, name: string)
    requires !AddsLength(r) && |name| != 4
    ensures Lookup(AllTrimmed(SentFields(r)), name) == Lookup(AllTrimmed(r.fields), name)
  {
    var fs := [Field("Host", HostPort(r))] + r.fields;
    assert SentFields(r) == fs;
    assert fs[1..] == r.fields;
    assert !SameName("Host", name);
    LookupTrimmed(fs, name);
    LookupTrimmed(r.fields, name);
  }

  /** The caller gave the length itself, and correctly. */
  predicate OwnLength(r: Request) {
    var v := Lookup(AllTrimmed(r.fields), "Content-Length");
    v.Some? && Stoull(v.value) == Some(|r.content|)
  }

  /** There is content, and the caller neither named a length nor chose the chunked coding. */
  ghost predicate PlainContent(r: Request) {
    && |r.content| > 0
    && (forall f :: f in r.fields ==> !SameName(f.name, "Content-Length"))
    && Lookup(r.fields, "Transfer-Encoding") != Some("chunked")
  }

  /** Whoever gave the length, the server finds it. */
  lemma LengthGiven(r: Request)
    requires |r.content| < WORD && (OwnLength(r) || PlainContent(r))
    ensures var v := Lookup(AllTrimmed(SentFields(r)), "Content-Length");
      v.Some? && Stoull(v.value) == Some(|r.content|)
  {
    hide SentFields, AllTrimmed, Stoull;
    LookupFound(r.fields, "Content-Length");
    if AddsLength(r) {
      LengthFound(r);
    } else {
      OwnFields(r, "Content-Length");
    }
  }

  /**
   * Every printed request, with any bytes behind its head and any arrival pattern: a Content-Length
   * is waited for, or refused when it is no number or more than what comes; otherwise a chunked body
   * is decoded to what it means; otherwise what is there already is the content.
   */
  lemma ServedExactly(r: Request, i: Input, more: nat, arrive: nat -> nat, tail: string)
    requires Printable(r) && i.buf + i.net == HeadText(r) + tail
    ensures var v, fs := ReadRequest(i, more, arrive), AllTrimmed(SentFields(r));
      match Lookup(fs, "Content-Length")
      case Some(value) =>
        (match Stoull(value)
         case None => v.None?
         case Some(n) =>
           if n > |tail| then v.None?
           else v.Some? && SeesHead(v.value.start, v.value.fields, r) && n <= |v.value.content| && v.value.content + v.value.net == tail)
      case None =>
        if Lookup(fs, "Transfer-Encoding") == Some("chunked") then
          match Body(tail)
          case Whole(data, rest) =>
            v.Some? && SeesHead(v.value.start, v.value.fields, r) && ChunksServed(v.value, data, rest)
          case _ => v.None?
        else v.Some? && SeesHead(v.value.start, v.value.fields, r) && v.value.content + v.value.net == tail
  {
    hide ReadRequest, ReadBody, SentFields, AllTrimmed, Lookup, Stoull, HeadText, Printable, Body;
    var h, net := HeadThenBody(r, i, more, arrive, tail);
    BodyServed(h, net, tail, arrive);
  }

  /** The head is read off, and the rest is up to ReadBody. */
  lemma HeadThenBody(r: Request, i: Input, more: nat, arrive: nat -> nat, tail: string)
    returns (h: Head, net: string)
    requires Printable(r) && i.buf + i.net == HeadText(r) + tail
    ensures ReadRequest(i, more, arrive) == ReadBody(h, net, |h.rest|, arrive) && h.rest + net == tail
    ensures SeesHead(h.start, h.fields, r) && h.fields == AllTrimmed(SentFields(r))
  {
    hide ReadUntil, ParseHead, FindFrom, SentFields, AllTrimmed, HeadText, Printable, ReadBody;
    HeadRead(r, i, more, tail);
    var j := ReadUntil(i, BLANK, more).value;
    var here := j.buf[|HeadText(r)|..];
    HeadRoundTrip(r, here);
    h, net := ParseHead(j.buf).value, j.net;
  }

  /** The three ways to the content. */
  lemma BodyServed(h: Head, net: string, tail: string, arrive: nat -> nat)
    requires h.rest + net == tail
    ensures var v := ReadBody(h, net, |h.rest|, arrive);
      && (v.Some? ==> v.value.start == h.start && v.value.fields == h.fields)
      && match Lookup(h.fields, "Content-Length")
         case Some(value) =>
           (match Stoull(value)
            case None => v.None?
            case Some(n) =>
              if n > |tail| then v.None?
              else v.Some? && n <= |v.value.content| && v.value.content + v.value.net == tail)
         case None =>
           if Lookup(h.fields, "Transfer-Encoding") == Some("chunked") then
             match Body(tail)
             case Whole(data, rest) => v.Some? && ChunksServed(v.value, data, rest)
             case _ => v.None?
           else v.Some? && v.value.content + v.value.net == tail
  {
    hide Lookup, Stoull, Decode, Body;
    var length := Lookup(h.fields, "Content-Length");
    if length.Some? {
      if Stoull(length.value).Some? {
        LengthReads(h.rest, net, tail, Stoull(length.value).value);
      }
    } else if Lookup(h.fields, "Transfer-Encoding") == Some("chunked") {
      ChunksRead(h, net, tail, arrive);
    }
  }

  lemma ChunksRead(h: Head, net: string, tail: string, arrive: nat -> nat)
    requires h.rest + net == tail
    ensures var r := Decode(Input(h.rest, net), "", arrive, 0);
      match Body(tail)
      case Whole(data, rest) =>
        r.Content? && ChunksServed(Served(h.start, h.fields, r.input.buf, r.input.net), data, rest)
      case _ => !r.Content?
  {
    hide Decode, Body;
    DecodeIsBody(Input(h.rest, net), "", arrive, 0);
    if Body(tail).Whole? {
      var data, rest := Body(tail).data, Body(tail).rest;
      var r := Decode(Input(h.rest, net), "", arrive, 0);
      var early, late :| early + late == rest && r.input == Input(early + ("" + data), late);
      assert "" + data == data;
      assert r.input.buf == early + data && early + r.input.net == rest;
    }
  }

  /** The content is the chunks' data, behind those of the following bytes that had already arrived. */
  ghost predicate ChunksServed(v: Served, data: string, rest: string) {
    exists early :: v.content == early + data && early + v.net == rest
  }

  lemma LengthReads(here: string, net: string, tail: string, n: nat)
    requires here + net == tail
    ensures n > |here| ==>
      var got := ReadExactly(Input(here, net), n - |here|);
      if n > |tail| then got.None?
      else got.Some? && |got.value.buf| == n && got.value.buf + got.value.net == tail
  {
    if |here| < n <= |tail| {
      assert net == net[..n - |here|] + net[n - |here|..];
    }
  }

  /**
   * Content with no length named by its caller, who did not choose the chunked coding either, or with
   * one that is right: the server gets exactly that content.
   */
  lemma ContentServed(r: Request, i: Input, more: nat, arrive: nat -> nat)
    requires Printable(r) && |r.content| < WORD && (OwnLength(r) || PlainContent(r))
    requires i.buf + i.net == HeadText(r) + r.content
    ensures var v := ReadRequest(i, more, arrive); v.Some? && Sees(v.value, r, r.content)
  {
    hide ReadUntil, ParseHead, FindFrom, SentFields, AllTrimmed, Lookup, Stoull, HeadText, Printable;
    hide PlainContent, OwnLength, ReadRequest, Body;
    LengthGiven(r);
    ServedExactly(r, i, more, arrive, r.content);
    var v := ReadRequest(i, more, arrive).value;
    AllOfIt(v.content, v.net, r.content);
  }

  lemma AllOfIt(content: string, net: string, tail: string)
    requires content + net == tail && |tail| <= |content|
    ensures content == tail && net == ""
  {
    assert |content + net| == |content| + |net|;
    assert content + "" == content;
  }

  /** A request without content, whether or not the caller says so. */
  lemma EmptyServed(r: Request, i: Input, more: nat, arrive: nat -> nat)
    requires Printable(r) && r.content == ""
    requires OwnLength(r)
      || (Lookup(r.fields, "Content-Length").None?
          && Lookup(AllTrimmed(r.fields), "Transfer-Encoding") != Some("chunked"))
    requires i.buf + i.net == HeadText(r) + ""
    ensures var v := ReadRequest(i, more, arrive); v.Some? && Sees(v.value, r, "")
  {
    hide ReadUntil, ParseHead, FindFrom, SentFields, AllTrimmed, Lookup, HeadText, Printable, OwnLength, Stoull;
    hide ReadRequest, Body;
    if OwnLength(r) {
      ContentServed(r, i, more, arrive);
    } else {
      assert !AddsLength(r);
      OwnFields(r, "Content-Length");
      OwnFields(r, "Transfer-Encoding");
      LookupTrimmed(r.fields, "Content-Length");
      ServedExactly(r, i, more, arrive, "");
    }
  }

  /** A request whose content is a chunked body: the server gets the chunks' data. */
  lemma ChunkedServed(r: Request, i: Input, more: nat, arrive: nat -> nat, chunks: seq<Chunk>, last: string)
    requires Printable(r) && r.content == Stream(chunks, last, "")
    requires (forall c :: c in chunks ==> Encodes(c) && c.data != "") && SizeLine(last, 0)
    requires Lookup(r.fields, "Content-Length").None?
    requires Lookup(r.fields, "Transfer-Encoding") == Some("chunked")
    requires i.buf + i.net == HeadText(r) + r.content
    ensures var v := ReadRequest(i, more, arrive); v.Some? && Sees(v.value, r, Payload(chunks))
  {
    hide ReadUntil, ParseHead, FindFrom, SentFields, AllTrimmed, Lookup, Stoull, HeadText, Printable;
    hide ReadRequest, Body;
    assert !AddsLength(r);
    OwnFields(r, "Content-Length");
    OwnFields(r, "Transfer-Encoding");
    LookupTrimmed(r.fields, "Content-Length");
    LookupTrimmed(r.fields, "Transfer-Encoding");
    BodyOfStream(chunks, last, "");
    ServedExactly(r, i, more, arrive, r.content);
    assert Payload(chunks) == "" + Payload(chunks);
  }
}
