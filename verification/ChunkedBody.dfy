/**
 * Chunked bodies: the reading loop that http_server_impl.h and http_client_impl.h share, against
 * the encoding of section 7.1 of RFC 9112 without trailers. A char is one byte of the stream.
 */
module ChunkedBody {
  import opened Sequences

  const CRLF := "\r\n"
  const WORD: nat := 0x1_0000_0000_0000_0000 // one past the largest unsigned long

  // ----- stoul(line, 0, 16) -----

  function HexDigit(c: char): Option<nat> {
    if '0' <= c <= '9' then Some(c as int - '0' as int)
    else if 'a' <= c <= 'f' then Some(c as int - 'a' as int + 10)
    else if 'A' <= c <= 'F' then Some(c as int - 'A' as int + 10)
    else None
  }

  predicate IsSpace(c: char) {
    c == ' ' || '\t' <= c <= '\r'
  }

  function SkipSpaces(s: string): string {
    if s != "" && IsSpace(s[0]) then SkipSpaces(s[1..]) else s
  }

  predicate StartsHex(s: string) {
    s != "" && HexDigit(s[0]).Some?
  }

  function SkipPrefix(s: string): string {
    if |s| > 2 && s[0] == '0' && (s[1] == 'x' || s[1] == 'X') && StartsHex(s[2..]) then s[2..] else s
  }

  /** The value of the longest run of hex digits at the front. */
  function HexRun(s: string, acc: nat): nat {
    if StartsHex(s) then HexRun(s[1..], 16 * acc + HexDigit(s[0]).value) else acc
  }

  /** None where stoul throws: no digits, or a number that does not fit. */
  function Stoul(s: string): (r: Option<nat>)
    ensures r.Some? ==> r.value < WORD
  {
    var t := SkipSpaces(s);
    var negative := t != "" && t[0] == '-';
    var u := SkipPrefix(if t != "" && (t[0] == '+' || t[0] == '-') then t[1..] else t);
    if !StartsHex(u) then None
    else
      var v := HexRun(u, 0);
      if v >= WORD then None else Some(if negative then (WORD - v) % WORD else v)
  }

  lemma {:induction false} BlanksSkipped(w: string, s: string)
    requires (forall i :: 0 <= i < |w| ==> IsSpace(w[i])) && (s == "" || !IsSpace(s[0]))
    ensures SkipSpaces(w + s) == s
  {
    if w == "" {
      assert w + s == s;
    } else {
      assert (w + s)[1..] == w[1..] + s;
      BlanksSkipped(w[1..], s);
    }
  }

  lemma RunStops(digits: string, t: string)
    requires (forall i :: 0 <= i < |digits| ==> HexDigit(digits[i]).Some?) && !StartsHex(t)
    ensures HexRun(digits + t, 0) == HexRun(digits, 0)
  {
    HexRunConcat(digits, t, 0);
  }

  datatype Sign = Bare | Positive | Negative

  function SignText(sign: Sign): string {
    match sign
    case Bare => ""
    case Positive => "+"
    case Negative => "-"
  }

  lemma SignSkipped(sign: Sign, x: string)
    requires x != "" ==> HexDigit(x[0]).Some?
    ensures var p := SignText(sign) + x;
      && (p != "" ==> !IsSpace(p[0]))
      && ((p != "" && p[0] == '-') <==> sign.Negative?)
      && (if p != "" && (p[0] == '+' || p[0] == '-') then p[1..] else p) == x
  {
    assert "" + x == x;
  }

  /** Blanks, a sign, perhaps "0x", digits, and anything that is no digit: what stoul reads, or refuses. */
  lemma StoulReads(w: string, sign: Sign, prefixed: bool, digits: string, t: string)
    requires forall i :: 0 <= i < |w| ==> IsSpace(w[i])
    requires (forall i :: 0 <= i < |digits| ==> HexDigit(digits[i]).Some?) && !StartsHex(t)
    requires digits == "" ==> t == "" && !prefixed
    requires !prefixed && digits == "0" ==> t == "" || (t[0] != 'x' && t[0] != 'X')
    ensures var v := HexRun(digits, 0);
      Stoul(w + (SignText(sign) + ((if prefixed then "0x" else "") + (digits + t)))) ==
        if digits == "" || v >= WORD then None
        else Some(if sign.Negative? && v > 0 then WORD - v else v)
  {
    hide SkipSpaces, SkipPrefix, Stoul, HexRun, StartsHex, HexDigit, SignText;
    var u := digits + t;
    var x := (if prefixed then "0x" else "") + u;
    FirstDigit(prefixed, digits, t);
    PrefixSkipped(prefixed, digits, t);
    RunStops(digits, t);
    SignSkipped(sign, x);
    BlanksSkipped(w, SignText(sign) + x);
    Assembled(w + (SignText(sign) + x), SignText(sign) + x, x, u, sign);
  }

  lemma FirstDigit(prefixed: bool, digits: string, t: string)
    requires forall i :: 0 <= i < |digits| ==> HexDigit(digits[i]).Some?
    requires digits == "" ==> t == "" && !prefixed
    ensures var u := digits + t;
      var x := (if prefixed then "0x" else "") + u;
      (x != "" ==> HexDigit(x[0]).Some?) && (StartsHex(u) <==> digits != "")
  {
    assert digits != "" ==> (digits + t)[0] == digits[0];
    assert "" + (digits + t) == digits + t;
  }

  /** The reading, put together from its steps. */
  lemma Assembled(s: string, p: string, x: string, u: string, sign: Sign)
    requires SkipSpaces(s) == p && SkipPrefix(x) == u
    requires (p != "" && p[0] == '-') <==> sign.Negative?
    requires (if p != "" && (p[0] == '+' || p[0] == '-') then p[1..] else p) == x
    ensures var v := HexRun(u, 0);
      Stoul(s) ==
        if !StartsHex(u) || v >= WORD then None
        else Some(if sign.Negative? && v > 0 then WORD - v else v)
  {
    hide SkipSpaces, SkipPrefix, HexRun, StartsHex;
  }

  lemma PrefixSkipped(prefixed: bool, digits: string, t: string)
    requires forall i :: 0 <= i < |digits| ==> HexDigit(digits[i]).Some?
    requires digits == "" ==> t == "" && !prefixed
    requires !prefixed && digits == "0" ==> t == "" || (t[0] != 'x' && t[0] != 'X')
    ensures SkipPrefix((if prefixed then "0x" else "") + (digits + t)) == digits + t
  {
    var u := digits + t;
    if prefixed {
      assert ("0x" + u)[2..] == u;
      assert u[0] == digits[0];
    } else {
      assert "" + u == u;
      if |digits| > 1 {
        assert u[1] == digits[1];
      }
    }
  }

  // ----- the socket -----

  /** Bytes in the stream buffer and bytes still to arrive. */
  datatype Input = Input(buf: string, net: string)

  /** async_read_until: reads on until the delimiter is in; `more` is what else had arrived by then. */
  function ReadUntil(i: Input, delim: string, more: nat): Option<Input> {
    if Find(i.buf, delim).Some? then Some(i)
    else match Find(i.buf + i.net, delim)
      case None => None
      case Some(at) =>
        var need := at + |delim| - |i.buf|;
        var take := if need < 0 then 0 else if need + more <= |i.net| then need + more else |i.net|;
        Some(Input(i.buf + i.net[..take], i.net[take..]))
  }

  /** async_read with transfer_exactly(n). */
  function ReadExactly(i: Input, n: nat): Option<Input> {
    if n > |i.net| then None else Some(Input(i.buf + i.net[..n], i.net[n..]))
  }

  // ----- one chunk -----

  /** `Threw`: the chunk's buffer could not be allocated. */
  datatype Round = Failed | Threw | Took(data: string, last: bool, input: Input)

  /**
   * The length is known; `transferred` bytes of `buf` are not counted as already there. The two
   * largest lengths wrap `2 + length` to 0 and 1, so the read looks complete, and then no buffer of
   * that length can be had.
   */
  function TakeChunk(i: Input, transferred: nat, length: nat): Round
    requires transferred <= |i.buf| && length < WORD
  {
    var additional := |i.buf| - transferred;
    var wanted := (2 + length) % WORD;
    var j := if wanted > additional then ReadExactly(i, wanted - additional) else Some(i);
    if j.None? then Failed
    else if 2 + length >= WORD then Threw
    else Took(j.value.buf[..length], length == 0, Input(j.value.buf[length + 2..], j.value.net))
  }

  /** The first size line: its number, where getline stops, and where async_read_until does. */
  datatype Size = NoLine | NoNumber | Number(length: nat, eol: nat, used: nat)

  function FirstSize(s: string): (r: Size)
    ensures r.Number? ==> r.eol <= r.used <= |s| && r.length < WORD
  {
    match Find(s, CRLF)
    case None => NoLine
    case Some(at) =>
      LineFeedBy(s, at);
      var eol := Find(s, "\n").value;
      if eol == 0 then NoNumber
      else match Stoul(s[..eol - 1])
        case None => NoNumber
        case Some(length) => Number(length, eol + 1, at + 2)
  }

  /** The size line and its chunk, once a CRLF is buffered; getline stops at the first line feed. */
  function ReadLine(i: Input): Round {
    match FirstSize(i.buf)
    case Number(length, eol, used) => TakeChunk(Input(i.buf[eol..], i.net), used - eol, length)
    case _ => Failed
  }

  lemma LineFeedBy(s: string, at: nat)
    requires OccursAt(s, CRLF, at)
    ensures Find(s, "\n").Some? && Find(s, "\n").value <= at + 1
  {
    assert s[at + 1] == s[at..at + 2][1];
    assert OccursAt(s, "\n", at + 1);
  }

  /**
   * read_chunked_transfer_encoded and .._chunk once. It failed if the stream ends or the size line
   * is no number; on an empty line the source's pop_back is undefined, and here it is no number.
   */
  function ReadRound(i: Input, more: nat): Round {
    match ReadUntil(i, CRLF, more)
    case None => Failed
    case Some(j) => ReadLine(j)
  }

  lemma RoundShrinks(i: Input, more: nat)
    ensures var r := ReadRound(i, more);
      r.Took? ==> |r.input.buf| + |r.input.net| < |i.buf| + |i.net|
  {
    hide FirstSize, TakeChunk;
    var j := ReadUntil(i, CRLF, more);
    if j.Some? {
      ReadUntilKeeps(i, CRLF, more);
      var z := FirstSize(j.value.buf);
      if z.Number? {
        TakeShrinks(Input(j.value.buf[z.eol..], j.value.net), z.used - z.eol, z.length);
      }
    }
  }

  lemma ReadUntilKeeps(i: Input, delim: string, more: nat)
    ensures var j := ReadUntil(i, delim, more);
      j.Some? ==> j.value.buf + j.value.net == i.buf + i.net
                  && |j.value.buf| + |j.value.net| == |i.buf| + |i.net|
  {
  }

  lemma TakeShrinks(i: Input, transferred: nat, length: nat)
    requires transferred <= |i.buf| && length < WORD
    ensures var r := TakeChunk(i, transferred, length);
      r.Took? ==> |r.input.buf| + |r.input.net| < |i.buf| + |i.net|
  {
  }

  /** The content the handler gets: what was still buffered, then all chunks; and what has not arrived. */
  datatype Decoded = Content(input: Input) | Refused | Thrown

  function Decode(i: Input, body: string, arrive: nat -> nat, k: nat): Decoded
    decreases |i.buf| + |i.net|
  {
    RoundShrinks(i, arrive(k));
    match ReadRound(i, arrive(k))
    case Failed => Refused
    case Threw => Thrown
    case Took(data, last, input) =>
      if last then Content(Input(input.buf + body, input.net))
      else Decode(input, body + data, arrive, k + 1)
  }

  // ----- what a stream means, however it arrives -----

  datatype Meaning = Whole(data: string, rest: string) | Bad | Wraps

  /** The whole body: the data of its chunks and what follows, or how the reading ends without one. */
  function Body(s: string): Meaning
    decreases |s|
  {
    match FirstSize(s)
    case NoLine => Bad
    case NoNumber => Bad
    case Number(length, eol, used) =>
      if |s| < used + (2 + length) % WORD then Bad
      else if 2 + length >= WORD then Wraps
      else if length == 0 then Whole("", s[eol + 2..])
      else match Body(s[eol + length + 2..])
        case Whole(data, rest) => Whole(s[eol..eol + length] + data, rest)
        case Bad => Bad
        case Wraps => Wraps
  }

  /** A round on stream `s`, whose first size line is `z`, went as the stream says. */
  predicate GoesBy(s: string, z: Size, r: Round) {
    match z
    case NoLine => r.Failed?
    case NoNumber => r.Failed?
    case Number(length, eol, used) =>
      if |s| < used + (2 + length) % WORD then r.Failed?
      else if 2 + length >= WORD then r.Threw?
      else
        && eol + length + 2 <= |s|
        && r.Took? && r.data == s[eol..eol + length] && r.last == (length == 0)
        && r.input.buf + r.input.net == s[eol + length + 2..]
  }

  /** What one round does depends on the stream alone. */
  lemma RoundIs(i: Input, more: nat)
    ensures GoesBy(i.buf + i.net, FirstSize(i.buf + i.net), ReadRound(i, more))
  {
    hide ReadUntil, ReadLine, FirstSize, GoesBy;
    var s := i.buf + i.net;
    if Find(s, CRLF).Some? {
      ReadUntilFinds(i, CRLF, more);
      LineIs(ReadUntil(i, CRLF, more).value);
    } else {
      NeverFound(i, CRLF, more);
      NoLineGoesBy(s);
    }
  }

  lemma NoLineGoesBy(s: string)
    requires Find(s, CRLF).None?
    ensures GoesBy(s, FirstSize(s), Failed)
  {
  }

  lemma NeverFound(i: Input, delim: string, more: nat)
    requires Find(i.buf + i.net, delim).None?
    ensures ReadUntil(i, delim, more).None?
  {
    if Find(i.buf, delim).Some? {
      FindAppend(i.buf, delim, i.net);
    }
  }

  lemma FirstSizeAppend(s: string, t: string)
    requires Find(s, CRLF).Some?
    ensures FirstSize(s + t) == FirstSize(s)
  {
    hide Stoul;
    LineFeedBy(s, Find(s, CRLF).value);
    FindAppend(s, CRLF, t);
    FindAppend(s, "\n", t);
    var eol := Find(s, "\n").value;
    assert eol > 0 ==> (s + t)[..eol - 1] == s[..eol - 1];
  }

  lemma LineIs(j: Input)
    requires Find(j.buf, CRLF).Some?
    ensures GoesBy(j.buf + j.net, FirstSize(j.buf + j.net), ReadLine(j))
  {
    hide FirstSize, TakeChunk;
    var s := j.buf + j.net;
    FirstSizeAppend(j.buf, j.net);
    var z := FirstSize(s);
    if z.Number? {
      ChunkIs(Input(j.buf[z.eol..], j.net), z.used - z.eol, z.length);
      assert j.buf[z.eol..] + j.net == s[z.eol..];
      AfterEol(s, z.eol, z.length);
    }
  }

  lemma AfterEol(s: string, eol: nat, length: nat)
    requires eol <= |s|
    ensures eol + length + 2 <= |s| ==>
      s[eol..][..length] == s[eol..eol + length] && s[eol..][length + 2..] == s[eol + length + 2..]
  {
  }

  lemma ChunkIs(i: Input, transferred: nat, length: nat)
    requires transferred <= |i.buf| && length < WORD
    ensures var s, r := i.buf + i.net, TakeChunk(i, transferred, length);
      if |s| < transferred + (2 + length) % WORD then r.Failed?
      else if 2 + length >= WORD then r.Threw?
      else r.Took? && r.data == s[..length] && r.last == (length == 0)
           && r.input.buf + r.input.net == s[length + 2..]
  {
    var additional, wanted := |i.buf| - transferred, (2 + length) % WORD;
    if wanted > additional && wanted - additional <= |i.net| {
      var more := wanted - additional;
      assert i.buf + i.net == i.buf + i.net[..more] + i.net[more..];
    }
  }

  /**
   * On every stream, well formed or not, the arrival pattern changes nothing: the decoder ends with
   * the data of the stream's body, fails or throws as the stream alone says. Only how much of what
   * follows stands in front of the content is a matter of timing.
   */
  lemma {:induction false} DecodeIsBody(i: Input, body: string, arrive: nat -> nat, k: nat)
    ensures var r := Decode(i, body, arrive, k);
      match Body(i.buf + i.net)
      case Whole(data, rest) => r.Content? && exists early, late ::
        early + late == rest && r.input == Input(early + (body + data), late)
      case Bad => r == Refused
      case Wraps => r == Thrown
    decreases |i.buf| + |i.net|
  {
    hide ReadRound, FirstSize;
    var s := i.buf + i.net;
    var r := ReadRound(i, arrive(k));
    RoundShrinks(i, arrive(k));
    RoundIs(i, arrive(k));
    if r.Took? {
      if r.last {
        assert body + "" == body;
        assert r.input.buf + r.input.net == Body(s).rest
          && Decode(i, body, arrive, k).input == Input(r.input.buf + (body + Body(s).data), r.input.net);
      } else {
        DecodeIsBody(r.input, body + r.data, arrive, k + 1);
        if Body(r.input.buf + r.input.net).Whole? {
          var data := Body(r.input.buf + r.input.net).data;
          assert body + r.data + data == body + (r.data + data);
        }
      }
    }
  }

  /** "-1" is a number to stoul, and one of the two that wrap. */
  lemma MinusOne()
    ensures Stoul("-1") == Some(WORD - 1)
    ensures Find("-1\r\n\r\n", CRLF) == Some(2)
    ensures FirstSize("-1\r\n\r\n") == Number(WORD - 1, 4, 4)
    ensures Body("-1\r\n\r\n") == Wraps
  {
    var s := "-1\r\n\r\n";
    assert "-1"[1..] == "1" && "1"[1..] == "";
    assert HexRun("1", 0) == HexRun("", 1) == 1;
    EndOfLine("-1", "\r\n");
    assert s == "-1" + CRLF + "\r\n";
    assert s[..2] == "-1";
  }

  // ----- the encoding -----

  datatype Chunk = Chunk(line: string, data: string)

  /** chunk-size [ chunk-ext ]: hex digits in any case, then nothing or an extension after ';'. */
  predicate SizeLine(line: string, n: nat) {
    && StartsHex(line) && '\n' !in line && '\r' !in line
    && (exists k {:trigger line[..k]} :: 0 < k <= |line|
          && (forall i :: 0 <= i < k ==> HexDigit(line[i]).Some?) && (k == |line| || line[k] == ';'))
    && HexRun(line, 0) == n
  }

  predicate Encodes(c: Chunk) {
    SizeLine(c.line, |c.data|) && |c.data| + 2 < WORD
  }

  function Encoded(c: Chunk): string {
    c.line + CRLF + c.data + CRLF
  }

  function Stream(chunks: seq<Chunk>, last: string, after: string): string {
    if chunks == [] then Encoded(Chunk(last, "")) + after
    else Encoded(chunks[0]) + Stream(chunks[1..], last, after)
  }

  function Payload(chunks: seq<Chunk>): string {
    if chunks == [] then "" else chunks[0].data + Payload(chunks[1..])
  }

  /** A size as a sender prints it, here in lower case without leading zeros. */
  function PrintHex(n: nat): string {
    var digit := [if n % 16 < 10 then '0' + (n % 16) as char else 'a' + (n % 16 - 10) as char];
    if n < 16 then digit else PrintHex(n / 16) + digit
  }

  lemma {:induction false} HexRunConcat(a: string, b: string, acc: nat)
    requires forall i :: 0 <= i < |a| ==> HexDigit(a[i]).Some?
    ensures HexRun(a + b, acc) == HexRun(b, HexRun(a, acc))
  {
    if a == "" {
      assert a + b == b;
    } else {
      assert (a + b)[1..] == a[1..] + b;
      HexRunConcat(a[1..], b, 16 * acc + HexDigit(a[0]).value);
    }
  }

  /** Printed sizes are size lines, so every body has an encoding. */
  lemma {:induction false} PrintedSize(n: nat)
    ensures SizeLine(PrintHex(n), n)
    ensures forall i :: 0 <= i < |PrintHex(n)| ==> HexDigit(PrintHex(n)[i]).Some?
  {
    var s := PrintHex(n);
    var digit := s[|s| - 1..];
    assert HexDigit(digit[0]) == Some(n % 16);
    if n < 16 {
      assert HexRun(s, 0) == HexRun(s[1..], n);
    } else {
      PrintedSize(n / 16);
      assert s == PrintHex(n / 16) + digit;
      HexRunConcat(PrintHex(n / 16), digit, 0);
      assert HexRun(digit, n / 16) == HexRun(digit[1..], 16 * (n / 16) + n % 16);
    }
    assert forall i :: 0 <= i < |s| ==> HexDigit(s[i]).Some?;
    assert s[..|s|] == s;
    assert '\n' !in s && '\r' !in s;
  }

  lemma StoulOfLine(line: string, n: nat)
    requires SizeLine(line, n) && n < WORD
    ensures Stoul(line) == Some(n)
  {
    assert HexDigit(line[0]).Some?;
    assert !IsSpace(line[0]) && line[0] != '+' && line[0] != '-';
    assert |line| > 1 ==> line[1] != 'x' && line[1] != 'X' by {
      var k :| 0 < k <= |line| && (forall i :: 0 <= i < k ==> HexDigit(line[i]).Some?)
               && (k == |line| || line[k] == ';');
      assert |line| > 1 && k > 1 ==> HexDigit(line[1]).Some?;
    }
  }

  lemma SliceHead(s: string, a: nat, b: nat)
    requires a < b <= |s|
    ensures s[a..b][0] == s[a]
  {
  }

  /** The end of a size line is where both searches find it. */
  lemma EndOfLine(line: string, t: string)
    requires '\n' !in line && '\r' !in line
    ensures Find(line + CRLF + t, CRLF) == Some(|line|)
    ensures Find(line + CRLF + t, "\n") == Some(|line| + 1)
  {
    var s := line + CRLF + t;
    assert s[|line|..|line| + 2] == CRLF;
    forall j | 0 <= j < |line|
      ensures !OccursAt(s, CRLF, j)
    {
      assert s[j] == line[j];
      if OccursAt(s, CRLF, j) {
        SliceHead(s, j, j + 2);
      }
    }
    FindIs(s, CRLF, |line|);
    assert s[|line| + 1..|line| + 2] == "\n";
    forall j | 0 <= j < |line| + 1
      ensures !OccursAt(s, "\n", j)
    {
      assert s[j] == (line + CRLF)[j];
      if OccursAt(s, "\n", j) {
        SliceHead(s, j, j + 1);
      }
    }
    FindIs(s, "\n", |line| + 1);
  }

  lemma FoundLater(i: Input, delim: string, at: nat)
    requires Find(i.buf, delim) == None && OccursAt(i.buf + i.net, delim, at)
    ensures at + |delim| > |i.buf|
  {
    if at + |delim| <= |i.buf| {
      assert (i.buf + i.net)[at..at + |delim|] == i.buf[at..at + |delim|];
      assert OccursAt(i.buf, delim, at);
    }
  }

  /** Reading until a delimiter that is in the stream keeps the stream and gets the delimiter in. */
  lemma ReadUntilFinds(i: Input, delim: string, more: nat)
    requires Find(i.buf + i.net, delim).Some?
    ensures var j := ReadUntil(i, delim, more);
      j.Some? && j.value.buf + j.value.net == i.buf + i.net
      && Find(j.value.buf, delim) == Find(i.buf + i.net, delim)
  {
    var s := i.buf + i.net;
    var at := Find(s, delim).value;
    if Find(i.buf, delim).Some? {
      FindAppend(i.buf, delim, i.net);
    } else {
      var j := ReadUntil(i, delim, more).value;
      FoundLater(i, delim, at);
      assert j.buf + j.net == s;
      assert OccursAt(j.buf, delim, at) by {
        assert s[at..at + |delim|] == j.buf[at..at + |delim|];
      }
      FindAppend(j.buf, delim, j.net);
    }
  }

  lemma PlainLine(line: string, n: nat)
    requires SizeLine(line, n)
    ensures '\n' !in line && '\r' !in line
  {
  }

  lemma SizeOfChunk(c: Chunk, after: string)
    requires Encodes(c)
    ensures var n := |c.line| + 2; FirstSize(Encoded(c) + after) == Number(|c.data|, n, n)
  {
    hide Stoul, SizeLine, StartsHex;
    var tail := c.data + CRLF + after;
    assert Encoded(c) + after == c.line + CRLF + tail;
    PlainLine(c.line, |c.data|);
    EndOfLine(c.line, tail);
    StoulOfLine(c.line, |c.data|);
    assert (c.line + CRLF + tail)[..|c.line|] == c.line;
  }

  /** The first chunk of an encoding, and the rest. */
  lemma BodyOfChunk(c: Chunk, after: string)
    requires Encodes(c)
    ensures var rest := Body(after);
      Body(Encoded(c) + after) ==
        if c.data == "" then Whole("", after)
        else if rest.Whole? then Whole(c.data + rest.data, rest.rest) else rest
  {
    hide FirstSize, Encodes, Encoded, Body;
    SizeOfChunk(c, after);
    FitsWord(c);
    ChunkSlices(c, after);
    BodyUnfold(Encoded(c) + after);
  }

  lemma ChunkSlices(c: Chunk, after: string)
    ensures var s, n := Encoded(c) + after, |c.line| + 2;
      && n + |c.data| + 2 <= |s|
      && s[n..n + |c.data|] == c.data && s[n + |c.data| + 2..] == after
  {
  }

  /** The meaning of a stream whose first size line is within bounds and whose chunk is there. */
  lemma BodyUnfold(s: string)
    requires var z := FirstSize(s); z.Number? && z.length + 2 < WORD && |s| >= z.used + z.length + 2
    ensures var z := FirstSize(s);
      var rest := Body(s[z.eol + z.length + 2..]);
      Body(s) ==
        if z.length == 0 then Whole("", s[z.eol + 2..])
        else if rest.Whole? then Whole(s[z.eol..z.eol + z.length] + rest.data, rest.rest) else rest
  {
    hide FirstSize;
    assert (2 + FirstSize(s).length) % WORD == 2 + FirstSize(s).length;
  }

  lemma FitsWord(c: Chunk)
    requires Encodes(c)
    ensures |c.data| + 2 < WORD
  {
  }

  /** The meaning of an encoded chunk list is its payload, whatever follows. */
  lemma {:induction false} BodyOfStream(chunks: seq<Chunk>, last: string, after: string)
    requires forall c :: c in chunks ==> Encodes(c) && c.data != ""
    requires SizeLine(last, 0)
    ensures Body(Stream(chunks, last, after)) == Whole(Payload(chunks), after)
  {
    hide Body, Encoded, Encodes;
    if chunks == [] {
      LastEncodes(last);
      BodyOfChunk(Chunk(last, ""), after);
    } else {
      assert chunks[0] in chunks;
      BodyOfStream(chunks[1..], last, after);
      BodyOfChunk(chunks[0], Stream(chunks[1..], last, after));
    }
  }

  /** Part of a size line, or its line feed missing: there is no size yet. */
  lemma NoSizeYet(line: string, tail: string, k: nat)
    requires '\n' !in line && '\r' !in line && k < |line| + 2
    ensures FirstSize((line + CRLF + tail)[..k]) == NoLine
  {
    var s := line + CRLF + tail;
    if Find(s[..k], CRLF).Some? {
      FindAppend(s[..k], CRLF, s[k..]);
      assert s[..k] + s[k..] == s;
      EndOfLine(line, tail);
    }
  }

  /** A body that is cut short anywhere is refused: no encoding is the beginning of another one. */
  lemma {:induction false} TruncatedIsBad(chunks: seq<Chunk>, last: string, k: nat)
    requires forall c :: c in chunks ==> Encodes(c) && c.data != ""
    requires SizeLine(last, 0) && k < |Stream(chunks, last, "")|
    ensures Body(Stream(chunks, last, "")[..k]) == Bad
  {
    hide Body, Encodes, Encoded;
    var c := if chunks == [] then Chunk(last, "") else chunks[0];
    var after := if chunks == [] then "" else Stream(chunks[1..], last, "");
    assert Encodes(c) by {
      if chunks == [] { LastEncodes(last); } else { assert chunks[0] in chunks; }
    }
    assert Stream(chunks, last, "") == Encoded(c) + after;
    if k < |Encoded(c)| {
      CutChunk(c, after, k);
    } else {
      var n := k - |Encoded(c)|;
      assert (Encoded(c) + after)[..k] == Encoded(c) + after[..n];
      TruncatedIsBad(chunks[1..], last, n);
      BodyOfChunk(c, after[..n]);
    }
  }

  lemma CutChunk(c: Chunk, after: string, k: nat)
    requires Encodes(c) && k < |Encoded(c)|
    ensures Body((Encoded(c) + after)[..k]) == Bad
  {
    hide FirstSize, SizeLine;
    var s, n := Encoded(c) + after, |c.line| + 2;
    PlainLine(c.line, |c.data|);
    if k < n {
      assert s == c.line + CRLF + (c.data + CRLF + after);
      NoSizeYet(c.line, c.data + CRLF + after, k);
    } else {
      var cut := Encoded(c)[..k];
      assert s[..k] == cut;
      SizeOfCut(c, k);
      assert (2 + |c.data|) % WORD == 2 + |c.data|;
    }
  }

  lemma SizeOfCut(c: Chunk, k: nat)
    requires Encodes(c) && |c.line| + 2 <= k < |Encoded(c)|
    ensures var n := |c.line| + 2; FirstSize(Encoded(c)[..k]) == Number(|c.data|, n, n)
  {
    hide Stoul, SizeLine, StartsHex;
    var tail := (c.data + CRLF)[..k - (|c.line| + 2)];
    assert Encoded(c)[..k] == c.line + CRLF + tail;
    PlainLine(c.line, |c.data|);
    EndOfLine(c.line, tail);
    StoulOfLine(c.line, |c.data|);
    assert (c.line + CRLF + tail)[..|c.line|] == c.line;
  }

  /**
   * Any chunk list, any spelling of its sizes, any arrival pattern: the content is the chunks
   * concatenated, preceded only by bytes of the next message that had already arrived.
   */
  lemma DecodeEncoded(
    i: Input, body: string, arrive: nat -> nat, k: nat, chunks: seq<Chunk>, last: string, after: string)
    requires forall c :: c in chunks ==> Encodes(c) && c.data != ""
    requires SizeLine(last, 0)
    requires i.buf + i.net == Stream(chunks, last, after)
    ensures var r := Decode(i, body, arrive, k);
      r.Content? && exists early, late ::
        early + late == after && r.input == Input(early + (body + Payload(chunks)), late)
  {
    hide Body, Decode;
    BodyOfStream(chunks, last, after);
    DecodeIsBody(i, body, arrive, k);
  }

  lemma LastEncodes(last: string)
    requires SizeLine(last, 0)
    ensures Encodes(Chunk(last, ""))
  {
  }

  /** Nothing pipelined behind it: exactly the concatenation, and every byte is used. */
  lemma BodyIsPayload(i: Input, arrive: nat -> nat, chunks: seq<Chunk>, last: string)
    requires forall c :: c in chunks ==> Encodes(c) && c.data != ""
    requires SizeLine(last, 0)
    requires i.buf + i.net == Stream(chunks, last, "")
    ensures Decode(i, "", arrive, 0) == Content(Input(Payload(chunks), ""))
  {
    DecodeEncoded(i, "", arrive, 0, chunks, last, "");
    var r := Decode(i, "", arrive, 0).input;
    var early, late :| early + late == "" && r == Input(early + ("" + Payload(chunks)), late);
    assert early == "" && late == "";
    assert "" + ("" + Payload(chunks)) == Payload(chunks);
  }

  // ----- the reader object -----

  /** How a step of the reading ends: as it should, with an error reported, or with an exception. */
  datatype Ended = Done | Error | Gone

  /** The stream buffer, the socket behind it and chunks_streambuf. */
  class Reader {
    var buf: string
    var net: string
    var chunks: string

    constructor (buf: string, net: string)
      ensures this.buf == buf && this.net == net && chunks == ""
    {
      this.buf, this.net, chunks := buf, net, "";
    }

    function In(): Input
      reads this
    {
      Input(buf, net)
    }

    method ReadChunkedBody(arrive: nat -> nat) returns (end: Ended)
      requires chunks == ""
      modifies this
      ensures var d := Decode(old(In()), "", arrive, 0);
        && (end == Done <==> d.Content?) && (end == Gone <==> d.Thrown?)
        && (end == Done ==> In() == d.input)
    {
      var k := 0;
      while true
        invariant Decode(old(In()), "", arrive, 0) == Decode(In(), chunks, arrive, k)
        decreases |buf| + |net|
      {
        ghost var before := In();
        RoundShrinks(before, arrive(k));
        var last;
        end, last := ReadOne(arrive(k));
        if end != Done {
          return;
        }
        if last {
          buf := buf + chunks;
          return;
        }
        k := k + 1;
      }
    }

    /** One size line and its chunk; the chunk's bytes go to the end of `chunks`. */
    method ReadOne(more: nat) returns (end: Ended, last: bool)
      modifies this
      ensures var r := ReadRound(old(In()), more);
        && (end == Done <==> r.Took?) && (end == Gone <==> r.Threw?)
        && (end == Done ==> In() == r.input && last == r.last && chunks == old(chunks) + r.data)
    {
      hide Stoul, TakeChunk, ReadUntil;
      end, last := Error, false;
      var read := ReadUntil(In(), CRLF, more);
      if read.None? {
        return;
      }
      buf, net := read.value.buf, read.value.net;
      var at := Find(buf, CRLF);
      if at.None? {
        return;
      }
      LineFeedBy(buf, at.value);
      var eol := Find(buf, "\n");
      if eol.value == 0 {
        return;
      }
      var line := buf[..eol.value];
      assert line[..|line| - 1] == buf[..eol.value - 1];
      buf := buf[eol.value + 1..];
      var length := Stoul(line[..|line| - 1]);
      if length.None? {
        return;
      }
      end := TakeOne(at.value + 2 - (|line| + 1), length.value);
      last := length.value == 0;
    }

    method TakeOne(bytesTransferred: nat, length: nat) returns (end: Ended)
      requires bytesTransferred <= |buf| && length < WORD
      modifies this
      ensures var r := TakeChunk(old(In()), bytesTransferred, length);
        && (end == Done <==> r.Took?) && (end == Gone <==> r.Threw?)
        && (end == Done ==> In() == r.input && (length == 0) == r.last && chunks == old(chunks) + r.data)
    {
      var additional := |buf| - bytesTransferred;
      var wanted := (2 + length) % WORD;
      if wanted > additional {
        var read := ReadExactly(In(), wanted - additional);
        if read.None? {
          return Error;
        }
        buf, net := read.value.buf, read.value.net;
      }
      if 2 + length >= WORD {
        return Gone; // new char[length]
      }
      chunks := chunks + buf[..length];
      assert buf[length..][2..] == buf[length + 2..];
      buf := buf[length..];
      buf := buf[2..];
      return Done;
    }
  }
}
