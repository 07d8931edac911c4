/**
 What the client's encoder writes, the server's parser reads back
 (crates/kernway-http-client/src/lib.rs:1371-1422, crates/kernway-http/src/parser.rs:84-237):
 one request, and a pipeline of them however its bytes arrive.
 */
module RequestRoundTrip {
  import opened Common
  import opened Text
  import opened Fields
  import opened HttpWire
  import opened HttpRequests
  import W = HttpWriter
  import P = HttpParser
  import Q = HttpPipeline

  // ---- Clean requests --------------------------------------------------------

  /** Visible ASCII without a colon. */
  predicate CleanName(name: Bytes) {
    name != [] && COLON !in name && forall i :: 0 <= i < |name| ==> Between(name[i], 33, 126)
  }

  /** One line of UTF-8 without white space around it; it may be empty. */
  predicate CleanValue(v: Bytes) {
    OneLine(v) && Utf8(v) && SpaceAtStart(v) == 0 && SpaceAtEnd(v) == 0
  }

  predicate CleanHeader(p: Pair) {
    CleanName(p.name) && CleanValue(p.value)
  }

  predicate CleanHeaders(headers: seq<Pair>) {
    forall i :: 0 <= i < |headers| ==> CleanHeader(headers[i])
  }

  predicate Clean(d: Dispatch) {
    && CleanHeaders(d.req.headers)
    && CleanValue(d.req.url.host) && CleanValue(CookieText(d.cookie))
    && OneLine(d.req.url.target) && SPACE !in d.req.url.target && Utf8(d.req.url.target)
  }

  function LowerPair(p: Pair): Pair {
    Pair(LowerAll(p.name), p.value)
  }

  /** The pairs as the server stores them. */
  function LowerNames(pairs: seq<Pair>): (r: seq<Pair>)
    ensures |r| == |pairs|
  {
    if pairs == [] then [] else [LowerPair(pairs[0])] + LowerNames(pairs[1..])
  }

  /** The request line the server should see. */
  function ReceivedLine(req: Outbound): P.RequestLine {
    P.RequestLine(VerbOf(req.verb), Before(req.url.target, P.QUESTION),
      P.ParseQuery(P.Beyond(req.url.target, P.QUESTION)), P.Http11)
  }

  /** The request the server should see. */
  function Received(d: Dispatch): P.Request {
    var line := ReceivedLine(d.req);
    P.Request(line.verb, line.path, line.version, line.query, LowerNames(Sent(d)), d.req.body)
  }

  // ---- Lines -----------------------------------------------------------------

  /** The lines as the parser cuts them, each with its carriage return. */
  function WithCR(lines: seq<Bytes>): (r: seq<Bytes>)
    ensures |r| == |lines|
  {
    if lines == [] then [] else [lines[0] + [CR]] + WithCR(lines[1..])
  }

  /** A line, its CRLF and what follows. */
  lemma LineIsCut(line: Bytes, rest: Bytes)
    requires LF !in line
    ensures var s := line + CRLF + rest;
            && Before(s, LF) == line + [CR] && |line| + 1 < |s|
            && s[|line| + 2..] == rest
  {
    var s := line + CRLF + rest;
    assert s == line + [CR] + [LF] + rest;
    BeforeStops(line + [CR], LF, rest);
  }

  lemma LinesStep(line: Bytes, rest: Bytes)
    requires LF !in line
    ensures P.Lines(line + CRLF + rest) == [line + [CR]] + P.Lines(rest)
  {
    LineIsCut(line, rest);
  }

  lemma WireStep(lines: seq<Bytes>, rest: Bytes)
    requires lines != []
    ensures Wire(lines) + rest == lines[0] + CRLF + (Wire(lines[1..]) + rest)
  {
    Regroup(lines[0], CRLF, Wire(lines[1..]), rest);
  }

  lemma {:induction false} LinesAreCut(lines: seq<Bytes>)
    requires Plain(lines)
    ensures P.Lines(Wire(lines) + CRLF) == WithCR(lines) + [[CR]]
    decreases |lines|
  {
    if lines == [] {
      LinesStep([], []);
      assert Wire(lines) + CRLF == [] + CRLF + [];
      assert P.Lines([]) == [];
      assert [] + [CR] == [CR];
    } else {
      WireStep(lines, CRLF);
      LinesStep(lines[0], Wire(lines[1..]) + CRLF);
      LinesAreCut(lines[1..]);
      assert [lines[0] + [CR]] + (WithCR(lines[1..]) + [[CR]]) == WithCR(lines) + [[CR]];
    }
  }

  lemma HeadStep(line: Bytes, rest: Bytes)
    requires LF !in line
    ensures P.FindHead(line + CRLF + rest) ==
            if line == [] then Some(P.HeadEnd(2, 0)) else P.Later(P.FindHead(rest), |line| + 2, 1)
  {
    LineIsCut(line, rest);
    if line != [] { assert (line + [CR])[0] == line[0] && |line + [CR]| > 1; }
  }

  lemma {:induction false} HeadIsFound(lines: seq<Bytes>, rest: Bytes)
    requires Plain(lines)
    ensures P.FindHead(Wire(lines) + (CRLF + rest)) == Some(P.HeadEnd(|Wire(lines)| + 2, |lines|))
    decreases |lines|
  {
    if lines == [] {
      HeadStep([], rest);
      assert Wire(lines) + (CRLF + rest) == [] + CRLF + rest;
    } else {
      WireStep(lines, CRLF + rest);
      HeadStep(lines[0], Wire(lines[1..]) + (CRLF + rest));
      HeadIsFound(lines[1..], rest);
    }
  }

  // ---- Trimming --------------------------------------------------------------

  lemma DropsCR(s: Bytes)
    ensures TrimEnd(s + [CR]) == TrimEnd(s)
  {
    assert (s + [CR])[..|s|] == s;
  }

  /** Two ASCII bytes before a text cannot make its end look like white space. */
  lemma EndStays(front: Bytes, a: byte, b: byte, s: Bytes)
    requires a < 0x80 && b < 0x80 && s != [] && SpaceAtEnd(s) == 0
    ensures SpaceAtEnd(front + [a, b] + s) == 0
  {
    var t := front + [a, b] + s;
    var k, n := |t|, |s|;
    assert t[k - 1] == s[n - 1];
    assert t[k - 2] == (if n >= 2 then s[n - 2] else b);
    assert t[k - 3] == (if n >= 3 then s[n - 3] else if n == 2 then b else a);
  }

  lemma NameIsTrimmed(name: Bytes)
    requires CleanName(name)
    ensures Trim(name) == name
  {
    VisibleStart(name);
    VisibleEnd(name);
  }

  lemma ValueIsTrimmed(v: Bytes)
    requires SpaceAtStart(v) == 0 && SpaceAtEnd(v) == 0
    ensures Trim(v) == v && Trim([SPACE] + v) == v
  {
    assert ([SPACE] + v)[1..] == v;
    assert TrimStart([SPACE] + v) == TrimStart(v);
  }

  /** A header line trimmed: an empty value takes its space along. */
  lemma LineIsTrimmed(p: Pair)
    requires CleanHeader(p)
    ensures Trim(HeaderLine(p) + [CR]) == p.name + [COLON] + (if p.value == [] then [] else [SPACE] + p.value)
  {
    VisibleStart(HeaderLine(p) + [CR]);
    DropsCR(HeaderLine(p));
    if p.value == [] { BareIsTrimmed(p.name); } else { ValuedIsTrimmed(p.name, p.value); }
  }

  lemma BareIsTrimmed(name: Bytes)
    requires CleanName(name)
    ensures TrimEnd(name + [COLON, SPACE] + []) == name + [COLON] + []
  {
    var line, bare := name + [COLON, SPACE] + [], name + [COLON];
    assert line == bare + [SPACE] && line[..|line| - 1] == bare && bare + [] == bare;
    VisibleEnd(bare);
  }

  lemma ValuedIsTrimmed(name: Bytes, value: Bytes)
    requires value != [] && SpaceAtEnd(value) == 0
    ensures TrimEnd(name + [COLON, SPACE] + value) == name + [COLON] + ([SPACE] + value)
  {
    EndStays(name, COLON, SPACE, value);
    EndIsTrimmed(name + [COLON, SPACE] + value);
    ColonThenSpace(name, value);
  }

  lemma EndIsTrimmed(s: Bytes)
    requires SpaceAtEnd(s) == 0
    ensures TrimEnd(s) == s
  {
  }

  lemma ColonThenSpace(name: Bytes, value: Bytes)
    ensures name + [COLON, SPACE] + value == name + [COLON] + ([SPACE] + value)
  {
  }

  lemma PairIsSplit(name: Bytes, value: Bytes, after: Bytes)
    requires COLON !in name && Trim(name) == name && Trim(after) == value
    ensures P.HeaderPair(name + [COLON] + after) == [Pair(LowerAll(name), value)]
  {
    var line := name + [COLON] + after;
    BeforeStops(name, COLON, after);
    assert line[|name| + 1..] == after;
  }

  lemma HeaderIsRead(p: Pair)
    requires CleanHeader(p)
    ensures var t := Trim(HeaderLine(p) + [CR]); t != [] && P.HeaderPair(t) == [Pair(LowerAll(p.name), p.value)]
  {
    LineIsTrimmed(p);
    NameIsTrimmed(p.name);
    ValueIsTrimmed(p.value);
    PairIsSplit(p.name, p.value, if p.value == [] then [] else [SPACE] + p.value);
  }

  lemma HeadersStep(line: Bytes, rest: seq<Bytes>)
    ensures P.HeaderPairs([line] + rest) ==
            if Trim(line) == [] then [] else P.HeaderPair(Trim(line)) + P.HeaderPairs(rest)
  {
    assert ([line] + rest)[1..] == rest;
  }

  lemma BlankLineStops()
    ensures P.HeaderPairs([[CR]]) == []
  {
    DropsCR([]);
    assert [] + [CR] == [CR];
  }

  lemma LinesUnfold(headers: seq<Pair>)
    requires headers != []
    ensures WithCR(HeaderLines(headers)) + [[CR]] ==
            [HeaderLine(headers[0]) + [CR]] + (WithCR(HeaderLines(headers[1..])) + [[CR]])
  {
    assert HeaderLines(headers)[1..] == HeaderLines(headers[1..]);
  }

  lemma {:induction false} HeadersAreRead(headers: seq<Pair>)
    requires CleanHeaders(headers)
    ensures P.HeaderPairs(WithCR(HeaderLines(headers)) + [[CR]]) == LowerNames(headers)
    decreases |headers|
  {
    if headers == [] {
      BlankLineStops();
      assert WithCR(HeaderLines(headers)) + [[CR]] == [[CR]];
    } else {
      LinesUnfold(headers);
      HeadersStep(HeaderLine(headers[0]) + [CR], WithCR(HeaderLines(headers[1..])) + [[CR]]);
      HeaderIsRead(headers[0]);
      HeadersAreRead(headers[1..]);
    }
  }

  // ---- The request line ------------------------------------------------------

  lemma VerbIsPlain(m: Method)
    ensures var v := VerbOf(m);
            v != [] && SPACE !in v && OneLine(v) && IsAscii(v) && P.UpperAll(v) == v && Between(v[0], 33, 126)
  {
  }

  lemma VersionIsRead()
    ensures var v := W.VersionText();
            v != [] && OneLine(v) && IsAscii(v) && Between(v[|v| - 1], 33, 126) && Trim(v) == v && v != P.HTTP10()
  {
    var v := W.VersionText();
    VisibleStart(v);
    VisibleEnd(v);
    assert v[7] == 49 && P.HTTP10()[7] == 48;
  }

  lemma RequestLineIsRead(verb: Bytes, target: Bytes, version: Bytes)
    requires verb != [] && SPACE !in verb && P.UpperAll(verb) == verb && Between(verb[0], 33, 126)
    requires SPACE !in target
    requires version != [] && Between(version[|version| - 1], 33, 126) && Trim(version) == version &&
      version != P.HTTP10()
    ensures P.ParseRequestLine(Trim(verb + [SPACE] + (target + [SPACE] + version) + [CR])) ==
            Ok(P.RequestLine(verb, Before(target, P.QUESTION), P.ParseQuery(P.Beyond(target, P.QUESTION)), P.Http11))
  {
    var rest := target + [SPACE] + version;
    var line := verb + [SPACE] + rest;
    VisibleIsTrimmed(line);
    RequestLineIsSplit(verb, target, version);
  }

  lemma VisibleIsTrimmed(line: Bytes)
    requires line != [] && Between(line[0], 33, 126) && Between(line[|line| - 1], 33, 126)
    ensures Trim(line + [CR]) == line
  {
    VisibleStart(line + [CR]);
    DropsCR(line);
    VisibleEnd(line);
  }

  lemma RequestLineIsSplit(verb: Bytes, target: Bytes, version: Bytes)
    requires verb != [] && SPACE !in verb && P.UpperAll(verb) == verb
    requires SPACE !in target && Trim(version) == version && version != P.HTTP10()
    ensures P.ParseRequestLine(verb + [SPACE] + (target + [SPACE] + version)) ==
            Ok(P.RequestLine(verb, Before(target, P.QUESTION), P.ParseQuery(P.Beyond(target, P.QUESTION)), P.Http11))
  {
    var rest := target + [SPACE] + version;
    BeforeStops(verb, SPACE, rest);
    assert (verb + [SPACE] + rest)[|verb| + 1..] == rest;
    BeforeStops(target, SPACE, version);
    assert rest[|target| + 1..] == version;
  }

  // ---- The body length -------------------------------------------------------

  lemma {:induction false} LowerNamesAppend(a: seq<Pair>, b: seq<Pair>)
    ensures LowerNames(a + b) == LowerNames(a) + LowerNames(b)
  {
    if a == [] {
      assert a + b == b;
    } else {
      LowerNamesAppend(a[1..], b);
      assert (a + b)[1..] == a[1..] + b;
      P.AppendThen([LowerPair(a[0])], LowerNames(a[1..]), LowerNames(b));
    }
  }

  lemma {:induction false} LookupAppend(a: seq<Pair>, b: seq<Pair>, name: Bytes)
    ensures Lookup(true, a + b, name) ==
            if Lookup(true, b, name).Some? then Lookup(true, b, name) else Lookup(true, a, name)
    decreases |b|
  {
    if b == [] {
      assert a + b == a;
    } else {
      var front := b[..|b| - 1];
      LookupAppend(a, front, name);
      assert (a + b)[..|a + b| - 1] == a + front;
    }
  }

  lemma {:induction false} LowerNamesAt(pairs: seq<Pair>, i: nat)
    requires i < |pairs|
    ensures LowerNames(pairs)[i] == Pair(LowerAll(pairs[i].name), pairs[i].value)
  {
    if i > 0 { LowerNamesAt(pairs[1..], i - 1); }
  }

  lemma {:induction false} LookupSome(list: seq<Pair>, name: Bytes)
    ensures Lookup(true, list, name).Some? <==> exists i :: 0 <= i < |list| && SameIgnoringCase(list[i].name, name)
  {
    if list != [] {
      var front := list[..|list| - 1];
      LookupSome(front, name);
      assert forall i :: 0 <= i < |front| ==> front[i] == list[i];
    }
  }

  /** A name is found among the lowered pairs exactly when the encoder saw it. */
  lemma HasIsLookup(headers: seq<Pair>, name: Bytes)
    ensures Lookup(true, LowerNames(headers), name).Some? <==> Has(headers, name)
  {
    var lowered := LowerNames(headers);
    LookupSome(lowered, name);
    forall i | 0 <= i < |headers|
      ensures SameIgnoringCase(lowered[i].name, name) <==> SameIgnoringCase(headers[i].name, name)
    {
      LowerNamesAt(headers, i);
      LowerTwice(headers[i].name);
    }
  }

  lemma HasGrouped(a: seq<Pair>, b: seq<Pair>, c: seq<Pair>, name: Bytes)
    requires !Has(a, name) && !Has(b, name) && !Has(c, name)
    ensures !Has(Grouped(a, b, c), name)
  {
  }

  lemma LookupGrouped(a: seq<Pair>, b: seq<Pair>, c: seq<Pair>, name: Bytes)
    ensures !Has(c, name) ==> Lookup(true, LowerNames(Grouped(a, b, c)), name) == Lookup(true, LowerNames(a + b), name)
    ensures Has(c, name) ==> Lookup(true, LowerNames(Grouped(a, b, c)), name) == Lookup(true, LowerNames(c), name)
    ensures !Has(b, name) ==> Lookup(true, LowerNames(a + b), name) == Lookup(true, LowerNames(a), name)
    ensures Has(b, name) ==> Lookup(true, LowerNames(a + b), name) == Lookup(true, LowerNames(b), name)
  {
    LowerNamesAppend(a + b, c);
    LowerNamesAppend(a, b);
    LookupAppend(LowerNames(a + b), LowerNames(c), name);
    LookupAppend(LowerNames(a), LowerNames(b), name);
    HasIsLookup(c, name);
    HasIsLookup(b, name);
  }

  lemma OtherField(present: bool, name: Bytes, value: Bytes, wanted: Bytes)
    requires |name| != |wanted|
    ensures !Has(Opt(present, name, value), wanted)
  {
    if present { assert |LowerAll(name)| != |LowerAll(wanted)|; }
  }

  /** None of the fields before the caller's is a length. */
  lemma FrontIsNoLength(req: Outbound)
    ensures !Has(Grouped(HostField(req), AgentField(req), EncodingField(req)), P.ContentLengthName())
  {
    var n := P.ContentLengthName();
    OtherField(!Has(req.headers, HostName()), HostName(), HostValue(req.url), n);
    OtherField(!Has(req.headers, AgentName()), AgentName(), AgentText(), n);
    OtherField(!Has(req.headers, EncodingName()), EncodingName(), EncodingsText(), n);
    HasGrouped(HostField(req), AgentField(req), EncodingField(req), n);
  }

  lemma EndIsNoLength(d: Dispatch)
    ensures !Has(ConnectionField(d), P.ContentLengthName()) && !Has(CookieField(d), P.ContentLengthName())
  {
    var n := P.ContentLengthName();
    OtherField(!Has(d.req.headers, W.ConnectionName()), Ascii("Connection"),
      W.ConnectionValue(if d.keepAlive then W.KeepAlive else W.Close), n);
    OtherField(CookieText(d.cookie) != [] && !Has(d.req.headers, CookieName()), CookieName(), CookieText(d.cookie), n);
  }

  lemma LengthNamesMatch()
    ensures W.LengthName() == P.ContentLengthName() && LowerAll(Ascii("Content-Length")) == P.ContentLengthName()
    ensures LowerAll(P.ContentLengthName()) == P.ContentLengthName()
  {
    var upper, lower := "Content-Length", "content-length";
    assert forall i :: 0 <= i < |upper| ==> Lower(upper[i] as int) == lower[i] as int;
  }

  /** The length a request declares: the caller's, or else that of its body. */
  function Declared(req: Outbound): nat {
    if Has(req.headers, P.ContentLengthName()) then P.ContentLength(LowerNames(req.headers)) else |req.body|
  }

  lemma LengthFieldSays(req: Outbound)
    ensures Has(LengthField(req), P.ContentLengthName()) <==> WritesLength(req)
    ensures WritesLength(req) ==>
      Lookup(true, LowerNames(LengthField(req)), P.ContentLengthName()) == Some(Digits(|req.body|))
  {
    LengthNamesMatch();
    var field := LengthField(req);
    if WritesLength(req) {
      assert field[0] == Pair(Ascii("Content-Length"), Digits(|req.body|)) && field[1..] == [];
      assert LowerNames(field) == [Pair(P.ContentLengthName(), Digits(|req.body|))];
    }
  }

  lemma SentLookup(front: seq<Pair>, headers: seq<Pair>, length: seq<Pair>, a: seq<Pair>, b: seq<Pair>, name: Bytes)
    requires !Has(front, name) && !Has(a, name) && !Has(b, name) && (Has(length, name) ==> !Has(headers, name))
    ensures Lookup(true, LowerNames(Grouped(front, headers, Grouped(length, a, b))), name) ==
            Lookup(true, LowerNames(if Has(length, name) then length else headers), name)
  {
    var tail := Grouped(length, a, b);
    HasIsLookup(tail, name);
    HasIsLookup(length, name);
    HasIsLookup(front, name);
    HasIsLookup(headers, name);
    LookupGrouped(length, a, b, name);
    LookupGrouped(front, headers, tail, name);
  }

  /** The server takes the length the client declares. */
  lemma LengthIsRead(d: Dispatch)
    requires |d.req.body| <= USIZE_MAX
    ensures P.ContentLength(LowerNames(Sent(d))) == Declared(d.req)
  {
    var req, n := d.req, P.ContentLengthName();
    LengthNamesMatch();
    FrontIsNoLength(req);
    EndIsNoLength(d);
    LengthFieldSays(req);
    SentLookup(Grouped(HostField(req), AgentField(req), EncodingField(req)), req.headers, LengthField(req),
      ConnectionField(d), CookieField(d), n);
    LengthIs(Sent(d), req);
  }

  lemma LengthIs(sent: seq<Pair>, req: Outbound)
    requires |req.body| <= USIZE_MAX
    requires Lookup(true, LowerNames(sent), P.ContentLengthName()) ==
             if WritesLength(req) then Some(Digits(|req.body|))
             else Lookup(true, LowerNames(req.headers), P.ContentLengthName())
    requires WritesLength(req) <==> req.body != [] && !Has(req.headers, P.ContentLengthName())
    ensures P.ContentLength(LowerNames(sent)) == Declared(req)
  {
    DigitsParse(|req.body|, USIZE_MAX);
    HasIsLookup(req.headers, P.ContentLengthName());
  }

  // ---- What is sent is clean -------------------------------------------------

  predicate VisibleText(s: string) {
    forall i :: 0 <= i < |s| ==> '!' <= s[i] <= '~'
  }

  lemma VisibleNameIsClean(s: string)
    requires s != "" && VisibleText(s) && ':' !in s
    ensures CleanName(Ascii(s))
  {
  }

  lemma CleanOpt(present: bool, name: Bytes, value: Bytes)
    requires CleanName(name) && (present ==> CleanValue(value))
    ensures CleanHeaders(Opt(present, name, value))
  {
  }

  lemma PlainValueIsClean(v: Bytes)
    requires IsAscii(v) && OneLine(v)
    requires v != [] ==> Between(v[0], 33, 126) && Between(v[|v| - 1], 33, 126)
    ensures CleanValue(v)
  {
    AsciiIsUtf8(v);
  }

  lemma DigitsAreClean(n: nat)
    ensures CleanValue(Digits(n)) && IsAscii(Digits(n))
  {
    DigitsRead(n);
    PlainValueIsClean(Digits(n));
  }

  lemma StartStays(s: Bytes, a: byte, more: Bytes)
    requires SpaceAtStart(s) == 0 && Between(a, 33, 126)
    ensures SpaceAtStart(s + [a] + more) == 0
  {
    var t, n := s + [a] + more, |s|;
    assert t[0] == (if n >= 1 then s[0] else a);
    if |t| >= 2 && n >= 1 { assert t[1] == (if n >= 2 then s[1] else a); }
    if |t| >= 3 && n >= 2 { assert t[2] == (if n >= 3 then s[2] else a); }
  }

  lemma HostIsUtf8(host: Bytes, digits: Bytes)
    requires Utf8(host) && Utf8(digits)
    ensures Utf8(host + [COLON] + digits)
  {
    AsciiIsUtf8([COLON]);
    Utf8Concat(host, [COLON]);
    Utf8Concat(host + [COLON], digits);
  }

  lemma HostIsClean(host: Bytes, port: nat)
    requires CleanValue(host)
    ensures CleanValue(host + [COLON] + Digits(port))
  {
    var digits := Digits(port);
    DigitsRead(port);
    DigitsAreClean(port);
    HostAndPort(host, digits);
  }

  lemma HostAndPort(host: Bytes, digits: Bytes)
    requires CleanValue(host) && CleanValue(digits) && digits != [] && AllDigits(digits)
    ensures CleanValue(host + [COLON] + digits)
  {
    StartStays(host, COLON, digits);
    HostIsUtf8(host, digits);
    var v := host + [COLON] + digits;
    assert v[|v| - 1] == digits[|digits| - 1];
  }

  lemma FixedNamesAreClean()
    ensures CleanName(HostName()) && CleanName(AgentName()) && CleanName(EncodingName()) && CleanName(CookieName())
  {
    VisibleNameIsClean("Host");
    VisibleNameIsClean("User-Agent");
    VisibleNameIsClean("Accept-Encoding");
    VisibleNameIsClean("Cookie");
  }

  lemma EncodingsAreClean()
    ensures CleanValue(EncodingsText())
  {
    PlainValueIsClean(EncodingsText());
  }

  lemma HostFieldIsClean(req: Outbound)
    requires CleanValue(req.url.host)
    ensures CleanHeaders(HostField(req))
  {
    HostIsClean(req.url.host, req.url.port);
    FixedNamesAreClean();
    CleanOpt(!Has(req.headers, HostName()), HostName(), HostValue(req.url));
  }

  lemma AgentIsClean()
    ensures CleanValue(AgentText())
  {
    var agent := "kernway-http-client/0.1";
    assert VisibleText(agent);
    PlainValueIsClean(Ascii(agent));
  }

  lemma AgentFieldIsClean(req: Outbound)
    ensures CleanHeaders(AgentField(req))
  {
    FixedNamesAreClean();
    AgentIsClean();
    CleanOpt(!Has(req.headers, AgentName()), AgentName(), AgentText());
  }

  lemma EncodingFieldIsClean(req: Outbound)
    ensures CleanHeaders(EncodingField(req))
  {
    FixedNamesAreClean();
    EncodingsAreClean();
    CleanOpt(!Has(req.headers, EncodingName()), EncodingName(), EncodingsText());
  }

  lemma LengthFieldIsClean(req: Outbound)
    ensures CleanHeaders(LengthField(req))
  {
    VisibleNameIsClean("Content-Length");
    DigitsAreClean(|req.body|);
    CleanOpt(WritesLength(req), Ascii("Content-Length"), Digits(|req.body|));
  }

  lemma ConnectionFieldIsClean(d: Dispatch)
    ensures CleanHeaders(ConnectionField(d))
  {
    VisibleNameIsClean("Connection");
    var value := W.ConnectionValue(if d.keepAlive then W.KeepAlive else W.Close);
    PlainValueIsClean(value);
    CleanOpt(!Has(d.req.headers, W.ConnectionName()), Ascii("Connection"), value);
  }

  lemma CookieFieldIsClean(d: Dispatch)
    requires CleanValue(CookieText(d.cookie))
    ensures CleanHeaders(CookieField(d))
  {
    FixedNamesAreClean();
    CleanOpt(CookieText(d.cookie) != [] && !Has(d.req.headers, CookieName()), CookieName(), CookieText(d.cookie));
  }

  lemma GroupIsClean(a: seq<Pair>, b: seq<Pair>, c: seq<Pair>)
    requires CleanHeaders(a) && CleanHeaders(b) && CleanHeaders(c)
    ensures CleanHeaders(Grouped(a, b, c))
  {
  }

  lemma SentIsClean(d: Dispatch)
    requires Clean(d)
    ensures CleanHeaders(Sent(d))
  {
    HostFieldIsClean(d.req);
    AgentFieldIsClean(d.req);
    EncodingFieldIsClean(d.req);
    LengthFieldIsClean(d.req);
    ConnectionFieldIsClean(d);
    CookieFieldIsClean(d);
    var front := Grouped(HostField(d.req), AgentField(d.req), EncodingField(d.req));
    var back := Grouped(LengthField(d.req), ConnectionField(d), CookieField(d));
    GroupIsClean(HostField(d.req), AgentField(d.req), EncodingField(d.req));
    GroupIsClean(LengthField(d.req), ConnectionField(d), CookieField(d));
    GroupIsClean(front, d.req.headers, back);
  }

  lemma HeaderLineIsPlain(p: Pair)
    requires CleanHeader(p)
    ensures HeaderLine(p) != [] && OneLine(HeaderLine(p)) && Utf8(HeaderLine(p))
  {
    AsciiIsUtf8(p.name);
    AsciiIsUtf8([COLON, SPACE]);
    Utf8Concat(p.name, [COLON, SPACE]);
    Utf8Concat(p.name + [COLON, SPACE], p.value);
  }

  lemma LinesArePlain(line: Bytes, headers: seq<Pair>)
    requires line != [] && OneLine(line) && Utf8(line) && CleanHeaders(headers)
    ensures var lines := [line] + HeaderLines(headers); Plain(lines) && Utf8(Wire(lines) + CRLF)
  {
    var lines := [line] + HeaderLines(headers);
    forall i | 0 <= i < |lines| ensures lines[i] != [] && OneLine(lines[i]) && Utf8(lines[i]) {
      if i > 0 { HeaderLineIsPlain(headers[i - 1]); }
    }
    WireIsUtf8(lines);
    AsciiIsUtf8(CRLF);
    Utf8Concat(Wire(lines), CRLF);
  }

  lemma RequestLineIsPlain(verb: Bytes, target: Bytes, version: Bytes)
    requires verb != [] && OneLine(verb) && IsAscii(verb) && OneLine(target) && Utf8(target) && OneLine(version) &&
      IsAscii(version)
    ensures var line := verb + [SPACE] + (target + [SPACE] + version); line != [] && OneLine(line) && Utf8(line)
  {
    AsciiIsUtf8(verb + [SPACE]);
    AsciiIsUtf8([SPACE]);
    AsciiIsUtf8(version);
    Utf8Concat(target, [SPACE]);
    Utf8Concat(target + [SPACE], version);
    Utf8Concat(verb + [SPACE], target + [SPACE] + version);
  }

  // ---- One request -----------------------------------------------------------

  lemma DecodeIsRead(head: Bytes, line: Bytes, lines: seq<Bytes>, r: P.RequestLine, headers: seq<Pair>)
    requires Utf8(head) && P.Lines(head) == [line] + lines
    requires P.ParseRequestLine(Trim(line)) == Ok(r) && P.HeaderPairs(lines) == headers
    ensures P.DecodeHead(head) == Ok(P.Request(r.verb, r.path, r.version, r.query, headers, []))
  {
    assert ([line] + lines)[1..] == lines;
  }

  /** A head of plain lines is found where it ends. */
  lemma BlockIsFound(lines: seq<Bytes>, body: Bytes)
    requires Plain(lines)
    ensures P.FindHead(Wire(lines) + CRLF + body) == Some(P.HeadEnd(|Wire(lines) + CRLF|, |lines|))
  {
    HeadIsFound(lines, body);
    assert Wire(lines) + (CRLF + body) == Wire(lines) + CRLF + body;
  }

  /** It is decoded as its request line and its headers. */
  lemma BlockIsDecoded(line: Bytes, headers: seq<Pair>, r: P.RequestLine)
    requires ReadsAs(line, r) && CleanHeaders(headers)
    ensures P.DecodeHead(Wire([line] + HeaderLines(headers)) + CRLF) ==
            Ok(P.Request(r.verb, r.path, r.version, r.query, LowerNames(headers), []))
  {
    var lines := [line] + HeaderLines(headers);
    HeadersAreRead(headers);
    LinesArePlain(line, headers);
    LinesAreCut(lines);
    FirstLineIsCut(line, HeaderLines(headers));
    DecodeIsRead(Wire(lines) + CRLF, line + [CR], WithCR(HeaderLines(headers)) + [[CR]], r, LowerNames(headers));
  }

  lemma LineReadsBack(req: Outbound)
    requires OneLine(req.url.target) && SPACE !in req.url.target && Utf8(req.url.target)
    ensures ReadsAs(RequestLineOf(req), ReceivedLine(req))
  {
    VerbIsPlain(req.verb);
    VersionIsRead();
    RequestLineIsPlain(VerbOf(req.verb), req.url.target, W.VersionText());
    RequestLineIsRead(VerbOf(req.verb), req.url.target, W.VersionText());
  }

  /** A plain line that is read as `r`. */
  predicate ReadsAs(line: Bytes, r: P.RequestLine) {
    line != [] && OneLine(line) && Utf8(line) && P.ParseRequestLine(Trim(line + [CR])) == Ok(r)
  }

  lemma BlockIsDelimited(line: Bytes, headers: seq<Pair>, body: Bytes)
    requires line != [] && OneLine(line) && Utf8(line) && CleanHeaders(headers)
    ensures var head := Wire([line] + HeaderLines(headers)) + CRLF;
            P.FindHead(head + body) == Some(P.HeadEnd(|head|, |headers| + 1))
  {
    LinesArePlain(line, headers);
    BlockIsFound([line] + HeaderLines(headers), body);
  }

  lemma FirstLineIsCut(line: Bytes, lines: seq<Bytes>)
    ensures WithCR([line] + lines) + [[CR]] == [line + [CR]] + (WithCR(lines) + [[CR]])
  {
    assert ([line] + lines)[1..] == lines;
  }

  /** Any head of plain lines and a body: both come back exactly within the caps and with the right length. */
  lemma MessageReadsBack(line: Bytes, headers: seq<Pair>, body: Bytes, r: P.RequestLine)
    requires ReadsAs(line, r) && CleanHeaders(headers)
    ensures var head := Wire([line] + HeaderLines(headers)) + CRLF;
            var request := P.Request(r.verb, r.path, r.version, r.query, LowerNames(headers), body);
            P.ParseBytes(head + body) == P.Complete(request, |head + body|) <==>
            && |head| <= P.MAX_HEAD_BYTES && |body| <= P.MAX_BODY_BYTES
            && P.ContentLength(LowerNames(headers)) == |body|
  {
    var head := Wire([line] + HeaderLines(headers)) + CRLF;
    var request := P.Request(r.verb, r.path, r.version, r.query, LowerNames(headers), body);
    BlockIsDecoded(line, headers, r);
    BlockIsDelimited(line, headers, body);
    ParseIsWithBody(head + body, head, body, request, P.ContentLength(LowerNames(headers)));
  }

  lemma CleanIsPlain(d: Dispatch)
    requires Clean(d)
    ensures ReadsAs(RequestLineOf(d.req), ReceivedLine(d.req)) && CleanHeaders(Sent(d))
  {
    LineReadsBack(d.req);
    SentIsClean(d);
  }

  /**
   A clean request is parsed by the server to the same method, path, query, headers and
   body, consuming every byte, exactly when it is within the size caps and the length its
   caller declared, if any, is that of its body.
   */
  lemma RequestReadsBack(d: Dispatch)
    requires Clean(d) && |d.req.body| <= USIZE_MAX
    ensures P.ParseBytes(BytesOf(d)) == P.Complete(Received(d), |BytesOf(d)|) <==>
            |HeadOf(d)| <= P.MAX_HEAD_BYTES && |d.req.body| <= P.MAX_BODY_BYTES && Declared(d.req) == |d.req.body|
  {
    CleanIsPlain(d);
    LengthIsRead(d);
    MessageReadsBack(RequestLineOf(d.req), Sent(d), d.req.body, ReceivedLine(d.req));
  }

  lemma ParseIsWithBody(buf: Bytes, head: Bytes, body: Bytes, r: P.Request, len: nat)
    requires buf == head + body && r.body == body && P.ContentLength(r.headers) == len
    requires P.FindHead(buf).Some? && P.FindHead(buf).value.length == |head|
    requires P.DecodeHead(head) == Ok(r.(body := []))
    ensures P.ParseBytes(buf) == P.Complete(r, |buf|) <==>
            |head| <= P.MAX_HEAD_BYTES && |body| <= P.MAX_BODY_BYTES && len == |body|
  {
    assert buf[..|head|] == head;
    BodyIsTaken(buf, head, body, r, len);
  }

  lemma BodyIsTaken(buf: Bytes, head: Bytes, body: Bytes, r: P.Request, len: nat)
    requires buf == head + body && r.body == body && head != []
    ensures P.WithBody(buf, |head|, r.(body := []), len) == P.Complete(r, |buf|) <==>
      |body| <= P.MAX_BODY_BYTES && len == |body|
  {
    var n := |head|;
    if len == |body| { assert buf[n..n + len] == body; }
  }

  // ---- Pipelines -------------------------------------------------------------

  /** Requests that the server reads back one by one. */
  predicate Fits(d: Dispatch) {
    && Clean(d)
    && |HeadOf(d)| <= P.MAX_HEAD_BYTES && |d.req.body| <= P.MAX_BODY_BYTES && Declared(d.req) == |d.req.body|
  }

  function AllBytes(ds: seq<Dispatch>): (r: seq<Bytes>)
    ensures |r| == |ds| && forall i :: 0 <= i < |ds| ==> r[i] == BytesOf(ds[i])
  {
    seq(|ds|, i requires 0 <= i < |ds| => BytesOf(ds[i]))
  }

  function AllReceived(ds: seq<Dispatch>): (r: seq<P.Request>)
    ensures |r| == |ds| && forall i :: 0 <= i < |ds| ==> r[i] == Received(ds[i])
  {
    seq(|ds|, i requires 0 <= i < |ds| => Received(ds[i]))
  }

  lemma FittingReadsBack(d: Dispatch)
    requires Fits(d)
    ensures P.ParseBytes(BytesOf(d)) == P.Complete(Received(d), |BytesOf(d)|)
  {
    RequestReadsBack(d);
  }

  /** Requests sent one after the other are received one after the other, however their bytes arrive. */
  lemma PipelineReadsBack(ds: seq<Dispatch>, pieces: seq<Bytes>)
    requires forall i :: 0 <= i < |ds| ==> Fits(ds[i])
    requires pieces != [] && Concat(pieces) == Concat(AllBytes(ds))
    ensures Q.Progresses(P.ParseBytes)
    ensures Q.Feed(P.ParseBytes, [], pieces) == Q.Drained(AllReceived(ds), Q.Waiting([]))
  {
    Q.RequestParserStands();
    forall i | 0 <= i < |ds|
      ensures P.ParseBytes(AllBytes(ds)[i]) == P.Complete(AllReceived(ds)[i], |AllBytes(ds)[i]|) {
      FittingReadsBack(ds[i]);
    }
    Q.DrainIsSequence(P.ParseBytes, AllBytes(ds), AllReceived(ds));
    Q.FeedIsDrain(P.ParseBytes, [], pieces);
    assert [] + Concat(pieces) == Concat(pieces);
  }

  // ---- Query strings ---------------------------------------------------------

  predicate CleanParam(p: Pair) {
    p.name != [] && P.EQUALS_SIGN !in p.name && P.AMPERSAND !in p.name && P.AMPERSAND !in p.value
  }

  function ParamTexts(params: seq<Pair>): (r: seq<Bytes>)
    ensures |r| == |params|
  {
    if params == [] then [] else [params[0].name + [P.EQUALS_SIGN] + params[0].value] + ParamTexts(params[1..])
  }

  /** `path?a=1&b=2`. */
  function TargetOf(path: Bytes, params: seq<Pair>): Bytes {
    path + [P.QUESTION] + Join(ParamTexts(params), P.AMPERSAND)
  }

  lemma ParamIsRead(p: Pair)
    requires CleanParam(p)
    ensures P.QueryPair(p.name + [P.EQUALS_SIGN] + p.value) == [p]
  {
    var text := p.name + [P.EQUALS_SIGN] + p.value;
    BeforeStops(p.name, P.EQUALS_SIGN, p.value);
    assert text[|p.name| + 1..] == p.value;
  }

  lemma {:induction false} ParamsAreRead(params: seq<Pair>)
    requires forall i :: 0 <= i < |params| ==> CleanParam(params[i])
    ensures P.QueryPairs(ParamTexts(params)) == params
    ensures forall i :: 0 <= i < |params| ==> P.AMPERSAND !in ParamTexts(params)[i]
    decreases |params|
  {
    if params != [] {
      ParamIsRead(params[0]);
      ParamsAreRead(params[1..]);
      var texts := ParamTexts(params);
      assert texts[1..] == ParamTexts(params[1..]);
      assert params == [params[0]] + params[1..];
    }
  }

  /** The path and the parameters of a request target come back as they went in. */
  lemma TargetReadsBack(path: Bytes, params: seq<Pair>)
    requires P.QUESTION !in path && params != [] && forall i :: 0 <= i < |params| ==> CleanParam(params[i])
    ensures Before(TargetOf(path, params), P.QUESTION) == path
    ensures P.ParseQuery(P.Beyond(TargetOf(path, params), P.QUESTION)) == params
  {
    var texts := ParamTexts(params);
    var query := Join(texts, P.AMPERSAND);
    BeforeStops(path, P.QUESTION, query);
    assert TargetOf(path, params)[|path| + 1..] == query;
    ParamsAreRead(params);
    SplitOfJoin(texts, P.AMPERSAND);
  }
}
