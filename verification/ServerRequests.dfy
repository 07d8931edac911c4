/**
 Requests from any client, from their bytes (crates/kernway-http/src/parser.rs:84-237): the
 verb in any case, any version or none, header lines however spaced, and the length their
 headers declare.
 */
module ServerRequests {
  import opened Common
  import opened Text
  import opened Fields
  import opened HttpWire
  import P = HttpParser
  import R = RequestRoundTrip

  // ---- The request line ------------------------------------------------------

  const VERSION_1_0: Bytes := [72, 84, 84, 80, 47, 49, 46, 48]  // HTTP/1.0

  predicate Visible(s: Bytes) {
    s != [] && forall i :: 0 <= i < |s| ==> Between(s[i], 33, 126)
  }

  predicate TargetOk(target: Bytes) {
    OneLine(target) && SPACE !in target && Utf8(target)
  }

  function Capital(b: byte): byte {
    if 97 <= b <= 122 then b - 32 else b
  }

  /** The verb as it is stored. */
  predicate InCapitals(stored: Bytes, verb: Bytes) {
    |stored| == |verb| && forall i :: 0 <= i < |verb| ==> stored[i] == Capital(verb[i])
  }

  /** The line says what is read: the verb in capitals, the target cut in two, and the version. */
  predicate LineSays(r: P.RequestLine, verb: Bytes, target: Bytes, version: P.Version) {
    && InCapitals(r.verb, verb) && r.path == Before(target, P.QUESTION)
    && r.query == P.ParseQuery(P.Beyond(target, P.QUESTION)) && r.version == version
  }

  lemma VersionIs()
    ensures P.HTTP10() == VERSION_1_0
  {
  }

  lemma VisibleIsOneLine(s: Bytes)
    requires Visible(s)
    ensures OneLine(s) && SPACE !in s && IsAscii(s) && Utf8(s) && Trim(s) == s
  {
    AsciiIsUtf8(s);
    VisibleStart(s);
    VisibleEnd(s);
  }

  lemma LineIsCut(verb: Bytes, target: Bytes, version: Bytes)
    requires Visible(verb) && SPACE !in target && Trim(version) == version
    ensures var r := P.ParseRequestLine(verb + [SPACE] + (target + [SPACE] + version));
            r.Ok? && LineSays(r.value, verb, target, if version == VERSION_1_0 then P.Http10 else P.Http11)
  {
    var rest := target + [SPACE] + version;
    VisibleIsOneLine(verb);
    VersionIs();
    BeforeStops(verb, SPACE, rest);
    assert (verb + [SPACE] + rest)[|verb| + 1..] == rest;
    BeforeStops(target, SPACE, version);
    assert rest[|target| + 1..] == version;
  }

  lemma ShortLineIsCut(verb: Bytes, target: Bytes)
    requires Visible(verb) && SPACE !in target
    ensures var r := P.ParseRequestLine(verb + [SPACE] + target);
            r.Ok? && LineSays(r.value, verb, target, P.Http10)
  {
    VisibleIsOneLine(verb);
    BeforeStops(verb, SPACE, target);
    assert (verb + [SPACE] + target)[|verb| + 1..] == target;
    assert target + [] == target;
    BeforeStops(target, SPACE, []);
  }

  function LineText(verb: Bytes, target: Bytes, version: Option<Bytes>): Bytes {
    if version.None? then verb + [SPACE] + target else verb + [SPACE] + (target + [SPACE] + version.value)
  }

  predicate LineOk(verb: Bytes, target: Bytes, version: Option<Bytes>) {
    Visible(verb) && TargetOk(target) &&
    if version.None? then target != [] && Between(target[|target| - 1], 33, 126) else Visible(version.value)
  }

  function VersionIn(version: Option<Bytes>): P.Version {
    if version.None? || version.value == VERSION_1_0 then P.Http10 else P.Http11
  }

  /** A text for a line: one line of UTF-8. */
  predicate Linear(s: Bytes) {
    OneLine(s) && Utf8(s)
  }

  lemma BothLinear(a: Bytes, b: Bytes)
    requires Linear(a) && Linear(b)
    ensures Linear(a + b)
  {
    Utf8Concat(a, b);
  }

  lemma LineIsLinear(verb: Bytes, target: Bytes, version: Option<Bytes>)
    requires LineOk(verb, target, version)
    ensures Linear(LineText(verb, target, version))
  {
    VisibleIsOneLine(verb);
    AsciiIsUtf8([SPACE]);
    BothLinear(verb, [SPACE]);
    if version.None? {
      BothLinear(verb + [SPACE], target);
    } else {
      VisibleIsOneLine(version.value);
      BothLinear(target, [SPACE]);
      BothLinear(target + [SPACE], version.value);
      BothLinear(verb + [SPACE], target + [SPACE] + version.value);
    }
  }

  lemma LineEdges(verb: Bytes, target: Bytes, version: Option<Bytes>)
    requires LineOk(verb, target, version)
    ensures var line := LineText(verb, target, version); line != [] && Trim(line + [CR]) == line
  {
    var line := LineText(verb, target, version);
    assert line[0] == verb[0];
    assert line[|line| - 1] == if version.None? then target[|target| - 1] else version.value[|version.value| - 1];
    R.VisibleIsTrimmed(line);
  }

  /** A request line is read as its verb, target and version: 1.0 if that is what it says or it says none. */
  lemma LineIsRead(verb: Bytes, target: Bytes, version: Option<Bytes>) returns (r: P.RequestLine)
    requires LineOk(verb, target, version)
    ensures LineSays(r, verb, target, VersionIn(version)) && R.ReadsAs(LineText(verb, target, version), r)
  {
    LineIsLinear(verb, target, version);
    LineEdges(verb, target, version);
    if version.None? {
      ShortLineIsCut(verb, target);
    } else {
      VisibleIsOneLine(version.value);
      LineIsCut(verb, target, version.value);
    }
    r := P.ParseRequestLine(LineText(verb, target, version)).value;
  }

  // ---- Header lines ----------------------------------------------------------

  /** Spaces and tabs. */
  predicate Gap(s: Bytes) {
    forall i :: 0 <= i < |s| ==> s[i] == 32 || s[i] == 9
  }

  /** A header line: a name, a colon, and a value, with any gaps around the two. */
  datatype Line = Line(name: Bytes, before: Bytes, between: Bytes, value: Bytes, after: Bytes)

  predicate HeaderOk(l: Line) {
    && Visible(l.name) && COLON !in l.name && R.CleanValue(l.value)
    && Gap(l.before) && Gap(l.between) && Gap(l.after)
  }

  function HeaderText(l: Line): Bytes {
    l.name + l.before + [COLON] + (l.between + l.value + l.after)
  }

  lemma {:induction false} GapAtStart(gap: Bytes, s: Bytes)
    requires Gap(gap)
    ensures TrimStart(gap + s) == TrimStart(s)
  {
    if gap == [] {
      assert gap + s == s;
    } else {
      GapAtStart(gap[1..], s);
      assert (gap + s)[1..] == gap[1..] + s;
    }
  }

  lemma AllButLast(s: Bytes, gap: Bytes)
    requires gap != []
    ensures (s + gap)[..|s + gap| - 1] == s + gap[..|gap| - 1] && (s + gap)[|s + gap| - 1] == gap[|gap| - 1]
  {
  }

  lemma BlankEnd(s: Bytes)
    requires s != [] && (s[|s| - 1] == 32 || s[|s| - 1] == 9)
    ensures TrimEnd(s) == TrimEnd(s[..|s| - 1])
  {
  }

  lemma {:induction false} GapAtEnd(s: Bytes, gap: Bytes)
    requires Gap(gap)
    ensures TrimEnd(s + gap) == TrimEnd(s)
    decreases |gap|
  {
    if gap == [] {
      assert s + gap == s;
    } else {
      GapAtEnd(s, gap[..|gap| - 1]);
      AllButLast(s, gap);
      BlankEnd(s + gap);
    }
  }

  lemma NameIsTrimmed(name: Bytes, gap: Bytes)
    requires Visible(name) && Gap(gap)
    ensures Trim(name + gap) == name
  {
    VisibleStart(name + gap);
    GapAtEnd(name, gap);
    VisibleEnd(name);
  }

  lemma EndStays(front: Bytes, value: Bytes)
    requires |front| >= 2 && front[|front| - 1] < 0x80 && front[|front| - 2] < 0x80
    requires value != [] && SpaceAtEnd(value) == 0
    ensures TrimEnd(front + value) == front + value
  {
    var n := |front|;
    assert front == front[..n - 2] + [front[n - 2], front[n - 1]];
    R.EndStays(front[..n - 2], front[n - 2], front[n - 1], value);
    R.EndIsTrimmed(front + value);
  }

  /** A line trimmed at its end: without the gap behind an empty value. */
  lemma LineIsTrimmed(name: Bytes, between: Bytes, value: Bytes, after: Bytes)
    requires name != [] && name[|name| - 1] < 0x80 && Gap(between) && Gap(after) && R.CleanValue(value)
    ensures TrimEnd(name + [COLON] + (between + value + after)) ==
            name + [COLON] + if value == [] then [] else between + value
  {
    var bare := name + [COLON];
    assert bare + (between + value + after) == (bare + between + value) + after;
    GapAtEnd(bare + between + value, after);
    if value == [] {
      assert bare + between + value == bare + between;
      GapAtEnd(bare, between);
      VisibleEnd(bare);
      assert bare + [] == bare;
    } else {
      EndStays(bare + between, value);
      assert bare + between + value == bare + (between + value);
    }
  }

  lemma ValueIsTrimmed(between: Bytes, value: Bytes)
    requires Gap(between) && R.CleanValue(value)
    ensures Trim(if value == [] then [] else between + value) == value
  {
    GapAtStart(between, value);
    R.ValueIsTrimmed(value);
  }

  lemma HeaderIsSplit(name: Bytes, before: Bytes, rest: Bytes, value: Bytes)
    requires Visible(name) && COLON !in name && Gap(before) && Trim(rest) == value
    ensures P.HeaderPair(name + before + [COLON] + rest) == [Pair(LowerAll(name), value)]
  {
    BeforeStops(name + before, COLON, rest);
    assert (name + before + [COLON] + rest)[|name + before| + 1..] == rest;
    NameIsTrimmed(name, before);
  }

  lemma HeaderIsRead(l: Line)
    requires HeaderOk(l)
    ensures var t := Trim(HeaderText(l) + [CR]); t != [] && P.HeaderPair(t) == [Pair(LowerAll(l.name), l.value)]
  {
    var text := HeaderText(l);
    assert (text + [CR])[0] == l.name[0];
    VisibleStart(text + [CR]);
    R.DropsCR(text);
    LineIsTrimmed(l.name + l.before, l.between, l.value, l.after);
    ValueIsTrimmed(l.between, l.value);
    HeaderIsSplit(l.name, l.before, if l.value == [] then [] else l.between + l.value, l.value);
  }

  lemma GapIsLinear(gap: Bytes)
    requires Gap(gap)
    ensures Linear(gap)
  {
    AsciiIsUtf8(gap);
  }

  lemma HeaderIsLinear(l: Line)
    requires HeaderOk(l)
    ensures HeaderText(l) != [] && Linear(HeaderText(l))
  {
    VisibleIsOneLine(l.name);
    GapIsLinear(l.before);
    GapIsLinear(l.between);
    GapIsLinear(l.after);
    AsciiIsUtf8([COLON]);
    BothLinear(l.name, l.before);
    BothLinear(l.name + l.before, [COLON]);
    BothLinear(l.between, l.value);
    BothLinear(l.between + l.value, l.after);
    BothLinear(l.name + l.before + [COLON], l.between + l.value + l.after);
  }

  // ---- Whole requests --------------------------------------------------------

  function HeaderTexts(lines: seq<Line>): (r: seq<Bytes>)
    ensures |r| == |lines|
  {
    if lines == [] then [] else [HeaderText(lines[0])] + HeaderTexts(lines[1..])
  }

  function Pairs(lines: seq<Line>): (r: seq<Pair>)
    ensures |r| == |lines|
  {
    if lines == [] then [] else [Pair(LowerAll(lines[0].name), lines[0].value)] + Pairs(lines[1..])
  }

  predicate HeadersOk(lines: seq<Line>) {
    forall i :: 0 <= i < |lines| ==> HeaderOk(lines[i])
  }

  lemma {:induction false} HeadersAreRead(lines: seq<Line>)
    requires HeadersOk(lines)
    ensures P.HeaderPairs(R.WithCR(HeaderTexts(lines)) + [[CR]]) == Pairs(lines)
    decreases |lines|
  {
    var texts := HeaderTexts(lines);
    if lines == [] {
      R.BlankLineStops();
      assert R.WithCR(texts) + [[CR]] == [[CR]];
    } else {
      var others := R.WithCR(HeaderTexts(lines[1..])) + [[CR]];
      assert texts[1..] == HeaderTexts(lines[1..]);
      assert R.WithCR(texts) + [[CR]] == [HeaderText(lines[0]) + [CR]] + others;
      R.HeadersStep(HeaderText(lines[0]) + [CR], others);
      HeaderIsRead(lines[0]);
      HeadersAreRead(lines[1..]);
    }
  }

  lemma {:induction false} TextsArePlain(lines: seq<Line>)
    requires HeadersOk(lines)
    ensures Plain(HeaderTexts(lines))
    ensures forall i :: 0 <= i < |lines| ==> Utf8(HeaderTexts(lines)[i])
  {
    if lines != [] {
      HeaderIsLinear(lines[0]);
      TextsArePlain(lines[1..]);
    }
  }

  function HeadText(line: Bytes, lines: seq<Line>): Bytes {
    Wire([line] + HeaderTexts(lines)) + CRLF
  }

  lemma HeadIsPlain(line: Bytes, lines: seq<Line>)
    requires line != [] && OneLine(line) && Utf8(line) && HeadersOk(lines)
    ensures Plain([line] + HeaderTexts(lines)) && Utf8(HeadText(line, lines))
  {
    TextsArePlain(lines);
    WireIsUtf8([line] + HeaderTexts(lines));
    AsciiIsUtf8(CRLF);
    Utf8Concat(Wire([line] + HeaderTexts(lines)), CRLF);
  }

  lemma HeadIsDecoded(line: Bytes, lines: seq<Line>, r: P.RequestLine)
    requires R.ReadsAs(line, r) && HeadersOk(lines)
    ensures P.DecodeHead(HeadText(line, lines)) ==
            Ok(P.Request(r.verb, r.path, r.version, r.query, Pairs(lines), []))
  {
    HeadersAreRead(lines);
    HeadIsPlain(line, lines);
    R.LinesAreCut([line] + HeaderTexts(lines));
    R.FirstLineIsCut(line, HeaderTexts(lines));
    R.DecodeIsRead(HeadText(line, lines), line + [CR], R.WithCR(HeaderTexts(lines)) + [[CR]], r, Pairs(lines));
  }

  /**
   Any request with such a line and headers arrives as they say, with its body, exactly if it
   keeps to the two caps and its headers declare the length of its body.
   */
  lemma RequestIsRead(verb: Bytes, target: Bytes, version: Option<Bytes>, lines: seq<Line>, body: Bytes)
      returns (r: P.RequestLine)
    requires LineOk(verb, target, version) && HeadersOk(lines)
    ensures LineSays(r, verb, target, VersionIn(version))
    ensures var head := HeadText(LineText(verb, target, version), lines);
            P.ParseBytes(head + body) ==
            P.Complete(P.Request(r.verb, r.path, r.version, r.query, Pairs(lines), body), |head + body|) <==>
              && |head| <= P.MAX_HEAD_BYTES && |body| <= P.MAX_BODY_BYTES
              && P.ContentLength(Pairs(lines)) == |body|
  {
    var line := LineText(verb, target, version);
    r := LineIsRead(verb, target, version);
    var head := HeadText(line, lines);
    HeadIsDecoded(line, lines, r);
    HeadIsPlain(line, lines);
    R.BlockIsFound([line] + HeaderTexts(lines), body);
    R.ParseIsWithBody(head + body, head, body, P.Request(r.verb, r.path, r.version, r.query, Pairs(lines), body),
                      P.ContentLength(Pairs(lines)));
  }

  // ---- The declared length ---------------------------------------------------

  /** Header `i` is the last of that name, in any case. */
  ghost predicate LastNamed(headers: seq<Pair>, name: Bytes, i: nat) {
    && i < |headers| && SameIgnoringCase(headers[i].name, name)
    && forall j :: i < j < |headers| ==> !SameIgnoringCase(headers[j].name, name)
  }

  lemma {:induction false} LookupIsLast(headers: seq<Pair>, name: Bytes, i: nat)
    requires LastNamed(headers, name, i)
    ensures Lookup(true, headers, name) == Some(headers[i].value)
    decreases |headers|
  {
    if i < |headers| - 1 { LookupIsLast(headers[..|headers| - 1], name, i); }
  }

  lemma {:induction false} LookupOfNone(headers: seq<Pair>, name: Bytes)
    requires forall j :: 0 <= j < |headers| ==> !SameIgnoringCase(headers[j].name, name)
    ensures Lookup(true, headers, name) == None
    decreases |headers|
  {
    if headers != [] { LookupOfNone(headers[..|headers| - 1], name); }
  }

  /** The last `content-length` counts: its digits if they fit in 64 bits, and 0 for anything that is no number. */
  lemma LengthIsLast(headers: seq<Pair>, i: nat)
    requires LastNamed(headers, Ascii("content-length"), i)
    ensures forall n: nat :: n <= USIZE_MAX && headers[i].value == Digits(n) ==> P.ContentLength(headers) == n
    ensures ParseUnsigned(headers[i].value, 10, USIZE_MAX).None? ==> P.ContentLength(headers) == 0
  {
    LookupIsLast(headers, Ascii("content-length"), i);
    forall n: nat | n <= USIZE_MAX && headers[i].value == Digits(n) ensures P.ContentLength(headers) == n {
      DigitsParse(n, USIZE_MAX);
    }
  }

  /** Without one the length is 0. */
  lemma NoLengthIsZero(headers: seq<Pair>)
    requires forall j :: 0 <= j < |headers| ==> !SameIgnoringCase(headers[j].name, Ascii("content-length"))
    ensures P.ContentLength(headers) == 0
  {
    LookupOfNone(headers, Ascii("content-length"));
  }
}
