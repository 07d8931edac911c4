/**
 The headers a request arrives with (crates/kernway-http-client/src/lib.rs:1371-1422), said of
 the parsed request and of what the caller asked for, name by name.
 */
module RequestFields {
  import opened Common
  import opened Text
  import opened Fields
  import opened HttpWire
  import opened HttpRequests
  import opened RequestRoundTrip
  import W = HttpWriter
  import P = HttpParser

  const HOST: Bytes := [104, 111, 115, 116]
  const AGENT: Bytes := [117, 115, 101, 114, 45, 97, 103, 101, 110, 116]
  const ENCODINGS: Bytes := [97, 99, 99, 101, 112, 116, 45, 101, 110, 99, 111, 100, 105, 110, 103]
  const LENGTH: Bytes := [99, 111, 110, 116, 101, 110, 116, 45, 108, 101, 110, 103, 116, 104]
  const CONNECTION: Bytes := [99, 111, 110, 110, 101, 99, 116, 105, 111, 110]
  const COOKIE: Bytes := [99, 111, 111, 107, 105, 101]

  // ---- What should arrive ----------------------------------------------------

  /** The value of the caller's last header of that name, in any case. */
  function LastOf(headers: seq<Pair>, name: Bytes): Option<Bytes> {
    if headers == [] then None
    else if SameIgnoringCase(headers[|headers| - 1].name, name) then Some(headers[|headers| - 1].value)
    else LastOf(headers[..|headers| - 1], name)
  }

  /** 443 with TLS and 80 without. */
  predicate DefaultPort(url: Url) {
    url.port == if url.tls then 443 else 80
  }

  /** What the client adds under a name the caller has not used. */
  function Added(d: Dispatch, key: Bytes): Option<Bytes> {
    var url := d.req.url;
    if key == HOST then Some(if DefaultPort(url) then url.host else url.host + [COLON] + Digits(url.port))
    else if key == AGENT then Some(Ascii("kernway-http-client/0.1"))
    else if key == ENCODINGS then Some(Ascii("gzip, deflate, br"))
    else if key == LENGTH then (if d.req.body == [] then None else Some(Digits(|d.req.body|)))
    else if key == CONNECTION then Some(Ascii(if d.keepAlive then "keep-alive" else "close"))
    else if key == COOKIE then (if d.cookie == Some([]) then None else d.cookie)
    else None
  }

  /** What the server finds under a name, in any case: the caller's value, or what the client adds. */
  function Expected(d: Dispatch, name: Bytes): Option<Bytes> {
    var own := LastOf(d.req.headers, name);
    if own.Some? then own else Added(d, LowerAll(name))
  }

  function VerbText(m: Method): Bytes {
    match m
    case Get => [71, 69, 84]
    case Post => [80, 79, 83, 84]
    case Put => [80, 85, 84]
    case Patch => [80, 65, 84, 67, 72]
    case Delete => [68, 69, 76, 69, 84, 69]
    case Head => [72, 69, 65, 68]
  }

  // ---- The client's names ----------------------------------------------------

  lemma FrontNames()
    ensures LowerAll(HostName()) == HOST && LowerAll(AgentName()) == AGENT && LowerAll(EncodingName()) == ENCODINGS
  {
    assert Ascii("host") == HOST && Ascii("user-agent") == AGENT && Ascii("accept-encoding") == ENCODINGS;
  }

  lemma BackNames()
    ensures LowerAll(Ascii("Content-Length")) == LENGTH && LowerAll(Ascii("Connection")) == CONNECTION
    ensures LowerAll(CookieName()) == COOKIE
    ensures LowerAll(W.LengthName()) == LENGTH && LowerAll(W.ConnectionName()) == CONNECTION
  {
    assert Ascii("content-length") == LENGTH && Ascii("connection") == CONNECTION && Ascii("cookie") == COOKIE;
  }

  /** Whether the caller has used a name depends on its lowered form only. */
  lemma HasByKey(headers: seq<Pair>, a: Bytes, b: Bytes)
    requires LowerAll(a) == LowerAll(b)
    ensures Has(headers, a) <==> Has(headers, b)
  {
  }

  lemma {:induction false} LastIsLookup(headers: seq<Pair>, name: Bytes)
    ensures Lookup(true, LowerNames(headers), name) == LastOf(headers, name)
    decreases |headers|
  {
    if headers != [] {
      var front, last := headers[..|headers| - 1], headers[|headers| - 1];
      LastIsLookup(front, name);
      assert headers == front + [last];
      LowerNamesAppend(front, [last]);
      LookupAppend(LowerNames(front), [LowerPair(last)], name);
      LowerTwice(last.name);
      OneLookup(LowerPair(last), name);
    }
  }

  lemma OneLookup(p: Pair, name: Bytes)
    ensures Lookup(true, [p], name) == if SameIgnoringCase(p.name, name) then Some(p.value) else None
  {
    assert [p][..0] == [];
  }

  lemma HasIsLast(headers: seq<Pair>, name: Bytes)
    ensures Has(headers, name) <==> LastOf(headers, name).Some?
  {
    LastIsLookup(headers, name);
    HasIsLookup(headers, name);
  }

  // ---- One field after the other ---------------------------------------------

  function OrElse(a: Option<Bytes>, b: Option<Bytes>): Option<Bytes> {
    if a.Some? then a else b
  }

  lemma {:induction false} LastOfBoth(a: seq<Pair>, b: seq<Pair>, name: Bytes)
    ensures LastOf(a + b, name) == OrElse(LastOf(b, name), LastOf(a, name))
    decreases |b|
  {
    if b == [] {
      assert a + b == a;
    } else {
      LastOfBoth(a, b[..|b| - 1], name);
      assert (a + b)[..|a + b| - 1] == a + b[..|b| - 1];
    }
  }

  lemma LastOfGroup(a: seq<Pair>, b: seq<Pair>, c: seq<Pair>, name: Bytes)
    ensures LastOf(Grouped(a, b, c), name) == OrElse(LastOf(c, name), OrElse(LastOf(b, name), LastOf(a, name)))
  {
    LastOfBoth(a + b, c, name);
    LastOfBoth(a, b, name);
  }

  lemma LastOfOpt(present: bool, field: Bytes, value: Bytes, name: Bytes)
    ensures LastOf(Opt(present, field, value), name) ==
            if present && SameIgnoringCase(field, name) then Some(value) else None
  {
    if present { assert [Pair(field, value)][..0] == []; }
  }

  /** What one field says: what the client adds, if this is its name and the caller has not used it. */
  function Says(d: Dispatch, key: Bytes, name: Bytes): Option<Bytes> {
    if LowerAll(name) == key && LastOf(d.req.headers, name).None? then Added(d, key) else None
  }

  /** A field written unless the caller has used its name. */
  lemma FieldSays(d: Dispatch, field: Bytes, key: Bytes, value: Bytes, name: Bytes)
    requires LowerAll(field) == key && Added(d, key) == Some(value)
    ensures LastOf(Opt(!Has(d.req.headers, field), field, value), name) == Says(d, key, name)
  {
    LastOfOpt(!Has(d.req.headers, field), field, value, name);
    HasIsLast(d.req.headers, name);
    if LowerAll(field) == LowerAll(name) { HasByKey(d.req.headers, field, name); }
  }

  lemma KeysDiffer()
    ensures HOST != AGENT && HOST != ENCODINGS && HOST != LENGTH && HOST != CONNECTION && HOST != COOKIE
    ensures AGENT != ENCODINGS && AGENT != LENGTH && AGENT != CONNECTION && AGENT != COOKIE
    ensures ENCODINGS != LENGTH && ENCODINGS != CONNECTION && ENCODINGS != COOKIE
    ensures LENGTH != CONNECTION && LENGTH != COOKIE && CONNECTION != COOKIE
  {
    assert AGENT[0] != CONNECTION[0];
  }

  lemma HostSays(d: Dispatch, name: Bytes)
    ensures LastOf(HostField(d.req), name) == Says(d, HOST, name)
  {
    FrontNames();
    FieldSays(d, HostName(), HOST, HostValue(d.req.url), name);
  }

  lemma AgentSays(d: Dispatch, name: Bytes)
    ensures LastOf(AgentField(d.req), name) == Says(d, AGENT, name)
  {
    FrontNames();
    KeysDiffer();
    FieldSays(d, AgentName(), AGENT, AgentText(), name);
  }

  lemma EncodingSays(d: Dispatch, name: Bytes)
    ensures LastOf(EncodingField(d.req), name) == Says(d, ENCODINGS, name)
  {
    FrontNames();
    KeysDiffer();
    FieldSays(d, EncodingName(), ENCODINGS, EncodingsText(), name);
  }

  lemma ConnectionSays(d: Dispatch, name: Bytes)
    ensures LastOf(ConnectionField(d), name) == Says(d, CONNECTION, name)
  {
    var value := W.ConnectionValue(if d.keepAlive then W.KeepAlive else W.Close);
    BackNames();
    KeysDiffer();
    HasByKey(d.req.headers, W.ConnectionName(), Ascii("Connection"));
    FieldSays(d, Ascii("Connection"), CONNECTION, value, name);
  }

  lemma LengthSays(d: Dispatch, name: Bytes)
    ensures LastOf(LengthField(d.req), name) == Says(d, LENGTH, name)
  {
    BackNames();
    KeysDiffer();
    HasByKey(d.req.headers, W.LengthName(), Ascii("Content-Length"));
    if d.req.body != [] { FieldSays(d, Ascii("Content-Length"), LENGTH, Digits(|d.req.body|), name); }
  }

  lemma CookieSays(d: Dispatch, name: Bytes)
    ensures LastOf(CookieField(d), name) == Says(d, COOKIE, name)
  {
    BackNames();
    KeysDiffer();
    if CookieText(d.cookie) != [] { FieldSays(d, CookieName(), COOKIE, CookieText(d.cookie), name); }
  }

  /** Of the fields in a group only one can speak. */
  lemma OneSays(d: Dispatch, name: Bytes)
    ensures OrElse(Says(d, ENCODINGS, name), OrElse(Says(d, AGENT, name), Says(d, HOST, name))) ==
            if LowerAll(name) == HOST || LowerAll(name) == AGENT || LowerAll(name) == ENCODINGS
            then Says(d, LowerAll(name), name) else None
    ensures OrElse(Says(d, COOKIE, name), OrElse(Says(d, CONNECTION, name), Says(d, LENGTH, name))) ==
            if LowerAll(name) == LENGTH || LowerAll(name) == CONNECTION || LowerAll(name) == COOKIE
            then Says(d, LowerAll(name), name) else None
  {
    KeysDiffer();
  }

  lemma SentSays(d: Dispatch, name: Bytes)
    ensures LastOf(Sent(d), name) == Expected(d, name)
  {
    HostSays(d, name);
    AgentSays(d, name);
    EncodingSays(d, name);
    ConnectionSays(d, name);
    LengthSays(d, name);
    CookieSays(d, name);
    OneSays(d, name);
    var front := Grouped(HostField(d.req), AgentField(d.req), EncodingField(d.req));
    var back := Grouped(LengthField(d.req), ConnectionField(d), CookieField(d));
    LastOfGroup(HostField(d.req), AgentField(d.req), EncodingField(d.req), name);
    LastOfGroup(LengthField(d.req), ConnectionField(d), CookieField(d), name);
    LastOfGroup(front, d.req.headers, back, name);
    PartsSay(d, name, LastOf(front, name), LastOf(back, name));
  }

  lemma PartsSay(d: Dispatch, name: Bytes, front: Option<Bytes>, back: Option<Bytes>)
    requires front == if LowerAll(name) == HOST || LowerAll(name) == AGENT || LowerAll(name) == ENCODINGS
                      then Says(d, LowerAll(name), name) else None
    requires back == if LowerAll(name) == LENGTH || LowerAll(name) == CONNECTION || LowerAll(name) == COOKIE
                     then Says(d, LowerAll(name), name) else None
    ensures OrElse(back, OrElse(LastOf(d.req.headers, name), front)) == Expected(d, name)
  {
    KeysDiffer();
  }

  // ---- What arrives ----------------------------------------------------------

  function One(b: bool): nat {
    if b then 1 else 0
  }

  /** A header goes out under the key only if the caller has not used it. */
  predicate Adds(d: Dispatch, key: Bytes) {
    LastOf(d.req.headers, key).None? && Added(d, key).Some?
  }

  lemma MiddleIs(a: seq<Pair>, b: seq<Pair>, c: seq<Pair>, i: nat)
    requires i < |b|
    ensures LowerNames(Grouped(a, b, c))[|a| + i] == Pair(LowerAll(b[i].name), b[i].value)
  {
    assert Grouped(a, b, c)[|a| + i] == b[i];
    LowerNamesAt(Grouped(a, b, c), |a| + i);
  }

  /** The caller's headers arrive in a row, names lowered, in their order. */
  lemma CallersArrive(d: Dispatch) returns (at: nat)
    ensures at + |d.req.headers| <= |Received(d).headers|
    ensures forall i :: 0 <= i < |d.req.headers| ==>
              Received(d).headers[at + i] == Pair(LowerAll(d.req.headers[i].name), d.req.headers[i].value)
  {
    var front := Grouped(HostField(d.req), AgentField(d.req), EncodingField(d.req));
    var back := Grouped(LengthField(d.req), ConnectionField(d), CookieField(d));
    at := |front|;
    forall i | 0 <= i < |d.req.headers|
      ensures Received(d).headers[at + i] == Pair(LowerAll(d.req.headers[i].name), d.req.headers[i].value)
    {
      MiddleIs(front, d.req.headers, back, i);
    }
  }

  lemma HasKey(d: Dispatch, name: Bytes, key: Bytes)
    requires LowerAll(name) == key && LowerAll(key) == key
    ensures Has(d.req.headers, name) <==> LastOf(d.req.headers, key).Some?
  {
    HasByKey(d.req.headers, name, key);
    HasIsLast(d.req.headers, key);
  }

  lemma KeysAreLow()
    ensures LowerAll(HOST) == HOST && LowerAll(AGENT) == AGENT && LowerAll(ENCODINGS) == ENCODINGS
    ensures LowerAll(LENGTH) == LENGTH && LowerAll(CONNECTION) == CONNECTION && LowerAll(COOKIE) == COOKIE
  {
    FrontNames();
    BackNames();
    LowerTwice(HostName());
    LowerTwice(AgentName());
    LowerTwice(EncodingName());
    LowerTwice(Ascii("Content-Length"));
    LowerTwice(Ascii("Connection"));
    LowerTwice(CookieName());
  }

  lemma FrontCount(d: Dispatch)
    ensures |HostField(d.req)| == One(Adds(d, HOST)) && |AgentField(d.req)| == One(Adds(d, AGENT))
    ensures |EncodingField(d.req)| == One(Adds(d, ENCODINGS))
  {
    FrontNames();
    KeysAreLow();
    KeysDiffer();
    HasKey(d, HostName(), HOST);
    HasKey(d, AgentName(), AGENT);
    HasKey(d, EncodingName(), ENCODINGS);
  }

  lemma BackCount(d: Dispatch)
    ensures |LengthField(d.req)| == One(Adds(d, LENGTH)) && |ConnectionField(d)| == One(Adds(d, CONNECTION))
    ensures |CookieField(d)| == One(Adds(d, COOKIE))
  {
    BackNames();
    KeysAreLow();
    KeysDiffer();
    HasKey(d, W.LengthName(), LENGTH);
    HasKey(d, W.ConnectionName(), CONNECTION);
    HasKey(d, CookieName(), COOKIE);
  }

  /** Beside the caller's there is one header for each name the client adds, and no other. */
  lemma HeadersAreCounted(d: Dispatch)
    ensures |Received(d).headers| ==
            |d.req.headers| + One(Adds(d, HOST)) + One(Adds(d, AGENT)) + One(Adds(d, ENCODINGS)) +
            One(Adds(d, LENGTH)) + One(Adds(d, CONNECTION)) + One(Adds(d, COOKIE))
  {
    FrontCount(d);
    BackCount(d);
  }

  lemma VerbArrives(m: Method)
    ensures VerbOf(m) == VerbText(m)
  {
  }

  /**
   A request that the server takes in arrives with its method, body and version 1.1, and
   under every name just the value expected there.
   */
  lemma RequestArrives(d: Dispatch) returns (r: P.Request)
    requires Fits(d)
    ensures P.ParseBytes(BytesOf(d)) == P.Complete(r, |BytesOf(d)|)
    ensures r.verb == VerbText(d.req.verb) && r.body == d.req.body && r.version == P.Http11
    ensures forall name :: Lookup(true, r.headers, name) == Expected(d, name)
  {
    r := Received(d);
    FittingReadsBack(d);
    VerbArrives(d.req.verb);
    forall name ensures Lookup(true, r.headers, name) == Expected(d, name) {
      SentSays(d, name);
      LastIsLookup(Sent(d), name);
    }
  }
}
