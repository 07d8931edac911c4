/**
 DNS messages (crates/kernway-dns/src/message.rs:61-102, 227-283): the query encoder and
 the response parser. `QuestionsAt` and `AnswersAt` say what it means for a buffer to
 spell a list of records; the parser accepts exactly the buffers that spell a message,
 and returns its address records.
 */
module DnsMessages {
  import opened Common
  import opened Text
  import opened DnsNames

  const TYPE_A: nat := 1
  const TYPE_AAAA: nat := 28
  const TYPE_OPT: nat := 41
  const CLASS_IN: nat := 1

  datatype Question = Question(name: Layout, qtype: nat, qclass: nat)

  datatype Answer = Answer(name: Layout, rtype: nat, class_: nat, ttl: nat, rdata: Bytes)

  datatype Address = V4(octets: Bytes, ttl: nat) | V6(octets: Bytes, ttl: nat)

  datatype Response = Response(id: nat, truncated: bool, rcode: nat, addresses: seq<Address>)

  // ---- What a buffer spells --------------------------------------------------

  predicate NameAt(buf: Bytes, pos: nat, l: Layout) {
    LaidOut(buf, pos, l) && WithinLimits(l)
  }

  predicate QuestionAt(buf: Bytes, pos: nat, q: Question) {
    var p := End(pos, q.name);
    NameAt(buf, pos, q.name) && ReadU16(buf, p) == Ok(q.qtype) && ReadU16(buf, p + 2) == Ok(q.qclass)
  }

  function QuestionEnd(pos: nat, q: Question): nat {
    End(pos, q.name) + 4
  }

  predicate AnswerAt(buf: Bytes, pos: nat, a: Answer) {
    NameAt(buf, pos, a.name) && RecordAt(buf, End(pos, a.name), a)
  }

  /** What stands behind an answer's name. */
  predicate RecordAt(buf: Bytes, p: nat, a: Answer) {
    && ReadU16(buf, p) == Ok(a.rtype) && ReadU16(buf, p + 2) == Ok(a.class_)
    && ReadU32(buf, p + 4) == Ok(a.ttl) && ReadU16(buf, p + 8) == Ok(|a.rdata|)
    && p + 10 + |a.rdata| <= |buf| && buf[p + 10..p + 10 + |a.rdata|] == a.rdata
  }

  function AnswerEnd(pos: nat, a: Answer): nat {
    End(pos, a.name) + 10 + |a.rdata|
  }

  predicate QuestionsAt(buf: Bytes, pos: nat, qs: seq<Question>)
    decreases |qs|
  {
    qs == [] || (QuestionAt(buf, pos, qs[0]) && QuestionsAt(buf, QuestionEnd(pos, qs[0]), qs[1..]))
  }

  function QuestionsEnd(pos: nat, qs: seq<Question>): nat
    decreases |qs|
  {
    if qs == [] then pos else QuestionsEnd(QuestionEnd(pos, qs[0]), qs[1..])
  }

  predicate AnswersAt(buf: Bytes, pos: nat, ans: seq<Answer>)
    decreases |ans|
  {
    ans == [] || (AnswerAt(buf, pos, ans[0]) && AnswersAt(buf, AnswerEnd(pos, ans[0]), ans[1..]))
  }

  /** The twelve header bytes. The counts of the two last sections are not looked at. */
  predicate HeaderAt(buf: Bytes, id: nat, flags: nat, questions: nat, answers: nat) {
    && |buf| >= 12 && ReadU16(buf, 0) == Ok(id) && ReadU16(buf, 2) == Ok(flags)
    && ReadU16(buf, 4) == Ok(questions) && ReadU16(buf, 6) == Ok(answers)
  }

  /** A message: header, questions, answers, and then anything. */
  predicate MessageAt(buf: Bytes, id: nat, flags: nat, qs: seq<Question>, ans: seq<Answer>) {
    && HeaderAt(buf, id, flags, |qs|, |ans|)
    && QuestionsAt(buf, 12, qs) && AnswersAt(buf, QuestionsEnd(12, qs), ans)
  }

  // ---- What a message says ---------------------------------------------------

  /** The address a record carries: four bytes under A, sixteen under AAAA, nothing otherwise. */
  function AddressOf(a: Answer): seq<Address> {
    if a.rtype == TYPE_A && |a.rdata| == 4 then [V4(a.rdata, a.ttl)]
    else if a.rtype == TYPE_AAAA && |a.rdata| == 16 then [V6(a.rdata, a.ttl)]
    else []
  }

  function AddressesOf(ans: seq<Answer>): seq<Address> {
    if ans == [] then [] else AddressOf(ans[0]) + AddressesOf(ans[1..])
  }

  function Meaning(id: nat, flags: nat, ans: seq<Answer>): Response {
    Response(id, flags / 512 % 2 == 1, flags % 16, AddressesOf(ans))
  }

  // ---- Parsing ---------------------------------------------------------------

  function ReadQuestion(buf: Bytes, pos: nat): Result<Question, DnsError> {
    match ReadName(buf, pos, 0, 0)
    case Err(e) => Err(e)
    case Ok(name) =>
      var p := End(pos, name);
      match ReadU16(buf, p)
      case Err(e) => Err(e)
      case Ok(qtype) =>
        match ReadU16(buf, p + 2)
        case Err(e) => Err(e)
        case Ok(qclass) => Ok(Question(name, qtype, qclass))
  }

  function ReadQuestions(buf: Bytes, pos: nat, n: nat): Result<seq<Question>, DnsError>
    decreases n
  {
    if n == 0 then Ok([])
    else
      match ReadQuestion(buf, pos)
      case Err(e) => Err(e)
      case Ok(q) =>
        match ReadQuestions(buf, QuestionEnd(pos, q), n - 1)
        case Err(e) => Err(e)
        case Ok(qs) => Ok([q] + qs)
  }

  function ReadAnswer(buf: Bytes, pos: nat): Result<Answer, DnsError> {
    match ReadName(buf, pos, 0, 0)
    case Err(e) => Err(e)
    case Ok(name) => ReadFields(buf, End(pos, name), name)
  }

  function ReadFields(buf: Bytes, p: nat, name: Layout): Result<Answer, DnsError> {
    var rtype, class_, ttl, rdlen := ReadU16(buf, p), ReadU16(buf, p + 2), ReadU32(buf, p + 4), ReadU16(buf, p + 8);
    if rtype.Err? then Err(rtype.error)
    else if class_.Err? then Err(class_.error)
    else if ttl.Err? then Err(ttl.error)
    else if rdlen.Err? then Err(rdlen.error)
    else if p + 10 + rdlen.value > |buf| then Err(Truncated)
    else Ok(Answer(name, rtype.value, class_.value, ttl.value, buf[p + 10..p + 10 + rdlen.value]))
  }

  function ReadAnswers(buf: Bytes, pos: nat, n: nat): Result<seq<Answer>, DnsError>
    decreases n
  {
    if n == 0 then Ok([])
    else
      match ReadAnswer(buf, pos)
      case Err(e) => Err(e)
      case Ok(a) =>
        match ReadAnswers(buf, AnswerEnd(pos, a), n - 1)
        case Err(e) => Err(e)
        case Ok(ans) => Ok([a] + ans)
  }

  function Parse(buf: Bytes): Result<Response, DnsError> {
    if |buf| < 12 then Err(Truncated)
    else
      var id, flags, qdcount, ancount :=
        ReadU16(buf, 0).value, ReadU16(buf, 2).value, ReadU16(buf, 4).value, ReadU16(buf, 6).value;
      match ReadQuestions(buf, 12, qdcount)
      case Err(e) => Err(e)
      case Ok(qs) =>
        match ReadAnswers(buf, QuestionsEnd(12, qs), ancount)
        case Err(e) => Err(e)
        case Ok(ans) => Ok(Meaning(id, flags, ans))
  }

  lemma QuestionIff(buf: Bytes, pos: nat, q: Question)
    ensures ReadQuestion(buf, pos) == Ok(q) <==> QuestionAt(buf, pos, q)
  {
    ReadIffLaidOut(buf, pos, q.name);
  }

  lemma {:induction false} QuestionsIff(buf: Bytes, pos: nat, qs: seq<Question>)
    ensures ReadQuestions(buf, pos, |qs|) == Ok(qs) <==> QuestionsAt(buf, pos, qs)
    decreases |qs|
  {
    if qs != [] {
      assert qs == [qs[0]] + qs[1..];
      QuestionIff(buf, pos, qs[0]);
      QuestionsIff(buf, QuestionEnd(pos, qs[0]), qs[1..]);
      if ReadQuestions(buf, pos, |qs|) == Ok(qs) {
        var q := ReadQuestion(buf, pos).value;
        assert qs[0] == q;
      }
    }
  }

  lemma AnswerIff(buf: Bytes, pos: nat, a: Answer)
    ensures ReadAnswer(buf, pos) == Ok(a) <==> AnswerAt(buf, pos, a)
  {
    ReadIffLaidOut(buf, pos, a.name);
    RecordIff(buf, End(pos, a.name), a);
    if ReadAnswer(buf, pos) == Ok(a) { NameIsKept(buf, pos); }
  }

  lemma RecordIff(buf: Bytes, p: nat, a: Answer)
    ensures ReadFields(buf, p, a.name) == Ok(a) <==> RecordAt(buf, p, a)
  {
  }

  lemma NameIsKept(buf: Bytes, pos: nat)
    requires ReadAnswer(buf, pos).Ok?
    ensures ReadName(buf, pos, 0, 0) == Ok(ReadAnswer(buf, pos).value.name)
  {
  }

  lemma AnswersStep(buf: Bytes, pos: nat, a: Answer, more: seq<Answer>)
    ensures ReadAnswers(buf, pos, 1 + |more|) == Ok([a] + more) <==>
            ReadAnswer(buf, pos) == Ok(a) && ReadAnswers(buf, AnswerEnd(pos, a), |more|) == Ok(more)
  {
    var first := ReadAnswer(buf, pos);
    if first.Ok? {
      var rest := ReadAnswers(buf, AnswerEnd(pos, first.value), |more|);
      if rest.Ok? && [first.value] + rest.value == [a] + more { SameFirst(first.value, rest.value, a, more); }
    }
  }

  lemma SameFirst<T>(a: T, s: seq<T>, b: T, t: seq<T>)
    requires [a] + s == [b] + t
    ensures a == b && s == t
  {
    assert ([a] + s)[0] == a && ([b] + t)[0] == b && ([a] + s)[1..] == s && ([b] + t)[1..] == t;
  }

  lemma {:induction false} AnswersIff(buf: Bytes, pos: nat, ans: seq<Answer>)
    ensures ReadAnswers(buf, pos, |ans|) == Ok(ans) <==> AnswersAt(buf, pos, ans)
    decreases |ans|
  {
    if ans != [] {
      assert ans == [ans[0]] + ans[1..];
      AnswerIff(buf, pos, ans[0]);
      AnswersStep(buf, pos, ans[0], ans[1..]);
      AnswersIff(buf, AnswerEnd(pos, ans[0]), ans[1..]);
    }
  }

  lemma {:induction false} QuestionCount(buf: Bytes, pos: nat, n: nat)
    requires ReadQuestions(buf, pos, n).Ok?
    ensures |ReadQuestions(buf, pos, n).value| == n
    decreases n
  {
    if n > 0 { QuestionCount(buf, QuestionEnd(pos, ReadQuestion(buf, pos).value), n - 1); }
  }

  lemma {:induction false} AnswerCount(buf: Bytes, pos: nat, n: nat)
    requires ReadAnswers(buf, pos, n).Ok?
    ensures |ReadAnswers(buf, pos, n).value| == n
    decreases n
  {
    if n > 0 { AnswerCount(buf, AnswerEnd(pos, ReadAnswer(buf, pos).value), n - 1); }
  }

  /** Every message, with names full or compressed, parses to exactly its A and AAAA records, in order. */
  lemma MessageParses(buf: Bytes, id: nat, flags: nat, qs: seq<Question>, ans: seq<Answer>)
    requires MessageAt(buf, id, flags, qs, ans)
    ensures Parse(buf) == Ok(Meaning(id, flags, ans))
  {
    QuestionsIff(buf, 12, qs);
    AnswersIff(buf, QuestionsEnd(12, qs), ans);
  }

  /** And nothing else parses. */
  lemma ParsedIsMessage(buf: Bytes) returns (id: nat, flags: nat, qs: seq<Question>, ans: seq<Answer>)
    requires Parse(buf).Ok?
    ensures MessageAt(buf, id, flags, qs, ans) && Parse(buf) == Ok(Meaning(id, flags, ans))
  {
    id, flags := ReadU16(buf, 0).value, ReadU16(buf, 2).value;
    var qdcount, ancount := ReadU16(buf, 4).value, ReadU16(buf, 6).value;
    qs := ReadQuestions(buf, 12, qdcount).value;
    ans := ReadAnswers(buf, QuestionsEnd(12, qs), ancount).value;
    QuestionCount(buf, 12, qdcount);
    AnswerCount(buf, QuestionsEnd(12, qs), ancount);
    QuestionsIff(buf, 12, qs);
    AnswersIff(buf, QuestionsEnd(12, qs), ans);
  }

  // ---- The parser as the source runs it --------------------------------------

  /** Where skipping `n` questions from `pos` ends. */
  function SkipTo(buf: Bytes, pos: nat, n: nat): Result<nat, DnsError> {
    match ReadQuestions(buf, pos, n)
    case Ok(qs) => Ok(QuestionsEnd(pos, qs))
    case Err(e) => Err(e)
  }

  lemma SkipStep(buf: Bytes, pos: nat, n: nat)
    requires n > 0
    ensures SkipTo(buf, pos, n) == match ReadQuestion(buf, pos)
                                   case Ok(q) => SkipTo(buf, QuestionEnd(pos, q), n - 1)
                                   case Err(e) => Err(e)
  {
    if ReadQuestion(buf, pos).Ok? {
      var q := ReadQuestion(buf, pos).value;
      var rest := ReadQuestions(buf, QuestionEnd(pos, q), n - 1);
      if rest.Ok? { assert ([q] + rest.value)[1..] == rest.value; }
    }
  }

  method SkipQuestion(r: Reader) returns (e: Result<(), DnsError>)
    modifies r
    ensures e == match ReadQuestion(r.buf, old(r.pos)) case Ok(_) => Ok(()) case Err(x) => Err(x)
    ensures e.Ok? ==> r.pos == QuestionEnd(old(r.pos), ReadQuestion(r.buf, old(r.pos)).value)
  {
    var name := r.Name();
    if name.Err? { return Err(name.error); }
    var qtype := r.U16();
    if qtype.Err? { return Err(qtype.error); }
    var qclass := r.U16();
    if qclass.Err? { return Err(qclass.error); }
    e := Ok(());
  }

  method SkipQuestions(r: Reader, n: nat) returns (e: Result<(), DnsError>)
    modifies r
    ensures e == match SkipTo(r.buf, old(r.pos), n) case Ok(_) => Ok(()) case Err(x) => Err(x)
    ensures e.Ok? ==> SkipTo(r.buf, old(r.pos), n) == Ok(r.pos)
  {
    for i := 0 to n
      invariant SkipTo(r.buf, r.pos, n - i) == SkipTo(r.buf, old(r.pos), n)
    {
      SkipStep(r.buf, r.pos, n - i);
      var skipped := SkipQuestion(r);
      if skipped.Err? { return Err(skipped.error); }
    }
    e := Ok(());
  }

  method ReadRecord(r: Reader) returns (e: Result<(nat, nat, Bytes), DnsError>)
    modifies r
    ensures e == match ReadAnswer(r.buf, old(r.pos))
                 case Ok(a) => Ok((a.rtype, a.ttl, a.rdata))
                 case Err(x) => Err(x)
    ensures e.Ok? ==> r.pos == AnswerEnd(old(r.pos), ReadAnswer(r.buf, old(r.pos)).value)
  {
    var name := r.Name();
    if name.Err? { return Err(name.error); }
    var rtype := r.U16();
    if rtype.Err? { return Err(rtype.error); }
    var class_ := r.U16();
    if class_.Err? { return Err(class_.error); }
    var ttl := r.U32();
    if ttl.Err? { return Err(ttl.error); }
    var rdlen := r.U16();
    if rdlen.Err? { return Err(rdlen.error); }
    var rdata := r.Take(rdlen.value);
    if rdata.Err? { return Err(rdata.error); }
    e := Ok((rtype.value, ttl.value, rdata.value));
  }

  /** The addresses found so far and those of the `n` answers still ahead. */
  function CollectFrom(found: seq<Address>, buf: Bytes, pos: nat, n: nat): Result<seq<Address>, DnsError> {
    match ReadAnswers(buf, pos, n)
    case Ok(ans) => Ok(found + AddressesOf(ans))
    case Err(e) => Err(e)
  }

  lemma CollectStep(found: seq<Address>, buf: Bytes, pos: nat, n: nat)
    requires n > 0
    ensures CollectFrom(found, buf, pos, n) == match ReadAnswer(buf, pos)
                                               case Ok(a) =>
                                                 CollectFrom(found + AddressOf(a), buf, AnswerEnd(pos, a), n - 1)
                                               case Err(e) => Err(e)
  {
    if ReadAnswer(buf, pos).Ok? {
      var a := ReadAnswer(buf, pos).value;
      var rest := ReadAnswers(buf, AnswerEnd(pos, a), n - 1);
      if rest.Ok? {
        assert ([a] + rest.value)[1..] == rest.value;
        assert found + (AddressOf(a) + AddressesOf(rest.value)) == found + AddressOf(a) + AddressesOf(rest.value);
      }
    }
  }

  method CollectAnswers(r: Reader, n: nat) returns (e: Result<seq<Address>, DnsError>)
    modifies r
    ensures e == CollectFrom([], r.buf, old(r.pos), n)
  {
    var addresses: seq<Address> := [];
    for i := 0 to n
      invariant CollectFrom(addresses, r.buf, r.pos, n - i) == CollectFrom([], r.buf, old(r.pos), n)
    {
      CollectStep(addresses, r.buf, r.pos, n - i);
      ghost var a, sofar := ReadAnswer(r.buf, r.pos), addresses;
      var record := ReadRecord(r);
      if record.Err? { return Err(record.error); }
      var (rtype, ttl, rdata) := record.value;
      if rtype == TYPE_A && |rdata| == 4 {
        addresses := addresses + [V4(rdata, ttl)];
      } else if rtype == TYPE_AAAA && |rdata| == 16 {
        addresses := addresses + [V6(rdata, ttl)];
      }
      assert addresses == sofar + AddressOf(a.value);
    }
    assert addresses + [] == addresses;
    e := Ok(addresses);
  }

  method ParseResponse(buf: Bytes) returns (e: Result<Response, DnsError>)
    ensures e == Parse(buf)
  {
    var r := new Reader(buf);
    var id := r.U16();
    if id.Err? { return Err(id.error); }
    var flags := r.U16();
    if flags.Err? { return Err(flags.error); }
    var qdcount := r.U16();
    if qdcount.Err? { return Err(qdcount.error); }
    var ancount := r.U16();
    if ancount.Err? { return Err(ancount.error); }
    var nscount := r.U16();
    if nscount.Err? { return Err(nscount.error); }
    var arcount := r.U16();
    if arcount.Err? { return Err(arcount.error); }
    var skipped := SkipQuestions(r, qdcount.value);
    if skipped.Err? { return Err(skipped.error); }
    var addresses := CollectAnswers(r, ancount.value);
    if addresses.Err? { return Err(addresses.error); }
    ghost var ans := ReadAnswers(buf, SkipTo(buf, 12, qdcount.value).value, ancount.value).value;
    assert [] + AddressesOf(ans) == AddressesOf(ans);
    e := Ok(Response(id.value, flags.value / 512 % 2 == 1, flags.value % 16, addresses.value));
  }

  // ---- Queries ---------------------------------------------------------------

  function Be16(n: nat): Bytes
    requires n < 65536
  {
    [n / 256, n % 256]
  }

  /** The OPT pseudo-record: root name, type, payload size as its class, no flags, no data. */
  function OptRecord(udp: nat): Bytes
    requires udp < 65536
  {
    [0] + Be16(TYPE_OPT) + Be16(udp) + [0, 0, 0, 0] + Be16(0)
  }

  function QueryHeader(id: nat, edns: bool): Bytes
    requires id < 65536
  {
    Be16(id) + Be16(0x0100) + Be16(1) + Be16(0) + Be16(0) + Be16(if edns then 1 else 0)
  }

  function Query(id: nat, name: Bytes, qtype: nat, edns: Option<nat>): Bytes
    requires id < 65536 && qtype < 65536 && (edns.Some? ==> edns.value < 65536) && Encodable(NameLabels(name))
  {
    QueryHeader(id, edns.Some?) + Wire(NameLabels(name)) + [0] + (Be16(qtype) + Be16(CLASS_IN) + Opt(edns))
  }

  function Opt(edns: Option<nat>): Bytes
    requires edns.Some? ==> edns.value < 65536
  {
    if edns.Some? then OptRecord(edns.value) else []
  }

  method EncodeQuery(id: nat, name: Bytes, qtype: nat, edns: Option<nat>) returns (r: Result<Bytes, DnsError>)
    requires id < 65536 && qtype < 65536 && (edns.Some? ==> edns.value < 65536)
    ensures r == if Encodable(NameLabels(name)) then Ok(Query(id, name, qtype, edns)) else Err(NameTooLong)
  {
    var buf := Be16(id);
    buf := buf + Be16(0x0100);
    buf := buf + Be16(1);
    buf := buf + Be16(0);
    buf := buf + Be16(0);
    buf := buf + Be16(if edns.Some? then 1 else 0);
    assert buf == QueryHeader(id, edns.Some?);
    var named;
    named, buf := EncodeName(buf, name);
    if named.Err? { return Err(named.error); }
    buf := EncodeQueryTail(buf, qtype, edns);
    r := Ok(buf);
  }

  method EncodeQueryTail(buf: Bytes, qtype: nat, edns: Option<nat>) returns (buf': Bytes)
    requires qtype < 65536 && (edns.Some? ==> edns.value < 65536)
    ensures buf' == buf + (Be16(qtype) + Be16(CLASS_IN) + Opt(edns))
  {
    buf' := buf + Be16(qtype);
    buf' := buf' + Be16(CLASS_IN);
    if edns.Some? {
      buf' := buf' + [0];
      buf' := buf' + Be16(TYPE_OPT);
      buf' := buf' + Be16(edns.value);
      buf' := buf' + [0, 0, 0, 0];
      buf' := buf' + Be16(0);
    }
  }

  lemma QueryHeaderAt(id: nat, edns: bool, after: Bytes)
    requires id < 65536
    ensures HeaderAt(QueryHeader(id, edns) + after, id, 0x0100, 1, 0)
  {
    var header := QueryHeader(id, edns);
    assert |header| == 12 && header[0] == id / 256 && header[1] == id % 256;
    assert header[2] == 1 && header[3] == 0 && header[4] == 0 && header[5] == 1 && header[6] == 0 && header[7] == 0;
    assert forall i :: 0 <= i < 12 ==> (header + after)[i] == header[i];
  }

  lemma WordIsRead(front: Bytes, n: nat, after: Bytes)
    requires n < 65536
    ensures ReadU16(front + Be16(n) + after, |front|) == Ok(n)
  {
    var buf := front + Be16(n) + after;
    assert buf[|front|] == Be16(n)[0] && buf[|front| + 1] == Be16(n)[1];
  }

  lemma TwoWordsAreRead(front: Bytes, a: nat, b: nat, after: Bytes)
    requires a < 65536 && b < 65536
    ensures var buf := front + (Be16(a) + Be16(b) + after);
            ReadU16(buf, |front|) == Ok(a) && ReadU16(buf, |front| + 2) == Ok(b)
  {
    WordIsRead(front, a, Be16(b) + after);
    WordIsRead(front + Be16(a), b, after);
    TwoBehind(front, Be16(a), Be16(b), after);
  }

  lemma TwoBehind(front: Bytes, x: Bytes, y: Bytes, after: Bytes)
    ensures front + x + (y + after) == front + (x + y + after) == front + x + y + after
  {
  }

  lemma QueryQuestionAt(header: Bytes, labels: seq<Bytes>, qtype: nat, after: Bytes)
    requires qtype < 65536 && Encodable(labels)
    ensures QuestionAt(header + Wire(labels) + [0] + (Be16(qtype) + Be16(CLASS_IN) + after), |header|,
                       Question(Plain(labels), qtype, CLASS_IN))
  {
    var tail := Be16(qtype) + Be16(CLASS_IN) + after;
    LabelsRoundTrip(header, labels, tail);
    TwoWordsAreRead(header + Wire(labels) + [0], qtype, CLASS_IN, after);
    QuestionIff(header + Wire(labels) + [0] + tail, |header|, Question(Plain(labels), qtype, CLASS_IN));
  }

  /** A query, with or without EDNS, reads back as one question for the encoded name and no addresses. */
  lemma QueryRoundTrip(id: nat, name: Bytes, qtype: nat, edns: Option<nat>)
    requires id < 65536 && qtype < 65536 && (edns.Some? ==> edns.value < 65536) && Encodable(NameLabels(name))
    ensures MessageAt(Query(id, name, qtype, edns), id, 0x0100, [Question(Plain(NameLabels(name)), qtype, CLASS_IN)],
      [])
    ensures Parse(Query(id, name, qtype, edns)) == Ok(Response(id, false, 0, []))
  {
    var labels, header := NameLabels(name), QueryHeader(id, edns.Some?);
    var tail := Be16(qtype) + Be16(CLASS_IN) + Opt(edns);
    var buf := header + Wire(labels) + [0] + tail;
    assert buf == header + (Wire(labels) + [0] + tail);
    QueryHeaderAt(id, edns.Some?, Wire(labels) + [0] + tail);
    QueryQuestionAt(header, labels, qtype, Opt(edns));
    OneQuestion(buf, id, Question(Plain(labels), qtype, CLASS_IN));
  }

  lemma OneQuestion(buf: Bytes, id: nat, q: Question)
    requires HeaderAt(buf, id, 0x0100, 1, 0) && QuestionAt(buf, 12, q)
    ensures MessageAt(buf, id, 0x0100, [q], []) && Parse(buf) == Ok(Response(id, false, 0, []))
  {
    assert [q][1..] == [];
    assert QuestionsAt(buf, QuestionEnd(12, q), []);
    MessageParses(buf, id, 0x0100, [q], []);
  }

  // ---- The additional section ------------------------------------------------

  lemma OptIsRead(front: Bytes, udp: nat)
    requires udp < 65536
    ensures var buf := front + OptRecord(udp);
            AnswerAt(buf, |front|, Answer(Root, 41, udp, 0, [])) && |front| + 11 == |buf|
  {
    var opt := OptRecord(udp);
    var buf := front + opt;
    assert opt == [0, 0, 41, udp / 256, udp % 256, 0, 0, 0, 0, 0, 0];
    assert forall i :: 0 <= i < 11 ==> buf[|front| + i] == opt[i];
    assert buf[|front| + 11..|front| + 11] == [];
  }

  /** The bytes up to the end of the question. */
  function QueryFront(id: nat, name: Bytes, qtype: nat, edns: bool): Bytes
    requires id < 65536 && qtype < 65536 && Encodable(NameLabels(name))
  {
    QueryHeader(id, edns) + Wire(NameLabels(name)) + [0] + (Be16(qtype) + Be16(CLASS_IN))
  }

  lemma QueryShape(header: Bytes, wire: Bytes, words: Bytes, opt: Bytes)
    ensures header + wire + [0] + (words + opt) == header + wire + [0] + words + opt
    ensures header + wire + [0] + (words + opt) == header + (wire + [0] + (words + opt))
  {
  }

  lemma QueryEnds(id: nat, name: Bytes, qtype: nat, edns: Option<nat>)
    requires id < 65536 && qtype < 65536 && (edns.Some? ==> edns.value < 65536) && Encodable(NameLabels(name))
    ensures var buf, q := Query(id, name, qtype, edns), Question(Plain(NameLabels(name)), qtype, CLASS_IN);
            && buf == QueryFront(id, name, qtype, edns.Some?) + Opt(edns)
            && QuestionAt(buf, 12, q) && QuestionEnd(12, q) == |QueryFront(id, name, qtype, edns.Some?)|
  {
    var header, labels := QueryHeader(id, edns.Some?), NameLabels(name);
    QueryShape(header, Wire(labels), Be16(qtype) + Be16(CLASS_IN), Opt(edns));
    QueryQuestionAt(header, labels, qtype, Opt(edns));
    PlainIs(12, labels);
  }

  lemma HeaderIs(id: nat, edns: bool)
    requires id < 65536
    ensures QueryHeader(id, edns) == [id / 256, id % 256, 1, 0, 0, 1, 0, 0, 0, 0, 0, if edns then 1 else 0]
  {
  }

  /** The header as section 4.1.1 of RFC 1035 lays it out, high bytes first: recursion desired, one question. */
  lemma QueryStarts(id: nat, name: Bytes, qtype: nat, edns: Option<nat>)
    requires id < 65536 && qtype < 65536 && (edns.Some? ==> edns.value < 65536) && Encodable(NameLabels(name))
    ensures [id / 256, id % 256, 1, 0, 0, 1, 0, 0, 0, 0, 0, if edns.Some? then 1 else 0] <=
            Query(id, name, qtype, edns)
  {
    HeaderIs(id, edns.Some?);
    QueryShape(QueryHeader(id, edns.Some?), Wire(NameLabels(name)), Be16(qtype) + Be16(CLASS_IN), Opt(edns));
  }

  /**
   Behind the question of a query with EDNS stands, and ends the message, one record: the
   root, type 41, the payload size for its class, and nothing else.
   */
  lemma EdnsIsRead(id: nat, name: Bytes, qtype: nat, udp: nat)
    requires id < 65536 && qtype < 65536 && udp < 65536 && Encodable(NameLabels(name))
    ensures var buf, q := Query(id, name, qtype, Some(udp)), Question(Plain(NameLabels(name)), qtype, CLASS_IN);
            var opt := Answer(Root, 41, udp, 0, []);
            && QuestionAt(buf, 12, q) && ReadAnswer(buf, QuestionEnd(12, q)) == Ok(opt)
            && AnswerEnd(QuestionEnd(12, q), opt) == |buf|
  {
    var front := QueryFront(id, name, qtype, true);
    QueryEnds(id, name, qtype, Some(udp));
    OptIsRead(front, udp);
    AnswerIff(front + OptRecord(udp), |front|, Answer(Root, 41, udp, 0, []));
  }

  /** Without EDNS the message ends with its question. */
  lemma NoEdnsEnds(id: nat, name: Bytes, qtype: nat)
    requires id < 65536 && qtype < 65536 && Encodable(NameLabels(name))
    ensures var buf, q := Query(id, name, qtype, None), Question(Plain(NameLabels(name)), qtype, CLASS_IN);
            QuestionAt(buf, 12, q) && QuestionEnd(12, q) == |buf|
  {
    QueryEnds(id, name, qtype, None);
  }

  // ---- Numbers of the standard -----------------------------------------------

  predicate Bit(b: nat) {
    b <= 1
  }

  /**
   The flags of section 4.1.1 of RFC 1035, bit by bit: what is kept of them is the truncation
   bit and the code in the last four.
   */
  lemma FlagsAreRead(id: nat, qr: nat, opcode: nat, aa: nat, tc: nat, rd: nat, ra: nat, z: nat, rcode: nat,
                     ans: seq<Answer>)
    requires Bit(qr) && opcode < 16 && Bit(aa) && Bit(tc) && Bit(rd) && Bit(ra) && z < 8 && rcode < 16
    ensures var flags := 32768 * qr + 2048 * opcode + 1024 * aa + 512 * tc + 256 * rd + 128 * ra + 16 * z + rcode;
            var r := Meaning(id, flags, ans);
            r.id == id && r.truncated == (tc == 1) && r.rcode == rcode
  {
    var low := 256 * rd + 128 * ra + 16 * z + rcode;
    var high := 64 * qr + 4 * opcode + 2 * aa + tc;
    assert (512 * high + low) / 512 == high;
    assert low % 16 == rcode;
  }

  /** Type 1 carries four bytes and type 28 sixteen, with the time to live; nothing else is an address. */
  lemma RecordGives(a: Answer)
    ensures a.rtype == 1 && |a.rdata| == 4 ==> AddressOf(a) == [V4(a.rdata, a.ttl)]
    ensures a.rtype == 28 && |a.rdata| == 16 ==> AddressOf(a) == [V6(a.rdata, a.ttl)]
    ensures !(a.rtype == 1 && |a.rdata| == 4) && !(a.rtype == 28 && |a.rdata| == 16) ==> AddressOf(a) == []
  {
  }
}
