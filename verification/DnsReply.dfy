/** From the wire to the log: which response, as it is sent, answers which query. */
module DnsReply {
  import opened Bytes
  import opened DnsName
  import opened DnsLog
  import opened DnsMessage
  import opened DnsExchange

  // ----- what the log is handed

  function Join(labels: seq<Label>): seq<byte> {
    if labels == [] then []
    else if |labels| == 1 then labels[0]
    else labels[0] + ['.' as int] + Join(labels[1..])
  }

  function Decimal(n: nat): (digits: seq<byte>)
    ensures |digits| >= 1 && forall d :: d in digits ==> 48 <= d <= 57
  {
    if n < 10 then [48 + n] else Decimal(n / 10) + [48 + n % 10]
  }

  const NAMED: seq<u16> := [1, 2, 5, 6, 12, 15, 16, 28, 33, 64, 65]

  function TypeName(t: u16): seq<byte> {
    match t
    case 1 => [0x41]  // "A"
    case 2 => [0x4e, 0x53]  // "NS"
    case 5 => [0x43, 0x4e, 0x41, 0x4d, 0x45]  // "CNAME"
    case 6 => [0x53, 0x4f, 0x41]  // "SOA"
    case 12 => [0x50, 0x54, 0x52]  // "PTR"
    case 15 => [0x4d, 0x58]  // "MX"
    case 16 => [0x54, 0x58, 0x54]  // "TXT"
    case 28 => [0x41, 0x41, 0x41, 0x41]  // "AAAA"
    case 33 => [0x53, 0x52, 0x56]  // "SRV"
    case 64 => [0x53, 0x56, 0x43, 0x42]  // "SVCB"
    case 65 => [0x48, 0x54, 0x54, 0x50, 0x53]  // "HTTPS"
    case _ => [0x54, 0x59, 0x50, 0x45] + Decimal(t)  // "TYPE" and the number
  }

  /** Where a message came from, where it went and over which transport. */
  datatype Path = Path(
    source: seq<byte>, destination: seq<byte>, sourcePort: u16, destinationPort: u16, protocol: seq<byte>)

  function ToLog(m: Parsed, path: Path, answer: Answer): Message {
    Message(m.isQuery, path.source, path.destination, path.sourcePort, path.destinationPort, m.transactionId,
            MapSeq(Lower, Join(m.labels)), TypeName(m.queryType), path.protocol, answer)
  }

  // ----- type names tell types apart

  lemma {:induction false} DecimalsDiffer(m: nat, n: nat)
    ensures Decimal(m) == Decimal(n) ==> m == n
    decreases m
  {
    var a, b := Decimal(m), Decimal(n);
    if a == b {
      assert a[|a| - 1] == b[|b| - 1];
      if m >= 10 && n >= 10 {
        assert a[..|a| - 1] == Decimal(m / 10) && b[..|b| - 1] == Decimal(n / 10);
        DecimalsDiffer(m / 10, n / 10);
      }
    }
  }

  /** No type name has a small letter, and only the generic ones start with TY. */
  lemma TypeNameShape(t: u16)
    ensures forall i :: 0 <= i < |TypeName(t)| ==> !(97 <= TypeName(t)[i] <= 122)
    ensures |TypeName(t)| >= 2 && TypeName(t)[0] == 0x54 && TypeName(t)[1] == 0x59 <==> t !in NAMED
  {
    var name := TypeName(t);
    if t !in NAMED {
      assert name[4..] == Decimal(t);
      forall i | 4 <= i < |name|
        ensures name[i] in Decimal(t)
      {
        assert name[i] == Decimal(t)[i - 4];
      }
    }
  }

  lemma NamedDiffer(t: u16, u: u16)
    requires t in NAMED && u in NAMED && TypeName(t) == TypeName(u)
    ensures t == u
  {
    var a, b := TypeName(t), TypeName(u);
    assert |a| == |b| && a[0] == b[0] && (|a| > 1 ==> a[1] == b[1]);
  }

  lemma TypesDiffer(t: u16, u: u16)
    ensures SameLetters(TypeName(t), TypeName(u)) <==> t == u
  {
    var a, b := TypeName(t), TypeName(u);
    TypeNameShape(t);
    TypeNameShape(u);
    if SameLetters(a, b) {
      assert a == b;
      if t in NAMED {
        NamedDiffer(t, u);
      } else {
        assert Decimal(t) == a[4..] && Decimal(u) == b[4..];
        DecimalsDiffer(t, u);
      }
    }
  }

  // ----- joined labels tell names apart

  /** The same labels but for the case of letters. */
  predicate SameNames(a: seq<Label>, b: seq<Label>) {
    |a| == |b| && forall i :: 0 <= i < |a| ==> SameLetters(a[i], b[i])
  }

  predicate Dotless(labels: seq<Label>) {
    forall l :: l in labels ==> 46 !in l
  }

  lemma LettersApart(a: seq<byte>, b: seq<byte>, c: seq<byte>, d: seq<byte>)
    requires |a| == |c|
    ensures SameLetters(a + b, c + d) <==> SameLetters(a, c) && SameLetters(b, d)
  {
    var s, t := a + b, c + d;
    assert forall i :: 0 <= i < |a| ==> s[i] == a[i] && t[i] == c[i];
    if |b| == |d| {
      assert forall i :: 0 <= i < |b| ==> s[|a| + i] == b[i] && t[|a| + i] == d[i];
    }
  }

  /** The first dot ends the first label. */
  lemma LongerFirstLabel(a: seq<Label>, b: seq<Label>)
    requires |a| > 1 && |b| > 0 && Dotless(b) && |a[0]| < |b[0]|
    ensures !SameLetters(Join(a), Join(b)) && !SameLetters(Join(b), Join(a))
  {
    var n := |a[0]|;
    assert b[0][n] in b[0] && b[0] in b;
    assert Join(a)[n] == 46 && Join(b)[n] == b[0][n];
  }

  lemma {:induction false} JoinTellsNamesApart(a: seq<Label>, b: seq<Label>)
    requires ValidLabels(a) && ValidLabels(b) && Dotless(a) && Dotless(b)
    ensures SameLetters(Join(a), Join(b)) <==> SameNames(a, b)
    decreases a
  {
    if a == [] || b == [] {
      assert a != [] ==> a[0] in a;
      assert b != [] ==> b[0] in b;
    } else if |a| == 1 && |b| == 1 {
    } else if |a| > 1 && |a[0]| < |b[0]| {
      LongerFirstLabel(a, b);
    } else if |b| > 1 && |b[0]| < |a[0]| {
      LongerFirstLabel(b, a);
    } else if |a| > 1 && |b| > 1 {
      LettersApart(a[0] + [46], Join(a[1..]), b[0] + [46], Join(b[1..]));
      LettersApart(a[0], [46], b[0], [46]);
      JoinTellsNamesApart(a[1..], b[1..]);
      assert a == [a[0]] + a[1..] && b == [b[0]] + b[1..];
    }
  }

  /** A dot inside a label cannot be told from the end of a label. */
  lemma {:induction false} DotReadsAsBoundary(front: seq<Label>, x: Label, y: Label, back: seq<Label>)
    ensures Join(front + [x + [46] + y] + back) == Join(front + [x, y] + back)
    decreases front
  {
    var one, two := front + [x + [46] + y] + back, front + [x, y] + back;
    if front == [] {
      assert one[1..] == back && two[1..] == [y] + back && two[1..][1..] == back;
    } else {
      DotReadsAsBoundary(front[1..], x, y, back);
      assert one[1..] == front[1..] + [x + [46] + y] + back && two[1..] == front[1..] + [x, y] + back;
    }
  }

  // ----- which response answers which query

  /** The path of the response leads back to where the query came from. */
  predicate LeadsBack(there: Path, back: Path) {
    back.destination == there.source && back.destinationPort == there.sourcePort && back.protocol == there.protocol
  }

  /** Two messages, as they are sent, ask the same question under the same id. */
  predicate SameExchange(query: Sent, reply: Sent) {
    && reply.id == query.id && reply.first.qtype == query.first.qtype
    && SameNames(LabelsOf(reply.first.name), LabelsOf(query.first.name))
  }

  /** A message any receiver can read, whose first name has no dot inside a label. */
  ghost predicate Written(m: Sent) {
    ValidSent(m) && WellCompressed(m) && Dotless(LabelsOf(m.first.name))
  }

  /** The message as the log gets it, if it can be read. */
  function ReadFor(m: Sent, path: Path, answer: Answer): Option<Message>
    requires ValidSent(m)
  {
    var parsed := Parse(Encode(m));
    if parsed.None? then None else Some(ToLog(parsed.value, path, answer))
  }

  lemma {:induction false} MeantLabelsAreValid(p: seq<byte>, pos: nat, labels: seq<Label>, jumps: nat)
    requires Represents(p, pos, labels, jumps)
    ensures ValidLabels(labels)
    decreases jumps, |labels|
  {
    if IsPointer(p, pos) {
      MeantLabelsAreValid(p, Target(p, pos), labels, jumps - 1);
    } else if p[pos] != 0 {
      MeantLabelsAreValid(p, pos + 1 + p[pos], labels[1..], jumps);
      assert labels == [labels[0]] + labels[1..];
    }
  }

  lemma MeantNameIsValid(p: seq<byte>, w: WireName)
    requires Resolves(p, w)
    ensures ValidLabels(LabelsOf(w))
  {
    if w.Compressed? {
      MeantLabelsAreValid(p, w.target, w.tail, w.jumps);
    }
  }

  /** What of a message the log goes by. */
  predicate Carries(message: Message, m: Sent, path: Path, answer: Answer) {
    && message.isQuery == (m.flags < 0x8000) && message.transactionId == m.id
    && message.sourceIp == path.source && message.sourcePort == path.sourcePort
    && message.destinationIp == path.destination && message.destinationPort == path.destinationPort
    && message.protocol == path.protocol && message.answer == answer
    && message.queryType == TypeName(m.first.qtype)
    && message.domain == MapSeq(Lower, Join(LabelsOf(m.first.name)))
  }

  lemma SentIsRead(m: Sent, path: Path, answer: Answer)
    requires Written(m)
    ensures var r := ReadFor(m, path, answer);
            r.Some? && Carries(r.value, m, path, answer)
  {
    MessageRoundTrip(m);
  }

  lemma SameLettersLowered(a: seq<byte>, b: seq<byte>)
    ensures SameLetters(MapSeq(Lower, a), MapSeq(Lower, b)) <==> SameLetters(a, b)
    ensures SameLetters(MapSeq(Lower, a), a)
    ensures forall i :: 0 <= i < |a| ==> !(65 <= MapSeq(Lower, a)[i] <= 90)
  {
    var f, g := MapSeq(Lower, a), MapSeq(Lower, b);
    if SameLetters(f, g) {
      assert forall i :: 0 <= i < |a| ==> f[i] == g[i];
    }
  }

  /** Two messages ask the same question in the log exactly when they do so on the wire. */
  lemma QuestionsAgreeIff(
    query: Sent, reply: Sent, there: Path, back: Path, a: Answer, b: Answer, q: Message, r: Message)
    requires Written(query) && Written(reply) && Carries(q, query, there, a) && Carries(r, reply, back, b)
    ensures SameQuestion(r, q) <==> SameExchange(query, reply) && back.protocol == there.protocol
  {
    var ours, theirs := LabelsOf(reply.first.name), LabelsOf(query.first.name);
    MeantNameIsValid(Encode(query), query.first.name);
    MeantNameIsValid(Encode(reply), reply.first.name);
    SameLettersLowered(Join(ours), Join(theirs));
    JoinTellsNamesApart(ours, theirs);
    TypesDiffer(reply.first.qtype, query.first.qtype);
  }

  /**
   * Any two messages a sender can write are read, and the response answers the query if and only if it is sent back
   * to where the query came from and repeats its id and, label by label, its question; however they differ otherwise.
   */
  lemma ResponseAnswersIff(query: Sent, reply: Sent, there: Path, back: Path, a: Answer, b: Answer)
    requires Written(query) && Written(reply) && query.flags < 0x8000 <= reply.flags
    ensures var q, r := ReadFor(query, there, a), ReadFor(reply, back, b);
            && q.Some? && r.Some?
            && (KeyOf(r.value) == KeyOf(q.value) <==> LeadsBack(there, back) && SameExchange(query, reply))
  {
    SentIsRead(query, there, a);
    SentIsRead(reply, back, b);
    var q, r := ReadFor(query, there, a).value, ReadFor(reply, back, b).value;
    QuestionsAgreeIff(query, reply, there, back, a, b, q, r);
    KeysAgreeIff(r, q);
  }

  /** Two queries count as one if and only if they come from one endpoint with the same id and question. */
  lemma QueryRepeatsIff(first: Sent, second: Sent, there: Path, again: Path, a: Answer, b: Answer)
    requires Written(first) && Written(second) && first.flags < 0x8000 && second.flags < 0x8000
    ensures var q, r := ReadFor(first, there, a), ReadFor(second, again, b);
            && q.Some? && r.Some?
            && (KeyOf(r.value) == KeyOf(q.value)
                <==> && again.source == there.source && again.sourcePort == there.sourcePort
                     && again.protocol == there.protocol && SameExchange(first, second))
  {
    SentIsRead(first, there, a);
    SentIsRead(second, again, b);
    var q, r := ReadFor(first, there, a).value, ReadFor(second, again, b).value;
    QuestionsAgreeIff(first, second, there, again, a, b, q, r);
    KeysAgreeIff(r, q);
  }

  // ----- one exchange in the log

  /** The query as it was sent, its name in small letters, and the answer it got. */
  ghost predicate ShowsQuery(e: Entry, query: Sent, there: Path, ms: u64, answer: Answer, responseMs: Option<u64>) {
    var q, name := e.record.question, Join(LabelsOf(query.first.name));
    && q.isQuery && q.transactionId == query.id && q.queryType == TypeName(query.first.qtype)
    && q.sourceIp == there.source && q.sourcePort == there.sourcePort && q.protocol == there.protocol
    && q.destinationIp == there.destination && q.destinationPort == there.destinationPort
    && SameLetters(q.domain, name) && (forall i :: 0 <= i < |q.domain| ==> !(65 <= q.domain[i] <= 90))
    && e.record.timestampMs == ms && e.record.answer == answer && e.record.responseMs == responseMs
  }

  lemma CarriedShows(e: Entry, query: Sent, there: Path, ms: u64, answer: Answer, responseMs: Option<u64>, a: Answer)
    requires query.flags < 0x8000 && Carries(e.record.question, query, there, a)
    requires e.record == Record(e.record.question, ms, answer, responseMs)
    ensures ShowsQuery(e, query, there, ms, answer, responseMs)
  {
    SameLettersLowered(Join(LabelsOf(query.first.name)), []);
  }

  lemma NothingMatched(cap: nat, c: Captured)
    requires c.message.isQuery
    ensures MatchedResponses(cap, [c]) == []
  {
    assert [c][..0] == [];
  }

  lemma OneIsLogged(cap: nat, c: Captured)
    requires cap > 0 && c.message.isQuery
    ensures IdealRun(cap, [c]).log == [Unanswered(c)]
  {
    assert [c][..0] == [];
    assert IdealRun(cap, [c]) == IdealIngest(NOTHING_SEEN, cap, c.message, c.ns, c.ms);
  }

  lemma AnsweredOrNot(e: Entry, next: seq<Entry>, m: Message, ns: u64)
    requires AnswersFirst([e], next, m, ns)
    ensures next == [if Waits(e, m, ns) then WithAnswer(e, m, ns) else e]
  {
    assert FirstToWait([e], 0, m, ns) <==> Waits(e, m, ns);
  }

  lemma TwoAreLogged(cap: nat, c0: Captured, c1: Captured)
    requires cap > 0 && c0.message.isQuery && !c1.message.isQuery
    ensures IdealRun(cap, [c0, c1]).log
         == [if Waits(Unanswered(c0), c1.message, c1.ns) then WithAnswer(Unanswered(c0), c1.message, c1.ns)
             else Unanswered(c0)]
  {
    OneIsLogged(cap, c0);
    NothingMatched(cap, c0);
    ResponseAnswersFirst(cap, [c0], c1);
    assert [c0] + [c1] == [c0, c1];
    AnsweredOrNot(Unanswered(c0), IdealRun(cap, [c0, c1]).log, c1.message, c1.ns);
  }

  lemma WaitsIff(
    query: Sent, reply: Sent, there: Path, back: Path, a: Answer, b: Answer, q: Captured, r: Captured)
    requires Written(query) && Written(reply) && query.flags < 0x8000
    requires Carries(q.message, query, there, a) && Carries(r.message, reply, back, b)
    ensures Waits(Unanswered(q), r.message, r.ns)
       <==> LeadsBack(there, back) && SameExchange(query, reply) && r.ns <= q.ns + 30_000_000_000
  {
    QuestionsAgreeIff(query, reply, there, back, a, b, q.message, r.message);
  }

  /** The log is one entry for the query, answered by the response or not. */
  ghost predicate LogShows(
    log: seq<Entry>, answered: bool, query: Sent, there: Path, b: Answer, q: Captured, r: Captured)
  {
    var elapsed := if r.ns >= q.ns then r.ns - q.ns else 0;
    && |log| == 1
    && if answered then ShowsQuery(log[0], query, there, q.ms, b, Some(elapsed / 1_000_000))
       else ShowsQuery(log[0], query, there, q.ms, Answer(None, [], []), None)
  }

  lemma EntryShows(log: seq<Entry>, query: Sent, there: Path, a: Answer, q: Captured, r: Captured)
    requires query.flags < 0x8000 && Carries(q.message, query, there, a)
    requires log == [if Waits(Unanswered(q), r.message, r.ns) then WithAnswer(Unanswered(q), r.message, r.ns)
                     else Unanswered(q)]
    ensures LogShows(log, Waits(Unanswered(q), r.message, r.ns), query, there, r.message.answer, q, r)
  {
    var e := log[0];
    CarriedShows(e, query, there, q.ms, e.record.answer, e.record.responseMs, a);
  }

  /** A query and a response are sent, and the log shows the query: answered if the response belongs to it. */
  lemma ExchangeIsLogged(
    cap: nat, query: Sent, reply: Sent, there: Path, back: Path, a: Answer, b: Answer, q: Captured, r: Captured)
    requires cap > 0 && Written(query) && Written(reply) && query.flags < 0x8000 <= reply.flags
    requires Carries(q.message, query, there, a) && Carries(r.message, reply, back, b)
    ensures LogShows(IdealRun(cap, [q, r]).log,
                     LeadsBack(there, back) && SameExchange(query, reply) && r.ns <= q.ns + 30_000_000_000,
                     query, there, b, q, r)
  {
    WaitsIff(query, reply, there, back, a, b, q, r);
    TwoAreLogged(cap, q, r);
    EntryShows(IdealRun(cap, [q, r]).log, query, there, a, q, r);
  }
}
