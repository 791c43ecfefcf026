/** DNS messages: the question and the answer loops, and an encoder with name compression they invert. */
module DnsMessage {
  import opened Bytes
  import opened DnsName

  const MAX_QUESTIONS := 16
  const MAX_ANSWERS := 64

  datatype Data =
    | Ipv4(address: seq<byte>)
    | Ipv6(address: seq<byte>)
    | HostName(rrType: u16, labels: seq<Label>)
    | MailExchange(priority: u16, labels: seq<Label>)
    | Text(parts: seq<seq<byte>>)
    | Unparsed(rrType: u16, length: nat)

  datatype Parsed = Parsed(
    transactionId: u16, isQuery: bool, labels: seq<Label>, queryType: u16, code: Option<byte>, answers: seq<Data>)

  // ----- what a packet says

  /** What is read at a position, and where it ends. */
  type ItemReader<T> = nat -> Option<(T, nat)>

  function InFront<T>(front: seq<T>, rest: Option<(seq<T>, nat)>): Option<(seq<T>, nat)> {
    if rest.None? then None else Some((front + rest.value.0, rest.value.1))
  }

  /** `n` items one behind the other. */
  function ReadList<T>(read: ItemReader<T>, pos: nat, n: nat): Option<(seq<T>, nat)>
    decreases n
  {
    if n == 0 then Some(([], pos))
    else if read(pos).None? then None
    else InFront([read(pos).value.0], ReadList(read, read(pos).value.1, n - 1))
  }

  function NameIn(p: seq<byte>, pos: nat): Option<(seq<Label>, nat)> {
    var labels := Resolve(p, pos, NONE_YET, NONE_YET);
    if labels.None? then None else Some((labels.value, NameEnd(p, pos)))
  }

  /** The character strings of a text record; one that runs past the end is dropped with all that follows. */
  function Texts(data: seq<byte>): seq<seq<byte>> {
    if data == [] || 1 + data[0] > |data| then [] else [data[1..1 + data[0]]] + Texts(data[1 + data[0]..])
  }

  predicate IsHostType(rrType: u16) {
    rrType == 5 || rrType == 2 || rrType == 12
  }

  /** A record of a name type whose name cannot be read is left out. */
  function DataIn(p: seq<byte>, names: ItemReader<seq<Label>>, start: nat, end: nat, rrType: u16): seq<Data>
    requires start <= end <= |p|
  {
    var data := p[start..end];
    if rrType == 1 && |data| == 4 then [Ipv4(data)]
    else if rrType == 28 && |data| == 16 then [Ipv6(data)]
    else if IsHostType(rrType) then
      var name := names(start);
      if name.Some? then [HostName(rrType, name.value.0)] else []
    else if rrType == 15 && |data| >= 3 then
      var name := names(start + 2);
      if name.Some? then [MailExchange(U16Be(data, 0), name.value.0)] else []
    else if rrType == 16 then [Text(Texts(data))]
    else [Unparsed(rrType, |data|)]
  }

  type Asked = (seq<Label>, u16)

  function QuestionIn(p: seq<byte>, names: ItemReader<seq<Label>>, pos: nat): Option<(Asked, nat)> {
    var name := names(pos);
    if name.None? || name.value.1 + 4 > |p| then None
    else Some(((name.value.0, U16Be(p, name.value.1)), name.value.1 + 4))
  }

  function AnswerIn(p: seq<byte>, names: ItemReader<seq<Label>>, pos: nat): Option<(seq<Data>, nat)> {
    var name := names(pos);
    if name.None? || name.value.1 + 10 > |p| then None
    else
      var start := name.value.1 + 10;
      var end: nat := start + U16Be(p, start - 2);
      if end > |p| then None else Some((DataIn(p, names, start, end, U16Be(p, start - 10)), end))
  }

  function Flat(lists: seq<seq<Data>>): seq<Data> {
    if lists == [] then [] else Flat(lists[..|lists| - 1]) + lists[|lists| - 1]
  }

  function ParseWith(p: seq<byte>, questions: ItemReader<Asked>, answers: ItemReader<seq<Data>>): Option<Parsed> {
    if |p| < 12 || U16Be(p, 4) == 0 || U16Be(p, 4) > MAX_QUESTIONS then None
    else
      var first := questions(12);
      if first.None? then None
      else
        var others := ReadList(questions, first.value.1, U16Be(p, 4) - 1);
        if others.None? then None
        else
          var (labels, qtype) := first.value.0;
          if U16Be(p, 2) < 0x8000 then Some(Parsed(U16Be(p, 0), true, labels, qtype, None, []))
          else
            var records := ReadList(answers, others.value.1, Min(U16Be(p, 6), MAX_ANSWERS));
            if records.None? then None
            else Some(Parsed(U16Be(p, 0), false, labels, qtype, Some(U16Be(p, 2) % 16), Flat(records.value.0)))
  }

  function NamesIn(p: seq<byte>): ItemReader<seq<Label>> {
    pos => NameIn(p, pos)
  }

  function QuestionsIn(p: seq<byte>): ItemReader<Asked> {
    pos => QuestionIn(p, NamesIn(p), pos)
  }

  function AnswersIn(p: seq<byte>): ItemReader<seq<Data>> {
    pos => AnswerIn(p, NamesIn(p), pos)
  }

  function Parse(p: seq<byte>): Option<Parsed> {
    ParseWith(p, QuestionsIn(p), AnswersIn(p))
  }

  // ----- the loops

  lemma OneMoreText(parts: seq<seq<byte>>, data: seq<byte>, pos: nat, end: nat)
    requires pos < |data| && pos + 1 + data[pos] == end <= |data|
    ensures parts + Texts(data[pos..]) == parts + [data[pos + 1..end]] + Texts(data[end..])
  {
    var rest := data[pos..];
    var length: nat := rest[0];
    assert rest[1..1 + length] == data[pos + 1..end] && rest[1 + length..] == data[end..];
    assert Texts(rest) == [data[pos + 1..end]] + Texts(data[end..]);
  }

  method ReadTexts(data: seq<byte>) returns (parts: seq<seq<byte>>)
    ensures parts == Texts(data)
  {
    parts := [];
    var pos := 0;
    while pos < |data|
      invariant 0 <= pos <= |data|
      invariant Texts(data) == parts + Texts(data[pos..])
    {
      var length: nat := data[pos];
      pos := pos + 1;
      if pos + length > |data| {
        return;
      }
      OneMoreText(parts, data, pos - 1, pos + length);
      parts := parts + [data[pos..pos + length]];
      pos := pos + length;
    }
  }

  method ReadName(p: seq<byte>, pos: nat) returns (r: Option<(seq<Label>, nat)>)
    ensures r == NameIn(p, pos)
  {
    r := ReadDnsName(p, pos);
  }

  method ReadQuestion(p: seq<byte>, pos: nat) returns (r: Option<(Asked, nat)>)
    ensures r == QuestionIn(p, NamesIn(p), pos)
  {
    var name := ReadName(p, pos);
    if name.None? || name.value.1 + 4 > |p| {
      return None;
    }
    r := Some(((name.value.0, U16Be(p, name.value.1)), name.value.1 + 4));
  }

  method ReadData(p: seq<byte>, start: nat, end: nat, rrType: u16) returns (r: seq<Data>)
    requires start <= end <= |p|
    ensures r == DataIn(p, NamesIn(p), start, end, rrType)
  {
    var data := p[start..end];
    if rrType == 1 && |data| == 4 {
      return [Ipv4(data)];
    }
    if rrType == 28 && |data| == 16 {
      return [Ipv6(data)];
    }
    if IsHostType(rrType) {
      var name := ReadName(p, start);
      return if name.Some? then [HostName(rrType, name.value.0)] else [];
    }
    if rrType == 15 && |data| >= 3 {
      var name := ReadName(p, start + 2);
      return if name.Some? then [MailExchange(U16Be(data, 0), name.value.0)] else [];
    }
    if rrType == 16 {
      var parts := ReadTexts(data);
      return [Text(parts)];
    }
    r := [Unparsed(rrType, |data|)];
  }

  method ReadAnswer(p: seq<byte>, pos: nat) returns (r: Option<(seq<Data>, nat)>)
    ensures r == AnswerIn(p, NamesIn(p), pos)
  {
    var name := ReadName(p, pos);
    if name.None? || name.value.1 + 10 > |p| {
      return None;
    }
    var start := name.value.1 + 10;
    var end: nat := start + U16Be(p, start - 2);
    if end > |p| {
      return None;
    }
    var data := ReadData(p, start, end, U16Be(p, start - 10));
    r := Some((data, end));
  }

  ghost predicate IsQuestion(p: seq<byte>, pos: nat, r: Option<(Asked, nat)>) {
    r == QuestionIn(p, NamesIn(p), pos)
  }

  ghost predicate IsAnswer(p: seq<byte>, pos: nat, r: Option<(seq<Data>, nat)>) {
    r == AnswerIn(p, NamesIn(p), pos)
  }

  /** The two readers are those of `p`. */
  ghost predicate ReadersOf(p: seq<byte>, questions: ItemReader<Asked>, answers: ItemReader<seq<Data>>) {
    && (forall pos: nat {:trigger IsQuestion(p, pos, questions(pos))} :: IsQuestion(p, pos, questions(pos)))
    && (forall pos: nat {:trigger IsAnswer(p, pos, answers(pos))} :: IsAnswer(p, pos, answers(pos)))
  }

  lemma NothingInFront<T>(rest: Option<(seq<T>, nat)>)
    ensures InFront([], rest) == rest
  {
    if rest.Some? {
      assert [] + rest.value.0 == rest.value.0;
    }
  }

  lemma InFrontTwice<T>(a: seq<T>, b: seq<T>, rest: Option<(seq<T>, nat)>)
    ensures InFront(a, InFront(b, rest)) == InFront(a + b, rest)
  {
    if rest.Some? {
      assert a + (b + rest.value.0) == a + b + rest.value.0;
    }
  }

  method ParseQuestions(
    p: seq<byte>, start: nat, n: nat, ghost questions: ItemReader<Asked>, ghost answers: ItemReader<seq<Data>>)
    returns (r: Option<nat>)
    requires ReadersOf(p, questions, answers)
    ensures var all := ReadList(questions, start, n); r == if all.None? then None else Some(all.value.1)
  {
    var cursor: nat := start;
    ghost var seen: seq<Asked> := [];
    NothingInFront(ReadList(questions, start, n));
    for i := 0 to n
      invariant ReadList(questions, start, n) == InFront(seen, ReadList(questions, cursor, n - i))
    {
      var item := ReadQuestion(p, cursor);
      assert IsQuestion(p, cursor, questions(cursor));
      if item.None? {
        return None;
      }
      InFrontTwice(seen, [item.value.0], ReadList(questions, item.value.1, n - i - 1));
      seen := seen + [item.value.0];
      cursor := item.value.1;
    }
    r := Some(cursor);
  }

  method ParseAnswers(
    p: seq<byte>, start: nat, n: nat, ghost questions: ItemReader<Asked>, ghost answers: ItemReader<seq<Data>>)
    returns (r: Option<seq<Data>>)
    requires ReadersOf(p, questions, answers)
    ensures var all := ReadList(answers, start, n); r == if all.None? then None else Some(Flat(all.value.0))
  {
    var cursor: nat := start;
    var records: seq<Data> := [];
    ghost var seen: seq<seq<Data>> := [];
    NothingInFront(ReadList(answers, start, n));
    for i := 0 to n
      invariant ReadList(answers, start, n) == InFront(seen, ReadList(answers, cursor, n - i))
      invariant records == Flat(seen)
    {
      var item := ReadAnswer(p, cursor);
      assert IsAnswer(p, cursor, answers(cursor));
      if item.None? {
        return None;
      }
      InFrontTwice(seen, [item.value.0], ReadList(answers, item.value.1, n - i - 1));
      assert (seen + [item.value.0])[..|seen|] == seen;
      seen := seen + [item.value.0];
      records := records + item.value.0;
      cursor := item.value.1;
    }
    assert seen + [] == seen;
    r := Some(records);
  }

  method ParseBody(p: seq<byte>, ghost questions: ItemReader<Asked>, ghost answers: ItemReader<seq<Data>>)
    returns (r: Option<Parsed>)
    requires ReadersOf(p, questions, answers)
    ensures r == ParseWith(p, questions, answers)
  {
    if |p| < 12 {
      return None;
    }
    var count := U16Be(p, 4);
    if count == 0 || count > MAX_QUESTIONS {
      return None;
    }
    var first := ReadQuestion(p, 12);
    assert IsQuestion(p, 12, questions(12));
    if first.None? {
      return None;
    }
    var cursor := ParseQuestions(p, first.value.1, count - 1, questions, answers);
    if cursor.None? {
      return None;
    }
    var (labels, qtype) := first.value.0;
    if U16Be(p, 2) < 0x8000 {
      return Some(Parsed(U16Be(p, 0), true, labels, qtype, None, []));
    }
    var records := ParseAnswers(p, cursor.value, Min(U16Be(p, 6), MAX_ANSWERS), questions, answers);
    if records.None? {
      return None;
    }
    r := Some(Parsed(U16Be(p, 0), false, labels, qtype, Some(U16Be(p, 2) % 16), records.value));
  }

  method ParseDnsMessage(p: seq<byte>) returns (r: Option<Parsed>)
    ensures r == Parse(p)
  {
    r := ParseBody(p, QuestionsIn(p), AnswersIn(p));
  }

  // ----- an encoder

  type Name = labels: seq<Label> | ValidLabels(labels) && WireLen(labels) <= MAX_EXPANDED witness []

  type Offset = n: nat | n < 0x4000

  /**
   * A name spelled out, or labels and a pointer to an offset of the message; `tail` and `jumps` say which name is
   * meant to stand there and how many further pointers it takes to read it.
   */
  datatype WireName = Plain(labels: Name) | Compressed(prefix: Name, target: Offset, tail: seq<Label>, jumps: nat)

  datatype Question = Question(name: WireName, qtype: u16, qclass: u16)

  datatype RecordData =
    | Address4(bytes: seq<byte>)
    | Address6(bytes: seq<byte>)
    | Host(rrType: u16, name: WireName)
    | Mail(priority: u16, name: WireName)
    | Strings(parts: seq<seq<byte>>)
    | Raw(rrType: u16, bytes: seq<byte>)

  /** `fixed` is the class and the time to live. */
  datatype ResourceRecord = ResourceRecord(owner: WireName, fixed: seq<byte>, data: RecordData)

  function EncodeTexts(parts: seq<seq<byte>>): seq<byte> {
    if parts == [] then []
    else [if |parts[0]| < 256 then |parts[0]| else 0] + parts[0] + EncodeTexts(parts[1..])
  }

  predicate ValidData(d: RecordData) {
    match d
    case Address4(b) => |b| == 4
    case Address6(b) => |b| == 16
    case Host(t, _) => IsHostType(t)
    case Mail(_, _) => true
    case Strings(parts) => (forall s :: s in parts ==> |s| < 256) && |EncodeTexts(parts)| < 0x1_0000
    case Raw(t, b) =>
      && |b| < 0x1_0000 && !IsHostType(t) && t != 16
      && !(t == 1 && |b| == 4) && !(t == 28 && |b| == 16) && !(t == 15 && |b| >= 3)
  }

  predicate ValidRecord(r: ResourceRecord) {
    |r.fixed| == 6 && ValidData(r.data)
  }

  function LabelsOf(w: WireName): seq<Label> {
    if w.Plain? then w.labels else w.prefix + w.tail
  }

  function EncodeWireName(w: WireName): (r: seq<byte>)
    ensures 0 < |r| <= 257
  {
    if w.Plain? then EncodeName(w.labels) else EncodeLabels(w.prefix) + EncodePointer(w.target)
  }

  function TypeOf(d: RecordData): u16 {
    match d
    case Address4(_) => 1
    case Address6(_) => 28
    case Host(t, _) => t
    case Mail(_, _) => 15
    case Strings(_) => 16
    case Raw(t, _) => t
  }

  function EncodeData(d: RecordData): (r: seq<byte>)
    ensures ValidData(d) ==> |r| < 0x1_0000
  {
    match d
    case Address4(b) => b
    case Address6(b) => b
    case Host(_, w) => EncodeWireName(w)
    case Mail(priority, w) => Be16(priority) + EncodeWireName(w)
    case Strings(parts) => EncodeTexts(parts)
    case Raw(_, b) => b
  }

  function MeaningOf(d: RecordData): Data {
    match d
    case Address4(b) => Ipv4(b)
    case Address6(b) => Ipv6(b)
    case Host(t, w) => HostName(t, LabelsOf(w))
    case Mail(priority, w) => MailExchange(priority, LabelsOf(w))
    case Strings(parts) => Text(parts)
    case Raw(t, b) => Unparsed(t, |b|)
  }

  function EncodeRecord(r: ResourceRecord): seq<byte>
    requires ValidRecord(r)
  {
    EncodeWireName(r.owner) + (Be16(TypeOf(r.data)) + r.fixed + Be16(|EncodeData(r.data)|)) + EncodeData(r.data)
  }

  function EncodeQuestion(q: Question): seq<byte> {
    EncodeWireName(q.name) + Be16(q.qtype) + Be16(q.qclass)
  }

  function AskedOf(q: Question): Asked {
    (LabelsOf(q.name), q.qtype)
  }

  /** In the message `p` the pointer leads to the name that is meant, within the limits of the reader. */
  ghost predicate Resolves(p: seq<byte>, w: WireName) {
    w.Compressed? ==>
      w.jumps < MAX_JUMPS && WireLen(LabelsOf(w)) <= MAX_EXPANDED && Represents(p, w.target, w.tail, w.jumps)
  }

  ghost function ResolvesIn(p: seq<byte>): WireName -> bool {
    w => Resolves(p, w)
  }

  predicate DataResolves(ok: WireName -> bool, d: RecordData) {
    match d
    case Host(_, w) => ok(w)
    case Mail(_, w) => ok(w)
    case _ => true
  }

  predicate RecordResolves(ok: WireName -> bool, r: ResourceRecord) {
    ValidRecord(r) && ok(r.owner) && DataResolves(ok, r.data)
  }

  /** A way of writing items and what a reader should make of each; items that are not `ok` are not written. */
  datatype Coding<!A, T> = Coding(ok: A -> bool, code: A -> seq<byte>, meaning: A -> T)

  function QuestionCoding(ok: WireName -> bool): Coding<Question, Asked> {
    Coding((q: Question) => ok(q.name), EncodeQuestion, AskedOf)
  }

  function RecordCode(r: ResourceRecord): seq<byte> {
    if ValidRecord(r) then EncodeRecord(r) else []
  }

  function KeptOf(r: ResourceRecord): seq<Data> {
    [MeaningOf(r.data)]
  }

  function RecordCoding(ok: WireName -> bool): Coding<ResourceRecord, seq<Data>> {
    Coding(r => RecordResolves(ok, r), RecordCode, KeptOf)
  }

  function EncodeAll<A>(code: A -> seq<byte>, list: seq<A>): seq<byte> {
    if list == [] then [] else code(list[0]) + EncodeAll(code, list[1..])
  }

  function EncodeHeader(id: u16, flags: u16, questions: u16, answers: u16, other: seq<byte>): (r: seq<byte>)
    requires |other| == 4
    ensures |r| == 12
  {
    Be16(id) + Be16(flags) + Be16(questions) + Be16(answers) + other
  }

  /** A whole message as it is sent. */
  datatype Sent = Sent(
    id: u16, flags: u16, first: Question, others: seq<Question>, answers: seq<ResourceRecord>, other: seq<byte>)

  predicate ValidSent(m: Sent) {
    |m.others| < 16 && |m.answers| < 0x1_0000 && |m.other| == 4
  }

  function Encode(m: Sent): seq<byte>
    requires ValidSent(m)
  {
    EncodeHeader(m.id, m.flags, |m.others| + 1, |m.answers|, m.other)
    + EncodeQuestion(m.first) + EncodeAll(EncodeQuestion, m.others) + EncodeAll(RecordCode, m.answers)
  }

  /** Every record can be written and every pointer leads to the name that is meant. */
  ghost predicate WellCompressed(m: Sent)
    requires ValidSent(m)
  {
    var ok := ResolvesIn(Encode(m));
    && ok(m.first.name) && (forall q :: q in m.others ==> ok(q.name))
    && forall r :: r in m.answers ==> RecordResolves(ok, r)
  }

  /** The top bit of the flags tells a response, whose low four bits are its code. */
  function Report(id: u16, flags: u16, first: Asked, records: seq<seq<Data>>): Parsed {
    if flags < 0x8000 then Parsed(id, true, first.0, first.1, None, [])
    else Parsed(id, false, first.0, first.1, Some(flags % 16), Flat(records))
  }

  /** What the receiver keeps: of a response, the first 64 answers. */
  function Received(m: Sent): Parsed {
    Report(m.id, m.flags, AskedOf(m.first), MapSeq(KeptOf, m.answers[..Min(|m.answers|, 64)]))
  }

  // ----- reading inverts the encoder

  /** `code` stands at `pos`. */
  predicate Stands(p: seq<byte>, pos: nat, code: seq<byte>) {
    pos + |code| <= |p| && p[pos..pos + |code|] == code
  }

  lemma StandsApart(p: seq<byte>, pos: nat, a: seq<byte>, b: seq<byte>)
    requires Stands(p, pos, a + b)
    ensures Stands(p, pos, a) && Stands(p, pos + |a|, b)
  {
    SplitSlice(p, pos, |a|, |a| + |b|, a, b);
  }

  lemma ThreeApart(p: seq<byte>, pos: nat, a: seq<byte>, b: seq<byte>, c: seq<byte>)
    requires Stands(p, pos, a + b + c)
    ensures Stands(p, pos, a) && Stands(p, pos + |a|, b) && Stands(p, pos + |a| + |b|, c)
  {
    StandsApart(p, pos, a + b, c);
    StandsApart(p, pos, a, b);
  }

  lemma WordAt(p: seq<byte>, pos: nat, v: u16)
    requires Stands(p, pos, Be16(v))
    ensures U16Be(p, pos) == v
  {
    Be16RoundTrip(p, pos, v);
  }

  ghost predicate InvertsOne<A, T>(p: seq<byte>, coding: Coding<A, T>, read: ItemReader<T>, a: A, at: nat) {
    coding.ok(a) && Stands(p, at, coding.code(a)) ==> read(at) == Some((coding.meaning(a), at + |coding.code(a)|))
  }

  /** The reader inverts the encoding of every item, wherever it stands. */
  ghost predicate Inverts<A(!new), T>(p: seq<byte>, coding: Coding<A, T>, read: ItemReader<T>) {
    forall a: A, at: nat {:trigger InvertsOne(p, coding, read, a, at)} :: InvertsOne(p, coding, read, a, at)
  }

  /** If a reader inverts an item's encoding wherever it stands, it inverts a list of them, and any prefix of it. */
  lemma {:induction false} ListInverts<A(!new), T>(
    p: seq<byte>, coding: Coding<A, T>, read: ItemReader<T>, pos: nat, list: seq<A>, n: nat)
    requires Stands(p, pos, EncodeAll(coding.code, list)) && n <= |list| && forall a :: a in list ==> coding.ok(a)
    requires Inverts(p, coding, read)
    ensures ReadList(read, pos, n).Some?
    ensures ReadList(read, pos, n).value.0 == MapSeq(coding.meaning, list[..n])
    ensures n == |list| ==> ReadList(read, pos, n).value.1 == pos + |EncodeAll(coding.code, list)|
    decreases n
  {
    if n > 0 {
      var rest := list[1..];
      StandsApart(p, pos, coding.code(list[0]), EncodeAll(coding.code, rest));
      assert list[0] in list && InvertsOne(p, coding, read, list[0], pos);
      ListInverts(p, coding, read, pos + |coding.code(list[0])|, rest, n - 1);
      assert list[..n] == [list[0]] + rest[..n - 1];
    }
  }

  lemma PlainNameAt(p: seq<byte>, pos: nat, labels: Name, end: nat)
    requires Stands(p, pos, EncodeName(labels)) && end == pos + WireLen(labels)
    ensures Represents(p, pos, labels, 0) && NameEnd(p, pos) == end + 1
  {
    StandsApart(p, pos, EncodeLabels(labels), [0]);
    assert p[end] == p[end..end + 1][0];
    LabelsInFront(p, pos, labels, end, [], 0);
    assert labels + [] == labels;
  }

  ghost predicate IsName(p: seq<byte>, pos: nat, r: Option<(seq<Label>, nat)>) {
    r == NameIn(p, pos)
  }

  ghost predicate IsNameReader(p: seq<byte>, names: ItemReader<seq<Label>>) {
    forall pos: nat {:trigger IsName(p, pos, names(pos))} :: IsName(p, pos, names(pos))
  }

  lemma NameFrom(
    p: seq<byte>, names: ItemReader<seq<Label>>, pos: nat, labels: seq<Label>, jumps: nat, end: nat)
    requires IsNameReader(p, names) && Represents(p, pos, labels, jumps) && jumps <= MAX_JUMPS
    requires WireLen(labels) <= MAX_EXPANDED && NameEnd(p, pos) == end
    ensures names(pos) == Some((labels, end))
  {
    ResolveComplete(p, pos, labels, jumps, NONE_YET, NONE_YET);
    assert IsName(p, pos, names(pos));
  }

  lemma SpelledNameAt(p: seq<byte>, names: ItemReader<seq<Label>>, pos: nat, labels: Name, code: seq<byte>)
    requires IsNameReader(p, names) && code == EncodeName(labels) && Stands(p, pos, code)
    ensures names(pos) == Some((labels, pos + |code|))
  {
    PlainNameAt(p, pos, labels, pos + WireLen(labels));
    NameFrom(p, names, pos, labels, 0, pos + |code|);
  }

  lemma CompressedStands(
    p: seq<byte>, pos: nat, prefix: Name, target: Offset, tail: seq<Label>, jumps: nat, labels: seq<Label>,
    code: seq<byte>)
    requires Represents(p, target, tail, jumps) && labels == prefix + tail
    requires Stands(p, pos, code) && code == EncodeLabels(prefix) + EncodePointer(target)
    ensures Represents(p, pos, labels, jumps + 1) && NameEnd(p, pos) == pos + |code|
  {
    CompressedRepresents(p, pos, prefix, target, tail, jumps);
  }

  lemma WireNameAt(
    p: seq<byte>, names: ItemReader<seq<Label>>, pos: nat, w: WireName, labels: seq<Label>, code: seq<byte>)
    requires IsNameReader(p, names) && Resolves(p, w) && labels == LabelsOf(w) && code == EncodeWireName(w)
    requires Stands(p, pos, code)
    ensures names(pos) == Some((labels, pos + |code|))
  {
    if w.Plain? {
      SpelledNameAt(p, names, pos, w.labels, code);
    } else {
      CompressedStands(p, pos, w.prefix, w.target, w.tail, w.jumps, labels, code);
      NameFrom(p, names, pos, labels, w.jumps + 1, pos + |code|);
    }
  }

  ghost predicate ReadsName(
    p: seq<byte>, names: ItemReader<seq<Label>>, ok: WireName -> bool, w: WireName, at: nat)
  {
    ok(w) && Stands(p, at, EncodeWireName(w)) ==> names(at) == Some((LabelsOf(w), at + |EncodeWireName(w)|))
  }

  /** The reader of names inverts their encoding wherever it stands. */
  ghost predicate ReadsNames(p: seq<byte>, names: ItemReader<seq<Label>>, ok: WireName -> bool) {
    forall w: WireName, at: nat {:trigger ReadsName(p, names, ok, w, at)} :: ReadsName(p, names, ok, w, at)
  }

  lemma NameInverts(p: seq<byte>, names: ItemReader<seq<Label>>, ok: WireName -> bool, w: WireName, at: nat)
    requires IsNameReader(p, names) && (ok(w) ==> Resolves(p, w))
    ensures ReadsName(p, names, ok, w, at)
  {
    if ok(w) && Stands(p, at, EncodeWireName(w)) {
      WireNameAt(p, names, at, w, LabelsOf(w), EncodeWireName(w));
    }
  }

  lemma NamesInvert(p: seq<byte>)
    ensures ReadsNames(p, NamesIn(p), ResolvesIn(p))
  {
    forall w: WireName, at: nat
      ensures ReadsName(p, NamesIn(p), ResolvesIn(p), w, at)
    {
      NameInverts(p, NamesIn(p), ResolvesIn(p), w, at);
    }
  }

  lemma {:induction false} TextsInvert(parts: seq<seq<byte>>)
    requires forall s :: s in parts ==> |s| < 256
    ensures Texts(EncodeTexts(parts)) == parts
  {
    if parts != [] {
      var first, rest := parts[0], EncodeTexts(parts[1..]);
      var code := EncodeTexts(parts);
      assert first in parts && code == [|first|] + first + rest;
      assert code[1..1 + |first|] == first && code[1 + |first|..] == rest;
      TextsInvert(parts[1..]);
      assert parts == [first] + parts[1..];
    }
  }

  lemma MailAt(
    p: seq<byte>, names: ItemReader<seq<Label>>, ok: WireName -> bool, start: nat, end: nat, priority: u16, w: WireName,
    code: seq<byte>, meaning: Data)
    requires ok(w) && ReadsNames(p, names, ok) && code == EncodeWireName(w)
    requires Stands(p, start, Be16(priority) + code) && end == start + 2 + |code|
    requires meaning == MailExchange(priority, LabelsOf(w))
    ensures DataIn(p, names, start, end, 15) == [meaning]
  {
    var data := p[start..end];
    assert data == Be16(priority) + code;
    StandsApart(p, start, Be16(priority), code);
    assert ReadsName(p, names, ok, w, start + 2);
    assert data[0..2] == Be16(priority);
    Be16RoundTrip(data, 0, priority);
  }

  lemma HostAt(
    p: seq<byte>, names: ItemReader<seq<Label>>, ok: WireName -> bool, start: nat, end: nat, rrType: u16, w: WireName,
    code: seq<byte>, meaning: Data)
    requires ok(w) && ReadsNames(p, names, ok) && code == EncodeWireName(w)
    requires Stands(p, start, code) && end == start + |code| && IsHostType(rrType)
    requires meaning == HostName(rrType, LabelsOf(w))
    ensures DataIn(p, names, start, end, rrType) == [meaning]
  {
    assert ReadsName(p, names, ok, w, start);
  }

  lemma TextAt(
    p: seq<byte>, names: ItemReader<seq<Label>>, start: nat, end: nat, parts: seq<seq<byte>>, code: seq<byte>,
    meaning: Data)
    requires (forall s :: s in parts ==> |s| < 256) && code == EncodeTexts(parts) && meaning == Text(parts)
    requires Stands(p, start, code) && end == start + |code|
    ensures DataIn(p, names, start, end, 16) == [meaning]
  {
    TextsInvert(parts);
  }

  lemma BytesAt(
    p: seq<byte>, names: ItemReader<seq<Label>>, start: nat, end: nat, d: RecordData, rrType: u16,
    meaning: Data)
    requires (d.Address4? || d.Address6? || d.Raw?) && ValidData(d) && rrType == TypeOf(d)
    requires Stands(p, start, d.bytes) && end == start + |d.bytes| && meaning == MeaningOf(d)
    ensures DataIn(p, names, start, end, rrType) == [meaning]
  {
  }

  lemma DataAt(
    p: seq<byte>, names: ItemReader<seq<Label>>, ok: WireName -> bool, start: nat, end: nat, d: RecordData, rrType: u16,
    code: seq<byte>, meaning: Data)
    requires ValidData(d) && DataResolves(ok, d) && rrType == TypeOf(d) && meaning == MeaningOf(d)
    requires code == EncodeData(d) && end == start + |code|
    requires Stands(p, start, code) && ReadsNames(p, names, ok)
    ensures DataIn(p, names, start, end, rrType) == [meaning]
  {
    match d
    case Host(_, w) => HostAt(p, names, ok, start, end, rrType, w, code, meaning);
    case Mail(priority, w) => MailAt(p, names, ok, start, end, priority, w, EncodeWireName(w), meaning);
    case Strings(parts) => TextAt(p, names, start, end, parts, code, meaning);
    case _ => BytesAt(p, names, start, end, d, rrType, meaning);
  }

  lemma HeadAt(p: seq<byte>, pos: nat, rrType: u16, fixed: seq<byte>, length: u16)
    requires |fixed| == 6 && Stands(p, pos, Be16(rrType) + fixed + Be16(length))
    ensures U16Be(p, pos) == rrType && U16Be(p, pos + 8) == length
  {
    ThreeApart(p, pos, Be16(rrType), fixed, Be16(length));
    WordAt(p, pos, rrType);
    WordAt(p, pos + 8, length);
  }

  lemma PartsOf(
    p: seq<byte>, pos: nat, code: seq<byte>, owner: seq<byte>, data: seq<byte>, rrType: u16, fixed: seq<byte>)
    requires |data| < 0x1_0000 && |fixed| == 6 && Stands(p, pos, code)
    requires code == owner + (Be16(rrType) + fixed + Be16(|data|)) + data
    ensures Stands(p, pos, owner) && Stands(p, pos + |owner| + 10, data) && |code| == |owner| + 10 + |data|
    ensures U16Be(p, pos + |owner|) == rrType && U16Be(p, pos + |owner| + 8) == |data|
  {
    ThreeApart(p, pos, owner, Be16(rrType) + fixed + Be16(|data|), data);
    HeadAt(p, pos + |owner|, rrType, fixed, |data|);
  }

  lemma AnswerFrom(
    p: seq<byte>, names: ItemReader<seq<Label>>, pos: nat, labels: seq<Label>, head: nat, start: nat, end: nat,
    rrType: u16, meaning: Data)
    requires names(pos) == Some((labels, head)) && start == head + 10 && start <= end <= |p|
    requires U16Be(p, head) == rrType && U16Be(p, head + 8) == end - start
    requires DataIn(p, names, start, end, rrType) == [meaning]
    ensures AnswerIn(p, names, pos) == Some(([meaning], end))
  {
  }

  lemma NameReads(
    p: seq<byte>, names: ItemReader<seq<Label>>, ok: WireName -> bool, pos: nat, w: WireName, code: seq<byte>)
    requires ok(w) && ReadsNames(p, names, ok) && code == EncodeWireName(w) && Stands(p, pos, code)
    ensures names(pos) == Some((LabelsOf(w), pos + |code|))
  {
    assert ReadsName(p, names, ok, w, pos);
  }

  lemma RecordAt(
    p: seq<byte>, names: ItemReader<seq<Label>>, ok: WireName -> bool, pos: nat, owner: WireName, head: nat, start: nat,
    end: nat, d: RecordData, rrType: u16, meaning: Data)
    requires ReadsNames(p, names, ok) && ok(owner) && Stands(p, pos, EncodeWireName(owner))
    requires head == pos + |EncodeWireName(owner)| && start == head + 10
    requires ValidData(d) && DataResolves(ok, d) && rrType == TypeOf(d) && meaning == MeaningOf(d)
    requires Stands(p, start, EncodeData(d)) && end == start + |EncodeData(d)|
    requires U16Be(p, head) == rrType && U16Be(p, head + 8) == end - start
    ensures AnswerIn(p, names, pos) == Some(([meaning], end))
  {
    NameReads(p, names, ok, pos, owner, EncodeWireName(owner));
    DataAt(p, names, ok, start, end, d, rrType, EncodeData(d), meaning);
    AnswerFrom(p, names, pos, LabelsOf(owner), head, start, end, rrType, meaning);
  }

  lemma QuestionAt(
    p: seq<byte>, names: ItemReader<seq<Label>>, ok: WireName -> bool, pos: nat, q: Question, code: seq<byte>)
    requires ok(q.name) && ReadsNames(p, names, ok) && code == EncodeWireName(q.name)
    requires Stands(p, pos, code + Be16(q.qtype) + Be16(q.qclass))
    ensures QuestionIn(p, names, pos) == Some((AskedOf(q), pos + |code| + 4))
  {
    ThreeApart(p, pos, code, Be16(q.qtype), Be16(q.qclass));
    assert ReadsName(p, names, ok, q.name, pos);
    WordAt(p, pos + |code|, q.qtype);
  }

  lemma QuestionInverts(
    p: seq<byte>, names: ItemReader<seq<Label>>, ok: WireName -> bool, q: Question, at: nat,
    coding: Coding<Question, Asked>, read: ItemReader<Asked>)
    requires ReadsNames(p, names, ok) && read(at) == QuestionIn(p, names, at)
    requires coding.ok(q) ==> ok(q.name)
    requires coding.code(q) == EncodeQuestion(q) && coding.meaning(q) == AskedOf(q)
    ensures InvertsOne(p, coding, read, q, at)
  {
    if coding.ok(q) && Stands(p, at, EncodeQuestion(q)) {
      QuestionAt(p, names, ok, at, q, EncodeWireName(q.name));
    }
  }

  lemma QuestionsInvert(p: seq<byte>, names: ItemReader<seq<Label>>, ok: WireName -> bool, read: ItemReader<Asked>)
    requires ReadsNames(p, names, ok) && names == NamesIn(p) && read == QuestionsIn(p)
    ensures Inverts(p, QuestionCoding(ok), read)
  {
    forall q: Question, at: nat
      ensures InvertsOne(p, QuestionCoding(ok), read, q, at)
    {
      QuestionInverts(p, names, ok, q, at, QuestionCoding(ok), read);
    }
  }

  lemma RecordReads(
    p: seq<byte>, names: ItemReader<seq<Label>>, ok: WireName -> bool, at: nat, r: ResourceRecord, end: nat,
    meaning: Data)
    requires ReadsNames(p, names, ok) && RecordResolves(ok, r) && meaning == MeaningOf(r.data)
    requires Stands(p, at, EncodeRecord(r)) && end == at + |EncodeRecord(r)|
    ensures AnswerIn(p, names, at) == Some(([meaning], end))
  {
    var head := at + |EncodeWireName(r.owner)|;
    PartsOf(p, at, EncodeRecord(r), EncodeWireName(r.owner), EncodeData(r.data), TypeOf(r.data), r.fixed);
    RecordAt(p, names, ok, at, r.owner, head, head + 10, end, r.data, TypeOf(r.data), meaning);
  }

  lemma RecordInverts(
    p: seq<byte>, names: ItemReader<seq<Label>>, ok: WireName -> bool, r: ResourceRecord, at: nat,
    coding: Coding<ResourceRecord, seq<Data>>, read: ItemReader<seq<Data>>)
    requires ReadsNames(p, names, ok) && read(at) == AnswerIn(p, names, at)
    requires coding.ok(r) ==> RecordResolves(ok, r)
    requires coding.code(r) == RecordCode(r) && coding.meaning(r) == [MeaningOf(r.data)]
    ensures InvertsOne(p, coding, read, r, at)
  {
    if coding.ok(r) && Stands(p, at, RecordCode(r)) {
      RecordReads(p, names, ok, at, r, at + |EncodeRecord(r)|, MeaningOf(r.data));
    }
  }

  lemma RecordsInvert(p: seq<byte>, names: ItemReader<seq<Label>>, ok: WireName -> bool, read: ItemReader<seq<Data>>)
    requires ReadsNames(p, names, ok) && names == NamesIn(p) && read == AnswersIn(p)
    ensures Inverts(p, RecordCoding(ok), read)
  {
    forall r: ResourceRecord, at: nat
      ensures InvertsOne(p, RecordCoding(ok), read, r, at)
    {
      RecordInverts(p, names, ok, r, at, RecordCoding(ok), read);
    }
  }

  lemma HeaderAt(p: seq<byte>, id: u16, flags: u16, questions: u16, answers: u16, other: seq<byte>)
    requires |other| == 4 && Stands(p, 0, EncodeHeader(id, flags, questions, answers, other))
    ensures U16Be(p, 0) == id && U16Be(p, 2) == flags && U16Be(p, 4) == questions && U16Be(p, 6) == answers
  {
    var a, b, c, d := Be16(id), Be16(flags), Be16(questions), Be16(answers);
    StandsApart(p, 0, a + b + c + d, other);
    StandsApart(p, 0, a + b + c, d);
    StandsApart(p, 0, a + b, c);
    StandsApart(p, 0, a, b);
    WordAt(p, 0, id);
    WordAt(p, 2, flags);
    WordAt(p, 4, questions);
    WordAt(p, 6, answers);
  }

  lemma BodyAt(
    p: seq<byte>, questions: ItemReader<Asked>, answers: ItemReader<seq<Data>>, first: (Asked, nat), after: nat,
    records: seq<seq<Data>>)
    requires |p| >= 12 && 1 <= U16Be(p, 4) <= MAX_QUESTIONS && questions(12) == Some(first)
    requires var others := ReadList(questions, first.1, U16Be(p, 4) - 1); others.Some? && others.value.1 == after
    requires var all := ReadList(answers, after, Min(U16Be(p, 6), MAX_ANSWERS)); all.Some? && all.value.0 == records
    ensures ParseWith(p, questions, answers) == Some(Report(U16Be(p, 0), U16Be(p, 2), first.0, records))
  {
  }

  lemma PartsStand(p: seq<byte>, head: seq<byte>, q: seq<byte>, qs: seq<byte>, ans: seq<byte>)
    requires p == head + q + qs + ans
    ensures Stands(p, 0, head) && Stands(p, |head|, q) && Stands(p, |head| + |q|, qs)
    ensures Stands(p, |head| + |q| + |qs|, ans)
  {
    assert p[0..0 + |p|] == p;
    StandsApart(p, 0, head + q + qs, ans);
    StandsApart(p, 0, head + q, qs);
    StandsApart(p, 0, head, q);
  }

  /** The body of a message, for readers that invert the encodings of its questions and answers. */
  lemma BodyInverts<Q(!new), A(!new)>(
    p: seq<byte>, questions: ItemReader<Asked>, answers: ItemReader<seq<Data>>, first: (Asked, nat), others: seq<Q>,
    list: seq<A>, codingQ: Coding<Q, Asked>, codingA: Coding<A, seq<Data>>)
    requires |p| >= 12 && questions(12) == Some(first)
    requires U16Be(p, 4) == |others| + 1 <= MAX_QUESTIONS && U16Be(p, 6) == |list|
    requires (forall q :: q in others ==> codingQ.ok(q)) && forall a :: a in list ==> codingA.ok(a)
    requires Stands(p, first.1, EncodeAll(codingQ.code, others)) && Inverts(p, codingQ, questions)
    requires Stands(p, first.1 + |EncodeAll(codingQ.code, others)|, EncodeAll(codingA.code, list))
    requires Inverts(p, codingA, answers)
    ensures ParseWith(p, questions, answers)
         == Some(Report(U16Be(p, 0), U16Be(p, 2), first.0,
                        MapSeq(codingA.meaning, list[..Min(|list|, MAX_ANSWERS)])))
  {
    var n, next := Min(|list|, MAX_ANSWERS), first.1 + |EncodeAll(codingQ.code, others)|;
    ListInverts(p, codingQ, questions, first.1, others, |others|);
    ListInverts(p, codingA, answers, next, list, n);
    BodyAt(p, questions, answers, first, next, MapSeq(codingA.meaning, list[..n]));
  }

  lemma AllParts<Q(!new), A(!new)>(
    p: seq<byte>, questions: ItemReader<Asked>, answers: ItemReader<seq<Data>>, id: u16, flags: u16, other: seq<byte>,
    first: Q, others: seq<Q>, list: seq<A>, codingQ: Coding<Q, Asked>, codingA: Coding<A, seq<Data>>,
    head: seq<byte>, q: seq<byte>, qs: seq<byte>, ans: seq<byte>)
    requires |others| < MAX_QUESTIONS && |list| < 0x1_0000 && |other| == 4 && p == head + q + qs + ans
    requires head == EncodeHeader(id, flags, |others| + 1, |list|, other) && q == codingQ.code(first)
    requires qs == EncodeAll(codingQ.code, others) && ans == EncodeAll(codingA.code, list)
    requires codingQ.ok(first) && (forall q :: q in others ==> codingQ.ok(q)) && forall a :: a in list ==> codingA.ok(a)
    requires Inverts(p, codingQ, questions) && Inverts(p, codingA, answers)
    ensures ParseWith(p, questions, answers)
         == Some(Report(id, flags, codingQ.meaning(first),
                        MapSeq(codingA.meaning, list[..Min(|list|, MAX_ANSWERS)])))
  {
    PartsStand(p, head, q, qs, ans);
    HeaderAt(p, id, flags, |others| + 1, |list|, other);
    assert InvertsOne(p, codingQ, questions, first, 12);
    BodyInverts(p, questions, answers, (codingQ.meaning(first), 12 + |q|), others, list, codingQ, codingA);
  }

  lemma ItemsInvert(p: seq<byte>)
    ensures Inverts(p, QuestionCoding(ResolvesIn(p)), QuestionsIn(p))
    ensures Inverts(p, RecordCoding(ResolvesIn(p)), AnswersIn(p))
  {
    NamesInvert(p);
    QuestionsInvert(p, NamesIn(p), ResolvesIn(p), QuestionsIn(p));
    RecordsInvert(p, NamesIn(p), ResolvesIn(p), AnswersIn(p));
  }

  lemma WholeMessage(
    p: seq<byte>, m: Sent, questions: ItemReader<Asked>, answers: ItemReader<seq<Data>>,
    codingQ: Coding<Question, Asked>, codingA: Coding<ResourceRecord, seq<Data>>,
    head: seq<byte>, q: seq<byte>, qs: seq<byte>, ans: seq<byte>)
    requires ValidSent(m) && p == head + q + qs + ans && codingQ.ok(m.first)
    requires head == EncodeHeader(m.id, m.flags, |m.others| + 1, |m.answers|, m.other) && q == codingQ.code(m.first)
    requires qs == EncodeAll(codingQ.code, m.others) && ans == EncodeAll(codingA.code, m.answers)
    requires (forall q :: q in m.others ==> codingQ.ok(q)) && forall a :: a in m.answers ==> codingA.ok(a)
    requires codingQ.meaning == AskedOf && Inverts(p, codingQ, questions)
    requires codingA.meaning == KeptOf && Inverts(p, codingA, answers)
    ensures ParseWith(p, questions, answers) == Some(Received(m))
  {
    AllParts(p, questions, answers, m.id, m.flags, m.other, m.first, m.others, m.answers, codingQ, codingA, head, q, qs,
             ans);
  }

  /**
   * Reading inverts writing: the first question and, of a response, its code and the first 64 answers, whatever mix of
   * record types, further questions and compression the message carries.
   */
  lemma MessageRoundTrip(m: Sent)
    requires ValidSent(m) && WellCompressed(m)
    ensures Parse(Encode(m)) == Some(Received(m))
  {
    var p := Encode(m);
    ItemsInvert(p);
    WholeMessage(p, m, QuestionsIn(p), AnswersIn(p), QuestionCoding(ResolvesIn(p)), RecordCoding(ResolvesIn(p)),
                 EncodeHeader(m.id, m.flags, |m.others| + 1, |m.answers|, m.other), EncodeQuestion(m.first),
                 EncodeAll(EncodeQuestion, m.others), EncodeAll(RecordCode, m.answers));
  }

  lemma InThree<T>(a: seq<T>, b: seq<T>, c: seq<T>)
    ensures a + (b + c) == a + b + c
  {
  }

  lemma OneLabelMore(first: Label, rest: seq<Label>, labels: seq<Label>)
    requires labels == [first] + rest && ValidLabels(labels)
    ensures ValidLabels(rest) && EncodeLabels(labels) == [|first|] + first + EncodeLabels(rest)
  {
    assert labels[1..] == rest;
  }

  lemma {:induction false} LabelsJoin(front: seq<Label>, back: seq<Label>, labels: seq<Label>)
    requires labels == front + back && ValidLabels(labels) && ValidLabels(front) && ValidLabels(back)
    ensures EncodeLabels(labels) == EncodeLabels(front) + EncodeLabels(back)
    decreases front
  {
    if front == [] {
      assert labels == back;
    } else {
      var first, rest := front[0], front[1..];
      assert front == [first] + rest && labels == [first] + (rest + back);
      OneLabelMore(first, rest, front);
      OneLabelMore(first, rest + back, labels);
      LabelsJoin(rest, back, rest + back);
      InThree([|first|] + first, EncodeLabels(rest), EncodeLabels(back));
    }
  }

  lemma SuffixStands(p: seq<byte>, pos: nat, labels: Name, skip: nat)
    requires Stands(p, pos, EncodeName(labels)) && skip <= |labels|
    ensures ValidLabels(labels[skip..]) && WireLen(labels[skip..]) <= MAX_EXPANDED
    ensures Stands(p, pos + WireLen(labels[..skip]), EncodeName(labels[skip..]))
  {
    var front, back := labels[..skip], labels[skip..];
    assert labels == front + back;
    LabelsJoin(front, back, labels);
    InThree(EncodeLabels(front), EncodeLabels(back), [0]);
    StandsApart(p, pos, EncodeLabels(front), EncodeName(back));
  }

  /** What senders point at: any suffix of a name spelled out elsewhere in the message, in one jump. */
  lemma SuffixesAreTargets(p: seq<byte>, pos: nat, labels: Name, skip: nat, prefix: Name)
    requires Stands(p, pos, EncodeName(labels)) && skip <= |labels| && pos + WireLen(labels[..skip]) < 0x4000
    requires WireLen(prefix + labels[skip..]) <= MAX_EXPANDED
    ensures Resolves(p, Compressed(prefix, pos + WireLen(labels[..skip]), labels[skip..], 0))
  {
    var target, rest := pos + WireLen(labels[..skip]), labels[skip..];
    SuffixStands(p, pos, labels, skip);
    PlainNameAt(p, target, rest, target + WireLen(rest));
  }
}
