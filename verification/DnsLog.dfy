/** The DNS query log as a plain list: what each captured message should do, and what follows over whole runs. */
module DnsLog {
  import opened Bytes

  const DEDUP_WINDOW_NS: u64 := 500_000_000
  const MAX_MATCH_AGE_NS: u64 := 30_000_000_000
  const MAX_RESPONSE_MS := 30_000

  datatype MatchKey = MatchKey(
    clientIp: seq<byte>, clientPort: u16, transactionId: u16,
    domain: seq<byte>, queryType: seq<byte>, protocol: seq<byte>)

  datatype Answer = Answer(code: Option<seq<byte>>, ips: seq<seq<byte>>, records: seq<seq<byte>>)

  datatype Message = Message(
    isQuery: bool, sourceIp: seq<byte>, destinationIp: seq<byte>, sourcePort: u16, destinationPort: u16,
    transactionId: u16, domain: seq<byte>, queryType: seq<byte>, protocol: seq<byte>, answer: Answer)

  function Lower(b: byte): byte {
    if 65 <= b <= 90 then b + 32 else b
  }

  function Upper(b: byte): byte {
    if 97 <= b <= 122 then b - 32 else b
  }

  /** Queries and responses of one exchange agree on the client endpoint, id, question and transport. */
  function KeyOf(m: Message): MatchKey {
    MatchKey(if m.isQuery then m.sourceIp else m.destinationIp,
             if m.isQuery then m.sourcePort else m.destinationPort,
             m.transactionId, MapSeq(Lower, m.domain), MapSeq(Upper, m.queryType), m.protocol)
  }

  /** `question` stands for the fields that never change; `responseMs` is set by the answer. */
  datatype Record = Record(question: Message, timestampMs: u64, answer: Answer, responseMs: Option<u64>)

  datatype Entry = Entry(observedNs: u64, key: MatchKey, record: Record, live: bool)

  const NO_ANSWER := Answer(None, [], [])
  const NO_RESPONSE: seq<byte> := [0x4e, 0x4f, 0x5f, 0x52, 0x45, 0x53, 0x50, 0x4f, 0x4e, 0x53, 0x45]  // "NO_RESPONSE"

  function NewEntry(m: Message, ns: u64, ms: u64): Entry {
    Entry(ns, KeyOf(m), Record(m, ms, NO_ANSWER, None), true)
  }

  predicate Waiting(e: Entry, key: MatchKey, ns: u64) {
    e.live && e.key == key && e.record.responseMs.None? && SatSub(ns, e.observedNs) <= MAX_MATCH_AGE_NS
  }

  /** The first entry in arrival order a response may answer; `|log|` when there is none. */
  function FirstWaiting(log: seq<Entry>, key: MatchKey, ns: u64): (i: nat)
    ensures i <= |log| && (i < |log| ==> Waiting(log[i], key, ns))
    ensures forall j :: 0 <= j < i ==> !Waiting(log[j], key, ns)
  {
    if log == [] then 0
    else
      var i := FirstWaiting(log[..|log| - 1], key, ns);
      if i < |log| - 1 || Waiting(log[|log| - 1], key, ns) then i else |log|
  }

  function Answered(e: Entry, a: Answer, ns: u64): Entry {
    e.(record := e.record.(answer := a, responseMs := Some(SatSub(ns, e.observedNs) / 1_000_000)))
  }

  /** The log and, per key, when a query was last accepted and a response last matched, kept forever. */
  datatype Ideal = Ideal(log: seq<Entry>, lastQuery: map<MatchKey, u64>, lastResponse: map<MatchKey, u64>)

  const NOTHING_SEEN := Ideal([], map[], map[])

  predicate Duplicate(last: map<MatchKey, u64>, key: MatchKey, ns: u64) {
    key in last && SatSub(ns, last[key]) < DEDUP_WINDOW_NS
  }

  /** What a message does to the log, given what counts as a duplicate; a scan from the front finds what it answers. */
  function Listed(
    log: seq<Entry>, queries: map<MatchKey, u64>, responses: map<MatchKey, u64>, cap: nat, m: Message, ns: u64, ms: u64)
    : seq<Entry>
  {
    if m.isQuery then if Duplicate(queries, KeyOf(m), ns) then log else LastN(log + [NewEntry(m, ns, ms)], cap)
    else if Duplicate(responses, KeyOf(m), ns) then log
    else
      var i := FirstWaiting(log, KeyOf(m), ns);
      if i == |log| then log else log[i := Answered(log[i], m.answer, ns)]
  }

  function IdealIngest(s: Ideal, cap: nat, m: Message, ns: u64, ms: u64): Ideal {
    var key := KeyOf(m);
    var log := Listed(s.log, s.lastQuery, s.lastResponse, cap, m, ns, ms);
    if m.isQuery then
      if Duplicate(s.lastQuery, key, ns) then s else Ideal(log, s.lastQuery[key := ns], s.lastResponse)
    else if Duplicate(s.lastResponse, key, ns) || FirstWaiting(s.log, key, ns) == |s.log| then s
    else Ideal(log, s.lastQuery, s.lastResponse[key := ns])
  }

  // ----- whole runs

  datatype Captured = Captured(message: Message, ns: u64, ms: u64)

  function IdealRun(cap: nat, run: seq<Captured>): Ideal {
    if run == [] then NOTHING_SEEN
    else
      var c := run[|run| - 1];
      IdealIngest(IdealRun(cap, run[..|run| - 1]), cap, c.message, c.ns, c.ms)
  }

  ghost predicate Chronological(run: seq<Captured>) {
    forall i, j :: 0 <= i < j < |run| ==> run[i].ns <= run[j].ns
  }

  /** The queries that were not dropped as duplicates, in order. */
  function AcceptedQueries(cap: nat, run: seq<Captured>): seq<Captured> {
    if run == [] then []
    else
      var front, c := run[..|run| - 1], run[|run| - 1];
      var before := AcceptedQueries(cap, front);
      if c.message.isQuery && !Duplicate(IdealRun(cap, front).lastQuery, KeyOf(c.message), c.ns) then before + [c]
      else before
  }

  function Origin(e: Entry): Captured {
    Captured(e.record.question, e.observedNs, e.record.timestampMs)
  }

  /** The log always lists the newest `cap` accepted queries, answered or not. */
  lemma {:induction false} LogIsNewestAccepted(cap: nat, run: seq<Captured>)
    ensures MapSeq(Origin, IdealRun(cap, run).log) == LastN(AcceptedQueries(cap, run), cap)
  {
    if run != [] {
      var front, c := run[..|run| - 1], run[|run| - 1];
      LogIsNewestAccepted(cap, front);
      var s := IdealRun(cap, front);
      if c.message.isQuery {
        var e := NewEntry(c.message, c.ns, c.ms);
        MapNewest(Origin, s.log, e, cap);
        LastNAppend(AcceptedQueries(cap, front), c, cap);
      }
    }
  }

  ghost predicate Spaced(qs: seq<Captured>) {
    forall i, j :: 0 <= i < j < |qs| && KeyOf(qs[i].message) == KeyOf(qs[j].message) ==>
      qs[j].ns - qs[i].ns >= DEDUP_WINDOW_NS
  }

  ghost predicate LastTimes(last: map<MatchKey, u64>, qs: seq<Captured>, now: u64) {
    && (forall i :: 0 <= i < |qs| ==> KeyOf(qs[i].message) in last && qs[i].ns <= last[KeyOf(qs[i].message)])
    && (forall k :: k in last ==> last[k] <= now)
  }

  /** Accepted queries of one exchange are at least half a second apart. */
  lemma {:induction false} AcceptedAreSpaced(cap: nat, run: seq<Captured>)
    requires Chronological(run)
    ensures Spaced(AcceptedQueries(cap, run))
    ensures LastTimes(IdealRun(cap, run).lastQuery, AcceptedQueries(cap, run),
                      if run == [] then 0 else run[|run| - 1].ns)
  {
    if run != [] {
      var front, c := run[..|run| - 1], run[|run| - 1];
      AcceptedAreSpaced(cap, front);
      assert front != [] ==> front[|front| - 1].ns <= c.ns;
    }
  }

  /** Every live answer came within the match age, so its time is at most 30 seconds. */
  lemma {:induction false} ResponseTimesBounded(cap: nat, run: seq<Captured>, i: nat)
    requires i < |IdealRun(cap, run).log| && IdealRun(cap, run).log[i].record.responseMs.Some?
    ensures IdealRun(cap, run).log[i].record.responseMs.value <= MAX_RESPONSE_MS
  {
    if run != [] {
      var front, c := run[..|run| - 1], run[|run| - 1];
      var s, t := IdealRun(cap, front), IdealRun(cap, run);
      if c.message.isQuery && t != s {
        var all := s.log + [NewEntry(c.message, c.ns, c.ms)];
        var j := |all| - |t.log| + i;
        assert t.log[i] == all[j];
        if j < |s.log| {
          ResponseTimesBounded(cap, front, j);
        }
      } else if t.log[i] == s.log[i] {
        ResponseTimesBounded(cap, front, i);
      }
    }
  }

  function Accepted(queries: map<MatchKey, u64>, m: Message, ns: u64): nat {
    if m.isQuery && !Duplicate(queries, KeyOf(m), ns) then 1 else 0
  }

  /** An answered entry that one message leaves in the log is left as it was. */
  lemma AnswerIsKept(
    log: seq<Entry>, queries: map<MatchKey, u64>, responses: map<MatchKey, u64>, cap: nat, m: Message, ns: u64,
    ms: u64, i: nat)
    requires i < |log| && log[i].record.responseMs.Some?
    ensures var next := Listed(log, queries, responses, cap, m, ns, ms);
            var evicted := |log| + Accepted(queries, m, ns) - |next|;
            evicted <= i ==> next[i - evicted] == log[i]
  {
  }

  /** How many accepted queries have left the log again. */
  function Gone(cap: nat, run: seq<Captured>): nat {
    LogIsNewestAccepted(cap, run);
    |AcceptedQueries(cap, run)| - |IdealRun(cap, run).log|
  }

  /** The log shows `e` as the `q`th accepted query. */
  predicate Shows(cap: nat, run: seq<Captured>, q: nat, e: Entry) {
    Gone(cap, run) <= q < |AcceptedQueries(cap, run)| && IdealRun(cap, run).log[q - Gone(cap, run)] == e
  }

  lemma OneMoreMessage(cap: nat, front: seq<Captured>, c: Captured)
    ensures var s, run := IdealRun(cap, front), front + [c];
            && IdealRun(cap, run).log == Listed(s.log, s.lastQuery, s.lastResponse, cap, c.message, c.ns, c.ms)
            && |AcceptedQueries(cap, run)| == |AcceptedQueries(cap, front)| + Accepted(s.lastQuery, c.message, c.ns)
  {
    var run := front + [c];
    assert run[..|run| - 1] == front;
  }

  lemma KeptOneMore(cap: nat, front: seq<Captured>, c: Captured, q: nat, e: Entry)
    requires Shows(cap, front, q, e) && e.record.responseMs.Some?
    ensures Gone(cap, front) <= Gone(cap, front + [c])
    ensures Shows(cap, front + [c], q, e) || q < Gone(cap, front + [c])
  {
    var s := IdealRun(cap, front);
    OneMoreMessage(cap, front, c);
    AnswerIsKept(s.log, s.lastQuery, s.lastResponse, cap, c.message, c.ns, c.ms, q - Gone(cap, front));
    ListedSize(s.log, s.lastQuery, s.lastResponse, cap, c.message, c.ns, c.ms);
  }

  lemma ListedSize(
    log: seq<Entry>, queries: map<MatchKey, u64>, responses: map<MatchKey, u64>, cap: nat, m: Message, ns: u64, ms: u64)
    ensures |Listed(log, queries, responses, cap, m, ns, ms)| <= |log| + Accepted(queries, m, ns)
  {
  }

  lemma {:induction false} GoneGrows(cap: nat, run: seq<Captured>, n: nat)
    requires n <= |run|
    ensures Gone(cap, run[..n]) <= Gone(cap, run)
    decreases |run|
  {
    if n == |run| {
      assert run[..n] == run;
    } else {
      var front := run[..|run| - 1];
      assert front[..n] == run[..n];
      GoneGrows(cap, front, n);
      LogIsNewestAccepted(cap, front);
      LogIsNewestAccepted(cap, run);
    }
  }

  /**
   * Over whole runs a query is answered at most once: from the moment the `q`th accepted query is answered, the log
   * shows it with that answer until it is evicted.
   */
  lemma {:induction false} AnsweredOnce(cap: nat, run: seq<Captured>, n: nat, q: nat, e: Entry)
    requires n <= |run| && Shows(cap, run[..n], q, e) && e.record.responseMs.Some?
    ensures Shows(cap, run, q, e) || q < Gone(cap, run)
    decreases |run|
  {
    if n == |run| {
      assert run[..n] == run;
    } else {
      var front, c := run[..|run| - 1], run[|run| - 1];
      assert front[..n] == run[..n] && run == front + [c];
      AnsweredOnce(cap, front, n, q, e);
      if Shows(cap, front, q, e) {
        KeptOneMore(cap, front, c, q, e);
      } else {
        GoneGrows(cap, run, |front|);
      }
    }
  }

  // ----- persistence

  /** Reloading turns an unanswered record into one that got no response. */
  function Marked(r: Record): Record {
    if r.responseMs.None? && r.answer.code.None? then r.(answer := r.answer.(code := Some(NO_RESPONSE))) else r
  }

  function Restored(r: Record): Entry {
    Entry(0, KeyOf(r.question.(isQuery := true)), Marked(r), false)
  }

  function RecordOf(e: Entry): Record {
    e.record
  }

  /** Saving and reloading keeps every record and every answer; doing it again changes nothing. */
  lemma ReloadKeepsRecords(log: seq<Entry>, cap: nat)
    requires |log| <= cap
    ensures var saved := MapSeq(RecordOf, log);
            var reloaded := MapSeq(Restored, LastN(saved, cap));
            && MapSeq(RecordOf, reloaded) == MapSeq(Marked, saved)
            && MapSeq(Restored, MapSeq(RecordOf, reloaded)) == reloaded
  {
  }
}
