/** Which messages belong together, field by field, and what a message therefore does to the log in every run. */
module DnsExchange {
  import opened Bytes
  import opened DnsLog
  import opened DnsTracker

  // ----- one exchange

  /** The same text but for the case of ASCII letters. */
  predicate SameLetters(a: seq<byte>, b: seq<byte>) {
    && |a| == |b|
    && forall i :: 0 <= i < |a| ==>
         || a[i] == b[i]
         || (65 <= a[i] <= 90 && b[i] == a[i] + 32)
         || (65 <= b[i] <= 90 && a[i] == b[i] + 32)
  }

  predicate SameQuestion(p: Message, q: Message) {
    && p.transactionId == q.transactionId && p.protocol == q.protocol
    && SameLetters(p.domain, q.domain) && SameLetters(p.queryType, q.queryType)
  }

  /** The same client asks the same question. */
  predicate SameQuery(p: Message, q: Message) {
    p.sourceIp == q.sourceIp && p.sourcePort == q.sourcePort && SameQuestion(p, q)
  }

  predicate SameResponse(p: Message, q: Message) {
    p.destinationIp == q.destinationIp && p.destinationPort == q.destinationPort && SameQuestion(p, q)
  }

  /** The response goes to the client of the query and repeats its question. */
  predicate Answers(response: Message, query: Message) {
    && response.destinationIp == query.sourceIp && response.destinationPort == query.sourcePort
    && SameQuestion(response, query)
  }

  lemma LowerFoldsCase(a: seq<byte>, b: seq<byte>)
    ensures MapSeq(Lower, a) == MapSeq(Lower, b) <==> SameLetters(a, b)
  {
    var f, g := MapSeq(Lower, a), MapSeq(Lower, b);
    if f == g {
      assert forall i :: 0 <= i < |a| ==> f[i] == g[i];
    }
  }

  lemma UpperFoldsCase(a: seq<byte>, b: seq<byte>)
    ensures MapSeq(Upper, a) == MapSeq(Upper, b) <==> SameLetters(a, b)
  {
    var f, g := MapSeq(Upper, a), MapSeq(Upper, b);
    if f == g {
      assert forall i :: 0 <= i < |a| ==> f[i] == g[i];
    }
  }

  /** Two messages have one key exactly when they belong to one exchange. */
  lemma KeysAgreeIff(p: Message, q: Message)
    ensures p.isQuery && q.isQuery ==> (KeyOf(p) == KeyOf(q) <==> SameQuery(p, q))
    ensures !p.isQuery && !q.isQuery ==> (KeyOf(p) == KeyOf(q) <==> SameResponse(p, q))
    ensures !p.isQuery && q.isQuery ==> (KeyOf(p) == KeyOf(q) <==> Answers(p, q))
  {
    LowerFoldsCase(p.domain, q.domain);
    UpperFoldsCase(p.queryType, q.queryType);
  }

  // ----- what a response does to the log

  /** The entry can be answered: captured in this run, unanswered, of this exchange, and at most 30 s old. */
  predicate Waits(e: Entry, m: Message, ns: u64) {
    && e.live && e.record.question.isQuery && Answers(m, e.record.question)
    && e.record.responseMs == None && ns <= e.observedNs + 30_000_000_000
  }

  /** The entry with the response's answer and the whole milliseconds it took. */
  function WithAnswer(e: Entry, m: Message, ns: u64): Entry {
    var elapsed := if ns >= e.observedNs then ns - e.observedNs else 0;
    Entry(e.observedNs, e.key,
          Record(e.record.question, e.record.timestampMs, m.answer, Some(elapsed / 1_000_000)), e.live)
  }

  ghost predicate FirstToWait(log: seq<Entry>, i: nat, m: Message, ns: u64)
    requires i < |log|
  {
    Waits(log[i], m, ns) && forall j :: 0 <= j < i ==> !Waits(log[j], m, ns)
  }

  /** Only the first waiting entry changes: it gets the answer. */
  ghost predicate AnswersFirst(log: seq<Entry>, next: seq<Entry>, m: Message, ns: u64) {
    && |next| == |log|
    && forall i :: 0 <= i < |log| ==>
         next[i] == if FirstToWait(log, i, m, ns) then WithAnswer(log[i], m, ns) else log[i]
  }

  ghost predicate Keyed(log: seq<Entry>) {
    forall i :: 0 <= i < |log| && log[i].live ==>
      log[i].record.question.isQuery && log[i].key == KeyOf(log[i].record.question)
  }

  lemma WaitingIff(e: Entry, m: Message, ns: u64)
    requires !m.isQuery && (e.live ==> e.record.question.isQuery && e.key == KeyOf(e.record.question))
    ensures Waiting(e, KeyOf(m), ns) <==> Waits(e, m, ns)
  {
    KeysAgreeIff(m, e.record.question);
  }

  lemma ResponseListed(
      log: seq<Entry>, queries: map<MatchKey, u64>, responses: map<MatchKey, u64>, cap: nat, m: Message, ns: u64,
      ms: u64)
    requires Keyed(log) && !m.isQuery && !Duplicate(responses, KeyOf(m), ns)
    ensures AnswersFirst(log, Listed(log, queries, responses, cap, m, ns, ms), m, ns)
  {
    forall i | 0 <= i < |log|
      ensures Waiting(log[i], KeyOf(m), ns) <==> Waits(log[i], m, ns)
    {
      WaitingIff(log[i], m, ns);
    }
    var first := FirstWaiting(log, KeyOf(m), ns);
    assert forall i :: 0 <= i < |log| ==> (FirstToWait(log, i, m, ns) <==> i == first);
  }

  lemma ListedIsKeyed(
      log: seq<Entry>, queries: map<MatchKey, u64>, responses: map<MatchKey, u64>, cap: nat, m: Message, ns: u64,
      ms: u64)
    requires Keyed(log)
    ensures Keyed(Listed(log, queries, responses, cap, m, ns, ms))
  {
  }

  /** A query as it is listed. */
  function Unanswered(c: Captured): Entry {
    Entry(c.ns, KeyOf(c.message), Record(c.message, c.ms, Answer(None, [], []), None), true)
  }

  // ----- runs of the list model

  lemma {:induction false} RunIsKeyed(cap: nat, run: seq<Captured>)
    ensures Keyed(IdealRun(cap, run).log)
  {
    if run != [] {
      var front, c := run[..|run| - 1], run[|run| - 1];
      RunIsKeyed(cap, front);
      var s := IdealRun(cap, front);
      ListedIsKeyed(s.log, s.lastQuery, s.lastResponse, cap, c.message, c.ns, c.ms);
    }
  }

  /** The responses that answered a query. */
  function MatchedResponses(cap: nat, run: seq<Captured>): seq<Captured> {
    if run == [] then []
    else
      var front, c := run[..|run| - 1], run[|run| - 1];
      var before := MatchedResponses(cap, front);
      if !c.message.isQuery && IdealRun(cap, run).log != IdealRun(cap, front).log then before + [c] else before
  }

  /** When one of `cs` last belonged to the exchange of `m`. */
  function LastOf(cs: seq<Captured>, m: Message): Option<u64> {
    if cs == [] then None
    else
      var c := cs[|cs| - 1];
      if (if m.isQuery then SameQuery(c.message, m) else SameResponse(c.message, m)) then Some(c.ns)
      else LastOf(cs[..|cs| - 1], m)
  }

  /** The last of `cs` that belongs to the exchange of `m` came less than half a second ago. */
  predicate Repeats(cs: seq<Captured>, m: Message, ns: u64) {
    var last := LastOf(cs, m);
    last.Some? && ns < last.value + 500_000_000
  }

  /** A history of keys tells when each exchange last occurred in `cs`. */
  ghost predicate Dates(last: map<MatchKey, u64>, cs: seq<Captured>, queries: bool) {
    forall m: Message {:trigger KeyOf(m)} :: m.isQuery == queries ==>
      LastOf(cs, m) == if KeyOf(m) in last then Some(last[KeyOf(m)]) else None
  }

  lemma DatesDecide(last: map<MatchKey, u64>, cs: seq<Captured>, m: Message, ns: u64)
    requires Dates(last, cs, m.isQuery)
    ensures Duplicate(last, KeyOf(m), ns) <==> Repeats(cs, m, ns)
  {
  }

  lemma DatesGrow(last: map<MatchKey, u64>, cs: seq<Captured>, c: Captured, queries: bool)
    requires Dates(last, cs, queries) && c.message.isQuery == queries
    ensures Dates(last[KeyOf(c.message) := c.ns], cs + [c], queries)
  {
    assert (cs + [c])[..|cs|] == cs;
    forall m: Message | m.isQuery == queries
      ensures KeyOf(c.message) == KeyOf(m)
         <==> if m.isQuery then SameQuery(c.message, m) else SameResponse(c.message, m)
    {
      KeysAgreeIff(c.message, m);
    }
  }

  lemma MatchedOneMore(cap: nat, front: seq<Captured>, c: Captured, s: Ideal)
    requires s == IdealRun(cap, front)
    ensures var t := IdealIngest(s, cap, c.message, c.ns, c.ms);
            && IdealRun(cap, front + [c]) == t
            && MatchedResponses(cap, front + [c])
               == (if !c.message.isQuery && t.log != s.log then MatchedResponses(cap, front) + [c]
                   else MatchedResponses(cap, front))
            && AcceptedQueries(cap, front + [c])
               == (if c.message.isQuery && !Duplicate(s.lastQuery, KeyOf(c.message), c.ns)
                   then AcceptedQueries(cap, front) + [c] else AcceptedQueries(cap, front))
  {
    assert (front + [c])[..|front|] == front;
  }

  lemma MatchedChangesLog(s: Ideal, cap: nat, m: Message, ns: u64, ms: u64)
    requires !m.isQuery
    ensures var t := IdealIngest(s, cap, m, ns, ms);
            && t.lastQuery == s.lastQuery
            && t.lastResponse == if t.log != s.log then s.lastResponse[KeyOf(m) := ns] else s.lastResponse
  {
    var i := FirstWaiting(s.log, KeyOf(m), ns);
    if i < |s.log| {
      assert Answered(s.log[i], m.answer, ns) != s.log[i];
    }
  }

  lemma {:induction false} RunDates(cap: nat, run: seq<Captured>)
    ensures Dates(IdealRun(cap, run).lastQuery, AcceptedQueries(cap, run), true)
    ensures Dates(IdealRun(cap, run).lastResponse, MatchedResponses(cap, run), false)
  {
    if run != [] {
      var front, c := run[..|run| - 1], run[|run| - 1];
      var s := IdealRun(cap, front);
      assert run == front + [c];
      RunDates(cap, front);
      MatchedOneMore(cap, front, c, s);
      if c.message.isQuery {
        DatesGrow(s.lastQuery, AcceptedQueries(cap, front), c, true);
      } else {
        MatchedChangesLog(s, cap, c.message, c.ns, c.ms);
        DatesGrow(s.lastResponse, MatchedResponses(cap, front), c, false);
      }
    }
  }

  /**
   * In every run of the list model a query is dropped exactly when the same client asked the same question, and was
   * listed, less than half a second before; otherwise it is listed last.
   */
  lemma QueryIsListedIff(cap: nat, run: seq<Captured>, c: Captured)
    requires c.message.isQuery
    ensures AcceptedQueries(cap, run + [c])
         == if Repeats(AcceptedQueries(cap, run), c.message, c.ns) then AcceptedQueries(cap, run)
            else AcceptedQueries(cap, run) + [c]
    ensures IdealRun(cap, run + [c]).log
         == if Repeats(AcceptedQueries(cap, run), c.message, c.ns) then IdealRun(cap, run).log
            else LastN(IdealRun(cap, run).log + [Unanswered(c)], cap)
  {
    MatchedOneMore(cap, run, c, IdealRun(cap, run));
    RunDates(cap, run);
    DatesDecide(IdealRun(cap, run).lastQuery, AcceptedQueries(cap, run), c.message, c.ns);
  }

  /**
   * In every run of the list model a response answers the first entry that waits for it, and no other, unless a
   * response of the same exchange answered a query less than half a second before.
   */
  lemma ResponseAnswersFirst(cap: nat, run: seq<Captured>, c: Captured)
    requires !c.message.isQuery
    ensures var log, next := IdealRun(cap, run).log, IdealRun(cap, run + [c]).log;
            if Repeats(MatchedResponses(cap, run), c.message, c.ns) then next == log
            else AnswersFirst(log, next, c.message, c.ns)
  {
    var s := IdealRun(cap, run);
    MatchedOneMore(cap, run, c, s);
    RunDates(cap, run);
    DatesDecide(s.lastResponse, MatchedResponses(cap, run), c.message, c.ns);
    RunIsKeyed(cap, run);
    if !Duplicate(s.lastResponse, KeyOf(c.message), c.ns) {
      ResponseListed(s.log, s.lastQuery, s.lastResponse, cap, c.message, c.ns, c.ms);
    }
  }

  // ----- histories of the monitor

  /** Some message of the exchange of `m` among `cs` came less than half a second ago. */
  ghost predicate RecentlySeen(cs: seq<Captured>, m: Message, ns: u64) {
    exists i :: 0 <= i < |cs| && ns < cs[i].ns + 500_000_000
                && (if m.isQuery then SameQuery(cs[i].message, m) else SameResponse(cs[i].message, m))
  }

  /** The responses that answered a query. */
  function MatchedIn(h: History): seq<Captured> {
    if h.Begin? then []
    else if !h.message.isQuery && h.state.core.records != h.before.state.core.records then
      MatchedIn(h.before) + [Captured(h.message, h.ns, h.ms)]
    else MatchedIn(h.before)
  }

  ghost predicate Came(cs: seq<Captured>, k: MatchKey, ns: u64, queries: bool) {
    exists i :: 0 <= i < |cs| && cs[i].message.isQuery == queries && KeyOf(cs[i].message) == k && cs[i].ns == ns
  }

  /** Every entry of a cache is a message that came. */
  ghost predicate Grounded(cache: Cache, cs: seq<Captured>, queries: bool) {
    forall k :: k in cache ==> Came(cs, k, cache[k], queries)
  }

  lemma GroundedGrows(cache: Cache, cs: seq<Captured>, c: Captured, queries: bool)
    requires Grounded(cache, cs, queries) && c.message.isQuery == queries
    ensures Grounded(cache, cs + [c], queries)
    ensures Grounded(cache[KeyOf(c.message) := c.ns], cs + [c], queries)
  {
    var more := cs + [c];
    assert more[|cs|] == c;
    forall k | k in cache
      ensures Came(more, k, cache[k], queries)
    {
      var i :| 0 <= i < |cs| && cs[i].message.isQuery == queries && KeyOf(cs[i].message) == k && cs[i].ns == cache[k];
      assert more[i] == cs[i];
    }
  }

  lemma PrunedIsGrounded(before: Cache, after: Cache, now: u64, limit: nat, cs: seq<Captured>, queries: bool)
    requires Grounded(before, cs, queries) && Pruned(before, after, now, limit)
    ensures Grounded(after, cs, queries)
  {
    assert forall k :: k in after ==> k in before && after[k] == before[k];
  }

  lemma DuplicateWasSeen(cache: Cache, cs: seq<Captured>, m: Message, ns: u64)
    requires Grounded(cache, cs, m.isQuery) && Duplicate(cache, KeyOf(m), ns)
    ensures RecentlySeen(cs, m, ns)
  {
    var k := KeyOf(m);
    var i :| 0 <= i < |cs| && cs[i].message.isQuery == m.isQuery && KeyOf(cs[i].message) == k && cs[i].ns == cache[k];
    KeysAgreeIff(cs[i].message, m);
  }

  /** At most one entry changes, one that waits for the response. */
  ghost predicate AnswersOne(log: seq<Entry>, next: seq<Entry>, m: Message, ns: u64) {
    next == log || exists i :: 0 <= i < |log| && Waits(log[i], m, ns) && next == log[i := WithAnswer(log[i], m, ns)]
  }

  lemma TakenWaits(c: Core, m: Message, ns: u64, i: nat)
    requires Ordered(c) && Keyed(LogOf(c)) && !m.isQuery && i < |c.order|
    requires IsWaiting(c, c.order[i], KeyOf(m)) && !Expired(c.records, c.order[i], ns)
    ensures Waits(LogOf(c)[i], m, ns)
  {
    WaitingIff(LogOf(c)[i], m, ns);
  }

  lemma AnswerChangesOne(c: Core, m: Message, ns: u64)
    requires Ordered(c) && Indexed(c) && Keyed(LogOf(c)) && !m.isQuery
    ensures var (d, id) := AnswerWaiting(c, KeyOf(m), m.answer, ns);
            Ordered(d) && AnswersOne(LogOf(c), LogOf(d), m, ns) && (id.Some? <==> d.records != c.records)
  {
    AnswerKeepsIndex(c, KeyOf(m), m.answer, ns);
    var (d, id) := AnswerWaiting(c, KeyOf(m), m.answer, ns);
    if id.Some? {
      var i :| 0 <= i < |c.order| && c.order[i] == id.value;
      TakenWaits(c, m, ns, i);
      AnsweredLog(c, d, i, m.answer, ns);
      assert d.records[id.value].record.responseMs.Some?;
    } else {
      assert LogOf(d) == LogOf(c);
    }
  }

  lemma OneAnsweredIsKeyed(log: seq<Entry>, next: seq<Entry>, m: Message, ns: u64)
    requires Keyed(log) && AnswersOne(log, next, m, ns)
    ensures Keyed(next)
  {
  }

  /** What is known of a reachable state: its entries have the keys of their questions, its caches what came. */
  ghost predicate Recorded(h: History)
    requires Ordered(h.state.core)
  {
    && Keyed(LogOf(h.state.core))
    && Grounded(h.state.queries, LetThrough(h), true)
    && Grounded(h.state.responses, MatchedIn(h), false)
  }

  lemma QueryRecorded(h: History, cap: nat)
    requires h.Then? && h.message.isQuery && Fit(h.before.state, cap) && Fit(h.state, cap) && Recorded(h.before)
    requires Ingested(h.before.state, cap, h.message, h.ns, h.ms, h.state)
    ensures Recorded(h)
  {
    var a, c := h.before.state, Captured(h.message, h.ns, h.ms);
    IngestedOrigins(a, cap, h.message, h.ns, h.ms, h.state);
    ListedIsKeyed(LogOf(a.core), a.queries, a.responses, cap, h.message, h.ns, h.ms);
    if !Dropped(a, h.message, h.ns) {
      GroundedGrows(a.queries, LetThrough(h.before), c, true);
      PrunedIsGrounded(NotedQueries(a, h.message, h.ns), h.state.queries, h.ns, 2 * cap, LetThrough(h), true);
      PrunedIsGrounded(NotedResponses(a, h.message, h.ns), h.state.responses, h.ns, 2 * cap, MatchedIn(h), false);
    }
  }

  lemma ResponseRecorded(h: History, cap: nat)
    requires h.Then? && !h.message.isQuery && Fit(h.before.state, cap) && Fit(h.state, cap) && Recorded(h.before)
    requires Ingested(h.before.state, cap, h.message, h.ns, h.ms, h.state)
    ensures Recorded(h)
    ensures AnswersOne(LogOf(h.before.state.core), LogOf(h.state.core), h.message, h.ns)
  {
    var a, c := h.before.state, Captured(h.message, h.ns, h.ms);
    if !Dropped(a, h.message, h.ns) {
      AnswerChangesOne(a.core, h.message, h.ns);
      OneAnsweredIsKeyed(LogOf(a.core), LogOf(h.state.core), h.message, h.ns);
      GroundedGrows(a.responses, MatchedIn(h.before), c, false);
      PrunedIsGrounded(NotedQueries(a, h.message, h.ns), h.state.queries, h.ns, 2 * cap, LetThrough(h), true);
      PrunedIsGrounded(NotedResponses(a, h.message, h.ns), h.state.responses, h.ns, 2 * cap, MatchedIn(h), false);
    }
  }

  lemma {:induction false} HistoryIsRecorded(h: History, cap: nat)
    requires Reachable(h, cap)
    ensures Fit(h.state, cap) && Recorded(h)
  {
    ReachableIsFit(h, cap);
    if h.Then? {
      HistoryIsRecorded(h.before, cap);
      if h.message.isQuery {
        QueryRecorded(h, cap);
      } else {
        ResponseRecorded(h, cap);
      }
    }
  }

  /**
   * In every history, whatever the timestamps and the hard cap do: a query is dropped, changing nothing, only if the
   * same client's same question was let through less than half a second before; otherwise it is listed last.
   */
  lemma DroppedQueryWasSeen(h: History, cap: nat)
    requires Reachable(h, cap) && h.Then? && h.message.isQuery
    ensures Ordered(h.before.state.core) && Ordered(h.state.core)
    ensures || (h.state == h.before.state && LetThrough(h) == LetThrough(h.before)
                && RecentlySeen(LetThrough(h.before), h.message, h.ns))
            || (LetThrough(h) == LetThrough(h.before) + [Captured(h.message, h.ns, h.ms)]
                && LogOf(h.state.core)
                   == LastN(LogOf(h.before.state.core) + [Unanswered(Captured(h.message, h.ns, h.ms))], cap))
  {
    HistoryIsRecorded(h.before, cap);
    IngestedOrigins(h.before.state, cap, h.message, h.ns, h.ms, h.state);
    if Dropped(h.before.state, h.message, h.ns) {
      DuplicateWasSeen(h.before.state.queries, LetThrough(h.before), h.message, h.ns);
    }
  }

  /**
   * In every history a response changes at most one entry: a live, unanswered query, at most 30 s old, of the client
   * the response is sent to, with the same question. That entry gets the response's answer and time.
   */
  lemma ResponseAnswersItsQuery(h: History, cap: nat)
    requires Reachable(h, cap) && h.Then? && !h.message.isQuery
    ensures Ordered(h.before.state.core) && Ordered(h.state.core)
    ensures AnswersOne(LogOf(h.before.state.core), LogOf(h.state.core), h.message, h.ns)
  {
    HistoryIsRecorded(h.before, cap);
    ReachableIsFit(h, cap);
    ResponseRecorded(h, cap);
  }

  /**
   * If besides time never ran backwards, the response answers the first entry that waits for it, unless one of the
   * same exchange answered a query less than half a second before.
   */
  lemma ResponseAnswersFirstInTime(h: History, cap: nat)
    requires Reachable(h, cap) && TimeForward(h) && h.Then? && !h.message.isQuery
    ensures Ordered(h.before.state.core) && Ordered(h.state.core)
    ensures || (h.state == h.before.state && RecentlySeen(MatchedIn(h.before), h.message, h.ns))
            || AnswersFirst(LogOf(h.before.state.core), LogOf(h.state.core), h.message, h.ns)
  {
    var a := h.before.state;
    HistoryIsRecorded(h.before, cap);
    IndexAgreesWithScan(h, cap);
    if Dropped(a, h.message, h.ns) {
      DuplicateWasSeen(a.responses, MatchedIn(h.before), h.message, h.ns);
    } else {
      ResponseListed(LogOf(a.core), a.queries, a.responses, cap, h.message, h.ns, h.ms);
    }
  }

  // ----- saved and listed again

  predicate Spells(code: seq<byte>, text: string) {
    |code| == |text| && forall i :: 0 <= i < |code| ==> code[i] == text[i] as int
  }

  /** A reloaded record is the saved one, marked if it got no answer, and no response can answer it any more. */
  lemma ReloadedRecord(log: seq<Entry>, cap: nat, i: nat)
    requires |log| <= cap && i < |log|
    ensures var e, r := MapSeq(Restored, LastN(MapSeq(RecordOf, log), cap))[i], log[i].record;
            && !e.live && e.record.question == r.question && e.record.timestampMs == r.timestampMs
            && e.record.responseMs == r.responseMs
            && e.record.answer.ips == r.answer.ips && e.record.answer.records == r.answer.records
            && if r.responseMs.None? && r.answer.code.None?
               then e.record.answer.code.Some? && Spells(e.record.answer.code.value, "NO_RESPONSE")
               else e.record.answer.code == r.answer.code
  {
  }
}
