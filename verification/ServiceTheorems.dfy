/**
 What serving requests guarantees: the receipts that audit ids are over the life of the
 service, what the provider can tell two requests apart by, and what the client gets back.
 */
module ServiceTheorems {
  import opened Wrappers
  import opened Text
  import opened Tokens
  import opened Tokenization
  import opened Policy
  import opened Mediator
  import opened RequestModel
  import opened RoundTrip
  import opened NonInterference
  import opened ResponseScan
  import opened AuditModel
  import opened CheckpointStore
  import opened Pipeline
  import AuditTheorems
  import AuditLogger

  // ---------- One request ----------

  /** An exception leaves the handler without a record: the request is cancelled during the
      provider call, the reply cannot be hashed, or the research mode fails. */
  ghost predicate Escaping(s: Service, body: Body, env: Env)
    requires ValidEnv(s.policy, body, env)
  {
    && Reaches(s.policy, body, env)
    && match env.provider
       case TypedFailure(_, _) => false
       case OtherFailure => false
       case Cancelled => true
       case Reply(choices, encodable, _) =>
         || !encodable
         || (s.archiving && !AllRedacted(env) && (s.scanning ==> AllScansPass(s.policy, choices, env.scans)))
  }

  /** One record per outcome: the table grows by exactly the row of this request, if and only
      if the append commits and no exception escapes before it. A 200 response has its row. */
  lemma OneRecord(s: Service, body: Body, env: Env, before: seq<Row>, after: seq<Row>,
                  namespace: string, run: Run, r: Response)
    requires Serves(s, body, env, before, after, namespace, run, r)
    ensures run.payload == None <==> Escaping(s, body, env)
    ensures run.committed <==> Commits(before, env.attempts) && !Escaping(s, body, env)
    ensures run.committed ==>
      && |after| == |before| + 1 && after[..|before|] == before
      && after[|before|].payload == s.codec.payload(run.payload.value) && after[|before|].id == NextId(before)
    ensures !run.committed ==> after == before
    ensures r.Ok? ==> run.committed && run.payload.value.event == ChatCompletion && r.auditId == NextId(before)
  {
    hide ValidAnalysis, ValidRedaction, FailsClosed, Delivers, IsPrompt, Summarizes, IsBlocked, Archived, Disjoint,
         AllScansPass, AllRedacted, Detects, AnyBlocked, AllComplete, AllScored;
  }

  /** Crashed requests are answered with a 500, if at all. */
  function ReportedStatus(r: Response): nat {
    match r
    case Ok(_, _) => 200
    case Failed(status, _) => status
    case Crashed => 500
  }

  /** Of a request whose record is committed the client is told the status on record, except
      when a success is recorded and then its checkpoint cannot be saved or the response
      cannot be rendered: then the client gets a 500. */
  lemma RecordedStatusIsReported(s: Service, body: Body, env: Env, before: seq<Row>, after: seq<Row>,
                                 namespace: string, run: Run, r: Response)
    requires Serves(s, body, env, before, after, namespace, run, r)
    requires Commits(before, env.attempts) && !Escaping(s, body, env)
    ensures run.committed
    ensures ReportedStatus(r) == run.payload.value.responseStatus
            <==> !(EventOf(s, body, env) == Some(ChatCompletion)
                   && ((s.storing && env.saving != NoFault) || !env.provider.renderable))
  {
    OneRecord(s, body, env, before, after, namespace, run, r);
    RecordDecides(before, env.attempts);
    ProviderOfCompletion(s, body, env);
    hide ValidEnv, FailsClosed, Delivers, IsPrompt, RowsAfter, EventOf, IsBlocked, Summarizes, Archived, Escaping,
         Detects;
  }

  lemma ProviderOfCompletion(s: Service, body: Body, env: Env)
    requires ValidEnv(s.policy, body, env)
    ensures EventOf(s, body, env) == Some(ChatCompletion) ==> env.provider.Reply?
  {
    hide ValidAnalysis, ValidRedaction, AllScansPass, AllRedacted, Detects, AnyBlocked, AllComplete;
  }

  /** Whatever happens, the provider is called at most once, only after every message was
      analyzed and sanitized and with no blocked detection among them; a 200 response has its
      record committed, and no value is restored before that. */
  lemma SafeRun(s: Service, body: Body, env: Env, before: seq<Row>, after: seq<Row>,
                namespace: string, run: Run, r: Response, p: nat)
    requires Serves(s, body, env, before, after, namespace, run, r) && p < |TraceOf(run)|
    ensures TraceOf(run)[p].ProviderCalled? ==>
      && !AnyBlocked(s.policy, env)
      && (forall i :: 0 <= i < |body.messages| ==>
            Analyzed(i) in TraceOf(run)[..p] && SanitizedText(i) in TraceOf(run)[..p])
      && (forall q :: 0 <= q < |TraceOf(run)| && TraceOf(run)[q].ProviderCalled? ==> q == p)
    ensures TraceOf(run)[p].Rehydrated? ==>
      run.payload.Some? && run.payload.value.event == ChatCompletion && Audited(run.payload.value, true) in TraceOf(run)[..p]
    ensures r.Ok? ==> run.payload.Some? && Audited(run.payload.value, true) in TraceOf(run)
  {
    hide TraceOf, Records, TableAfter, Commits, Escapes, Delivers, IsPrompt, AnyBlocked, ValidEnv, AllComplete,
         Detects;
    OneRecord(s, body, env, before, after, namespace, run, r);
    EffectsAreOrdered(run, |body.messages|, p);
  }

  /** The effects do take place: what is analyzed, sent, scanned, recorded and restored leaves
      its effect in the trace. */
  lemma EffectsTakePlace(s: Service, body: Body, env: Env, before: seq<Row>, after: seq<Row>,
                         namespace: string, run: Run, r: Response)
    requires Serves(s, body, env, before, after, namespace, run, r)
    ensures run.payload.Some? ==> Audited(run.payload.value, run.committed) in TraceOf(run)
    ensures run.payload.Some? && run.payload.value.decisions.Some? ==>
      forall i :: 0 <= i < |body.messages| ==> Analyzed(i) in TraceOf(run)
    ensures run.sent.Some? ==>
      && ProviderCalled(run.sent.value) in TraceOf(run)
      && forall i :: 0 <= i < |body.messages| ==> SanitizedText(i) in TraceOf(run)
    ensures r.Ok? && s.scanning ==> forall j :: 0 <= j < |r.choices| ==> ResponseScanned(j) in TraceOf(run)
    ensures r.Ok? && body.rehydrate && TokensOf(s.policy, namespace, RequestOf(body, env)) != map[] ==>
      forall j :: 0 <= j < |r.choices| ==> Rehydrated(j) in TraceOf(run)
  {
    hide Records, TableAfter, Agrees, TraceOf, IsPrompt, ValidEnv, TokensOf, Delivered, Disjoint, AllWellFormed,
         Reaches;
    var a := run.analyzed;
    var b := a + run.sanitized;
    var c := b + |Call(run)|;
    var d := c + run.scanned;
    var e := d + |Record(run)|;
    TraceLength(run);
    forall q: nat | q < |TraceOf(run)|
      ensures TraceOf(run)[q] == if q < a then Analyzed(q)
                                 else if q < b then SanitizedText(q - a)
                                 else if q < c then Call(run)[0]
                                 else if q < d then ResponseScanned(q - c)
                                 else if q < e then Record(run)[0]
                                 else Rehydrated(q - e)
    {
      TraceAt(run, q);
    }
    forall i: nat | i < a ensures Analyzed(i) in TraceOf(run) {
      assert TraceOf(run)[i] == Analyzed(i);
    }
    forall i: nat | i < run.sanitized ensures SanitizedText(i) in TraceOf(run) {
      assert TraceOf(run)[a + i] == SanitizedText(i);
    }
    forall j: nat | j < run.scanned ensures ResponseScanned(j) in TraceOf(run) {
      assert TraceOf(run)[c + j] == ResponseScanned(j);
    }
    forall j: nat | j < run.rehydrated ensures Rehydrated(j) in TraceOf(run) {
      assert TraceOf(run)[e + j] == Rehydrated(j);
    }
    assert run.sent.Some? ==> TraceOf(run)[b] == ProviderCalled(run.sent.value);
    assert run.payload.Some? ==> TraceOf(run)[d] == Audited(run.payload.value, run.committed);
  }

  lemma TraceLength(run: Run)
    ensures |TraceOf(run)|
         == run.analyzed + run.sanitized + |Call(run)| + run.scanned + |Record(run)| + run.rehydrated
  {
  }

  /** A request on a log whose stored checkpoint names one of its rows leaves such a pair: the
      log verifies against the checkpoint, and up to its tail exactly if the record was
      committed and its checkpoint saved, or nothing was recorded and the tail was verified
      before. */
  lemma TailAfterRequest(s: Service, body: Body, env: Env, before: seq<Row>, after: seq<Row>,
                         namespace: string, run: Run, r: Response, stored: Option<Checkpoint>)
    requires Serves(s, body, env, before, after, namespace, run, r) && AuditTheorems.Written(s.crypto, before)
    requires stored.Some? ==>
      1 <= stored.value.lastRecordId <= |before| && before[stored.value.lastRecordId - 1].mac == stored.value.lastRecordMac
    ensures var now := CheckpointAfter(stored, after, run.committed, env);
            now.Some? ==>
              && 1 <= now.value.lastRecordId <= |after| && after[now.value.lastRecordId - 1].mac == now.value.lastRecordMac
              && var v := VerifyWithStore(s.crypto, after, Loaded(now));
                 && IsValid(v)
                 && (v.tailVerified <==>
                       if run.committed then env.saving == NoFault else now.value.lastRecordId == |before|)
    ensures run.committed && env.saving == NoFault ==> CheckpointAfter(stored, after, run.committed, env).Some?
  {
    hide Serves, AuditTheorems.Written, Verify;
    var o := Served(body, env, namespace, run, r, after);
    ServedStep(s, o, before);
    var now := CheckpointAfter(stored, after, run.committed, env);
    if now.Some? {
      WrittenIds(s.crypto, after, |after| - 1);
      WrittenIsGood(s.crypto, after);
      AuditTheorems.NamedRowVerifies(s.crypto, after, now.value);
    }
  }

  lemma WrittenIsGood(c: Crypto, rows: seq<Row>)
    requires AuditTheorems.Written(c, rows)
    ensures AuditTheorems.AllGood(c, rows)
  {
  }

  // ---------- The life of the service ----------

  /** One request served, with the table as it is left. */
  datatype Served = Served(body: Body, env: Env, namespace: string, run: Run, response: Response, rows: seq<Row>)

  function RowsUpTo(served: seq<Served>, i: nat): seq<Row>
    requires i <= |served|
  {
    if i == 0 then [] else served[i - 1].rows
  }

  /** Requests served one after another, from an empty table on. */
  ghost predicate History(s: Service, served: seq<Served>) {
    forall i :: 0 <= i < |served| ==>
      Serves(s, served[i].body, served[i].env, RowsUpTo(served, i), served[i].rows,
             served[i].namespace, served[i].run, served[i].response)
  }

  function CommittedCount(served: seq<Served>): nat {
    if served == [] then 0
    else CommittedCount(served[..|served| - 1]) + if served[|served| - 1].run.committed then 1 else 0
  }

  lemma ServedStep(s: Service, o: Served, before: seq<Row>)
    requires Serves(s, o.body, o.env, before, o.rows, o.namespace, o.run, o.response)
    ensures o.run.committed ==>
      && o.run.payload.Some? && |o.rows| == |before| + 1 && before <= o.rows
      && o.rows[|before|].payload == s.codec.payload(o.run.payload.value)
    ensures !o.run.committed ==> o.rows == before
    ensures AuditTheorems.Written(s.crypto, before) ==> AuditTheorems.Written(s.crypto, o.rows)
  {
    OneRecord(s, o.body, o.env, before, o.rows, o.namespace, o.run, o.response);
    TableStaysWritten(s, before, o.run.payload, o.env.attempts);
    hide Records, FailsClosed, Delivers, IsPrompt, TableAfter, AuditTheorems.Written, Agrees, ValidEnv;
  }

  lemma TableStaysWritten(s: Service, rows: seq<Row>, payload: Option<AuditPayload>, attempts: seq<AuditLogger.Attempt>)
    ensures AuditTheorems.Written(s.crypto, rows) ==> AuditTheorems.Written(s.crypto, TableAfter(s, rows, payload, attempts))
  {
    hide RowsAfter, AuditTheorems.Written;
    if payload.Some? {
      RowsStayWritten(s.crypto, rows, s.codec.payload(payload.value), attempts);
    }
  }

  lemma HistoryStep(s: Service, served: seq<Served>)
    requires History(s, served) && served != []
    ensures var n := |served| - 1;
            && History(s, served[..n]) && forall j: nat :: j <= n ==> RowsUpTo(served[..n], j) == RowsUpTo(served, j)
    ensures var n := |served| - 1;
            && (served[n].run.committed ==>
                  && served[n].run.payload.Some? && |served[n].rows| == |RowsUpTo(served, n)| + 1 && RowsUpTo(served, n) <= served[n].rows
                  && served[n].rows[|RowsUpTo(served, n)|].payload == s.codec.payload(served[n].run.payload.value))
            && (!served[n].run.committed ==> served[n].rows == RowsUpTo(served, n))
            && (AuditTheorems.Written(s.crypto, RowsUpTo(served, n)) ==> AuditTheorems.Written(s.crypto, served[n].rows))
  {
    hide Serves, RowsUpTo, AuditTheorems.Written;
    HistoryUpTo(s, served, |served| - 1);
    ServedStep(s, served[|served| - 1], RowsUpTo(served, |served| - 1));
  }

  lemma RowsStayWritten(c: Crypto, rows: seq<Row>, text: string, attempts: seq<AuditLogger.Attempt>)
    ensures AuditTheorems.Written(c, rows) ==> AuditTheorems.Written(c, RowsAfter(c, rows, text, attempts))
  {
    if AuditTheorems.Written(c, rows) && Commits(rows, attempts) {
      AuditTheorems.AppendKeepsGood(c, rows, attempts[AuditLogger.Deciding(attempts, 0)].timestamp, text);
    }
  }

  /** Over the whole life of the service the table holds as many rows as requests committed
      one, only grows, and is the log of a history of appends: verifying it gives VALID (EMPTY
      while nothing is committed). */
  lemma {:induction false} ServiceKeepsTheLog(s: Service, served: seq<Served>, i: nat)
    requires History(s, served) && i <= |served|
    ensures var rows := RowsUpTo(served, |served|);
            && AuditTheorems.Written(s.crypto, rows) && |rows| == CommittedCount(served)
            && RowsUpTo(served, i) <= rows
            && Verify(s.crypto, rows, None)
               == Report(if rows == [] then Empty else Valid, |rows|, None, NoReason, false)
  {
    hide Serves, RowsUpTo, AuditTheorems.Written, Verify, History;
    if served == [] {
      NothingServed(s, served);
    } else {
      var n := |served| - 1;
      var k := if i < n then i else n;
      HistoryStep(s, served);
      ServiceKeepsTheLog(s, served[..n], k);
      assert RowsUpTo(served[..n], k) <= RowsUpTo(served[..n], n);
      LastRows(served);
    }
    WrittenVerifies(s.crypto, RowsUpTo(served, |served|));
  }

  lemma NothingServed(s: Service, served: seq<Served>)
    requires served == []
    ensures RowsUpTo(served, 0) == [] && AuditTheorems.Written(s.crypto, [])
  {
  }

  lemma LastRows(served: seq<Served>)
    requires served != []
    ensures RowsUpTo(served, |served|) == served[|served| - 1].rows
  {
  }

  lemma WrittenVerifies(c: Crypto, rows: seq<Row>)
    requires AuditTheorems.Written(c, rows)
    ensures Verify(c, rows, None) == Report(if rows == [] then Empty else Valid, |rows|, None, NoReason, false)
  {
    if rows != [] {
      AuditTheorems.VerifyAllGood(c, rows, None);
    }
  }

  /** The audit id of a 200 response is a receipt: at any later time the table still holds,
      under this id, the record of that request, and no other 200 response has the id. */
  lemma AuditIdsAreReceipts(s: Service, served: seq<Served>, i: nat)
    requires History(s, served) && i < |served| && served[i].response.Ok?
    ensures var rows, id := RowsUpTo(served, |served|), served[i].response.auditId;
            && 1 <= id <= |rows| && rows[id - 1].id == id
            && served[i].run.payload.Some? && served[i].run.payload.value.event == ChatCompletion
            && rows[id - 1].payload == s.codec.payload(served[i].run.payload.value)
    ensures forall j :: 0 <= j < |served| && served[j].response.Ok? && j != i ==>
      served[j].response.auditId != served[i].response.auditId
  {
    hide Serves, RowsUpTo, History, Verify, AuditTheorems.Written, CommittedCount;
    ReceiptAt(s, served, i);
    ServiceKeepsTheLog(s, served, i + 1);
    forall j | 0 <= j < |served| && served[j].response.Ok? && j != i
      ensures served[j].response.auditId != served[i].response.auditId
    {
      ReceiptAt(s, served, j);
      GrowsBetween(s, served, if i < j then i else j, if i < j then j else i);
    }
    WrittenIds(s.crypto, RowsUpTo(served, |served|), |RowsUpTo(served, i)|);
  }

  lemma WrittenIds(c: Crypto, rows: seq<Row>, k: nat)
    requires AuditTheorems.Written(c, rows) && k < |rows|
    ensures rows[k].id == k + 1
  {
    assert Good(c, rows, k);
  }

  lemma ReceiptAt(s: Service, served: seq<Served>, i: nat)
    requires History(s, served) && i < |served| && served[i].response.Ok?
    ensures var before, after := RowsUpTo(served, i), RowsUpTo(served, i + 1);
            && served[i].response.auditId == |before| + 1 && |after| == |before| + 1
            && served[i].run.payload.Some? && served[i].run.payload.value.event == ChatCompletion
            && after[|before|].payload == s.codec.payload(served[i].run.payload.value)
  {
    var o, before := served[i], RowsUpTo(served, i);
    assert Serves(s, o.body, o.env, before, o.rows, o.namespace, o.run, o.response);
    OneRecord(s, o.body, o.env, before, o.rows, o.namespace, o.run, o.response);
    HistoryUpTo(s, served, i);
    hide Serves;
    ServiceKeepsTheLog(s, served[..i], i);
    assert RowsUpTo(served[..i], i) == before;
    AuditTheorems.GoodTable(s.crypto, before);
  }

  lemma HistoryUpTo(s: Service, served: seq<Served>, i: nat)
    requires History(s, served) && i <= |served|
    ensures History(s, served[..i])
    ensures forall j: nat :: j <= i ==> RowsUpTo(served[..i], j) == RowsUpTo(served, j)
  {
    hide Serves;
    forall j | 0 <= j < i
      ensures Serves(s, served[..i][j].body, served[..i][j].env, RowsUpTo(served[..i], j), served[..i][j].rows,
                     served[..i][j].namespace, served[..i][j].run, served[..i][j].response)
    {
      assert served[..i][j] == served[j] && RowsUpTo(served[..i], j) == RowsUpTo(served, j);
    }
  }

  lemma GrowsBetween(s: Service, served: seq<Served>, i: nat, j: nat)
    requires History(s, served) && i < j < |served|
    ensures |RowsUpTo(served, i + 1)| <= |RowsUpTo(served, j)|
  {
    hide *;
    HistoryUpTo(s, served, j);
    ServiceKeepsTheLog(s, served[..j], i + 1);
  }

  // ---------- What the provider can tell ----------

  /** Of two requests that agree outside their mediated values the provider is sent the same
      messages if and only if their tokenized values show the same pattern of equality. Then
      the records carry the same prompt hash and, for the same scores, the same decisions. */
  lemma ProviderCannotTell(s: Service, namespace: string,
                           a: Body, ea: Env, ra: Run, xa: Response, beforeA: seq<Row>, afterA: seq<Row>,
                           b: Body, eb: Env, rb: Run, xb: Response, beforeB: seq<Row>, afterB: seq<Row>)
    requires Serves(s, a, ea, beforeA, afterA, namespace, ra, xa) && ra.sent.Some?
    requires Serves(s, b, eb, beforeB, afterB, namespace, rb, xb) && rb.sent.Some?
    requires AllAlike(s.policy, RequestOf(a, ea), RequestOf(b, eb))
    ensures ra.sent == rb.sent
            <==> SamePattern(RequestKeys(s.policy, RequestOf(a, ea)), RequestKeys(s.policy, RequestOf(b, eb)))
    ensures ra.sent == rb.sent && ra.payload.Some? && rb.payload.Some? ==>
      ra.payload.value.promptHash == rb.payload.value.promptHash
    ensures ra.payload.Some? && rb.payload.Some? && multiset(AllScored(ea.analyses)) == multiset(AllScored(eb.analyses)) ==>
      ra.payload.value.decisions == rb.payload.value.decisions
  {
    hide AllScored, Summarizes, SentMessages, RequestKeys, AllAlike, SamePattern, TableAfter, Agrees, EventOf,
         AllWellFormed, IsBlocked, Delivers, FinalRegistry, ValidAnalysis, ValidRedaction, Archived, Contains,
         IsNamespace, AnyBlocked, AllComplete, Disjoint, RequestOf;
    NamespaceLength(namespace);
    SameMessagesSent(s.policy, namespace, RequestOf(a, ea), RequestOf(b, eb));
    if ra.payload.Some? && rb.payload.Some? && multiset(AllScored(ea.analyses)) == multiset(AllScored(eb.analyses)) {
      SummaryIgnoresOrder(ra.payload.value.decisions.value, rb.payload.value.decisions.value,
                          AllScored(ea.analyses), AllScored(eb.analyses), s.policy);
    }
  }

  lemma SameMessagesSent(policy: PolicyMap, namespace: string, p: seq<Message>, q: seq<Message>)
    requires AllWellFormed(policy, p) && AllWellFormed(policy, q) && AllAlike(policy, p, q) && |namespace| == 8
    ensures SamePattern(RequestKeys(policy, p), RequestKeys(policy, q)) <==>
            SentMessages(policy, FinalRegistry(namespace, policy, p), p)
            == SentMessages(policy, FinalRegistry(namespace, policy, q), q)
  {
    ProviderSeesThePattern(policy, namespace, p, q);
    hide SanitizedMessage, FinalRegistry, RequestKeys, SamePattern, WellFormed, Gaps;
    var a := SentMessages(policy, FinalRegistry(namespace, policy, p), p);
    var b := SentMessages(policy, FinalRegistry(namespace, policy, q), q);
    forall i | 0 <= i < |p|
      ensures a[i].role == b[i].role
      ensures a[i].content == SanitizedMessage(policy, FinalRegistry(namespace, policy, p), p[i])
      ensures b[i].content == SanitizedMessage(policy, FinalRegistry(namespace, policy, q), q[i])
    {
      assert Alike(policy, p[i], q[i]);
    }
    if SameTexts(policy, namespace, p, q) {
      assert forall i :: 0 <= i < |p| ==> a[i] == b[i];
    }
    if a == b {
      forall i | 0 <= i < |p|
        ensures SanitizedMessage(policy, FinalRegistry(namespace, policy, p), p[i])
             == SanitizedMessage(policy, FinalRegistry(namespace, policy, q), q[i])
      {
        assert a[i].content == b[i].content;
      }
    }
  }

  // ---------- What the client gets back ----------

  /** A choice in which the provider quotes a message as it was sent comes back to the client
      as the caller wrote it, with only the redacted spans replaced. */
  lemma QuotedMessageReturns(s: Service, body: Body, env: Env, before: seq<Row>, after: seq<Row>,
                             namespace: string, run: Run, r: Response, i: nat, j: nat)
    requires Serves(s, body, env, before, after, namespace, run, r) && r.Ok?
    requires body.rehydrate && !s.scanning && i < |body.messages| && j < |env.provider.choices|
    requires TokenizesNames(s.policy, RequestOf(body, env)[i]) && RedactsForeign(s.policy, namespace, RequestOf(body, env)[i])
    requires env.provider.choices[j] == Some(run.sent.value[i].content)
    ensures var m := RequestOf(body, env)[i];
            && r.choices[j] == Some(Expected(s.policy, m))
            && ((forall k :: 0 <= k < |m.spans| ==> IsTokenized(s.policy, m.spans[k])) ==>
                  r.choices[j] == Some(body.messages[i].content))
  {
    hide Records, TableAfter, Agrees, Reaches, SanitizedMessage, Substitute, Expected, RequestKeys, WellFormed,
         Contains, Join, MintAll, ValidAnalysis, ValidRedaction, TokenizesNames, RedactsForeign, IsNamespace,
         Disjoint, ScannedChoices;
    RequestRoundTrip(s.policy, namespace, RequestOf(body, env), i);
  }

  /** When responses are scanned, a choice is delivered with its detected spans redacted for
      good, and rehydrated between them; the scan's markers are never mistaken for tokens. */
  lemma ScannedChoiceReturns(s: Service, body: Body, env: Env, before: seq<Row>, after: seq<Row>,
                             namespace: string, run: Run, r: Response, j: nat)
    requires Serves(s, body, env, before, after, namespace, run, r) && r.Ok?
    requires body.rehydrate && s.scanning
    requires j < |env.provider.choices| && env.provider.choices[j].Some? && env.scans[j].results.Some?
    requires forall k :: 0 <= k < |env.scans[j].pass.spans| ==> IsForeign(namespace, env.scans[j].pass.spans[k].entityType)
    ensures var text, spans := env.provider.choices[j].value, env.scans[j].pass.spans;
            var tokens := TokensOf(s.policy, namespace, RequestOf(body, env));
            && Disjoint(text, spans)
            && r.choices[j] == Some(Weave(SubstituteEach(tokens, Gaps(text, spans, 0)), Markers(spans)))
  {
    hide Records, TableAfter, Agrees, Reaches, Substitute, WellFormed, Contains, Join, Weave, Gaps, Texts, IsForeign,
         Disjoint, Markers, SentMessages, TokensOf, IsQuiet, IsNamespace, ValidAnalysis, ValidRedaction, AllOpenWith;
    TokensOpenWith(s.policy, namespace, RequestOf(body, env));
    var tokens, spans := TokensOf(s.policy, namespace, RequestOf(body, env)), env.scans[j].pass.spans;
    forall k | 0 <= k < |spans| ensures IsQuiet(tokens, Marker(spans[k].entityType)) {
      MarkerSeparates(tokens, namespace, spans[k].entityType);
      MarkerIsQuiet(tokens, spans[k].entityType);
    }
    RehydrateRedacted(tokens, env.provider.choices[j].value, spans);
  }

  lemma MarkerIsQuiet(values: map<string, string>, t: string)
    requires Separates(values, Marker(t))
    ensures IsQuiet(values, Marker(t))
  {
    hide IsQuiet;
  }

  lemma TokensOpenWith(policy: PolicyMap, namespace: string, messages: seq<Message>)
    requires AllWellFormed(policy, messages) && IsNamespace(namespace)
    ensures AllOpenWith(TokensOf(policy, namespace, messages), namespace)
  {
    hide MintAll, RequestKeys, AllOpenWith;
    NamespaceLength(namespace);
    MintedOpenWith(namespace, RequestKeys(policy, messages));
  }
}
