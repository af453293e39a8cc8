/**
 What one request to the chat endpoint does, phase by phase: the effects it has, the audit
 record it leaves, what the provider is sent and what the client gets back. The detector,
 the anonymizer's passes, the provider, SQLite and the checkpoint file may fail at any
 point; how they behave for a request is its environment.
 */
module Pipeline {
  import opened Wrappers
  import opened Text
  import opened Tokens
  import opened Tokenization
  import opened Policy
  import opened Mediator
  import opened RequestModel
  import opened ResponseScan
  import opened AuditModel
  import opened CheckpointStore
  import AuditLogger

  datatype ChatMessage = ChatMessage(role: string, content: string)

  datatype Body = Body(messages: seq<ChatMessage>, rehydrate: bool)

  /** What the detector says of one text (None: it raises), and how the anonymizer's pass
      over the text would go. */
  datatype Analysis = Analysis(results: Option<seq<Detection>>, pass: Pass)

  /** A reply with the contents of its choices (None: not a string), or an exception: a
      GatewayError with its status and code, any other, or the cancellation of the request,
      which is not an Exception. A reply is `encodable` if its contents have an encoding in
      UTF-8, which lone surrogates have not, and `renderable` if the whole of it can be
      rendered as JSON in the end. */
  datatype ProviderOutcome =
    | Reply(choices: seq<Option<string>>, encodable: bool, renderable: bool)
    | TypedFailure(status: nat, code: string)
    | OtherFailure
    | Cancelled

  /** `redactions` are the passes of the research mode, one over each message. */
  datatype Env = Env(candidates: seq<string>, analyses: seq<Analysis>, provider: ProviderOutcome,
                     scans: seq<Analysis>, redactions: seq<Pass>,
                     attempts: seq<AuditLogger.Attempt>, savedAt: string, saving: SaveFault)

  datatype AuditEvent = ChatCompletion | PolicyBlocked | DetectorFailure | ProviderError | ResponseScanFailure

  datatype AuditPayload = AuditPayload(
    event: AuditEvent, responseStatus: nat, errorCode: string, decisions: Option<seq<Decision>>,
    blockedTypes: seq<string>, promptHash: Option<Digest>, responseHash: Option<Digest>,
    responseScanned: bool, rehydratedForClient: bool, archived: Option<seq<ChatMessage>>)

  /** Canonical JSON, about which nothing is assumed. */
  datatype Codec = Codec(payload: AuditPayload -> string, prompt: seq<ChatMessage> -> string,
                         response: seq<Option<string>> -> string)

  /** `Crashed` is an exception that no handler of the gateway turns into a response; the
      server answers 500 if it still can. */
  datatype Response =
    | Ok(choices: seq<Option<string>>, auditId: int)
    | Failed(status: nat, code: string)
    | Crashed

  const DETECTOR_FAILURE := "PGW-DETECTOR-FAILURE"
  const POLICY_BLOCKED := "PGW-POLICY-BLOCKED"
  const PROVIDER_RESPONSE := "PGW-PROVIDER-RESPONSE"
  const RESPONSE_SCAN_FAILURE := "PGW-RESPONSE-SCAN-FAILURE"
  const AUDIT_WRITE := "PGW-AUDIT-WRITE"

  /** The effects of a request, in the order in which they happen. */
  datatype Effect =
    | Analyzed(message: nat)
    | SanitizedText(message: nat)
    | ProviderCalled(sent: seq<ChatMessage>)
    | ResponseScanned(choice: nat)
    | Audited(payload: AuditPayload, committed: bool)
    | Rehydrated(choice: nat)

  // ---------- What a request does ----------

  /** How far a request got, phase by phase; `payload` is what it had recorded, if anything. */
  datatype Run = Run(analyzed: nat, sanitized: nat, sent: Option<seq<ChatMessage>>, scanned: nat,
                     payload: Option<AuditPayload>, committed: bool, rehydrated: nat)

  function Analyses(n: nat): (t: seq<Effect>)
    ensures |t| == n && forall i :: 0 <= i < n ==> t[i] == Analyzed(i)
  {
    seq(n, i requires 0 <= i < n => Analyzed(i))
  }

  function Sanitizations(n: nat): (t: seq<Effect>)
    ensures |t| == n && forall i :: 0 <= i < n ==> t[i] == SanitizedText(i)
  {
    seq(n, i requires 0 <= i < n => SanitizedText(i))
  }

  function Scans(n: nat): (t: seq<Effect>)
    ensures |t| == n && forall j :: 0 <= j < n ==> t[j] == ResponseScanned(j)
  {
    seq(n, j requires 0 <= j < n => ResponseScanned(j))
  }

  function Rehydrations(n: nat): (t: seq<Effect>)
    ensures |t| == n && forall j :: 0 <= j < n ==> t[j] == Rehydrated(j)
  {
    seq(n, j requires 0 <= j < n => Rehydrated(j))
  }

  function Call(run: Run): seq<Effect> {
    if run.sent.Some? then [ProviderCalled(run.sent.value)] else []
  }

  function Record(run: Run): seq<Effect> {
    if run.payload.Some? then [Audited(run.payload.value, run.committed)] else []
  }

  /** The effects of the run: its phases one after the other. */
  function TraceOf(run: Run): seq<Effect> {
    Analyses(run.analyzed) + Sanitizations(run.sanitized) + Call(run) + Scans(run.scanned) + Record(run)
      + Rehydrations(run.rehydrated)
  }

  lemma TraceUndetected(t: seq<Effect>, run: Run)
    requires run.sanitized == 0 && run.sent == None && run.scanned == 0 && run.rehydrated == 0
    ensures t + TraceOf(run) == t + Analyses(run.analyzed) + Record(run)
  {
  }

  lemma TraceUnsent(t: seq<Effect>, run: Run)
    requires run.sent == None && run.scanned == 0 && run.rehydrated == 0
    ensures t + TraceOf(run) == t + Analyses(run.analyzed) + Sanitizations(run.sanitized) + Record(run)
  {
  }

  lemma TraceSent(t: seq<Effect>, run: Run)
    requires run.sent.Some?
    ensures t + TraceOf(run)
         == t + Analyses(run.analyzed) + Sanitizations(run.sanitized) + [ProviderCalled(run.sent.value)]
            + Scans(run.scanned) + Record(run) + Rehydrations(run.rehydrated)
  {
  }

  ghost predicate ValidAnalysis(policy: PolicyMap, text: string, a: Analysis) {
    a.results.Some? ==> ValidPass(text, Actionable(policy, a.results.value), a.pass)
  }

  ghost predicate ValidRedaction(text: string, a: Analysis, pass: Pass) {
    a.results.Some? ==> ValidPass(text, a.results.value, pass)
  }

  ghost predicate ValidEnv(policy: PolicyMap, body: Body, env: Env) {
    && body.messages != []
    && |env.candidates| == NAMESPACE_ATTEMPTS
    && (forall i :: 0 <= i < |env.candidates| ==> IsNamespace(env.candidates[i]))
    && |env.analyses| == |body.messages| == |env.redactions|
    && (forall i :: 0 <= i < |body.messages| ==> ValidAnalysis(policy, body.messages[i].content, env.analyses[i]))
    && (forall i :: 0 <= i < |body.messages| ==>
          ValidRedaction(body.messages[i].content, env.analyses[i], env.redactions[i]))
    && (env.provider.Reply? ==>
          && |env.scans| == |env.provider.choices|
          && forall j :: 0 <= j < |env.scans| && env.provider.choices[j].Some? ==>
               ValidAnalysis(ResponsePolicy(policy), env.provider.choices[j].value, env.scans[j]))
    && |env.attempts| == APPEND_RETRIES
  }

  /** The detector got through all messages. */
  predicate AllAnalyzed(env: Env) {
    forall i :: 0 <= i < |env.analyses| ==> env.analyses[i].results.Some?
  }

  function ResultsOf(a: Analysis): seq<Detection> {
    if a.results.Some? then a.results.value else []
  }

  predicate AnyBlocked(policy: PolicyMap, env: Env) {
    exists i :: 0 <= i < |env.analyses| && HasBlock(policy, ResultsOf(env.analyses[i]))
  }

  function RequestOf(body: Body, env: Env): (messages: seq<Message>)
    requires |env.analyses| == |body.messages|
    ensures |messages| == |body.messages|
  {
    seq(|body.messages|, i requires 0 <= i < |body.messages| =>
      Message(body.messages[i].role, body.messages[i].content, ResultsOf(env.analyses[i]),
              env.analyses[i].pass.spans, env.analyses[i].pass.visits))
  }

  /** What the provider is sent. */
  function SentMessages(policy: PolicyMap, r: Registry, messages: seq<Message>): (sent: seq<ChatMessage>)
    requires AllWellFormed(policy, messages)
    ensures |sent| == |messages|
  {
    seq(|messages|, i requires 0 <= i < |messages| =>
      ChatMessage(messages[i].role, SanitizedMessage(policy, r, messages[i])))
  }

  /** Type and score of every detection of the request. */
  function ScoredOf(results: seq<Detection>): (scored: seq<Scored>)
    ensures |scored| == |results|
  {
    seq(|results|, i requires 0 <= i < |results| => Scored(results[i].entityType, results[i].score))
  }

  function AllScored(analyses: seq<Analysis>): seq<Scored> {
    if analyses == [] then []
    else AllScored(analyses[..|analyses| - 1]) + ScoredOf(ResultsOf(analyses[|analyses| - 1]))
  }

  lemma {:induction false} ScoredHasBlock(policy: PolicyMap, analyses: seq<Analysis>)
    ensures (exists p :: 0 <= p < |AllScored(analyses)| && ActionOf(policy, AllScored(analyses)[p].entityType) == Some(Block))
            <==> exists i :: 0 <= i < |analyses| && HasBlock(policy, ResultsOf(analyses[i]))
  {
    if analyses != [] {
      var n := |analyses| - 1;
      var before, last := AllScored(analyses[..n]), ScoredOf(ResultsOf(analyses[n]));
      ScoredHasBlock(policy, analyses[..n]);
      assert AllScored(analyses) == before + last;
      if i :| 0 <= i < |analyses| && HasBlock(policy, ResultsOf(analyses[i])) {
        if i == n {
          var k :| 0 <= k < |ResultsOf(analyses[n])|
                   && ActionOf(policy, ResultsOf(analyses[n])[k].entityType) == Some(Block);
          assert AllScored(analyses)[|before| + k].entityType == ResultsOf(analyses[n])[k].entityType;
        } else {
          assert HasBlock(policy, ResultsOf(analyses[..n][i]));
          var p :| 0 <= p < |before| && ActionOf(policy, before[p].entityType) == Some(Block);
          assert AllScored(analyses)[p] == before[p];
        }
      }
      if p :| 0 <= p < |AllScored(analyses)| && ActionOf(policy, AllScored(analyses)[p].entityType) == Some(Block) {
        if p < |before| {
          assert AllScored(analyses)[p] == before[p];
          var i :| 0 <= i < n && HasBlock(policy, ResultsOf(analyses[..n][i]));
          assert HasBlock(policy, ResultsOf(analyses[i]));
        } else {
          assert AllScored(analyses)[p].entityType == ResultsOf(analyses[n])[p - |before|].entityType;
          assert HasBlock(policy, ResultsOf(analyses[n]));
        }
      }
    }
  }

  lemma ScoredStep(analyses: seq<Analysis>, i: nat)
    requires i < |analyses|
    ensures AllScored(analyses[..i + 1]) == AllScored(analyses[..i]) + ScoredOf(ResultsOf(analyses[i]))
    ensures AllScored([]) == []
  {
    assert analyses[..i + 1][..i] == analyses[..i] && analyses[..i + 1][i] == analyses[i];
  }

  // ---------- Minting for one message after another ----------

  lemma {:induction false} MintAllKeeps(r: Registry, keys: seq<Key>, key: Key)
    requires key in r.valueToToken
    ensures key in MintAll(r, keys).valueToToken && MintAll(r, keys).valueToToken[key] == r.valueToToken[key]
  {
    if keys != [] {
      MintAllKeeps(r, keys[..|keys| - 1], key);
    }
  }

  lemma {:induction false} MintAllHas(r: Registry, keys: seq<Key>, key: Key)
    requires key in keys
    ensures key in MintAll(r, keys).valueToToken
  {
    var n := |keys| - 1;
    if keys[n] != key {
      assert keys == keys[..n] + [keys[n]];
      MintAllHas(r, keys[..n], key);
    }
  }

  /** A message once sanitized stays as it is when later messages mint more. */
  lemma SanitizedIsStable(policy: PolicyMap, r: Registry, more: seq<Key>, m: Message)
    requires WellFormed(policy, m)
    requires forall key :: key in KeysOf(policy, m) ==> key in r.valueToToken
    ensures SanitizedMessage(policy, MintAll(r, more), m) == SanitizedMessage(policy, r, m)
  {
    var spans := m.spans;
    var p, q := Replacements(policy, MintAll(r, more), m.text, spans), Replacements(policy, r, m.text, spans);
    hide Weave, Gaps, MintAll, Marker;
    forall k | 0 <= k < |spans| ensures p[k] == q[k] {
      if IsTokenized(policy, spans[k]) {
        VisitedHas(policy, m.text, spans, m.visits, k);
        MintAllKeeps(r, more, KeyOf(m.text, spans[k]));
      }
    }
    assert p == q;
  }

  lemma PrefixWellFormed(policy: PolicyMap, messages: seq<Message>, i: nat)
    requires i < |messages| && AllWellFormed(policy, messages[..i + 1])
    ensures AllWellFormed(policy, messages[..i]) && WellFormed(policy, messages[i])
  {
    hide WellFormed;
    assert messages[..i + 1][i] == messages[i];
    assert forall j :: 0 <= j < i ==> messages[..i][j] == messages[..i + 1][j];
  }

  lemma RegistryStep(policy: PolicyMap, namespace: string, messages: seq<Message>, i: nat)
    requires i < |messages| && AllWellFormed(policy, messages[..i + 1])
    ensures AllWellFormed(policy, messages[..i]) && WellFormed(policy, messages[i])
    ensures FinalRegistry(namespace, policy, messages[..i + 1])
         == MintAll(FinalRegistry(namespace, policy, messages[..i]), KeysOf(policy, messages[i]))
  {
    PrefixWellFormed(policy, messages, i);
    hide WellFormed, MintAll, KeysOf;
    var upTo := messages[..i + 1];
    assert upTo[..i] == messages[..i] && upTo[i] == messages[i];
    MintAllConcat(Fresh(namespace), RequestKeys(policy, messages[..i]), KeysOf(policy, messages[i]));
  }

  lemma EarlierIsStable(policy: PolicyMap, namespace: string, messages: seq<Message>, more: seq<Key>, j: nat)
    requires AllWellFormed(policy, messages) && j < |messages|
    ensures SanitizedMessage(policy, MintAll(FinalRegistry(namespace, policy, messages), more), messages[j])
         == SanitizedMessage(policy, FinalRegistry(namespace, policy, messages), messages[j])
  {
    var r := FinalRegistry(namespace, policy, messages);
    hide SanitizedMessage, WellFormed, KeysOf;
    forall key | key in KeysOf(policy, messages[j]) ensures key in r.valueToToken {
      RequestHas(policy, messages, j, key);
      MintAllHas(Fresh(namespace), RequestKeys(policy, messages), key);
    }
    SanitizedIsStable(policy, r, more, messages[j]);
  }

  /** Sanitizing the next message adds it to what is sent and changes nothing before it. */
  lemma SentStep(policy: PolicyMap, namespace: string, messages: seq<Message>, i: nat)
    requires i < |messages| && AllWellFormed(policy, messages[..i + 1])
    ensures AllWellFormed(policy, messages[..i]) && WellFormed(policy, messages[i])
    ensures var before, after := FinalRegistry(namespace, policy, messages[..i]), FinalRegistry(namespace, policy, messages[..i + 1]);
            && after == MintAll(before, KeysOf(policy, messages[i]))
            && SentMessages(policy, after, messages[..i + 1])
               == SentMessages(policy, before, messages[..i])
                  + [ChatMessage(messages[i].role, SanitizedMessage(policy, after, messages[i]))]
  {
    hide SentMessages, SanitizedMessage, FinalRegistry, WellFormed, KeysOf, MintAll, RequestKeys;
    RegistryStep(policy, namespace, messages, i);
    var prefix := messages[..i];
    var before, after := FinalRegistry(namespace, policy, prefix), FinalRegistry(namespace, policy, messages[..i + 1]);
    forall j: nat | j < |prefix|
      ensures SanitizedMessage(policy, after, prefix[j]) == SanitizedMessage(policy, before, prefix[j])
    {
      EarlierIsStable(policy, namespace, prefix, KeysOf(policy, messages[i]), j);
    }
    assert messages[..i + 1] == prefix + [messages[i]];
    SentSnoc(policy, before, after, prefix, messages[i]);
  }

  lemma SentSnoc(policy: PolicyMap, before: Registry, after: Registry, messages: seq<Message>, m: Message)
    requires AllWellFormed(policy, messages) && WellFormed(policy, m) && AllWellFormed(policy, messages + [m])
    requires forall j: nat :: j < |messages| ==>
      SanitizedMessage(policy, after, messages[j]) == SanitizedMessage(policy, before, messages[j])
    ensures SentMessages(policy, after, messages + [m])
         == SentMessages(policy, before, messages) + [ChatMessage(m.role, SanitizedMessage(policy, after, m))]
  {
    hide SanitizedMessage, WellFormed;
    var s, t := SentMessages(policy, after, messages + [m]), SentMessages(policy, before, messages);
    forall j | 0 <= j < |messages| ensures s[j] == t[j] {
      assert (messages + [m])[j] == messages[j];
    }
  }

  // ---------- The audit record ----------

  /** How the gateway is set up: whether it scans responses, has a checkpoint store, and
      keeps redacted messages for research. */
  datatype Service = Service(crypto: Crypto, codec: Codec, policy: PolicyMap, scanning: bool, storing: bool, archiving: bool)

  function PromptHash(s: Service, sent: seq<ChatMessage>): Digest {
    s.crypto.sha256(s.codec.prompt(sent))
  }

  function ResponseHash(s: Service, choices: seq<Option<string>>): Digest {
    s.crypto.sha256(s.codec.response(choices))
  }

  /** The append of this environment commits a row. */
  predicate Commits(rows: seq<Row>, attempts: seq<AuditLogger.Attempt>) {
    var k := AuditLogger.Deciding(attempts, 0);
    k < |attempts| && attempts[k].fault == AuditLogger.NoError && NextId(rows) <= MAX_ROWID
  }

  function RowsAfter(c: Crypto, rows: seq<Row>, text: string, attempts: seq<AuditLogger.Attempt>): seq<Row> {
    if Commits(rows, attempts)
    then rows + [NextRow(c, rows, attempts[AuditLogger.Deciding(attempts, 0)].timestamp, text)]
    else rows
  }

  /** The append of this environment raises what nobody handles. */
  predicate Escapes(rows: seq<Row>, attempts: seq<AuditLogger.Attempt>) {
    var k := AuditLogger.Deciding(attempts, 0);
    k < |attempts| && (attempts[k].fault == AuditLogger.Other || NextId(rows) > MAX_ROWID)
  }

  /** Some namespace is free and the detector gets through all messages. */
  predicate Detects(body: Body, env: Env)
    requires |env.analyses| == |body.messages|
  {
    AllAnalyzed(env) && exists k :: 0 <= k < |env.candidates| && !Contains(Join(Texts(RequestOf(body, env))), env.candidates[k])
  }

  /** The anonymizer's pass over a text with these detections goes through. */
  predicate PassCompletes(policy: PolicyMap, a: Analysis) {
    a.pass.completes || Actionable(policy, ResultsOf(a)) == []
  }

  predicate AllComplete(policy: PolicyMap, env: Env) {
    forall i :: 0 <= i < |env.analyses| ==> PassCompletes(policy, env.analyses[i])
  }

  /** The request reaches the provider. */
  predicate Reaches(policy: PolicyMap, body: Body, env: Env)
    requires |env.analyses| == |body.messages|
  {
    Detects(body, env) && !AnyBlocked(policy, env) && AllComplete(policy, env)
  }

  predicate ScanPasses(policy: PolicyMap, choice: Option<string>, a: Analysis) {
    choice.Some? ==> a.results.Some? && PassCompletes(ResponsePolicy(policy), a)
  }

  predicate AllScansPass(policy: PolicyMap, choices: seq<Option<string>>, scans: seq<Analysis>)
    requires |scans| == |choices|
  {
    forall j :: 0 <= j < |choices| ==> ScanPasses(policy, choices[j], scans[j])
  }

  /** The research mode gets through: every pass over all detections of a message does. */
  predicate AllRedacted(env: Env)
    requires |env.redactions| == |env.analyses|
  {
    forall i :: 0 <= i < |env.analyses| ==> env.redactions[i].completes || ResultsOf(env.analyses[i]) == []
  }

  /** What the research mode stores. */
  function Archived(body: Body, env: Env): (messages: seq<ChatMessage>)
    requires |env.redactions| == |body.messages|
    requires forall i :: 0 <= i < |body.messages| ==> Disjoint(body.messages[i].content, env.redactions[i].spans)
    ensures |messages| == |body.messages|
  {
    seq(|body.messages|, i requires 0 <= i < |body.messages| =>
      ChatMessage(body.messages[i].role,
                  Weave(Gaps(body.messages[i].content, env.redactions[i].spans, 0), Markers(env.redactions[i].spans))))
  }

  lemma RedactionsDisjoint(policy: PolicyMap, body: Body, env: Env)
    requires ValidEnv(policy, body, env) && AllAnalyzed(env)
    ensures forall i :: 0 <= i < |body.messages| ==> Disjoint(body.messages[i].content, env.redactions[i].spans)
  {
    hide ValidAnalysis, IsNamespace, ResponsePolicy, Disjoint;
    forall i | 0 <= i < |body.messages| ensures Disjoint(body.messages[i].content, env.redactions[i].spans) {
      assert ValidRedaction(body.messages[i].content, env.analyses[i], env.redactions[i]);
    }
  }

  /** Which event an environment leads to; None if nothing is recorded, because an exception
      escapes the handler on the way. */
  ghost function EventOf(s: Service, body: Body, env: Env): Option<AuditEvent>
    requires ValidEnv(s.policy, body, env)
  {
    if Detects(body, env) && AnyBlocked(s.policy, env) then Some(PolicyBlocked)
    else if !Reaches(s.policy, body, env) then Some(DetectorFailure)
    else match env.provider
      case TypedFailure(_, _) => Some(ProviderError)
      case OtherFailure => Some(ProviderError)
      case Cancelled => None
      case Reply(choices, encodable, _) =>
        if !encodable then None
        else if s.scanning && !AllScansPass(s.policy, choices, env.scans) then Some(ResponseScanFailure)
        else if s.archiving && !AllRedacted(env) then None
        else Some(ChatCompletion)
  }

  function StatusOf(event: AuditEvent, provider: ProviderOutcome): (nat, string) {
    match event
    case DetectorFailure => (500, DETECTOR_FAILURE)
    case PolicyBlocked => (400, POLICY_BLOCKED)
    case ProviderError => if provider.TypedFailure? then (provider.status, provider.code) else (502, PROVIDER_RESPONSE)
    case ResponseScanFailure => (500, RESPONSE_SCAN_FAILURE)
    case ChatCompletion => (200, "")
  }

  /** A detected type that the policy blocks. */
  ghost predicate IsBlocked(policy: PolicyMap, env: Env, t: string) {
    var all := AllScored(env.analyses);
    ActionOf(policy, t) == Some(Block) && exists i :: 0 <= i < |all| && all[i].entityType == t
  }

  /** The record tells what happened: the event and its status, the decisions as soon as
      there are any, exactly the blocked types, the hash of the prompt sent (if any) and of
      the reply received (if any), whether the reply was scanned and rehydrated, and in
      research mode the messages with everything detected redacted. */
  ghost predicate Tells(s: Service, body: Body, env: Env, sent: Option<seq<ChatMessage>>, p: AuditPayload)
    requires ValidEnv(s.policy, body, env)
  {
    && EventOf(s, body, env) == Some(p.event)
    && (p.responseStatus, p.errorCode) == StatusOf(p.event, env.provider)
    && (p.decisions.Some? <==> Detects(body, env))
    && (p.decisions.Some? ==> Summarizes(p.decisions.value, AllScored(env.analyses), s.policy))
    && (forall t :: t in p.blockedTypes <==> p.event == PolicyBlocked && IsBlocked(s.policy, env, t))
    && p.promptHash == (if sent.Some? then Some(PromptHash(s, sent.value)) else None)
    && p.responseHash == (if sent.Some? && env.provider.Reply? then Some(ResponseHash(s, env.provider.choices)) else None)
    && (p.responseScanned <==> p.event == ChatCompletion && s.scanning)
    && (p.rehydratedForClient <==> p.event == ChatCompletion && body.rehydrate)
    && (p.archived.Some? <==> p.event == ChatCompletion && s.archiving)
    && (p.archived.Some? ==>
          && (forall i :: 0 <= i < |body.messages| ==> Disjoint(body.messages[i].content, env.redactions[i].spans))
          && p.archived.value == Archived(body, env))
  }

  /** The record, or its absence, is what the environment calls for. */
  ghost predicate Records(s: Service, body: Body, env: Env, sent: Option<seq<ChatMessage>>, payload: Option<AuditPayload>)
    requires ValidEnv(s.policy, body, env)
  {
    if payload.Some? then Tells(s, body, env, sent, payload.value) else EventOf(s, body, env) == None
  }

  /** The table once the request is over. */
  function TableAfter(s: Service, rows: seq<Row>, payload: Option<AuditPayload>, attempts: seq<AuditLogger.Attempt>): seq<Row> {
    if payload.Some? then RowsAfter(s.crypto, rows, s.codec.payload(payload.value), attempts) else rows
  }

  /** The stored checkpoint once the request is over: it names the new row if there is one and
      the save goes through. */
  function CheckpointAfter(stored: Option<Checkpoint>, rows: seq<Row>, committed: bool, env: Env): Option<Checkpoint> {
    if committed && env.saving == NoFault && rows != []
    then Some(Checkpoint(rows[|rows| - 1].id, rows[|rows| - 1].mac, env.savedAt))
    else stored
  }

  /** The response agrees with the record: success is reported only once the record is
      committed and its checkpoint saved; a failing append hides no other failure. */
  predicate Agrees(storing: bool, env: Env, rows: seq<Row>, payload: Option<AuditPayload>, r: Response) {
    if payload == None || Escapes(rows, env.attempts) then r == Crashed
    else if payload.value.event != ChatCompletion then r == Failed(payload.value.responseStatus, payload.value.errorCode)
    else if !(Commits(rows, env.attempts) && (!storing || env.saving == NoFault)) then r == Failed(500, AUDIT_WRITE)
    else if env.provider.Reply? && env.provider.renderable then r.Ok? && r.auditId == NextId(rows)
    else r == Crashed
  }

  /** Nothing is sent before everything was analyzed and sanitized with nothing blocked. */
  predicate FailsClosed(policy: PolicyMap, body: Body, env: Env, run: Run)
    requires |env.analyses| == |body.messages|
  {
    && (run.sent.Some? <==> Reaches(policy, body, env))
    && (run.sent.Some? ==> run.analyzed == run.sanitized == |body.messages|)
  }

  // ---------- Steps of the handler ----------

  lemma NothingYet()
    ensures Analyses(0) == [] && Sanitizations(0) == [] && Scans(0) == [] && Rehydrations(0) == []
    ensures AllScored([]) == []
  {
  }

  lemma NothingSanitized(policy: PolicyMap, namespace: string, messages: seq<Message>)
    ensures messages[..0] == [] && AllWellFormed(policy, [])
    ensures FinalRegistry(namespace, policy, []) == Fresh(namespace)
    ensures SentMessages(policy, Fresh(namespace), []) == []
  {
  }

  /** The message at hand, with what the environment has in store for it. */
  lemma MessageOf(policy: PolicyMap, body: Body, env: Env, i: nat)
    requires ValidEnv(policy, body, env) && AllAnalyzed(env) && i < |body.messages|
    ensures var m := RequestOf(body, env)[i];
            && m.results == ResultsOf(env.analyses[i]) && m.visits == env.analyses[i].pass.visits
            && m.spans == env.analyses[i].pass.spans
            && ValidPass(m.text, Actionable(policy, m.results), env.analyses[i].pass)
            && (PassCompletes(policy, env.analyses[i]) <==>
                  env.analyses[i].pass.completes || Actionable(policy, m.results) == [])
  {
    hide ValidPass, Actionable, IsNamespace, ValidRedaction;
    assert ValidAnalysis(policy, body.messages[i].content, env.analyses[i]);
  }

  lemma PassedIsWellFormed(policy: PolicyMap, m: Message, pass: Pass)
    requires m.spans == pass.spans && m.visits == pass.visits
    requires ValidPass(m.text, Actionable(policy, m.results), pass)
    requires pass.completes || Actionable(policy, m.results) == []
    ensures WellFormed(policy, m)
    ensures KeysOf(policy, m) == VisitedKeys(policy, m.text, m.spans, m.visits)
    ensures forall r :: SanitizedMessage(policy, r, m) == Sanitized(policy, r, m.text, m.spans)
  {
    NothingFromNothing(m.text, Actionable(policy, m.results), m.spans);
    hide Resolves, Actionable, VisitedKeys, Sanitized;
  }

  // ---------- The response ----------

  /** A scanned choice: its detected spans are redacted. */
  function ScannedChoice(choice: Option<string>, a: Analysis): Option<string>
    requires choice.Some? && a.results.Some? ==> Disjoint(choice.value, a.pass.spans)
  {
    if choice.Some? && a.results.Some?
    then Some(Weave(Gaps(choice.value, a.pass.spans, 0), Markers(a.pass.spans)))
    else choice
  }

  /** The response after the scan. */
  function ScannedChoices(choices: seq<Option<string>>, scans: seq<Analysis>): (scanned: seq<Option<string>>)
    requires |scans| == |choices|
    requires forall j :: 0 <= j < |scans| && choices[j].Some? && scans[j].results.Some? ==>
      Disjoint(choices[j].value, scans[j].pass.spans)
    ensures |scanned| == |choices|
  {
    seq(|choices|, j requires 0 <= j < |choices| => ScannedChoice(choices[j], scans[j]))
  }

  /** One choice under the response policy: no detection is blocked and none needs a context. */
  lemma ScanStep(policy: PolicyMap, choice: Option<string>, a: Analysis)
    requires choice.Some? ==> ValidAnalysis(ResponsePolicy(policy), choice.value, a)
    ensures choice.None? ==> ScanPasses(policy, choice, a) && ScannedChoice(choice, a) == choice
    ensures choice.Some? && a.results.None? ==> !ScanPasses(policy, choice, a)
    ensures choice.Some? && a.results.Some? ==>
      var redacting, actionable := ResponsePolicy(policy), Actionable(ResponsePolicy(policy), a.results.value);
      && !HasBlock(redacting, a.results.value) && !NeedsContext(redacting, actionable)
      && ValidPass(choice.value, actionable, a.pass) && Disjoint(choice.value, a.pass.spans)
      && (ScanPasses(policy, choice, a) <==> a.pass.completes || actionable == [])
      && ScannedChoice(choice, a) == Some(Sanitized(redacting, Fresh(""), choice.value, a.pass.spans))
  {
    if choice.Some? && a.results.Some? {
      ResponsePolicyRedacts(policy, Fresh(""), choice.value, a.results.value, a.pass.spans);
      ResponsePolicyRedacts(policy, Fresh(""), choice.value, Actionable(ResponsePolicy(policy), a.results.value), a.pass.spans);
      hide ResponsePolicy, Actionable, HasBlock, NeedsContext, Gaps, Weave, Replacement;
    }
  }

  lemma ScansDisjoint(policy: PolicyMap, choices: seq<Option<string>>, scans: seq<Analysis>)
    requires |scans| == |choices|
    requires forall j :: 0 <= j < |scans| && choices[j].Some? ==>
      ValidAnalysis(ResponsePolicy(policy), choices[j].value, scans[j])
    ensures forall j :: 0 <= j < |scans| && choices[j].Some? && scans[j].results.Some? ==>
      Disjoint(choices[j].value, scans[j].pass.spans)
  {
    hide ResponsePolicy, Actionable, Disjoint;
  }

  function RestoredChoices(values: map<string, string>, choices: seq<Option<string>>): (restored: seq<Option<string>>)
    ensures |restored| == |choices|
  {
    seq(|choices|, j requires 0 <= j < |choices| =>
      if choices[j].Some? then Some(Substitute(values, choices[j].value)) else None)
  }

  /** What a successful request delivers, given the provider's choices. */
  function Delivered(values: map<string, string>, body: Body, env: Env, scanning: bool): (delivered: seq<Option<string>>)
    requires env.provider.Reply? && |env.scans| == |env.provider.choices|
    requires forall j :: 0 <= j < |env.scans| && env.provider.choices[j].Some? && env.scans[j].results.Some? ==>
      Disjoint(env.provider.choices[j].value, env.scans[j].pass.spans)
    ensures |delivered| == |env.provider.choices|
  {
    var choices := if scanning then ScannedChoices(env.provider.choices, env.scans) else env.provider.choices;
    if body.rehydrate then RestoredChoices(values, choices) else choices
  }

  /** The choices are what a successful request delivers. */
  ghost predicate IsDelivery(values: map<string, string>, body: Body, env: Env, scanning: bool, choices: seq<Option<string>>) {
    && env.provider.Reply? && |env.scans| == |env.provider.choices|
    && (forall j :: 0 <= j < |env.scans| && env.provider.choices[j].Some? && env.scans[j].results.Some? ==>
          Disjoint(env.provider.choices[j].value, env.scans[j].pass.spans))
    && choices == Delivered(values, body, env, scanning)
  }

  lemma DeliveryIs(values: map<string, string>, body: Body, env: Env, scanning: bool, choices: seq<Option<string>>)
    requires env.provider.Reply? && |env.scans| == |env.provider.choices|
    requires forall j :: 0 <= j < |env.scans| && env.provider.choices[j].Some? && env.scans[j].results.Some? ==>
      Disjoint(env.provider.choices[j].value, env.scans[j].pass.spans)
    requires choices == if scanning then ScannedChoices(env.provider.choices, env.scans) else env.provider.choices
    ensures IsDelivery(values, body, env, scanning, if body.rehydrate then RestoredChoices(values, choices) else choices)
  {
    hide Disjoint, ScannedChoices, RestoredChoices;
  }

  /** A context without tokens restores nothing, so it may be skipped. */
  lemma NothingToRestore(choices: seq<Option<string>>)
    ensures RestoredChoices(map[], choices) == choices
  {
    hide Occurs;
    forall j | 0 <= j < |choices| ensures RestoredChoices(map[], choices)[j] == choices[j] {
      if choices[j].Some? {
        NothingToSubstitute(map[], choices[j].value);
      }
    }
  }

  // ---------- The whole request ----------

  /** The prompt is the request, sanitized in one context whose namespace the request does
      not contain. */
  ghost predicate IsPrompt(policy: PolicyMap, namespace: string, messages: seq<Message>, sent: seq<ChatMessage>) {
    && IsNamespace(namespace) && !Contains(Join(Texts(messages)), namespace)
    && AllWellFormed(policy, messages)
    && sent == SentMessages(policy, FinalRegistry(namespace, policy, messages), messages)
  }

  /** The tokens the context holds once the prompt is made. */
  function TokensOf(policy: PolicyMap, namespace: string, messages: seq<Message>): map<string, string>
    requires AllWellFormed(policy, messages)
  {
    FinalRegistry(namespace, policy, messages).tokenToValue
  }

  /** What the client gets on success. */
  ghost predicate Delivers(s: Service, namespace: string, body: Body, env: Env, choices: seq<Option<string>>)
    requires |env.analyses| == |body.messages|
  {
    && AllWellFormed(s.policy, RequestOf(body, env))
    && IsDelivery(TokensOf(s.policy, namespace, RequestOf(body, env)), body, env, s.scanning, choices)
  }

  /** How often the effects take place: every message is analyzed before a decision is
      recorded, and every choice that is delivered was scanned and restored if it was to be. */
  ghost predicate Effects(s: Service, namespace: string, body: Body, env: Env, run: Run, r: Response)
    requires |env.analyses| == |body.messages|
  {
    && (run.payload.Some? && run.payload.value.decisions.Some? ==> run.analyzed == |body.messages|)
    && (r.Ok? ==>
          && env.provider.Reply? && AllWellFormed(s.policy, RequestOf(body, env))
          && run.scanned == (if s.scanning then |env.provider.choices| else 0)
          && run.rehydrated == Restorations(TokensOf(s.policy, namespace, RequestOf(body, env)), body, |env.provider.choices|))
  }

  /** How many of `n` choices are restored. */
  function Restorations(values: map<string, string>, body: Body, n: nat): nat {
    if body.rehydrate && values != map[] then n else 0
  }

  /** What serving a request comes to: its record, the prompt, the reply. */
  ghost predicate Serves(s: Service, body: Body, env: Env, before: seq<Row>, after: seq<Row>,
                         namespace: string, run: Run, r: Response) {
    && ValidEnv(s.policy, body, env)
    && (run.committed <==> run.payload.Some? && Commits(before, env.attempts))
    && after == TableAfter(s, before, run.payload, env.attempts)
    && Records(s, body, env, run.sent, run.payload)
    && FailsClosed(s.policy, body, env, run)
    && Agrees(s.storing, env, before, run.payload, r)
    && (run.rehydrated > 0 ==> run.committed && run.payload.value.event == ChatCompletion && body.rehydrate)
    && (run.sent.Some? ==> IsPrompt(s.policy, namespace, RequestOf(body, env), run.sent.value))
    && (r.Ok? ==> run.sent.Some? && Delivers(s, namespace, body, env, r.choices))
    && Effects(s, namespace, body, env, run, r)
  }

  // ---------- How each exit meets the specification ----------

  lemma EnvShape(policy: PolicyMap, body: Body, env: Env)
    requires ValidEnv(policy, body, env)
    ensures |env.attempts| == APPEND_RETRIES && |env.analyses| == |body.messages|
    ensures Detects(body, env) ==> AllAnalyzed(env)
    ensures Reaches(policy, body, env) <==> Detects(body, env) && !AnyBlocked(policy, env) && AllComplete(policy, env)
  {
  }

  /** The append either commits or escapes or does neither. */
  lemma RecordDecides(rows: seq<Row>, attempts: seq<AuditLogger.Attempt>)
    ensures !(Commits(rows, attempts) && Escapes(rows, attempts))
  {
  }

  /** Blocked types are reported exactly when some message holds a blocked detection. */
  lemma BlockedWhen(policy: PolicyMap, env: Env, decisions: seq<Decision>)
    requires Summarizes(decisions, AllScored(env.analyses), policy)
    ensures BlockedTypes(decisions) != [] <==> AnyBlocked(policy, env)
    ensures forall t :: t in BlockedTypes(decisions) <==> IsBlocked(policy, env, t)
  {
    hide Summarizes, AllScored, BlockedTypes, HasBlock;
    ScoredHasBlock(policy, env.analyses);
    NothingBlocked(decisions, AllScored(env.analyses), policy);
    forall t ensures t in BlockedTypes(decisions) <==> IsBlocked(policy, env, t) {
      BlockIsFaithful(decisions, AllScored(env.analyses), policy, t);
    }
  }

  /** The record of a request that fails. */
  function Failure(event: AuditEvent, provider: ProviderOutcome, decisions: Option<seq<Decision>>, blocked: seq<string>,
                   promptHash: Option<Digest>, responseHash: Option<Digest>): AuditPayload {
    AuditPayload(event, StatusOf(event, provider).0, StatusOf(event, provider).1, decisions, blocked,
                 promptHash, responseHash, false, false, None)
  }

  lemma TellsUndetected(s: Service, body: Body, env: Env)
    requires ValidEnv(s.policy, body, env) && !Detects(body, env)
    ensures Records(s, body, env, None, Some(Failure(DetectorFailure, env.provider, None, [], None, None)))
  {
    hide ValidAnalysis, ValidRedaction, Archived, Summarizes, AllScored, AnyBlocked, AllComplete, IsBlocked,
         AllScansPass;
  }

  lemma TellsBlocked(s: Service, body: Body, env: Env, decisions: seq<Decision>)
    requires ValidEnv(s.policy, body, env) && Detects(body, env) && AnyBlocked(s.policy, env)
    requires Summarizes(decisions, AllScored(env.analyses), s.policy)
    ensures Records(s, body, env, None,
                    Some(Failure(PolicyBlocked, env.provider, Some(decisions), BlockedTypes(decisions), None, None)))
  {
    hide ValidAnalysis, ValidRedaction, Summarizes, AllScored, AnyBlocked, AllComplete, IsBlocked, AllScansPass,
         BlockedTypes, Archived, Contains, Texts, Join, RequestOf, IsNamespace;
    BlockedWhen(s.policy, env, decisions);
  }

  lemma TellsUnsanitized(s: Service, body: Body, env: Env, decisions: seq<Decision>)
    requires ValidEnv(s.policy, body, env) && Detects(body, env) && !AnyBlocked(s.policy, env) && !AllComplete(s.policy, env)
    requires Summarizes(decisions, AllScored(env.analyses), s.policy)
    ensures Records(s, body, env, None, Some(Failure(DetectorFailure, env.provider, Some(decisions), [], None, None)))
  {
    hide ValidAnalysis, ValidRedaction, Archived, Summarizes, AllScored, AnyBlocked, AllComplete, IsBlocked,
         AllScansPass;
  }

  lemma TellsProviderFailure(s: Service, body: Body, env: Env, decisions: seq<Decision>, sent: seq<ChatMessage>)
    requires ValidEnv(s.policy, body, env) && Reaches(s.policy, body, env)
    requires env.provider.TypedFailure? || env.provider.OtherFailure?
    requires Summarizes(decisions, AllScored(env.analyses), s.policy)
    ensures Records(s, body, env, Some(sent),
                    Some(Failure(ProviderError, env.provider, Some(decisions), [], Some(PromptHash(s, sent)), None)))
  {
    hide ValidAnalysis, ValidRedaction, Archived, Summarizes, AllScored, AnyBlocked, AllComplete, AllAnalyzed,
         IsBlocked, AllScansPass, PromptHash;
  }

  lemma TellsUnscanned(s: Service, body: Body, env: Env, decisions: seq<Decision>, sent: seq<ChatMessage>)
    requires ValidEnv(s.policy, body, env) && Reaches(s.policy, body, env)
    requires env.provider.Reply? && env.provider.encodable
    requires s.scanning && !AllScansPass(s.policy, env.provider.choices, env.scans)
    requires Summarizes(decisions, AllScored(env.analyses), s.policy)
    ensures Records(s, body, env, Some(sent),
                    Some(Failure(ResponseScanFailure, env.provider, Some(decisions), [],
                                 Some(PromptHash(s, sent)), Some(ResponseHash(s, env.provider.choices)))))
  {
    hide ValidAnalysis, ValidRedaction, Archived, Summarizes, AllScored, AnyBlocked, AllComplete, AllAnalyzed,
         IsBlocked, AllScansPass, PromptHash, ResponseHash;
  }

  lemma TellsCompletion(s: Service, body: Body, env: Env, decisions: seq<Decision>, sent: seq<ChatMessage>,
                        archived: Option<seq<ChatMessage>>)
    requires ValidEnv(s.policy, body, env) && EventOf(s, body, env) == Some(ChatCompletion)
    requires Summarizes(decisions, AllScored(env.analyses), s.policy)
    requires archived.Some? <==> s.archiving
    requires archived.Some? ==>
      && (forall i :: 0 <= i < |body.messages| ==> Disjoint(body.messages[i].content, env.redactions[i].spans))
      && archived.value == Archived(body, env)
    ensures Records(s, body, env, Some(sent),
                    Some(AuditPayload(ChatCompletion, 200, "", Some(decisions), [], Some(PromptHash(s, sent)),
                                      Some(ResponseHash(s, env.provider.choices)), s.scanning, body.rehydrate, archived)))
  {
    hide ValidAnalysis, ValidRedaction, Summarizes, AllScored, AnyBlocked, AllComplete, AllAnalyzed, IsBlocked,
         AllScansPass, AllRedacted, PromptHash, ResponseHash, Archived, Disjoint, Contains, IsNamespace, Texts, Join,
         RequestOf;
  }

  lemma EndsUnsent(s: Service, body: Body, env: Env, before: seq<Row>, after: seq<Row>,
                   namespace: string, run: Run, r: Response)
    requires ValidEnv(s.policy, body, env) && !Reaches(s.policy, body, env)
    requires run.sent == None && run.rehydrated == 0 && run.payload.Some?
    requires Records(s, body, env, None, run.payload) && run.payload.value.event != ChatCompletion
    requires run.payload.value.decisions.Some? ==> run.analyzed == |body.messages|
    requires run.committed == Commits(before, env.attempts)
    requires after == RowsAfter(s.crypto, before, s.codec.payload(run.payload.value), env.attempts)
    requires Agrees(s.storing, env, before, run.payload, r)
    ensures Serves(s, body, env, before, after, namespace, run, r)
  {
    hide ValidEnv, Records, RowsAfter, Commits, Escapes, Delivers, IsPrompt, TokensOf, Reaches;
  }

  /** The effect of having something recorded. */
  function Writes(payload: Option<AuditPayload>, rows: seq<Row>, env: Env): seq<Effect> {
    if payload.Some? then [Audited(payload.value, Commits(rows, env.attempts))] else []
  }

  lemma RecordsNothing(s: Service, body: Body, env: Env, sent: Option<seq<ChatMessage>>)
    requires ValidEnv(s.policy, body, env) && EventOf(s, body, env) == None
    ensures Records(s, body, env, sent, None)
  {
  }

  lemma TableWith(s: Service, rows: seq<Row>, payload: AuditPayload, attempts: seq<AuditLogger.Attempt>)
    ensures TableAfter(s, rows, Some(payload), attempts) == RowsAfter(s.crypto, rows, s.codec.payload(payload), attempts)
  {
  }

  lemma EventAfterReply(s: Service, body: Body, env: Env)
    requires ValidEnv(s.policy, body, env) && Reaches(s.policy, body, env)
    requires env.provider.Reply? && env.provider.encodable
    ensures |env.scans| == |env.provider.choices| && |env.redactions| == |env.analyses| == |body.messages|
    ensures |env.attempts| == APPEND_RETRIES && AllAnalyzed(env)
    ensures forall j :: 0 <= j < |env.scans| && env.provider.choices[j].Some? ==>
      ValidAnalysis(ResponsePolicy(s.policy), env.provider.choices[j].value, env.scans[j])
    ensures EventOf(s, body, env) ==
      if s.scanning && !AllScansPass(s.policy, env.provider.choices, env.scans) then Some(ResponseScanFailure)
      else if s.archiving && !AllRedacted(env) then None
      else Some(ChatCompletion)
  {
    hide ValidAnalysis, ValidRedaction, AllScansPass, AllRedacted, AnyBlocked, AllComplete;
  }

  lemma EventWithoutReply(s: Service, body: Body, env: Env)
    requires ValidEnv(s.policy, body, env) && Reaches(s.policy, body, env)
    ensures |env.attempts| == APPEND_RETRIES
    ensures env.provider.Cancelled? || (env.provider.Reply? && !env.provider.encodable) ==>
      forall sent :: Records(s, body, env, sent, None)
  {
    hide ValidAnalysis, ValidRedaction, AllScansPass, AllRedacted, AnyBlocked, AllComplete;
  }

  lemma EndsSent(s: Service, body: Body, env: Env, before: seq<Row>, after: seq<Row>,
                 namespace: string, run: Run, r: Response)
    requires ValidEnv(s.policy, body, env) && Reaches(s.policy, body, env)
    requires run.committed <==> run.payload.Some? && Commits(before, env.attempts)
    requires after == TableAfter(s, before, run.payload, env.attempts)
    requires Agrees(s.storing, env, before, run.payload, r)
    requires run.sent.Some? && run.analyzed == run.sanitized == |body.messages|
    requires Records(s, body, env, run.sent, run.payload)
    requires IsPrompt(s.policy, namespace, RequestOf(body, env), run.sent.value)
    requires run.rehydrated > 0 ==> run.committed && run.payload.value.event == ChatCompletion && body.rehydrate
    requires r.Ok? ==>
      && IsDelivery(TokensOf(s.policy, namespace, RequestOf(body, env)), body, env, s.scanning, r.choices)
      && env.provider.Reply? && run.scanned == (if s.scanning then |env.provider.choices| else 0)
      && run.rehydrated == Restorations(TokensOf(s.policy, namespace, RequestOf(body, env)), body, |env.provider.choices|)
    ensures Serves(s, body, env, before, after, namespace, run, r)
  {
    hide ValidAnalysis, ValidRedaction, AllScansPass, AllRedacted, AnyBlocked, AllComplete, Records, TableAfter,
         Agrees, IsDelivery, TokensOf, AllWellFormed, SentMessages, FinalRegistry, Disjoint, Contains, IsNamespace;
  }

  // ---------- The order of effects ----------

  /** What stands at a position of a trace. */
  lemma TraceAt(run: Run, q: nat)
    requires q < |TraceOf(run)|
    ensures var a := run.analyzed;
            var b := a + run.sanitized;
            var c := b + |Call(run)|;
            var d := c + run.scanned;
            var e := d + |Record(run)|;
            && |TraceOf(run)| == e + run.rehydrated
            && TraceOf(run)[q] ==
               if q < a then Analyzed(q)
               else if q < b then SanitizedText(q - a)
               else if q < c then Call(run)[0]
               else if q < d then ResponseScanned(q - c)
               else if q < e then Record(run)[0]
               else Rehydrated(q - e)
  {
  }

  /** The provider is called at most once, and only after every message was analyzed and
      sanitized; at most one audit record is written for, and rehydration comes after it. */
  lemma EffectsAreOrdered(run: Run, n: nat, p: nat)
    requires run.sent.Some? ==> run.analyzed == n && run.sanitized == n
    requires run.rehydrated > 0 ==> run.payload.Some?
    requires p < |TraceOf(run)|
    ensures TraceOf(run)[p].ProviderCalled? ==>
      && run.sent == Some(TraceOf(run)[p].sent)
      && (forall i :: 0 <= i < n ==> Analyzed(i) in TraceOf(run)[..p] && SanitizedText(i) in TraceOf(run)[..p])
      && (forall q :: 0 <= q < |TraceOf(run)| && TraceOf(run)[q].ProviderCalled? ==> q == p)
    ensures TraceOf(run)[p].Rehydrated? ==>
      run.rehydrated > 0 && Audited(run.payload.value, run.committed) in TraceOf(run)[..p]
    ensures TraceOf(run)[p].Audited? ==>
      && run.payload == Some(TraceOf(run)[p].payload)
      && forall q :: 0 <= q < |TraceOf(run)| && TraceOf(run)[q].Audited? ==> q == p
    ensures run.payload.Some? ==> Audited(run.payload.value, run.committed) in TraceOf(run)
  {
    var t := TraceOf(run);
    var a := run.analyzed;
    var c := a + run.sanitized + |Call(run)|;
    var d := c + run.scanned;
    var e := d + |Record(run)|;
    forall q: nat | q < |t|
      ensures t[q] == if q < a then Analyzed(q)
                      else if q < a + run.sanitized then SanitizedText(q - a)
                      else if q < c then Call(run)[0]
                      else if q < d then ResponseScanned(q - c)
                      else if q < e then Record(run)[0]
                      else Rehydrated(q - e)
    {
      TraceAt(run, q);
    }
    TraceAt(run, p);
    hide TraceOf;
    assert run.payload.Some? ==> t[d] == Audited(run.payload.value, run.committed);
    if t[p].ProviderCalled? {
      forall i | 0 <= i < n ensures Analyzed(i) in t[..p] && SanitizedText(i) in t[..p] {
        assert t[..p][i] == Analyzed(i) && t[..p][a + i] == SanitizedText(i);
      }
    }
    if t[p].Rehydrated? {
      assert t[..p][d] == t[d];
    }
  }
}
