/**
 Requests on which what one might expect of the gateway fails: one message "hi", in which
 nothing is detected, served from an empty log.
 */
module Witnesses {
  import opened Wrappers
  import opened Text
  import opened Tokens
  import opened Tokenization
  import opened Policy
  import opened Mediator
  import opened RequestModel
  import opened AuditModel
  import opened CheckpointStore
  import opened Pipeline
  import opened Gateway
  import opened ServiceTheorems
  import AuditLogger

  const NO_POLICY: PolicyMap := map[]
  const NO_PASS := Pass([], [], true)
  const NOTHING_FOUND := Analysis(Some([]), NO_PASS)
  const HELLO := Body([ChatMessage("user", "hi")], true)

  function HelloEnv(provider: ProviderOutcome, saving: SaveFault): Env {
    Env(seq(NAMESPACE_ATTEMPTS, i => "00000000"), [NOTHING_FOUND], provider, [NOTHING_FOUND], [NO_PASS],
        seq(APPEND_RETRIES, i => AuditLogger.Attempt("", AuditLogger.NoError)), "", saving)
  }

  lemma NothingResolves(text: string)
    ensures ValidPass(text, [], NO_PASS)
  {
  }

  lemma HelloIsValid(provider: ProviderOutcome, saving: SaveFault)
    requires provider.Reply? ==> |provider.choices| == 1
    ensures ValidEnv(NO_POLICY, HELLO, HelloEnv(provider, saving))
  {
    hide ValidPass, IsNamespace, ResponsePolicy;
    assert IsNamespace("00000000") by { ZerosAreHex(); }
    forall policy: PolicyMap, text ensures ValidAnalysis(policy, text, NOTHING_FOUND) {
      NothingResolves(text);
    }
    NothingResolves("hi");
  }

  lemma ZerosAreHex()
    ensures IsNamespace("00000000")
  {
  }

  lemma HelloReaches(provider: ProviderOutcome, saving: SaveFault)
    requires provider.Reply? ==> |provider.choices| == 1
    ensures ValidEnv(NO_POLICY, HELLO, HelloEnv(provider, saving))
    ensures Reaches(NO_POLICY, HELLO, HelloEnv(provider, saving))
  {
    HelloIsValid(provider, saving);
    var env := HelloEnv(provider, saving);
    hide ValidEnv, Contains;
    assert Texts(RequestOf(HELLO, env)) == ["hi"];
    assert !Contains("hi", env.candidates[0]) by { TooLong(); }
  }

  lemma TooLong()
    ensures !Contains("hi", "00000000")
  {
  }

  lemma HelloCommits(provider: ProviderOutcome, saving: SaveFault)
    ensures Commits([], HelloEnv(provider, saving).attempts)
  {
  }

  method ServeHello(crypto: Crypto, codec: Codec, provider: ProviderOutcome, saving: SaveFault)
    returns (r: Response, rows: seq<Row>, trace: seq<Effect>, ghost namespace: string, ghost run: Run)
    requires provider.Reply? ==> |provider.choices| == 1
    ensures Serves(Service(crypto, codec, NO_POLICY, false, true, false), HELLO, HelloEnv(provider, saving), [], rows,
                   namespace, run, r)
    ensures trace == TraceOf(run)
  {
    hide Serves, TraceOf, ValidEnv, HelloEnv;
    var db := new AuditLogger.AuditDatabase();
    var store := new LocalFileCheckpointStore();
    var audit := new AuditLogger.AuditLogger(db, crypto, store);
    var mediator := new PIIMediator(NO_POLICY);
    var gateway := new ChatGateway(mediator, false, audit, codec, false);
    HelloIsValid(provider, saving);
    r, run := gateway.Handle(HELLO, HelloEnv(provider, saving));
    rows, trace, namespace := db.rows, gateway.trace, NameOf(gateway.tokenContext);
    assert [] + TraceOf(run) == TraceOf(run);
  }

  /** A 200 for the request is on record in this table. */
  ghost predicate SuccessRecorded(codec: Codec, rows: seq<Row>, trace: seq<Effect>) {
    && |rows| == 1
    && (exists p :: Audited(p, true) in trace && p.event == ChatCompletion && p.responseStatus == 200
                    && rows[0].payload == codec.payload(p))
  }

  lemma HelloCompletes(s: Service, provider: ProviderOutcome, saving: SaveFault)
    requires s.policy == NO_POLICY && !s.scanning && !s.archiving
    requires provider.Reply? && |provider.choices| == 1 && provider.encodable
    ensures ValidEnv(s.policy, HELLO, HelloEnv(provider, saving))
    ensures EventOf(s, HELLO, HelloEnv(provider, saving)) == Some(ChatCompletion)
    ensures !Escaping(s, HELLO, HelloEnv(provider, saving))
  {
    HelloReaches(provider, saving);
    hide ValidEnv, HelloEnv, Detects, AnyBlocked, AllComplete;
    assert HelloEnv(provider, saving).provider == provider by { HelloProvider(provider, saving); }
  }

  lemma HelloProvider(provider: ProviderOutcome, saving: SaveFault)
    ensures HelloEnv(provider, saving).provider == provider && HelloEnv(provider, saving).saving == saving
  {
  }

  lemma SuccessIsRecorded(s: Service, provider: ProviderOutcome, saving: SaveFault, rows: seq<Row>, namespace: string,
                          run: Run, r: Response)
    requires Serves(s, HELLO, HelloEnv(provider, saving), [], rows, namespace, run, r)
    requires s.policy == NO_POLICY && !s.scanning && !s.archiving
    requires provider.Reply? && |provider.choices| == 1 && provider.encodable
    ensures SuccessRecorded(s.codec, rows, TraceOf(run))
    ensures s.storing && saving != NoFault ==> r == Failed(500, AUDIT_WRITE)
    ensures !(s.storing && saving != NoFault) && !provider.renderable ==> r == Crashed
  {
    HelloCompletes(s, provider, saving);
    HelloCommits(provider, saving);
    HelloProvider(provider, saving);
    OneRecord(s, HELLO, HelloEnv(provider, saving), [], rows, namespace, run, r);
    RecordDecides([], HelloEnv(provider, saving).attempts);
    hide ValidEnv, HelloEnv, FailsClosed, Delivers, IsPrompt, EventOf, IsBlocked, Summarizes, Archived, Escaping,
         Commits, Escapes, TableAfter, AllScored, Detects;
    RecordIsInTrace(run);
  }

  lemma RecordIsInTrace(run: Run)
    requires run.payload.Some?
    ensures Audited(run.payload.value, run.committed) in TraceOf(run)
  {
    var t := TraceOf(run);
    assert t[run.analyzed + run.sanitized + |Call(run)| + run.scanned] == Record(run)[0];
  }

  /** The checkpoint cannot be saved: the success is on record, and the client gets a 500. */
  method CheckpointNotSaved(crypto: Crypto, codec: Codec) returns (r: Response, rows: seq<Row>, trace: seq<Effect>)
    ensures SuccessRecorded(codec, rows, trace) && r == Failed(500, AUDIT_WRITE)
  {
    var provider, saving := Reply([Some("hello")], true, true), MkstempFails;
    ghost var namespace, run;
    r, rows, trace, namespace, run := ServeHello(crypto, codec, provider, saving);
    hide Serves, SuccessRecorded, TraceOf;
    SuccessIsRecorded(Service(crypto, codec, NO_POLICY, false, true, false), provider, saving, rows, namespace, run, r);
  }

  /** The reply cannot be rendered: the success is on record, and there is no response. */
  method ReplyNotRendered(crypto: Crypto, codec: Codec) returns (r: Response, rows: seq<Row>, trace: seq<Effect>)
    ensures SuccessRecorded(codec, rows, trace) && r == Crashed
  {
    var provider, saving := Reply([Some("hello")], true, false), NoFault;
    ghost var namespace, run;
    r, rows, trace, namespace, run := ServeHello(crypto, codec, provider, saving);
    hide Serves, SuccessRecorded, TraceOf;
    SuccessIsRecorded(Service(crypto, codec, NO_POLICY, false, true, false), provider, saving, rows, namespace, run, r);
  }

  lemma NothingIsRecorded(s: Service, provider: ProviderOutcome, saving: SaveFault, rows: seq<Row>, namespace: string,
                          run: Run, r: Response)
    requires Serves(s, HELLO, HelloEnv(provider, saving), [], rows, namespace, run, r) && s.policy == NO_POLICY
    requires provider.Cancelled? || (provider.Reply? && |provider.choices| == 1 && !provider.encodable)
    ensures rows == [] && r == Crashed && exists q :: 0 <= q < |TraceOf(run)| && TraceOf(run)[q].ProviderCalled?
  {
    hide Serves, TraceOf;
    HelloReaches(provider, saving);
    HelloProvider(provider, saving);
    OneRecord(s, HELLO, HelloEnv(provider, saving), [], rows, namespace, run, r);
    NoRecordNoResponse(s, HELLO, HelloEnv(provider, saving), rows, namespace, run, r);
  }

  lemma NoRecordNoResponse(s: Service, body: Body, env: Env, rows: seq<Row>, namespace: string, run: Run, r: Response)
    requires Serves(s, body, env, [], rows, namespace, run, r) && Escaping(s, body, env)
    ensures r == Crashed && exists q :: 0 <= q < |TraceOf(run)| && TraceOf(run)[q].ProviderCalled?
  {
    OneRecord(s, body, env, [], rows, namespace, run, r);
    hide ValidEnv, Delivers, IsPrompt, Commits, Escapes, TableAfter, Detects, Reaches, Records;
    assert TraceOf(run)[run.analyzed + run.sanitized].ProviderCalled?;
  }

  /** The reply holds text without an encoding: the provider was called, and nothing is on
      record. */
  method ReplyNotHashed(crypto: Crypto, codec: Codec) returns (r: Response, rows: seq<Row>, trace: seq<Effect>)
    ensures rows == [] && r == Crashed && exists q :: 0 <= q < |trace| && trace[q].ProviderCalled?
  {
    var provider, saving := Reply([Some("hello")], false, true), NoFault;
    ghost var namespace, run;
    r, rows, trace, namespace, run := ServeHello(crypto, codec, provider, saving);
    hide Serves, TraceOf;
    NothingIsRecorded(Service(crypto, codec, NO_POLICY, false, true, false), provider, saving, rows, namespace, run, r);
  }
}
