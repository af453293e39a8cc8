/**
 The chat endpoint: one request through detection, the block check, sanitization, the
 provider, the response scan, the audit record and rehydration, with every exit on the way,
 and the middleware that clears the token context behind it.
 */
module Gateway {
  import opened Wrappers
  import opened Text
  import opened Tokens
  import opened Tokenization
  import opened Policy
  import opened Mediator
  import opened RequestModel
  import opened AuditModel
  import opened CheckpointStore
  import opened Pipeline
  import AuditLogger

  function NameOf(context: TokenizationContext?): string {
    if context == null then "" else context.namespace
  }

  class ChatGateway {
    const mediator: PIIMediator
    /** The mediator of responses, if they are scanned. */
    const scanner: PIIMediator?
    const audit: AuditLogger.AuditLogger
    const codec: Codec
    /** `audit_store_redacted_content` */
    const archiving: bool
    /** The effects of all requests so far. */
    var trace: seq<Effect>
    /** `request.state.token_context` of the request at hand. */
    var tokenContext: TokenizationContext?

    constructor (mediator: PIIMediator, scanning: bool, audit: AuditLogger.AuditLogger, codec: Codec,
                 archiving: bool)
      requires audit.store != null ==> audit.store.Valid()
      ensures Valid() && trace == []
      ensures this.mediator == mediator && this.audit == audit && this.codec == codec && this.archiving == archiving
      ensures scanner != null <==> scanning
    {
      this.mediator, this.audit, this.codec, this.archiving := mediator, audit, codec, archiving;
      if scanning {
        var redacting := new PIIMediator(ResponsePolicy(mediator.policy));
        this.scanner := redacting;
      } else {
        this.scanner := null;
      }
      trace, tokenContext := [], null;
    }

    ghost predicate Valid()
      reads this, audit.store
    {
      && (scanner != null ==> scanner.policy == ResponsePolicy(mediator.policy))
      && (audit.store != null ==> audit.store.Valid())
    }

    function Setup(): Service {
      Service(audit.crypto, codec, mediator.policy, scanner != null, audit.store != null, archiving)
    }

    /** The checkpoint file changes as the request's record calls for. */
    twostate predicate Stores(committed: bool, env: Env)
      reads audit.store, audit.db
    {
      audit.store != null ==>
        audit.store.Load() == CheckpointAfter(old(audit.store.Load()), audit.db.rows, committed, env)
    }

    /** `_audit_or_fail`: appends the record of the request. */
    method Record(payload: AuditPayload, env: Env) returns (r: AuditLogger.AppendResult)
      requires Valid() && |env.attempts| == APPEND_RETRIES
      modifies this`trace, audit.db, audit.store
      ensures Valid()
      ensures Stores(Commits(old(audit.db.rows), env.attempts), env)
      ensures trace == old(trace) + [Audited(payload, Commits(old(audit.db.rows), env.attempts))]
      ensures audit.db.rows == RowsAfter(audit.crypto, old(audit.db.rows), codec.payload(payload), env.attempts)
      ensures r.Appended? <==> Commits(old(audit.db.rows), env.attempts) && (audit.store == null || env.saving == NoFault)
      ensures r.Appended? ==> r.record.id == NextId(old(audit.db.rows))
      ensures r.Escaped? <==> Escapes(old(audit.db.rows), env.attempts)
    {
      var rows := audit.db.rows;
      r := audit.Append(codec.payload(payload), env.attempts, env.savedAt, env.saving);
      trace := trace + [Audited(payload, |audit.db.rows| > |rows|)];
      if r.Appended? {
        assert audit.db.rows[|rows|] == r.record;
      }
    }

    /** `_audit_safe`, and the error raised after it: a failing append is swallowed if it is
        an AuditWriteError. */
    method Fail(payload: AuditPayload, env: Env) returns (r: Response)
      requires Valid() && |env.attempts| == APPEND_RETRIES && payload.event != ChatCompletion
      modifies this`trace, audit.db, audit.store
      ensures Valid()
      ensures Stores(Commits(old(audit.db.rows), env.attempts), env)
      ensures trace == old(trace) + [Audited(payload, Commits(old(audit.db.rows), env.attempts))]
      ensures audit.db.rows == RowsAfter(audit.crypto, old(audit.db.rows), codec.payload(payload), env.attempts)
      ensures Agrees(audit.store != null, env, old(audit.db.rows), Some(payload), r)
    {
      var appended := Record(payload, env);
      if appended.Escaped? {
        return Crashed;
      }
      return Failed(payload.responseStatus, payload.errorCode);
    }

    /** Creates the token context, analyzes every message and sums up the detections. None
        stands for an exception on the way. */
    method Detect(body: Body, env: Env) returns (decisions: Option<seq<Decision>>, ghost analyzed: nat)
      requires ValidEnv(mediator.policy, body, env)
      modifies this`trace, this`tokenContext
      ensures trace == old(trace) + Analyses(analyzed)
      ensures tokenContext != null ==>
        fresh(tokenContext) && tokenContext.View() == Fresh(tokenContext.namespace)
        && IsNamespace(tokenContext.namespace)
        && !Contains(Join(Texts(RequestOf(body, env))), tokenContext.namespace)
      ensures decisions.Some? <==> Detects(body, env)
      ensures decisions.Some? ==>
        && tokenContext != null && analyzed == |body.messages|
        && Summarizes(decisions.value, AllScored(env.analyses), mediator.policy)
    {
      hide Contains, Join, Texts, RequestOf, AllScored, ScoredOf, Summarizes, ValidAnalysis, IsNamespace, Analyses;
      analyzed := 0;
      tokenContext := null;
      NothingYet();
      var text := Join(Texts(RequestOf(body, env)));
      var context := TokenizationContext.Create(text, env.candidates);
      if context == null {
        return None, 0;
      }
      tokenContext := context;
      var scored: seq<Scored> := [];
      for i := 0 to |body.messages|
        invariant tokenContext == context && context.View() == Fresh(context.namespace)
        invariant analyzed == i
        invariant trace == old(trace) + Analyses(analyzed)
        invariant forall j :: 0 <= j < i ==> env.analyses[j].results.Some?
        invariant scored == AllScored(env.analyses[..i])
      {
        if env.analyses[i].results == None {
          return None, i;
        }
        ScoredStep(env.analyses, i);
        trace := trace + [Analyzed(i)];
        analyzed := i + 1;
        assert Analyses(i + 1) == Analyses(i) + [Analyzed(i)];
        scored := scored + ScoredOf(ResultsOf(env.analyses[i]));
      }
      assert env.analyses[..|env.analyses|] == env.analyses;
      var summary := BuildDecisions(scored, mediator.policy);
      return Some(summary), analyzed;
    }

    /** Sanitizes every message in the shared context. None stands for an exception. */
    method Sanitize(body: Body, env: Env) returns (sent: Option<seq<ChatMessage>>, ghost sanitized: nat)
      requires ValidEnv(mediator.policy, body, env) && AllAnalyzed(env)
      requires tokenContext != null && tokenContext.View() == Fresh(tokenContext.namespace)
      modifies this`trace, tokenContext
      ensures trace == old(trace) + Sanitizations(sanitized)
      ensures sent.Some? <==> !AnyBlocked(mediator.policy, env) && AllComplete(mediator.policy, env)
      ensures sent.Some? ==>
        var messages := RequestOf(body, env);
        && sanitized == |body.messages| && AllWellFormed(mediator.policy, messages)
        && tokenContext.View() == FinalRegistry(tokenContext.namespace, mediator.policy, messages)
        && sent.value == SentMessages(mediator.policy, tokenContext.View(), messages)
    {
      hide WellFormed, SanitizedMessage, SentMessages, FinalRegistry, ValidAnalysis, ValidRedaction, HasBlock,
           PassCompletes, KeysOf, MintAll, RequestOf, Sanitizations, Actionable, VisitedKeys, Sanitized, Resolves,
           VisitsSpans, IsNamespace;
      var messages := RequestOf(body, env);
      var policy := mediator.policy;
      var namespace := tokenContext.namespace;
      var out: seq<ChatMessage> := [];
      sanitized := 0;
      NothingSanitized(policy, namespace, messages);
      for i := 0 to |messages|
        invariant sanitized == i
        invariant trace == old(trace) + Sanitizations(sanitized)
        invariant AllWellFormed(policy, messages[..i])
        invariant forall j :: 0 <= j < i ==> !HasBlock(policy, ResultsOf(env.analyses[j])) && PassCompletes(policy, env.analyses[j])
        invariant tokenContext.View() == FinalRegistry(namespace, policy, messages[..i])
        invariant out == SentMessages(policy, tokenContext.View(), messages[..i])
      {
        var m := messages[i];
        MessageOf(policy, body, env, i);
        var content := mediator.Apply(m.text, m.results, tokenContext, env.analyses[i].pass);
        if content == None {
          return None, i;
        }
        PassedIsWellFormed(policy, m, env.analyses[i].pass);
        assert messages[..i + 1] == messages[..i] + [m];
        SentStep(policy, namespace, messages, i);
        trace := trace + [SanitizedText(i)];
        sanitized := i + 1;
        assert Sanitizations(i + 1) == Sanitizations(i) + [SanitizedText(i)];
        out := out + [ChatMessage(m.role, content.value)];
      }
      assert messages[..|messages|] == messages;
      return Some(out), sanitized;
    }

    /** Redacts what is detected in the choices. None stands for an exception. */
    method ScanResponse(choices: seq<Option<string>>, scans: seq<Analysis>)
      returns (scanned: Option<seq<Option<string>>>, ghost count: nat)
      requires Valid() && scanner != null && |scans| == |choices|
      requires forall j :: 0 <= j < |scans| && choices[j].Some? ==>
        ValidAnalysis(ResponsePolicy(mediator.policy), choices[j].value, scans[j])
      modifies this`trace
      ensures trace == old(trace) + Scans(count)
      ensures scanned.Some? <==> AllScansPass(mediator.policy, choices, scans)
      ensures forall j :: 0 <= j < |scans| && choices[j].Some? && scans[j].results.Some? ==>
        Disjoint(choices[j].value, scans[j].pass.spans)
      ensures scanned.Some? ==> count == |choices| && scanned.value == ScannedChoices(choices, scans)
    {
      ScansDisjoint(mediator.policy, choices, scans);
      hide ValidAnalysis, ResponsePolicy, Scans, ScannedChoice, ScanPasses, Sanitized, Actionable, Disjoint,
           Resolves, VisitsSpans, HasBlock, NeedsContext;
      var policy := mediator.policy;
      var out: seq<Option<string>> := [];
      count := 0;
      NothingYet();
      for j := 0 to |choices|
        invariant count == j && |out| == j
        invariant trace == old(trace) + Scans(count)
        invariant forall k :: 0 <= k < j ==> ScanPasses(policy, choices[k], scans[k])
        invariant forall k :: 0 <= k < j ==> out[k] == ScannedChoice(choices[k], scans[k])
      {
        var choice := choices[j];
        ScanStep(policy, choice, scans[j]);
        if choice.Some? {
          if scans[j].results == None {
            return None, j;
          }
          var content := scanner.Apply(choice.value, scans[j].results.value, null, scans[j].pass);
          if content == None {
            return None, j;
          }
          choice := content;
        }
        out := out + [choice];
        trace := trace + [ResponseScanned(j)];
        count := j + 1;
        assert Scans(j + 1) == Scans(j) + [ResponseScanned(j)];
      }
      assert out == ScannedChoices(choices, scans);
      return Some(out), count;
    }

    /** Restores the caller's values in the choices. */
    method RehydrateChoices(choices: seq<Option<string>>) returns (restored: seq<Option<string>>)
      requires tokenContext != null
      modifies this`trace
      ensures restored == RestoredChoices(tokenContext.tokenToValue, choices)
      ensures trace == old(trace) + Rehydrations(|choices|)
    {
      hide Substitute, Rehydrations;
      restored := [];
      NothingYet();
      var values := tokenContext.tokenToValue;
      for j := 0 to |choices|
        invariant |restored| == j
        invariant trace == old(trace) + Rehydrations(j)
        invariant forall k :: 0 <= k < j ==>
          restored[k] == if choices[k].Some? then Some(Substitute(values, choices[k].value)) else None
      {
        var choice := choices[j];
        if choice.Some? {
          var content := tokenContext.Rehydrate(choice.value);
          choice := Some(content);
        }
        restored := restored + [choice];
        trace := trace + [Rehydrated(j)];
        assert Rehydrations(j + 1) == Rehydrations(j) + [Rehydrated(j)];
      }
    }

    /** The research mode's copy of the messages, everything detected redacted. None stands
        for an exception. */
    method Archive(body: Body, env: Env) returns (messages: Option<seq<ChatMessage>>)
      requires ValidEnv(mediator.policy, body, env) && AllAnalyzed(env)
      ensures forall i :: 0 <= i < |body.messages| ==> Disjoint(body.messages[i].content, env.redactions[i].spans)
      ensures messages.Some? <==> AllRedacted(env)
      ensures messages.Some? ==> messages.value == Archived(body, env)
    {
      hide ValidAnalysis, Disjoint, Resolves, VisitsSpans, IsNamespace, Weave, Gaps;
      RedactionsDisjoint(mediator.policy, body, env);
      var out: seq<ChatMessage> := [];
      for i := 0 to |body.messages|
        invariant |out| == i
        invariant forall j :: 0 <= j < i ==> env.redactions[j].completes || ResultsOf(env.analyses[j]) == []
        invariant forall j :: 0 <= j < i ==> out[j] == Archived(body, env)[j]
      {
        var m := body.messages[i];
        assert ValidRedaction(m.content, env.analyses[i], env.redactions[i]);
        var content := mediator.RedactAll(m.content, ResultsOf(env.analyses[i]), env.redactions[i]);
        if content == None {
          return None;
        }
        out := out + [ChatMessage(m.role, content.value)];
      }
      return Some(out);
    }

    /** The mandatory record, then rehydration, and last of all the response is rendered. */
    method Deliver(body: Body, env: Env, payload: AuditPayload, choices: seq<Option<string>>)
      returns (r: Response, ghost rehydrated: nat)
      requires Valid() && |env.attempts| == APPEND_RETRIES && payload.event == ChatCompletion && tokenContext != null
      requires env.provider.Reply?
      modifies this`trace, audit.db, audit.store
      ensures Valid()
      ensures Stores(Commits(old(audit.db.rows), env.attempts), env)
      ensures trace == old(trace) + [Audited(payload, Commits(old(audit.db.rows), env.attempts))] + Rehydrations(rehydrated)
      ensures audit.db.rows == RowsAfter(audit.crypto, old(audit.db.rows), codec.payload(payload), env.attempts)
      ensures Agrees(audit.store != null, env, old(audit.db.rows), Some(payload), r)
      ensures rehydrated > 0 ==> Commits(old(audit.db.rows), env.attempts) && body.rehydrate
      ensures r.Ok? ==> rehydrated == Restorations(tokenContext.tokenToValue, body, |choices|)
      ensures r.Ok? ==>
        r.choices == (if body.rehydrate then RestoredChoices(tokenContext.tokenToValue, choices) else choices)
    {
      hide RestoredChoices, RowsAfter, Commits, Escapes;
      rehydrated := 0;
      NothingYet();
      RecordDecides(audit.db.rows, env.attempts);
      var appended := Record(payload, env);
      if appended.Escaped? {
        return Crashed, rehydrated;
      }
      if appended.AuditWriteError? {
        return Failed(500, AUDIT_WRITE), rehydrated;
      }
      var delivered := choices;
      if body.rehydrate {
        if tokenContext.tokenToValue == map[] {
          NothingToRestore(choices);
        } else {
          rehydrated := |choices|;
          delivered := RehydrateChoices(choices);
        }
      }
      if !env.provider.renderable {
        return Crashed, rehydrated;
      }
      r := Ok(delivered, appended.record.id);
    }

    /** The research mode, the record and rehydration: what is left once the reply is hashed
        and scanned. */
    method Complete(body: Body, env: Env, decisions: seq<Decision>, sent: seq<ChatMessage>, choices: seq<Option<string>>)
      returns (r: Response, ghost payload: Option<AuditPayload>, ghost rehydrated: nat)
      requires Valid() && ValidEnv(mediator.policy, body, env) && Reaches(mediator.policy, body, env)
      requires Summarizes(decisions, AllScored(env.analyses), mediator.policy)
      requires env.provider.Reply? && env.provider.encodable && tokenContext != null
      requires |env.scans| == |env.provider.choices|
      requires scanner != null ==> AllScansPass(mediator.policy, env.provider.choices, env.scans)
      modifies this`trace, audit.db, audit.store
      ensures Valid()
      ensures Stores(payload.Some? && Commits(old(audit.db.rows), env.attempts), env)
      ensures trace == old(trace) + Writes(payload, old(audit.db.rows), env) + Rehydrations(rehydrated)
      ensures audit.db.rows == TableAfter(Setup(), old(audit.db.rows), payload, env.attempts)
      ensures Records(Setup(), body, env, Some(sent), payload)
      ensures Agrees(audit.store != null, env, old(audit.db.rows), payload, r)
      ensures rehydrated > 0 ==>
        payload.Some? && payload.value.event == ChatCompletion && Commits(old(audit.db.rows), env.attempts) && body.rehydrate
      ensures r.Ok? ==> rehydrated == Restorations(tokenContext.tokenToValue, body, |choices|)
      ensures r.Ok? ==>
        r.choices == (if body.rehydrate then RestoredChoices(tokenContext.tokenToValue, choices) else choices)
    {
      hide ValidAnalysis, ValidRedaction, Summarizes, AllScored, AllScansPass, RestoredChoices, AllRedacted,
           RowsAfter, Commits, Records, EventOf, Archived, Disjoint, Escapes, IsNamespace, ResponsePolicy, Reaches,
           ValidEnv;
      EventAfterReply(Setup(), body, env);
      payload, rehydrated := None, 0;
      NothingYet();
      var archived: Option<seq<ChatMessage>> := None;
      if archiving {
        archived := Archive(body, env);
        if archived == None {
          RecordsNothing(Setup(), body, env, Some(sent));
          return Crashed, payload, rehydrated;
        }
      }
      var promptHash := Some(audit.crypto.sha256(codec.prompt(sent)));
      var responseHash := Some(audit.crypto.sha256(codec.response(env.provider.choices)));
      var success := AuditPayload(ChatCompletion, 200, "", Some(decisions), [], promptHash, responseHash,
                                  scanner != null, body.rehydrate, archived);
      TellsCompletion(Setup(), body, env, decisions, sent, archived);
      payload := Some(success);
      r, rehydrated := Deliver(body, env, success, choices);
    }

    /** What follows a reply that could be hashed: the response scan comes first. */
    method Finish(body: Body, env: Env, decisions: seq<Decision>, sent: seq<ChatMessage>)
      returns (r: Response, ghost payload: Option<AuditPayload>, ghost scanned: nat, ghost rehydrated: nat)
      requires Valid() && ValidEnv(mediator.policy, body, env) && Reaches(mediator.policy, body, env)
      requires Summarizes(decisions, AllScored(env.analyses), mediator.policy)
      requires env.provider.Reply? && env.provider.encodable && tokenContext != null
      modifies this`trace, audit.db, audit.store
      ensures Valid()
      ensures Stores(payload.Some? && Commits(old(audit.db.rows), env.attempts), env)
      ensures trace == old(trace) + Scans(scanned) + Writes(payload, old(audit.db.rows), env) + Rehydrations(rehydrated)
      ensures audit.db.rows == TableAfter(Setup(), old(audit.db.rows), payload, env.attempts)
      ensures Records(Setup(), body, env, Some(sent), payload)
      ensures Agrees(audit.store != null, env, old(audit.db.rows), payload, r)
      ensures rehydrated > 0 ==>
        payload.Some? && payload.value.event == ChatCompletion && Commits(old(audit.db.rows), env.attempts) && body.rehydrate
      ensures r.Ok? ==>
        && env.provider.Reply? && scanned == (if scanner != null then |env.provider.choices| else 0)
        && rehydrated == Restorations(tokenContext.tokenToValue, body, |env.provider.choices|)
      ensures r.Ok? ==> IsDelivery(tokenContext.tokenToValue, body, env, scanner != null, r.choices)
    {
      hide ValidEnv, ValidAnalysis, ValidRedaction, Summarizes, AllScored, AllScansPass, ScannedChoices,
           RestoredChoices, AllRedacted, RowsAfter, Commits, Records, EventOf, Disjoint, Escapes, IsNamespace,
           ResponsePolicy, Reaches, TableAfter, Agrees, IsDelivery;
      EventAfterReply(Setup(), body, env);
      ScansDisjoint(mediator.policy, env.provider.choices, env.scans);
      scanned, rehydrated := 0, 0;
      NothingYet();
      var choices := env.provider.choices;
      if scanner != null {
        var redacted;
        redacted, scanned := ScanResponse(choices, env.scans);
        if redacted == None {
          var promptHash := Some(audit.crypto.sha256(codec.prompt(sent)));
          var responseHash := Some(audit.crypto.sha256(codec.response(choices)));
          var failure := Failure(ResponseScanFailure, env.provider, Some(decisions), [], promptHash, responseHash);
          TellsUnscanned(Setup(), body, env, decisions, sent);
          payload := Some(failure);
          TableWith(Setup(), audit.db.rows, failure, env.attempts);
          r := Fail(failure, env);
          return;
        }
        choices := redacted.value;
      }
      DeliveryIs(tokenContext.tokenToValue, body, env, scanner != null, choices);
      r, payload, rehydrated := Complete(body, env, decisions, sent, choices);
    }

    /** The provider call, and what becomes of its outcome. */
    method Forward(body: Body, env: Env, decisions: seq<Decision>, sent: seq<ChatMessage>)
      returns (r: Response, ghost payload: Option<AuditPayload>, ghost scanned: nat, ghost rehydrated: nat)
      requires Valid() && ValidEnv(mediator.policy, body, env) && Reaches(mediator.policy, body, env)
      requires Summarizes(decisions, AllScored(env.analyses), mediator.policy)
      requires tokenContext != null
      modifies this`trace, audit.db, audit.store
      ensures Valid()
      ensures Stores(payload.Some? && Commits(old(audit.db.rows), env.attempts), env)
      ensures trace == old(trace) + [ProviderCalled(sent)] + Scans(scanned) + Writes(payload, old(audit.db.rows), env)
                       + Rehydrations(rehydrated)
      ensures audit.db.rows == TableAfter(Setup(), old(audit.db.rows), payload, env.attempts)
      ensures Records(Setup(), body, env, Some(sent), payload)
      ensures Agrees(audit.store != null, env, old(audit.db.rows), payload, r)
      ensures rehydrated > 0 ==>
        payload.Some? && payload.value.event == ChatCompletion && Commits(old(audit.db.rows), env.attempts) && body.rehydrate
      ensures r.Ok? ==>
        && env.provider.Reply? && scanned == (if scanner != null then |env.provider.choices| else 0)
        && rehydrated == Restorations(tokenContext.tokenToValue, body, |env.provider.choices|)
      ensures r.Ok? ==> IsDelivery(tokenContext.tokenToValue, body, env, scanner != null, r.choices)
    {
      hide ValidEnv, ValidAnalysis, ValidRedaction, Summarizes, AllScored, Reaches, RowsAfter, Commits, Records,
           EventOf, Disjoint, Escapes, IsDelivery, IsNamespace, ResponsePolicy;
      EventWithoutReply(Setup(), body, env);
      payload, scanned, rehydrated := None, 0, 0;
      NothingYet();
      trace := trace + [ProviderCalled(sent)];
      if env.provider.Cancelled? {
        return Crashed, payload, scanned, rehydrated;
      }
      if !env.provider.Reply? {
        var promptHash := Some(audit.crypto.sha256(codec.prompt(sent)));
        var failure := Failure(ProviderError, env.provider, Some(decisions), [], promptHash, None);
        TellsProviderFailure(Setup(), body, env, decisions, sent);
        payload := Some(failure);
        r := Fail(failure, env);
        return;
      }
      if !env.provider.encodable {
        return Crashed, payload, scanned, rehydrated;
      }
      r, payload, scanned, rehydrated := Finish(body, env, decisions, sent);
    }

    /** Sanitizes what was analyzed and not blocked, and sends it. */
    method Mediate(body: Body, env: Env, decisions: seq<Decision>, ghost before: seq<Effect>)
      returns (r: Response, ghost run: Run)
      requires Valid() && ValidEnv(mediator.policy, body, env) && Detects(body, env) && !AnyBlocked(mediator.policy, env)
      requires Summarizes(decisions, AllScored(env.analyses), mediator.policy)
      requires tokenContext != null && tokenContext.View() == Fresh(tokenContext.namespace)
      requires IsNamespace(tokenContext.namespace)
      requires !Contains(Join(Texts(RequestOf(body, env))), tokenContext.namespace)
      requires trace == before + Analyses(|body.messages|)
      modifies this`trace, tokenContext, audit.db, audit.store
      ensures Valid()
      ensures Stores(run.committed, env)
      ensures trace == before + TraceOf(run)
      ensures Serves(Setup(), body, env, old(audit.db.rows), audit.db.rows, tokenContext.namespace, run, r)
    {
      hide Summarizes, AllScored, RowsAfter, Commits, Agrees, AnyBlocked, AllComplete, AllAnalyzed, Reaches,
           IsNamespace, Contains, FinalRegistry, SentMessages, AllWellFormed, TraceOf, ValidEnv, Records, TableAfter,
           Serves, IsDelivery, Join, Texts;
      ghost var rows := audit.db.rows;
      ghost var committed := Commits(rows, env.attempts);
      EnvShape(mediator.policy, body, env);
      var sent;
      ghost var sanitized;
      sent, sanitized := Sanitize(body, env);
      if sent == None {
        var failure := Failure(DetectorFailure, env.provider, Some(decisions), [], None, None);
        r := Fail(failure, env);
        run := Run(|body.messages|, sanitized, None, 0, Some(failure), committed, 0);
        TraceUnsent(before, run);
        TellsUnsanitized(Setup(), body, env, decisions);
        EndsUnsent(Setup(), body, env, rows, audit.db.rows, tokenContext.namespace, run, r);
        return;
      }
      ghost var payload, scanned, rehydrated;
      r, payload, scanned, rehydrated := Forward(body, env, decisions, sent.value);
      run := Run(|body.messages|, sanitized, sent, scanned, payload, payload.Some? && committed, rehydrated);
      TraceSent(before, run);
      EndsSent(Setup(), body, env, rows, audit.db.rows, tokenContext.namespace, run, r);
    }

    /** `chat_completions`: detection and the block check come first. */
    method ChatCompletions(body: Body, env: Env) returns (r: Response, ghost run: Run)
      requires Valid() && ValidEnv(mediator.policy, body, env)
      modifies this`trace, this`tokenContext, audit.db, audit.store
      ensures Valid()
      ensures Stores(run.committed, env)
      ensures trace == old(trace) + TraceOf(run)
      ensures tokenContext != null ==> fresh(tokenContext)
      ensures Serves(Setup(), body, env, old(audit.db.rows), audit.db.rows, NameOf(tokenContext), run, r)
    {
      hide Summarizes, AllScored, RowsAfter, Commits, Agrees, IsBlocked, AnyBlocked, AllComplete, AllAnalyzed,
           Reaches, BlockedTypes, IsNamespace, Contains, TraceOf, ValidEnv, Records, Serves, Join, Texts;
      ghost var before, rows := trace, audit.db.rows;
      ghost var committed := Commits(rows, env.attempts);
      EnvShape(mediator.policy, body, env);
      var decisions;
      ghost var analyzed;
      decisions, analyzed := Detect(body, env);
      if decisions == None {
        var failure := Failure(DetectorFailure, env.provider, None, [], None, None);
        r := Fail(failure, env);
        run := Run(analyzed, 0, None, 0, Some(failure), committed, 0);
        TraceUndetected(before, run);
        TellsUndetected(Setup(), body, env);
        EndsUnsent(Setup(), body, env, rows, audit.db.rows, NameOf(tokenContext), run, r);
        return;
      }
      BlockedWhen(mediator.policy, env, decisions.value);
      var blocked := BlockedTypes(decisions.value);
      if blocked != [] {
        var failure := Failure(PolicyBlocked, env.provider, decisions, blocked, None, None);
        r := Fail(failure, env);
        run := Run(analyzed, 0, None, 0, Some(failure), committed, 0);
        TraceUndetected(before, run);
        TellsBlocked(Setup(), body, env, decisions.value);
        EndsUnsent(Setup(), body, env, rows, audit.db.rows, NameOf(tokenContext), run, r);
        return;
      }
      r, run := Mediate(body, env, decisions.value, before);
    }

    /** The middleware around the handler: whatever way the request ended, no token stays
        in its context. */
    method Handle(body: Body, env: Env) returns (r: Response, ghost run: Run)
      requires Valid() && ValidEnv(mediator.policy, body, env)
      modifies this`trace, this`tokenContext, audit.db, audit.store
      ensures Valid()
      ensures Stores(run.committed, env)
      ensures trace == old(trace) + TraceOf(run)
      ensures tokenContext != null ==> fresh(tokenContext)
      ensures tokenContext != null ==> tokenContext.View() == Fresh(tokenContext.namespace)
      ensures Serves(Setup(), body, env, old(audit.db.rows), audit.db.rows, NameOf(tokenContext), run, r)
    {
      hide Serves, TraceOf;
      r, run := ChatCompletions(body, env);
      if tokenContext != null {
        tokenContext.Clear();
      }
    }
  }
}
