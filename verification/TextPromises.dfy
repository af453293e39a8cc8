/**
 Which texts go out, spelled out: the messages sent to the provider, the choices delivered
 to the client and the messages kept for research, over the policy of the gateway and what
 was detected.
 */
module TextPromises {
  import opened Wrappers
  import opened Text
  import opened Tokens
  import opened Tokenization
  import opened Policy
  import opened Mediator
  import opened RequestModel
  import opened AuditModel
  import opened Pipeline
  import opened RoundTrip
  import Promises

  // ---------- What the provider is sent ----------

  lemma TokenText(namespace: string, t: string, n: nat)
    ensures Token(namespace, t, n) == "[[PGW_" + namespace + "_" + t + "_" + Dec(n) + "]]"
  {
    hide Dec;
    assert "[[PGW_" + namespace + "_" + t + "_" + Dec(n) + "]]" == "[[PGW_" + namespace + "_" + (t + "_" + Dec(n)) + "]]";
  }

  /** What stands in for a span: the marker of its type if that is to be redacted, and a token
      of its type that the context knows as the span's text if it is to be tokenized. */
  ghost predicate StandsFor(policy: PolicyMap, namespace: string, tokens: map<string, string>,
                            text: string, d: Detection, piece: string) {
    && d.start <= d.end <= |text| && d.entityType in policy
    && match policy[d.entityType]
       case Redact => piece == "[REDACTED:" + d.entityType + "]"
       case Tokenize =>
         && (exists n :: piece == "[[PGW_" + namespace + "_" + d.entityType + "_" + Dec(n) + "]]")
         && piece in tokens && tokens[piece] == text[d.start..d.end]
       case _ => false
  }

  lemma PieceStandsFor(policy: PolicyMap, namespace: string, keys: seq<Key>, m: Message, k: nat)
    requires WellFormed(policy, m) && k < |m.spans| && IsNamespace(namespace)
    requires forall key :: key in KeysOf(policy, m) ==> key in keys
    ensures var r := MintAll(Fresh(namespace), keys);
            StandsFor(policy, namespace, r.tokenToValue, m.text, m.spans[k], Replacement(policy, r, m.text, m.spans[k]))
  {
    var r, d := MintAll(Fresh(namespace), keys), m.spans[k];
    OnlyMediatedIsReplaced(policy, m, k);
    hide MintAll, Token, Dec, IsToken, IsNamespace;
    if policy[d.entityType] == Tokenize {
      VisitedHas(policy, m.text, m.spans, m.visits, k);
      NamespaceLength(namespace);
      MintingIsBijective(namespace, keys);
      var n := MintedKey(namespace, keys, KeyOf(m.text, d));
      TokenText(namespace, d.entityType, n);
    }
  }

  lemma RequestMessage(policy: PolicyMap, body: Body, env: Env, i: nat)
    requires ValidEnv(policy, body, env) && AllAnalyzed(env) && i < |body.messages|
    ensures |env.analyses| == |body.messages| && env.analyses[i].results.Some?
    ensures RequestOf(body, env)[i] == Message(body.messages[i].role, body.messages[i].content,
                                               env.analyses[i].results.value,
                                               env.analyses[i].pass.spans, env.analyses[i].pass.visits)
    ensures ValidPass(body.messages[i].content, Actionable(policy, env.analyses[i].results.value), env.analyses[i].pass)
  {
    hide ValidPass, ValidRedaction, IsNamespace, ResponsePolicy;
    assert ValidAnalysis(policy, body.messages[i].content, env.analyses[i]);
  }

  /** Every message is sent in its place and in its role, as the text it was with a token or
      marker for each span that the anonymizer replaced. */
  lemma SentAsPromised(s: Service, body: Body, env: Env, before: seq<Row>, after: seq<Row>,
                       namespace: string, run: Run, r: Response, i: nat) returns (pieces: seq<string>)
    requires Serves(s, body, env, before, after, namespace, run, r) && run.sent.Some? && i < |body.messages|
    ensures |run.sent.value| == |body.messages| && run.sent.value[i].role == body.messages[i].role
    ensures AllWellFormed(s.policy, RequestOf(body, env)) && |env.analyses| == |body.messages|
    ensures var text, spans := body.messages[i].content, env.analyses[i].pass.spans;
            && Disjoint(text, spans) && |pieces| == |spans|
            && run.sent.value[i].content == Weave(Gaps(text, spans, 0), pieces)
            && forall k :: 0 <= k < |spans| ==>
                 StandsFor(s.policy, namespace, TokensOf(s.policy, namespace, RequestOf(body, env)), text, spans[k], pieces[k])
  {
    hide Records, TableAfter, Agrees, ValidEnv, Delivers, Contains, Join, Texts, IsNamespace, WellFormed, MintAll,
         RequestKeys, Weave, Gaps, StandsFor, Replacement, AnyBlocked, AllComplete, Disjoint, RequestOf;
    EnvShape(s.policy, body, env);
    RequestMessage(s.policy, body, env, i);
    var messages := RequestOf(body, env);
    var registry := FinalRegistry(namespace, s.policy, messages);
    var m := messages[i];
    SpansAreDisjoint(s.policy, m);
    pieces := Replacements(s.policy, registry, m.text, m.spans);
    forall key | key in KeysOf(s.policy, m) ensures key in RequestKeys(s.policy, messages) {
      RequestHas(s.policy, messages, i, key);
    }
    forall k | 0 <= k < |m.spans|
      ensures StandsFor(s.policy, namespace, TokensOf(s.policy, namespace, messages), m.text, m.spans[k], pieces[k])
    {
      PieceStandsFor(s.policy, namespace, RequestKeys(s.policy, messages), m, k);
    }
  }

  lemma SpansAreDisjoint(policy: PolicyMap, m: Message)
    requires WellFormed(policy, m)
    ensures Disjoint(m.text, m.spans)
  {
  }

  /** No detection that is to be tokenized or redacted is left, not by one character, in the
      stretches of a message that are sent as they stand: of detection `q` and the stretch
      before span `k`, one ends before the other begins, or one is empty. */
  lemma NothingIsSentInClear(s: Service, body: Body, env: Env, before: seq<Row>, after: seq<Row>,
                             namespace: string, run: Run, r: Response, i: nat, q: nat, k: nat)
    returns (lo: nat, hi: nat)
    requires Serves(s, body, env, before, after, namespace, run, r) && run.sent.Some? && i < |body.messages|
    requires |env.analyses| == |body.messages| && Disjoint(body.messages[i].content, env.analyses[i].pass.spans)
    requires env.analyses[i].results.Some? && q < |env.analyses[i].results.value| && k <= |env.analyses[i].pass.spans|
    requires env.analyses[i].results.value[q].entityType in s.policy
    requires s.policy[env.analyses[i].results.value[q].entityType] in {Tokenize, Redact}
    ensures lo <= hi <= |body.messages[i].content|
    ensures Gaps(body.messages[i].content, env.analyses[i].pass.spans, 0)[k] == body.messages[i].content[lo..hi]
    ensures var d := env.analyses[i].results.value[q];
            d.end <= lo || hi <= d.start || lo == hi || d.end <= d.start
  {
    hide Records, TableAfter, Agrees, ValidEnv, Delivers, Contains, Join, Texts, IsNamespace, WellFormed, MintAll,
         RequestKeys, Gaps, AnyBlocked, AllComplete, Disjoint, SentMessages, FinalRegistry, RequestOf, Resume,
         GapEnd;
    EnvShape(s.policy, body, env);
    RequestMessage(s.policy, body, env, i);
    NothingDetectedIsLeft(s.policy, RequestOf(body, env)[i], k, q);
    GapIs(body.messages[i].content, env.analyses[i].pass.spans, k);
    lo := Resume(env.analyses[i].pass.spans, k);
    hi := GapEnd(body.messages[i].content, env.analyses[i].pass.spans, k);
  }

  /** A message in which nothing is to be tokenized or redacted is sent as it is. */
  lemma OtherMessagesAreUnchanged(s: Service, body: Body, env: Env, before: seq<Row>, after: seq<Row>,
                                  namespace: string, run: Run, r: Response, i: nat)
    requires Serves(s, body, env, before, after, namespace, run, r) && run.sent.Some? && i < |body.messages|
    requires |env.analyses| == |body.messages|
    requires forall t :: Promises.Detected(env.analyses[i], t) ==> !IsMediated(s.policy, t)
    ensures |run.sent.value| == |body.messages|
    ensures run.sent.value[i] == ChatMessage(body.messages[i].role, body.messages[i].content)
  {
    var pieces := SentAsPromised(s, body, env, before, after, namespace, run, r, i);
    hide Records, TableAfter, Agrees, ValidEnv, Delivers, IsPrompt, AnyBlocked, AllComplete, Disjoint, Weave, Gaps,
         StandsFor, IsMediated, RequestOf, WellFormed, Actionable;
    EnvShape(s.policy, body, env);
    RequestMessage(s.policy, body, env, i);
    var results := env.analyses[i].results.value;
    forall q | 0 <= q < |results| ensures !IsMediated(s.policy, results[q].entityType) {
      assert Promises.Detected(env.analyses[i], results[q].entityType);
    }
    Promises.ActionableIsEmpty(s.policy, results);
    NothingFromNothing(body.messages[i].content, Actionable(s.policy, results), env.analyses[i].pass.spans);
    WeaveNothing(body.messages[i].content, 0, pieces);
    assert body.messages[i].content[0..] == body.messages[i].content;
  }

  // ---------- What the client is delivered ----------

  function MarkersOf(spans: seq<Detection>): (pieces: seq<string>)
    ensures |pieces| == |spans|
    ensures forall k :: 0 <= k < |spans| ==> pieces[k] == "[REDACTED:" + spans[k].entityType + "]"
  {
    seq(|spans|, k requires 0 <= k < |spans| => "[REDACTED:" + spans[k].entityType + "]")
  }

  lemma MarkersAre(spans: seq<Detection>)
    ensures Markers(spans) == MarkersOf(spans)
  {
  }

  /** The choice with all that the scan replaced in it redacted, under the policy of requests:
      what is replaced is of a type that is detected, listed and not allowed, and no character
      of such a detection is left between the markers. */
  ghost predicate IsRedaction(policy: PolicyMap, choice: string, a: Analysis, scanned: string) {
    && a.results.Some? && Disjoint(choice, a.pass.spans)
    && scanned == Weave(Gaps(choice, a.pass.spans, 0), MarkersOf(a.pass.spans))
    && (forall k :: 0 <= k < |a.pass.spans| ==>
          var t := a.pass.spans[k].entityType;
          t in policy && policy[t] != Allow && HasType(a.results.value, t))
    && (forall q, k :: 0 <= q < |a.results.value| && 0 <= k <= |a.pass.spans|
                       && a.results.value[q].entityType in policy && policy[a.results.value[q].entityType] != Allow ==>
          Misses(choice, a.pass.spans, k, a.results.value[q]))
  }

  lemma ActionableUnderResponse(policy: PolicyMap, results: seq<Detection>, q: nat)
    requires q < |results|
    ensures IsActionable(ResponsePolicy(policy), results[q]) <==>
            results[q].entityType in policy && policy[results[q].entityType] != Allow
  {
  }

  lemma SpanOfResponse(policy: PolicyMap, choice: string, a: Analysis, k: nat)
    requires a.results.Some? && ValidPass(choice, Actionable(ResponsePolicy(policy), a.results.value), a.pass)
    requires k < |a.pass.spans|
    ensures var t := a.pass.spans[k].entityType;
            t in policy && policy[t] != Allow && HasType(a.results.value, t)
  {
    hide ResponsePolicy;
    var actionable, t := Actionable(ResponsePolicy(policy), a.results.value), a.pass.spans[k].entityType;
    assert HasType(actionable, t);
    var i :| 0 <= i < |actionable| && actionable[i].entityType == t;
    ActionableUnderResponse(policy, actionable, i);
    ActionableIsFound(ResponsePolicy(policy), a.results.value, i);
  }

  lemma ScanRedacts(policy: PolicyMap, choice: string, a: Analysis)
    requires a.results.Some? && ValidPass(choice, Actionable(ResponsePolicy(policy), a.results.value), a.pass)
    ensures Disjoint(choice, a.pass.spans) && ScannedChoice(Some(choice), a).Some?
    ensures IsRedaction(policy, choice, a, ScannedChoice(Some(choice), a).value)
  {
    hide ResponsePolicy, Weave, Gaps, Actionable;
    var results, spans := a.results.value, a.pass.spans;
    MarkersAre(spans);
    forall k | 0 <= k < |spans|
      ensures var t := spans[k].entityType; t in policy && policy[t] != Allow && HasType(results, t)
    {
      SpanOfResponse(policy, choice, a, k);
    }
    forall q, k | 0 <= q < |results| && 0 <= k <= |spans|
                  && results[q].entityType in policy && policy[results[q].entityType] != Allow
      ensures Misses(choice, spans, k, results[q])
    {
      ActionableUnderResponse(policy, results, q);
      var j := ActionableHas(ResponsePolicy(policy), results, q);
      forall p | Covers(results[q], p) ensures exists i :: 0 <= i < |spans| && Covers(spans[i], p) {
        assert Covers(Actionable(ResponsePolicy(policy), results)[j], p);
      }
      CoveredIsMissed(choice, spans, k, results[q]);
    }
  }

  /** A choice as it is delivered: redacted if responses are scanned, and then restored if the
      caller asked for that. A choice that is not text is passed on. */
  lemma DeliveredAsPromised(s: Service, body: Body, env: Env, before: seq<Row>, after: seq<Row>,
                            namespace: string, run: Run, r: Response, j: nat) returns (scanned: string)
    requires Serves(s, body, env, before, after, namespace, run, r) && r.Ok?
    requires env.provider.Reply? ==> j < |env.provider.choices|
    ensures env.provider.Reply? && |r.choices| == |env.provider.choices| == |env.scans|
    ensures AllWellFormed(s.policy, RequestOf(body, env))
    ensures env.provider.choices[j] == None ==> r.choices[j] == None
    ensures env.provider.choices[j].Some? ==>
      && (if s.scanning then IsRedaction(s.policy, env.provider.choices[j].value, env.scans[j], scanned)
          else scanned == env.provider.choices[j].value)
      && r.choices[j] == Some(if body.rehydrate
                              then Substitute(TokensOf(s.policy, namespace, RequestOf(body, env)), scanned)
                              else scanned)
  {
    hide TableAfter, ValidRedaction, IsPrompt, AnyBlocked, AllComplete, Detects, Weave, Gaps, IsRedaction,
         Actionable, ResponsePolicy, Disjoint, Substitute, AllWellFormed, TokensOf, RequestOf, Escapes, Commits,
         ValidPass, IsNamespace, Summarizes, IsBlocked, Archived, AllScored, PassCompletes, AllRedacted, Markers,
         ScannedChoice;
    var choice := env.provider.choices[j];
    scanned := if choice.Some? then choice.value else "";
    if s.scanning && choice.Some? {
      assert ScanPasses(s.policy, choice, env.scans[j]);
      assert ValidAnalysis(ResponsePolicy(s.policy), choice.value, env.scans[j]);
      ScanRedacts(s.policy, choice.value, env.scans[j]);
      scanned := ScannedChoice(choice, env.scans[j]).value;
    } else if s.scanning {
      NoTextToScan(env.scans[j]);
    }
  }

  lemma NoTextToScan(a: Analysis)
    ensures ScannedChoice(None, a) == None
  {
  }

  // ---------- What is kept for research ----------

  /** In research mode the record holds every message in its role, with a marker for all that
      was detected in it, whatever the policy says of it. */
  lemma ArchivedAsPromised(s: Service, body: Body, env: Env, before: seq<Row>, after: seq<Row>,
                           namespace: string, run: Run, r: Response, i: nat)
    requires Serves(s, body, env, before, after, namespace, run, r)
    requires run.payload.Some? && run.payload.value.archived.Some? && i < |body.messages|
    ensures |run.payload.value.archived.value| == |body.messages| == |env.redactions| == |env.analyses|
    ensures var kept, text, spans := run.payload.value.archived.value[i], body.messages[i].content, env.redactions[i].spans;
            && kept.role == body.messages[i].role && Disjoint(text, spans)
            && kept.content == Weave(Gaps(text, spans, 0), MarkersOf(spans))
            && env.analyses[i].results.Some?
            && forall q, k :: 0 <= q < |env.analyses[i].results.value| && 0 <= k <= |spans| ==>
                 Misses(text, spans, k, env.analyses[i].results.value[q])
  {
    hide TableAfter, ValidAnalysis, IsPrompt, AnyBlocked, AllComplete, Weave, Gaps, Actionable, ResponsePolicy,
         Disjoint, RequestOf, Escapes, Commits, IsNamespace, Summarizes, IsBlocked, AllScored, Markers, Agrees,
         Delivers, AllScansPass, AllRedacted, Contains, Join, Texts;
    MarkersAre(env.redactions[i].spans);
    assert env.analyses[i].results.Some?;
    assert ValidRedaction(body.messages[i].content, env.analyses[i], env.redactions[i]);
    RedactionMisses(body.messages[i].content, env.analyses[i].results.value, env.redactions[i]);
  }

  lemma RedactionMisses(text: string, results: seq<Detection>, pass: Pass)
    requires ValidPass(text, results, pass)
    ensures Disjoint(text, pass.spans)
    ensures forall q, k :: 0 <= q < |results| && 0 <= k <= |pass.spans| ==> Misses(text, pass.spans, k, results[q])
  {
    hide Misses;
    forall q, k | 0 <= q < |results| && 0 <= k <= |pass.spans| ensures Misses(text, pass.spans, k, results[q]) {
      CoveredIsMissed(text, pass.spans, k, results[q]);
    }
  }
}
