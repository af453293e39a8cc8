/**
 What serving one request comes to, spelled out: in terms of the request, the policy and
 what detector, anonymizer, provider and database did, with every text and number as it
 goes out or is put on record.
 */
module Promises {
  import opened Wrappers
  import opened Text
  import opened Tokens
  import opened Tokenization
  import opened Policy
  import opened Mediator
  import opened RequestModel
  import opened AuditModel
  import opened CheckpointStore
  import opened Pipeline

  // ---------- The environment in plain terms ----------

  predicate Detected(a: Analysis, t: string) {
    a.results.Some? && exists i :: 0 <= i < |a.results.value| && a.results.value[i].entityType == t
  }

  /** Some message holds a detection of the type. */
  predicate IsDetected(analyses: seq<Analysis>, t: string) {
    exists i :: 0 <= i < |analyses| && Detected(analyses[i], t)
  }

  function Contents(body: Body): seq<string> {
    seq(|body.messages|, i requires 0 <= i < |body.messages| => body.messages[i].content)
  }

  /** Some candidate namespace does not occur in the newline-joined messages, and the
      detector returns for each of them. */
  ghost predicate IsAnalyzed(body: Body, env: Env) {
    && (exists k :: 0 <= k < |env.candidates| && !Contains(Join(Contents(body)), env.candidates[k]))
    && (forall i :: 0 <= i < |env.analyses| ==> env.analyses[i].results.Some?)
  }

  /** A type that the policy blocks is detected. */
  ghost predicate HoldsBlocked(policy: PolicyMap, env: Env) {
    exists i, t :: 0 <= i < |env.analyses| && Detected(env.analyses[i], t) && t in policy && policy[t] == Block
  }

  /** The anonymizer fails on a message in which there is something to tokenize or redact. */
  ghost predicate PassFails(policy: PolicyMap, env: Env) {
    exists i, t :: 0 <= i < |env.analyses| && !env.analyses[i].pass.completes
                   && Detected(env.analyses[i], t) && IsMediated(policy, t)
  }

  /** A choice cannot be scanned: the detector fails on it, or the anonymizer does and
      there is a type in it that is listed and not allowed. */
  ghost predicate ScanFails(policy: PolicyMap, choices: seq<Option<string>>, scans: seq<Analysis>)
    requires |scans| == |choices|
  {
    exists j :: 0 <= j < |choices| && CannotScan(policy, choices[j], scans[j])
  }

  ghost predicate CannotScan(policy: PolicyMap, choice: Option<string>, a: Analysis) {
    choice.Some?
    && (a.results == None
        || (!a.pass.completes && exists t :: Detected(a, t) && t in policy && policy[t] != Allow))
  }

  lemma {:induction false} ActionableIsEmpty(policy: PolicyMap, results: seq<Detection>)
    ensures Actionable(policy, results) == [] <==> forall i :: 0 <= i < |results| ==> !IsMediated(policy, results[i].entityType)
  {
    if results != [] {
      var n := |results| - 1;
      ActionableIsEmpty(policy, results[..n]);
      assert forall i :: 0 <= i < n ==> results[..n][i] == results[i];
    }
  }

  lemma CompletesMeans(policy: PolicyMap, a: Analysis)
    ensures PassCompletes(policy, a) <==> a.pass.completes || !exists t :: Detected(a, t) && IsMediated(policy, t)
  {
    var results := ResultsOf(a);
    ActionableIsEmpty(policy, results);
    hide Actionable;
    if i :| 0 <= i < |results| && IsMediated(policy, results[i].entityType) {
      assert Detected(a, results[i].entityType);
    }
    if t :| Detected(a, t) && IsMediated(policy, t) {
      var i :| 0 <= i < |results| && results[i].entityType == t;
      assert IsMediated(policy, results[i].entityType);
    }
  }

  lemma BlockMeans(policy: PolicyMap, a: Analysis)
    ensures HasBlock(policy, ResultsOf(a)) <==> exists t :: Detected(a, t) && t in policy && policy[t] == Block
  {
    var results := ResultsOf(a);
    if i :| 0 <= i < |results| && ActionOf(policy, results[i].entityType) == Some(Block) {
      assert Detected(a, results[i].entityType);
    }
    if t :| Detected(a, t) && t in policy && policy[t] == Block {
      var i :| 0 <= i < |results| && results[i].entityType == t;
      assert ActionOf(policy, results[i].entityType) == Some(Block);
    }
  }

  /** Which requests reach the provider. */
  lemma ReachesMeans(policy: PolicyMap, body: Body, env: Env)
    requires |env.analyses| == |body.messages|
    ensures Detects(body, env) <==> IsAnalyzed(body, env)
    ensures AnyBlocked(policy, env) <==> HoldsBlocked(policy, env)
    ensures Reaches(policy, body, env) <==> IsAnalyzed(body, env) && !HoldsBlocked(policy, env) && !PassFails(policy, env)
  {
    hide PassCompletes, HasBlock, Contains, Join, IsMediated, Detected;
    assert Texts(RequestOf(body, env)) == Contents(body);
    forall i | 0 <= i < |env.analyses|
      ensures PassCompletes(policy, env.analyses[i]) <==>
                env.analyses[i].pass.completes || !exists t :: Detected(env.analyses[i], t) && IsMediated(policy, t)
      ensures HasBlock(policy, ResultsOf(env.analyses[i])) <==>
                exists t :: Detected(env.analyses[i], t) && t in policy && policy[t] == Block
    {
      CompletesMeans(policy, env.analyses[i]);
      BlockMeans(policy, env.analyses[i]);
    }
  }

  lemma ResponseMediated(policy: PolicyMap, t: string)
    ensures IsMediated(ResponsePolicy(policy), t) <==> t in policy && policy[t] != Allow
  {
  }

  lemma ScanMeans(policy: PolicyMap, choice: Option<string>, a: Analysis)
    ensures ScanPasses(policy, choice, a) <==> !CannotScan(policy, choice, a)
  {
    hide PassCompletes, IsMediated, ResponsePolicy, Detected;
    CompletesMeans(ResponsePolicy(policy), a);
    forall t ensures IsMediated(ResponsePolicy(policy), t) <==> t in policy && policy[t] != Allow {
      ResponseMediated(policy, t);
    }
  }

  lemma AllScansMean(policy: PolicyMap, choices: seq<Option<string>>, scans: seq<Analysis>)
    requires |scans| == |choices|
    ensures AllScansPass(policy, choices, scans) <==> !ScanFails(policy, choices, scans)
  {
    hide ScanPasses, CannotScan;
    forall j | 0 <= j < |choices| ensures ScanPasses(policy, choices[j], scans[j]) <==> !CannotScan(policy, choices[j], scans[j]) {
      ScanMeans(policy, choices[j], scans[j]);
    }
  }

  // ---------- What is reported and recorded ----------

  /** The failure is put on record with this status and code, and told the client. */
  predicate Reports(run: Run, r: Response, event: AuditEvent, status: nat, code: string) {
    && run.payload.Some? && run.payload.value.event == event
    && run.payload.value.responseStatus == status && run.payload.value.errorCode == code
    && r == Failed(status, code)
  }

  /** Before the provider is called: a blocked type is a 400, anything else that goes wrong
      a 500, and the provider is called if and only if nothing does. */
  lemma RefusalIsReported(s: Service, body: Body, env: Env, before: seq<Row>, after: seq<Row>,
                          namespace: string, run: Run, r: Response)
    requires Serves(s, body, env, before, after, namespace, run, r) && !Escapes(before, env.attempts)
    ensures IsAnalyzed(body, env) && HoldsBlocked(s.policy, env) ==>
      Reports(run, r, PolicyBlocked, 400, "PGW-POLICY-BLOCKED")
    ensures !IsAnalyzed(body, env) || (!HoldsBlocked(s.policy, env) && PassFails(s.policy, env)) ==>
      Reports(run, r, DetectorFailure, 500, "PGW-DETECTOR-FAILURE")
    ensures run.sent.Some? <==> IsAnalyzed(body, env) && !HoldsBlocked(s.policy, env) && !PassFails(s.policy, env)
  {
    hide ValidEnv, IsAnalyzed, HoldsBlocked, PassFails, Detects, AnyBlocked, AllComplete, Delivers, IsPrompt,
         Summarizes, IsBlocked, Archived, AllScored, TableAfter, Commits, Escapes, AllScansPass, AllRedacted,
         Reaches;
    AnalysesMatch(s.policy, body, env);
    ReachesMeans(s.policy, body, env);
    ReachesIs(s.policy, body, env);
  }

  lemma ReachesIs(policy: PolicyMap, body: Body, env: Env)
    requires |env.analyses| == |body.messages|
    ensures Reaches(policy, body, env) ==> Detects(body, env) && !AnyBlocked(policy, env)
  {
  }

  /** Once the provider is called: its own failure is passed on, a failing scan is a 500,
      and so is a record that cannot be written. */
  lemma FailureIsReported(s: Service, body: Body, env: Env, before: seq<Row>, after: seq<Row>,
                          namespace: string, run: Run, r: Response)
    requires Serves(s, body, env, before, after, namespace, run, r) && !Escapes(before, env.attempts)
    requires run.sent.Some?
    ensures env.provider.TypedFailure? ==> Reports(run, r, ProviderError, env.provider.status, env.provider.code)
    ensures env.provider.OtherFailure? ==> Reports(run, r, ProviderError, 502, "PGW-PROVIDER-RESPONSE")
    ensures env.provider.Cancelled? || (env.provider.Reply? && !env.provider.encodable) ==> run.payload == None && r == Crashed
    ensures env.provider.Reply? && env.provider.encodable && s.scanning
            && ScanFails(s.policy, env.provider.choices, env.scans) ==>
      Reports(run, r, ResponseScanFailure, 500, "PGW-RESPONSE-SCAN-FAILURE")
  {
    hide ValidAnalysis, ValidRedaction, Detects, AnyBlocked, AllComplete, Delivers, IsPrompt, Summarizes, ScanFails,
         IsBlocked, Archived, AllScored, TableAfter, Commits, Escapes, AllScansPass, AllRedacted, IsNamespace,
         ResponsePolicy;
    if env.provider.Reply? {
      AllScansMean(s.policy, env.provider.choices, env.scans);
    }
  }

  /** The research mode fails on a message in which something was detected. */
  ghost predicate RedactionFails(env: Env)
    requires |env.redactions| == |env.analyses|
  {
    exists i, t :: 0 <= i < |env.analyses| && !env.redactions[i].completes && Detected(env.analyses[i], t)
  }

  lemma AllRedactedMeans(env: Env)
    requires |env.redactions| == |env.analyses|
    ensures AllRedacted(env) <==> !RedactionFails(env)
  {
    forall i | 0 <= i < |env.analyses|
      ensures ResultsOf(env.analyses[i]) == [] <==> !exists t :: Detected(env.analyses[i], t)
    {
      DetectedMeans(env.analyses[i]);
    }
    hide Detected;
  }

  lemma DetectedMeans(a: Analysis)
    ensures ResultsOf(a) == [] <==> !exists t :: Detected(a, t)
  {
    if ResultsOf(a) != [] {
      assert Detected(a, ResultsOf(a)[0].entityType);
    }
  }

  /** Nothing is recorded of a request exactly if it is sent and then cancelled, or its reply
      cannot be hashed, or the research mode fails on it. */
  lemma UnrecordedMeans(s: Service, body: Body, env: Env, before: seq<Row>, after: seq<Row>,
                        namespace: string, run: Run, r: Response)
    requires Serves(s, body, env, before, after, namespace, run, r)
    ensures |env.redactions| == |env.analyses| && (env.provider.Reply? ==> |env.scans| == |env.provider.choices|)
    ensures run.payload == None <==>
      && IsAnalyzed(body, env) && !HoldsBlocked(s.policy, env) && !PassFails(s.policy, env)
      && (env.provider.Cancelled?
          || (env.provider.Reply? && !env.provider.encodable)
          || (env.provider.Reply? && s.archiving && RedactionFails(env)
              && !(s.scanning && ScanFails(s.policy, env.provider.choices, env.scans))))
    ensures run.payload == None ==> r == Crashed && after == before
  {
    hide ValidAnalysis, ValidRedaction, Detects, AnyBlocked, AllComplete, Delivers, IsPrompt, Summarizes, ScanFails,
         Reaches, IsBlocked, Archived, AllScored, Commits, Escapes, AllScansPass, AllRedacted, IsNamespace,
         ResponsePolicy, IsAnalyzed, HoldsBlocked, PassFails, RedactionFails, FailsClosed, Effects;
    ReachesMeans(s.policy, body, env);
    ReachesIs(s.policy, body, env);
    AllRedactedMeans(env);
    if env.provider.Reply? {
      AllScansMean(s.policy, env.provider.choices, env.scans);
    }
  }

  /** The limits on tries: thirty-two namespaces, five appends. */
  lemma LimitsAre(s: Service, body: Body, env: Env, before: seq<Row>, after: seq<Row>,
                  namespace: string, run: Run, r: Response)
    requires Serves(s, body, env, before, after, namespace, run, r)
    ensures |env.candidates| == 32 && |env.attempts| == 5
  {
    hide Records, TableAfter, Agrees, FailsClosed, IsPrompt, Delivers;
  }

  /** A reply that can be scanned, if it is to be: the success is on record as such, and the
      client gets it once the record and its checkpoint are written. */
  lemma SuccessIsReported(s: Service, body: Body, env: Env, before: seq<Row>, after: seq<Row>,
                          namespace: string, run: Run, r: Response)
    requires Serves(s, body, env, before, after, namespace, run, r) && !Escapes(before, env.attempts)
    requires run.sent.Some? && env.provider.Reply? && env.provider.encodable && !s.archiving
    requires s.scanning ==> !ScanFails(s.policy, env.provider.choices, env.scans)
    ensures run.payload.Some? && run.payload.value.event == ChatCompletion
    ensures run.payload.value.responseStatus == 200 && run.payload.value.errorCode == ""
    ensures !run.committed || (s.storing && env.saving != NoFault) ==> r == Failed(500, "PGW-AUDIT-WRITE")
    ensures run.committed && !(s.storing && env.saving != NoFault) ==>
      if env.provider.renderable then r.Ok? && r.auditId == NextId(before) else r == Crashed
  {
    hide ValidAnalysis, ValidRedaction, Detects, AnyBlocked, AllComplete, Delivers, IsPrompt, Summarizes, ScanFails,
         IsBlocked, Archived, AllScored, TableAfter, Commits, Escapes, AllScansPass, AllRedacted, IsNamespace,
         ResponsePolicy;
    AllScansMean(s.policy, env.provider.choices, env.scans);
  }

  /** What else the record says: a hash of the very messages sent, of the reply as it came,
      and whether the reply was scanned and restored. */
  lemma RecordIsFaithful(s: Service, body: Body, env: Env, before: seq<Row>, after: seq<Row>,
                         namespace: string, run: Run, r: Response)
    requires Serves(s, body, env, before, after, namespace, run, r) && run.payload.Some?
    ensures var p := run.payload.value;
            && (run.sent.Some? ==> p.promptHash == Some(s.crypto.sha256(s.codec.prompt(run.sent.value))))
            && (run.sent == None ==> p.promptHash == None && p.responseHash == None)
            && (p.responseHash.Some? <==> run.sent.Some? && env.provider.Reply?)
            && (p.responseHash.Some? ==> p.responseHash == Some(s.crypto.sha256(s.codec.response(env.provider.choices))))
            && (p.responseScanned <==> p.event == ChatCompletion && s.scanning)
            && (p.rehydratedForClient <==> p.event == ChatCompletion && body.rehydrate)
            && (p.archived.Some? <==> p.event == ChatCompletion && s.archiving)
            && (forall t :: t in p.blockedTypes <==>
                  p.event == PolicyBlocked && t in s.policy && s.policy[t] == Block && IsDetected(env.analyses, t))
  {
    hide ValidEnv, EventOf, StatusOf, Detects, Summarizes, Archived, AllScored, Detected, FailsClosed, Agrees,
         Delivers, IsPrompt, TableAfter, IsDetected, IsBlocked;
    forall t ensures IsBlocked(s.policy, env, t) <==> t in s.policy && s.policy[t] == Block && IsDetected(env.analyses, t) {
      BlockedMeans(s.policy, env, t);
    }
  }

  lemma BlockedMeans(policy: PolicyMap, env: Env, t: string)
    ensures IsBlocked(policy, env, t) <==> t in policy && policy[t] == Block && IsDetected(env.analyses, t)
  {
    hide AllScored, IsDetected;
    TypeIsScored(env.analyses, t);
    var all := AllScored(env.analyses);
    if IsBlocked(policy, env, t) {
      var p :| 0 <= p < |all| && all[p].entityType == t;
    }
    if IsDetected(env.analyses, t) {
      var p :| 0 <= p < |all| && all[p].entityType == t;
    }
  }

  // ---------- The decisions on record ----------

  /** The messages' detections of a type, counted. */
  function CountOf(analyses: seq<Analysis>, t: string): nat {
    if analyses == [] then 0
    else
      var results := ResultsOf(analyses[|analyses| - 1]);
      CountOf(analyses[..|analyses| - 1], t) + |Numbers(results, |results|, t)|
  }

  /** Detection `k` of message `i`. */
  predicate IsAt(analyses: seq<Analysis>, i: int, k: int, t: string, score: real) {
    0 <= i < |analyses| && analyses[i].results.Some? && 0 <= k < |analyses[i].results.value|
    && analyses[i].results.value[k].entityType == t && analyses[i].results.value[k].score == score
  }

  lemma {:induction false} ScoredIs(analyses: seq<Analysis>, t: string, score: real)
    ensures Scored(t, score) in AllScored(analyses) <==> exists i, k :: IsAt(analyses, i, k, t, score)
  {
    if analyses != [] {
      var n := |analyses| - 1;
      var before, last := AllScored(analyses[..n]), ScoredOf(ResultsOf(analyses[n]));
      ScoredIs(analyses[..n], t, score);
      assert AllScored(analyses) == before + last;
      if i, k :| IsAt(analyses, i, k, t, score) {
        if i < n {
          assert IsAt(analyses[..n], i, k, t, score);
        } else {
          assert last[k] == Scored(t, score);
        }
      }
      if Scored(t, score) in before {
        var i, k :| IsAt(analyses[..n], i, k, t, score);
        assert IsAt(analyses, i, k, t, score);
      } else if Scored(t, score) in last {
        var k :| 0 <= k < |last| && last[k] == Scored(t, score);
        assert IsAt(analyses, n, k, t, score);
      }
    }
  }

  lemma TypeIsScored(analyses: seq<Analysis>, t: string)
    ensures IsDetected(analyses, t) <==> exists p :: 0 <= p < |AllScored(analyses)| && AllScored(analyses)[p].entityType == t
  {
    var all := AllScored(analyses);
    hide AllScored;
    if i :| 0 <= i < |analyses| && Detected(analyses[i], t) {
      var k :| 0 <= k < |analyses[i].results.value| && analyses[i].results.value[k].entityType == t;
      assert IsAt(analyses, i, k, t, analyses[i].results.value[k].score);
      ScoredIs(analyses, t, analyses[i].results.value[k].score);
    }
    if p :| 0 <= p < |all| && all[p].entityType == t {
      assert all[p] == Scored(t, all[p].score);
      ScoredIs(analyses, t, all[p].score);
      var i, k :| IsAt(analyses, i, k, t, all[p].score);
      assert Detected(analyses[i], t);
    }
  }

  /** The first `n` detections of the type, by number. */
  function Numbers(results: seq<Detection>, n: nat, t: string): set<nat>
    requires n <= |results|
  {
    set k: nat | k < n && results[k].entityType == t
  }

  lemma NumbersGrow(results: seq<Detection>, n: nat, t: string)
    requires n < |results|
    ensures n !in Numbers(results, n, t)
    ensures Numbers(results, n + 1, t) == Numbers(results, n, t) + if results[n].entityType == t then {n} else {}
  {
    var here, all := Numbers(results, n, t), Numbers(results, n + 1, t);
    forall k: nat ensures k in all <==> k in here || (k == n && results[n].entityType == t) {
    }
  }

  lemma NumbersStep(results: seq<Detection>, n: nat, t: string)
    requires n < |results|
    ensures |Numbers(results, n + 1, t)| == |Numbers(results, n, t)| + if results[n].entityType == t then 1 else 0
  {
    hide Numbers;
    NumbersGrow(results, n, t);
    var here := Numbers(results, n, t);
    assert here + {} == here;
    assert |here + {n}| == |here| + 1;
  }

  lemma {:induction false} ScoresCount(results: seq<Detection>, n: nat, t: string)
    requires n <= |results|
    ensures |Scores(ScoredOf(results)[..n], t)| == |Numbers(results, n, t)|
  {
    hide Numbers;
    if n == 0 {
      assert Numbers(results, 0, t) == {} by { NoNumbers(results, t); }
    } else {
      var scored := ScoredOf(results)[..n];
      ScoresCount(results, n - 1, t);
      NumbersStep(results, n - 1, t);
      assert scored[..n - 1] == ScoredOf(results)[..n - 1];
      assert scored[n - 1].entityType == results[n - 1].entityType;
    }
  }

  lemma NoNumbers(results: seq<Detection>, t: string)
    ensures Numbers(results, 0, t) == {}
  {
  }

  lemma {:induction false} ScoresConcat(a: seq<Scored>, b: seq<Scored>, t: string)
    ensures Scores(a + b, t) == Scores(a, t) + Scores(b, t)
  {
    if b == [] {
      assert a + b == a;
    } else {
      var n := |b| - 1;
      assert (a + b)[..|a| + n] == a + b[..n];
      ScoresConcat(a, b[..n], t);
    }
  }

  lemma {:induction false} CountIsScores(analyses: seq<Analysis>, t: string)
    ensures |Scores(AllScored(analyses), t)| == CountOf(analyses, t)
  {
    if analyses != [] {
      var n := |analyses| - 1;
      var results := ResultsOf(analyses[n]);
      CountIsScores(analyses[..n], t);
      ScoresConcat(AllScored(analyses[..n]), ScoredOf(results), t);
      ScoresCount(results, |results|, t);
      assert ScoredOf(results)[..|results|] == ScoredOf(results);
    }
  }

  /** The decision sums up all detections of its type in the request. */
  ghost predicate SumsUp(d: Decision, policy: PolicyMap, analyses: seq<Analysis>) {
    && d.entityType in policy && d.action == policy[d.entityType] && (d.requestBlocked <==> policy[d.entityType] == Block)
    && d.count == CountOf(analyses, d.entityType)
    && (exists i, k :: IsAt(analyses, i, k, d.entityType, d.scoreMin))
    && (exists i, k :: IsAt(analyses, i, k, d.entityType, d.scoreMax))
    && (forall i, k, score :: IsAt(analyses, i, k, d.entityType, score) ==> d.scoreMin <= score <= d.scoreMax)
  }

  lemma DecisionSumsUp(d: Decision, policy: PolicyMap, analyses: seq<Analysis>)
    requires Describes(d, AllScored(analyses), policy)
    ensures SumsUp(d, policy, analyses)
  {
    var all := AllScored(analyses);
    CountIsScores(analyses, d.entityType);
    hide AllScored, Scores, IsAt, CountOf;
    ScoredIs(analyses, d.entityType, d.scoreMin);
    ScoredIs(analyses, d.entityType, d.scoreMax);
    forall i, k, score | IsAt(analyses, i, k, d.entityType, score) ensures d.scoreMin <= score <= d.scoreMax {
      ScoredIs(analyses, d.entityType, score);
      var p :| 0 <= p < |all| && all[p] == Scored(d.entityType, score);
      assert all[p].entityType == d.entityType;
    }
  }

  /** One decision for each detected type that the policy lists, in strictly ascending order,
      each summing up its detections over all messages. */
  ghost predicate SumUp(ds: seq<Decision>, policy: PolicyMap, analyses: seq<Analysis>) {
    && (forall i, j :: 0 <= i < j < |ds| ==> Less(ds[i].entityType, ds[j].entityType))
    && (forall i :: 0 <= i < |ds| ==> SumsUp(ds[i], policy, analyses))
    && (forall t :: (exists i :: 0 <= i < |ds| && ds[i].entityType == t) <==> t in policy && IsDetected(analyses, t))
  }

  lemma SummarySumsUp(ds: seq<Decision>, policy: PolicyMap, analyses: seq<Analysis>)
    requires Summarizes(ds, AllScored(analyses), policy)
    ensures SumUp(ds, policy, analyses)
  {
    hide AllScored, IsDetected, Describes, SumsUp, Less;
    var all, types := AllScored(analyses), TypesOf(ds);
    forall i | 0 <= i < |ds| ensures SumsUp(ds[i], policy, analyses) {
      DecisionSumsUp(ds[i], policy, analyses);
    }
    forall i, j | 0 <= i < j < |ds| ensures Less(ds[i].entityType, ds[j].entityType) {
      assert Less(types[i], types[j]);
    }
    forall t ensures (exists i :: 0 <= i < |ds| && ds[i].entityType == t) <==> t in policy && IsDetected(analyses, t) {
      TypeIsScored(analyses, t);
      assert t in types <==> IsListed(all, policy, t);
      assert t in types <==> exists i :: 0 <= i < |types| && types[i] == t;
    }
  }

  /** The decisions are on record as soon as everything was analyzed. */
  lemma DecisionsAreFaithful(s: Service, body: Body, env: Env, before: seq<Row>, after: seq<Row>,
                             namespace: string, run: Run, r: Response)
    requires Serves(s, body, env, before, after, namespace, run, r) && run.payload.Some?
    ensures run.payload.value.decisions.Some? <==> IsAnalyzed(body, env)
    ensures run.payload.value.decisions.Some? ==> SumUp(run.payload.value.decisions.value, s.policy, env.analyses)
  {
    hide ValidEnv, EventOf, StatusOf, Archived, FailsClosed, Agrees, Delivers, IsPrompt, TableAfter, AllScored,
         SumUp, IsBlocked, Summarizes, Detects, IsAnalyzed, HoldsBlocked, PassFails, Reaches, AnyBlocked;
    AnalysesMatch(s.policy, body, env);
    ReachesMeans(s.policy, body, env);
    if run.payload.value.decisions.Some? {
      SummarySumsUp(run.payload.value.decisions.value, s.policy, env.analyses);
    }
  }

  lemma AnalysesMatch(policy: PolicyMap, body: Body, env: Env)
    requires ValidEnv(policy, body, env)
    ensures |env.analyses| == |body.messages|
  {
  }
}
