/**
 The privacy policy: four actions for entity types, and the decision summary of the
 detections of a request.
 */
module Policy {
  import opened Wrappers

  datatype Action = Allow | Tokenize | Redact | Block

  type PolicyMap = map<string, Action>

  function ActionOf(policy: PolicyMap, entityType: string): Option<Action> {
    if entityType in policy then Some(policy[entityType]) else None
  }

  /** An entity type and a confidence score. */
  datatype Scored = Scored(entityType: string, score: real)

  datatype Decision = Decision(entityType: string, action: Action, count: nat,
                               scoreMin: real, scoreMax: real, requestBlocked: bool)

  // ---------- The order of strings ----------

  /** Python's `<` on strings, by code points. */
  predicate Less(a: string, b: string) {
    b != [] && (a == [] || a[0] < b[0] || (a[0] == b[0] && Less(a[1..], b[1..])))
  }

  lemma {:induction false} LessTotal(a: string, b: string)
    ensures a == b || Less(a, b) || Less(b, a)
  {
    if a != [] && b != [] && a[0] == b[0] {
      LessTotal(a[1..], b[1..]);
      assert a == [a[0]] + a[1..] && b == [b[0]] + b[1..];
    }
  }

  lemma {:induction false} LessIrreflexive(a: string)
    ensures !Less(a, a)
  {
    if a != [] {
      LessIrreflexive(a[1..]);
    }
  }

  lemma {:induction false} LessTransitive(a: string, b: string, c: string)
    requires Less(a, b) && Less(b, c)
    ensures Less(a, c)
  {
    if a != [] && a[0] == b[0] == c[0] {
      LessTransitive(a[1..], b[1..], c[1..]);
    }
  }

  /** The strings agree up to position `k`, where the first ends or has the smaller code point. */
  predicate LessAt(a: string, b: string, k: nat) {
    k <= |a| && k < |b| && a[..k] == b[..k] && (k == |a| || a[k] < b[k])
  }

  /** The first position at which two strings differ decides. */
  lemma {:induction false} LessMeans(a: string, b: string)
    ensures Less(a, b) <==> exists k :: 0 <= k < |b| && LessAt(a, b, k)
  {
    if b != [] {
      if a == [] || a[0] != b[0] {
        assert LessAt(a, b, 0) <==> a == [] || a[0] < b[0];
        forall k | 0 < k < |b| ensures !LessAt(a, b, k) {
          if LessAt(a, b, k) {
            LessAtLater(a, b, k);
            assert false;
          }
        }
      } else {
        LessMeans(a[1..], b[1..]);
        forall k | 0 <= k < |b| - 1 ensures LessAt(a[1..], b[1..], k) <==> LessAt(a, b, k + 1) {
          LessAtTail(a, b, k);
        }
        if k :| 0 <= k < |b| && LessAt(a, b, k) {
          assert LessAt(a[1..], b[1..], k - 1);
        }
      }
    }
  }

  lemma LessAtLater(a: string, b: string, k: nat)
    requires LessAt(a, b, k) && k > 0
    ensures a != [] && a[0] == b[0]
  {
    assert a[..k][0] == a[0] && b[..k][0] == b[0];
  }

  lemma LessAtTail(a: string, b: string, k: nat)
    requires a != [] && b != [] && a[0] == b[0] && k < |b| - 1
    ensures LessAt(a[1..], b[1..], k) <==> LessAt(a, b, k + 1)
  {
    if k + 1 <= |a| {
      assert a[..k + 1] == [a[0]] + a[1..][..k];
      assert b[..k + 1] == [b[0]] + b[1..][..k];
      if a[..k + 1] == b[..k + 1] {
        assert a[1..][..k] == a[..k + 1][1..] == b[..k + 1][1..] == b[1..][..k];
      }
    }
  }

  predicate Sorted(s: seq<string>) {
    forall i, j :: 0 <= i < j < |s| ==> Less(s[i], s[j])
  }

  /** A strictly sorted list is determined by its elements. */
  lemma {:induction false} SortedUnique(s: seq<string>, t: seq<string>)
    requires Sorted(s) && Sorted(t)
    requires forall x :: x in s <==> x in t
    ensures s == t
  {
    if s == [] {
      if t != [] {
        FirstIsIn(t);
      }
    } else {
      FirstIsIn(s);
      FirstIsIn(t);
      SortedHead(s, t);
      forall x ensures x in s[1..] <==> x in t[1..] {
        SortedTail(s, x);
        SortedTail(t, x);
      }
      SortedUnique(s[1..], t[1..]);
      assert s == [s[0]] + s[1..] && t == [t[0]] + t[1..];
    }
  }

  lemma FirstIsIn(s: seq<string>)
    requires s != []
    ensures s[0] in s
  {
  }

  lemma SortedHead(s: seq<string>, t: seq<string>)
    requires Sorted(s) && Sorted(t) && s != [] && t != []
    requires s[0] in t && t[0] in s
    ensures s[0] == t[0]
  {
    var i :| 0 <= i < |t| && t[i] == s[0];
    var j :| 0 <= j < |s| && s[j] == t[0];
    if i > 0 && j > 0 {
      assert Less(t[0], t[i]) && Less(s[0], s[j]);
      LessTransitive(s[0], t[0], s[0]);
      LessIrreflexive(s[0]);
      assert false;
    }
  }

  lemma SortedTail(s: seq<string>, x: string)
    requires Sorted(s) && s != []
    ensures x in s[1..] <==> x in s && x != s[0]
  {
    LessIrreflexive(x);
    if x in s && x != s[0] {
      var i :| 0 <= i < |s| && s[i] == x;
      assert s[1..][i - 1] == x;
    }
  }

  /** Inserts a string into a strictly sorted list that lacks it. */
  method Insert(s: seq<string>, x: string) returns (t: seq<string>)
    requires Sorted(s) && x !in s
    ensures Sorted(t)
    ensures forall y :: y in t <==> y in s || y == x
  {
    var i := 0;
    while i < |s| && Less(s[i], x)
      invariant 0 <= i <= |s|
      invariant forall j :: 0 <= j < i ==> Less(s[j], x)
    {
      i := i + 1;
    }
    t := s[..i] + [x] + s[i..];
    forall j | i <= j < |s| ensures Less(x, s[j]) {
      LessTotal(s[i], x);
      assert s[i] in s;
      if j > i {
        LessTransitive(x, s[i], s[j]);
      }
    }
  }

  // ---------- The decision summary ----------

  /** The scores of the detections of a type, in order. */
  function Scores(detections: seq<Scored>, entityType: string): seq<real> {
    if detections == [] then []
    else
      var n := |detections| - 1;
      Scores(detections[..n], entityType)
        + if detections[n].entityType == entityType then [detections[n].score] else []
  }

  function MinOf(scores: seq<real>): (m: real)
    requires scores != []
    ensures m in scores && forall x :: x in scores ==> m <= x
  {
    var n := |scores| - 1;
    assert scores == scores[..n] + [scores[n]];
    if n == 0 then scores[0]
    else
      var m := MinOf(scores[..n]);
      if scores[n] < m then scores[n] else m
  }

  function MaxOf(scores: seq<real>): (m: real)
    requires scores != []
    ensures m in scores && forall x :: x in scores ==> x <= m
  {
    var n := |scores| - 1;
    assert scores == scores[..n] + [scores[n]];
    if n == 0 then scores[0]
    else
      var m := MaxOf(scores[..n]);
      if scores[n] > m then scores[n] else m
  }

  predicate IsListed(detections: seq<Scored>, policy: PolicyMap, entityType: string) {
    entityType in policy && exists i :: 0 <= i < |detections| && detections[i].entityType == entityType
  }

  function TypesOf(decisions: seq<Decision>): (types: seq<string>)
    ensures |types| == |decisions| && forall i :: 0 <= i < |types| ==> types[i] == decisions[i].entityType
  {
    seq(|decisions|, i requires 0 <= i < |decisions| => decisions[i].entityType)
  }

  /** The decision describes the detections of its type. */
  predicate Describes(d: Decision, detections: seq<Scored>, policy: PolicyMap) {
    && d.entityType in policy && d.action == policy[d.entityType]
    && (d.requestBlocked <==> d.action == Block)
    && d.count == |Scores(detections, d.entityType)|
    && (exists i :: 0 <= i < |detections| && detections[i] == Scored(d.entityType, d.scoreMin))
    && (exists i :: 0 <= i < |detections| && detections[i] == Scored(d.entityType, d.scoreMax))
    && (forall i :: 0 <= i < |detections| && detections[i].entityType == d.entityType ==>
          d.scoreMin <= detections[i].score <= d.scoreMax)
  }

  /** One decision for each policy-listed type detected, strictly sorted by type. */
  ghost predicate Summarizes(decisions: seq<Decision>, detections: seq<Scored>, policy: PolicyMap) {
    && Sorted(TypesOf(decisions))
    && (forall t :: t in TypesOf(decisions) <==> IsListed(detections, policy, t))
    && (forall i :: 0 <= i < |decisions| ==> Describes(decisions[i], detections, policy))
  }

  lemma {:induction false} ScoresAre(detections: seq<Scored>, t: string, x: real)
    ensures x in Scores(detections, t) <==> Scored(t, x) in detections
    ensures Scores(detections, t) != [] <==> exists i :: 0 <= i < |detections| && detections[i].entityType == t
  {
    if detections != [] {
      var n := |detections| - 1;
      ScoresAre(detections[..n], t, x);
      assert detections == detections[..n] + [detections[n]];
      assert detections[n].entityType == t ==> detections[n] == Scored(t, detections[n].score);
    }
  }

  /** The dictionary holds the scores of the policy-listed detections, by type. */
  ghost predicate Groups(grouped: map<string, seq<real>>, detections: seq<Scored>, policy: PolicyMap) {
    && (forall t :: t in grouped <==> IsListed(detections, policy, t))
    && (forall t :: t in grouped ==> grouped[t] == Scores(detections, t))
  }

  /** `grouped.setdefault(entity_type, []).append(score)` for listed types */
  function AddScore(grouped: map<string, seq<real>>, d: Scored, policy: PolicyMap): map<string, seq<real>> {
    if d.entityType !in policy then grouped
    else grouped[d.entityType := (if d.entityType in grouped then grouped[d.entityType] else []) + [d.score]]
  }

  lemma GroupStep(grouped: map<string, seq<real>>, detections: seq<Scored>, d: Scored, policy: PolicyMap)
    requires Groups(grouped, detections, policy)
    ensures Groups(AddScore(grouped, d, policy), detections + [d], policy)
  {
    hide IsListed, Scores;
    var next := AddScore(grouped, d, policy);
    forall t
      ensures t in next <==> IsListed(detections + [d], policy, t)
      ensures t in next ==> next[t] == Scores(detections + [d], t)
    {
      ListedSnoc(detections, d, policy, t);
      ScoresSnoc(detections, d, t);
    }
  }

  /** The decision built from the scores of a type. */
  function DecisionFor(t: string, scores: seq<real>, policy: PolicyMap): Decision
    requires scores != [] && t in policy
  {
    Decision(t, policy[t], |scores|, MinOf(scores), MaxOf(scores), policy[t] == Block)
  }

  lemma GroupDescribes(grouped: map<string, seq<real>>, detections: seq<Scored>, policy: PolicyMap, t: string)
    requires Groups(grouped, detections, policy) && t in grouped
    ensures t in policy && grouped[t] != [] && Describes(DecisionFor(t, grouped[t], policy), detections, policy)
  {
    ScoresAre(detections, t, 0.0);
    assert IsListed(detections, policy, t);
    DescribesFromScores(DecisionFor(t, grouped[t], policy), detections, policy);
  }

  lemma NoGroups(policy: PolicyMap)
    ensures Groups(map[], [], policy)
  {
  }

  lemma SummaryDone(decisions: seq<Decision>, types: seq<string>, grouped: map<string, seq<real>>,
                    detections: seq<Scored>, policy: PolicyMap)
    requires Groups(grouped, detections, policy) && Sorted(types) && TypesOf(decisions) == types
    requires forall t :: t in types <==> t in grouped
    requires forall i :: 0 <= i < |decisions| ==> Describes(decisions[i], detections, policy)
    ensures Summarizes(decisions, detections, policy)
  {
    hide Describes, IsListed, Scores, Sorted;
  }

  method BuildDecisions(detections: seq<Scored>, policy: PolicyMap) returns (decisions: seq<Decision>)
    ensures Summarizes(decisions, detections, policy)
  {
    hide Groups, Describes, Sorted, Summarizes, MinOf, MaxOf;
    var grouped: map<string, seq<real>> := map[];
    NoGroups(policy);
    for i := 0 to |detections|
      invariant Groups(grouped, detections[..i], policy)
    {
      GroupStep(grouped, detections[..i], detections[i], policy);
      assert detections[..i] + [detections[i]] == detections[..i + 1];
      grouped := AddScore(grouped, detections[i], policy);
    }
    assert detections[..|detections|] == detections;
    var types := SortedKeys(grouped.Keys);
    decisions := [];
    for i := 0 to |types|
      invariant TypesOf(decisions) == types[..i]
      invariant forall j :: 0 <= j < i ==> Describes(decisions[j], detections, policy)
    {
      GroupDescribes(grouped, detections, policy, types[i]);
      decisions := decisions + [DecisionFor(types[i], grouped[types[i]], policy)];
    }
    assert types[..|types|] == types;
    SummaryDone(decisions, types, grouped, detections, policy);
  }

  lemma ScoresSnoc(detections: seq<Scored>, d: Scored, t: string)
    ensures Scores(detections + [d], t) == Scores(detections, t) + if d.entityType == t then [d.score] else []
  {
    assert (detections + [d])[..|detections|] == detections;
  }

  lemma ListedSnoc(detections: seq<Scored>, d: Scored, policy: PolicyMap, t: string)
    ensures IsListed(detections + [d], policy, t)
            <==> t in policy && (IsListed(detections, policy, t) || t == d.entityType)
    ensures IsListed(detections, policy, t) ==> t in policy
    ensures t in policy && !IsListed(detections, policy, t) ==> Scores(detections, t) == []
  {
    var after := detections + [d];
    assert after[|detections|] == d;
    ScoresAre(detections, t, 0.0);
    if IsListed(detections, policy, t) {
      var i :| 0 <= i < |detections| && detections[i].entityType == t;
      assert after[i].entityType == t;
    }
  }

  lemma DescribesFromScores(d: Decision, detections: seq<Scored>, policy: PolicyMap)
    requires Scores(detections, d.entityType) != []
    requires d.entityType in policy && d.action == policy[d.entityType] && (d.requestBlocked <==> d.action == Block)
    requires d.count == |Scores(detections, d.entityType)|
    requires d.scoreMin == MinOf(Scores(detections, d.entityType)) && d.scoreMax == MaxOf(Scores(detections, d.entityType))
    ensures Describes(d, detections, policy)
  {
    var t := d.entityType;
    ScoresAre(detections, t, d.scoreMin);
    ScoresAre(detections, t, d.scoreMax);
    forall i | 0 <= i < |detections| && detections[i].entityType == t
      ensures d.scoreMin <= detections[i].score <= d.scoreMax
    {
      assert detections[i] == Scored(t, detections[i].score);
      ScoresAre(detections, t, detections[i].score);
    }
  }

  /** `sorted(keys)` */
  method SortedKeys(keys: set<string>) returns (sorted: seq<string>)
    ensures Sorted(sorted)
    ensures forall x :: x in sorted <==> x in keys
  {
    sorted := [];
    var rest := keys;
    while rest != {}
      invariant rest <= keys && Sorted(sorted)
      invariant forall x :: x in sorted <==> x in keys && x !in rest
      decreases rest
    {
      var x :| x in rest;
      sorted := Insert(sorted, x);
      rest := rest - {x};
    }
  }

  /** `blocked_entity_types` */
  function BlockedTypes(decisions: seq<Decision>): seq<string> {
    if decisions == [] then []
    else (if decisions[0].requestBlocked then [decisions[0].entityType] else []) + BlockedTypes(decisions[1..])
  }

  lemma {:induction false} BlockedTypesAre(decisions: seq<Decision>, t: string)
    ensures t in BlockedTypes(decisions)
            <==> exists i :: 0 <= i < |decisions| && decisions[i].requestBlocked && decisions[i].entityType == t
  {
    if decisions != [] {
      BlockedTypesAre(decisions[1..], t);
      assert forall i :: 0 < i < |decisions| ==> decisions[i] == decisions[1..][i - 1];
    }
  }

  /** The blocked types are exactly the detected types whose action is BLOCK. */
  lemma BlockIsFaithful(decisions: seq<Decision>, detections: seq<Scored>, policy: PolicyMap, t: string)
    requires Summarizes(decisions, detections, policy)
    ensures t in BlockedTypes(decisions)
            <==> ActionOf(policy, t) == Some(Block) && exists i :: 0 <= i < |detections| && detections[i].entityType == t
  {
    BlockedTypesAre(decisions, t);
    var types := TypesOf(decisions);
    assert t in types <==> IsListed(detections, policy, t);
    if t in types {
      var i :| 0 <= i < |types| && types[i] == t;
      assert Describes(decisions[i], detections, policy);
    }
  }

  /** No blocked type means that no detection whatever has the action BLOCK. */
  lemma NothingBlocked(decisions: seq<Decision>, detections: seq<Scored>, policy: PolicyMap)
    requires Summarizes(decisions, detections, policy)
    ensures BlockedTypes(decisions) == []
            <==> forall i :: 0 <= i < |detections| ==> ActionOf(policy, detections[i].entityType) != Some(Block)
  {
    if BlockedTypes(decisions) == [] {
      forall i | 0 <= i < |detections| ensures ActionOf(policy, detections[i].entityType) != Some(Block) {
        BlockIsFaithful(decisions, detections, policy, detections[i].entityType);
      }
    } else {
      var t := BlockedTypes(decisions)[0];
      assert t in BlockedTypes(decisions);
      BlockIsFaithful(decisions, detections, policy, t);
    }
  }

  // ---------- Order and totals ----------

  lemma {:induction false} ScoresWithout(detections: seq<Scored>, k: nat, t: string)
    requires k < |detections|
    ensures |Scores(detections, t)|
         == |Scores(detections[..k] + detections[k + 1..], t)| + if detections[k].entityType == t then 1 else 0
  {
    var n := |detections| - 1;
    var without := detections[..k] + detections[k + 1..];
    if k == n {
      assert without == detections[..n];
    } else {
      ScoresWithout(detections[..n], k, t);
      assert without[..n - 1] == detections[..n][..k] + detections[..n][k + 1..];
      assert without[n - 1] == detections[n];
    }
  }

  lemma RemoveOne(a: seq<Scored>, b: seq<Scored>) returns (k: nat)
    requires multiset(a) == multiset(b) && a != []
    ensures k < |b| && b[k] == a[|a| - 1]
    ensures multiset(a[..|a| - 1]) == multiset(b[..k] + b[k + 1..])
  {
    var n := |a| - 1;
    var x := a[n];
    assert x in multiset(b);
    k :| 0 <= k < |b| && b[k] == x;
    assert a == a[..n] + [x];
    assert b == b[..k] + [x] + b[k + 1..];
    assert multiset(a[..n]) == multiset(a) - multiset{x};
    assert multiset(b[..k] + b[k + 1..]) == multiset(b) - multiset{x};
  }

  lemma {:induction false} CountIgnoresOrder(a: seq<Scored>, b: seq<Scored>, t: string)
    requires multiset(a) == multiset(b)
    ensures |Scores(a, t)| == |Scores(b, t)|
    decreases |a|
  {
    if a == [] {
      assert |b| == |multiset(b)| == 0;
    } else {
      var k := RemoveOne(a, b);
      CountIgnoresOrder(a[..|a| - 1], b[..k] + b[k + 1..], t);
      ScoresWithout(b, k, t);
    }
  }

  lemma SameDescription(d: Decision, e: Decision, a: seq<Scored>, b: seq<Scored>, policy: PolicyMap)
    requires multiset(a) == multiset(b) && d.entityType == e.entityType
    requires Describes(d, a, policy) && Describes(e, b, policy)
    ensures d == e
  {
    CountIgnoresOrder(a, b, d.entityType);
    assert forall x :: x in a <==> x in multiset(a);
    assert forall x :: x in b <==> x in multiset(b);
    assert Scored(d.entityType, d.scoreMin) in b && Scored(d.entityType, d.scoreMax) in b;
    assert Scored(d.entityType, e.scoreMin) in a && Scored(d.entityType, e.scoreMax) in a;
  }

  /** The summary is a function of the policy and the bag of detections: their order plays
      no part. */
  lemma SummaryIgnoresOrder(ds: seq<Decision>, es: seq<Decision>, a: seq<Scored>, b: seq<Scored>, policy: PolicyMap)
    requires Summarizes(ds, a, policy) && Summarizes(es, b, policy) && multiset(a) == multiset(b)
    ensures ds == es
  {
    forall t ensures t in TypesOf(ds) <==> t in TypesOf(es) {
      assert forall x :: x in a <==> x in multiset(a);
      assert forall x :: x in b <==> x in multiset(b);
      if IsListed(a, policy, t) {
        var i :| 0 <= i < |a| && a[i].entityType == t;
        assert a[i] in b;
      }
      if IsListed(b, policy, t) {
        var i :| 0 <= i < |b| && b[i].entityType == t;
        assert b[i] in a;
      }
    }
    SortedUnique(TypesOf(ds), TypesOf(es));
    forall i | 0 <= i < |ds| ensures ds[i] == es[i] {
      assert TypesOf(ds)[i] == TypesOf(es)[i];
      SameDescription(ds[i], es[i], a, b, policy);
    }
  }

  function Total(decisions: seq<Decision>): nat {
    if decisions == [] then 0 else decisions[0].count + Total(decisions[1..])
  }

  /** How many detections are of policy-listed types. */
  function ListedCount(detections: seq<Scored>, policy: PolicyMap): nat {
    if detections == [] then 0
    else
      var n := |detections| - 1;
      ListedCount(detections[..n], policy) + if detections[n].entityType in policy then 1 else 0
  }

  /** The detections counted for a list of types. */
  function CountFor(types: seq<string>, detections: seq<Scored>): nat {
    if types == [] then 0 else |Scores(detections, types[0])| + CountFor(types[1..], detections)
  }

  lemma {:induction false} CountForSnoc(types: seq<string>, detections: seq<Scored>, d: Scored)
    requires Sorted(types)
    ensures CountFor(types, detections + [d])
         == CountFor(types, detections) + if d.entityType in types then 1 else 0
  {
    assert (detections + [d])[..|detections|] == detections;
    if types != [] {
      CountForSnoc(types[1..], detections, d);
      SortedTail(types, d.entityType);
    }
  }

  lemma {:induction false} CountForIsListed(types: seq<string>, detections: seq<Scored>, policy: PolicyMap)
    requires Sorted(types)
    requires forall i :: 0 <= i < |detections| ==> (detections[i].entityType in types <==> detections[i].entityType in policy)
    ensures CountFor(types, detections) == ListedCount(detections, policy)
    decreases |detections|
  {
    if detections == [] {
      CountForNothing(types);
    } else {
      var n := |detections| - 1;
      CountForIsListed(types, detections[..n], policy);
      assert detections == detections[..n] + [detections[n]];
      CountForSnoc(types, detections[..n], detections[n]);
    }
  }

  lemma {:induction false} CountForNothing(types: seq<string>)
    ensures CountFor(types, []) == 0
  {
    if types != [] {
      CountForNothing(types[1..]);
    }
  }

  lemma {:induction false} TotalIsCountFor(decisions: seq<Decision>, detections: seq<Scored>, policy: PolicyMap)
    requires forall i :: 0 <= i < |decisions| ==> Describes(decisions[i], detections, policy)
    ensures Total(decisions) == CountFor(TypesOf(decisions), detections)
  {
    if decisions != [] {
      TotalIsCountFor(decisions[1..], detections, policy);
      assert TypesOf(decisions)[1..] == TypesOf(decisions[1..]);
    }
  }

  /** Every policy-listed detection is counted once. */
  lemma CountsAddUp(decisions: seq<Decision>, detections: seq<Scored>, policy: PolicyMap)
    requires Summarizes(decisions, detections, policy)
    ensures Total(decisions) == ListedCount(detections, policy)
  {
    TotalIsCountFor(decisions, detections, policy);
    forall i | 0 <= i < |detections|
      ensures detections[i].entityType in TypesOf(decisions) <==> detections[i].entityType in policy
    {
      assert IsListed(detections, policy, detections[i].entityType) <==> detections[i].entityType in policy;
    }
    CountForIsListed(TypesOf(decisions), detections, policy);
  }

  // ---------- The response policy ----------

  /** On responses every mediated type is redacted. */
  function ResponsePolicy(policy: PolicyMap): PolicyMap {
    map t | t in policy :: if policy[t] == Allow then Allow else Redact
  }
}
