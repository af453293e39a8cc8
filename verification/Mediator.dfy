/**
 The mediator's text transformation: detected spans are replaced by tokens or redaction
 markers, as the policy says. Detection itself, how the anonymizer resolves detections that
 overlap, and the order in which it visits the spans, belong to the environment.
 */
module Mediator {
  import opened Wrappers
  import opened Tokenization
  import opened Policy

  datatype Detection = Detection(start: nat, end: nat, entityType: string, score: real)

  function Marker(entityType: string): string {
    "[REDACTED:" + entityType + "]"
  }

  predicate IsTokenized(policy: PolicyMap, d: Detection) {
    ActionOf(policy, d.entityType) == Some(Tokenize)
  }

  predicate IsActionable(policy: PolicyMap, d: Detection) {
    IsTokenized(policy, d) || ActionOf(policy, d.entityType) == Some(Redact)
  }

  predicate HasBlock(policy: PolicyMap, results: seq<Detection>) {
    exists i :: 0 <= i < |results| && ActionOf(policy, results[i].entityType) == Some(Block)
  }

  /** The detections that are tokenized or redacted, in order. */
  function Actionable(policy: PolicyMap, results: seq<Detection>): (spans: seq<Detection>)
    ensures forall i :: 0 <= i < |spans| ==> IsActionable(policy, spans[i])
  {
    if results == [] then []
    else
      var n := |results| - 1;
      Actionable(policy, results[..n]) + if IsActionable(policy, results[n]) then [results[n]] else []
  }

  /** The spans lie in the text, in order, and do not overlap. */
  predicate Disjoint(text: string, spans: seq<Detection>) {
    && (forall i :: 0 <= i < |spans| ==> spans[i].start <= spans[i].end <= |text|)
    && (forall i, j :: 0 <= i < j < |spans| ==> spans[i].end <= spans[j].start)
  }

  predicate Covers(d: Detection, p: int) {
    d.start <= p < d.end
  }

  predicate HasType(detections: seq<Detection>, t: string) {
    exists i :: 0 <= i < |detections| && detections[i].entityType == t
  }

  /** What the anonymizer may make of detections: spans that do not overlap, of the types
      detected, and covering every detected position. */
  ghost predicate Resolves(text: string, detections: seq<Detection>, spans: seq<Detection>) {
    && Disjoint(text, spans)
    && (forall k :: 0 <= k < |spans| ==> HasType(detections, spans[k].entityType))
    && (forall i, p :: 0 <= i < |detections| && Covers(detections[i], p) ==>
          exists k :: 0 <= k < |spans| && Covers(spans[k], p))
  }

  /** Detections that do not overlap need no resolving. */
  lemma DisjointResolves(text: string, detections: seq<Detection>)
    requires Disjoint(text, detections)
    ensures Resolves(text, detections, detections)
  {
  }

  lemma NothingFromNothing(text: string, detections: seq<Detection>, spans: seq<Detection>)
    requires Resolves(text, detections, spans)
    ensures detections == [] ==> spans == []
  {
    assert spans != [] ==> HasType(detections, spans[0].entityType);
  }

  /** One pass of the anonymizer over a text: the spans it replaces, the order in which it
      calls the operators (spans by number, each at least once if it gets through), and
      whether it gets through. */
  datatype Pass = Pass(spans: seq<Detection>, visits: seq<nat>, completes: bool)

  ghost predicate ValidPass(text: string, detections: seq<Detection>, pass: Pass) {
    Resolves(text, detections, pass.spans) && VisitsSpans(pass.visits, |pass.spans|, pass.completes)
  }

  /** Spans that may follow position `from`. */
  predicate Follow(text: string, spans: seq<Detection>, from: nat) {
    from <= |text| && Disjoint(text, spans) && (spans != [] ==> from <= spans[0].start)
  }

  function Value(text: string, d: Detection): string
    requires d.start <= d.end <= |text|
  {
    text[d.start..d.end]
  }

  function KeyOf(text: string, d: Detection): Key
    requires d.start <= d.end <= |text|
  {
    Key(d.entityType, Value(text, d))
  }

  function Values(text: string, spans: seq<Detection>): (values: seq<string>)
    requires Disjoint(text, spans)
    ensures |values| == |spans|
  {
    seq(|spans|, i requires 0 <= i < |spans| => Value(text, spans[i]))
  }

  /** The stretches of text before, between and after the spans. */
  function Gaps(text: string, spans: seq<Detection>, from: nat): (gaps: seq<string>)
    requires Follow(text, spans, from)
    ensures |gaps| == |spans| + 1
    decreases |spans|
  {
    if spans == [] then [text[from..]]
    else [text[from..spans[0].start]] + Gaps(text, spans[1..], spans[0].end)
  }

  /** Gaps and pieces in turn. */
  function Weave(gaps: seq<string>, pieces: seq<string>): string
    requires |gaps| == |pieces| + 1
  {
    if pieces == [] then gaps[0] else gaps[0] + (pieces[0] + Weave(gaps[1..], pieces[1..]))
  }

  /** What stands in for a span: the token of its value, or its marker. */
  function Replacement(policy: PolicyMap, r: Registry, text: string, d: Detection): string
    requires d.start <= d.end <= |text|
  {
    if !IsTokenized(policy, d) then Marker(d.entityType)
    else if KeyOf(text, d) in r.valueToToken then r.valueToToken[KeyOf(text, d)]
    else ""
  }

  function Replacements(policy: PolicyMap, r: Registry, text: string, spans: seq<Detection>): (pieces: seq<string>)
    requires Disjoint(text, spans)
    ensures |pieces| == |spans|
  {
    seq(|spans|, i requires 0 <= i < |spans| => Replacement(policy, r, text, spans[i]))
  }

  function Markers(spans: seq<Detection>): (pieces: seq<string>)
    ensures |pieces| == |spans|
  {
    seq(|spans|, i requires 0 <= i < |spans| => Marker(spans[i].entityType))
  }

  /** The provider-safe text. */
  function Sanitized(policy: PolicyMap, r: Registry, text: string, spans: seq<Detection>): string
    requires Disjoint(text, spans)
  {
    Weave(Gaps(text, spans, 0), Replacements(policy, r, text, spans))
  }

  predicate VisitsSpans(visits: seq<nat>, n: nat, completes: bool) {
    && (forall v :: 0 <= v < |visits| ==> visits[v] < n)
    && (completes ==> forall k :: 0 <= k < n ==> k in visits)
  }

  /** The keys minted on the way. */
  function VisitedKeys(policy: PolicyMap, text: string, spans: seq<Detection>, visits: seq<nat>): seq<Key>
    requires Disjoint(text, spans) && forall v :: 0 <= v < |visits| ==> visits[v] < |spans|
  {
    if visits == [] then []
    else
      var n := |visits| - 1;
      var d := spans[visits[n]];
      VisitedKeys(policy, text, spans, visits[..n]) + if IsTokenized(policy, d) then [KeyOf(text, d)] else []
  }

  lemma VisitStep(policy: PolicyMap, text: string, spans: seq<Detection>, visits: seq<nat>, v: nat, r: Registry)
    requires Disjoint(text, spans) && v < |visits| && forall k :: 0 <= k < |visits| ==> visits[k] < |spans|
    ensures var before := MintAll(r, VisitedKeys(policy, text, spans, visits[..v]));
            MintAll(r, VisitedKeys(policy, text, spans, visits[..v + 1])) ==
              if IsTokenized(policy, spans[visits[v]]) then Mint(before, KeyOf(text, spans[visits[v]])) else before
  {
    var keys := VisitedKeys(policy, text, spans, visits[..v]);
    assert visits[..v + 1][..v] == visits[..v] && visits[..v + 1][v] == visits[v];
    MintAllSnoc(r, keys, KeyOf(text, spans[visits[v]]));
    assert keys + [] == keys;
  }

  /** Some span is tokenized. */
  predicate NeedsContext(policy: PolicyMap, spans: seq<Detection>) {
    exists i :: 0 <= i < |spans| && IsTokenized(policy, spans[i])
  }

  /** A context is needed exactly when some detection is of a type listed to be tokenized. */
  lemma {:induction false} NeedsContextMeans(policy: PolicyMap, results: seq<Detection>)
    ensures NeedsContext(policy, Actionable(policy, results)) <==>
            exists i :: 0 <= i < |results| && results[i].entityType in policy && policy[results[i].entityType] == Tokenize
  {
    if results != [] {
      var n := |results| - 1;
      var before, all := Actionable(policy, results[..n]), Actionable(policy, results);
      NeedsContextMeans(policy, results[..n]);
      if i :| 0 <= i < |before| && IsTokenized(policy, before[i]) {
        assert IsTokenized(policy, all[i]);
        var j :| 0 <= j < n && results[..n][j].entityType in policy && policy[results[..n][j].entityType] == Tokenize;
        assert results[j] == results[..n][j];
      }
      if j :| 0 <= j < |results| && results[j].entityType in policy && policy[results[j].entityType] == Tokenize {
        if j < n {
          assert results[..n][j] == results[j];
          var i :| 0 <= i < |before| && IsTokenized(policy, before[i]);
          assert IsTokenized(policy, all[i]);
        } else {
          assert IsTokenized(policy, all[|before|]);
        }
      }
    }
  }

  function RegistryOf(context: TokenizationContext?): Registry
    reads context
  {
    if context == null then Fresh("") else context.View()
  }

  class PIIMediator {
    const policy: PolicyMap

    constructor (policy: PolicyMap)
      ensures this.policy == policy
    {
      this.policy := policy;
    }

    /** Picks out what is tokenized or redacted; None on a BLOCK detection. */
    method Select(results: seq<Detection>) returns (actionable: Option<seq<Detection>>)
      ensures actionable == None <==> HasBlock(policy, results)
      ensures actionable.Some? ==> actionable.value == Actionable(policy, results)
    {
      var selected := [];
      for i := 0 to |results|
        invariant selected == Actionable(policy, results[..i])
        invariant !HasBlock(policy, results[..i])
      {
        var result := results[i];
        assert results[..i + 1][..i] == results[..i];
        assert forall j :: 0 <= j < i ==> results[..i + 1][j] == results[..i][j];
        if ActionOf(policy, result.entityType) == Some(Block) {
          assert results[i] == result;
          return None;
        }
        if IsActionable(policy, result) {
          selected := selected + [result];
        }
      }
      assert results[..|results|] == results;
      return Some(selected);
    }

    /** Visits the spans, minting a token at each that is tokenized. */
    method Visit(text: string, spans: seq<Detection>, context: TokenizationContext, visits: seq<nat>)
      requires Disjoint(text, spans) && forall v :: 0 <= v < |visits| ==> visits[v] < |spans|
      modifies context
      ensures context.View() == MintAll(old(context.View()), VisitedKeys(policy, text, spans, visits))
    {
      ghost var start := context.View();
      assert MintAll(start, VisitedKeys(policy, text, spans, visits[..0])) == start;
      hide MintAll, Mint, VisitedKeys;
      for v := 0 to |visits|
        invariant context.View() == MintAll(start, VisitedKeys(policy, text, spans, visits[..v]))
      {
        var d := spans[visits[v]];
        VisitStep(policy, text, spans, visits, v, start);
        if IsTokenized(policy, d) {
          var _ := context.TokenFor(d.entityType, Value(text, d));
        }
      }
      assert visits[..|visits|] == visits;
    }

    /** Transforms a text. None stands for a RuntimeError, or for whatever exception ends
        the anonymizer's pass before it is complete. */
    method Apply(text: string, results: seq<Detection>, context: TokenizationContext?, pass: Pass)
      returns (r: Option<string>)
      requires ValidPass(text, Actionable(policy, results), pass)
      modifies context
      ensures r == None <==>
        || HasBlock(policy, results)
        || (context == null && NeedsContext(policy, Actionable(policy, results)))
        || (Actionable(policy, results) != [] && !pass.completes)
      ensures r.Some? ==> r.value == Sanitized(policy, RegistryOf(context), text, pass.spans)
      ensures context != null ==>
        context.View() == if HasBlock(policy, results) then old(context.View())
                          else MintAll(old(context.View()), VisitedKeys(policy, text, pass.spans, pass.visits))
    {
      var selected := Select(results);
      if selected == None {
        return None;
      }
      var actionable := selected.value;
      if actionable == [] {
        NothingFromNothing(text, [], pass.spans);
        assert text[0..] == text;
        return Some(text);
      }
      if context != null {
        Visit(text, pass.spans, context, pass.visits);
      } else if NeedsContext(policy, actionable) {
        return None;
      }
      if !pass.completes {
        return None;
      }
      var out := Splice(text, pass.spans, Replacements(policy, RegistryOf(context), text, pass.spans));
      return Some(out);
    }

    /** Replaces every detection by its marker, whatever its action. */
    method RedactAll(text: string, results: seq<Detection>, pass: Pass) returns (r: Option<string>)
      requires ValidPass(text, results, pass)
      ensures r == None <==> results != [] && !pass.completes
      ensures r.Some? ==> r.value == Weave(Gaps(text, pass.spans, 0), Markers(pass.spans))
    {
      if results == [] {
        NothingFromNothing(text, [], pass.spans);
        assert text[0..] == text;
        return Some(text);
      }
      if !pass.completes {
        return None;
      }
      var out := Splice(text, pass.spans, Markers(pass.spans));
      return Some(out);
    }
  }

  /** Where the text goes on after the first `k` spans. */
  function Resume(spans: seq<Detection>, k: nat): nat
    requires k <= |spans|
  {
    if k == 0 then 0 else spans[k - 1].end
  }

  lemma MayResume(text: string, spans: seq<Detection>, k: nat)
    requires Disjoint(text, spans) && k <= |spans|
    ensures Follow(text, spans[k..], Resume(spans, k))
  {
  }

  /** What the spans from number `k` on still contribute. */
  function Remaining(text: string, spans: seq<Detection>, pieces: seq<string>, k: nat): string
    requires Disjoint(text, spans) && |pieces| == |spans| && k <= |spans|
  {
    MayResume(text, spans, k);
    Weave(Gaps(text, spans[k..], Resume(spans, k)), pieces[k..])
  }

  lemma RemainingStep(text: string, spans: seq<Detection>, pieces: seq<string>, k: nat)
    requires Disjoint(text, spans) && |pieces| == |spans| && k < |spans|
    ensures Resume(spans, k) <= spans[k].start <= |text|
    ensures Remaining(text, spans, pieces, k)
         == text[Resume(spans, k)..spans[k].start] + (pieces[k] + Remaining(text, spans, pieces, k + 1))
  {
    MayResume(text, spans, k);
    MayResume(text, spans, k + 1);
    var gaps := Gaps(text, spans[k..], Resume(spans, k));
    assert spans[k..][1..] == spans[k + 1..] && pieces[k..][1..] == pieces[k + 1..];
    assert gaps[1..] == Gaps(text, spans[k + 1..], spans[k].end);
  }

  lemma RemainingEnds(text: string, spans: seq<Detection>, pieces: seq<string>)
    requires Disjoint(text, spans) && |pieces| == |spans|
    ensures Resume(spans, |spans|) <= |text|
    ensures Remaining(text, spans, pieces, |spans|) == text[Resume(spans, |spans|)..]
    ensures Follow(text, spans, 0)
    ensures Remaining(text, spans, pieces, 0) == Weave(Gaps(text, spans, 0), pieces)
  {
    MayResume(text, spans, |spans|);
    assert spans[0..] == spans && pieces[0..] == pieces;
  }

  /** Puts the pieces in the place of the spans. */
  method Splice(text: string, spans: seq<Detection>, pieces: seq<string>) returns (out: string)
    requires Disjoint(text, spans) && |pieces| == |spans|
    ensures out == Weave(Gaps(text, spans, 0), pieces)
  {
    hide Remaining, Resume, Weave, Gaps;
    out := "";
    var from := 0;
    ghost var total := Remaining(text, spans, pieces, 0);
    RemainingEnds(text, spans, pieces);
    assert Resume(spans, 0) == 0 by { ResumeIs(spans, 0); }
    for k := 0 to |spans|
      invariant from == Resume(spans, k)
      invariant out + Remaining(text, spans, pieces, k) == total
    {
      RemainingStep(text, spans, pieces, k);
      ResumeIs(spans, k + 1);
      out := out + text[from..spans[k].start] + pieces[k];
      from := spans[k].end;
    }
    out := out + text[from..];
  }

  lemma ResumeIs(spans: seq<Detection>, k: nat)
    requires k <= |spans|
    ensures Resume(spans, k) == if k == 0 then 0 else spans[k - 1].end
  {
  }
}
