/**
 Redacting detections in a provider's response, and rehydrating what is left.
 */
module ResponseScan {
  import opened Wrappers
  import opened Text
  import opened Tokens
  import opened Tokenization
  import opened Policy
  import opened Mediator
  import opened RequestModel

  /** No minted token overlaps a span. */
  ghost predicate Untouched(values: map<string, string>, text: string, spans: seq<Detection>) {
    forall i, e, k :: Minted(values, text, i, e) && 0 <= k < |spans| ==> e <= spans[k].start || spans[k].end <= i
  }

  lemma ResponseActions(policy: PolicyMap, t: string)
    ensures ActionOf(ResponsePolicy(policy), t) != Some(Block) && ActionOf(ResponsePolicy(policy), t) != Some(Tokenize)
  {
  }

  /** With the response policy nothing is blocked, no context is needed and every
      replacement is a marker. */
  lemma ResponsePolicyRedacts(policy: PolicyMap, r: Registry, text: string, results: seq<Detection>, spans: seq<Detection>)
    requires Disjoint(text, spans)
    ensures !HasBlock(ResponsePolicy(policy), results) && !NeedsContext(ResponsePolicy(policy), results)
    ensures Replacements(ResponsePolicy(policy), r, text, spans) == Markers(spans)
  {
    forall k | 0 <= k < |spans| ensures !IsTokenized(ResponsePolicy(policy), spans[k]) {
      ResponseActions(policy, spans[k].entityType);
    }
    forall i | 0 <= i < |results|
      ensures ActionOf(ResponsePolicy(policy), results[i].entityType) != Some(Block)
      ensures !IsTokenized(ResponsePolicy(policy), results[i])
    {
      ResponseActions(policy, results[i].entityType);
    }
  }

  /** No minted token, whole or without its last bracket, occurs in the spans' markers. */
  predicate MarkersAreQuiet(values: map<string, string>, spans: seq<Detection>) {
    forall k :: 0 <= k < |spans| ==> IsQuiet(values, Marker(spans[k].entityType))
  }

  /** Rehydrating a redacted response is rehydrating each gap and keeping the markers. */
  lemma RehydrateRedacted(values: map<string, string>, text: string, spans: seq<Detection>)
    requires Disjoint(text, spans) && MarkersAreQuiet(values, spans)
    ensures Substitute(values, Weave(Gaps(text, spans, 0), Markers(spans)))
         == Weave(SubstituteEach(values, Gaps(text, spans, 0)), Markers(spans))
  {
    hide IsToken, Substitute, Weave, Gaps, IsQuiet;
    var pieces := Markers(spans);
    forall k | 0 <= k < |spans| ensures Separates(values, pieces[k]) && Substitute(values, pieces[k]) == pieces[k] {
      SubstituteQuiet(values, pieces[k]);
    }
    SubstituteWeave(values, Gaps(text, spans, 0), pieces);
    assert SubstituteEach(values, pieces) == pieces;
  }

  lemma CleanAtCut(values: map<string, string>, text: string, lo: nat, cut: nat)
    requires lo <= cut <= |text|
    requires forall i, e :: Minted(values, text, i, e) ==> e <= cut || cut <= i
    ensures Clean(values, text[lo..cut], text[cut..])
    ensures text[lo..] == text[lo..cut] + text[cut..]
  {
    hide IsToken;
    var a, b := text[lo..cut], text[cut..];
    assert text[lo..] == a + b;
    forall i, e | 0 <= i < |a| < e <= |a| + |b| ensures !Minted(values, a + b, i, e) {
      OccursInTail(text, lo, i, e);
      assert !Minted(values, text, lo + i, lo + e);
    }
  }

  lemma MintedInSlice(values: map<string, string>, text: string, lo: nat, hi: nat, i: int, e: int)
    requires lo <= hi <= |text| && Minted(values, text[lo..hi], i, e)
    ensures Minted(values, text, lo + i, lo + e) && 0 <= i < e <= hi - lo
  {
    hide IsToken;
    OccurrenceShape(text[lo..hi], i, e);
    SliceOfSlice(text, lo, hi, i, e);
  }

  lemma SpanHoldsNothing(values: map<string, string>, text: string, spans: seq<Detection>)
    requires Disjoint(text, spans) && spans != [] && Untouched(values, text, spans)
    ensures Substitute(values, Value(text, spans[0])) == Value(text, spans[0])
  {
    hide IsToken, Substitute;
    var d := spans[0];
    var s := Value(text, d);
    forall i, e ensures !Minted(values, s, i, e) {
      if Minted(values, s, i, e) {
        MintedInSlice(values, text, d.start, d.end, i, e);
        assert false;
      }
    }
    NothingToSubstitute(values, s);
  }

  /** Where no minted token overlaps a span, the text itself rehydrates gap by gap too. */
  lemma {:induction false} RehydrateAround(values: map<string, string>, text: string, spans: seq<Detection>, from: nat)
    requires Follow(text, spans, from) && Untouched(values, text, spans)
    ensures Substitute(values, text[from..])
         == Weave(SubstituteEach(values, Gaps(text, spans, from)), Values(text, spans))
    decreases |spans|
  {
    hide IsToken, Substitute, Clean, Minted;
    if spans != [] {
      var d := spans[0];
      var gaps := Gaps(text, spans, from);
      CutsAreClean(values, text, spans, from);
      SubstituteSplits(values, text[from..d.start], text[d.start..]);
      SubstituteSplits(values, text[d.start..d.end], text[d.end..]);
      SpanHoldsNothing(values, text, spans);
      RehydrateAround(values, text, spans[1..], d.end);
      assert SubstituteEach(values, gaps)[1..] == SubstituteEach(values, Gaps(text, spans[1..], d.end));
      assert Values(text, spans)[1..] == Values(text, spans[1..]);
    }
  }

  lemma CutsAreClean(values: map<string, string>, text: string, spans: seq<Detection>, from: nat)
    requires Follow(text, spans, from) && spans != [] && Untouched(values, text, spans)
    ensures Clean(values, text[from..spans[0].start], text[spans[0].start..])
    ensures text[from..] == text[from..spans[0].start] + text[spans[0].start..]
    ensures Clean(values, text[spans[0].start..spans[0].end], text[spans[0].end..])
    ensures text[spans[0].start..] == text[spans[0].start..spans[0].end] + text[spans[0].end..]
    ensures Untouched(values, text, spans[1..])
  {
    var d := spans[0];
    hide Clean, Occurs;
    forall i, e | Minted(values, text, i, e) ensures (e <= d.start || d.start <= i) && (e <= d.end || d.end <= i) {
      assert e <= d.start || d.end <= i;
    }
    CleanAtCut(values, text, from, d.start);
    CleanAtCut(values, text, d.start, d.end);
  }

  /** Redaction and rehydration commute: where the scan touches no minted token, rehydrating
      the redacted response is redacting the same spans of the rehydrated one, gap by gap. */
  lemma RedactionCommutes(values: map<string, string>, text: string, spans: seq<Detection>)
    requires Disjoint(text, spans) && MarkersAreQuiet(values, spans)
    requires Untouched(values, text, spans)
    ensures var gaps := SubstituteEach(values, Gaps(text, spans, 0));
            && Substitute(values, text) == Weave(gaps, Values(text, spans))
            && Substitute(values, Weave(Gaps(text, spans, 0), Markers(spans))) == Weave(gaps, Markers(spans))
  {
    RehydrateAround(values, text, spans, 0);
    RehydrateRedacted(values, text, spans);
    assert text[0..] == text;
  }
}
