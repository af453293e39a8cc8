/**
 A request as the mediator sees it: messages that share one tokenization context, the keys
 minted for them, their sanitized form, and substitution in text woven from gaps and pieces.
 */
module RequestModel {
  import opened Text
  import opened Tokens
  import opened Tokenization
  import opened Policy
  import opened Mediator

  /** A message with its detections, the spans they resolve to and the order in which the
      anonymizer visits these. */
  datatype Message = Message(role: string, text: string, results: seq<Detection>, spans: seq<Detection>, visits: seq<nat>)

  ghost predicate WellFormed(policy: PolicyMap, m: Message) {
    ValidPass(m.text, Actionable(policy, m.results), Pass(m.spans, m.visits, true))
  }

  ghost predicate AllWellFormed(policy: PolicyMap, messages: seq<Message>) {
    forall i :: 0 <= i < |messages| ==> WellFormed(policy, messages[i])
  }

  function Texts(messages: seq<Message>): (texts: seq<string>)
    ensures |texts| == |messages|
  {
    seq(|messages|, i requires 0 <= i < |messages| => messages[i].text)
  }

  function KeysOf(policy: PolicyMap, m: Message): seq<Key>
    requires WellFormed(policy, m)
  {
    VisitedKeys(policy, m.text, m.spans, m.visits)
  }

  /** All keys minted for the request, message after message. */
  function RequestKeys(policy: PolicyMap, messages: seq<Message>): seq<Key>
    requires AllWellFormed(policy, messages)
  {
    if messages == [] then []
    else
      var n := |messages| - 1;
      RequestKeys(policy, messages[..n]) + KeysOf(policy, messages[n])
  }

  /** The context once every message has been sanitized. */
  function FinalRegistry(namespace: string, policy: PolicyMap, messages: seq<Message>): Registry
    requires AllWellFormed(policy, messages)
  {
    MintAll(Fresh(namespace), RequestKeys(policy, messages))
  }

  function SanitizedMessage(policy: PolicyMap, r: Registry, m: Message): string
    requires WellFormed(policy, m)
  {
    Sanitized(policy, r, m.text, m.spans)
  }

  /** A tokenized span gives back its value, a redacted one leaves its marker. */
  function Kept(policy: PolicyMap, m: Message): (pieces: seq<string>)
    requires WellFormed(policy, m)
    ensures |pieces| == |m.spans|
  {
    var spans := m.spans;
    seq(|spans|, i requires 0 <= i < |spans| =>
      if IsTokenized(policy, spans[i]) then Value(m.text, spans[i]) else Marker(spans[i].entityType))
  }

  /** The message with only its redacted spans replaced. */
  function Expected(policy: PolicyMap, m: Message): string
    requires WellFormed(policy, m)
  {
    Weave(Gaps(m.text, m.spans, 0), Kept(policy, m))
  }

  // ---------- Which keys a request mints ----------

  lemma {:induction false} VisitedHas(policy: PolicyMap, text: string, spans: seq<Detection>, visits: seq<nat>, k: nat)
    requires Disjoint(text, spans) && forall v :: 0 <= v < |visits| ==> visits[v] < |spans|
    requires k in visits && k < |spans| && IsTokenized(policy, spans[k])
    ensures KeyOf(text, spans[k]) in VisitedKeys(policy, text, spans, visits)
  {
    var n := |visits| - 1;
    if visits[n] != k {
      assert visits == visits[..n] + [visits[n]];
      VisitedHas(policy, text, spans, visits[..n], k);
    }
  }

  lemma {:induction false} RequestHas(policy: PolicyMap, messages: seq<Message>, i: nat, key: Key)
    requires AllWellFormed(policy, messages) && i < |messages| && key in KeysOf(policy, messages[i])
    ensures key in RequestKeys(policy, messages)
  {
    var n := |messages| - 1;
    if i < n {
      RequestHas(policy, messages[..n], i, key);
    }
  }

  // ---------- Substitution in woven text ----------

  function SubstituteEach(values: map<string, string>, texts: seq<string>): (r: seq<string>)
    ensures |r| == |texts| && forall i :: 0 <= i < |r| ==> r[i] == Substitute(values, texts[i])
  {
    seq(|texts|, i requires 0 <= i < |texts| => Substitute(values, texts[i]))
  }

  predicate AllSeparate(values: map<string, string>, pieces: seq<string>) {
    forall i :: 0 <= i < |pieces| ==> Separates(values, pieces[i])
  }

  /** Tokens and quiet markers woven into a text are substituted one by one, and every gap by
      itself, whatever the gaps contain. */
  lemma {:induction false} SubstituteWeave(values: map<string, string>, gaps: seq<string>, pieces: seq<string>)
    requires |gaps| == |pieces| + 1 && AllSeparate(values, pieces)
    ensures Substitute(values, Weave(gaps, pieces))
         == Weave(SubstituteEach(values, gaps), SubstituteEach(values, pieces))
    decreases |pieces|
  {
    hide Substitute, Separates;
    if pieces != [] {
      SubstituteAround(values, gaps[0], pieces[0], Weave(gaps[1..], pieces[1..]));
      assert forall i :: 0 <= i < |pieces[1..]| ==> pieces[1..][i] == pieces[i + 1];
      SubstituteWeave(values, gaps[1..], pieces[1..]);
      assert SubstituteEach(values, gaps)[1..] == SubstituteEach(values, gaps[1..]);
      assert SubstituteEach(values, pieces)[1..] == SubstituteEach(values, pieces[1..]);
    }
  }

  /** Weaving the spans' own values back in gives the text. */
  lemma {:induction false} WeaveValues(text: string, spans: seq<Detection>, from: nat)
    requires Follow(text, spans, from)
    ensures Weave(Gaps(text, spans, from), Values(text, spans)) == text[from..]
    decreases |spans|
  {
    if spans != [] {
      hide Weave, Gaps;
      var d := spans[0];
      WeaveStep(text, spans, Values(text, spans), from);
      WeaveValues(text, spans[1..], d.end);
      assert Values(text, spans)[1..] == Values(text, spans[1..]);
      assert text[from..] == text[from..d.start] + (text[d.start..d.end] + text[d.end..]);
    }
  }

  lemma {:induction false} GapIsSlice(text: string, spans: seq<Detection>, from: nat, k: nat) returns (lo: nat, hi: nat)
    requires Follow(text, spans, from) && k < |Gaps(text, spans, from)|
    ensures from <= lo <= hi <= |text| && Gaps(text, spans, from)[k] == text[lo..hi]
    decreases |spans|
  {
    if spans == [] {
      return from, |text|;
    } else if k == 0 {
      return from, spans[0].start;
    } else {
      lo, hi := GapIsSlice(text, spans[1..], spans[0].end, k - 1);
    }
  }

  lemma WeaveStep(text: string, spans: seq<Detection>, pieces: seq<string>, from: nat)
    requires Follow(text, spans, from) && |pieces| == |spans| > 0
    ensures Follow(text, spans[1..], spans[0].end)
    ensures Weave(Gaps(text, spans, from), pieces)
         == text[from..spans[0].start] + (pieces[0] + Weave(Gaps(text, spans[1..], spans[0].end), pieces[1..]))
  {
    assert Gaps(text, spans, from)[1..] == Gaps(text, spans[1..], spans[0].end);
  }

  lemma WeaveNothing(text: string, from: nat, pieces: seq<string>)
    requires from <= |text| && pieces == []
    ensures Weave(Gaps(text, [], from), pieces) == text[from..]
  {
  }

  /** The policy lists the type to be tokenized or redacted. */
  predicate IsMediated(policy: PolicyMap, t: string) {
    t in policy && (policy[t] == Tokenize || policy[t] == Redact)
  }

  /** Where the gap behind the first `k` spans ends. */
  function GapEnd(text: string, spans: seq<Detection>, k: nat): nat
    requires k <= |spans|
  {
    if k == |spans| then |text| else spans[k].start
  }

  lemma {:induction false} GapFrom(text: string, spans: seq<Detection>, from: nat, k: nat)
    requires Follow(text, spans, from) && k <= |spans|
    ensures (if k == 0 then from else spans[k - 1].end) <= GapEnd(text, spans, k) <= |text|
    ensures Gaps(text, spans, from)[k] == text[if k == 0 then from else spans[k - 1].end..GapEnd(text, spans, k)]
    decreases |spans|
  {
    if spans != [] && k > 0 {
      GapFrom(text, spans[1..], spans[0].end, k - 1);
    }
  }

  /** Each gap is the stretch of text between the spans on either side of it. */
  lemma GapIs(text: string, spans: seq<Detection>, k: nat)
    requires Disjoint(text, spans) && k <= |spans|
    ensures Resume(spans, k) <= GapEnd(text, spans, k) <= |text|
    ensures Gaps(text, spans, 0)[k] == text[Resume(spans, k)..GapEnd(text, spans, k)]
  {
    GapFrom(text, spans, 0, k);
  }

  /** The gap holds no character of the detection. */
  predicate Misses(text: string, spans: seq<Detection>, k: nat, d: Detection)
    requires k <= |spans|
  {
    d.end <= Resume(spans, k) || GapEnd(text, spans, k) <= d.start
    || d.end <= d.start || GapEnd(text, spans, k) <= Resume(spans, k)
  }

  lemma CoveredIsMissed(text: string, spans: seq<Detection>, k: nat, d: Detection)
    requires Disjoint(text, spans) && k <= |spans|
    requires forall p :: Covers(d, p) ==> exists j :: 0 <= j < |spans| && Covers(spans[j], p)
    ensures Misses(text, spans, k, d)
  {
    if !Misses(text, spans, k, d) {
      var p := if Resume(spans, k) < d.start then d.start else Resume(spans, k);
      assert Covers(d, p);
      assert false;
    }
  }

  /** No character of a detection to be tokenized or redacted is left in a gap: what is sent
      as it stands holds nothing of it. */
  lemma NothingDetectedIsLeft(policy: PolicyMap, m: Message, k: nat, q: nat)
    requires WellFormed(policy, m) && k <= |m.spans|
    requires q < |m.results| && IsMediated(policy, m.results[q].entityType)
    ensures Misses(m.text, m.spans, k, m.results[q])
  {
    var j := ActionableHas(policy, m.results, q);
    forall p | Covers(m.results[q], p) ensures exists i :: 0 <= i < |m.spans| && Covers(m.spans[i], p) {
      assert Covers(Actionable(policy, m.results)[j], p);
    }
    CoveredIsMissed(m.text, m.spans, k, m.results[q]);
  }

  /** Nothing else is replaced: every span is of a type that is detected, and listed to be
      tokenized or redacted. */
  lemma OnlyMediatedIsReplaced(policy: PolicyMap, m: Message, k: nat)
    requires WellFormed(policy, m) && k < |m.spans|
    ensures IsMediated(policy, m.spans[k].entityType) && HasType(m.results, m.spans[k].entityType)
  {
    var actionable := Actionable(policy, m.results);
    assert HasType(actionable, m.spans[k].entityType);
    var i :| 0 <= i < |actionable| && actionable[i].entityType == m.spans[k].entityType;
    assert IsActionable(policy, actionable[i]);
    ActionableIsFound(policy, m.results, i);
  }

  lemma {:induction false} ActionableIsFound(policy: PolicyMap, results: seq<Detection>, i: nat)
    requires i < |Actionable(policy, results)|
    ensures HasType(results, Actionable(policy, results)[i].entityType)
  {
    var n := |results| - 1;
    var before := Actionable(policy, results[..n]);
    if i < |before| {
      ActionableIsFound(policy, results[..n], i);
      var j :| 0 <= j < n && results[..n][j].entityType == before[i].entityType;
      assert results[j].entityType == before[i].entityType;
    } else {
      assert results[n].entityType == Actionable(policy, results)[i].entityType;
    }
  }

  lemma {:induction false} ActionableHas(policy: PolicyMap, results: seq<Detection>, i: nat) returns (j: nat)
    requires i < |results| && IsActionable(policy, results[i])
    ensures j < |Actionable(policy, results)| && Actionable(policy, results)[j] == results[i]
  {
    var n := |results| - 1;
    if i < n {
      j := ActionableHas(policy, results[..n], i);
    } else {
      j := |Actionable(policy, results[..n])|;
    }
  }

  // ---------- Markers ----------

  /** The type does not hold the opening of the context's tokens; no type without square
      brackets does. */
  predicate IsForeign(namespace: string, t: string) {
    !Contains(t, OPENING + namespace)
  }

  lemma OpeningHasBracket(namespace: string, t: string)
    requires !IsForeign(namespace, t)
    ensures '[' in t
  {
    var word := OPENING + namespace;
    var i :| 0 <= i <= |t| && OccursAt(t, i, word);
    assert t[i] == t[i..i + |word|][0] == '[';
  }

  lemma PlainIsForeign(namespace: string, t: string)
    requires '[' !in t
    ensures IsForeign(namespace, t)
  {
    if !IsForeign(namespace, t) {
      OpeningHasBracket(namespace, t);
      assert false;
    }
  }

  ghost predicate AllOpenWith(values: map<string, string>, namespace: string) {
    forall token :: token in values ==> OPENING + namespace <= token
  }

  lemma OpeningInMarker(namespace: string, t: string, i: nat)
    requires IsNamespace(namespace) && OccursAt(Marker(t), i, OPENING + namespace)
    ensures !IsForeign(namespace, t)
  {
    var s, word := Marker(t), OPENING + namespace;
    assert s[i] == word[0] && s[i + 1] == word[1] && s[i + 13] == word[13] == namespace[7];
    assert IsUpperHex(namespace[7]);
    assert i >= 10 && i + 14 < |s|;
    assert t[i - 10..i + 4] == s[i..i + 14];
    assert OccursAt(t, i - 10, word);
  }

  lemma OpeningOccurs(namespace: string, s: string, token: string, i: nat)
    requires |namespace| == 8 && OPENING + namespace <= token && 17 < |token|
    requires OccursAt(s, i, token[..|token| - 1])
    ensures OccursAt(s, i, OPENING + namespace)
  {
    var part := token[..|token| - 1];
    assert s[i..i + 14] == s[i..i + |part|][..14] == part[..14] == OPENING + namespace;
  }

  lemma TokenNotInMarker(namespace: string, t: string, token: string)
    requires IsNamespace(namespace) && IsForeign(namespace, t)
    requires OPENING + namespace <= token && 17 < |token|
    ensures !Contains(Marker(t), token[..|token| - 1])
  {
    var part := token[..|token| - 1];
    if Contains(Marker(t), part) {
      var i :| 0 <= i <= |Marker(t)| && OccursAt(Marker(t), i, part);
      OpeningOccurs(namespace, Marker(t), token, i);
      OpeningInMarker(namespace, t, i);
      assert false;
    }
  }

  /** A marker of a foreign type is not mistaken for a token, nor part of one. */
  lemma MarkerSeparates(values: map<string, string>, namespace: string, t: string)
    requires IsNamespace(namespace) && AllOpenWith(values, namespace) && IsForeign(namespace, t)
    ensures Separates(values, Marker(t)) && Substitute(values, Marker(t)) == Marker(t)
  {
    hide IsToken, IsForeign, IsNamespace, Contains, Substitute;
    forall token | token in values && IsToken(token) ensures !Contains(Marker(t), token[..|token| - 1]) {
      TokenShape(token);
      TokenNotInMarker(namespace, t, token);
    }
    SubstituteQuiet(values, Marker(t));
  }
}
