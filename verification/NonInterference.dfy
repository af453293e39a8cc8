/**
 What the provider can learn from sanitized messages: which tokenized values of a type are
 equal, and nothing else about them; about redacted values nothing at all.
 */
module NonInterference {
  import opened Text
  import opened Tokens
  import opened Tokenization
  import opened Policy
  import opened Mediator
  import opened RequestModel

  /** The messages agree in everything but the contents of their mediated spans. */
  ghost predicate Alike(policy: PolicyMap, m: Message, n: Message)
    requires WellFormed(policy, m) && WellFormed(policy, n)
  {
    var s, t := m.spans, n.spans;
    && m.role == n.role && m.visits == n.visits && |s| == |t|
    && (forall k :: 0 <= k < |s| ==> s[k].entityType == t[k].entityType)
    && Gaps(m.text, s, 0) == Gaps(n.text, t, 0)
  }

  ghost predicate AllAlike(policy: PolicyMap, a: seq<Message>, b: seq<Message>)
    requires AllWellFormed(policy, a) && AllWellFormed(policy, b)
  {
    |a| == |b| && forall i :: 0 <= i < |a| ==> Alike(policy, a[i], b[i])
  }

  /** The same tokenized span is minted by the same call in both requests. */
  lemma {:induction false} VisitedAlike(policy: PolicyMap, x: string, s: seq<Detection>, y: string, t: seq<Detection>,
                                        visits: seq<nat>, k: nat) returns (p: nat)
    requires Disjoint(x, s) && Disjoint(y, t) && |s| == |t|
    requires forall v :: 0 <= v < |visits| ==> visits[v] < |s|
    requires forall j :: 0 <= j < |s| ==> s[j].entityType == t[j].entityType
    ensures |VisitedKeys(policy, x, s, visits)| == |VisitedKeys(policy, y, t, visits)|
    ensures k in visits && IsTokenized(policy, s[k]) ==>
      && p < |VisitedKeys(policy, x, s, visits)|
      && VisitedKeys(policy, x, s, visits)[p] == KeyOf(x, s[k])
      && VisitedKeys(policy, y, t, visits)[p] == KeyOf(y, t[k])
  {
    p := 0;
    if visits != [] {
      var n := |visits| - 1;
      assert visits == visits[..n] + [visits[n]];
      p := VisitedAlike(policy, x, s, y, t, visits[..n], k);
      if visits[n] == k && IsTokenized(policy, s[k]) {
        p := |VisitedKeys(policy, x, s, visits[..n])|;
      }
    }
  }

  lemma KeysAlike(policy: PolicyMap, m: Message, n: Message, k: nat) returns (p: nat)
    requires WellFormed(policy, m) && WellFormed(policy, n) && Alike(policy, m, n)
    ensures |KeysOf(policy, m)| == |KeysOf(policy, n)|
    ensures k < |m.spans| && IsTokenized(policy, m.spans[k]) ==>
      && p < |KeysOf(policy, m)|
      && KeysOf(policy, m)[p] == KeyOf(m.text, m.spans[k])
      && KeysOf(policy, n)[p] == KeyOf(n.text, n.spans[k])
  {
    hide Gaps;
    p := VisitedAlike(policy, m.text, m.spans, n.text, n.spans, m.visits, k);
  }

  /** Call number `p` of both requests mints span `k` of message `i`. */
  ghost predicate MintsAt(policy: PolicyMap, messages: seq<Message>, p: nat, i: nat, k: nat)
    requires AllWellFormed(policy, messages) && i < |messages| && k < |messages[i].spans|
  {
    p < |RequestKeys(policy, messages)|
    && RequestKeys(policy, messages)[p] == KeyOf(messages[i].text, messages[i].spans[k])
  }

  lemma LastMessages(policy: PolicyMap, a: seq<Message>, b: seq<Message>)
    requires AllWellFormed(policy, a) && AllWellFormed(policy, b) && AllAlike(policy, a, b) && a != []
    ensures var n := |a| - 1;
            && |b| == n + 1 && AllWellFormed(policy, a[..n]) && AllWellFormed(policy, b[..n])
            && AllAlike(policy, a[..n], b[..n])
            && WellFormed(policy, a[n]) && WellFormed(policy, b[n]) && Alike(policy, a[n], b[n])
            && |a[n].spans| == |b[n].spans|
            && RequestKeys(policy, a) == RequestKeys(policy, a[..n]) + KeysOf(policy, a[n])
            && RequestKeys(policy, b) == RequestKeys(policy, b[..n]) + KeysOf(policy, b[n])
  {
    var n := |a| - 1;
    hide WellFormed, KeysOf, Gaps;
    forall i | 0 <= i < n ensures Alike(policy, a[..n][i], b[..n][i]) {
      assert Alike(policy, a[i], b[i]);
    }
    assert Alike(policy, a[n], b[n]);
  }

  lemma {:induction false} RequestAlike(policy: PolicyMap, a: seq<Message>, b: seq<Message>, i: nat, k: nat) returns (p: nat)
    requires AllWellFormed(policy, a) && AllWellFormed(policy, b) && AllAlike(policy, a, b)
    ensures |RequestKeys(policy, a)| == |RequestKeys(policy, b)|
    ensures i < |a| && k < |a[i].spans| && IsTokenized(policy, a[i].spans[k]) ==>
      k < |b[i].spans| && MintsAt(policy, a, p, i, k) && MintsAt(policy, b, p, i, k)
  {
    hide KeysOf, WellFormed, RequestKeys, Alike, AllAlike, AllWellFormed;
    p := 0;
    if a == [] {
      NoMessages(policy, a, b);
    } else {
      var n := |a| - 1;
      LastMessages(policy, a, b);
      p := RequestAlike(policy, a[..n], b[..n], i, k);
      var q := KeysAlike(policy, a[n], b[n], k);
      if i == n {
        p := |RequestKeys(policy, a[..n])| + q;
      }
    }
  }

  lemma NoMessages(policy: PolicyMap, a: seq<Message>, b: seq<Message>)
    requires AllWellFormed(policy, a) && AllWellFormed(policy, b) && AllAlike(policy, a, b) && a == []
    ensures b == [] && RequestKeys(policy, a) == [] && RequestKeys(policy, b) == []
  {
  }

  /** Non-interference: two requests that agree outside their tokenized and redacted spans,
      and whose tokenized values show the same pattern of equality over all messages, are
      sanitized to the same texts. */
  lemma NonInterference(policy: PolicyMap, namespace: string, a: seq<Message>, b: seq<Message>, i: nat)
    requires AllWellFormed(policy, a) && AllWellFormed(policy, b) && AllAlike(policy, a, b) && i < |a|
    requires SamePattern(RequestKeys(policy, a), RequestKeys(policy, b))
    ensures SanitizedMessage(policy, FinalRegistry(namespace, policy, a), a[i])
         == SanitizedMessage(policy, FinalRegistry(namespace, policy, b), b[i])
    ensures a[i].role == b[i].role
  {
    var ra, rb := FinalRegistry(namespace, policy, a), FinalRegistry(namespace, policy, b);
    var s, t := a[i].spans, b[i].spans;
    PatternGivesTokens(namespace, RequestKeys(policy, a), RequestKeys(policy, b));
    hide MintAll, RequestKeys, Gaps, Weave, Marker, SamePattern;
    assert Alike(policy, a[i], b[i]);
    var p, q := Replacements(policy, ra, a[i].text, s), Replacements(policy, rb, b[i].text, t);
    forall k | 0 <= k < |s| ensures p[k] == q[k] {
      var c := RequestAlike(policy, a, b, i, k);
    }
    assert p == q;
  }

  // ---------- Reading the pattern back from what is sent ----------

  /** The same call mints a tokenized span in both requests. */
  lemma {:induction false} VisitOrigin(policy: PolicyMap, x: string, s: seq<Detection>, y: string, t: seq<Detection>,
                                       visits: seq<nat>, p: nat) returns (k: nat)
    requires Disjoint(x, s) && Disjoint(y, t) && |s| == |t|
    requires forall v :: 0 <= v < |visits| ==> visits[v] < |s|
    requires forall j :: 0 <= j < |s| ==> s[j].entityType == t[j].entityType
    requires p < |VisitedKeys(policy, x, s, visits)|
    ensures |VisitedKeys(policy, x, s, visits)| == |VisitedKeys(policy, y, t, visits)|
    ensures k < |s| && IsTokenized(policy, s[k])
    ensures VisitedKeys(policy, x, s, visits)[p] == KeyOf(x, s[k])
    ensures VisitedKeys(policy, y, t, visits)[p] == KeyOf(y, t[k])
  {
    var n := |visits| - 1;
    k := visits[n];
    var _ := VisitedAlike(policy, x, s, y, t, visits[..n], k);
    if p < |VisitedKeys(policy, x, s, visits[..n])| {
      k := VisitOrigin(policy, x, s, y, t, visits[..n], p);
    }
  }

  lemma KeyOrigin(policy: PolicyMap, m: Message, n: Message, p: nat) returns (k: nat)
    requires WellFormed(policy, m) && WellFormed(policy, n) && Alike(policy, m, n) && p < |KeysOf(policy, m)|
    ensures |KeysOf(policy, m)| == |KeysOf(policy, n)|
    ensures k < |m.spans| == |n.spans| && IsTokenized(policy, m.spans[k])
    ensures KeysOf(policy, m)[p] == KeyOf(m.text, m.spans[k])
    ensures KeysOf(policy, n)[p] == KeyOf(n.text, n.spans[k])
  {
    hide Gaps;
    k := VisitOrigin(policy, m.text, m.spans, n.text, n.spans, m.visits, p);
  }

  lemma {:induction false} RequestOrigin(policy: PolicyMap, a: seq<Message>, b: seq<Message>, p: nat)
    returns (i: nat, k: nat)
    requires AllWellFormed(policy, a) && AllWellFormed(policy, b) && AllAlike(policy, a, b)
    requires p < |RequestKeys(policy, a)|
    ensures i < |a| == |b| && k < |a[i].spans| == |b[i].spans| && IsTokenized(policy, a[i].spans[k])
    ensures MintsAt(policy, a, p, i, k) && MintsAt(policy, b, p, i, k)
  {
    hide KeysOf, WellFormed, RequestKeys, Alike, AllAlike, AllWellFormed;
    if a == [] {
      NoMessages(policy, a, b);
    }
    var n := |a| - 1;
    LastMessages(policy, a, b);
    var _ := RequestAlike(policy, a[..n], b[..n], 0, 0);
    if p < |RequestKeys(policy, a[..n])| {
      i, k := RequestOrigin(policy, a[..n], b[..n], p);
    } else {
      i := n;
      k := KeyOrigin(policy, a[n], b[n], p - |RequestKeys(policy, a[..n])|);
    }
  }

  /** The same marker, or tokens of the same type. */
  ghost predicate SameKind(namespace: string, p: string, q: string) {
    p == q || exists t, x, y :: p == Token(namespace, t, x) && q == Token(namespace, t, y)
  }

  /** A token of known type ends at the first bracket after its number. */
  lemma TokenCancels(namespace: string, t: string, x: nat, y: nat, u: string, v: string)
    requires |namespace| == 8 && Token(namespace, t, x) + u == Token(namespace, t, y) + v
    ensures x == y && u == v
  {
    var head := OPENING + namespace + "_" + t + "_";
    DigitsOf(x);
    DigitsOf(y);
    assert Token(namespace, t, x) + u == head + (Dec(x) + "]" + ("]" + u));
    assert Token(namespace, t, y) + v == head + (Dec(y) + "]" + ("]" + v));
    hide Token;
    Cancel(head, Dec(x) + "]" + ("]" + u), Dec(y) + "]" + ("]" + v));
    SplitAtFirst(']', Dec(x), "]" + u, Dec(y), "]" + v);
    DecInjective(x, y);
    Cancel("]", u, v);
  }

  lemma PieceCancels(namespace: string, p: string, q: string, u: string, v: string)
    requires |namespace| == 8 && SameKind(namespace, p, q) && p + u == q + v
    ensures p == q && u == v
  {
    if p == q {
      Cancel(p, u, v);
    } else {
      hide Token;
      var t, x, y :| p == Token(namespace, t, x) && q == Token(namespace, t, y);
      TokenCancels(namespace, t, x, y, u, v);
    }
  }

  /** Between the same gaps, pieces of the same kinds can be told from the whole text. */
  lemma {:induction false} PiecesFromText(namespace: string, gaps: seq<string>, p: seq<string>, q: seq<string>)
    requires |namespace| == 8 && |gaps| == |p| + 1 && |p| == |q|
    requires forall k :: 0 <= k < |p| ==> SameKind(namespace, p[k], q[k])
    requires Weave(gaps, p) == Weave(gaps, q)
    ensures p == q
    decreases |p|
  {
    hide SameKind;
    if p != [] {
      var u, v := Weave(gaps[1..], p[1..]), Weave(gaps[1..], q[1..]);
      Cancel(gaps[0], p[0] + u, q[0] + v);
      PieceCancels(namespace, p[0], q[0], u, v);
      PiecesFromText(namespace, gaps[1..], p[1..], q[1..]);
      assert p == [p[0]] + p[1..] && q == [q[0]] + q[1..];
    }
  }

  lemma MintedToken(namespace: string, keys: seq<Key>, key: Key) returns (n: nat)
    requires |namespace| == 8 && key in keys
    ensures var r := MintAll(Fresh(namespace), keys);
            key in r.valueToToken && r.valueToToken[key] == Token(namespace, key.entityType, n)
  {
    MintingIsBijective(namespace, keys);
    MintAllHolds(namespace, keys);
    MintKeepsNamespace(Fresh(namespace), keys);
    hide MintAll, Distinct, Tally, Token, Holds;
    var i := HeldToken(MintAll(Fresh(namespace), keys), Distinct(keys), key);
    n := Tally(Distinct(keys)[..i + 1], key.entityType);
  }

  lemma ReplacementsAlike(policy: PolicyMap, namespace: string, a: seq<Message>, b: seq<Message>, i: nat, k: nat)
    requires AllWellFormed(policy, a) && AllWellFormed(policy, b) && AllAlike(policy, a, b)
    requires |namespace| == 8 && i < |a| && k < |a[i].spans| == |b[i].spans|
    ensures SameKind(namespace, Replacement(policy, FinalRegistry(namespace, policy, a), a[i].text, a[i].spans[k]),
                     Replacement(policy, FinalRegistry(namespace, policy, b), b[i].text, b[i].spans[k]))
  {
    assert Alike(policy, a[i], b[i]);
    hide MintAll, RequestKeys, Gaps, Marker, Token, AllAlike;
    if IsTokenized(policy, a[i].spans[k]) {
      var p := RequestAlike(policy, a, b, i, k);
      var x := MintedToken(namespace, RequestKeys(policy, a), RequestKeys(policy, a)[p]);
      var y := MintedToken(namespace, RequestKeys(policy, b), RequestKeys(policy, b)[p]);
      assert Token(namespace, a[i].spans[k].entityType, y) == Token(namespace, b[i].spans[k].entityType, y);
    }
  }

  /** Alike messages with the same sanitized text have the same replacements. */
  lemma SameTextSamePieces(policy: PolicyMap, namespace: string, a: seq<Message>, b: seq<Message>, i: nat, k: nat)
    requires AllWellFormed(policy, a) && AllWellFormed(policy, b) && AllAlike(policy, a, b)
    requires |namespace| == 8 && i < |a| && k < |a[i].spans| == |b[i].spans|
    requires SanitizedMessage(policy, FinalRegistry(namespace, policy, a), a[i])
          == SanitizedMessage(policy, FinalRegistry(namespace, policy, b), b[i])
    ensures Replacement(policy, FinalRegistry(namespace, policy, a), a[i].text, a[i].spans[k])
         == Replacement(policy, FinalRegistry(namespace, policy, b), b[i].text, b[i].spans[k])
  {
    var ra, rb := FinalRegistry(namespace, policy, a), FinalRegistry(namespace, policy, b);
    assert Alike(policy, a[i], b[i]);
    hide FinalRegistry, Gaps, Weave, Replacement, AllAlike, SameKind;
    var p, q := Replacements(policy, ra, a[i].text, a[i].spans), Replacements(policy, rb, b[i].text, b[i].spans);
    forall j | 0 <= j < |p| ensures SameKind(namespace, p[j], q[j]) {
      ReplacementsAlike(policy, namespace, a, b, i, j);
    }
    PiecesFromText(namespace, Gaps(a[i].text, a[i].spans, 0), p, q);
    assert p[k] == q[k];
  }

  /** The requests are sanitized to the same texts. */
  ghost predicate SameTexts(policy: PolicyMap, namespace: string, a: seq<Message>, b: seq<Message>)
    requires AllWellFormed(policy, a) && AllWellFormed(policy, b)
  {
    |a| == |b| && forall i :: 0 <= i < |a| ==>
      SanitizedMessage(policy, FinalRegistry(namespace, policy, a), a[i])
      == SanitizedMessage(policy, FinalRegistry(namespace, policy, b), b[i])
  }

  lemma SameTextsSameTokens(policy: PolicyMap, namespace: string, a: seq<Message>, b: seq<Message>)
    requires AllWellFormed(policy, a) && AllWellFormed(policy, b) && AllAlike(policy, a, b)
    requires |namespace| == 8 && SameTexts(policy, namespace, a, b)
    ensures SameTokens(FinalRegistry(namespace, policy, a), RequestKeys(policy, a),
                       FinalRegistry(namespace, policy, b), RequestKeys(policy, b))
  {
    var ra, rb := FinalRegistry(namespace, policy, a), FinalRegistry(namespace, policy, b);
    var ka, kb := RequestKeys(policy, a), RequestKeys(policy, b);
    var _ := RequestAlike(policy, a, b, 0, 0);
    hide MintAll, RequestKeys, SanitizedMessage, AllAlike, Token, WellFormed, IsTokenized;
    forall p | 0 <= p < |ka|
      ensures ka[p] in ra.valueToToken && kb[p] in rb.valueToToken
      ensures ra.valueToToken[ka[p]] == rb.valueToToken[kb[p]]
    {
      var _ := MintedToken(namespace, ka, ka[p]);
      var _ := MintedToken(namespace, kb, kb[p]);
      var i, k := RequestOrigin(policy, a, b, p);
      SameTextSamePieces(policy, namespace, a, b, i, k);
      SameTypes(policy, a, b, i, k);
    }
  }

  lemma SameTypes(policy: PolicyMap, a: seq<Message>, b: seq<Message>, i: nat, k: nat)
    requires AllWellFormed(policy, a) && AllWellFormed(policy, b) && AllAlike(policy, a, b)
    requires i < |a| && k < |a[i].spans| == |b[i].spans|
    ensures a[i].spans[k].entityType == b[i].spans[k].entityType
  {
    assert Alike(policy, a[i], b[i]);
  }

  /** Of two requests that agree outside their mediated spans, the provider sees the same
      texts exactly when their tokenized values show the same pattern of equality: it learns
      that pattern and nothing else. */
  lemma ProviderSeesThePattern(policy: PolicyMap, namespace: string, a: seq<Message>, b: seq<Message>)
    requires AllWellFormed(policy, a) && AllWellFormed(policy, b) && AllAlike(policy, a, b) && |namespace| == 8
    ensures SameTexts(policy, namespace, a, b) <==> SamePattern(RequestKeys(policy, a), RequestKeys(policy, b))
  {
    hide FinalRegistry, SanitizedMessage, RequestKeys, SamePattern, SameTokens;
    if SamePattern(RequestKeys(policy, a), RequestKeys(policy, b)) {
      forall i | 0 <= i < |a|
        ensures SanitizedMessage(policy, FinalRegistry(namespace, policy, a), a[i])
             == SanitizedMessage(policy, FinalRegistry(namespace, policy, b), b[i])
      {
        NonInterference(policy, namespace, a, b, i);
      }
    }
    if SameTexts(policy, namespace, a, b) {
      SameTextsSameTokens(policy, namespace, a, b);
      TokensRevealOnlyThePattern(namespace, RequestKeys(policy, a), RequestKeys(policy, b));
      assert FinalRegistry(namespace, policy, a) == MintAll(Fresh(namespace), RequestKeys(policy, a)) by {
        RegistryIs(namespace, policy, a);
      }
      assert FinalRegistry(namespace, policy, b) == MintAll(Fresh(namespace), RequestKeys(policy, b)) by {
        RegistryIs(namespace, policy, b);
      }
    }
  }

  lemma RegistryIs(namespace: string, policy: PolicyMap, messages: seq<Message>)
    requires AllWellFormed(policy, messages)
    ensures FinalRegistry(namespace, policy, messages) == MintAll(Fresh(namespace), RequestKeys(policy, messages))
  {
  }
}
