/**
 Rehydration undoes sanitization over a whole request, whatever lookalike tokens or stray
 brackets the messages hold; and exactly when it does so for arbitrary policies.
 */
module RoundTrip {
  import opened Wrappers
  import opened Text
  import opened Tokens
  import opened Tokenization
  import opened Policy
  import opened Mediator
  import opened RequestModel

  lemma TokenIsWalled(namespace: string, t: string, n: nat)
    requires |namespace| == 8
    ensures IsWalled(Token(namespace, t, n)) && OPENING + namespace <= Token(namespace, t, n)
  {
    var s := Token(namespace, t, n);
    TokenParts(namespace, t, n);
    assert s[0] == s[..6][0] && s[1] == s[..6][1];
    assert s[|s| - 2] == s[|s| - 2..][0] && s[|s| - 1] == s[|s| - 2..][1];
    assert s[..14] == s[..6] + s[6..14];
  }

  /** The token of a minted key: it is looked up as the key's value, and it matches the
      pattern exactly when the key's type is a name. */
  lemma MintedKey(namespace: string, keys: seq<Key>, key: Key) returns (number: nat)
    requires IsNamespace(namespace) && key in keys
    ensures var r := MintAll(Fresh(namespace), keys);
            key in r.valueToToken && r.valueToToken[key] == Token(namespace, key.entityType, number)
            && (IsToken(r.valueToToken[key]) <==> IsEntityType(key.entityType))
            && Lookup(r.tokenToValue, r.valueToToken[key]) == key.value
  {
    var r := MintAll(Fresh(namespace), keys);
    MintingIsBijective(namespace, keys);
    MintAllHolds(namespace, keys);
    MintKeepsNamespace(Fresh(namespace), keys);
    hide MintAll, Distinct, Tally, Token, IsToken, Holds, IsEntityType;
    var i := HeldToken(r, Distinct(keys), key);
    number := Tally(Distinct(keys)[..i + 1], key.entityType);
    TokenMatches(namespace, key.entityType, number);
  }

  /** Every token of the context begins with the opening and its namespace. */
  lemma MintedOpenWith(namespace: string, keys: seq<Key>)
    requires |namespace| == 8
    ensures AllOpenWith(MintAll(Fresh(namespace), keys).tokenToValue, namespace)
  {
    var r, d := MintAll(Fresh(namespace), keys), Distinct(keys);
    MintAllHolds(namespace, keys);
    MintKeepsNamespace(Fresh(namespace), keys);
    hide MintAll, Distinct, Tally, Token, HoldsKeys, HoldsCounts;
    forall token | token in r.tokenToValue ensures OPENING + namespace <= token {
      var k :| 0 <= k < |d| && token == TokenAt(namespace, d, k);
      TokenIsWalled(namespace, d[k].entityType, Tally(d[..k + 1], d[k].entityType));
    }
  }

  lemma MintedCarriesNamespace(values: map<string, string>, namespace: string, text: string, i: int, e: int)
    requires |namespace| == 8 && AllOpenWith(values, namespace) && Minted(values, text, i, e)
    ensures Contains(text, namespace)
  {
    hide IsToken;
    OccurrenceShape(text, i, e);
    var token := text[i..e];
    assert OPENING + namespace <= token;
    assert token[6..14] == token[..14][6..14] == namespace;
    SliceOfSlice(text, i, e, 6, 14);
    assert OccursAt(text, i + 6, namespace);
  }

  /** None of them occurs in a text without the namespace. */
  lemma NothingMintedWithout(values: map<string, string>, namespace: string, text: string)
    requires |namespace| == 8 && AllOpenWith(values, namespace) && !Contains(text, namespace)
    ensures Substitute(values, text) == text
  {
    hide IsToken, AllOpenWith, Contains;
    forall i, e ensures !Minted(values, text, i, e) {
      if Minted(values, text, i, e) {
        MintedCarriesNamespace(values, namespace, text, i, e);
        assert false;
      }
    }
    NothingToSubstitute(values, text);
  }

  lemma GapsUntouched(values: map<string, string>, namespace: string, text: string, spans: seq<Detection>)
    requires |namespace| == 8 && AllOpenWith(values, namespace)
    requires Disjoint(text, spans) && !Contains(text, namespace)
    ensures SubstituteEach(values, Gaps(text, spans, 0)) == Gaps(text, spans, 0)
  {
    hide Contains, AllOpenWith, Substitute;
    var gaps := Gaps(text, spans, 0);
    forall k | 0 <= k < |gaps| ensures Substitute(values, gaps[k]) == gaps[k] {
      var lo, hi := GapIsSlice(text, spans, 0, k);
      if Contains(gaps[k], namespace) {
        ContainsWithin(text, lo, hi, namespace);
      }
      NothingMintedWithout(values, namespace, gaps[k]);
    }
  }

  // ---------- Tokens of types that are not names ----------

  /** The type begins as the last part of a token does: `[A-Z][A-Z0-9_]*_[0-9]+\]\]` */
  predicate BeginsAsToken(t: string) {
    exists e :: 2 <= e <= |t| && EndsTokenAt(t, e)
  }

  predicate EndsTokenAt(t: string, e: nat)
    requires 2 <= e <= |t|
  {
    t[e - 2..e] == CLOSING && IsBody(t[..e - 2])
  }

  /** What brackets and separators a token has after its type. */
  lemma TokenTail(namespace: string, t: string, n: nat)
    requires |namespace| == 8
    ensures var s := Token(namespace, t, n);
            && |s| == 15 + |t| + 1 + |Dec(n)| + 2 && s[15..15 + |t|] == t && s[15 + |t|] == '_'
            && (forall j :: 15 + |t| < j < |s| - 2 ==> IsDigit(s[j]))
            && 15 + |t| + 1 < |s| - 2
  {
    var s := Token(namespace, t, n);
    TokenParts(namespace, t, n);
    DigitsOf(n);
    hide Dec;
    var tail := t + "_" + Dec(n);
    assert s[15..|s| - 2] == tail;
    assert forall j :: 15 <= j < |s| - 2 ==> s[j] == tail[j - 15];
    assert s[15..15 + |t|] == tail[..|t|] == t;
  }

  /** A minted token inside a token of another type begins where that begins, and ends
      inside its type. */
  lemma TokenInToken(namespace: string, t: string, n: nat, i: int, e: int)
    requires IsNamespace(namespace) && !IsEntityType(t) && IsForeign(namespace, t)
    requires Occurs(Token(namespace, t, n), i, e) && OPENING + namespace <= Token(namespace, t, n)[i..e]
    ensures BeginsAsToken(t)
  {
    var s := Token(namespace, t, n);
    NamespaceLength(namespace);
    TokenTail(namespace, t, n);
    TokenIsWalled(namespace, t, n);
    OpeningAt(namespace, t, n, i, e);
    hide Token, IsNamespace, IsForeign, Dec, AllDigits, IsEntityType, IsBody;
    InnerTokenEnds(namespace, t, n, e);
    assert s[15..e - 2] == t[..e - 17] by {
      SliceOfSlice(s, 15, 15 + |t|, 0, e - 17);
    }
    assert t[e - 17..e - 15] == s[e - 2..e] by {
      SliceOfSlice(s, 15, 15 + |t|, e - 17, e - 15);
    }
    assert EndsTokenAt(t, e - 15) by {
      BodyOfToken(s[..e]);
      assert s[0..e] == s[..e];
      SliceOfSlice(s, 0, e, 15, e - 2);
      SliceOfSlice(s, 0, e, e - 2, e);
    }
  }

  lemma BodyOfToken(s: string)
    requires IsToken(s)
    ensures 17 < |s| && IsBody(s[15..|s| - 2]) && s[|s| - 2..] == CLOSING
  {
  }

  /** Where two opening brackets, and a separator behind a namespace, can stand in a token
      whose type takes up positions 15 to `end`. */
  lemma OpeningPlace(s: string, end: nat, i: nat)
    requires 15 <= end < |s| - 2 && i + 14 < |s|
    requires forall j :: 2 <= j < 15 ==> s[j] != '['
    requires s[end] == '_' && (forall j :: end < j < |s| - 2 ==> IsDigit(s[j]))
    requires s[|s| - 2] == ']' && s[|s| - 1] == ']'
    requires s[i] == '[' && s[i + 1] == '[' && s[i + 14] == '_'
    ensures i == 0 || (15 <= i && i + 14 <= end)
  {
  }

  lemma TokenFront(namespace: string, t: string, n: nat)
    requires IsNamespace(namespace) && |namespace| == 8
    ensures 17 < |Token(namespace, t, n)|
    ensures forall j :: 2 <= j < 15 ==> Token(namespace, t, n)[j] != '['
  {
    var s := Token(namespace, t, n);
    TokenParts(namespace, t, n);
    hide Token;
    forall j | 2 <= j < 15 ensures s[j] != '[' {
      if j < 6 {
        assert s[j] == s[..6][j];
      } else if j < 14 {
        assert s[j] == s[6..14][j - 6];
        assert IsUpperHex(namespace[j - 6]);
      }
    }
  }

  lemma WordInType(namespace: string, t: string, n: nat, i: nat, e: nat)
    requires |namespace| == 8 && 15 <= i && i + 14 <= 15 + |t|
    requires i <= e <= |Token(namespace, t, n)| && OPENING + namespace <= Token(namespace, t, n)[i..e]
    ensures !IsForeign(namespace, t)
  {
    var s, word := Token(namespace, t, n), OPENING + namespace;
    TokenTail(namespace, t, n);
    hide Token, Dec, IsForeign;
    SliceOfSlice(s, 15, 15 + |t|, i - 15, i - 1);
    SliceOfSlice(s, i, e, 0, 14);
    assert t[i - 15..i - 1] == s[i..i + 14] == word;
    ContainsWord(namespace, t, i - 15);
  }

  /** A token of the context inside a token of another type begins where that begins. */
  lemma OpeningAt(namespace: string, t: string, n: nat, i: int, e: int)
    requires IsNamespace(namespace) && |namespace| == 8 && IsForeign(namespace, t)
    requires Occurs(Token(namespace, t, n), i, e) && OPENING + namespace <= Token(namespace, t, n)[i..e]
    ensures i == 0
  {
    var s := Token(namespace, t, n);
    TokenSeparator(s[i..e]);
    OccurrenceShape(s, i, e);
    TokenTail(namespace, t, n);
    TokenFront(namespace, t, n);
    TokenIsWalled(namespace, t, n);
    hide Token, IsToken, Dec, IsForeign, IsNamespace;
    assert s[i + 14] == s[i..e][14];
    OpeningPlace(s, 15 + |t|, i);
    if i > 0 {
      WordInType(namespace, t, n, i, e);
    }
  }

  lemma ContainsWord(namespace: string, t: string, i: nat)
    requires OccursAt(t, i, OPENING + namespace)
    ensures !IsForeign(namespace, t)
  {
  }

  lemma TokenSeparator(s: string)
    requires IsToken(s)
    ensures 17 < |s| && s[14] == '_'
  {
  }

  lemma InnerTokenEnds(namespace: string, t: string, n: nat, e: int)
    requires IsNamespace(namespace) && |namespace| == 8 && !IsEntityType(t)
    requires Occurs(Token(namespace, t, n), 0, e)
    ensures 17 < e <= 15 + |t|
  {
    var s := Token(namespace, t, n);
    TokenTail(namespace, t, n);
    OccurrenceShape(s, 0, e);
    hide Token, IsToken, IsEntityType, Dec, IsNamespace;
    if e == |s| {
      assert s[0..e] == s;
      TokenMatches(namespace, t, n);
      assert false;
    }
  }

  /** A type whose tokens cannot be mistaken for, or hold, a token of the context. */
  predicate IsTellable(namespace: string, t: string) {
    IsForeign(namespace, t) && !BeginsAsToken(t)
  }

  lemma NamesAreTellable(namespace: string, t: string)
    requires IsEntityType(t)
    ensures IsTellable(namespace, t)
  {
    assert forall i :: 0 <= i < |t| ==> IsTypeChar(t[i]);
    PlainIsForeign(namespace, t);
    PlainIsTellable(t);
  }

  lemma TokenEndHasBracket(t: string)
    requires BeginsAsToken(t)
    ensures ']' in t
  {
    hide IsBody;
    var e :| 2 <= e <= |t| && EndsTokenAt(t, e);
    assert t[e - 2] == t[e - 2..e][0] == ']';
  }

  lemma PlainIsTellable(t: string)
    requires ']' !in t
    ensures !BeginsAsToken(t)
  {
    hide BeginsAsToken;
    if BeginsAsToken(t) {
      TokenEndHasBracket(t);
      assert false;
    }
  }

  /** A token of a type that is not a name is left as it is. */
  lemma OtherTokenStays(values: map<string, string>, namespace: string, t: string, n: nat)
    requires IsNamespace(namespace) && AllOpenWith(values, namespace) && !IsEntityType(t) && IsTellable(namespace, t)
    ensures Substitute(values, Token(namespace, t, n)) == Token(namespace, t, n)
  {
    var s := Token(namespace, t, n);
    hide Token, IsToken, IsEntityType, IsForeign, BeginsAsToken;
    forall i, e ensures !Minted(values, s, i, e) {
      if Minted(values, s, i, e) {
        assert OPENING + namespace <= s[i..e];
        NamespaceLength(namespace);
        TokenIsWalled(namespace, t, n);
        TokenInToken(namespace, t, n, i, e);
        assert false;
      }
    }
    NothingToSubstitute(values, s);
  }

  // ---------- What comes back ----------

  /** The types of the message's spans are such that its tokens and markers can be told from
      what surrounds them. All types that are names are, and all that hold no brackets. */
  predicate Tellable(policy: PolicyMap, namespace: string, m: Message) {
    forall k :: 0 <= k < |m.spans| ==>
      if IsTokenized(policy, m.spans[k]) then IsTellable(namespace, m.spans[k].entityType)
      else IsForeign(namespace, m.spans[k].entityType)
  }

  /** What a replacement becomes on the way back. */
  function Returned(policy: PolicyMap, r: Registry, text: string, d: Detection): string
    requires d.start <= d.end <= |text|
  {
    if IsTokenized(policy, d) && IsEntityType(d.entityType) then Value(text, d) else Replacement(policy, r, text, d)
  }

  function ReturnedPieces(policy: PolicyMap, r: Registry, m: Message): (pieces: seq<string>)
    requires Disjoint(m.text, m.spans)
    ensures |pieces| == |m.spans|
  {
    seq(|m.spans|, i requires 0 <= i < |m.spans| => Returned(policy, r, m.text, m.spans[i]))
  }

  /** A replacement is a token or a marker; a token of a named type gives back its value. */
  lemma PieceReturns(policy: PolicyMap, namespace: string, keys: seq<Key>, m: Message, k: nat)
    requires WellFormed(policy, m) && Tellable(policy, namespace, m) && IsNamespace(namespace) && k < |m.spans|
    requires forall key :: key in KeysOf(policy, m) ==> key in keys
    ensures var r := MintAll(Fresh(namespace), keys);
            var d := m.spans[k];
            var piece := Replacement(policy, r, m.text, d);
            && Separates(r.tokenToValue, piece) && Substitute(r.tokenToValue, piece) == Returned(policy, r, m.text, d)
            && (IsTokenized(policy, d) ==> exists n :: piece == Token(namespace, d.entityType, n))
  {
    var d := m.spans[k];
    hide MintAll, IsToken, IsEntityType, Marker, Token, IsForeign, IsTellable, Substitute, IsQuiet, IsNamespace,
         AllOpenWith, IsWalled, IsMarkerShaped;
    NamespaceLength(namespace);
    MintedOpenWith(namespace, keys);
    var values := MintAll(Fresh(namespace), keys).tokenToValue;
    if IsTokenized(policy, d) {
      VisitedHas(policy, m.text, m.spans, m.visits, k);
      var n := MintedKey(namespace, keys, KeyOf(m.text, d));
      TokenIsWalled(namespace, d.entityType, n);
      if IsEntityType(d.entityType) {
        SubstituteToken(values, Token(namespace, d.entityType, n));
      } else {
        OtherTokenStays(values, namespace, d.entityType, n);
      }
    } else {
      MarkerSeparates(values, namespace, d.entityType);
    }
  }

  lemma MessageReturns(policy: PolicyMap, namespace: string, keys: seq<Key>, m: Message)
    requires WellFormed(policy, m) && Tellable(policy, namespace, m) && IsNamespace(namespace)
    requires forall key :: key in KeysOf(policy, m) ==> key in keys
    requires !Contains(m.text, namespace)
    ensures var r := MintAll(Fresh(namespace), keys);
            Substitute(r.tokenToValue, SanitizedMessage(policy, r, m))
            == Weave(Gaps(m.text, m.spans, 0), ReturnedPieces(policy, r, m))
  {
    var r := MintAll(Fresh(namespace), keys);
    var spans := m.spans;
    var pieces := Replacements(policy, r, m.text, spans);
    hide MintAll, Replacement, Separates, Substitute, Weave, Gaps, Returned, Tellable, Contains, AllOpenWith, KeysOf,
         IsNamespace;
    forall k | 0 <= k < |spans|
      ensures Separates(r.tokenToValue, pieces[k])
      ensures Substitute(r.tokenToValue, pieces[k]) == ReturnedPieces(policy, r, m)[k]
    {
      PieceReturns(policy, namespace, keys, m, k);
    }
    SubstituteWeave(r.tokenToValue, Gaps(m.text, spans, 0), pieces);
    NamespaceLength(namespace);
    MintedOpenWith(namespace, keys);
    GapsUntouched(r.tokenToValue, namespace, m.text, spans);
    assert SubstituteEach(r.tokenToValue, pieces) == ReturnedPieces(policy, r, m);
  }

  /** All tokenized spans of the message have types that are names. */
  predicate TokenizesNames(policy: PolicyMap, m: Message) {
    forall k :: 0 <= k < |m.spans| && IsTokenized(policy, m.spans[k]) ==> IsEntityType(m.spans[k].entityType)
  }

  /** No type redacted in the message holds the opening of the context's tokens. */
  predicate RedactsForeign(policy: PolicyMap, namespace: string, m: Message) {
    forall k :: 0 <= k < |m.spans| && !IsTokenized(policy, m.spans[k]) ==> IsForeign(namespace, m.spans[k].entityType)
  }

  /** Rehydrating any sanitized message of the request gives the message back, with only its
      redacted spans replaced by markers; and where nothing is redacted, the message itself. */
  lemma RequestRoundTrip(policy: PolicyMap, namespace: string, messages: seq<Message>, i: nat)
    requires AllWellFormed(policy, messages) && IsNamespace(namespace) && i < |messages|
    requires TokenizesNames(policy, messages[i]) && RedactsForeign(policy, namespace, messages[i])
    requires !Contains(Join(Texts(messages)), namespace)
    ensures var r := FinalRegistry(namespace, policy, messages);
            Substitute(r.tokenToValue, SanitizedMessage(policy, r, messages[i])) == Expected(policy, messages[i])
    ensures (forall k :: 0 <= k < |messages[i].spans| ==> IsTokenized(policy, messages[i].spans[k])) ==>
      Expected(policy, messages[i]) == messages[i].text
  {
    var m := messages[i];
    hide IsEntityType, IsForeign, IsTellable, WellFormed, Contains, Substitute, SanitizedMessage, FinalRegistry,
         Expected, IsNamespace;
    forall k | 0 <= k < |m.spans| && IsTokenized(policy, m.spans[k])
      ensures IsTellable(namespace, m.spans[k].entityType)
    {
      NamesAreTellable(namespace, m.spans[k].entityType);
    }
    assert Tellable(policy, namespace, m);
    RoundTripExactly(policy, namespace, messages, i);
    if forall k :: 0 <= k < |m.spans| ==> IsTokenized(policy, m.spans[k]) {
      NothingRedacted(policy, m);
    }
  }

  /** Without the assumption on names, the round trip of a message holds exactly when every
      type tokenized in it is one: other tokens do not match the pattern and are not restored. */
  lemma RoundTripExactly(policy: PolicyMap, namespace: string, messages: seq<Message>, i: nat)
    requires AllWellFormed(policy, messages) && IsNamespace(namespace) && i < |messages|
    requires Tellable(policy, namespace, messages[i])
    requires !Contains(Join(Texts(messages)), namespace)
    ensures var r := FinalRegistry(namespace, policy, messages);
            Substitute(r.tokenToValue, SanitizedMessage(policy, r, messages[i])) == Expected(policy, messages[i])
            <==> TokenizesNames(policy, messages[i])
  {
    var m := messages[i];
    var keys := RequestKeys(policy, messages);
    var r := MintAll(Fresh(namespace), keys);
    forall key | key in KeysOf(policy, m) ensures key in keys {
      RequestHas(policy, messages, i, key);
    }
    if Contains(m.text, namespace) {
      assert Texts(messages)[i] == m.text;
      JoinContains(Texts(messages), i, namespace);
    }
    hide MintAll, Gaps, Weave, Substitute, IsEntityType, Marker, Token, IsNamespace, KeysOf, RequestKeys, Contains,
         Tellable, Replacement;
    MessageReturns(policy, namespace, keys, m);
    if TokenizesNames(policy, m) {
      assert ReturnedPieces(policy, r, m) == Kept(policy, m);
    } else {
      OtherTypesDoNotReturn(policy, namespace, keys, m);
    }
  }

  /** A message with a tokenized span whose type is not a name does not come back. */
  lemma OtherTypesDoNotReturn(policy: PolicyMap, namespace: string, keys: seq<Key>, m: Message)
    requires WellFormed(policy, m) && Tellable(policy, namespace, m) && IsNamespace(namespace)
    requires forall key :: key in KeysOf(policy, m) ==> key in keys
    requires !Contains(m.text, namespace) && !TokenizesNames(policy, m)
    ensures var r, gaps := MintAll(Fresh(namespace), keys), Gaps(m.text, m.spans, 0);
            Weave(gaps, ReturnedPieces(policy, r, m)) != Weave(gaps, Kept(policy, m))
  {
    hide MintAll, Gaps, Weave, IsEntityType, Marker, Token, KeysOf, Contains, Replacement, Tellable;
    var r := MintAll(Fresh(namespace), keys);
    var p, q := ReturnedPieces(policy, r, m), Kept(policy, m);
    var k :| 0 <= k < |m.spans| && IsTokenized(policy, m.spans[k]) && !IsEntityType(m.spans[k].entityType);
    forall j | 0 <= j < |p|
      ensures p[j] == q[j] || (OPENING + namespace <= p[j] && q[j] == Value(m.text, m.spans[j]))
      ensures q[j] == Value(m.text, m.spans[j]) || IsMarkerLike(q[j])
      ensures j == k ==> OPENING + namespace <= p[j]
    {
      PieceReturns(policy, namespace, keys, m, j);
      PiecesAgree(policy, namespace, r, m, j);
    }
    WovenDiffer(m.text, m.spans, 0, p, q, namespace, k);
  }

  /** A message all of whose text is of the type "email", in a policy that lists it so. */
  const LOWER_CASE_POLICY: PolicyMap := map["email" := Tokenize]
  const LOWER_CASE_SPAN := Detection(0, 3, "email", 1.0)
  const LOWER_CASE_MESSAGE := Message("user", "a@b", [LOWER_CASE_SPAN], [LOWER_CASE_SPAN], [0])

  lemma LowerCaseIsWellFormed()
    ensures Actionable(LOWER_CASE_POLICY, LOWER_CASE_MESSAGE.results) == [LOWER_CASE_SPAN]
    ensures WellFormed(LOWER_CASE_POLICY, LOWER_CASE_MESSAGE)
    ensures !TokenizesNames(LOWER_CASE_POLICY, LOWER_CASE_MESSAGE)
    ensures Tellable(LOWER_CASE_POLICY, "00000000", LOWER_CASE_MESSAGE)
  {
    var d := LOWER_CASE_SPAN;
    assert LOWER_CASE_MESSAGE.results == [d] && [d][..0] == [];
    assert ActionOf(LOWER_CASE_POLICY, d.entityType) == Some(Tokenize);
    assert Actionable(LOWER_CASE_POLICY, [d]) == Actionable(LOWER_CASE_POLICY, []) + [d];
    assert IsTokenized(LOWER_CASE_POLICY, d) && !IsEntityType(d.entityType);
    assert LOWER_CASE_MESSAGE.visits[0] == 0 && LOWER_CASE_MESSAGE.spans[0] == d;
    DisjointResolves("a@b", [d]);
    PlainIsForeign("00000000", "email");
    PlainIsTellable("email");
  }

  /** `load_policy` accepts such a policy, and the message does not come back. */
  lemma LowerCaseTypeIsLost()
    ensures AllWellFormed(LOWER_CASE_POLICY, [LOWER_CASE_MESSAGE])
    ensures var r := FinalRegistry("00000000", LOWER_CASE_POLICY, [LOWER_CASE_MESSAGE]);
            Substitute(r.tokenToValue, SanitizedMessage(LOWER_CASE_POLICY, r, LOWER_CASE_MESSAGE)) != "a@b"
  {
    LowerCaseIsWellFormed();
    var messages := [LOWER_CASE_MESSAGE];
    hide WellFormed, SanitizedMessage, Substitute, FinalRegistry, TokenizesNames, Tellable, Expected;
    assert Join(Texts(messages)) == "a@b";
    assert !Contains("a@b", "00000000");
    RoundTripExactly(LOWER_CASE_POLICY, "00000000", messages, 0);
    assert messages[0] == LOWER_CASE_MESSAGE;
    NothingRedacted(LOWER_CASE_POLICY, LOWER_CASE_MESSAGE);
  }

  predicate IsMarkerLike(s: string) {
    |s| >= 2 && s[0] == '[' && s[1] == 'R'
  }

  lemma PiecesAgree(policy: PolicyMap, namespace: string, r: Registry, m: Message, j: nat)
    requires WellFormed(policy, m) && j < |m.spans|
    requires IsTokenized(policy, m.spans[j]) ==>
      exists n :: Replacement(policy, r, m.text, m.spans[j]) == Token(namespace, m.spans[j].entityType, n)
    ensures var p, q, d := ReturnedPieces(policy, r, m)[j], Kept(policy, m)[j], m.spans[j];
            && (p == q || (OPENING + namespace <= p && q == Value(m.text, d)))
            && (q == Value(m.text, d) || IsMarkerLike(q))
            && (IsTokenized(policy, d) && !IsEntityType(d.entityType) ==> OPENING + namespace <= p)
  {
    hide IsEntityType;
  }

  lemma NotThroughMarker(word: string, gap: string, piece: string, rest: string)
    requires word <= gap + (piece + rest) && IsMarkerLike(piece)
    requires |gap| < |word| && word[|word| - 1] != '['
    ensures |gap| < |word| - 1 && word[|gap|] == '[' && word[|gap| + 1] == 'R'
  {
    var whole := gap + (piece + rest);
    assert word[|gap|] == whole[|gap|] == piece[0];
    if |gap| < |word| - 1 {
      assert word[|gap| + 1] == whole[|gap| + 1] == piece[1];
    }
  }

  lemma PrefixOfSum(word: string, upTo: string, rest: string)
    requires word <= upTo + rest
    ensures |word| <= |upTo| ==> word <= upTo
    ensures |word| > |upTo| ==> upTo <= word && word[|upTo|..] <= rest
  {
    var whole := upTo + rest;
    assert word == whole[..|word|];
    if |word| > |upTo| {
      assert word[|upTo|..] == rest[..|word| - |upTo|];
    } else {
      assert word == upTo[..|word|];
    }
  }

  /** A word that reaches over no marker and occurs at the start of the kept text occurs in
      the original text. */
  lemma {:induction false} WordIsOriginal(text: string, spans: seq<Detection>, from: nat, kept: seq<string>, word: string)
    requires Follow(text, spans, from) && |kept| == |spans|
    requires forall k :: 0 <= k < |spans| ==> kept[k] == Value(text, spans[k]) || IsMarkerLike(kept[k])
    requires word != [] && word[|word| - 1] != '['
    requires forall i :: 0 <= i < |word| - 1 ==> !(word[i] == '[' && word[i + 1] == 'R')
    requires word <= Weave(Gaps(text, spans, from), kept)
    ensures word <= text[from..]
    decreases |spans|
  {
    hide Weave, Gaps;
    if spans == [] {
      WeaveNothing(text, from, kept);
    } else {
      var d := spans[0];
      var gap := text[from..d.start];
      WeaveStep(text, spans, kept, from);
      var rest := Weave(Gaps(text, spans[1..], d.end), kept[1..]);
      assert text[from..] == gap + text[d.start..];
      if |word| <= |gap| {
        PrefixOfSum(word, gap, kept[0] + rest);
      } else {
        if IsMarkerLike(kept[0]) {
          NotThroughMarker(word, gap, kept[0], rest);
        }
        assert kept[0] == Value(text, d);
        var upTo := gap + kept[0];
        assert upTo == text[from..d.end] && text[from..] == upTo + text[d.end..];
        assert gap + (kept[0] + rest) == upTo + rest;
        PrefixOfSum(word, upTo, rest);
        if |word| > |upTo| {
          var tail := word[|upTo|..];
          WordIsOriginal(text, spans[1..], d.end, kept[1..], tail);
          assert word == upTo + tail;
        }
      }
    }
  }

  /** Where a value is replaced by something beginning with the opening of a token of this
      context, the text is not the same, since the namespace does not occur in it. */
  lemma {:induction false} WovenDiffer(text: string, spans: seq<Detection>, from: nat, p: seq<string>, q: seq<string>,
                                       namespace: string, k: nat)
    requires Follow(text, spans, from) && |p| == |q| == |spans| && k < |spans|
    requires |namespace| == 8 && forall i :: 0 <= i < 8 ==> namespace[i] != '['
    requires !Contains(text, namespace)
    requires forall j :: 0 <= j < |p| ==> p[j] == q[j] || (OPENING + namespace <= p[j] && q[j] == Value(text, spans[j]))
    requires forall j :: 0 <= j < |p| ==> q[j] == Value(text, spans[j]) || IsMarkerLike(q[j])
    requires OPENING + namespace <= p[k]
    ensures Weave(Gaps(text, spans, from), p) != Weave(Gaps(text, spans, from), q)
    decreases |spans|
  {
    var d := spans[0];
    var word := OPENING + namespace;
    var gap, gaps := text[from..d.start], Gaps(text, spans[1..], d.end);
    assert Gaps(text, spans, from)[1..] == gaps;
    var x, y := Weave(gaps, p[1..]), Weave(gaps, q[1..]);
    assert Weave(Gaps(text, spans, from), p) == gap + (p[0] + x);
    assert Weave(Gaps(text, spans, from), q) == gap + (q[0] + y);
    OpeningIsForeign(text, spans, q, namespace);
    if !(word <= p[0]) {
      WovenDiffer(text, spans[1..], d.end, p[1..], q[1..], namespace, k - 1);
    }
    hide Weave, Gaps;
    assert word <= p[0] ==> word <= p[0] + x;
    if gap + (p[0] + x) == gap + (q[0] + y) {
      Cancel(gap, p[0] + x, q[0] + y);
      if p[0] == q[0] {
        Cancel(p[0], x, y);
      }
      assert false;
    }
  }

  lemma OpeningWord(namespace: string)
    requires |namespace| == 8 && forall i :: 0 <= i < 8 ==> namespace[i] != '['
    ensures var word := OPENING + namespace;
            word != [] && word[|word| - 1] != '['
            && forall i :: 0 <= i < |word| - 1 ==> !(word[i] == '[' && word[i + 1] == 'R')
  {
  }

  lemma OpeningIsForeign(text: string, spans: seq<Detection>, q: seq<string>, namespace: string)
    requires Disjoint(text, spans) && |q| == |spans| > 0
    requires |namespace| == 8 && forall i :: 0 <= i < 8 ==> namespace[i] != '['
    requires !Contains(text, namespace)
    requires forall j :: 0 <= j < |q| ==> q[j] == Value(text, spans[j]) || IsMarkerLike(q[j])
    ensures Follow(text, spans[1..], spans[0].end)
    ensures !(OPENING + namespace <= q[0] + Weave(Gaps(text, spans[1..], spans[0].end), q[1..]))
  {
    var d := spans[0];
    var word := OPENING + namespace;
    var gaps := Gaps(text, spans, d.start);
    assert gaps[0] == "" && gaps[1..] == Gaps(text, spans[1..], d.end);
    var rest := q[0] + Weave(gaps[1..], q[1..]);
    assert Weave(gaps, q) == gaps[0] + rest == rest;
    hide Weave, Gaps, Contains, IsMarkerLike;
    OpeningWord(namespace);
    if word <= rest {
      WordIsOriginal(text, spans, d.start, q, word);
      WordContains(text, d.start, namespace);
      assert false;
    }
  }

  lemma WordContains(text: string, from: nat, namespace: string)
    requires from <= |text| && OPENING + namespace <= text[from..]
    ensures Contains(text, namespace)
  {
    var word := OPENING + namespace;
    assert word == text[from..][..|word|];
    assert namespace == word[6..];
    assert OccursAt(text, from + 6, namespace) by {
      assert from + 6 + |namespace| <= |text|;
      forall i | 0 <= i < |namespace| ensures text[from + 6 + i] == namespace[i] {
        assert word[6 + i] == text[from..][6 + i];
      }
      assert text[from + 6..from + 6 + |namespace|] == namespace;
    }
  }

  lemma NothingRedacted(policy: PolicyMap, m: Message)
    requires WellFormed(policy, m)
    requires forall k :: 0 <= k < |m.spans| ==> IsTokenized(policy, m.spans[k])
    ensures Expected(policy, m) == m.text
  {
    var spans := m.spans;
    assert Kept(policy, m) == Values(m.text, spans);
    WeaveValues(m.text, spans, 0);
    assert m.text[0..] == m.text;
  }
}
