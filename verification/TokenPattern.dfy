/**
 The token pattern as the regular expression it is written as, and that the recognizer of
 tokens accepts exactly the texts it matches as a whole.
 */
module TokenPattern {
  import opened Text
  import opened Tokens

  /** Regular expressions over character ranges. */
  datatype Regex =
    | Literal(text: string)
    | OneOf(ranges: seq<(char, char)>)
    | Then(first: Regex, rest: Regex)
    | Star(each: Regex)

  predicate InRanges(ranges: seq<(char, char)>, ch: char) {
    exists k :: 0 <= k < |ranges| && ranges[k].0 <= ch <= ranges[k].1
  }

  /** The whole text matches. */
  predicate Matches(r: Regex, s: string)
    decreases r, |s|
  {
    match r
    case Literal(text) => s == text
    case OneOf(ranges) => |s| == 1 && InRanges(ranges, s[0])
    case Then(first, rest) => exists i :: 0 <= i <= |s| && Matches(first, s[..i]) && Matches(rest, s[i..])
    case Star(each) => s == [] || exists i :: 0 < i <= |s| && Matches(each, s[..i]) && Matches(r, s[i..])
  }

  /** `r{n}` */
  function Times(r: Regex, n: nat): Regex {
    if n == 0 then Literal("") else Then(r, Times(r, n - 1))
  }

  const HEX := OneOf([('0', '9'), ('A', 'F')])
  const UPPER := OneOf([('A', 'Z')])
  const TYPE_CHAR := OneOf([('A', 'Z'), ('0', '9'), ('_', '_')])
  const DIGIT := OneOf([('0', '9')])

  /** `[A-Z][A-Z0-9_]*` */
  const ENTITY_TYPE := Then(UPPER, Star(TYPE_CHAR))
  /** `[0-9]+` */
  const NUMBER := Then(DIGIT, Star(DIGIT))
  /** `\[\[PGW_[0-9A-F]{8}_[A-Z][A-Z0-9_]*_[0-9]+\]\]` */
  const TOKEN_PATTERN :=
    Then(Literal("[[PGW_"), Then(Times(HEX, 8), Then(Literal("_"),
      Then(ENTITY_TYPE, Then(Literal("_"), Then(NUMBER, Literal("]]")))))))

  predicate AllIn(ranges: seq<(char, char)>, s: string) {
    forall i :: 0 <= i < |s| ==> InRanges(ranges, s[i])
  }

  /** Where to cut a text for a concatenation. */
  predicate CutAt(first: Regex, rest: Regex, s: string, i: nat) {
    i <= |s| && Matches(first, s[..i]) && Matches(rest, s[i..])
  }

  lemma ThenMatches(first: Regex, rest: Regex, s: string)
    ensures Matches(Then(first, rest), s) <==> exists i :: 0 <= i <= |s| && CutAt(first, rest, s, i)
  {
    if i :| 0 <= i <= |s| && Matches(first, s[..i]) && Matches(rest, s[i..]) {
      assert CutAt(first, rest, s, i);
    }
  }

  lemma {:induction false} StarOfOne(ranges: seq<(char, char)>, s: string)
    ensures Matches(Star(OneOf(ranges)), s) <==> AllIn(ranges, s)
    decreases |s|
  {
    if s != [] {
      var tail := s[1..];
      StarOfOne(ranges, tail);
      assert s[..1] == [s[0]];
      assert AllIn(ranges, s) <==> InRanges(ranges, s[0]) && AllIn(ranges, tail) by {
        assert forall i :: 0 < i < |s| ==> s[i] == tail[i - 1];
        assert forall i :: 0 <= i < |tail| ==> tail[i] == s[i + 1];
      }
      if Matches(Star(OneOf(ranges)), s) {
        var i :| 0 < i <= |s| && Matches(OneOf(ranges), s[..i]) && Matches(Star(OneOf(ranges)), s[i..]);
        assert i == 1;
      }
    }
  }

  lemma PlusOfOne(head: seq<(char, char)>, tail: seq<(char, char)>, s: string)
    ensures Matches(Then(OneOf(head), Star(OneOf(tail))), s)
            <==> s != [] && InRanges(head, s[0]) && AllIn(tail, s[1..])
  {
    ThenMatches(OneOf(head), Star(OneOf(tail)), s);
    forall i | 0 <= i <= |s|
      ensures CutAt(OneOf(head), Star(OneOf(tail)), s, i) <==> i == 1 && InRanges(head, s[0]) && AllIn(tail, s[1..])
    {
      StarOfOne(tail, s[i..]);
      if i == 1 {
        assert s[..1] == [s[0]];
      }
    }
    if s != [] && InRanges(head, s[0]) && AllIn(tail, s[1..]) {
      assert CutAt(OneOf(head), Star(OneOf(tail)), s, 1);
    }
  }

  lemma {:induction false} TimesOfOne(ranges: seq<(char, char)>, n: nat, s: string)
    ensures Matches(Times(OneOf(ranges), n), s) <==> |s| == n && AllIn(ranges, s)
  {
    if n > 0 {
      var rest := Times(OneOf(ranges), n - 1);
      ThenMatches(OneOf(ranges), rest, s);
      forall i | 0 <= i <= |s| ensures CutAt(OneOf(ranges), rest, s, i) <==> i == 1 && |s| == n && AllIn(ranges, s) {
        TimesOfOne(ranges, n - 1, s[i..]);
        if i == 1 {
          assert s[..1] == [s[0]];
          assert forall j :: 0 < j < |s| ==> s[j] == s[1..][j - 1];
          assert forall j :: 0 <= j < |s| - 1 ==> s[1..][j] == s[j + 1];
        }
      }
      if |s| == n && AllIn(ranges, s) {
        assert CutAt(OneOf(ranges), rest, s, 1);
      }
    }
  }

  lemma ThenLiteral(text: string, rest: Regex, s: string)
    ensures Matches(Then(Literal(text), rest), s) <==> text <= s && Matches(rest, s[|text|..])
  {
    ThenMatches(Literal(text), rest, s);
    if text <= s {
      assert CutAt(Literal(text), rest, s, |text|) <==> Matches(rest, s[|text|..]);
    }
  }

  lemma ThenTimes(ranges: seq<(char, char)>, n: nat, rest: Regex, s: string)
    ensures Matches(Then(Times(OneOf(ranges), n), rest), s) <==> |s| >= n && AllIn(ranges, s[..n]) && Matches(rest, s[n..])
  {
    hide Times;
    ThenMatches(Times(OneOf(ranges), n), rest, s);
    forall i | 0 <= i <= |s|
      ensures CutAt(Times(OneOf(ranges), n), rest, s, i) <==> i == n && AllIn(ranges, s[..n]) && Matches(rest, s[n..])
    {
      TimesOfOne(ranges, n, s[..i]);
    }
    if |s| >= n && AllIn(ranges, s[..n]) && Matches(rest, s[n..]) {
      assert CutAt(Times(OneOf(ranges), n), rest, s, n);
    }
  }

  lemma Classes(ch: char)
    ensures InRanges(HEX.ranges, ch) <==> IsUpperHex(ch)
    ensures InRanges(UPPER.ranges, ch) <==> IsUpper(ch)
    ensures InRanges(TYPE_CHAR.ranges, ch) <==> IsTypeChar(ch)
    ensures InRanges(DIGIT.ranges, ch) <==> IsDigit(ch)
  {
    assert HEX.ranges[0] == ('0', '9') && HEX.ranges[1] == ('A', 'F');
    assert UPPER.ranges[0] == ('A', 'Z') && DIGIT.ranges[0] == ('0', '9');
    assert TYPE_CHAR.ranges[0] == ('A', 'Z') && TYPE_CHAR.ranges[1] == ('0', '9') && TYPE_CHAR.ranges[2] == ('_', '_');
  }

  lemma NamespaceMatches(s: string)
    ensures IsNamespace(s) <==> |s| == 8 && AllIn(HEX.ranges, s)
  {
    forall i | 0 <= i < |s| ensures InRanges(HEX.ranges, s[i]) <==> IsUpperHex(s[i]) {
      Classes(s[i]);
    }
  }

  /** `[A-Z][A-Z0-9_]*` matches the names. */
  lemma TypeMatches(s: string)
    ensures Matches(ENTITY_TYPE, s) <==> IsEntityType(s)
  {
    PlusOfOne(UPPER.ranges, TYPE_CHAR.ranges, s);
    forall i | 0 <= i < |s|
      ensures InRanges(TYPE_CHAR.ranges, s[i]) <==> IsTypeChar(s[i])
      ensures InRanges(UPPER.ranges, s[i]) <==> IsUpper(s[i])
    {
      Classes(s[i]);
    }
    if s != [] {
      assert forall i :: 0 < i < |s| ==> s[i] == s[1..][i - 1];
      assert forall i :: 0 <= i < |s| - 1 ==> s[1..][i] == s[i + 1];
    }
  }

  lemma NumberMatches(s: string)
    ensures Matches(NUMBER, s) <==> s != [] && AllDigits(s)
  {
    PlusOfOne(DIGIT.ranges, DIGIT.ranges, s);
    forall i | 0 <= i < |s| ensures InRanges(DIGIT.ranges, s[i]) <==> IsDigit(s[i]) {
      Classes(s[i]);
    }
    if s != [] {
      assert forall i :: 0 < i < |s| ==> s[i] == s[1..][i - 1];
      assert forall i :: 0 <= i < |s| - 1 ==> s[1..][i] == s[i + 1];
    }
  }

  const NUMBERED := Then(Literal("_"), Then(NUMBER, Literal("]]")))

  /** `_[0-9]+\]\]` */
  lemma NumberedMatches(s: string)
    ensures Matches(NUMBERED, s)
            <==> |s| > 3 && s[0] == '_' && AllDigits(s[1..|s| - 2]) && s[|s| - 2..] == CLOSING
  {
    ThenLiteral("_", Then(NUMBER, Literal("]]")), s);
    if s != [] && s[0] == '_' {
      var t := s[1..];
      ThenMatches(NUMBER, Literal("]]"), t);
      forall i | 0 <= i <= |t|
        ensures CutAt(NUMBER, Literal("]]"), t, i)
                <==> i == |t| - 2 && t[i..] == CLOSING && i > 0 && AllDigits(t[..i])
      {
        NumberMatches(t[..i]);
      }
      if |s| > 3 {
        assert t[..|t| - 2] == s[1..|s| - 2] && t[|t| - 2..] == s[|s| - 2..];
      }
    }
  }

  /** The last part of a token, divided behind its type. */
  lemma BodyMatches(s: string)
    requires |s| > 2
    ensures Matches(Then(ENTITY_TYPE, NUMBERED), s) <==> IsBody(s[..|s| - 2]) && s[|s| - 2..] == CLOSING
  {
    hide IsEntityType, AllDigits;
    var b := s[..|s| - 2];
    ThenMatches(ENTITY_TYPE, NUMBERED, s);
    forall i | 0 <= i <= |s|
      ensures CutAt(ENTITY_TYPE, NUMBERED, s, i)
              <==> i < |b| && IsBodyAt(b, i) && s[|s| - 2..] == CLOSING
    {
      CutMatches(s, i);
    }
    if IsBody(b) && s[|s| - 2..] == CLOSING {
      var k :| 0 < k < |b| && IsBodyAt(b, k);
      assert CutAt(ENTITY_TYPE, NUMBERED, s, k);
    }
  }

  lemma CutMatches(s: string, i: nat)
    requires |s| > 2 && i <= |s|
    ensures CutAt(ENTITY_TYPE, NUMBERED, s, i)
            <==> i < |s| - 2 && IsBodyAt(s[..|s| - 2], i) && s[|s| - 2..] == CLOSING
  {
    var b, u := s[..|s| - 2], s[i..];
    TypeMatches(s[..i]);
    NumberedMatches(u);
    hide IsEntityType, AllDigits, Matches;
    if |u| > 3 {
      assert b[..i] == s[..i] && b[i + 1..] == s[i + 1..|s| - 2] == u[1..|u| - 2] && u[|u| - 2..] == s[|s| - 2..];
    }
    assert i == 0 ==> !IsEntityType(s[..i]) by { EmptyIsNoType(); }
  }

  lemma EmptyIsNoType()
    ensures !IsEntityType("")
  {
  }

  /** A text is a token if and only if the pattern matches it as a whole. */
  lemma TokenIsPattern(s: string)
    ensures IsToken(s) <==> Matches(TOKEN_PATTERN, s)
  {
    hide Matches, IsBody, IsNamespace;
    var body := Then(ENTITY_TYPE, NUMBERED);
    var separated := Then(Literal("_"), body);
    ThenLiteral("[[PGW_", Then(Times(HEX, 8), separated), s);
    if OPENING <= s {
      var t := s[6..];
      ThenTimes(HEX.ranges, 8, separated, t);
      if |t| >= 8 {
        NamespaceMatches(t[..8]);
        ThenLiteral("_", body, t[8..]);
        TokenFromParts(s, body);
      }
    }
  }

  lemma TokenFromParts(s: string, body: Regex)
    requires |s| >= 14 && OPENING <= s && body == Then(ENTITY_TYPE, NUMBERED)
    ensures IsToken(s) <==>
      IsNamespace(s[6..][..8]) && "_" <= s[6..][8..] && Matches(body, s[6..][8..][1..])
  {
    hide IsNamespace, IsBody, Matches;
    assert s[..6] == OPENING && s[6..14] == s[6..][..8];
    if |s| > 14 {
      var u := s[15..];
      assert s[6..][8..][0] == s[14] && s[6..][8..][1..] == u;
      if |s| > 17 {
        BodyMatches(u);
        assert u[..|u| - 2] == s[15..|s| - 2] && u[|u| - 2..] == s[|s| - 2..];
      } else {
        ShortIsNoBody(u);
      }
    }
  }

  lemma ShortIsNoBody(u: string)
    requires |u| <= 2
    ensures !Matches(Then(ENTITY_TYPE, NUMBERED), u)
  {
    ThenMatches(ENTITY_TYPE, NUMBERED, u);
    forall i | 0 <= i <= |u| ensures !CutAt(ENTITY_TYPE, NUMBERED, u, i) {
      NumberedMatches(u[i..]);
    }
  }
}
