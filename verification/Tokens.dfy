/**
 The token pattern `\[\[PGW_[0-9A-F]{8}_[A-Z][A-Z0-9_]*_[0-9]+\]\]`, the left-to-right
 substitution over it, and why that substitution is simultaneous replacement: occurrences
 of the pattern never overlap and each start has one end.
 */
module Tokens {
  import opened Text

  const OPENING := "[[PGW_"
  const CLOSING := "]]"

  predicate IsUpper(ch: char) {
    'A' <= ch <= 'Z'
  }

  predicate IsUpperHex(ch: char) {
    IsDigit(ch) || 'A' <= ch <= 'F'
  }

  predicate IsTypeChar(ch: char) {
    IsUpper(ch) || IsDigit(ch) || ch == '_'
  }

  /** `[A-Z][A-Z0-9_]*` */
  predicate IsEntityType(s: string) {
    |s| > 0 && IsUpper(s[0]) && forall i :: 0 <= i < |s| ==> IsTypeChar(s[i])
  }

  /** `[0-9A-F]{8}` */
  predicate IsNamespace(s: string) {
    |s| == 8 && forall i :: 0 <= i < 8 ==> IsUpperHex(s[i])
  }

  /** `[A-Z][A-Z0-9_]*_[0-9]+`, divided at position `k` */
  predicate IsBodyAt(s: string, k: int) {
    0 < k < |s| - 1 && s[k] == '_' && IsEntityType(s[..k]) && AllDigits(s[k + 1..])
  }

  predicate IsBody(s: string) {
    exists k :: 0 < k < |s| && IsBodyAt(s, k)
  }

  /** The whole text matches the token pattern. */
  predicate IsToken(s: string) {
    && 17 < |s|
    && s[..6] == OPENING
    && IsNamespace(s[6..14])
    && s[14] == '_'
    && IsBody(s[15..|s| - 2])
    && s[|s| - 2..] == CLOSING
  }

  lemma BodyChars(s: string, i: nat)
    requires IsBody(s) && i < |s|
    ensures IsTypeChar(s[i])
  {
    var k :| 0 < k < |s| && IsBodyAt(s, k);
    if i < k {
      assert s[..k][i] == s[i];
    } else if i > k {
      assert s[k + 1..][i - k - 1] == s[i];
    }
  }

  /** Brackets stand only at the two ends of a token. */
  lemma TokenShape(s: string)
    requires IsToken(s)
    ensures 17 < |s|
    ensures s[0] == '[' && s[1] == '[' && s[2] == 'P'
    ensures forall i :: 2 <= i < |s| - 2 ==> s[i] != '[' && s[i] != ']'
    ensures s[|s| - 2] == ']' && s[|s| - 1] == ']'
  {
    assert s[0] == s[..6][0] && s[1] == s[..6][1] && s[2] == s[..6][2];
    assert s[|s| - 2] == s[|s| - 2..][0] && s[|s| - 1] == s[|s| - 2..][1];
    forall i | 2 <= i < |s| - 2 ensures s[i] != '[' && s[i] != ']' {
      if i < 6 {
        assert s[i] == s[..6][i];
      } else if i < 14 {
        assert s[i] == s[6..14][i - 6];
      } else if i > 14 {
        BodyChars(s[15..|s| - 2], i - 15);
        assert s[i] == s[15..|s| - 2][i - 15];
      }
    }
  }

  /** Positions `i` to `e` of the text are an occurrence of the pattern. */
  predicate Occurs(text: string, i: int, e: int) {
    0 <= i <= e <= |text| && IsToken(text[i..e])
  }

  lemma OccurrenceShape(text: string, i: int, e: int)
    requires Occurs(text, i, e)
    ensures i + 17 < e
    ensures text[i] == '[' && text[i + 1] == '[' && text[i + 2] == 'P'
    ensures forall j :: i + 2 <= j < e - 2 ==> text[j] != '[' && text[j] != ']'
    ensures text[e - 2] == ']' && text[e - 1] == ']'
  {
    var s := text[i..e];
    TokenShape(s);
    assert text[i] == s[0] && text[i + 1] == s[1] && text[i + 2] == s[2];
    assert text[e - 2] == s[|s| - 2] && text[e - 1] == s[|s| - 1];
    forall j | i + 2 <= j < e - 2 ensures text[j] != '[' && text[j] != ']' {
      assert text[j] == s[j - i];
    }
  }

  lemma OccursInTail(text: string, from: nat, i: int, e: int)
    requires from <= |text| && 0 <= i <= e <= |text| - from
    ensures text[from..][i..e] == text[from + i..from + e]
    ensures Occurs(text[from..], i, e) <==> Occurs(text, from + i, from + e)
  {
    assert text[from..] == text[from..|text|];
    SliceOfSlice(text, from, |text|, i, e);
  }

  /** Two occurrences in a text are the same one or do not overlap. */
  lemma OccurrencesDisjoint(text: string, i: int, e: int, j: int, f: int)
    requires Occurs(text, i, e) && Occurs(text, j, f) && i <= j
    ensures (i == j && e == f) || e <= j
  {
    OccurrenceShape(text, i, e);
    OccurrenceShape(text, j, f);
  }

  /** The length of the token the text starts with; 0 if it starts with none. A regular
      expression engine finds it by backtracking; the first bracket settles it. */
  function MatchLength(text: string): (n: nat)
    ensures n <= |text|
    ensures n > 0 ==> Occurs(text, 0, n)
  {
    var n := IndexOf(text, ']') + 2;
    if n <= |text| && IsToken(text[..n]) then n else 0
  }

  lemma MatchLengthComplete(text: string, e: nat)
    requires Occurs(text, 0, e)
    ensures MatchLength(text) == e
  {
    OccurrenceShape(text, 0, e);
    assert text[..e] == text[0..e];
  }

  // ---------- Substitution ----------

  /** `token_to_value.get(token, token)` */
  function Lookup(values: map<string, string>, token: string): string {
    if token in values then values[token] else token
  }

  /** `TOKEN_PATTERN.sub` with `Lookup`: one pass from left to right. */
  function Substitute(values: map<string, string>, text: string): string
    decreases |text|
  {
    if text == [] then []
    else
      var n := MatchLength(text);
      if n > 0 then Lookup(values, text[..n]) + Substitute(values, text[n..])
      else [text[0]] + Substitute(values, text[1..])
  }

  /** What one step of the pass puts out, and how far it moves. */
  function StepOutput(values: map<string, string>, text: string): string
    requires text != []
  {
    if MatchLength(text) > 0 then Lookup(values, text[..MatchLength(text)]) else [text[0]]
  }

  function StepLength(text: string): (n: nat)
    requires text != []
    ensures 1 <= n <= |text|
  {
    if MatchLength(text) > 0 then MatchLength(text) else 1
  }

  lemma SubstituteStep(values: map<string, string>, text: string)
    ensures text == [] ==> Substitute(values, text) == []
    ensures text != [] ==>
      Substitute(values, text) == StepOutput(values, text) + Substitute(values, text[StepLength(text)..])
  {
  }

  // ---------- Substitution is simultaneous replacement ----------

  /** Positions `i` to `e` are an occurrence of a token that has a value. */
  predicate Minted(values: map<string, string>, text: string, i: int, e: int) {
    Occurs(text, i, e) && text[i..e] in values
  }

  ghost predicate StartsMinted(values: map<string, string>, text: string, i: int) {
    exists e :: Minted(values, text, i, e)
  }

  ghost predicate InsideMinted(values: map<string, string>, text: string, i: int) {
    exists j, e :: Minted(values, text, j, e) && j < i < e
  }

  /** What position `i` contributes when all occurrences of minted tokens are replaced at
      once: the first position of one its value, the others nothing, and every other
      position of the text its own character. */
  ghost function Contribution(values: map<string, string>, text: string, i: int): string
    requires 0 <= i < |text|
  {
    if StartsMinted(values, text, i) then
      var e :| Minted(values, text, i, e);
      values[text[i..e]]
    else if InsideMinted(values, text, i) then ""
    else [text[i]]
  }

  ghost function Contributions(values: map<string, string>, text: string, from: int, end: int): string
    requires 0 <= from <= end <= |text|
    decreases end - from
  {
    if from == end then "" else Contribution(values, text, from) + Contributions(values, text, from + 1, end)
  }

  /** The text with every occurrence of a minted token replaced. */
  ghost function ReplaceAll(values: map<string, string>, text: string): string {
    Contributions(values, text, 0, |text|)
  }

  lemma {:induction false} ContributionsSplit(values: map<string, string>, text: string, from: int, mid: int, end: int)
    requires 0 <= from <= mid <= end <= |text|
    ensures Contributions(values, text, from, end)
         == Contributions(values, text, from, mid) + Contributions(values, text, mid, end)
    decreases mid - from
  {
    hide Contribution;
    if from < mid {
      ContributionsSplit(values, text, from + 1, mid, end);
    }
  }

  /** Positions that neither start nor lie inside a minted token contribute themselves. */
  lemma {:induction false} PlainContributions(values: map<string, string>, text: string, from: int, end: int)
    requires 0 <= from <= end <= |text|
    requires forall i :: from <= i < end ==> !StartsMinted(values, text, i) && !InsideMinted(values, text, i)
    ensures Contributions(values, text, from, end) == text[from..end]
    decreases end - from
  {
    hide StartsMinted, InsideMinted;
    if from < end {
      PlainContributions(values, text, from + 1, end);
      assert text[from..end] == [text[from]] + text[from + 1..end];
    }
  }

  /** The later positions of a minted token contribute nothing. */
  lemma {:induction false} InsideContributesNothing(values: map<string, string>, text: string, i: int, e: int, from: int)
    requires Minted(values, text, i, e) && i < from <= e
    ensures Contributions(values, text, from, e) == ""
    decreases e - from
  {
    hide IsToken;
    if from < e {
      forall f ensures !Minted(values, text, from, f) {
        if Minted(values, text, from, f) {
          OccurrencesDisjoint(text, i, e, from, f);
          assert false;
        }
      }
      assert InsideMinted(values, text, from);
      InsideContributesNothing(values, text, i, e, from + 1);
    }
  }

  lemma StartContributes(values: map<string, string>, text: string, i: int, e: int)
    requires Minted(values, text, i, e)
    ensures i < |text| && Contribution(values, text, i) == values[text[i..e]]
  {
    hide IsToken;
    OccurrenceShape(text, i, e);
    forall f | Minted(values, text, i, f) ensures f == e {
      OccurrencesDisjoint(text, i, e, i, f);
    }
  }

  /** A position of an occurrence that has no value is covered by no other occurrence. */
  lemma NotMinted(values: map<string, string>, text: string, i: int, e: int, k: int)
    requires Occurs(text, i, e) && text[i..e] !in values && i <= k < e
    ensures !StartsMinted(values, text, k) && !InsideMinted(values, text, k)
  {
    hide IsToken;
    forall j, f | Minted(values, text, j, f) ensures !(j <= k < f) {
      if j < i {
        OccurrencesDisjoint(text, j, f, i, e);
      } else {
        OccurrencesDisjoint(text, i, e, j, f);
      }
    }
    forall f ensures !Minted(values, text, k, f) {
      if Minted(values, text, k, f) {
        OccurrenceShape(text, k, f);
        assert false;
      }
    }
  }

  /** An occurrence as a whole contributes what it is looked up as. */
  lemma OccurrenceContributes(values: map<string, string>, text: string, i: int, e: int)
    requires Occurs(text, i, e)
    ensures Contributions(values, text, i, e) == Lookup(values, text[i..e])
  {
    hide IsToken, Contribution;
    OccurrenceShape(text, i, e);
    if text[i..e] in values {
      StartContributes(values, text, i, e);
      InsideContributesNothing(values, text, i, e, i + 1);
    } else {
      forall k | i <= k < e ensures !StartsMinted(values, text, k) && !InsideMinted(values, text, k) {
        NotMinted(values, text, i, e, k);
      }
      PlainContributions(values, text, i, e);
    }
  }

  lemma NotInsideAfterOccurrence(text: string, i: int, e: int, j: int, f: int)
    requires Occurs(text, i, e) && Occurs(text, j, f)
    ensures !(j < e < f)
  {
    if j < i {
      OccurrencesDisjoint(text, j, f, i, e);
    } else {
      OccurrencesDisjoint(text, i, e, j, f);
    }
  }

  /** No occurrence has begun before position `i` and not ended. */
  ghost predicate Between(text: string, i: int) {
    forall j, e :: Occurs(text, j, e) ==> !(j < i < e)
  }

  lemma MatchContributes(values: map<string, string>, text: string, i: nat)
    requires i < |text| && Between(text, i) && MatchLength(text[i..]) > 0
    ensures var n := MatchLength(text[i..]);
            Between(text, i + n) && Lookup(values, text[i..][..n]) == Contributions(values, text, i, i + n)
  {
    hide IsToken, Contributions, MatchLength, Lookup;
    var rest := text[i..];
    var n := MatchLength(rest);
    OccursInTail(text, i, 0, n);
    assert rest[..n] == rest[0..n];
    OccurrenceContributes(values, text, i, i + n);
    forall j, f | Occurs(text, j, f) ensures !(j < i + n < f) {
      NotInsideAfterOccurrence(text, i, i + n, j, f);
    }
  }

  lemma NothingBegins(text: string, i: nat, f: int)
    requires i < |text| && MatchLength(text[i..]) == 0
    ensures !Occurs(text, i, f)
  {
    hide IsToken, MatchLength;
    if Occurs(text, i, f) {
      OccurrenceShape(text, i, f);
      OccursInTail(text, i, 0, f - i);
      MatchLengthComplete(text[i..], f - i);
      assert false;
    }
  }

  lemma PlainContributes(values: map<string, string>, text: string, i: nat)
    requires i < |text| && Between(text, i) && MatchLength(text[i..]) == 0
    ensures Between(text, i + 1) && [text[i]] == Contributions(values, text, i, i + 1)
  {
    forall f ensures !Occurs(text, i, f) {
      NothingBegins(text, i, f);
    }
    hide Occurs, MatchLength, Contributions;
    PlainContributions(values, text, i, i + 1);
    forall j, f | Occurs(text, j, f) ensures !(j < i + 1 < f) {
      assert j != i;
      assert !(j < i < f);
    }
  }

  lemma StepContributes(values: map<string, string>, text: string, i: nat)
    requires i < |text| && Between(text, i)
    ensures Between(text, i + StepLength(text[i..]))
    ensures StepOutput(values, text[i..]) == Contributions(values, text, i, i + StepLength(text[i..]))
  {
    hide Between, Contributions, MatchLength, Lookup;
    if MatchLength(text[i..]) > 0 {
      MatchContributes(values, text, i);
    } else {
      PlainContributes(values, text, i);
    }
  }

  lemma {:induction false} SubstituteFrom(values: map<string, string>, text: string, i: nat)
    requires i <= |text| && Between(text, i)
    ensures Substitute(values, text[i..]) == Contributions(values, text, i, |text|)
    decreases |text| - i
  {
    hide Substitute, StepOutput, StepLength, Contribution, Between, MatchLength;
    var rest := text[i..];
    SubstituteStep(values, rest);
    if i < |text| {
      var n := StepLength(rest);
      StepContributes(values, text, i);
      SubstituteFrom(values, text, i + n);
      ContributionsSplit(values, text, i, i + n, |text|);
      assert rest[n..] == text[i + n..];
    }
  }

  /** The left-to-right pass replaces exactly the occurrences of minted tokens, all at once. */
  lemma SubstituteIsSimultaneous(values: map<string, string>, text: string)
    ensures Substitute(values, text) == ReplaceAll(values, text)
  {
    assert text[0..] == text;
    SubstituteFrom(values, text, 0);
  }

  // ---------- Substitution piece by piece ----------

  /** No minted token in `a + b` reaches over the boundary between them. */
  predicate Clean(values: map<string, string>, a: string, b: string) {
    forall i, e :: 0 <= i < |a| < e <= |a| + |b| ==> !Minted(values, a + b, i, e)
  }

  lemma MintedLeft(values: map<string, string>, a: string, b: string, i: int, e: int)
    requires e <= |a|
    ensures Minted(values, a + b, i, e) <==> Minted(values, a, i, e)
  {
    if 0 <= i <= e {
      assert (a + b)[i..e] == a[i..e];
    }
  }

  lemma MintedRight(values: map<string, string>, a: string, b: string, i: int, e: int)
    requires 0 <= i
    ensures Minted(values, a + b, |a| + i, |a| + e) <==> Minted(values, b, i, e)
  {
    if i <= e <= |b| {
      assert (a + b)[|a| + i..|a| + e] == b[i..e];
    }
  }

  lemma ContributionLeft(values: map<string, string>, a: string, b: string, i: nat)
    requires Clean(values, a, b) && i < |a|
    ensures Contribution(values, a + b, i) == Contribution(values, a, i)
  {
    hide IsToken;
    forall j, e | j <= i < e ensures Minted(values, a + b, j, e) <==> Minted(values, a, j, e) {
      MintedWithin(values, a, b, j, e);
    }
    if StartsMinted(values, a + b, i) {
      var e :| Minted(values, a + b, i, e);
      StartContributes(values, a + b, i, e);
      assert i < e by { OccurrenceShape(a + b, i, e); }
      StartContributes(values, a, i, e);
      assert (a + b)[i..e] == a[i..e];
    } else {
      forall e ensures !Minted(values, a, i, e) {
        MintedWithin(values, a, b, i, e);
      }
    }
  }

  lemma MintedWithin(values: map<string, string>, a: string, b: string, j: int, e: int)
    requires Clean(values, a, b) && j < |a|
    ensures Minted(values, a + b, j, e) <==> Minted(values, a, j, e)
  {
    hide IsToken;
    if e <= |a| {
      MintedLeft(values, a, b, j, e);
    } else if 0 <= j && e <= |a| + |b| {
      assert !Minted(values, a + b, j, e);
    }
  }

  lemma ContributionRight(values: map<string, string>, a: string, b: string, i: nat)
    requires Clean(values, a, b) && i < |b|
    ensures Contribution(values, a + b, |a| + i) == Contribution(values, b, i)
  {
    hide IsToken;
    var n := |a|;
    if e :| Minted(values, b, i, e) {
      MintedRight(values, a, b, i, e);
      StartContributes(values, b, i, e);
      StartContributes(values, a + b, n + i, n + e);
      assert (a + b)[n + i..n + e] == b[i..e];
    } else {
      forall f {:trigger Minted(values, a + b, n + i, f)} ensures !Minted(values, a + b, n + i, f) {
        MintedRight(values, a, b, i, f - n);
      }
      if InsideMinted(values, b, i) {
        var j, e :| Minted(values, b, j, e) && j < i < e;
        MintedRight(values, a, b, j, e);
        assert Minted(values, a + b, n + j, n + e);
      }
      if InsideMinted(values, a + b, n + i) {
        var j, e :| Minted(values, a + b, j, e) && j < n + i < e;
        assert j >= n;
        MintedRight(values, a, b, j - n, e - n);
      }
    }
  }

  lemma {:induction false} ContributionsLeft(values: map<string, string>, a: string, b: string, from: nat)
    requires Clean(values, a, b) && from <= |a|
    ensures Contributions(values, a + b, from, |a|) == Contributions(values, a, from, |a|)
    decreases |a| - from
  {
    hide Clean, Contribution;
    if from < |a| {
      ContributionLeft(values, a, b, from);
      ContributionsLeft(values, a, b, from + 1);
    }
  }

  lemma {:induction false} ContributionsRight(values: map<string, string>, a: string, b: string, from: nat)
    requires Clean(values, a, b) && from <= |b|
    ensures Contributions(values, a + b, |a| + from, |a| + |b|) == Contributions(values, b, from, |b|)
    decreases |b| - from
  {
    hide Clean, Contribution;
    if from < |b| {
      ContributionRight(values, a, b, from);
      ContributionsRight(values, a, b, from + 1);
    }
  }

  /** Substitution works on both sides of a clean boundary by itself. */
  lemma SubstituteSplits(values: map<string, string>, a: string, b: string)
    requires Clean(values, a, b)
    ensures Substitute(values, a + b) == Substitute(values, a) + Substitute(values, b)
  {
    hide Substitute, Contributions, Clean;
    SubstituteIsSimultaneous(values, a + b);
    SubstituteIsSimultaneous(values, a);
    SubstituteIsSimultaneous(values, b);
    ContributionsSplit(values, a + b, 0, |a|, |a + b|);
    ContributionsLeft(values, a, b, 0);
    ContributionsRight(values, a, b, 0);
  }

  /** A text that holds no minted token is left as it is. */
  lemma NothingToSubstitute(values: map<string, string>, text: string)
    requires forall i, e :: !Minted(values, text, i, e)
    ensures Substitute(values, text) == text
  {
    SubstituteIsSimultaneous(values, text);
    PlainContributions(values, text, 0, |text|);
  }

  // ---------- Tokens and markers keep their neighbours apart ----------

  /** A text that begins and ends like a token, whatever is inside. */
  predicate IsWalled(s: string) {
    |s| >= 4 && s[0] == '[' && s[1] == '[' && s[|s| - 2] == ']' && s[|s| - 1] == ']'
  }

  /** A text that begins and ends like a redaction marker. */
  predicate IsMarkerShaped(s: string) {
    |s| >= 3 && s[0] == '[' && s[1] == 'R' && s[|s| - 1] == ']'
  }

  /** No minted token occurs in the text, not even one that lacks its last bracket. */
  predicate IsQuiet(values: map<string, string>, s: string) {
    forall token :: token in values && IsToken(token) ==> !Contains(s, token[..|token| - 1])
  }

  predicate Separates(values: map<string, string>, s: string) {
    IsWalled(s) || (IsMarkerShaped(s) && IsQuiet(values, s))
  }

  lemma CutBefore(text: string, i: int, e: int, k: int)
    requires Occurs(text, i, e) && 0 < k < |text| - 1
    requires text[k] == '[' && (text[k + 1] == '[' || text[k + 1] == 'R')
    ensures !(i < k < e)
  {
    hide IsToken;
    OccurrenceShape(text, i, e);
  }

  lemma CutAfter(text: string, i: int, e: int, k: int)
    requires Occurs(text, i, e) && 0 < k < |text| && text[k - 1] == ']' && i < k < e
    ensures e == k + 1 && k >= 2 && text[k - 2] != ']'
  {
    hide IsToken;
    OccurrenceShape(text, i, e);
  }

  /** A text that holds a token, but for its last bracket at most, is not quiet. */
  lemma HoldsToken(values: map<string, string>, s: string, b: string, i: int, e: int)
    requires Minted(values, s + b, i, e) && e <= |s| + 1
    ensures !IsQuiet(values, s)
  {
    hide IsToken;
    OccurrenceShape(s + b, i, e);
    var token := (s + b)[i..e];
    assert token[..|token| - 1] == (s + b)[i..e - 1] == s[i..e - 1];
    assert OccursAt(s, i, token[..|token| - 1]);
  }

  lemma SeparatorIsClean(values: map<string, string>, a: string, s: string, b: string)
    requires Separates(values, s)
    ensures Clean(values, a, s + b) && Clean(values, s, b)
  {
    hide IsToken, IsQuiet;
    forall i, e | 0 <= i < |a| < e <= |a| + |s + b| ensures !Minted(values, a + (s + b), i, e) {
      var text := a + (s + b);
      assert text[|a|] == s[0] && text[|a| + 1] == s[1];
      if Minted(values, text, i, e) {
        CutBefore(text, i, e, |a|);
        assert false;
      }
    }
    forall i, e | 0 <= i < |s| < e <= |s| + |b| ensures !Minted(values, s + b, i, e) {
      assert (s + b)[|s| - 1] == s[|s| - 1] && (s + b)[|s| - 2] == s[|s| - 2];
      if Minted(values, s + b, i, e) {
        CutAfter(s + b, i, e, |s|);
        if !IsWalled(s) {
          HoldsToken(values, s, b, i, e);
        }
        assert false;
      }
    }
  }

  lemma SubstituteToken(values: map<string, string>, token: string)
    requires IsToken(token)
    ensures Substitute(values, token) == Lookup(values, token)
  {
    assert token[0..|token|] == token[..|token|] == token;
    MatchLengthComplete(token, |token|);
    assert Substitute(values, token) == Lookup(values, token) + Substitute(values, token[|token|..]);
  }

  lemma SubstituteQuiet(values: map<string, string>, s: string)
    requires IsQuiet(values, s)
    ensures Substitute(values, s) == s
  {
    hide IsToken, IsQuiet;
    assert s + [] == s;
    forall i, e ensures !Minted(values, s, i, e) {
      if Minted(values, s, i, e) {
        HoldsToken(values, s, [], i, e);
        assert false;
      }
    }
    NothingToSubstitute(values, s);
  }

  /** Whatever surrounds a token or a quiet marker, it is substituted by itself. */
  lemma SubstituteAround(values: map<string, string>, a: string, s: string, b: string)
    requires Separates(values, s)
    ensures Substitute(values, a + (s + b)) == Substitute(values, a) + (Substitute(values, s) + Substitute(values, b))
  {
    hide Separates, Clean, Substitute;
    SeparatorIsClean(values, a, s, b);
    SubstituteSplits(values, a, s + b);
    SubstituteSplits(values, s, b);
  }
}
