/**
 Strings as the gateway uses them: decimal printing of integers, splitting at a
 separator, substring containment and newline-joining.
 */
module Text {

  predicate IsDigit(ch: char) {
    '0' <= ch <= '9'
  }

  predicate AllDigits(s: string) {
    forall i :: 0 <= i < |s| ==> IsDigit(s[i])
  }

  function DecNat(n: nat): (s: string)
    ensures |s| > 0 && AllDigits(s)
  {
    if n < 10 then [(48 + n) as char] else DecNat(n / 10) + [(48 + n % 10) as char]
  }

  /** Python's `str` of an integer. */
  function Dec(n: int): string {
    if n < 0 then "-" + DecNat(-n) else DecNat(n)
  }

  /** The number a run of digits denotes. */
  function NatOf(s: string): nat
    requires AllDigits(s)
  {
    if s == [] then 0
    else 10 * NatOf(s[..|s| - 1]) + (s[|s| - 1] as nat - 48)
  }

  lemma {:induction false} DecNatRoundTrip(n: nat)
    ensures NatOf(DecNat(n)) == n
  {
    var s := DecNat(n);
    if n < 10 {
      assert s[..|s| - 1] == [];
    } else {
      DecNatRoundTrip(n / 10);
      assert s[..|s| - 1] == DecNat(n / 10);
    }
  }

  lemma DecSign(n: int)
    ensures |Dec(n)| > 0 && (Dec(n)[0] == '-' <==> n < 0)
  {
    if n >= 0 {
      assert IsDigit(DecNat(n)[0]);
    }
  }

  lemma DecInjective(m: int, n: int)
    requires Dec(m) == Dec(n)
    ensures m == n
  {
    DecSign(m);
    DecSign(n);
    if m < 0 {
      assert DecNat(-m) == Dec(m)[1..] == DecNat(-n);
      DecNatRoundTrip(-m);
      DecNatRoundTrip(-n);
    } else {
      DecNatRoundTrip(m);
      DecNatRoundTrip(n);
    }
  }

  lemma DecHasNoBar(n: int)
    ensures '|' !in Dec(n)
  {
    forall i | 0 <= i < |Dec(n)| ensures Dec(n)[i] != '|' {
      if n < 0 {
        assert i > 0 ==> IsDigit(DecNat(-n)[i - 1]);
      } else {
        assert IsDigit(DecNat(n)[i]);
      }
    }
  }

  /** The numeral of a natural number is the one run of digits that denotes it and has no
      leading zero, unless it is "0" itself. */
  lemma {:induction false} DecIsCanonical(s: string, n: nat)
    requires AllDigits(s) && s != [] && (s[0] != '0' || |s| == 1)
    ensures NatOf(s) == n <==> s == Dec(n)
    decreases |s|
  {
    DecNatRoundTrip(n);
    if NatOf(s) == n {
      if |s| == 1 {
        assert s[..0] == [];
      } else {
        NatOfPositive(s[..|s| - 1]);
        DecIsCanonical(s[..|s| - 1], n / 10);
        assert s == s[..|s| - 1] + [s[|s| - 1]];
      }
    }
  }

  lemma {:induction false} NatOfPositive(s: string)
    requires AllDigits(s) && s != [] && s[0] != '0'
    ensures NatOf(s) > 0
  {
    if |s| > 1 {
      NatOfPositive(s[..|s| - 1]);
    }
  }

  /** Numerals of naturals are of that kind, and a minus sign marks the others. */
  lemma {:induction false} DecHasNoLeadingZero(n: nat)
    ensures Dec(n)[0] == '0' <==> n == 0
    ensures n == 0 ==> Dec(n) == "0"
    ensures n > 0 ==> Dec(0 - n) == "-" + Dec(n)
  {
    if n >= 10 {
      DecHasNoLeadingZero(n / 10);
    }
  }

  /** The position of the first `ch`; the length of the text if there is none. */
  function IndexOf(s: string, ch: char): (k: nat)
    ensures k <= |s|
    ensures k < |s| ==> s[k] == ch
    ensures forall j :: 0 <= j < k ==> s[j] != ch
  {
    if s == [] || s[0] == ch then 0 else 1 + IndexOf(s[1..], ch)
  }

  lemma IndexOfSplit(sep: char, a: string, x: string)
    requires sep !in a
    ensures IndexOf(a + [sep] + x, sep) == |a|
  {
    assert (a + [sep] + x)[|a|] == sep;
    forall j | 0 <= j < |a| ensures (a + [sep] + x)[j] != sep {
      assert (a + [sep] + x)[j] == a[j];
    }
  }

  /** The first separator splits a text in one way only. */
  lemma SplitAtFirst(sep: char, a: string, x: string, b: string, y: string)
    requires sep !in a && sep !in b
    requires a + [sep] + x == b + [sep] + y
    ensures a == b && x == y
  {
    var u, v := a + [sep] + x, b + [sep] + y;
    IndexOfSplit(sep, a, x);
    IndexOfSplit(sep, b, y);
    assert a == u[..|a|] && b == v[..|b|];
    assert x == u[|a| + 1..] && y == v[|b| + 1..];
  }

  /** The last separator does too. */
  lemma SplitAtFinal(sep: char, a: string, x: string, b: string, y: string)
    requires sep !in x && sep !in y
    requires a + [sep] + x == b + [sep] + y
    ensures a == b && x == y
  {
    var u, v := a + [sep] + x, b + [sep] + y;
    assert u[|a|] == sep && v[|b|] == sep;
    assert forall j :: |a| < j < |u| ==> u[j] == x[j - |a| - 1];
    assert forall j :: |b| < j < |v| ==> v[j] == y[j - |b| - 1];
    assert a == u[..|a|] && b == v[..|b|];
    assert x == u[|a| + 1..] && y == v[|b| + 1..];
  }

  /** So does a separator in front of a last part of known length. */
  lemma SplitAtLast(sep: char, a: string, x: string, b: string, y: string)
    requires |x| == |y|
    requires a + [sep] + x == b + [sep] + y
    ensures a == b && x == y
  {
    var u, v := a + [sep] + x, b + [sep] + y;
    assert |a| == |b|;
    assert a == u[..|a|] && b == v[..|b|];
    assert x == u[|a| + 1..] && y == v[|b| + 1..];
  }

  lemma Cancel(s: string, x: string, y: string)
    requires s + x == s + y
    ensures x == y
  {
    assert (s + x)[|s|..] == x && (s + y)[|s|..] == y;
  }

  lemma SliceOfSlice<T>(s: seq<T>, lo: nat, hi: nat, i: nat, j: nat)
    requires lo <= hi <= |s| && i <= j <= hi - lo
    ensures s[lo..hi][i..j] == s[lo + i..lo + j]
  {
    var t, u := s[lo..hi][i..j], s[lo + i..lo + j];
    assert |t| == |u| == j - i;
    forall k | 0 <= k < j - i ensures t[k] == u[k] {
      assert t[k] == s[lo..hi][i + k] == s[lo + i + k] == u[k];
    }
  }

  predicate OccursAt(text: string, i: nat, word: string) {
    i + |word| <= |text| && text[i..i + |word|] == word
  }

  /** Python's `word in text`. */
  predicate Contains(text: string, word: string) {
    exists i :: 0 <= i <= |text| && OccursAt(text, i, word)
  }

  lemma ContainsWithin(text: string, lo: nat, hi: nat, word: string)
    requires lo <= hi <= |text|
    requires Contains(text[lo..hi], word)
    ensures Contains(text, word)
  {
    var i :| 0 <= i <= hi - lo && OccursAt(text[lo..hi], i, word);
    SliceOfSlice(text, lo, hi, i, i + |word|);
    assert OccursAt(text, lo + i, word);
  }

  /** Python's `"\n".join(texts)`. */
  function Join(texts: seq<string>): string {
    if texts == [] then ""
    else if |texts| == 1 then texts[0]
    else texts[0] + "\n" + Join(texts[1..])
  }

  lemma {:induction false} JoinContains(texts: seq<string>, k: nat, word: string)
    requires k < |texts| && Contains(texts[k], word)
    ensures Contains(Join(texts), word)
  {
    var joined := Join(texts);
    if |texts| == 1 {
    } else if k == 0 {
      assert joined[0..|texts[0]|] == texts[0];
      ContainsWithin(joined, 0, |texts[0]|, word);
    } else {
      JoinContains(texts[1..], k - 1, word);
      assert joined[|texts[0]| + 1..|joined|] == Join(texts[1..]);
      ContainsWithin(joined, |texts[0]| + 1, |joined|, word);
    }
  }

  /** Each further text is joined on behind a newline. */
  lemma {:induction false} JoinSnoc(texts: seq<string>, text: string)
    ensures Join([]) == ""
    ensures Join(texts + [text]) == if texts == [] then text else Join(texts) + "\n" + text
  {
    if texts == [] {
      assert [] + [text] == [text];
    } else {
      JoinSnoc(texts[1..], text);
      assert (texts + [text])[1..] == texts[1..] + [text];
      if |texts| == 1 {
        assert texts[1..] == [];
      }
    }
  }
}
