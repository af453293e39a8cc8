/**
 The request-scoped tokenization context: minting one token for each distinct pair of
 entity type and value, and restoring the values in a text.
 */
module Tokenization {
  import opened Text
  import opened Tokens

  /** `[[PGW_<namespace>_<type>_<number>]]` */
  function Token(namespace: string, entityType: string, number: nat): string {
    OPENING + namespace + "_" + (entityType + "_" + Dec(number)) + CLOSING
  }

  datatype Key = Key(entityType: string, value: string)

  /** The state of a context: its namespace and its three dictionaries. */
  datatype Registry = Registry(namespace: string, tokenToValue: map<string, string>,
                               valueToToken: map<Key, string>, counters: map<string, nat>)

  function Fresh(namespace: string): Registry {
    Registry(namespace, map[], map[], map[])
  }

  function Count(r: Registry, entityType: string): nat {
    if entityType in r.counters then r.counters[entityType] else 0
  }

  /** The state after `token_for`. */
  function Mint(r: Registry, key: Key): (m: Registry)
    ensures key in m.valueToToken
  {
    if key in r.valueToToken then r
    else
      var n := Count(r, key.entityType) + 1;
      var token := Token(r.namespace, key.entityType, n);
      Registry(r.namespace, r.tokenToValue[token := key.value], r.valueToToken[key := token],
               r.counters[key.entityType := n])
  }

  function MintAll(r: Registry, keys: seq<Key>): Registry {
    if keys == [] then r else Mint(MintAll(r, keys[..|keys| - 1]), keys[|keys| - 1])
  }

  // ---------- Tokens ----------

  lemma TokenParts(namespace: string, entityType: string, number: nat)
    requires |namespace| == 8
    ensures var t := Token(namespace, entityType, number);
            && 17 < |t|
            && t[..6] == OPENING && t[6..14] == namespace && t[14] == '_'
            && t[15..|t| - 2] == entityType + "_" + Dec(number)
            && t[|t| - 2..] == CLOSING
  {
  }

  lemma DigitsOf(n: nat)
    ensures AllDigits(Dec(n)) && |Dec(n)| > 0 && '_' !in Dec(n)
  {
  }

  /** Type and number can be read back from a token, whatever the type looks like. */
  lemma TokenInjective(namespace: string, t: string, m: nat, u: string, n: nat)
    requires |namespace| == 8
    requires Token(namespace, t, m) == Token(namespace, u, n)
    ensures t == u && m == n
  {
    TokenParts(namespace, t, m);
    TokenParts(namespace, u, n);
    DigitsOf(m);
    DigitsOf(n);
    SplitAtFinal('_', t, Dec(m), u, Dec(n));
    DecInjective(m, n);
  }

  lemma BodyMatches(entityType: string, digits: string)
    requires AllDigits(digits) && |digits| > 0 && '_' !in digits
    ensures IsBody(entityType + "_" + digits) <==> IsEntityType(entityType)
  {
    var body := entityType + "_" + digits;
    assert body[..|entityType|] == entityType && body[|entityType| + 1..] == digits;
    if IsEntityType(entityType) {
      assert IsBodyAt(body, |entityType|);
    }
    if IsBody(body) {
      var k :| 0 < k < |body| && IsBodyAt(body, k);
      assert body[..k] + ['_'] + body[k + 1..] == body;
      assert '_' !in body[k + 1..];
      hide IsEntityType, IsBodyAt;
      SplitAtFinal('_', body[..k], body[k + 1..], entityType, digits);
    }
  }

  /** A minted token matches the pattern exactly when its type is a well-formed name. */
  lemma TokenMatches(namespace: string, entityType: string, number: nat)
    requires IsNamespace(namespace)
    ensures IsToken(Token(namespace, entityType, number)) <==> IsEntityType(entityType)
  {
    hide Token, Dec, IsBody, IsEntityType, AllDigits, IsNamespace;
    assert |namespace| == 8 by { NamespaceLength(namespace); }
    TokenParts(namespace, entityType, number);
    DigitsOf(number);
    BodyMatches(entityType, Dec(number));
  }

  lemma NamespaceLength(namespace: string)
    requires IsNamespace(namespace)
    ensures |namespace| == 8
  {
  }

  // ---------- What minting computes ----------

  /** The distinct keys, in the order in which they first occur. */
  function Distinct(keys: seq<Key>): seq<Key> {
    if keys == [] then []
    else
      var before := Distinct(keys[..|keys| - 1]);
      if keys[|keys| - 1] in before then before else before + [keys[|keys| - 1]]
  }

  /** How many of the keys have the type. */
  function Tally(keys: seq<Key>, entityType: string): nat {
    if keys == [] then 0
    else Tally(keys[..|keys| - 1], entityType) + if keys[|keys| - 1].entityType == entityType then 1 else 0
  }

  /** The token of the `i`-th distinct key: it is numbered among the keys of its type. */
  function TokenAt(namespace: string, distinct: seq<Key>, i: nat): string
    requires i < |distinct|
  {
    Token(namespace, distinct[i].entityType, Tally(distinct[..i + 1], distinct[i].entityType))
  }

  /** Each distinct key has its token, and the token its value. */
  ghost predicate HoldsKeys(r: Registry, distinct: seq<Key>) {
    && (forall i :: 0 <= i < |distinct| ==>
          && distinct[i] in r.valueToToken && r.valueToToken[distinct[i]] == TokenAt(r.namespace, distinct, i)
          && TokenAt(r.namespace, distinct, i) in r.tokenToValue
          && r.tokenToValue[TokenAt(r.namespace, distinct, i)] == distinct[i].value)
    && (forall key :: key in r.valueToToken ==> key in distinct)
  }

  /** There are no tokens but theirs. */
  ghost predicate HoldsTokens(r: Registry, distinct: seq<Key>) {
    forall token :: token in r.tokenToValue ==>
      exists i :: 0 <= i < |distinct| && token == TokenAt(r.namespace, distinct, i)
  }

  ghost predicate HoldsCounts(r: Registry, distinct: seq<Key>) {
    forall t :: Count(r, t) == Tally(distinct, t)
  }

  /** The registry holds exactly the distinct keys, each with its token. */
  ghost predicate Holds(r: Registry, distinct: seq<Key>) {
    |r.namespace| == 8 && HoldsKeys(r, distinct) && HoldsTokens(r, distinct) && HoldsCounts(r, distinct)
  }

  lemma {:induction false} TallyMonotone(keys: seq<Key>, i: nat, t: string)
    requires i <= |keys|
    ensures Tally(keys[..i], t) <= Tally(keys, t)
  {
    if i < |keys| {
      TallyMonotone(keys[..|keys| - 1], i, t);
      assert keys[..|keys| - 1][..i] == keys[..i];
    } else {
      assert keys[..i] == keys;
    }
  }

  lemma TokenAtPrefix(namespace: string, distinct: seq<Key>, more: seq<Key>, i: nat)
    requires i < |distinct|
    ensures TokenAt(namespace, distinct + more, i) == TokenAt(namespace, distinct, i)
  {
    assert (distinct + more)[..i + 1] == distinct[..i + 1];
  }

  lemma NewTokenDiffers(r: Registry, distinct: seq<Key>, t: string, i: nat)
    requires |r.namespace| == 8 && i < |distinct|
    ensures TokenAt(r.namespace, distinct, i) != Token(r.namespace, t, Tally(distinct, t) + 1)
  {
    hide Token, Dec;
    var key := distinct[i];
    TallyMonotone(distinct, i + 1, key.entityType);
    if TokenAt(r.namespace, distinct, i) == Token(r.namespace, t, Tally(distinct, t) + 1) {
      TokenInjective(r.namespace, key.entityType, Tally(distinct[..i + 1], key.entityType), t, Tally(distinct, t) + 1);
      assert false;
    }
  }

  lemma TallySnoc(keys: seq<Key>, key: Key, t: string)
    ensures Tally(keys + [key], t) == Tally(keys, t) + if key.entityType == t then 1 else 0
  {
    assert (keys + [key])[..|keys|] == keys;
  }

  /** The key gets the next number of its type; the tokens given out before stay theirs. */
  lemma NewToken(r: Registry, distinct: seq<Key>, key: Key)
    requires |r.namespace| == 8
    ensures var token := Token(r.namespace, key.entityType, Tally(distinct, key.entityType) + 1);
            && TokenAt(r.namespace, distinct + [key], |distinct|) == token
            && forall i :: 0 <= i < |distinct| ==>
                 TokenAt(r.namespace, distinct + [key], i) == TokenAt(r.namespace, distinct, i) != token
  {
    hide Token, Dec, Tally;
    TallySnoc(distinct, key, key.entityType);
    assert (distinct + [key])[..|distinct| + 1] == distinct + [key];
    forall i | 0 <= i < |distinct|
      ensures TokenAt(r.namespace, distinct + [key], i) == TokenAt(r.namespace, distinct, i)
      ensures TokenAt(r.namespace, distinct, i) != Token(r.namespace, key.entityType, Tally(distinct, key.entityType) + 1)
    {
      TokenAtPrefix(r.namespace, distinct, [key], i);
      NewTokenDiffers(r, distinct, key.entityType, i);
    }
  }

  lemma MintHoldsKeys(r: Registry, distinct: seq<Key>, key: Key)
    requires Holds(r, distinct) && key !in distinct
    ensures HoldsKeys(Mint(r, key), distinct + [key])
  {
    hide Token, TokenAt, Tally, HoldsTokens;
    NewToken(r, distinct, key);
    assert Count(r, key.entityType) == Tally(distinct, key.entityType);
    assert key !in r.valueToToken;
  }

  lemma MintHoldsTokens(r: Registry, distinct: seq<Key>, key: Key)
    requires Holds(r, distinct) && key !in distinct
    ensures HoldsTokens(Mint(r, key), distinct + [key])
  {
    hide Token, TokenAt, Tally, HoldsKeys;
    var m, d := Mint(r, key), distinct + [key];
    NewToken(r, distinct, key);
    assert Count(r, key.entityType) == Tally(distinct, key.entityType);
    forall t | t in m.tokenToValue ensures exists i :: 0 <= i < |d| && t == TokenAt(r.namespace, d, i) {
      if t in r.tokenToValue {
        var i :| 0 <= i < |distinct| && t == TokenAt(r.namespace, distinct, i);
        assert t == TokenAt(r.namespace, d, i);
      } else {
        assert t == TokenAt(r.namespace, d, |distinct|);
      }
    }
  }

  lemma MintHoldsCounts(r: Registry, distinct: seq<Key>, key: Key)
    requires Holds(r, distinct) && key !in distinct
    ensures HoldsCounts(Mint(r, key), distinct + [key])
  {
    hide Token, TokenAt, Tally, HoldsTokens;
    assert key !in r.valueToToken;
    forall t ensures Count(Mint(r, key), t) == Tally(distinct + [key], t) {
      TallySnoc(distinct, key, t);
      assert Count(r, t) == Tally(distinct, t);
    }
  }

  lemma MintHolds(r: Registry, distinct: seq<Key>, key: Key)
    requires Holds(r, distinct)
    ensures Holds(Mint(r, key), if key in distinct then distinct else distinct + [key])
  {
    hide HoldsTokens, HoldsCounts, TokenAt, Token;
    if key in distinct {
      assert key in r.valueToToken;
    } else {
      MintHoldsKeys(r, distinct, key);
      MintHoldsTokens(r, distinct, key);
      MintHoldsCounts(r, distinct, key);
    }
  }

  lemma CountIsTally(r: Registry, distinct: seq<Key>, t: string)
    requires Holds(r, distinct)
    ensures Count(r, t) == Tally(distinct, t) && |r.namespace| == 8
  {
  }

  /** After any sequence of calls the dictionaries hold what the history prescribes. */
  lemma {:induction false} MintAllHolds(namespace: string, keys: seq<Key>)
    requires |namespace| == 8
    ensures Holds(MintAll(Fresh(namespace), keys), Distinct(keys))
  {
    if keys != [] {
      MintAllHolds(namespace, keys[..|keys| - 1]);
      MintHolds(MintAll(Fresh(namespace), keys[..|keys| - 1]), Distinct(keys[..|keys| - 1]), keys[|keys| - 1]);
    }
  }

  lemma {:induction false} DistinctIsDistinct(keys: seq<Key>)
    ensures forall i, j :: 0 <= i < j < |Distinct(keys)| ==> Distinct(keys)[i] != Distinct(keys)[j]
    ensures forall key :: key in keys <==> key in Distinct(keys)
  {
    if keys != [] {
      var n := |keys| - 1;
      DistinctIsDistinct(keys[..n]);
      assert keys == keys[..n] + [keys[n]];
    }
  }

  lemma {:induction false} TallyReaches(keys: seq<Key>, t: string, n: nat) returns (i: nat)
    requires 1 <= n <= Tally(keys, t)
    ensures i < |keys| && keys[i].entityType == t && Tally(keys[..i + 1], t) == n
  {
    var last := |keys| - 1;
    if n == Tally(keys, t) && keys[last].entityType == t {
      assert keys[..last + 1] == keys;
      return last;
    }
    i := TallyReaches(keys[..last], t, n);
    assert keys[..last][..i + 1] == keys[..i + 1];
  }

  lemma HeldToken(r: Registry, distinct: seq<Key>, key: Key) returns (i: nat)
    requires Holds(r, distinct) && key in r.valueToToken
    ensures i < |distinct| && distinct[i] == key && r.valueToToken[key] == TokenAt(r.namespace, distinct, i)
  {
    i :| 0 <= i < |distinct| && distinct[i] == key;
  }

  /** Between clears, keys and tokens correspond one to one: each token gives back its value,
      no two keys share one, and the numbers of each type are exactly 1 to its counter. */
  lemma MintingIsBijective(namespace: string, keys: seq<Key>)
    requires |namespace| == 8
    ensures var r := MintAll(Fresh(namespace), keys);
            && (forall key :: key in keys <==> key in r.valueToToken)
            && (forall j, k :: j in r.valueToToken && k in r.valueToToken && r.valueToToken[j] == r.valueToToken[k] ==> j == k)
            && (forall key :: key in r.valueToToken ==>
                  r.valueToToken[key] in r.tokenToValue && r.tokenToValue[r.valueToToken[key]] == key.value)
            && (forall token :: token in r.tokenToValue ==>
                  exists key :: key in r.valueToToken && r.valueToToken[key] == token)
  {
    var r, d := MintAll(Fresh(namespace), keys), Distinct(keys);
    MintAllHolds(namespace, keys);
    DistinctIsDistinct(keys);
    hide Token, Dec, MintAll, Distinct, Tally;
    forall key | key in r.valueToToken
      ensures r.valueToToken[key] in r.tokenToValue && r.tokenToValue[r.valueToToken[key]] == key.value
    {
      var i := HeldToken(r, d, key);
    }
    forall j, k | j in r.valueToToken && k in r.valueToToken && r.valueToToken[j] == r.valueToToken[k]
      ensures j == k
    {
      SameTokenSameKey(r, d, j, k);
    }
    forall token | token in r.tokenToValue ensures exists key :: key in r.valueToToken && r.valueToToken[key] == token {
      var i :| 0 <= i < |d| && token == TokenAt(r.namespace, d, i);
      assert d[i] in r.valueToToken;
    }
  }

  lemma {:induction false} TallyStrict(keys: seq<Key>, i: nat, j: nat)
    requires i < j < |keys|
    ensures Tally(keys[..i + 1], keys[j].entityType) < Tally(keys[..j + 1], keys[j].entityType)
  {
    assert keys[..j + 1][..j] == keys[..j] && keys[..j][..i + 1] == keys[..i + 1];
    TallyMonotone(keys[..j], i + 1, keys[j].entityType);
  }

  lemma SameTokenSameKey(r: Registry, distinct: seq<Key>, j: Key, k: Key)
    requires Holds(r, distinct) && j in r.valueToToken && k in r.valueToToken
    requires r.valueToToken[j] == r.valueToToken[k]
    ensures j == k
  {
    hide Token, Dec;
    var a := HeldToken(r, distinct, j);
    var b := HeldToken(r, distinct, k);
    TokenInjective(r.namespace, j.entityType, Tally(distinct[..a + 1], j.entityType),
                   k.entityType, Tally(distinct[..b + 1], k.entityType));
    if a < b {
      TallyStrict(distinct, a, b);
    } else if b < a {
      TallyStrict(distinct, b, a);
    }
  }

  /** A number of the type has been given out to some key. */
  ghost predicate IsNumbered(r: Registry, t: string, n: nat) {
    exists key :: key in r.valueToToken && key.entityType == t && r.valueToToken[key] == Token(r.namespace, t, n)
  }

  lemma NumberedWithin(r: Registry, distinct: seq<Key>, key: Key, n: nat)
    requires Holds(r, distinct) && key in r.valueToToken
    requires r.valueToToken[key] == Token(r.namespace, key.entityType, n)
    ensures 1 <= n <= Count(r, key.entityType)
  {
    hide Token, Dec, Holds;
    var t := key.entityType;
    CountIsTally(r, distinct, t);
    var i := HeldToken(r, distinct, key);
    TokenInjective(r.namespace, t, Tally(distinct[..i + 1], t), t, n);
    TallyMonotone(distinct, i + 1, t);
    assert distinct[..i + 1] == distinct[..i] + [key];
    TallySnoc(distinct[..i], key, t);
  }

  /** The numbers given out for a type are exactly 1 to its counter. */
  lemma NumbersAreDense(namespace: string, keys: seq<Key>, t: string, n: nat)
    requires |namespace| == 8
    ensures IsNumbered(MintAll(Fresh(namespace), keys), t, n)
            <==> 1 <= n <= Count(MintAll(Fresh(namespace), keys), t)
  {
    var r, d := MintAll(Fresh(namespace), keys), Distinct(keys);
    MintAllHolds(namespace, keys);
    hide Token, MintAll, Distinct, Tally;
    if 1 <= n <= Count(r, t) {
      var i := TallyReaches(d, t, n);
      assert d[i] in r.valueToToken && r.valueToToken[d[i]] == Token(r.namespace, t, n);
    }
    if IsNumbered(r, t, n) {
      var key :| key in r.valueToToken && key.entityType == t && r.valueToToken[key] == Token(r.namespace, t, n);
      NumberedWithin(r, d, key, n);
    }
  }

  lemma {:induction false} MintKeepsNamespace(r: Registry, keys: seq<Key>)
    ensures MintAll(r, keys).namespace == r.namespace
  {
    if keys != [] {
      MintKeepsNamespace(r, keys[..|keys| - 1]);
    }
  }

  lemma MintAllSnoc(r: Registry, keys: seq<Key>, key: Key)
    ensures MintAll(r, keys + [key]) == Mint(MintAll(r, keys), key)
  {
    assert (keys + [key])[..|keys|] == keys;
  }

  lemma {:induction false} MintAllConcat(r: Registry, a: seq<Key>, b: seq<Key>)
    ensures MintAll(r, a + b) == MintAll(MintAll(r, a), b)
  {
    if b == [] {
      assert a + b == a;
    } else {
      var n := |b| - 1;
      MintAllConcat(r, a, b[..n]);
      assert (a + b)[..|a + b| - 1] == a + b[..n];
    }
  }

  // ---------- What tokens reveal ----------

  /** Same types in the same order, and equal where the other is equal. */
  ghost predicate SamePattern(a: seq<Key>, b: seq<Key>) {
    && |a| == |b|
    && (forall i :: 0 <= i < |a| ==> a[i].entityType == b[i].entityType)
    && (forall i, j :: 0 <= i < |a| && 0 <= j < |a| ==> (a[i] == a[j] <==> b[i] == b[j]))
  }

  /** The two runs have handed out the same tokens, call by call. */
  ghost predicate SameTokens(ra: Registry, a: seq<Key>, rb: Registry, b: seq<Key>) {
    && |a| == |b|
    && forall i :: 0 <= i < |a| ==>
         a[i] in ra.valueToToken && b[i] in rb.valueToToken && ra.valueToToken[a[i]] == rb.valueToToken[b[i]]
  }

  ghost predicate HasExactly(r: Registry, keys: seq<Key>) {
    forall key :: key in r.valueToToken <==> key in keys
  }

  lemma {:induction false} HoldsExactly(r: Registry, keys: seq<Key>)
    requires r.valueToToken == map[]
    ensures HasExactly(MintAll(r, keys), keys)
  {
    if keys != [] {
      HoldsExactly(r, keys[..|keys| - 1]);
      assert keys == keys[..|keys| - 1] + [keys[|keys| - 1]];
    }
  }

  /** The last keys have occurred before in both runs or in neither, in the same place. */
  lemma PatternLast(a: seq<Key>, b: seq<Key>, x: Key, y: Key)
    requires SamePattern(a + [x], b + [y])
    ensures |a| == |b| && x.entityType == y.entityType
    ensures forall i :: 0 <= i < |a| ==> (a[i] == x <==> b[i] == y)
  {
    var n := |a|;
    var p, q := a + [x], b + [y];
    assert p[n] == x && q[n] == y;
    forall i | 0 <= i < n ensures a[i] == x <==> b[i] == y {
      assert p[i] == a[i] && q[i] == b[i];
      assert p[i] == p[n] <==> q[i] == q[n];
    }
  }

  /** Both last keys have their tokens already. */
  lemma PatternRepeats(ra: Registry, a: seq<Key>, rb: Registry, b: seq<Key>, x: Key, y: Key)
    requires SameTokens(ra, a, rb, b) && x in a
    requires forall i :: 0 <= i < |a| ==> (a[i] == x <==> b[i] == y)
    ensures Mint(ra, x) == ra && Mint(rb, y) == rb && SameTokens(ra, a + [x], rb, b + [y])
  {
    var i :| 0 <= i < |a| && a[i] == x;
    assert b[i] == y;
  }

  /** Neither last key has a token yet. */
  lemma PatternGrows(ra: Registry, a: seq<Key>, rb: Registry, b: seq<Key>, x: Key, y: Key)
    requires SameTokens(ra, a, rb, b) && x !in ra.valueToToken && y !in rb.valueToToken
    requires ra.namespace == rb.namespace && ra.counters == rb.counters && x.entityType == y.entityType
    ensures Mint(ra, x).counters == Mint(rb, y).counters
    ensures SameTokens(Mint(ra, x), a + [x], Mint(rb, y), b + [y])
  {
    hide Token;
  }

  lemma PatternStep(ra: Registry, a: seq<Key>, rb: Registry, b: seq<Key>, x: Key, y: Key)
    requires HasExactly(ra, a) && HasExactly(rb, b)
    requires SamePattern(a + [x], b + [y])
    requires ra.namespace == rb.namespace && ra.counters == rb.counters && SameTokens(ra, a, rb, b)
    ensures Mint(ra, x).counters == Mint(rb, y).counters
    ensures SameTokens(Mint(ra, x), a + [x], Mint(rb, y), b + [y])
  {
    hide Mint, SamePattern, SameTokens;
    PatternLast(a, b, x, y);
    if x in a {
      PatternRepeats(ra, a, rb, b, x, y);
    } else {
      assert y !in b;
      PatternGrows(ra, a, rb, b, x, y);
    }
  }

  lemma PatternPrefix(a: seq<Key>, b: seq<Key>, n: nat)
    requires SamePattern(a, b) && n <= |a|
    ensures SamePattern(a[..n], b[..n])
  {
  }

  lemma {:induction false} PatternGivesTokens(namespace: string, a: seq<Key>, b: seq<Key>)
    requires SamePattern(a, b)
    ensures MintAll(Fresh(namespace), a).counters == MintAll(Fresh(namespace), b).counters
    ensures SameTokens(MintAll(Fresh(namespace), a), a, MintAll(Fresh(namespace), b), b)
  {
    if a != [] {
      hide MintAll, Mint, SameTokens, HasExactly;
      var n := |a| - 1;
      var r, p, q, x, y := Fresh(namespace), a[..n], b[..n], a[n], b[n];
      assert a == p + [x] && b == q + [y];
      PatternPrefix(a, b, n);
      hide SamePattern;
      PatternGivesTokens(namespace, p, q);
      HoldsExactly(r, p);
      HoldsExactly(r, q);
      MintKeepsNamespace(r, p);
      MintKeepsNamespace(r, q);
      MintAllSnoc(r, p, x);
      MintAllSnoc(r, q, y);
      PatternStep(MintAll(r, p), p, MintAll(r, q), q, x, y);
    }
  }

  /** Two sequences of calls receive the same tokens exactly when they have the same types
      and the same pattern of equal values: tokens reveal that pattern and nothing else. */
  lemma TokensRevealOnlyThePattern(namespace: string, a: seq<Key>, b: seq<Key>)
    requires |namespace| == 8
    ensures SameTokens(MintAll(Fresh(namespace), a), a, MintAll(Fresh(namespace), b), b) <==> SamePattern(a, b)
  {
    var ra, rb := MintAll(Fresh(namespace), a), MintAll(Fresh(namespace), b);
    hide MintAll, Token, Distinct, Tally;
    if SamePattern(a, b) {
      PatternGivesTokens(namespace, a, b);
    }
    if SameTokens(ra, a, rb, b) {
      MintingIsBijective(namespace, a);
      MintingIsBijective(namespace, b);
      forall i | 0 <= i < |a| ensures a[i].entityType == b[i].entityType {
        SameTokenSameType(namespace, a, b, i);
      }
    }
  }

  lemma SameTokenSameType(namespace: string, a: seq<Key>, b: seq<Key>, i: nat)
    requires |namespace| == 8 && i < |a| && i < |b|
    requires a[i] in MintAll(Fresh(namespace), a).valueToToken && b[i] in MintAll(Fresh(namespace), b).valueToToken
    requires MintAll(Fresh(namespace), a).valueToToken[a[i]] == MintAll(Fresh(namespace), b).valueToToken[b[i]]
    ensures a[i].entityType == b[i].entityType
  {
    var ra, rb := MintAll(Fresh(namespace), a), MintAll(Fresh(namespace), b);
    MintAllHolds(namespace, a);
    MintAllHolds(namespace, b);
    MintKeepsNamespace(Fresh(namespace), a);
    MintKeepsNamespace(Fresh(namespace), b);
    hide Token, Dec, MintAll, Distinct, Tally;
    var j := HeldToken(ra, Distinct(a), a[i]);
    var k := HeldToken(rb, Distinct(b), b[i]);
    TokenInjective(namespace, a[i].entityType, Tally(Distinct(a)[..j + 1], a[i].entityType),
                   b[i].entityType, Tally(Distinct(b)[..k + 1], b[i].entityType));
  }

  // ---------- The class ----------

  lemma RehydrateStep(values: map<string, string>, restored: string, rest: string)
    requires rest != []
    ensures var n := MatchLength(rest);
            restored + Substitute(values, rest) ==
            if n == 0 then restored + [rest[0]] + Substitute(values, rest[1..])
            else restored + (if rest[..n] in values then values[rest[..n]] else rest[..n]) + Substitute(values, rest[n..])
  {
    SubstituteStep(values, rest);
  }

  const NAMESPACE_ATTEMPTS := 32

  class TokenizationContext {
    const namespace: string
    var tokenToValue: map<string, string>
    var valueToToken: map<Key, string>
    var counters: map<string, nat>

    function View(): Registry
      reads this
    {
      Registry(namespace, tokenToValue, valueToToken, counters)
    }

    constructor (namespace: string)
      ensures View() == Fresh(namespace)
    {
      this.namespace := namespace;
      tokenToValue, valueToToken, counters := map[], map[], map[];
    }

    /** Takes the first random candidate that the request text does not contain; no context
        (a RuntimeError) when it contains all of them. */
    static method Create(requestText: string, candidates: seq<string>) returns (context: TokenizationContext?)
      requires |candidates| == NAMESPACE_ATTEMPTS && forall i :: 0 <= i < |candidates| ==> IsNamespace(candidates[i])
      ensures context == null <==> forall i :: 0 <= i < |candidates| ==> Contains(requestText, candidates[i])
      ensures context != null ==>
        && fresh(context)
        && IsNamespace(context.namespace) && !Contains(requestText, context.namespace)
        && context.View() == Fresh(context.namespace)
      ensures context != null ==>
        exists k :: 0 <= k < |candidates| && context.namespace == candidates[k]
                    && forall i :: 0 <= i < k ==> Contains(requestText, candidates[i])
    {
      for i := 0 to NAMESPACE_ATTEMPTS
        invariant forall j :: 0 <= j < i ==> Contains(requestText, candidates[j])
      {
        if !Contains(requestText, candidates[i]) {
          context := new TokenizationContext(candidates[i]);
          return;
        }
      }
      context := null;
    }

    method TokenFor(entityType: string, value: string) returns (token: string)
      modifies this
      ensures View() == Mint(old(View()), Key(entityType, value))
      ensures token == View().valueToToken[Key(entityType, value)]
    {
      var key := Key(entityType, value);
      if key in valueToToken {
        return valueToToken[key];
      }
      var n := (if entityType in counters then counters[entityType] else 0) + 1;
      counters := counters[entityType := n];
      token := Token(namespace, entityType, n);
      valueToToken := valueToToken[key := token];
      tokenToValue := tokenToValue[token := value];
    }

    method Rehydrate(text: string) returns (restored: string)
      ensures restored == Substitute(tokenToValue, text)
    {
      hide *;
      restored := "";
      var i := 0;
      assert text[0..] == text;
      while i < |text|
        invariant 0 <= i <= |text|
        invariant restored + Substitute(tokenToValue, text[i..]) == Substitute(tokenToValue, text)
      {
        var rest := text[i..];
        var n := MatchLength(rest);
        RehydrateStep(tokenToValue, restored, rest);
        if n > 0 {
          var token := rest[..n];
          restored := restored + if token in tokenToValue then tokenToValue[token] else token;
          assert rest[n..] == text[i + n..];
          i := i + n;
        } else {
          restored := restored + [rest[0]];
          assert rest[1..] == text[i + 1..];
          i := i + 1;
        }
      }
      SubstituteStep(tokenToValue, text[i..]);
    }

    /** Drops all mappings; the namespace stays. */
    method Clear()
      modifies this
      ensures View() == Fresh(namespace)
    {
      tokenToValue, valueToToken, counters := map[], map[], map[];
    }
  }
}
