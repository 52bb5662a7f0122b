/** The text-similarity score of the chat widget: `calculateSimilarity` in
    src/App.tsx. Both strings are normalised (lower-cased, `.`, `,`, `?`
    and `!` deleted), split on single spaces, and compared by the cosine of
    their binary word-presence vectors over the union of their words.

    Dafny has no square root, so the model works with the SQUARE of the
    cosine, an exact rational: `dot * dot / (n1 * n2)`, where `n1` and `n2`
    are the sums of squares that the source passes to `Math.sqrt`. The cosine
    is never negative, so squaring keeps every comparison the source makes
    (`sim > 0.3` becomes `sim^2 > 0.09`, `sim1 > sim2` becomes
    `sim1^2 > sim2^2`). */
module Similarity {

  // ---------------------------------------------------------------------
  // Normalisation: toLowerCase, then replace(/[.,?!]/g, '')
  // ---------------------------------------------------------------------

  /** `toLowerCase` on one character, for the ASCII letters. */
  function LowerChar(c: char): char {
    if 'A' <= c <= 'Z' then (c as int - 'A' as int + 'a' as int) as char else c
  }

  predicate IsUpper(c: char) {
    'A' <= c <= 'Z'
  }

  function ToLower(s: string): (r: string)
    ensures |r| == |s|
    ensures forall i :: 0 <= i < |r| ==> !IsUpper(r[i])
    ensures forall i :: 0 <= i < |s| && !IsUpper(s[i]) ==> r[i] == s[i]
    ensures forall i :: 0 <= i < |s| && IsUpper(s[i]) ==> r[i] as int == s[i] as int + 32
  {
    seq(|s|, i requires 0 <= i < |s| => LowerChar(s[i]))
  }

  /** Two strings that differ at most in the case of ASCII letters: at
      every position the characters are equal, or one is an upper-case
      letter and the other its lower-case counterpart. */
  predicate SameUpToCase(s: string, t: string) {
    && |s| == |t|
    && forall i :: 0 <= i < |s| ==>
         || s[i] == t[i]
         || (IsUpper(s[i]) && t[i] as int == s[i] as int + 32)
         || (IsUpper(t[i]) && s[i] as int == t[i] as int + 32)
  }

  /** The four characters the regular expression `/[.,?!]/g` deletes. */
  predicate IsStripped(c: char) {
    c == '.' || c == ',' || c == '?' || c == '!'
  }

  function StripPunctuation(s: string): (r: string)
    ensures |r| <= |s|
    ensures forall i :: 0 <= i < |r| ==> !IsStripped(r[i])
    ensures forall c :: c in r ==> c in s
  {
    if s == [] then []
    else (if IsStripped(s[0]) then [] else [s[0]]) + StripPunctuation(s[1..])
  }

  function Normalize(s: string): (r: string)
    ensures IsNormalized(r)
    ensures |r| <= |s|
  {
    var lower := ToLower(s);
    var r := StripPunctuation(lower);
    assert forall i :: 0 <= i < |r| ==> r[i] in lower;
    r
  }

  /** A string that normalisation leaves alone: no upper-case ASCII letter
      and none of `.,?!`. */
  predicate IsNormalized(s: string) {
    forall i :: 0 <= i < |s| ==> !IsUpper(s[i]) && !IsStripped(s[i])
  }

  /** A word of lower-case ASCII letters. */
  predicate IsPlainWord(w: string) {
    forall i :: 0 <= i < |w| ==> 'a' <= w[i] <= 'z'
  }

  // ---------------------------------------------------------------------
  // Tokenisation: split(' '), which keeps empty tokens
  // ---------------------------------------------------------------------

  /** `s.split(' ')`: the pieces between single spaces, in order. There is
      always at least one piece (the empty string splits into [""]), and two
      adjacent spaces give an empty piece. */
  function Split(s: string): (r: seq<string>)
    ensures |r| >= 1
    ensures forall k :: 0 <= k < |r| ==> ' ' !in r[k]
  {
    if s == [] then [""]
    else
      var rest := Split(s[1..]);
      if s[0] == ' ' then [""] + rest
      else [[s[0]] + rest[0]] + rest[1..]
  }

  /** `ws.join(' ')`, the inverse of Split. */
  function Join(ws: seq<string>): string {
    if ws == [] then "" else if |ws| == 1 then ws[0] else ws[0] + " " + Join(ws[1..])
  }

  /** The word tokens `calculateSimilarity` builds from one of its inputs. */
  function Tokens(s: string): (r: seq<string>)
    ensures |r| >= 1
  {
    Split(Normalize(s))
  }

  // ---------------------------------------------------------------------
  // Presence vectors and their cosine
  // ---------------------------------------------------------------------

  function Elems(s: seq<string>): set<string> {
    set x | x in s
  }

  predicate Distinct(s: seq<string>) {
    forall i, j :: 0 <= i < j < |s| ==> s[i] != s[j]
  }

  /** `Array.from(new Set(s))`: the distinct elements of `s`, each at its
      first occurrence. */
  function Dedup(s: seq<string>): (r: seq<string>)
    ensures Distinct(r)
    ensures Elems(r) == Elems(s)
  {
    if s == [] then []
    else
      var d := Dedup(s[..|s| - 1]);
      assert s == s[..|s| - 1] + [s[|s| - 1]];
      assert Elems(s) == Elems(s[..|s| - 1]) + {s[|s| - 1]};
      if s[|s| - 1] in d then d else d + [s[|s| - 1]]
  }

  /** The vocabulary `new Set([...words1, ...words2])`. */
  function Vocabulary(words1: seq<string>, words2: seq<string>): seq<string> {
    Dedup(words1 + words2)
  }

  /** `vocab.map(word => words.includes(word) ? 1 : 0)`. */
  function Presence(vocab: seq<string>, words: seq<string>): (v: seq<int>)
    ensures |v| == |vocab|
  {
    seq(|vocab|, i requires 0 <= i < |vocab| => if vocab[i] in words then 1 else 0)
  }

  /** `v1.reduce((sum, val, i) => sum + val * v2[i], 0)`; with `v1 == v2`
      it is also the sum of squares whose root is the magnitude. */
  function Dot(v1: seq<int>, v2: seq<int>): int
    requires |v1| == |v2|
  {
    if v1 == [] then 0 else v1[0] * v2[0] + Dot(v1[1..], v2[1..])
  }

  /** The squared cosine of the presence vectors of two token lists, with
      the guard that scores 0 when either magnitude is 0. */
  function TokenSimilaritySquared(words1: seq<string>, words2: seq<string>): (r: real)
    ensures r == SetCosineSquared(Elems(words1), Elems(words2))
  {
    var vocab := Vocabulary(words1, words2);
    var v1 := Presence(vocab, words1);
    var v2 := Presence(vocab, words2);
    var n1 := Dot(v1, v1);
    var n2 := Dot(v2, v2);
    VectorsCountWords(words1, words2);
    if n1 == 0 || n2 == 0 then 0.0
    else (Dot(v1, v2) * Dot(v1, v2)) as real / (n1 * n2) as real
  }

  /** Reference definition: the squared cosine of two word SETS,
      |A∩B|^2 / (|A|·|B|), and 0 when either set is empty. */
  function SetCosineSquared(a: set<string>, b: set<string>): (r: real)
    ensures 0.0 <= r <= 1.0
  {
    IntersectionBound(a, b);
    if |a| == 0 || |b| == 0 then 0.0
    else
      var i := |a * b|;
      ProductBound(i, |a|, |b|);
      RatioAtMostOne((i * i) as real, (|a| * |b|) as real);
      (i * i) as real / (|a| * |b|) as real
  }

  /** The set of normalised words of a string. */
  function TokenSet(s: string): (a: set<string>)
    ensures a != {}
  {
    var t := Tokens(s);
    assert t[0] in Elems(t);
    Elems(t)
  }

  /** The score `calculateSimilarity(s1, s2)`, squared. It is the cosine of
      the two token sets, and lies between 0 and 1. */
  function SquaredSimilarity(s1: string, s2: string): (r: real)
    ensures r == SetCosineSquared(TokenSet(s1), TokenSet(s2))
    ensures 0.0 <= r <= 1.0
  {
    TokenSimilaritySquared(Tokens(s1), Tokens(s2))
  }

  // ---------------------------------------------------------------------
  // Arithmetic and set helpers
  // ---------------------------------------------------------------------

  lemma IntersectionBound(a: set<string>, b: set<string>)
    ensures |a * b| <= |a| && |a * b| <= |b|
  {
    assert a == (a - b) + (a * b);
    assert b == (b - a) + (a * b);
  }

  lemma ProductBound(i: nat, x: nat, y: nat)
    requires i <= x && i <= y
    ensures i * i <= x * y
  {
    assert i * i <= i * y;
    assert i * y <= x * y;
  }

  lemma RatioAtMostOne(p: real, q: real)
    requires 0.0 <= p <= q && q > 0.0
    ensures 0.0 <= p / q <= 1.0
  {
  }

  /** Number of positions of `v` that hold an element of `s`. */
  function CountIn(v: seq<string>, s: set<string>): nat {
    if v == [] then 0 else (if v[0] in s then 1 else 0) + CountIn(v[1..], s)
  }

  // ---------------------------------------------------------------------
  // The vector computation equals the set cosine
  // ---------------------------------------------------------------------

  /** The dot product of two presence vectors counts the vocabulary words
      present in both token lists. */
  lemma {:induction false} DotOfPresence(vocab: seq<string>, words1: seq<string>, words2: seq<string>)
    ensures Dot(Presence(vocab, words1), Presence(vocab, words2)) == CountIn(vocab, Elems(words1) * Elems(words2))
  {
    if vocab != [] {
      var v1, v2 := Presence(vocab, words1), Presence(vocab, words2);
      assert v1[1..] == Presence(vocab[1..], words1);
      assert v2[1..] == Presence(vocab[1..], words2);
      DotOfPresence(vocab[1..], words1, words2);
      assert vocab[0] in Elems(words1) <==> vocab[0] in words1;
      assert vocab[0] in Elems(words2) <==> vocab[0] in words2;
    }
  }

  /** Over a list without repetitions, counting members of `s` is the size
      of the intersection. */
  lemma {:induction false} CountDistinct(v: seq<string>, s: set<string>)
    requires Distinct(v)
    ensures CountIn(v, s) == |Elems(v) * s|
  {
    if v == [] {
      assert Elems(v) == {};
    } else {
      var tail := v[1..];
      HeadNotInTail(v);
      CountDistinct(tail, s);
      var rest := Elems(tail) * s;
      assert CountIn(v, s) == (if v[0] in s then 1 else 0) + |rest|;
      assert v[0] !in rest;
      if v[0] in s {
        assert Elems(v) * s == rest + {v[0]};
        assert |rest + {v[0]}| == |rest| + 1;
      } else {
        assert Elems(v) * s == rest;
      }
    }
  }

  lemma HeadNotInTail(v: seq<string>)
    requires Distinct(v) && v != []
    ensures Distinct(v[1..])
    ensures v[0] !in Elems(v[1..])
    ensures Elems(v) == {v[0]} + Elems(v[1..])
  {
    assert v == [v[0]] + v[1..];
    forall k | 0 <= k < |v[1..]| ensures v[1..][k] != v[0] {
      assert v[1..][k] == v[k + 1];
    }
  }

  /** The central fact behind TokenSimilaritySquared: over the vocabulary,
      the dot product counts the shared words and each sum of squares
      counts the words of one side. */
  lemma VectorsCountWords(words1: seq<string>, words2: seq<string>)
    ensures var vocab := Vocabulary(words1, words2);
      var v1, v2 := Presence(vocab, words1), Presence(vocab, words2);
      && Dot(v1, v2) == |Elems(words1) * Elems(words2)|
      && Dot(v1, v1) == |Elems(words1)|
      && Dot(v2, v2) == |Elems(words2)|
  {
    var a, b := Elems(words1), Elems(words2);
    var vocab := Vocabulary(words1, words2);
    assert Elems(words1 + words2) == a + b;
    assert Elems(vocab) == a + b;
    DotOfPresence(vocab, words1, words2);
    DotOfPresence(vocab, words1, words1);
    DotOfPresence(vocab, words2, words2);
    CountDistinct(vocab, a * b);
    CountDistinct(vocab, a * a);
    CountDistinct(vocab, b * b);
    assert (a + b) * (a * b) == a * b;
    assert (a + b) * (a * a) == a;
    assert (a + b) * (b * b) == b;
  }

  // ---------------------------------------------------------------------
  // Properties of the score
  // ---------------------------------------------------------------------

  /** The score does not depend on the order of its arguments. */
  lemma SimilaritySymmetric(s1: string, s2: string)
    ensures SquaredSimilarity(s1, s2) == SquaredSimilarity(s2, s1)
  {
    var a, b := TokenSet(s1), TokenSet(s2);
    assert a * b == b * a;
    assert |a| * |b| == |b| * |a|;
  }

  /** Presence, not frequency: two token lists with the same words (in any
      order, any number of times) score the same against anything. */
  lemma RepetitionIgnored(words1: seq<string>, words1': seq<string>, words2: seq<string>)
    requires Elems(words1) == Elems(words1')
    ensures TokenSimilaritySquared(words1, words2) == TokenSimilaritySquared(words1', words2)
  {
  }

  /** The magnitude guard: a token list with no words scores 0. */
  lemma EmptyScoresZero(words1: seq<string>, words2: seq<string>)
    requires words1 == [] || words2 == []
    ensures TokenSimilaritySquared(words1, words2) == 0.0
  {
    assert Elems([]) == {};
  }

  /** The guard is never taken for strings: both magnitudes are at least 1,
      because splitting always yields a token. */
  lemma MagnitudesPositive(s1: string, s2: string)
    ensures var vocab := Vocabulary(Tokens(s1), Tokens(s2));
            Dot(Presence(vocab, Tokens(s1)), Presence(vocab, Tokens(s1))) >= 1 &&
            Dot(Presence(vocab, Tokens(s2)), Presence(vocab, Tokens(s2))) >= 1
  {
    var w1, w2 := Tokens(s1), Tokens(s2);
    var vocab := Vocabulary(w1, w2);
    assert Elems(vocab) == Elems(w1) + Elems(w2) by {
      assert Elems(w1 + w2) == Elems(w1) + Elems(w2);
    }
    MagnitudeOfWords(vocab, w1);
    MagnitudeOfWords(vocab, w2);
  }

  /** Over a vocabulary holding every word of a non-empty token list, the
      list's presence vector has a magnitude of at least 1. */
  lemma MagnitudeOfWords(vocab: seq<string>, words: seq<string>)
    requires Distinct(vocab) && words != [] && Elems(words) <= Elems(vocab)
    ensures Dot(Presence(vocab, words), Presence(vocab, words)) >= 1
  {
    var a := Elems(words);
    DotOfPresence(vocab, words, words);
    CountDistinct(vocab, a * a);
    assert Elems(vocab) * (a * a) == a;
    assert words[0] in a;
  }

  /** Full score exactly when the two strings have the same word set. */
  lemma ScoreOneIffSameWords(s1: string, s2: string)
    ensures SquaredSimilarity(s1, s2) == 1.0 <==> TokenSet(s1) == TokenSet(s2)
  {
    SetCosineOneIff(TokenSet(s1), TokenSet(s2));
  }

  lemma SetCosineOneIff(a: set<string>, b: set<string>)
    requires a != {} && b != {}
    ensures SetCosineSquared(a, b) == 1.0 <==> a == b
  {
    IntersectionBound(a, b);
    var i, x, y := |a * b|, |a|, |b|;
    assert x * y > 0;
    RatioIsOne((i * i) as real, (x * y) as real);
    if SetCosineSquared(a, b) == 1.0 {
      SquareIsProduct(i, x, y);
      FullIntersection(a, b);
    }
    if a == b {
      assert a * b == a;
    }
  }

  lemma RatioIsOne(p: real, q: real)
    requires q > 0.0
    ensures p / q == 1.0 <==> p == q
  {
  }

  lemma RatioIsZero(p: real, q: real)
    requires q > 0.0
    ensures p / q == 0.0 <==> p == 0.0
  {
  }

  lemma SquareIsProduct(i: nat, x: nat, y: nat)
    requires i <= x && i <= y && i * i == x * y && x > 0 && y > 0
    ensures i == x && i == y
  {
    assert i * i <= i * y <= x * y;
    assert (x - i) * y == 0;
    assert i * i <= x * i <= x * y;
    assert x * (y - i) == 0;
  }

  lemma FullIntersection(a: set<string>, b: set<string>)
    requires |a * b| == |a| && |a * b| == |b|
    ensures a == b
  {
    assert a == (a - b) + (a * b);
    assert b == (b - a) + (a * b);
    assert a - b == {};
    assert b - a == {};
  }

  /** Zero score exactly when the two strings share no word. */
  lemma ScoreZeroIffDisjoint(s1: string, s2: string)
    ensures SquaredSimilarity(s1, s2) == 0.0 <==> TokenSet(s1) !! TokenSet(s2)
  {
    SetCosineZeroIff(TokenSet(s1), TokenSet(s2));
  }

  lemma SetCosineZeroIff(a: set<string>, b: set<string>)
    requires a != {} && b != {}
    ensures SetCosineSquared(a, b) == 0.0 <==> a !! b
  {
    var i := |a * b|;
    assert |a| * |b| > 0;
    RatioIsZero((i * i) as real, (|a| * |b|) as real);
    assert i * i == 0 <==> i == 0;
    assert i == 0 <==> a * b == {};
    if a * b != {} {
      var w :| w in a * b;
      assert w in a && w in b;
    } else {
      forall x | x in a ensures x !in b {
        assert x !in a * b;
      }
    }
  }

  /** Letter case is ignored: strings that differ only in the case of
      ASCII letters normalise alike. */
  lemma CaseIgnored(s: string, t: string)
    requires SameUpToCase(s, t)
    ensures Normalize(s) == Normalize(t)
  {
    assert ToLower(s) == ToLower(t);
  }

  /** `.`, `,`, `?` and `!` are ignored: deleting one anywhere does not
      change the normal form. */
  lemma PunctuationIgnored(a: string, p: char, b: string)
    requires IsStripped(p)
    ensures Normalize(a + [p] + b) == Normalize(a + b)
  {
    NormalizeAppend(a + [p], b);
    NormalizeAppend(a, [p]);
    NormalizeAppend(a, b);
    assert ToLower([p]) == [p];
  }

  /** Inputs that normalise alike, for instance by CaseIgnored or
      PunctuationIgnored, are indistinguishable to the matcher: they score
      the same against every string, and full score against each other. */
  lemma CaseAndPunctuationIgnored(s1: string, s2: string, t: string)
    requires Normalize(s1) == Normalize(s2)
    ensures SquaredSimilarity(s1, t) == SquaredSimilarity(s2, t)
    ensures SquaredSimilarity(s1, s2) == 1.0
  {
    ScoreOneIffSameWords(s1, s2);
  }

  /** The threshold test `sim > 0.3` in integers: 100·i^2 > 9·|A|·|B|. */
  lemma ThresholdAsIntegers(a: set<string>, b: set<string>)
    requires a != {} && b != {}
    ensures SetCosineSquared(a, b) > 0.09 <==> 100 * |a * b| * |a * b| > 9 * |a| * |b|
  {
    var p, q := (|a * b| * |a * b|) as real, (|a| * |b|) as real;
    assert q > 0.0;
    DivisionCompare(p, q, 0.09);
  }

  lemma DivisionCompare(p: real, q: real, t: real)
    requires q > 0.0
    ensures p / q > t <==> p > t * q
  {
  }

  /** `sim1 > sim2` in integers: i1^2·|A2|·|B2| > i2^2·|A1|·|B1|. */
  lemma CompareAsIntegers(a1: set<string>, b1: set<string>, a2: set<string>, b2: set<string>)
    requires a1 != {} && b1 != {} && a2 != {} && b2 != {}
    ensures SetCosineSquared(a1, b1) > SetCosineSquared(a2, b2)
        <==> |a1 * b1| * |a1 * b1| * (|a2| * |b2|) > |a2 * b2| * |a2 * b2| * (|a1| * |b1|)
  {
    var p1, q1 := |a1 * b1| * |a1 * b1|, |a1| * |b1|;
    var p2, q2 := |a2 * b2| * |a2 * b2|, |a2| * |b2|;
    assert q1 > 0 && q2 > 0;
    CrossMultiply(p1 as real, q1 as real, p2 as real, q2 as real);
  }

  lemma CrossMultiply(p1: real, q1: real, p2: real, q2: real)
    requires q1 > 0.0 && q2 > 0.0
    ensures p1 / q1 > p2 / q2 <==> p1 * q2 > p2 * q1
  {
    var r1, r2 := p1 / q1, p2 / q2;
    assert p1 == r1 * q1;
    assert p2 == r2 * q2;
    assert p1 * q2 == r1 * (q1 * q2);
    assert p2 * q1 == r2 * (q1 * q2);
  }

  // ---------------------------------------------------------------------
  // Properties of normalisation and tokenisation
  // ---------------------------------------------------------------------

  lemma {:induction false} StripAppend(s: string, t: string)
    ensures StripPunctuation(s + t) == StripPunctuation(s) + StripPunctuation(t)
  {
    if s != [] {
      assert (s + t)[1..] == s[1..] + t;
      StripAppend(s[1..], t);
    } else {
      assert s + t == t;
    }
  }

  lemma {:induction false} StripKeepsClean(s: string)
    requires forall i :: 0 <= i < |s| ==> !IsStripped(s[i])
    ensures StripPunctuation(s) == s
  {
    if s != [] {
      StripKeepsClean(s[1..]);
    }
  }

  /** A string is left unchanged by normalisation exactly when it has no
      upper-case letter and none of `.,?!`. */
  lemma NormalizedIffFixpoint(s: string)
    ensures IsNormalized(s) <==> Normalize(s) == s
  {
    if IsNormalized(s) {
      assert ToLower(s) == s;
      StripKeepsClean(s);
    }
    if Normalize(s) == s {
      forall i | 0 <= i < |s| ensures !IsUpper(s[i]) && !IsStripped(s[i]) {
        assert s[i] in ToLower(s);
      }
    }
  }

  /** Normalising twice is normalising once. */
  lemma NormalizeIdempotent(s: string)
    ensures Normalize(Normalize(s)) == Normalize(s)
  {
    var n := Normalize(s);
    forall i | 0 <= i < |n| ensures !IsUpper(n[i]) && !IsStripped(n[i]) {
      assert n[i] in n;
      assert n[i] in ToLower(s);
    }
    NormalizedIffFixpoint(n);
  }

  /** Splitting a string that starts with a space-free word `w`: the first
      piece grows by `w`. */
  lemma {:induction false} SplitPrefix(w: string, t: string)
    requires ' ' !in w
    ensures Split(w + t) == [w + Split(t)[0]] + Split(t)[1..]
  {
    if w == [] {
      var st := Split(t);
      assert w + t == t;
      assert w + st[0] == st[0];
      assert [st[0]] + st[1..] == st;
    } else {
      assert (w + t)[1..] == w[1..] + t;
      SplitPrefix(w[1..], t);
      assert [w[0]] + (w[1..] + Split(t)[0]) == w + Split(t)[0];
    }
  }

  /** Join undoes Split. */
  lemma {:induction false} SplitJoin(s: string)
    ensures Join(Split(s)) == s
  {
    if s != [] {
      var rest := Split(s[1..]);
      SplitJoin(s[1..]);
      if s[0] == ' ' {
        assert ([""] + rest)[1..] == rest;
        assert s == [s[0]] + s[1..];
      } else {
        var r := [[s[0]] + rest[0]] + rest[1..];
        if |rest| == 1 {
          assert s == [s[0]] + rest[0];
        } else {
          assert r[1..] == rest[1..];
          assert s == [s[0]] + (rest[0] + " " + Join(rest[1..]));
        }
      }
    }
  }

  /** Split undoes Join, for words without spaces. */
  lemma {:induction false} JoinSplit(ws: seq<string>)
    requires |ws| >= 1
    requires forall k :: 0 <= k < |ws| ==> ' ' !in ws[k]
    ensures Split(Join(ws)) == ws
  {
    if |ws| == 1 {
      SplitPrefix(ws[0], "");
      assert ws[0] + "" == ws[0];
    } else {
      JoinSplit(ws[1..]);
      var t := Join(ws[1..]);
      assert Join(ws) == ws[0] + (" " + t);
      assert (" " + t)[0] == ' ' && (" " + t)[1..] == t;
      assert Split(" " + t) == [""] + ws[1..];
      SplitPrefix(ws[0], " " + t);
      assert ws[0] + "" == ws[0];
      assert ([""] + ws[1..])[1..] == ws[1..];
      assert ws == [ws[0]] + ws[1..];
    }
  }

  /** A phrase of plain words joined by single spaces holds only spaces and
      lower-case letters. */
  lemma {:induction false} JoinOfPlainWords(ws: seq<string>)
    requires forall k :: 0 <= k < |ws| ==> IsPlainWord(ws[k])
    ensures forall i :: 0 <= i < |Join(ws)| ==> Join(ws)[i] == ' ' || 'a' <= Join(ws)[i] <= 'z'
  {
    if |ws| > 1 {
      JoinOfPlainWords(ws[1..]);
      var t := Join(ws[1..]);
      assert Join(ws) == ws[0] + " " + t;
      forall i | 0 <= i < |Join(ws)|
        ensures Join(ws)[i] == ' ' || 'a' <= Join(ws)[i] <= 'z'
      {
        if i < |ws[0]| {
          assert Join(ws)[i] == ws[0][i];
        } else if i > |ws[0]| {
          assert Join(ws)[i] == t[i - |ws[0]| - 1];
        }
      }
    }
  }

  /** A phrase of plain words, joined by single spaces, is already
      normalised and tokenises back into exactly those words. */
  lemma TokensOfJoin(ws: seq<string>)
    requires |ws| >= 1
    requires forall k :: 0 <= k < |ws| ==> IsPlainWord(ws[k])
    ensures IsNormalized(Join(ws))
    ensures Tokens(Join(ws)) == ws
  {
    var joined := Join(ws);
    assert IsNormalized(joined) by {
      JoinOfPlainWords(ws);
    }
    assert Normalize(joined) == joined by {
      NormalizedIffFixpoint(joined);
    }
    assert Split(joined) == ws by {
      forall k | 0 <= k < |ws| ensures ' ' !in ws[k] {
        assert forall i :: 0 <= i < |ws[k]| ==> ws[k][i] != ' ';
      }
      JoinSplit(ws);
    }
  }

  /** Lower-casing works character by character. */
  lemma ToLowerAppend(a: string, b: string)
    ensures ToLower(a + b) == ToLower(a) + ToLower(b)
  {
  }

  /** Normalisation works piece by piece: a sentence can be normalised one
      chunk at a time. */
  lemma NormalizeAppend(a: string, b: string)
    ensures Normalize(a + b) == Normalize(a) + Normalize(b)
  {
    ToLowerAppend(a, b);
    StripAppend(ToLower(a), ToLower(b));
  }
}
