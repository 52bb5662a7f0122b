/** `findBestMatch` in src/App.tsx: the topic of the stored pattern most
    similar to the visitor's input, provided that similarity beats 0.3.

    The source walks `Object.entries(questionPatterns)` topic by topic and,
    inside each topic, its patterns in order, keeping a running best that
    starts at 0.3 and is replaced only by a STRICTLY greater score. The
    model flattens that walk into one sequence of candidates, scores each
    candidate against the input, specifies the walk as a fold over the
    scores (Walk), proves what the fold computes (WalkSpec), and proves the
    two nested loops of FindBestMatch equal to the fold.
    Scores are squared cosines (see module Similarity), so the starting
    value 0.3 becomes 0.09. */
module Matcher {
  import opened Wrappers
  import Similarity
  import opened ChatConfig

  /** The source's starting `highestSimilarity` of 0.3, squared. */
  const Threshold: real := 0.09

  /** One pattern together with the topic it belongs to. */
  datatype Candidate = Candidate(topic: Topic, pattern: string)

  /** A candidate's topic together with its score against the input. */
  datatype Scored = Scored(topic: Topic, score: real)

  /** The state of the walk: `bestMatch` and `highestSimilarity`. */
  datatype Running = Running(best: Option<Topic>, highest: real)

  /** `calculateSimilarity(input, pattern)`, squared. */
  function Score(input: string, c: Candidate): real {
    Similarity.SquaredSimilarity(input, c.pattern)
  }

  /** The candidates of one entry, in pattern order. */
  function Pairs(t: Topic, ps: seq<string>): (r: seq<Candidate>)
    ensures |r| == |ps|
  {
    seq(|ps|, k requires 0 <= k < |ps| => Candidate(t, ps[k]))
  }

  /** Every candidate of a sequence of entries, in the order of the two
      nested loops: entry by entry, and pattern by pattern inside an entry. */
  function Flatten(entries: seq<Entry>): seq<Candidate> {
    if entries == [] then []
    else
      var last := entries[|entries| - 1];
      Flatten(entries[..|entries| - 1]) + Pairs(last.topic, last.patterns)
  }

  /** Every candidate, scored against the input. */
  function Scores(input: string, cands: seq<Candidate>): (r: seq<Scored>)
    ensures |r| == |cands|
  {
    seq(|cands|, k requires 0 <= k < |cands| => Scored(cands[k].topic, Score(input, cands[k])))
  }

  /** One iteration of the inner loop body. */
  function Step(r: Running, s: Scored): Running {
    if s.score > r.highest then Running(Some(s.topic), s.score) else r
  }

  /** The walk over a sequence of scored candidates, from the initial
      state. */
  function Walk(ss: seq<Scored>): (r: Running)
    ensures r.highest >= Threshold
    ensures r.best == None <==> r.highest == Threshold
  {
    if ss == [] then Running(None, Threshold)
    else Step(Walk(ss[..|ss| - 1]), ss[|ss| - 1])
  }

  /** What `findBestMatch(input, questionPatterns)` returns. */
  function BestMatch(input: string, entries: seq<Entry>): Option<Topic> {
    Walk(Scores(input, Flatten(entries))).best
  }

  /** No entry scores above the threshold. */
  predicate NoneAbove(ss: seq<Scored>) {
    forall m :: 0 <= m < |ss| ==> ss[m].score <= Threshold
  }

  /** Entry k beats the threshold, no entry scores higher, and every entry
      before it scores strictly lower: the one a walk with a strict `>`
      settles on. */
  predicate IsFirstBest(ss: seq<Scored>, k: int) {
    && 0 <= k < |ss|
    && ss[k].score > Threshold
    && (forall m :: 0 <= m < |ss| ==> ss[m].score <= ss[k].score)
    && (forall m :: 0 <= m < k ==> ss[m].score < ss[k].score)
  }

  /** The order of Flatten: the candidates of a concatenation of entries are
      those of the first part followed by those of the second. */
  lemma {:induction false} FlattenAppend(a: seq<Entry>, b: seq<Entry>)
    ensures Flatten(a + b) == Flatten(a) + Flatten(b)
    decreases |b|
  {
    if b == [] {
      assert a + b == a;
    } else {
      var init, last := b[..|b| - 1], b[|b| - 1];
      var ab := a + b;
      assert ab[..|ab| - 1] == a + init;
      assert ab[|ab| - 1] == last;
      FlattenAppend(a, init);
      assert Flatten(ab) == Flatten(a + init) + Pairs(last.topic, last.patterns);
      assert Flatten(b) == Flatten(init) + Pairs(last.topic, last.patterns);
    }
  }

  /** Every candidate the walk visits is a pattern of some entry, under
      that entry's topic. */
  lemma {:induction false} FlattenMember(entries: seq<Entry>, m: int)
    requires 0 <= m < |Flatten(entries)|
    ensures exists i, k ::
      && 0 <= i < |entries| && 0 <= k < |entries[i].patterns|
      && Flatten(entries)[m] == Candidate(entries[i].topic, entries[i].patterns[k])
  {
    var init := entries[..|entries| - 1];
    var last := entries[|entries| - 1];
    if m < |Flatten(init)| {
      FlattenMember(init, m);
      var i, k :| 0 <= i < |init| && 0 <= k < |init[i].patterns| &&
        Flatten(init)[m] == Candidate(init[i].topic, init[i].patterns[k]);
      assert init[i] == entries[i];
    } else {
      var k := m - |Flatten(init)|;
      assert Flatten(entries)[m] == Pairs(last.topic, last.patterns)[k];
      assert Flatten(entries)[m] == Candidate(entries[|entries| - 1].topic, entries[|entries| - 1].patterns[k]);
    }
  }

  /** The match depends on the input only through its set of words. */
  lemma SameWordsSameMatch(input1: string, input2: string, entries: seq<Entry>)
    requires Similarity.TokenSet(input1) == Similarity.TokenSet(input2)
    ensures BestMatch(input1, entries) == BestMatch(input2, entries)
  {
    var cands := Flatten(entries);
    assert Scores(input1, cands) == Scores(input2, cands);
  }

  /** A single entry contributes its patterns, in order, under its topic. */
  lemma FlattenSingle(e: Entry)
    ensures Flatten([e]) == Pairs(e.topic, e.patterns)
  {
    assert [e][..0] == [];
  }

  /** Entry k has topic t and score h, and every entry before it scores
      strictly less than h. */
  predicate Leads(ss: seq<Scored>, k: int, t: Topic, h: real) {
    && 0 <= k < |ss|
    && ss[k].topic == t
    && ss[k].score == h
    && forall m :: 0 <= m < k ==> ss[m].score < h
  }

  /** Bounds kept by the walk: the running best never drops below the
      threshold and is at least every score seen; it stays the threshold
      while no topic is found and exceeds it once one is. */
  lemma {:induction false} WalkBounds(ss: seq<Scored>)
    ensures var r := Walk(ss);
      && r.highest >= Threshold
      && (forall m :: 0 <= m < |ss| ==> ss[m].score <= r.highest)
      && (r.best == None <==> r.highest == Threshold)
  {
    if ss != [] {
      var init := ss[..|ss| - 1];
      WalkBounds(init);
      assert forall m :: 0 <= m < |init| ==> ss[m] == init[m];
    }
  }

  /** The topic found owns an entry scoring exactly the running best, and
      every entry before that one scored strictly less. */
  lemma {:induction false} WalkWitness(ss: seq<Scored>)
    ensures var r := Walk(ss);
      r.best.Some? ==> exists k :: Leads(ss, k, r.best.value, r.highest)
  {
    if ss != [] {
      var init := ss[..|ss| - 1];
      var s := ss[|ss| - 1];
      WalkWitness(init);
      WalkBounds(init);
      var p := Walk(init);
      var r := Walk(ss);
      if s.score > p.highest {
        assert Leads(ss, |ss| - 1, r.best.value, r.highest);
      } else if r.best.Some? {
        var k :| Leads(init, k, r.best.value, r.highest);
        assert forall m :: 0 <= m <= k ==> ss[m] == init[m];
        assert Leads(ss, k, r.best.value, r.highest);
      }
    }
  }

  /** What the walk computes. It finds no topic exactly when no entry
      scores above the threshold (a similarity of exactly 0.3 never
      matches); otherwise there is a first best entry, and the topic found
      is that entry's topic. */
  lemma WalkSpec(ss: seq<Scored>)
    ensures Walk(ss).best == None <==> NoneAbove(ss)
    ensures (exists m :: 0 <= m < |ss| && ss[m].score > Threshold) ==> exists k :: IsFirstBest(ss, k)
    ensures forall k :: IsFirstBest(ss, k) ==> Walk(ss).best == Some(ss[k].topic)
  {
    WalkBounds(ss);
    WalkWitness(ss);
    var r := Walk(ss);
    if r.best.Some? {
      var k :| Leads(ss, k, r.best.value, r.highest);
      assert IsFirstBest(ss, k);
      forall k' | IsFirstBest(ss, k') ensures r.best == Some(ss[k'].topic) {
        assert ss[k'].score == r.highest;
        assert k' == k;
      }
    }
  }

  /** `findBestMatch` over the catalog as the source states it: null
      exactly when no pattern scores above the threshold; otherwise the
      topic of the first pattern, in iteration order, whose score is the
      maximum. */
  lemma BestMatchSpec(input: string, entries: seq<Entry>)
    ensures BestMatch(input, entries) == None <==> NoneAbove(Scores(input, Flatten(entries)))
    ensures var cands := Flatten(entries);
      forall k :: IsFirstBest(Scores(input, cands), k) ==> BestMatch(input, entries) == Some(cands[k].topic)
    ensures var cands := Flatten(entries);
      BestMatch(input, entries).Some? ==>
        exists k :: IsFirstBest(Scores(input, cands), k) && cands[k].topic == BestMatch(input, entries).value
  {
    var cands := Flatten(entries);
    var ss := Scores(input, cands);
    WalkSpec(ss);
    if Walk(ss).best.Some? {
      var m :| 0 <= m < |ss| && ss[m].score > Threshold;
      var k :| IsFirstBest(ss, k);
      assert ss[k].topic == cands[k].topic;
    }
  }

  /** An input with exactly the words of a stored pattern matches: the topic
      found is that of the first candidate whose words are the input's. */
  lemma ExactPatternMatches(input: string, entries: seq<Entry>, k: int)
    requires 0 <= k < |Flatten(entries)|
    requires Similarity.TokenSet(input) == Similarity.TokenSet(Flatten(entries)[k].pattern)
    requires forall m :: 0 <= m < k ==> Similarity.TokenSet(input) != Similarity.TokenSet(Flatten(entries)[m].pattern)
    ensures BestMatch(input, entries) == Some(Flatten(entries)[k].topic)
  {
    var cands := Flatten(entries);
    var ss := Scores(input, cands);
    Similarity.ScoreOneIffSameWords(input, cands[k].pattern);
    assert ss[k].score == 1.0;
    forall m | 0 <= m < |ss| ensures ss[m].score <= ss[k].score {
      assert ss[m].score == Similarity.SquaredSimilarity(input, cands[m].pattern);
    }
    forall m | 0 <= m < k ensures ss[m].score < ss[k].score {
      Similarity.ScoreOneIffSameWords(input, cands[m].pattern);
      assert ss[m].score == Similarity.SquaredSimilarity(input, cands[m].pattern);
    }
    assert IsFirstBest(ss, k);
    WalkSpec(ss);
  }

  /** Walking one more scored candidate is one more Step. */
  lemma WalkSnoc(ss: seq<Scored>, s: Scored)
    ensures Walk(ss + [s]) == Step(Walk(ss), s)
  {
    assert (ss + [s])[..|ss|] == ss;
  }

  /** Scoring one more candidate appends its score. */
  lemma ScoresSnoc(input: string, cands: seq<Candidate>, c: Candidate)
    ensures Scores(input, cands + [c]) == Scores(input, cands) + [Scored(c.topic, Score(input, c))]
  {
    var lhs := Scores(input, cands + [c]);
    var rhs := Scores(input, cands) + [Scored(c.topic, Score(input, c))];
    forall k | 0 <= k < |lhs| ensures lhs[k] == rhs[k] {
      if k < |cands| {
        assert (cands + [c])[k] == cands[k];
      }
    }
  }

  /** Walking one more pattern of the current entry is one more Step. */
  lemma WalkNextPattern(input: string, done: seq<Candidate>, t: Topic, ps: seq<string>, j: int)
    requires 0 <= j < |ps|
    ensures Walk(Scores(input, done + Pairs(t, ps[..j + 1])))
         == Step(Walk(Scores(input, done + Pairs(t, ps[..j]))), Scored(t, Score(input, Candidate(t, ps[j]))))
  {
    var before := done + Pairs(t, ps[..j]);
    var c := Candidate(t, ps[j]);
    assert Pairs(t, ps[..j + 1]) == Pairs(t, ps[..j]) + [c];
    assert done + Pairs(t, ps[..j + 1]) == before + [c];
    ScoresSnoc(input, before, c);
    WalkSnoc(Scores(input, before), Scored(t, Score(input, c)));
  }

  /** The candidates walked after i entries and all patterns of entry i
      are those of the first i + 1 entries. */
  lemma FlattenNextEntry(entries: seq<Entry>, i: int)
    requires 0 <= i < |entries|
    ensures Flatten(entries[..i + 1]) == Flatten(entries[..i]) + Pairs(entries[i].topic, entries[i].patterns)
  {
    assert entries[..i + 1][..i] == entries[..i];
  }

  /** `findBestMatch`: two nested loops over the entries and their patterns,
      keeping the running best. It returns the walk's result, which is null
      exactly when no pattern scores above the threshold, and otherwise the
      topic of the first best-scoring pattern. */
  method FindBestMatch(input: string, entries: seq<Entry>) returns (bestMatch: Option<Topic>)
    ensures bestMatch == BestMatch(input, entries)
    ensures bestMatch == None <==> NoneAbove(Scores(input, Flatten(entries)))
    ensures var cands := Flatten(entries);
      forall k :: IsFirstBest(Scores(input, cands), k) ==> bestMatch == Some(cands[k].topic)
    ensures var cands := Flatten(entries);
      bestMatch.Some? ==> exists k :: IsFirstBest(Scores(input, cands), k) && cands[k].topic == bestMatch.value
  {
    bestMatch := None;
    var highest := Threshold;
    for i := 0 to |entries|
      invariant Running(bestMatch, highest) == Walk(Scores(input, Flatten(entries[..i])))
    {
      var topic := entries[i].topic;
      var patterns := entries[i].patterns;
      var done := Flatten(entries[..i]);
      assert done + Pairs(topic, patterns[..0]) == done;
      for j := 0 to |patterns|
        invariant Running(bestMatch, highest) == Walk(Scores(input, done + Pairs(topic, patterns[..j])))
      {
        WalkNextPattern(input, done, topic, patterns, j);
        var similarity := Similarity.SquaredSimilarity(input, patterns[j]);
        if similarity > highest {
          highest := similarity;
          bestMatch := Some(topic);
        }
      }
      FlattenNextEntry(entries, i);
      assert patterns[..|patterns|] == patterns;
    }
    assert entries[..|entries|] == entries;
    BestMatchSpec(input, entries);
  }
}
