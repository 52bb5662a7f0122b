/** Worked examples over the portfolio's own tables: what the chat answers
    to a question typed in full. */
module Facts {
  import opened Wrappers
  import Similarity
  import opened ChatConfig
  import Matcher
  import Chat

  lemma InputPieces()
    ensures "How old are you?" == "How" + " " + Similarity.Join(["old", "are", "you"]) + "?"
  {
    var tail := ["old", "are", "you"];
    assert tail[1..] == ["are", "you"];
    assert tail[1..][1..] == ["you"];
    assert Similarity.Join(tail) == "old are you";
  }

  lemma NormalizeHow()
    ensures Similarity.Normalize("How") == "how"
  {
    assert Similarity.ToLower("How") == "how";
    Similarity.StripKeepsClean("how");
  }

  lemma NormalizeSpace()
    ensures Similarity.Normalize(" ") == " "
  {
    assert Similarity.ToLower(" ") == " ";
    Similarity.StripKeepsClean(" ");
  }

  lemma NormalizeMark()
    ensures Similarity.Normalize("?") == ""
  {
    assert Similarity.ToLower("?") == "?";
  }

  lemma NormalizeInput()
    ensures Similarity.Normalize("How old are you?") == "how" + " " + Similarity.Join(["old", "are", "you"])
  {
    var tail := Similarity.Join(["old", "are", "you"]);
    InputPieces();
    Similarity.NormalizeAppend("How" + " " + tail, "?");
    Similarity.NormalizeAppend("How" + " ", tail);
    Similarity.NormalizeAppend("How", " ");
    NormalizeHow();
    NormalizeSpace();
    NormalizeMark();
    NormalizeTail();
  }

  lemma NormalizeTail()
    ensures var tail := Similarity.Join(["old", "are", "you"]); Similarity.Normalize(tail) == tail
  {
    Similarity.TokensOfJoin(["old", "are", "you"]);
    Similarity.NormalizedIffFixpoint(Similarity.Join(["old", "are", "you"]));
  }

  lemma JoinAge()
    ensures Similarity.Join(["how", "old", "are", "you"]) == "how" + " " + Similarity.Join(["old", "are", "you"])
  {
    var words := ["how", "old", "are", "you"];
    assert words[1..] == ["old", "are", "you"];
  }

  lemma SplitAge()
    ensures Similarity.Split(Similarity.Join(["how", "old", "are", "you"])) == ["how", "old", "are", "you"]
  {
    Similarity.TokensOfJoin(["how", "old", "are", "you"]);
    Similarity.NormalizedIffFixpoint(Similarity.Join(["how", "old", "are", "you"]));
  }

  /** Typed in with its capital and question mark, "How old are you?"
      splits into the words of the first stored age pattern. */
  lemma HowOldAreYouTokens()
    ensures Similarity.Tokens("How old are you?") == ["how", "old", "are", "you"]
  {
    NormalizeInput();
    JoinAge();
    SplitAge();
  }

  /** The catalog opens with the introduction entry, then the age entry. */
  lemma CatalogStart()
    ensures var qp := QuestionPatterns();
      && |qp| == 7
      && qp[0] == Entry(Introduction, Patterns(IntroductionPhrases()))
      && qp[1] == Entry(Age, Patterns(AgePhrases()))
  {
  }

  /** The walk visits the five introduction patterns, then the age
      patterns, then the rest. */
  lemma FlattenCatalog()
    ensures Matcher.Flatten(QuestionPatterns())
      == Matcher.Pairs(Introduction, Patterns(IntroductionPhrases()))
       + Matcher.Pairs(Age, Patterns(AgePhrases()))
       + Matcher.Flatten(QuestionPatterns()[2..])
  {
    var qp := QuestionPatterns();
    CatalogStart();
    assert qp == [qp[0]] + ([qp[1]] + qp[2..]);
    Matcher.FlattenAppend([qp[0]], [qp[1]] + qp[2..]);
    Matcher.FlattenAppend([qp[1]], qp[2..]);
    Matcher.FlattenSingle(qp[0]);
    Matcher.FlattenSingle(qp[1]);
  }

  lemma IntroductionShape()
    ensures |IntroductionPhrases()| == 5
    ensures forall m :: 0 <= m < 5 ==> "how" !in IntroductionPhrases()[m]
  {
  }

  lemma AgeShape()
    ensures AgePhrases() != [] && AgePhrases()[0] == ["how", "old", "are", "you"]
  {
  }

  /** No introduction candidate has the words of "how old are you". */
  lemma IntroductionPatternsDiffer()
    ensures var intro := Matcher.Pairs(Introduction, Patterns(IntroductionPhrases()));
      && |intro| == 5
      && forall m :: 0 <= m < 5 ==>
           Similarity.TokenSet(intro[m].pattern) != Similarity.Elems(["how", "old", "are", "you"])
  {
    var phrases := IntroductionPhrases();
    IntroductionShape();
    forall m | 0 <= m < 5
      ensures Similarity.TokenSet(Patterns(phrases)[m]) != Similarity.Elems(["how", "old", "are", "you"])
    {
      assert IsPlainPhrase(phrases[m]);
      Similarity.TokensOfJoin(phrases[m]);
      assert "how" in Similarity.Elems(["how", "old", "are", "you"]);
    }
  }

  /** The first age candidate is "how old are you". */
  lemma AgePatternFirst()
    ensures var age := Matcher.Pairs(Age, Patterns(AgePhrases()));
      && age != []
      && age[0] == Matcher.Candidate(Age, Similarity.Join(["how", "old", "are", "you"]))
      && Similarity.TokenSet(age[0].pattern) == Similarity.Elems(["how", "old", "are", "you"])
  {
    AgeShape();
    Similarity.TokensOfJoin(["how", "old", "are", "you"]);
  }

  /** Indexing into a concatenation of three sequences. */
  lemma ConcatIndex<T>(a: seq<T>, b: seq<T>, c: seq<T>)
    requires b != []
    ensures (a + b + c)[|a|] == b[0]
    ensures forall m :: 0 <= m < |a| ==> (a + b + c)[m] == a[m]
  {
  }

  /** The sixth pattern the walk visits is "how old are you", under the age
      topic; none of the five before it has the same words. */
  lemma AgeIsSixth()
    ensures var cands := Matcher.Flatten(QuestionPatterns());
      && |cands| > 5
      && cands[5] == Matcher.Candidate(Age, Similarity.Join(["how", "old", "are", "you"]))
      && Similarity.TokenSet(cands[5].pattern) == Similarity.Elems(["how", "old", "are", "you"])
      && forall m :: 0 <= m < 5 ==>
           Similarity.TokenSet(cands[m].pattern) != Similarity.Elems(["how", "old", "are", "you"])
  {
    var intro := Matcher.Pairs(Introduction, Patterns(IntroductionPhrases()));
    var age := Matcher.Pairs(Age, Patterns(AgePhrases()));
    var rest := Matcher.Flatten(QuestionPatterns()[2..]);
    FlattenCatalog();
    IntroductionPatternsDiffer();
    AgePatternFirst();
    ConcatIndex(intro, age, rest);
  }

  /** Typed in full, "How old are you?" matches the age topic: its words
      are exactly those of the sixth pattern, and no earlier pattern has
      them. */
  lemma HowOldAreYouMatchesAge()
    ensures Matcher.BestMatch("How old are you?", QuestionPatterns()) == Some(Age)
  {
    HowOldAreYouTokens();
    AgeIsSixth();
    Matcher.ExactPatternMatches("How old are you?", QuestionPatterns(), 5);
  }

  /** ... and the assistant answers with the age answer. */
  lemma HowOldAreYouAnswered()
    ensures Chat.Reply("How old are you?", Chat.Portfolio()) == Answer(Age)
  {
    HowOldAreYouMatchesAge();
  }

  /** The empty input is the single empty word. */
  lemma EmptyInputTokens()
    ensures Similarity.TokenSet("") == {""}
  {
    assert Similarity.ToLower("") == "";
    assert Similarity.Tokens("") == [""];
  }

  /** No pattern the walk visits has the empty word. */
  lemma NoEmptyWordInCatalog(m: int)
    requires 0 <= m < |Matcher.Flatten(QuestionPatterns())|
    ensures "" !in Similarity.TokenSet(Matcher.Flatten(QuestionPatterns())[m].pattern)
  {
    var entries := QuestionPatterns();
    Matcher.FlattenMember(entries, m);
    var i, k :| 0 <= i < |entries| && 0 <= k < |entries[i].patterns| &&
      Matcher.Flatten(entries)[m] == Matcher.Candidate(entries[i].topic, entries[i].patterns[k]);
    PatternsAreNormalized(i, k);
  }

  /** An empty input shares no word with any stored pattern, so it scores
      0 against every pattern and matches no topic. */
  lemma EmptyInputMatchesNothing()
    ensures forall m :: 0 <= m < |Matcher.Flatten(QuestionPatterns())| ==>
      Matcher.Score("", Matcher.Flatten(QuestionPatterns())[m]) == 0.0
    ensures Matcher.BestMatch("", QuestionPatterns()) == None
  {
    var cands := Matcher.Flatten(QuestionPatterns());
    EmptyInputTokens();
    forall m | 0 <= m < |cands| ensures Matcher.Score("", cands[m]) == 0.0 {
      NoEmptyWordInCatalog(m);
      Similarity.ScoreZeroIffDisjoint("", cands[m].pattern);
    }
    Matcher.BestMatchSpec("", QuestionPatterns());
  }

  /** Capitals make no difference to the normal form... */
  lemma ShoutedAgeCase()
    ensures Similarity.Normalize("HOW OLD ARE YOU?") == Similarity.Normalize("How old are you?")
  {
    Similarity.CaseIgnored("HOW OLD ARE YOU?", "How old are you?");
  }

  /** Typed in capitals, the age question still has the words of "how old
      are you". */
  lemma ShoutedAgeTokens()
    ensures Similarity.TokenSet("HOW OLD ARE YOU?") == Similarity.TokenSet("How old are you?")
  {
    ShoutedAgeCase();
  }

  /** Leaving out the question mark makes no difference either. */
  lemma QuestionMarkIgnored()
    ensures Similarity.Normalize("How old are you?") == Similarity.Normalize("How old are you")
  {
    var q := "How old are you";
    assert "How old are you?" == q + ['?'] + [];
    Similarity.PunctuationIgnored(q, '?', []);
    assert q + [] == q;
  }

  /** ... so it scores 1 against the way it was first typed, and it is
      answered as the age question. */
  lemma ShoutedAgeMatchesAge()
    ensures Similarity.SquaredSimilarity("HOW OLD ARE YOU?", "How old are you?") == 1.0
    ensures Matcher.BestMatch("HOW OLD ARE YOU?", QuestionPatterns()) == Some(Age)
  {
    ShoutedAgeTokens();
    Similarity.ScoreOneIffSameWords("HOW OLD ARE YOU?", "How old are you?");
    Matcher.SameWordsSameMatch("HOW OLD ARE YOU?", "How old are you?", QuestionPatterns());
    HowOldAreYouMatchesAge();
  }
}
