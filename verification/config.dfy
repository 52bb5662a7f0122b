/** The static tables of src/chatConfig.tsx: the closed set of topics, the
    example phrasings of each topic, one canned answer per topic, and the
    suggested questions with the topic each one asks about. All of them are
    constants; nothing updates them. */
module ChatConfig {
  import Similarity

  /** The `Topic` union of seven string labels. */
  datatype Topic = Introduction | Age | Location | Occupation | Goals | Favorites | Hobbies

  /** The string label the source uses for each topic. */
  function Label(t: Topic): string {
    match t
    case Introduction => "introduction"
    case Age => "age"
    case Location => "location"
    case Occupation => "occupation"
    case Goals => "goals"
    case Favorites => "favorites"
    case Hobbies => "hobbies"
  }

  /** The topics in the order the `questionPatterns` record introduces them,
      which is the order `Object.entries` visits them. The list names every
      topic once, with seven different labels. */
  function AllTopics(): (r: seq<Topic>)
    ensures |r| == 7
    ensures forall i, j :: 0 <= i < j < |r| ==> Label(r[i]) != Label(r[j])
  {
    [Introduction, Age, Location, Occupation, Goals, Favorites, Hobbies]
  }

  /** The union is closed: every topic is one of the seven. */
  lemma EveryTopicListed(t: Topic)
    ensures t in AllTopics()
  {
    var r := AllTopics();
    match t
    case Introduction => assert r[0] == t;
    case Age => assert r[1] == t;
    case Location => assert r[2] == t;
    case Occupation => assert r[3] == t;
    case Goals => assert r[4] == t;
    case Favorites => assert r[5] == t;
    case Hobbies => assert r[6] == t;
  }

  /** One `[topic, patterns]` pair of `Object.entries(questionPatterns)`. */
  datatype Entry = Entry(topic: Topic, patterns: seq<string>)

  /** Words made of lower-case ASCII letters only, as every word of every
      stored pattern is. */
  predicate IsPlainPhrase(words: seq<string>) {
    |words| >= 1 && forall j :: 0 <= j < |words| ==> words[j] != "" && Similarity.IsPlainWord(words[j])
  }

  /** `questionPatterns`, as the sequence of its entries in iteration order.
      Every topic appears, in the order of AllTopics, with at least one
      pattern. */
  function QuestionPatterns(): (r: seq<Entry>)
    ensures |r| == |AllTopics()|
    ensures forall i :: 0 <= i < |r| ==> r[i].topic == AllTopics()[i] && r[i].patterns != []
  {
    seq(|AllTopics()|, i requires 0 <= i < |AllTopics()| =>
      Entry(AllTopics()[i], Patterns(Phrases(AllTopics()[i]))))
  }

  /** The stored patterns of one topic, as word lists. */
  function Phrases(t: Topic): (r: seq<seq<string>>)
    ensures r != [] && forall k :: 0 <= k < |r| ==> IsPlainPhrase(r[k])
  {
    match t
    case Introduction => IntroductionPhrases()
    case Age => AgePhrases()
    case Location => LocationPhrases()
    case Occupation => OccupationPhrases()
    case Goals => GoalsPhrases()
    case Favorites => FavoritesPhrases()
    case Hobbies => HobbiesPhrases()
  }

  /** Every stored pattern is already in the form `calculateSimilarity`
      brings its input to (lower case, no `.,?!`), and it splits into
      non-empty words: the stored side of every comparison never has an
      empty token. */
  lemma PatternsAreNormalized(i: int, k: int)
    requires 0 <= i < |QuestionPatterns()| && 0 <= k < |QuestionPatterns()[i].patterns|
    ensures var p := QuestionPatterns()[i].patterns[k];
      Similarity.Normalize(p) == p &&
      forall w <- Similarity.Tokens(p) :: w != "" && Similarity.IsPlainWord(w)
  {
    var words := Phrases(AllTopics()[i])[k];
    var p := QuestionPatterns()[i].patterns[k];
    assert p == Similarity.Join(words);
    assert IsPlainPhrase(words);
    Similarity.TokensOfJoin(words);
    Similarity.NormalizedIffFixpoint(p);
  }

  /** The pattern strings of a list of phrases, in order: each stored
      pattern is written below as its words, and the pattern string is the
      words joined by single spaces, so ["how", "old", "are", "you"] stands
      for the string "how old are you". */
  function Patterns(phrases: seq<seq<string>>): (r: seq<string>)
    ensures |r| == |phrases|
  {
    seq(|phrases|, k requires 0 <= k < |phrases| => Similarity.Join(phrases[k]))
  }

  function IntroductionPhrases(): (r: seq<seq<string>>)
    ensures r != [] && forall k :: 0 <= k < |r| ==> IsPlainPhrase(r[k])
  {
    [
      ["who", "are", "you"],
      ["what", "is", "your", "name"],
      ["tell", "me", "about", "yourself"],
      ["introduce", "yourself"],
      ["your", "background"]
    ]
  }

  function AgePhrases(): (r: seq<seq<string>>)
    ensures r != [] && forall k :: 0 <= k < |r| ==> IsPlainPhrase(r[k])
  {
    [
      ["how", "old", "are", "you"],
      ["what", "is", "your", "age"],
      ["whats", "your", "age"],
      ["what", "age", "are", "you"],
      ["when", "were", "you", "born"],
      ["your", "age"],
      ["birth", "year"]
    ]
  }

  function LocationPhrases(): (r: seq<seq<string>>)
    ensures r != [] && forall k :: 0 <= k < |r| ==> IsPlainPhrase(r[k])
  {
    [
      ["where", "are", "you", "from"],
      ["where", "do", "you", "live"],
      ["which", "country", "are", "you", "from"],
      ["what", "is", "your", "nationality"],
      ["where", "were", "you", "born"],
      ["your", "hometown"],
      ["your", "country"]
    ]
  }

  function OccupationPhrases(): (r: seq<seq<string>>)
    ensures r != [] && forall k :: 0 <= k < |r| ==> IsPlainPhrase(r[k])
  {
    [
      ["what", "do", "you", "do"],
      ["what", "is", "your", "job"],
      ["what", "is", "your", "occupation"],
      ["what", "do", "you", "work", "as"],
      ["your", "profession"],
      ["your", "job"],
      ["your", "career"]
    ]
  }

  function GoalsPhrases(): (r: seq<seq<string>>)
    ensures r != [] && forall k :: 0 <= k < |r| ==> IsPlainPhrase(r[k])
  {
    [
      ["what", "is", "your", "life", "goal"],
      ["what", "are", "your", "goals"],
      ["what", "do", "you", "want", "to", "achieve"],
      ["your", "ambitions"],
      ["your", "dreams"],
      ["future", "plans"],
      ["life", "goals"],
      ["career", "goals"]
    ]
  }

  function FavoritesPhrases(): (r: seq<seq<string>>)
    ensures r != [] && forall k :: 0 <= k < |r| ==> IsPlainPhrase(r[k])
  {
    [
      ["what", "is", "your", "favorite", "color"],
      ["whats", "your", "favorite", "food"],
      ["favorite", "things"],
      ["what", "food", "do", "you", "like"],
      ["what", "colors", "do", "you", "like"],
      ["preferred", "color"],
      ["preferred", "food"]
    ]
  }

  function HobbiesPhrases(): (r: seq<seq<string>>)
    ensures r != [] && forall k :: 0 <= k < |r| ==> IsPlainPhrase(r[k])
  {
    [
      ["what", "do", "you", "do", "in", "your", "free", "time"],
      ["what", "are", "your", "hobbies"],
      ["whats", "your", "hobby"],
      ["what", "do", "you", "like", "doing"],
      ["free", "time", "activities"],
      ["leisure", "activities"],
      ["what", "do", "you", "enjoy"],
      ["your", "interests"]
    ]
  }

  /** `answers`, a `Record<Topic, string>`: exactly one canned answer for
      every topic. Over the closed union of topics such a record is a total
      function, and the exhaustive match below is the check that no topic
      lacks an answer. */
  function Answer(t: Topic): string {
    match t
    case Introduction =>
      "I'm Kan, a passionate software developer with a love for creating innovative solutions. I specialize in web development and enjoy tackling complex technical challenges."
    case Location =>
      "I'm from Vietnam, specifically from Ho Chi Minh. I moved abroad to pursue my studies and career in technology."
    case Occupation =>
      "I'm a software developer specializing in full-stack web development and AI. I love creating user-friendly applications and solving complex problems."
    case Age =>
      "I'm 22 years old, born in 2003. I started my coding journey when I was 18."
    case Goals =>
      "My life's goal is to create technology that makes a positive impact on people's lives. I aim to build innovative solutions that solve real-world problems and contribute to the tech community."
    case Favorites =>
      "I love the color blue as it reminds me of the ocean and sky. As for food, I'm a big fan of Thai cuisine, especially Pad Thai and Tom Yum soup"
    case Hobbies =>
      "In my free time, I enjoy coding personal projects, contributing to open-source, and learning new technologies. I also love playing basketball and reading tech blogs to stay updated with the latest trends."
  }

  /** `questionToTopic`: the topic each suggested question asks about. */
  function QuestionToTopic(): map<string, Topic> {
    map[
      "Who are you?" := Introduction,
      "Where are you from?" := Location,
      "What do you do?" := Occupation,
      "How old are you?" := Age,
      "What is your life's goals?" := Goals,
      "What's your favorite color?" := Favorites,
      "What's your favorite food?" := Favorites,
      "What do you do in your free time" := Hobbies,
      "What's your hobby?" := Hobbies
    ]
  }

  /** `defaultQuestions`: the initial suggestion queue. Its nine entries are
      pairwise different and are exactly the keys of `questionToTopic`, so
      the lookup a suggestion click performs always succeeds. */
  function DefaultQuestions(): (r: seq<string>)
    ensures |r| == 9
    ensures forall i, j :: 0 <= i < j < |r| ==> r[i] != r[j]
    ensures forall q :: q in r <==> q in QuestionToTopic()
  {
    [
      "Who are you?",
      "Where are you from?",
      "What do you do?",
      "How old are you?",
      "What is your life's goals?",
      "What's your favorite color?",
      "What's your favorite food?",
      "What do you do in your free time",
      "What's your hobby?"
    ]
  }
}
