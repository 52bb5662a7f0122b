/** The conversation state of the `App` component in src/App.tsx: the message
    list, the text box, and the queue of suggested questions with the
    questions already used.

    `handleSubmit` answers free text through the matcher; `handleQuestionClick`
    answers a suggested question directly and rotates the suggestions. The
    rotation is modelled twice: Click as the source writes it, which loses
    the clicked question whenever it rotates, and ClickIntended, which keeps
    every question in circulation. ChatSession has a click method for
    each: ClickQuestion uses Click and ClickQuestionIntended uses
    ClickIntended. */
module Chat {
  import opened Wrappers
  import Similarity
  import opened ChatConfig
  import Matcher

  // ---------------------------------------------------------------------
  // Messages and replies
  // ---------------------------------------------------------------------

  /** The `type` of a message. */
  datatype Role = User | Assistant

  datatype Message = Message(role: Role, content: string)

  /** The assistant's first message, once the intro animation is over. */
  const Greeting: string := "Hi, I'm Kan!"

  /** The reply to free text that matches no topic. */
  const Fallback: string :=
    "I'm not sure about that. Could you try asking about my age, occupation, or where I'm from?"

  /** The constants the chat reads: the tables of src/chatConfig.tsx and
      the fallback text of `handleSubmit`. */
  datatype Config = Config(
    questionPatterns: seq<Entry>,
    answers: Topic -> string,
    questionToTopic: map<string, Topic>,
    defaultQuestions: seq<string>,
    fallback: string)

  /** The portfolio's own constants. */
  function Portfolio(): Config {
    Config(QuestionPatterns(), Answer, QuestionToTopic(), DefaultQuestions(), Fallback)
  }

  /** The assistant's reply to free text: `answers[topic]` for the topic
      that `findBestMatch(input, questionPatterns)` returns, or the fallback
      when it returns null. */
  function Reply(input: string, c: Config): (r: string)
    ensures r == c.fallback || exists t :: r == c.answers(t)
  {
    match Matcher.BestMatch(input, c.questionPatterns)
    case Some(t) => c.answers(t)
    case None => c.fallback
  }

  /** The reply is the fallback when no stored pattern scores above the
      threshold, and the answer of the first best pattern's topic when
      there is one. */
  lemma ReplySpec(input: string, c: Config)
    ensures Matcher.NoneAbove(Matcher.Scores(input, Matcher.Flatten(c.questionPatterns))) ==>
      Reply(input, c) == c.fallback
    ensures var cands := Matcher.Flatten(c.questionPatterns);
      forall k :: Matcher.IsFirstBest(Matcher.Scores(input, cands), k) ==>
        Reply(input, c) == c.answers(cands[k].topic)
    ensures var cands := Matcher.Flatten(c.questionPatterns);
      !Matcher.NoneAbove(Matcher.Scores(input, cands)) ==>
        exists k :: Matcher.IsFirstBest(Matcher.Scores(input, cands), k) &&
          Reply(input, c) == c.answers(cands[k].topic)
  {
    Matcher.BestMatchSpec(input, c.questionPatterns);
  }

  /** The response `handleSubmit` computes: the answer of the matched
      topic, or the fallback text when `findBestMatch` returns null. */
  method Respond(input: string, c: Config) returns (answer: string)
    ensures answer == Reply(input, c)
  {
    var matchedTopic := Matcher.FindBestMatch(input, c.questionPatterns);
    if matchedTopic.Some? {
      answer := c.answers(matchedTopic.value);
    } else {
      answer := c.fallback;
    }
  }

  /** `addResponse(question, answer)`: the visitor's message, then the
      assistant's. */
  function Exchange(question: string, answer: string): (r: seq<Message>)
    ensures |r| == 2 && r[0].role == User && r[1].role == Assistant
    ensures r[0].content == question && r[1].content == answer
  {
    [Message(User, question), Message(Assistant, answer)]
  }

  // ---------------------------------------------------------------------
  // String.prototype.trim
  // ---------------------------------------------------------------------

  /** The characters `trim` removes: the ECMAScript WhiteSpace and
      LineTerminator characters. */
  predicate IsWhitespace(c: char) {
    || c == '\t' || c == '\n' || c == '\U{000B}' || c == '\U{000C}' || c == '\r' || c == ' '
    || c == '\U{00A0}' || c == '\U{1680}' || '\U{2000}' <= c <= '\U{200A}'
    || c == '\U{2028}' || c == '\U{2029}' || c == '\U{202F}' || c == '\U{205F}'
    || c == '\U{3000}' || c == '\U{FEFF}'
  }

  function TrimStart(s: string): (r: string)
    ensures |r| <= |s| && r == s[|s| - |r|..]
    ensures r != [] ==> !IsWhitespace(r[0])
    ensures forall i :: 0 <= i < |s| - |r| ==> IsWhitespace(s[i])
  {
    if s != [] && IsWhitespace(s[0]) then TrimStart(s[1..]) else s
  }

  function TrimEnd(s: string): (r: string)
    ensures |r| <= |s| && r == s[..|r|]
    ensures r != [] ==> !IsWhitespace(r[|r| - 1])
    ensures forall i :: |r| <= i < |s| ==> IsWhitespace(s[i])
  {
    if s != [] && IsWhitespace(s[|s| - 1]) then
      var r := TrimEnd(s[..|s| - 1]);
      assert s[..|s| - 1][..|r|] == s[..|r|];
      r
    else s
  }

  /** `s.trim()`. */
  function Trim(s: string): (r: string)
    ensures |r| <= |s|
    ensures r != [] ==> !IsWhitespace(r[0]) && !IsWhitespace(r[|r| - 1])
  {
    var t := TrimStart(s);
    var r := TrimEnd(t);
    assert r != [] ==> r[0] == t[0];
    r
  }

  /** `if (inputMessage.trim())` fails exactly for the strings made only of
      whitespace, the empty string included. */
  lemma TrimEmptyIff(s: string)
    ensures Trim(s) == "" <==> forall i :: 0 <= i < |s| ==> IsWhitespace(s[i])
  {
    var t := TrimStart(s);
    assert t != [] ==> TrimEnd(t) != [];
    assert t != [] ==> t[0] == s[|s| - |t|];
  }

  // ---------------------------------------------------------------------
  // Suggested questions
  // ---------------------------------------------------------------------

  /** `questionQueue` and `usedQuestions`. */
  datatype Suggestions = Suggestions(queue: seq<string>, used: seq<string>)

  /** Every question in circulation, queued or used. */
  function Pool(s: Suggestions): multiset<string> {
    multiset(s.queue) + multiset(s.used)
  }

  /** No question is in circulation twice. */
  ghost predicate NoRepeats(s: Suggestions) {
    forall x :: Pool(s)[x] <= 1
  }

  /** Every question in circulation is a key of `questionToTopic`, so
      clicking it finds an answer. */
  ghost predicate Answerable(s: Suggestions, questionToTopic: map<string, Topic>) {
    forall x :: x in Pool(s) ==> x in questionToTopic
  }

  /** `currentSuggestions = questionQueue.slice(0, 3)`: the first three
      queued questions, or all of them when fewer are queued. */
  function Visible(queue: seq<string>): (r: seq<string>)
    ensures |r| == if |queue| < 3 then |queue| else 3
    ensures forall i :: 0 <= i < |r| ==> r[i] == queue[i]
  {
    if |queue| < 3 then queue else queue[..3]
  }

  /** `prev.filter(q => q !== question)`: the queue without the question, in
      the same order. */
  function Remove(queue: seq<string>, question: string): (r: seq<string>)
    ensures multiset(r) == multiset(queue)[question := 0]
    ensures |r| == |queue| - multiset(queue)[question]
    ensures forall x :: x in r ==> x in queue && x != question
  {
    if queue == [] then []
    else
      assert queue == [queue[0]] + queue[1..];
      (if queue[0] == question then [] else [queue[0]]) + Remove(queue[1..], question)
  }

  /** `filter` decides on the first question, then goes on with the rest. */
  lemma RemoveCons(x: string, rest: seq<string>, question: string)
    ensures Remove([x] + rest, question) == (if x == question then [] else [x]) + Remove(rest, question)
  {
    assert ([x] + rest)[1..] == rest;
  }

  /** `filter` works piece by piece, so the questions it keeps stay in
      their original order. */
  lemma {:induction false} RemoveAppend(a: seq<string>, b: seq<string>, question: string)
    ensures Remove(a + b, question) == Remove(a, question) + Remove(b, question)
  {
    if a != [] {
      var kept := if a[0] == question then [] else [a[0]];
      var rest := a[1..];
      assert a == [a[0]] + rest;
      assert a + b == [a[0]] + (rest + b);
      assert Remove(a, question) == kept + Remove(rest, question) by {
        RemoveCons(a[0], rest, question);
      }
      assert Remove(a + b, question) == kept + Remove(rest + b, question) by {
        RemoveCons(a[0], rest + b, question);
      }
      RemoveAppend(rest, b, question);
      ConcatAssociative(kept, Remove(rest, question), Remove(b, question));
    } else {
      assert a + b == b;
    }
  }

  /** Concatenation is associative. */
  lemma ConcatAssociative<T>(x: seq<T>, y: seq<T>, z: seq<T>)
    ensures x + (y + z) == (x + y) + z
  {
  }

  /** A single question is kept exactly when it is not the one clicked. */
  lemma RemoveSingle(x: string, question: string)
    ensures Remove([x], question) == if x == question then [] else [x]
  {
    assert [x][1..] == [];
  }

  /** Constants a session can start from: the default questions have no
      repetitions, are all answerable, and are more than three. */
  ghost predicate Fits(c: Config) {
    var s := Suggestions(c.defaultQuestions, []);
    NoRepeats(s) && Answerable(s, c.questionToTopic) && |c.defaultQuestions| >= 4
  }

  /** The portfolio's constants fit: its nine default questions are
      different from each other and are all keys of `questionToTopic`. */
  lemma DefaultsFit()
    ensures Fits(Portfolio())
    ensures |Portfolio().defaultQuestions| == 9
  {
    DistinctCounts(DefaultQuestions());
  }

  /** A sequence without repetitions holds each element at most once. */
  lemma {:induction false} DistinctCounts(qs: seq<string>)
    requires Similarity.Distinct(qs)
    ensures forall x :: multiset(qs)[x] <= 1
  {
    if qs != [] {
      var init := qs[..|qs| - 1];
      assert Similarity.Distinct(init);
      DistinctCounts(init);
      assert qs == init + [qs[|qs| - 1]];
      assert qs[|qs| - 1] !in init;
    }
  }

  /** `handleQuestionClick` as written. The rotation test reads the queue
      and the used list from before the click. When it rotates, the later
      `setUsedQuestions(remainingUsed)` replaces the earlier update that
      recorded the clicked question, so that question leaves circulation. */
  function Click(s: Suggestions, question: string): (r: Suggestions)
    ensures forall x :: x in r.queue ==> x in s.queue || x in s.used
    ensures forall x :: x in r.used ==> x in s.used || x == question
  {
    var filtered := Remove(s.queue, question);
    if |s.queue| <= 3 && |s.used| > 0 then Suggestions(filtered + [s.used[0]], s.used[1..])
    else Suggestions(filtered, s.used + [question])
  }

  /** The rotation as the source's comments describe it: the clicked
      question is recorded as used in every case, and the oldest used
      question returns to the queue. */
  function ClickIntended(s: Suggestions, question: string): (r: Suggestions)
    ensures forall x :: x in r.queue ==> x in s.queue || x in s.used
    ensures forall x :: x in r.used ==> x in s.used || x == question
  {
    var filtered := Remove(s.queue, question);
    if |s.queue| <= 3 && |s.used| > 0 then Suggestions(filtered + [s.used[0]], s.used[1..] + [question])
    else Suggestions(filtered, s.used + [question])
  }

  /** In a well-formed state a queued question is queued once and not
      used. */
  lemma QueuedOnce(s: Suggestions, question: string)
    requires NoRepeats(s) && question in s.queue
    ensures multiset(s.queue)[question] == 1 && multiset(s.used)[question] == 0
  {
    assert question in multiset(s.queue);
    assert Pool(s)[question] <= 1;
  }

  /** The used list, split into its oldest element and the rest. */
  lemma UsedSplit(s: Suggestions)
    requires s.used != []
    ensures multiset(s.used) == multiset{s.used[0]} + multiset(s.used[1..])
  {
    assert s.used == [s.used[0]] + s.used[1..];
  }

  /** A clicked question leaves the queue, both as written and as intended:
      the question coming back from the used list is never the clicked
      one. */
  lemma ClickRemovesQuestion(s: Suggestions, question: string)
    requires NoRepeats(s) && question in s.queue
    ensures question !in Click(s, question).queue
    ensures question !in ClickIntended(s, question).queue
  {
    QueuedOnce(s, question);
    assert multiset(Remove(s.queue, question))[question] == 0;
    if |s.queue| <= 3 && |s.used| > 0 {
      assert s.used[0] in multiset(s.used);
      assert s.used[0] != question;
    }
  }

  /** Without a rotation the click moves the question from the queue to the
      end of the used list: nothing enters or leaves circulation. */
  lemma ClickWithoutRotationKeepsPool(s: Suggestions, question: string)
    requires NoRepeats(s) && question in s.queue
    requires !(|s.queue| <= 3 && |s.used| > 0)
    ensures Pool(Click(s, question)) == Pool(s)
    ensures Click(s, question).used == s.used + [question]
  {
    QueuedOnce(s, question);
    assert multiset(s.queue)[question := 0] + multiset{question} == multiset(s.queue);
  }

  /** With a rotation, as written, the clicked question leaves circulation:
      every other question stays, and the pool shrinks by one. */
  lemma ClickWithRotationLosesQuestion(s: Suggestions, question: string)
    requires NoRepeats(s) && question in s.queue
    requires |s.queue| <= 3 && |s.used| > 0
    ensures Pool(Click(s, question)) == Pool(s) - multiset{question}
    ensures question !in Pool(Click(s, question))
    ensures |Click(s, question).queue| + |Click(s, question).used| == |s.queue| + |s.used| - 1
  {
    UsedSplit(s);
    var c := Click(s, question);
    QueuedOnce(s, question);
    assert multiset(s.queue)[question := 0] == multiset(s.queue) - multiset{question};
    assert multiset(c.queue) == multiset(s.queue)[question := 0] + multiset{s.used[0]};
    assert Pool(c) == multiset(s.queue)[question := 0] + multiset(s.used);
  }

  /** The smallest case: three queued, one used, click the first. */
  lemma ClickLosesQuestionExample()
    ensures Click(Suggestions(["a", "b", "c"], ["d"]), "a") == Suggestions(["b", "c", "d"], [])
  {
    ClickFirstOfThree("a", "b", "c", "d");
  }

  /** With three questions queued and one used, clicking the first brings
      the used one back and leaves nothing used. */
  lemma ClickFirstOfThree(x: string, y: string, z: string, w: string)
    requires x != y && x != z
    ensures Click(Suggestions([x, y, z], [w]), x) == Suggestions([y, z, w], [])
  {
    var s := Suggestions([x, y, z], [w]);
    assert |s.queue| <= 3 && |s.used| > 0;
    assert Click(s, x) == Suggestions(Remove(s.queue, x) + [w], s.used[1..]);
    RemoveFirstOfThree(x, y, z);
    assert [y, z] + [w] == [y, z, w];
    assert s.used[1..] == [];
  }

  /** Filtering out the first of three different questions. */
  lemma RemoveFirstOfThree(x: string, y: string, z: string)
    requires x != y && x != z
    ensures Remove([x, y, z], x) == [y, z]
  {
    assert [x, y, z][1..] == [y, z];
    assert [y, z][1..] == [z];
    assert Remove([z], x) == [z] by { RemoveSingle(z, x); }
  }

  /** As intended, every click keeps exactly the same questions in
      circulation, so none repeats and all stay answerable. */
  lemma ClickIntendedKeepsPool(s: Suggestions, question: string)
    requires NoRepeats(s) && question in s.queue
    ensures Pool(ClickIntended(s, question)) == Pool(s)
    ensures NoRepeats(ClickIntended(s, question))
    ensures forall m :: Answerable(s, m) ==> Answerable(ClickIntended(s, question), m)
  {
    var c := ClickIntended(s, question);
    QueuedOnce(s, question);
    assert multiset(s.queue)[question := 0] + multiset{question} == multiset(s.queue);
    if |s.queue| <= 3 && |s.used| > 0 {
      UsedSplit(s);
      assert multiset(c.queue) == multiset(s.queue)[question := 0] + multiset{s.used[0]};
      assert multiset(c.used) == multiset(s.used[1..]) + multiset{question};
    }
  }

  /** As intended, while at least four questions circulate, three
      suggestions stay on screen after every click. */
  lemma ClickIntendedKeepsThree(s: Suggestions, question: string)
    requires NoRepeats(s) && question in s.queue
    requires |s.queue| >= 3 && |s.queue| + |s.used| >= 4
    ensures |ClickIntended(s, question).queue| >= 3
    ensures |Visible(ClickIntended(s, question).queue)| == 3
  {
    QueuedOnce(s, question);
  }

  /** The click as written never brings a question into circulation, so
      none repeats and all stay answerable. */
  lemma ClickKeepsWellFormed(s: Suggestions, question: string)
    requires NoRepeats(s) && question in s.queue
    ensures Pool(Click(s, question)) <= Pool(s)
    ensures NoRepeats(Click(s, question))
    ensures forall m :: Answerable(s, m) ==> Answerable(Click(s, question), m)
  {
    if |s.queue| <= 3 && |s.used| > 0 {
      ClickWithRotationLosesQuestion(s, question);
    } else {
      ClickWithoutRotationKeepsPool(s, question);
    }
  }

  /** The questions in circulation are default questions, once each, all
      answerable. */
  ghost predicate InCirculation(s: Suggestions, c: Config) {
    && NoRepeats(s)
    && Answerable(s, c.questionToTopic)
    && Pool(s) <= multiset(c.defaultQuestions)
  }

  /** Besides, every default question is in circulation, and three are on
      screen. */
  ghost predicate AllInCirculation(s: Suggestions, c: Config) {
    && InCirculation(s, c)
    && Pool(s) == multiset(c.defaultQuestions)
    && |c.defaultQuestions| >= 4
    && |s.queue| >= 3
  }

  /** A visible suggestion is queued, and clicking it finds an answer. */
  lemma VisibleAnswerable(s: Suggestions, question: string, c: Config)
    requires InCirculation(s, c) && question in Visible(s.queue)
    ensures question in s.queue && question in c.questionToTopic
  {
    assert question in Pool(s);
  }

  /** A click as written on a queued question keeps the circulation well
      formed. */
  lemma ClickKeepsInCirculation(s: Suggestions, question: string, c: Config)
    requires InCirculation(s, c) && question in s.queue
    ensures InCirculation(Click(s, question), c)
  {
    ClickKeepsWellFormed(s, question);
  }

  /** The intended click on a visible question keeps every default question
      in circulation and three on screen. */
  lemma ClickIntendedKeepsAll(s: Suggestions, question: string, c: Config)
    requires AllInCirculation(s, c) && question in s.queue
    ensures AllInCirculation(ClickIntended(s, question), c)
  {
    assert |Pool(s)| == |s.queue| + |s.used|;
    ClickIntendedKeepsPool(s, question);
    ClickIntendedKeepsThree(s, question);
  }

  // ---------------------------------------------------------------------
  // The component's state
  // ---------------------------------------------------------------------

  /** The `useState` slots of `App` that the chat updates, beside the
      tables from src/chatConfig.tsx that the component reads. */
  class ChatSession {
    const config: Config

    var messages: seq<Message>
    var inputMessage: string
    var questionQueue: seq<string>
    var usedQuestions: seq<string>

    /** What every click keeps, as written or as intended: the questions in
        circulation are default questions, once each, all answerable. */
    ghost predicate WellFormed()
      reads this
    {
      InCirculation(Suggestions(questionQueue, usedQuestions), config)
    }

    /** What the intended click keeps besides: every default question stays
        in circulation, and three of them are always on screen. */
    ghost predicate Valid()
      reads this
    {
      AllInCirculation(Suggestions(questionQueue, usedQuestions), config)
    }

    /** The state when the chat first renders: no messages, an empty text
        box, and the default questions queued. DefaultsFit shows that the
        portfolio's constants meet the precondition. */
    constructor(config: Config)
      requires Fits(config)
      ensures Valid()
      ensures this.config == config
      ensures messages == [] && inputMessage == ""
      ensures questionQueue == config.defaultQuestions && usedQuestions == []
    {
      this.config := config;
      messages := [];
      inputMessage := "";
      questionQueue := config.defaultQuestions;
      usedQuestions := [];
      assert Pool(Suggestions(config.defaultQuestions, [])) == multiset(config.defaultQuestions);
    }

    /** The greeting replaces the (empty) message list once the intro
        animation is over. */
    method Greet()
      requires WellFormed()
      modifies this
      ensures WellFormed() && (old(Valid()) ==> Valid())
      ensures messages == [Message(Assistant, Greeting)]
      ensures inputMessage == old(inputMessage)
      ensures questionQueue == old(questionQueue) && usedQuestions == old(usedQuestions)
    {
      messages := [Message(Assistant, Greeting)];
    }

    /** The text box's `onChange`. */
    method SetInput(text: string)
      requires WellFormed()
      modifies this
      ensures WellFormed() && (old(Valid()) ==> Valid())
      ensures inputMessage == text
      ensures messages == old(messages)
      ensures questionQueue == old(questionQueue) && usedQuestions == old(usedQuestions)
    {
      inputMessage := text;
    }

    /** `setMessages` as both handlers call it: the visitor's message, then
        the assistant's reply, at the end of the conversation. */
    method AppendExchange(question: string, answer: string)
      requires WellFormed()
      modifies this
      ensures WellFormed() && (old(Valid()) ==> Valid())
      ensures messages == old(messages) + Exchange(question, answer)
      ensures inputMessage == old(inputMessage)
      ensures questionQueue == old(questionQueue) && usedQuestions == old(usedQuestions)
    {
      messages := messages + Exchange(question, answer);
    }

    /** `setQuestionQueue` and `setUsedQuestions` together, as the click
        handler calls them. */
    method SetSuggestions(next: Suggestions)
      requires InCirculation(next, config)
      modifies this
      ensures WellFormed()
      ensures AllInCirculation(next, config) ==> Valid()
      ensures questionQueue == next.queue && usedQuestions == next.used
      ensures messages == old(messages) && inputMessage == old(inputMessage)
    {
      questionQueue := next.queue;
      usedQuestions := next.used;
    }

    /** `handleSubmit`. Input made only of whitespace changes nothing.
        Otherwise the visitor's text and the reply are appended and the text
        box is cleared. */
    method Submit()
      requires WellFormed()
      modifies this
      ensures WellFormed() && (old(Valid()) ==> Valid())
      ensures Trim(old(inputMessage)) == "" ==>
        messages == old(messages) && inputMessage == old(inputMessage)
      ensures Trim(old(inputMessage)) != "" ==>
        && messages == old(messages) + Exchange(old(inputMessage), Reply(old(inputMessage), config))
        && inputMessage == ""
      ensures questionQueue == old(questionQueue) && usedQuestions == old(usedQuestions)
    {
      var text := inputMessage;
      if Trim(text) != "" {
        var answer := Respond(text, config);
        AppendExchange(text, answer);
        SetInput("");
      }
    }

    /** `handleQuestionClick` as written, on one of the visible
        suggestions: the question and its canned answer are appended, and
        the suggestions rotate as the source writes it (Click), which may
        drop the clicked question from circulation but keeps the session
        well formed. */
    method ClickQuestion(question: string)
      requires WellFormed()
      requires question in Visible(questionQueue)
      modifies this
      ensures WellFormed()
      ensures question in config.questionToTopic
      ensures messages == old(messages) + Exchange(question, config.answers(config.questionToTopic[question]))
      ensures Suggestions(questionQueue, usedQuestions)
        == Click(Suggestions(old(questionQueue), old(usedQuestions)), question)
      ensures inputMessage == old(inputMessage)
    {
      var s := Suggestions(questionQueue, usedQuestions);
      var next := Click(s, question);
      assert question in config.questionToTopic && InCirculation(next, config) by {
        VisibleAnswerable(s, question, config);
        ClickKeepsInCirculation(s, question, config);
      }
      AppendExchange(question, config.answers(config.questionToTopic[question]));
      SetSuggestions(next);
    }

    /** `handleQuestionClick` with the rotation its comments describe: the
        question and its canned answer are appended, the suggestions rotate
        by ClickIntended, and the session stays valid. */
    method ClickQuestionIntended(question: string)
      requires Valid()
      requires question in Visible(questionQueue)
      modifies this
      ensures Valid()
      ensures question in config.questionToTopic
      ensures messages == old(messages) + Exchange(question, config.answers(config.questionToTopic[question]))
      ensures Suggestions(questionQueue, usedQuestions)
        == ClickIntended(Suggestions(old(questionQueue), old(usedQuestions)), question)
      ensures inputMessage == old(inputMessage)
    {
      var s := Suggestions(questionQueue, usedQuestions);
      var next := ClickIntended(s, question);
      assert question in config.questionToTopic && AllInCirculation(next, config) by {
        VisibleAnswerable(s, question, config);
        ClickIntendedKeepsAll(s, question, config);
      }
      AppendExchange(question, config.answers(config.questionToTopic[question]));
      SetSuggestions(next);
    }
  }
}
