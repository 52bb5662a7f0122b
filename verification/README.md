# Portfolio chat: a verified model

The portfolio site of gpt-portfolio has a small chat widget in which a
visitor talks to "Kan". The widget does not call a language model. It keeps
a table of example phrasings for seven topics (introduction, age, location,
occupation, goals, favorites, hobbies) and one canned answer per topic. A
typed question is matched against every stored phrasing by the cosine of
binary word-presence vectors. The best match scoring strictly above 0.3
picks the answer; with no such match a fixed fallback text is used. Beside
the text box the widget shows three suggested questions. A click is
answered from the `questionToTopic` table, without the matcher, and rotates
the suggestion queue.

This project models that core in Dafny and proves what it does:

- `similarity.dfy` (module `Similarity`) is `calculateSimilarity`: the
  normalisation, the `split(' ')` tokeniser, the presence vectors, and their
  cosine. The cosine is kept squared so that it is an exact rational, and it
  is proved equal to the set cosine |A∩B|²/(|A|·|B|) of the two word sets.
- `config.dfy` (module `ChatConfig`) holds the static tables of
  src/chatConfig.tsx.
- `matcher.dfy` (module `Matcher`) is `findBestMatch`. It is a method with
  two nested loops, proved equal to a fold over the scored patterns. Separate
  lemmas state what the fold returns.
- `chat.dfy` (module `Chat`) is the component state: the messages, the text
  box, `trim`, the suggestion queue and its rotation, and a `ChatSession`
  class. Its `Submit` is `handleSubmit`. It has two click methods:
  `ClickQuestion` is `handleQuestionClick` as written, and
  `ClickQuestionIntended` is the same handler with the rotation its comments
  describe (see Findings).
- `facts.dfy` (module `Facts`) works examples through the real tables:
  "How old are you?" is answered with the age answer, so is
  "HOW OLD ARE YOU?", and the empty input matches nothing.
- `wrappers.dfy` (module `Wrappers`) holds the `Option` type that stands
  for `Topic | null`.

## Model

| member | source | states |
|---|---|---|
| Similarity.ToLower | src/App.tsx:142-143 | `toLowerCase` keeps the length, turns every upper-case ASCII letter into its lower-case counterpart (code point + 32), and changes no other character |
| Similarity.CaseIgnored | src/App.tsx:142-143 | strings that differ only in the case of ASCII letters normalise alike |
| Similarity.PunctuationIgnored | src/App.tsx:142-143 | deleting one of `.,?!` anywhere in a string does not change its normal form |
| Similarity.Normalize | src/App.tsx:142-143 | the cleaned string has no upper-case letter and none of `.,?!`, and is no longer than the input |
| Similarity.StripPunctuation | src/App.tsx:142-143 | after `replace(/[.,?!]/g, '')` none of `.,?!` is left, only characters of the input remain, and the string does not grow |
| Similarity.NormalizedIffFixpoint | src/App.tsx:142-143 | normalisation leaves a string unchanged exactly when the string has no upper-case letter and none of `.,?!` |
| Similarity.NormalizeIdempotent | src/App.tsx:142-143 | normalising a second time changes nothing |
| Similarity.NormalizeAppend | src/App.tsx:142-143 | normalising a concatenation is the concatenation of the normalised pieces |
| Similarity.Split | src/App.tsx:145-146 | `split(' ')` always yields at least one piece, and no piece contains a space |
| Similarity.SplitJoin | src/App.tsx:145-146 | joining the pieces of a split with single spaces gives back the original string |
| Similarity.JoinSplit | src/App.tsx:145-146 | splitting words that were joined by single spaces gives back the words, when no word contains a space |
| Similarity.Tokens | src/App.tsx:141-146 | every input yields at least one token, even the empty string |
| Similarity.TokensOfJoin | src/App.tsx:141-146 | a phrase of lower-case words joined by spaces is already normalised and tokenises back into exactly its words |
| Similarity.TokenSet | src/App.tsx:141-147 | the set of words of any string is non-empty |
| Similarity.Dedup | src/App.tsx:147 | `Array.from(new Set(...))` has no repeated word and holds exactly the words of its input |
| Similarity.Vocabulary | src/App.tsx:147 | `new Set([...words1, ...words2])` in insertion order (no contract of its own; `Similarity.Dedup` and `Similarity.VectorsCountWords` state it) |
| Similarity.Presence | src/App.tsx:149-150 | a presence vector has one entry per vocabulary word |
| Similarity.Dot | src/App.tsx:152-155 | the `reduce` sums of products behind the dot product and both magnitudes (no contract of its own; `Similarity.VectorsCountWords` states what they compute) |
| Similarity.DotOfPresence | src/App.tsx:149-155 | the dot product of two presence vectors counts the vocabulary words present in both token lists |
| Similarity.CountDistinct | src/App.tsx:147-152 | over a vocabulary without repetitions, that count is the size of the intersection of word sets |
| Similarity.VectorsCountWords | src/App.tsx:147-155 | over the shared vocabulary, the dot product of the two presence vectors is the number of words the token lists share, and each vector's squared magnitude is the number of its list's words |
| Similarity.TokenSimilaritySquared | src/App.tsx:147-158 | the vector computation equals the set cosine squared, \|A∩B\|²/(\|A\|·\|B\|), of the two token sets |
| Similarity.SetCosineSquared | src/App.tsx:157-158 | the squared score lies between 0 and 1 |
| Similarity.SquaredSimilarity | src/App.tsx:141-159 | `calculateSimilarity(s1, s2)` squared is the set cosine of the two token sets and lies in [0, 1] |
| Similarity.SimilaritySymmetric | src/App.tsx:141-159 | the score does not depend on the order of its two arguments |
| Similarity.RepetitionIgnored | src/App.tsx:149-150 | token lists with the same words, in any order and any number of times, score the same against anything |
| Similarity.EmptyScoresZero | src/App.tsx:157 | the magnitude guard: a token list without words scores 0 |
| Similarity.MagnitudesPositive | src/App.tsx:154-157 | for strings both magnitudes are at least 1, so the guard returning 0 is never taken |
| Similarity.MagnitudeOfWords | src/App.tsx:154-155 | a non-empty token list has magnitude at least 1 over any vocabulary that holds its words |
| Similarity.ScoreOneIffSameWords | src/App.tsx:141-159 | the score is 1 exactly when the two strings have the same set of words |
| Similarity.SetCosineOneIff | src/App.tsx:158 | the set cosine of two non-empty sets is 1 exactly when the sets are equal |
| Similarity.ScoreZeroIffDisjoint | src/App.tsx:141-159 | the score is 0 exactly when the two strings share no word |
| Similarity.SetCosineZeroIff | src/App.tsx:158 | the set cosine of two non-empty sets is 0 exactly when they are disjoint |
| Similarity.CaseAndPunctuationIgnored | src/App.tsx:141-159 | inputs that normalise alike (by `Similarity.CaseIgnored` and `Similarity.PunctuationIgnored`, those differing only in case or in `.,?!`) score the same against every string, and score 1 against each other |
| Similarity.ThresholdAsIntegers | src/App.tsx:163 | the test "score above 0.3" is the integer test 100·\|A∩B\|² > 9·\|A\|·\|B\| |
| Similarity.CompareAsIntegers | src/App.tsx:168 | "one score above another" is an integer comparison by cross-multiplication |
| ChatConfig.AllTopics | src/chatConfig.tsx:2-9 | the `Topic` union has seven members with pairwise different labels |
| ChatConfig.EveryTopicListed | src/chatConfig.tsx:2-9 | every topic appears in the list of topics |
| ChatConfig.QuestionPatterns | src/chatConfig.tsx:11-75 | `questionPatterns` has one entry per topic, in declaration order, and every entry has at least one pattern |
| ChatConfig.Phrases | src/chatConfig.tsx:11-75 | every topic has at least one pattern, and every pattern is made of non-empty lower-case words |
| ChatConfig.PatternsAreNormalized | src/chatConfig.tsx:11-75 | every stored pattern is already normalised and splits into non-empty lower-case words |
| ChatConfig.IntroductionPhrases | src/chatConfig.tsx:12-18 | the introduction patterns are non-empty phrases of lower-case words |
| ChatConfig.AgePhrases | src/chatConfig.tsx:19-27 | the age patterns are non-empty phrases of lower-case words |
| ChatConfig.LocationPhrases | src/chatConfig.tsx:28-36 | the location patterns are non-empty phrases of lower-case words |
| ChatConfig.OccupationPhrases | src/chatConfig.tsx:37-45 | the occupation patterns are non-empty phrases of lower-case words |
| ChatConfig.GoalsPhrases | src/chatConfig.tsx:46-55 | the goals patterns are non-empty phrases of lower-case words |
| ChatConfig.FavoritesPhrases | src/chatConfig.tsx:56-64 | the favorites patterns are non-empty phrases of lower-case words |
| ChatConfig.HobbiesPhrases | src/chatConfig.tsx:65-74 | the hobbies patterns are non-empty phrases of lower-case words |
| ChatConfig.Answer | src/chatConfig.tsx:77-85 | the `answers` table: one canned answer per topic, by an exhaustive match over `Topic` (no contract of its own) |
| ChatConfig.QuestionToTopic | src/chatConfig.tsx:87-97 | the `questionToTopic` table from each suggested question to its topic (no contract of its own; `ChatConfig.DefaultQuestions` states its keys) |
| ChatConfig.DefaultQuestions | src/chatConfig.tsx:87-109 | there are nine default questions, all different, and they are exactly the keys of `questionToTopic` |
| Matcher.Score | src/App.tsx:167 | `calculateSimilarity(input, pattern)`, squared (no contract of its own; `Similarity.SquaredSimilarity` states it) |
| Matcher.Flatten | src/App.tsx:165-166 | the visit order of the two `for…of` loops over `Object.entries` (no contract of its own; `Matcher.FlattenAppend`, `Matcher.FlattenSingle` and `Matcher.FlattenMember` state it) |
| Matcher.FlattenMember | src/App.tsx:165-166 | every candidate visited is a pattern of some entry, under that entry's topic |
| Matcher.Step | src/App.tsx:168-171 | the strict-`>` update of the running best (no contract of its own; `Matcher.WalkBounds`, `Matcher.WalkWitness` and `Matcher.WalkSpec` state what it builds) |
| Matcher.FlattenAppend | src/App.tsx:165-166 | the candidates of consecutive entries are visited entry by entry, in order |
| Matcher.FlattenSingle | src/App.tsx:165-166 | one entry contributes its patterns in order, under its own topic |
| Matcher.Walk | src/App.tsx:162-173 | the loops' running state as a fold over the scored patterns: the running best never drops below 0.3, and no topic is found exactly while it is still 0.3 |
| Matcher.BestMatch | src/App.tsx:161-176 | `findBestMatch` as the fold's final topic (no contract of its own; `Matcher.BestMatchSpec` states what it returns) |
| Matcher.WalkBounds | src/App.tsx:162-173 | the running best never drops below 0.3, is at least every score seen, and stays 0.3 exactly while no topic is found |
| Matcher.WalkWitness | src/App.tsx:166-172 | a topic found belongs to a pattern whose score is the running best, and every earlier pattern scored strictly less |
| Matcher.WalkSpec | src/App.tsx:161-176 | the walk returns null exactly when no pattern scores above 0.3; otherwise a first best pattern exists, and the topic returned is its topic |
| Matcher.BestMatchSpec | src/App.tsx:161-176 | `findBestMatch` over catalog entries is null exactly when no pattern scores above 0.3, and otherwise returns the topic of the first pattern with the maximum score |
| Matcher.ExactPatternMatches | src/App.tsx:161-176 | an input with exactly the words of a stored pattern matches the topic of the first such pattern |
| Matcher.WalkNextPattern | src/App.tsx:167-171 | one iteration of the inner loop is one step of the walk |
| Matcher.SameWordsSameMatch | src/App.tsx:161-176 | two inputs with the same set of words get the same match |
| Matcher.FindBestMatch | src/App.tsx:161-176 | the nested loops return the walk's result: null exactly when nothing beats 0.3, otherwise the topic of the first best pattern |
| Chat.Reply | src/App.tsx:241-249 | the reply is either the fallback text or the canned answer of some topic |
| Chat.ReplySpec | src/App.tsx:238-254 | the reply is the fallback text when no pattern beats 0.3; when some pattern does, a first best pattern exists and the reply is the answer of its topic |
| Chat.Respond | src/App.tsx:241-249 | the answer computed from `findBestMatch` is the reply |
| Chat.Exchange | src/App.tsx:197-203 | `addResponse` adds the visitor's message, then the assistant's, with the given contents |
| Chat.TrimStart | src/App.tsx:240 | `trim` removes only whitespace from the front, and removes all of it |
| Chat.TrimEnd | src/App.tsx:240 | `trim` removes only whitespace from the back, and removes all of it |
| Chat.Trim | src/App.tsx:240 | `trim` never makes the string longer, and a non-empty result starts and ends with a character that is not whitespace |
| Chat.TrimEmptyIff | src/App.tsx:240 | `inputMessage.trim()` is empty exactly when the input is made only of whitespace, the empty string included |
| Chat.Visible | src/App.tsx:187 | the suggestions on screen are the first three queued questions, or all of them when fewer are queued |
| Chat.Remove | src/App.tsx:210 | `filter(q => q !== question)` removes every copy of the question and keeps every other question as often as before |
| Chat.RemoveAppend | src/App.tsx:210 | filtering works piece by piece: filtering a concatenation is the concatenation of the filtered pieces, so the kept questions stay in their order |
| Chat.RemoveCons | src/App.tsx:210 | filtering decides on the first question, then goes on with the rest |
| Chat.RemoveFirstOfThree | src/App.tsx:210 | filtering the first of three different questions leaves the other two, in order |
| Chat.RemoveSingle | src/App.tsx:210 | a single question is kept exactly when it is not the clicked one |
| Chat.Click | src/App.tsx:205-220 | the click as written: the queue is filtered; the rotation is tested on the lengths before the click; when it rotates, the oldest used question goes to the end of the queue and the used list becomes the rest of it, so the clicked question is not recorded; otherwise the clicked question goes to the end of the used list. Every question afterwards was in circulation before or is the clicked one |
| Chat.ClickIntended | src/App.tsx:205-220 | the click as the comments at lines 209 and 213-214 describe it: as `Chat.Click`, but the clicked question is appended to the used list in both cases. Every question afterwards was in circulation before or is the clicked one |
| Chat.DefaultsFit | src/chatConfig.tsx:87-109 | the default questions have no repetitions and are all answerable, and there are nine of them |
| Chat.ClickRemovesQuestion | src/App.tsx:205-220 | after a click the clicked question is no longer queued |
| Chat.ClickWithoutRotationKeepsPool | src/App.tsx:209-211 | without a rotation the click moves the question from the queue to the end of the used list |
| Chat.ClickWithRotationLosesQuestion | src/App.tsx:209-218 | with a rotation the click as written drops the clicked question from circulation, so one fewer question remains |
| Chat.ClickFirstOfThree | src/App.tsx:209-218 | with three different questions queued and one used, clicking the first as written leaves the other two queued, then the used one, and nothing used |
| Chat.ClickLosesQuestionExample | src/App.tsx:209-218 | queue a, b, c with d used: clicking a leaves queue b, c, d and nothing used |
| Chat.ClickKeepsWellFormed | src/App.tsx:205-220 | the click as written never adds a question to circulation, so none repeats and all stay answerable |
| Chat.ClickKeepsInCirculation | src/App.tsx:205-220 | after a click as written, the questions in circulation are still default questions, once each, all answerable |
| Chat.ClickIntendedKeepsPool | src/App.tsx:205-220 | the corrected click keeps exactly the same questions in circulation, with no repeats, all answerable |
| Chat.ClickIntendedKeepsThree | src/App.tsx:186-218 | with the corrected click, three suggestions stay on screen after every click while at least four questions circulate |
| Chat.ClickIntendedKeepsAll | src/App.tsx:186-218 | the corrected click keeps every default question in circulation, once each, answerable, with three on screen |
| Chat.VisibleAnswerable | src/App.tsx:205-207 | a suggestion on screen is queued, and `questionToTopic` has a topic for it |
| Chat.ChatSession.constructor | src/App.tsx:179-184 | the first render has no messages, an empty text box, and the default questions queued; the session is valid |
| Chat.ChatSession.Greet | src/App.tsx:224-233 | the message list becomes the single greeting "Hi, I'm Kan!", and nothing else changes; the session invariants are kept |
| Chat.ChatSession.SetInput | src/App.tsx:371 | the text box holds the typed text, and nothing else changes; the session invariants are kept |
| Chat.ChatSession.AppendExchange | src/App.tsx:197-203 | the visitor's message and then the assistant's reply are appended to the conversation; nothing else changes, and the session invariants are kept |
| Chat.ChatSession.SetSuggestions | src/App.tsx:210-218 | the queue and the used list take their new values; the messages and the text box are unchanged; new values that are default questions, once each, all answerable, keep the session well formed, and with every default question and three on screen they keep it valid |
| Chat.ChatSession.Submit | src/App.tsx:238-254 | whitespace-only input changes nothing; otherwise the input and its reply are appended and the text box is cleared; the suggestions are untouched and the session invariants are kept |
| Chat.ChatSession.ClickQuestion | src/App.tsx:205-220 | `handleQuestionClick` as written: a visible suggestion is answerable; it and its canned answer are appended; the suggestions rotate by `Chat.Click`; the questions in circulation stay default questions, once each, answerable |
| Chat.ChatSession.ClickQuestionIntended | src/App.tsx:205-220 | the same handler with the corrected rotation: the suggestions rotate by `Chat.ClickIntended`, every default question stays in circulation, and three stay on screen |
| Facts.HowOldAreYouTokens | src/App.tsx:141-146 | "How old are you?" tokenises to how, old, are, you |
| Facts.AgeIsSixth | src/chatConfig.tsx:11-27 | the sixth pattern visited is the age pattern "how old are you", and none of the five introduction patterns before it has the same words |
| Facts.HowOldAreYouMatchesAge | src/App.tsx:161-176 | `findBestMatch("How old are you?", questionPatterns)` is the age topic |
| Facts.HowOldAreYouAnswered | src/chatConfig.tsx:81 | typing "How old are you?" is answered with the age answer |
| Facts.ShoutedAgeCase | src/App.tsx:142 | "HOW OLD ARE YOU?" and "How old are you?" normalise alike |
| Facts.ShoutedAgeTokens | src/App.tsx:141-147 | "HOW OLD ARE YOU?" has the same words as "How old are you?" |
| Facts.QuestionMarkIgnored | src/App.tsx:143 | "How old are you?" and "How old are you" normalise alike |
| Facts.ShoutedAgeMatchesAge | src/App.tsx:141-176 | "HOW OLD ARE YOU?" scores 1 against "How old are you?" and matches the age topic |
| Facts.EmptyInputTokens | src/App.tsx:141-146 | the empty input splits into the single empty word |
| Facts.NoEmptyWordInCatalog | src/chatConfig.tsx:11-75 | no stored pattern has the empty word |
| Facts.EmptyInputMatchesNothing | src/App.tsx:161-176 | an empty input scores 0 against every stored pattern, and `findBestMatch` returns null |

## Left out

- Rendering is not modelled: the intro animation, the typewriter effect, the loading dots, scrolling, and styling.
- The timers are not modelled: the 1000 ms pause inside `addResponse`, the `isLoading` flag, and the 500 ms delay before the greeting. Each exchange appends both messages in one step. So the model has no interleaving of a second submit or click with a pending one.
- Chat.ChatSession.Greet: the `showIntro` flag that triggers the greeting is not modelled; the method is the effect's update alone.
- IEEE floating point and `Math.sqrt` are not modelled. The score is the exact square of the cosine, a rational, so rounding is not captured, at the boundary 0.3 or anywhere else. In doubles √3·√3 is 2.9999999999999996 and √2·√2 is 2.0000000000000004, so a full match can score slightly above or below 1 depending on the pattern's length, and scores equal in exact arithmetic can compare either way. `Similarity.ScoreOneIffSameWords` and the first-best tie-break of `Matcher.BestMatchSpec` are statements about exact arithmetic, not about the doubles the source computes with.
- `toLowerCase` lowers only the ASCII letters A to Z. Other Unicode case mappings are not modelled.
- Each stored pattern is written as its list of words, and the pattern string is those words joined by single spaces. This equals the source's strings because no pattern holds punctuation or double spaces.
- Chat.ReplySpec: stated in one direction only. A fallback reply does not by itself show that nothing matched, because no lemma shows that the fallback text differs from every canned answer.
- Chat.ChatSession: the session takes its constants as a `Config` value. `Chat.Portfolio` supplies the real tables, and `Chat.DefaultsFit` shows that they meet the constructor's precondition.
- Chat.ChatSession.ClickQuestion: it requires the clicked question to be one of the three on screen, which are the only ones the source's buttons offer. The source shows those buttons only while no reply is pending and the last message is the assistant's (src/App.tsx:347), so before the greeting it offers no click at all; the model does not track that condition and accepts a click in any state. It keeps only the weaker invariant `WellFormed` (no repeats, all answerable, only default questions), because the rotation as written loses questions (see Findings). `ClickQuestionIntended` keeps the full `Valid`.
- Chat.ChatSession.Submit: the source clears the text box after the awaited reply; the model clears it in the same step.
- `Object.entries` visits the topics in declaration order, because no key is an integer. The model fixes that order as `ChatConfig.AllTopics`.
- ChatConfig.Answer: no `ensures` of its own (for instance that every answer is non-empty). Every topic has an answer by the exhaustive match over `Topic`.
- ChatConfig.QuestionToTopic: no `ensures` of its own. Its keys are stated by `ChatConfig.DefaultQuestions`.
- Matcher.BestMatch: no `ensures` of its own. What it returns is stated by `Matcher.BestMatchSpec`.
- Matcher.Score, Matcher.Flatten and Matcher.Step: no `ensures` of their own. The lemmas named in their rows state what they compute.
- Similarity.Dot and Similarity.Vocabulary: no `ensures` of their own. `Similarity.VectorsCountWords` and `Similarity.Dedup` state what they compute.

## Findings

| source | as written | input that shows it | evidently intended | confidence | as-written member | corrected member |
|---|---|---|---|---|---|---|
| src/App.tsx:209-218 | When the queue held at most three questions and some question had been used, `setUsedQuestions(remainingUsed)` replaces the earlier update that appended the clicked question. The clicked question then leaves both lists. | Queue a, b, c with d used, click a: the queue becomes b, c, d and nothing is used. Every click that rotates loses the clicked question. With the nine defaults and the first suggestion clicked each time, the first loss is at the seventh click. The pool then shrinks from 9 to 3 over clicks 7 to 12, to 2 at click 14 and to 1 at click 16. Clicks 13, 15 and 17 find nothing used, so they do not rotate and lose nothing. After click 17 no suggestion is on screen. | Per the code's own comment, the clicked question is added to the used questions in every case; the oldest used question returns to the queue. | not executed | Chat.ClickWithRotationLosesQuestion | Chat.ClickIntendedKeepsPool |
