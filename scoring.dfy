/**
 * The modality scorer of convex/scoring.ts.  Every helper of the source that
 * loops over a list is a method here, proved equal to a function that states
 * what it computes; the lemmas are about those functions.  `scoreResponse` is
 * the method `ScoreResponse`, specified by the function `Scored`.
 */
module Scoring {
  import opened Wrappers
  import opened Text
  import opened Questions
  import opened Aggregate

  predicate Distinct<T(==)>(s: seq<T>) {
    forall i, j | 0 <= i < j < |s| :: s[i] != s[j]
  }

  // ---------------------------------------------------------------------------
  // scoreMultiChoice and scoreHighlights (one rule, two element types)
  // ---------------------------------------------------------------------------

  /** How many submitted entries belong to the correct list. */
  function Hits(answer: seq<Elem>, correct: seq<Elem>): (n: nat)
    ensures n <= |answer|
  {
    if answer == [] then 0
    else Hits(answer[..|answer| - 1], correct) + (if answer[|answer| - 1] in correct then 1 else 0)
  }

  /** +1 per correct pick, -1 per wrong pick, floored at 0, out of the length of the correct list. */
  function SelectionScore(answer: seq<Elem>, correct: seq<Elem>): Score {
    var right := Hits(answer, correct);
    var wrong := |answer| - right;
    Score(if right - wrong > 0 then right - wrong else 0, |correct|, map[])
  }

  /** `scoreMultiChoice` (and `scoreHighlights`, which has the same body over numbers). */
  method ScoreSelection(answer: seq<Elem>, correct: seq<Elem>) returns (s: Score)
    ensures s == SelectionScore(answer, correct)
  {
    var correctSet := set x | x in correct;
    var correctSelected, incorrectSelected := 0, 0;
    for i := 0 to |answer|
      invariant correctSelected == Hits(answer[..i], correct)
      invariant incorrectSelected == i - correctSelected
    {
      assert answer[..i + 1][..i] == answer[..i];
      if answer[i] in correctSet {
        correctSelected := correctSelected + 1;
      } else {
        incorrectSelected := incorrectSelected + 1;
      }
    }
    assert answer[..|answer|] == answer;
    var rawScore := if correctSelected - incorrectSelected > 0 then correctSelected - incorrectSelected else 0;
    s := Score(rawScore, |correct|, map[]);
  }

  lemma {:induction false} HitsSameMembership(answer: seq<Elem>, c1: seq<Elem>, c2: seq<Elem>)
    requires forall i | 0 <= i < |answer| :: (answer[i] in c1 <==> answer[i] in c2)
    ensures Hits(answer, c1) == Hits(answer, c2)
  {
    if answer != [] {
      HitsSameMembership(answer[..|answer| - 1], c1, c2);
    }
  }

  lemma {:induction false} DistinctHitsBound(answer: seq<Elem>, correct: seq<Elem>)
    requires Distinct(answer)
    ensures Hits(answer, correct) <= |correct|
  {
    if answer != [] {
      var front, x := answer[..|answer| - 1], answer[|answer| - 1];
      if x in correct {
        var k :| 0 <= k < |correct| && correct[k] == x;
        var rest := correct[..k] + correct[k + 1..];
        forall i | 0 <= i < |front| ensures (front[i] in correct <==> front[i] in rest) {
          assert front[i] != x;
          if front[i] in correct {
            var m :| 0 <= m < |correct| && correct[m] == front[i];
            if m < k { assert rest[m] == front[i]; } else { assert rest[m - 1] == front[i]; }
          }
        }
        HitsSameMembership(front, correct, rest);
        DistinctHitsBound(front, rest);
      } else {
        DistinctHitsBound(front, correct);
      }
    }
  }

  /**
   * The selection score is never negative, and stays within the maximum when the
   * submitted entries are distinct (duplicates can push it above: see
   * `SelectionDuplicatesExceedMax`).
   */
  lemma SelectionBounds(answer: seq<Elem>, correct: seq<Elem>)
    ensures SelectionScore(answer, correct).rawScore >= 0
    ensures SelectionScore(answer, correct).maxScore == |correct|
    ensures Distinct(answer) ==> SelectionScore(answer, correct).rawScore <= |correct|
  {
    if Distinct(answer) {
      DistinctHitsBound(answer, correct);
    }
  }

  lemma {:induction false} HitsAllCorrect(answer: seq<Elem>, correct: seq<Elem>)
    requires forall i | 0 <= i < |answer| :: answer[i] in correct
    ensures Hits(answer, correct) == |answer|
  {
    if answer != [] {
      HitsAllCorrect(answer[..|answer| - 1], correct);
    }
  }

  /** Submitting exactly the correct entries, in any order, earns full marks. */
  lemma SelectionFullMarks(answer: seq<Elem>, correct: seq<Elem>)
    requires multiset(answer) == multiset(correct)
    ensures SelectionScore(answer, correct).rawScore == SelectionScore(answer, correct).maxScore
  {
    forall i | 0 <= i < |answer| ensures answer[i] in correct {
      assert answer[i] in multiset(answer);
    }
    HitsAllCorrect(answer, correct);
    assert |answer| == |multiset(answer)| == |multiset(correct)| == |correct|;
  }

  /** Correct `{x, y}`, answer `{x, z}`: one right, one wrong, so 0 out of 2. */
  lemma SelectionExample()
    ensures SelectionScore([TextElem("x"), TextElem("z")], [TextElem("x"), TextElem("y")]) == Score(0, 2, map[])
  {
    assert Hits([TextElem("x")], [TextElem("x"), TextElem("y")]) == 1;
  }

  /** A repeated pick counts twice: answer `[x, x]` against correct `[x]` scores 2 out of 1. */
  lemma SelectionDuplicatesExceedMax()
    ensures SelectionScore([TextElem("x"), TextElem("x")], [TextElem("x")]) == Score(2, 1, map[])
  {
    assert Hits([TextElem("x")], [TextElem("x")]) == 1;
  }

  // ---------------------------------------------------------------------------
  // scoreBlanks
  // ---------------------------------------------------------------------------

  /** A blank whose expected answer normalizes to `""` can never score. */
  predicate Gradable(b: Blank) {
    Normalize(b.answer) != ""
  }

  /** Blank `i` scores: its expected answer is gradable and the submitted value (`""` past the end) normalizes to it. */
  predicate BlankCorrect(answers: seq<string>, b: Blank, i: nat) {
    Gradable(b) && Normalize(if i < |answers| then answers[i] else "") == Normalize(b.answer)
  }

  function GradableCount(blanks: seq<Blank>): (n: nat)
    ensures n <= |blanks|
  {
    if blanks == [] then 0
    else GradableCount(blanks[..|blanks| - 1]) + (if Gradable(blanks[|blanks| - 1]) then 1 else 0)
  }

  /** The number of blanks answered correctly; never more than the gradable blanks. */
  function BlankHits(answers: seq<string>, blanks: seq<Blank>): (n: nat)
    ensures n <= GradableCount(blanks)
  {
    if blanks == [] then 0
    else
      BlankHits(answers, blanks[..|blanks| - 1])
      + (if BlankCorrect(answers, blanks[|blanks| - 1], |blanks| - 1) then 1 else 0)
  }

  lemma BlankHitsStep(answers: seq<string>, blanks: seq<Blank>, i: nat)
    requires i < |blanks|
    ensures BlankHits(answers, blanks[..i + 1])
      == BlankHits(answers, blanks[..i]) + (if BlankCorrect(answers, blanks[i], i) then 1 else 0)
  {
    assert blanks[..i + 1][..i] == blanks[..i];
  }

  /** `scoreBlanks`. */
  method ScoreBlanks(answers: seq<string>, blanks: seq<Blank>) returns (s: Score)
    ensures s == Score(BlankHits(answers, blanks), |blanks|, map[])
  {
    var rawScore := 0;
    for i := 0 to |blanks|
      invariant rawScore == BlankHits(answers, blanks[..i])
    {
      BlankHitsStep(answers, blanks, i);
      var expected := Normalize(blanks[i].answer);
      var actual := Normalize(if i < |answers| then answers[i] else "");
      if expected != "" && actual == expected {
        rawScore := rawScore + 1;
      }
    }
    assert blanks[..|blanks|] == blanks;
    s := Score(rawScore, |blanks|, map[]);
  }

  /** Full marks on the gradable blanks exactly when every gradable blank is answered correctly. */
  lemma {:induction false} BlanksFullMarks(answers: seq<string>, blanks: seq<Blank>)
    ensures BlankHits(answers, blanks) == GradableCount(blanks)
      <==> forall i | 0 <= i < |blanks| :: Gradable(blanks[i]) ==> BlankCorrect(answers, blanks[i], i)
  {
    if blanks != [] {
      var front := blanks[..|blanks| - 1];
      BlanksFullMarks(answers, front);
      assert forall i | 0 <= i < |front| :: front[i] == blanks[i];
    }
  }

  /** Submitted entries past the number of blanks are ignored. */
  lemma {:induction false} BlanksIgnoreExtraEntries(answers: seq<string>, blanks: seq<Blank>)
    requires |answers| >= |blanks|
    ensures BlankHits(answers, blanks) == BlankHits(answers[..|blanks|], blanks)
  {
    if blanks != [] {
      var front := blanks[..|blanks| - 1];
      BlanksIgnoreExtraEntries(answers, front);
      assert answers[..|blanks|][..|front|] == answers[..|front|];
      BlanksPrefixAgree(answers[..|blanks|], answers[..|front|], front);
    }
  }

  lemma {:induction false} BlanksPrefixAgree(longer: seq<string>, shorter: seq<string>, blanks: seq<Blank>)
    requires |shorter| >= |blanks| && shorter <= longer
    ensures BlankHits(longer, blanks) == BlankHits(shorter, blanks)
  {
    if blanks != [] {
      BlanksPrefixAgree(longer, shorter, blanks[..|blanks| - 1]);
    }
  }

  /** Expected `"run"`, submitted `"Run "`: both normalize to `"run"`, so 1 out of 1. */
  lemma BlanksExample()
    ensures BlankHits(["Run "], [Blank("1", "run")]) == 1
  {
    assert Lower("Run ") == "run " by {
      assert LowerChar('R') == 'r';
    }
    LowerMaskOfNormal("run ");
    CollapseOfNormal("run ");
    assert DropTrailingSpaces("run ") == "run" by {
      assert "run "[..3] == "run";
    }
    TrimOfTrimmed("run");
    assert Normalize("Run ") == "run";
    LowerMaskOfNormal("run");
    CollapseOfNormal("run");
    assert Normalize("run") == "run";
  }

  // ---------------------------------------------------------------------------
  // scoreOrder
  // ---------------------------------------------------------------------------

  /** The number of positions of the correct order that the submission repeats. */
  function OrderHits(answers: seq<Elem>, correct: seq<Elem>): (n: nat)
    ensures n <= |correct|
  {
    if correct == [] then 0
    else
      var k := |correct| - 1;
      OrderHits(answers, correct[..k]) + (if k < |answers| && answers[k] == correct[k] then 1 else 0)
  }

  /** `scoreOrder`. */
  method ScoreOrder(answers: seq<Elem>, correct: seq<Elem>) returns (s: Score)
    ensures s == Score(OrderHits(answers, correct), |correct|, map[])
  {
    var rawScore := 0;
    for i := 0 to |correct|
      invariant rawScore == OrderHits(answers, correct[..i])
    {
      assert correct[..i + 1][..i] == correct[..i];
      if i < |answers| && answers[i] == correct[i] {
        rawScore := rawScore + 1;
      }
    }
    assert correct[..|correct|] == correct;
    s := Score(rawScore, |correct|, map[]);
  }

  /** Full marks exactly when the submission starts with the whole correct order. */
  lemma {:induction false} OrderFullMarks(answers: seq<Elem>, correct: seq<Elem>)
    ensures OrderHits(answers, correct) == |correct| <==> |correct| <= |answers| && answers[..|correct|] == correct
  {
    if correct != [] {
      var k := |correct| - 1;
      OrderFullMarks(answers, correct[..k]);
      if |correct| <= |answers| && answers[..|correct|] == correct {
        assert answers[..k] == answers[..|correct|][..k];
      }
      if OrderHits(answers, correct) == |correct| {
        assert answers[..|correct|] == answers[..k] + [answers[k]];
      }
    }
  }

  // ---------------------------------------------------------------------------
  // wordOverlapScore
  // ---------------------------------------------------------------------------

  /** The size of the multiset intersection of the two token lists. */
  function Overlap(target: seq<string>, answer: seq<string>): nat {
    |multiset(target) * multiset(answer)|
  }

  /** `answerCounts.get(token) ?? 0`. */
  function CountOf(counts: map<string, int>, w: string): int {
    if w in counts then counts[w] else 0
  }

  lemma IntersectStep(x: multiset<string>, pool: multiset<string>, t: string)
    ensures (pool - x)[t] > 0 ==> (x + multiset{t}) * pool == x * pool + multiset{t}
    ensures (pool - x)[t] == 0 ==> (x + multiset{t}) * pool == x * pool
  {
  }

  /** The first loop of `wordOverlapScore`: how often each answer token occurs. */
  method CountTokens(tokens: seq<string>) returns (counts: map<string, int>)
    ensures forall w :: CountOf(counts, w) == multiset(tokens)[w]
  {
    counts := map[];
    for i := 0 to |tokens|
      invariant forall w :: CountOf(counts, w) == multiset(tokens[..i])[w]
    {
      var token := tokens[i];
      counts := counts[token := CountOf(counts, token) + 1];
      assert tokens[..i + 1] == tokens[..i] + [token];
    }
    assert tokens[..|tokens|] == tokens;
  }

  /** Taking one copy of `token` from the counts, when one is left, keeps them equal to the unused answer tokens. */
  lemma CountsAfterTake(before: map<string, int>, after: map<string, int>, pool: multiset<string>, used: multiset<string>, token: string)
    requires forall w :: CountOf(before, w) == (pool - used)[w]
    requires after == if CountOf(before, token) > 0 then before[token := CountOf(before, token) - 1] else before
    ensures forall w :: CountOf(after, w) == (pool - (used + multiset{token}))[w]
  {
    forall w
      ensures CountOf(after, w) == (pool - (used + multiset{token}))[w]
    {
      assert CountOf(before, w) == (pool - used)[w];
      if w != token {
        assert CountOf(after, w) == CountOf(before, w);
      }
    }
  }

  /** The second loop of `wordOverlapScore`: each reference token takes one unused answer token, if any is left. */
  method MatchTokens(targetTokens: seq<string>, answerTokens: seq<string>) returns (matches: nat)
    ensures matches == Overlap(targetTokens, answerTokens)
  {
    var answerCounts := CountTokens(answerTokens);
    ghost var pool := multiset(answerTokens);
    matches := 0;
    for j := 0 to |targetTokens|
      invariant forall w :: CountOf(answerCounts, w) == (pool - multiset(targetTokens[..j]))[w]
      invariant matches == |multiset(targetTokens[..j]) * pool|
    {
      var token := targetTokens[j];
      var remaining := CountOf(answerCounts, token);
      ghost var before := answerCounts;
      ghost var used := multiset(targetTokens[..j]);
      IntersectStep(used, pool, token);
      assert multiset(targetTokens[..j + 1]) == used + multiset{token} by {
        assert targetTokens[..j + 1] == targetTokens[..j] + [token];
      }
      if remaining > 0 {
        matches := matches + 1;
        answerCounts := answerCounts[token := remaining - 1];
      }
      CountsAfterTake(before, answerCounts, pool, used, token);
    }
    assert targetTokens[..|targetTokens|] == targetTokens;
  }

  /** `wordOverlapScore`: each reference token matches at most one unused answer token. */
  method WordOverlapScore(target: string, answer: string) returns (matches: nat, max: nat)
    ensures matches == Overlap(Tokenize(target), Tokenize(answer))
    ensures max == |Tokenize(target)|
  {
    var targetTokens := Tokenize(target);
    var answerTokens := Tokenize(answer);
    matches := MatchTokens(targetTokens, answerTokens);
    max := |targetTokens|;
  }

  /** At most every reference token matches. */
  lemma {:induction false} OverlapBound(target: seq<string>, answer: seq<string>)
    ensures Overlap(target, answer) <= |target|
  {
    if target != [] {
      var front, t := target[..|target| - 1], target[|target| - 1];
      OverlapBound(front, answer);
      assert target == front + [t];
      IntersectStep(multiset(front), multiset(answer), t);
    }
  }

  /** Reference `the cat sat`, answer `a cat that sat down`: `cat` and `sat` match, 2 out of 3. */
  lemma OverlapExample()
    ensures Overlap(["the", "cat", "sat"], ["a", "cat", "that", "sat", "down"]) == 2
  {
    var x := multiset(["the", "cat", "sat"]);
    var y := multiset(["a", "cat", "that", "sat", "down"]);
    assert x * y == multiset{"cat", "sat"};
  }

  // ---------------------------------------------------------------------------
  // countKeywordMatches and scoreRubricText
  // ---------------------------------------------------------------------------

  /** The phrase normalizes to something non-empty that occurs in the normalized text. */
  predicate PhraseFound(normalized: string, phrase: string) {
    var p := Normalize(phrase);
    p != "" && Includes(normalized, p)
  }

  function KeywordMatches(normalized: string, phrases: seq<string>): (n: nat)
    ensures n <= |phrases|
  {
    if phrases == [] then 0
    else
      KeywordMatches(normalized, phrases[..|phrases| - 1])
      + (if PhraseFound(normalized, phrases[|phrases| - 1]) then 1 else 0)
  }

  /** `countKeywordMatches`. */
  method CountKeywordMatches(text: string, keywords: seq<string>) returns (matches: nat)
    ensures matches == KeywordMatches(Normalize(text), keywords)
  {
    var normalized := Normalize(text);
    matches := 0;
    for i := 0 to |keywords|
      invariant matches == KeywordMatches(normalized, keywords[..i])
    {
      assert keywords[..i + 1][..i] == keywords[..i];
      var phrase := Normalize(keywords[i]);
      if phrase != "" && Includes(normalized, phrase) {
        matches := matches + 1;
      }
    }
    assert keywords[..|keywords|] == keywords;
  }

  /** Every phrase counts exactly when every phrase is found. */
  lemma {:induction false} KeywordMatchesAll(normalized: string, phrases: seq<string>)
    ensures KeywordMatches(normalized, phrases) == |phrases|
      <==> forall i | 0 <= i < |phrases| :: PhraseFound(normalized, phrases[i])
  {
    if phrases != [] {
      var front := phrases[..|phrases| - 1];
      KeywordMatchesAll(normalized, front);
      assert forall i | 0 <= i < |front| :: front[i] == phrases[i];
    }
  }

  /** Nothing is found in an empty text. */
  lemma {:induction false} KeywordMatchesEmptyText(phrases: seq<string>)
    ensures KeywordMatches("", phrases) == 0
  {
    if phrases != [] {
      KeywordMatchesEmptyText(phrases[..|phrases| - 1]);
    }
  }

  const NoRubric := Rubric([], [], None, None)

  /** JavaScript truthiness of an optional number: present and non-zero. */
  predicate Truthy(bound: Option<int>) {
    bound.Some? && bound.value != 0
  }

  /** The word count lies within `[minWords ?? 0, maxWords ?? +infinity]`. */
  predicate InWordRange(wordCount: nat, r: Rubric) {
    wordCount >= r.minWords.GetOr(0) && (r.maxWords.None? || wordCount <= r.maxWords.value)
  }

  /** The rubric has some signal: key phrases or a truthy word bound. */
  predicate HasSignal(r: Rubric) {
    |r.keywords + r.keypoints| > 0 || Truthy(r.minWords) || Truthy(r.maxWords)
  }

  /** What `scoreRubricText` computes. */
  function RubricScore(rubric: Option<Rubric>, text: string): (s: Score)
    ensures 1 <= s.maxScore && 0 <= s.rawScore <= s.maxScore
  {
    var r := rubric.GetOr(NoRubric);
    var wordCount := |Tokenize(text)|;
    var keyPhrases := r.keywords + r.keypoints;
    var matches := KeywordMatches(Normalize(text), keyPhrases);
    var lengthChecked := Truthy(r.minWords) || Truthy(r.maxWords);
    var inRange := InWordRange(wordCount, r);
    var raw := (if |keyPhrases| > 0 then matches else 0) + (if lengthChecked && inRange then 1 else 0);
    var max := |keyPhrases| + (if lengthChecked then 1 else 0);
    var content: map<string, real> :=
      if |keyPhrases| > 0 then map["content" := matches as real / |keyPhrases| as real] else map[];
    var traits := if lengthChecked then content["form" := if inRange then 1.0 else 0.0] else content;
    if max == 0 then Score(if wordCount > 0 then 1 else 0, 1, traits["content" := if wordCount > 0 then 1.0 else 0.0])
    else Score(raw, max, traits)
  }

  /** `scoreRubricText`. */
  method ScoreRubricText(rubric: Option<Rubric>, text: string) returns (s: Score)
    ensures s == RubricScore(rubric, text)
  {
    var r := rubric.GetOr(NoRubric);
    var wordCount := |Tokenize(text)|;
    var rawScore, maxScore := 0, 0;
    var traitScores: map<string, real> := map[];
    var keyPhrases := r.keywords + r.keypoints;
    if |keyPhrases| > 0 {
      var keywordMatches := CountKeywordMatches(text, keyPhrases);
      rawScore := rawScore + keywordMatches;
      maxScore := maxScore + |keyPhrases|;
      traitScores := traitScores["content" := keywordMatches as real / |keyPhrases| as real];
    }
    if Truthy(r.minWords) || Truthy(r.maxWords) {
      var inRange := InWordRange(wordCount, r);
      rawScore := rawScore + (if inRange then 1 else 0);
      maxScore := maxScore + 1;
      traitScores := traitScores["form" := if inRange then 1.0 else 0.0];
    }
    if maxScore == 0 {
      maxScore := 1;
      rawScore := if wordCount > 0 then 1 else 0;
      traitScores := traitScores["content" := if wordCount > 0 then 1.0 else 0.0];
    }
    s := Score(rawScore, maxScore, traitScores);
  }

  /**
   * The maximum is one per key phrase plus one for a truthy word bound, or 1 when
   * the rubric has no signal; then the text scores 1 exactly when it has a word.
   */
  lemma RubricMaxScore(rubric: Option<Rubric>, text: string)
    ensures var r := rubric.GetOr(NoRubric);
      RubricScore(rubric, text).maxScore
        == if HasSignal(r) then |r.keywords + r.keypoints| + (if Truthy(r.minWords) || Truthy(r.maxWords) then 1 else 0) else 1
    ensures !HasSignal(rubric.GetOr(NoRubric)) ==>
      (RubricScore(rubric, text).rawScore == 1 <==> Normalize(text) != "")
  {
    TokenizeSpec(text);
  }

  /**
   * The trait record: `"form"` is present exactly when a word bound is truthy,
   * and is 1 exactly when the length check passes; `"content"` is present
   * exactly when there are key phrases (their found share) or no signal at all
   * (1 for a text with a word); every trait lies in [0, 1].
   */
  lemma RubricTraits(rubric: Option<Rubric>, text: string)
    ensures var r := rubric.GetOr(NoRubric);
      var traits := RubricScore(rubric, text).traitScores;
      var keyPhrases := r.keywords + r.keypoints;
      && traits.Keys <= {"content", "form"}
      && ("form" in traits <==> Truthy(r.minWords) || Truthy(r.maxWords))
      && ("form" in traits ==> (traits["form"] == 1.0 <==> InWordRange(|Tokenize(text)|, r)))
      && ("content" in traits <==> |keyPhrases| > 0 || !HasSignal(r))
      && (|keyPhrases| > 0 ==>
            traits["content"] == KeywordMatches(Normalize(text), keyPhrases) as real / |keyPhrases| as real)
      && (!HasSignal(r) ==> (traits["content"] == 1.0 <==> Normalize(text) != ""))
      && forall t | t in traits :: 0.0 <= traits[t] <= 1.0
  {
    var r := rubric.GetOr(NoRubric);
    var keyPhrases := r.keywords + r.keypoints;
    TokenizeSpec(text);
    if |keyPhrases| > 0 {
      RatioAtMostOne(KeywordMatches(Normalize(text), keyPhrases) as real, |keyPhrases| as real);
    }
  }

  /** A zero word bound is falsy: it switches the length check off exactly as an absent one. */
  lemma RubricZeroBoundIsOff(keywords: seq<string>, keypoints: seq<string>, text: string)
    ensures RubricScore(Some(Rubric(keywords, keypoints, Some(0), Some(0))), text)
         == RubricScore(Some(Rubric(keywords, keypoints, None, None)), text)
  {
  }

  /** With a signal, full marks exactly when every key phrase is found and the length check, if on, passes. */
  lemma RubricFullMarks(r: Rubric, text: string)
    requires HasSignal(r)
    ensures RubricScore(Some(r), text).rawScore == RubricScore(Some(r), text).maxScore
      <==> ((forall i | 0 <= i < |r.keywords + r.keypoints| :: PhraseFound(Normalize(text), (r.keywords + r.keypoints)[i]))
            && ((Truthy(r.minWords) || Truthy(r.maxWords)) ==> InWordRange(|Tokenize(text)|, r)))
  {
    KeywordMatchesAll(Normalize(text), r.keywords + r.keypoints);
  }

  // ---------------------------------------------------------------------------
  // scoreResponse
  // ---------------------------------------------------------------------------

  /** The text graded for free-text modes: the answer when it is a non-empty string, else the transcript, else `""`. */
  function TextAnswer(answer: Answer, transcript: Option<string>): string {
    if answer.AStr? && |answer.str| > 0 then answer.str else transcript.GetOr("")
  }

  /** `String(value)` for each accepted variant. */
  function Variants(c: CorrectAnswer): seq<string> {
    match c
    case StrList(xs) => xs
    case IdxList(ns) => seq(|ns|, i requires 0 <= i < |ns| => IntString(ns[i]))
    case _ => []
  }

  /** The accepted variants normalized, the empty ones dropped (`map(normalizeText).filter(Boolean)`). */
  function Acceptable(variants: seq<string>): (r: seq<string>)
    ensures "" !in r
  {
    if variants == [] then []
    else
      var n := Normalize(variants[|variants| - 1]);
      Acceptable(variants[..|variants| - 1]) + (if n != "" then [n] else [])
  }

  /** A normalized text is acceptable exactly when some variant normalizes to it and not to nothing. */
  lemma {:induction false} AcceptableSpec(variants: seq<string>, x: string)
    ensures x in Acceptable(variants)
      <==> exists i | 0 <= i < |variants| :: Normalize(variants[i]) != "" && Normalize(variants[i]) == x
  {
    if variants != [] {
      var front := variants[..|variants| - 1];
      AcceptableSpec(front, x);
      AcceptableStep(variants, x);
    }
  }

  /** The witnesses for `variants` are those for all but the last variant, plus the last one. */
  lemma AcceptableStep(variants: seq<string>, x: string)
    requires variants != []
    ensures var front, last := variants[..|variants| - 1], variants[|variants| - 1];
      (exists i | 0 <= i < |variants| :: Normalize(variants[i]) != "" && Normalize(variants[i]) == x)
      <==> (exists i | 0 <= i < |front| :: Normalize(front[i]) != "" && Normalize(front[i]) == x)
           || (Normalize(last) != "" && Normalize(last) == x)
  {
    var front := variants[..|variants| - 1];
    if exists i | 0 <= i < |variants| :: Normalize(variants[i]) != "" && Normalize(variants[i]) == x {
      var i :| 0 <= i < |variants| && Normalize(variants[i]) != "" && Normalize(variants[i]) == x;
      if i < |front| {
        assert front[i] == variants[i];
      }
    }
    if exists i | 0 <= i < |front| :: Normalize(front[i]) != "" && Normalize(front[i]) == x {
      var i :| 0 <= i < |front| && Normalize(front[i]) != "" && Normalize(front[i]) == x;
      assert variants[i] == front[i];
    }
  }

  /** `answer === question.correctAnswer` for a single-choice question. */
  predicate SingleCorrect(answer: Answer, correct: CorrectAnswer) {
    answer.AStr? && correct.Str? && answer.str == correct.str
  }

  /** The structured modes, decided by `inputMode` before the answer key is looked at. */
  predicate Structured(mode: InputMode) {
    mode.McqSingle? || mode.McqMulti? || mode.FillBlanksDropdown? || mode.FillBlanksText?
    || mode.ReorderParagraphs? || mode.HighlightWords?
  }

  /** The free-text tiers: token overlap, accepted variants, rubric. */
  function FreeTextScore(q: Question, text: string): Score {
    if q.correctAnswer.Str? && q.correctAnswer.str != "" then
      var reference := Tokenize(q.correctAnswer.str);
      Score(Overlap(reference, Tokenize(text)), if |reference| == 0 then 1 else |reference|, map[])
    else if q.correctAnswer.StrList? || q.correctAnswer.IdxList? then
      Score(if Normalize(text) in Acceptable(Variants(q.correctAnswer)) then 1 else 0, 1, map[])
    else
      RubricScore(q.rubric, text)
  }

  /** What `scoreResponse` returns. */
  function Scored(q: Question, answer: Answer, transcript: Option<string>): Score {
    match q.inputMode
    case McqSingle => Score(if SingleCorrect(answer, q.correctAnswer) then 1 else 0, 1, map[])
    case McqMulti => SelectionScore(answer.Elems(), q.correctAnswer.Elems())
    case FillBlanksDropdown => Score(BlankHits(answer.Strings(), q.blanks), |q.blanks|, map[])
    case FillBlanksText => Score(BlankHits(answer.Strings(), q.blanks), |q.blanks|, map[])
    case ReorderParagraphs => Score(OrderHits(answer.Elems(), q.correctAnswer.Elems()), |q.correctAnswer.Elems()|, map[])
    case HighlightWords => SelectionScore(answer.Elems(), q.correctAnswer.Elems())
    case _ => FreeTextScore(q, TextAnswer(answer, transcript))
  }

  /** `scoreResponse`: dispatch on the input mode, then on the shape of the answer key. */
  method ScoreResponse(q: Question, answer: Answer, transcript: Option<string>) returns (s: Score)
    ensures s == Scored(q, answer, transcript)
  {
    var textAnswer := if answer.AStr? && |answer.str| > 0 then answer.str else transcript.GetOr("");
    match q.inputMode {
      case McqSingle =>
        s := Score(if SingleCorrect(answer, q.correctAnswer) then 1 else 0, 1, map[]);
      case McqMulti =>
        s := ScoreSelection(answer.Elems(), q.correctAnswer.Elems());
      case FillBlanksDropdown =>
        s := ScoreBlanks(answer.Strings(), q.blanks);
      case FillBlanksText =>
        s := ScoreBlanks(answer.Strings(), q.blanks);
      case ReorderParagraphs =>
        s := ScoreOrder(answer.Elems(), q.correctAnswer.Elems());
      case HighlightWords =>
        s := ScoreSelection(answer.Elems(), q.correctAnswer.Elems());
      case _ =>
        s := ScoreFreeText(q, textAnswer);
    }
  }

  /** The free-text part of `scoreResponse`: token overlap, else accepted variants, else the rubric. */
  method ScoreFreeText(q: Question, textAnswer: string) returns (s: Score)
    ensures s == FreeTextScore(q, textAnswer)
  {
    if q.correctAnswer.Str? && q.correctAnswer.str != "" {
      var matches, max := WordOverlapScore(q.correctAnswer.str, textAnswer);
      s := Score(matches, if max == 0 then 1 else max, map[]);
    } else if q.correctAnswer.StrList? || q.correctAnswer.IdxList? {
      var normalizedAnswer := Normalize(textAnswer);
      var acceptable := Acceptable(Variants(q.correctAnswer));
      var isCorrect := normalizedAnswer in acceptable;
      s := Score(if isCorrect then 1 else 0, 1, map[]);
    } else {
      s := ScoreRubricText(q.rubric, textAnswer);
    }
  }

  /**
   * Every score is non-negative, and within its maximum except when a
   * multi-choice or highlight answer repeats an entry.
   */
  lemma ScoredBounds(q: Question, answer: Answer, transcript: Option<string>)
    ensures Scored(q, answer, transcript).rawScore >= 0
    ensures !(q.inputMode.McqMulti? || q.inputMode.HighlightWords?) || Distinct(answer.Elems())
      ==> Scored(q, answer, transcript).rawScore <= Scored(q, answer, transcript).maxScore
  {
    SelectionBounds(answer.Elems(), q.correctAnswer.Elems());
    if !Structured(q.inputMode) && q.correctAnswer.Str? && q.correctAnswer.str != "" {
      OverlapBound(Tokenize(q.correctAnswer.str), Tokenize(TextAnswer(answer, transcript)));
    }
  }

  /**
   * The free-text modes always have a positive maximum; an accepted-variant key
   * never accepts a text that normalizes to nothing; single choice is all or nothing.
   */
  lemma ScoredFreeText(q: Question, answer: Answer, transcript: Option<string>)
    ensures !Structured(q.inputMode) ==> Scored(q, answer, transcript).maxScore >= 1
    ensures (!Structured(q.inputMode) && (q.correctAnswer.StrList? || q.correctAnswer.IdxList?)
             && Normalize(TextAnswer(answer, transcript)) == "")
      ==> Scored(q, answer, transcript).rawScore == 0
    ensures q.inputMode.McqSingle? ==>
      Scored(q, answer, transcript).maxScore == 1
      && (Scored(q, answer, transcript).rawScore == 1 <==> answer.AStr? && q.correctAnswer == Str(answer.str))
  {
  }
}
