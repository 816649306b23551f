/**
 * The session page of components/tests/test-session-client.tsx: the starting
 * answer for a question, which item is active, the progress figure, and what
 * submitting sends to the server.  The page works on the `items` of a session
 * detail (`Store.DetailItem`), each with its question and its response, if any.
 */
module SessionClient {
  import opened Wrappers
  import opened Questions
  import opened Text
  import opened Scoring
  import opened QuestionView
  import opened Store
  import opened Aggregate

  // ---------------------------------------------------------------------------
  // getDefaultAnswer
  // ---------------------------------------------------------------------------

  /** The option ids of a question, in authoring order. */
  function OptionIds(options: seq<QuestionOption>): (ids: seq<string>)
    ensures |ids| == |options|
    ensures forall i | 0 <= i < |options| :: ids[i] == options[i].id
  {
    seq(|options|, i requires 0 <= i < |options| => options[i].id)
  }

  /** One `""` per entry of `n` blanks. */
  function EmptyEntries(n: nat): (r: seq<string>)
    ensures |r| == n
    ensures forall i | 0 <= i < n :: r[i] == ""
  {
    seq(n, _ => "")
  }

  /** `getDefaultAnswer(question)`: the answer the page starts from when the item has no response. */
  function DefaultAnswer(q: Question): Answer {
    match q.inputMode
    case McqMulti => AStrList([])
    case HighlightWords => AStrList([])
    case ReorderParagraphs => AStrList(OptionIds(q.options))
    case FillBlanksDropdown => AStrList(EmptyEntries(|q.blanks|))
    case FillBlanksText => AStrList(EmptyEntries(|q.blanks|))
    case _ => AStr("")
  }

  /**
   * The starting answer is the one the answer editors would build from nothing:
   * a toggle on it selects exactly the toggled entry, the reorder handler edits
   * the option ids in authoring order, and a blank edit keeps one entry per
   * blank with every other entry still empty.
   */
  lemma DefaultAnswerFitsEditors(q: Question)
    ensures q.inputMode.McqMulti? ==> forall id: string {:trigger TextElem(id)} ::
      MultiToggle(DefaultAnswer(q), id) == [TextElem(id)]
    ensures q.inputMode.HighlightWords? ==> forall index: int {:trigger IndexElem(index)} ::
      HighlightToggle(DefaultAnswer(q), index) == [IndexElem(index)]
    ensures q.inputMode.ReorderParagraphs? ==> ReorderBase(DefaultAnswer(q), q.options) == ReorderBase(Other, q.options)
    ensures (q.inputMode.FillBlanksDropdown? || q.inputMode.FillBlanksText?) ==>
      forall j, v | 0 <= j < |q.blanks| ::
        var next := BlankChange(q.blanks, DefaultAnswer(q), q.blanks[j].id, v);
        && next.Some?
        && next.value == AStrList(EmptyEntries(|q.blanks|)[BlankIndex(q.blanks, q.blanks[j].id).value := v])
  {
    if q.inputMode.McqMulti? || q.inputMode.HighlightWords? {
      assert DefaultAnswer(q).Elems() == [];
      forall id: string ensures Toggle([], TextElem(id)) == [TextElem(id)] {
        ToggleSpec([], TextElem(id));
      }
      forall index: int ensures Toggle([], IndexElem(index)) == [IndexElem(index)] {
        ToggleSpec([], IndexElem(index));
      }
    }
    if q.inputMode.FillBlanksDropdown? || q.inputMode.FillBlanksText? {
      forall j, v | 0 <= j < |q.blanks|
        ensures BlankChange(q.blanks, DefaultAnswer(q), q.blanks[j].id, v)
          == Some(AStrList(EmptyEntries(|q.blanks|)[BlankIndex(q.blanks, q.blanks[j].id).value := v]))
      {
        var index := BlankIndex(q.blanks, q.blanks[j].id);
        assert index.Some?;
      }
    }
  }

  /** Submitting the starting answer of a selection or fill-blanks question scores nothing. */
  lemma DefaultAnswerScoresNothing(q: Question, transcript: Option<string>)
    requires q.inputMode in {McqMulti, HighlightWords, FillBlanksDropdown, FillBlanksText}
    ensures Scored(q, DefaultAnswer(q), transcript).rawScore == 0
  {
    if q.inputMode.FillBlanksDropdown? || q.inputMode.FillBlanksText? {
      BlankHitsOfEmpty(EmptyEntries(|q.blanks|), q.blanks);
    }
  }

  /** Answers that are all empty text hit no blank. */
  lemma {:induction false} BlankHitsOfEmpty(answers: seq<string>, blanks: seq<Blank>)
    requires forall i | 0 <= i < |answers| :: answers[i] == ""
    ensures BlankHits(answers, blanks) == 0
  {
    if blanks != [] {
      BlankHitsOfEmpty(answers, blanks[..|blanks| - 1]);
      var i := |blanks| - 1;
      NormalIsFixpoint("");
      assert Normalize(if i < |answers| then answers[i] else "") == "";
    }
  }

  // ---------------------------------------------------------------------------
  // activeIndex, isLast, progress
  // ---------------------------------------------------------------------------

  predicate Answered(item: DetailItem) {
    item.response.Some?
  }

  /** `items.findIndex((item) => !item.response)`, with `None` for `-1`. */
  function FirstIncomplete(items: seq<DetailItem>): (k: Option<nat>)
    ensures k.Some? ==>
      && k.value < |items|
      && !Answered(items[k.value])
      && forall j | 0 <= j < k.value :: Answered(items[j])
    ensures k.None? ==> forall j | 0 <= j < |items| :: Answered(items[j])
  {
    if items == [] then None
    else if !Answered(items[0]) then Some(0)
    else match FirstIncomplete(items[1..])
      case None => None
      case Some(k) => Some(k + 1)
  }

  /** `activeIndex`: the first unanswered item, or the last one when all are answered, or 0 for no items. */
  function ActiveIndex(items: seq<DetailItem>): nat {
    match FirstIncomplete(items)
    case Some(k) => k
    case None => if |items| - 1 > 0 then |items| - 1 else 0
  }

  /**
   * The active index lies inside a non-empty list; every earlier item is
   * answered; and it is unanswered unless every item is answered.
   */
  lemma ActiveIndexSpec(items: seq<DetailItem>)
    ensures |items| == 0 ==> ActiveIndex(items) == 0
    ensures |items| > 0 ==> ActiveIndex(items) < |items|
    ensures forall j | 0 <= j < ActiveIndex(items) && j < |items| :: Answered(items[j])
    ensures |items| > 0 && Answered(items[ActiveIndex(items)]) ==> forall j | 0 <= j < |items| :: Answered(items[j])
  {
  }

  /**
   * Two items that draw the same question share its response (as
   * `getTestSessionDetail` shows them), so an item whose question was answered
   * at an earlier position is never the active one unless every item is answered.
   */
  lemma RepeatedPickCountsAnswered(items: seq<DetailItem>, i: nat)
    requires forall a, b | 0 <= a < |items| && 0 <= b < |items| ::
      items[a].questionId == items[b].questionId ==> items[a].response == items[b].response
    requires i < ActiveIndex(items) && ActiveIndex(items) < |items|
    requires items[i].questionId == items[ActiveIndex(items)].questionId
    ensures forall j | 0 <= j < |items| :: Answered(items[j])
  {
    ActiveIndexSpec(items);
  }

  /** `isLast`: the active item is the last one (never for an empty list). */
  predicate IsLast(items: seq<DetailItem>) {
    ActiveIndex(items) == |items| - 1
  }

  /** The last item is active exactly when every item before it is answered. */
  lemma IsLastSpec(items: seq<DetailItem>)
    ensures IsLast(items) <==> |items| > 0 && forall j | 0 <= j < |items| - 1 :: Answered(items[j])
  {
    ActiveIndexSpec(items);
    if |items| > 0 && forall j | 0 <= j < |items| - 1 :: Answered(items[j]) {
      var k := FirstIncomplete(items);
      if k.Some? {
        assert k.value == |items| - 1;
      }
    }
  }

  /** `Math.round(x)` for a non-negative `x`: halves round up. */
  function Round(x: real): int {
    (x + 0.5).Floor
  }

  /** `progress`: 0 for no items, otherwise `Math.round((activeIndex + 1) / items.length * 100)`. */
  function Progress(items: seq<DetailItem>): int {
    if |items| == 0 then 0
    else Round((ActiveIndex(items) + 1) as real / |items| as real * 100.0)
  }

  /**
   * Progress is a percentage: at most 100, and exactly 100 on the last item.
   */
  lemma ProgressSpec(items: seq<DetailItem>)
    ensures 0 <= Progress(items) <= 100
    ensures |items| > 0 && IsLast(items) ==> Progress(items) == 100
  {
    if |items| > 0 {
      ActiveIndexSpec(items);
      var done, total := (ActiveIndex(items) + 1) as real, |items| as real;
      RatioAtMostOne(done, total);
      if IsLast(items) {
        assert done / total == 1.0;
      }
    }
  }

  /** A later active item never shows a smaller percentage. */
  lemma PercentMonotone(a: nat, b: nat, total: nat)
    requires total > 0 && a <= b
    ensures Round(a as real / total as real * 100.0) <= Round(b as real / total as real * 100.0)
  {
    RatioMonotone(a as real, b as real, total as real);
  }

  // ---------------------------------------------------------------------------
  // handleSubmit
  // ---------------------------------------------------------------------------

  /** The requests `handleSubmit` sends, in order. */
  datatype Request = SubmitRequest(questionId: nat, answer: Answer) | FinishRequest

  /**
   * `handleSubmit()`: nothing without an active question; otherwise submit the
   * answer for the active question and wait for it; when the submission
   * resolved (`submitted`) and the active item is the last, finish the
   * session.  A rejected submission ("Session not found", "Question not
   * found") leaves the `try` before the finish is sent.
   */
  function SubmitRequests(items: seq<DetailItem>, answer: Answer, submitted: bool): seq<Request> {
    var k := ActiveIndex(items);
    if k >= |items| || items[k].question.None? then []
    else [SubmitRequest(items[k].questionId, answer)] + (if submitted && IsLast(items) then [FinishRequest] else [])
  }

  /**
   * A finish is sent only as the second request, after the active question's
   * submission has resolved, and exactly when that question is the last item;
   * the submission carries the edited answer.
   */
  lemma SubmitRequestsSpec(items: seq<DetailItem>, answer: Answer, submitted: bool)
    ensures var rs := SubmitRequests(items, answer, submitted);
      && (rs == [] <==> |items| == 0 || items[ActiveIndex(items)].question.None?)
      && (rs != [] ==> rs[0] == SubmitRequest(items[ActiveIndex(items)].questionId, answer))
      && (FinishRequest in rs <==> rs != [] && submitted && IsLast(items))
      && (FinishRequest in rs ==> |rs| == 2 && rs[1] == FinishRequest)
      && (!submitted ==> |rs| <= 1)
  {
    ActiveIndexSpec(items);
  }
}
