/**
 * The shapes the scorer works on: a question of the bank (convex/schema.ts,
 * table `questions`), a submitted answer and a score.  The untyped
 * `correctAnswer` and `answer` payloads become explicit sum types.
 */
module Questions {
  import opened Wrappers

  /** The closed set of `inputMode` values the code distinguishes; any other string is `UnlistedMode`. */
  datatype InputMode =
    | McqSingle | McqMulti | FillBlanksDropdown | FillBlanksText | ReorderParagraphs | HighlightWords
    | ShortText | LongText | SpokenTranscript | UnlistedMode

  /** An entry of a JavaScript array of option ids or word indices; a string never equals a number. */
  datatype Elem = TextElem(text: string) | IndexElem(index: int)

  /** `question.correctAnswer`: a string, an array of strings, an array of numbers, or absent. */
  datatype CorrectAnswer = Str(str: string) | StrList(strs: seq<string>) | IdxList(idxs: seq<int>) | Absent {

    /** The array when `Array.isArray(correctAnswer)`, `[]` otherwise. */
    function Elems(): seq<Elem> {
      match this
      case StrList(xs) => seq(|xs|, i requires 0 <= i < |xs| => TextElem(xs[i]))
      case IdxList(ns) => seq(|ns|, i requires 0 <= i < |ns| => IndexElem(ns[i]))
      case _ => []
    }
  }

  /** A submitted answer: a string, an array of strings, an array of numbers, or anything else. */
  datatype Answer = AStr(str: string) | AStrList(strs: seq<string>) | AIntList(ints: seq<int>) | Other {

    /** The array when `Array.isArray(answer)`, `[]` otherwise. */
    function Elems(): seq<Elem> {
      match this
      case AStrList(xs) => seq(|xs|, i requires 0 <= i < |xs| => TextElem(xs[i]))
      case AIntList(ns) => seq(|ns|, i requires 0 <= i < |ns| => IndexElem(ns[i]))
      case _ => []
    }

    /** The array of strings a fill-blanks answer is read as. */
    function Strings(): seq<string> {
      if AStrList? then strs else []
    }
  }

  datatype QuestionOption = QuestionOption(id: string, text: string)

  datatype Blank = Blank(id: string, answer: string)

  /** `question.rubric`; absent keyword lists are empty, absent word bounds are `None`. */
  datatype Rubric = Rubric(keywords: seq<string>, keypoints: seq<string>, minWords: Option<int>, maxWords: Option<int>)

  /** One entry of `question.categories`: a category slug and a non-negative weight. */
  datatype CategoryWeight = CategoryWeight(slug: string, weight: real)

  /** A question of the bank; absent `options` and `blanks` are empty. */
  datatype Question = Question(
    typeSlug: string,
    section: string,
    inputMode: InputMode,
    options: seq<QuestionOption>,
    blanks: seq<Blank>,
    correctAnswer: CorrectAnswer,
    rubric: Option<Rubric>,
    categories: seq<CategoryWeight>)

  /** What `scoreResponse` returns. */
  datatype Score = Score(rawScore: int, maxScore: int, traitScores: map<string, real>)
}
