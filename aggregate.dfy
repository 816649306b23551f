/**
 * The fold of `finishTestSession` (convex/tests.ts): a session's responses
 * become an overall total, one total per section and one weighted total per
 * category, each reported with its `toScaledScore`.
 *
 * JavaScript numbers are `real` here.  The per-section and per-category
 * records are objects; they are kept as sequences of keyed tallies in the
 * order their keys were first inserted (JavaScript would list integer-like
 * keys first); `Bump` is the source's "create `{raw: 0, max: 0}` if missing,
 * then add".
 */
module Aggregate {
  import opened Wrappers
  import opened Questions

  // ---------------------------------------------------------------------------
  // toScaledScore
  // ---------------------------------------------------------------------------

  /** `toScaledScore`: 10 for a zero maximum, otherwise `Math.round(10 + raw / max * 80)`. */
  function ScaledScore(raw: real, max: real): int {
    if max == 0.0 then 10 else (10.0 + raw / max * 80.0 + 0.5).Floor
  }

  /** A score between nothing and the maximum lands in the band [10, 90]. */
  lemma ScaledScoreBounds(raw: real, max: real)
    requires 0.0 <= raw <= max
    ensures 10 <= ScaledScore(raw, max) <= 90
  {
    if max != 0.0 {
      RatioAtMostOne(raw, max);
    }
  }

  lemma RatioAtMostOne(raw: real, max: real)
    requires 0.0 <= raw <= max && max > 0.0
    ensures 0.0 <= raw / max <= 1.0
  {
    assert raw / max * max == raw;
  }

  /** For a fixed positive maximum, a higher raw score never scales lower. */
  lemma ScaledScoreMonotone(raw1: real, raw2: real, max: real)
    requires raw1 <= raw2 && max > 0.0
    ensures ScaledScore(raw1, max) <= ScaledScore(raw2, max)
  {
    RatioMonotone(raw1, raw2, max);
  }

  lemma RatioMonotone(raw1: real, raw2: real, max: real)
    requires raw1 <= raw2 && max > 0.0
    ensures raw1 / max <= raw2 / max
  {
    assert raw2 / max - raw1 / max == (raw2 - raw1) / max;
  }

  /** On whole numbers the rounding is exact integer arithmetic: `(21 max + 160 raw) div (2 max)`. */
  lemma ScaledScoreIntegerForm(raw: int, max: int)
    requires max > 0
    ensures ScaledScore(raw as real, max as real) == (21 * max + 160 * raw) / (2 * max)
  {
    var p, q := 21 * max + 160 * raw, 2 * max;
    var r, m := raw as real, max as real;
    var x := 10.0 + r / m * 80.0 + 0.5;
    assert r / m * m == r;
    assert x * (2.0 * m) == 21.0 * m + 160.0 * r;
    assert x == p as real / q as real;
    FloorOfQuotient(p, q);
  }

  lemma FloorOfQuotient(p: int, q: int)
    requires q > 0
    ensures (p as real / q as real).Floor == p / q
  {
    var d, m := p / q, p % q;
    assert p == d * q + m && 0 <= m < q;
    assert p as real / q as real == d as real + m as real / q as real;
    assert 0.0 <= m as real / q as real < 1.0;
  }

  /** One out of 32 is 12.5 above the floor of the band, and rounds half up to 13. */
  lemma ScaledScoreRoundsHalfUp()
    ensures ScaledScore(1.0, 32.0) == 13
    ensures ScaledScore(0.0, 0.0) == 10
  {
    ScaledScoreIntegerForm(1, 32);
  }

  // ---------------------------------------------------------------------------
  // Keyed tallies
  // ---------------------------------------------------------------------------

  /** An entry `key: { raw, max }` of a totals record. */
  datatype Tally = Tally(key: string, raw: real, max: real)

  /** The record has an entry for `key`. */
  predicate Has(rec: seq<Tally>, key: string) {
    exists i | 0 <= i < |rec| :: rec[i].key == key
  }

  predicate DistinctKeys(rec: seq<Tally>) {
    forall i, j | 0 <= i < j < |rec| :: rec[i].key != rec[j].key
  }

  /** The position of the entry for `key`, or `|rec|` when there is none. */
  function IndexOf(rec: seq<Tally>, key: string): (i: nat)
    ensures i <= |rec|
    ensures i < |rec| ==> rec[i].key == key
    ensures i == |rec| <==> !Has(rec, key)
  {
    if rec == [] then 0
    else if rec[0].key == key then 0
    else
      var j := IndexOf(rec[1..], key);
      assert Has(rec[1..], key) ==> Has(rec, key) by {
        if Has(rec[1..], key) {
          var k :| 0 <= k < |rec[1..]| && rec[1..][k].key == key;
          assert rec[k + 1].key == key;
        }
      }
      assert Has(rec, key) ==> Has(rec[1..], key) by {
        if Has(rec, key) {
          var k :| 0 <= k < |rec| && rec[k].key == key;
          assert k > 0 && rec[1..][k - 1].key == key;
        }
      }
      1 + j
  }

  /** `record[key]?.raw ?? 0`. */
  function RawOf(rec: seq<Tally>, key: string): real {
    var i := IndexOf(rec, key);
    if i < |rec| then rec[i].raw else 0.0
  }

  /** `record[key]?.max ?? 0`. */
  function MaxOf(rec: seq<Tally>, key: string): real {
    var i := IndexOf(rec, key);
    if i < |rec| then rec[i].max else 0.0
  }

  /** `if (!record[key]) record[key] = { raw: 0, max: 0 }; record[key].raw += raw; record[key].max += max`. */
  function Bump(rec: seq<Tally>, key: string, raw: real, max: real): seq<Tally> {
    var i := IndexOf(rec, key);
    if i < |rec| then rec[i := Tally(key, rec[i].raw + raw, rec[i].max + max)]
    else rec + [Tally(key, raw, max)]
  }

  function SumRaw(rec: seq<Tally>): real {
    if rec == [] then 0.0 else SumRaw(rec[..|rec| - 1]) + rec[|rec| - 1].raw
  }

  function SumMax(rec: seq<Tally>): real {
    if rec == [] then 0.0 else SumMax(rec[..|rec| - 1]) + rec[|rec| - 1].max
  }

  lemma {:induction false} SumUpdate(rec: seq<Tally>, i: nat, t: Tally)
    requires i < |rec|
    ensures SumRaw(rec[i := t]) == SumRaw(rec) - rec[i].raw + t.raw
    ensures SumMax(rec[i := t]) == SumMax(rec) - rec[i].max + t.max
  {
    var n := |rec| - 1;
    if i == n {
      assert rec[i := t][..n] == rec[..n];
    } else {
      SumUpdate(rec[..n], i, t);
      assert rec[i := t][..n] == rec[..n][i := t];
    }
  }

  lemma IndexOfSameKeys(rec1: seq<Tally>, rec2: seq<Tally>, key: string)
    requires |rec1| == |rec2|
    requires forall i | 0 <= i < |rec1| :: rec1[i].key == rec2[i].key
    ensures IndexOf(rec1, key) == IndexOf(rec2, key)
  {
    if rec1 != [] && rec1[0].key != key {
      IndexOfSameKeys(rec1[1..], rec2[1..], key);
    }
  }

  lemma {:induction false} IndexOfAppend(rec: seq<Tally>, t: Tally, key: string)
    ensures IndexOf(rec + [t], key) == if Has(rec, key) || t.key == key then IndexOf(rec, key) else |rec| + 1
  {
    if rec != [] && rec[0].key != key {
      IndexOfAppend(rec[1..], t, key);
      assert (rec + [t])[1..] == rec[1..] + [t];
    }
  }

  /** `Bump` adds to the entry for `key` alone. */
  lemma BumpLookup(rec: seq<Tally>, key: string, raw: real, max: real, other: string)
    ensures RawOf(Bump(rec, key, raw, max), other) == RawOf(rec, other) + (if other == key then raw else 0.0)
    ensures MaxOf(Bump(rec, key, raw, max), other) == MaxOf(rec, other) + (if other == key then max else 0.0)
  {
    var i := IndexOf(rec, key);
    var b := Bump(rec, key, raw, max);
    if i < |rec| {
      IndexOfSameKeys(rec, b, other);
    } else {
      IndexOfAppend(rec, Tally(key, raw, max), other);
    }
  }

  /**
   * `Bump` keeps every entry's key in place and appends an entry for `key`
   * when there was none, so keys stay distinct and in the order of their
   * first insertion.
   */
  lemma BumpKeys(rec: seq<Tally>, key: string, raw: real, max: real, other: string)
    ensures Has(Bump(rec, key, raw, max), other) <==> Has(rec, other) || other == key
    ensures |Bump(rec, key, raw, max)| == |rec| + (if Has(rec, key) then 0 else 1)
    ensures forall i | 0 <= i < |rec| :: Bump(rec, key, raw, max)[i].key == rec[i].key
    ensures DistinctKeys(rec) ==> DistinctKeys(Bump(rec, key, raw, max))
  {
    var i := IndexOf(rec, key);
    var b := Bump(rec, key, raw, max);
    if i < |rec| {
      if Has(b, other) {
        var k :| 0 <= k < |b| && b[k].key == other;
        assert rec[k].key == other;
      }
      if Has(rec, other) {
        var k :| 0 <= k < |rec| && rec[k].key == other;
        assert b[k].key == other;
      }
    } else {
      if Has(b, other) && other != key {
        var k :| 0 <= k < |b| && b[k].key == other;
        assert k < |rec| && rec[k].key == other;
      }
      if Has(rec, other) {
        var k :| 0 <= k < |rec| && rec[k].key == other;
        assert b[k].key == other;
      }
      if other == key {
        assert b[|rec|].key == other;
      }
    }
  }

  /** `Bump` adds exactly its amounts to the record's sums. */
  lemma BumpSum(rec: seq<Tally>, key: string, raw: real, max: real)
    ensures SumRaw(Bump(rec, key, raw, max)) == SumRaw(rec) + raw
    ensures SumMax(Bump(rec, key, raw, max)) == SumMax(rec) + max
  {
    var i := IndexOf(rec, key);
    if i < |rec| {
      SumUpdate(rec, i, Tally(key, rec[i].raw + raw, rec[i].max + max));
    } else {
      SumSnoc(rec, Tally(key, raw, max));
    }
  }

  lemma SumSnoc(rec: seq<Tally>, t: Tally)
    ensures SumRaw(rec + [t]) == SumRaw(rec) + t.raw
    ensures SumMax(rec + [t]) == SumMax(rec) + t.max
  {
    assert (rec + [t])[..|rec|] == rec;
  }

  // ---------------------------------------------------------------------------
  // The fold
  // ---------------------------------------------------------------------------

  /** A response as the fold sees it: its scores and its question, `None` when the question is gone. */
  datatype Graded = Graded(rawScore: int, maxScore: int, question: Option<Question>)

  /** `points * category.weight`: the part of a response's points that goes to the category. */
  function Share(points: real, category: CategoryWeight): real {
    points * category.weight
  }

  /** Adds one response's scores, scaled by the category's weight, to that category. */
  function Credit(rec: seq<Tally>, category: CategoryWeight, raw: real, max: real): seq<Tally> {
    Bump(rec, category.slug, Share(raw, category), Share(max, category))
  }

  /** Adds one response's weighted scores to each category the question lists, in list order. */
  function AddWeights(rec: seq<Tally>, categories: seq<CategoryWeight>, raw: real, max: real): seq<Tally> {
    if categories == [] then rec
    else Credit(AddWeights(rec, categories[..|categories| - 1], raw, max), categories[|categories| - 1], raw, max)
  }

  lemma AddWeightsStep(rec: seq<Tally>, categories: seq<CategoryWeight>, j: nat, raw: real, max: real)
    requires j < |categories|
    ensures AddWeights(rec, categories[..j + 1], raw, max)
      == Credit(AddWeights(rec, categories[..j], raw, max), categories[j], raw, max)
  {
    assert categories[..j + 1][..j] == categories[..j];
  }

  /** `totalRaw` after the responses `rs`. */
  function TotalRaw(rs: seq<Graded>): real {
    if rs == [] then 0.0
    else
      var g := rs[|rs| - 1];
      TotalRaw(rs[..|rs| - 1]) + (if g.question.Some? then g.rawScore as real else 0.0)
  }

  /** `totalMax` after the responses `rs`. */
  function TotalMax(rs: seq<Graded>): real {
    if rs == [] then 0.0
    else
      var g := rs[|rs| - 1];
      TotalMax(rs[..|rs| - 1]) + (if g.question.Some? then g.maxScore as real else 0.0)
  }

  /** `sectionTotals` after the responses `rs`. */
  function SectionTotals(rs: seq<Graded>): seq<Tally> {
    if rs == [] then []
    else
      var g := rs[|rs| - 1];
      var prev := SectionTotals(rs[..|rs| - 1]);
      if g.question.None? then prev
      else Bump(prev, g.question.value.section, g.rawScore as real, g.maxScore as real)
  }

  /** `categoryTotals` after the responses `rs`. */
  function CategoryTotals(rs: seq<Graded>): seq<Tally> {
    if rs == [] then []
    else
      var g := rs[|rs| - 1];
      var prev := CategoryTotals(rs[..|rs| - 1]);
      if g.question.None? then prev
      else AddWeights(prev, g.question.value.categories, g.rawScore as real, g.maxScore as real)
  }

  datatype Scaled = Scaled(score: int, raw: real, max: real)

  /** An entry of the `sections` object, or of the `categories` array with its `slug`. */
  datatype Keyed = Keyed(key: string, value: Scaled)

  /** The `scoreSummary` stored on a finished session. */
  datatype Summary = Summary(overall: Scaled, sections: seq<Keyed>, categories: seq<Keyed>)

  function ScaledOf(raw: real, max: real): Scaled {
    Scaled(ScaledScore(raw, max), raw, max)
  }

  /** `Object.entries(totals).map(...)`: each tally with its scaled score, in the record's order (first insertion). */
  function Report(rec: seq<Tally>): (r: seq<Keyed>)
    ensures |r| == |rec|
    ensures forall i | 0 <= i < |rec| :: r[i].key == rec[i].key && r[i].value == ScaledOf(rec[i].raw, rec[i].max)
  {
    seq(|rec|, i requires 0 <= i < |rec| => Keyed(rec[i].key, ScaledOf(rec[i].raw, rec[i].max)))
  }

  /**
   * The report lists one entry per tally, in the record's order: it carries the
   * tally's key and totals, so distinct keys stay distinct, and a tally with
   * `0 <= raw <= max` is reported with a scaled score in the band [10, 90].
   */
  lemma ReportSpec(rec: seq<Tally>)
    ensures |Report(rec)| == |rec|
    ensures forall i | 0 <= i < |rec| ::
      Report(rec)[i].key == rec[i].key && Report(rec)[i].value.raw == rec[i].raw && Report(rec)[i].value.max == rec[i].max
    ensures DistinctKeys(rec) ==> forall i, j | 0 <= i < j < |rec| :: Report(rec)[i].key != Report(rec)[j].key
    ensures forall i | 0 <= i < |rec| && 0.0 <= rec[i].raw <= rec[i].max ::
      10 <= Report(rec)[i].value.score <= 90
  {
    forall i | 0 <= i < |rec| && 0.0 <= rec[i].raw <= rec[i].max
      ensures 10 <= Report(rec)[i].value.score <= 90
    {
      ScaledScoreBounds(rec[i].raw, rec[i].max);
    }
  }

  /** The summary `finishTestSession` computes from the session's responses. */
  function SummaryOf(rs: seq<Graded>): Summary {
    Summary(ScaledOf(TotalRaw(rs), TotalMax(rs)), Report(SectionTotals(rs)), Report(CategoryTotals(rs)))
  }

  /** The loop of `finishTestSession` over the responses, then the summary it builds. */
  method Aggregate(rs: seq<Graded>) returns (summary: Summary)
    ensures summary == SummaryOf(rs)
  {
    var totalRaw, totalMax := 0.0, 0.0;
    var sectionTotals: seq<Tally> := [];
    var categoryTotals: seq<Tally> := [];
    for i := 0 to |rs|
      invariant totalRaw == TotalRaw(rs[..i]) && totalMax == TotalMax(rs[..i])
      invariant sectionTotals == SectionTotals(rs[..i])
      invariant categoryTotals == CategoryTotals(rs[..i])
    {
      assert rs[..i + 1][..i] == rs[..i];
      var response := rs[i];
      if response.question.None? {
        continue;
      }
      var question := response.question.value;
      var raw, max := response.rawScore as real, response.maxScore as real;
      totalRaw := totalRaw + raw;
      totalMax := totalMax + max;
      sectionTotals := Bump(sectionTotals, question.section, raw, max);
      ghost var before := categoryTotals;
      for j := 0 to |question.categories|
        invariant categoryTotals == AddWeights(before, question.categories[..j], raw, max)
      {
        var category := question.categories[j];
        AddWeightsStep(before, question.categories, j, raw, max);
        categoryTotals := Credit(categoryTotals, category, raw, max);
      }
      assert question.categories[..|question.categories|] == question.categories;
    }
    assert rs[..|rs|] == rs;
    summary := Summary(
      ScaledOf(totalRaw, totalMax),
      Report(sectionTotals),
      Report(categoryTotals));
  }

  // ---------------------------------------------------------------------------
  // What the totals mean
  // ---------------------------------------------------------------------------

  /** The response counts towards section `s`: its question exists and belongs to `s`. */
  predicate InSection(g: Graded, s: string) {
    g.question.Some? && g.question.value.section == s
  }

  /** The raw points of the responses in section `s`. */
  function SectionRaw(rs: seq<Graded>, s: string): real {
    if rs == [] then 0.0
    else SectionRaw(rs[..|rs| - 1], s) + (if InSection(rs[|rs| - 1], s) then rs[|rs| - 1].rawScore as real else 0.0)
  }

  /** The maximum points of the responses in section `s`. */
  function SectionMax(rs: seq<Graded>, s: string): real {
    if rs == [] then 0.0
    else SectionMax(rs[..|rs| - 1], s) + (if InSection(rs[|rs| - 1], s) then rs[|rs| - 1].maxScore as real else 0.0)
  }

  /**
   * `sectionTotals` has one entry per section seen, exactly those sections, and
   * each holds the sums over that section's responses.
   */
  lemma {:induction false} SectionTotalsSpec(rs: seq<Graded>, s: string)
    ensures DistinctKeys(SectionTotals(rs))
    ensures Has(SectionTotals(rs), s) <==> exists i | 0 <= i < |rs| :: InSection(rs[i], s)
    ensures RawOf(SectionTotals(rs), s) == SectionRaw(rs, s)
    ensures MaxOf(SectionTotals(rs), s) == SectionMax(rs, s)
  {
    if rs != [] {
      var front, g := rs[..|rs| - 1], rs[|rs| - 1];
      SectionTotalsSpec(front, s);
      if g.question.Some? {
        BumpLookup(SectionTotals(front), g.question.value.section, g.rawScore as real, g.maxScore as real, s);
        BumpKeys(SectionTotals(front), g.question.value.section, g.rawScore as real, g.maxScore as real, s);
      }
      assert rs == front + [g];
      SeenInPrefix(front, g, s);
    }
  }

  lemma SeenInPrefix(front: seq<Graded>, g: Graded, s: string)
    ensures (exists i | 0 <= i < |front + [g]| :: InSection((front + [g])[i], s))
      <==> (exists i | 0 <= i < |front| :: InSection(front[i], s)) || InSection(g, s)
  {
    var rs := front + [g];
    if exists i | 0 <= i < |rs| :: InSection(rs[i], s) {
      var i :| 0 <= i < |rs| && InSection(rs[i], s);
      if i < |front| {
        assert InSection(front[i], s);
      }
    }
    if exists i | 0 <= i < |front| :: InSection(front[i], s) {
      var i :| 0 <= i < |front| && InSection(front[i], s);
      assert InSection(rs[i], s);
    }
    assert rs[|front|] == g;
  }

  /** The overall totals are the sums of the section totals. */
  lemma {:induction false} OverallIsSumOfSections(rs: seq<Graded>)
    ensures TotalRaw(rs) == SumRaw(SectionTotals(rs))
    ensures TotalMax(rs) == SumMax(SectionTotals(rs))
  {
    if rs != [] {
      var front, g := rs[..|rs| - 1], rs[|rs| - 1];
      OverallIsSumOfSections(front);
      if g.question.Some? {
        BumpSum(SectionTotals(front), g.question.value.section, g.rawScore as real, g.maxScore as real);
      }
    }
  }

  /** The weight-scaled points a question's category list gives category `c`. */
  function Weighted(categories: seq<CategoryWeight>, c: string, points: real): real {
    if categories == [] then 0.0
    else
      var last := categories[|categories| - 1];
      Weighted(categories[..|categories| - 1], c, points) + (if last.slug == c then Share(points, last) else 0.0)
  }

  /** The question of `g` exists and lists category `c`. */
  predicate MentionsCategory(g: Graded, c: string) {
    g.question.Some? && Lists(g.question.value.categories, c)
  }

  /** Σ raw · weight over every listing of category `c` by the responses' questions. */
  function CategoryRaw(rs: seq<Graded>, c: string): real {
    if rs == [] then 0.0
    else
      var g := rs[|rs| - 1];
      CategoryRaw(rs[..|rs| - 1], c) + (if g.question.Some? then Weighted(g.question.value.categories, c, g.rawScore as real) else 0.0)
  }

  /** Σ max · weight over every listing of category `c` by the responses' questions. */
  function CategoryMax(rs: seq<Graded>, c: string): real {
    if rs == [] then 0.0
    else
      var g := rs[|rs| - 1];
      CategoryMax(rs[..|rs| - 1], c) + (if g.question.Some? then Weighted(g.question.value.categories, c, g.maxScore as real) else 0.0)
  }

  /** Some entry of the category list names `c`. */
  predicate Lists(categories: seq<CategoryWeight>, c: string) {
    exists j | 0 <= j < |categories| :: categories[j].slug == c
  }

  lemma ListsSplit(categories: seq<CategoryWeight>, c: string)
    requires categories != []
    ensures Lists(categories, c)
      <==> Lists(categories[..|categories| - 1], c) || categories[|categories| - 1].slug == c
  {
    var front := categories[..|categories| - 1];
    if Lists(categories, c) {
      var j :| 0 <= j < |categories| && categories[j].slug == c;
      if j < |front| {
        assert front[j].slug == c;
      }
    }
    if Lists(front, c) {
      var j :| 0 <= j < |front| && front[j].slug == c;
      assert categories[j].slug == c;
    }
  }

  lemma {:induction false} AddWeightsSpec(rec: seq<Tally>, categories: seq<CategoryWeight>, raw: real, max: real, c: string)
    ensures DistinctKeys(rec) ==> DistinctKeys(AddWeights(rec, categories, raw, max))
    ensures Has(AddWeights(rec, categories, raw, max), c) <==> Has(rec, c) || Lists(categories, c)
    ensures RawOf(AddWeights(rec, categories, raw, max), c) == RawOf(rec, c) + Weighted(categories, c, raw)
    ensures MaxOf(AddWeights(rec, categories, raw, max), c) == MaxOf(rec, c) + Weighted(categories, c, max)
  {
    if categories != [] {
      var front, last := categories[..|categories| - 1], categories[|categories| - 1];
      AddWeightsSpec(rec, front, raw, max, c);
      var prev := AddWeights(rec, front, raw, max);
      BumpLookup(prev, last.slug, Share(raw, last), Share(max, last), c);
      BumpKeys(prev, last.slug, Share(raw, last), Share(max, last), c);
      ListsSplit(categories, c);
    }
  }

  /**
   * `categoryTotals` has one entry per category listed by some response's
   * question, exactly those, each holding Σ raw · weight and Σ max · weight.
   */
  lemma {:induction false} CategoryTotalsSpec(rs: seq<Graded>, c: string)
    ensures DistinctKeys(CategoryTotals(rs))
    ensures Has(CategoryTotals(rs), c) <==> exists i | 0 <= i < |rs| :: MentionsCategory(rs[i], c)
    ensures RawOf(CategoryTotals(rs), c) == CategoryRaw(rs, c)
    ensures MaxOf(CategoryTotals(rs), c) == CategoryMax(rs, c)
  {
    if rs != [] {
      var front, g := rs[..|rs| - 1], rs[|rs| - 1];
      CategoryTotalsSpec(front, c);
      if g.question.Some? {
        AddWeightsSpec(CategoryTotals(front), g.question.value.categories, g.rawScore as real, g.maxScore as real, c);
      }
      if exists i | 0 <= i < |rs| :: MentionsCategory(rs[i], c) {
        var i :| 0 <= i < |rs| && MentionsCategory(rs[i], c);
        if i < |front| {
          assert MentionsCategory(front[i], c);
        }
      }
      if exists i | 0 <= i < |front| :: MentionsCategory(front[i], c) {
        var i :| 0 <= i < |front| && MentionsCategory(front[i], c);
        assert MentionsCategory(rs[i], c);
      }
    }
  }

  /** The responses whose question still exists. */
  function Present(rs: seq<Graded>): (r: seq<Graded>)
    ensures |r| <= |rs|
    ensures forall i | 0 <= i < |r| :: r[i].question.Some?
  {
    if rs == [] then []
    else Present(rs[..|rs| - 1]) + (if rs[|rs| - 1].question.Some? then [rs[|rs| - 1]] else [])
  }

  /** A response whose question is missing is skipped entirely: dropping it changes no total. */
  lemma {:induction false} MissingQuestionsSkipped(rs: seq<Graded>)
    ensures SummaryOf(Present(rs)) == SummaryOf(rs)
  {
    TotalsOfPresent(rs);
  }

  lemma {:induction false} TotalsOfPresent(rs: seq<Graded>)
    ensures TotalRaw(Present(rs)) == TotalRaw(rs) && TotalMax(Present(rs)) == TotalMax(rs)
    ensures SectionTotals(Present(rs)) == SectionTotals(rs)
    ensures CategoryTotals(Present(rs)) == CategoryTotals(rs)
  {
    if rs != [] {
      var front, g := rs[..|rs| - 1], rs[|rs| - 1];
      TotalsOfPresent(front);
      if g.question.Some? {
        assert (Present(front) + [g])[..|Present(front)|] == Present(front);
      } else {
        assert Present(rs) == Present(front);
      }
    }
  }

  /**
   * One response of 2 out of 2 on a question weighted half "content", half
   * "grammar" gives each category 1 out of 1, in listing order.
   */
  lemma CategoryFanOutExample()
    ensures var q := Question("write_email", "speaking_writing", LongText, [], [], Absent, None,
                              [CategoryWeight("content", 0.5), CategoryWeight("grammar", 0.5)]);
      CategoryTotals([Graded(2, 2, Some(q))]) == [Tally("content", 1.0, 1.0), Tally("grammar", 1.0, 1.0)]
  {
    var cats := [CategoryWeight("content", 0.5), CategoryWeight("grammar", 0.5)];
    assert cats[..1] == [CategoryWeight("content", 0.5)];
    assert [CategoryWeight("content", 0.5)][..0] == [];
    assert AddWeights([], cats[..1], 2.0, 2.0) == [Tally("content", 1.0, 1.0)];
    assert IndexOf([Tally("content", 1.0, 1.0)], "grammar") == 1;
  }
}
