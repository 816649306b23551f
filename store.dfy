/**
 * The session handlers of convex/tests.ts over an in-memory document store.
 *
 * The question bank (blueprints, question types, questions) is fixed while
 * sessions run; the store's three mutable tables are sessions, items and
 * responses.  A document id is its position in its table.  Each handler is a
 * method of `Store` proved to leave the tables as a pure function of the old
 * tables says (`AfterCreate`, `AfterSubmit`, `AfterFinish`); the properties
 * of the handlers are lemmas about those functions.  The clock and the seed
 * (`Date.now()`) are parameters.
 */
module Store {
  import opened Wrappers
  import opened Questions
  import opened Scoring
  import opened Sampler
  import opened Aggregate

  // ---------------------------------------------------------------------------
  // Documents
  // ---------------------------------------------------------------------------

  /** A `questionTypes` document. */
  datatype QuestionType = QuestionType(slug: string, section: string, timeLimitSec: Option<int>)

  /** A `testBlueprints` document; `countsByType` is an object, kept as its entries in key order. */
  datatype Blueprint = Blueprint(slug: string, countsByType: seq<(string, int)>)

  /** The question bank: blueprints by slug, question types, and questions (id = position). */
  datatype Bank = Bank(blueprints: map<string, Blueprint>, types: seq<QuestionType>, questions: seq<Question>)

  datatype Status = InProgress | Completed

  /** A `testSessions` document. */
  datatype Session = Session(
    userId: Option<string>,
    blueprintSlug: string,
    status: Status,
    startedAt: int,
    completedAt: Option<int>,
    currentIndex: int,
    seed: nat,
    scoreSummary: Option<Summary>)

  /** A `testItems` document. */
  datatype Item = Item(sessionId: nat, questionId: nat, order: nat, timeLimitSec: int)

  /** A `responses` document. */
  datatype Response = Response(
    sessionId: nat,
    questionId: nat,
    answer: Answer,
    transcript: Option<string>,
    rawScore: int,
    maxScore: int,
    traitScores: map<string, real>,
    createdAt: int)

  /** The three mutable tables. */
  datatype Tables = Tables(sessions: seq<Session>, items: seq<Item>, responses: seq<Response>)

  const DefaultBlueprint := "pte-core-full"
  const BlueprintMissing := "Blueprint not found. Seed the question bank with pteCore:seedPteCore."
  const SessionMissing := "Session not found"
  const QuestionMissing := "Question not found"

  // ---------------------------------------------------------------------------
  // Lookups
  // ---------------------------------------------------------------------------

  /** `blueprint.countsByType?.[typeSlug] ?? 0`. */
  function CountFor(counts: seq<(string, int)>, typeSlug: string): int {
    if counts == [] then 0
    else if counts[0].0 == typeSlug then counts[0].1
    else CountFor(counts[1..], typeSlug)
  }

  /** The last type document with this slug (`new Map(...)` keeps the last duplicate). */
  function TypeNamed(types: seq<QuestionType>, slug: string): (r: Option<QuestionType>)
    ensures r.Some? ==> r.value in types && r.value.slug == slug
    ensures r.None? ==> forall i | 0 <= i < |types| :: types[i].slug != slug
  {
    if types == [] then None
    else if types[|types| - 1].slug == slug then Some(types[|types| - 1])
    else TypeNamed(types[..|types| - 1], slug)
  }

  /**
   * Of several type documents sharing a slug, the last one is found, as the
   * maps built with `new Map(...)` keep the last entry for a repeated key.
   */
  lemma {:induction false} TypeNamedIsLast(types: seq<QuestionType>, slug: string)
    ensures TypeNamed(types, slug).Some? ==> exists k | 0 <= k < |types| ::
      types[k] == TypeNamed(types, slug).value && forall j | k < j < |types| :: types[j].slug != slug
  {
    if types != [] && types[|types| - 1].slug != slug {
      var front := types[..|types| - 1];
      TypeNamedIsLast(front, slug);
      if TypeNamed(front, slug).Some? {
        var k :| 0 <= k < |front| && front[k] == TypeNamed(front, slug).value
          && forall j | k < j < |front| :: front[j].slug != slug;
        assert types[k] == TypeNamed(types, slug).value;
      }
    }
  }

  /** `typeTimeLimits.get(typeSlug) ?? 60`, where each type maps to `timeLimitSec ?? 60`. */
  function LimitOf(types: seq<QuestionType>, slug: string): int {
    match TypeNamed(types, slug)
    case Some(t) => t.timeLimitSec.GetOr(60)
    case None => 60
  }

  /** `typeMap.get(typeSlug)`: the section of the type, if the type is known. */
  function SectionOf(types: seq<QuestionType>, slug: string): Option<string> {
    match TypeNamed(types, slug)
    case Some(t) => Some(t.section)
    case None => None
  }

  /** The ids of the questions of the first `n` that have type `typeSlug`, in id order. */
  function PoolUpTo(questions: seq<Question>, typeSlug: string, n: nat): (pool: seq<nat>)
    requires n <= |questions|
    ensures forall i | 0 <= i < |pool| :: pool[i] < n && questions[pool[i]].typeSlug == typeSlug
    ensures forall x | 0 <= x < n && questions[x].typeSlug == typeSlug :: x in pool
  {
    if n == 0 then []
    else PoolUpTo(questions, typeSlug, n - 1) + (if questions[n - 1].typeSlug == typeSlug then [n - 1] else [])
  }

  /** The `by_type` index query: every question of the type, and nothing else. */
  function PoolOf(questions: seq<Question>, typeSlug: string): seq<nat> {
    PoolUpTo(questions, typeSlug, |questions|)
  }

  /** The position of `t` in the canonical type order, or 19 for a type outside it. */
  function RankOf(t: string): (r: nat)
    ensures r <= |TypeOrder|
  {
    FirstIndex(TypeOrder, t)
  }

  function FirstIndex(s: seq<string>, t: string): (i: nat)
    ensures i <= |s|
    ensures i < |s| ==> s[i] == t
    ensures i == |s| ==> t !in s
  {
    if s == [] then 0 else if s[0] == t then 0 else 1 + FirstIndex(s[1..], t)
  }

  lemma {:induction false} FirstIndexOfDistinct(s: seq<string>, m: nat)
    requires m < |s|
    requires forall i, j | 0 <= i < j < |s| :: s[i] != s[j]
    ensures FirstIndex(s, s[m]) == m
  {
    if m > 0 {
      FirstIndexOfDistinct(s[1..], m - 1);
    }
  }

  lemma RankOfListed(m: nat)
    requires m < |TypeOrder|
    ensures RankOf(TypeOrder[m]) == m
  {
    TypeOrderDistinct();
    FirstIndexOfDistinct(TypeOrder, m);
  }

  // ---------------------------------------------------------------------------
  // createTestSession
  // ---------------------------------------------------------------------------

  /** The generator state `mulberry32(seed)` starts from. */
  function Seeded(seed: nat): bv32 {
    (seed % 0x1_0000_0000) as bv32
  }

  /** Items numbered from `start` for the drawn question ids, all with the type's time limit. */
  function Numbered(sessionId: nat, questionIds: seq<nat>, start: nat, timeLimitSec: int): (r: seq<Item>)
    ensures |r| == |questionIds|
  {
    seq(|questionIds|, i requires 0 <= i < |questionIds| => Item(sessionId, questionIds[i], start + i, timeLimitSec))
  }

  /** The items to insert and the generator state after the first `k` types of the canonical order. */
  datatype Plan = Plan(items: seq<Item>, state: bv32)

  /**
   * One round of the loop over `QUESTION_TYPE_ORDER`: a type with a zero count
   * is skipped; otherwise its pool is sampled (an empty pool yields nothing and
   * leaves the generator alone) and the drawn questions are numbered on.
   */
  function TypeStep(bank: Bank, counts: seq<(string, int)>, sessionId: nat, prev: Plan, typeSlug: string): Plan {
    var count := CountFor(counts, typeSlug);
    var pool := PoolOf(bank.questions, typeSlug);
    if count == 0 || |pool| == 0 then prev
    else
      var selected := Draws(pool, DrawCount(count), prev.state);
      Plan(prev.items + Numbered(sessionId, selected, |prev.items|, LimitOf(bank.types, typeSlug)),
           Advance(prev.state, DrawCount(count)))
  }

  /** The plan after the first `k` types of the canonical order. */
  function PlanUpTo(bank: Bank, counts: seq<(string, int)>, sessionId: nat, start: bv32, k: nat): Plan
    requires k <= |TypeOrder|
  {
    if k == 0 then Plan([], start)
    else TypeStep(bank, counts, sessionId, PlanUpTo(bank, counts, sessionId, start, k - 1), TypeOrder[k - 1])
  }

  /** The new session document. */
  function NewSession(slug: string, userId: Option<string>, seed: nat, now: int): Session {
    Session(userId, slug, InProgress, now, None, 0, seed, None)
  }

  /** The tables after a successful `createTestSession` on blueprint `slug`. */
  function AfterCreate(bank: Bank, t: Tables, slug: string, userId: Option<string>, seed: nat, now: int): Tables
    requires slug in bank.blueprints
  {
    var sessionId := |t.sessions|;
    var plan := PlanUpTo(bank, bank.blueprints[slug].countsByType, sessionId, Seeded(seed), |TypeOrder|);
    Tables(t.sessions + [NewSession(slug, userId, seed, now)], t.items + plan.items, t.responses)
  }

  /** The type rank of an item's question. */
  function ItemRank(bank: Bank, item: Item): nat {
    if item.questionId < |bank.questions| then RankOf(bank.questions[item.questionId].typeSlug) else |TypeOrder|
  }

  /**
   * An item drawn while walking the first `k` types: its question exists, its
   * type is one of those `k` listed types with a non-zero count, and its time
   * limit is its type's.
   */
  predicate ItemFits(bank: Bank, counts: seq<(string, int)>, item: Item, k: nat) {
    && item.questionId < |bank.questions|
    && var typeSlug := bank.questions[item.questionId].typeSlug;
    && RankOf(typeSlug) < k
    && CountFor(counts, typeSlug) != 0
    && item.timeLimitSec == LimitOf(bank.types, typeSlug)
  }

  /** An item one round adds at position `i`: numbered `i`, for the session, of the round's type. */
  predicate AddedAt(bank: Bank, counts: seq<(string, int)>, sessionId: nat, typeSlug: string, item: Item, i: nat) {
    && item.order == i && item.sessionId == sessionId
    && item.questionId < |bank.questions|
    && bank.questions[item.questionId].typeSlug == typeSlug
    && CountFor(counts, typeSlug) != 0
    && item.timeLimitSec == LimitOf(bank.types, typeSlug)
  }

  /** A round keeps the earlier items and appends items of its own type, numbered on. */
  lemma TypeStepSpec(bank: Bank, counts: seq<(string, int)>, sessionId: nat, prev: Plan, typeSlug: string)
    ensures |prev.items| <= |TypeStep(bank, counts, sessionId, prev, typeSlug).items|
    ensures TypeStep(bank, counts, sessionId, prev, typeSlug).items[..|prev.items|] == prev.items
    ensures forall i | |prev.items| <= i < |TypeStep(bank, counts, sessionId, prev, typeSlug).items| ::
      AddedAt(bank, counts, sessionId, typeSlug, TypeStep(bank, counts, sessionId, prev, typeSlug).items[i], i)
  {
    var count := CountFor(counts, typeSlug);
    var pool := PoolOf(bank.questions, typeSlug);
    if count != 0 && |pool| != 0 {
      var selected := Draws(pool, DrawCount(count), prev.state);
      DrawsPrefix(pool, DrawCount(count), DrawCount(count), prev.state);
      var drawn := Numbered(sessionId, selected, |prev.items|, LimitOf(bank.types, typeSlug));
      var items := prev.items + drawn;
      forall i | |prev.items| <= i < |items|
        ensures AddedAt(bank, counts, sessionId, typeSlug, items[i], i)
      {
        assert items[i] == drawn[i - |prev.items|];
        assert selected[i - |prev.items|] in pool;
      }
    }
  }

  /** The plan numbers its items 0, 1, 2, ... in sequence, all for the new session. */
  lemma {:induction false} PlanNumbered(bank: Bank, counts: seq<(string, int)>, sessionId: nat, start: bv32, k: nat)
    requires k <= |TypeOrder|
    ensures forall i | 0 <= i < |PlanUpTo(bank, counts, sessionId, start, k).items| ::
      PlanUpTo(bank, counts, sessionId, start, k).items[i].order == i
      && PlanUpTo(bank, counts, sessionId, start, k).items[i].sessionId == sessionId
  {
    if k > 0 {
      PlanNumbered(bank, counts, sessionId, start, k - 1);
      var prev := PlanUpTo(bank, counts, sessionId, start, k - 1);
      TypeStepSpec(bank, counts, sessionId, prev, TypeOrder[k - 1]);
      var items := PlanUpTo(bank, counts, sessionId, start, k).items;
      forall i | 0 <= i < |prev.items| ensures items[i] == prev.items[i] {
        assert items[..|prev.items|][i] == items[i];
      }
    }
  }

  /** Items that fit the first `k` types and follow the canonical type order. */
  predicate FollowsOrder(bank: Bank, counts: seq<(string, int)>, items: seq<Item>, k: nat) {
    && (forall i | 0 <= i < |items| :: ItemFits(bank, counts, items[i], k))
    && (forall i, j | 0 <= i <= j < |items| :: ItemRank(bank, items[i]) <= ItemRank(bank, items[j]))
  }

  /** The items the round for the `k`-th type appends fit the first `k` types and have rank `k - 1`. */
  lemma StepItemsRanked(bank: Bank, counts: seq<(string, int)>, sessionId: nat, prev: Plan, k: nat)
    requires 0 < k <= |TypeOrder|
    ensures var items := TypeStep(bank, counts, sessionId, prev, TypeOrder[k - 1]).items;
      && |prev.items| <= |items|
      && (forall i | 0 <= i < |prev.items| :: items[i] == prev.items[i])
      && (forall i | |prev.items| <= i < |items| :: ItemFits(bank, counts, items[i], k) && ItemRank(bank, items[i]) == k - 1)
  {
    var typeSlug := TypeOrder[k - 1];
    TypeStepSpec(bank, counts, sessionId, prev, typeSlug);
    RankOfListed(k - 1);
    var items := TypeStep(bank, counts, sessionId, prev, typeSlug).items;
    forall i | 0 <= i < |prev.items| ensures items[i] == prev.items[i] {
      assert items[..|prev.items|][i] == items[i];
    }
    forall i | |prev.items| <= i < |items|
      ensures ItemFits(bank, counts, items[i], k) && ItemRank(bank, items[i]) == k - 1
    {
      assert AddedAt(bank, counts, sessionId, typeSlug, items[i], i);
    }
  }

  /** Appending items of rank `k - 1` to items that fit the first `k - 1` types keeps the type order. */
  lemma FollowsOrderExtend(bank: Bank, counts: seq<(string, int)>, old_: seq<Item>, items: seq<Item>, k: nat)
    requires 0 < k
    requires FollowsOrder(bank, counts, old_, k - 1)
    requires |old_| <= |items| && forall i | 0 <= i < |old_| :: items[i] == old_[i]
    requires forall i | |old_| <= i < |items| :: ItemFits(bank, counts, items[i], k) && ItemRank(bank, items[i]) == k - 1
    ensures FollowsOrder(bank, counts, items, k)
  {
    forall i | 0 <= i < |old_|
      ensures ItemFits(bank, counts, items[i], k) && ItemRank(bank, items[i]) < k - 1
    {
      assert ItemFits(bank, counts, old_[i], k - 1);
    }
  }

  /** The round for the `k`-th type keeps the items in type order. */
  lemma FollowsOrderStep(bank: Bank, counts: seq<(string, int)>, sessionId: nat, prev: Plan, k: nat)
    requires 0 < k <= |TypeOrder|
    requires FollowsOrder(bank, counts, prev.items, k - 1)
    ensures FollowsOrder(bank, counts, TypeStep(bank, counts, sessionId, prev, TypeOrder[k - 1]).items, k)
  {
    StepItemsRanked(bank, counts, sessionId, prev, k);
    FollowsOrderExtend(bank, counts, prev.items, TypeStep(bank, counts, sessionId, prev, TypeOrder[k - 1]).items, k);
  }

  /**
   * Every planned item fits one of the walked types, and the items follow the
   * canonical type order.
   */
  lemma {:induction false} PlanFollowsTypeOrder(bank: Bank, counts: seq<(string, int)>, sessionId: nat, start: bv32, k: nat)
    requires k <= |TypeOrder|
    ensures FollowsOrder(bank, counts, PlanUpTo(bank, counts, sessionId, start, k).items, k)
  {
    if k > 0 {
      var prev := PlanUpTo(bank, counts, sessionId, start, k - 1);
      assert PlanUpTo(bank, counts, sessionId, start, k) == TypeStep(bank, counts, sessionId, prev, TypeOrder[k - 1]);
      PlanFollowsTypeOrder(bank, counts, sessionId, start, k - 1);
      FollowsOrderStep(bank, counts, sessionId, prev, k);
    }
  }

  /** The store's tables satisfy what the handlers rely on and keep. */
  predicate WellFormed(bank: Bank, t: Tables) {
    && WellFormedItems(bank, t)
    && (forall i | 0 <= i < |t.responses| ::
          t.responses[i].sessionId < |t.sessions| && t.responses[i].questionId < |bank.questions|)
    && (forall i, j | 0 <= i < j < |t.responses| :: !SameKey(t.responses[i], t.responses[j]))
    && (forall s | 0 <= s < |t.sessions| :: CountsFromZero(ItemsOf(t.items, s)))
  }

  /** Every item belongs to an existing session and names an existing question. */
  predicate WellFormedItems(bank: Bank, t: Tables) {
    forall i | 0 <= i < |t.items| :: t.items[i].sessionId < |t.sessions| && t.items[i].questionId < |bank.questions|
  }

  /** Two responses answer the same question in the same session. */
  predicate SameKey(r1: Response, r2: Response) {
    r1.sessionId == r2.sessionId && r1.questionId == r2.questionId
  }

  /** The items of a session, in table order. */
  function ItemsOf(items: seq<Item>, sessionId: nat): (r: seq<Item>)
    ensures forall i | 0 <= i < |r| :: r[i] in items && r[i].sessionId == sessionId
  {
    if items == [] then []
    else ItemsOf(items[..|items| - 1], sessionId) + (if items[|items| - 1].sessionId == sessionId then [items[|items| - 1]] else [])
  }

  /** The items' `order` values are 0, 1, 2, ... in sequence. */
  predicate CountsFromZero(items: seq<Item>) {
    forall i | 0 <= i < |items| :: items[i].order == i
  }

  lemma {:induction false} ItemsOfAppend(items: seq<Item>, added: seq<Item>, sessionId: nat)
    ensures ItemsOf(items + added, sessionId) == ItemsOf(items, sessionId) + ItemsOf(added, sessionId)
  {
    if added != [] {
      var n := |added| - 1;
      ItemsOfAppend(items, added[..n], sessionId);
      assert (items + added)[..|items + added| - 1] == items + added[..n];
    } else {
      assert items + added == items;
    }
  }

  lemma {:induction false} ItemsOfNone(items: seq<Item>, sessionId: nat)
    requires forall i | 0 <= i < |items| :: items[i].sessionId != sessionId
    ensures ItemsOf(items, sessionId) == []
  {
    if items != [] {
      ItemsOfNone(items[..|items| - 1], sessionId);
    }
  }

  lemma {:induction false} ItemsOfAll(items: seq<Item>, sessionId: nat)
    requires forall i | 0 <= i < |items| :: items[i].sessionId == sessionId
    ensures ItemsOf(items, sessionId) == items
  {
    if items != [] {
      ItemsOfAll(items[..|items| - 1], sessionId);
    }
  }

  /** Appending items all of session `sid` extends that session's items and no other's. */
  lemma AppendOneSession(items: seq<Item>, added: seq<Item>, sid: nat, s: nat)
    requires forall i | 0 <= i < |added| :: added[i].sessionId == sid
    ensures ItemsOf(items + added, s) == ItemsOf(items, s) + (if s == sid then added else [])
  {
    ItemsOfAppend(items, added, s);
    if s == sid {
      ItemsOfAll(added, s);
    } else {
      ItemsOfNone(added, s);
    }
  }

  /**
   * Appending a new session together with items numbered 0, 1, 2, ... for it
   * and naming existing questions keeps the tables well formed, and those items
   * become exactly the new session's items.
   */
  lemma AppendSessionKeepsWellFormed(bank: Bank, t: Tables, session: Session, plan: seq<Item>)
    requires WellFormed(bank, t)
    requires forall i | 0 <= i < |plan| ::
      plan[i].sessionId == |t.sessions| && plan[i].order == i && plan[i].questionId < |bank.questions|
    ensures var t' := Tables(t.sessions + [session], t.items + plan, t.responses);
      && WellFormed(bank, t')
      && ItemsOf(t'.items, |t.sessions|) == plan
  {
    var sid := |t.sessions|;
    var t' := Tables(t.sessions + [session], t.items + plan, t.responses);
    forall s | 0 <= s < |t'.sessions|
      ensures ItemsOf(t'.items, s) == (if s == sid then plan else ItemsOf(t.items, s))
    {
      AppendOneSession(t.items, plan, sid, s);
      if s == sid {
        ItemsOfNone(t.items, s);
      }
    }
    assert WellFormedItems(bank, t') by {
      forall i | 0 <= i < |t'.items|
        ensures t'.items[i].sessionId < |t'.sessions| && t'.items[i].questionId < |bank.questions|
      {
        if i >= |t.items| {
          assert t'.items[i] == plan[i - |t.items|];
        }
      }
    }
  }

  /**
   * A new session's items are exactly its plan, numbered 0, 1, 2, ... in
   * table order; no other session's items change, so the tables stay well formed.
   */
  lemma CreateKeepsWellFormed(bank: Bank, t: Tables, slug: string, userId: Option<string>, seed: nat, now: int)
    requires slug in bank.blueprints && WellFormed(bank, t)
    ensures var t' := AfterCreate(bank, t, slug, userId, seed, now);
      && WellFormed(bank, t')
      && ItemsOf(t'.items, |t.sessions|) == PlanUpTo(bank, bank.blueprints[slug].countsByType, |t.sessions|, Seeded(seed), |TypeOrder|).items
  {
    var sid := |t.sessions|;
    var counts := bank.blueprints[slug].countsByType;
    var plan := PlanUpTo(bank, counts, sid, Seeded(seed), |TypeOrder|).items;
    PlanNumbered(bank, counts, sid, Seeded(seed), |TypeOrder|);
    PlanFollowsTypeOrder(bank, counts, sid, Seeded(seed), |TypeOrder|);
    AppendSessionKeepsWellFormed(bank, t, NewSession(slug, userId, seed, now), plan);
  }

  // ---------------------------------------------------------------------------
  // submitResponse
  // ---------------------------------------------------------------------------

  /** The `by_session_question` lookup: the response for this session and question, if any. */
  function FindResponse(responses: seq<Response>, sessionId: nat, questionId: nat): (k: Option<nat>)
    ensures k.Some? ==>
      (k.value < |responses| && responses[k.value].sessionId == sessionId && responses[k.value].questionId == questionId)
    ensures k.None? ==> forall i | 0 <= i < |responses| ::
      !(responses[i].sessionId == sessionId && responses[i].questionId == questionId)
  {
    if responses == [] then None
    else
      var n := |responses| - 1;
      if responses[n].sessionId == sessionId && responses[n].questionId == questionId then Some(n)
      else FindResponse(responses[..n], sessionId, questionId)
  }

  /** The tables after a `submitResponse` that found its session and question. */
  function AfterSubmit(
    bank: Bank, t: Tables, sessionId: nat, questionId: nat, answer: Answer, transcript: Option<string>, now: int): Tables
    requires sessionId < |t.sessions| && questionId < |bank.questions|
  {
    var scored := Scored(bank.questions[questionId], answer, transcript);
    match FindResponse(t.responses, sessionId, questionId)
    case Some(k) =>
      t.(responses := t.responses[k := t.responses[k].(
        answer := answer, transcript := transcript,
        rawScore := scored.rawScore, maxScore := scored.maxScore, traitScores := scored.traitScores)])
    case None =>
      var session := t.sessions[sessionId];
      Tables(
        t.sessions[sessionId := session.(currentIndex := session.currentIndex + 1)],
        t.items,
        t.responses + [Response(sessionId, questionId, answer, transcript,
                                scored.rawScore, scored.maxScore, scored.traitScores, now)])
  }

  /**
   * The first submission for a (session, question) pair inserts one response
   * and raises `currentIndex` by one; a resubmission rewrites that response in
   * place and leaves the session alone.  Either way the pair's response then
   * holds the new answer and its score, and the tables stay well formed.
   */
  lemma SubmitSpec(
    bank: Bank, t: Tables, sessionId: nat, questionId: nat, answer: Answer, transcript: Option<string>, now: int)
    requires WellFormed(bank, t) && sessionId < |t.sessions| && questionId < |bank.questions|
    ensures var t' := AfterSubmit(bank, t, sessionId, questionId, answer, transcript, now);
      var first := FindResponse(t.responses, sessionId, questionId).None?;
      && WellFormed(bank, t')
      && |t'.sessions| == |t.sessions| && t'.items == t.items
      && |t'.responses| == |t.responses| + (if first then 1 else 0)
      && t'.sessions[sessionId].currentIndex == t.sessions[sessionId].currentIndex + (if first then 1 else 0)
      && (forall s | 0 <= s < |t.sessions| && s != sessionId :: t'.sessions[s] == t.sessions[s])
      && FindResponse(t'.responses, sessionId, questionId).Some?
      && var r := t'.responses[FindResponse(t'.responses, sessionId, questionId).value];
         r.answer == answer && r.transcript == transcript
         && r.rawScore == Scored(bank.questions[questionId], answer, transcript).rawScore
         && r.maxScore == Scored(bank.questions[questionId], answer, transcript).maxScore
  {
    var t' := AfterSubmit(bank, t, sessionId, questionId, answer, transcript, now);
    var scored := Scored(bank.questions[questionId], answer, transcript);
    match FindResponse(t.responses, sessionId, questionId)
    case Some(k) =>
      forall i, j | 0 <= i < j < |t'.responses| ensures !SameKey(t'.responses[i], t'.responses[j]) {
        assert SameKey(t'.responses[i], t'.responses[j]) == SameKey(t.responses[i], t.responses[j]);
      }
      assert SameKey(t'.responses[k], t.responses[k]);
      var k' := FindResponse(t'.responses, sessionId, questionId).value;
      assert SameKey(t'.responses[k'], t'.responses[k]);
      assert k' == k;
    case None =>
      var added := Response(sessionId, questionId, answer, transcript,
                            scored.rawScore, scored.maxScore, scored.traitScores, now);
      assert t'.responses == t.responses + [added];
      forall i, j | 0 <= i < j < |t'.responses| ensures !SameKey(t'.responses[i], t'.responses[j]) {
        if j == |t.responses| {
          assert t'.responses[j] == added;
        }
      }
      assert FindResponse(t'.responses, sessionId, questionId) == Some(|t.responses|);
  }

  /**
   * Submitting twice for the same pair advances `currentIndex` at most once,
   * and the stored response is the second submission's.
   */
  lemma ResubmitAdvancesOnce(
    bank: Bank, t: Tables, sessionId: nat, questionId: nat,
    answer1: Answer, transcript1: Option<string>, now1: int,
    answer2: Answer, transcript2: Option<string>, now2: int)
    requires WellFormed(bank, t) && sessionId < |t.sessions| && questionId < |bank.questions|
    ensures var t1 := AfterSubmit(bank, t, sessionId, questionId, answer1, transcript1, now1);
      var t2 := AfterSubmit(bank, t1, sessionId, questionId, answer2, transcript2, now2);
      && t2.sessions[sessionId].currentIndex
         == t.sessions[sessionId].currentIndex + (if FindResponse(t.responses, sessionId, questionId).None? then 1 else 0)
      && |t2.responses| == |t1.responses|
      && FindResponse(t2.responses, sessionId, questionId).Some?
      && t2.responses[FindResponse(t2.responses, sessionId, questionId).value].answer == answer2
  {
    var t1 := AfterSubmit(bank, t, sessionId, questionId, answer1, transcript1, now1);
    SubmitSpec(bank, t, sessionId, questionId, answer1, transcript1, now1);
    SubmitSpec(bank, t1, sessionId, questionId, answer2, transcript2, now2);
  }

  // ---------------------------------------------------------------------------
  // finishTestSession
  // ---------------------------------------------------------------------------

  /** The `by_session` index query on responses, in table order. */
  function ResponsesOf(responses: seq<Response>, sessionId: nat): (r: seq<Response>)
    ensures forall i | 0 <= i < |r| :: r[i] in responses && r[i].sessionId == sessionId
  {
    if responses == [] then []
    else
      ResponsesOf(responses[..|responses| - 1], sessionId)
      + (if responses[|responses| - 1].sessionId == sessionId then [responses[|responses| - 1]] else [])
  }

  /** `questionMap.get(id)`: the question, unless the id names none. */
  function QuestionAt(bank: Bank, questionId: nat): Option<Question> {
    if questionId < |bank.questions| then Some(bank.questions[questionId]) else None
  }

  /** The session's responses as the fold reads them. */
  function GradedOf(bank: Bank, responses: seq<Response>, sessionId: nat): (r: seq<Graded>)
    ensures |r| == |ResponsesOf(responses, sessionId)|
  {
    var mine := ResponsesOf(responses, sessionId);
    seq(|mine|, i requires 0 <= i < |mine| => Graded(mine[i].rawScore, mine[i].maxScore, QuestionAt(bank, mine[i].questionId)))
  }

  /** The tables after `finishTestSession` on an existing session. */
  function AfterFinish(bank: Bank, t: Tables, sessionId: nat, now: int): Tables
    requires sessionId < |t.sessions|
  {
    var summary := SummaryOf(GradedOf(bank, t.responses, sessionId));
    t.(sessions := t.sessions[sessionId := t.sessions[sessionId].(
      status := Completed, completedAt := Some(now), scoreSummary := Some(summary))])
  }

  /**
   * Finishing marks the session completed with the summary of its responses
   * and touches nothing else; finishing again overwrites the summary and the
   * completion time, so the last call wins.
   */
  lemma FinishSpec(bank: Bank, t: Tables, sessionId: nat, now1: int, now2: int)
    requires WellFormed(bank, t) && sessionId < |t.sessions|
    ensures var t1 := AfterFinish(bank, t, sessionId, now1);
      && WellFormed(bank, t1)
      && t1.items == t.items && t1.responses == t.responses && |t1.sessions| == |t.sessions|
      && t1.sessions[sessionId].status == Completed
      && t1.sessions[sessionId].completedAt == Some(now1)
      && t1.sessions[sessionId].scoreSummary == Some(SummaryOf(GradedOf(bank, t.responses, sessionId)))
      && t1.sessions[sessionId].currentIndex == t.sessions[sessionId].currentIndex
      && AfterFinish(bank, t1, sessionId, now2) == AfterFinish(bank, t, sessionId, now2)
  {
  }

  // ---------------------------------------------------------------------------
  // getTestSessionDetail
  // ---------------------------------------------------------------------------

  /** `responseMap.get(questionId)`: the last of the session's responses to the question. */
  function LastResponse(responses: seq<Response>, questionId: nat): (r: Option<Response>)
    ensures r.Some? ==> r.value in responses && r.value.questionId == questionId
    ensures r.None? ==> forall i | 0 <= i < |responses| :: responses[i].questionId != questionId
  {
    if responses == [] then None
    else if responses[|responses| - 1].questionId == questionId then Some(responses[|responses| - 1])
    else LastResponse(responses[..|responses| - 1], questionId)
  }

  /** One entry of the detail's `items`; `questionId` is the item's question id (the `_id` of `question`). */
  datatype DetailItem = DetailItem(order: nat, timeLimitSec: int, questionId: nat, question: Option<Question>, response: Option<Response>)

  datatype SessionDetail = SessionDetail(session: Session, total: nat, items: seq<DetailItem>)

  /** `getTestSessionDetail`: the session, its items in order, each with its question and response. */
  function Detail(bank: Bank, t: Tables, sessionId: nat): Option<SessionDetail> {
    if sessionId >= |t.sessions| then None
    else
      var its := ItemsOf(t.items, sessionId);
      var mine := ResponsesOf(t.responses, sessionId);
      Some(SessionDetail(t.sessions[sessionId], |its|,
        seq(|its|, i requires 0 <= i < |its| =>
          DetailItem(its[i].order, its[i].timeLimitSec, its[i].questionId,
                     QuestionAt(bank, its[i].questionId), LastResponse(mine, its[i].questionId)))))
  }

  /**
   * The detail exists exactly for a known session; its items come in ascending
   * `order` 0, 1, 2, ...; an item shows a response exactly when the session
   * has one for its question, and two items drawing the same question show the
   * same response.
   */
  lemma DetailSpec(bank: Bank, t: Tables, sessionId: nat)
    requires WellFormed(bank, t)
    ensures Detail(bank, t, sessionId).None? <==> sessionId >= |t.sessions|
    ensures Detail(bank, t, sessionId).Some? ==>
      var d := Detail(bank, t, sessionId).value;
      && d.total == |d.items|
      && (forall i | 0 <= i < |d.items| :: d.items[i].order == i && d.items[i].question.Some?)
      && (forall i | 0 <= i < |d.items| ::
            d.items[i].response.Some? <==>
            exists k | 0 <= k < |t.responses| ::
              t.responses[k].sessionId == sessionId && t.responses[k].questionId == d.items[i].questionId)
      && (forall i, j | 0 <= i < |d.items| && 0 <= j < |d.items| ::
            d.items[i].questionId == d.items[j].questionId ==> d.items[i].response == d.items[j].response)
      && (forall i | 0 <= i < |d.items| && d.items[i].response.Some? ::
            d.items[i].response.value.sessionId == sessionId
            && d.items[i].response.value.questionId == d.items[i].questionId)
  {
    if sessionId < |t.sessions| {
      var its := ItemsOf(t.items, sessionId);
      var mine := ResponsesOf(t.responses, sessionId);
      var d := Detail(bank, t, sessionId).value;
      forall i | 0 <= i < |d.items|
        ensures d.items[i].response.Some? <==>
          exists k | 0 <= k < |t.responses| ::
            t.responses[k].sessionId == sessionId && t.responses[k].questionId == its[i].questionId
        ensures d.items[i].question.Some?
      {
        assert its[i] in t.items;
        if d.items[i].response.Some? {
          var r := d.items[i].response.value;
          assert r in mine && r in t.responses;
          var k :| 0 <= k < |t.responses| && t.responses[k] == r;
          assert t.responses[k].sessionId == sessionId;
        }
        if exists k | 0 <= k < |t.responses| ::
            t.responses[k].sessionId == sessionId && t.responses[k].questionId == its[i].questionId {
          var k :| 0 <= k < |t.responses| &&
            t.responses[k].sessionId == sessionId && t.responses[k].questionId == its[i].questionId;
          ResponsesOfHas(t.responses, sessionId, k);
        }
      }
    }
  }

  lemma {:induction false} ResponsesOfHas(responses: seq<Response>, sessionId: nat, k: nat)
    requires k < |responses| && responses[k].sessionId == sessionId
    ensures responses[k] in ResponsesOf(responses, sessionId)
  {
    var n := |responses| - 1;
    if k < n {
      ResponsesOfHas(responses[..n], sessionId, k);
    }
  }

  // ---------------------------------------------------------------------------
  // getBlueprintSummary
  // ---------------------------------------------------------------------------

  /**
   * `countsBySection` starts with the three sections at zero.  It is a record
   * of keyed totals like the ones `finishTestSession` keeps; a count lives in
   * the tally's `raw` and its `max` stays zero.
   */
  const InitialSectionCounts: seq<Tally> :=
    [Tally("speaking_writing", 0.0, 0.0), Tally("reading", 0.0, 0.0), Tally("listening", 0.0, 0.0)]

  /** The section a blueprint entry's count goes to: the type's section, when it is known and non-empty. */
  function EntrySection(types: seq<QuestionType>, entry: (string, int)): Option<string> {
    var section := SectionOf(types, entry.0);
    if section.Some? && section.value != "" then section else None
  }

  /** `countsBySection` after the first entries of `countsByType`. */
  function SectionCounts(types: seq<QuestionType>, entries: seq<(string, int)>): seq<Tally> {
    if entries == [] then InitialSectionCounts
    else
      var prev := SectionCounts(types, entries[..|entries| - 1]);
      var section := EntrySection(types, entries[|entries| - 1]);
      if section.None? then prev else Bump(prev, section.value, entries[|entries| - 1].1 as real, 0.0)
  }

  datatype BlueprintSummary = BlueprintSummary(blueprint: Blueprint, countsBySection: seq<Tally>)

  /** What `getBlueprintSummary` returns. */
  function SummaryFor(bank: Bank, slug: string): Option<BlueprintSummary> {
    if slug !in bank.blueprints then None
    else Some(BlueprintSummary(bank.blueprints[slug], SectionCounts(bank.types, bank.blueprints[slug].countsByType)))
  }

  /** `getBlueprintSummary`. */
  method GetBlueprintSummary(bank: Bank, slug: string) returns (r: Option<BlueprintSummary>)
    ensures r == SummaryFor(bank, slug)
  {
    if slug !in bank.blueprints {
      return None;
    }
    var blueprint := bank.blueprints[slug];
    var entries := blueprint.countsByType;
    var countsBySection := InitialSectionCounts;
    for i := 0 to |entries|
      invariant countsBySection == SectionCounts(bank.types, entries[..i])
    {
      assert entries[..i + 1][..i] == entries[..i];
      var (typeSlug, count) := entries[i];
      var section := SectionOf(bank.types, typeSlug);
      if section.Some? && section.value != "" {
        countsBySection := Bump(countsBySection, section.value, count as real, 0.0);
      }
    }
    assert entries[..|entries|] == entries;
    return Some(BlueprintSummary(blueprint, countsBySection));
  }

  /** The total of the counts whose type belongs to section `s`. */
  function CountIn(types: seq<QuestionType>, entries: seq<(string, int)>, s: string): real {
    if entries == [] then 0.0
    else
      CountIn(types, entries[..|entries| - 1], s)
      + (if EntrySection(types, entries[|entries| - 1]) == Some(s) then entries[|entries| - 1].1 as real else 0.0)
  }

  /** Some entry's count goes to section `s`. */
  predicate Feeds(types: seq<QuestionType>, entries: seq<(string, int)>, s: string) {
    exists i | 0 <= i < |entries| :: EntrySection(types, entries[i]) == Some(s)
  }

  /**
   * The three sections are always present; another key appears exactly when
   * some type of a known, non-empty section feeds it; each section holds the
   * sum of its types' counts, and counts of unknown types are dropped.
   */
  lemma {:induction false} SectionCountsSpec(types: seq<QuestionType>, entries: seq<(string, int)>, s: string)
    ensures DistinctKeys(SectionCounts(types, entries))
    ensures Has(SectionCounts(types, entries), s)
      <==> s in ["speaking_writing", "reading", "listening"] || Feeds(types, entries, s)
    ensures RawOf(SectionCounts(types, entries), s) == CountIn(types, entries, s)
  {
    if entries == [] {
      if s in ["speaking_writing", "reading", "listening"] {
        assert InitialSectionCounts[if s == "speaking_writing" then 0 else if s == "reading" then 1 else 2].key == s;
      }
    } else {
      var front, last := entries[..|entries| - 1], entries[|entries| - 1];
      SectionCountsSpec(types, front, s);
      var prev := SectionCounts(types, front);
      var section := EntrySection(types, last);
      if section.Some? {
        BumpLookup(prev, section.value, last.1 as real, 0.0, s);
        BumpKeys(prev, section.value, last.1 as real, 0.0, s);
      }
      if Feeds(types, entries, s) {
        var i :| 0 <= i < |entries| && EntrySection(types, entries[i]) == Some(s);
        if i < |front| {
          assert EntrySection(types, front[i]) == Some(s);
        }
      }
      if Feeds(types, front, s) {
        var i :| 0 <= i < |front| && EntrySection(types, front[i]) == Some(s);
        assert EntrySection(types, entries[i]) == Some(s);
      }
      if section == Some(s) {
        assert EntrySection(types, entries[|front|]) == Some(s);
      }
    }
  }

  /**
   * The body of `createTestSession`'s loop for one type: skip a zero count,
   * otherwise sample the type's pool and append one item per drawn question,
   * numbering on from the items already collected.
   */
  method DrawRound(bank: Bank, counts: seq<(string, int)>, sessionId: nat, typeSlug: string, rand: Rng, itemsToInsert: seq<Item>)
    returns (collected: seq<Item>)
    modifies rand
    ensures Plan(collected, rand.state) == TypeStep(bank, counts, sessionId, Plan(itemsToInsert, old(rand.state)), typeSlug)
  {
    collected := itemsToInsert;
    var count := CountFor(counts, typeSlug);
    if count == 0 {
      return;
    }
    var pool := PoolOf(bank.questions, typeSlug);
    var selected := Sample(pool, count, rand);
    var timeLimitSec := LimitOf(bank.types, typeSlug);
    var order := |collected|;
    for j := 0 to |selected|
      invariant collected == itemsToInsert + Numbered(sessionId, selected[..j], |itemsToInsert|, timeLimitSec)
      invariant order == |collected|
    {
      assert Numbered(sessionId, selected[..j + 1], |itemsToInsert|, timeLimitSec)
          == Numbered(sessionId, selected[..j], |itemsToInsert|, timeLimitSec) + [Item(sessionId, selected[j], order, timeLimitSec)];
      collected := collected + [Item(sessionId, selected[j], order, timeLimitSec)];
      order := order + 1;
    }
    assert selected[..|selected|] == selected;
  }

  /** `createTestSession`'s walk over the canonical type order with a generator seeded by `seed`. */
  method PlanItems(bank: Bank, counts: seq<(string, int)>, sessionId: nat, seed: nat) returns (itemsToInsert: seq<Item>)
    ensures itemsToInsert == PlanUpTo(bank, counts, sessionId, Seeded(seed), |TypeOrder|).items
  {
    var rand := new Rng(seed);
    itemsToInsert := [];
    for k := 0 to |TypeOrder|
      invariant Plan(itemsToInsert, rand.state) == PlanUpTo(bank, counts, sessionId, Seeded(seed), k)
    {
      itemsToInsert := DrawRound(bank, counts, sessionId, TypeOrder[k], rand, itemsToInsert);
    }
  }

  // ---------------------------------------------------------------------------
  // The store
  // ---------------------------------------------------------------------------

  class Store {
    const bank: Bank
    var sessions: seq<Session>
    var items: seq<Item>
    var responses: seq<Response>

    function Snapshot(): Tables
      reads this
    {
      Tables(sessions, items, responses)
    }

    ghost predicate Valid()
      reads this
    {
      WellFormed(bank, Snapshot())
    }

    constructor(bank: Bank)
      ensures this.bank == bank && Snapshot() == Tables([], [], [])
      ensures Valid()
    {
      this.bank := bank;
      sessions, items, responses := [], [], [];
    }

    /** `createTestSession`: `seed` and `now` are the two `Date.now()` readings. */
    method CreateSession(blueprintSlug: Option<string>, userId: Option<string>, seed: nat, now: int)
      returns (r: Result<nat>)
      requires Valid()
      modifies this
      ensures Valid()
      ensures blueprintSlug.GetOr(DefaultBlueprint) !in bank.blueprints ==>
        r == Failure(BlueprintMissing) && Snapshot() == old(Snapshot())
      ensures blueprintSlug.GetOr(DefaultBlueprint) in bank.blueprints ==>
        && r == Success(old(|sessions|))
        && Snapshot() == AfterCreate(bank, old(Snapshot()), blueprintSlug.GetOr(DefaultBlueprint), userId, seed, now)
    {
      var slug := blueprintSlug.GetOr(DefaultBlueprint);
      if slug !in bank.blueprints {
        return Failure(BlueprintMissing);
      }
      var blueprint := bank.blueprints[slug];
      ghost var before := Snapshot();
      var sessionId := |sessions|;
      sessions := sessions + [NewSession(slug, userId, seed, now)];
      var itemsToInsert := PlanItems(bank, blueprint.countsByType, sessionId, seed);
      items := items + itemsToInsert;
      CreateKeepsWellFormed(bank, before, slug, userId, seed, now);
      return Success(sessionId);
    }

    /** `submitResponse`: `now` is the `Date.now()` reading for `createdAt`. */
    method SubmitResponse(sessionId: nat, questionId: nat, answer: Answer, transcript: Option<string>, now: int)
      returns (r: Result<Score>)
      requires Valid()
      modifies this
      ensures Valid()
      ensures sessionId >= old(|sessions|) ==> r == Failure(SessionMissing) && Snapshot() == old(Snapshot())
      ensures sessionId < old(|sessions|) && questionId >= |bank.questions| ==>
        r == Failure(QuestionMissing) && Snapshot() == old(Snapshot())
      ensures sessionId < old(|sessions|) && questionId < |bank.questions| ==>
        && r == Success(Scored(bank.questions[questionId], answer, transcript))
        && Snapshot() == AfterSubmit(bank, old(Snapshot()), sessionId, questionId, answer, transcript, now)
    {
      if sessionId >= |sessions| {
        return Failure(SessionMissing);
      }
      var session := sessions[sessionId];
      if questionId >= |bank.questions| {
        return Failure(QuestionMissing);
      }
      var question := bank.questions[questionId];
      ghost var before := Snapshot();
      var scored := ScoreResponse(question, answer, transcript);
      var existing := FindResponse(responses, sessionId, questionId);
      if existing.Some? {
        var k := existing.value;
        responses := responses[k := responses[k].(
          answer := answer, transcript := transcript,
          rawScore := scored.rawScore, maxScore := scored.maxScore, traitScores := scored.traitScores)];
      } else {
        responses := responses + [Response(sessionId, questionId, answer, transcript,
                                           scored.rawScore, scored.maxScore, scored.traitScores, now)];
        sessions := sessions[sessionId := session.(currentIndex := session.currentIndex + 1)];
      }
      SubmitSpec(bank, before, sessionId, questionId, answer, transcript, now);
      return Success(scored);
    }

    /** `finishTestSession`: `now` is the `Date.now()` reading for `completedAt`. */
    method FinishSession(sessionId: nat, now: int) returns (r: Result<Summary>)
      requires Valid()
      modifies this
      ensures Valid()
      ensures sessionId >= old(|sessions|) ==> r == Failure(SessionMissing) && Snapshot() == old(Snapshot())
      ensures sessionId < old(|sessions|) ==>
        && r == Success(SummaryOf(GradedOf(bank, old(responses), sessionId)))
        && Snapshot() == AfterFinish(bank, old(Snapshot()), sessionId, now)
    {
      if sessionId >= |sessions| {
        return Failure(SessionMissing);
      }
      var mine := ResponsesOf(responses, sessionId);
      var graded := seq(|mine|, i requires 0 <= i < |mine| =>
        Graded(mine[i].rawScore, mine[i].maxScore, QuestionAt(bank, mine[i].questionId)));
      var scoreSummary := Aggregate.Aggregate(graded);
      ghost var before := Snapshot();
      sessions := sessions[sessionId := sessions[sessionId].(
        status := Completed, completedAt := Some(now), scoreSummary := Some(scoreSummary))];
      FinishSpec(bank, before, sessionId, now, now);
      return Success(scoreSummary);
    }
  }
}
