/**
 * The random side of session assembly in convex/tests.ts: the canonical order
 * of question types, the `mulberry32` generator and `sampleWithReplacement`.
 *
 * `mulberry32` keeps its state in a captured number that only ever enters
 * 32-bit operations (`Math.imul`, `^`, `|`, `>>>`), so the state is exactly a
 * `bv32` and each call is exact 32-bit arithmetic.  The generator returns
 * `r / 2^32`; the model keeps the integer `r` and computes the drawn index
 * `Math.floor(rand() * m)` as `r * m div 2^32`.
 */
module Sampler {

  /** `QUESTION_TYPE_ORDER`: the order in which a session's items are drawn, type by type. */
  const TypeOrder: seq<string> := [
    "read_aloud",
    "repeat_sentence",
    "describe_image",
    "respond_situation",
    "answer_short_question",
    "summarize_written_text",
    "write_email",
    "rw_fill_in_blanks",
    "reading_mcq_multiple",
    "reorder_paragraphs",
    "reading_fill_in_blanks",
    "reading_mcq_single",
    "summarize_spoken_text",
    "listening_mcq_multiple",
    "listening_fill_in_blanks",
    "listening_mcq_single",
    "select_missing_word",
    "highlight_incorrect_words",
    "write_from_dictation"
  ]

  /** No type is listed twice, so each type has one rank. */
  lemma TypeOrderDistinct()
    ensures |TypeOrder| == 19
    ensures forall i, j | 0 <= i < j < |TypeOrder| :: TypeOrder[i] != TypeOrder[j]
  {
  }

  const Increment: bv32 := 0x6d2b79f5

  /** The state update of one call: `seed += 0x6d2b79f5`, modulo 2^32. */
  function Step(state: bv32): bv32 {
    state + Increment
  }

  /**
   * The scrambling of a call whose updated state is `t`, through its first
   * `stage` steps: `t = Math.imul(t ^ (t >>> 15), t | 1)`, then
   * `t ^= t + Math.imul(t ^ (t >>> 7), t | 61)`, then `t ^ (t >>> 14)`.
   */
  function Scramble(t: bv32, stage: nat): bv32
    requires stage <= 3
  {
    if stage == 0 then t
    else
      var u := Scramble(t, stage - 1);
      if stage == 1 then (u ^ (u >> 15)) * (u | 1)
      else if stage == 2 then u ^ (u + (u ^ (u >> 7)) * (u | 61))
      else u ^ (u >> 14)
  }

  /** The output of a call whose updated state is `t`: the integer `r` of `r / 2^32`. */
  function Mix(t: bv32): bv32 {
    Scramble(t, 3)
  }

  /** The state after `n` calls. */
  function Advance(state: bv32, n: nat): bv32 {
    if n == 0 then state else Step(Advance(state, n - 1))
  }

  /** `Math.floor(rand() * m)` when `rand()` returned `r / 2^32`. */
  function Index(r: bv32, m: nat): (i: nat)
    requires m > 0
    ensures i < m
  {
    var x: nat := r as int;
    MulBelow(x, 0x1_0000_0000, m);
    (x * m) / 0x1_0000_0000
  }

  lemma MulBelow(x: nat, bound: nat, m: nat)
    requires x < bound && m > 0
    ensures x * m < bound * m
  {
  }

  /** The drawn index grows with the generator output, and output 0 draws the first question. */
  lemma IndexMonotone(r1: bv32, r2: bv32, m: nat)
    requires m > 0 && r1 as int <= r2 as int
    ensures Index(r1, m) <= Index(r2, m)
    ensures Index(0, m) == 0
  {
    var x1: nat, x2: nat := r1 as int, r2 as int;
    MulMonotone(x1, x2, m);
  }

  lemma MulMonotone(x1: nat, x2: nat, m: nat)
    requires x1 <= x2
    ensures x1 * m <= x2 * m
  {
  }

  /** `mulberry32(seed)`: the generator object with its 32-bit state. */
  class Rng {
    var state: bv32

    /** The seed is a millisecond clock reading; only its residue modulo 2^32 matters. */
    constructor(seed: nat)
      ensures state == (seed % 0x1_0000_0000) as bv32
    {
      state := (seed % 0x1_0000_0000) as bv32;
    }

    /** One call of the generator: advance the state, then scramble it. */
    method Next() returns (r: bv32)
      modifies this
      ensures state == Step(old(state))
      ensures r == Mix(state)
    {
      state := state + Increment;
      r := Mix(state);
    }
  }

  /** The generator outputs of the first `n` calls from `state`. */
  function Outputs(state: bv32, n: nat): (rs: seq<bv32>)
    ensures |rs| == n
  {
    if n == 0 then [] else Outputs(state, n - 1) + [Mix(Advance(state, n))]
  }

  /** The entries of a non-empty pool that the outputs `rs` pick, one per output. */
  function Picks<T>(pool: seq<T>, rs: seq<bv32>): (picks: seq<T>)
    requires |pool| > 0
    ensures |picks| == |rs|
    ensures forall i | 0 <= i < |rs| :: picks[i] in pool
  {
    seq(|rs|, i requires 0 <= i < |rs| => pool[Index(rs[i], |pool|)])
  }

  /** The first `n` draws with replacement from a non-empty pool, starting from `state`. */
  function Draws<T>(pool: seq<T>, n: nat, state: bv32): seq<T>
    requires |pool| > 0
  {
    Picks(pool, Outputs(state, n))
  }

  /** `Draws` returns `n` members of the pool, and drawing more only extends the earlier draws. */
  lemma {:induction false} DrawsPrefix<T>(pool: seq<T>, n: nat, k: nat, state: bv32)
    requires |pool| > 0 && k <= n
    ensures |Draws(pool, n, state)| == n
    ensures forall i | 0 <= i < n :: Draws(pool, n, state)[i] in pool
    ensures Draws(pool, k, state) == Draws(pool, n, state)[..k]
  {
    if k < n {
      DrawsPrefix(pool, n - 1, k, state);
      assert Outputs(state, n)[..n - 1] == Outputs(state, n - 1);
    }
  }

  /** A pool of one question yields `n` copies of it. */
  lemma DrawsSingleton<T>(x: T, n: nat, state: bv32)
    ensures Draws([x], n, state) == seq(n, _ => x)
  {
  }

  /** The number of draws `sampleWithReplacement` makes: `count` when positive, otherwise none. */
  function DrawCount(count: int): nat {
    if count > 0 then count else 0
  }

  /** `sampleWithReplacement(items, count, rand)`. */
  method Sample<T>(items: seq<T>, count: int, rand: Rng) returns (selected: seq<T>)
    modifies rand
    ensures |items| == 0 ==> selected == [] && rand.state == old(rand.state)
    ensures |items| > 0 ==>
      && selected == Draws(items, DrawCount(count), old(rand.state))
      && rand.state == Advance(old(rand.state), DrawCount(count))
  {
    if |items| == 0 {
      return [];
    }
    selected := [];
    var i := 0;
    ghost var start := rand.state;
    while i < count
      invariant 0 <= i <= DrawCount(count)
      invariant selected == Draws(items, i, old(rand.state))
      invariant rand.state == Advance(old(rand.state), i)
    {
      var r := rand.Next();
      assert Outputs(start, i + 1) == Outputs(start, i) + [r];
      var index := Index(r, |items|);
      selected := selected + [items[index]];
      i := i + 1;
    }
  }
}
