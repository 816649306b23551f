/**
 * The answer-editing helpers of components/tests/question-view.tsx: the
 * `__N__` placeholder parser for fill-in-the-blank prompts, the blank,
 * multi-choice, highlight and reorder edits of the current answer, and the
 * word count shown under long answers.
 *
 * Each handler computes the value it passes to `onChange`; a handler that
 * returns without calling `onChange` yields `None`.
 */
module QuestionView {
  import opened Wrappers
  import opened Text
  import opened Questions

  // ---------------------------------------------------------------------------
  // parseBlanks
  // ---------------------------------------------------------------------------

  /** A piece of a prompt: literal text, or the blank with a numeric id. */
  datatype Part = TextPart(value: string) | BlankPart(id: string)

  predicate IsDigit(c: char) {
    '0' <= c <= '9'
  }

  predicate AllDigits(id: string) {
    forall c | 0 <= c < |id| :: IsDigit(id[c])
  }

  /** The length of the run of digits starting at position `j`. */
  function DigitRun(s: string, j: nat): (n: nat)
    requires j <= |s|
    ensures j + n <= |s|
    decreases |s| - j
  {
    if j < |s| && IsDigit(s[j]) then 1 + DigitRun(s, j + 1) else 0
  }

  /** The run is maximal: every character in it is a digit, and the one after it is not. */
  lemma {:induction false} DigitRunSpec(s: string, j: nat)
    requires j <= |s|
    ensures forall k | j <= k < j + DigitRun(s, j) :: IsDigit(s[k])
    ensures j + DigitRun(s, j) < |s| ==> !IsDigit(s[j + DigitRun(s, j)])
    decreases |s| - j
  {
    if j < |s| && IsDigit(s[j]) {
      DigitRunSpec(s, j + 1);
    }
  }

  /**
   * The length of the match of `/__\d+__/` starting at position `i`, or 0 when
   * none starts there.  Digits are never `_`, so the greedy `\d+` takes the
   * whole run of digits and no shorter run can match.
   */
  function PlaceholderAt(s: string, i: nat): (n: nat)
    requires i <= |s|
    ensures n != 0 ==> n >= 5 && i + n <= |s|
  {
    if i + 2 <= |s| && s[i] == '_' && s[i + 1] == '_' then
      var d := DigitRun(s, i + 2);
      if d > 0 && i + d + 4 <= |s| && s[i + d + 2] == '_' && s[i + d + 3] == '_' then d + 4 else 0
    else 0
  }

  /** A placeholder starting at `i` is `"__"`, a non-empty run of digits, `"__"`. */
  lemma PlaceholderShape(s: string, i: nat)
    requires i <= |s| && PlaceholderAt(s, i) != 0
    ensures var n := PlaceholderAt(s, i);
      && s[i..i + n] == "__" + s[i + 2..i + n - 2] + "__"
      && AllDigits(s[i + 2..i + n - 2])
  {
    var n := PlaceholderAt(s, i);
    DigitRunSpec(s, i + 2);
    SliceFour(s, i, i + 2, i + n - 2, i + n);
    var id := s[i + 2..i + n - 2];
    forall c | 0 <= c < |id|
      ensures IsDigit(id[c])
    {
      assert id[c] == s[i + 2 + c];
    }
  }

  lemma SliceFour(s: string, a: nat, b: nat, c: nat, d: nat)
    requires a <= b <= c <= d <= |s|
    ensures s[a..d] == s[a..b] + s[b..c] + s[c..d]
  {
  }

  /**
   * The parts produced from position `i` on, when the text not yet emitted
   * starts at `last`: the scan moves to the leftmost placeholder, emits the
   * pending text before it (if any) and the blank, and resumes after it.
   */
  function Scan(s: string, last: nat, i: nat): seq<Part>
    requires last <= i <= |s|
    decreases |s| - i
  {
    if i == |s| then
      if last < |s| then [TextPart(s[last..])] else []
    else
      var n := PlaceholderAt(s, i);
      if n == 0 then Scan(s, last, i + 1)
      else
        (if i > last then [TextPart(s[last..i])] else [])
        + [BlankPart(s[i + 2..i + n - 2])]
        + Scan(s, i + n, i + n)
  }

  /** What `parseBlanks(text)` returns. */
  function Parse(s: string): seq<Part> {
    Scan(s, 0, 0)
  }

  /** `parseBlanks`: walks the matches left to right, pushing parts and advancing `lastIndex`. */
  method ParseBlanks(text: string) returns (parts: seq<Part>)
    ensures parts == Parse(text)
  {
    parts := [];
    var lastIndex: nat := 0;
    var i: nat := 0;
    while i < |text|
      invariant lastIndex <= i <= |text|
      invariant parts + Scan(text, lastIndex, i) == Parse(text)
      decreases |text| - i
    {
      var n := PlaceholderAt(text, i);
      if n == 0 {
        assert Scan(text, lastIndex, i) == Scan(text, lastIndex, i + 1);
        i := i + 1;
      } else {
        var matched := Pending(text, lastIndex, i) + [BlankPart(text[i + 2..i + n - 2])];
        ScanEmits(text, parts, lastIndex, i, n);
        parts := parts + matched;
        lastIndex := i + n;
        i := i + n;
      }
    }
    assert Scan(text, lastIndex, i) == if lastIndex < |text| then [TextPart(text[lastIndex..])] else [];
    if lastIndex < |text| {
      parts := parts + [TextPart(text[lastIndex..])];
    } else {
      assert parts + [] == parts;
    }
  }

  /** One placeholder step of `parseBlanks`: the parts pushed plus the rest of the scan are the scan so far. */
  lemma ScanEmits(s: string, parts: seq<Part>, last: nat, i: nat, n: nat)
    requires last <= i < |s| && n == PlaceholderAt(s, i) && n != 0
    ensures parts + Scan(s, last, i) == (parts + (Pending(s, last, i) + [BlankPart(s[i + 2..i + n - 2])])) + Scan(s, i + n, i + n)
  {
    ScanAtPlaceholder(s, last, i);
    PartsAssoc(parts, Pending(s, last, i) + [BlankPart(s[i + 2..i + n - 2])], Scan(s, i + n, i + n));
  }

  lemma PartsAssoc(a: seq<Part>, b: seq<Part>, c: seq<Part>)
    ensures (a + b) + c == a + (b + c)
  {
  }

  /** The text a part stands for in the prompt. */
  function PartText(p: Part): string {
    match p
    case TextPart(v) => v
    case BlankPart(id) => "__" + id + "__"
  }

  /** The prompt a list of parts renders back to. */
  function Render(parts: seq<Part>): string {
    if parts == [] then "" else Render(parts[..|parts| - 1]) + PartText(parts[|parts| - 1])
  }

  lemma ConcatAssoc(a: string, b: string, c: string)
    ensures (a + b) + c == a + (b + c)
  {
  }

  /** Rendering one more part appends its text. */
  lemma RenderSnoc(x: seq<Part>, y: Part)
    ensures Render(x + [y]) == Render(x) + PartText(y)
  {
    assert (x + [y])[..|x|] == x;
  }

  lemma SplitLast(p: seq<Part>, q: seq<Part>)
    requires q != []
    ensures q == q[..|q| - 1] + [q[|q| - 1]]
    ensures p + q == (p + q[..|q| - 1]) + [q[|q| - 1]]
  {
  }

  /** Rendering distributes over concatenation of part lists. */
  lemma {:induction false} RenderAppend(p: seq<Part>, q: seq<Part>)
    ensures Render(p + q) == Render(p) + Render(q)
  {
    if q == [] {
      assert p + q == p;
    } else {
      var front, last := q[..|q| - 1], q[|q| - 1];
      SplitLast(p, q);
      RenderAppend(p, front);
      RenderSnoc(p + front, last);
      RenderSnoc(front, last);
      ConcatAssoc(Render(p), Render(front), PartText(last));
    }
  }

  lemma RenderOne(p: Part)
    ensures Render([p]) == PartText(p)
  {
    assert [p][..0] == [];
  }

  /** The text before the placeholder at `i` that is not yet emitted, as a part list. */
  function Pending(s: string, last: nat, i: nat): seq<Part>
    requires last <= i <= |s|
  {
    if i > last then [TextPart(s[last..i])] else []
  }

  /** The scan at a placeholder emits the pending text and the blank, then resumes after it. */
  lemma ScanAtPlaceholder(s: string, last: nat, i: nat)
    requires last <= i < |s| && PlaceholderAt(s, i) != 0
    ensures var n := PlaceholderAt(s, i);
      Scan(s, last, i) == Pending(s, last, i) + [BlankPart(s[i + 2..i + n - 2])] + Scan(s, i + n, i + n)
  {
  }

  lemma SliceThree(s: string, a: nat, b: nat, c: nat)
    requires a <= b <= c <= |s|
    ensures s[a..] == s[a..b] + s[b..c] + s[c..]
  {
  }

  /** Rendering three part lists one after another. */
  lemma RenderThree(p: seq<Part>, b: seq<Part>, r: seq<Part>)
    ensures Render(p + b + r) == Render(p) + Render(b) + Render(r)
  {
    RenderAppend(p + b, r);
    RenderAppend(p, b);
  }

  /** Three part lists that render three consecutive slices render the whole stretch together. */
  lemma RenderPieces(s: string, last: nat, i: nat, j: nat, pending: seq<Part>, blank: seq<Part>, rest: seq<Part>)
    requires last <= i <= j <= |s|
    requires Render(pending) == s[last..i] && Render(blank) == s[i..j] && Render(rest) == s[j..]
    ensures Render(pending + blank + rest) == s[last..]
  {
    RenderThree(pending, blank, rest);
    SliceThree(s, last, i, j);
  }

  /** The pending text renders as the slice it was cut from. */
  lemma PendingRenders(s: string, last: nat, i: nat)
    requires last <= i <= |s|
    ensures Render(Pending(s, last, i)) == s[last..i]
  {
    if i > last {
      RenderOne(TextPart(s[last..i]));
    } else {
      assert Pending(s, last, i) == [];
    }
  }

  /** A blank part renders as its placeholder. */
  lemma BlankRenders(placeholder: string, id: string)
    requires placeholder == "__" + id + "__"
    ensures Render([BlankPart(id)]) == placeholder
  {
    RenderOne(BlankPart(id));
  }

  /** The parts emitted at a placeholder `s[i..j]` render back, given that the blank and the parts after it do. */
  lemma PlaceholderRenders(s: string, last: nat, i: nat, j: nat, blank: seq<Part>, rest: seq<Part>)
    requires last <= i <= j <= |s|
    requires Render(blank) == s[i..j]
    requires Render(rest) == s[j..]
    ensures Render(Pending(s, last, i) + blank + rest) == s[last..]
  {
    PendingRenders(s, last, i);
    RenderPieces(s, last, i, j, Pending(s, last, i), blank, rest);
  }

  /** The scan from the end of the prompt emits the unscanned tail as one text part, if any. */
  lemma ScanRendersEnd(s: string, last: nat)
    requires last <= |s|
    ensures Render(Scan(s, last, |s|)) == s[last..]
  {
    if last < |s| {
      assert Scan(s, last, |s|) == [TextPart(s[last..])];
      RenderOne(TextPart(s[last..]));
    } else {
      assert Scan(s, last, |s|) == [];
    }
  }

  lemma {:induction false} ScanRenders(s: string, last: nat, i: nat)
    requires last <= i <= |s|
    ensures Render(Scan(s, last, i)) == s[last..]
    decreases |s| - i
  {
    if i == |s| {
      ScanRendersEnd(s, last);
    } else if PlaceholderAt(s, i) == 0 {
      assert Scan(s, last, i) == Scan(s, last, i + 1);
      ScanRenders(s, last, i + 1);
    } else {
      var n := PlaceholderAt(s, i);
      ScanRenders(s, i + n, i + n);
      PlaceholderShape(s, i);
      BlankRenders(s[i..i + n], s[i + 2..i + n - 2]);
      PlaceholderRenders(s, last, i, i + n, [BlankPart(s[i + 2..i + n - 2])], Scan(s, i + n, i + n));
      ScanAtPlaceholder(s, last, i);
    }
  }

  /** `parseBlanks` is lossless: rendering its parts gives the prompt back exactly. */
  lemma ParseRenders(s: string)
    ensures Render(Parse(s)) == s
  {
    ScanRenders(s, 0, 0);
  }

  /** A text part is not empty; a blank's id is a non-empty run of digits. */
  predicate PartOk(p: Part) {
    match p
    case TextPart(v) => v != ""
    case BlankPart(id) => id != "" && AllDigits(id)
  }

  /** A list of parts has no empty text, never two texts in a row, and only digit-string ids. */
  predicate WellShaped(parts: seq<Part>) {
    && (forall k | 0 <= k < |parts| :: PartOk(parts[k]))
    && (forall k | 0 <= k < |parts| - 1 && parts[k].TextPart? :: parts[k + 1].BlankPart?)
  }

  lemma WellShapedAppend(p: seq<Part>, q: seq<Part>)
    requires WellShaped(p) && WellShaped(q)
    requires p != [] && q != [] && p[|p| - 1].TextPart? ==> q[0].BlankPart?
    ensures WellShaped(p + q)
  {
    var r := p + q;
    forall k | 0 <= k < |r| - 1 && r[k].TextPart?
      ensures r[k + 1].BlankPart?
    {
      if k >= |p| {
        assert r[k] == q[k - |p|] && r[k + 1] == q[k + 1 - |p|];
      } else if k + 1 < |p| {
        assert r[k] == p[k] && r[k + 1] == p[k + 1];
      }
    }
  }

  /** The parts emitted at a placeholder `s[i..i + n]` keep the shape, given that the parts after it do. */
  lemma PlaceholderWellShaped(s: string, last: nat, i: nat, n: nat, rest: seq<Part>)
    requires last <= i && 5 <= n && i + n <= |s|
    requires AllDigits(s[i + 2..i + n - 2])
    requires WellShaped(rest)
    ensures WellShaped(Pending(s, last, i) + [BlankPart(s[i + 2..i + n - 2])] + rest)
  {
    var blank := [BlankPart(s[i + 2..i + n - 2])];
    assert PartOk(blank[0]);
    WellShapedAppend(Pending(s, last, i), blank);
    WellShapedAppend(Pending(s, last, i) + blank, rest);
  }

  lemma ScanEndWellShaped(s: string, last: nat)
    requires last <= |s|
    ensures WellShaped(Scan(s, last, |s|))
  {
    if last < |s| {
      assert Scan(s, last, |s|) == [TextPart(s[last..])];
    } else {
      assert Scan(s, last, |s|) == [];
    }
  }

  lemma ScanStepWellShaped(s: string, last: nat, i: nat, n: nat)
    requires last <= i < |s| && n == PlaceholderAt(s, i) && n != 0
    requires WellShaped(Scan(s, i + n, i + n))
    ensures WellShaped(Scan(s, last, i))
  {
    ScanAtPlaceholder(s, last, i);
    PlaceholderShape(s, i);
    PlaceholderWellShaped(s, last, i, n, Scan(s, i + n, i + n));
  }

  lemma {:induction false} ScanWellShaped(s: string, last: nat, i: nat)
    requires last <= i <= |s|
    ensures WellShaped(Scan(s, last, i))
    decreases |s| - i
  {
    if i == |s| {
      ScanEndWellShaped(s, last);
    } else if PlaceholderAt(s, i) == 0 {
      assert Scan(s, last, i) == Scan(s, last, i + 1);
      ScanWellShaped(s, last, i + 1);
    } else {
      var n := PlaceholderAt(s, i);
      ScanWellShaped(s, i + n, i + n);
      ScanStepWellShaped(s, last, i, n);
    }
  }

  /** `parseBlanks` never yields an empty text part nor two text parts in a row, and every id is digits. */
  lemma ParseWellShaped(s: string)
    ensures WellShaped(Parse(s))
  {
    ScanWellShaped(s, 0, 0);
  }

  lemma {:induction false} ScanWithoutPlaceholder(s: string, last: nat, i: nat)
    requires last <= i <= |s|
    requires forall j | i <= j <= |s| :: PlaceholderAt(s, j) == 0
    ensures Scan(s, last, i) == if last < |s| then [TextPart(s[last..])] else []
    decreases |s| - i
  {
    if i < |s| {
      ScanWithoutPlaceholder(s, last, i + 1);
    }
  }

  /** A prompt without placeholders is one text part, or no part at all when it is empty. */
  lemma ParseWithoutPlaceholder(s: string)
    requires forall j | 0 <= j <= |s| :: PlaceholderAt(s, j) == 0
    ensures Parse(s) == if s == "" then [] else [TextPart(s)]
  {
    ScanWithoutPlaceholder(s, 0, 0);
  }

  /** A concrete prompt: in `___1__` the match starts one place in, so a text part `_` comes first. */
  lemma ParseExample()
    ensures Parse("___1__") == [TextPart("_"), BlankPart("1")]
  {
    var s := "___1__";
    assert PlaceholderAt(s, 0) == 0 by {
      assert DigitRun(s, 2) == 0;
    }
    assert PlaceholderAt(s, 1) == 5 by {
      assert DigitRun(s, 4) == 0;
      assert DigitRun(s, 3) == 1;
    }
    assert Scan(s, 0, 0) == Scan(s, 0, 1);
    ScanAtPlaceholder(s, 0, 1);
    assert s[0..1] == "_" && s[3..4] == "1";
  }

  // ---------------------------------------------------------------------------
  // handleBlankChange
  // ---------------------------------------------------------------------------

  /** `blankIndex.get(id)`: the position of the blank with this id; the last one wins for a repeated id. */
  function BlankIndex(blanks: seq<Blank>, id: string): (r: Option<nat>)
    ensures r.Some? ==>
      (r.value < |blanks| && blanks[r.value].id == id && forall j | r.value < j < |blanks| :: blanks[j].id != id)
    ensures r.None? ==> forall j | 0 <= j < |blanks| :: blanks[j].id != id
  {
    if blanks == [] then None
    else if blanks[|blanks| - 1].id == id then Some(|blanks| - 1)
    else BlankIndex(blanks[..|blanks| - 1], id)
  }

  /** `next[index] = v` on a copy; positions skipped past the end read as `""`. */
  function SetAt(xs: seq<string>, index: nat, v: string): seq<string> {
    if index < |xs| then xs[index := v] else xs + Holes(index - |xs|) + [v]
  }

  /** The `n` unset positions an assignment past the end leaves, each read as `""`. */
  function Holes(n: nat): (r: seq<string>)
    ensures |r| == n
  {
    if n == 0 then [] else Holes(n - 1) + [""]
  }

  lemma {:induction false} HolesEmpty(n: nat)
    ensures forall j | 0 <= j < n :: Holes(n)[j] == ""
  {
    if n > 0 {
      HolesEmpty(n - 1);
    }
  }

  /** `handleBlankChange(id, newValue)`. */
  function BlankChange(blanks: seq<Blank>, value: Answer, id: string, newValue: string): Option<Answer> {
    match BlankIndex(blanks, id)
    case None => None
    case Some(index) => Some(AStrList(SetAt(value.Strings(), index, newValue)))
  }

  /**
   * An unknown id changes nothing; otherwise the blank's position holds the new
   * text, every other position keeps its old entry, and the array grows only as
   * far as that position.
   */
  lemma BlankChangeSpec(blanks: seq<Blank>, value: Answer, id: string, newValue: string)
    ensures BlankChange(blanks, value, id, newValue).None? <==> forall j | 0 <= j < |blanks| :: blanks[j].id != id
    ensures BlankChange(blanks, value, id, newValue).Some? ==>
      var index := BlankIndex(blanks, id).value;
      var old_ := value.Strings();
      var next := BlankChange(blanks, value, id, newValue).value;
      && next.AStrList?
      && blanks[index].id == id
      && |next.strs| == (if index < |old_| then |old_| else index + 1)
      && next.strs[index] == newValue
      && (forall j | 0 <= j < |next.strs| && j != index :: next.strs[j] == (if j < |old_| then old_[j] else ""))
  {
    match BlankIndex(blanks, id)
    case None =>
    case Some(index) =>
      var old_ := value.Strings();
      if index >= |old_| {
        HolesEmpty(index - |old_|);
      }
  }

  // ---------------------------------------------------------------------------
  // handleMultiToggle / handleHighlightToggle
  // ---------------------------------------------------------------------------

  /** `new Set(xs)` read back in insertion order: the first occurrence of each entry. */
  function Dedup<T(==)>(xs: seq<T>): seq<T> {
    if xs == [] then []
    else
      var front := Dedup(xs[..|xs| - 1]);
      if xs[|xs| - 1] in front then front else front + [xs[|xs| - 1]]
  }

  /** `xs` without any copy of `x`, order kept. */
  function Without<T(==)>(xs: seq<T>, x: T): (r: seq<T>)
    ensures |r| <= |xs|
  {
    if xs == [] then []
    else Without(xs[..|xs| - 1], x) + (if xs[|xs| - 1] == x then [] else [xs[|xs| - 1]])
  }

  /** `Without` drops `x` and keeps every other entry. */
  lemma {:induction false} WithoutMembers<T>(xs: seq<T>, x: T)
    ensures forall y :: y in Without(xs, x) <==> y in xs && y != x
  {
    if xs != [] {
      WithoutMembers(xs[..|xs| - 1], x);
      assert xs == xs[..|xs| - 1] + [xs[|xs| - 1]];
    }
  }

  predicate Unique<T(==)>(xs: seq<T>) {
    forall i, j | 0 <= i < j < |xs| :: xs[i] != xs[j]
  }

  /** The set after `has(x) ? delete(x) : add(x)`, as `Array.from` lists it. */
  function Toggle<T(==)>(xs: seq<T>, x: T): seq<T> {
    var set_ := Dedup(xs);
    if x in set_ then Without(set_, x) else set_ + [x]
  }

  lemma {:induction false} DedupSpec<T>(xs: seq<T>)
    ensures Unique(Dedup(xs))
    ensures forall y :: y in Dedup(xs) <==> y in xs
  {
    if xs != [] {
      DedupSpec(xs[..|xs| - 1]);
      assert xs == xs[..|xs| - 1] + [xs[|xs| - 1]];
    }
  }

  lemma UniqueSnoc<T>(xs: seq<T>, y: T)
    requires Unique(xs) && y !in xs
    ensures Unique(xs + [y])
  {
    var r := xs + [y];
    forall i, j | 0 <= i < j < |r|
      ensures r[i] != r[j]
    {
      if j < |xs| {
        assert r[i] == xs[i] && r[j] == xs[j];
      } else {
        assert r[i] == xs[i] && r[j] == y;
      }
    }
  }

  lemma {:induction false} WithoutUnique<T>(xs: seq<T>, x: T)
    requires Unique(xs)
    ensures Unique(Without(xs, x))
  {
    if xs != [] {
      var front, last := xs[..|xs| - 1], xs[|xs| - 1];
      assert Unique(front) by {
        forall i, j | 0 <= i < j < |front|
          ensures front[i] != front[j]
        {
          assert front[i] == xs[i] && front[j] == xs[j];
        }
      }
      WithoutUnique(front, x);
      if last != x {
        WithoutMembers(front, x);
        assert last !in front by {
          forall i | 0 <= i < |front|
            ensures front[i] != last
          {
            assert front[i] == xs[i];
          }
        }
        UniqueSnoc(Without(front, x), last);
      } else {
        assert Without(xs, x) == Without(front, x) + [];
      }
    }
  }

  lemma {:induction false} WithoutAppend<T>(xs: seq<T>, ys: seq<T>, x: T)
    ensures Without(xs + ys, x) == Without(xs, x) + Without(ys, x)
  {
    if ys != [] {
      WithoutAppend(xs, ys[..|ys| - 1], x);
      assert (xs + ys)[..|xs + ys| - 1] == xs + ys[..|ys| - 1];
    } else {
      assert xs + ys == xs;
    }
  }

  lemma {:induction false} WithoutTwice<T>(xs: seq<T>, x: T)
    ensures Without(Without(xs, x), x) == Without(xs, x)
  {
    if xs != [] {
      WithoutTwice(xs[..|xs| - 1], x);
      var front := Without(xs[..|xs| - 1], x);
      var last: seq<T> := if xs[|xs| - 1] == x then [] else [xs[|xs| - 1]];
      WithoutAppend(front, last, x);
    }
  }

  /**
   * The toggled list has no repeats; the toggled entry's membership flips;
   * every other entry keeps its membership, and the other entries stay in the
   * order of their first occurrences.
   */
  lemma ToggleSpec<T>(xs: seq<T>, x: T)
    ensures Unique(Toggle(xs, x))
    ensures x in Toggle(xs, x) <==> x !in xs
    ensures forall y | y != x :: y in Toggle(xs, x) <==> y in xs
    ensures Without(Toggle(xs, x), x) == Without(Dedup(xs), x)
  {
    DedupSpec(xs);
    if x in Dedup(xs) {
      ToggleRemoves(xs, x);
    } else {
      ToggleAdds(xs, x);
    }
  }

  lemma ToggleRemoves<T>(xs: seq<T>, x: T)
    requires Unique(Dedup(xs)) && x in Dedup(xs)
    requires forall y :: y in Dedup(xs) <==> y in xs
    ensures Unique(Toggle(xs, x))
    ensures x !in Toggle(xs, x)
    ensures forall y | y != x :: y in Toggle(xs, x) <==> y in xs
    ensures Without(Toggle(xs, x), x) == Without(Dedup(xs), x)
  {
    var set_ := Dedup(xs);
    assert Toggle(xs, x) == Without(set_, x);
    WithoutUnique(set_, x);
    WithoutMembers(set_, x);
    WithoutTwice(set_, x);
  }

  lemma ToggleAdds<T>(xs: seq<T>, x: T)
    requires Unique(Dedup(xs)) && x !in Dedup(xs)
    requires forall y :: y in Dedup(xs) <==> y in xs
    ensures Unique(Toggle(xs, x))
    ensures x in Toggle(xs, x)
    ensures forall y | y != x :: y in Toggle(xs, x) <==> y in xs
    ensures Without(Toggle(xs, x), x) == Without(Dedup(xs), x)
  {
    var set_ := Dedup(xs);
    assert Toggle(xs, x) == set_ + [x];
    UniqueSnoc(set_, x);
    WithoutAppend(set_, [x], x);
    assert Without([x], x) == [] by {
      assert [x][..0] == [];
    }
    assert Without(set_, x) + [] == Without(set_, x);
  }

  /** Toggling the same entry twice restores the set of entries. */
  lemma ToggleTwice<T>(xs: seq<T>, x: T)
    ensures forall y :: y in Toggle(Toggle(xs, x), x) <==> y in xs
  {
    ToggleSpec(xs, x);
    ToggleSpec(Toggle(xs, x), x);
  }

  /** ... but not necessarily the sequence: a re-added entry goes to the end. */
  lemma ToggleTwiceReorders()
    ensures Toggle(Toggle(["a", "b"], "a"), "a") == ["b", "a"]
  {
    assert Dedup(["a", "b"]) == ["a", "b"] by {
      assert ["a", "b"][..1] == ["a"];
      assert Dedup(["a"]) == ["a"] by { assert ["a"][..0] == []; }
    }
    assert Without(["a", "b"], "a") == ["b"] by {
      assert ["a", "b"][..1] == ["a"];
      assert Without(["a"], "a") == [] by { assert ["a"][..0] == []; }
    }
    assert Dedup(["b"]) == ["b"] by { assert ["b"][..0] == []; }
  }

  /** `handleMultiToggle(optionId)`: a non-array value starts from the empty set. */
  function MultiToggle(value: Answer, optionId: string): seq<Elem> {
    Toggle(value.Elems(), TextElem(optionId))
  }

  /** `handleHighlightToggle(index)`. */
  function HighlightToggle(value: Answer, index: int): seq<Elem> {
    Toggle(value.Elems(), IndexElem(index))
  }

  // ---------------------------------------------------------------------------
  // handleReorderMove
  // ---------------------------------------------------------------------------

  /** The list after `splice(from, 1)` and `splice(to, 0, moved)`. */
  function Moved<T>(xs: seq<T>, from: nat, to: nat): (r: seq<T>)
    requires from < |xs| && to < |xs|
    ensures |r| == |xs|
  {
    var rest := xs[..from] + xs[from + 1..];
    rest[..to] + [xs[from]] + rest[to..]
  }

  /** The move is a permutation that puts the moved entry at `to`. */
  lemma MovedSpec<T>(xs: seq<T>, from: nat, to: nat)
    requires from < |xs| && to < |xs|
    ensures multiset(Moved(xs, from, to)) == multiset(xs)
    ensures Moved(xs, from, to)[to] == xs[from]
    ensures from == to ==> Moved(xs, from, to) == xs
  {
    var rest := xs[..from] + xs[from + 1..];
    assert rest[..to] + rest[to..] == rest;
    assert xs == xs[..from] + [xs[from]] + xs[from + 1..];
    calc {
      multiset(Moved(xs, from, to));
      multiset(rest[..to]) + multiset([xs[from]]) + multiset(rest[to..]);
      multiset(rest) + multiset([xs[from]]);
      multiset(xs[..from]) + multiset(xs[from + 1..]) + multiset([xs[from]]);
      multiset(xs);
    }
    if from == to {
      assert rest[..to] == xs[..from];
      assert rest[to..] == xs[from + 1..];
    }
  }

  /** The entries between `from` and `to` each shift by one place towards `from`. */
  lemma MovedShifts<T>(xs: seq<T>, from: nat, to: nat)
    requires from < |xs| && to < |xs|
    ensures forall k | 0 <= k < |xs| && k < from && k < to :: Moved(xs, from, to)[k] == xs[k]
    ensures forall k | 0 <= k < |xs| && k > from && k > to :: Moved(xs, from, to)[k] == xs[k]
    ensures forall k | from <= k < to :: Moved(xs, from, to)[k] == xs[k + 1]
    ensures forall k | to < k <= from :: Moved(xs, from, to)[k] == xs[k - 1]
  {
  }

  /** The list the reorder handler edits: the answer array, or the option ids in authoring order. */
  function ReorderBase(value: Answer, options: seq<QuestionOption>): seq<Elem> {
    if value.AStrList? || value.AIntList? then value.Elems()
    else seq(|options|, i requires 0 <= i < |options| => TextElem(options[i].id))
  }

  /** `handleReorderMove(from, to)`: nothing when `from === to`, otherwise the moved copy. */
  function ReorderMove(value: Answer, options: seq<QuestionOption>, from: nat, to: nat): Option<seq<Elem>>
    requires from < |ReorderBase(value, options)| && to < |ReorderBase(value, options)|
  {
    if from == to then None else Some(Moved(ReorderBase(value, options), from, to))
  }

  /** The splice pair done in place on a copied array: shift the entries between the two places, then drop the moved one in. */
  method MoveInPlace<T>(order: array<T>, from: nat, to: nat)
    requires from < order.Length && to < order.Length
    modifies order
    ensures order[..] == Moved(old(order[..]), from, to)
  {
    ghost var before := order[..];
    var moved := order[from];
    if from < to {
      var k := from;
      while k < to
        invariant from <= k <= to
        invariant forall j | 0 <= j < from :: order[j] == before[j]
        invariant forall j | from <= j < k :: order[j] == before[j + 1]
        invariant forall j | k <= j < order.Length :: order[j] == before[j]
      {
        order[k] := order[k + 1];
        k := k + 1;
      }
    } else {
      var k := from;
      while k > to
        invariant to <= k <= from
        invariant forall j | 0 <= j <= k :: order[j] == before[j]
        invariant forall j | k < j <= from :: order[j] == before[j - 1]
        invariant forall j | from < j < order.Length :: order[j] == before[j]
      {
        order[k] := order[k - 1];
        k := k - 1;
      }
    }
    order[to] := moved;
    MovedShifts(before, from, to);
    assert forall j | 0 <= j < order.Length :: order[j] == Moved(before, from, to)[j];
  }

  /** `handleReorderMove` as the handler runs it: copy, splice in place, hand the copy over. */
  method HandleReorderMove(value: Answer, options: seq<QuestionOption>, from: nat, to: nat) returns (r: Option<seq<Elem>>)
    requires from < |ReorderBase(value, options)| && to < |ReorderBase(value, options)|
    ensures r == ReorderMove(value, options, from, to)
  {
    if from == to {
      return None;
    }
    var base := ReorderBase(value, options);
    var order := new Elem[|base|](i requires 0 <= i < |base| => base[i]);
    assert order[..] == base;
    MoveInPlace(order, from, to);
    return Some(order[..]);
  }

  /** The up button's target: one place earlier, clamped at the top. */
  function UpTarget(index: nat): nat {
    if index >= 1 then index - 1 else 0
  }

  /** The down button's target: one place later, clamped at the bottom. */
  function DownTarget(index: nat, length: nat): nat {
    if index + 1 <= length - 1 then index + 1 else if length >= 1 then length - 1 else 0
  }

  /**
   * An up or down click swaps the entry with its neighbour, or does nothing at
   * the top or bottom of the list.
   */
  lemma ArrowMoves(value: Answer, options: seq<QuestionOption>, index: nat)
    requires index < |ReorderBase(value, options)|
    ensures var xs := ReorderBase(value, options);
      && UpTarget(index) < |xs| && DownTarget(index, |xs|) < |xs|
      && (index == 0 <==> ReorderMove(value, options, index, UpTarget(index)).None?)
      && (index > 0 ==> ReorderMove(value, options, index, UpTarget(index)).value
                        == xs[index - 1 := xs[index]][index := xs[index - 1]])
      && (index == |xs| - 1 <==> ReorderMove(value, options, index, DownTarget(index, |xs|)).None?)
      && (index < |xs| - 1 ==> ReorderMove(value, options, index, DownTarget(index, |xs|)).value
                               == xs[index + 1 := xs[index]][index := xs[index + 1]])
  {
    var xs := ReorderBase(value, options);
    if index > 0 {
      MovedShifts(xs, index, index - 1);
      assert Moved(xs, index, index - 1) == xs[index - 1 := xs[index]][index := xs[index - 1]];
    }
    if index < |xs| - 1 {
      MovedShifts(xs, index, index + 1);
      assert Moved(xs, index, index + 1) == xs[index + 1 := xs[index]][index := xs[index + 1]];
    }
  }

  // ---------------------------------------------------------------------------
  // wordCount
  // ---------------------------------------------------------------------------

  /** `split(/\s+/)`: the pieces between maximal runs of white space. */
  function Chunks(t: string): (parts: seq<string>)
    ensures |parts| >= 1
    decreases |t|
  {
    if t == [] then [""]
    else if IsSpace(t[0]) then [""] + Chunks(DropSpaces(t[1..]))
    else var rest := Chunks(t[1..]); [[t[0]] + rest[0]] + rest[1..]
  }

  /** The count shown under long answers. */
  function WordCount(value: Answer): nat {
    if value.AStr? && Trim(value.str) != "" then |Chunks(Trim(value.str))| else 0
  }

  /** Dropping leading white space from a text that ends in a non-space keeps that last character. */
  lemma {:induction false} DropSpacesKeepsLast(s: string)
    requires s != [] && !IsSpace(s[|s| - 1])
    ensures DropSpaces(s) != [] && DropSpaces(s)[|DropSpaces(s)| - 1] == s[|s| - 1]
  {
    if IsSpace(s[0]) {
      DropSpacesKeepsLast(s[1..]);
    }
  }

  lemma {:induction false} ChunksNonEmpty(t: string)
    requires t != [] ==> !IsSpace(t[|t| - 1])
    ensures forall i | 1 <= i < |Chunks(t)| :: Chunks(t)[i] != ""
    ensures t != [] && !IsSpace(t[0]) ==> Chunks(t)[0] != ""
    ensures forall i, j | 0 <= i < |Chunks(t)| && 0 <= j < |Chunks(t)[i]| :: !IsSpace(Chunks(t)[i][j])
    decreases |t|
  {
    if t == [] {
    } else if IsSpace(t[0]) {
      var r := DropSpaces(t[1..]);
      DropSpacesShape(t[1..]);
      DropSpacesKeepsLast(t[1..]);
      ChunksNonEmpty(r);
      assert Chunks(t) == [""] + Chunks(r);
    } else {
      ChunksNonEmpty(t[1..]);
    }
  }

  /** A text without white space is one chunk. */
  lemma {:induction false} ChunksWithoutSpace(t: string)
    requires forall i | 0 <= i < |t| :: !IsSpace(t[i])
    ensures Chunks(t) == [t]
  {
    if t != [] {
      ChunksWithoutSpace(t[1..]);
      assert [t[0]] + t[1..] == t;
    }
  }

  /** The chunks cover the text: joined with single spaces they give the text with its white-space runs collapsed. */
  lemma {:induction false} ChunksJoin(t: string)
    ensures JoinWithSpace(Chunks(t)) == CollapseSpaces(t)
    decreases |t|
  {
    if t == [] {
    } else if IsSpace(t[0]) {
      var r := DropSpaces(t[1..]);
      DropSpacesShape(t[1..]);
      ChunksJoin(r);
      assert Chunks(t) == [""] + Chunks(r);
      assert JoinWithSpace(Chunks(t)) == "" + " " + JoinWithSpace(Chunks(r));
    } else {
      var rest := Chunks(t[1..]);
      ChunksJoin(t[1..]);
      if |rest| > 1 {
        assert JoinWithSpace(rest) == rest[0] + " " + JoinWithSpace(rest[1..]);
        assert JoinWithSpace(Chunks(t)) == ([t[0]] + rest[0]) + " " + JoinWithSpace(rest[1..]);
      }
    }
  }

  /**
   * The count is 0 for a non-string or blank value; otherwise it counts the
   * chunks of the trimmed text, none of them empty and none holding white
   * space, which joined with single spaces give the trimmed text with its
   * white-space runs collapsed: the count is the number of maximal non-space runs.
   */
  lemma WordCountSpec(value: Answer)
    ensures WordCount(value) == 0 <==> !value.AStr? || Trim(value.str) == ""
    ensures value.AStr? && Trim(value.str) != "" ==>
      forall i, j | 0 <= i < |Chunks(Trim(value.str))| && 0 <= j < |Chunks(Trim(value.str))[i]| ::
        !IsSpace(Chunks(Trim(value.str))[i][j])
    ensures value.AStr? && Trim(value.str) != "" ==>
      forall i | 0 <= i < |Chunks(Trim(value.str))| :: Chunks(Trim(value.str))[i] != ""
    ensures value.AStr? ==> JoinWithSpace(Chunks(Trim(value.str))) == CollapseSpaces(Trim(value.str))
  {
    if value.AStr? {
      ChunksJoin(Trim(value.str));
    }
    if value.AStr? && Trim(value.str) != "" {
      var s := value.str;
      var t := Trim(s);
      DropTrailingSpacesShape(s);
      var d := DropTrailingSpaces(s);
      DropSpacesShape(d);
      assert t == d[|d| - |t|..];
      assert t[|t| - 1] == d[|d| - 1];
      ChunksNonEmpty(t);
    }
  }

  /** The count can differ from the scorer's word count: a hyphen splits tokens but not chunks. */
  lemma WordCountDiffersFromTokens()
    ensures WordCount(AStr("a-b")) == 1
    ensures |Tokenize("a-b")| == 2
  {
    var s := "a-b";
    assert DropTrailingSpaces(s) == s;
    assert DropSpaces(s) == s;
    ChunksWithoutSpace(s);
    assert Lower(s) == s;
    assert MaskSymbols(s) == "a b";
    assert CollapseSpaces("b") == "b";
    assert CollapseSpaces(" b") == " b" by {
      assert DropSpaces("b") == "b";
    }
    assert CollapseSpaces("a b") == "a b";
    assert DropTrailingSpaces("a b") == "a b";
    assert DropSpaces("a b") == "a b";
    assert Normalize(s) == "a b";
    assert "a b"[1..] == " b" && " b"[1..] == "b" && "b"[1..] == "";
    assert Split("b") == ["b"] by {
      assert ['b'] + "" == "b";
    }
    assert Split(" b") == ["", "b"];
    assert Split("a b") == [['a'] + ""] + ["b"];
    assert ['a'] + "" == "a";
  }
}
