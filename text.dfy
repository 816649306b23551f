/**
 * Text comparison helpers of the scorer: `normalizeText`, `tokenize` and the
 * substring test `String.prototype.includes`, over ASCII text.
 *
 * `normalizeText` is the chain lower-case, replace every character outside
 * `[a-z0-9\s']` by a space, collapse each run of white space into one space,
 * trim.  Each link of the chain is one function here.
 */
module Text {

  /** JavaScript's `\s` on ASCII: space, tab, line feed, vertical tab, form feed, carriage return. */
  predicate IsSpace(c: char) {
    c == ' ' || c == '\t' || c == '\n' || c == '\U{0B}' || c == '\U{0C}' || c == '\r'
  }

  /** The characters that survive normalization besides the space: `[a-z0-9']`. */
  predicate IsWordChar(c: char) {
    ('a' <= c <= 'z') || ('0' <= c <= '9') || c == '\''
  }

  function LowerChar(c: char): char {
    if 'A' <= c <= 'Z' then (c as int + 32) as char else c
  }

  /** `toLowerCase()` on ASCII letters. */
  function Lower(s: string): string {
    seq(|s|, i requires 0 <= i < |s| => LowerChar(s[i]))
  }

  /** `replace(/[^a-z0-9\s']/g, " ")`. */
  function MaskSymbols(s: string): string {
    seq(|s|, i requires 0 <= i < |s| => if IsWordChar(s[i]) || IsSpace(s[i]) then s[i] else ' ')
  }

  /** Drops leading white space (`trimStart`). */
  function DropSpaces(s: string): (r: string)
    ensures |r| <= |s|
  {
    if s != [] && IsSpace(s[0]) then DropSpaces(s[1..]) else s
  }

  /** `DropSpaces` keeps a suffix that does not start with white space. */
  lemma {:induction false} DropSpacesShape(s: string)
    ensures var r := DropSpaces(s); r == s[|s| - |r|..] && (r != [] ==> !IsSpace(r[0]))
  {
    if s != [] && IsSpace(s[0]) {
      DropSpacesShape(s[1..]);
    }
  }

  /** Drops trailing white space (`trimEnd`). */
  function DropTrailingSpaces(s: string): string {
    if s != [] && IsSpace(s[|s| - 1]) then DropTrailingSpaces(s[..|s| - 1]) else s
  }

  /** `DropTrailingSpaces` keeps a prefix that does not end with white space. */
  lemma {:induction false} DropTrailingSpacesShape(s: string)
    ensures var r := DropTrailingSpaces(s); |r| <= |s| && r == s[..|r|] && (r != [] ==> !IsSpace(r[|r| - 1]))
  {
    if s != [] && IsSpace(s[|s| - 1]) {
      DropTrailingSpacesShape(s[..|s| - 1]);
    }
  }

  /** `replace(/\s+/g, " ")`: every maximal run of white space becomes one space. */
  function CollapseSpaces(s: string): string
    decreases |s|
  {
    if s == [] then []
    else if IsSpace(s[0]) then [' '] + CollapseSpaces(DropSpaces(s[1..]))
    else [s[0]] + CollapseSpaces(s[1..])
  }

  /** `trim()`. */
  function Trim(s: string): string {
    DropSpaces(DropTrailingSpaces(s))
  }

  /** `normalizeText` (convex/scoring.ts). */
  function Normalize(s: string): string {
    Trim(CollapseSpaces(MaskSymbols(Lower(s))))
  }

  /** What a normalized text looks like: words of `[a-z0-9']` separated by single spaces. */
  predicate IsNormal(t: string) {
    && (forall i | 0 <= i < |t| :: IsWordChar(t[i]) || t[i] == ' ')
    && (|t| > 0 ==> t[0] != ' ' && t[|t| - 1] != ' ')
    && (forall i | 0 <= i < |t| - 1 :: !(t[i] == ' ' && t[i + 1] == ' '))
  }

  lemma {:induction false} CollapseShape(s: string)
    requires forall i | 0 <= i < |s| :: IsWordChar(s[i]) || IsSpace(s[i])
    ensures var r := CollapseSpaces(s);
      && (forall i | 0 <= i < |r| :: IsWordChar(r[i]) || r[i] == ' ')
      && (forall i | 0 <= i < |r| - 1 :: !(r[i] == ' ' && r[i + 1] == ' '))
      && (s != [] ==> r != [] && r[0] == (if IsSpace(s[0]) then ' ' else s[0]))
  {
    if s == [] {
    } else if IsSpace(s[0]) {
      DropSpacesShape(s[1..]);
      CollapseShape(DropSpaces(s[1..]));
    } else {
      CollapseShape(s[1..]);
    }
  }

  /** The output of `normalizeText` has only `[a-z0-9']` and single inner spaces. */
  lemma NormalizeIsNormal(s: string)
    ensures IsNormal(Normalize(s))
  {
    var m := MaskSymbols(Lower(s));
    CollapseShape(m);
    var c := CollapseSpaces(m);
    DropTrailingSpacesShape(c);
    DropSpacesShape(DropTrailingSpaces(c));
  }

  lemma {:induction false} CollapseOfNormal(t: string)
    requires forall i | 0 <= i < |t| :: IsWordChar(t[i]) || t[i] == ' '
    requires forall i | 0 <= i < |t| - 1 :: !(t[i] == ' ' && t[i + 1] == ' ')
    ensures CollapseSpaces(t) == t
  {
    if t == [] {
    } else if t[0] == ' ' {
      assert DropSpaces(t[1..]) == t[1..];
      CollapseOfNormal(t[1..]);
    } else {
      CollapseOfNormal(t[1..]);
    }
  }

  /** Lower-casing and masking leave a text of word characters and spaces as it is. */
  lemma LowerMaskOfNormal(t: string)
    requires forall i | 0 <= i < |t| :: IsWordChar(t[i]) || t[i] == ' '
    ensures Lower(t) == t && MaskSymbols(t) == t
  {
    forall i | 0 <= i < |t|
      ensures Lower(t)[i] == t[i] && MaskSymbols(t)[i] == t[i]
    {
      assert IsWordChar(t[i]) || t[i] == ' ';
    }
  }

  /** Trimming leaves a text without white space at either end as it is. */
  lemma TrimOfTrimmed(t: string)
    requires t != [] ==> !IsSpace(t[0]) && !IsSpace(t[|t| - 1])
    ensures Trim(t) == t
  {
    assert DropTrailingSpaces(t) == t;
  }

  /** A normalized text is a fixed point of `normalizeText`. */
  lemma NormalIsFixpoint(t: string)
    requires IsNormal(t)
    ensures Normalize(t) == t
  {
    LowerMaskOfNormal(t);
    CollapseOfNormal(t);
    TrimOfTrimmed(t);
  }

  /** `normalizeText` is idempotent. */
  lemma NormalizeIdempotent(s: string)
    ensures Normalize(Normalize(s)) == Normalize(s)
  {
    NormalizeIsNormal(s);
    NormalIsFixpoint(Normalize(s));
  }

  /** `split(" ")`: the pieces between single spaces; `""` gives `[""]`. */
  function Split(s: string): (parts: seq<string>)
    ensures |parts| >= 1
  {
    if s == [] then [""]
    else if s[0] == ' ' then [""] + Split(s[1..])
    else var rest := Split(s[1..]); [[s[0]] + rest[0]] + rest[1..]
  }

  /** `join(" ")`, the inverse of `Split`. */
  function JoinWithSpace(parts: seq<string>): string {
    if |parts| == 0 then ""
    else if |parts| == 1 then parts[0]
    else parts[0] + " " + JoinWithSpace(parts[1..])
  }

  /** Splitting on spaces loses nothing: joining the pieces again gives the text back. */
  lemma {:induction false} JoinSplit(s: string)
    ensures JoinWithSpace(Split(s)) == s
  {
    if s == [] {
    } else if s[0] == ' ' {
      JoinSplit(s[1..]);
    } else {
      var rest := Split(s[1..]);
      JoinSplit(s[1..]);
      if |rest| > 1 {
        assert JoinWithSpace(rest) == rest[0] + " " + JoinWithSpace(rest[1..]);
      }
    }
  }

  /** Every piece of `Split(s)` is space-free and made of characters of `s`. */
  lemma {:induction false} SplitPiecesFromText(s: string)
    ensures forall i, j | 0 <= i < |Split(s)| && 0 <= j < |Split(s)[i]| ::
      Split(s)[i][j] != ' ' && Split(s)[i][j] in s
  {
    if s != [] {
      SplitPiecesFromText(s[1..]);
    }
  }

  /** Without double or trailing spaces, no piece after the first is empty. */
  lemma {:induction false} SplitPiecesNonEmpty(s: string)
    requires forall i | 0 <= i < |s| - 1 :: !(s[i] == ' ' && s[i + 1] == ' ')
    requires s != [] ==> s[|s| - 1] != ' '
    ensures forall i | 1 <= i < |Split(s)| :: Split(s)[i] != ""
    ensures s != [] && s[0] != ' ' ==> Split(s)[0] != ""
  {
    if s != [] {
      SplitPiecesNonEmpty(s[1..]);
    }
  }

  /** `tokenize`: the words of the normalized text, none for an empty text. */
  function Tokenize(s: string): seq<string> {
    var n := Normalize(s);
    if |n| > 0 then Split(n) else []
  }

  /**
   * `tokenize` returns `[]` exactly when the normalized text is empty; otherwise
   * non-empty tokens of `[a-z0-9']` whose space-join is the normalized text.
   */
  lemma TokenizeSpec(s: string)
    ensures Tokenize(s) == [] <==> Normalize(s) == ""
    ensures JoinWithSpace(Tokenize(s)) == Normalize(s)
    ensures forall i | 0 <= i < |Tokenize(s)| :: Tokenize(s)[i] != ""
    ensures forall i, j | 0 <= i < |Tokenize(s)| && 0 <= j < |Tokenize(s)[i]| ::
      IsWordChar(Tokenize(s)[i][j])
  {
    var n := Normalize(s);
    NormalizeIsNormal(s);
    if |n| > 0 {
      JoinSplit(n);
      SplitPiecesFromText(n);
      SplitPiecesNonEmpty(n);
    }
  }

  /** The pattern `p` occurs in `t` starting at position `i`. */
  predicate OccursAt(t: string, p: string, i: int) {
    0 <= i && i + |p| <= |t| && t[i..i + |p|] == p
  }

  /** `t.includes(p)`. */
  function Includes(t: string, p: string): bool
    decreases |t|
  {
    p <= t || (|t| > 0 && Includes(t[1..], p))
  }

  /** `Includes` is the substring relation: some position of `t` starts a copy of `p`. */
  lemma {:induction false} IncludesIsSubstring(t: string, p: string)
    ensures Includes(t, p) <==> exists i :: OccursAt(t, p, i)
  {
    if p <= t {
      assert OccursAt(t, p, 0);
    } else if |t| == 0 {
      assert forall i :: !OccursAt(t, p, i);
    } else {
      IncludesIsSubstring(t[1..], p);
      if Includes(t[1..], p) {
        var i :| OccursAt(t[1..], p, i);
        assert t[1..][i..i + |p|] == t[i + 1..i + 1 + |p|];
        assert OccursAt(t, p, i + 1);
      }
      if exists i :: OccursAt(t, p, i) {
        var i :| OccursAt(t, p, i);
        assert i != 0;
        assert t[1..][i - 1..i - 1 + |p|] == t[i..i + |p|];
        assert OccursAt(t[1..], p, i - 1);
      }
    }
  }

  function DigitChar(d: nat): char
    requires d < 10
  {
    ('0' as int + d) as char
  }

  /** `String(n)` for a non-negative integer. */
  function NatString(n: nat): string {
    if n < 10 then [DigitChar(n)] else NatString(n / 10) + [DigitChar(n % 10)]
  }

  /** `String(n)` for an integer. */
  function IntString(n: int): string {
    if n < 0 then "-" + NatString(-n) else NatString(n)
  }
}
