/**
 * Hand-written matchers for the regular expressions of the renamer. Each `...At(s, i)`
 * says whether the pattern matches starting at index `i`; each `Find...` returns the
 * leftmost such index, as `Regex.Match` does. Quantifiers are tried greedy-first, and
 * the choices of an earlier quantifier are tried before those of a later one, which is
 * the order of the .NET backtracking engine. `\d` is an ASCII digit, `\b` a boundary
 * between an ASCII word character and anything else, and `IgnoreCase` folds ASCII letters.
 */
module Patterns {
  import opened Common
  import opened Text

  /** `c` is the letter `lower` in either case. */
  predicate IsLetter(c: char, lower: char) {
    c == lower || c == ToUpperAscii(lower)
  }

  predicate IsWordAt(s: string, i: int) {
    0 <= i < |s| && IsWordChar(s[i])
  }

  /** `\b` at position `i`. */
  predicate Boundary(s: string, i: int) {
    IsWordAt(s, i - 1) != IsWordAt(s, i)
  }

  /** `\d{n}` at `i`. */
  predicate DigitsAt(s: string, i: int, n: nat) {
    0 <= i && i + n <= |s| && AllDigits(s[i..i + n])
  }

  // ---------------------------------------------------------------------------
  // `\b(\d{4})\b`: a standalone four-digit number.

  predicate StandaloneYearAt(s: string, i: int) {
    DigitsAt(s, i, 4) && Boundary(s, i) && Boundary(s, i + 4)
  }

  /** The leftmost standalone four-digit number at or after `from`. */
  function FindStandaloneYear(s: string, from: nat): (r: Option<nat>)
    ensures r.Some? ==> from <= r.value && StandaloneYearAt(s, r.value)
    ensures r.Some? ==> forall j :: from <= j < r.value ==> !StandaloneYearAt(s, j)
    ensures r.None? ==> forall j :: from <= j ==> !StandaloneYearAt(s, j)
    decreases |s| - from
  {
    if from + 4 > |s| then None
    else if StandaloneYearAt(s, from) then Some(from)
    else FindStandaloneYear(s, from + 1)
  }

  // ---------------------------------------------------------------------------
  // The three season/episode patterns.

  /** A season/episode match: where it starts, how long it is, and its two groups. */
  datatype EpisodeMatch = EpisodeMatch(index: nat, length: nat, season: string, episode: string)

  datatype EpisodePattern =
    | Compact   // \bs(\d{1,2})e(\d{1,2})\b
    | Spaced    // \bs(\d{1,2})\s?\.?\s?e(\d{1,2})\b
    | CrossX    // (\d{1,2})x(\d{1,2})

  /** The patterns in the order they are tried. */
  const EpisodePatterns: seq<EpisodePattern> := [Compact, Spaced, CrossX]

  /** How many combinations of quantifier choices a pattern has. */
  function Choices(p: EpisodePattern): nat {
    if p.Spaced? then 32 else 4
  }

  /** `(\d{a})` and `(\d{b})` with the letter `sep` between them, starting at `j`. */
  function Groups(s: string, i: nat, j: nat, a: nat, sep: char, b: nat): Option<EpisodeMatch>
    requires i <= j
  {
    var e := j + a;
    if DigitsAt(s, j, a) && e < |s| && IsLetter(s[e], sep) && DigitsAt(s, e + 1, b)
    then Some(EpisodeMatch(i, e + 1 + b - i, s[j..e], s[e + 1..e + 1 + b]))
    else None
  }

  /** `\bs(\d{a})e(\d{b})\b` at `i`. */
  function CompactTry(s: string, i: nat, a: nat, b: nat): Option<EpisodeMatch> {
    if Boundary(s, i) && i < |s| && IsLetter(s[i], 's') then
      match Groups(s, i, i + 1, a, 'e', b)
      case Some(m) => if Boundary(s, i + m.length) then Some(m) else None
      case None => None
    else None
  }

  /** `\bs(\d{a})` then `w1` white spaces, `dot` dots, `w2` white spaces, then `e(\d{b})\b`, at `i`. */
  function SpacedTry(s: string, i: nat, a: nat, w1: nat, dot: nat, w2: nat, b: nat): Option<EpisodeMatch>
  {
    var j1 := i + 1;
    var j2 := j1 + a;
    var j3 := j2 + w1;
    var j4 := j3 + dot;
    var j5 := j4 + w2;
    if !(Boundary(s, i) && i < |s| && IsLetter(s[i], 's') && DigitsAt(s, j1, a)) then None
    else if w1 == 1 && !(j2 < |s| && IsWhiteSpace(s[j2])) then None
    else if dot == 1 && !(j3 < |s| && s[j3] == '.') then None
    else if w2 == 1 && !(j4 < |s| && IsWhiteSpace(s[j4])) then None
    else if !(j5 < |s| && IsLetter(s[j5], 'e') && DigitsAt(s, j5 + 1, b) && Boundary(s, j5 + 1 + b)) then None
    else Some(EpisodeMatch(i, j5 + 1 + b - i, s[j1..j2], s[j5 + 1..j5 + 1 + b]))
  }

  /** `(\d{a})x(\d{b})` at `i`. */
  function CrossTry(s: string, i: nat, a: nat, b: nat): Option<EpisodeMatch> {
    Groups(s, i, i, a, 'x', b)
  }

  /** The `k`-th combination of quantifier choices, greedy-first, earliest quantifier outermost. */
  function Try(p: EpisodePattern, s: string, i: nat, k: nat): Option<EpisodeMatch> {
    match p
    case Compact => CompactTry(s, i, 2 - k / 2 % 2, 2 - k % 2)
    case CrossX => CrossTry(s, i, 2 - k / 2 % 2, 2 - k % 2)
    case Spaced => SpacedTry(s, i, 2 - k / 16 % 2, 1 - k / 8 % 2, 1 - k / 4 % 2, 1 - k / 2 % 2, 2 - k % 2)
  }

  predicate WellFormed(s: string, i: nat, m: EpisodeMatch) {
    && m.index == i && 3 <= m.length && i + m.length <= |s|
    && 1 <= |m.season| <= 2 && AllDigits(m.season)
    && 1 <= |m.episode| <= 2 && AllDigits(m.episode)
  }

  /** The first combination, from the `k`-th on, under which `p` matches at `i`. */
  function TryFrom(p: EpisodePattern, s: string, i: nat, k: nat): (r: Option<EpisodeMatch>)
    ensures r.Some? ==> WellFormed(s, i, r.value)
    decreases Choices(p) - k
  {
    if k >= Choices(p) then None
    else
      var m := Try(p, s, i, k);
      if m.Some? then m else TryFrom(p, s, i, k + 1)
  }

  /** The match of `p` that starts at `i`, if any. */
  function EpisodeAt(p: EpisodePattern, s: string, i: nat): (r: Option<EpisodeMatch>)
    ensures r.Some? ==> WellFormed(s, i, r.value)
  {
    TryFrom(p, s, i, 0)
  }

  /** `Regex.Match(s, p)` from `from` on: the leftmost match. */
  function FindEpisode(p: EpisodePattern, s: string, from: nat): (r: Option<EpisodeMatch>)
    ensures r.Some? ==> from <= r.value.index && EpisodeAt(p, s, r.value.index) == r
    ensures r.Some? ==> forall j :: from <= j < r.value.index ==> EpisodeAt(p, s, j).None?
    ensures r.None? ==> forall j: nat :: from <= j ==> EpisodeAt(p, s, j).None?
    decreases |s| - from
  {
    if from >= |s| then
      NoMatchPastEnd(p, s, from);
      None
    else
      var m := EpisodeAt(p, s, from);
      if m.Some? then m else FindEpisode(p, s, from + 1)
  }

  /** Every pattern needs at least three characters, so nothing matches at the end. */
  lemma NoMatchPastEnd(p: EpisodePattern, s: string, from: nat)
    requires from >= |s|
    ensures forall j: nat :: from <= j ==> EpisodeAt(p, s, j).None?
  {
  }

  /**
   * `episodePatterns.Select(p => Regex.Match(s, p, IgnoreCase)).FirstOrDefault(m => m.Success)`
   * over `pats`: the leftmost match of the first pattern that matches anywhere.
   */
  function FirstPatternMatch(pats: seq<EpisodePattern>, s: string): (r: Option<EpisodeMatch>)
    ensures r.Some? ==> WellFormed(s, r.value.index, r.value)
  {
    if pats == [] then None
    else
      var m := FindEpisode(pats[0], s, 0);
      if m.Some? then m else FirstPatternMatch(pats[1..], s)
  }

  /** The patterns are tried in order and the first one that matches anywhere decides. */
  lemma {:induction false} FirstPatternMatchIsFirst(pats: seq<EpisodePattern>, s: string)
    ensures var r := FirstPatternMatch(pats, s);
      && (r.Some? ==> exists k :: (0 <= k < |pats| && r == FindEpisode(pats[k], s, 0)
            && forall j :: 0 <= j < k ==> FindEpisode(pats[j], s, 0).None?))
      && (r.None? ==> forall k :: 0 <= k < |pats| ==> FindEpisode(pats[k], s, 0).None?)
  {
    if pats != [] && FindEpisode(pats[0], s, 0).None? {
      FirstPatternMatchIsFirst(pats[1..], s);
      var rest := FirstPatternMatch(pats[1..], s);
      if rest.Some? {
        var k :| 0 <= k < |pats| - 1 && rest == FindEpisode(pats[1..][k], s, 0)
          && forall j :: 0 <= j < k ==> FindEpisode(pats[1..][j], s, 0).None?;
        assert rest == FindEpisode(pats[k + 1], s, 0);
        forall j | 0 <= j < k + 1
          ensures FindEpisode(pats[j], s, 0).None?
        {
          if j > 0 { assert pats[j] == pats[1..][j - 1]; }
        }
      } else {
        forall k | 0 <= k < |pats|
          ensures FindEpisode(pats[k], s, 0).None?
        {
          if k > 0 { assert pats[k] == pats[1..][k - 1]; }
        }
      }
    }
  }

  // ---------------------------------------------------------------------------
  // `\((\d{4})\)`: a four-digit number in parentheses.

  predicate ParenYearAt(s: string, i: int) {
    0 <= i && i + 6 <= |s| && s[i] == '(' && DigitsAt(s, i + 1, 4) && s[i + 5] == ')'
  }

  function FindParenYear(s: string, from: nat): (r: Option<nat>)
    ensures r.Some? ==> from <= r.value && ParenYearAt(s, r.value)
    ensures r.Some? ==> forall j :: from <= j < r.value ==> !ParenYearAt(s, j)
    ensures r.None? ==> forall j :: from <= j ==> !ParenYearAt(s, j)
    decreases |s| - from
  {
    if from + 6 > |s| then None
    else if ParenYearAt(s, from) then Some(from)
    else FindParenYear(s, from + 1)
  }

  // ---------------------------------------------------------------------------
  // Patterns used only through `Regex.IsMatch`.

  /** `^(19|20)\d{2}$`; `$` also matches just before a final line feed. */
  predicate IsYearPart(p: string) {
    && (|p| == 4 || (|p| == 5 && p[4] == '\n'))
    && ((p[0] == '1' && p[1] == '9') || (p[0] == '2' && p[1] == '0'))
    && IsDigit(p[2]) && IsDigit(p[3])
  }

  /** `\d{3,4}p` with `IgnoreCase` at `i`: four digits then `p`, or else three digits then `p`. */
  predicate ResolutionAt(s: string, i: int) {
    (DigitsAt(s, i, 4) && i + 4 < |s| && IsLetter(s[i + 4], 'p'))
    || (DigitsAt(s, i, 3) && i + 3 < |s| && IsLetter(s[i + 3], 'p'))
  }

  predicate HasResolution(s: string) {
    exists i :: 0 <= i < |s| && ResolutionAt(s, i)
  }

  /** Three digits right before a `p` or `P`. */
  predicate ThreeDigitsThenP(s: string, i: int) {
    DigitsAt(s, i, 3) && i + 3 < |s| && IsLetter(s[i + 3], 'p')
  }

  /** `\d{3,4}p` matches exactly when some three digits are followed by `p`: the fourth digit never matters. */
  lemma ResolutionIsThreeDigitsThenP(s: string)
    ensures HasResolution(s) <==> exists i :: 0 <= i < |s| && ThreeDigitsThenP(s, i)
  {
    if HasResolution(s) {
      var i :| 0 <= i < |s| && ResolutionAt(s, i);
      if DigitsAt(s, i, 4) && i + 4 < |s| && IsLetter(s[i + 4], 'p') {
        assert s[i + 1..i + 4] == s[i..i + 4][1..];
        assert ThreeDigitsThenP(s, i + 1);
      } else {
        assert ThreeDigitsThenP(s, i);
      }
    }
    if exists i :: 0 <= i < |s| && ThreeDigitsThenP(s, i) {
      var i :| 0 <= i < |s| && ThreeDigitsThenP(s, i);
      assert ResolutionAt(s, i);
    }
  }

  /** `s\d{2}e\d{2}` with `IgnoreCase` at `i`. */
  predicate CanonicalTagAt(s: string, i: int) {
    0 <= i && i + 6 <= |s| && IsLetter(s[i], 's') && DigitsAt(s, i + 1, 2)
    && IsLetter(s[i + 3], 'e') && DigitsAt(s, i + 4, 2)
  }

  predicate HasCanonicalTag(s: string) {
    exists i :: 0 <= i < |s| && CanonicalTagAt(s, i)
  }
}
