/**
 * The .NET string operations the renamer relies on, over `seq<char>`:
 * `char.IsWhiteSpace`, `String.Trim`, ordinal `String.Replace`, `String.Split(char)`,
 * ordinal `String.Contains`, `String.PadLeft`, `int.TryParse` on digit strings and
 * ASCII case mapping.
 */
module Text {
  import opened Common

  // ---------------------------------------------------------------------------
  // Characters

  /** `char.IsWhiteSpace`, which is also the set the regex class `\s` denotes. */
  predicate IsWhiteSpace(c: char) {
    ('\t' <= c <= '\r') || c == ' ' || c == '\U{85}' || c == '\U{A0}' || c == '\U{1680}'
    || ('\U{2000}' <= c <= '\U{200A}') || c == '\U{2028}' || c == '\U{2029}'
    || c == '\U{202F}' || c == '\U{205F}' || c == '\U{3000}'
  }

  predicate IsDigit(c: char) {
    '0' <= c <= '9'
  }

  /** A character of the regex class `\w`, restricted to ASCII. */
  predicate IsWordChar(c: char) {
    ('a' <= c <= 'z') || ('A' <= c <= 'Z') || IsDigit(c) || c == '_'
  }

  function ToUpperAscii(c: char): char {
    if 'a' <= c <= 'z' then (c as int - 32) as char else c
  }

  function ToLowerAscii(c: char): char {
    if 'A' <= c <= 'Z' then (c as int + 32) as char else c
  }

  /** `ToLowerInvariant`, on ASCII letters. */
  function Lower(s: string): (r: string)
    ensures |r| == |s|
    ensures forall i :: 0 <= i < |s| ==> r[i] == ToLowerAscii(s[i])
  {
    seq(|s|, i requires 0 <= i < |s| => ToLowerAscii(s[i]))
  }

  function Upper(s: string): (r: string)
    ensures |r| == |s|
    ensures forall i :: 0 <= i < |s| ==> r[i] == ToUpperAscii(s[i])
  {
    seq(|s|, i requires 0 <= i < |s| => ToUpperAscii(s[i]))
  }

  /** `StringComparer.OrdinalIgnoreCase` equality, compared character by character. */
  predicate EqualsIgnoreCase(a: string, b: string) {
    |a| == |b| && forall i :: 0 <= i < |a| ==> ToUpperAscii(a[i]) == ToUpperAscii(b[i])
  }

  lemma EqualsIgnoreCaseIsUpperEquality(a: string, b: string)
    ensures EqualsIgnoreCase(a, b) <==> Upper(a) == Upper(b)
  {
    if Upper(a) == Upper(b) {
      assert forall i :: 0 <= i < |a| ==> Upper(a)[i] == Upper(b)[i];
    }
  }

  predicate AllWhiteSpace(s: string) {
    forall i :: 0 <= i < |s| ==> IsWhiteSpace(s[i])
  }

  predicate AllDigits(s: string) {
    forall i :: 0 <= i < |s| ==> IsDigit(s[i])
  }

  // ---------------------------------------------------------------------------
  // Trim

  /** The index of the first character at or after `i` that is not white space, or `|s|`. */
  function SkipWhiteSpace(s: string, i: nat): (k: nat)
    requires i <= |s|
    ensures i <= k <= |s|
    decreases |s| - i
  {
    if i == |s| || !IsWhiteSpace(s[i]) then i else SkipWhiteSpace(s, i + 1)
  }

  /** The skipped characters are white space, and the one it stops at is not. */
  lemma {:induction false} SkipWhiteSpaceSpec(s: string, i: nat)
    requires i <= |s|
    ensures var k := SkipWhiteSpace(s, i);
      (forall j :: i <= j < k ==> IsWhiteSpace(s[j])) && (k < |s| ==> !IsWhiteSpace(s[k]))
    decreases |s| - i
  {
    if i < |s| && IsWhiteSpace(s[i]) {
      SkipWhiteSpaceSpec(s, i + 1);
    }
  }

  /** The index just past the last character before `j` that is not white space, or 0. */
  function SkipWhiteSpaceBack(s: string, j: nat): (k: nat)
    requires j <= |s|
    ensures k <= j
  {
    if j == 0 || !IsWhiteSpace(s[j - 1]) then j else SkipWhiteSpaceBack(s, j - 1)
  }

  /** The skipped characters are white space, and the one before them is not. */
  lemma {:induction false} SkipWhiteSpaceBackSpec(s: string, j: nat)
    requires j <= |s|
    ensures var k := SkipWhiteSpaceBack(s, j);
      (forall i :: k <= i < j ==> IsWhiteSpace(s[i])) && (0 < k ==> !IsWhiteSpace(s[k - 1]))
  {
    if j > 0 && IsWhiteSpace(s[j - 1]) {
      SkipWhiteSpaceBackSpec(s, j - 1);
    }
  }

  /** `String.TrimStart()`: drops the leading white space and nothing else. */
  function TrimStart(s: string): (r: string)
    ensures |r| <= |s|
  {
    s[SkipWhiteSpace(s, 0)..]
  }

  /** `TrimStart` keeps a suffix; what it drops is white space, and what it keeps does not start with any. */
  lemma TrimStartSpec(s: string)
    ensures var r := TrimStart(s);
      && r == s[|s| - |r|..]
      && AllWhiteSpace(s[..|s| - |r|]) && (r == [] || !IsWhiteSpace(r[0]))
  {
    var k := SkipWhiteSpace(s, 0);
    SkipWhiteSpaceSpec(s, 0);
    assert forall j :: 0 <= j < k ==> s[..k][j] == s[j];
  }

  /** `String.TrimEnd()`: drops the trailing white space and nothing else. */
  function TrimEnd(s: string): (r: string)
    ensures |r| <= |s|
  {
    s[..SkipWhiteSpaceBack(s, |s|)]
  }

  /** `TrimEnd` keeps a prefix; what it drops is white space, and what it keeps does not end with any. */
  lemma TrimEndSpec(s: string)
    ensures var r := TrimEnd(s);
      && r == s[..|r|]
      && AllWhiteSpace(s[|r|..]) && (r == [] || !IsWhiteSpace(r[|r| - 1]))
  {
    var k := SkipWhiteSpaceBack(s, |s|);
    SkipWhiteSpaceBackSpec(s, |s|);
    assert forall j :: 0 <= j < |s| - k ==> s[k..][j] == s[k + j];
  }

  /** `String.Trim()`. */
  function Trim(s: string): (r: string)
    ensures |r| <= |s|
  {
    TrimEnd(TrimStart(s))
  }

  predicate IsTrimmed(s: string) {
    s == [] || (!IsWhiteSpace(s[0]) && !IsWhiteSpace(s[|s| - 1]))
  }

  /** A trimmed string neither starts nor ends with white space. */
  lemma TrimIsTrimmed(s: string)
    ensures IsTrimmed(Trim(s))
  {
    var t := TrimStart(s);
    TrimStartSpec(s);
    TrimEndSpec(t);
    var r := TrimEnd(t);
    if r != [] {
      assert r[0] == t[0];
    }
  }

  /** Trim keeps one contiguous slice of its input and what it drops on either side is white space. */
  lemma {:induction false} TrimIsSlice(s: string)
    ensures var k := |s| - |TrimStart(s)|;
      && k + |Trim(s)| <= |s|
      && Trim(s) == s[k..k + |Trim(s)|]
      && AllWhiteSpace(s[..k])
      && AllWhiteSpace(s[k + |Trim(s)|..])
  {
    var t := TrimStart(s);
    var r := TrimEnd(t);
    TrimStartSpec(s);
    TrimEndSpec(t);
    assert Trim(s) == r;
    SliceOfSlice(s, t, r, |s| - |t|);
  }

  /** `r`, a prefix of the suffix `t` of `s`, is a slice of `s`, and white space after it stays so. */
  lemma SliceOfSlice(s: string, t: string, r: string, k: nat)
    requires k <= |s| && t == s[k..] && |r| <= |t| && r == t[..|r|] && AllWhiteSpace(t[|r|..])
    ensures k + |r| <= |s| && r == s[k..k + |r|] && AllWhiteSpace(s[k + |r|..])
  {
    assert s[k + |r|..] == t[|r|..];
  }

  /** A trimmed string is its own trim. */
  lemma TrimOfTrimmed(s: string)
    requires IsTrimmed(s)
    ensures Trim(s) == s
  {
  }

  lemma TrimIdempotent(s: string)
    ensures Trim(Trim(s)) == Trim(s)
  {
    TrimIsTrimmed(s);
    TrimOfTrimmed(Trim(s));
  }

  /** Trimming a string that is all white space leaves nothing, and only such strings. */
  lemma TrimEmptyIffWhiteSpace(s: string)
    ensures Trim(s) == [] <==> AllWhiteSpace(s)
  {
    TrimIsSlice(s);
    var k := |s| - |TrimStart(s)|;
    if Trim(s) == [] {
      TrimStartSpec(s);
      TrimEndSpec(TrimStart(s));
      assert TrimStart(s) == [];
      forall i | 0 <= i < |s|
        ensures IsWhiteSpace(s[i])
      {
        assert s[..k][i] == s[i];
      }
    } else {
      TrimStartSpec(s);
      assert !IsWhiteSpace(s[k]);
    }
  }

  /** `String.IsNullOrWhiteSpace` of a non-null string. */
  predicate IsNullOrWhiteSpace(s: string) {
    AllWhiteSpace(s)
  }

  // ---------------------------------------------------------------------------
  // Replace, Contains

  /**
   * Ordinal `String.Replace(pat, rep)`: every occurrence of `pat`, found left to right
   * without overlap, is replaced by `rep`. .NET refuses an empty `pat`.
   */
  function ReplaceAll(s: string, pat: string, rep: string): string
    requires |pat| > 0
    decreases |s|
  {
    if |s| < |pat| then s
    else if s[..|pat|] == pat then rep + ReplaceAll(s[|pat|..], pat, rep)
    else [s[0]] + ReplaceAll(s[1..], pat, rep)
  }

  /** Replacing by something no longer never lengthens the string. */
  lemma {:induction false} ReplaceNeverLengthens(s: string, pat: string, rep: string)
    requires |pat| > 0 && |rep| <= |pat|
    ensures |ReplaceAll(s, pat, rep)| <= |s|
    decreases |s|
  {
    if |s| < |pat| {
    } else if s[..|pat|] == pat {
      ReplaceNeverLengthens(s[|pat|..], pat, rep);
    } else {
      ReplaceNeverLengthens(s[1..], pat, rep);
    }
  }

  /** A string without the first character of `pat` has no occurrence of it and is left as is. */
  lemma {:induction false} ReplaceWithoutLead(s: string, pat: string, rep: string)
    requires |pat| > 0 && pat[0] !in s
    ensures ReplaceAll(s, pat, rep) == s
    decreases |s|
  {
    if |s| >= |pat| {
      assert s[0] != pat[0];
      assert s[..|pat|] != pat;
      ReplaceWithoutLead(s[1..], pat, rep);
    }
  }

  /** Replacing a one-character pattern by text without that character removes it entirely. */
  lemma {:induction false} ReplaceCharRemovesIt(s: string, c: char, rep: string)
    requires c !in rep
    ensures c !in ReplaceAll(s, [c], rep)
    decreases |s|
  {
    if |s| >= 1 {
      ReplaceCharRemovesIt(s[1..], c, rep);
    }
  }

  /** Replacing one character by one character keeps the length and every other character. */
  lemma {:induction false} ReplaceCharByChar(s: string, c: char, d: char)
    ensures |ReplaceAll(s, [c], [d])| == |s|
    ensures forall i :: 0 <= i < |s| ==>
      ReplaceAll(s, [c], [d])[i] == (if s[i] == c then d else s[i])
    decreases |s|
  {
    if |s| >= 1 {
      ReplaceCharByChar(s[1..], c, d);
      var r := ReplaceAll(s, [c], [d]);
      var t := ReplaceAll(s[1..], [c], [d]);
      assert r == (if s[0] == c then [d] else [s[0]]) + t;
      forall i | 0 <= i < |s|
        ensures r[i] == (if s[i] == c then d else s[i])
      {
        if i > 0 {
          assert r[i] == t[i - 1];
          assert s[1..][i - 1] == s[i];
        }
      }
    }
  }

  predicate OccursAt(s: string, sub: string, i: int) {
    0 <= i && i + |sub| <= |s| && s[i..i + |sub|] == sub
  }

  /** Ordinal `String.Contains`. */
  predicate Contains(s: string, sub: string) {
    exists i :: 0 <= i <= |s| - |sub| && OccursAt(s, sub, i)
  }

  // ---------------------------------------------------------------------------
  // Split

  /** `String.Split(sep)`: every piece between separators, empty ones included. */
  function Split(s: string, sep: char): (parts: seq<string>)
    ensures |parts| >= 1
    ensures forall p :: p in parts ==> sep !in p
  {
    if s == [] then [""]
    else if s[0] == sep then [""] + Split(s[1..], sep)
    else
      var rest := Split(s[1..], sep);
      [[s[0]] + rest[0]] + rest[1..]
  }

  /** `String.Join(sep, parts)`. */
  function Join(parts: seq<string>, sep: char): string {
    if |parts| == 0 then ""
    else if |parts| == 1 then parts[0]
    else parts[0] + [sep] + Join(parts[1..], sep)
  }

  /** Joining the pieces with the separator gives the string back. */
  lemma {:induction false} JoinSplit(s: string, sep: char)
    ensures Join(Split(s, sep), sep) == s
  {
    if s == [] {
    } else if s[0] == sep {
      JoinSplit(s[1..], sep);
      var rest := Split(s[1..], sep);
      assert Split(s, sep) == [""] + rest;
      assert ([""] + rest)[1..] == rest;
    } else {
      JoinSplit(s[1..], sep);
      var rest := Split(s[1..], sep);
      var parts := [[s[0]] + rest[0]] + rest[1..];
      assert Split(s, sep) == parts;
      if |rest| == 1 {
        assert Join(parts, sep) == [s[0]] + rest[0];
      } else {
        assert parts[1..] == rest[1..];
        assert Join(rest, sep) == rest[0] + [sep] + Join(rest[1..], sep);
      }
    }
  }

  /** There is one piece more than there are separators. */
  lemma {:induction false} SplitCount(s: string, sep: char)
    ensures |Split(s, sep)| == multiset(s)[sep] + 1
  {
    if s != [] {
      SplitCount(s[1..], sep);
      assert s == [s[0]] + s[1..];
      assert multiset(s) == multiset([s[0]]) + multiset(s[1..]);
    }
  }

  // ---------------------------------------------------------------------------
  // Numbers

  /** The value of a string of decimal digits. */
  function DigitsValue(s: string): nat
    requires AllDigits(s)
  {
    if s == [] then 0 else DigitsValue(s[..|s| - 1]) * 10 + (s[|s| - 1] as int - '0' as int)
  }

  const Int32Max: int := 0x7FFF_FFFF

  /**
   * `int.TryParse` on strings of ASCII digits: it succeeds on a non-empty digit string
   * whose value fits in 32 bits.
   */
  function TryParseInt(s: string): (r: Option<int>)
    ensures r.Some? ==> s != [] && AllDigits(s) && r.value == DigitsValue(s) && 0 <= r.value <= Int32Max
    ensures r.None? ==> s == [] || !AllDigits(s) || DigitsValue(s) > Int32Max
  {
    if s != [] && AllDigits(s) && DigitsValue(s) <= Int32Max then Some(DigitsValue(s)) else None
  }

  /** `String.PadLeft(width, fill)`. */
  function PadLeft(s: string, width: nat, fill: char): (r: string)
    ensures |r| == if |s| >= width then |s| else width
  {
    if |s| >= width then s else seq(width - |s|, _ => fill) + s
  }

  /** The padded string ends with `s` and is `fill` before it. */
  lemma PadLeftSpec(s: string, width: nat, fill: char)
    ensures var r := PadLeft(s, width, fill);
      r[|r| - |s|..] == s && forall i :: 0 <= i < |r| - |s| ==> r[i] == fill
  {
  }

  /** One or two decimal digits, as a `(\d{1,2})` group captures. */
  predicate IsDigitGroup(s: string) {
    1 <= |s| <= 2 && AllDigits(s)
  }

  /** Zero-padding one or two digits gives exactly two digits of the same value. */
  lemma PadTwoDigits(s: string)
    requires IsDigitGroup(s)
    ensures |PadLeft(s, 2, '0')| == 2 && AllDigits(PadLeft(s, 2, '0'))
    ensures DigitsValue(PadLeft(s, 2, '0')) == DigitsValue(s)
  {
    var p := PadLeft(s, 2, '0');
    PadLeftSpec(s, 2, '0');
    if |s| == 1 {
      assert p == ['0', s[0]];
      assert p[..1] == ['0'];
      assert s[..0] == [];
    }
  }

  // ---------------------------------------------------------------------------
  // Subsequences

  /** `a` can be obtained from `b` by deleting elements. */
  predicate IsSubsequence<T(==)>(a: seq<T>, b: seq<T>)
    decreases |b|
  {
    if a == [] then true
    else if b == [] then false
    else (a[0] == b[0] && IsSubsequence(a[1..], b[1..])) || IsSubsequence(a, b[1..])
  }

  lemma {:induction false} SliceIsSubsequence<T>(s: seq<T>, i: nat, j: nat)
    requires i <= j <= |s|
    ensures IsSubsequence(s[i..j], s)
    decreases |s|
  {
    if i == j {
    } else if i > 0 {
      SliceIsSubsequence(s[1..], i - 1, j - 1);
      assert s[1..][i - 1..j - 1] == s[i..j];
    } else {
      SliceIsSubsequence(s[1..], 0, j - 1);
      assert s[1..][0..j - 1] == s[i..j][1..];
    }
  }

  lemma {:induction false} SubsequenceTransitive<T>(a: seq<T>, b: seq<T>, c: seq<T>)
    requires IsSubsequence(a, b) && IsSubsequence(b, c)
    ensures IsSubsequence(a, c)
    decreases |c|
  {
    if a == [] {
    } else if IsSubsequence(b, c[1..]) {
      SubsequenceTransitive(a, b, c[1..]);
    } else if a[0] == b[0] && IsSubsequence(a[1..], b[1..]) {
      SubsequenceTransitive(a[1..], b[1..], c[1..]);
    } else {
      SubsequenceTransitive(a, b[1..], c[1..]);
    }
  }
}
