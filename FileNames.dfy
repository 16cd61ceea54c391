/**
 * The file-name helpers of `FileRenamingService`: sanitising a new file name, the
 * dot/space title formatter with its year and tag terminators, the extension stripper,
 * the two-integer group parser and the last-backslash file-name extractor.
 */
module FileNames {
  import opened Common
  import opened Text
  import opened Paths
  import opened Patterns

  // ---------------------------------------------------------------------------
  // SanitizeFileName

  /** `Path.GetInvalidFileNameChars()` on Windows: control characters and `" < > | : * ? \ /`. */
  predicate IsInvalidFileNameChar(c: char) {
    c as int < 32 || c in {'"', '<', '>', '|', ':', '*', '?', '\\', '/'}
  }

  predicate HasNoInvalidChar(s: string) {
    forall c :: c in s ==> !IsInvalidFileNameChar(c)
  }

  /** `fileName.Where(ch => !invalidChars.Contains(ch))`. */
  function WithoutInvalidChars(s: string): string {
    if s == [] then []
    else
      var rest := WithoutInvalidChars(s[1..]);
      if IsInvalidFileNameChar(s[0]) then rest else [s[0]] + rest
  }

  /** The filter keeps exactly the valid characters, in order, each as often as it occurs. */
  lemma {:induction false} WithoutInvalidCharsContract(s: string)
    ensures HasNoInvalidChar(WithoutInvalidChars(s))
    ensures IsSubsequence(WithoutInvalidChars(s), s)
    ensures forall c :: !IsInvalidFileNameChar(c) ==> multiset(WithoutInvalidChars(s))[c] == multiset(s)[c]
  {
    if s != [] {
      WithoutInvalidCharsContract(s[1..]);
      assert s == [s[0]] + s[1..];
    }
  }

  lemma {:induction false} WithoutInvalidCharsKeepsValid(s: string)
    requires HasNoInvalidChar(s)
    ensures WithoutInvalidChars(s) == s
  {
    if s != [] {
      WithoutInvalidCharsKeepsValid(s[1..]);
    }
  }

  /**
   * `SanitizeFileName`: the invalid characters are removed and the rest trimmed. The result
   * has no invalid character and no white space at either end, it keeps the input's
   * characters in order, and every character that is neither invalid nor white space
   * survives as often as it occurs.
   */
  function SanitizeFileName(fileName: string): (r: string)
    ensures HasNoInvalidChar(r) && IsTrimmed(r) && IsSubsequence(r, fileName)
    ensures forall c :: !IsInvalidFileNameChar(c) && !IsWhiteSpace(c) ==> multiset(r)[c] == multiset(fileName)[c]
  {
    var kept := WithoutInvalidChars(fileName);
    WithoutInvalidCharsContract(fileName);
    TrimKeepsNonWhiteSpace(kept);
    TrimIsTrimmed(kept);
    SubsequenceTransitive(Trim(kept), kept, fileName);
    Trim(kept)
  }

  /** Trimming keeps a slice of its input, so every character that is not white space keeps its count. */
  lemma TrimKeepsNonWhiteSpace(s: string)
    ensures IsSubsequence(Trim(s), s)
    ensures forall c :: c in Trim(s) ==> c in s
    ensures forall c :: !IsWhiteSpace(c) ==> multiset(Trim(s))[c] == multiset(s)[c]
  {
    TrimIsSlice(s);
    var k := |s| - |TrimStart(s)|;
    var r := Trim(s);
    SliceIsSubsequence(s, k, k + |r|);
    TrimDecomposes(s);
    SliceKeepsNonWhiteSpace(s[..k], r, s[k + |r|..]);
  }

  lemma TrimDecomposes(s: string)
    ensures s == s[..|s| - |TrimStart(s)|] + Trim(s) + s[|s| - |TrimStart(s)| + |Trim(s)|..]
  {
    TrimIsSlice(s);
  }

  lemma SliceKeepsNonWhiteSpace(pre: string, r: string, post: string)
    requires AllWhiteSpace(pre) && AllWhiteSpace(post)
    ensures forall c :: c in r ==> c in pre + r + post
    ensures forall c :: !IsWhiteSpace(c) ==> multiset(r)[c] == multiset(pre + r + post)[c]
  {
    assert multiset(pre + r + post) == multiset(pre) + multiset(r) + multiset(post);
    forall c | !IsWhiteSpace(c)
      ensures multiset(pre)[c] == 0 && multiset(post)[c] == 0
    {
    }
  }

  /** Sanitising a sanitised name changes nothing. */
  lemma SanitizeIdempotent(fileName: string)
    ensures SanitizeFileName(SanitizeFileName(fileName)) == SanitizeFileName(fileName)
  {
    var r := SanitizeFileName(fileName);
    WithoutInvalidCharsKeepsValid(r);
    TrimOfTrimmed(r);
  }

  // ---------------------------------------------------------------------------
  // IsNonTitlePart

  /** The tags compared with `StringComparer.OrdinalIgnoreCase`. */
  const NonTitleParts: seq<string> := ["WEBRip", "x264", "AAC", "YTS", "MX", "1080p", "720p", "mp4", "avi", "mkv"]

  /** The same tags, upper-cased. */
  const NonTitlePartsUpper: set<string> := {"WEBRIP", "X264", "AAC", "YTS", "MX", "1080P", "720P", "MP4", "AVI", "MKV"}

  /**
   * `IsNonTitlePart`: one of the tags in any letter case, or a match of `\d{3,4}p` with
   * `IgnoreCase`. It holds exactly when the part, upper-cased, is one of the tags
   * upper-cased, or when it has three digits followed by `p` or `P`.
   */
  predicate IsNonTitlePart(part: string): (b: bool)
    ensures b <==> Upper(part) in NonTitlePartsUpper || exists i :: 0 <= i < |part| && ThreeDigitsThenP(part, i)
  {
    TagsIgnoringCase(part);
    ResolutionIsThreeDigitsThenP(part);
    (exists t :: t in NonTitleParts && EqualsIgnoreCase(part, t)) || HasResolution(part)
  }

  /** A part equals a tag ignoring case exactly when its upper-cased form is a tag's. */
  lemma TagsIgnoringCase(part: string)
    ensures (exists t :: t in NonTitleParts && EqualsIgnoreCase(part, t)) <==> Upper(part) in NonTitlePartsUpper
  {
    UpperOfTags();
    forall t | t in NonTitleParts
      ensures EqualsIgnoreCase(part, t) <==> Upper(part) == Upper(t)
    {
      EqualsIgnoreCaseIsUpperEquality(part, t);
    }
  }

  lemma UpperOfTags()
    ensures NonTitlePartsUpper == set t | t in NonTitleParts :: Upper(t)
  {
    assert Upper("WEBRip") == "WEBRIP";
    assert Upper("x264") == "X264";
    assert Upper("AAC") == "AAC";
    assert Upper("YTS") == "YTS";
    assert Upper("MX") == "MX";
    assert Upper("1080p") == "1080P";
    assert Upper("720p") == "720P";
    assert Upper("mp4") == "MP4";
    assert Upper("avi") == "AVI";
    assert Upper("mkv") == "MKV";
  }

  // ---------------------------------------------------------------------------
  // RemoveExtensions

  const RemovalList: seq<string> := [".mp4", ".avi", ".mkv"]

  predicate NonEmptyPatterns(pats: seq<string>) {
    forall i :: 0 <= i < |pats| ==> |pats[i]| > 0
  }

  /** Each pattern of `pats`, in order, replaced by nothing. */
  function RemoveAll(s: string, pats: seq<string>): string
    requires NonEmptyPatterns(pats)
    decreases pats
  {
    if pats == [] then s else RemoveAll(ReplaceAll(s, pats[0], ""), pats[1..])
  }

  /** `RemoveExtensions`: the loop that strips `.mp4`, `.avi` and `.mkv` in that order. */
  method RemoveExtensions(s: string) returns (r: string)
    ensures r == RemoveAll(s, RemovalList)
  {
    r := s;
    for i := 0 to |RemovalList|
      invariant RemoveAll(r, RemovalList[i..]) == RemoveAll(s, RemovalList)
    {
      assert RemovalList[i..][1..] == RemovalList[i + 1..];
      r := ReplaceAll(r, RemovalList[i], "");
    }
  }

  /** Stripping never makes a string longer. */
  lemma {:induction false} RemoveAllNeverLengthens(s: string, pats: seq<string>)
    requires NonEmptyPatterns(pats)
    ensures |RemoveAll(s, pats)| <= |s|
    decreases pats
  {
    if pats != [] {
      ReplaceNeverLengthens(s, pats[0], "");
      RemoveAllNeverLengthens(ReplaceAll(s, pats[0], ""), pats[1..]);
    }
  }

  /** A string without any `.` is not touched, since every pattern starts with one. */
  lemma {:induction false} RemoveAllWithoutDot(s: string, pats: seq<string>)
    requires NonEmptyPatterns(pats) && forall i :: 0 <= i < |pats| ==> pats[i][0] == '.'
    requires '.' !in s
    ensures RemoveAll(s, pats) == s
    decreases pats
  {
    if pats != [] {
      ReplaceWithoutLead(s, pats[0], "");
      RemoveAllWithoutDot(s, pats[1..]);
    }
  }

  lemma RemoveExtensionsProperties(s: string)
    ensures |RemoveAll(s, RemovalList)| <= |s|
    ensures '.' !in s ==> RemoveAll(s, RemovalList) == s
  {
    RemoveAllNeverLengthens(s, RemovalList);
    if '.' !in s {
      RemoveAllWithoutDot(s, RemovalList);
    }
  }

  // ---------------------------------------------------------------------------
  // FormatFileName

  /** A part at which the formatter stops: a year, or a tag. */
  predicate IsTerminator(part: string) {
    IsYearPart(part) || IsNonTitlePart(part)
  }

  /**
   * What the formatter's loop appends for `parts`: each title part with its dots turned
   * into spaces and a space after it, until a year (appended as ` (year)`) or a tag
   * (appended as nothing) ends the scan.
   */
  function TitleText(parts: seq<string>): string {
    if parts == [] then ""
    else if IsYearPart(parts[0]) then " (" + parts[0] + ")"
    else if IsNonTitlePart(parts[0]) then ""
    else ReplaceAll(parts[0], ".", " ") + " " + TitleText(parts[1..])
  }

  /** The parts of `fileName`: its dot-separated pieces, or, when there are fewer than three, its space-separated pieces with the extensions stripped. */
  function NameParts(fileName: string): seq<string> {
    var dotted := Split(fileName, '.');
    if |dotted| < 3 then
      var spaced := Split(fileName, ' ');
      seq(|spaced|, i requires 0 <= i < |spaced| => RemoveAll(spaced[i], RemovalList))
    else dotted
  }

  /**
   * The formatted title of `fileName`: no white space at either end, and never longer than
   * the text the loop appends.
   */
  function FormattedName(fileName: string): (r: string)
    ensures IsTrimmed(r)
    ensures |r| <= |TitleText(NameParts(fileName))|
  {
    var text := TitleText(NameParts(fileName));
    TrimIsTrimmed(ReplaceAll(text, "  ", " "));
    ReplaceNeverLengthens(text, "  ", " ");
    Trim(ReplaceAll(text, "  ", " "))
  }

  /**
   * The parts array of `FormatFileName`: the pieces split on `.`, or, when there are fewer
   * than three, the pieces split on ` ` with `RemoveExtensions` applied to each in place.
   */
  method SplitNameParts(fileName: string) returns (parts: array<string>)
    ensures parts[..] == NameParts(fileName)
  {
    var dotted := Split(fileName, '.');
    parts := new string[|dotted|](i requires 0 <= i < |dotted| => dotted[i]);
    if parts.Length < 3 {
      var spaced := Split(fileName, ' ');
      parts := new string[|spaced|](i requires 0 <= i < |spaced| => spaced[i]);
      for i := 0 to parts.Length
        invariant forall j :: 0 <= j < i ==> parts[j] == RemoveAll(spaced[j], RemovalList)
        invariant forall j :: i <= j < parts.Length ==> parts[j] == spaced[j]
      {
        parts[i] := RemoveExtensions(parts[i]);
      }
    }
  }

  /** `FormatFileName`: the appending loop over the parts, then the double-space collapse and the trim. */
  method FormatFileName(fileName: string) returns (r: string)
    ensures r == FormattedName(fileName)
  {
    var parts := SplitNameParts(fileName);
    var formatted := AppendTitleParts(parts[..]);
    r := Trim(ReplaceAll(formatted, "  ", " "));
  }

  /** The `foreach` of `FormatFileName`: parts are appended until the first year or tag. */
  method AppendTitleParts(ps: seq<string>) returns (formatted: string)
    ensures formatted == TitleText(ps)
  {
    formatted := "";
    var i := 0;
    while i < |ps|
      invariant 0 <= i <= |ps|
      invariant formatted + TitleText(ps[i..]) == TitleText(ps)
    {
      var part := ps[i];
      if IsYearPart(part) {
        TitleTextYear(formatted, ps, i);
        formatted := formatted + " (" + part + ")";
        break;
      }
      if IsNonTitlePart(part) {
        TitleTextFrom(ps, i);
        break;
      }
      TitleTextStep(formatted, ps, i);
      formatted := formatted + ReplaceAll(part, ".", " ") + " ";
      i := i + 1;
    }
    if i == |ps| {
      assert ps[i..] == [];
    }
  }

  lemma TitleTextYear(formatted: string, ps: seq<string>, i: nat)
    requires i < |ps| && IsYearPart(ps[i])
    requires formatted + TitleText(ps[i..]) == TitleText(ps)
    ensures formatted + " (" + ps[i] + ")" == TitleText(ps)
  {
    TitleTextFrom(ps, i);
  }

  lemma TitleTextStep(formatted: string, ps: seq<string>, i: nat)
    requires i < |ps| && !IsYearPart(ps[i]) && !IsNonTitlePart(ps[i])
    requires formatted + TitleText(ps[i..]) == TitleText(ps)
    ensures formatted + ReplaceAll(ps[i], ".", " ") + " " + TitleText(ps[i + 1..]) == TitleText(ps)
  {
    TitleTextFrom(ps, i);
    var name := ReplaceAll(ps[i], ".", " ");
    var rest := TitleText(ps[i + 1..]);
    AppendAssoc(formatted, name, " ");
    AppendAssoc(formatted, name + " ", rest);
  }

  lemma AppendAssoc<T>(a: seq<T>, b: seq<T>, c: seq<T>)
    ensures a + b + c == a + (b + c)
  {
  }

  lemma TitleTextFrom(ps: seq<string>, i: nat)
    requires i < |ps|
    ensures TitleText(ps[i..]) ==
      if IsYearPart(ps[i]) then " (" + ps[i] + ")"
      else if IsNonTitlePart(ps[i]) then ""
      else ReplaceAll(ps[i], ".", " ") + " " + TitleText(ps[i + 1..])
  {
    assert ps[i..][0] == ps[i] && ps[i..][1..] == ps[i + 1..];
  }

  /** Each part, dots made spaces, followed by a space. */
  function SpacedTitle(parts: seq<string>): string {
    if parts == [] then "" else ReplaceAll(parts[0], ".", " ") + " " + SpacedTitle(parts[1..])
  }

  /**
   * The scan stops at the first year or tag: the output is the title parts before it and,
   * for a year, ` (year)`; nothing after the stopping part contributes.
   */
  lemma {:induction false} TitleStopsAtFirstTerminator(parts: seq<string>, k: nat)
    requires k < |parts| && IsTerminator(parts[k])
    requires forall j :: 0 <= j < k ==> !IsTerminator(parts[j])
    ensures TitleText(parts) == SpacedTitle(parts[..k]) + (if IsYearPart(parts[k]) then " (" + parts[k] + ")" else "")
  {
    if k > 0 {
      TitleStopsAtFirstTerminator(parts[1..], k - 1);
      assert parts[1..][..k - 1] == parts[..k][1..];
    }
  }

  /** Without a year or tag the output is every part, spaced. */
  lemma {:induction false} TitleWithoutTerminator(parts: seq<string>)
    requires forall j :: 0 <= j < |parts| ==> !IsTerminator(parts[j])
    ensures TitleText(parts) == SpacedTitle(parts)
  {
    if parts != [] {
      TitleWithoutTerminator(parts[1..]);
    }
  }

  /** The pieces split on `.` are used as they are once there are at least two dots. */
  lemma NamePartsOfDottedName(fileName: string)
    requires multiset(fileName)['.'] >= 2
    ensures NameParts(fileName) == Split(fileName, '.')
  {
    SplitCount(fileName, '.');
  }

  // ---------------------------------------------------------------------------
  // FindAndParseTwoIntegers

  /** The values of groups `1` to `i - 1` that `int.TryParse` accepts, in order. */
  function ParsedUpTo(groups: seq<string>, i: nat): seq<int>
    requires i <= |groups|
  {
    if i <= 1 then []
    else ParsedUpTo(groups, i - 1) + match TryParseInt(groups[i - 1]) case Some(v) => [v] case None => []
  }

  /** The values of all groups but group 0 that parse. */
  function ParsedValues(groups: seq<string>): seq<int> {
    ParsedUpTo(groups, |groups|)
  }

  /** `first` and `second` are the first two of `vs`, each null when `vs` is too short. */
  predicate FirstTwo(vs: seq<int>, first: Option<int>, second: Option<int>) {
    && first == (if |vs| >= 1 then Some(vs[0]) else None)
    && second == (if |vs| >= 2 then Some(vs[1]) else None)
  }

  /**
   * `FindAndParseTwoIntegers`: skipping group 0, the first and second group values that
   * parse as integers; the second is null when fewer than two parse, both when none does.
   */
  method FindAndParseTwoIntegers(groups: seq<string>) returns (first: Option<int>, second: Option<int>)
    ensures FirstTwo(ParsedValues(groups), first, second)
  {
    first, second := None, None;
    var i := 1;
    while i < |groups|
      invariant 1 <= i && (|groups| >= 1 ==> i <= |groups|)
      invariant |groups| >= 1 ==> |ParsedUpTo(groups, i)| <= 1 && FirstTwo(ParsedUpTo(groups, i), first, second)
      invariant |groups| == 0 ==> first == None && second == None
    {
      var parsed := TryParseInt(groups[i]);
      if parsed.Some? {
        if first == None {
          first := parsed;
        } else {
          second := parsed;
          ParsedUpToPrefix(groups, i + 1, |groups|);
          assert ParsedUpTo(groups, i + 1) == ParsedUpTo(groups, i) + [parsed.value];
          break;
        }
      }
      i := i + 1;
    }
  }

  /** Scanning further only adds values after those already found. */
  lemma {:induction false} ParsedUpToPrefix(groups: seq<string>, i: nat, j: nat)
    requires i <= j <= |groups|
    ensures |ParsedUpTo(groups, i)| <= |ParsedUpTo(groups, j)|
    ensures forall k :: 0 <= k < |ParsedUpTo(groups, i)| ==> ParsedUpTo(groups, j)[k] == ParsedUpTo(groups, i)[k]
    decreases j
  {
    if i < j {
      ParsedUpToPrefix(groups, i, j - 1);
    }
  }

  /**
   * The first value is that of the first group after group 0 that parses: every group
   * between them fails to parse.
   */
  lemma {:induction false} FirstValueIsFirstParsed(groups: seq<string>, i: nat)
    requires i <= |groups| && ParsedUpTo(groups, i) != []
    ensures exists j :: 1 <= j < i && TryParseInt(groups[j]) == Some(ParsedUpTo(groups, i)[0])
                        && forall k :: 1 <= k < j ==> TryParseInt(groups[k]).None?
    decreases i
  {
    if ParsedUpTo(groups, i - 1) != [] {
      FirstValueIsFirstParsed(groups, i - 1);
    } else {
      NoneParsedBefore(groups, i - 1);
      assert TryParseInt(groups[i - 1]) == Some(ParsedUpTo(groups, i)[0]);
    }
  }

  lemma {:induction false} NoneParsedBefore(groups: seq<string>, i: nat)
    requires i <= |groups| && ParsedUpTo(groups, i) == []
    ensures forall k :: 1 <= k < i ==> TryParseInt(groups[k]).None?
    decreases i
  {
    if i > 1 {
      NoneParsedBefore(groups, i - 1);
    }
  }

  // ---------------------------------------------------------------------------
  // ExtractFileNameWithPath

  /** `String.LastIndexOf(c)`. */
  function LastIndexOf(s: string, c: char): (i: int)
    ensures -1 <= i < |s|
    ensures i >= 0 ==> s[i] == c
    ensures forall j :: i < j < |s| ==> s[j] != c
  {
    if s == [] then -1 else if s[|s| - 1] == c then |s| - 1 else LastIndexOf(s[..|s| - 1], c)
  }

  /**
   * `ExtractFileNameWithPath`: the text after the last backslash, or all of `fullPath` when
   * it has none; the longest suffix without a backslash.
   */
  function ExtractFileNameWithPath(fullPath: string): (r: string)
    ensures |r| <= |fullPath| && r == fullPath[|fullPath| - |r|..]
    ensures '\\' !in r
    ensures |r| < |fullPath| ==> fullPath[|fullPath| - |r| - 1] == '\\'
  {
    var i := LastIndexOf(fullPath, '\\');
    var r := fullPath[i + 1..];
    assert |fullPath| - |r| == i + 1;
    assert forall c :: c in r ==> exists j :: i < j < |fullPath| && fullPath[j] == c;
    r
  }

  /** On a path that uses only backslashes it agrees with `Path.GetFileName`. */
  lemma ExtractAgreesWithGetFileName(fullPath: string)
    requires '/' !in fullPath
    ensures ExtractFileNameWithPath(fullPath) == GetFileName(fullPath)
  {
  }
}
