/**
 * `OpenSubtitlesService`: a lazily obtained token, the choice of one subtitle among the
 * search results, and the path a downloaded subtitle is written to.
 *
 * The service's HTTP answers are oracles fixed when the service is built: the login reply,
 * the search reply for each title, the download reply for each file id and the bytes behind
 * each link.
 */
module OpenSubtitles {
  import opened Common
  import opened Text
  import opened Paths

  datatype Attributes = Attributes(fromTrusted: bool, downloadCount: int)

  /** One search hit; `attributes` may be `null`. */
  datatype Datum = Datum(id: string, attributes: Option<Attributes>)

  datatype SubtitleSearchResult = SubtitleSearchResult(
    totalPages: int,
    totalCount: int,
    perPage: int,
    page: int,
    data: seq<Datum>)

  /** The login reply: a failed status, or a body whose `Status` and `Data.Token` may be `null`. */
  datatype TokenReply = TokenFailed | TokenBody(status: Option<string>, token: Option<string>)

  /** The search reply: a failed status, or a body whose `data` may be `null`. */
  datatype SearchReply = SearchFailed | SearchBody(data: Option<seq<Datum>>)

  /** The download reply: a failed status, or a body whose `link` may be `null`. */
  datatype DownloadReply = DownloadFailed | DownloadBody(link: Option<string>)

  /** A file written to disk: its path and its bytes. */
  datatype Written = Written(path: string, bytes: seq<bv8>)

  const SearchFailure: string := "Error getting the subtitles"
  const TokenFailure: string := "Failed to authenticate"

  // ---------------------------------------------------------------------------
  // Choosing a result

  predicate IsTrusted(d: Datum) {
    d.attributes.Some? && d.attributes.value.fromTrusted
  }

  /** The sort key: the download count, `0` when there are no attributes. */
  function DownloadCount(d: Datum): int {
    if d.attributes.Some? then d.attributes.value.downloadCount else 0
  }

  /** The `Where` that keeps the trusted hits, in order. */
  function Trusted(data: seq<Datum>): seq<Datum> {
    if data == [] then []
    else
      var rest := Trusted(data[..|data| - 1]);
      if IsTrusted(data[|data| - 1]) then rest + [data[|data| - 1]] else rest
  }

  /** The trusted hits are exactly the hits that are trusted, in the order of the search. */
  lemma {:induction false} TrustedSpec(data: seq<Datum>)
    ensures IsSubsequence(Trusted(data), data)
    ensures forall d :: d in Trusted(data) <==> d in data && IsTrusted(d)
  {
    if data != [] {
      var init := data[..|data| - 1];
      var last := data[|data| - 1];
      TrustedSpec(init);
      assert data == init + [last];
      if IsTrusted(last) {
        SubsequenceSnoc(Trusted(init), init, last);
      } else {
        SubsequenceTransitivePrefix(Trusted(init), init, [last]);
      }
    }
  }

  lemma SubsequenceSnoc<T>(a: seq<T>, b: seq<T>, x: T)
    requires IsSubsequence(a, b)
    ensures IsSubsequence(a + [x], b + [x])
  {
    SubsequenceAppend(a, b, [x]);
  }

  lemma {:induction false} SubsequenceAppend<T>(a: seq<T>, b: seq<T>, c: seq<T>)
    requires IsSubsequence(a, b)
    ensures IsSubsequence(a + c, b + c)
    decreases |b|
  {
    if a == [] {
      SliceIsSubsequence(b + c, |b|, |b + c|);
      assert (b + c)[|b|..|b + c|] == c;
      assert a + c == c;
    } else if a[0] == b[0] && IsSubsequence(a[1..], b[1..]) {
      SubsequenceAppend(a[1..], b[1..], c);
      assert (a + c)[1..] == a[1..] + c;
      assert (b + c)[1..] == b[1..] + c;
    } else {
      SubsequenceAppend(a, b[1..], c);
      assert (b + c)[1..] == b[1..] + c;
    }
  }

  lemma SubsequenceTransitivePrefix<T>(a: seq<T>, b: seq<T>, c: seq<T>)
    requires IsSubsequence(a, b)
    ensures IsSubsequence(a, b + c)
  {
    SliceIsSubsequence(b + c, 0, |b|);
    assert (b + c)[0..|b|] == b;
    SubsequenceTransitive(a, b, b + c);
  }

  /**
   * The position of the first hit among the first `n` with the largest download count: the
   * head of a stable descending sort.
   */
  function BestIndex(xs: seq<Datum>, n: nat): (k: nat)
    requires 0 < n <= |xs|
    ensures k < n
  {
    if n == 1 then 0
    else
      var k := BestIndex(xs, n - 1);
      if DownloadCount(xs[n - 1]) > DownloadCount(xs[k]) then n - 1 else k
  }

  /** No hit among the first `n` counts more, and every earlier hit counts strictly less. */
  lemma {:induction false} BestIndexSpec(xs: seq<Datum>, n: nat)
    requires 0 < n <= |xs|
    ensures var k := BestIndex(xs, n);
      && (forall i :: 0 <= i < n ==> DownloadCount(xs[i]) <= DownloadCount(xs[k]))
      && (forall i :: 0 <= i < k ==> DownloadCount(xs[i]) < DownloadCount(xs[k]))
  {
    if n > 1 {
      BestIndexSpec(xs, n - 1);
    }
  }

  /** `OrderByDescending(DownloadCount).FirstOrDefault()`. */
  function FirstByCount(xs: seq<Datum>): Option<Datum> {
    if xs == [] then None else Some(xs[BestIndex(xs, |xs|)])
  }

  /** Holds when `d` is the earliest hit of `xs` with the largest download count. */
  predicate IsEarliestMax(xs: seq<Datum>, d: Datum) {
    exists k :: 0 <= k < |xs| && xs[k] == d
      && (forall i :: 0 <= i < |xs| ==> DownloadCount(xs[i]) <= DownloadCount(d))
      && (forall i :: 0 <= i < k ==> DownloadCount(xs[i]) < DownloadCount(d))
  }

  /** The first of the sorted hits is there exactly when there are hits, and is the earliest maximum. */
  lemma FirstByCountSpec(xs: seq<Datum>)
    ensures FirstByCount(xs).None? <==> xs == []
    ensures FirstByCount(xs).Some? ==> IsEarliestMax(xs, FirstByCount(xs).value)
  {
    if xs != [] {
      var k := BestIndex(xs, |xs|);
      BestIndexSpec(xs, |xs|);
      assert 0 <= k < |xs| && xs[k] == FirstByCount(xs).value;
    }
  }

  /** The earliest maximum is unique, so it is an independent description of the choice. */
  lemma EarliestMaxUnique(xs: seq<Datum>, d: Datum, e: Datum)
    requires IsEarliestMax(xs, d) && IsEarliestMax(xs, e)
    ensures d == e
  {
    var k :| 0 <= k < |xs| && xs[k] == d
      && (forall i :: 0 <= i < |xs| ==> DownloadCount(xs[i]) <= DownloadCount(d))
      && (forall i :: 0 <= i < k ==> DownloadCount(xs[i]) < DownloadCount(d));
    var m :| 0 <= m < |xs| && xs[m] == e
      && (forall i :: 0 <= i < |xs| ==> DownloadCount(xs[i]) <= DownloadCount(e))
      && (forall i :: 0 <= i < m ==> DownloadCount(xs[i]) < DownloadCount(e));
    assert k == m;
  }

  /**
   * The hit `SearchSubtitlesAsync` keeps: the first of the trusted hits sorted by download
   * count, or, when none is trusted, the first of all hits so sorted; nothing when `data` is
   * `null`.
   */
  function Choose(data: Option<seq<Datum>>): (r: Option<Datum>)
    ensures r.None? <==> data.None? || data.value == []
    ensures r.Some? ==> r.value in data.value
    ensures r.Some? ==> (IsTrusted(r.value) <==> exists d :: d in data.value && IsTrusted(d))
  {
    if data.None? then None
    else
      var trusted := Trusted(data.value);
      TrustedSpec(data.value);
      if trusted != [] then
        FirstByCountSpec(trusted);
        assert FirstByCount(trusted).value in trusted;
        FirstByCount(trusted)
      else
        FirstByCountSpec(data.value);
        FirstByCount(data.value)
  }

  /** The result returned: at most the one chosen hit, with the counts saying whether there is one. */
  function Wrap(first: Option<Datum>): (r: SubtitleSearchResult)
    ensures r.data == (if first.Some? then [first.value] else [])
    ensures r.totalCount == |r.data| && r.totalPages == |r.data|
    ensures r.page == 1 && r.perPage == 1
  {
    var n := if first.Some? then 1 else 0;
    SubtitleSearchResult(n, n, 1, 1, if first.Some? then [first.value] else [])
  }

  /**
   * When some hit is trusted, the chosen hit is trusted, counts at least as much as every
   * trusted hit, and is the earliest trusted hit that does.
   */
  lemma ChooseTrusted(data: seq<Datum>)
    requires exists d :: d in data && IsTrusted(d)
    ensures var c := Choose(Some(data));
      && c.Some? && c.value in data && IsTrusted(c.value)
      && (forall d :: d in data && IsTrusted(d) ==> DownloadCount(d) <= DownloadCount(c.value))
      && IsEarliestMax(Trusted(data), c.value)
  {
    var trusted := Trusted(data);
    TrustedSpec(data);
    var w :| w in data && IsTrusted(w);
    assert w in trusted;
    FirstByCountSpec(trusted);
    var c := FirstByCount(trusted).value;
    forall d | d in data && IsTrusted(d)
      ensures DownloadCount(d) <= DownloadCount(c)
    {
      assert d in trusted;
      var j :| 0 <= j < |trusted| && trusted[j] == d;
    }
  }

  /** When no hit is trusted, the chosen hit is the earliest of all with the largest count. */
  lemma ChooseUntrusted(data: seq<Datum>)
    requires forall d :: d in data ==> !IsTrusted(d)
    ensures var c := Choose(Some(data));
      && (c.None? <==> data == [])
      && (c.Some? ==> IsEarliestMax(data, c.value))
  {
    TrustedSpec(data);
    if Trusted(data) != [] {
      assert Trusted(data)[0] in Trusted(data);
    }
    FirstByCountSpec(data);
  }

  // ---------------------------------------------------------------------------
  // Downloads

  /** `DownloadFile`'s target: `"{newFilePath}/{newFileName}.srt"`. */
  function SrtTarget(newFilePath: string, newFileName: string): string {
    newFilePath + "/" + newFileName + ".srt"
  }

  /**
   * The target is a `.srt` file; when the new name holds no separator it is that file's
   * name, so the file is written in the folder `newFilePath`.
   */
  lemma SrtTargetShape(newFilePath: string, newFileName: string)
    ensures GetExtension(SrtTarget(newFilePath, newFileName)) == ".srt"
    ensures !HasSeparator(newFileName) ==>
      && GetFileName(SrtTarget(newFilePath, newFileName)) == newFileName + ".srt"
      && GetFileNameWithoutExtension(SrtTarget(newFilePath, newFileName)) == newFileName
      && SrtTarget(newFilePath, newFileName)[..|newFilePath| + 1] == newFilePath + "/"
  {
    var p := SrtTarget(newFilePath, newFileName);
    LastDotOfSuffix(newFilePath + "/" + newFileName, ".srt");
    if !HasSeparator(newFileName) {
      var name := newFileName + ".srt";
      assert p == newFilePath + "/" + name;
      assert !HasSeparator(name) by {
        forall j | 0 <= j < |name|
          ensures !IsDirectorySeparator(name[j])
        {
          if j < |newFileName| {
            assert name[j] == newFileName[j];
          }
        }
      }
      FileNameAfterSeparator(newFilePath, name);
      LastDotOfSuffix(newFileName, ".srt");
      assert name[..|newFileName|] == newFileName;
    }
  }

  /** The file name of `dir/name` is `name` when `name` holds no separator. */
  lemma FileNameAfterSeparator(dir: string, name: string)
    requires !HasSeparator(name)
    ensures GetFileName(dir + "/" + name) == name
  {
    var p := dir + "/" + name;
    var r := GetFileName(p);
    assert p[|p| - |name| - 1] == '/';
    assert forall j :: 0 <= j < |name| ==> p[|p| - |name| + j] == name[j];
    assert |r| == |name|;
    assert r == p[|p| - |name|..] == name;
  }

  /** `DownloadFile`: the bytes behind the link, written to the target; a failed fetch throws. */
  function DownloadFile(fetched: Option<seq<bv8>>, newFileName: string, newFilePath: string): (r: Result<Written>)
    ensures r.Ok? <==> fetched.Some?
    ensures r.Ok? ==> r.value == Written(SrtTarget(newFilePath, newFileName), fetched.value)
  {
    if fetched.None? then Err("Download failed")
    else Ok(Written(SrtTarget(newFilePath, newFileName), fetched.value))
  }

  // ---------------------------------------------------------------------------
  // The service

  /**
   * `SearchSubtitlesAsync` once the token step is behind it: a `null` title answers `null`,
   * a failed search throws, and otherwise the chosen hit is wrapped.
   */
  function SearchAfterToken(title: Option<string>, search: string -> SearchReply): (r: Result<Option<SubtitleSearchResult>>)
    ensures r == Ok(None) <==> title.None?
    ensures title.Some? ==> (r.Err? <==> search(title.value).SearchFailed?)
    ensures r.Ok? && title.Some? ==> r.value.value == Wrap(Choose(search(title.value).data))
  {
    if title.None? then Ok(None)
    else
      var reply := search(title.value);
      if reply.SearchFailed? then Err(SearchFailure)
      else Ok(Some(Wrap(Choose(reply.data))))
  }

  /** Every search that answers holds at most one hit, and its counts say how many. */
  lemma SearchShape(title: Option<string>, search: string -> SearchReply)
    ensures var r := SearchAfterToken(title, search);
      && (r == Ok(None) <==> title.None?)
      && (title.Some? ==>
            var reply := search(title.value);
            && (r.Err? <==> reply.SearchFailed?)
            && (r.Ok? ==>
                  var s := r.value.value;
                  && |s.data| <= 1 && s.totalCount == |s.data| && s.totalPages == |s.data|
                  && s.page == 1 && s.perPage == 1
                  && (s.data == [] <==> reply.data.None? || reply.data.value == [])
                  && (s.data != [] ==> s.data[0] in reply.data.value)))
  {
    if title.Some? && search(title.value).SearchBody? && search(title.value).data.Some? {
      var data := search(title.value).data.value;
      TrustedSpec(data);
      var trusted := Trusted(data);
      if trusted != [] {
        FirstByCountSpec(trusted);
        var c := FirstByCount(trusted).value;
        assert c in trusted;
      } else {
        FirstByCountSpec(data);
      }
    }
  }

  class OpenSubtitlesService {
    const loginReply: TokenReply
    const searchReply: string -> SearchReply
    const downloadReply: string -> DownloadReply
    const fetch: string -> Option<seq<bv8>>
    /** The bearer token; `null` until a login stores one. */
    var token: Option<string>

    constructor(loginReply: TokenReply, searchReply: string -> SearchReply,
                downloadReply: string -> DownloadReply, fetch: string -> Option<seq<bv8>>)
      ensures this.loginReply == loginReply && this.searchReply == searchReply
      ensures this.downloadReply == downloadReply && this.fetch == fetch
      ensures token == None
    {
      this.loginReply := loginReply;
      this.searchReply := searchReply;
      this.downloadReply := downloadReply;
      this.fetch := fetch;
      token := None;
    }

    /** A login gets through when its status is a success and the body's `Status` is `"200"`. */
    predicate LoginSucceeds()
      reads this
    {
      loginReply.TokenBody? && loginReply.status == Some("200")
    }

    /**
     * `GetToken`: a failed status, or a body whose `Status` is not `"200"`, throws and leaves
     * the token alone; otherwise the body's token, possibly `null`, is stored and returned.
     */
    method GetToken() returns (r: Result<Option<string>>)
      modifies this
      ensures r.Ok? <==> LoginSucceeds()
      ensures r.Ok? ==> r.value == loginReply.token && token == loginReply.token
      ensures r.Err? ==> token == old(token)
    {
      if loginReply.TokenFailed? {
        return Err(TokenFailure);
      }
      if loginReply.status != Some("200") {
        return Err("There was an issue retrieving the token");
      }
      token := loginReply.token;
      r := Ok(token);
    }

    /**
     * `SearchSubtitlesAsync`: log in first when there is no token (a login that throws ends
     * the call), then search.
     */
    method SearchSubtitles(title: Option<string>) returns (r: Result<Option<SubtitleSearchResult>>)
      modifies this
      ensures old(token).Some? ==> token == old(token) && r == SearchAfterToken(title, searchReply)
      ensures old(token).None? && !LoginSucceeds() ==> token == None && r.Err?
      ensures old(token).None? && LoginSucceeds() ==>
        token == loginReply.token && r == SearchAfterToken(title, searchReply)
    {
      if token.None? {
        var t := GetToken();
        if t.Err? {
          return Err(t.reason);
        }
      }
      if title.None? {
        return Ok(None);
      }
      var reply := searchReply(title.value);
      if reply.SearchFailed? {
        return Err(SearchFailure);
      }
      var first := Choose(reply.data);
      r := Ok(Some(Wrap(first)));
    }

    /**
     * `DownloadSubtitle`: a failed status or an empty link writes nothing; otherwise the file
     * behind the link is written next to the renamed video.
     */
    function DownloadSubtitle(subtitleId: string, newFileName: string, filePath: string): (r: Result<Option<Written>>)
      ensures r.Ok? && r.value.Some? <==>
        && downloadReply(subtitleId).DownloadBody?
        && downloadReply(subtitleId).link.Some? && downloadReply(subtitleId).link.value != []
        && fetch(downloadReply(subtitleId).link.value).Some?
      ensures r.Ok? && r.value.Some? ==> r.value.value.path == SrtTarget(filePath, newFileName)
      ensures r.Ok? && r.value.Some? ==> r.value.value.bytes == fetch(downloadReply(subtitleId).link.value).value
      ensures r.Err? <==>
        && downloadReply(subtitleId).DownloadBody?
        && downloadReply(subtitleId).link.Some? && downloadReply(subtitleId).link.value != []
        && fetch(downloadReply(subtitleId).link.value).None?
    {
      var reply := downloadReply(subtitleId);
      if reply.DownloadFailed? || reply.link.None? || reply.link.value == [] then Ok(None)
      else
        var written := DownloadFile(fetch(reply.link.value), newFileName, filePath);
        if written.Err? then Err(written.reason) else Ok(Some(written.value))
    }
  }
}
