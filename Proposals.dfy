/**
 * What `ProposeChangesAsync` proposes for a directory listing: the video files among the
 * listing, in order, each turned into a title by `ConstructTitle` and then into a proposed
 * file name, until a file throws.
 */
module Proposals {
  import opened Common
  import opened Text
  import opened Paths
  import opened Patterns
  import opened TvDb

  /** A `ProposedChangeModel`; `Season` and `Episode` are never set and are left out. */
  datatype ProposedChange = ProposedChange(
    originalFilePath: string,
    originalFileName: string,
    proposedFileName: string,
    fileType: MediaType)

  /** What one file contributes: a proposal, nothing, or an exception that ends the scan. */
  datatype Step = Propose(change: ProposedChange) | Skip | Abort

  const AllowedExtensions: seq<string> := [".mp4", ".mkv", ".avi"]

  /** The extension, lower-cased, is one of the three video extensions. */
  predicate IsVideoFile(file: string) {
    Lower(GetExtension(file)) in AllowedExtensions
  }

  /** The `Where` over `Directory.GetFiles`: the video files, in listing order. */
  function VideoFiles(listing: seq<string>): (files: seq<string>)
    ensures IsSubsequence(files, listing)
    ensures forall f :: f in files <==> f in listing && IsVideoFile(f)
  {
    if listing == [] then []
    else
      var rest := VideoFiles(listing[1..]);
      if IsVideoFile(listing[0]) then [listing[0]] + rest else rest
  }

  /** The name `ConstructTitle` is given: the file name without extension, dots made spaces. */
  function TitleInput(file: string): string {
    ReplaceAll(GetFileNameWithoutExtension(file), ".", " ")
  }

  /**
   * The file's title reaches the web service: `ConstructTitle` looks a series up, and a
   * movie title is looked up next; so `EnsureTokenAsync` runs for it.
   */
  predicate UsesCatalog(file: string) {
    FindStandaloneYear(TitleInput(file), 0).Some? || FirstPatternMatch(EpisodePatterns, TitleInput(file)).Some?
  }

  /** One of the first `n` files reaches the web service. */
  predicate SomeUseCatalog(files: seq<string>, n: nat)
    requires n <= |files|
  {
    exists j :: 0 <= j < n && UsesCatalog(files[j])
  }

  /** One of the first `n` files satisfies `p`, counted one file at a time. */
  predicate SomeOf(p: string -> bool, files: seq<string>, n: nat)
    requires n <= |files|
  {
    n > 0 && (SomeOf(p, files, n - 1) || p(files[n - 1]))
  }

  /** `UsesCatalog` as a value, for counting the files of a scan that reach the web service. */
  function CatalogUse(): string -> bool {
    file => UsesCatalog(file)
  }

  lemma {:induction false} SomeOfCatalogUse(files: seq<string>, n: nat)
    requires n <= |files|
    ensures SomeOf(CatalogUse(), files, n) <==> SomeUseCatalog(files, n)
  {
    if n > 0 {
      SomeOfCatalogUse(files, n - 1);
      var f := files[n - 1];
      assert CatalogUse()(f) == UsesCatalog(f);
      if SomeUseCatalog(files, n) && !SomeUseCatalog(files, n - 1) {
        var j :| 0 <= j < n && UsesCatalog(files[j]);
        assert j == n - 1;
      }
      if UsesCatalog(f) {
        assert 0 <= n - 1 < n && UsesCatalog(files[n - 1]);
      }
    }
  }

  /** `$"{Name} ({Year}){ext}"`, an absent name or year printing as nothing. */
  function MovieFileName(d: MovieData, ext: string): string {
    OrEmpty(d.name) + " (" + OrEmpty(d.year) + ")" + ext
  }

  /**
   * The movie branch: look the title up, `int.Parse` its id (a missing or non-numeric id
   * throws), fetch the details (a `null` body throws), and propose only when `Data` is there.
   * The original file name of a movie proposal is the whole path.
   */
  function MovieStep(cat: Catalog, authorized: bool, file: string, name: string): (r: Step)
    ensures r.Propose? ==> r.change.originalFilePath == file && r.change.originalFileName == file
                           && r.change.fileType == Movie
    ensures r.Propose? <==> CatalogMovie(cat, authorized, name).Some?
    ensures r.Propose? ==>
      r.change.proposedFileName == MovieFileName(CatalogMovie(cat, authorized, name).value, GetExtension(file))
    ensures r == Abort <==> !MovieFound(cat, authorized, name)
  {
    var lookup := IdFor(cat, name, MovieLookup, authorized);
    if lookup.Err? || lookup.value.id.None? then Abort
    else
      var parsed := TryParseInt(lookup.value.id.value);
      if parsed.None? then Abort
      else
        match cat.movie(parsed.value)
        case MovieNull => Abort
        case MovieBody(data) =>
          if data.None? then Skip
          else Propose(ProposedChange(file, file, MovieFileName(data.value, GetExtension(file)), Movie))
  }

  /**
   * The id a movie lookup finds for `name` parses as a 32-bit number, and the catalog's
   * movie with that number has a body: otherwise the lookup, `int.Parse` or the details
   * request throws.
   */
  predicate MovieFound(cat: Catalog, authorized: bool, name: string) {
    var lookup := IdFor(cat, name, MovieLookup, authorized);
    && lookup.Ok? && lookup.value.id.Some?
    && TryParseInt(lookup.value.id.value).Some?
    && cat.movie(TryParseInt(lookup.value.id.value).value).MovieBody?
  }

  /** The `Data` of the catalog's movie for `name`, when the lookup gets that far. */
  function CatalogMovie(cat: Catalog, authorized: bool, name: string): Option<MovieData> {
    if MovieFound(cat, authorized, name) then
      cat.movie(TryParseInt(IdFor(cat, name, MovieLookup, authorized).value.id.value).value).data
    else None
  }

  /**
   * One file of the loop. A series title always carries its `SxxEyy` tag (lemma
   * `SeriesTitleHasTag`), so the shortcut that proposes `"{name}{ext}"` is the only series
   * branch that can run; an unknown title proposes nothing.
   */
  function FileStep(cat: Catalog, authorized: bool, file: string): (r: Step)
    ensures r.Propose? ==> r.change.originalFilePath == file && r.change.fileType != Unknown
  {
    var t := TitleFor(cat, TitleInput(file), authorized);
    if t.Err? then Abort
    else
      match t.value.kind
      case Series => Propose(ProposedChange(file, GetFileName(file), t.value.name + GetExtension(file), Series))
      case Movie => MovieStep(cat, authorized, file, t.value.name)
      case Unknown => Skip
  }

  function FileSteps(cat: Catalog, authorized: bool): string -> Step {
    file => FileStep(cat, authorized, file)
  }

  /** A proposal `step` makes for a file is for that file. */
  ghost predicate KeepsPath(step: string -> Step) {
    forall f :: step(f).Propose? ==> step(f).change.originalFilePath == f
  }

  /** The proposals `step` makes for `files`, in order, up to the first file that throws. */
  function Proposals(step: string -> Step, files: seq<string>): seq<ProposedChange> {
    if files == [] then []
    else
      match step(files[0])
      case Abort => []
      case Skip => Proposals(step, files[1..])
      case Propose(p) => [p] + Proposals(step, files[1..])
  }

  /** How many of `files` the scan looks at: up to and including the first that throws. */
  function Scanned(step: string -> Step, files: seq<string>): (n: nat)
    ensures n <= |files|
    ensures forall j :: 0 <= j < n - 1 ==> !step(files[j]).Abort?
    ensures n < |files| ==> 0 < n && step(files[n - 1]).Abort?
  {
    if files == [] then 0
    else if step(files[0]).Abort? then 1
    else 1 + Scanned(step, files[1..])
  }

  /**
   * `ProposeChangesAsync`: nothing when either directory is missing; otherwise each proposal
   * is what its own file, one of the listed video files, makes.
   */
  function ProposeChanges(cat: Catalog, authorized: bool, sourceExists: bool, destinationExists: bool,
                          listing: seq<string>): (r: seq<ProposedChange>)
    ensures !sourceExists || !destinationExists ==> r == []
    ensures AllProposedFor(cat, authorized, listing, r)
  {
    if !sourceExists || !destinationExists then []
    else
      var ps := Proposals(FileSteps(cat, authorized), VideoFiles(listing));
      EachProposalIsItsStep(cat, authorized, listing);
      ps
  }

  /** Each of `ps` is what one of the listed video files makes. */
  predicate AllProposedFor(cat: Catalog, authorized: bool, listing: seq<string>, ps: seq<ProposedChange>) {
    forall i :: 0 <= i < |ps| ==>
      ps[i].originalFilePath in listing && IsVideoFile(ps[i].originalFilePath)
      && FileStep(cat, authorized, ps[i].originalFilePath) == Propose(ps[i])
  }

  lemma EachProposalIsItsStep(cat: Catalog, authorized: bool, listing: seq<string>)
    ensures AllProposedFor(cat, authorized, listing, Proposals(FileSteps(cat, authorized), VideoFiles(listing)))
  {
    var files := VideoFiles(listing);
    var step := FileSteps(cat, authorized);
    var ps := Proposals(step, files);
    forall f | step(f).Propose?
      ensures step(f).change.originalFilePath == f
    {
      assert step(f) == FileStep(cat, authorized, f);
    }
    forall i | 0 <= i < |ps|
      ensures ps[i].originalFilePath in listing && IsVideoFile(ps[i].originalFilePath)
        && FileStep(cat, authorized, ps[i].originalFilePath) == Propose(ps[i])
    {
      ProposalsAreSteps(step, files, i);
    }
  }

  // ---------------------------------------------------------------------------
  // Properties

  function FilePaths(ps: seq<ProposedChange>): (r: seq<string>)
    ensures |r| == |ps| && forall i :: 0 <= i < |ps| ==> r[i] == ps[i].originalFilePath
  {
    if ps == [] then [] else [ps[0].originalFilePath] + FilePaths(ps[1..])
  }

  /** Each proposal is for a different file, in the order of the files: their paths are a subsequence. */
  lemma {:induction false} ProposalsFollowFiles(step: string -> Step, files: seq<string>)
    requires KeepsPath(step)
    ensures IsSubsequence(FilePaths(Proposals(step, files)), files)
  {
    if files != [] {
      var ps := Proposals(step, files);
      ProposalsFollowFiles(step, files[1..]);
      match step(files[0])
      case Abort =>
      case Skip =>
      case Propose(p) =>
        assert ps[1..] == Proposals(step, files[1..]);
        assert FilePaths(ps)[1..] == FilePaths(ps[1..]);
    }
  }

  /** Every proposal is for a file that was proposed for by its own step. */
  lemma {:induction false} ProposalsAreSteps(step: string -> Step, files: seq<string>, i: nat)
    requires KeepsPath(step) && i < |Proposals(step, files)|
    ensures var p := Proposals(step, files)[i];
      p.originalFilePath in files && step(p.originalFilePath) == Propose(p)
  {
    var ps := Proposals(step, files);
    match step(files[0])
    case Abort =>
    case Skip =>
      ProposalsAreSteps(step, files[1..], i);
    case Propose(p) =>
      if i > 0 {
        ProposalsAreSteps(step, files[1..], i - 1);
        assert ps[i] == Proposals(step, files[1..])[i - 1];
      }
  }

  /**
   * Only video files of the listing are proposed for, in listing order, at most once each,
   * and only when both directories exist.
   */
  lemma OnlyVideoFiles(cat: Catalog, authorized: bool, sourceExists: bool, destinationExists: bool,
                       listing: seq<string>)
    ensures var ps := ProposeChanges(cat, authorized, sourceExists, destinationExists, listing);
      && IsSubsequence(FilePaths(ps), listing)
      && (forall i :: 0 <= i < |ps| ==> ps[i].originalFilePath in listing && IsVideoFile(ps[i].originalFilePath))
      && (!sourceExists || !destinationExists ==> ps == [])
  {
    var ps := ProposeChanges(cat, authorized, sourceExists, destinationExists, listing);
    if sourceExists && destinationExists {
      var files := VideoFiles(listing);
      var step := FileSteps(cat, authorized);
      forall f | step(f).Propose?
        ensures step(f).change.originalFilePath == f
      {
        assert step(f) == FileStep(cat, authorized, f);
      }
      ProposalsFollowFiles(step, files);
      SubsequenceTransitive(FilePaths(ps), files, listing);
      forall i | 0 <= i < |ps|
        ensures ps[i].originalFilePath in listing && IsVideoFile(ps[i].originalFilePath)
      {
        ProposalsAreSteps(step, files, i);
      }
    }
  }

  /** A proposal made by a file that no earlier file stops the scan before is in the answer. */
  lemma {:induction false} ProposalsComplete(step: string -> Step, files: seq<string>, k: nat)
    requires k < |files| && step(files[k]).Propose?
    requires forall j :: 0 <= j < k ==> !step(files[j]).Abort?
    ensures step(files[k]).change in Proposals(step, files)
  {
    if k > 0 {
      assert !step(files[0]).Abort?;
      assert files[1..][k - 1] == files[k];
      ProposalsComplete(step, files[1..], k - 1);
    }
  }

  /**
   * When both directories exist, every proposal a video file makes is in the answer unless
   * an earlier video file throws.
   */
  lemma ProposeChangesComplete(cat: Catalog, authorized: bool, listing: seq<string>, k: nat)
    requires var files := VideoFiles(listing);
      && k < |files| && FileStep(cat, authorized, files[k]).Propose?
      && forall j :: 0 <= j < k ==> !FileStep(cat, authorized, files[j]).Abort?
    ensures FileStep(cat, authorized, VideoFiles(listing)[k]).change in ProposeChanges(cat, authorized, true, true, listing)
  {
    var files := VideoFiles(listing);
    var step := FileSteps(cat, authorized);
    assert forall j :: 0 <= j < k ==> step(files[j]) == FileStep(cat, authorized, files[j]);
    ProposalsComplete(step, files, k);
  }

  /**
   * A movie title whose catalog entry has its `Data` is proposed under the whole path, as
   * `"{Name} ({Year}){ext}"` from that data.
   */
  lemma MovieProposal(cat: Catalog, authorized: bool, file: string)
    requires var t := TitleFor(cat, TitleInput(file), authorized);
      t.Ok? && t.value.kind == Movie && CatalogMovie(cat, authorized, t.value.name).Some?
    ensures var d := CatalogMovie(cat, authorized, TitleFor(cat, TitleInput(file), authorized).value.name).value;
      FileStep(cat, authorized, file) == Propose(ProposedChange(file, file, MovieFileName(d, GetExtension(file)), Movie))
  {
  }

  /** A file that throws ends the scan: what was proposed before it is the whole answer. */
  lemma {:induction false} AbortKeepsEarlier(step: string -> Step, files: seq<string>, k: nat)
    requires k < |files| && step(files[k]) == Abort
    ensures Proposals(step, files) == Proposals(step, files[..k])
  {
    if k > 0 {
      AbortKeepsEarlier(step, files[1..], k - 1);
      assert files[..k][1..] == files[1..][..k - 1];
    }
  }

  /** Files that do not throw contribute their proposals one after the other. */
  lemma {:induction false} ProposalsAppend(step: string -> Step, a: seq<string>, b: seq<string>)
    requires forall f :: f in a ==> step(f) != Abort
    ensures Proposals(step, a + b) == Proposals(step, a) + Proposals(step, b)
  {
    if a == [] {
      assert a + b == b;
    } else {
      assert a[0] in a;
      assert (a + b)[0] == a[0];
      assert (a + b)[1..] == a[1..] + b;
      ProposalsAppend(step, a[1..], b);
    }
  }

  lemma TagSurvivesAppend(s: string, t: string)
    requires HasCanonicalTag(s)
    ensures HasCanonicalTag(s + t)
  {
    var i :| 0 <= i < |s| && CanonicalTagAt(s, i);
    assert (s + t)[i + 1..i + 3] == s[i + 1..i + 3];
    assert (s + t)[i + 4..i + 6] == s[i + 4..i + 6];
    assert CanonicalTagAt(s + t, i);
  }

  /**
   * A series file is proposed as its title followed by its extension, under its file name,
   * and that proposed name carries the `SxxEyy` tag the shortcut looks for.
   */
  lemma SeriesProposal(cat: Catalog, authorized: bool, file: string)
    requires var t := TitleFor(cat, TitleInput(file), authorized); t.Ok? && t.value.kind == Series
    ensures var t := TitleFor(cat, TitleInput(file), authorized);
      var p := ProposedChange(file, GetFileName(file), t.value.name + GetExtension(file), Series);
      FileStep(cat, authorized, file) == Propose(p) && HasCanonicalTag(p.proposedFileName)
  {
    var t := TitleFor(cat, TitleInput(file), authorized);
    SeriesTitleHasTag(cat, TitleInput(file), authorized);
    TagSurvivesAppend(t.value.name, GetExtension(file));
  }

  /** Every proposal keeps the file's path and is named as its kind prescribes. */
  lemma ProposalShape(cat: Catalog, authorized: bool, file: string)
    requires FileStep(cat, authorized, file).Propose?
    ensures var p := FileStep(cat, authorized, file).change;
      var ext := GetExtension(file);
      && p.originalFilePath == file
      && (p.fileType == Series ==>
            p.originalFileName == GetFileName(file)
            && p.proposedFileName == TitleFor(cat, TitleInput(file), authorized).value.name + ext)
      && (p.fileType == Movie ==>
            var d := CatalogMovie(cat, authorized, TitleFor(cat, TitleInput(file), authorized).value.name);
            p.originalFileName == file && d.Some? && p.proposedFileName == MovieFileName(d.value, ext))
      && p.fileType != Unknown
  {
    var t := TitleFor(cat, TitleInput(file), authorized);
    var ext := GetExtension(file);
    assert t.Ok?;
    match t.value.kind
    case Series =>
      assert FileStep(cat, authorized, file) == Propose(ProposedChange(file, GetFileName(file), t.value.name + ext, Series));
    case Movie =>
      MovieShape(cat, authorized, file, t.value.name, FileStep(cat, authorized, file));
    case Unknown =>
      UnknownSkipped(cat, authorized, file);
      assert false;
  }

  /** The movie half of `ProposalShape`, for the step `MovieStep` makes. */
  lemma MovieShape(cat: Catalog, authorized: bool, file: string, name: string, r: Step)
    requires r == MovieStep(cat, authorized, file, name) && r.Propose?
    ensures var d := CatalogMovie(cat, authorized, name);
      && r.change.originalFilePath == file && r.change.originalFileName == file && r.change.fileType == Movie
      && d.Some? && r.change.proposedFileName == MovieFileName(d.value, GetExtension(file))
  {
  }

  /** Every proposed name ends with the extension of the file it is for. */
  lemma ProposalKeepsExtension(cat: Catalog, authorized: bool, file: string)
    requires FileStep(cat, authorized, file).Propose?
    ensures var name := FileStep(cat, authorized, file).change.proposedFileName;
      var ext := GetExtension(file);
      |ext| <= |name| && name[|name| - |ext|..] == ext
  {
    ProposalShape(cat, authorized, file);
    var p := FileStep(cat, authorized, file).change;
    var ext := GetExtension(file);
    var name := TitleFor(cat, TitleInput(file), authorized).value.name;
    if p.fileType == Series {
      EndsWith(name, ext);
    } else {
      MovieFileNameEndsWith(CatalogMovie(cat, authorized, name).value, ext);
    }
  }

  lemma MovieFileNameEndsWith(d: MovieData, ext: string)
    ensures |ext| <= |MovieFileName(d, ext)| && MovieFileName(d, ext)[|MovieFileName(d, ext)| - |ext|..] == ext
  {
    EndsWith(OrEmpty(d.name) + " (" + OrEmpty(d.year) + ")", ext);
  }

  lemma EndsWith(a: string, b: string)
    ensures |b| <= |a + b| && (a + b)[|a + b| - |b|..] == b
  {
    assert (a + b)[|a|..] == b;
  }

  /** A title that is neither a movie nor a series proposes nothing and does not end the scan. */
  lemma UnknownSkipped(cat: Catalog, authorized: bool, file: string)
    requires var t := TitleFor(cat, TitleInput(file), authorized); t.Ok? && t.value.kind == Unknown
    ensures FileStep(cat, authorized, file) == Skip
  {
  }
}
