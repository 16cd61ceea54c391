/**
 * `FileRenamingService`: the two public operations, written as the source writes them, a
 * loop over the files proposing names and a loop over the confirmed changes moving files,
 * each proved equal to the function that specifies it in `Proposals` and `Executor`.
 */
module Renaming {
  import opened Common
  import opened Text
  import opened Paths
  import opened Patterns
  import opened TvDb
  import opened FileNames
  import opened Proposals
  import opened Executor

  class FileRenamingService {
    const tvDb: TvDbService

    constructor(tvDb: TvDbService)
      ensures this.tvDb == tvDb
    {
      this.tvDb := tvDb;
    }

    /** The body of the `foreach` of `ProposeChangesAsync` for one file. */
    method ProcessFile(file: string) returns (step: Step)
      modifies tvDb
      ensures step == FileStep(tvDb.catalog, old(tvDb.Authorized()), file)
      ensures tvDb.Authorized() == old(tvDb.Authorized())
      ensures tvDb.token == if CatalogUse()(file) then LoggedIn(old(tvDb.token), tvDb.login) else old(tvDb.token)
    {
      assert CatalogUse()(file) == UsesCatalog(file);
      var fileName := ReplaceAll(GetFileNameWithoutExtension(file), ".", " ");
      var fileExtension := GetExtension(file);
      ghost var authorized := tvDb.Authorized();
      var title := tvDb.ConstructTitle(fileName);
      if title.Err? {
        return Abort;
      }
      var name := title.value.name;
      var isFormattedCorrectly := HasCanonicalTag(name);
      if title.value.kind == Series && isFormattedCorrectly {
        step := Propose(ProposedChange(file, GetFileName(file), name + fileExtension, Series));
      } else if title.value.kind == Movie {
        var lookup := tvDb.GetTvdbId(name, MovieLookup);
        // `int.Parse` throws on a missing or non-numeric id.
        if lookup.Err? || lookup.value.id.None? {
          return Abort;
        }
        var id := TryParseInt(lookup.value.id.value);
        if id.None? {
          return Abort;
        }
        var details := tvDb.GetMovieDetails(id.value);
        if details.Err? {
          return Abort;
        }
        if details.value.None? {
          return Skip;
        }
        step := Propose(ProposedChange(file, file, MovieFileName(details.value.value, fileExtension), Movie));
      } else {
        if title.value.kind == Series {
          // The series branch that looks the episode up never runs: every series title
          // carries its tag.
          SeriesTitleHasTag(tvDb.catalog, fileName, authorized);
          assert false;
        }
        step := Skip;
      }
    }

    /**
     * `ProposeChangesAsync`: a missing directory, or a file that throws, ends the scan with
     * what was proposed so far. The token is the login's once a file the scan looked at
     * reached the web service.
     */
    method ProposeChanges(sourceExists: bool, destinationExists: bool, listing: seq<string>)
      returns (proposed: seq<ProposedChange>)
      modifies tvDb
      ensures proposed == Proposals.ProposeChanges(tvDb.catalog, old(tvDb.Authorized()),
                                                   sourceExists, destinationExists, listing)
      ensures tvDb.Authorized() == old(tvDb.Authorized())
      ensures var files := VideoFiles(listing);
        var n := Scanned(FileSteps(tvDb.catalog, old(tvDb.Authorized())), files);
        tvDb.token == if sourceExists && destinationExists && SomeUseCatalog(files, n)
                      then LoggedIn(old(tvDb.token), tvDb.login) else old(tvDb.token)
    {
      proposed := [];
      if !sourceExists || !destinationExists {
        return;
      }
      var files := VideoFiles(listing);
      proposed := ScanFiles(files);
      SomeOfCatalogUse(files, Scanned(FileSteps(tvDb.catalog, old(tvDb.Authorized())), files));
    }

    /** The `foreach` of `ProposeChangesAsync` over the video files. */
    method ScanFiles(files: seq<string>) returns (proposed: seq<ProposedChange>)
      modifies tvDb
      ensures proposed == Proposals.Proposals(FileSteps(tvDb.catalog, old(tvDb.Authorized())), files)
      ensures tvDb.Authorized() == old(tvDb.Authorized())
      ensures tvDb.token == if SomeOf(CatalogUse(), files, Scanned(FileSteps(tvDb.catalog, old(tvDb.Authorized())), files))
                            then LoggedIn(old(tvDb.token), tvDb.login) else old(tvDb.token)
    {
      proposed := [];
      ghost var step := FileSteps(tvDb.catalog, tvDb.Authorized());
      ghost var t0 := tvDb.token;
      ghost var touched := false;
      ghost var uses := CatalogUse();
      var i := 0;
      assert files[0..] == files;
      while i < |files|
        invariant 0 <= i <= |files|
        invariant tvDb.Authorized() == old(tvDb.Authorized())
        invariant Proposals.Proposals(step, files) == proposed + Proposals.Proposals(step, files[i..])
        invariant Scanned(step, files) == i + Scanned(step, files[i..])
        invariant touched == SomeOf(uses, files, i)
        invariant tvDb.token == if touched then LoggedIn(t0, tvDb.login) else t0
      {
        LoggedInTwice(t0, tvDb.login);
        var s := ProcessFile(files[i]);
        touched := touched || uses(files[i]);
        assert s == step(files[i]);
        ScanNext(step, files, i, proposed);
        if s.Abort? {
          return;
        }
        if s.Propose? {
          proposed := proposed + [s.change];
        }
        i := i + 1;
      }
    }

    /**
     * `ExecuteRenamingAsync` over the list `changes` on the file system `fs`: the answer, the
     * files and the list as the method leaves them are those of `RenameAll`.
     */
    method ExecuteRenaming(changes: array<ConfirmedChange>, fs: FileSystem) returns (ok: bool)
      modifies changes, fs
      ensures var b := RenameAll(old(fs.State()), old(changes[..]));
        && ok == b.ok
        && fs.State() == b.disk
        && changes[..] == MappedUpTo(Aligned(old(changes[..])), b.reached)
    {
      AlignToFirst(changes);
      ok := RenameEach(changes, fs);
    }
  }

  /**
   * The `foreach` of `ExecuteRenamingAsync`: each change has its folder mapped in place, then
   * is applied against the mapped folder of the first change, until one throws.
   */
  method RenameEach(changes: array<ConfirmedChange>, fs: FileSystem) returns (ok: bool)
    modifies changes, fs
    ensures changes.Length == 0 ==> ok && fs.State() == old(fs.State()) && changes[..] == old(changes[..])
    ensures changes.Length > 0 ==>
      var b := RunChanges(old(fs.State()), old(changes[..]), MapDrive(old(changes[0].newFilePath)));
      && ok == b.ok
      && fs.State() == b.disk
      && changes[..] == MappedUpTo(old(changes[..]), b.reached)
  {
    ok := true;
    if changes.Length == 0 {
      return;
    }
    ghost var original := changes[..];
    ghost var start := fs.State();
    ghost var firstFolder := MapDrive(original[0].newFilePath);
    ghost var step := BatchStep(firstFolder);
    var i := 0;
    while i < changes.Length
      invariant 0 <= i <= changes.Length
      invariant changes[..] == MappedUpTo(original, i)
      invariant RunSteps(step, start, original[..i]) == Batch(fs.State(), true, i)
    {
      ghost var before := fs.State();
      MappedUpToStep(original, i);
      changes[i] := changes[i].(newFilePath := MapDrive(changes[i].newFilePath));
      assert changes[0].newFilePath == firstFolder;
      ok := ApplyOne(fs, changes[i], changes[0].newFilePath);
      assert step(before, original[i]) == ApplyChange(before, Mapped(original[i]), firstFolder);
      if !ok {
        RunStopsAtFailure(step, start, original, i);
        return;
      }
      RunSnoc(step, start, original, i);
      i := i + 1;
    }
    assert original[..i] == original;
  }

  /** Mapping the folder of change `i` in place extends the mapped prefix by one. */
  lemma MappedUpToStep(cs: seq<ConfirmedChange>, i: nat)
    requires i < |cs|
    ensures MappedUpTo(cs, i)[i := Mapped(MappedUpTo(cs, i)[i])] == MappedUpTo(cs, i + 1)
  {
  }

  /**
   * The scan after file `i`: it ends with what was proposed when the file throws, and
   * otherwise goes on with the file's proposal, if any, added.
   */
  lemma ScanNext(step: string -> Step, files: seq<string>, i: nat, proposed: seq<ProposedChange>)
    requires i < |files|
    requires Proposals.Proposals(step, files) == proposed + Proposals.Proposals(step, files[i..])
    requires Scanned(step, files) == i + Scanned(step, files[i..])
    ensures step(files[i]).Abort? ==> Proposals.Proposals(step, files) == proposed && Scanned(step, files) == i + 1
    ensures var next := if step(files[i]).Propose? then proposed + [step(files[i]).change] else proposed;
      !step(files[i]).Abort? ==>
        && Proposals.Proposals(step, files) == next + Proposals.Proposals(step, files[i + 1..])
        && Scanned(step, files) == i + 1 + Scanned(step, files[i + 1..])
  {
    assert files[i..][0] == files[i];
    assert files[i..][1..] == files[i + 1..];
    ProposalsAt(step, files, i);
    if step(files[i]).Propose? {
      AppendAssoc(proposed, [step(files[i]).change], Proposals.Proposals(step, files[i + 1..]));
    }
  }

  /** One more file of the scan: what it contributes, then the rest. */
  lemma ProposalsAt(step: string -> Step, files: seq<string>, i: nat)
    requires i < |files|
    ensures Proposals.Proposals(step, files[i..]) == match step(files[i])
      case Abort => []
      case Skip => Proposals.Proposals(step, files[i + 1..])
      case Propose(p) => [p] + Proposals.Proposals(step, files[i + 1..])
  {
    assert files[i..][0] == files[i];
    assert files[i..][1..] == files[i + 1..];
  }
}
