/**
 * What `ExecuteRenamingAsync` does to a batch of confirmed changes: it first points every
 * change at the first change's folders, then moves each video file (and an `.srt` beside
 * it) under its sanitised new name, and answers `false` as soon as a move throws.
 *
 * The disk is a set of file paths and a set of directory paths, compared as exact strings.
 */
module Executor {
  import opened Common
  import opened Text
  import opened Paths
  import opened FileNames
  import opened Proposals

  /** A `ConfirmedChangeModel`: `NewFilePath` is the destination folder. */
  datatype ConfirmedChange = ConfirmedChange(
    originalFilePath: string,
    newFilePath: string,
    originalFileName: string,
    newFileName: string)

  datatype Disk = Disk(files: set<string>, dirs: set<string>)

  /** `Directory.Exists`: trailing separators are ignored. */
  predicate DirectoryIn(disk: Disk, p: string) {
    DirectoryKey(p) in disk.dirs
  }

  /** The folder part of a path, separator included. */
  function ParentOf(p: string): string {
    p[..|p| - |GetFileName(p)|]
  }

  /**
   * `File.Move(src, dst)`: it throws (`None`) when there is no file at `src`, when a file or
   * a directory is already at `dst`, or when the folder of `dst` does not exist. A move of a
   * file onto its own path succeeds and changes nothing, as Windows' `MoveFile` does.
   */
  function MoveFile(disk: Disk, src: string, dst: string): (r: Option<Disk>)
    ensures r.Some? <==> src in disk.files
                         && (src == dst || (dst !in disk.files && !DirectoryIn(disk, dst)
                                            && DirectoryIn(disk, ParentOf(dst))))
    ensures r.Some? && src == dst ==> r.value == disk
    ensures r.Some? ==> r.value.dirs == disk.dirs && dst in r.value.files
                        && (src != dst ==> src !in r.value.files)
                        && |r.value.files| == |disk.files|
                        && forall f :: f != src && f != dst ==> (f in r.value.files <==> f in disk.files)
  {
    if src in disk.files && src == dst then Some(disk)
    else if src in disk.files && dst !in disk.files && !DirectoryIn(disk, dst) && DirectoryIn(disk, ParentOf(dst)) then
      var files := disk.files - {src} + {dst};
      assert disk.files - {src} + {dst} == (disk.files - {src}) + {dst};
      assert |disk.files - {src}| == |disk.files| - 1;
      Some(Disk(files, disk.dirs))
    else None
  }

  /** The disk as the service sees it; `Move` is `File.Move`. */
  class FileSystem {
    var files: set<string>
    var dirs: set<string>

    constructor(files: set<string>, dirs: set<string>)
      ensures State() == Disk(files, dirs)
    {
      this.files := files;
      this.dirs := dirs;
    }

    function State(): Disk
      reads this
    {
      Disk(files, dirs)
    }

    /** `File.Move`: `false` stands for the exception, which leaves the disk as it was. */
    method Move(src: string, dst: string) returns (ok: bool)
      modifies this
      ensures ok == MoveFile(old(State()), src, dst).Some?
      ensures State() == if ok then MoveFile(old(State()), src, dst).value else old(State())
    {
      ok := src in files
            && (src == dst || (dst !in files && !DirectoryIn(State(), dst) && DirectoryIn(State(), ParentOf(dst))));
      if ok && src != dst {
        files := files - {src} + {dst};
      }
    }
  }

  /** The share the drive `U:` is mapped to. */
  const Share: string := "\\\\10.0.0.164\\storage\\"

  /**
   * The drive `U:\` is replaced by the share it is mapped to: a path on `U:` then starts with
   * the share, and a path without a `U` is left as it is.
   */
  function MapDrive(p: string): (r: string)
    ensures |p| >= 3 && p[..3] == "U:\\" ==> |Share| <= |r| && r[..|Share|] == Share
    ensures 'U' !in p ==> r == p
  {
    assert 'U' !in p ==> ReplaceAll(p, "U:\\", Share) == p by {
      if 'U' !in p {
        ReplaceWithoutLead(p, "U:\\", Share);
      }
    }
    ReplaceAll(p, "U:\\", Share)
  }

  // ---------------------------------------------------------------------------
  // The rewrite loop: every change after the first takes the first one's folders.

  function Aligned(cs: seq<ConfirmedChange>): seq<ConfirmedChange> {
    seq(|cs|, i requires 0 <= i < |cs| =>
      if i == 0 then cs[0]
      else cs[i].(newFilePath := cs[0].newFilePath, originalFilePath := cs[0].originalFilePath))
  }

  /**
   * After the rewrite every change has the first change's source and destination folders,
   * and keeps its own file names; rewriting again changes nothing.
   */
  lemma AlignedShape(cs: seq<ConfirmedChange>)
    ensures var r := Aligned(cs);
      && |r| == |cs|
      && (forall i :: 0 <= i < |cs| ==>
            && r[i].originalFileName == cs[i].originalFileName && r[i].newFileName == cs[i].newFileName
            && r[i].newFilePath == cs[0].newFilePath && r[i].originalFilePath == cs[0].originalFilePath)
      && Aligned(r) == r
  {
  }

  /** In-place rewrite over the list, as the `for` loop does it. */
  method AlignToFirst(changes: array<ConfirmedChange>)
    modifies changes
    ensures changes[..] == Aligned(old(changes[..]))
  {
    ghost var original := changes[..];
    var i := 0;
    while i < changes.Length - 1
      invariant 0 <= i && (changes.Length > 0 ==> i <= changes.Length - 1)
      invariant changes.Length > 0 ==> changes[0] == original[0]
      invariant forall k :: 0 <= k < changes.Length ==>
        changes[k] == if k <= i then Aligned(original)[k] else original[k]
    {
      // The guard `Count <= i` of the source never holds here.
      assert !(changes.Length <= i);
      changes[i + 1] := changes[i + 1].(newFilePath := changes[0].newFilePath);
      changes[i + 1] := changes[i + 1].(originalFilePath := changes[0].originalFilePath);
      i := i + 1;
    }
  }

  // ---------------------------------------------------------------------------
  // One change.

  /** The outcome of a step: the disk after it, and `false` when it threw. */
  datatype Applied = Applied(disk: Disk, ok: bool)

  /**
   * The move of a video from `oldPath` to `newPath`, then of the `.srt` beside it, when there
   * is one, to the new name. A move that throws ends the step with `false`; the video then
   * stays where the first move put it. Subtitle extraction from an `.mkv` is not part of this
   * model: it leaves the files of the model as they are.
   */
  function MoveWithSidecar(disk: Disk, oldPath: string, newPath: string): (r: Applied)
    ensures MoveFile(disk, oldPath, newPath).None? ==> r == Applied(disk, false)
    ensures MoveFile(disk, oldPath, newPath).Some? && !r.ok ==> r.disk == MoveFile(disk, oldPath, newPath).value
    ensures r.ok ==> MoveFile(disk, oldPath, newPath).Some?
    ensures r.ok ==> var moved := MoveFile(disk, oldPath, newPath).value;
      var oldSrt := ChangeExtension(oldPath, ".srt");
      var both := MoveFile(moved, oldSrt, ChangeExtension(newPath, ".srt"));
      && (oldSrt !in moved.files ==> r.disk == moved)
      && (oldSrt in moved.files ==> both.Some? && r.disk == both.value)
    ensures |r.disk.files| == |disk.files| && r.disk.dirs == disk.dirs
  {
    match MoveFile(disk, oldPath, newPath)
    case None => Applied(disk, false)
    case Some(moved) =>
      var oldSrt := ChangeExtension(oldPath, ".srt");
      var newSrt := ChangeExtension(newPath, ".srt");
      if oldSrt in moved.files then
        match MoveFile(moved, oldSrt, newSrt)
        case None => Applied(moved, false)
        case Some(both) => Applied(both, true)
      else Applied(moved, true)
  }

  /**
   * One iteration of the `foreach`, for a change whose destination folder is already mapped;
   * `firstFolder` is the first change's (mapped) destination folder.
   */
  function ApplyChange(disk: Disk, c: ConfirmedChange, firstFolder: string): (r: Applied)
    ensures !r.ok || r.disk != disk ==>
      && GetExtension(c.originalFileName) in AllowedExtensions
      && c.newFilePath !in disk.files
      && Combine(c.originalFilePath, c.originalFileName) in disk.files
      && DirectoryIn(disk, firstFolder + "\\")
    ensures var oldPath := Combine(c.originalFilePath, c.originalFileName);
      (&& GetExtension(c.originalFileName) in AllowedExtensions
       && c.newFilePath !in disk.files
       && oldPath in disk.files
       && DirectoryIn(disk, firstFolder + "\\"))
      ==> r == MoveWithSidecar(disk, oldPath, Combine(c.newFilePath, SanitizeFileName(c.newFileName)))
    ensures |r.disk.files| == |disk.files| && r.disk.dirs == disk.dirs
  {
    if GetExtension(c.originalFileName) !in AllowedExtensions then Applied(disk, true)
    else
      var oldPath := Combine(c.originalFilePath, c.originalFileName);
      var newPath := Combine(c.newFilePath, SanitizeFileName(c.newFileName));
      if c.newFilePath in disk.files then Applied(disk, true)
      else if oldPath in disk.files && DirectoryIn(disk, firstFolder + "\\") then MoveWithSidecar(disk, oldPath, newPath)
      else Applied(disk, true)
  }

  /**
   * A change is skipped, and the disk left alone, when its original name does not have one
   * of the three extensions (compared exactly), when a file has the destination folder's
   * path, or when the source file or the first destination folder is missing.
   */
  lemma SkipRules(disk: Disk, c: ConfirmedChange, firstFolder: string)
    ensures var oldPath := Combine(c.originalFilePath, c.originalFileName);
      (|| GetExtension(c.originalFileName) !in AllowedExtensions
       || c.newFilePath in disk.files
       || oldPath !in disk.files
       || !DirectoryIn(disk, firstFolder + "\\"))
      ==> ApplyChange(disk, c, firstFolder) == Applied(disk, true)
  {
  }

  /**
   * A change that passes the checks and whose sanitised target is the file's own path (a
   * file already named as proposed) succeeds and leaves the disk as it was, its `.srt`
   * included.
   */
  lemma SamePathChangeSucceeds(disk: Disk, c: ConfirmedChange, firstFolder: string)
    requires var oldPath := Combine(c.originalFilePath, c.originalFileName);
      && GetExtension(c.originalFileName) in AllowedExtensions
      && c.newFilePath !in disk.files
      && oldPath in disk.files
      && DirectoryIn(disk, firstFolder + "\\")
      && Combine(c.newFilePath, SanitizeFileName(c.newFileName)) == oldPath
    ensures ApplyChange(disk, c, firstFolder) == Applied(disk, true)
  {
    var oldPath := Combine(c.originalFilePath, c.originalFileName);
    assert MoveFile(disk, oldPath, oldPath) == Some(disk);
    var oldSrt := ChangeExtension(oldPath, ".srt");
    if oldSrt in disk.files {
      assert MoveFile(disk, oldSrt, oldSrt) == Some(disk);
    }
  }

  /**
   * After the video has moved, a subtitle beside its old path is moved next to the new
   * path under the same stem; the step fails exactly when that second move throws. The
   * sidecar's path differs from the video's only in its extension.
   */
  lemma SidecarFollowsVideo(disk: Disk, oldPath: string, newPath: string)
    requires newPath != [] && MoveFile(disk, oldPath, newPath).Some?
    ensures var moved := MoveFile(disk, oldPath, newPath).value;
      var oldSrt := ChangeExtension(oldPath, ".srt");
      var newSrt := ChangeExtension(newPath, ".srt");
      var r := MoveWithSidecar(disk, oldPath, newPath);
      && (oldSrt !in moved.files ==> r == Applied(moved, true))
      && (oldSrt in moved.files ==> (r.ok <==> MoveFile(moved, oldSrt, newSrt).Some?))
      && (oldSrt in moved.files && r.ok ==> newSrt in r.disk.files && (oldSrt != newSrt ==> oldSrt !in r.disk.files))
      && GetExtension(newSrt) == ".srt"
      && forall ext :: ChangeExtension(newSrt, ext) == ChangeExtension(newPath, ext)
  {
    ChangeExtensionThenGet(newPath, ".srt");
    forall ext
      ensures ChangeExtension(ChangeExtension(newPath, ".srt"), ext) == ChangeExtension(newPath, ext)
    {
      ChangeExtensionTwice(newPath, ".srt", ext);
    }
  }

  // ---------------------------------------------------------------------------
  // The batch.

  /** The outcome of the batch: the disk, the answer, and how many changes were begun. */
  datatype Batch = Batch(disk: Disk, ok: bool, reached: nat)

  /** The changes applied in turn by `step`, until one throws. */
  function RunSteps(step: (Disk, ConfirmedChange) -> Applied, disk: Disk, cs: seq<ConfirmedChange>): (b: Batch)
    ensures b.reached <= |cs|
    ensures b.ok ==> b.reached == |cs|
    decreases |cs|
  {
    if cs == [] then Batch(disk, true, 0)
    else
      var a := step(disk, cs[0]);
      if !a.ok then Batch(a.disk, false, 1)
      else
        var b := RunSteps(step, a.disk, cs[1..]);
        Batch(b.disk, b.ok, b.reached + 1)
  }

  function Mapped(c: ConfirmedChange): ConfirmedChange {
    c.(newFilePath := MapDrive(c.newFilePath))
  }

  /** One iteration of the `foreach`: the folder is mapped, then the change applied. */
  function BatchStep(firstFolder: string): (Disk, ConfirmedChange) -> Applied {
    (disk: Disk, c: ConfirmedChange) => ApplyChange(disk, Mapped(c), firstFolder)
  }

  /** The `foreach` over the changes. */
  function RunChanges(disk: Disk, cs: seq<ConfirmedChange>, firstFolder: string): Batch {
    RunSteps(BatchStep(firstFolder), disk, cs)
  }

  /** The changes as the batch leaves them: the first `n` have their folder mapped. */
  function MappedUpTo(cs: seq<ConfirmedChange>, n: nat): seq<ConfirmedChange> {
    seq(|cs|, i requires 0 <= i < |cs| => if i < n then Mapped(cs[i]) else cs[i])
  }

  /**
   * `ExecuteRenamingAsync` on the disk `disk`: `true` once every change is through, and
   * files are only moved, never created or deleted, whatever the answer.
   */
  function RenameAll(disk: Disk, cs: seq<ConfirmedChange>): (b: Batch)
    ensures b.reached <= |cs| && (b.ok ==> b.reached == |cs|)
    ensures cs == [] ==> b == Batch(disk, true, 0)
    ensures |b.disk.files| == |disk.files| && b.disk.dirs == disk.dirs
  {
    var aligned := Aligned(cs);
    if aligned == [] then Batch(disk, true, 0)
    else
      RunChangesKeepsCount(disk, aligned, MapDrive(aligned[0].newFilePath));
      RunChanges(disk, aligned, MapDrive(aligned[0].newFilePath))
  }

  /** Steps that only move files make a batch that only moves files, whatever its answer. */
  lemma {:induction false} RunKeepsCount(step: (Disk, ConfirmedChange) -> Applied, disk: Disk, cs: seq<ConfirmedChange>)
    requires forall d, c :: |step(d, c).disk.files| == |d.files| && step(d, c).disk.dirs == d.dirs
    ensures var b := RunSteps(step, disk, cs);
      |b.disk.files| == |disk.files| && b.disk.dirs == disk.dirs
    decreases |cs|
  {
    if cs != [] {
      var a := step(disk, cs[0]);
      if a.ok {
        RunKeepsCount(step, a.disk, cs[1..]);
      }
    }
  }

  /**
   * The batch moves files and never creates or deletes one, whatever the answer; moves done
   * before a failure stay done.
   */
  lemma RunChangesKeepsCount(disk: Disk, cs: seq<ConfirmedChange>, firstFolder: string)
    ensures var b := RunChanges(disk, cs, firstFolder);
      |b.disk.files| == |disk.files| && b.disk.dirs == disk.dirs
  {
    var step := BatchStep(firstFolder);
    forall d, c
      ensures |step(d, c).disk.files| == |d.files| && step(d, c).disk.dirs == d.dirs
    {
      assert step(d, c) == ApplyChange(d, Mapped(c), firstFolder);
    }
    RunKeepsCount(step, disk, cs);
  }

  /** The batch ends with the first change that throws; the changes before it all went through. */
  lemma {:induction false} RunStopsAtFailure(step: (Disk, ConfirmedChange) -> Applied, disk: Disk,
                                             cs: seq<ConfirmedChange>, k: nat)
    requires k < |cs|
    requires RunSteps(step, disk, cs[..k]).ok
    requires !step(RunSteps(step, disk, cs[..k]).disk, cs[k]).ok
    ensures var b := RunSteps(step, disk, cs);
      !b.ok && b.reached == k + 1 && b.disk == step(RunSteps(step, disk, cs[..k]).disk, cs[k]).disk
    decreases k
  {
    if k > 0 {
      var a := step(disk, cs[0]);
      assert cs[..k][0] == cs[0];
      assert cs[..k][1..] == cs[1..][..k - 1];
      RunStopsAtFailure(step, a.disk, cs[1..], k - 1);
    } else {
      assert cs[..k] == [];
    }
  }

  /**
   * A batch that answers `false` stopped at the change it reached: every change before it
   * went through, and that one threw.
   */
  lemma {:induction false} RunFailsAtReached(step: (Disk, ConfirmedChange) -> Applied, disk: Disk,
                                             cs: seq<ConfirmedChange>)
    requires !RunSteps(step, disk, cs).ok
    ensures var b := RunSteps(step, disk, cs);
      var before := RunSteps(step, disk, cs[..b.reached - 1]);
      && 1 <= b.reached && before.ok
      && !step(before.disk, cs[b.reached - 1]).ok
      && b.disk == step(before.disk, cs[b.reached - 1]).disk
    decreases |cs|
  {
    var a := step(disk, cs[0]);
    if a.ok {
      var b := RunSteps(step, a.disk, cs[1..]);
      RunFailsAtReached(step, a.disk, cs[1..]);
      assert cs[..b.reached + 1][0] == cs[0];
      assert cs[..b.reached + 1][1..] == cs[1..][..b.reached];
      assert cs[..b.reached][1..] == cs[1..][..b.reached - 1];
    } else {
      assert cs[..0] == [];
    }
  }

  /** A batch whose first `k` changes went through goes on with the next one. */
  lemma {:induction false} RunSnoc(step: (Disk, ConfirmedChange) -> Applied, disk: Disk,
                                   cs: seq<ConfirmedChange>, k: nat)
    requires k < |cs|
    requires RunSteps(step, disk, cs[..k]).ok
    requires step(RunSteps(step, disk, cs[..k]).disk, cs[k]).ok
    ensures RunSteps(step, disk, cs[..k + 1])
      == Batch(step(RunSteps(step, disk, cs[..k]).disk, cs[k]).disk, true, k + 1)
    decreases k
  {
    if k > 0 {
      var a := step(disk, cs[0]);
      assert cs[..k][0] == cs[0];
      assert cs[..k][1..] == cs[1..][..k - 1];
      assert cs[..k + 1][0] == cs[0];
      assert cs[..k + 1][1..] == cs[1..][..k];
      RunSnoc(step, a.disk, cs[1..], k - 1);
    } else {
      assert cs[..k] == [];
      assert cs[..k + 1][1..] == [];
    }
  }

  /** One iteration of the `foreach`, on a file system whose moves can throw. */
  method ApplyOne(fs: FileSystem, c: ConfirmedChange, firstFolder: string) returns (ok: bool)
    modifies fs
    ensures var a := ApplyChange(old(fs.State()), c, firstFolder);
      ok == a.ok && fs.State() == a.disk
  {
    ok := true;
    if GetExtension(c.originalFileName) in AllowedExtensions {
      var oldPath := Combine(c.originalFilePath, c.originalFileName);
      var newPath := Combine(c.newFilePath, SanitizeFileName(c.newFileName));
      if c.newFilePath in fs.files {
        return;
      }
      if oldPath in fs.files && DirectoryIn(fs.State(), firstFolder + "\\") {
        ok := fs.Move(oldPath, newPath);
        if ok {
          var oldSrt := ChangeExtension(oldPath, ".srt");
          var newSrt := ChangeExtension(newPath, ".srt");
          if oldSrt in fs.files {
            ok := fs.Move(oldSrt, newSrt);
          }
          // Otherwise an `.mkv` has its subtitles extracted, which this model leaves out.
        }
      }
    }
  }

  // ---------------------------------------------------------------------------
  // The collision check.

  /**
   * The check that was evidently meant: skip the change when a file already has the new
   * path, as the warning it logs says.
   */
  function ApplyChangeIntended(disk: Disk, c: ConfirmedChange, firstFolder: string): (r: Applied)
    ensures !r.ok || r.disk != disk ==>
      && GetExtension(c.originalFileName) in AllowedExtensions
      && Combine(c.newFilePath, SanitizeFileName(c.newFileName)) !in disk.files
      && Combine(c.originalFilePath, c.originalFileName) in disk.files
      && DirectoryIn(disk, firstFolder + "\\")
    ensures var oldPath := Combine(c.originalFilePath, c.originalFileName);
      var newPath := Combine(c.newFilePath, SanitizeFileName(c.newFileName));
      (&& GetExtension(c.originalFileName) in AllowedExtensions
       && newPath !in disk.files
       && oldPath in disk.files
       && DirectoryIn(disk, firstFolder + "\\"))
      ==> r == MoveWithSidecar(disk, oldPath, newPath)
    ensures |r.disk.files| == |disk.files| && r.disk.dirs == disk.dirs
  {
    if GetExtension(c.originalFileName) !in AllowedExtensions then Applied(disk, true)
    else
      var oldPath := Combine(c.originalFilePath, c.originalFileName);
      var newPath := Combine(c.newFilePath, SanitizeFileName(c.newFileName));
      if newPath in disk.files then Applied(disk, true)
      else if oldPath in disk.files && DirectoryIn(disk, firstFolder + "\\") then MoveWithSidecar(disk, oldPath, newPath)
      else Applied(disk, true)
  }

  /** With the intended check, an existing file at the new path is skipped and left alone. */
  lemma IntendedSkipsExisting(disk: Disk, c: ConfirmedChange, firstFolder: string)
    requires Combine(c.newFilePath, SanitizeFileName(c.newFileName)) in disk.files
    ensures ApplyChangeIntended(disk, c, firstFolder) == Applied(disk, true)
  {
  }

  /**
   * As written, the check looks for a file at the destination folder's path, so a change
   * whose new path is taken is not skipped: the move throws and the whole batch answers
   * `false`.
   */
  lemma ExistingTargetFailsBatch()
    ensures var c := ConfirmedChange("C:\\in", "C:\\out", "a.mkv", "b");
      var disk := Disk({"C:\\in\\a.mkv", "C:\\out\\b"}, {"C:\\out"});
      && Combine(c.newFilePath, SanitizeFileName(c.newFileName)) in disk.files
      && ApplyChange(disk, c, "C:\\out") == Applied(disk, false)
      && ApplyChangeIntended(disk, c, "C:\\out") == Applied(disk, true)
  {
    CollisionExamplePaths();
  }

  /** The paths of the example above. */
  lemma CollisionExamplePaths()
    ensures SanitizeFileName("b") == "b"
    ensures Combine("C:\\out", "b") == "C:\\out\\b"
    ensures Combine("C:\\in", "a.mkv") == "C:\\in\\a.mkv"
    ensures GetExtension("a.mkv") == ".mkv"
    ensures DirectoryKey("C:\\out\\") == "C:\\out"
  {
    CollisionExampleNames();
    CollisionExampleFolders();
  }

  lemma CollisionExampleNames()
    ensures SanitizeFileName("b") == "b"
    ensures GetExtension("a.mkv") == ".mkv"
  {
    assert LastDotIndex("a.") == 1;
    assert "a.m"[..2] == "a.";
    assert "a.mk"[..3] == "a.m";
    assert "a.mkv"[..4] == "a.mk";
    assert LastDotIndex("a.mkv") == 1;
  }

  lemma CollisionExampleFolders()
    ensures Combine("C:\\out", "b") == "C:\\out\\b"
    ensures Combine("C:\\in", "a.mkv") == "C:\\in\\a.mkv"
    ensures DirectoryKey("C:\\out\\") == "C:\\out"
  {
  }
}
