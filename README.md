# FileRenamer.Api: a verified model of the renaming core

FileRenamer.Api is a web service that renames downloaded video files. It looks at a source
directory and proposes new names for the video files in it, using TheTVDB to tell movies
from series episodes and to fetch names and years. It then carries out the renames the user
confirms and moves each video's `.srt` subtitle with it. It can also fetch subtitles from
OpenSubtitles.

This project models the three services that make those decisions. Each is written in the
form the C# code has:

- `FileRenamingService` (`FileNames.dfy`, `Proposals.dfy`, `Executor.dfy`, `Renaming.dfy`):
  - the file-name helpers `SanitizeFileName`, `FormatFileName`, `IsNonTitlePart`,
    `RemoveExtensions`, `FindAndParseTwoIntegers` and `ExtractFileNameWithPath`;
  - the proposal scan `ProposeChangesAsync`;
  - the batch executor `ExecuteRenamingAsync`.

  The loops of the source are methods with loops: the `parts` array rewritten in place, the
  `StringBuilder`, the nullable locals, the proposal list and the list of confirmed changes
  rewritten in place. Each is proved equal to a function, and the promises are lemmas about
  that function.
- `TvDbService` (`TvDb.dfy`, `Patterns.dfy`):
  - `ConstructTitle`, with its regular expressions written as leftmost-match matchers;
  - the id rules of `GetTvdbIdAsync`;
  - episode selection in `GetEpisodeNameAsync`;
  - the movie details call;
  - the lazily fetched bearer `token`, a field of a class.

  TheTVDB's endpoints are a `Catalog` of oracle functions from request to deserialised
  body.
- `OpenSubtitlesService` (`OpenSubtitles.dfy`):
  - the selection and wrapping of `SearchSubtitlesAsync`;
  - the lazy `token` (a class field);
  - the download target path.

  Its endpoints are oracle functions given to the constructor.

Supporting modules:

- `Text.dfy`: the .NET string operations the code calls, such as `Trim`, `Replace`,
  `Split`, `PadLeft` and `int.TryParse`.
- `Paths.dfy`: the Windows `System.IO.Path` operations: `GetExtension`, `ChangeExtension`,
  `GetFileName`, `GetFileNameWithoutExtension` and `Combine`.
- `Common.dfy`: `Option` and `Result`.

An exception is an `Err` or `Abort` value. The file system is a `FileSystem` object holding
a set of file paths and a set of directory paths. Its `Move` fails when:

- the source is missing;
- the target already exists as a file or a directory, other than the source itself;
- the target's folder does not exist.

A move of a file onto its own path succeeds and changes nothing, as Windows' `MoveFile` does.

What the code does, in the cases where a reader might expect otherwise:

- **Unknown files.** A file whose name `ConstructTitle` does not recognise gets no proposal
  (`Proposals.UnknownSkipped`). It is not surfaced as a cleaned-up proposal.
- **Missing directories.** A missing source or destination directory gives an empty list,
  not an error.
- **Failed lookups.** An exception ends the whole scan with the proposals made so far
  (`Proposals.AbortKeepsEarlier`). The exceptions are a refused login, a series lookup that
  throws (a `null` data list, a first hit without an id, an empty retry), a movie lookup
  that throws or finds no id that `int.Parse` accepts, and a `null` movie details body. A
  series search that fails or answers `null` does not throw: it gives `(null, false)`, the
  series title is still built, and the scan goes on (`TvDb.LookupSeriesId`).
- **Sanitising.** Proposed names are not sanitised when they are proposed. The executor
  sanitises the new name only when it moves the file (`Executor.ApplyChange`).
- **Episode lookup.** Series proposals never go through the episode lookup branch of
  `ProposeChangesAsync`: `ConstructTitle` already puts the episode name in the title, and the
  shortcut always fires (`TvDb.SeriesTitleHasTag`).
- **Extension checks.** The allow-list check is case-insensitive when proposing but
  case-sensitive when executing.
- **Failed moves.** One failed move flips the batch answer to `false` and ends the batch.
  Moves made before it stay made.
- **Collisions.** The collision test looks for a file at the destination folder's path,
  not at the destination file's path (see Findings).
- **Search result type.** The search result that `SearchSubtitlesAsync` builds has fields
  `total_pages`, `total_count`, `per_page`, `page` and `data`. `Models/SubtitleSearchResult.cs`
  shows a class with other fields. The model follows the fields the service uses.

## Model

| member | source | states |
|---|---|---|
| Text.TrimIsTrimmed | Services/FileRenamingService.cs:210 | `Trim` leaves neither leading nor trailing white space |
| Text.TrimIdempotent | Services/FileRenamingService.cs:210 | trimming twice is trimming once |
| Text.TrimEmptyIffWhiteSpace | Services/TvDbService.cs:143 | a string trims to empty exactly when it is all white space, which is the `IsNullOrWhiteSpace` test on the episode title |
| Text.JoinSplit | Services/FileRenamingService.cs:216 | `Split` loses nothing: joining the pieces with the separator gives back the string |
| Text.SplitCount | Services/FileRenamingService.cs:216-217 | `Split` gives one more piece than there are separators, so the space fallback is taken exactly when the name has fewer than two dots |
| Text.ReplaceCharByChar | Services/FileRenamingService.cs:45 | replacing `.` by ` ` keeps the length and changes exactly the dots |
| Text.ReplaceCharRemovesIt | Services/TvDbService.cs:118 | after `Replace(".", " ")` no dot is left |
| Text.ReplaceNeverLengthens | Services/FileRenamingService.cs:294 | replacing by something no longer never lengthens a string |
| Text.ReplaceWithoutLead | Services/FileRenamingService.cs:294 | a string without the pattern's first character is left unchanged by `Replace` |
| Text.TryParseInt | Services/FileRenamingService.cs:271 | parsing succeeds exactly on a non-empty digit string whose value fits `int`, and the value is that number |
| Text.PadLeftSpec | Services/TvDbService.cs:131-132 | the padded string ends with the original string and every character before it is the fill character |
| Text.PadTwoDigits | Services/TvDbService.cs:131-132 | a one- or two-digit group padded to 2 is exactly two digits with the same value |
| Text.EqualsIgnoreCaseIsUpperEquality | Services/FileRenamingService.cs:254 | ordinal case-insensitive equality is equality of the upper-cased strings |
| Text.SubsequenceTransitive | Services/FileRenamingService.cs:36-40 | a subsequence of a subsequence is a subsequence, which carries listing order from the filtered files to the listing |
| Paths.GetExtension | Services/FileRenamingService.cs:47 | the extension is non-empty exactly when the path does not end in a dot and has a dot with no separator after it; it is then the suffix from the last such dot, at least two characters long, with no later dot or separator |
| Paths.ChangeExtensionThenGet | Services/FileRenamingService.cs:170-171 | after `ChangeExtension(p, ".srt")` the extension is `.srt` |
| Paths.ChangeExtensionTwice | Services/FileRenamingService.cs:170-171 | changing the extension twice is changing it once to the second one |
| Paths.GetFileName | Services/FileRenamingService.cs:61 | the file name is the suffix after the last separator, and holds no separator |
| Paths.CombineThenFileName | Services/FileRenamingService.cs:155-157 | combining a folder with a plain name gives a path whose file name is that name |
| Paths.DirectoryKey | Services/FileRenamingService.cs:164 | `Directory.Exists` ignores trailing separators: the key is a prefix without one |
| Patterns.FindStandaloneYear | Services/TvDbService.cs:111-112 | `\b(\d{4})\b` finds the leftmost standalone four-digit number, or there is none |
| Patterns.FindEpisode | Services/TvDbService.cs:124-126 | each episode pattern finds its leftmost match, or there is none at any position |
| Patterns.FirstPatternMatchIsFirst | Services/TvDbService.cs:103-126 | the match used is that of the first pattern, in list order, that matches at all |
| Patterns.FindParenYear | Services/TvDbService.cs:212 | `\((\d{4})\)` finds the leftmost parenthesised year |
| Patterns.ResolutionIsThreeDigitsThenP | Services/FileRenamingService.cs:260 | `\d{3,4}p` with `IgnoreCase` matches exactly when three digits are followed by `p` or `P` |
| FileNames.WithoutInvalidCharsContract | Services/FileRenamingService.cs:206-207 | the filter leaves no invalid character, is a subsequence of its input and keeps every valid character as often as it occurs |
| FileNames.WithoutInvalidCharsKeepsValid | Services/FileRenamingService.cs:206-207 | a name with no invalid character passes the filter unchanged |
| FileNames.SanitizeFileName | Services/FileRenamingService.cs:204-211 | a sanitised name has no invalid character and is trimmed; it is a subsequence of the input and keeps every valid non-white-space character as often as it occurs |
| FileNames.SanitizeIdempotent | Services/FileRenamingService.cs:204-211 | sanitising twice is sanitising once |
| FileNames.TrimKeepsNonWhiteSpace | Services/FileRenamingService.cs:210 | trimming removes only white space |
| FileNames.IsNonTitlePart | Services/FileRenamingService.cs:252-261 | a part is not a title part exactly when, upper-cased, it is one of the ten tags, or when it has three digits followed by `p`/`P` |
| FileNames.UpperOfTags | Services/FileRenamingService.cs:254-256 | the upper-cased tag set is the set of the ten tags upper-cased |
| FileNames.RemoveExtensions | Services/FileRenamingService.cs:288-298 | the loop removes `.mp4`, `.avi` and `.mkv` in that order |
| FileNames.RemoveExtensionsProperties | Services/FileRenamingService.cs:288-298 | `RemoveExtensions` never lengthens a string and leaves a string without a dot unchanged |
| FileNames.RemoveAllNeverLengthens | Services/FileRenamingService.cs:292-295 | removing any list of patterns never lengthens a string |
| FileNames.RemoveAllWithoutDot | Services/FileRenamingService.cs:292-295 | removing dot-led patterns leaves a dotless string unchanged |
| FileNames.SplitNameParts | Services/FileRenamingService.cs:216-224 | the parts array is the dot split, or, when that has fewer than three pieces, the space split with the extensions removed from each piece in place |
| FileNames.NamePartsOfDottedName | Services/FileRenamingService.cs:216-217 | a name with at least two dots is split on dots |
| FileNames.AppendTitleParts | Services/FileRenamingService.cs:227-246 | the `StringBuilder` loop builds the title text of the parts |
| FileNames.FormatFileName | Services/FileRenamingService.cs:213-250 | the method computes the formatted name: the title text, double spaces collapsed, trimmed |
| FileNames.FormattedName | Services/FileRenamingService.cs:213-250 | a formatted name is trimmed, and no longer than the text the loop appends |
| FileNames.TitleStopsAtFirstTerminator | Services/FileRenamingService.cs:229-246 | the title text is the title parts before the first year or tag, dots made spaces, each followed by a space, then ` (year)` when a year stopped the scan; no part after it contributes |
| FileNames.TitleWithoutTerminator | Services/FileRenamingService.cs:229-246 | without a year or a tag every part contributes |
| FileNames.FindAndParseTwoIntegers | Services/FileRenamingService.cs:263-286 | the loop returns the first and second of the values parsed from groups 1 onward, or null where fewer than one or two parse |
| FileNames.FirstValueIsFirstParsed | Services/FileRenamingService.cs:269-276 | the first value comes from the first group at index ≥ 1 that parses; group 0 is never read |
| FileNames.NoneParsedBefore | Services/FileRenamingService.cs:265-283 | when no value is parsed, no group from index 1 onward parses |
| FileNames.ParsedUpToPrefix | Services/FileRenamingService.cs:277-280 | reading more groups only appends values, so the second value found never changes the first |
| FileNames.LastIndexOf | Services/FileRenamingService.cs:306 | the index of the last occurrence, or -1 when there is none |
| FileNames.ExtractFileNameWithPath | Services/FileRenamingService.cs:300-312 | the result is the suffix after the last backslash, and holds none |
| FileNames.ExtractAgreesWithGetFileName | Services/FileRenamingService.cs:300-312 | on a path without `/` it agrees with `Path.GetFileName` |
| TvDb.FirstWord | Services/TvDbService.cs:188 | the retry query is the prefix before the first space |
| TvDb.FirstWordIsFirstPiece | Services/TvDbService.cs:188 | that prefix is `query.Split(' ')[0]` |
| TvDb.MovieQuery | Services/TvDbService.cs:211-216 | the movie search's year is empty or four digits |
| TvDb.MovieQueryYear | Services/TvDbService.cs:211-214 | with a `(dddd)`, the leftmost one gives the year, and its text is removed from the trimmed name |
| TvDb.MovieQueryNoYear | Services/TvDbService.cs:211-214 | without one, the year is empty and the name is the trimmed query |
| TvDb.SeriesLookupCases | Services/TvDbService.cs:160-207 | zero hits trigger the one retry on the first word; otherwise only the first hit counts; an unsuccessful or `null` answer gives `(null, false)`, and a `null` data list throws |
| TvDb.RetrySeries | Services/TvDbService.cs:186-206 | the retry throws exactly on an empty or `null` data list, and otherwise reports a series exactly when it found an id |
| TvDb.LookupSeriesId | Services/TvDbService.cs:160-208 | a series is reported exactly with an id; the lookup throws exactly on a `null` data list, a first hit without an id, or a retry that throws |
| TvDb.LookupMovieId | Services/TvDbService.cs:209-237 | never a series; it throws exactly on a `null` data list or a first hit without an id, and finds an id exactly when there is a first hit with one |
| TvDb.IdFor | Services/TvDbService.cs:154-160 | without a token to be had it fails with the login error; a result is a series exactly when it is a series lookup with an id |
| TvDb.EpisodeName | Services/TvDbService.cs:240-273 | a successful answer with an episode of the season and number asked for gives the name of the first such episode, and any name returned belongs to a matching episode of a successful answer |
| TvDb.FindEpisodeIndex | Services/TvDbService.cs:259-260 | the index of the first episode with the season and number asked for, or none when no episode matches |
| TvDb.EpisodeNameSource | Services/TvDbService.cs:240-273 | the name returned is exactly that of the first matching episode of a successful answer whenever there is one, and null when no episode matches |
| TvDb.FinalNameIsEpisodeName | Services/TvDbService.cs:140 | `finalName` is always the looked-up episode name |
| TvDb.SeriesHeadingShape | Services/TvDbService.cs:131-144 | the heading is the series name, ` S`, two digits for the season, `E`, two digits for the episode, with the values of the matched groups |
| TvDb.NameStartsWithHeading | Services/TvDbService.cs:143-145 | the name is the heading alone when the title in the file name is blank, and otherwise the heading, a space and the looked-up episode name; either way it starts with the heading |
| TvDb.EpisodeTitleShape | Services/TvDbService.cs:128-147 | the episode title fails exactly when the series lookup throws; otherwise its name is the heading of the trimmed text before the match, followed, when the text after the match is not blank, by a space and the name of the episode with the matched season and number in the series found |
| TvDb.TitleForSeries | Services/TvDbService.cs:115-128 | with no standalone year, the first pattern's match decides the title |
| TvDb.PatternTitleOfMatch | Services/TvDbService.cs:128-139 | a matched episode pattern gives the episode title, or the login failure without a token |
| TvDb.TitleFor | Services/TvDbService.cs:100-152 | a standalone year always makes a movie; only a name with no year and a matching episode pattern can fail; an unknown title is the trimmed input |
| TvDb.MovieIffYear | Services/TvDbService.cs:110-121 | the title is a movie exactly when the name holds a standalone four-digit number, ahead of any episode pattern |
| TvDb.MovieTitleShape | Services/TvDbService.cs:110-121 | a movie title is the trimmed text before the first such number, dots made spaces, then ` (number)` |
| TvDb.UnknownIffNoPattern | Services/TvDbService.cs:124-151 | the title is unknown exactly when there is no year and no pattern matches, and its name is then the trimmed input |
| TvDb.UnauthorizedOnlySeriesFails | Services/TvDbService.cs:115-139 | without a token only the series path, which looks names up, fails |
| TvDb.SeriesTitleHasTag | Services/TvDbService.cs:131-147 | every series title contains a match of `s\d{2}e\d{2}`, ignoring case |
| TvDb.EpisodeTitleHasTag | Services/TvDbService.cs:128-147 | the same for the episode title of any match |
| TvDb.LoggedIn | Services/TvDbService.cs:275-281 | the token after `EnsureTokenAsync` is non-empty exactly when one was held or a non-empty one is granted, and a held token is kept |
| TvDb.LoggedInTwice | Services/TvDbService.cs:275-281 | making sure of the token twice is making sure once |
| TvDb.TvDbService.GetTvDbToken | Services/TvDbService.cs:25-45 | a granted login stores and returns its token; a refused one fails and leaves the token as it was |
| TvDb.TvDbService.EnsureToken | Services/TvDbService.cs:275-281 | it logs in only when there is no token and succeeds exactly when a call can go ahead; the token afterwards is the one held, or the granted login's when none was held |
| TvDb.TvDbService.GetTvdbId | Services/TvDbService.cs:154-238 | the lookup is `IdFor` once the token is ensured, a refused login fails it, and the token afterwards is the one `EnsureTokenAsync` leaves |
| TvDb.TvDbService.GetEpisodeName | Services/TvDbService.cs:240-273 | the answer is `EpisodeName` (the first matching episode's name, or null) once the token is ensured, a refused login fails it, and the token afterwards is the one `EnsureTokenAsync` leaves |
| TvDb.TvDbService.GetMovieDetails | Services/TvDbService.cs:91-98 | the movie's `Data`, or the exception for a `null` body, once the token is ensured, and the token afterwards is the one `EnsureTokenAsync` leaves |
| TvDb.TvDbService.ConstructTitle | Services/TvDbService.cs:100-152 | the title is `TitleFor` of the input; the token is ensured, and may change, only when there is no year and an episode pattern matches |
| TvDb.TvDbService.ConstructEpisodeTitle | Services/TvDbService.cs:128-147 | the series branch of `ConstructTitle` for a given match, after which the token is the one `EnsureTokenAsync` leaves |
| Proposals.VideoFiles | Services/FileRenamingService.cs:36-38 | the files kept are exactly the listed files with a video extension, in listing order |
| Proposals.MovieStep | Services/FileRenamingService.cs:106-126 | the step throws exactly when the lookup, `int.Parse` or the details request does; it proposes exactly when the details have `Data`, keeping the whole path as original path and name and naming the file `"{Name} ({Year}){ext}"` from that data, and it proposes nothing when `Data` is null |
| Proposals.ProposeChanges | Services/FileRenamingService.cs:23-135 | nothing when a directory is missing; otherwise every proposal is for a listed video file and is exactly the step that file makes |
| Proposals.FileStep | Services/FileRenamingService.cs:40-127 | a proposal is for the file it was made for, and is never of unknown type |
| Proposals.ProposalsFollowFiles | Services/FileRenamingService.cs:40-127 | the proposals' paths are a subsequence of the files: listing order, at most one per file |
| Proposals.ProposalsAreSteps | Services/FileRenamingService.cs:40-127 | every proposal is the one its own file's step makes |
| Proposals.OnlyVideoFiles | Services/FileRenamingService.cs:30-40 | only video files of the listing are proposed for, in order, and nothing is proposed when a directory is missing |
| Proposals.AbortKeepsEarlier | Services/FileRenamingService.cs:128-134 | a file that throws ends the scan, which returns exactly the proposals made before it |
| Proposals.ProposalsComplete | Services/FileRenamingService.cs:40-127 | a proposal made by a file that no earlier file stops the scan before is in the answer |
| Proposals.ProposeChangesComplete | Services/FileRenamingService.cs:23-135 | with both directories present, every proposal a video file makes is in the list unless an earlier video file throws |
| Proposals.Scanned | Services/FileRenamingService.cs:40-134 | the scan looks at the files up to and including the first that throws, and at all of them when none throws |
| Proposals.ProposalsAppend | Services/FileRenamingService.cs:40-127 | scanning two lists one after the other, when the first throws nowhere, gives the two scans' proposals in turn |
| Proposals.TagSurvivesAppend | Services/FileRenamingService.cs:53-62 | appending the extension keeps the `SxxEyy` tag |
| Proposals.SeriesProposal | Services/FileRenamingService.cs:53-66 | a series title is always proposed through the shortcut as `"{name}{ext}"`, and the proposed name carries the tag |
| Proposals.MovieProposal | Services/FileRenamingService.cs:106-124 | a movie title whose catalog entry has `Data` is proposed under its whole path as `"{Name} ({Year}){ext}"` from that data |
| Proposals.ProposalShape | Services/FileRenamingService.cs:56-124 | a series proposal is `"{name}{ext}"` under the file's own name; a movie proposal is `"{Name} ({Year}){ext}"` under the full path, with the name and year of the catalog's movie for the id its title looks up |
| Proposals.ProposalKeepsExtension | Services/FileRenamingService.cs:47-114 | every proposed name ends with the original extension, verbatim |
| Proposals.UnknownSkipped | Services/FileRenamingService.cs:40-127 | an unknown title gives no proposal |
| Executor.MoveFile | Services/FileRenamingService.cs:167 | a move succeeds exactly when the source exists and either the target is the source itself or the target is neither a file nor a directory and its folder exists; a move onto itself leaves the disk as it was, and any other move renames one file and changes nothing else |
| Executor.FileSystem.Move | Services/FileRenamingService.cs:167 | `File.Move` on the object: the new state is the move's, or unchanged when it throws |
| Executor.MapDrive | Services/FileRenamingService.cs:151 | a folder on `U:\` then starts with the mapped share, and a path without a `U` is left as it is |
| Executor.AlignedShape | Services/FileRenamingService.cs:140-145 | after the rewrite every change has change 0's new and original folders, the names are unchanged, and a second rewrite changes nothing |
| Executor.AlignToFirst | Services/FileRenamingService.cs:140-145 | the in-place loop computes that rewrite; its guard `Count <= i` never holds |
| Executor.SkipRules | Services/FileRenamingService.cs:153-190 | a change is left alone, without failing the batch, when its extension is not exactly an allowed one, a file sits at its new folder's path, its source is missing, or the first folder is missing |
| Executor.SidecarFollowsVideo | Services/FileRenamingService.cs:167-177 | after the video moves, an `.srt` beside the old path moves to the new name with the `.srt` extension, and the step fails exactly when that move throws |
| Executor.MoveWithSidecar | Services/FileRenamingService.cs:166-178 | the step throws with the disk unchanged when the video's move throws and keeps the video moved when only the subtitle's move throws; on success the disk is the video's move, followed by the subtitle's move when an `.srt` sits beside the old path; in the model it never changes the number of files or the directories |
| Executor.ApplyChange | Services/FileRenamingService.cs:149-190 | a change with an allowed extension, no file at its folder's path, its source present and the first folder present is moved, with its subtitle, to its folder combined with the sanitised new name; any other change neither touches the disk nor fails; in the model, with subtitle extraction left out, it never creates or deletes a file or a directory |
| Executor.SamePathChangeSucceeds | Services/FileRenamingService.cs:149-177 | a change that passes the checks and whose sanitised target is its own path succeeds and leaves the disk, its subtitle included, as it was |
| Executor.RunSteps | Services/FileRenamingService.cs:147-201 | the batch reaches at most every change, and all of them when it answers `true` |
| Executor.RunKeepsCount | Services/FileRenamingService.cs:147-201 | a batch of steps that only move files only moves files, whatever its answer |
| Executor.RunChangesKeepsCount | Services/FileRenamingService.cs:147-201 | in the model, with subtitle extraction left out, the batch never creates or deletes a file, even when it fails part-way |
| Executor.RenameAll | Services/FileRenamingService.cs:137-202 | the batch reaches at most every change and all of them when it answers `true`, an empty list answers `true` untouched, and in the model files are only moved |
| Executor.RunStopsAtFailure | Services/FileRenamingService.cs:147-201 | the first change that throws ends the batch with `false`, and the moves before it stay done |
| Executor.RunFailsAtReached | Services/FileRenamingService.cs:147-201 | a batch that answers `false` got through every change before the one that threw |
| Executor.RunSnoc | Services/FileRenamingService.cs:149-192 | a batch whose changes so far went through goes on with the next one |
| Executor.ApplyOne | Services/FileRenamingService.cs:151-190 | one iteration on the file system object has the effect and answer of the change rules |
| Executor.ExistingTargetFailsBatch | Services/FileRenamingService.cs:159-167 | as written, a change whose new path is taken is not skipped: the move throws and the batch answers `false` |
| Executor.ApplyChangeIntended | Services/FileRenamingService.cs:153-190 | with the check on the new path, a change whose target is free, with its source and the first folder present, is moved with its subtitle to that target; any other change neither touches the disk nor fails, and files are only moved |
| Executor.IntendedSkipsExisting | Services/FileRenamingService.cs:159-163 | with the check on the new path, such a change is skipped and the disk is left alone |
| Renaming.FileRenamingService.ProcessFile | Services/FileRenamingService.cs:40-127 | one iteration of the scan makes the step `FileStep` says, with the catalog calls of the source; the token afterwards is the one `EnsureTokenAsync` leaves when the title has a year or an episode pattern, and is unchanged otherwise |
| Renaming.FileRenamingService.ProposeChanges | Services/FileRenamingService.cs:23-135 | the list the loop returns is `ProposeChanges` of the listing; the token afterwards is the one `EnsureTokenAsync` leaves when both directories exist and a file the scan looked at has a year or an episode pattern, and is unchanged otherwise |
| Renaming.FileRenamingService.ScanFiles | Services/FileRenamingService.cs:40-127 | the `foreach` returns the proposals of the video files up to the first that throws, and leaves the token as `EnsureTokenAsync` does once a file it looked at reached the web service |
| Renaming.FileRenamingService.ExecuteRenaming | Services/FileRenamingService.cs:137-202 | the answer, the files and the list as the method leaves them are those of `RenameAll` |
| Renaming.RenameEach | Services/FileRenamingService.cs:147-193 | the `foreach` maps each change's folder in place and applies it against the first change's mapped folder, until one throws |
| OpenSubtitles.TrustedSpec | Services/OpenSubtitlesService.cs:91-92 | the trusted data are exactly the data with attributes marked trusted, in order |
| OpenSubtitles.BestIndexSpec | Services/OpenSubtitlesService.cs:93-105 | the index chosen has the largest download count, and every earlier one a smaller count |
| OpenSubtitles.FirstByCountSpec | Services/OpenSubtitlesService.cs:93-105 | the first element after the stable descending sort is the earliest with the largest count, and there is one exactly when the list is non-empty |
| OpenSubtitles.EarliestMaxUnique | Services/OpenSubtitlesService.cs:93-105 | the earliest maximum is unique, so the choice is determined |
| OpenSubtitles.Choose | Services/OpenSubtitlesService.cs:91-105 | there is a choice exactly when `data` is non-null and non-empty; it is one of the data, and it is trusted exactly when some datum is |
| OpenSubtitles.Wrap | Services/OpenSubtitlesService.cs:108-115 | the result holds the chosen datum or nothing; `total_count` and `total_pages` count it; `page` and `per_page` are 1 |
| OpenSubtitles.ChooseTrusted | Services/OpenSubtitlesService.cs:91-105 | when some datum is trusted, the choice is trusted and has the largest count among the trusted ones, the earliest on ties |
| OpenSubtitles.ChooseUntrusted | Services/OpenSubtitlesService.cs:97-105 | when none is trusted, the choice is the earliest with the largest count among all, absent attributes counting 0 |
| OpenSubtitles.SearchShape | Services/OpenSubtitlesService.cs:73-115 | a null title gives null; an unsuccessful search throws; otherwise at most one datum, taken from the answer, and none exactly when there is no data |
| OpenSubtitles.SearchAfterToken | Services/OpenSubtitlesService.cs:73-115 | a null title answers null and nothing else does; with a title, it throws exactly when the search fails, and otherwise wraps the choice made from the answer's data |
| OpenSubtitles.SrtTargetShape | Services/OpenSubtitlesService.cs:145 | the target has extension `.srt`, lies in the given folder, and has the given name as its base name |
| OpenSubtitles.DownloadFile | Services/OpenSubtitlesService.cs:141-146 | the fetched bytes are written to `"{newFilePath}/{newFileName}.srt"`, and a failed fetch throws |
| OpenSubtitles.OpenSubtitlesService.GetToken | Services/OpenSubtitlesService.cs:23-66 | the login succeeds exactly on a successful answer with status `"200"`; it then stores the answer's token, and otherwise leaves the token alone |
| OpenSubtitles.OpenSubtitlesService.SearchSubtitles | Services/OpenSubtitlesService.cs:68-116 | the token is fetched first only when it is null, then the search runs; a failed login throws before the title is looked at |
| OpenSubtitles.OpenSubtitlesService.DownloadSubtitle | Services/OpenSubtitlesService.cs:118-139 | a file is written exactly when the download answer has a non-empty link whose fetch succeeds, at the `.srt` target and with the fetched bytes; the call throws exactly when the fetch of such a link fails, and otherwise writes nothing |

## Left out

- HTTP, JSON deserialisation, request headers, `async`/`await` and logging. Every endpoint
  is an oracle function from request to deserialised body, and every call is sequential.
- `ExtractEnglishSubtitles` (`Services/FileRenamingService.cs:314-383`) runs the external
  `mkvinfo` and `mkvextract` tools, so it is a foreign process. In the model the `.mkv`
  branch after a move leaves the files as they are. The UNC-to-drive rewrites at lines
  182-183 and 322-323 feed only that branch. Its `Groups[2]` never exists, so `isForced` is
  always false.
- Executor.MapDrive: the `U:\` rewrite at line 151 is modelled as the literal string
  replacement it is. Its contract covers a path starting with `U:\` and a path without a
  `U`; an occurrence of `U:\` in the middle of a path is replaced too, and that case is not
  stated.
- `GetEpisodeDetailsAsync` and the episode-lookup branch of `ProposeChangesAsync`
  (`Services/FileRenamingService.cs:69-105`) are left out, because that branch never runs
  (`TvDb.SeriesTitleHasTag`). `SearchShowsAndFetchEpisodeAsync` has no caller in the
  service.
- Text.TryParseInt: only unsigned digit strings are accepted. `int.TryParse` also accepts a
  sign and surrounding white space.
- Text.Lower: lower-casing (and `IgnoreCase` in the patterns) covers ASCII letters only.
  There is no culture-aware case folding.
- Patterns: `\d` is an ASCII digit in the model, while .NET's `\d` matches every Unicode
  decimal digit. A name such as `Film ٢٠١٩` is a movie for the service and unknown for the
  model. An episode tag written in such digits matches for the service, and `int.Parse`
  then throws and ends the scan; the model finds no match there. `\b` is likewise taken
  over ASCII letters and digits.
- Paths.GetFileName: the file name is cut only at `\` and `/`. .NET also cuts at a drive
  root, so `C:foo` gives `foo` there and `C:foo` in the model; the full paths that
  `Directory.GetFiles` returns never have that form.
- Paths: paths are compared as exact strings. The case-insensitivity of Windows paths is not
  modelled, and neither is `Path.GetInvalidFileNameChars` on other platforms: the Windows set
  is fixed.
- Executor.ConfirmedChange: the changes are values in an array. Two list entries that are
  the same `ConfirmedChangeModel` object, and so alias each other, are not modelled.
- Proposals.ProposedChange: `Season` and `Episode` are never set by the code and are left
  out.
- OpenSubtitles.Datum: a `null` entry inside the subtitle `data` list is not modelled.
- OpenSubtitles.DownloadFile: the write cannot fail in the model. `WriteAllBytesAsync`
  throws when the folder is missing or the file cannot be written, and the model has no
  file system for the subtitle service to check that against.
- OpenSubtitles.OpenSubtitlesService.DownloadSubtitle: the bearer token is only put in a
  header, so the model does not read it.
- OpenSubtitles.FirstByCount: the stable `OrderByDescending(...).FirstOrDefault()` is
  modelled as the earliest maximum, which is what that pipeline returns. The sorted list
  itself is not built.
- Controllers, `Program.cs` and the models and interfaces hold no logic beyond the record
  shapes mirrored here.

## Findings

| source | as written | input that shows it | evidently intended | confidence | as-written member | corrected member |
|---|---|---|---|---|---|---|
| Services/FileRenamingService.cs:159 | the collision check tests `File.Exists(change.NewFilePath)`, the destination folder's path | change `C:\in`, `a.mkv` → `C:\out`, `b`, with `C:\in\a.mkv` and `C:\out\b` existing and folder `C:\out`: the move throws and the batch answers `false` | test the computed `newPath`, as the warning it logs says, so the change is skipped and the batch goes on | not executed | Executor.ExistingTargetFailsBatch | Executor.IntendedSkipsExisting |

`ExecuteRenaming` and `RenameAll` keep the check as written, because they model what the
code does. `Executor.ApplyChangeIntended` is the corrected rule, and
`Executor.IntendedSkipsExisting` proves its property.
