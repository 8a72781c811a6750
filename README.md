# brain-overflow: the Git observer and the snippet search

This project models the two parts of the BrainOverflow .NET plug-in that hold its logic.

**`GitObserver`** is the hosted service that watches the snippet store's Git repository.
- On start it takes a snapshot of the tracked tree. The snapshot is a dictionary from file path to object hash, parsed from the output of `git ls-tree -r HEAD`.
- On every timer tick it pulls and takes a new snapshot. It computes the Added and the Modified files against the known snapshot.
- It then replaces the known snapshot with the new one, inside `GetChanges`.
- Only after that does it publish the changes: first the files that were Added, then the files that were Modified. So the snapshot is already replaced if publishing fails.

**`SnippetsController.Search`** does a case-insensitive substring search over the store's Markdown files.
- A blank query gives no results.
- Otherwise every file that has a line containing the query gives one result. The result is the file's snippet together with the first such line.

The model is split into these modules:
- `Wrappers` (`wrappers.dfy`): the `Option` type. `None` stands for C#'s `null`.
- `Strings` (`strings.dfy`): `String.Split` with a separator and an optional piece count, and its inverse `String.Join`. It also has the lemmas that relate the two.
- `Snapshots` (`snapshots.dfy`):
  - the .NET `Dictionary<string, string>`, as its entries plus its keys in insertion order;
  - the line parser of `GetFilesWithHashes`;
  - the dictionary that parser builds;
  - the round trip through the `ls-tree` line format.
- `Changes` (`changes.dfy`): the comparison inside `GetChanges`. It covers LINQ `Except`, `Intersect` and `Where` over the keys, and the local `IsFileModified`.
- `GitWatcher` (`git_observer.dfy`): the class `GitObserver`. Its field `knownFiles` is the source's `myKnownFiles`. Its methods are `GetFilesWithHashes` (the parsing loop), `GetChanges` (one poll) and `StartAsync` (the initial snapshot, then one poll per tick). The module also defines `Publications`, the sequence of batches a run publishes.
- `Snippets` (`snippets.dfy`): `Search`, as the source's pipeline. The `Select` step builds one candidate result per file (`Candidate`). The `Where` step keeps the candidates that have a match (`KeepPresent`).

Dictionary order matters here because the published lists are built by enumerating dictionary keys. In the current .NET implementation, a `Dictionary` from which no key is ever removed enumerates its keys in the order they were first inserted; the documentation leaves the order unspecified, so the orders below rest on that implementation detail. `GetFilesWithHashes` only inserts or overwrites keys, so the model keeps that order. This makes the order of the Added and Modified lists well defined: it is the order of the current and the known listing respectively.

A failed listing is handled as the code handles it. `ExecuteGitCommand` only logs a failure, and `GetChanges` replaces the known snapshot unconditionally (`GitWatcher.cs:51`). Keeping the last good snapshot after a failed poll would have been a reasonable design, but the code does not do that, and the model follows the code. Suppose a failed listing prints nothing. Then that tick reports nothing, and the next successful tick reports every tracked file as Added again. `FailedListingResetsBaseline` proves this, and `BlankListing` proves that empty output gives the empty snapshot.

## Model

All source paths are relative to the repository root.

| member | source | states |
|---|---|---|
| Strings.Split | src-dotnet/BrainOverflow.TauriPlugIn/GitWatcher.cs:70 | definition: `Split(sep)` without a count, the split with a cap that never bites; characterised by `JoinSplitMax` and `SplitJoin` |
| Strings.Join | src-dotnet/BrainOverflow.TauriPlugIn/GitWatcher.cs:75 | definition: `String.Join`, the inverse `JoinSplitMax` and `SplitJoin` relate to the split |
| Strings.SplitMax | src-dotnet/BrainOverflow.TauriPlugIn/GitWatcher.cs:72-73 | `line.Split(' ', 3)` yields at least one and at most `count` pieces, so the `parts.Length >= 3` test is what rejects short lines |
| Strings.JoinSplitMax | src-dotnet/BrainOverflow.TauriPlugIn/GitWatcher.cs:70-75 | splitting loses no character: joining the pieces with the separator gives back the string, for every piece count |
| Strings.SplitPiecesFree | src-dotnet/BrainOverflow.TauriPlugIn/GitWatcher.cs:70 | no piece of a full split on a one-character separator contains that separator |
| Strings.SplitJoin | src-dotnet/BrainOverflow.TauriPlugIn/GitWatcher.cs:75 | splitting the join of separator-free pieces gives back exactly those pieces |
| Snapshots.Dictionary.Set | src-dotnet/BrainOverflow.TauriPlugIn/GitWatcher.cs:80 | `fileHashes[file] = hash` maps the key to the new value and keeps all other entries; a present key keeps its place and a new key is appended; the dictionary stays well formed |
| Snapshots.ParseLine | src-dotnet/BrainOverflow.TauriPlugIn/GitWatcher.cs:72-81 | definition: one loop iteration's parse of a line; characterised by `ParseFormattedLine` and `ParsedLineIsFormatted` |
| Snapshots.ParseFormattedLine | src-dotnet/BrainOverflow.TauriPlugIn/GitWatcher.cs:72-81 | a `<mode> <type> <hash>\t<path>` line, whose mode and type hold no space and whose hash and path hold no tab, is accepted with exactly that path and hash |
| Snapshots.ParsedLineIsFormatted | src-dotnet/BrainOverflow.TauriPlugIn/GitWatcher.cs:72-81 | conversely, every accepted line is such a formatted line with the parsed hash and path |
| Snapshots.SplitTwoPieces | src-dotnet/BrainOverflow.TauriPlugIn/GitWatcher.cs:75-76 | a third part with exactly two tab-separated pieces is the hash, a tab and the file, neither containing a tab |
| Snapshots.SplitThreeParts | src-dotnet/BrainOverflow.TauriPlugIn/GitWatcher.cs:72-73 | a line with three parts is those parts joined by spaces, and only the third part may contain a space |
| Snapshots.NonEmpty | src-dotnet/BrainOverflow.TauriPlugIn/GitWatcher.cs:70 | `RemoveEmptyEntries` keeps exactly the non-empty pieces of the split: every kept piece is non-empty and comes from the input, and every non-empty input piece is kept |
| Snapshots.Lines | src-dotnet/BrainOverflow.TauriPlugIn/GitWatcher.cs:70 | the lines the loop visits contain no '\n' and are non-empty, and every non-empty '\n'-separated segment of the output is among them |
| Snapshots.NonEmptyAppend | src-dotnet/BrainOverflow.TauriPlugIn/GitWatcher.cs:70 | filtering out empty pieces works part by part and keeps the order of the pieces |
| Snapshots.NonEmptySkipsBlank | src-dotnet/BrainOverflow.TauriPlugIn/GitWatcher.cs:70 | an empty piece is dropped wherever it stands |
| Snapshots.LinesOfJoin | src-dotnet/BrainOverflow.TauriPlugIn/GitWatcher.cs:70 | the lines of '\n'-free segments joined by '\n' are exactly the non-empty segments, in order |
| Snapshots.BlankLineIgnored | src-dotnet/BrainOverflow.TauriPlugIn/GitWatcher.cs:70 | a blank line anywhere in a listing (two '\n' in a row) is skipped: the loop visits the same lines as without it |
| Snapshots.NonEmptyKeepsAll | src-dotnet/BrainOverflow.TauriPlugIn/GitWatcher.cs:70 | a split whose pieces are all non-empty loses none of them |
| Snapshots.Add | src-dotnet/BrainOverflow.TauriPlugIn/GitWatcher.cs:73-81 | definition: one loop iteration, an indexer assignment for an accepted line and nothing for a rejected one |
| Snapshots.Build | src-dotnet/BrainOverflow.TauriPlugIn/GitWatcher.cs:69-83 | definition: the dictionary after the loop has visited the given lines; characterised by `BuildDomain`, `LastLineWins`, `BuildDistinct` and `BuildSkipsNone` |
| Snapshots.BuildValid | src-dotnet/BrainOverflow.TauriPlugIn/GitWatcher.cs:69-85 | whatever the lines, the built dictionary holds each key once and lists exactly its keys |
| Snapshots.ParseListing | src-dotnet/BrainOverflow.TauriPlugIn/GitWatcher.cs:65-86 | the snapshot of any listing is a well-formed dictionary |
| Snapshots.BuildDomain | src-dotnet/BrainOverflow.TauriPlugIn/GitWatcher.cs:69-85 | a path is in the snapshot exactly when some accepted line names it |
| Snapshots.LastLineWins | src-dotnet/BrainOverflow.TauriPlugIn/GitWatcher.cs:80 | when several accepted lines name the same path, the hash of the last one is kept |
| Snapshots.BuildSkipsNone | src-dotnet/BrainOverflow.TauriPlugIn/GitWatcher.cs:73-76 | a rejected line between two parts of a listing leaves the built dictionary as it would be without it |
| Snapshots.BuildSnoc | src-dotnet/BrainOverflow.TauriPlugIn/GitWatcher.cs:70-83 | one more listing line is one more iteration of the loop body |
| Snapshots.RejectedLineSkipped | src-dotnet/BrainOverflow.TauriPlugIn/GitWatcher.cs:73-76 | a line with fewer than three space-separated parts, or not exactly one tab in its third part, changes nothing in the snapshot |
| Snapshots.BlankListing | src-dotnet/BrainOverflow.TauriPlugIn/GitWatcher.cs:67-70 | an output made only of newlines (in particular the empty output of a failed command) gives no lines and the empty snapshot |
| Snapshots.ListingLines | src-dotnet/BrainOverflow.TauriPlugIn/GitWatcher.cs:70 | the lines of a printed listing are exactly its formatted records, in order |
| Snapshots.BuildDistinct | src-dotnet/BrainOverflow.TauriPlugIn/GitWatcher.cs:69-85 | lines that are all accepted and name different paths give a dictionary whose keys are those paths in line order, each with its hash |
| Snapshots.BuildKeysInOrder | src-dotnet/BrainOverflow.TauriPlugIn/GitWatcher.cs:69-85 | lines naming different files give keys that are exactly those files, in line order |
| Snapshots.ListingParses | src-dotnet/BrainOverflow.TauriPlugIn/GitWatcher.cs:70-81 | every line of a printed listing parses to its record's path and hash |
| Snapshots.ListingRoundTrip | src-dotnet/BrainOverflow.TauriPlugIn/GitWatcher.cs:65-86 | printing records with distinct paths and parsing the text gives back exactly their paths in order, each with its hash |
| Changes.Except | src-dotnet/BrainOverflow.TauriPlugIn/GitWatcher.cs:40-41 | `Except` keeps exactly the elements of the first sequence that are not in the second set, without duplicates |
| Changes.Intersect | src-dotnet/BrainOverflow.TauriPlugIn/GitWatcher.cs:45-46 | `Intersect` keeps exactly the elements of the first sequence that are in the second set, without duplicates |
| Changes.TryGetValue | src-dotnet/BrainOverflow.TauriPlugIn/GitWatcher.cs:59-60 | `TryGetValue` yields a value exactly when the key is present, and then the key's value (None stands for the null left in `out`) |
| Changes.IsFileModified | src-dotnet/BrainOverflow.TauriPlugIn/GitWatcher.cs:57-62 | definition: the two lookups differ, which includes a path present in only one of the dictionaries |
| Changes.WhereModified | src-dotnet/BrainOverflow.TauriPlugIn/GitWatcher.cs:47-62 | the filter keeps exactly the files whose `TryGetValue` results differ, and keeps a duplicate-free input duplicate-free |
| Changes.Tag | src-dotnet/BrainOverflow.TauriPlugIn/GitWatcher.cs:42-48 | definition: `Select(file => new Change { ChangeType = t, Path = file })` over a file list; characterised by `TagMembership` |
| Changes.TagMembership | src-dotnet/BrainOverflow.TauriPlugIn/GitWatcher.cs:42-48 | a change is in a tagged list exactly when it has that type and its path is in the list |
| Changes.AddedFiles | src-dotnet/BrainOverflow.TauriPlugIn/GitWatcher.cs:40-43 | definition: `addedFiles`, the current keys `Except` the known keys, each tagged Added; characterised through `Diff` by `DiffClassifies`, `DiffPathsDistinct` and `DiffAddedFirst` |
| Changes.ModifiedFiles | src-dotnet/BrainOverflow.TauriPlugIn/GitWatcher.cs:45-49 | definition: `modifiedFiles`, the known keys `Intersect` the current keys, filtered by `IsFileModified`, each tagged Modified; characterised through `Diff` by `DiffClassifies`, `DiffPathsDistinct` and `DiffAddedFirst` |
| Changes.Diff | src-dotnet/BrainOverflow.TauriPlugIn/GitWatcher.cs:40-55 | definition: the Added list followed by the Modified list; characterised by `DiffClassifies`, `DiffPathsDistinct` and `DiffAddedFirst` |
| Changes.DiffClassifies | src-dotnet/BrainOverflow.TauriPlugIn/GitWatcher.cs:40-62 | a change is reported exactly when it is Added for a path only the current snapshot has, or Modified for a path both have with different hashes |
| Changes.DiffPathsDistinct | src-dotnet/BrainOverflow.TauriPlugIn/GitWatcher.cs:40-55 | no path is reported twice, so never both Added and Modified |
| Changes.DiffAddedFirst | src-dotnet/BrainOverflow.TauriPlugIn/GitWatcher.cs:55 | every Added change precedes every Modified change |
| Changes.DeletionsInvisible | src-dotnet/BrainOverflow.TauriPlugIn/GitWatcher.cs:40-49 | a file that is known but no longer current produces no change |
| Changes.DiffSelfEmpty | src-dotnet/BrainOverflow.TauriPlugIn/GitWatcher.cs:40-62 | comparing a snapshot with itself reports nothing |
| Changes.DiffToEmpty | src-dotnet/BrainOverflow.TauriPlugIn/GitWatcher.cs:40-51 | against an empty current snapshot nothing is reported |
| Changes.ExceptDisjoint | src-dotnet/BrainOverflow.TauriPlugIn/GitWatcher.cs:40-41 | `Except` of a duplicate-free sequence against a disjoint set is that sequence |
| Changes.DiffFromEmpty | src-dotnet/BrainOverflow.TauriPlugIn/GitWatcher.cs:40-49 | against an empty known snapshot every current file is reported Added, in listing order, and nothing Modified |
| GitWatcher.Publications | src-dotnet/BrainOverflow.TauriPlugIn/GitWatcher.cs:25-29 | one published batch per tick that fired |
| GitWatcher.GitObserver.constructor | src-dotnet/BrainOverflow.TauriPlugIn/GitWatcher.cs:15 | the observer starts with an empty, well-formed known snapshot |
| GitWatcher.GitObserver.GetFilesWithHashes | src-dotnet/BrainOverflow.TauriPlugIn/GitWatcher.cs:65-86 | the loop builds exactly the snapshot of the listing (`ParseListing`), whose properties are the Snapshots lemmas above |
| GitWatcher.GitObserver.GetChanges | src-dotnet/BrainOverflow.TauriPlugIn/GitWatcher.cs:32-63 | the returned changes are the comparison of the old known snapshot with the new listing's snapshot, and the known snapshot becomes the new one unconditionally |
| GitWatcher.GitObserver.StartAsync | src-dotnet/BrainOverflow.TauriPlugIn/GitWatcher.cs:17-30 | after the initial snapshot and one poll per tick, the published batches are the successive comparisons and the known snapshot is the last one taken |
| GitWatcher.PublicationsSnoc | src-dotnet/BrainOverflow.TauriPlugIn/GitWatcher.cs:25-29 | one more tick appends one batch, computed against the snapshot the previous ticks left |
| GitWatcher.PublishNext | src-dotnet/BrainOverflow.TauriPlugIn/GitWatcher.cs:25-29 | one iteration of the tick loop appends the batch of that tick and makes its snapshot the known one |
| GitWatcher.PublicationAt | src-dotnet/BrainOverflow.TauriPlugIn/GitWatcher.cs:25-29 | tick i compares snapshot i with snapshot i-1, or with the initial snapshot for the first tick |
| GitWatcher.UnchangedTreePublishesNothing | src-dotnet/BrainOverflow.TauriPlugIn/GitWatcher.cs:25-29 | while the tree does not change, every tick publishes an empty batch |
| GitWatcher.FailedListingResetsBaseline | src-dotnet/BrainOverflow.TauriPlugIn/GitWatcher.cs:51 | after an empty listing the next tick reports every tracked file as Added, because the snapshot is replaced even when the listing failed |
| Snippets.IsWhiteSpace | src-dotnet/BrainOverflow.TauriPlugIn/SnippetsController.cs:42 | definition: the characters `char.IsWhiteSpace` accepts |
| Snippets.IsNullOrWhiteSpace | src-dotnet/BrainOverflow.TauriPlugIn/SnippetsController.cs:42 | definition: `string.IsNullOrWhiteSpace`, null or made only of white space |
| Snippets.FoldCase | src-dotnet/BrainOverflow.TauriPlugIn/SnippetsController.cs:56 | the folded character is never a lowercase ASCII letter, and a lowercase ASCII letter folds to its uppercase letter |
| Snippets.ContainsIgnoreCase | src-dotnet/BrainOverflow.TauriPlugIn/SnippetsController.cs:56 | a line contains the query ignoring case exactly when the query matches, character by character after folding, at some position of the line |
| Snippets.FirstMatch | src-dotnet/BrainOverflow.TauriPlugIn/SnippetsController.cs:55-56 | `FirstOrDefault` is null exactly when no line contains the query; otherwise it is a line that contains the query, and no earlier line does |
| Snippets.LastIndexOf | src-dotnet/BrainOverflow.TauriPlugIn/SnippetsController.cs:50 | the last position of the character, or None exactly when the character does not occur |
| Snippets.FileNameWithoutExtension | src-dotnet/BrainOverflow.TauriPlugIn/SnippetsController.cs:50 | a name without a '.' is kept whole; otherwise the result is the prefix before the last '.' |
| Snippets.IdOfSavedFile | src-dotnet/BrainOverflow.TauriPlugIn/SnippetsController.cs:37-50 | for every id, stripping the extension from the name `<id>.md` that `Save` writes gives back the id that `Search` reports |
| Snippets.ToSnippet | src-dotnet/BrainOverflow.TauriPlugIn/SnippetsController.cs:48-52 | definition: the snippet of one enumerated file, its name without extension as id and its text |
| Snippets.TextLines | src-dotnet/BrainOverflow.TauriPlugIn/SnippetsController.cs:55 | definition: `Split(Environment.NewLine)` of a snippet's text |
| Snippets.Candidate | src-dotnet/BrainOverflow.TauriPlugIn/SnippetsController.cs:53-58 | definition: the `Select` step, the file's snippet with its first matching line, or None when no line matches; `MentionsIffFound` says when it is present |
| Snippets.KeepPresent | src-dotnet/BrainOverflow.TauriPlugIn/SnippetsController.cs:59 | definition: the `Where(result => result.Match is not null)` step; characterised by `KeepPresentAt`, `PresentPositionsIncreasing` and `PresentPositionsExact` |
| Snippets.KeepPresentAt | src-dotnet/BrainOverflow.TauriPlugIn/SnippetsController.cs:59 | the k-th result of `Where(Match is not null)` is the candidate at the k-th kept position |
| Snippets.PresentPositionsIncreasing | src-dotnet/BrainOverflow.TauriPlugIn/SnippetsController.cs:59-60 | the kept positions strictly increase, so `Where` keeps the order and keeps each candidate once |
| Snippets.PresentPositionsExact | src-dotnet/BrainOverflow.TauriPlugIn/SnippetsController.cs:59 | a candidate's position is kept exactly when its match is not null |
| Snippets.Search | src-dotnet/BrainOverflow.TauriPlugIn/SnippetsController.cs:40-45 | a null, empty or all-whitespace query gives no results |
| Snippets.MentionsIffFound | src-dotnet/BrainOverflow.TauriPlugIn/SnippetsController.cs:55-59 | a file gets a non-null match exactly when one of its lines contains the query |
| Snippets.SearchFindsMentioningFiles | src-dotnet/BrainOverflow.TauriPlugIn/SnippetsController.cs:40-60 | for a non-blank query the results are exactly the files with a line containing the query, each once, in enumeration order, each carrying the file's snippet and the first such line |

## Left out

- `ExecuteGitCommand` (`GitWatcher.cs:88-117`) is not modelled. It starts a `git` process and collects its output. The listing text is an input of `GetFilesWithHashes`, `GetChanges` and `StartAsync`; it is the text after `Trim`. When the command exits with a non-zero code, its error text is only logged, so that case is not modelled separately.
- An exception is not modelled. If `git` cannot be started, `process.Start()` (`GitWatcher.cs:106`) throws. The exception leaves `GetChanges` before the known snapshot is replaced, and it ends the tick loop of `StartAsync`. The model always receives a listing text, so it cannot express a poll that throws.
- The Windows line ending: `AppendLine` writes `Environment.NewLine`. On Windows, every listed path except the last therefore keeps a trailing '\r' after the split on '\n'. `Trim` removes the final line ending together with any white space at either end of the whole output. The model takes the trimmed text as it is, so such a '\r' stays in the path, as in the code.
- `git pull --rebase` (`GitWatcher.cs:36`) is not modelled. Its effect on the tree shows only through the next listing, which is an input.
- `PeriodicTimer`, `async`/`await` and cancellation are not modelled. `StartAsync` takes the listings of the ticks that fired, as a finite sequence.
- `publisher.Publish` is not modelled. `StartAsync` returns the published batches in order instead of sending them on the "store-updates" channel.
- Console logging is not modelled; it has no effect on the state.
- Concurrency is not modelled. The source runs one poll at a time, and the model is sequential.
- `SnippetsController`'s constructor and `Save` are not modelled: they only create a directory and write a file. `Save`'s naming convention `<id>.md` is used in `IdOfSavedFile`. The `Guid.NewGuid()` fallback for a missing id is random, so it is left out.
- Snippets.IdOfSavedFile: it speaks of the file name only. Whether `Search` lists the file under that id depends on where `Path.Combine` puts it, and the model does not capture that. On Linux and macOS only '/' matters; '\\' and ':' are ordinary characters there. An id holding '/' makes `Path.Combine` put the file somewhere other than `<Store>/<id>.md`. It lands in a subdirectory for an id like `a/b`, outside the store for a rooted id like `/tmp/x`, and under another name for an id that climbs with `..`, like `sub/../x`. Then `Search` either misses the file or reports a different id (`x` in the last case). On Windows '\\' is also a directory separator, and an id such as `X:…` is rooted, so `Path.Combine` drops the store.
- `Directory.EnumerateFiles(Store, "*.md")` and `File.ReadAllText` are not modelled. `Search` takes the enumerated files, in enumeration order, as `(name, content)` pairs. The `*.md` pattern and the enumeration order belong to the file system.
- `Path.GetFileNameWithoutExtension` is applied to the file name without its directory. Stripping the directory part is part of the enumeration input.
- Snippets.FoldCase: `OrdinalIgnoreCase` folds case for all of Unicode, but the model folds only ASCII letters. Non-ASCII letters compare case-sensitively in the model.
- Snippets.ContainsIgnoreCase: its contract, and so the Search lemmas, describe matching under that ASCII-only folding, for the same reason.
- `Environment.NewLine` is a parameter of `Search`, either "\n" or "\r\n".
- `Repository.cs`, `Store.cs`, `PlugIn.cs`, `src/api.ts` and `src-tauri/src/lib.rs` are not part of this model. They hold dependency injection, the store path and the front-end bridge.
