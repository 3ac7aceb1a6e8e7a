# ega-cryptor: command-line options, file discovery and task dispatch in Dafny

ega-cryptor encrypts files for submission to the European Genome-phenome
Archive. For each input file it writes a PGP-encrypted copy and two MD5
checksums. This project models the code that decides **what** is
processed and **how many threads** process it. The encryption itself is not
modelled.

- **Option processing** (`CommandLine`, file `command_line_option_processor.dfy`)
  - The output folder is the user's path when its text is not blank.
    Otherwise it is the default path.
  - The construction fails with a `FileNotFoundException` when the output
    folder neither exists nor can be created.
  - The input paths are the option text split at commas, each piece trimmed
    and parsed.
  - The thread count comes from the processor count and the resource flags.
    Half, optimize, full and user-defined are checked in that order; a user
    count is clamped.
- **File discovery** (`Discovery`, file `file_discovery_service.dfy`)
  - Every root is walked.
  - A walked path is kept when it is a regular file, known not to be hidden,
    of an allowed extension and not a directory.
  - Each kept path becomes a work item. With a non-empty output folder, its
    output directory mirrors the file's place below the root under that
    folder. With an empty output folder it is the file's parent.
  - A root whose walk cannot start contributes nothing.
- **Task dispatch** (`TaskExecutor`, file `task_executor_service.dfy`)
  - The pipeline is a class that records every call to `process` and throws
    for the items of a fixed set.
  - The sequential executor calls it in list order, and the first exception
    escapes.
  - The parallel executor builds a pool of `min(size, noOfThreads)` threads.
    Every item is processed exactly once, in an order the pool chooses. The
    futures are awaited in submission order and the failures logged.
- **The work item** (`Model`, file `file_to_process.dfy`)
  - The item is a datatype holding the file and its output directory.
  - The one-argument constructor takes the output directory to be the file's
    parent.
  - `equals`, `hashCode` (with 32-bit wrap-around) and `toString` are
    modelled, with the `NullPointerException`s they throw. `hashCode` and
    `toString` throw when the output directory is `null`. `equals` throws
    only when the files agree and the receiver's output is `null`.

Support modules:
- `Wrappers`: Option, Result, and the Java exceptions raised.
- `JavaStrings`: `Character.isWhitespace` (as of Java 9), `hasText`, `String.trim` and
  `String.split` with a one-character separator.
- `Paths`: Unix `java.nio.file.Path` as a root flag plus name elements. It
  covers `Paths.get`, `toString`, `getParent`, `subpath` and `resolve`.

The file system, the processor count, the pipeline's behaviour and the hash
of a path are all parameters of the model.

## Model

| member | source | states |
|---|---|---|
| JavaStrings.Trim | src/main/java/uk/ac/ebi/ega/egacryptor/runner/CommandLineOptionProcessor.java:65 | the trimmed text is a slice of the input; everything cut off at either end is at or below U+0020, and the result neither starts nor ends with such a character |
| JavaStrings.TrimIdempotent | src/main/java/uk/ac/ebi/ega/egacryptor/runner/CommandLineOptionProcessor.java:65 | trimming twice equals trimming once |
| JavaStrings.TrimOfTrimmed | src/main/java/uk/ac/ebi/ega/egacryptor/runner/CommandLineOptionProcessor.java:65 | a text with no trimmable character at either end is its own trim |
| JavaStrings.HasText | src/main/java/uk/ac/ebi/ega/egacryptor/runner/CommandLineOptionProcessor.java:52 | `hasText` is false exactly when every character is whitespace, the empty text included |
| JavaStrings.Split | src/main/java/uk/ac/ebi/ega/egacryptor/runner/CommandLineOptionProcessor.java:64 | no piece holds the separator; a text without the separator is its own single piece; otherwise no piece is left empty at the end |
| JavaStrings.SplitAll | src/main/java/uk/ac/ebi/ega/egacryptor/runner/CommandLineOptionProcessor.java:64 | there is at least one piece, and no piece contains the separator |
| JavaStrings.JoinSplitAll | src/main/java/uk/ac/ebi/ega/egacryptor/runner/CommandLineOptionProcessor.java:64 | joining all the pieces with the separator gives the text back |
| JavaStrings.SplitAllJoin | src/main/java/uk/ac/ebi/ega/egacryptor/runner/CommandLineOptionProcessor.java:64 | splitting a join of separator-free pieces gives the pieces back |
| JavaStrings.DropTrailingEmpty | src/main/java/uk/ac/ebi/ega/egacryptor/runner/CommandLineOptionProcessor.java:64 | the result is a prefix of the pieces that does not end with an empty piece, and only empty pieces were dropped |
| JavaStrings.SplitPieces | src/main/java/uk/ac/ebi/ega/egacryptor/runner/CommandLineOptionProcessor.java:64 | `split` pieces hold no separator; their join is a prefix of the text, and the rest of the text is separators only |
| JavaStrings.SplitJoinRoundTrip | src/main/java/uk/ac/ebi/ega/egacryptor/runner/CommandLineOptionProcessor.java:64 | a text not ending in the separator keeps every piece under `split`, and the pieces join back to it |
| Paths.Parse | src/main/java/uk/ac/ebi/ega/egacryptor/runner/CommandLineOptionProcessor.java:53 | `Paths.get` gives valid name elements; the path is absolute exactly when the text starts with `/` |
| Paths.ToString | src/main/java/uk/ac/ebi/ega/egacryptor/service/FileDiscoveryService.java:93 | an absolute path prints starting with `/`; a path without names prints as `/` when absolute and as the empty text otherwise |
| Paths.ParseToString | src/main/java/uk/ac/ebi/ega/egacryptor/runner/CommandLineOptionProcessor.java:53 | parsing a valid path's text gives the path back |
| Paths.ToStringInjective | src/main/java/uk/ac/ebi/ega/egacryptor/model/FileToProcess.java:46-47 | distinct valid paths print differently |
| Paths.ToStringEmpty | src/main/java/uk/ac/ebi/ega/egacryptor/service/FileDiscoveryService.java:93 | a valid path prints as the empty text exactly when it is the empty path |
| Paths.GetParent | src/main/java/uk/ac/ebi/ega/egacryptor/model/FileToProcess.java:32 | a parent exists exactly for two or more names, or one name below the root; it keeps the root flag, and together with the last name it gives the names back |
| Paths.Subpath | src/main/java/uk/ac/ebi/ega/egacryptor/service/FileDiscoveryService.java:99 | `subpath(b, e)` succeeds exactly when `b < e <= nameCount`; the result is relative and holds names `b` to `e - 1` |
| Paths.Resolve | src/main/java/uk/ac/ebi/ega/egacryptor/service/FileDiscoveryService.java:100 | an absolute argument replaces the path; a relative one is appended to its names |
| Paths.ResolveLastNameAgainstParent | src/main/java/uk/ac/ebi/ega/egacryptor/model/FileToProcess.java:31-33 | a path with a parent is its last name resolved against that parent |
| Paths.SubpathOfResolved | src/main/java/uk/ac/ebi/ega/egacryptor/service/FileDiscoveryService.java:99 | the names after the root's, in a path resolved against the root, are the relative path that was resolved |
| Model.ForSource | src/main/java/uk/ac/ebi/ega/egacryptor/model/FileToProcess.java:31-33 | the one-argument constructor keeps the file; it has an output directory exactly when the file has a parent, and the file lies directly in that directory |
| Model.Equals | src/main/java/uk/ac/ebi/ega/egacryptor/model/FileToProcess.java:51-59 | `equals` throws exactly when the files agree and the receiver's output is `null`; it is `true` exactly when both fields agree and the output is present |
| Model.EqualsReflexive | src/main/java/uk/ac/ebi/ega/egacryptor/model/FileToProcess.java:51-59 | an item with an output directory equals itself |
| Model.EqualsSymmetric | src/main/java/uk/ac/ebi/ega/egacryptor/model/FileToProcess.java:51-59 | for items with output directories, `a.equals(b)` agrees with `b.equals(a)` |
| Model.WrapInt32 | src/main/java/uk/ac/ebi/ega/egacryptor/model/FileToProcess.java:64 | the wrapped value is a 32-bit `int` congruent to the input modulo 2^32 |
| Model.WrapInt32Congruent | src/main/java/uk/ac/ebi/ega/egacryptor/model/FileToProcess.java:64 | integers congruent modulo 2^32 wrap to the same `int` |
| Model.HashCode | src/main/java/uk/ac/ebi/ega/egacryptor/model/FileToProcess.java:62-66 | `hashCode` throws exactly when the output directory is `null`; otherwise it is congruent to `31 * h(file) + h(output)` modulo 2^32 |
| Model.HashCodeIsPolynomial | src/main/java/uk/ac/ebi/ega/egacryptor/model/FileToProcess.java:62-66 | the step-by-step `int` arithmetic of `hashCode` equals `31 * h(file) + h(output)` taken modulo 2^32 |
| Model.EqualsConsistentWithHashCode | src/main/java/uk/ac/ebi/ega/egacryptor/model/FileToProcess.java:51-66 | items that are equal have the same hash code, and it does not throw |
| Model.ToString | src/main/java/uk/ac/ebi/ega/egacryptor/model/FileToProcess.java:44-47 | `toString` returns a text exactly when the output directory is present |
| Model.ToStringDeterminesItem | src/main/java/uk/ac/ebi/ega/egacryptor/model/FileToProcess.java:44-47 | two items that print the same are equal, when their file paths print without a comma |
| CommandLine.DetermineNoOfThreads | src/main/java/uk/ac/ebi/ega/egacryptor/runner/CommandLineOptionProcessor.java:74-108 | for at least one processor the count lies between 1 and `max(1, processors - 1)` |
| CommandLine.SingleProcessorIsSequential | src/main/java/uk/ac/ebi/ega/egacryptor/runner/CommandLineOptionProcessor.java:78-81 | with one processor the count is 1, whatever the options |
| CommandLine.FirstPresentOptionDecides | src/main/java/uk/ac/ebi/ega/egacryptor/runner/CommandLineOptionProcessor.java:82-107 | with two or more processors the first flag present, in the order half, optimize, full, user, decides. Half gives `n / 2`, optimize `3n / 4`, full `n - 1`, a user count is clamped into `[1, n - 1]`, and no flag gives 1 |
| CommandLine.LaterOptionsIgnored | src/main/java/uk/ac/ebi/ega/egacryptor/runner/CommandLineOptionProcessor.java:82-105 | option sets that agree on the first flag present give the same count |
| CommandLine.OutputFolderPath | src/main/java/uk/ac/ebi/ega/egacryptor/runner/CommandLineOptionProcessor.java:52-54 | a folder text with text gives a valid path that is absolute exactly when the text starts with `/`; otherwise the default folder is used |
| CommandLine.BlankOutputFolderUsesDefault | src/main/java/uk/ac/ebi/ega/egacryptor/runner/CommandLineOptionProcessor.java:52-54 | a blank user folder gives the default folder |
| CommandLine.UserOutputFolderWins | src/main/java/uk/ac/ebi/ega/egacryptor/runner/CommandLineOptionProcessor.java:52-53 | a user folder with text is used as given |
| CommandLine.FileToEncryptPaths | src/main/java/uk/ac/ebi/ega/egacryptor/runner/CommandLineOptionProcessor.java:64-65 | every input path is a valid parsed path |
| CommandLine.FileToEncryptPathsRoundTrip | src/main/java/uk/ac/ebi/ega/egacryptor/runner/CommandLineOptionProcessor.java:64-65 | joining listable paths with commas and processing the option gives the same paths back in the same order |
| CommandLine.ProcessOptions | src/main/java/uk/ac/ebi/ega/egacryptor/runner/CommandLineOptionProcessor.java:49-68 | construction fails exactly when the chosen folder is unusable, with the `FileNotFoundException` message; otherwise it holds that folder, the processed input paths and exactly the thread count `DetermineNoOfThreads` chooses for the options |
| Discovery.IsValidFilePath | src/main/java/uk/ac/ebi/ega/egacryptor/service/FileDiscoveryService.java:61-90 | a path is kept exactly when it is a regular file, known not to be hidden, of an allowed extension and not a directory. A failing hidden check rejects it |
| Discovery.ValidFilePaths | src/main/java/uk/ac/ebi/ega/egacryptor/service/FileDiscoveryService.java:52 | the filter keeps exactly the walked paths that pass the check |
| Discovery.CalculateOutputPath | src/main/java/uk/ac/ebi/ega/egacryptor/service/FileDiscoveryService.java:92-104 | `calculateOutputPath` throws exactly when the output folder prints non-empty, the path is not the root and it has no more names than the root (the `subpath` failure); the item keeps the path, and with a non-empty output folder it has an output directory |
| Discovery.EmptyOutputFolderUsesParent | src/main/java/uk/ac/ebi/ega/egacryptor/service/FileDiscoveryService.java:93-95 | with an empty output folder an item's output is the file's parent |
| Discovery.OutputMirrorsSourceTree | src/main/java/uk/ac/ebi/ega/egacryptor/service/FileDiscoveryService.java:97-103 | with an output folder, a file at `rel` below the root goes to the output folder extended by `rel` without its last name. So the root itself, and files directly in it, go to the output folder itself |
| Discovery.MapOutputPaths | src/main/java/uk/ac/ebi/ega/egacryptor/service/FileDiscoveryService.java:53 | one item per kept path, in order, each with that path as its file and each exactly what `calculateOutputPath` gives for it; the map fails exactly when `calculateOutputPath` fails for some path |
| Discovery.DiscoverFiles | src/main/java/uk/ac/ebi/ega/egacryptor/service/FileDiscoveryService.java:49-59 | an unreadable root gives no items; a walk that breaks off fails; on success there is one item per kept walked path, each what `calculateOutputPath` gives for it and the root |
| Discovery.DiscoverFilesRecursively | src/main/java/uk/ac/ebi/ega/egacryptor/service/FileDiscoveryService.java:39-47 | discovery over a list of roots succeeds exactly when discovery succeeds for every root |
| Discovery.DiscoverFilesRecursivelyAppend | src/main/java/uk/ac/ebi/ega/egacryptor/service/FileDiscoveryService.java:43-46 | discovery over two lists of roots is discovery over the first list, then over the second, the results concatenated and the first failure kept |
| Discovery.UnreadableRootIsSkipped | src/main/java/uk/ac/ebi/ega/egacryptor/service/FileDiscoveryService.java:49-58 | a root whose walk fails contributes nothing, and the other roots are discovered as if it were absent |
| Discovery.Candidates | src/main/java/uk/ac/ebi/ega/egacryptor/service/FileDiscoveryService.java:50-52 | the candidate sources are exactly the walked paths that pass the check |
| Discovery.CandidateRoots | src/main/java/uk/ac/ebi/ega/egacryptor/service/FileDiscoveryService.java:43-52 | one root per candidate, each one of the given roots |
| Discovery.SourcesAreCandidates | src/main/java/uk/ac/ebi/ega/egacryptor/service/FileDiscoveryService.java:43-54 | the discovered items' files are the candidates, one item each, in root and walk order, unchanged; each item is what `calculateOutputPath` gives for its candidate and the root it was walked from |
| Discovery.OutputPathBelowRoot | src/main/java/uk/ac/ebi/ega/egacryptor/service/FileDiscoveryService.java:97-103 | a path under the root gets its output directory without a `subpath` failure |
| Discovery.MapOutputPathsBelowRoot | src/main/java/uk/ac/ebi/ega/egacryptor/service/FileDiscoveryService.java:53 | paths all under the root all get their output directories |
| Discovery.DiscoverFilesDoesNotFail | src/main/java/uk/ac/ebi/ega/egacryptor/service/FileDiscoveryService.java:49-58 | a root whose walk stays under it and finishes is discovered without failure |
| Discovery.DiscoveryDoesNotFail | src/main/java/uk/ac/ebi/ega/egacryptor/service/FileDiscoveryService.java:43-58 | when every walk stays under its root and finishes, discovery does not fail |
| Discovery.RootFileGoesToOutputFolder | src/test/java/uk/ac/ebi/ega/egacryptor/service/FileDiscoveryServiceTest.java:56-77 | a kept file given as its own root, with an output folder, yields one item whose output is that folder |
| Discovery.SiblingArtifactDoesNotHideSource | src/test/java/uk/ac/ebi/ega/egacryptor/service/FileDiscoveryServiceTest.java:121-138 | a source given with a sibling of denied extension is discovered, with its parent as output, and the sibling is skipped |
| TaskExecutor.CryptographyPipeline.Process | src/main/java/uk/ac/ebi/ega/egacryptor/service/TaskExecutorService.java:60 | each call of `process` is recorded, and it throws exactly for the failing items |
| TaskExecutor.SequentialCalls | src/main/java/uk/ac/ebi/ega/egacryptor/service/TaskExecutorService.java:60 | the sequential calls have these properties:<br>- they are a prefix of the list;<br>- no call but the last fails;<br>- when they stop short of the list, the last call failed |
| TaskExecutor.FirstFailure | src/main/java/uk/ac/ebi/ega/egacryptor/service/TaskExecutorService.java:60 | nothing escapes exactly when no item fails; what escapes is a failing item of the list |
| TaskExecutor.SequentialWithoutFailure | src/test/java/uk/ac/ebi/ega/egacryptor/service/TaskExecutorServiceTest.java:69-76 | with no failing item every item is processed in order, duplicates included, and nothing escapes |
| TaskExecutor.SequentialStopsAtFirstFailure | src/main/java/uk/ac/ebi/ega/egacryptor/service/TaskExecutorService.java:60 | when the first failing item is the i-th, exactly the first i + 1 items are processed and its exception escapes |
| TaskExecutor.EscapedIsLastCall | src/main/java/uk/ac/ebi/ega/egacryptor/service/TaskExecutorService.java:60 | the item whose exception escapes is the last one processed |
| TaskExecutor.TaskExecutorService.Execute | src/main/java/uk/ac/ebi/ega/egacryptor/service/TaskExecutorService.java:52-61 | the call trace grows by exactly the sequential calls. An empty list therefore makes no call. The escaping exception is the first failure |
| TaskExecutor.PoolSize | src/main/java/uk/ac/ebi/ega/egacryptor/service/TaskExecutorService.java:80 | the pool size is at most the list size and at most the requested count, and is one of them. For a non-empty list it is positive exactly when the requested count is |
| TaskExecutor.ChosenThreadsGiveUsablePool | src/main/java/uk/ac/ebi/ega/egacryptor/service/TaskExecutorService.java:80-83 | the thread count chosen from the options gives a pool of 1 to `size` threads for any non-empty list |
| TaskExecutor.Failures | src/main/java/uk/ac/ebi/ega/egacryptor/service/TaskExecutorService.java:90-99 | the logged failures hold each failing item as often as it occurs in the list, and no other item |
| TaskExecutor.TaskExecutorService.RunTasks | src/main/java/uk/ac/ebi/ega/egacryptor/service/TaskExecutorService.java:83-88 | the pool at work:<br>- every submitted item is processed exactly once, so the new calls are a permutation of the list;<br>- each future's outcome records whether its call threw;<br>- with one thread the calls are in list order |
| TaskExecutor.AwaitFutures | src/main/java/uk/ac/ebi/ega/egacryptor/service/TaskExecutorService.java:90-99 | awaiting the futures in submission order logs exactly the failures, in list order |
| TaskExecutor.TaskExecutorService.ExecuteParallel | src/main/java/uk/ac/ebi/ega/egacryptor/service/TaskExecutorService.java:71-101 | the parallel overload:<br>- an empty list makes no call;<br>- a pool size below 1 throws `IllegalArgumentException` before any call;<br>- otherwise the new calls are a permutation of the list, in list order on one thread, and the logged failures are the failing items in list order |

## Left out

- The encryption pipeline is not part of this model. That covers PGP encryption, the two MD5 checksums and the skipping of existing artifacts. `TaskExecutor.CryptographyPipeline` only records calls and throws for a fixed set of items.
- The thread pool is not modelled as threads. There are no threads, no `Future.get` wrapping, no `InterruptedException` handling and no `shutdownNow`.
  - The pool's scheduling is a nondeterministic choice of the next task. The task must be at a queue position below the pool size.
  - Nothing bounds how many calls run at once, because the model has no concurrency.
- Logging is not modelled anywhere.
- The file system is a parameter (`Discovery.FileSystem`):
  - `Files.walk`, as its outcome: unreadable, the paths in walk order, or broken off part-way;
  - `isRegularFile`, `isHidden` and `isDirectory`;
  - `FileExtensionType.containsFileExtension`, whose list of denied extensions is not part of this model.
  - The invariant that a walk yields only paths below its root is a hypothesis (`Discovery.WalkBelowRoot`), not a fact of the model.
- `CommandLine.ProcessOptions`: several inputs are parameters rather than modelled behaviour.
  - `exists() || mkdirs()` is the `folderUsable` parameter, and the directories are not created.
  - `Runtime.availableProcessors()` is a parameter.
  - The joptsimple option set is a plain record. `Integer.parseInt` of the user thread count is not modelled, and neither is its `NumberFormatException`.
- `normalize()` and `toAbsolutePath()` are not modelled, so `.` and `..` names stay as written and relative paths are not made absolute. The `FileNotFoundException` message prints the folder as given.
- `Paths.Parse`:
  - does not reject a NUL character (`InvalidPathException`);
  - gives the empty text zero names, where Java's empty path has one empty name. The difference shows only for an empty root with a non-empty output folder.
- `CommandLine.DetermineNoOfThreads` models the optimize branch `(int) (n * 0.75f)` as `(3 * n) / 4`. The two agree for every processor count below 2^22, where the float product is exact.
- `Model.Equals`:
  - does not model the identity shortcut `this == o`, which makes an item equal to itself even when its output is `null`;
  - does not model the `instanceof` test, since both arguments are items.
- `Model.HashCode` takes the hash of a path as a parameter, because `Path.hashCode` is not part of this model.
- `JavaStrings` treats a Java `char` as a Dafny `char`. Surrogate pairs and other UTF-16 detail are not modelled.
- `JavaStrings.SplitAll` does not state in its contract where each piece lies in the text. That is stated by `JavaStrings.JoinSplitAll` and `JavaStrings.SplitAllJoin` instead.
- The sequential overload of `execute` keeps the code's failure behaviour: `forEach` at `TaskExecutorService.java:60` has no catch. The first exception from `process` therefore stops the remaining items and escapes `execute`, and the model does the same.
- The parallel overload keeps the code's pool construction: `newFixedThreadPool` at `TaskExecutorService.java:83` throws `IllegalArgumentException` when `min(size, noOfThreads)` is not positive, and the model returns that exception. `TaskExecutor.ChosenThreadsGiveUsablePool` shows that the thread count chosen from the options never reaches that case.
