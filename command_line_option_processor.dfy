/**
 * The command-line option processor: it picks the output folder, splits the
 * comma-separated input paths, and decides how many worker threads to use
 * from the number of processors and the resource option given.
 */
module CommandLine {
  import opened Wrappers
  import opened Paths
  import JavaStrings

  /** What the option parser hands over: the raw text of the input-path and
      output-folder options, which resource flags are present, and the user
      thread count when that option is present. */
  datatype OptionSet = OptionSet(
    fileToEncryptPath: string,
    outputFolderPath: string,
    utilizeHalfResource: bool,
    utilizeOptimizeResource: bool,
    utilizeFullResource: bool,
    userThreads: Option<int>)

  /** The processed options. */
  datatype CommandLineOptionProcessor = CommandLineOptionProcessor(
    fileToEncryptPaths: seq<Path>,
    outputFolderPath: Path,
    noOfThreads: int)

  function Max(a: int, b: int): int { if a >= b then a else b }

  function Min(a: int, b: int): int { if a <= b then a else b }

  /** The thread count: one on a single processor whatever the options; else
      the first present option in the order half, optimize, full, user
      decides; one when none is present.  A user count at or above the
      processor count becomes one less than it, one at or below zero becomes one. */
  function DetermineNoOfThreads(availableProcessors: nat, options: OptionSet): (r: int)
    ensures availableProcessors >= 1 ==> 1 <= r <= Max(1, availableProcessors - 1)
  {
    if availableProcessors == 1 then 1
    else if options.utilizeHalfResource then availableProcessors / 2
    else if options.utilizeOptimizeResource then (3 * availableProcessors) / 4
    else if options.utilizeFullResource then availableProcessors - 1
    else if options.userThreads.Some? then
      var userDefinedThreads := options.userThreads.value;
      if userDefinedThreads >= availableProcessors then availableProcessors - 1
      else if userDefinedThreads <= 0 then 1
      else userDefinedThreads
    else 1
  }

  /** The resource options, in the order they are consulted. */
  datatype ResourceChoice = Half | Optimize | Full | User(threads: int) | NoChoice

  /** The first resource option present, in priority order. */
  function FirstChoice(options: OptionSet): ResourceChoice {
    if options.utilizeHalfResource then Half
    else if options.utilizeOptimizeResource then Optimize
    else if options.utilizeFullResource then Full
    else if options.userThreads.Some? then User(options.userThreads.value)
    else NoChoice
  }

  /** What each option asks for on `n` processors; a user count is clamped
      into `[1, n - 1]`. */
  function ThreadsFor(n: int, choice: ResourceChoice): int {
    match choice
    case Half => n / 2
    case Optimize => (3 * n) / 4
    case Full => n - 1
    case User(t) => Max(1, Min(t, n - 1))
    case NoChoice => 1
  }

  /** With one processor the options are ignored and the files are processed
      on a single thread. */
  lemma SingleProcessorIsSequential(options: OptionSet)
    ensures DetermineNoOfThreads(1, options) == 1
  {
  }

  /** With two or more processors only the first present option counts, and
      it yields what that option asks for, the user count clamped. */
  lemma FirstPresentOptionDecides(availableProcessors: nat, options: OptionSet)
    requires availableProcessors >= 2
    ensures DetermineNoOfThreads(availableProcessors, options)
            == ThreadsFor(availableProcessors, FirstChoice(options))
  {
  }

  /** Two option sets whose first present option agrees give the same count. */
  lemma LaterOptionsIgnored(availableProcessors: nat, a: OptionSet, b: OptionSet)
    requires FirstChoice(a) == FirstChoice(b)
    ensures DetermineNoOfThreads(availableProcessors, a) == DetermineNoOfThreads(availableProcessors, b)
  {
    if availableProcessors >= 2 {
      FirstPresentOptionDecides(availableProcessors, a);
      FirstPresentOptionDecides(availableProcessors, b);
    }
  }

  /** The output folder: the user's path when its text is not blank,
      otherwise the default path. */
  function OutputFolderPath(options: OptionSet, defaultOutputFilePath: Path): (r: Path)
    ensures JavaStrings.HasText(options.outputFolderPath) ==>
              Valid(r) && (r.absolute <==> options.outputFolderPath[0] == '/')
    ensures !JavaStrings.HasText(options.outputFolderPath) ==> r == defaultOutputFilePath
  {
    if JavaStrings.HasText(options.outputFolderPath) then Parse(options.outputFolderPath)
    else defaultOutputFilePath
  }

  /** A blank user folder leaves the default in place. */
  lemma BlankOutputFolderUsesDefault(options: OptionSet, defaultOutputFilePath: Path)
    requires forall i :: 0 <= i < |options.outputFolderPath| ==> JavaStrings.IsWhitespace(options.outputFolderPath[i])
    ensures OutputFolderPath(options, defaultOutputFilePath) == defaultOutputFilePath
  {
  }

  /** A user folder given as the text of a path is that path. */
  lemma UserOutputFolderWins(options: OptionSet, defaultOutputFilePath: Path, folder: Path)
    requires Valid(folder) && options.outputFolderPath == Paths.ToString(folder)
    requires JavaStrings.HasText(Paths.ToString(folder))
    ensures OutputFolderPath(options, defaultOutputFilePath) == folder
  {
    ParseToString(folder);
  }

  /** The input paths: the option text split at commas (trailing empty
      pieces dropped), each piece trimmed and parsed, in order. */
  function FileToEncryptPaths(text: string): (r: seq<Path>)
    ensures forall i :: 0 <= i < |r| ==> Valid(r[i])
  {
    var pieces := JavaStrings.Split(text, ',');
    seq(|pieces|, i requires 0 <= i < |pieces| => Parse(JavaStrings.Trim(pieces[i])))
  }

  /** The printed forms of a list of paths. */
  function PathStrings(ps: seq<Path>): (r: seq<string>)
    ensures |r| == |ps| && forall i :: 0 <= i < |ps| ==> r[i] == Paths.ToString(ps[i])
  {
    if ps == [] then [] else [Paths.ToString(ps[0])] + PathStrings(ps[1..])
  }

  /** A path that can be written in the input option: valid, printing as a
      non-empty text with no comma and nothing to trim at either end. */
  predicate Listable(p: Path) {
    var t := Paths.ToString(p);
    Valid(p) && t != [] && ',' !in t && !JavaStrings.IsTrimmable(t[0]) && !JavaStrings.IsTrimmable(t[|t| - 1])
  }

  /** The joined text ends with the last piece's last character. */
  lemma {:induction false} JoinEndsWithLast(parts: seq<string>, sep: char)
    requires |parts| >= 1 && parts[|parts| - 1] != []
    ensures var j := JavaStrings.Join(parts, sep); j != [] && j[|j| - 1] == parts[|parts| - 1][|parts[|parts| - 1]| - 1]
  {
    if |parts| > 1 {
      JavaStrings.JoinSnoc(parts[..|parts| - 1], parts[|parts| - 1], sep);
      assert parts == parts[..|parts| - 1] + [parts[|parts| - 1]];
    }
  }

  /** Pieces whose last one does not end in a comma join to a text that
      does not end in one. */
  lemma JoinNotEndingInComma(parts: seq<string>)
    requires |parts| >= 1 && parts[|parts| - 1] != [] && parts[|parts| - 1][|parts[|parts| - 1]| - 1] != ','
    ensures var j := JavaStrings.Join(parts, ','); j != [] && j[|j| - 1] != ','
  {
    JoinEndsWithLast(parts, ',');
  }

  /** Comma-free pieces, the last one non-empty and not ending in a comma,
      survive joining with commas and splitting again. */
  lemma SplitJoinCommaFree(strs: seq<string>)
    requires |strs| >= 1
    requires forall i :: 0 <= i < |strs| ==> ',' !in strs[i]
    requires strs[|strs| - 1] != [] && strs[|strs| - 1][|strs[|strs| - 1]| - 1] != ','
    ensures JavaStrings.Split(JavaStrings.Join(strs, ','), ',') == strs
  {
    JoinNotEndingInComma(strs);
    JavaStrings.SplitJoinRoundTrip(JavaStrings.Join(strs, ','), ',');
    JavaStrings.SplitAllJoin(strs, ',');
  }

  /** Splitting the joined texts of listable paths at commas gives the texts back. */
  lemma SplitJoinedPathStrings(ps: seq<Path>)
    requires |ps| >= 1
    requires forall i :: 0 <= i < |ps| ==> Listable(ps[i])
    ensures JavaStrings.Split(JavaStrings.Join(PathStrings(ps), ','), ',') == PathStrings(ps)
  {
    var strs := PathStrings(ps);
    forall i | 0 <= i < |strs|
      ensures ',' !in strs[i] && strs[i] != []
    {
      assert Listable(ps[i]);
    }
    assert Listable(ps[|ps| - 1]);
    SplitJoinCommaFree(strs);
  }

  /** One listable path survives printing, trimming and parsing. */
  lemma PieceRoundTrip(p: Path)
    requires Listable(p)
    ensures Parse(JavaStrings.Trim(Paths.ToString(p))) == p
  {
    JavaStrings.TrimOfTrimmed(Paths.ToString(p));
    ParseToString(p);
  }

  /** Writing paths into the option joined by commas and processing the
      option gives the same paths back, in the same order. */
  lemma FileToEncryptPathsRoundTrip(ps: seq<Path>)
    requires |ps| >= 1
    requires forall i :: 0 <= i < |ps| ==> Listable(ps[i])
    ensures FileToEncryptPaths(JavaStrings.Join(PathStrings(ps), ',')) == ps
  {
    var strs := PathStrings(ps);
    SplitJoinedPathStrings(ps);
    var r := FileToEncryptPaths(JavaStrings.Join(strs, ','));
    assert |r| == |ps|;
    forall i | 0 <= i < |ps| ensures r[i] == ps[i] {
      PieceRoundTrip(ps[i]);
    }
    SameElements(r, ps);
  }

  /** Two lists of paths with the same elements at the same places are equal. */
  lemma SameElements(a: seq<Path>, b: seq<Path>)
    requires |a| == |b| && forall i :: 0 <= i < |a| ==> a[i] == b[i]
    ensures a == b
  {
  }

  /** The message of the `FileNotFoundException` for an unusable output folder. */
  function OutputFolderMessage(folder: Path): string {
    "Output directory path \"" + Paths.ToString(folder)
    + "\" does not exist and it was not possible to create it either."
  }

  /** The constructor: choose the output folder, fail when it neither exists
      nor can be created (`folderUsable` stands for `exists() || mkdirs()`),
      then read the input paths and the thread count. */
  function ProcessOptions(options: OptionSet, defaultOutputFilePath: Path, availableProcessors: nat,
                          folderUsable: Path -> bool): (r: Result<CommandLineOptionProcessor, JavaException>)
    ensures r.Failure? <==> !folderUsable(OutputFolderPath(options, defaultOutputFilePath))
    ensures r.Failure? ==> r.error == FileNotFound(OutputFolderMessage(OutputFolderPath(options, defaultOutputFilePath)))
    ensures r.Success? ==> r.value.outputFolderPath == OutputFolderPath(options, defaultOutputFilePath)
    ensures r.Success? ==> r.value.fileToEncryptPaths == FileToEncryptPaths(options.fileToEncryptPath)
    ensures r.Success? ==> r.value.noOfThreads == DetermineNoOfThreads(availableProcessors, options)
  {
    var outputFolderPath := OutputFolderPath(options, defaultOutputFilePath);
    if !folderUsable(outputFolderPath) then
      Failure(FileNotFound(OutputFolderMessage(outputFolderPath)))
    else
      Success(CommandLineOptionProcessor(
        FileToEncryptPaths(options.fileToEncryptPath),
        outputFolderPath,
        DetermineNoOfThreads(availableProcessors, options)))
  }
}
