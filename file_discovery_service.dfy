/**
 * File discovery: walk every root, keep the regular, visible files whose
 * extension is allowed, and pair each with its output directory, mirroring
 * the file's place below the root under the output folder.  The file system
 * and the extension list are given as a value; the walk of a root either
 * fails at once (an `IOException`, which gives that root no files), yields
 * its paths, or breaks off part-way (an `UncheckedIOException`, which escapes).
 */
module Discovery {
  import opened Wrappers
  import opened Paths
  import opened Model

  /** The result of `Files.walk` on one root, collected in walk order. */
  datatype WalkOutcome =
    | Unreadable
    | Walked(paths: seq<Path>, brokeOff: bool)

  /** What discovery asks of the file system: the walk of a root, the
      regular-file, hidden (`None` when the check throws) and directory
      tests, and the denied-extension test on a path's text. */
  datatype FileSystem = FileSystem(
    walk: Path -> WalkOutcome,
    isRegularFile: Path -> bool,
    isHidden: Path -> Option<bool>,
    isDirectory: Path -> bool,
    hasDeniedExtension: string -> bool)

  /** Why discovery may fail. */
  datatype DiscoveryError = Thrown(exception: JavaException) | WalkBrokeOff(root: Path)

  /** The guards of `isValidFilePath`, in order: not a regular file, hidden
      or not checkable for hiddenness, a denied extension, a directory.  A
      path passes exactly when it is a regular file, known not to be hidden,
      of an allowed extension and not a directory. */
  predicate IsValidFilePath(fs: FileSystem, path: Path): (r: bool)
    ensures r <==> fs.isRegularFile(path) && fs.isHidden(path) == Some(false)
                   && !fs.hasDeniedExtension(Paths.ToString(path)) && !fs.isDirectory(path)
  {
    if !fs.isRegularFile(path) then false
    else if fs.isHidden(path) != Some(false) then false
    else if fs.hasDeniedExtension(Paths.ToString(path)) then false
    else !fs.isDirectory(path)
  }

  /** The walked paths that pass `isValidFilePath`, in walk order. */
  function ValidFilePaths(fs: FileSystem, paths: seq<Path>): (r: seq<Path>)
    ensures |r| <= |paths|
    ensures forall p :: p in r <==> p in paths && IsValidFilePath(fs, p)
  {
    if paths == [] then []
    else (if IsValidFilePath(fs, paths[0]) then [paths[0]] else []) + ValidFilePaths(fs, paths[1..])
  }

  /** `calculateOutputPath`: with an empty output folder the item goes next to
      the file; otherwise when the file is the root, or lies directly in it,
      the item goes to the output folder itself, and else to the output folder
      extended by the file's directory relative to the root.  `subpath` may
      throw when the file is not below the root. */
  function CalculateOutputPath(rootFilePath: Path, subFilePath: Path, outputFilePath: Path)
    : (r: Result<FileToProcess, JavaException>)
    ensures r.Failure? <==> |Paths.ToString(outputFilePath)| != 0 && subFilePath != rootFilePath
                            && NameCount(subFilePath) <= NameCount(rootFilePath)
    ensures r.Success? ==> r.value.fileToEncryptPath == subFilePath
    ensures r.Success? && |Paths.ToString(outputFilePath)| != 0 ==> r.value.outputFilePath.Some?
  {
    if |Paths.ToString(outputFilePath)| == 0 then
      Success(ForSource(subFilePath))
    else if subFilePath != rootFilePath then
      match Subpath(subFilePath, NameCount(rootFilePath), NameCount(subFilePath))
      case Failure(e) => Failure(e)
      case Success(subPathMinusRootPath) =>
        match GetParent(subPathMinusRootPath)
        case Some(parent) => Success(FileToProcess(subFilePath, Some(Resolve(outputFilePath, parent))))
        case None => Success(FileToProcess(subFilePath, Some(outputFilePath)))
    else
      Success(FileToProcess(subFilePath, Some(outputFilePath)))
  }

  /** The directory part of a relative path: all names but the last. */
  function DirectoryPart(rel: Path): Path {
    if rel.names == [] then EmptyPath else Path(false, rel.names[..|rel.names| - 1])
  }

  /** With an empty output folder every item goes next to its file. */
  lemma EmptyOutputFolderUsesParent(rootFilePath: Path, subFilePath: Path, outputFilePath: Path)
    requires Valid(outputFilePath) && outputFilePath == EmptyPath
    ensures CalculateOutputPath(rootFilePath, subFilePath, outputFilePath)
            == Success(FileToProcess(subFilePath, GetParent(subFilePath)))
  {
  }

  /** Mirroring: a file at `rel` below the root goes to the output folder
      extended by `rel` without its last name; so the root itself and the
      files directly in it go to the output folder itself. */
  lemma OutputMirrorsSourceTree(rootFilePath: Path, rel: Path, outputFilePath: Path)
    requires !rel.absolute
    requires |Paths.ToString(outputFilePath)| != 0
    ensures CalculateOutputPath(rootFilePath, Resolve(rootFilePath, rel), outputFilePath)
            == Success(FileToProcess(Resolve(rootFilePath, rel), Some(Resolve(outputFilePath, DirectoryPart(rel)))))
  {
    var sub := Resolve(rootFilePath, rel);
    if rel.names == [] {
      assert sub.names == rootFilePath.names;
      assert Resolve(outputFilePath, EmptyPath).names == outputFilePath.names;
    } else {
      assert sub.names != rootFilePath.names;
      SubpathOfResolved(rootFilePath, rel);
      if |rel.names| == 1 {
        assert Resolve(outputFilePath, DirectoryPart(rel)).names == outputFilePath.names;
      }
    }
  }

  /** One output item per path, in order; the first `subpath` failure escapes. */
  function MapOutputPaths(rootFilePath: Path, paths: seq<Path>, outputFilePath: Path)
    : (r: Result<seq<FileToProcess>, JavaException>)
    ensures r.Success? ==> |r.value| == |paths|
    ensures r.Success? ==> forall i :: 0 <= i < |paths| ==> r.value[i].fileToEncryptPath == paths[i]
    ensures r.Success? ==> forall i :: 0 <= i < |paths| ==>
              CalculateOutputPath(rootFilePath, paths[i], outputFilePath) == Success(r.value[i])
    ensures r.Failure? <==> exists i :: 0 <= i < |paths| && CalculateOutputPath(rootFilePath, paths[i], outputFilePath).Failure?
  {
    if paths == [] then Success([])
    else
      match CalculateOutputPath(rootFilePath, paths[0], outputFilePath)
      case Failure(e) => Failure(e)
      case Success(item) =>
        match MapOutputPaths(rootFilePath, paths[1..], outputFilePath)
        case Failure(e) => Failure(e)
        case Success(items) => Success([item] + items)
  }

  /** `discoverFiles`: an unreadable root gives no items; otherwise the valid
      walked paths with their output directories, unless `subpath` throws or
      the walk breaks off. */
  function DiscoverFiles(fs: FileSystem, rootFilePath: Path, outputFilePath: Path)
    : (r: Result<seq<FileToProcess>, DiscoveryError>)
    ensures fs.walk(rootFilePath).Unreadable? ==> r == Success([])
    ensures fs.walk(rootFilePath).Walked? && fs.walk(rootFilePath).brokeOff ==> r.Failure?
    ensures r.Success? && fs.walk(rootFilePath).Walked? ==>
              var valid := ValidFilePaths(fs, fs.walk(rootFilePath).paths);
              |r.value| == |valid| && forall i :: 0 <= i < |valid| ==>
                CalculateOutputPath(rootFilePath, valid[i], outputFilePath) == Success(r.value[i])
  {
    match fs.walk(rootFilePath)
    case Unreadable => Success([])
    case Walked(paths, brokeOff) =>
      match MapOutputPaths(rootFilePath, ValidFilePaths(fs, paths), outputFilePath)
      case Failure(e) => Failure(Thrown(e))
      case Success(items) => if brokeOff then Failure(WalkBrokeOff(rootFilePath)) else Success(items)
  }

  /** `discoverFilesRecursively`: the roots' items concatenated in root
      order; the first failure escapes. */
  function DiscoverFilesRecursively(fs: FileSystem, rootFilePaths: seq<Path>, outputFilePath: Path)
    : (r: Result<seq<FileToProcess>, DiscoveryError>)
    ensures r.Success? <==> forall i :: 0 <= i < |rootFilePaths| ==> DiscoverFiles(fs, rootFilePaths[i], outputFilePath).Success?
  {
    if rootFilePaths == [] then Success([])
    else
      match DiscoverFiles(fs, rootFilePaths[0], outputFilePath)
      case Failure(e) => Failure(e)
      case Success(items) =>
        match DiscoverFilesRecursively(fs, rootFilePaths[1..], outputFilePath)
        case Failure(e) => Failure(e)
        case Success(rest) => Success(items + rest)
  }

  /** Two results in sequence: the first failure, or both item lists joined. */
  function Then(a: Result<seq<FileToProcess>, DiscoveryError>, b: Result<seq<FileToProcess>, DiscoveryError>)
    : Result<seq<FileToProcess>, DiscoveryError>
  {
    match a
    case Failure(e) => Failure(e)
    case Success(x) =>
      match b
      case Failure(e) => Failure(e)
      case Success(y) => Success(x + y)
  }

  /** Discovery over two lists of roots is discovery over the first followed
      by discovery over the second. */
  lemma {:induction false} DiscoverFilesRecursivelyAppend(fs: FileSystem, a: seq<Path>, b: seq<Path>, outputFilePath: Path)
    ensures DiscoverFilesRecursively(fs, a + b, outputFilePath)
            == Then(DiscoverFilesRecursively(fs, a, outputFilePath), DiscoverFilesRecursively(fs, b, outputFilePath))
  {
    var rb := DiscoverFilesRecursively(fs, b, outputFilePath);
    if a == [] {
      assert a + b == b;
      if rb.Success? {
        assert [] + rb.value == rb.value;
      }
    } else {
      HeadAndTailOfAppend(a, b);
      DiscoverFilesRecursivelyAppend(fs, a[1..], b, outputFilePath);
      var first := DiscoverFiles(fs, a[0], outputFilePath);
      var rest := DiscoverFilesRecursively(fs, a[1..], outputFilePath);
      assert DiscoverFilesRecursively(fs, a, outputFilePath) == Then(first, rest);
      assert DiscoverFilesRecursively(fs, a + b, outputFilePath) == Then(first, Then(rest, rb));
      ThenAssociative(first, rest, rb);
    }
  }

  /** Results in sequence can be grouped either way. */
  lemma ThenAssociative(x: Result<seq<FileToProcess>, DiscoveryError>, y: Result<seq<FileToProcess>, DiscoveryError>,
                        z: Result<seq<FileToProcess>, DiscoveryError>)
    ensures Then(x, Then(y, z)) == Then(Then(x, y), z)
  {
    if x.Success? && y.Success? && z.Success? {
      assert x.value + (y.value + z.value) == (x.value + y.value) + z.value;
    }
  }

  /** The head and the tail of `a + b` for a non-empty `a`. */
  lemma HeadAndTailOfAppend(a: seq<Path>, b: seq<Path>)
    requires a != []
    ensures (a + b)[0] == a[0] && (a + b)[1..] == a[1..] + b
  {
  }

  /** A root whose walk fails contributes nothing, and the other roots are
      discovered as if it were absent. */
  lemma UnreadableRootIsSkipped(fs: FileSystem, before: seq<Path>, root: Path, after: seq<Path>, outputFilePath: Path)
    requires fs.walk(root) == Unreadable
    ensures DiscoverFilesRecursively(fs, before + [root] + after, outputFilePath)
            == DiscoverFilesRecursively(fs, before + after, outputFilePath)
  {
    DiscoverFilesRecursivelyAppend(fs, before + [root], after, outputFilePath);
    DiscoverFilesRecursivelyAppend(fs, before, [root], outputFilePath);
    DiscoverFilesRecursivelyAppend(fs, before, after, outputFilePath);
    assert DiscoverFilesRecursively(fs, [root], outputFilePath) == Success([]);
    match DiscoverFilesRecursively(fs, before, outputFilePath)
    case Failure(_) =>
    case Success(x) => assert x + [] == x;
  }

  /** Every path any root's walk yields, the roots taken in order. */
  function AllWalked(fs: FileSystem, rootFilePaths: seq<Path>): seq<Path> {
    if rootFilePaths == [] then []
    else
      (match fs.walk(rootFilePaths[0]) case Unreadable => [] case Walked(paths, _) => paths)
      + AllWalked(fs, rootFilePaths[1..])
  }

  /** The sources discovery can pick: each root's valid walked paths, in
      root order; exactly the walked paths that pass `isValidFilePath`. */
  function Candidates(fs: FileSystem, rootFilePaths: seq<Path>): (r: seq<Path>)
    ensures forall p :: p in r <==> p in AllWalked(fs, rootFilePaths) && IsValidFilePath(fs, p)
  {
    if rootFilePaths == [] then []
    else
      (match fs.walk(rootFilePaths[0]) case Unreadable => [] case Walked(paths, _) => ValidFilePaths(fs, paths))
      + Candidates(fs, rootFilePaths[1..])
  }

  /** The root each candidate was walked from. */
  function CandidateRoots(fs: FileSystem, rootFilePaths: seq<Path>): (r: seq<Path>)
    ensures |r| == |Candidates(fs, rootFilePaths)|
    ensures forall i :: 0 <= i < |r| ==> r[i] in rootFilePaths
  {
    if rootFilePaths == [] then []
    else
      var n := match fs.walk(rootFilePaths[0]) case Unreadable => 0 case Walked(paths, _) => |ValidFilePaths(fs, paths)|;
      seq(n, _ => rootFilePaths[0]) + CandidateRoots(fs, rootFilePaths[1..])
  }

  /** The discovered items are the candidates, one item each, in order:
      each item is what `calculateOutputPath` gives for its candidate and
      the root it was walked from. */
  lemma {:induction false} SourcesAreCandidates(fs: FileSystem, rootFilePaths: seq<Path>, outputFilePath: Path)
    requires DiscoverFilesRecursively(fs, rootFilePaths, outputFilePath).Success?
    ensures var items := DiscoverFilesRecursively(fs, rootFilePaths, outputFilePath).value;
            |items| == |Candidates(fs, rootFilePaths)|
            && (forall i :: 0 <= i < |items| ==> items[i].fileToEncryptPath == Candidates(fs, rootFilePaths)[i])
            && forall i :: 0 <= i < |items| ==>
                 CalculateOutputPath(CandidateRoots(fs, rootFilePaths)[i], Candidates(fs, rootFilePaths)[i], outputFilePath)
                 == Success(items[i])
  {
    if rootFilePaths != [] {
      var root := rootFilePaths[0];
      var rest := rootFilePaths[1..];
      SourcesAreCandidates(fs, rest, outputFilePath);
      var first := DiscoverFiles(fs, root, outputFilePath).value;
      var later := DiscoverFilesRecursively(fs, rest, outputFilePath).value;
      var valid := match fs.walk(root) case Unreadable => [] case Walked(paths, _) => ValidFilePaths(fs, paths);
      var firstRoots := seq(|valid|, _ => root);
      assert |first| == |valid|;
      assert forall i :: 0 <= i < |first| ==> CalculateOutputPath(firstRoots[i], valid[i], outputFilePath) == Success(first[i]);
      OutputsConcat(firstRoots, valid, first, CandidateRoots(fs, rest), Candidates(fs, rest), later, outputFilePath);
      assert DiscoverFilesRecursively(fs, rootFilePaths, outputFilePath).value == first + later;
      assert Candidates(fs, rootFilePaths) == valid + Candidates(fs, rest);
      assert CandidateRoots(fs, rootFilePaths) == firstRoots + CandidateRoots(fs, rest);
    }
  }

  /** Items that are what `calculateOutputPath` gives for their candidates
      stay so when two such runs are put one after the other. */
  lemma OutputsConcat(roots1: seq<Path>, cands1: seq<Path>, items1: seq<FileToProcess>,
                      roots2: seq<Path>, cands2: seq<Path>, items2: seq<FileToProcess>, outputFilePath: Path)
    requires |roots1| == |cands1| == |items1| && |roots2| == |cands2| == |items2|
    requires forall i :: 0 <= i < |items1| ==> CalculateOutputPath(roots1[i], cands1[i], outputFilePath) == Success(items1[i])
    requires forall i :: 0 <= i < |items2| ==> CalculateOutputPath(roots2[i], cands2[i], outputFilePath) == Success(items2[i])
    ensures var items := items1 + items2;
            forall i :: 0 <= i < |items| ==>
              CalculateOutputPath((roots1 + roots2)[i], (cands1 + cands2)[i], outputFilePath) == Success(items[i])
  {
    var items, roots, cands := items1 + items2, roots1 + roots2, cands1 + cands2;
    forall i | 0 <= i < |items|
      ensures CalculateOutputPath(roots[i], cands[i], outputFilePath) == Success(items[i])
    {
      if i < |items1| {
        assert items[i] == items1[i] && roots[i] == roots1[i] && cands[i] == cands1[i];
      } else {
        var k := i - |items1|;
        assert items[i] == items2[k] && roots[i] == roots2[k] && cands[i] == cands2[k];
      }
    }
  }

  /** `Files.walk` yields only the root and paths below it, and finishes. */
  predicate WalkBelowRoot(fs: FileSystem, rootFilePath: Path) {
    match fs.walk(rootFilePath)
    case Unreadable => true
    case Walked(paths, brokeOff) =>
      !brokeOff && forall i :: 0 <= i < |paths| ==>
        paths[i].absolute == rootFilePath.absolute && rootFilePath.names <= paths[i].names
  }

  /** A path below the root gets its output directory without failing. */
  lemma OutputPathBelowRoot(rootFilePath: Path, subFilePath: Path, outputFilePath: Path)
    requires subFilePath.absolute == rootFilePath.absolute && rootFilePath.names <= subFilePath.names
    ensures CalculateOutputPath(rootFilePath, subFilePath, outputFilePath).Success?
  {
    if subFilePath != rootFilePath {
      assert subFilePath.names != rootFilePath.names;
    }
  }

  /** Paths below the root all get their output directories. */
  lemma {:induction false} MapOutputPathsBelowRoot(rootFilePath: Path, paths: seq<Path>, outputFilePath: Path)
    requires forall p :: p in paths ==> p.absolute == rootFilePath.absolute && rootFilePath.names <= p.names
    ensures MapOutputPaths(rootFilePath, paths, outputFilePath).Success?
  {
    if paths != [] {
      OutputPathBelowRoot(rootFilePath, paths[0], outputFilePath);
      MapOutputPathsBelowRoot(rootFilePath, paths[1..], outputFilePath);
    }
  }

  /** A root whose walk stays below it and finishes is discovered without failure. */
  lemma DiscoverFilesDoesNotFail(fs: FileSystem, rootFilePath: Path, outputFilePath: Path)
    requires WalkBelowRoot(fs, rootFilePath)
    ensures DiscoverFiles(fs, rootFilePath, outputFilePath).Success?
  {
    match fs.walk(rootFilePath)
    case Unreadable =>
    case Walked(paths, _) =>
      var valid := ValidFilePaths(fs, paths);
      forall p | p in valid ensures p.absolute == rootFilePath.absolute && rootFilePath.names <= p.names {
        var i :| 0 <= i < |paths| && paths[i] == p;
      }
      MapOutputPathsBelowRoot(rootFilePath, valid, outputFilePath);
  }

  /** When every walk stays below its root and finishes, discovery does not fail. */
  lemma {:induction false} DiscoveryDoesNotFail(fs: FileSystem, rootFilePaths: seq<Path>, outputFilePath: Path)
    requires forall i :: 0 <= i < |rootFilePaths| ==> WalkBelowRoot(fs, rootFilePaths[i])
    ensures DiscoverFilesRecursively(fs, rootFilePaths, outputFilePath).Success?
  {
    if rootFilePaths != [] {
      DiscoverFilesDoesNotFail(fs, rootFilePaths[0], outputFilePath);
      DiscoveryDoesNotFail(fs, rootFilePaths[1..], outputFilePath);
    }
  }

  /** A file given directly as a root, with an output folder, goes to that
      folder itself. */
  lemma RootFileGoesToOutputFolder(fs: FileSystem, file: Path, outputFilePath: Path)
    requires fs.walk(file) == Walked([file], false) && IsValidFilePath(fs, file)
    requires |Paths.ToString(outputFilePath)| != 0
    ensures DiscoverFilesRecursively(fs, [file], outputFilePath) == Success([FileToProcess(file, Some(outputFilePath))])
  {
    var item := FileToProcess(file, Some(outputFilePath));
    assert ValidFilePaths(fs, [file]) == [file];
    assert CalculateOutputPath(file, file, outputFilePath) == Success(item);
    assert [file][1..] == [];
    assert [item] + [] == [item];
    assert MapOutputPaths(file, [file], outputFilePath) == Success([item]);
    assert DiscoverFiles(fs, file, outputFilePath) == Success([item]);
  }

  /** A source file given together with a sibling of denied extension (its
      checksum, say) is discovered, and the sibling is skipped. */
  lemma SiblingArtifactDoesNotHideSource(fs: FileSystem, file: Path, sibling: Path)
    requires fs.walk(file) == Walked([file], false) && IsValidFilePath(fs, file)
    requires fs.walk(sibling) == Walked([sibling], false) && fs.hasDeniedExtension(Paths.ToString(sibling))
    ensures DiscoverFilesRecursively(fs, [file, sibling], EmptyPath) == Success([ForSource(file)])
  {
    var item := ForSource(file);
    assert ValidFilePaths(fs, [file]) == [file];
    assert ValidFilePaths(fs, [sibling]) == [];
    assert CalculateOutputPath(file, file, EmptyPath) == Success(item);
    assert [file][1..] == [];
    assert [item] + [] == [item];
    assert MapOutputPaths(file, [file], EmptyPath) == Success([item]);
    assert DiscoverFiles(fs, file, EmptyPath) == Success([item]);
    assert DiscoverFiles(fs, sibling, EmptyPath) == Success([]);
    assert [file, sibling][1..] == [sibling];
    assert [sibling][1..] == [];
    assert DiscoverFilesRecursively(fs, [sibling], EmptyPath) == Success([]);
    assert [item] + [] == [item];
  }
}
