/**
 * The work item: a file to encrypt and the directory its artifacts go to.
 * The output directory is `null` when the one-argument constructor is given
 * a path without parent.  `hashCode` and `toString` then throw a
 * `NullPointerException`, which the model returns as `None`; `equals` throws
 * only when the files agree and the receiver's output is `null`.
 */
module Model {
  import opened Wrappers
  import opened Paths
  import JavaStrings

  /** The two-argument constructor: both paths stored unchanged. */
  datatype FileToProcess = FileToProcess(fileToEncryptPath: Path, outputFilePath: Option<Path>)

  /** The one-argument constructor: the output directory is the source's parent. */
  function ForSource(fileToEncryptPath: Path): (f: FileToProcess)
    ensures f.fileToEncryptPath == fileToEncryptPath
    ensures f.outputFilePath.Some? <==>
              |fileToEncryptPath.names| >= 2 || (fileToEncryptPath.absolute && |fileToEncryptPath.names| == 1)
    ensures f.outputFilePath.Some? ==>
              Resolve(f.outputFilePath.value, Path(false, [fileToEncryptPath.names[|fileToEncryptPath.names| - 1]]))
              == fileToEncryptPath
  {
    FileToProcess(fileToEncryptPath, GetParent(fileToEncryptPath))
  }

  /** `equals` between two distinct objects: `false` when the sources differ,
      a `NullPointerException` when they agree and this output is `null`,
      otherwise whether the outputs agree. */
  function Equals(a: FileToProcess, b: FileToProcess): (r: Option<bool>)
    ensures r.None? <==> a.fileToEncryptPath == b.fileToEncryptPath && a.outputFilePath.None?
    ensures r == Some(true) <==> a == b && a.outputFilePath.Some?
  {
    if a.fileToEncryptPath != b.fileToEncryptPath then Some(false)
    else match a.outputFilePath
      case None => None
      case Some(out) => Some(b.outputFilePath == Some(out))
  }

  /** `equals` is reflexive on items that have an output directory. */
  lemma EqualsReflexive(a: FileToProcess)
    requires a.outputFilePath.Some?
    ensures Equals(a, a) == Some(true)
  {
  }

  /** `equals` is symmetric on items that have an output directory. */
  lemma EqualsSymmetric(a: FileToProcess, b: FileToProcess)
    requires a.outputFilePath.Some? && b.outputFilePath.Some?
    ensures Equals(a, b) == Equals(b, a)
  {
  }

  /** Java's 32-bit `int`. */
  type Int32 = x: int | -0x8000_0000 <= x < 0x8000_0000

  const TwoTo32: int := 0x1_0000_0000

  /** Two's-complement wrap-around of an integer into `int`. */
  function WrapInt32(x: int): (r: Int32)
    ensures (x - r) % TwoTo32 == 0
  {
    (x + 0x8000_0000) % TwoTo32 - 0x8000_0000
  }

  /** Integers that differ by a multiple of 2^32 wrap to the same `int`. */
  lemma WrapInt32Congruent(x: int, y: int)
    requires (x - y) % TwoTo32 == 0
    ensures WrapInt32(x) == WrapInt32(y)
  {
    var k := (x - y) / TwoTo32;
    assert x == y + k * TwoTo32;
    assert (x + 0x8000_0000) % TwoTo32 == (y + 0x8000_0000 + k * TwoTo32) % TwoTo32;
    ModuloAddMultiple(y + 0x8000_0000, k);
  }

  lemma ModuloAddMultiple(a: int, k: int)
    ensures (a + k * TwoTo32) % TwoTo32 == a % TwoTo32
  {
  }

  /** `hashCode`: `31 * h(source) + h(output)` in `int` arithmetic, given the
      hash of a path; a `NullPointerException` when the output is `null`. */
  function HashCode(f: FileToProcess, pathHash: Path -> Int32): (r: Option<Int32>)
    ensures r.Some? <==> f.outputFilePath.Some?
    ensures r.Some? ==> (r.value - (31 * pathHash(f.fileToEncryptPath) + pathHash(f.outputFilePath.value))) % TwoTo32 == 0
  {
    match f.outputFilePath
    case None => None
    case Some(out) =>
      var result := pathHash(f.fileToEncryptPath);
      Some(WrapInt32(WrapInt32(31 * result) + pathHash(out)))
  }

  /** The step-by-step `int` arithmetic of `hashCode` is the polynomial
      `31 * h(source) + h(output)` taken modulo 2^32. */
  lemma HashCodeIsPolynomial(f: FileToProcess, pathHash: Path -> Int32)
    requires f.outputFilePath.Some?
    ensures HashCode(f, pathHash) == Some(WrapInt32(31 * pathHash(f.fileToEncryptPath) + pathHash(f.outputFilePath.value)))
  {
    var a := 31 * pathHash(f.fileToEncryptPath);
    var b := pathHash(f.outputFilePath.value);
    WrapInt32Congruent(WrapInt32(a) + b, a + b);
  }

  /** Equal items have equal hash codes. */
  lemma EqualsConsistentWithHashCode(a: FileToProcess, b: FileToProcess, pathHash: Path -> Int32)
    requires Equals(a, b) == Some(true)
    ensures HashCode(a, pathHash).Some? && HashCode(a, pathHash) == HashCode(b, pathHash)
  {
  }

  const ToStringPrefix: string := "FileToProcess{fileToEncryptPath="
  const ToStringMiddle: string := ", outputFilePath="

  /** `toString`: `FileToProcess{fileToEncryptPath=<source>, outputFilePath=<output>}`;
      a `NullPointerException` when the output is `null`. */
  function ToString(f: FileToProcess): (r: Option<string>)
    ensures r.Some? <==> f.outputFilePath.Some?
  {
    match f.outputFilePath
    case None => None
    case Some(out) =>
      Some(ToStringPrefix + Paths.ToString(f.fileToEncryptPath) + ToStringMiddle + Paths.ToString(out) + "}")
  }

  /** A text without commas followed by a comma-led separator can be split
      off again at the first comma. */
  lemma SplitAtFirstComma(a1: string, a2: string, b1: string, b2: string, mid: string)
    requires mid != [] && mid[0] == ','
    requires ',' !in a1 && ',' !in b1
    requires a1 + mid + a2 == b1 + mid + b2
    ensures a1 == b1 && a2 == b2
  {
    var s := a1 + mid + a2;
    assert s[|a1|] == ',' && s[..|a1|] == a1 && ',' !in s[..|a1|];
    assert s[|b1|] == ',' && s[..|b1|] == b1 && ',' !in s[..|b1|];
    assert JavaStrings.IndexOf(s, ',') == |a1| == |b1|;
    assert a2 == s[|a1| + |mid|..];
  }

  /** The two texts inside a printed item are recovered from it, as long as
      the first one has no comma. */
  lemma PrintedPartsDetermined(srcA: string, outA: string, srcB: string, outB: string)
    requires ',' !in srcA && ',' !in srcB
    requires ToStringPrefix + srcA + ToStringMiddle + outA + "}" == ToStringPrefix + srcB + ToStringMiddle + outB + "}"
    ensures srcA == srcB && outA == outB
  {
    PrintedInner(srcA, outA);
    PrintedInner(srcB, outB);
    SplitAtFirstComma(srcA, outA, srcB, outB, ToStringMiddle);
  }

  /** What lies between the fixed prefix and the closing brace of a printed item. */
  lemma PrintedInner(src: string, out: string)
    ensures var s := ToStringPrefix + src + ToStringMiddle + out + "}";
            s[|ToStringPrefix|..|s| - 1] == src + ToStringMiddle + out
  {
  }

  /** The printed form determines the item, as long as the source paths
      print without a comma. */
  lemma ToStringDeterminesItem(a: FileToProcess, b: FileToProcess)
    requires a.outputFilePath.Some? && b.outputFilePath.Some?
    requires Valid(a.fileToEncryptPath) && Valid(a.outputFilePath.value)
    requires Valid(b.fileToEncryptPath) && Valid(b.outputFilePath.value)
    requires ',' !in Paths.ToString(a.fileToEncryptPath) && ',' !in Paths.ToString(b.fileToEncryptPath)
    requires ToString(a) == ToString(b)
    ensures a == b
  {
    PrintedPartsDetermined(Paths.ToString(a.fileToEncryptPath), Paths.ToString(a.outputFilePath.value),
                           Paths.ToString(b.fileToEncryptPath), Paths.ToString(b.outputFilePath.value));
    ToStringInjective(a.fileToEncryptPath, b.fileToEncryptPath);
    ToStringInjective(a.outputFilePath.value, b.outputFilePath.value);
  }
}
