/**
 * Unix file-system paths as `java.nio.file.Path` treats them: an optional
 * root and a sequence of name elements.  `getParent` of a path with one
 * relative name is `null`, `subpath` is a slice of the names that throws on
 * a bad range, `resolve` appends a relative path, and `Paths.get` parses a
 * string by its `/` separators, dropping empty names.
 */
module Paths {
  import opened Wrappers
  import JavaStrings

  /** A parsed path: whether it starts at the root `/`, and its name elements. */
  datatype Path = Path(absolute: bool, names: seq<string>)

  /** A name element is non-empty and holds no separator. */
  predicate ValidName(n: string) {
    n != "" && '/' !in n
  }

  /** Every name element of the path is valid, as after `Paths.get`. */
  predicate Valid(p: Path) {
    forall i :: 0 <= i < |p.names| ==> ValidName(p.names[i])
  }

  /** The empty path, `Paths.get("")`. */
  const EmptyPath := Path(false, [])

  /** `getNameCount`. */
  function NameCount(p: Path): nat {
    |p.names|
  }

  /** `toString`: the root if any, then the names joined by `/`. */
  function ToString(p: Path): (r: string)
    ensures p.absolute ==> r != [] && r[0] == '/'
    ensures p.names == [] ==> r == (if p.absolute then "/" else "")
  {
    (if p.absolute then "/" else "") + JavaStrings.Join(p.names, '/')
  }

  /** The non-empty pieces among `parts`, in order. */
  function NonEmptyPieces(parts: seq<string>): (r: seq<string>)
    ensures forall i :: 0 <= i < |r| ==> r[i] != "" && r[i] in parts
  {
    if parts == [] then []
    else (if parts[0] == "" then [] else [parts[0]]) + NonEmptyPieces(parts[1..])
  }

  /** `Paths.get(s)` on Unix: absolute when `s` starts with `/`; the names are
      the non-empty pieces between separators, so doubled and trailing
      separators vanish. */
  function Parse(s: string): (p: Path)
    ensures Valid(p)
    ensures p.absolute <==> (s != [] && s[0] == '/')
  {
    Path(s != [] && s[0] == '/', NonEmptyPieces(JavaStrings.SplitAll(s, '/')))
  }

  /** `getParent`: `null` for the root and for a single relative name; the
      root for a single absolute name; otherwise the path without its last name. */
  function GetParent(p: Path): (r: Option<Path>)
    ensures r.Some? <==> |p.names| >= 2 || (p.absolute && |p.names| == 1)
    ensures r.Some? ==> r.value.absolute == p.absolute && r.value.names + [p.names[|p.names| - 1]] == p.names
  {
    if |p.names| == 0 || (|p.names| == 1 && !p.absolute) then None
    else Some(Path(p.absolute, p.names[..|p.names| - 1]))
  }

  /** `subpath(begin, end)`: the relative path of names `begin` to `end - 1`;
      `IllegalArgumentException` unless `begin < end <= getNameCount()`. */
  function Subpath(p: Path, begin: nat, end: nat): (r: Result<Path, JavaException>)
    ensures r.Success? <==> begin < end <= |p.names|
    ensures r.Success? ==> !r.value.absolute && |r.value.names| == end - begin
    ensures r.Success? ==> forall i :: 0 <= i < end - begin ==> r.value.names[i] == p.names[begin + i]
  {
    if begin >= |p.names| || end > |p.names| || begin >= end then
      Failure(IllegalArgument("subpath range"))
    else
      Success(Path(false, p.names[begin..end]))
  }

  /** `resolve(other)`: `other` itself when it is absolute, else `other`'s
      names appended to this path's. */
  function Resolve(p: Path, other: Path): (r: Path)
    ensures other.absolute ==> r == other
    ensures !other.absolute ==> r.absolute == p.absolute && |r.names| == |p.names| + |other.names|
    ensures !other.absolute ==> r.names[..|p.names|] == p.names && r.names[|p.names|..] == other.names
  {
    if other.absolute then other else Path(p.absolute, p.names + other.names)
  }

  /** Dropping empty pieces keeps a list that has none. */
  lemma {:induction false} NonEmptyPiecesOfNonEmpty(parts: seq<string>)
    requires forall i :: 0 <= i < |parts| ==> parts[i] != ""
    ensures NonEmptyPieces(parts) == parts
  {
    if parts != [] {
      NonEmptyPiecesOfNonEmpty(parts[1..]);
    }
  }

  /** The joined text starts with the first piece. */
  lemma {:induction false} JoinStartsWithFirst(parts: seq<string>, sep: char)
    requires |parts| >= 1
    ensures parts[0] <= JavaStrings.Join(parts, sep)
  {
  }

  /** The names of a valid path survive joining, splitting and dropping empty pieces. */
  lemma PiecesOfJoinedNames(names: seq<string>)
    requires forall i :: 0 <= i < |names| ==> ValidName(names[i])
    ensures NonEmptyPieces(JavaStrings.SplitAll(JavaStrings.Join(names, '/'), '/')) == names
    ensures names != [] ==> JavaStrings.Join(names, '/')[0] != '/'
  {
    if names == [] {
      assert JavaStrings.SplitAll("", '/') == [""];
    } else {
      JavaStrings.SplitAllJoin(names, '/');
      NonEmptyPiecesOfNonEmpty(names);
      JoinStartsWithFirst(names, '/');
      assert JavaStrings.Join(names, '/')[0] == names[0][0];
    }
  }

  /** A leading separator adds one empty piece in front. */
  lemma SplitAllAfterRoot(j: string)
    ensures JavaStrings.SplitAll("/" + j, '/') == [""] + JavaStrings.SplitAll(j, '/')
  {
    var s := "/" + j;
    assert JavaStrings.IndexOf(s, '/') == 0;
    assert s[1..] == j;
  }

  /** Printing a valid path and parsing the text gives the path back. */
  lemma ParseToString(p: Path)
    requires Valid(p)
    ensures Parse(ToString(p)) == p
  {
    var j := JavaStrings.Join(p.names, '/');
    PiecesOfJoinedNames(p.names);
    if p.absolute {
      assert ToString(p) == "/" + j;
      SplitAllAfterRoot(j);
      var pieces := JavaStrings.SplitAll(j, '/');
      assert ([""] + pieces)[1..] == pieces;
      assert NonEmptyPieces([""] + pieces) == NonEmptyPieces(pieces);
    } else {
      assert ToString(p) == j;
    }
  }

  /** Distinct valid paths print differently. */
  lemma ToStringInjective(p: Path, q: Path)
    requires Valid(p) && Valid(q)
    requires ToString(p) == ToString(q)
    ensures p == q
  {
    ParseToString(p);
    ParseToString(q);
  }

  /** A valid path prints as the empty string exactly when it is the empty path. */
  lemma ToStringEmpty(p: Path)
    requires Valid(p)
    ensures ToString(p) == "" <==> p == EmptyPath
  {
    if !p.absolute && p.names != [] {
      JoinStartsWithFirst(p.names, '/');
    }
  }

  /** A path with a parent lies directly in it: resolving its last name
      against the parent gives the path back. */
  lemma ResolveLastNameAgainstParent(p: Path)
    requires GetParent(p).Some?
    ensures Resolve(GetParent(p).value, Path(false, [p.names[|p.names| - 1]])) == p
  {
  }

  /** The names past the root's in a path below the root are exactly the
      relative part that was resolved against it. */
  lemma SubpathOfResolved(root: Path, rel: Path)
    requires !rel.absolute && rel.names != []
    ensures Subpath(Resolve(root, rel), |root.names|, |root.names| + |rel.names|) == Success(rel)
  {
    assert (root.names + rel.names)[|root.names|..|root.names| + |rel.names|] == rel.names;
  }
}
