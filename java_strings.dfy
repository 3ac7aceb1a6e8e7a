/**
 * The pieces of Java's string library that the option processor relies on:
 * `Character.isWhitespace`, Spring's `StringUtils.hasText`, `String.trim`
 * and `String.split` with a one-character separator.  Strings are sequences
 * of characters; a Java `char` is taken to be a Dafny `char`.
 */
module JavaStrings {

  /** `Character.isWhitespace` as of Java 9 (Unicode 8 and later): the ASCII
      controls 9-13 and 28-31, and the Unicode space, line and paragraph
      separators other than the non-breaking ones (U+00A0, U+2007, U+202F).
      Java 8 also counts U+180E, which Unicode 6.3 stopped calling a space. */
  predicate IsWhitespace(c: char) {
    var x := c as int;
    (0x09 <= x <= 0x0D) || (0x1C <= x <= 0x20) || x == 0x1680
    || (0x2000 <= x <= 0x2006) || (0x2008 <= x <= 0x200A)
    || x == 0x2028 || x == 0x2029 || x == 0x205F || x == 0x3000
  }

  /** `StringUtils.hasText`: the string holds at least one character that is not whitespace. */
  predicate HasText(s: string): (r: bool)
    ensures !r <==> forall i :: 0 <= i < |s| ==> IsWhitespace(s[i])
  {
    exists i :: 0 <= i < |s| && !IsWhitespace(s[i])
  }

  /** The characters `String.trim` strips: those at or below U+0020. */
  predicate IsTrimmable(c: char) {
    c <= ' '
  }

  /** Number of trimmable characters at the front of `s`. */
  function LeadingTrimmable(s: string): (k: nat)
    ensures k <= |s|
    ensures forall i :: 0 <= i < k ==> IsTrimmable(s[i])
    ensures k < |s| ==> !IsTrimmable(s[k])
  {
    if s == [] || !IsTrimmable(s[0]) then 0 else 1 + LeadingTrimmable(s[1..])
  }

  /** Number of trimmable characters at the back of `s`. */
  function TrailingTrimmable(s: string): (k: nat)
    ensures k <= |s|
    ensures forall i :: |s| - k <= i < |s| ==> IsTrimmable(s[i])
    ensures k < |s| ==> !IsTrimmable(s[|s| - 1 - k])
  {
    if s == [] || !IsTrimmable(s[|s| - 1]) then 0 else 1 + TrailingTrimmable(s[..|s| - 1])
  }

  /** `String.trim`: the longest slice of `s` that neither starts nor ends
      with a character at or below U+0020; everything cut off lies at or
      below U+0020. */
  function Trim(s: string): (r: string)
    ensures LeadingTrimmable(s) + |r| <= |s|
    ensures r == s[LeadingTrimmable(s)..LeadingTrimmable(s) + |r|]
    ensures forall i :: 0 <= i < LeadingTrimmable(s) ==> IsTrimmable(s[i])
    ensures forall i :: LeadingTrimmable(s) + |r| <= i < |s| ==> IsTrimmable(s[i])
    ensures r != [] ==> !IsTrimmable(r[0]) && !IsTrimmable(r[|r| - 1])
  {
    var front := LeadingTrimmable(s);
    var rest := s[front..];
    rest[..|rest| - TrailingTrimmable(rest)]
  }

  /** Trimming twice is trimming once. */
  lemma TrimIdempotent(s: string)
    ensures Trim(Trim(s)) == Trim(s)
  {
    var t := Trim(s);
    if t != [] {
      assert LeadingTrimmable(t) == 0;
      assert TrailingTrimmable(t) == 0;
    }
  }

  /** A string that neither starts nor ends with a trimmable character is its own trim. */
  lemma TrimOfTrimmed(s: string)
    requires s != [] ==> !IsTrimmable(s[0]) && !IsTrimmable(s[|s| - 1])
    ensures Trim(s) == s
  {
    if s != [] {
      assert LeadingTrimmable(s) == 0;
      assert TrailingTrimmable(s) == 0;
    }
  }

  /** Index of the first occurrence of `c` in `s`. */
  function IndexOf(s: string, c: char): (k: nat)
    requires c in s
    ensures k < |s| && s[k] == c && c !in s[..k]
  {
    if s[0] == c then 0 else 1 + IndexOf(s[1..], c)
  }

  /** All pieces of `s` between occurrences of `sep`, empty ones included. */
  function SplitAll(s: string, sep: char): (r: seq<string>)
    ensures |r| >= 1
    ensures forall i :: 0 <= i < |r| ==> sep !in r[i]
    decreases |s|
  {
    if sep !in s then [s]
    else
      var k := IndexOf(s, sep);
      [s[..k]] + SplitAll(s[k + 1..], sep)
  }

  /** The pieces put back together with `sep` between each two. */
  function Join(parts: seq<string>, sep: char): string {
    if |parts| == 0 then ""
    else if |parts| == 1 then parts[0]
    else parts[0] + [sep] + Join(parts[1..], sep)
  }

  /** Appending a piece appends the separator and that piece. */
  lemma {:induction false} JoinSnoc(parts: seq<string>, last: string, sep: char)
    requires |parts| >= 1
    ensures Join(parts + [last], sep) == Join(parts, sep) + [sep] + last
  {
    if |parts| > 1 {
      assert (parts + [last])[1..] == parts[1..] + [last];
      JoinSnoc(parts[1..], last, sep);
    }
  }

  /** Splitting and joining with the same separator gives the string back. */
  lemma {:induction false} JoinSplitAll(s: string, sep: char)
    ensures Join(SplitAll(s, sep), sep) == s
    decreases |s|
  {
    if sep in s {
      var k := IndexOf(s, sep);
      var rest := SplitAll(s[k + 1..], sep);
      var parts := [s[..k]] + rest;
      assert SplitAll(s, sep) == parts;
      assert parts[1..] == rest;
      JoinSplitAll(s[k + 1..], sep);
      assert Join(parts, sep) == s[..k] + [sep] + s[k + 1..];
      assert s == s[..k] + [sep] + s[k + 1..];
    }
  }

  /** Joining pieces free of the separator and splitting again gives the pieces back. */
  lemma {:induction false} SplitAllJoin(parts: seq<string>, sep: char)
    requires |parts| >= 1
    requires forall i :: 0 <= i < |parts| ==> sep !in parts[i]
    ensures SplitAll(Join(parts, sep), sep) == parts
  {
    if |parts| > 1 {
      var s := Join(parts, sep);
      var j := Join(parts[1..], sep);
      assert s == parts[0] + [sep] + j;
      assert s[|parts[0]|] == sep;
      assert s[..|parts[0]|] == parts[0];
      assert IndexOf(s, sep) == |parts[0]|;
      assert s[|parts[0]| + 1..] == j;
      SplitAllJoin(parts[1..], sep);
    }
  }

  /** A string that does not end with the separator has a non-empty last piece. */
  lemma {:induction false} SplitAllLastPiece(s: string, sep: char)
    requires s != [] && s[|s| - 1] != sep
    ensures |SplitAll(s, sep)[|SplitAll(s, sep)| - 1]| > 0
    decreases |s|
  {
    if sep in s {
      var k := IndexOf(s, sep);
      var rest := s[k + 1..];
      assert rest != [] && rest[|rest| - 1] != sep by {
        assert rest[|rest| - 1] == s[|s| - 1];
      }
      SplitAllLastPiece(rest, sep);
      LastOfCons(SplitAll(s, sep), s[..k], SplitAll(rest, sep));
    }
  }

  /** Pieces made of a head and a tail whose last piece is non-empty end
      with a non-empty piece. */
  lemma LastOfCons(pieces: seq<string>, head: string, tail: seq<string>)
    requires pieces == [head] + tail && tail != [] && |tail[|tail| - 1]| > 0
    ensures |pieces[|pieces| - 1]| > 0
  {
    assert pieces[|pieces| - 1] == tail[|tail| - 1];
  }

  /** Drops the empty pieces at the end, as `String.split` does. */
  function DropTrailingEmpty(parts: seq<string>): (r: seq<string>)
    ensures r <= parts
    ensures r != [] ==> r[|r| - 1] != ""
    ensures forall i :: |r| <= i < |parts| ==> parts[i] == ""
  {
    if |parts| > 0 && parts[|parts| - 1] == "" then DropTrailingEmpty(parts[..|parts| - 1])
    else parts
  }

  /** `String.split(sep)`: the whole string when `sep` does not occur in it
      (so `""` splits into one empty piece); otherwise all pieces in order,
      without the empty ones at the end. */
  function Split(s: string, sep: char): (r: seq<string>)
    ensures forall i :: 0 <= i < |r| ==> sep !in r[i]
    ensures sep !in s ==> r == [s]
    ensures sep in s ==> r == [] || r[|r| - 1] != ""
  {
    if sep !in s then [s] else DropTrailingEmpty(SplitAll(s, sep))
  }

  /** Dropping empty trailing pieces only shortens the joined text by separators. */
  lemma {:induction false} JoinDropTrailingEmpty(parts: seq<string>, sep: char)
    ensures Join(DropTrailingEmpty(parts), sep) <= Join(parts, sep)
    ensures forall i :: |Join(DropTrailingEmpty(parts), sep)| <= i < |Join(parts, sep)| ==> Join(parts, sep)[i] == sep
  {
    if |parts| > 0 && parts[|parts| - 1] == "" {
      var init := parts[..|parts| - 1];
      JoinDropTrailingEmpty(init, sep);
      if |init| >= 1 {
        assert parts == init + [""];
        JoinSnoc(init, "", sep);
      }
    }
  }

  /** No piece holds the separator; joining the pieces gives a prefix of the
      string, and every character after that prefix is the separator. */
  lemma SplitPieces(s: string, sep: char)
    ensures forall i :: 0 <= i < |Split(s, sep)| ==> sep !in Split(s, sep)[i]
    ensures Join(Split(s, sep), sep) <= s
    ensures forall i :: |Join(Split(s, sep), sep)| <= i < |s| ==> s[i] == sep
  {
    if sep in s {
      JoinSplitAll(s, sep);
      JoinDropTrailingEmpty(SplitAll(s, sep), sep);
    }
  }

  /** A string that does not end with the separator splits into exactly the
      pieces that join back to it, and at least one of them. */
  lemma SplitJoinRoundTrip(s: string, sep: char)
    requires s != [] && s[|s| - 1] != sep
    ensures Split(s, sep) == SplitAll(s, sep)
    ensures Join(Split(s, sep), sep) == s
  {
    JoinSplitAll(s, sep);
    SplitAllLastPiece(s, sep);
  }
}
