/**
 The three pieces of Go's `strings` package that the `.env` loader relies on,
 specialised to a one-character separator: `HasPrefix`, `SplitN(s, sep, 2)`
 and `Split`. Go strings are byte strings; the separators used by the loader
 ('\n', '=', '#') are ASCII, and in UTF-8 an ASCII byte never occurs inside a
 multi-byte character, so splitting characters here splits exactly where Go
 splits bytes. A `char` may also stand for a single byte: only '\n', '=' and
 '#' are ever compared, so reading each byte as one `char` covers every file
 exactly, valid UTF-8 or not.
 */
module Strings {

  datatype Option<+T> = None | Some(value: T)

  /** Go's `strings.HasPrefix(s, string(c))`. */
  predicate HasPrefix(s: string, c: char) {
    |s| > 0 && s[0] == c
  }

  /** Position of the first `c` in `s`; `None` where Go's `strings.Index` returns -1. */
  function IndexOf(s: string, c: char): (r: Option<nat>)
    ensures r.None? <==> c !in s
    ensures r.Some? ==> r.value < |s| && s[r.value] == c
    ensures r.Some? ==> forall j :: 0 <= j < r.value ==> s[j] != c
  {
    if |s| == 0 then None
    else if s[0] == c then Some(0)
    else match IndexOf(s[1..], c)
      case None => None
      case Some(i) => Some(i + 1)
  }

  /**
   Go's `strings.SplitN(s, string(sep), 2)`: one piece (the whole string) when
   `sep` does not occur, otherwise the text before the first `sep` and
   everything after it, further separators included.
   */
  function SplitN2(s: string, sep: char): (parts: seq<string>)
    ensures 1 <= |parts| <= 2
    ensures |parts| == 2 <==> sep in s
    ensures |parts| == 1 ==> parts[0] == s
    ensures |parts| == 2 ==> s == parts[0] + [sep] + parts[1] && sep !in parts[0]
  {
    match IndexOf(s, sep)
    case None => [s]
    case Some(i) =>
      assert s == s[..i] + [sep] + s[i + 1..];
      [s[..i], s[i + 1..]]
  }

  /** The first-separator split is the only way to write `s` as `k + [sep] + v` with no `sep` in `k`. */
  lemma {:induction false} SplitN2Unique(k: string, v: string, sep: char)
    requires sep !in k
    ensures SplitN2(k + [sep] + v, sep) == [k, v]
  {
    var s := k + [sep] + v;
    var parts := SplitN2(s, sep);
    assert s[|k|] == sep;
    assert forall j :: 0 <= j < |k| ==> s[j] == k[j];
    assert IndexOf(s, sep) == Some(|k|);
    assert parts[0] == s[..|k|] == k;
    assert parts[1] == s[|k| + 1..] == v;
  }

  /**
   Go's `strings.Split(s, string(sep))`: the maximal pieces of `s` between
   separators, in order. There is always at least one piece: the empty string
   splits to `[""]` and a trailing separator yields a trailing empty piece.
   */
  function Split(s: string, sep: char): (pieces: seq<string>)
    ensures |pieces| >= 1
    ensures forall j :: 0 <= j < |pieces| ==> sep !in pieces[j]
    decreases |s|
  {
    match IndexOf(s, sep)
    case None => [s]
    case Some(i) => [s[..i]] + Split(s[i + 1..], sep)
  }

  /** Go's `strings.Join(parts, string(sep))`. */
  function Join(parts: seq<string>, sep: char): string
  {
    if |parts| == 0 then ""
    else if |parts| == 1 then parts[0]
    else parts[0] + [sep] + Join(parts[1..], sep)
  }

  /** Splitting loses nothing: joining the pieces back gives the original string. */
  lemma {:induction false} JoinSplit(s: string, sep: char)
    ensures Join(Split(s, sep), sep) == s
    decreases |s|
  {
    match IndexOf(s, sep)
    case None =>
    case Some(i) =>
      var rest := Split(s[i + 1..], sep);
      JoinSplit(s[i + 1..], sep);
      assert Split(s, sep) == [s[..i]] + rest;
      assert ([s[..i]] + rest)[1..] == rest;
      assert s == s[..i] + [sep] + s[i + 1..];
  }

  /** Pieces free of the separator come back unchanged from a join followed by a split. */
  lemma {:induction false} SplitJoin(parts: seq<string>, sep: char)
    requires |parts| >= 1
    requires forall j :: 0 <= j < |parts| ==> sep !in parts[j]
    ensures Split(Join(parts, sep), sep) == parts
  {
    if |parts| == 1 {
      assert IndexOf(parts[0], sep).None?;
    } else {
      var tail := Join(parts[1..], sep);
      SplitJoin(parts[1..], sep);
      SplitAppend(parts[0], tail, sep);
      assert parts[0] !in [];
      assert Split(parts[0], sep) == [parts[0]] by {
        assert IndexOf(parts[0], sep).None?;
      }
      assert parts == [parts[0]] + parts[1..];
    }
  }

  /**
   Reference definition of the pieces, one character at a time: a separator
   closes the current piece, any other character extends it.
   */
  function Pieces(s: string, sep: char): (pieces: seq<string>)
    ensures |pieces| >= 1
  {
    if |s| == 0 then [""]
    else
      var rest := Pieces(s[1..], sep);
      if s[0] == sep then [""] + rest else [[s[0]] + rest[0]] + rest[1..]
  }

  lemma {:induction false} PiecesNoSeparator(s: string, sep: char)
    requires sep !in s
    ensures Pieces(s, sep) == [s]
  {
    if |s| > 0 {
      PiecesNoSeparator(s[1..], sep);
      assert [s[0]] + s[1..] == s;
    }
  }

  lemma {:induction false} PiecesAppend(a: string, b: string, sep: char)
    ensures Pieces(a + [sep] + b, sep) == Pieces(a, sep) + Pieces(b, sep)
  {
    var s := a + [sep] + b;
    if |a| == 0 {
      assert s[1..] == b;
    } else {
      assert s[1..] == a[1..] + [sep] + b;
      PiecesAppend(a[1..], b, sep);
    }
  }

  /** Go's search-and-cut loop and the character-by-character definition agree on every string. */
  lemma {:induction false} SplitIsPieces(s: string, sep: char)
    ensures Split(s, sep) == Pieces(s, sep)
    decreases |s|
  {
    match IndexOf(s, sep)
    case None =>
      PiecesNoSeparator(s, sep);
    case Some(i) =>
      SplitIsPieces(s[i + 1..], sep);
      PiecesNoSeparator(s[..i], sep);
      PiecesAppend(s[..i], s[i + 1..], sep);
      assert s[..i] + [sep] + s[i + 1..] == s;
  }

  /** A separator between two strings separates their pieces: `Split` is a homomorphism. */
  lemma SplitAppend(a: string, b: string, sep: char)
    ensures Split(a + [sep] + b, sep) == Split(a, sep) + Split(b, sep)
  {
    SplitIsPieces(a + [sep] + b, sep);
    SplitIsPieces(a, sep);
    SplitIsPieces(b, sep);
    PiecesAppend(a, b, sep);
  }

  /** A trailing separator adds exactly one empty piece at the end. */
  lemma TrailingSeparator(s: string, sep: char)
    ensures Split(s + [sep], sep) == Split(s, sep) + [""]
  {
    SplitAppend(s, "", sep);
    assert s + [sep] + "" == s + [sep];
  }
}
