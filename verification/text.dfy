/**
  The three `str` operations the tag parser is built from: `split` on a
  one-character separator, `join` with it, and `trim`.
 */
module Text {
  import opened Unicode

  /**
    Rust's `s.split(sep)` for a one-character pattern, collected: the maximal
    separator-free runs between occurrences of `sep`. Empty runs are kept,
    so `"a."` gives `["a", ""]` and `""` gives `[""]`.
   */
  function Split(s: string, sep: char): (pieces: seq<string>)
    ensures |pieces| >= 1
    ensures forall k :: 0 <= k < |pieces| ==> sep !in pieces[k]
    ensures Join(pieces, sep) == s
    decreases |s|
  {
    if |s| == 0 then
      [""]
    else
      var rest := Split(s[1..], sep);
      if s[0] == sep then
        assert s == [sep] + s[1..];
        [""] + rest
      else
        var first := [s[0]] + rest[0];
        var pieces := [first] + rest[1..];
        assert Join(pieces, sep) == [s[0]] + Join(rest, sep) by {
          if |rest| > 1 {
            assert pieces[1..] == rest[1..];
          }
        }
        assert s == [s[0]] + s[1..];
        pieces
  }

  /** The total number of characters in `pieces`. */
  function TotalLength(pieces: seq<string>): (n: nat) {
    if |pieces| == 0 then 0 else |pieces[0]| + TotalLength(pieces[1..])
  }

  /** Rust's `pieces.join(sep)`: the pieces with one `sep` between neighbours. */
  function Join(pieces: seq<string>, sep: char): (s: string)
  {
    if |pieces| == 0 then ""
    else if |pieces| == 1 then pieces[0]
    else pieces[0] + [sep] + Join(pieces[1..], sep)
  }

  /**
    The shape of a join: the empty list joins to the empty string;
    otherwise the result starts with the first piece and is as long as all
    the pieces together plus one separator for each gap between them.
   */
  lemma {:induction false} JoinShape(pieces: seq<string>, sep: char)
    ensures |pieces| == 0 ==> Join(pieces, sep) == []
    ensures |pieces| > 0 ==> |Join(pieces, sep)| == TotalLength(pieces) + |pieces| - 1
    ensures |pieces| > 0 ==> pieces[0] <= Join(pieces, sep)
    decreases |pieces|
  {
    if |pieces| > 1 {
      JoinShape(pieces[1..], sep);
    }
  }

  /** Splitting a concatenation at a separator splits each side independently. */
  lemma {:induction false} SplitAppend(a: string, b: string, sep: char)
    ensures Split(a + [sep] + b, sep) == Split(a, sep) + Split(b, sep)
    decreases |a|
  {
    var s := a + [sep] + b;
    if |a| == 0 {
      assert s == [sep] + b;
      assert s[1..] == b;
    } else {
      assert s[1..] == a[1..] + [sep] + b;
      SplitAppend(a[1..], b, sep);
      if a[0] != sep {
        SplitCons(a[0], a[1..], sep);
        SplitCons(a[0], a[1..] + [sep] + b, sep);
        assert [a[0]] + a[1..] == a;
        assert [a[0]] + (a[1..] + [sep] + b) == s;
        ExtendFirstPiece(a[0], Split(a[1..], sep), Split(b, sep));
      }
    }
  }

  /** A leading non-separator character joins the first piece. */
  lemma SplitCons(c: char, t: string, sep: char)
    requires c != sep
    ensures Split([c] + t, sep) == [[c] + Split(t, sep)[0]] + Split(t, sep)[1..]
  {
    assert ([c] + t)[1..] == t;
  }

  /** Prepending a character to the first piece commutes with appending further pieces. */
  lemma ExtendFirstPiece(c: char, left: seq<string>, right: seq<string>)
    requires |left| >= 1
    ensures [[c] + (left + right)[0]] + (left + right)[1..] == ([[c] + left[0]] + left[1..]) + right
  {
    assert (left + right)[0] == left[0];
    assert (left + right)[1..] == left[1..] + right;
  }

  /** A separator-free string is a single piece. */
  lemma {:induction false} SplitNoSeparator(a: string, sep: char)
    requires sep !in a
    ensures Split(a, sep) == [a]
    decreases |a|
  {
    if |a| > 0 {
      SplitNoSeparator(a[1..], sep);
      assert [a[0]] + a[1..] == a;
    }
  }

  /**
    `split` inverts `join` on a non-empty list of separator-free pieces:
    the two operations are mutual inverses on those lists.
   */
  lemma {:induction false} SplitJoin(pieces: seq<string>, sep: char)
    requires |pieces| >= 1
    requires forall k :: 0 <= k < |pieces| ==> sep !in pieces[k]
    ensures Split(Join(pieces, sep), sep) == pieces
    decreases |pieces|
  {
    SplitNoSeparator(pieces[0], sep);
    if |pieces| > 1 {
      SplitJoin(pieces[1..], sep);
      SplitAppend(pieces[0], Join(pieces[1..], sep), sep);
      assert [pieces[0]] + pieces[1..] == pieces;
    }
  }

  /** Every character of `s` at an index in `lo..hi` is whitespace. */
  predicate WhitespaceBetween(s: string, lo: int, hi: int)
    requires 0 <= lo <= hi <= |s|
  {
    forall k :: lo <= k < hi ==> IsWhitespace(s[k])
  }

  /** The index of the first non-whitespace character of `s` at or after `i`, or `|s|`. */
  function SkipForward(s: string, i: nat): (j: nat)
    requires i <= |s|
    ensures i <= j <= |s|
    ensures WhitespaceBetween(s, i, j)
    ensures j == |s| || !IsWhitespace(s[j])
    decreases |s| - i
  {
    if i < |s| && IsWhitespace(s[i]) then SkipForward(s, i + 1) else i
  }

  /** The index just past the last non-whitespace character of `s` before `j`, or `i`. */
  function SkipBackward(s: string, i: nat, j: nat): (k: nat)
    requires i <= j <= |s|
    ensures i <= k <= j
    ensures WhitespaceBetween(s, k, j)
    ensures k == i || !IsWhitespace(s[k - 1])
    decreases j
  {
    if i < j && IsWhitespace(s[j - 1]) then SkipBackward(s, i, j - 1) else j
  }

  /**
    Rust's `str::trim`: the slice of `s` left after stripping whitespace
    from both ends. The result is a contiguous slice of `s`, everything
    removed is whitespace, and the result neither starts nor ends with
    whitespace; it is empty exactly when `s` is all whitespace.
   */
  function Trim(s: string): (r: string)
    ensures exists i, j :: 0 <= i <= j <= |s| && r == s[i..j]
                           && WhitespaceBetween(s, 0, i) && WhitespaceBetween(s, j, |s|)
    ensures r == [] || (!IsWhitespace(r[0]) && !IsWhitespace(r[|r| - 1]))
    ensures r == [] <==> AllWhitespace(s)
  {
    var i := SkipForward(s, 0);
    var j := SkipBackward(s, i, |s|);
    var r := s[i..j];
    assert forall k :: 0 <= k < |r| ==> r[k] == s[i + k];
    r
  }

  /** Trimming leaves text that neither starts nor ends with whitespace unchanged. */
  lemma TrimIdentity(s: string)
    requires s == [] || (!IsWhitespace(s[0]) && !IsWhitespace(s[|s| - 1]))
    ensures Trim(s) == s
  {
  }

  /** Trimming is idempotent. */
  lemma TrimIdempotent(s: string)
    ensures Trim(Trim(s)) == Trim(s)
  {
    TrimIdentity(Trim(s));
  }
}
