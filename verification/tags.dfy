/**
  Hierarchical tags: parsing free text into a dot-separated path of
  validated components, and rendering a tag back to text.
 */
module Tags {
  import opened Wrappers
  import opened Unicode
  import opened Text

  /** `Tag::SEP`, the separator between components. */
  const SEP: char := '.'

  /** A tag is its path of components, outermost first. */
  datatype Tag = Tag(path: seq<string>)

  /** Why a text is not a tag. */
  datatype TagError =
    | EmptyTag                          // no component survives trimming
    | InvalidComponent(component: string) // the first surviving piece with a non-graphic byte

  /** A component a parsed tag may hold: non-empty, ASCII-graphic only, and separator-free. */
  predicate ValidComponent(c: string) {
    c != [] && AllGraphic(c) && SEP !in c
  }

  /** The shape every parsed tag has: at least one component, each of them valid. */
  predicate ValidTag(t: Tag) {
    |t.path| >= 1 && forall k :: 0 <= k < |t.path| ==> ValidComponent(t.path[k])
  }

  /**
    The pieces that survive the parser's filter: each piece trimmed, the
    ones that trim to empty dropped, the rest kept in their original order.
   */
  function Survivors(pieces: seq<string>): (r: seq<string>)
    ensures |r| <= |pieces|
    ensures forall k :: 0 <= k < |r| ==> r[k] != []
  {
    if |pieces| == 0 then []
    else
      var c := Trim(pieces[0]);
      (if c == [] then [] else [c]) + Survivors(pieces[1..])
  }

  /** No component of `cs` has a non-graphic byte. */
  predicate NoneInvalid(cs: seq<string>) {
    forall k :: 0 <= k < |cs| ==> !HasNonGraphicByte(cs[k])
  }

  /** A list has no invalid component exactly when neither its head nor its tail has one. */
  lemma NoneInvalidCons(c: string, rest: seq<string>)
    ensures NoneInvalid([c] + rest) <==> !HasNonGraphicByte(c) && NoneInvalid(rest)
  {
    var all := [c] + rest;
    if NoneInvalid(all) {
      assert all[0] == c;
      forall k | 0 <= k < |rest|
        ensures !HasNonGraphicByte(rest[k])
      {
        assert all[k + 1] == rest[k];
      }
    }
    if !HasNonGraphicByte(c) && NoneInvalid(rest) {
      forall k | 0 <= k < |all|
        ensures !HasNonGraphicByte(all[k])
      {
        if k > 0 {
          assert all[k] == rest[k - 1];
        }
      }
    }
  }

  /** Behind a valid head, the first invalid component moves one place to the right. */
  lemma FirstInvalidCons(c: string, rest: seq<string>, k: int)
    requires !HasNonGraphicByte(c) && FirstInvalidAt(rest, k)
    ensures FirstInvalidAt([c] + rest, k + 1)
  {
    var all := [c] + rest;
    assert all[..k + 1] == [c] + rest[..k];
    NoneInvalidCons(c, rest[..k]);
  }

  /** `k` is the index of the first component of `cs` with a non-graphic byte. */
  predicate FirstInvalidAt(cs: seq<string>, k: int) {
    0 <= k < |cs| && HasNonGraphicByte(cs[k]) && NoneInvalid(cs[..k])
  }

  /**
    The loop of `Tag::from_str`: walk the pieces left to right, trim each,
    skip the empty ones, stop at the first one with a non-graphic byte and
    otherwise push it onto `stack`. It succeeds exactly when no survivor is
    invalid, leaving the survivors after `stack`; otherwise it names the
    first invalid survivor, whatever follows it.
   */
  function Scan(pieces: seq<string>, stack: seq<string>): (r: Result<seq<string>, TagError>)
    ensures r.Ok? <==> NoneInvalid(Survivors(pieces))
    ensures r.Ok? ==> r.value == stack + Survivors(pieces)
    ensures r.Err? ==> exists k :: FirstInvalidAt(Survivors(pieces), k)
                                   && r.error == InvalidComponent(Survivors(pieces)[k])
    decreases |pieces|
  {
    if |pieces| == 0 then
      Ok(stack)
    else
      var c := Trim(pieces[0]);
      var rest := Survivors(pieces[1..]);
      if c == [] then
        assert Survivors(pieces) == rest;
        Scan(pieces[1..], stack)
      else
        assert Survivors(pieces) == [c] + rest;
        if HasNonGraphicByte(c) then
          RejectHead(c, rest);
          Err(InvalidComponent(c))
        else
          var r := Scan(pieces[1..], stack + [c]);
          PushHead(c, rest, stack, r);
          r
  }

  /** A survivor list whose head is invalid fails at index 0. */
  lemma RejectHead(c: string, rest: seq<string>)
    requires HasNonGraphicByte(c)
    ensures !NoneInvalid([c] + rest)
    ensures FirstInvalidAt([c] + rest, 0) && ([c] + rest)[0] == c
  {
    assert ([c] + rest)[..0] == [];
    assert ([c] + rest)[0] == c;
  }

  /** Pushing a valid head in front of the rest of the scan keeps the scan's contract. */
  lemma PushHead(c: string, rest: seq<string>, stack: seq<string>, r: Result<seq<string>, TagError>)
    requires !HasNonGraphicByte(c)
    requires r.Ok? <==> NoneInvalid(rest)
    requires r.Ok? ==> r.value == stack + [c] + rest
    requires r.Err? ==> exists k :: FirstInvalidAt(rest, k) && r.error == InvalidComponent(rest[k])
    ensures r.Ok? <==> NoneInvalid([c] + rest)
    ensures r.Ok? ==> r.value == stack + ([c] + rest)
    ensures r.Err? ==> exists k :: FirstInvalidAt([c] + rest, k) && r.error == InvalidComponent(([c] + rest)[k])
  {
    NoneInvalidCons(c, rest);
    assert stack + [c] + rest == stack + ([c] + rest);
    if r.Err? {
      var k :| FirstInvalidAt(rest, k) && r.error == InvalidComponent(rest[k]);
      FirstInvalidCons(c, rest, k);
      assert ([c] + rest)[k + 1] == rest[k];
    }
  }

  /**
    `Tag::from_str`: split on `SEP`, trim, drop empty pieces, reject the
    first piece with a byte outside 0x21..0x7E, and fail with `EmptyTag`
    when nothing survives. An invalid piece takes precedence over
    emptiness; a successful parse is a valid tag whose components are
    exactly the surviving pieces, in order.
   */
  function Parse(s: string): (r: Result<Tag, TagError>)
    ensures r.Ok? ==> ValidTag(r.value)
    ensures r.Ok? ==> r.value.path == Survivors(Split(s, SEP))
    ensures r == Err(EmptyTag) <==> Survivors(Split(s, SEP)) == []
    ensures r.Err? && r.error.InvalidComponent? <==>
              exists k :: FirstInvalidAt(Survivors(Split(s, SEP)), k)
    ensures r.Err? && r.error.InvalidComponent? ==>
              exists k :: FirstInvalidAt(Survivors(Split(s, SEP)), k)
                          && r.error.component == Survivors(Split(s, SEP))[k]
  {
    var pieces := Split(s, SEP);
    var scanned := Scan(pieces, []);
    ScanOutcome(pieces);
    if scanned.Ok? then
      if scanned.value == [] then Err(EmptyTag) else Ok(Tag(scanned.value))
    else
      Err(scanned.error)
  }

  /** What the scan of separator-free pieces tells `Parse`, from an empty stack. */
  lemma ScanOutcome(pieces: seq<string>)
    requires forall k :: 0 <= k < |pieces| ==> SEP !in pieces[k]
    ensures Scan(pieces, []).Ok? ==>
              && Scan(pieces, []).value == Survivors(pieces)
              && (forall k :: 0 <= k < |Survivors(pieces)| ==> ValidComponent(Survivors(pieces)[k]))
              && (forall k :: !FirstInvalidAt(Survivors(pieces), k))
    ensures Scan(pieces, []).Err? ==>
              && Survivors(pieces) != []
              && Scan(pieces, []).error.InvalidComponent?
  {
    var scanned := Scan(pieces, []);
    if scanned.Ok? {
      SurvivorsValid(pieces);
      assert [] + Survivors(pieces) == Survivors(pieces);
    }
  }

  /** `Display for Tag`: the components joined by `SEP`. */
  function Render(t: Tag): (s: string)
    ensures ValidTag(t) ==> Split(s, SEP) == t.path
  {
    var s := Join(t.path, SEP);
    if ValidTag(t) then SplitJoin(t.path, SEP); s else s
  }

  /**
    Every survivor of separator-free pieces is non-empty, separator-free
    and, when it has no non-graphic byte, ASCII-graphic.
   */
  lemma {:induction false} SurvivorsValid(pieces: seq<string>)
    requires forall k :: 0 <= k < |pieces| ==> SEP !in pieces[k]
    requires NoneInvalid(Survivors(pieces))
    ensures forall k :: 0 <= k < |Survivors(pieces)| ==> ValidComponent(Survivors(pieces)[k])
    decreases |pieces|
  {
    if |pieces| > 0 {
      var c := Trim(pieces[0]);
      var rest := Survivors(pieces[1..]);
      var all := Survivors(pieces);
      if c == [] {
        assert all == rest;
        SurvivorsValid(pieces[1..]);
      } else {
        assert all == [c] + rest;
        NoneInvalidCons(c, rest);
        SurvivorsValid(pieces[1..]);
        TrimmedPieceValid(pieces[0]);
        assert forall k :: 0 < k < |all| ==> all[k] == rest[k - 1];
      }
    }
  }

  /** A separator-free piece that trims to something with no non-graphic byte is a valid component. */
  lemma TrimmedPieceValid(piece: string)
    requires SEP !in piece
    requires Trim(piece) != [] && !HasNonGraphicByte(Trim(piece))
    ensures ValidComponent(Trim(piece))
  {
    var c := Trim(piece);
    var i, j :| 0 <= i <= j <= |piece| && c == piece[i..j];
    assert forall k :: 0 <= k < |c| ==> c[k] == piece[i + k];
    NonGraphicByteIffChar(c);
  }

  /** Valid components survive the filter unchanged: trimming leaves them as they are. */
  lemma {:induction false} SurvivorsOfValid(path: seq<string>)
    requires forall k :: 0 <= k < |path| ==> ValidComponent(path[k])
    ensures Survivors(path) == path
    ensures NoneInvalid(path)
    decreases |path|
  {
    if |path| > 0 {
      var c := path[0];
      WhitespaceIsNotGraphic(c[0]);
      WhitespaceIsNotGraphic(c[|c| - 1]);
      TrimIdentity(c);
      NonGraphicByteIffChar(c);
      SurvivorsOfValid(path[1..]);
      assert [c] + path[1..] == path;
      NoneInvalidCons(c, path[1..]);
    }
  }

  /**
    The round trip of `Display` and `FromStr`: rendering a valid tag and
    parsing the text back yields the same tag, component by component.
   */
  lemma ParseRender(t: Tag)
    requires ValidTag(t)
    ensures Parse(Render(t)) == Ok(t)
  {
    assert Split(Render(t), SEP) == t.path;
    SurvivorsOfValid(t.path);
  }

  /** Parsing is a normalisation: re-parsing the rendering of a parsed tag gives the same result. */
  lemma ParseIdempotent(s: string)
    ensures Parse(s).Ok? ==> Parse(Render(Parse(s).value)) == Parse(s)
  {
    if Parse(s).Ok? {
      ParseRender(Parse(s).value);
    }
  }

  /** `ValidTag` describes exactly the tags the parser can produce. */
  lemma ParseImage(t: Tag)
    ensures ValidTag(t) <==> exists s :: Parse(s) == Ok(t)
  {
    if ValidTag(t) {
      ParseRender(t);
    }
  }

  /** No survivor remains exactly when every piece is whitespace only. */
  lemma {:induction false} SurvivorsEmpty(pieces: seq<string>)
    ensures Survivors(pieces) == [] <==> forall k :: 0 <= k < |pieces| ==> AllWhitespace(pieces[k])
    decreases |pieces|
  {
    if |pieces| > 0 {
      SurvivorsEmpty(pieces[1..]);
      if forall k :: 0 <= k < |pieces[1..]| ==> AllWhitespace(pieces[1..][k]) {
        forall k | 0 <= k < |pieces| && AllWhitespace(pieces[0])
          ensures AllWhitespace(pieces[k])
        {
          if k > 0 { assert pieces[k] == pieces[1..][k - 1]; }
        }
      }
    }
  }

  /**
    Joining separator-free pieces gives a text of separators and
    whitespace exactly when every piece is whitespace only.
   */
  lemma {:induction false} JoinBlank(pieces: seq<string>)
    requires forall k :: 0 <= k < |pieces| ==> SEP !in pieces[k]
    ensures (forall k :: 0 <= k < |pieces| ==> AllWhitespace(pieces[k]))
            <==> Blank(Join(pieces, SEP))
    decreases |pieces|
  {
    if |pieces| == 1 {
      assert Join(pieces, SEP) == pieces[0];
      BlankNoSeparator(pieces[0]);
    } else if |pieces| > 1 {
      var head, tail := pieces[0], Join(pieces[1..], SEP);
      JoinBlank(pieces[1..]);
      BlankNoSeparator(head);
      BlankAppend(head + [SEP], tail);
      BlankAppend(head, [SEP]);
      if forall k :: 0 <= k < |pieces[1..]| ==> AllWhitespace(pieces[1..][k]) {
        forall k | 0 <= k < |pieces| && AllWhitespace(head)
          ensures AllWhitespace(pieces[k])
        {
          if k > 0 { assert pieces[k] == pieces[1..][k - 1]; }
        }
      }
    }
  }

  /** Every character of `s` is the separator or whitespace. */
  predicate Blank(s: string) {
    forall i :: 0 <= i < |s| ==> s[i] == SEP || IsWhitespace(s[i])
  }

  /** A concatenation is blank exactly when both parts are. */
  lemma BlankAppend(a: string, b: string)
    ensures Blank(a + b) <==> Blank(a) && Blank(b)
  {
    if Blank(a) && Blank(b) {
      forall i | 0 <= i < |a + b|
        ensures (a + b)[i] == SEP || IsWhitespace((a + b)[i])
      {
        if i >= |a| { assert (a + b)[i] == b[i - |a|]; }
      }
    }
    if Blank(a + b) {
      forall i | 0 <= i < |a|
        ensures a[i] == SEP || IsWhitespace(a[i])
      {
        assert (a + b)[i] == a[i];
      }
      forall i | 0 <= i < |b|
        ensures b[i] == SEP || IsWhitespace(b[i])
      {
        assert (a + b)[|a| + i] == b[i];
      }
    }
  }

  /** Without separators, blank text is exactly all-whitespace text. */
  lemma BlankNoSeparator(a: string)
    requires SEP !in a
    ensures Blank(a) <==> AllWhitespace(a)
  {
  }

  /**
    The empty-tag error arises exactly for texts made only of separators
    and whitespace: `""`, `"..."`, `" . "` and the like.
   */
  lemma EmptyTagIffBlank(s: string)
    ensures Parse(s) == Err(EmptyTag) <==> Blank(s)
  {
    SurvivorsEmpty(Split(s, SEP));
    JoinBlank(Split(s, SEP));
  }

  /** The filter works piece by piece, so it distributes over concatenation. */
  lemma {:induction false} SurvivorsAppend(first: seq<string>, later: seq<string>)
    ensures Survivors(first + later) == Survivors(first) + Survivors(later)
    decreases |first|
  {
    if |first| == 0 {
      assert first + later == later;
    } else {
      assert (first + later)[0] == first[0];
      assert (first + later)[1..] == first[1..] + later;
      SurvivorsAppend(first[1..], later);
    }
  }

  /** There is at most one first invalid component. */
  lemma FirstInvalidUnique(cs: seq<string>, j: int, k: int)
    requires FirstInvalidAt(cs, j) && FirstInvalidAt(cs, k)
    ensures j == k
  {
    assert forall i :: 0 <= i < j ==> cs[..j][i] == cs[i];
    assert forall i :: 0 <= i < k ==> cs[..k][i] == cs[i];
  }

  /** Components appended after the first invalid one leave it the first invalid one. */
  lemma FirstInvalidExtend(cs: seq<string>, ds: seq<string>, k: int)
    requires FirstInvalidAt(cs, k)
    ensures FirstInvalidAt(cs + ds, k) && (cs + ds)[k] == cs[k]
  {
    assert (cs + ds)[..k] == cs[..k];
  }

  /**
    The parser returns at the first invalid piece without examining the
    rest of the text: whatever follows another separator cannot change
    the error.
   */
  lemma LaterPiecesNotExamined(a: string, b: string)
    ensures Parse(a).Err? && Parse(a).error.InvalidComponent? ==> Parse(a + [SEP] + b) == Parse(a)
  {
    if Parse(a).Err? && Parse(a).error.InvalidComponent? {
      var left, right := Survivors(Split(a, SEP)), Survivors(Split(b, SEP));
      SplitAppend(a, b, SEP);
      SurvivorsAppend(Split(a, SEP), Split(b, SEP));
      var k :| FirstInvalidAt(left, k) && Parse(a).error.component == left[k];
      FirstInvalidExtend(left, right, k);
      var r := Parse(a + [SEP] + b);
      var j :| FirstInvalidAt(left + right, j) && r.error.component == (left + right)[j];
      FirstInvalidUnique(left + right, j, k);
    }
  }

  /** When the survivors of a text form a valid tag, that tag is what the text parses to. */
  lemma ParseValidSurvivors(s: string, path: seq<string>)
    requires Survivors(Split(s, SEP)) == path && ValidTag(Tag(path))
    ensures Parse(s) == Ok(Tag(path))
  {
    SurvivorsOfValid(path);
  }
}
