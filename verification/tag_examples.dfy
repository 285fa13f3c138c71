/**
  Concrete parses: the repository's own test input and the cases that
  show an invalid piece winning over emptiness.
 */
module TagExamples {
  import opened Wrappers
  import opened Unicode
  import opened Tags
  import opened Text

  /** The components of the test's tag are each valid. */
  lemma ExampleComponents()
    ensures ValidComponent("a") && ValidComponent("hjeiwao") && ValidComponent("b,") && ValidComponent("c")
  {
  }

  /** The test's expected tag is a valid tag. */
  lemma ExamplePathValid()
    ensures ValidTag(Tag(["a", "hjeiwao", "b,", "c"]))
  {
    ExampleComponents();
  }

  /** The test input splits into five pieces, one of them empty. */
  lemma ExampleSplit()
    ensures Split("a.hjeiwao..b,.c", SEP) == ["a", "hjeiwao", "", "b,", "c"]
  {
    var pieces := ["a", "hjeiwao", "", "b,", "c"];
    assert Join(pieces, SEP) == "a.hjeiwao..b,.c";
    SplitJoin(pieces, SEP);
  }

  /** The test's tag renders with single separators. */
  lemma ExampleRender()
    ensures Render(Tag(["a", "hjeiwao", "b,", "c"])) == "a.hjeiwao.b,.c"
  {
    var path := ["a", "hjeiwao", "b,", "c"];
    assert Render(Tag(path)) == Join(path, SEP);
  }

  /** Four of the five pieces survive the filter. */
  lemma ExampleSurvivors()
    ensures Survivors(Split("a.hjeiwao..b,.c", SEP)) == ["a", "hjeiwao", "b,", "c"]
  {
    ExampleSplit();
    ExamplePieces();
  }

  /** The empty piece is dropped and the others are kept unchanged. */
  lemma ExamplePieces()
    ensures Survivors(["a", "hjeiwao", "", "b,", "c"]) == ["a", "hjeiwao", "b,", "c"]
  {
    var left, right := ["a", "hjeiwao"], ["b,", "c"];
    assert ["a", "hjeiwao", "", "b,", "c"] == left + [""] + right;
    assert left + right == ["a", "hjeiwao", "b,", "c"];
    ExampleComponents();
    ValidPair("a", "hjeiwao");
    ValidPair("b,", "c");
    DropEmptyBetween(left, right);
  }

  /** An empty piece between two lists that the filter keeps whole is dropped. */
  lemma DropEmptyBetween(left: seq<string>, right: seq<string>)
    requires Survivors(left) == left && Survivors(right) == right
    ensures Survivors(left + [""] + right) == left + right
  {
    assert Survivors([""]) == [] by {
      assert AllWhitespace("");
    }
    SurvivorsAppend(left, [""]);
    assert Survivors(left + [""]) == left;
    SurvivorsAppend(left + [""], right);
  }

  /** Two valid components survive the filter unchanged. */
  lemma ValidPair(x: string, y: string)
    requires ValidComponent(x) && ValidComponent(y)
    ensures Survivors([x, y]) == [x, y]
  {
    SurvivorsOfValid([x, y]);
  }

  /**
    The repository's test input: the doubled separator is absorbed, the
    comma is an accepted graphic character, and rendering normalises the
    text to single separators.
   */
  lemma Example()
    ensures Parse("a.hjeiwao..b,.c") == Ok(Tag(["a", "hjeiwao", "b,", "c"]))
    ensures Render(Tag(["a", "hjeiwao", "b,", "c"])) == "a.hjeiwao.b,.c"
  {
    ExampleSurvivors();
    ExamplePathValid();
    ParseValidSurvivors("a.hjeiwao..b,.c", ["a", "hjeiwao", "b,", "c"]);
    ExampleRender();
  }

  /**
    A single piece with an inner space survives trimming and then fails
    the byte check: the error names the piece rather than reporting an
    empty tag.
   */
  lemma InvalidBeatsEmpty()
    ensures Parse("a b") == Err(InvalidComponent("a b"))
  {
    SplitNoSeparator("a b", SEP);
    TrimIdentity("a b");
    assert Survivors(["a b"]) == ["a b"];
    NonGraphicByteIffChar("a b");
    assert !IsGraphic("a b"[1]);
    assert FirstInvalidAt(["a b"], 0);
    var r := Parse("a b");
    var k :| FirstInvalidAt(Survivors(Split("a b", SEP)), k) && r.error.component == Survivors(Split("a b", SEP))[k];
    assert k == 0;
  }

  /** Text made only of separators and whitespace has no component. */
  lemma BlankTexts()
    ensures Parse("") == Err(EmptyTag)
    ensures Parse("...") == Err(EmptyTag)
    ensures Parse(" . ") == Err(EmptyTag)
  {
    EmptyTagIffBlank("");
    EmptyTagIffBlank("...");
    EmptyTagIffBlank(" . ");
  }
}
