/** `Index2D`: the pixel class the grid creates for the cells it visits. Besides the
    shared coordinate behaviour (module Pixel) it has a default constructor, a copy
    constructor from any `Pixel2D`, and a constructor that reads the text `"x,y"`. */
module Index {
  import opened JavaInt
  import opened Wrappers
  import opened Pixel

  /** `new Index2D()`. */
  function Default(): (p: Pixel2D)
    ensures p.Index2D? && Equals(p, PixelObject(PointInt2D(0, 0)))
  {
    Index2D(0, 0)
  }

  /** `new Index2D(p)`: throws on null, otherwise an `Index2D` equal to `p`. */
  function Copy(p: Option<Pixel2D>): (r: Result<Pixel2D, PixelError>)
    ensures r.Failure? <==> p.None?
    ensures r.Failure? ==> r.error == NullArgument
    ensures r.Success? ==> r.value.Index2D? && Equals(r.value, PixelObject(p.value))
  {
    match p
    case None => Failure(NullArgument)
    case Some(q) => Success(Index2D(q.x, q.y))
  }

  // ---------------------------------------------------------------------------
  // String.split(",")

  /** Position of the first `c` in `s`, or `|s|` when there is none. */
  function IndexOf(s: string, c: char): (i: nat)
    ensures i <= |s|
    ensures i < |s| ==> s[i] == c
    ensures forall j :: 0 <= j < i ==> s[j] != c
  {
    if |s| == 0 then 0
    else if s[0] == c then 0
    else 1 + IndexOf(s[1..], c)
  }

  /** The pieces between commas, empty pieces included. */
  function SplitAll(s: string): (parts: seq<string>)
    ensures |parts| >= 1
    ensures forall k :: 0 <= k < |parts| ==> ',' !in parts[k]
    decreases |s|
  {
    var i := IndexOf(s, ',');
    if i == |s| then [s] else [s[..i]] + SplitAll(s[i + 1..])
  }

  /** The pieces put back together, one comma between each two. */
  function Join(parts: seq<string>): string
    requires |parts| >= 1
  {
    if |parts| == 1 then parts[0] else parts[0] + [','] + Join(parts[1..])
  }

  /** Splitting loses nothing but the commas: joining the pieces gives the text back. */
  lemma {:induction false} JoinSplitAll(s: string)
    ensures Join(SplitAll(s)) == s
    decreases |s|
  {
    var i := IndexOf(s, ',');
    if i < |s| {
      var a, rest := s[..i], s[i + 1..];
      var parts := SplitAll(rest);
      assert SplitAll(s) == [a] + parts;
      assert ([a] + parts)[1..] == parts;
      JoinSplitAll(rest);
      assert Join([a] + parts) == a + [','] + rest;
      assert s == a + [','] + rest;
    }
  }

  /** Java drops the trailing empty pieces of a split that found a separator. */
  function DropTrailingEmpty(parts: seq<string>): (r: seq<string>)
    ensures |r| <= |parts| && r == parts[..|r|]
    ensures |r| > 0 ==> r[|r| - 1] != ""
    ensures forall j :: |r| <= j < |parts| ==> parts[j] == ""
  {
    if |parts| == 0 || parts[|parts| - 1] != "" then parts
    else DropTrailingEmpty(parts[..|parts| - 1])
  }

  /** `s.split(",")` for a string that holds a comma. */
  function Split(s: string): seq<string>
  {
    DropTrailingEmpty(SplitAll(s))
  }

  /** `new Index2D(String pos)`: throws on null or on text without a comma;
      otherwise the first two comma-separated pieces, trimmed, must parse as
      `int`s (a missing second piece or a bad number throws too). */
  function Parse(pos: Option<string>): (r: Result<Pixel2D, PixelError>)
    ensures r.Success? ==> r.value.Index2D?
    ensures pos.None? ==> r == Failure(NullArgument)
    ensures pos.Some? && ',' !in pos.value ==> r == Failure(BadPositionString)
    ensures r.Success? ==> var parts := Split(pos.value);
      |parts| >= 2 && ParseInt(Trim(parts[0])) == Some(r.value.x) && ParseInt(Trim(parts[1])) == Some(r.value.y)
  {
    match pos
    case None => Failure(NullArgument)
    case Some(s) =>
      if ',' !in s then Failure(BadPositionString)
      else
        var parts := Split(s);
        if |parts| < 2 then Failure(BadPositionString)
        else
          match (ParseInt(Trim(parts[0])), ParseInt(Trim(parts[1])))
          case (Some(x), Some(y)) => Success(Index2D(x, y))
          case _ => Failure(BadPositionString)
  }

  lemma SplitOfPlain(s: string)
    requires ',' !in s
    ensures SplitAll(s) == [s]
  {
  }

  /** Splitting at a first comma peels off the piece before it. */
  lemma SplitAtComma(a: string, rest: string)
    requires ',' !in a
    ensures SplitAll(a + [','] + rest) == [a] + SplitAll(rest)
  {
    var s := a + [','] + rest;
    assert s[|a|] == ',';
    assert forall j :: 0 <= j < |a| ==> s[j] == a[j];
    assert IndexOf(s, ',') == |a|;
    assert s[..|a|] == a && s[|a| + 1..] == rest;
  }

  /** Two comma-free pieces, the second nonempty, split back into those pieces. */
  lemma SplitTwo(a: string, b: string)
    requires ',' !in a && ',' !in b && b != ""
    ensures Split(a + [','] + b) == [a, b]
  {
    SplitAtComma(a, b);
    SplitOfPlain(b);
  }

  /** Parse succeeds when the first two pieces read as numbers. */
  lemma ParsePieces(s: string, x: int32, y: int32)
    requires ',' in s
    requires |Split(s)| >= 2
    requires ParseInt(Trim(Split(s)[0])) == Some(x) && ParseInt(Trim(Split(s)[1])) == Some(y)
    ensures Parse(Some(s)) == Success(Index2D(x, y))
  {
  }

  /** Reading back what `toString()` printed gives an `Index2D` equal to the
      original pixel, for every pair of `int`s and either class. */
  lemma ParseToString(p: Pixel2D)
    ensures Parse(Some(ToString(p))) == Success(Index2D(p.x, p.y))
    ensures Equals(Parse(Some(ToString(p))).value, PixelObject(p))
  {
    var a, b := DecimalString(p.x), DecimalString(p.y);
    var s := ToString(p);
    ToStringShape(p);
    DecimalStringIsPlain(p.x);
    DecimalStringIsPlain(p.y);
    assert ',' in s by { assert s[|a|] == ','; }
    assert ',' !in a && ',' !in b;
    assert s == a + [','] + b;
    SplitTwo(a, b);
    ParseDecimalString(p.x);
    ParseDecimalString(p.y);
  }

  /** Text the class is used with: plain, with blanks around the numbers,
      with a third piece that is ignored, and two kinds that throw. */
  lemma ParsePlain()
    ensures Parse(Some("12,5")) == Success(Index2D(12, 5))
  {
    assert NatDigits(12) == "12" by { assert NatDigits(1) == "1"; }
    assert NatDigits(5) == "5";
    assert ToString(Index2D(12, 5)) == "12" + "," + "5" == "12,5";
    ParseToString(Index2D(12, 5));
  }

  lemma ParseBlanks()
    ensures Parse(Some(" -3 , 7 ")) == Success(Index2D(-3, 7))
  {
    SplitTwo(" -3 ", " 7 ");
    assert " -3 " + [','] + " 7 " == " -3 , 7 ";
    BlankPieces();
    assert ',' in " -3 , 7 " by { assert " -3 , 7 "[4] == ','; }
    ParsePieces(" -3 , 7 ", -3, 7);
  }

  lemma BlankPieces()
    ensures ParseInt(Trim(" -3 ")) == Some(-3) && ParseInt(Trim(" 7 ")) == Some(7)
  {
    assert Trim(" -3 ") == "-3" && Trim(" 7 ") == "7";
    assert ParseInt("-3") == Some(-3) by { assert "-3"[1..] == "3"; assert DigitsValue("3") == 3 by { assert "3"[..0] == ""; } }
    assert ParseInt("7") == Some(7) by { assert DigitsValue("7") == 7 by { assert "7"[..0] == ""; } }
  }

  lemma ParseThreePieces()
    ensures Parse(Some("1,2,3")) == Success(Index2D(1, 2))
  {
    ThreePiecesNumbers();
    assert ',' in "1,2,3" by { assert "1,2,3"[1] == ','; }
    ParsePieces("1,2,3", 1, 2);
  }

  lemma ThreePiecesNumbers()
    ensures |Split("1,2,3")| >= 2
    ensures ParseInt(Trim(Split("1,2,3")[0])) == Some(1) && ParseInt(Trim(Split("1,2,3")[1])) == Some(2)
  {
    SplitThreePieces();
    SingleDigit('1');
    SingleDigit('2');
  }

  lemma SplitThreePieces()
    ensures Split("1,2,3") == ["1", "2", "3"]
  {
    SplitOneOfThree();
    SplitTwoOfThree();
    var all := SplitAll("1,2,3");
    assert all == ["1", "2", "3"];
  }

  lemma SplitOneOfThree()
    ensures SplitAll("1,2,3") == ["1"] + SplitAll("2,3")
  {
    SplitAtComma("1", "2,3");
    assert "1" + [','] + "2,3" == "1,2,3";
  }

  lemma SplitTwoOfThree()
    ensures SplitAll("2,3") == ["2", "3"]
  {
    SplitAtComma("2", "3");
    SplitOfPlain("3");
    assert "2" + [','] + "3" == "2,3";
  }

  lemma ParseNoComma()
    ensures Parse(Some("12")) == Failure(BadPositionString)
  {
  }

  lemma ParseMissingSecond()
    ensures Parse(Some("5,")) == Failure(BadPositionString)
  {
  }

  lemma ParseNotNumbers()
    ensures Parse(Some("a,b")) == Failure(BadPositionString)
  {
  }
}
