/**
  The dimension-string parsers of `Scaler`.

  A size string such as "32x32" is cut at every `x` with the empty pieces
  dropped; the first and the last piece are read as numbers. Swift's
  `first!` on an empty piece list is a runtime trap, which both functions
  state as the precondition `HasPiece`.
 */
module Scaler {
  import opened Optional
  import Strings
  import Numerals

  /** A `CGSize` built from two `Int`s. */
  datatype Size = Size(width: int, height: int)

  /** The `(width:, height:)` tuple of `Double`s. */
  datatype Dimensions = Dimensions(width: real, height: real)

  /** The `x`-separated non-empty pieces: `sizeString.split(separator: "x")`. */
  function Pieces(sizeString: string): seq<string>
  {
    Strings.Split(sizeString, 'x')
  }

  /** `first!` and `last!` do not trap. */
  predicate HasPiece(sizeString: string)
  {
    Pieces(sizeString) != []
  }

  function FirstPiece(sizeString: string): string
    requires HasPiece(sizeString)
  {
    Pieces(sizeString)[0]
  }

  function LastPiece(sizeString: string): string
    requires HasPiece(sizeString)
  {
    Pieces(sizeString)[|Pieces(sizeString)| - 1]
  }

  /**
    `cgSizeFromWxHString`: width from the first piece, height from the last,
    read by `Int(_:)`. It fails exactly when one of the two is not an integer
    numeral within 64 bits, and otherwise holds the values of the two numerals.
   */
  function SizeFromWxHString(sizeString: string): (size: Option<Size>)
    requires HasPiece(sizeString)
    ensures size.None? <==>
              !Numerals.IsInt64Numeral(FirstPiece(sizeString)) || !Numerals.IsInt64Numeral(LastPiece(sizeString))
    ensures size.Some? ==>
              size.value == Size(Numerals.IntNumeralValue(FirstPiece(sizeString)), Numerals.IntNumeralValue(LastPiece(sizeString)))
    ensures size.Some? ==> Numerals.InIntRange(size.value.width) && Numerals.InIntRange(size.value.height)
  {
    var w := Numerals.ParseInt(FirstPiece(sizeString));
    var h := Numerals.ParseInt(LastPiece(sizeString));
    if w.Some? && h.Some? then Some(Size(w.value, h.value)) else None
  }

  /**
    `dimensionsFromWxHString`: the first and last pieces read by `Double(_:)`,
    each times `scale`. It fails exactly when one end is neither an integer
    numeral nor a signed decimal numeral, and each end is read, on its own,
    as the exact value it denotes.
   */
  function DimensionsFromWxHString(sizeString: string, scale: real := 1.0): (dims: Option<Dimensions>)
    requires HasPiece(sizeString)
    ensures dims.None? <==>
              !Numerals.IsRealNumeral(FirstPiece(sizeString)) || !Numerals.IsRealNumeral(LastPiece(sizeString))
    ensures dims.Some? ==>
              dims.value == Dimensions(Scaled(Numerals.RealNumeralValue(FirstPiece(sizeString)), scale),
                                       Scaled(Numerals.RealNumeralValue(LastPiece(sizeString)), scale))
  {
    var first, last := FirstPiece(sizeString), LastPiece(sizeString);
    Numerals.ParseDoubleMeaning(first);
    Numerals.ParseDoubleMeaning(last);
    var w := Numerals.ParseDouble(first);
    var h := Numerals.ParseDouble(last);
    if w.Some? && h.Some? then Some(Dimensions(Scaled(w.value, scale), Scaled(h.value, scale))) else None
  }

  /** A length multiplied by the scale factor. */
  function Scaled(length: real, scale: real): real
  {
    length * scale
  }

  // ---------------------------------------------------------------------
  // When the parsers can be called

  /** `first!` traps exactly on strings made of nothing but `x`s, the empty string included. */
  lemma HasPieceIff(sizeString: string)
    ensures HasPiece(sizeString) <==> exists i :: 0 <= i < |sizeString| && sizeString[i] != 'x'
  {
    Strings.SplitIsEmpty(sizeString, 'x');
  }

  lemma TrappingStrings()
    ensures !HasPiece("") && !HasPiece("xx")
  {
    Strings.SplitIsEmpty("", 'x');
    Strings.SplitIsEmpty("xx", 'x');
    assert "xx"[0] == 'x' && "xx"[1] == 'x';
  }

  // ---------------------------------------------------------------------
  // Which pieces matter

  /** A string without `x` is a single piece. */
  lemma SinglePiece(t: string)
    requires t != [] && 'x' !in t
    ensures HasPiece(t) && FirstPiece(t) == t && LastPiece(t) == t
  {
    Strings.SplitWithoutSep(t, 'x');
  }

  /** Pieces on both sides of an `x` stay apart: first from the left part, last from the right. */
  lemma EndPieces(a: string, b: string)
    requires HasPiece(a) && HasPiece(b)
    ensures HasPiece(a + "x" + b)
    ensures FirstPiece(a + "x" + b) == FirstPiece(a) && LastPiece(a + "x" + b) == LastPiece(b)
  {
    Strings.SplitConcat(a, b, 'x');
  }

  /** The parsers look at nothing but the first and the last piece. */
  lemma SameEndsSameResult(s1: string, s2: string, scale: real)
    requires HasPiece(s1) && HasPiece(s2)
    requires FirstPiece(s1) == FirstPiece(s2) && LastPiece(s1) == LastPiece(s2)
    ensures SizeFromWxHString(s1) == SizeFromWxHString(s2)
    ensures DimensionsFromWxHString(s1, scale) == DimensionsFromWxHString(s2, scale)
  {
  }

  /** Inserting `"x" + middle` between two parts keeps the first and the last piece. */
  lemma MiddlePieces(a: string, middle: string, b: string)
    requires HasPiece(a) && HasPiece(b)
    ensures HasPiece(a + "x" + middle + "x" + b) && HasPiece(a + "x" + b)
    ensures FirstPiece(a + "x" + middle + "x" + b) == FirstPiece(a + "x" + b)
    ensures LastPiece(a + "x" + middle + "x" + b) == LastPiece(a + "x" + b)
  {
    var whole, front := a + "x" + middle + "x" + b, a + ['x'] + middle;
    assert whole == front + ['x'] + b;
    assert a + "x" + b == a + ['x'] + b;
    var pa, pm, pb := Pieces(a), Pieces(middle), Pieces(b);
    Strings.SplitConcat(a, middle, 'x');
    assert Pieces(front) == pa + pm;
    Strings.SplitConcat(front, b, 'x');
    assert Pieces(whole) == pa + pm + pb;
    Strings.SplitConcat(a, b, 'x');
    assert Pieces(a + "x" + b) == pa + pb;
    assert (pa + pm + pb)[0] == pa[0] == (pa + pb)[0];
    assert (pa + pm + pb)[|pa + pm + pb| - 1] == pb[|pb| - 1] == (pa + pb)[|pa + pb| - 1];
  }

  /** Everything between the first and the last piece is ignored. */
  lemma MiddlePiecesIgnored(a: string, middle: string, b: string, scale: real)
    requires HasPiece(a) && HasPiece(b)
    ensures HasPiece(a + "x" + middle + "x" + b) && HasPiece(a + "x" + b)
    ensures SizeFromWxHString(a + "x" + middle + "x" + b) == SizeFromWxHString(a + "x" + b)
    ensures DimensionsFromWxHString(a + "x" + middle + "x" + b, scale) == DimensionsFromWxHString(a + "x" + b, scale)
  {
    MiddlePieces(a, middle, b);
    SameEndsSameResult(a + "x" + middle + "x" + b, a + "x" + b, scale);
  }

  /** A lone numeral "N" stands for both sides: N by N. */
  lemma LoneNumeral(t: string)
    requires t != [] && 'x' !in t
    ensures HasPiece(t)
    ensures SizeFromWxHString(t) == if Numerals.ParseInt(t).Some? then Some(Size(Numerals.ParseInt(t).value, Numerals.ParseInt(t).value)) else None
  {
    SinglePiece(t);
  }

  // ---------------------------------------------------------------------
  // Values

  /** The pieces of a formatted "WxH". */
  lemma FormattedPieces(w: int, h: int)
    ensures HasPiece(Numerals.FormatInt(w) + "x" + Numerals.FormatInt(h))
    ensures FirstPiece(Numerals.FormatInt(w) + "x" + Numerals.FormatInt(h)) == Numerals.FormatInt(w)
    ensures LastPiece(Numerals.FormatInt(w) + "x" + Numerals.FormatInt(h)) == Numerals.FormatInt(h)
  {
    var fw, fh := Numerals.FormatInt(w), Numerals.FormatInt(h);
    assert forall i :: 0 <= i < |fw| ==> fw[i] != 'x';
    assert forall i :: 0 <= i < |fh| ==> fh[i] != 'x';
    SinglePiece(fw);
    SinglePiece(fh);
    EndPieces(fw, fh);
  }

  /** "WxH" gives width W and height H whenever both fit in an `Int`, and nil otherwise. */
  lemma SizeOfFormatted(w: int, h: int)
    ensures HasPiece(Numerals.FormatInt(w) + "x" + Numerals.FormatInt(h))
    ensures SizeFromWxHString(Numerals.FormatInt(w) + "x" + Numerals.FormatInt(h))
         == if Numerals.InIntRange(w) && Numerals.InIntRange(h) then Some(Size(w, h)) else None
  {
    FormattedPieces(w, h);
    Numerals.ParseIntOfFormat(w);
    Numerals.ParseIntOfFormat(h);
  }

  /** "WxH" with scale s gives (W·s, H·s). */
  lemma DimensionsOfFormatted(w: int, h: int, scale: real)
    ensures HasPiece(Numerals.FormatInt(w) + "x" + Numerals.FormatInt(h))
    ensures DimensionsFromWxHString(Numerals.FormatInt(w) + "x" + Numerals.FormatInt(h), scale)
         == Some(Dimensions(Scaled(w as real, scale), Scaled(h as real, scale)))
  {
    FormattedPieces(w, h);
    Numerals.ParseDoubleOfFormat(w);
    Numerals.ParseDoubleOfFormat(h);
  }

  /** Success does not depend on the scale, and the value is the unscaled one times the scale. */
  lemma DimensionsScale(sizeString: string, scale: real)
    requires HasPiece(sizeString)
    ensures DimensionsFromWxHString(sizeString, scale).Some? <==> DimensionsFromWxHString(sizeString).Some?
    ensures DimensionsFromWxHString(sizeString, scale).Some? ==>
              var d := DimensionsFromWxHString(sizeString).value;
              DimensionsFromWxHString(sizeString, scale).value == Dimensions(Scaled(d.width, scale), Scaled(d.height, scale))
  {
    var w := Numerals.ParseDouble(FirstPiece(sizeString));
    var h := Numerals.ParseDouble(LastPiece(sizeString));
    if w.Some? && h.Some? {
      assert Scaled(w.value, 1.0) == w.value && Scaled(h.value, 1.0) == h.value;
      assert DimensionsFromWxHString(sizeString).value == Dimensions(w.value, h.value);
    }
  }

  /** Wherever `cgSizeFromWxHString` succeeds, `dimensionsFromWxHString` succeeds with the same values, scaled. */
  lemma DimensionsExtendSize(sizeString: string, scale: real)
    requires HasPiece(sizeString)
    requires SizeFromWxHString(sizeString).Some?
    ensures DimensionsFromWxHString(sizeString, scale) ==
              var s := SizeFromWxHString(sizeString).value;
              Some(Dimensions(Scaled(s.width as real, scale), Scaled(s.height as real, scale)))
  {
  }

  /**
    On strings whose first and last pieces are integer numerals, the Double
    parser at scale 1 always succeeds, and the Int parser succeeds exactly
    when both values fit in 64 bits, with the same values.
   */
  lemma SizeAndDimensionsOnIntegerNumerals(sizeString: string)
    requires HasPiece(sizeString)
    requires Numerals.IsIntNumeral(FirstPiece(sizeString)) && Numerals.IsIntNumeral(LastPiece(sizeString))
    ensures DimensionsFromWxHString(sizeString).Some?
    ensures SizeFromWxHString(sizeString).Some? <==>
              Numerals.InIntRange(Numerals.IntNumeralValue(FirstPiece(sizeString)))
              && Numerals.InIntRange(Numerals.IntNumeralValue(LastPiece(sizeString)))
    ensures SizeFromWxHString(sizeString).Some? ==>
              var s := SizeFromWxHString(sizeString).value;
              DimensionsFromWxHString(sizeString) == Some(Dimensions(s.width as real, s.height as real))
  {
    Numerals.ParseDoubleOfIntNumeral(FirstPiece(sizeString));
    Numerals.ParseDoubleOfIntNumeral(LastPiece(sizeString));
  }

  // ---------------------------------------------------------------------
  // The documented examples

  /** The pieces of "16x16", "32x32" and "1.5x1.5". */
  lemma SquarePieces(side: string)
    requires side != [] && 'x' !in side
    ensures HasPiece(side + "x" + side)
    ensures FirstPiece(side + "x" + side) == side && LastPiece(side + "x" + side) == side
  {
    SinglePiece(side);
    EndPieces(side, side);
  }

  /** The two sides of "16x16" and "32x32". */
  lemma SquareLiteralPieces()
    ensures HasPiece("16x16") && FirstPiece("16x16") == "16" && LastPiece("16x16") == "16"
    ensures HasPiece("32x32") && FirstPiece("32x32") == "32" && LastPiece("32x32") == "32"
  {
    assert "16x16" == "16" + "x" + "16";
    SquarePieces("16");
    assert "32x32" == "32" + "x" + "32";
    SquarePieces("32");
  }

  /** "16" and "32" are the integer numerals 16 and 32. */
  lemma SquareSides()
    ensures Numerals.IsIntNumeral("16") && Numerals.IntNumeralValue("16") == 16
    ensures Numerals.IsIntNumeral("32") && Numerals.IntNumeralValue("32") == 32
  {
    assert Numerals.Magnitude("16") == "16" && "16"[..1] == "1" && "1"[..0] == "";
    assert Numerals.Magnitude("32") == "32" && "32"[..1] == "3" && "3"[..0] == "";
  }

  lemma SixteenBySixteen()
    ensures HasPiece("16x16") && SizeFromWxHString("16x16") == Some(Size(16, 16))
  {
    SquareLiteralPieces();
    SquareSides();
  }

  lemma ThirtyTwoByThirtyTwo()
    ensures HasPiece("32x32")
    ensures DimensionsFromWxHString("32x32") == Some(Dimensions(32.0, 32.0))
    ensures DimensionsFromWxHString("32x32", 2.0) == Some(Dimensions(64.0, 64.0))
  {
    SquareLiteralPieces();
    SquareSides();
  }

  /** "16y16" has no `x`: it is one piece, which is not an integer numeral. */
  lemma NoSeparatorNoSize()
    ensures HasPiece("16y16") && SizeFromWxHString("16y16") == None
  {
    SinglePiece("16y16");
    assert !Numerals.IsDigit("16y16"[2]);
  }

  /** "32y32" is no numeral for `Double(_:)`: it has no point and a letter among its digits. */
  lemma NotADouble()
    ensures Numerals.ParseDouble("32y32") == None
  {
    assert !Numerals.IsDigit("32y32"[2]);
    assert Numerals.Magnitude("32y32") == "32y32";
    Numerals.ParseDoubleWithoutPoint("32y32");
  }

  /** "32y32" has no `x` and no point: one piece, which `Double(_:)` refuses too. */
  lemma NoSeparatorNoDimensions()
    ensures HasPiece("32y32") && DimensionsFromWxHString("32y32") == None
  {
    SinglePiece("32y32");
    NotADouble();
  }

  /** A fractional size is read by the Double parser only. */
  lemma FractionalSize()
    ensures HasPiece("1.5x1.5")
    ensures SizeFromWxHString("1.5x1.5") == None
    ensures DimensionsFromWxHString("1.5x1.5") == Some(Dimensions(1.5, 1.5))
  {
    assert "1.5x1.5" == "1.5" + "x" + "1.5";
    SquarePieces("1.5");
    Numerals.OneAndAHalf();
  }

  /** The pieces of "016x+16". */
  lemma PaddedPieces()
    ensures HasPiece("016x+16") && FirstPiece("016x+16") == "016" && LastPiece("016x+16") == "+16"
  {
    assert "016x+16" == "016" + "x" + "+16";
    SinglePiece("016");
    SinglePiece("+16");
    EndPieces("016", "+16");
  }

  /** "016" and "+16" are both the integer numeral 16. */
  lemma PaddedNumerals()
    ensures Numerals.IsInt64Numeral("016") && Numerals.IntNumeralValue("016") == 16
    ensures Numerals.IsInt64Numeral("+16") && Numerals.IntNumeralValue("+16") == 16
  {
    assert Numerals.Magnitude("016") == "016" && Numerals.Magnitude("+16") == "16";
    assert "016"[..2] == "01" && "01"[..1] == "0" && "0"[..0] == "";
    assert "16"[..1] == "1" && "1"[..0] == "";
  }

  /** Leading zeros and a plus sign are part of an integer numeral. */
  lemma PaddedAndSigned()
    ensures HasPiece("016x+16") && SizeFromWxHString("016x+16") == Some(Size(16, 16))
  {
    PaddedPieces();
    PaddedNumerals();
  }

  /** A literal decimal numeral and its value. */
  lemma DecimalValue(whole: string, fraction: string, value: real)
    requires Numerals.IsDigitRun(whole) && Numerals.IsDigitRun(fraction)
    requires Numerals.DigitsValue(whole) as real + Numerals.Fraction(fraction) == value
    ensures Numerals.IsDecimalNumeral(whole + "." + fraction)
    ensures Numerals.DecimalNumeralValue(whole + "." + fraction) == value
  {
    Numerals.DecimalNumeralOf(whole, fraction);
  }

  /** "1.5" and "2.25" are decimal numerals worth 1.5 and 2.25. */
  lemma DecimalEnds()
    ensures Numerals.IsRealNumeral("1.5") && Numerals.RealNumeralValue("1.5") == 1.5
    ensures Numerals.IsRealNumeral("2.25") && Numerals.RealNumeralValue("2.25") == 2.25
  {
    assert "1" + "." + "5" == "1.5" && "2" + "." + "25" == "2.25";
    DecimalValue("1", "5", 1.5);
    DecimalValue("2", "25", 2.25);
    Numerals.DecimalRealValue("1.5");
    Numerals.DecimalRealValue("2.25");
  }

  /** The pieces of "1.5x2.25". */
  lemma DecimalPieces()
    ensures HasPiece("1.5x2.25") && FirstPiece("1.5x2.25") == "1.5" && LastPiece("1.5x2.25") == "2.25"
  {
    assert "1.5x2.25" == "1.5" + "x" + "2.25";
    SinglePiece("1.5");
    SinglePiece("2.25");
    EndPieces("1.5", "2.25");
  }

  /** The pieces of "20x-29.5". */
  lemma MixedPieces()
    ensures HasPiece("20x-29.5") && FirstPiece("20x-29.5") == "20" && LastPiece("20x-29.5") == "-29.5"
  {
    assert "20x-29.5" == "20" + "x" + "-29.5";
    SinglePiece("20");
    SinglePiece("-29.5");
    EndPieces("20", "-29.5");
  }

  /** "20" is an integer numeral worth 20. */
  lemma IntegerEnd()
    ensures Numerals.IsRealNumeral("20") && Numerals.RealNumeralValue("20") == 20.0
  {
    assert Numerals.Magnitude("20") == "20" && "20"[..1] == "2" && "2"[..0] == "";
  }

  /** "-29.5" is a signed decimal worth -29.5. */
  lemma SignedDecimalEnd()
    ensures Numerals.IsRealNumeral("-29.5") && Numerals.RealNumeralValue("-29.5") == -29.5
  {
    assert "-29.5" == "-" + "29.5" && "29.5" == "29" + "." + "5";
    assert "29"[..1] == "2" && "2"[..0] == "";
    DecimalValue("29", "5", 29.5);
    Numerals.NegatedDecimalValue("29.5");
  }

  /** Each end is read on its own: an integer beside a signed decimal. */
  lemma MixedSides()
    ensures HasPiece("20x-29.5")
    ensures DimensionsFromWxHString("20x-29.5", 2.0) == Some(Dimensions(40.0, -59.0))
  {
    MixedPieces();
    IntegerEnd();
    SignedDecimalEnd();
  }

  /** Decimal sides are read exactly and scaled. */
  lemma DecimalSides()
    ensures HasPiece("1.5x2.25")
    ensures DimensionsFromWxHString("1.5x2.25", 2.0) == Some(Dimensions(3.0, 4.5))
  {
    DecimalPieces();
    DecimalEnds();
  }
}
