/** The JSON string converters of SystemMonitor/Settings.cs for Color, Point
    and Size: `Write` formats the value, `Read` finds the converter's regular
    expression in the string and hands its groups to `int.Parse`. */
module SettingsConverters {
  import opened Wrappers
  import opened Decimal
  import opened Patterns

  const MinInt: int := -0x8000_0000
  const MaxInt: int := 0x7FFF_FFFF

  type Int32 = x: int | MinInt <= x <= MaxInt
  type Byte = x: int | 0 <= x < 256

  /** The exceptions a reader throws: FormatException (`int.Parse` of the
      empty group of a failed match), OverflowException (a numeral outside
      `int`) and ArgumentException (`Color.FromArgb` of a component above 255). */
  datatype Failure = FormatError | OverflowError | ArgumentError

  /** The value of a captured numeral. */
  function NumeralValue(d: string): int
    requires Numeral(d, true)
  {
    if d[0] == '-' then 0 - ParseDigits(d[1..]) else ParseDigits(d)
  }

  /** `int.Parse` of a captured numeral. */
  function ParseInt(d: string): (r: Result<Int32, Failure>)
    requires Numeral(d, true)
    ensures r.Ok? <==> MinInt <= NumeralValue(d) <= MaxInt
    ensures r.Ok? ==> r.value == NumeralValue(d)
    ensures r.Err? ==> r.error == OverflowError
  {
    var v := NumeralValue(d);
    if MinInt <= v <= MaxInt then Ok(v) else Err(OverflowError)
  }

  /** `int.ToString()` reads back through `int.Parse`. */
  lemma ParseFormatted(i: Int32)
    ensures Numeral(FormatInt(i), true)
    ensures i >= 0 ==> Numeral(FormatInt(i), false)
    ensures ParseInt(FormatInt(i)) == Ok(i)
  {
    if i < 0 {
      NegativeParsed(i);
    } else {
      NaturalParsed(i);
    }
  }

  lemma NegativeParsed(i: Int32)
    requires i < 0
    ensures Numeral(FormatInt(i), true)
    ensures NumeralValue(FormatInt(i)) == i
  {
    var n := FormatNat(0 - i);
    assert FormatInt(i) == "-" + n;
    ParseFormat(0 - i);
    MinusNumeral(n);
  }

  /** A minus sign before digits is a signed numeral of the negated value. */
  lemma MinusNumeral(n: string)
    requires |n| > 0 && AllDigits(n)
    ensures Numeral("-" + n, true)
    ensures NumeralValue("-" + n) == 0 - ParseDigits(n)
  {
    assert ("-" + n)[1..] == n;
  }

  lemma NaturalParsed(i: Int32)
    requires i >= 0
    ensures Numeral(FormatInt(i), false)
    ensures NumeralValue(FormatInt(i)) == i
  {
    var d := FormatNat(i);
    assert FormatInt(i) == d;
    assert IsDigit(d[0]);
    ParseFormat(i);
  }

  lemma NumeralNoBrace(d: string, signed: bool)
    requires Numeral(d, signed)
    ensures forall i :: 0 <= i < |d| ==> d[i] != '{'
  {
    forall i | 0 <= i < |d|
      ensures d[i] != '{'
    {
      if d[0] == '-' && i > 0 {
        assert d[i] == d[1..][i - 1];
      }
    }
  }

  // ----- Color -----

  datatype Color = Color(A: Byte, R: Byte, G: Byte, B: Byte)

  /** `$"{{A={value.A}, R={value.R}, G={value.G}, B={value.B}}}"`. */
  function ColorWrite(c: Color): (s: string)
    ensures s == "{A=" + FormatInt(c.A) + ", R=" + FormatInt(c.R) + ", G=" + FormatInt(c.G) + ", B=" + FormatInt(c.B) + "}"
  {
    ColorText(FormatInt(c.A), FormatInt(c.R), FormatInt(c.G), FormatInt(c.B))
  }

  /** The reader: the four groups are parsed in order A, R, G, B, and only
      then does `Color.FromArgb` check that each lies in 0..255. */
  function ColorRead(s: string): (r: Result<Color, Failure>)
    ensures r == Err(FormatError) <==> Search(ColorPattern, s).None?
  {
    match Search(ColorPattern, s)
    case None => Err(FormatError)
    case Some(g) =>
      var a :- ParseInt(g[0]);
      var r :- ParseInt(g[1]);
      var gr :- ParseInt(g[2]);
      var b :- ParseInt(g[3]);
      if 0 <= a < 256 && 0 <= r < 256 && 0 <= gr < 256 && 0 <= b < 256 then Ok(Color(a, r, gr, b))
      else Err(ArgumentError)
  }

  /** Reading the text of any four numbers, wherever it sits in a string
      without an earlier `{`: OverflowException if one does not fit an int,
      otherwise ArgumentException if one exceeds 255, otherwise that color. */
  lemma ColorReadText(pre: string, a: nat, r: nat, g: nat, b: nat, post: string)
    requires forall i :: 0 <= i < |pre| ==> pre[i] != '{'
    ensures ColorRead(pre + ColorText(FormatNat(a), FormatNat(r), FormatNat(g), FormatNat(b)) + post)
         == if a > MaxInt || r > MaxInt || g > MaxInt || b > MaxInt then Err(OverflowError)
            else if a > 255 || r > 255 || g > 255 || b > 255 then Err(ArgumentError)
            else Ok(Color(a, r, g, b))
  {
    var fa, fr, fg, fb := FormatNat(a), FormatNat(r), FormatNat(g), FormatNat(b);
    ColorTextFound(pre, fa, fr, fg, fb, post);
    ParseFormat(a);
    ParseFormat(r);
    ParseFormat(g);
    ParseFormat(b);
    assert ParseInt(fa) == if a > MaxInt then Err(OverflowError) else Ok(a);
    assert ParseInt(fr) == if r > MaxInt then Err(OverflowError) else Ok(r);
    assert ParseInt(fg) == if g > MaxInt then Err(OverflowError) else Ok(g);
    assert ParseInt(fb) == if b > MaxInt then Err(OverflowError) else Ok(b);
  }

  lemma ColorTextFound(pre: string, fa: string, fr: string, fg: string, fb: string, post: string)
    requires forall i :: 0 <= i < |pre| ==> pre[i] != '{'
    requires Numeral(fa, false) && Numeral(fr, false) && Numeral(fg, false) && Numeral(fb, false)
    ensures Search(ColorPattern, pre + ColorText(fa, fr, fg, fb) + post) == Some([fa, fr, fg, fb])
  {
    MatchColorText(fa, fr, fg, fb, post);
    assert pre + ColorText(fa, fr, fg, fb) + post == pre + (ColorText(fa, fr, fg, fb) + post);
    SearchFindsAfter(ColorPattern, pre, ColorText(fa, fr, fg, fb) + post);
  }

  /** Read(Write(c)) == c, also with text around the written value. */
  lemma ColorRoundTrip(pre: string, c: Color, post: string)
    requires forall i :: 0 <= i < |pre| ==> pre[i] != '{'
    ensures ColorRead(pre + ColorWrite(c) + post) == Ok(c)
  {
    ColorReadText(pre, c.A, c.R, c.G, c.B, post);
  }

  /** A color text with `,B=` in place of `, B=`. */
  function TightColorText(a: string, r: string, g: string, b: string): string {
    "{A=" + a + ", R=" + r + ", G=" + g + ",B=" + b + "}"
  }

  /** The pattern needs a space before `B=`: a color text written with
      `,B=` is not found, whatever the numbers. */
  lemma ColorNeedsSpaceBeforeB(a: string, r: string, g: string, b: string)
    requires Numeral(a, false) && Numeral(r, false) && Numeral(g, false) && Numeral(b, false)
    ensures ColorRead(TightColorText(a, r, g, b)) == Err(FormatError)
  {
    var s := TightColorText(a, r, g, b);
    TightColorNoMatch(a, r, g, b);
    TightColorTailNoBrace(a, r, g, b);
    NoBraceNoMatch(ColorPattern, s[1..]);
  }

  lemma TightColorTailNoBrace(a: string, r: string, g: string, b: string)
    requires Numeral(a, false) && Numeral(r, false) && Numeral(g, false) && Numeral(b, false)
    ensures var rest := TightColorText(a, r, g, b)[1..];
      forall i :: 0 <= i < |rest| ==> rest[i] != '{'
  {
    var rest := TightColorText(a, r, g, b)[1..];
    NumeralNoBrace(a, false);
    NumeralNoBrace(r, false);
    NumeralNoBrace(g, false);
    NumeralNoBrace(b, false);
    assert rest == "A=" + a + ", R=" + r + ", G=" + g + ",B=" + b + "}";
  }

  lemma TightSplits(a: string, r: string, g: string, b: string)
    ensures TightColorText(a, r, g, b)[0] == '{'
    ensures TightColorText(a, r, g, b)[1..]
         == [] + "A" + "=" + a + "," + (" " + "R" + "=" + r + "," + (" " + "G" + "=" + g + "," + ("B=" + b + "}")))
  {
  }

  lemma TightColorNoMatch(a: string, r: string, g: string, b: string)
    requires Numeral(a, false) && Numeral(r, false) && Numeral(g, false)
    ensures MatchAt(ColorPattern, TightColorText(a, r, g, b)).None?
  {
    var t3 := "B=" + b + "}";
    var t2 := " " + "G" + "=" + g + "," + t3;
    var t1 := " " + "R" + "=" + r + "," + t2;
    TightSplits(a, r, g, b);
    FieldCommaOf([], "A", a, t1, false);
    FieldCommaOf(" ", "R", r, t2, false);
    FieldCommaOf(" ", "G", g, t3, false);
    SpacedFieldNeedsSpace(t3, "B");
    MatchColorStopsAtB(TightColorText(a, r, g, b)[1..], Step(a, t1), Step(r, t2), Step(g, t3));
  }

  /** `\s* B=` needs white space before the name. */
  lemma SpacedFieldNeedsSpace(t: string, name: string)
    requires t != [] && !IsSpace(t[0])
    ensures SpacedField(t, name).None?
  {
  }

  lemma MatchColorStopsAtB(s: string, a: Step, r: Step, g: Step)
    requires FieldComma(s, "A", false) == Some(a)
    requires FieldComma(a.Rest, "R", false) == Some(r)
    requires FieldComma(r.Rest, "G", false) == Some(g)
    requires SpacedField(g.Rest, "B").None?
    ensures MatchColor(s).None?
  {
  }

  // ----- Point and Size -----

  datatype Point = Point(X: Int32, Y: Int32)
  datatype Size = Size(Width: Int32, Height: Int32)

  /** `Point.ToString()`: `{X=x,Y=y}`. */
  function PointWrite(p: Point): (s: string)
    ensures s == "{X=" + FormatInt(p.X) + ",Y=" + FormatInt(p.Y) + "}"
  {
    PairText("X", "Y", "", FormatInt(p.X), FormatInt(p.Y))
  }

  /** `Size.ToString()`: `{Width=w, Height=h}`. */
  function SizeWrite(z: Size): (s: string)
    ensures s == "{Width=" + FormatInt(z.Width) + ", Height=" + FormatInt(z.Height) + "}"
  {
    PairText("Width", "Height", " ", FormatInt(z.Width), FormatInt(z.Height))
  }

  /** The reader of a two-number pattern, groups parsed in order. */
  function PairRead(p: Pattern, s: string): (r: Result<(Int32, Int32), Failure>)
    requires p.PairPattern?
    ensures r == Err(FormatError) <==> Search(p, s).None?
    ensures r.Ok? ==> (Search(p, s).Some?
      && r.value == (NumeralValue(Search(p, s).value[0]), NumeralValue(Search(p, s).value[1])))
    ensures r.Err? && Search(p, s).Some? ==> r.error == OverflowError
  {
    match Search(p, s)
    case None => Err(FormatError)
    case Some(g) =>
      var x :- ParseInt(g[0]);
      var y :- ParseInt(g[1]);
      Ok((x, y))
  }

  const PointPattern: Pattern := PairPattern("X", "Y", false)
  const SizePattern: Pattern := PairPattern("Width", "Height", false)

  function PointRead(s: string): (r: Result<Point, Failure>)
    ensures r == Err(FormatError) <==> Search(PointPattern, s).None?
  {
    var (x, y) :- PairRead(PointPattern, s);
    Ok(Point(x, y))
  }

  function SizeRead(s: string): (r: Result<Size, Failure>)
    ensures r == Err(FormatError) <==> Search(SizePattern, s).None?
  {
    var (w, h) :- PairRead(SizePattern, s);
    Ok(Size(w, h))
  }

  /** A written pair of numbers is read back by a pattern that admits them,
      wherever it sits in a string without an earlier `{`. */
  lemma PairRoundTrip(p: Pattern, sep: string, x: Int32, y: Int32, pre: string, post: string)
    requires p.PairPattern? && Named(p) && (sep == [] || sep == " ")
    requires p.Signed || (x >= 0 && y >= 0)
    requires forall i :: 0 <= i < |pre| ==> pre[i] != '{'
    ensures PairRead(p, pre + PairText(p.First, p.Second, sep, FormatInt(x), FormatInt(y)) + post) == Ok((x, y))
  {
    var fx, fy := FormatInt(x), FormatInt(y);
    ParseFormatted(x);
    ParseFormatted(y);
    MatchPairText(p.First, p.Second, sep, fx, fy, p.Signed, post);
    assert pre + PairText(p.First, p.Second, sep, fx, fy) + post == pre + (PairText(p.First, p.Second, sep, fx, fy) + post);
    SearchFindsAfter(p, pre, PairText(p.First, p.Second, sep, fx, fy) + post);
  }

  /** An unsigned pair pattern finds nothing in a written pair with a
      negative number. */
  lemma PairRejectsNegative(p: Pattern, sep: string, x: Int32, y: Int32)
    requires p.PairPattern? && Named(p) && !p.Signed && (sep == [] || sep == " ")
    requires forall i :: 0 <= i < |p.First| ==> p.First[i] != '{'
    requires forall i :: 0 <= i < |p.Second| ==> p.Second[i] != '{'
    requires x < 0 || y < 0
    ensures PairRead(p, PairText(p.First, p.Second, sep, FormatInt(x), FormatInt(y))) == Err(FormatError)
  {
    var fx, fy := FormatInt(x), FormatInt(y);
    var s := PairText(p.First, p.Second, sep, fx, fy);
    ParseFormatted(x);
    ParseFormatted(y);
    MatchPairTextRejectsSign(p.First, p.Second, sep, fx, fy);
    PairTextTailNoBrace(p.First, p.Second, sep, fx, fy);
    NoBraceNoMatch(p, s[1..]);
  }

  /** After its opening brace a written pair holds no other. */
  lemma PairTextTailNoBrace(first: string, second: string, sep: string, x: string, y: string)
    requires forall i :: 0 <= i < |first| ==> first[i] != '{'
    requires forall i :: 0 <= i < |second| ==> second[i] != '{'
    requires Numeral(x, true) && Numeral(y, true)
    requires sep == [] || sep == " "
    ensures var rest := PairText(first, second, sep, x, y)[1..];
      forall i :: 0 <= i < |rest| ==> rest[i] != '{'
  {
    NumeralNoBrace(x, true);
    NumeralNoBrace(y, true);
    var rest := PairText(first, second, sep, x, y)[1..];
    assert rest == first + "=" + x + "," + sep + second + "=" + y + "}";
    forall i | 0 <= i < |rest|
      ensures rest[i] != '{'
    {
      NoBraceAt(first, x, sep, second, y, i);
    }
  }

  lemma NoBraceAt(first: string, x: string, sep: string, second: string, y: string, i: int)
    requires forall j :: 0 <= j < |first| ==> first[j] != '{'
    requires forall j :: 0 <= j < |second| ==> second[j] != '{'
    requires forall j :: 0 <= j < |x| ==> x[j] != '{'
    requires forall j :: 0 <= j < |y| ==> y[j] != '{'
    requires sep == [] || sep == " "
    requires 0 <= i < |first + "=" + x + "," + sep + second + "=" + y + "}"|
    ensures (first + "=" + x + "," + sep + second + "=" + y + "}")[i] != '{'
  {
  }

  /** As written, a saved window location reads back exactly when neither
      coordinate is negative; a window left of or above the primary screen
      leaves text the reader cannot parse. */
  lemma PointRoundTripAsWritten(p: Point)
    ensures PointRead(PointWrite(p)) == Ok(p) <==> p.X >= 0 && p.Y >= 0
    ensures p.X < 0 || p.Y < 0 ==> PointRead(PointWrite(p)) == Err(FormatError)
  {
    if p.X >= 0 && p.Y >= 0 {
      PairRoundTrip(PointPattern, "", p.X, p.Y, [], []);
      assert [] + PointWrite(p) + [] == PointWrite(p);
    } else {
      PairRejectsNegative(PointPattern, "", p.X, p.Y);
    }
  }

  /** The same holds for sizes, whose fields are non-negative for windows. */
  lemma SizeRoundTrip(z: Size)
    ensures SizeRead(SizeWrite(z)) == Ok(z) <==> z.Width >= 0 && z.Height >= 0
  {
    if z.Width >= 0 && z.Height >= 0 {
      PairRoundTrip(SizePattern, " ", z.Width, z.Height, [], []);
      assert [] + SizeWrite(z) + [] == SizeWrite(z);
    } else {
      PairRejectsNegative(SizePattern, " ", z.Width, z.Height);
    }
  }

  /** The evidently intended point reader, `{\s*X=(-?\d+),\s*Y=(-?\d+)\s*}`. */
  const SignedPointPattern: Pattern := PairPattern("X", "Y", true)

  function PointReadSigned(s: string): (r: Result<Point, Failure>)
    ensures r == Err(FormatError) <==> Search(SignedPointPattern, s).None?
  {
    var (x, y) :- PairRead(SignedPointPattern, s);
    Ok(Point(x, y))
  }

  /** It reads every written point back, negative coordinates included. */
  lemma PointRoundTripSigned(pre: string, p: Point, post: string)
    requires forall i :: 0 <= i < |pre| ==> pre[i] != '{'
    ensures PointReadSigned(pre + PointWrite(p) + post) == Ok(p)
  {
    PairRoundTrip(SignedPointPattern, "", p.X, p.Y, pre, post);
  }
}
