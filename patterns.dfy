/** The three regular expressions of SystemMonitor/Settings.cs, written out as
    matchers. Each pattern starts with a literal `{` and has exactly one way
    to match at a given position: `\s*` and `\d+` are always followed by a
    character they cannot consume, and `\s* B=` needs a whitespace run ending
    in a literal space. `Regex.Match` returns the leftmost position at which
    the pattern matches. */
module Patterns {
  import opened Wrappers
  import opened Decimal

  /** `\s`, restricted to the ASCII white-space characters. */
  predicate IsSpace(c: char) {
    c == ' ' || c == '\t' || c == '\n' || c == '\r' || c == '\U{000B}' || c == '\U{000C}'
  }

  /** The length of the longest run of white space at the start of s. */
  function Spaces(s: string): (n: nat)
    ensures n <= |s|
  {
    if s == [] || !IsSpace(s[0]) then 0 else 1 + Spaces(s[1..])
  }

  /** The length of the longest run of digits at the start of s. */
  function DigitRun(s: string): (n: nat)
    ensures n <= |s|
    ensures AllDigits(s[..n])
    ensures n < |s| ==> !IsDigit(s[n])
  {
    if s == [] || !IsDigit(s[0]) then 0
    else
      var n := 1 + DigitRun(s[1..]);
      assert s[..n] == [s[0]] + s[1..][..n - 1];
      n
  }

  /** A capture group's text and the input left after it. */
  datatype Step = Step(Value: string, Rest: string)

  /** A literal: the input after it, when the input starts with it. */
  function Token(s: string, lit: string): (r: Option<string>)
    ensures r.Some? <==> lit <= s
  {
    if lit <= s then Some(s[|lit|..]) else None
  }

  /** `(\d+)`, or `(-?\d+)` when signed. */
  function Number(s: string, signed: bool): (r: Option<Step>)
    ensures r.Some? ==> Numeral(r.value.Value, signed)
    ensures r.Some? && r.value.Rest != [] ==> !IsDigit(r.value.Rest[0])
  {
    if signed && s != [] && s[0] == '-' then
      var n := DigitRun(s[1..]);
      if n == 0 then None
      else
        assert s[..n + 1][1..] == s[1..][..n];
        assert s[n + 1..] == s[1..][n..];
        Some(Step(s[..n + 1], s[n + 1..]))
    else
      var n := DigitRun(s);
      if n == 0 then None else Some(Step(s[..n], s[n..]))
  }

  /** A capture of `\d+`, or of `-?\d+` when signed. */
  predicate Numeral(d: string, signed: bool) {
    (|d| > 0 && AllDigits(d)) || (signed && |d| > 1 && d[0] == '-' && AllDigits(d[1..]))
  }

  /** `\s*NAME=(\d+)`. */
  function Field(s: string, name: string, signed: bool): (r: Option<Step>)
    ensures r.Some? ==> Numeral(r.value.Value, signed)
  {
    var t :- Token(s[Spaces(s)..], name + "=");
    Number(t, signed)
  }

  /** `\s* NAME=(\d+)`: the white space before NAME must end with a space. */
  function SpacedField(s: string, name: string): (r: Option<Step>)
    ensures r.Some? ==> Numeral(r.value.Value, false)
  {
    var w := Spaces(s);
    if w == 0 || s[w - 1] != ' ' then None
    else
      var t :- Token(s[w..], name + "=");
      Number(t, false)
  }

  /** `\s*}`. */
  function Close(s: string): Option<string> {
    Token(s[Spaces(s)..], "}")
  }

  /** The color pattern, and the two-field pattern shared by Point and Size
      (with `-?` before each `\d+` when Signed, as a corrected Point reader
      would have it). */
  datatype Pattern = ColorPattern | PairPattern(First: string, Second: string, Signed: bool)

  function Arity(p: Pattern): nat {
    if p.ColorPattern? then 4 else 2
  }

  function IsSigned(p: Pattern): bool {
    p.PairPattern? && p.Signed
  }

  /** The groups of a match starting at the first character of s, and the
      text after the match. */
  datatype Match = Match(Groups: seq<string>, Rest: string)

  predicate WellGrouped(p: Pattern, groups: seq<string>) {
    && |groups| == Arity(p)
    && Numeral(groups[0], IsSigned(p)) && Numeral(groups[1], IsSigned(p))
    && (p.ColorPattern? ==> Numeral(groups[2], false) && Numeral(groups[3], false))
  }

  /** `\s*NAME=(\d+),`: a field and the comma after it. */
  function FieldComma(s: string, name: string, signed: bool): (r: Option<Step>)
    ensures r.Some? ==> Numeral(r.value.Value, signed)
  {
    var f :- Field(s, name, signed);
    var t :- Token(f.Rest, ",");
    Some(Step(f.Value, t))
  }

  /** The color pattern after its opening brace. */
  function MatchColor(s: string): (r: Option<Match>)
    ensures r.Some? ==> |r.value.Groups| == 4
    ensures r.Some? ==> Numeral(r.value.Groups[0], false) && Numeral(r.value.Groups[1], false)
    ensures r.Some? ==> Numeral(r.value.Groups[2], false) && Numeral(r.value.Groups[3], false)
  {
    var a :- FieldComma(s, "A", false);
    var r :- FieldComma(a.Rest, "R", false);
    var g :- FieldComma(r.Rest, "G", false);
    var b :- SpacedField(g.Rest, "B");
    var t :- Close(b.Rest);
    Some(Match([a.Value, r.Value, g.Value, b.Value], t))
  }

  /** The two-field pattern after its opening brace. */
  function MatchPair(s: string, first: string, second: string, signed: bool): (r: Option<Match>)
    ensures r.Some? ==> |r.value.Groups| == 2
    ensures r.Some? ==> Numeral(r.value.Groups[0], signed) && Numeral(r.value.Groups[1], signed)
  {
    var x :- FieldComma(s, first, signed);
    var y :- Field(x.Rest, second, signed);
    var t :- Close(y.Rest);
    Some(Match([x.Value, y.Value], t))
  }

  /** The pattern anchored at the start of s. */
  function MatchAt(p: Pattern, s: string): (r: Option<Match>)
    ensures r.Some? ==> WellGrouped(p, r.value.Groups)
    ensures s == [] || s[0] != '{' ==> r.None?
  {
    if s == [] || s[0] != '{' then None
    else
      match p
      case ColorPattern => MatchColor(s[1..])
      case PairPattern(first, second, signed) => MatchPair(s[1..], first, second, signed)
  }

  /** `Regex.Match(s, pattern)`: the groups of the leftmost match, if any. */
  function Search(p: Pattern, s: string): (r: Option<seq<string>>)
    ensures r.Some? ==> WellGrouped(p, r.value)
  {
    match MatchAt(p, s)
    case Some(m) => Some(m.Groups)
    case None => if s == [] then None else Search(p, s[1..])
  }

  // ----- how the matchers read text -----

  lemma TokenOf(lit: string, t: string)
    ensures Token(lit + t, lit) == Some(t)
  {
    assert lit <= lit + t;
  }

  lemma {:induction false} DigitRunOf(d: string, t: string)
    requires AllDigits(d)
    requires t == [] || !IsDigit(t[0])
    ensures DigitRun(d + t) == |d|
  {
    if d != [] {
      assert (d + t)[1..] == d[1..] + t;
      DigitRunOf(d[1..], t);
    }
  }

  lemma {:induction false} SpacesOf(w: string, t: string)
    requires forall i :: 0 <= i < |w| ==> IsSpace(w[i])
    requires t == [] || !IsSpace(t[0])
    ensures Spaces(w + t) == |w|
  {
    if w != [] {
      assert (w + t)[1..] == w[1..] + t;
      SpacesOf(w[1..], t);
    }
  }

  lemma NumberOf(d: string, t: string, signed: bool)
    requires Numeral(d, signed)
    requires t == [] || !IsDigit(t[0])
    ensures Number(d + t, signed) == Some(Step(d, t))
  {
    if signed && d[0] == '-' {
      assert (d + t)[1..] == d[1..] + t;
      DigitRunOf(d[1..], t);
      assert (d + t)[..|d|] == d;
    } else {
      DigitRunOf(d, t);
      assert (d + t)[..|d|] == d;
    }
  }

  /** A field written with `w` white space before its name. */
  lemma FieldOf(w: string, name: string, d: string, t: string, signed: bool)
    requires forall i :: 0 <= i < |w| ==> IsSpace(w[i])
    requires name != [] && !IsSpace(name[0])
    requires Numeral(d, signed)
    requires t == [] || !IsDigit(t[0])
    ensures Field(w + name + "=" + d + t, name, signed) == Some(Step(d, t))
  {
    var s := w + name + "=" + d + t;
    assert s == w + (name + "=" + d + t);
    SpacesOf(w, name + "=" + d + t);
    assert s[|w|..] == (name + "=") + (d + t);
    TokenOf(name + "=", d + t);
    NumberOf(d, t, signed);
  }

  lemma SpacedFieldOf(name: string, d: string, t: string)
    requires name != [] && !IsSpace(name[0])
    requires Numeral(d, false)
    requires t == [] || !IsDigit(t[0])
    ensures SpacedField(" " + name + "=" + d + t, name) == Some(Step(d, t))
  {
    var s := " " + name + "=" + d + t;
    assert s == " " + (name + "=" + d + t);
    SpacesOf(" ", name + "=" + d + t);
    assert s[1..] == (name + "=") + (d + t);
    TokenOf(name + "=", d + t);
    NumberOf(d, t, false);
  }

  lemma FieldCommaOf(w: string, name: string, d: string, t: string, signed: bool)
    requires forall i :: 0 <= i < |w| ==> IsSpace(w[i])
    requires name != [] && !IsSpace(name[0])
    requires Numeral(d, signed)
    ensures FieldComma(w + name + "=" + d + "," + t, name, signed) == Some(Step(d, t))
  {
    assert w + name + "=" + d + "," + t == w + name + "=" + d + ("," + t);
    FieldOf(w, name, d, "," + t, signed);
    TokenOf(",", t);
  }

  lemma CloseOf(t: string)
    ensures Close("}" + t) == Some(t)
  {
    SpacesOf([], "}" + t);
    TokenOf("}", t);
  }

  // ----- the texts the writers produce -----

  /** What the color writer produces, for any four numerals. */
  function ColorText(a: string, r: string, g: string, b: string): string {
    "{A=" + a + ", R=" + r + ", G=" + g + ", B=" + b + "}"
  }

  /** What `Point.ToString()` (sep = "") and `Size.ToString()` (sep = " ")
      produce, for any two numerals. */
  function PairText(first: string, second: string, sep: string, x: string, y: string): string {
    "{" + first + "=" + x + "," + sep + second + "=" + y + "}"
  }

  /** The color pattern reads the four numerals of a color text back,
      whatever text follows it. */
  lemma MatchColorText(a: string, r: string, g: string, b: string, u: string)
    requires Numeral(a, false) && Numeral(r, false) && Numeral(g, false) && Numeral(b, false)
    ensures MatchAt(ColorPattern, ColorText(a, r, g, b) + u) == Some(Match([a, r, g, b], u))
  {
    var tb := " " + "B" + "=" + b + ("}" + u);
    var tg := " " + "G" + "=" + g + "," + tb;
    var tr := " " + "R" + "=" + r + "," + tg;
    var s := ColorText(a, r, g, b) + u;
    ColorTextSplits(a, r, g, b, u);
    FieldCommaOf([], "A", a, tr, false);
    FieldCommaOf(" ", "R", r, tg, false);
    FieldCommaOf(" ", "G", g, tb, false);
    SpacedFieldOf("B", b, "}" + u);
    CloseOf(u);
    assert MatchColor(s[1..]) == Some(Match([a, r, g, b], u));
  }

  lemma ColorTextSplits(a: string, r: string, g: string, b: string, u: string)
    ensures (ColorText(a, r, g, b) + u)[0] == '{'
    ensures (ColorText(a, r, g, b) + u)[1..]
         == [] + "A" + "=" + a + "," + (" " + "R" + "=" + r + "," + (" " + "G" + "=" + g + "," + (" " + "B" + "=" + b + ("}" + u))))
  {
  }

  lemma PairTextSplits(first: string, second: string, sep: string, x: string, y: string, u: string)
    ensures (PairText(first, second, sep, x, y) + u)[0] == '{'
    ensures (PairText(first, second, sep, x, y) + u)[1..] == [] + first + "=" + x + "," + (sep + second + "=" + y + ("}" + u))
  {
  }

  /** A pair pattern reads the two numerals of a pair text back when the
      pattern admits them, whatever text follows it. */
  lemma MatchPairText(first: string, second: string, sep: string, x: string, y: string, signed: bool, u: string)
    requires first != [] && !IsSpace(first[0]) && second != [] && !IsSpace(second[0])
    requires sep == [] || sep == " "
    requires Numeral(x, signed) && Numeral(y, signed)
    ensures MatchAt(PairPattern(first, second, signed), PairText(first, second, sep, x, y) + u)
         == Some(Match([x, y], u))
  {
    var ty := sep + second + "=" + y + ("}" + u);
    var s := PairText(first, second, sep, x, y) + u;
    PairTextSplits(first, second, sep, x, y, u);
    FieldCommaOf([], first, x, ty, signed);
    FieldOf(sep, second, y, "}" + u, signed);
    CloseOf(u);
    assert MatchPair(s[1..], first, second, signed) == Some(Match([x, y], u));
  }

  /** `\d+` cannot start at a minus sign. */
  lemma FieldRejectsSign(w: string, name: string, d: string, t: string)
    requires forall i :: 0 <= i < |w| ==> IsSpace(w[i])
    requires name != [] && !IsSpace(name[0])
    requires d != [] && d[0] == '-'
    ensures Field(w + name + "=" + d + t, name, false).None?
  {
    var s := w + name + "=" + d + t;
    assert s == w + (name + "=" + (d + t));
    SpacesOf(w, name + "=" + (d + t));
    assert s[|w|..] == (name + "=") + (d + t);
    TokenOf(name + "=", d + t);
    assert (d + t)[0] == '-';
  }

  /** An unsigned pair pattern rejects a pair text with a negative numeral. */
  lemma MatchPairTextRejectsSign(first: string, second: string, sep: string, x: string, y: string)
    requires first != [] && !IsSpace(first[0]) && second != [] && !IsSpace(second[0])
    requires sep == [] || sep == " "
    requires Numeral(x, true) && Numeral(y, true)
    requires x[0] == '-' || y[0] == '-'
    ensures MatchAt(PairPattern(first, second, false), PairText(first, second, sep, x, y)).None?
  {
    var s := PairText(first, second, sep, x, y);
    var ty := sep + second + "=" + y + "}";
    PairTextSplits(first, second, sep, x, y, []);
    assert s + [] == s;
    assert "}" + [] == "}";
    if x[0] == '-' {
      assert s[1..] == [] + first + "=" + x + ("," + ty);
      FieldRejectsSign([], first, x, "," + ty);
      assert FieldComma(s[1..], first, false).None?;
    } else {
      FieldCommaOf([], first, x, ty, false);
      FieldRejectsSign(sep, second, y, "}");
    }
    assert MatchPair(s[1..], first, second, false).None?;
  }

  // ----- leftmost, unanchored search -----

  /** Without a `{` nothing matches. */
  lemma {:induction false} NoBraceNoMatch(p: Pattern, s: string)
    requires forall i :: 0 <= i < |s| ==> s[i] != '{'
    ensures Search(p, s).None?
  {
    if s != [] {
      NoBraceNoMatch(p, s[1..]);
    }
  }

  /** Text before the match that holds no `{` is skipped. */
  lemma {:induction false} SearchSkipsPrefix(p: Pattern, pre: string, s: string)
    requires forall i :: 0 <= i < |pre| ==> pre[i] != '{'
    ensures Search(p, pre + s) == Search(p, s)
  {
    if pre != [] {
      var t := pre + s;
      var rest := pre[1..];
      assert t[0] == pre[0];
      assert t[1..] == rest + s;
      assert forall i :: 0 <= i < |rest| ==> rest[i] != '{' by {
        forall i | 0 <= i < |rest|
          ensures rest[i] != '{'
        {
          assert rest[i] == pre[i + 1];
        }
      }
      SearchSkipsPrefix(p, rest, s);
      SearchSkipsOne(p, t);
    } else {
      assert pre + s == s;
    }
  }

  lemma SearchSkipsOne(p: Pattern, t: string)
    requires t != [] && t[0] != '{'
    ensures Search(p, t) == Search(p, t[1..])
  {
  }

  /** A match at the start of s is found first. */
  lemma SearchFindsAnchored(p: Pattern, s: string)
    requires MatchAt(p, s).Some?
    ensures Search(p, s) == Some(MatchAt(p, s).value.Groups)
  {
  }

  /** A pattern whose field names start with something other than white space. */
  predicate Named(p: Pattern) {
    p.PairPattern? ==> p.First != [] && !IsSpace(p.First[0]) && p.Second != [] && !IsSpace(p.Second[0])
  }

  /** `Regex.Match` is unanchored: a match at the start of s is found after
      any text without a `{`. */
  lemma SearchFindsAfter(p: Pattern, pre: string, s: string)
    requires forall i :: 0 <= i < |pre| ==> pre[i] != '{'
    requires MatchAt(p, s).Some?
    ensures Search(p, pre + s) == Some(MatchAt(p, s).value.Groups)
  {
    SearchSkipsPrefix(p, pre, s);
    SearchFindsAnchored(p, s);
  }
}
