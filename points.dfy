/** The Point value type: two exact coordinates, structural equality, and the
    `(x,y)` literal of a PostgreSQL point column. */
module Points {
  import opened Wrappers
  import opened Errors
  import opened Decimals

  datatype Point = Point(x: Coord, y: Coord)

  /** `==` on points: both coordinates numerically equal. */
  function Equals(p: Point, q: Point): (r: bool)
    ensures r <==> p.x.Value() == q.x.Value() && p.y.Value() == q.y.Value()
  {
    CoordEqualIffValueEqual(p.x, q.x);
    CoordEqualIffValueEqual(p.y, q.y);
    p == q
  }

  /** `!=` on points: some coordinate differs numerically. */
  function NotEquals(p: Point, q: Point): (r: bool)
    ensures r <==> p.x.Value() != q.x.Value() || p.y.Value() != q.y.Value()
    ensures r == !Equals(p, q)
  {
    CoordEqualIffValueEqual(p.x, q.x);
    CoordEqualIffValueEqual(p.y, q.y);
    p != q
  }

  /** The point literal `(tx,ty)` around two coordinate texts, no whitespace. */
  function PointLiteral(tx: string, ty: string): string {
    "(" + tx + "," + ty + ")"
  }

  /** The literal of a point: its two rendered coordinates. */
  function ToString(p: Point): string {
    PointLiteral(FormatNumber(p.x), FormatNumber(p.y))
  }

  /** Reads a coordinate at the start of `s` and then the separator `sep`,
      and returns the coordinate and the text after the separator. */
  function ReadCoord(s: string, sep: char): (r: Result<(Coord, string), Error>)
    ensures r.Ok? ==> |r.value.1| < |s|
    ensures r.Err? ==> r.error.ParseError?
  {
    match ParseNumberPrefix(s)
    case Err(e) => Err(ParseError(e))
    case Ok((c, rest)) =>
      if |rest| == 0 || rest[0] != sep then
        Err(ParseError("expected '" + [sep] + "'"))
      else
        Ok((c, rest[1..]))
  }

  /** Reads one point literal at the start of `s` and returns the text after it. */
  function ParsePrefix(s: string): (r: Result<(Point, string), Error>)
    ensures r.Ok? ==> |r.value.1| < |s|
    ensures r.Err? ==> r.error.ParseError?
  {
    if |s| == 0 || s[0] != '(' then
      Err(ParseError("expected '('"))
    else
      match ReadCoord(s[1..], ',')
      case Err(e) => Err(e)
      case Ok((x, r1)) =>
        match ReadCoord(r1, ')')
        case Err(e) => Err(e)
        case Ok((y, rest)) => Ok((Point(x, y), rest))
  }

  /** `Point.from_string`: the whole text must be one point literal. */
  function FromString(s: string): (r: Result<Point, Error>)
    ensures r.Err? ==> r.error.ParseError?
  {
    match ParsePrefix(s)
    case Ok((p, rest)) => if rest == [] then Ok(p) else Err(ParseError("trailing text"))
    case Err(e) => Err(e)
  }

  /** A well-formed number token followed by the separator. */
  lemma ReadCoordOf(tok: string, sep: char, rest: string)
    requires ParseNumber(tok).Ok? && !IsDigit(sep) && sep != '.'
    ensures ReadCoord(tok + ([sep] + rest), sep) == Ok((ParseNumber(tok).value, rest))
  {
    var t := [sep] + rest;
    ParseNumberExtend(tok, t);
    assert t[0] == sep && t[1..] == rest;
  }

  /** What `ReadCoord` accepted is a number token and the separator. */
  lemma ReadCoordSound(s: string, sep: char)
    requires ReadCoord(s, sep).Ok?
    ensures ParseNumberPrefix(s).Ok?
    ensures s == TokenOf(s) + ([sep] + ReadCoord(s, sep).value.1)
    ensures ParseNumber(TokenOf(s)) == Ok(ReadCoord(s, sep).value.0)
  {
    ReadCoordParts(s, sep);
    ParseNumberToken(s);
    SeparatorShape(TokenOf(s), ParseNumberPrefix(s).value.1, sep, ReadCoord(s, sep).value.1);
  }

  lemma ReadCoordParts(s: string, sep: char)
    requires ReadCoord(s, sep).Ok?
    ensures ParseNumberPrefix(s).Ok?
    ensures ParseNumberPrefix(s).value.0 == ReadCoord(s, sep).value.0
    ensures var r := ParseNumberPrefix(s).value.1;
      |r| > 0 && r[0] == sep && r[1..] == ReadCoord(s, sep).value.1
  {
  }

  lemma SeparatorShape(t: string, r: string, sep: char, rest: string)
    requires |r| > 0 && r[0] == sep && r[1..] == rest
    ensures t + r == t + ([sep] + rest)
  {
    assert r == [sep] + rest;
  }


  /** Any literal `(tx,ty)` built from two well-formed numbers is read back
      as the point of their values, whatever text follows it. */
  lemma ParseLiteral(tx: string, ty: string, rest: string)
    requires ParseNumber(tx).Ok? && ParseNumber(ty).Ok?
    ensures ParsePrefix(PointLiteral(tx, ty) + rest)
         == Ok((Point(ParseNumber(tx).value, ParseNumber(ty).value), rest))
  {
    var r1 := ty + (")" + rest);
    var s := "(" + (tx + ("," + r1));
    PointShape(tx, ty, rest);
    assert s[0] == '(' && s[1..] == tx + ("," + r1);
    ReadCoordOf(tx, ',', r1);
    ReadCoordOf(ty, ')', rest);
  }

  lemma PointShape(tx: string, ty: string, rest: string)
    ensures PointLiteral(tx, ty) + rest == "(" + (tx + ("," + (ty + (")" + rest))))
  {
  }

  /** A point literal followed by more text is read back with that text left over. */
  lemma ParseToString(p: Point, rest: string)
    ensures ParsePrefix(ToString(p) + rest) == Ok((p, rest))
  {
    FormatParses(p.x);
    FormatParses(p.y);
    ParseLiteral(FormatNumber(p.x), FormatNumber(p.y), rest);
  }

  /** `from_string` inverts the point literal. */
  lemma FromStringToString(p: Point)
    ensures FromString(ToString(p)) == Ok(p)
  {
    ParseToString(p, "");
    assert ToString(p) + "" == ToString(p);
  }

  /** Whatever `ParsePrefix` reads is a literal `(tx,ty)` of two
      well-formed numbers in front of the text it leaves, and the point
      holds their values. */
  lemma ParsePrefixSound(s: string)
    requires ParsePrefix(s).Ok?
    ensures exists tx, ty ::
              && s == PointLiteral(tx, ty) + ParsePrefix(s).value.1
              && ParseNumber(tx) == Ok(ParsePrefix(s).value.0.x)
              && ParseNumber(ty) == Ok(ParsePrefix(s).value.0.y)
  {
    var b := s[1..];
    var r1 := ReadCoord(b, ',').value.1;
    ReadCoordSound(b, ',');
    ReadCoordSound(r1, ')');
    Reassemble(s, TokenOf(b), r1, TokenOf(r1), ParsePrefix(s).value.1);
  }

  lemma Reassemble(s: string, tx: string, r1: string, ty: string, rest: string)
    requires |s| > 0 && s[0] == '(' && s[1..] == tx + ([','] + r1)
    requires r1 == ty + ([')'] + rest)
    ensures s == PointLiteral(tx, ty) + rest
  {
    assert s == [s[0]] + s[1..];
  }

  /** Whatever `from_string` accepts is a literal `(tx,ty)` of two
      well-formed numbers, and the point holds their values. */
  lemma FromStringSound(s: string)
    requires FromString(s).Ok?
    ensures exists tx, ty ::
              && s == PointLiteral(tx, ty)
              && ParseNumber(tx) == Ok(FromString(s).value.x)
              && ParseNumber(ty) == Ok(FromString(s).value.y)
  {
    ParsePrefixSound(s);
    var tx, ty :| s == PointLiteral(tx, ty) + [] && ParseNumber(tx) == Ok(FromString(s).value.x)
                  && ParseNumber(ty) == Ok(FromString(s).value.y);
    assert PointLiteral(tx, ty) + [] == PointLiteral(tx, ty);
  }

  /** Every literal `(tx,ty)` of two well-formed numbers is accepted. */
  lemma FromStringComplete(tx: string, ty: string)
    requires ParseNumber(tx).Ok? && ParseNumber(ty).Ok?
    ensures FromString(PointLiteral(tx, ty)) == Ok(Point(ParseNumber(tx).value, ParseNumber(ty).value))
  {
    ParseLiteral(tx, ty, "");
    assert PointLiteral(tx, ty) + "" == PointLiteral(tx, ty);
  }

  /** The coordinates of the test table, as the exact numbers they denote. */
  lemma ExampleValues()
    ensures Decimal(1, 0).Value() == 1.0 && Decimal(-1, 0).Value() == -1.0
    ensures Decimal(15, 1).Value() == 1.5 && Decimal(-15, 1).Value() == -1.5
    ensures Decimal(5, 1).Value() == 0.5 && Decimal(-5, 1).Value() == -0.5
  {
  }

  /** A token spelling the pieces of a literal parses to the coordinate of
      that literal's value. */
  lemma TokenValue(tok: string, neg: bool, ip: string, fp: Option<string>, c: Coord)
    requires LiteralParts(ip, fp) && tok == LiteralText(neg, ip, fp)
    requires PartsValue(neg, ip, fp) == c.Value()
    ensures ParseNumber(tok) == Ok(c)
  {
    NumberSyntaxComplete(neg, ip, fp);
    CoordEqualIffValueEqual(ParseNumber(tok).value, c);
  }

  // The coordinate tokens of the test table, one each.
  lemma IntegerToken() ensures ParseNumber("1") == Ok(Decimal(1, 0)) {
    assert DigitsValue("1") == 1;
    TokenValue("1", false, "1", None, Decimal(1, 0));
  }

  lemma NegativeIntegerToken() ensures ParseNumber("-1") == Ok(Decimal(-1, 0)) {
    assert DigitsValue("1") == 1;
    TokenValue("-1", true, "1", None, Decimal(-1, 0));
  }

  lemma DecimalToken() ensures ParseNumber("1.5") == Ok(Decimal(15, 1)) {
    assert DigitsValue("1") == 1 && DigitsValue("5") == 5;
    TokenValue("1.5", false, "1", Some("5"), Decimal(15, 1));
  }

  lemma NegativeDecimalToken() ensures ParseNumber("-1.5") == Ok(Decimal(-15, 1)) {
    assert DigitsValue("1") == 1 && DigitsValue("5") == 5;
    TokenValue("-1.5", true, "1", Some("5"), Decimal(-15, 1));
  }

  lemma FractionToken() ensures ParseNumber(".5") == Ok(Decimal(5, 1)) {
    assert DigitsValue("5") == 5;
    TokenValue(".5", false, "", Some("5"), Decimal(5, 1));
  }

  lemma NegativeFractionToken() ensures ParseNumber("-.5") == Ok(Decimal(-5, 1)) {
    assert DigitsValue("5") == 5;
    TokenValue("-.5", true, "", Some("5"), Decimal(-5, 1));
  }

  /** Integer coordinates of either sign: `(1,1)`, `(-1,1)`, `(1,-1)`, `(-1,-1)`. */
  lemma FromStringIntegers()
    ensures FromString(PointLiteral("1", "1")) == Ok(Point(Decimal(1, 0), Decimal(1, 0)))
    ensures FromString(PointLiteral("-1", "1")) == Ok(Point(Decimal(-1, 0), Decimal(1, 0)))
    ensures FromString(PointLiteral("1", "-1")) == Ok(Point(Decimal(1, 0), Decimal(-1, 0)))
    ensures FromString(PointLiteral("-1", "-1")) == Ok(Point(Decimal(-1, 0), Decimal(-1, 0)))
  {
    IntegerToken();
    NegativeIntegerToken();
    FromStringComplete("1", "1");
    FromStringComplete("-1", "1");
    FromStringComplete("1", "-1");
    FromStringComplete("-1", "-1");
  }

  /** Decimals with an integer part, of either sign: `(1.5,1.5)` and its sign variants. */
  lemma FromStringDecimals()
    ensures FromString(PointLiteral("1.5", "1.5")) == Ok(Point(Decimal(15, 1), Decimal(15, 1)))
    ensures FromString(PointLiteral("-1.5", "1.5")) == Ok(Point(Decimal(-15, 1), Decimal(15, 1)))
    ensures FromString(PointLiteral("1.5", "-1.5")) == Ok(Point(Decimal(15, 1), Decimal(-15, 1)))
    ensures FromString(PointLiteral("-1.5", "-1.5")) == Ok(Point(Decimal(-15, 1), Decimal(-15, 1)))
  {
    DecimalToken();
    NegativeDecimalToken();
    FromStringComplete("1.5", "1.5");
    FromStringComplete("-1.5", "1.5");
    FromStringComplete("1.5", "-1.5");
    FromStringComplete("-1.5", "-1.5");
  }

  /** Fractions written without the leading zero, of either sign: `(.5,.5)` and its sign variants. */
  lemma FromStringOmittedZero()
    ensures FromString(PointLiteral(".5", ".5")) == Ok(Point(Decimal(5, 1), Decimal(5, 1)))
    ensures FromString(PointLiteral("-.5", ".5")) == Ok(Point(Decimal(-5, 1), Decimal(5, 1)))
    ensures FromString(PointLiteral(".5", "-.5")) == Ok(Point(Decimal(5, 1), Decimal(-5, 1)))
    ensures FromString(PointLiteral("-.5", "-.5")) == Ok(Point(Decimal(-5, 1), Decimal(-5, 1)))
  {
    FractionToken();
    NegativeFractionToken();
    FromStringComplete(".5", ".5");
    FromStringComplete("-.5", ".5");
    FromStringComplete(".5", "-.5");
    FromStringComplete("-.5", "-.5");
  }

  /** The `==` and `!=` test cases. */
  lemma EqualityExamples()
    ensures Equals(Point(Decimal(1, 0), Decimal(1, 0)), Point(Decimal(1, 0), Decimal(1, 0)))
    ensures !NotEquals(Point(Decimal(1, 0), Decimal(1, 0)), Point(Decimal(1, 0), Decimal(1, 0)))
    ensures NotEquals(Point(Decimal(1, 0), Decimal(1, 0)), Point(Decimal(2, 0), Decimal(1, 0)))
    ensures NotEquals(Point(Decimal(1, 0), Decimal(1, 0)), Point(Decimal(1, 0), Decimal(2, 0)))
    ensures NotEquals(Point(Decimal(1, 0), Decimal(1, 0)), Point(Decimal(2, 0), Decimal(2, 0)))
  {
  }
}
