/** The literal of PostgreSQL path and polygon columns: point literals
    written one after another, and the closure rule of polygons. */
module Sequences {
  import opened Wrappers
  import opened Errors
  import opened Decimals
  import opened Points

  /** The points' literals concatenated without separator, in order. */
  function Encode(ps: seq<Point>): string {
    if ps == [] then "" else ToString(ps[0]) + Encode(ps[1..])
  }

  /** Reads zero or more point literals that fill the whole text. */
  function Decode(s: string): (r: Result<seq<Point>, Error>)
    ensures r.Err? ==> r.error.ParseError?
    decreases |s|
  {
    if s == [] then
      Ok([])
    else
      match ParsePrefix(s)
      case Err(e) => Err(e)
      case Ok((p, rest)) =>
        match Decode(rest)
        case Err(e) => Err(e)
        case Ok(ps) => Ok([p] + ps)
  }

  /** Encoding distributes over concatenation of point lists. */
  lemma {:induction false} EncodeAppend(ps: seq<Point>, qs: seq<Point>)
    ensures Encode(ps + qs) == Encode(ps) + Encode(qs)
  {
    if ps != [] {
      assert (ps + qs)[1..] == ps[1..] + qs;
      EncodeAppend(ps[1..], qs);
    } else {
      assert ps + qs == qs;
    }
  }

  /** Decoding an encoded list gives the same points in the same order. */
  lemma {:induction false} DecodeEncode(ps: seq<Point>)
    ensures Decode(Encode(ps)) == Ok(ps)
  {
    if ps != [] {
      var tail := Encode(ps[1..]);
      assert Encode(ps) == ToString(ps[0]) + tail;
      DecodeEncode(ps[1..]);
      DecodeAfterPoint(ps[0], tail);
      SeqCons(ps);
    }
  }

  /** A point's literal in front of a decodable text adds that point in front. */
  lemma DecodeAfterPoint(p: Point, tail: string)
    requires Decode(tail).Ok?
    ensures Decode(ToString(p) + tail) == Ok([p] + Decode(tail).value)
  {
    ParseToString(p, tail);
    DecodeCons(ToString(p) + tail, p, tail);
  }

  /** One literal read off the front, then the rest decoded. */
  lemma DecodeCons(s: string, p: Point, rest: string)
    requires ParsePrefix(s) == Ok((p, rest)) && Decode(rest).Ok?
    ensures Decode(s) == Ok([p] + Decode(rest).value)
  {
  }

  /** `s` is the literals of the points `ps`, one after another, each a
      `(tx,ty)` of two tokens that parse to that point's coordinates. */
  ghost predicate LiteralsOf(s: string, ps: seq<Point>)
    decreases |ps|
  {
    if ps == [] then
      s == []
    else
      exists tx, ty, rest ::
        && s == PointLiteral(tx, ty) + rest
        && ParseNumber(tx) == Ok(ps[0].x) && ParseNumber(ty) == Ok(ps[0].y)
        && LiteralsOf(rest, ps[1..])
  }

  /** Whatever `Decode` accepts is the literals of the points it returns. */
  lemma {:induction false} DecodeSound(s: string)
    requires Decode(s).Ok?
    ensures LiteralsOf(s, Decode(s).value)
    decreases |s|
  {
    if s != [] {
      var (p, rest) := ParsePrefix(s).value;
      ParsePrefixSound(s);
      var tx, ty :| s == PointLiteral(tx, ty) + rest && ParseNumber(tx) == Ok(p.x) && ParseNumber(ty) == Ok(p.y);
      DecodeSound(rest);
      var ps := Decode(s).value;
      DecodeCons(s, p, rest);
      assert ps[0] == p && ps[1..] == Decode(rest).value;
    }
  }

  /** The literals of any points, one after another, decode to those points. */
  lemma {:induction false} DecodeComplete(s: string, ps: seq<Point>)
    requires LiteralsOf(s, ps)
    ensures Decode(s) == Ok(ps)
    decreases |ps|
  {
    if ps != [] {
      var tx, ty, rest :| && s == PointLiteral(tx, ty) + rest
                          && ParseNumber(tx) == Ok(ps[0].x) && ParseNumber(ty) == Ok(ps[0].y)
                          && LiteralsOf(rest, ps[1..]);
      DecodeComplete(rest, ps[1..]);
      ReadPointLiteral(tx, ty, rest, ps[0]);
      DecodeStep(s, ps, rest);
    }
  }

  lemma SeqCons(ps: seq<Point>)
    requires ps != []
    ensures [ps[0]] + ps[1..] == ps
  {
  }

  lemma DecodeStep(s: string, ps: seq<Point>, rest: string)
    requires ps != [] && ParsePrefix(s) == Ok((ps[0], rest)) && Decode(rest) == Ok(ps[1..])
    ensures Decode(s) == Ok(ps)
  {
    DecodeCons(s, ps[0], rest);
    SeqCons(ps);
  }

  lemma ReadPointLiteral(tx: string, ty: string, rest: string, p: Point)
    requires ParseNumber(tx) == Ok(p.x) && ParseNumber(ty) == Ok(p.y)
    ensures ParsePrefix(PointLiteral(tx, ty) + rest) == Ok((p, rest))
  {
    ParseLiteral(tx, ty, rest);
  }

  /** First and last points equal under `==`; the empty list counts as closed. */
  predicate IsClosed(ps: seq<Point>) {
    |ps| == 0 || !NotEquals(ps[0], ps[|ps| - 1])
  }

  /** Saves a polygon: refuses a point list that does not close, otherwise
      writes the same literal as a path, which reads back as the same list. */
  function EncodePolygon(ps: seq<Point>): (r: Result<string, Error>)
    ensures r.Err? <==>
      |ps| > 0 && (ps[0].x.Value() != ps[|ps| - 1].x.Value() || ps[0].y.Value() != ps[|ps| - 1].y.Value())
    ensures r.Err? ==> r.error == ValueError(NotSelfClosing)
    ensures r.Ok? ==> Decode(r.value) == Ok(ps)
  {
    if IsClosed(ps) then
      DecodeEncode(ps);
      Ok(Encode(ps))
    else
      Err(ValueError(NotSelfClosing))
  }

  function P(x: int, y: int): Point {
    Point(Decimal(x, 0), Decimal(y, 0))
  }

  /** The open path of the path test is stored and read back unchanged. */
  lemma PathExample()
    ensures Decode(Encode([P(1, 1), P(2, 2)])) == Ok([P(1, 1), P(2, 2)])
  {
    DecodeEncode([P(1, 1), P(2, 2)]);
  }

  /** The closed polygon of the polygon test is accepted and read back unchanged. */
  lemma ClosedPolygonExample()
    ensures EncodePolygon([P(1, 1), P(2, 2), P(1, 1)]).Ok?
    ensures Decode(EncodePolygon([P(1, 1), P(2, 2), P(1, 1)]).value) == Ok([P(1, 1), P(2, 2), P(1, 1)])
  {
  }

  /** The open polygon of the closure test is refused with its message. */
  lemma OpenPolygonExample()
    ensures EncodePolygon([P(1, 1), P(2, 2)]) == Err(ValueError("Not self-closing polygon"))
  {
  }
}
