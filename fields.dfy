/** The three model fields: their column types, and the conversions the
    framework applies on save and on load, NULL included. */
module Fields {
  import opened Wrappers
  import opened Errors
  import opened Points
  import opened Sequences

  datatype FieldKind = PointField | SegmentPathField | PolygonField

  /** The native PostgreSQL column type behind each field: `point`,
      `path` and `polygon`, one per field. */
  function ColumnType(kind: FieldKind): (r: string)
    ensures r == "point" <==> kind == PointField
    ensures r == "path" <==> kind == SegmentPathField
    ensures r == "polygon" <==> kind == PolygonField
  {
    match kind
    case PointField => "point"
    case SegmentPathField => "path"
    case PolygonField => "polygon"
  }

  /** `t` occurs in `s` as a contiguous piece. */
  predicate Contains(s: string, t: string)
    decreases |s|
  {
    if |s| < |t| then false else s[..|t|] == t || Contains(s[1..], t)
  }

  /** `t` occurs in `s` starting at position `i`. */
  predicate OccursAt(s: string, t: string, i: int) {
    0 <= i <= |s| - |t| && s[i..i + |t|] == t
  }

  /** The recursive search agrees with "some window of `s` equals `t`". */
  lemma {:induction false} ContainsIff(s: string, t: string)
    ensures Contains(s, t) <==> exists i :: OccursAt(s, t, i)
    decreases |s|
  {
    if |s| >= |t| {
      if s[..|t|] == t {
        assert OccursAt(s, t, 0);
      } else {
        ContainsIff(s[1..], t);
        if exists i :: OccursAt(s, t, i) {
          var i :| OccursAt(s, t, i);
          assert i > 0;
          assert OccursAt(s[1..], t, i - 1);
        }
        if Contains(s[1..], t) {
          var i :| OccursAt(s[1..], t, i);
          assert OccursAt(s, t, i + 1);
        }
      }
    }
  }

  /** The engine name of the psycopg2 PostgreSQL driver. */
  const PostgresDriver: string := "psycopg2"

  /** `db_type`: the column type when the connection's ENGINE names the
      psycopg2 driver, a FieldError for any other engine. */
  function DbType(kind: FieldKind, engine: string): (r: Result<string, Error>)
    ensures r.Ok? <==> exists i :: OccursAt(engine, PostgresDriver, i)
    ensures r.Ok? ==> r.value == ColumnType(kind) && r.value in {"point", "path", "polygon"}
    ensures r.Err? ==> r.error.FieldError?
  {
    ContainsIff(engine, PostgresDriver);
    if Contains(engine, PostgresDriver) then
      Ok(ColumnType(kind))
    else
      Err(FieldError("unsupported database engine"))
  }

  /** Each field kind has its own column type. */
  lemma ColumnTypesDistinct(a: FieldKind, b: FieldKind)
    ensures ColumnType(a) == ColumnType(b) <==> a == b
  {
  }

  /** The mocked connection of the tests names the bare driver. */
  lemma DbTypeDriverExample(kind: FieldKind)
    ensures DbType(kind, "psycopg2") == Ok(ColumnType(kind))
  {
    assert OccursAt("psycopg2", PostgresDriver, 0);
  }

  /** Django's PostgreSQL backend path names the driver at offset 30. */
  lemma DbTypeBackendExample(kind: FieldKind)
    ensures DbType(kind, "django.db.backends.postgresql_psycopg2") == Ok(ColumnType(kind))
  {
    assert OccursAt("django.db.backends.postgresql_psycopg2", PostgresDriver, 30);
  }

  /** Django's later backend name `django.db.backends.postgresql` does not
      contain the driver's name, so this model refuses it. */
  lemma DbTypeModernBackendRefused(kind: FieldKind)
    ensures DbType(kind, "django.db.backends.postgresql").Err?
  {
    var e := "django.db.backends.postgresql";
    assert forall k | 0 <= k < |e| :: e[k] != 'y';
    assert PostgresDriver[2] == 'y';
    MissingLetter(e, PostgresDriver, 2);
  }

  /** A text with no copy of one of `t`'s letters has no window equal to `t`. */
  lemma MissingLetter(s: string, t: string, j: nat)
    requires j < |t| && forall k | 0 <= k < |s| :: s[k] != t[j]
    ensures forall i :: !OccursAt(s, t, i)
  {
    forall i | 0 <= i <= |s| - |t|
      ensures !OccursAt(s, t, i)
    {
      assert s[i..i + |t|][j] == s[i + j];
    }
  }

  /** Any other engine, such as sqlite, is refused. */
  lemma DbTypeSqliteExample(kind: FieldKind)
    ensures DbType(kind, "sqlite").Err? && DbType(kind, "sqlite").error.FieldError?
  {
  }

  // ---------------------------------------------------------------------
  // Save (`get_prep_value`) and load (`from_db_value`); None is SQL NULL.

  /** Saves a point as its literal, which `from_string` reads back. */
  function PointToDb(v: Option<Point>): (r: Option<string>)
    ensures r.None? <==> v.None?
    ensures r.Some? ==> FromString(r.value) == Ok(v.value)
  {
    match v
    case None => None
    case Some(p) =>
      FromStringToString(p);
      Some(ToString(p))
  }

  function PointFromDb(v: Option<string>): (r: Result<Option<Point>, Error>)
    ensures r.Err? ==> r.error.ParseError?
  {
    match v
    case None => Ok(None)
    case Some(s) =>
      match FromString(s)
      case Ok(p) => Ok(Some(p))
      case Err(e) => Err(e)
  }

  /** A point field stores and reloads the same point, and NULL as NULL. */
  lemma PointFieldRoundTrip(v: Option<Point>)
    ensures PointFromDb(PointToDb(v)) == Ok(v)
  {
  }

  /** Saves a path as its points' literals, which read back in order. */
  function PathToDb(v: Option<seq<Point>>): (r: Option<string>)
    ensures r.None? <==> v.None?
    ensures r.Some? ==> Decode(r.value) == Ok(v.value)
  {
    match v
    case None => None
    case Some(ps) =>
      DecodeEncode(ps);
      Some(Encode(ps))
  }

  function PathFromDb(v: Option<string>): (r: Result<Option<seq<Point>>, Error>)
    ensures r.Err? ==> r.error.ParseError?
  {
    match v
    case None => Ok(None)
    case Some(s) =>
      match Decode(s)
      case Ok(ps) => Ok(Some(ps))
      case Err(e) => Err(e)
  }

  /** A path field stores and reloads the same ordered list, with no
      closure requirement, and NULL as NULL. */
  lemma PathFieldRoundTrip(v: Option<seq<Point>>)
    ensures PathFromDb(PathToDb(v)) == Ok(v)
  {
  }

  function PolygonToDb(v: Option<seq<Point>>): (r: Result<Option<string>, Error>)
    ensures r.Err? <==> v.Some? && !IsClosed(v.value)
    ensures r.Err? ==> r.error == ValueError(NotSelfClosing)
  {
    match v
    case None => Ok(None)
    case Some(ps) =>
      match EncodePolygon(ps)
      case Ok(s) => Ok(Some(s))
      case Err(e) => Err(e)
  }

  /** Loading a polygon reads the same literal as a path; closure is checked
      only on save. */
  function PolygonFromDb(v: Option<string>): (r: Result<Option<seq<Point>>, Error>)
    ensures r.Err? ==> r.error.ParseError?
  {
    PathFromDb(v)
  }

  /** Whatever a polygon field accepts on save it reloads unchanged. */
  lemma PolygonFieldRoundTrip(v: Option<seq<Point>>)
    requires PolygonToDb(v).Ok?
    ensures PolygonFromDb(PolygonToDb(v).value) == Ok(v)
  {
  }

  /** Loading applies no closure rule: the literal of any point list, closed
      or not, loads as a polygon unchanged. */
  lemma PolygonLoadsAnyList(ps: seq<Point>)
    ensures PolygonFromDb(Some(Encode(ps))) == Ok(Some(ps))
  {
    DecodeEncode(ps);
  }

  /** An open list written to a polygon column is read back, though saving
      it through the polygon field is refused. */
  lemma OpenPolygonLoads()
    ensures PolygonToDb(Some([P(1, 1), P(2, 2)])).Err?
    ensures PolygonFromDb(Some(Encode([P(1, 1), P(2, 2)]))) == Ok(Some([P(1, 1), P(2, 2)]))
  {
    PolygonLoadsAnyList([P(1, 1), P(2, 2)]);
  }

  /** The point field test: (1,1) is saved and reloaded unchanged. */
  lemma PointStoreExample()
    ensures PointFromDb(PointToDb(Some(P(1, 1)))) == Ok(Some(P(1, 1)))
  {
    PointFieldRoundTrip(Some(P(1, 1)));
  }

  /** The path field test: the open path [(1,1),(2,2)] is saved and reloaded unchanged. */
  lemma PathStoreExample()
    ensures PathFromDb(PathToDb(Some([P(1, 1), P(2, 2)]))) == Ok(Some([P(1, 1), P(2, 2)]))
  {
    PathFieldRoundTrip(Some([P(1, 1), P(2, 2)]));
  }

  /** The polygon field test: [(1,1),(2,2),(1,1)] is accepted and reloaded unchanged. */
  lemma PolygonStoreExample()
    ensures PolygonToDb(Some([P(1, 1), P(2, 2), P(1, 1)])).Ok?
    ensures PolygonFromDb(PolygonToDb(Some([P(1, 1), P(2, 2), P(1, 1)])).value) == Ok(Some([P(1, 1), P(2, 2), P(1, 1)]))
  {
    PolygonFieldRoundTrip(Some([P(1, 1), P(2, 2), P(1, 1)]));
  }

  /** The closure test: saving [(1,1),(2,2)] as a polygon is refused with its message. */
  lemma OpenPolygonStoreExample()
    ensures PolygonToDb(Some([P(1, 1), P(2, 2)])) == Err(ValueError("Not self-closing polygon"))
  {
  }
}
