# PostgreSQL geometry fields for Django, modelled in Dafny

The repository adds three Django model fields, `PointField`, `SegmentPathField`
and `PolygonField`, which store planar geometry in PostgreSQL's native
`point`, `path` and `polygon` columns. Its `Point` value holds two
coordinates. `Point.from_string` reads the point literal `(x,y)`. `==` and `!=`
compare coordinates. Each field's `db_type` names its column type, but only
on a psycopg2 (PostgreSQL) connection. Saving a field writes a literal and
loading it reads the literal back. A polygon whose first and last points
differ is refused on save with `ValueError("Not self-closing polygon")`.

The implementation module (`postgres_geometry/fields.py`) is not part of this
model. The model covers the behaviour that `postgres_geometry/tests.py`
asserts about it, and it is pure: datatypes, functions and lemmas.

- `wrappers.dfy`: `Option` (a NULL column is `None`) and `Result`.
- `errors.dfy`: the exceptions as values. These are `ParseError`, `ValueError`
  (with the closure message) and Django's `FieldError`.
- `decimals.dfy`: exact coordinates. A `Decimal(mantissa, exponent)` denotes
  `mantissa / 10^exponent`. The subset type `Coord` keeps it canonical, with
  no trailing fraction zero, so structural equality is numeric equality. The
  file also holds the number syntax `-?[0-9]*[.]?[0-9]+`. A literal is a sign,
  integer digits and optional fraction digits (`LiteralText`). The scanner
  `ScanNumber` splits a text into those parts. `ParseNumberPrefix` reads a
  number at the front of a text, `ParseNumber` reads a whole token, and
  `FormatNumber` renders a coordinate.
- `points.dfy`: `Point`, `Equals`/`NotEquals`, the literal `PointLiteral(tx, ty)`
  = `(tx,ty)`, and `ToString`. `ReadCoord` reads a coordinate and the
  separator after it. `ParsePrefix` reads one literal at the front of a text,
  and `FromString` reads the whole text.
- `sequences.dfy`: the path and polygon literal, which is point literals
  written one after another with no separator. It also holds the closure rule.
- `fields.dfy`: `db_type` as a function of the engine name, and each field's
  save and load conversions, including NULL.

Modelling choices (the tests leave these open):
- An engine is PostgreSQL when its name contains `psycopg2`. The mock in
  `test_postgres_connection` names the bare `psycopg2`, and `sqlite` must be
  refused. `test_db_type` passes Django's `connection`, whose settings are
  not among the files modelled. This model assumes its engine is Django's
  `django.db.backends.postgresql_psycopg2`, which contains `psycopg2`. A
  substring test accepts both names and refuses `sqlite`. It also refuses
  Django's later name `django.db.backends.postgresql`, which does not
  contain `psycopg2` (`Fields.DbTypeModernBackendRefused`).
- The empty polygon counts as closed and is saved as the empty literal.
- Closure is checked only on save. Loading a polygon column reads any
  sequence of point literals.
- `from_string` must consume its whole text. It accepts no whitespace, and
  each coordinate must match `-?[0-9]*[.]?[0-9]+`.

## Model

| member | source | states |
|---|---|---|
| `Decimals.NumberSyntaxSound` | postgres_geometry/tests.py:20-35 | `ParseNumber`, which reads one coordinate token: a token it accepts as a coordinate is an optional minus sign, integer digits and optionally a '.' with at least one fraction digit (some part non-empty); its value is the decimal those digits spell |
| `Decimals.NumberSyntaxComplete` | postgres_geometry/tests.py:20-35 | `ParseNumber` accepts every token of that syntax, to the decimal its digits spell, negated after a minus sign |
| `Decimals.ParseNumberPrefix` | postgres_geometry/tests.py:37-40 | reading a coordinate at the front of a text consumes at least one character and takes all the digits there: what it leaves does not start with a digit |
| `Decimals.ParseNumberSound` | postgres_geometry/tests.py:20-35 | whatever `ParseNumberPrefix` accepts at the front of a text is a literal of the syntax followed by the text left over, with that literal's value |
| `Decimals.ParseNumberComplete` | postgres_geometry/tests.py:20-35 | every literal of the syntax, followed by text that cannot continue it, is read with its value and exactly that text left over |
| `Decimals.ScanNumberComplete` | postgres_geometry/tests.py:20-35 | the scanner splits every literal back into the sign, integer digits and fraction digits it was written from |
| `Decimals.ParseNumberExtend` | postgres_geometry/tests.py:37-40 | a token read on its own is read the same in front of any text that cannot continue it, which is how a coordinate is read before ',' or ')' |
| `Decimals.ParseNumberToken` | postgres_geometry/tests.py:37-40 | the number read at the front of a text is a token that parses on its own to the same coordinate, and the text is that token followed by what is left over |
| `Decimals.TrimZeros` | postgres_geometry/tests.py:26-34 | dropping trailing zero digits leaves only digits, ending in a non-zero one, whose value shifted back past the dropped digits is the original value |
| `Decimals.MakeCoord` | postgres_geometry/tests.py:26-34 | the canonical coordinate built from written digits keeps at most as many fraction digits as were written |
| `Decimals.MakeCoordValue` | postgres_geometry/tests.py:20-35 | the coordinate built from a sign, integer digits and fraction digits denotes exactly the decimal they spell |
| `Decimals.FormatParses` | postgres_geometry/tests.py:120-129 | `FormatNumber`, the coordinate text written on save, parses back as a token of its own to the same coordinate |
| `Decimals.NumberRoundTrip` | postgres_geometry/tests.py:120-129 | the text `FormatNumber` writes for any coordinate, followed by text that cannot continue a number, is read back as that coordinate with the following text left over |
| `Decimals.CoordEqualIffValueEqual` | postgres_geometry/tests.py:42-47 | two coordinates are the same value exactly when their numbers are equal |
| `Points.Equals` | postgres_geometry/tests.py:42-47 | `==` holds exactly when both x and both y are numerically equal |
| `Points.NotEquals` | postgres_geometry/tests.py:44-47 | `!=` holds exactly when some coordinate differs, and is the negation of `==` |
| `Points.ReadCoord` | postgres_geometry/tests.py:37-40 | reading a coordinate and its separator consumes input, and every failure is a parse error |
| `Points.ParsePrefix` | postgres_geometry/tests.py:37-40 | reading one point literal consumes input, and every failure is a parse error |
| `Points.ParseLiteral` | postgres_geometry/tests.py:37-40 | a literal `(tx,ty)` of two well-formed numbers, followed by any text, is read as the point of their values with that text left over |
| `Points.ParseToString` | postgres_geometry/tests.py:120-129 | a point's literal followed by any text is read back as that point with the text left over |
| `Points.FromStringToString` | postgres_geometry/tests.py:120-129 | `ToString`, the point literal written on save: `from_string` reads it back as that point |
| `Points.ParsePrefixSound` | postgres_geometry/tests.py:37-40 | whatever `ParsePrefix` reads is `(tx,ty)` of two well-formed numbers in front of the text it leaves, and the point holds their parsed values |
| `Points.FromStringSound` | postgres_geometry/tests.py:37-40 | whatever `from_string` accepts is `(tx,ty)` for two well-formed numbers, and the point holds their parsed values |
| `Points.FromStringComplete` | postgres_geometry/tests.py:37-40 | every `(tx,ty)` of two well-formed numbers is accepted as the point of their values |
| `Points.FromString` | postgres_geometry/tests.py:37-40 | every failure of `from_string` is a parse error |
| `Points.TokenValue` | postgres_geometry/tests.py:20-35 | a token written from a sign and digits parses to any coordinate whose value is the decimal those digits spell |
| `Points.FromStringIntegers` | postgres_geometry/tests.py:21-24 | `(1,1)`, `(-1,1)`, `(1,-1)` and `(-1,-1)` (written `PointLiteral("1", "1")` and so on) give the points with those integer coordinates |
| `Points.FromStringDecimals` | postgres_geometry/tests.py:26-29 | `(1.5,1.5)` and its three sign variants give the points of ±1.5 |
| `Points.FromStringOmittedZero` | postgres_geometry/tests.py:31-34 | `(.5,.5)` and its three sign variants give the points of ±0.5 |
| `Points.ExampleValues` | postgres_geometry/tests.py:20-35 | the coordinates of the test table denote exactly 1, -1, 1.5, -1.5, 0.5 and -0.5 |
| `Points.EqualityExamples` | postgres_geometry/tests.py:42-47 | Point(1,1) equals Point(1,1), and Point(1,1) differs from Point(2,1), Point(1,2) and Point(2,2) |
| `Sequences.Decode` | postgres_geometry/tests.py:81-84 | every failure to read a path or polygon literal is a parse error |
| `Sequences.EncodeAppend` | postgres_geometry/tests.py:74-84 | `Encode`, the path and polygon literal written on save: the literal of two lists joined is the two literals joined |
| `Sequences.DecodeAfterPoint` | postgres_geometry/tests.py:74-84 | a point's literal in front of a readable literal adds that point at the front of the list read |
| `Sequences.DecodeEncode` | postgres_geometry/tests.py:74-84 | reading the `Encode` literal of any point list gives the same points in the same order |
| `Sequences.DecodeSound` | postgres_geometry/tests.py:81-84 | whatever `Decode` accepts is, for each point it returns in order, a literal `(tx,ty)` whose two tokens parse to that point's coordinates, with nothing else in between or after |
| `Sequences.DecodeComplete` | postgres_geometry/tests.py:81-84 | any text made of literals `(tx,ty)`, one per point in order with tokens that parse to its coordinates, decodes to exactly those points |
| `Sequences.EncodePolygon` | postgres_geometry/tests.py:104-112 | saving a polygon fails exactly when it is non-empty and its first and last points differ numerically; the error is ValueError "Not self-closing polygon"; an accepted polygon reads back as the same list |
| `Sequences.PathExample` | postgres_geometry/tests.py:74-84 | the open path [(1,1),(2,2)] reads back unchanged |
| `Sequences.ClosedPolygonExample` | postgres_geometry/tests.py:92-102 | the polygon [(1,1),(2,2),(1,1)] is accepted and reads back unchanged |
| `Sequences.OpenPolygonExample` | postgres_geometry/tests.py:104-112 | the polygon [(1,1),(2,2)] is refused with ValueError "Not self-closing polygon" |
| `Fields.ContainsIff` | postgres_geometry/tests.py:55-66 | the engine-name search succeeds exactly when some window of the name equals the searched text |
| `Fields.DbType` | postgres_geometry/tests.py:52-66 | the column type is returned exactly when the engine name contains `psycopg2`, and is then the field's own type, one of point, path and polygon; any other engine gives a FieldError |
| `Fields.ColumnType` | postgres_geometry/tests.py:69-118 | the point field's column type is `point`, the path field's is `path` and the polygon field's is `polygon`, and each of the three names belongs to that field alone |
| `Fields.ColumnTypesDistinct` | postgres_geometry/tests.py:69-72 | two fields have the same column type exactly when they are the same kind |
| `Fields.DbTypeDriverExample` | postgres_geometry/tests.py:55-60 | the mocked engine `psycopg2` gives every field its column type |
| `Fields.DbTypeBackendExample` | postgres_geometry/tests.py:52-53 | the engine name this model assumes for the test's real connection, Django's `django.db.backends.postgresql_psycopg2`, gives every field its column type |
| `Fields.DbTypeModernBackendRefused` | postgres_geometry/tests.py:62-66 | Django's later engine name `django.db.backends.postgresql` has no `psycopg2` in it, so every field gives an error for it |
| `Fields.DbTypeSqliteExample` | postgres_geometry/tests.py:62-66 | the engine `sqlite` gives a FieldError for every field |
| `Fields.PointToDb` | postgres_geometry/tests.py:120-125 | saving a point field writes NULL exactly for NULL, and otherwise a literal that `from_string` reads back as the saved point |
| `Fields.PointFromDb` | postgres_geometry/tests.py:12 | loading a point column fails only with a parse error |
| `Fields.PathToDb` | postgres_geometry/tests.py:74-79 | saving a path field writes NULL exactly for NULL, and otherwise a literal that decodes to the same ordered list |
| `Fields.PathFromDb` | postgres_geometry/tests.py:13 | loading a path column fails only with a parse error |
| `Fields.PolygonFromDb` | postgres_geometry/tests.py:14 | loading a polygon column fails only with a parse error |
| `Fields.PolygonLoadsAnyList` | postgres_geometry/tests.py:92-112 | loading makes no closure check: the literal of any point list, closed or not, loads as a polygon unchanged |
| `Fields.OpenPolygonLoads` | postgres_geometry/tests.py:104-112 | the open list [(1,1),(2,2)] is refused on save but loads from a polygon column unchanged |
| `Fields.PointFieldRoundTrip` | postgres_geometry/tests.py:120-129 | a saved point, or NULL, reloads unchanged |
| `Fields.PathFieldRoundTrip` | postgres_geometry/tests.py:74-84 | a saved path of any length, or NULL, reloads as the same ordered list |
| `Fields.PolygonToDb` | postgres_geometry/tests.py:104-112 | saving a polygon field fails exactly when its value is a non-closing list, with ValueError "Not self-closing polygon" |
| `Fields.PolygonFieldRoundTrip` | postgres_geometry/tests.py:92-102 | whatever a polygon field accepts on save reloads unchanged |
| `Fields.PointStoreExample` | postgres_geometry/tests.py:120-129 | the point (1,1) is saved and reloads unchanged |
| `Fields.PathStoreExample` | postgres_geometry/tests.py:74-84 | the path [(1,1),(2,2)] is saved and reloads as the same list |
| `Fields.PolygonStoreExample` | postgres_geometry/tests.py:92-102 | the polygon [(1,1),(2,2),(1,1)] is accepted and reloads as the same list |
| `Fields.OpenPolygonStoreExample` | postgres_geometry/tests.py:104-112 | saving the polygon [(1,1),(2,2)] is refused with ValueError "Not self-closing polygon" |

## Left out

- Django persistence. `TestModel`, `save()` and `objects.get()` are replaced by the save and load conversions they run, with no database in between.
- The `Mock` connection and its `settings_dict`. `db_type` takes the ENGINE name directly.
- The real connection's engine name, because the project settings are not part of this model. It is assumed to be `django.db.backends.postgresql_psycopg2`. Django's later `django.db.backends.postgresql` is refused by the `psycopg2` substring rule.
- Floating point. Coordinates are exact decimals, and the rendered form is the shortest decimal, not Python's float `repr` (so 1 is written `1`, not `1.0`).
- PostgreSQL's own path and polygon output syntax (brackets and commas between points) is not modelled. The tests do not show it, so the literal is the point literals concatenated, and only the round trip is proved.
- Whitespace and exponent notation (`1e3`) inside literals are refused. They are not part of the syntax modelled.
- Passing the wrong kind of value to a field (a list to `PointField`) is not modelled, because the tests do not show what happens.
- The wording of parse and FieldError messages is this model's own. Only "Not self-closing polygon" is fixed by the tests.
- `six`, the test runner and Django's field descriptor machinery are not modelled.
