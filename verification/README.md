# got: zoom-scoped query selection and the recipe registry, in Dafny

`got` serves Mapbox vector tiles from PostGIS. Each tile source is a YAML
*recipe* (Go type `pg`): a name, a zoom range, layer descriptions and a map
`sqls` from zoom keys to SQL templates. A key is either the wildcard `z*` or
an exact key `z<N>`. At startup `readSources` walks the recipe directory and
fills the global `SOURCES` map. A tile request picks a template with
`findSql` and folds the query's rows into one payload.

This project models that core as pure Dafny functions over immutable data:

- `zoomkey.dfy` (module `ZoomKey`) covers the exact key `fmt.Sprintf("z%d", z)`.
  Decimal formatting has an inverse, so the key is injective in the zoom and
  is never `z*`.
- `pg.go` is modelled in `pg.dfy` (module `PgSource`): the recipe datatypes,
  `findSql` **as written**, the row-scanning loop and `Tile`.
- `intended.dfy` (module `IntendedResolve`) is **not the source**. It holds the
  resolution `findSql` was evidently meant to perform, plus the inputs where
  the two differ (see Findings). `Tile` still uses the as-written `FindSql`,
  because that is what the code runs.
- `registry.dfy` (module `Registry`) covers the directory walk of
  `readSources`. It is a left fold over the visited entries into
  `map<string, Pg>` with first-write-wins. It is proved equal to a
  declarative reference: each name maps to the first accepted recipe that
  carries it.
- `handlers.dfy` (module `Handlers`) covers the id listing of `handleList`
  and the tile-URL template of `handleTilejson`.
- `wrappers.dfy` holds `Option` and `Result`.

The database, the file system and the YAML decoder are abstracted away:

- The database query becomes a function parameter that returns either rows or
  an error. Each row is either scanned bytes or a scan error.
- The directory walk becomes the sequence of entries `filepath.Walk` visits.
  Each entry has a directory flag, a base name, a size and the outcome of
  reading and decoding the file.
- A Go map miss reads as `""` (`PgSource.Lookup`).

Behaviour of the code worth knowing, which the model keeps:

- Exact keys do not beat the wildcard.
- Nothing rejects an out-of-range zoom.
- More than one row is not an error: the last row wins.
- A duplicate name is skipped; only a log line records it.
- A YAML error does not skip the file.
- A failed read stops the whole walk.

## Model

| member | source | states |
|---|---|---|
| ZoomKey.NatDigits | pg.go:57 | `%d` of a non-negative zoom is a non-empty string of decimal digits with no leading zero |
| ZoomKey.FormatInt | pg.go:57 | `%d` of a zoom is non-empty, starts with `-` iff the zoom is negative, and is otherwise all decimal digits |
| ZoomKey.DigitsRoundTrip | pg.go:57 | reading back the decimal digits of n gives n |
| ZoomKey.FormatParseRoundTrip | pg.go:57 | the `%d` form of any zoom, negative ones included, parses back to that zoom |
| ZoomKey.Exact | pg.go:57 | the exact key is `z` followed by the `%d` form of the zoom, from which the zoom parses back |
| ZoomKey.ExactInjective | pg.go:57 | two zooms with the same exact key `"z" + decimal(z)` are equal |
| ZoomKey.ExactIsNotWildcard | pg.go:53-58 | no exact key equals the wildcard key `z*` |
| PgSource.Lookup | pg.go:55-60 | indexing the `sqls` map gives the stored template, or Go's zero value `""` for a missing key |
| PgSource.FindSql | pg.go:52-65 | the selected query is always one of the recipe's templates or the empty string |
| PgSource.FindSqlWildcardWins | pg.go:53-55 | with `z*` present, every zoom gets the wildcard template, even one with a different exact template |
| PgSource.FindSqlNoKeyIsEmpty | pg.go:56-63 | with neither `z*` nor `z<z>` present, the query is the empty string |
| PgSource.FindSqlExactReadsEmptyKey | pg.go:57-60 | with only `z<z>` present, the query is the entry under the empty key, or `""` when there is none |
| PgSource.FindSqlOnlyReadsSqls | pg.go:52-65 | the query depends only on the `sqls` map and the zoom; min/max zoom never affect it |
| PgSource.ScanRows | pg.go:38-45 | the loop succeeds iff every row scans; it then holds the last row's bytes (or the initial payload when there are no rows); a failure carries the first failing row's error |
| PgSource.RowsToTile | pg.go:38-49 | starting from a nil payload, the fold succeeds iff every row scans, with the last row's bytes or empty for no rows; a failure carries the first failing row's error |
| PgSource.NoRowsEmptyPayload | pg.go:38-49 | zero rows give an empty payload and no error |
| PgSource.LastRowWins | pg.go:40-45 | several good rows give the last row's bytes; earlier rows are overwritten |
| PgSource.ScanStopsAtFirstFailure | pg.go:40-44 | after the first scan error the outcome is that error, whatever rows follow (they are never consumed) |
| PgSource.Tile | pg.go:28-50 | a failed query panics on its nil rows; otherwise, for the rows of `findSql`'s query, the tile is a payload iff every row scans, the payload is the last row's bytes (empty for no rows), and an error is the first failing row's |
| IntendedResolve.Resolve | pg.go:52-65 | corrected resolution: out of range iff the zoom is outside the recipe's range; no query iff in range with neither key |
| IntendedResolve.ExactBeatsWildcard | pg.go:53-60 | corrected resolution: in range, an exact entry wins over the wildcard |
| IntendedResolve.WildcardCoversTheRest | pg.go:53-55 | corrected resolution: in range and without an exact entry, the wildcard template is chosen |
| IntendedResolve.AsWrittenDisagreesExactly | pg.go:52-65 | in range, `findSql` differs from the corrected resolution exactly when an exact entry exists whose template is not the wildcard's (or the empty key's, without a wildcard) |
| IntendedResolve.AsWrittenServesOutOfRange | pg.go:52-65 | outside the range, `findSql` still returns a wildcard template where the corrected resolution refuses |
| IntendedResolve.WildcardShadowsExactAtSeven | pg.go:53-55 | with `z7` and `z*`, zoom 7 gets the `z*` template as written and the `z7` one when corrected |
| IntendedResolve.ExactOnlyYieldsEmptyQueryAtSeven | pg.go:57-60 | with only `z7`, zoom 7 gets the empty query as written and the `z7` template when corrected |
| IntendedResolve.NoRangeCheckAtTwenty | pg.go:52-65 | zoom 20 on a 7-14 recipe gets the wildcard template as written and is refused when corrected |
| Registry.ExtFrom | main.go:165 | scanning back from a position, the result is the suffix from the nearest dot with no dot or separator in between, or empty when every dot before the position is followed by a separator |
| Registry.Ext | main.go:165 | the extension is the suffix from the final dot of the last path element; it is empty only when that element has no dot |
| Registry.ExtIsYmlIffSuffix | main.go:165 | the extension is `.yml` iff the name ends in `.yml` |
| Registry.Insert | main.go:183-189 | an insert adds the recipe's name to the keys, keeps every existing entry, and binds a new name to the recipe |
| Registry.Visit | main.go:161-192 | the walk aborts iff a `.yml` file fails to be read; directories and other files leave the registry unchanged |
| Registry.VisitFirstWriteWins | main.go:183-187 | a recipe whose name is already registered leaves the registry unchanged |
| Registry.VisitInsertsNewName | main.go:189 | a recipe with a new name is added under that name and no other entry changes |
| Registry.VisitIgnoresSizeAndDecodeStatus | main.go:168-181 | an empty file or a YAML error does not skip the entry: the decoded record is still checked and inserted |
| Registry.Walk | main.go:161-192 | the walk never changes or removes an entry already registered |
| Registry.InsertAllKeepsFirst | main.go:183-189 | inserting recipes in order keeps existing entries and maps each new name to its first recipe |
| Registry.InsertAllFromEmptyIsFirstWins | main.go:183-189 | inserting recipes into an empty registry gives each distinct name its first recipe and nothing else |
| Registry.WalkInsertsAccepted | main.go:161-192 | the walk inserts exactly the `.yml` files' recipes read before the first read error, in walk order |
| Registry.ReadSources | main.go:152-194 | with the recipe directory present, the registry's keys are the distinct accepted names, each mapped to the first accepted recipe with that name |
| Registry.MissingDirectoryRegistersNothing | main.go:155-159 | a missing recipe directory leaves the registry empty |
| Registry.FirstWinsOrderFree | main.go:183-189 | recipes with pairwise distinct names give the same registry in any order |
| Registry.OneRecipeDirectory | main_test.go:9-30 | a directory with one recipe gives one source, keyed `table1`, with zoom range 7-14 |
| Registry.DuplicateNameKeepsFirst | main.go:183-187 | two files declaring one name register only the first |
| Registry.UndecodedFileRegisteredUnderEmptyName | main.go:168-189 | a `.yml` file that decodes to the zero recipe is registered under the empty name when it is free |
| Handlers.List | main.go:139-144 | the listing contains every registered id exactly once and nothing else |
| Handlers.ListedOnce | main.go:141-144 | each registered id occurs exactly once in a listing |
| Handlers.TileUrl | main.go:108-110 | the template starts with the request URL and `/`, and ends with `/{z}/{x}/{y}` |
| Handlers.TileUrlRoundTrip | main.go:108-110 | the source id can be read back from the template, so different ids give different templates |

## Findings

| source | as written | input that shows it | evidently intended | confidence | as-written member | corrected member |
|---|---|---|---|---|---|---|
| pg.go:60 | the exact-key branch returns `p.Sqls[""]` | `sqls = {"z7": q}`, zoom 7 gives `""` | return `p.Sqls[zoomKey]` | high, not executed | IntendedResolve.ExactOnlyYieldsEmptyQueryAtSeven | IntendedResolve.ExactBeatsWildcard |
| pg.go:53-55 | the wildcard is tested before the exact key | `sqls = {"z7": a, "z*": b}`, zoom 7 gives `b` | an exact key overrides the wildcard | medium, not executed | IntendedResolve.WildcardShadowsExactAtSeven | IntendedResolve.ExactBeatsWildcard |
| pg.go:52-65 | no check against `MinZoom`/`MaxZoom` | range 7-14, `sqls = {"z*": b}`, zoom 20 gives `b` | refuse zooms outside the range | medium, not executed | IntendedResolve.NoRangeCheckAtTwenty | IntendedResolve.Resolve |

## Left out

- `readConfs`, `initDbPool`, `startListen` (main.go:40-98, 196-238): configuration, the database connection, the HTTP server and signal handling are I/O.
- `handleZXY` and the handler plumbing (main.go:100-137) are not modelled. This covers mux variables, `strconv.Atoi` with ignored errors, writing the response, and the missing `return` after `http.NotFound`, which makes an unknown id panic. Only the listing and the URL template are modelled.
- JSON encoding is not modelled. In particular, an empty registry lists as a nil slice, which encodes as `null`.
- `handleTilejson`: only the template string is modelled. `Tilejson()` is not declared by the `source` interface (source.go:7-10), and the result's `tiles` is set on one copy and then dropped when `Tilejson()` is called again. `request.URL` is taken as its string form. If that form is the request path `/<id>`, the id appears twice in the template.
- `Metadata()` (pg.go:23-26) only panics. tilejson.go does not compile: it embeds an undeclared `vector_layers`.
- `DB.NamedQuery`, `rows.Next` and `rows.Scan` are foreign calls. They are replaced by a query-result parameter.
- An iteration error from `rows.Next` only ends the row sequence, because `rows.Err` is never checked. `rows` is never closed.
- Go's nil and empty byte slices are both the empty sequence.
- The error check after the loop (pg.go:46-48) is unreachable as written. A query error has already panicked at `rows.Next()`, which the model shows as `NilRowsPanic`.
- File reading, YAML decoding and `filepath.Walk` are library behaviour. Each entry's read outcome and decoded record are inputs.
- A record that decoding only partly filled is taken as given.
- The read path is `recipeDir` joined with the base name, not the walked path. The entry's read outcome stands for whatever that read returns.
- A walk callback called with nil file info (an lstat failure) would panic. That case is not modelled.
- `Bounds` is a slice of 32-bit floats. It is carried as opaque bit patterns.
- Zooms are unbounded integers. Go's 64-bit `int` overflow in `Atoi` belongs to the handler and is not modelled.
- Concurrent access to the global `SOURCES` map is not modelled. The registry is a value built once.
- The code has no error for multi-row results, cancellation, pool exhaustion or malformed recipes, so neither does the model.
