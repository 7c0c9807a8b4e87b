/**
 The PostGIS tile source of pg.go: the recipe record, the zoom-key query
 selection `findSql` exactly as it is written, and the fold of the query's
 rows into one tile payload.
 */
module PgSource {
  import ZoomKey

  newtype byte = x: int | 0 <= x < 256

  /** A 32-bit float of the recipe's bounds, carried as its bit pattern and never interpreted. */
  datatype Float32 = Float32(bits: bv32)

  /** One vector layer of a recipe: its id and its field-name to type-label map. */
  datatype Layer = Layer(id: string, fields: map<string, string>)

  /** A tile recipe (Go type `pg`); `sqls` maps zoom keys to query templates. */
  datatype Pg = Pg(
    name: string,
    description: string,
    schema: string,
    minZoom: int,
    maxZoom: int,
    bounds: seq<Float32>,
    fillzoom: int,
    vectorLayers: seq<Layer>,
    fields: map<string, string>,
    sqls: map<string, string>)

  /** The zero value `pg{}`: what a recipe holds when nothing was decoded into it. */
  const Zero: Pg := Pg("", "", "", 0, 0, [], 0, [], map[], map[])

  /** Go's map index: a missing key reads as the zero value, the empty string. */
  function Lookup(m: map<string, string>, k: string): (v: string)
    ensures k in m ==> v == m[k]
    ensures k !in m ==> v == ""
  {
    if k in m then m[k] else ""
  }

  /**
   `findSql` as written: the wildcard key is tested first; when only the exact
   key `"z<z>"` is present, the entry under the EMPTY key is returned; the
   recipe's zoom range is never consulted.
   */
  function FindSql(p: Pg, z: int): (q: string)
    ensures q == "" || q in p.sqls.Values
  {
    if ZoomKey.Wildcard in p.sqls then p.sqls[ZoomKey.Wildcard]
    else if ZoomKey.Exact(z) in p.sqls then Lookup(p.sqls, "")
    else ""
  }

  /** A wildcard entry answers every zoom, even one that also has an exact entry. */
  lemma FindSqlWildcardWins(p: Pg, z: int)
    requires ZoomKey.Wildcard in p.sqls
    ensures FindSql(p, z) == p.sqls[ZoomKey.Wildcard]
    ensures ZoomKey.Exact(z) in p.sqls && p.sqls[ZoomKey.Exact(z)] != p.sqls[ZoomKey.Wildcard] ==>
              FindSql(p, z) != p.sqls[ZoomKey.Exact(z)]
  {
  }

  /** With neither the wildcard nor the exact key, the query is the empty string. */
  lemma FindSqlNoKeyIsEmpty(p: Pg, z: int)
    requires ZoomKey.Wildcard !in p.sqls && ZoomKey.Exact(z) !in p.sqls
    ensures FindSql(p, z) == ""
  {
  }

  /**
   With only the exact key, the query is the empty-key entry: the empty string
   when the recipe has no such entry, never the exact key's own template
   unless it happens to equal the empty-key entry.
   */
  lemma FindSqlExactReadsEmptyKey(p: Pg, z: int)
    requires ZoomKey.Wildcard !in p.sqls && ZoomKey.Exact(z) in p.sqls
    ensures "" in p.sqls ==> FindSql(p, z) == p.sqls[""]
    ensures "" !in p.sqls ==> FindSql(p, z) == ""
  {
  }

  /** The query depends on the recipe's `sqls` map and the zoom only: no zoom-range check. */
  lemma FindSqlOnlyReadsSqls(p: Pg, p': Pg, z: int)
    requires p.sqls == p'.sqls
    ensures FindSql(p, z) == FindSql(p', z)
  {
  }

  /** An opaque database error. */
  datatype DbError = DbError(message: string)

  /** What `rows.Scan(&mvtTile)` gives for one row delivered by `rows.Next()`. */
  datatype ScanResult = Scanned(payload: seq<byte>) | ScanFailed(err: DbError)

  /** What `DB.NamedQuery` gives: the rows it yields, or an error (and nil rows). */
  datatype QueryResult = Rows(rows: seq<ScanResult>) | QueryFailed(err: DbError)

  /**
   The outcome of `Tile`: a payload, an error, or the nil-pointer panic that
   iterating the nil rows of a failed query causes.
   */
  datatype TileOutcome = Payload(bytes: seq<byte>) | Failed(err: DbError) | NilRowsPanic

  /** No row failed to scan. */
  predicate AllScanned(rows: seq<ScanResult>) {
    forall i :: 0 <= i < |rows| ==> rows[i].Scanned?
  }

  /**
   The scanning loop: each row overwrites the payload held so far (`last`);
   the first scan error returns at once.
   */
  function ScanRows(rows: seq<ScanResult>, last: seq<byte>): (r: TileOutcome)
    ensures !r.NilRowsPanic?
    ensures r.Payload? <==> AllScanned(rows)
    ensures r.Payload? && |rows| == 0 ==> r.bytes == last
    ensures r.Payload? && |rows| > 0 ==> r.bytes == rows[|rows| - 1].payload
    ensures r.Failed? ==>
              exists i :: 0 <= i < |rows| && rows[i] == ScanFailed(r.err) && AllScanned(rows[..i])
  {
    if |rows| == 0 then Payload(last)
    else match rows[0]
      case Scanned(b) =>
        var r := ScanRows(rows[1..], b);
        assert r.Failed? ==> exists i :: 0 <= i < |rows| && rows[i] == ScanFailed(r.err) && AllScanned(rows[..i]) by {
          if r.Failed? {
            var i :| 0 <= i < |rows[1..]| && rows[1..][i] == ScanFailed(r.err) && AllScanned(rows[1..][..i]);
            assert rows[..i + 1] == [rows[0]] + rows[1..][..i];
            assert rows[i + 1] == ScanFailed(r.err) && AllScanned(rows[..i + 1]);
          }
        }
        r
      case ScanFailed(e) =>
        assert rows[0] == ScanFailed(e) && AllScanned(rows[..0]);
        Failed(e)
  }

  /** The row fold of `Tile`: scanning starts from a nil payload. */
  function RowsToTile(rows: seq<ScanResult>): (r: TileOutcome)
    ensures !r.NilRowsPanic?
    ensures r.Payload? <==> AllScanned(rows)
    ensures r.Payload? ==> r.bytes == (if |rows| == 0 then [] else rows[|rows| - 1].payload)
    ensures r.Failed? ==>
              exists i :: 0 <= i < |rows| && rows[i] == ScanFailed(r.err) && AllScanned(rows[..i])
  {
    ScanRows(rows, [])
  }

  /** Zero rows: an empty payload and no error. */
  lemma NoRowsEmptyPayload()
    ensures RowsToTile([]) == Payload([])
  {
  }

  /** Several good rows: the last row's bytes, earlier rows overwritten. */
  lemma LastRowWins(rows: seq<ScanResult>)
    requires |rows| > 0 && AllScanned(rows)
    ensures RowsToTile(rows) == Payload(rows[|rows| - 1].payload)
  {
  }

  /**
   The first scan error ends the fold: whatever rows follow it are never
   consumed and cannot change the outcome.
   */
  lemma {:induction false} ScanStopsAtFirstFailure(rows: seq<ScanResult>, i: nat, rest: seq<ScanResult>, last: seq<byte>)
    requires i < |rows| && rows[i].ScanFailed? && AllScanned(rows[..i])
    ensures ScanRows(rows[..i + 1] + rest, last) == Failed(rows[i].err)
  {
    var s := rows[..i + 1] + rest;
    if i > 0 {
      assert rows[0] == rows[..i][0];
      assert s[1..] == rows[1..][..i] + rest;
      assert rows[1..][..i - 1] == rows[..i][1..];
      assert ScanRows(s, last) == ScanRows(s[1..], rows[0].payload);
      ScanStopsAtFirstFailure(rows[1..], i - 1, rest, rows[0].payload);
    }
  }

  /**
   `Tile` as written: the query text is `FindSql`'s template and the tile
   coordinates are passed to the database as named parameters `z`, `x`, `y`.
   A failed query leaves the rows nil, and the loop then panics.
   */
  function Tile(p: Pg, z: int, x: int, y: int, db: (string, int, int, int) -> QueryResult): (r: TileOutcome)
    ensures r.NilRowsPanic? <==> db(FindSql(p, z), z, x, y).QueryFailed?
    ensures db(FindSql(p, z), z, x, y).Rows? ==>
              var rows := db(FindSql(p, z), z, x, y).rows;
              && (r.Payload? <==> AllScanned(rows))
              && (r.Payload? ==> r.bytes == (if |rows| == 0 then [] else rows[|rows| - 1].payload))
              && (r.Failed? ==>
                    exists i :: 0 <= i < |rows| && rows[i] == ScanFailed(r.err) && AllScanned(rows[..i]))
  {
    match db(FindSql(p, z), z, x, y)
    case QueryFailed(_) => NilRowsPanic
    case Rows(rows) => RowsToTile(rows)
  }
}
