/**
 NOT the behaviour of pg.go: the zoom resolution `findSql` was evidently meant
 to perform (an exact key beats the wildcard, and a zoom outside the recipe's
 range is refused), kept apart from the as-written `PgSource.FindSql`, with
 the inputs on which the two part ways.
 */
module IntendedResolve {
  import opened Wrappers
  import ZoomKey
  import opened PgSource

  datatype ResolveError = ZoomOutOfRange | NoQueryForZoom

  predicate InRange(p: Pg, z: int) {
    p.minZoom <= z <= p.maxZoom
  }

  /** Exact key first, then the wildcard, and only for zooms inside the recipe's range. */
  function Resolve(p: Pg, z: int): (r: Result<string, ResolveError>)
    ensures r.Success? ==> r.value in p.sqls.Values
    ensures r == Failure(ZoomOutOfRange) <==> !InRange(p, z)
    ensures r == Failure(NoQueryForZoom) <==>
              InRange(p, z) && ZoomKey.Exact(z) !in p.sqls && ZoomKey.Wildcard !in p.sqls
  {
    if !InRange(p, z) then Failure(ZoomOutOfRange)
    else if ZoomKey.Exact(z) in p.sqls then Success(p.sqls[ZoomKey.Exact(z)])
    else if ZoomKey.Wildcard in p.sqls then Success(p.sqls[ZoomKey.Wildcard])
    else Failure(NoQueryForZoom)
  }

  /** In range, an exact entry is chosen even when a wildcard entry exists. */
  lemma ExactBeatsWildcard(p: Pg, z: int)
    requires InRange(p, z) && ZoomKey.Exact(z) in p.sqls
    ensures Resolve(p, z) == Success(p.sqls[ZoomKey.Exact(z)])
  {
  }

  /** In range and without an exact entry, the wildcard entry is chosen. */
  lemma WildcardCoversTheRest(p: Pg, z: int)
    requires InRange(p, z) && ZoomKey.Exact(z) !in p.sqls && ZoomKey.Wildcard in p.sqls
    ensures Resolve(p, z) == Success(p.sqls[ZoomKey.Wildcard])
  {
  }

  /**
   Inside the range, the as-written query differs from the intended one exactly
   when the zoom has an exact entry whose template is not the one `findSql`
   reads instead (the wildcard's when present, otherwise the empty key's).
   */
  lemma AsWrittenDisagreesExactly(p: Pg, z: int)
    requires InRange(p, z)
    ensures (Resolve(p, z).Success? && FindSql(p, z) != Resolve(p, z).value) <==>
              (ZoomKey.Exact(z) in p.sqls &&
               p.sqls[ZoomKey.Exact(z)] !=
                 (if ZoomKey.Wildcard in p.sqls then p.sqls[ZoomKey.Wildcard] else Lookup(p.sqls, "")))
  {
  }

  /** Outside the range, `findSql` still serves any wildcard template. */
  lemma AsWrittenServesOutOfRange(p: Pg, z: int)
    requires !InRange(p, z) && ZoomKey.Wildcard in p.sqls
    ensures FindSql(p, z) == p.sqls[ZoomKey.Wildcard]
    ensures Resolve(p, z) == Failure(ZoomOutOfRange)
  {
  }

  /** A recipe covering zooms 7 to 14 with the given templates. */
  function Recipe7To14(sqls: map<string, string>): Pg {
    Pg("roads", "", "", 7, 14, [], 0, [], map[], sqls)
  }

  lemma ExactKeyOfSeven()
    ensures ZoomKey.Exact(7) == "z7"
  {
    assert ZoomKey.NatDigits(7) == ['7'];
  }

  /** A `z7` override is shadowed by `z*` at zoom 7. */
  lemma WildcardShadowsExactAtSeven()
    ensures FindSql(Recipe7To14(map["z7" := "exact", "z*" := "generic"]), 7) == "generic"
    ensures Resolve(Recipe7To14(map["z7" := "exact", "z*" := "generic"]), 7) == Success("exact")
  {
    ExactKeyOfSeven();
  }

  /** With only `z7`, zoom 7 gets the empty query instead of the `z7` template. */
  lemma ExactOnlyYieldsEmptyQueryAtSeven()
    ensures FindSql(Recipe7To14(map["z7" := "exact"]), 7) == ""
    ensures Resolve(Recipe7To14(map["z7" := "exact"]), 7) == Success("exact")
  {
    ExactKeyOfSeven();
  }

  /** Zoom 20 lies outside 7 to 14, yet `findSql` hands out the wildcard template. */
  lemma NoRangeCheckAtTwenty()
    ensures FindSql(Recipe7To14(map["z*" := "generic"]), 20) == "generic"
    ensures Resolve(Recipe7To14(map["z*" := "generic"]), 20) == Failure(ZoomOutOfRange)
  {
  }
}
