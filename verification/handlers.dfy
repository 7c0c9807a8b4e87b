/**
 The pure parts of the HTTP handlers in main.go: the id listing of
 `handleList` and the tile-URL template of `handleTilejson`.
 */
module Handlers {
  import opened Wrappers
  import opened Registry

  /**
   `handleList`: appends every registered id while ranging over the map. Go's
   map iteration order is unspecified, so the next key is chosen freely.
   */
  method List(reg: Sources) returns (list: seq<string>)
    ensures multiset(list) == multiset(reg.Keys)
    ensures forall k :: k in list <==> k in reg
  {
    list := [];
    var remaining := reg.Keys;
    while remaining != {}
      invariant remaining <= reg.Keys
      invariant multiset(list) + multiset(remaining) == multiset(reg.Keys)
      decreases remaining
    {
      var k :| k in remaining;
      assert multiset(remaining) == multiset(remaining - {k}) + multiset{k};
      list := list + [k];
      remaining := remaining - {k};
    }
    forall k ensures k in list <==> k in reg {
      assert k in list <==> k in multiset(list);
      assert k in reg.Keys <==> k in multiset(reg.Keys);
    }
  }

  /** Every listed id appears exactly once. */
  lemma ListedOnce(reg: Sources, list: seq<string>, k: string)
    requires multiset(list) == multiset(reg.Keys) && k in reg
    ensures multiset(list)[k] == 1
  {
  }

  /** The suffix appended to the base URL and id. */
  const TilePattern: string := "/{z}/{x}/{y}"

  /** The tile-URL template `handleTilejson` formats from the request URL and the source id. */
  function TileUrl(url: string, id: string): (t: string)
    ensures |t| == |url| + 1 + |id| + |TilePattern|
    ensures t[..|url|] == url
    ensures t[|url|] == '/'
    ensures t[|t| - |TilePattern|..] == TilePattern
  {
    url + "/" + id + TilePattern
  }

  /** Recovers the source id from a template built on `url`, if it is one. */
  function TileUrlId(url: string, t: string): Option<string> {
    if |t| >= |url| + 1 + |TilePattern| && t[..|url|] == url && t[|url|] == '/'
       && t[|t| - |TilePattern|..] == TilePattern
    then Some(t[|url| + 1..|t| - |TilePattern|])
    else None
  }

  /** The id is read back from the template: different ids never share one. */
  lemma TileUrlRoundTrip(url: string, id: string)
    ensures TileUrlId(url, TileUrl(url, id)) == Some(id)
  {
    var t := TileUrl(url, id);
    assert t[|url| + 1..|t| - |TilePattern|] == id;
  }
}
