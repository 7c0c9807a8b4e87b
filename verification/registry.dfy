/**
 The source registry that `readSources` in main.go builds: a walk over the
 recipe directory folded, entry by entry, into the map from source name to
 recipe, first write wins.

 The directory walk is given as the sequence of entries `filepath.Walk`
 visits, in its order; each entry carries what reading and decoding the file
 produced, since file I/O and YAML decoding are outside the model.
 */
module Registry {
  import opened PgSource

  /** The global `SOURCES` map. */
  type Sources = map<string, Pg>

  /** Result of reading a recipe file and decoding it into a zero `pg{}`. */
  datatype ReadResult =
    | ReadFailed(reason: string)
      /** `recipe` is whatever decoding left in the record; `decoded` is false on a YAML error. */
    | ReadOk(recipe: Pg, decoded: bool)

  /** One visited path: directory flag, base name, size in bytes, and the read outcome. */
  datatype WalkEntry = WalkEntry(isDir: bool, name: string, size: int, read: ReadResult)

  /** `filepath.Ext` scanning backwards from position `i`: stops at a separator, returns from the first dot. */
  function ExtFrom(path: string, i: nat): (e: string)
    requires i <= |path|
    ensures e != "" ==> |e| <= |path| && |path| - |e| < i && e == path[|path| - |e|..] && e[0] == '.'
    ensures e != "" ==> forall j :: |path| - |e| < j < i ==> path[j] != '.' && path[j] != '/'
    ensures e == "" ==> forall j :: 0 <= j < i && path[j] == '.' ==> exists m :: j < m < i && path[m] == '/'
    decreases i
  {
    if i == 0 then ""
    else if path[i - 1] == '/' then ""
    else if path[i - 1] == '.' then path[i - 1..]
    else ExtFrom(path, i - 1)
  }

  /** The extension of a path: the suffix from its final dot, or empty. */
  function Ext(path: string): (e: string)
    ensures e != "" ==> HasSuffix(path, e) && e[0] == '.' && '.' !in e[1..] && '/' !in e
    ensures e == "" ==> forall j :: 0 <= j < |path| && path[j] == '.' ==> exists m :: j < m < |path| && path[m] == '/'
  {
    var e := ExtFrom(path, |path|);
    assert e != "" ==> forall c :: c in e[1..] ==> c != '.' by {
      if e != "" {
        forall c | c in e[1..] ensures c != '.' {
          var t :| 0 <= t < |e[1..]| && e[1..][t] == c;
          assert c == path[|path| - |e| + 1 + t];
        }
      }
    }
    assert e != "" ==> forall c :: c in e ==> c != '/' by {
      if e != "" {
        forall c | c in e ensures c != '/' {
          var t :| 0 <= t < |e| && e[t] == c;
          assert c == path[|path| - |e| + t];
        }
      }
    }
    e
  }

  predicate HasSuffix(s: string, t: string) {
    |t| <= |s| && s[|s| - |t|..] == t
  }

  /** A file is taken to be a recipe exactly when its name ends in `.yml`. */
  lemma ExtIsYmlIffSuffix(name: string)
    ensures Ext(name) == ".yml" <==> HasSuffix(name, ".yml")
  {
    var n := |name|;
    if HasSuffix(name, ".yml") {
      assert name[n - 4..] == ".yml";
      assert name[n - 1] == 'l' && name[n - 2] == 'm' && name[n - 3] == 'y' && name[n - 4] == '.';
      assert ExtFrom(name, n) == ExtFrom(name, n - 1);
      assert ExtFrom(name, n - 1) == ExtFrom(name, n - 2);
      assert ExtFrom(name, n - 2) == ExtFrom(name, n - 3);
      assert ExtFrom(name, n - 3) == name[n - 4..];
    }
  }

  /** The entries `readSources` goes on to read: files whose extension is `.yml`. */
  predicate IsRecipeFile(e: WalkEntry) {
    !e.isDir && Ext(e.name) == ".yml"
  }

  /** What the walk callback does: go on with a registry, or return the read error, which ends the walk. */
  datatype Step = Continue(sources: Sources) | Abort

  /** Adds a recipe under its name unless the name is already taken. */
  function Insert(reg: Sources, r: Pg): (reg': Sources)
    ensures reg'.Keys == reg.Keys + {r.name}
    ensures forall k :: k in reg ==> reg'[k] == reg[k]
    ensures r.name !in reg ==> reg'[r.name] == r
  {
    if r.name in reg then reg else reg[r.name := r]
  }

  /**
   The walk callback for one entry. An empty file or a YAML error is only
   logged: the decoded record still goes through the duplicate check and
   the insert.
   */
  function Visit(reg: Sources, e: WalkEntry): (s: Step)
    ensures s.Abort? <==> IsRecipeFile(e) && e.read.ReadFailed?
    ensures s.Continue? && !IsRecipeFile(e) ==> s.sources == reg
  {
    if e.isDir then Continue(reg)
    else if Ext(e.name) != ".yml" then Continue(reg)
    else match e.read
      case ReadFailed(_) => Abort
      case ReadOk(recipe, _) => Continue(Insert(reg, recipe))
  }

  /** Once a name is registered, a later recipe with that name leaves the registry as it is. */
  lemma VisitFirstWriteWins(reg: Sources, e: WalkEntry)
    requires IsRecipeFile(e) && e.read.ReadOk? && e.read.recipe.name in reg
    ensures Visit(reg, e) == Continue(reg)
  {
  }

  /** A recipe with a new name is registered under it, and nothing else changes. */
  lemma VisitInsertsNewName(reg: Sources, e: WalkEntry)
    requires IsRecipeFile(e) && e.read.ReadOk? && e.read.recipe.name !in reg
    ensures Visit(reg, e).Continue?
    ensures Visit(reg, e).sources.Keys == reg.Keys + {e.read.recipe.name}
    ensures Visit(reg, e).sources[e.read.recipe.name] == e.read.recipe
    ensures forall k :: k in reg ==> Visit(reg, e).sources[k] == reg[k]
  {
  }

  /** Size and decode status never decide whether a read recipe is registered. */
  lemma VisitIgnoresSizeAndDecodeStatus(reg: Sources, e: WalkEntry, size: int, decoded: bool)
    requires e.read.ReadOk?
    ensures Visit(reg, e) == Visit(reg, e.(size := size, read := ReadOk(e.read.recipe, decoded)))
  {
  }

  /** `filepath.Walk` with the callback: stops at the first read error, else visits every entry. */
  function Walk(reg: Sources, entries: seq<WalkEntry>): (reg': Sources)
    ensures reg.Keys <= reg'.Keys
    ensures forall k :: k in reg ==> reg'[k] == reg[k]
    decreases |entries|
  {
    if |entries| == 0 then reg
    else match Visit(reg, entries[0])
      case Abort => reg
      case Continue(reg') => Walk(reg', entries[1..])
  }

  /** The recipes the walk hands to the registry: recipe files read before the first read error. */
  function Accepted(entries: seq<WalkEntry>): (rs: seq<Pg>)
    ensures |rs| <= |entries|
  {
    if |entries| == 0 then []
    else if !IsRecipeFile(entries[0]) then Accepted(entries[1..])
    else match entries[0].read
      case ReadFailed(_) => []
      case ReadOk(recipe, _) => [recipe] + Accepted(entries[1..])
  }

  /** Inserts the recipes one after another, from the front. */
  function InsertAll(reg: Sources, rs: seq<Pg>): Sources
    decreases |rs|
  {
    if |rs| == 0 then reg else InsertAll(Insert(reg, rs[0]), rs[1..])
  }

  function Names(rs: seq<Pg>): set<string> {
    set i | 0 <= i < |rs| :: rs[i].name
  }

  /** Position of the first recipe named `k`. */
  function FirstIndexOf(rs: seq<Pg>, k: string): (i: nat)
    requires k in Names(rs)
    ensures i < |rs| && rs[i].name == k
    ensures forall j :: 0 <= j < i ==> rs[j].name != k
  {
    if rs[0].name == k then 0
    else
      assert k in Names(rs[1..]) by {
        var i :| 0 <= i < |rs| && rs[i].name == k;
        assert rs[1..][i - 1] == rs[i];
      }
      1 + FirstIndexOf(rs[1..], k)
  }

  /** Reference registry: each name of `rs` mapped to the first recipe carrying it. */
  function FirstWins(rs: seq<Pg>): map<string, Pg> {
    map k | k in Names(rs) :: rs[FirstIndexOf(rs, k)]
  }

  lemma NamesCons(rs: seq<Pg>)
    requires |rs| > 0
    ensures Names(rs) == {rs[0].name} + Names(rs[1..])
  {
    forall k | k in Names(rs) ensures k in {rs[0].name} + Names(rs[1..]) {
      var i :| 0 <= i < |rs| && rs[i].name == k;
      if i > 0 {
        assert rs[1..][i - 1] == rs[i];
      }
    }
    forall k | k in Names(rs[1..]) ensures k in Names(rs) {
      var i :| 0 <= i < |rs[1..]| && rs[1..][i].name == k;
      assert rs[i + 1] == rs[1..][i];
    }
  }

  /** Front-to-back insertion keeps old entries and adds each new name with its first recipe. */
  lemma {:induction false} InsertAllKeepsFirst(reg: Sources, rs: seq<Pg>)
    ensures InsertAll(reg, rs).Keys == reg.Keys + Names(rs)
    ensures forall k :: k in reg ==> InsertAll(reg, rs)[k] == reg[k]
    ensures forall k :: k in Names(rs) && k !in reg ==> InsertAll(reg, rs)[k] == rs[FirstIndexOf(rs, k)]
    decreases |rs|
  {
    if |rs| > 0 {
      var reg' := Insert(reg, rs[0]);
      var tail := rs[1..];
      InsertAllKeepsFirst(reg', tail);
      NamesCons(rs);
      forall k | k in Names(rs) && k !in reg
        ensures InsertAll(reg, rs)[k] == rs[FirstIndexOf(rs, k)]
      {
        if k != rs[0].name {
          assert k in Names(tail);
          assert FirstIndexOf(rs, k) == 1 + FirstIndexOf(tail, k);
        }
      }
    }
  }

  /** The walk inserts exactly the accepted recipes, in order. */
  lemma {:induction false} WalkInsertsAccepted(reg: Sources, entries: seq<WalkEntry>)
    ensures Walk(reg, entries) == InsertAll(reg, Accepted(entries))
    decreases |entries|
  {
    if |entries| > 0 {
      var e := entries[0];
      var rest := entries[1..];
      if !IsRecipeFile(e) {
        assert Visit(reg, e) == Continue(reg);
        assert Accepted(entries) == Accepted(rest);
        WalkInsertsAccepted(reg, rest);
      } else if e.read.ReadOk? {
        var reg' := Insert(reg, e.read.recipe);
        assert Visit(reg, e) == Continue(reg');
        assert Walk(reg, entries) == Walk(reg', rest);
        var rs := Accepted(entries);
        assert rs == [e.read.recipe] + Accepted(rest);
        assert rs[1..] == Accepted(rest);
        WalkInsertsAccepted(reg', rest);
      } else {
        assert Visit(reg, e) == Abort;
        assert Accepted(entries) == [];
      }
    }
  }

  /**
   `readSources` run on the initially empty `SOURCES`: nothing is registered
   when the recipe directory does not exist; otherwise the registry's names
   are exactly the distinct names of the accepted recipes, each mapped to the
   first accepted recipe carrying it.
   */
  function ReadSources(dirExists: bool, entries: seq<WalkEntry>): (reg: Sources)
    ensures dirExists ==> reg == FirstWins(Accepted(entries))
    ensures dirExists ==> reg.Keys == Names(Accepted(entries))
  {
    if dirExists then
      WalkInsertsAccepted(map[], entries);
      InsertAllFromEmptyIsFirstWins(Accepted(entries));
      Walk(map[], entries)
    else map[]
  }

  /** Inserting into an empty registry builds the reference registry. */
  lemma InsertAllFromEmptyIsFirstWins(rs: seq<Pg>)
    ensures InsertAll(map[], rs) == FirstWins(rs)
    ensures InsertAll(map[], rs).Keys == Names(rs)
  {
    var reg := InsertAll(map[], rs);
    InsertAllKeepsFirst(map[], rs);
    assert reg.Keys == FirstWins(rs).Keys;
    forall k | k in reg ensures reg[k] == FirstWins(rs)[k] {
    }
  }

  /** A missing recipe directory leaves the registry empty. */
  lemma MissingDirectoryRegistersNothing(entries: seq<WalkEntry>)
    ensures ReadSources(false, entries) == map[]
  {
  }

  predicate DistinctNames(rs: seq<Pg>) {
    forall i, j :: 0 <= i < j < |rs| ==> rs[i].name != rs[j].name
  }

  /** Recipes with pairwise different names give the same registry in any order. */
  lemma FirstWinsOrderFree(rs: seq<Pg>, rs': seq<Pg>)
    requires multiset(rs) == multiset(rs') && DistinctNames(rs)
    ensures FirstWins(rs) == FirstWins(rs')
  {
    forall k ensures k in Names(rs) <==> k in Names(rs') {
      if k in Names(rs) {
        var i :| 0 <= i < |rs| && rs[i].name == k;
        assert rs[i] in multiset(rs');
        var j :| 0 <= j < |rs'| && rs'[j] == rs[i];
      }
      if k in Names(rs') {
        var j :| 0 <= j < |rs'| && rs'[j].name == k;
        assert rs'[j] in multiset(rs);
        var i :| 0 <= i < |rs| && rs[i] == rs'[j];
      }
    }
    forall k | k in Names(rs) ensures FirstWins(rs)[k] == FirstWins(rs')[k] {
      var i := FirstIndexOf(rs, k);
      var j := FirstIndexOf(rs', k);
      assert rs'[j] in multiset(rs);
      var i' :| 0 <= i' < |rs| && rs[i'] == rs'[j];
      assert i' == i;
    }
  }

  /** The recipe of the repository's test directory. */
  const Table1: Pg := Pg("table1", "", "", 7, 14, [], 0, [],
                         map["field1" := "desc1", "field2" := "desc2"], map["z*" := "select 1"])

  /** A directory holding one recipe yields one source, keyed `table1`. */
  lemma OneRecipeDirectory()
    ensures var reg := ReadSources(true, [WalkEntry(true, "test", 0, ReadFailed("")),
                                          WalkEntry(false, "table1.yml", 120, ReadOk(Table1, true))]);
            |reg| == 1 && "table1" in reg && reg["table1"].minZoom == 7 && reg["table1"].maxZoom == 14
  {
    ExtIsYmlIffSuffix("table1.yml");
    assert "table1.yml"[6..] == ".yml";
    var reg := ReadSources(true, [WalkEntry(true, "test", 0, ReadFailed("")),
                                  WalkEntry(false, "table1.yml", 120, ReadOk(Table1, true))]);
    var e0 := WalkEntry(true, "test", 0, ReadFailed(""));
    var e1 := WalkEntry(false, "table1.yml", 120, ReadOk(Table1, true));
    assert IsRecipeFile(e1);
    assert Visit(map[], e0) == Continue(map[]);
    assert Visit(map[], e1) == Continue(map["table1" := Table1]);
    assert [e0, e1][1..] == [e1];
    assert [e1][1..] == [];
    assert Walk(map[], [e0, e1]) == Walk(map[], [e1]);
    assert Walk(map[], [e1]) == Walk(map["table1" := Table1], []);
    assert reg == map["table1" := Table1];
  }

  /** Two recipe files declaring the same name: the first one read is the one registered. */
  lemma DuplicateNameKeepsFirst(first: Pg, second: Pg)
    requires first.name == second.name
    ensures ReadSources(true, [WalkEntry(false, "a.yml", 10, ReadOk(first, true)),
                               WalkEntry(false, "b.yml", 10, ReadOk(second, true))])
            == map[first.name := first]
  {
    var e0 := WalkEntry(false, "a.yml", 10, ReadOk(first, true));
    var e1 := WalkEntry(false, "b.yml", 10, ReadOk(second, true));
    ExtIsYmlIffSuffix("a.yml");
    ExtIsYmlIffSuffix("b.yml");
    assert "a.yml"[1..] == ".yml" && "b.yml"[1..] == ".yml";
    var m := map[first.name := first];
    assert Visit(map[], e0) == Continue(m);
    assert Visit(m, e1) == Continue(m);
    assert [e0, e1][1..] == [e1];
    assert [e1][1..] == [];
    assert Walk(map[], [e0, e1]) == Walk(m, [e1]);
    assert Walk(m, [e1]) == Walk(m, []);
  }

  /**
   A `.yml` file that fails to decode, or is empty, leaves the zero recipe,
   which is registered under the empty name when that name is still free.
   */
  lemma UndecodedFileRegisteredUnderEmptyName(reg: Sources)
    requires "" !in reg
    ensures Visit(reg, WalkEntry(false, "broken.yml", 0, ReadOk(Zero, false))) == Continue(reg["" := Zero])
  {
    ExtIsYmlIffSuffix("broken.yml");
    assert "broken.yml"[6..] == ".yml";
  }
}
