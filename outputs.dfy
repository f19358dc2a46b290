/** The outputs configuration: the parsed output levels, the output currency
    label and the outputs id map, one id-to-name table per output dimension,
    built from reference rows that have already been fetched. */
module Outputs {
  import opened Text

  /** One `(id, name)` row of a reference table. */
  datatype Row = Row(id: int, name: string)

  /** The id-to-name table of one dimension. */
  type Table = map<int, string>

  /** The outputs id map: dimension name to its table. */
  type IdMap = map<string, Table>

  /** One row of the OtherIndexes catalog together with the OtherIndexesData
      rows whose other_index_id is its id. */
  datatype OtherIndex = OtherIndex(id: int, name: string, members: seq<Row>)

  /** Everything the builder reads from the reference store. */
  datatype ReferenceData = ReferenceData(
    currencyName: string,             // Currencies.name for the configured currency_id
    geographyMembers: seq<Row>,       // GeographiesData rows of the primary geography
    demandTechs: seq<Row>,
    finalEnergy: seq<Row>,
    supplyNodes: seq<Row>,
    demandSubsectors: seq<Row>,
    demandSectors: seq<Row>,
    greenhouseGases: seq<Row>,
    otherIndexes: seq<OtherIndex>)

  /** The `case` settings the builder reads. */
  datatype OutputSettings = OutputSettings(
    primaryGeography: string, currencyYearId: string, outputLevels: string)

  /** What the builder publishes. */
  datatype OutputsConfig = OutputsConfig(
    currencyName: string, outputLevels: seq<string>, outputCurrency: string, idMap: IdMap)

  /** Row `k` is the last row carrying its id. */
  predicate LastWithId(rows: seq<Row>, k: int)
    requires 0 <= k < |rows|
  {
    forall j :: k < j < |rows| ==> rows[j].id != rows[k].id
  }

  /** The ids that occur in `rows`. */
  function Ids(rows: seq<Row>): set<int>
    decreases |rows|
  {
    if rows == [] then {} else Ids(rows[..|rows| - 1]) + {rows[|rows| - 1].id}
  }

  /** An id is in `Ids(rows)` exactly when some row carries it. */
  lemma {:induction false} IdsMembers(rows: seq<Row>, id: int)
    ensures id in Ids(rows) <==> exists k :: 0 <= k < |rows| && rows[k].id == id
    decreases |rows|
  {
    if rows != [] {
      var n := |rows| - 1;
      IdsMembers(rows[..n], id);
      if id in Ids(rows[..n]) {
        var k :| 0 <= k < n && rows[..n][k].id == id;
        assert rows[k].id == id;
      }
      if exists k :: 0 <= k < |rows| && rows[k].id == id {
        var k :| 0 <= k < |rows| && rows[k].id == id;
        if k < n { assert rows[..n][k].id == id; }
      }
    }
  }

  /** The name stored for a row: upper-cased, then the suffix. */
  function Label(name: string, suffix: string): string {
    Upper(name) + suffix
  }

  /** `upper_dict(rows, suffix)`: every id maps to its upper-cased name with
      `suffix` appended, row after row, so that a later row with the same id
      overwrites an earlier one. The ids of the table are those of the rows. */
  function UpperDict(rows: seq<Row>, suffix: string): (t: Table)
    ensures t.Keys == Ids(rows)
    decreases |rows|
  {
    if rows == [] then map[]
    else
      var n := |rows| - 1;
      UpperDict(rows[..n], suffix)[rows[n].id := Label(rows[n].name, suffix)]
  }

  /** The table of a non-empty list of rows is that of all rows but the last,
      with the last row stored. */
  lemma UpperDictStep(rows: seq<Row>, suffix: string)
    requires rows != []
    ensures var n := |rows| - 1;
            UpperDict(rows, suffix) == UpperDict(rows[..n], suffix)[rows[n].id := Label(rows[n].name, suffix)]
  {
  }

  /** The last row that carries an id decides its name. */
  lemma {:induction false} UpperDictLastWins(rows: seq<Row>, suffix: string, k: nat)
    requires k < |rows| && LastWithId(rows, k)
    ensures rows[k].id in UpperDict(rows, suffix)
    ensures UpperDict(rows, suffix)[rows[k].id] == Label(rows[k].name, suffix)
    decreases |rows|
  {
    var n := |rows| - 1;
    UpperDictStep(rows, suffix);
    if k < n {
      var prefix := rows[..n];
      assert prefix[k] == rows[k];
      assert LastWithId(prefix, k);
      UpperDictLastWins(prefix, suffix, k);
    }
  }

  /** The table built with a suffix has the same ids as the plain table, and
      each name is the plain name followed by the suffix. */
  lemma {:induction false} UpperDictSuffix(rows: seq<Row>, suffix: string)
    ensures UpperDict(rows, suffix).Keys == UpperDict(rows, "").Keys
    ensures forall id :: id in UpperDict(rows, "") ==> UpperDict(rows, suffix)[id] == UpperDict(rows, "")[id] + suffix
    decreases |rows|
  {
    if rows != [] {
      var n := |rows| - 1;
      UpperDictStep(rows, suffix);
      UpperDictStep(rows, "");
      UpperDictSuffix(rows[..n], suffix);
      assert Label(rows[n].name, "") == Upper(rows[n].name);
    }
  }

  /** Every name of `t` is upper case. */
  predicate TableUpper(t: Table) {
    forall id :: id in t ==> IsUpper(t[id])
  }

  /** Every name of a table is upper case when the suffix is. */
  lemma {:induction false} UpperDictIsUpper(rows: seq<Row>, suffix: string)
    requires IsUpper(suffix)
    ensures TableUpper(UpperDict(rows, suffix))
    decreases |rows|
  {
    if rows != [] {
      var n := |rows| - 1;
      UpperDictStep(rows, suffix);
      UpperDictIsUpper(rows[..n], suffix);
      UpperConcat(Upper(rows[n].name), suffix);
    }
  }

  /** The dimensions every map gets from a dedicated table. */
  const FixedDimensions: set<string> :=
    {"technology", "final_energy", "supply_node", "supply_node_export", "subsector", "sector", "ghg"}

  /** Catalog names that the OtherIndexes loop skips. */
  predicate Reserved(name: string) {
    name == "technology" || name == "final_energy"
  }

  /** The `_supply` alias of the primary geography differs from the primary
      geography itself and from every fixed dimension. */
  lemma SupplyAliasIsNew(pg: string)
    ensures pg + "_supply" != pg
    ensures pg + "_supply" !in FixedDimensions
  {
    var a := pg + "_supply";
    assert a[|a| - 7..] == "_supply";
    assert "technology"[3..] != "_supply";
    assert "final_energy"[5..] != "_supply";
    assert "supply_node"[4..] != "_supply";
    assert "supply_node_export"[11..] != "_supply";
    assert "subsector"[2..] != "_supply";
  }

  /** The map right after the primary geography is stored: the geography and
      its `_supply` alias hold the same upper-cased member table. */
  function GeographyStage(pg: string, members: seq<Row>): (m: IdMap)
    ensures m.Keys == {pg, pg + "_supply"}
    ensures m[pg] == UpperDict(members, "") && m[pg + "_supply"] == m[pg]
  {
    SupplyAliasIsNew(pg);
    var t := UpperDict(members, "");
    map[pg := t][pg + "_supply" := t]
  }

  /** The tables of the fixed dimensions. */
  datatype FixedTables = FixedTables(
    technology: Table, finalEnergy: Table, supplyNode: Table, supplyNodeExport: Table,
    subsector: Table, sector: Table, ghg: Table)

  /** Each fixed dimension's table, read from its own reference table; the
      export table is the supply-node table read again with the " EXPORT"
      suffix. */
  function TablesOf(db: ReferenceData): (t: FixedTables)
    ensures t.supplyNodeExport.Keys == t.supplyNode.Keys
    ensures forall id :: id in t.supplyNode ==> t.supplyNodeExport[id] == t.supplyNode[id] + " EXPORT"
  {
    UpperDictSuffix(db.supplyNodes, " EXPORT");
    FixedTables(
      UpperDict(db.demandTechs, ""), UpperDict(db.finalEnergy, ""),
      UpperDict(db.supplyNodes, ""), UpperDict(db.supplyNodes, " EXPORT"),
      UpperDict(db.demandSubsectors, ""), UpperDict(db.demandSectors, ""),
      UpperDict(db.greenhouseGases, ""))
  }

  /** The map after the fixed dimensions are stored on top of `m`. */
  function FixedStage(m: IdMap, t: FixedTables): (r: IdMap)
    ensures r.Keys == m.Keys + FixedDimensions
    ensures forall d :: d in m && d !in FixedDimensions ==> r[d] == m[d]
  {
    m["technology" := t.technology]
     ["final_energy" := t.finalEnergy]
     ["supply_node" := t.supplyNode]
     ["supply_node_export" := t.supplyNodeExport]
     ["subsector" := t.subsector]
     ["sector" := t.sector]
     ["ghg" := t.ghg]
  }

  /** Each fixed dimension holds its own table, whatever `m` held before. */
  lemma FixedStageTables(m: IdMap, t: FixedTables)
    ensures var r := FixedStage(m, t);
            && r["technology"] == t.technology && r["final_energy"] == t.finalEnergy
            && r["supply_node"] == t.supplyNode && r["supply_node_export"] == t.supplyNodeExport
  {
  }

  /** The remaining fixed dimensions hold their own tables. */
  lemma FixedStageMoreTables(m: IdMap, t: FixedTables)
    ensures var r := FixedStage(m, t);
            && r["subsector"] == t.subsector && r["sector"] == t.sector && r["ghg"] == t.ghg
  {
  }

  /** The catalog names the OtherIndexes loop stores. */
  function ClaimedNames(others: seq<OtherIndex>): (names: set<string>)
    ensures forall k :: 0 <= k < |others| && !Reserved(others[k].name) ==> others[k].name in names
    ensures forall d :: d in names ==> !Reserved(d)
    decreases |others|
  {
    if others == [] then {}
    else
      var n := |others| - 1;
      assert forall k :: 0 <= k < n ==> others[..n][k] == others[k];
      ClaimedNames(others[..n]) + (if Reserved(others[n].name) then {} else {others[n].name})
  }

  /** The names claimed by a non-empty catalog: those of all rows but the
      last, and the last row's name unless it is reserved. */
  lemma ClaimedNamesStep(others: seq<OtherIndex>)
    requires others != []
    ensures var n := |others| - 1;
            ClaimedNames(others)
            == ClaimedNames(others[..n]) + (if Reserved(others[n].name) then {} else {others[n].name})
  {
  }

  /** A name is claimed exactly when some catalog row that is not reserved
      carries it. */
  lemma {:induction false} ClaimedNamesMembers(others: seq<OtherIndex>, d: string)
    ensures d in ClaimedNames(others) <==> exists k :: 0 <= k < |others| && !Reserved(others[k].name) && others[k].name == d
    decreases |others|
  {
    if others != [] {
      var n := |others| - 1;
      var prefix := others[..n];
      ClaimedNamesMembers(prefix, d);
      if d in ClaimedNames(prefix) {
        var k :| 0 <= k < n && !Reserved(prefix[k].name) && prefix[k].name == d;
        assert others[k] == prefix[k];
      }
      if exists k :: 0 <= k < |others| && !Reserved(others[k].name) && others[k].name == d {
        var k :| 0 <= k < |others| && !Reserved(others[k].name) && others[k].name == d;
        if k < n { assert prefix[k] == others[k]; }
      }
    }
  }

  /** Catalog row `k` is the last one with its name. */
  predicate LastNamed(others: seq<OtherIndex>, k: int)
    requires 0 <= k < |others|
  {
    forall j :: k < j < |others| ==> others[j].name != others[k].name
  }

  /** The table stored for a catalog row: its member rows, upper-cased. */
  function MemberTable(o: OtherIndex): Table {
    UpperDict(o.members, "")
  }

  /** The map after the OtherIndexes loop has run over `others` on top of `m`:
      reserved names are skipped and every other name is stored; the
      dimensions it ends up with are those of `m` and the claimed names. */
  function OtherStage(m: IdMap, others: seq<OtherIndex>): (r: IdMap)
    ensures r.Keys == m.Keys + ClaimedNames(others)
    decreases |others|
  {
    if others == [] then m
    else
      var n := |others| - 1;
      var row := others[n];
      var before := OtherStage(m, others[..n]);
      ClaimedNamesStep(others);
      if Reserved(row.name) then before else before[row.name := MemberTable(row)]
  }

  /** A dimension that no catalog row claims keeps the table it had. */
  lemma {:induction false} OtherStageKeeps(m: IdMap, others: seq<OtherIndex>, d: string)
    requires d in m && d !in ClaimedNames(others)
    ensures OtherStage(m, others)[d] == m[d]
    decreases |others|
  {
    if others != [] {
      var n := |others| - 1;
      ClaimedNamesStep(others);
      OtherStageStep(m, others);
      OtherStageKeeps(m, others[..n], d);
    }
  }

  /** A later catalog row with the same name overwrites an earlier one: each
      claimed name holds the table of the last row that carries it. */
  lemma {:induction false} OtherStageLastWins(m: IdMap, others: seq<OtherIndex>, k: nat)
    requires k < |others| && !Reserved(others[k].name) && LastNamed(others, k)
    ensures others[k].name in OtherStage(m, others)
    ensures OtherStage(m, others)[others[k].name] == MemberTable(others[k])
    decreases |others|
  {
    var n := |others| - 1;
    OtherStageStep(m, others);
    if k < n {
      var prefix := others[..n];
      assert prefix[k] == others[k];
      assert LastNamed(prefix, k);
      assert others[k].name != others[n].name;
      OtherStageLastWins(m, prefix, k);
    }
  }

  /** The map after a non-empty catalog: the map after all rows but the last,
      with the last row skipped when reserved and stored otherwise. */
  lemma OtherStageStep(m: IdMap, others: seq<OtherIndex>)
    requires others != []
    ensures var n := |others| - 1;
            OtherStage(m, others)
            == if Reserved(others[n].name) then OtherStage(m, others[..n])
               else OtherStage(m, others[..n])[others[n].name := MemberTable(others[n])]
  {
  }

  /** One more catalog row: skipped when reserved, stored otherwise. */
  lemma OtherStageSnoc(m: IdMap, others: seq<OtherIndex>, i: nat)
    requires i < |others|
    ensures OtherStage(m, others[..i + 1])
            == if Reserved(others[i].name) then OtherStage(m, others[..i])
               else OtherStage(m, others[..i])[others[i].name := MemberTable(others[i])]
  {
    OtherStageStep(m, others[..i + 1]);
    assert others[..i + 1][..i] == others[..i];
    assert others[..i + 1][i] == others[i];
  }

  /** The outputs id map that the builder produces. Its dimensions are the
      primary geography, its `_supply` alias, the seven fixed dimensions and
      the claimed catalog names. */
  function IdMapSpec(pg: string, db: ReferenceData): (m: IdMap)
    ensures m.Keys == {pg, pg + "_supply"} + FixedDimensions + ClaimedNames(db.otherIndexes)
  {
    OtherStage(FixedStage(GeographyStage(pg, db.geographyMembers), TablesOf(db)), db.otherIndexes)
  }

  /** `technology` and `final_energy` keep their dedicated tables whatever the
      catalog holds. */
  lemma ReservedDimensionsKept(pg: string, db: ReferenceData)
    ensures var m := IdMapSpec(pg, db);
            && m["technology"] == UpperDict(db.demandTechs, "")
            && m["final_energy"] == UpperDict(db.finalEnergy, "")
  {
    var fixed := FixedStage(GeographyStage(pg, db.geographyMembers), TablesOf(db));
    assert "technology" !in ClaimedNames(db.otherIndexes);
    assert "final_energy" !in ClaimedNames(db.otherIndexes);
    FixedStageTables(GeographyStage(pg, db.geographyMembers), TablesOf(db));
    OtherStageKeeps(fixed, db.otherIndexes, "technology");
    OtherStageKeeps(fixed, db.otherIndexes, "final_energy");
  }

  /** Unless a fixed dimension or a catalog row reuses one of the two names,
      the finished map still holds the same member table under the primary
      geography and under its `_supply` alias. */
  lemma PrimaryGeographyShared(pg: string, db: ReferenceData)
    requires pg !in FixedDimensions
    requires pg !in ClaimedNames(db.otherIndexes) && pg + "_supply" !in ClaimedNames(db.otherIndexes)
    ensures var m := IdMapSpec(pg, db);
            && pg in m && pg + "_supply" in m
            && m[pg] == UpperDict(db.geographyMembers, "")
            && m[pg + "_supply"] == m[pg]
  {
    SupplyAliasIsNew(pg);
    var geo := GeographyStage(pg, db.geographyMembers);
    var fixed := FixedStage(geo, TablesOf(db));
    assert fixed[pg] == geo[pg] && fixed[pg + "_supply"] == geo[pg + "_supply"];
    OtherStageKeeps(fixed, db.otherIndexes, pg);
    OtherStageKeeps(fixed, db.otherIndexes, pg + "_supply");
  }

  /** Unless a catalog row reuses `supply_node` or `supply_node_export`, the
      export table has exactly the supply-node ids, each named as the supply
      node followed by " EXPORT". */
  lemma ExportMirrorsSupplyNode(pg: string, db: ReferenceData)
    requires "supply_node" !in ClaimedNames(db.otherIndexes)
    requires "supply_node_export" !in ClaimedNames(db.otherIndexes)
    ensures var m := IdMapSpec(pg, db);
            && "supply_node" in m && "supply_node_export" in m
            && m["supply_node_export"].Keys == m["supply_node"].Keys
            && forall id :: id in m["supply_node"] ==> m["supply_node_export"][id] == m["supply_node"][id] + " EXPORT"
  {
    var fixed := FixedStage(GeographyStage(pg, db.geographyMembers), TablesOf(db));
    FixedStageTables(GeographyStage(pg, db.geographyMembers), TablesOf(db));
    OtherStageKeeps(fixed, db.otherIndexes, "supply_node");
    OtherStageKeeps(fixed, db.otherIndexes, "supply_node_export");
    UpperDictSuffix(db.supplyNodes, " EXPORT");
  }

  /** Every table of `m` holds upper-case names only. */
  predicate NamesUpper(m: IdMap) {
    forall d :: d in m ==> TableUpper(m[d])
  }

  /** Storing the fixed dimensions keeps all names upper case when their
      tables are. */
  lemma FixedStageKeepsUpper(m: IdMap, t: FixedTables)
    requires NamesUpper(m)
    requires TableUpper(t.technology) && TableUpper(t.finalEnergy) && TableUpper(t.supplyNode)
    requires TableUpper(t.supplyNodeExport) && TableUpper(t.subsector) && TableUpper(t.sector)
    requires TableUpper(t.ghg)
    ensures NamesUpper(FixedStage(m, t))
  {
    FixedStageTables(m, t);
    FixedStageMoreTables(m, t);
  }

  /** The catalog loop keeps all names upper case. */
  lemma {:induction false} OtherStageKeepsUpper(m: IdMap, others: seq<OtherIndex>)
    requires NamesUpper(m)
    ensures NamesUpper(OtherStage(m, others))
    decreases |others|
  {
    if others != [] {
      var n := |others| - 1;
      OtherStageStep(m, others);
      OtherStageKeepsUpper(m, others[..n]);
      UpperDictIsUpper(others[n].members, "");
    }
  }

  /** Every name in the outputs id map is upper case. */
  lemma AllNamesUpper(pg: string, db: ReferenceData)
    ensures NamesUpper(IdMapSpec(pg, db))
  {
    assert IsUpper("");
    assert IsUpper(" EXPORT");
    var geo := GeographyStage(pg, db.geographyMembers);
    UpperDictIsUpper(db.geographyMembers, "");
    assert NamesUpper(geo);
    UpperDictIsUpper(db.demandTechs, "");
    UpperDictIsUpper(db.finalEnergy, "");
    UpperDictIsUpper(db.supplyNodes, "");
    UpperDictIsUpper(db.supplyNodes, " EXPORT");
    UpperDictIsUpper(db.demandSubsectors, "");
    UpperDictIsUpper(db.demandSectors, "");
    UpperDictIsUpper(db.greenhouseGases, "");
    FixedStageKeepsUpper(geo, TablesOf(db));
    OtherStageKeepsUpper(FixedStage(geo, TablesOf(db)), db.otherIndexes);
  }

  /** The output currency label: the currency year, a space, the currency name. */
  function OutputCurrency(currencyYearId: string, currencyName: string): (r: string)
    ensures |r| == |currencyYearId| + 1 + |currencyName|
    ensures r[..|currencyYearId|] == currencyYearId && r[|currencyYearId|] == ' '
    ensures r[|currencyYearId| + 1..] == currencyName
  {
    currencyYearId + " " + currencyName
  }

  /** When the year id has no space, the label splits back at its first space
      into the year id and the currency name. */
  lemma OutputCurrencySplits(currencyYearId: string, currencyName: string)
    requires ' ' !in currencyYearId
    ensures var r := OutputCurrency(currencyYearId, currencyName);
            var k := FirstIndex(r, ' ');
            && k == |currencyYearId|
            && r[..k] == currencyYearId
            && r[k + 1..] == currencyName
  {
    var r := OutputCurrency(currencyYearId, currencyName);
    assert r == currencyYearId + (" " + currencyName);
    FirstIndexAfterPrefix(currencyYearId, " " + currencyName, ' ');
  }

  /** The OtherIndexes loop of the builder: each catalog row whose name is not
      reserved stores its member table under that name. */
  method StoreOtherIndexes(start: IdMap, others: seq<OtherIndex>) returns (m: IdMap)
    ensures m == OtherStage(start, others)
  {
    m := start;
    var i := 0;
    while i < |others|
      invariant 0 <= i <= |others|
      invariant m == OtherStage(start, others[..i])
    {
      var row := others[i];
      OtherStageSnoc(start, others, i);
      if !(row.name == "technology" || row.name == "final_energy") {
        m := m[row.name := MemberTable(row)];
      }
      i := i + 1;
    }
    assert others[..i] == others;
  }

  /** `init_outputs_id_map`: splits the output levels, substitutes the primary
      geography for its placeholder, builds the currency label and fills the
      outputs id map key by key. */
  method InitOutputsIdMap(settings: OutputSettings, db: ReferenceData) returns (out: OutputsConfig)
    ensures out.currencyName == db.currencyName
    ensures out.outputCurrency == OutputCurrency(settings.currencyYearId, db.currencyName)
    ensures var tokens := Split(settings.outputLevels, ", ");
            var k := FirstIndex(tokens, "primary_geography");
            && |out.outputLevels| == |tokens|
            && ("primary_geography" !in tokens ==> out.outputLevels == tokens)
            && ("primary_geography" in tokens ==> out.outputLevels[k] == settings.primaryGeography)
            && (forall j :: 0 <= j < |tokens| && j != k ==> out.outputLevels[j] == tokens[j])
    ensures out.idMap == IdMapSpec(settings.primaryGeography, db)
  {
    var pg := settings.primaryGeography;
    var currencyName := db.currencyName;
    var levels := Split(settings.outputLevels, ", ");
    var currency := OutputCurrency(settings.currencyYearId, currencyName);
    var m: IdMap := map[];
    if "primary_geography" in levels {
      levels := levels[FirstIndex(levels, "primary_geography") := pg];
    }
    m := m[pg := UpperDict(db.geographyMembers, "")];
    m := m[pg + "_supply" := m[pg]];
    assert m == GeographyStage(pg, db.geographyMembers);
    m := m["technology" := UpperDict(db.demandTechs, "")];
    m := m["final_energy" := UpperDict(db.finalEnergy, "")];
    m := m["supply_node" := UpperDict(db.supplyNodes, "")];
    m := m["supply_node_export" := UpperDict(db.supplyNodes, " EXPORT")];
    m := m["subsector" := UpperDict(db.demandSubsectors, "")];
    m := m["sector" := UpperDict(db.demandSectors, "")];
    m := m["ghg" := UpperDict(db.greenhouseGases, "")];
    assert m == FixedStage(GeographyStage(pg, db.geographyMembers), TablesOf(db));
    m := StoreOtherIndexes(m, db.otherIndexes);
    out := OutputsConfig(currencyName, levels, currency, m);
  }
}
