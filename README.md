# energyPATHWAYS configuration bootstrap, modelled in Dafny

energyPATHWAYS is an energy-system scenario model. Before a run, `config.py`
reads a sectioned configuration file and the reference database. From them it
derives the values every later stage reads:

- the simulation years (`years`) and the supply-side years (`supply_years`);
- the database connection string and the descriptor handed to the
  data-access layer;
- the parsed `output_levels`, with the primary geography substituted for its
  placeholder;
- the output currency label;
- the outputs id map: one id-to-upper-case-name table per output dimension.

This project models that logic as Dafny functions and methods over values
that have already been read. Configuration values are given as already-parsed
integers and strings. Database tables are given as sequences of `(id, name)`
rows.

- `text.dfy` (module `Text`) holds the Python built-ins the code relies on:
  - `str.upper` (ASCII letters only);
  - `list.index` guarded by `in`;
  - `str.split` with a non-empty separator;
  - `str.join`, the inverse used to state what `split` keeps.
- `years.dfy` (module `Years`) holds Python's `range` for a positive step and
  the two year sequences built from it.
- `connection.dfy` (module `Connection`) holds the connection-string and
  descriptor construction of `init_db`. It also has a reader for
  `key='value'` clauses, used to state what the string carries.
- `outputs.dfy` (module `Outputs`) holds `init_outputs_id_map`:
  - `StoreOtherIndexes` and `InitOutputsIdMap` are imperative methods that
    fill the map key by key, just as the source does. The OtherIndexes loop
    is a `while` loop with an invariant.
  - The specification functions `GeographyStage`, `FixedStage` and
    `OtherStage` describe the map after each group of assignments.
  - Lemmas state the properties of the finished map.

`util.upper_dict` and `util.sql_read_table` live in
`energyPATHWAYS/util.py`, which is not part of this model. `upper_dict(rows,
suffix)` is modelled from its call sites: rows are stored in order, each id
maps to the upper-cased name followed by `suffix`, and a later row with the
same id overwrites an earlier one.

## Model

| member | source | states |
|---|---|---|
| Years.Range | energyPATHWAYS/config.py:80-85 | `range(start, stop, step)` for `step >= 1`: it is empty exactly when `start >= stop`; element `i` is `start + i*step`; the last element is below `stop` and one more step would reach `stop` or beyond |
| Years.RangeLength | energyPATHWAYS/config.py:80-85 | a non-empty range has `(stop - start - 1) / step + 1` elements |
| Years.RangeSuffix | energyPATHWAYS/config.py:80-85 | starting a range `k` steps later drops exactly its first `k` elements |
| Years.YearSeq | energyPATHWAYS/config.py:80-85 | `range(first, last + 1, step)`: every element is at most `last`, neighbours differ by exactly `step`, the sequence starts at `first` and has `(last - first) / step + 1` elements when `first <= last`, and is empty otherwise |
| Years.RangeBelowStop | energyPATHWAYS/config.py:80-85 | every element of a range is below its stop |
| Years.RangeRises | energyPATHWAYS/config.py:80-85 | neighbouring elements of a range are one step apart |
| Years.RangeMemberOnGrid | energyPATHWAYS/config.py:80-85 | every element of a range lies in `[start, stop)` a whole number of steps from `start` |
| Years.RangeGridMember | energyPATHWAYS/config.py:80-85 | every value in `[start, stop)` a whole number of steps from `start` is an element of the range |
| Years.YearSeqMembers | energyPATHWAYS/config.py:80-85 | a year is in the sequence if and only if it lies between the bounds and is a whole number of steps from the first year |
| Years.AscendingByStep | energyPATHWAYS/config.py:80-85 | a sequence that rises by a positive step between neighbours is strictly increasing |
| Years.SimulationYears | energyPATHWAYS/config.py:80-82 | `years` holds exactly the years from `start_year` to `end_year` on the `year_step` grid, in strictly ascending order |
| Years.SupplyYears | energyPATHWAYS/config.py:83-85 | `supply_years` holds exactly the years from `current_year` to `end_year` on the `year_step` grid, in strictly ascending order |
| Years.SupplyYearsAreTail | energyPATHWAYS/config.py:80-85 | when `current_year` lies on the simulation grid, `supply_years` is the tail of `years` that starts at `current_year` |
| Years.Examples | energyPATHWAYS/config.py:80-85 | 2020 to 2025 in steps of one gives six years; supply years from 2022 are 2022 to 2025 |
| Text.Upper | energyPATHWAYS/config.py:145-157 | the upper-cased name has the input's length; each ASCII lower-case letter becomes its upper-case partner (code point minus 32) and every other character is kept, so the result holds no lower-case letter |
| Text.UpperOfUpper | energyPATHWAYS/config.py:145-157 | upper-casing is idempotent on upper-case strings |
| Text.UpperConcat | energyPATHWAYS/config.py:150 | appending an upper-case suffix keeps a name upper case |
| Text.FirstIndex | energyPATHWAYS/config.py:141-142 | `output_levels.index(x)`: the first position holding `x`; no earlier position holds it; it equals the length exactly when `x` is absent |
| Text.FirstIndexAfterPrefix | energyPATHWAYS/config.py:139 | the first occurrence of `x` in `a + b` is at `a`'s length when `a` lacks `x` and `b` starts with it |
| Text.FindFrom | energyPATHWAYS/config.py:138 | the leftmost occurrence of the separator at or after a position, or the length when there is none |
| Text.FindSub | energyPATHWAYS/config.py:138 | the leftmost occurrence of the separator, or the length when the string does not contain it |
| Text.NoMatchBeforeFirst | energyPATHWAYS/config.py:138 | no occurrence of the separator lies inside the part before the leftmost one |
| Text.Split | energyPATHWAYS/config.py:138 | `split(', ')` gives at least one piece, and exactly the whole string when the separator does not occur |
| Text.SplitPiecesLackSeparator | energyPATHWAYS/config.py:138 | no piece of the split contains the separator |
| Text.JoinSplit | energyPATHWAYS/config.py:138 | joining the pieces with the separator gives back the input |
| Connection.ParseClauseRender | energyPATHWAYS/config.py:97-99 | a clause with no `=` in its key and no quote in its value is read back off the front of its rendering |
| Connection.ParseRender | energyPATHWAYS/config.py:97-99 | reading back space-separated rendered clauses gives exactly those clauses |
| Connection.FormatPieces | energyPATHWAYS/config.py:97 | the fixed format is the host, dbname and user clauses joined by single spaces |
| Connection.BaseIsRendered | energyPATHWAYS/config.py:97 | the fixed format, followed by further clauses, is the rendering of all clauses |
| Connection.EffectiveHost | energyPATHWAYS/config.py:91-93 | the host used is never empty, and a configured non-empty host is used unchanged; an empty one becomes `localhost` (see `ConnectionStringAgreesWithDescriptor`) |
| Connection.ConnectionString | energyPATHWAYS/config.py:91-99 | the connection string is exactly the rendering of the clauses host (the effective host), dbname and user, followed by a password clause only when the password is non-empty |
| Connection.DataSourceSettings | energyPATHWAYS/config.py:101-109 | the descriptor names the postgres driver and port 5432, and its host, database, user and password are exactly the values the connection string's clauses carry, the password clause present exactly when the descriptor's password is non-empty |
| Connection.ConnectionStringAgreesWithDescriptor | energyPATHWAYS/config.py:91-109 | the descriptor's host is `localhost` when the configured host is empty and the configured host otherwise; when no value holds a quote, the connection string reads back as host, dbname and user from the descriptor, plus a password clause exactly when the password is non-empty |
| Outputs.IdsMembers | energyPATHWAYS/config.py:145-157 | an id is among a table's row ids exactly when some row carries it |
| Outputs.UpperDict | energyPATHWAYS/config.py:145-157 | the ids of an `upper_dict` table are exactly the ids of its rows |
| Outputs.UpperDictLastWins | energyPATHWAYS/config.py:145-157 | the last row carrying an id decides its name: the upper-cased row name followed by the suffix |
| Outputs.UpperDictSuffix | energyPATHWAYS/config.py:148-150 | the table read with a suffix has the same ids as the plain table, and each name is the plain name followed by the suffix |
| Outputs.UpperDictIsUpper | energyPATHWAYS/config.py:145-157 | with an upper-case suffix, every name in the table is upper case |
| Outputs.SupplyAliasIsNew | energyPATHWAYS/config.py:145-146 | the `_supply` alias differs from the primary geography and from every fixed dimension name |
| Outputs.GeographyStage | energyPATHWAYS/config.py:145-146 | right after line 146 the map has exactly the primary geography and its `_supply` alias, both holding the upper-cased geography-member table |
| Outputs.TablesOf | energyPATHWAYS/config.py:147-153 | the export table read from the supply nodes with the " EXPORT" suffix has exactly the supply-node table's ids, each name being the supply-node name followed by " EXPORT" |
| Outputs.FixedStage | energyPATHWAYS/config.py:147-153 | the fixed dimensions are added to the map's keys, and every other dimension keeps its table |
| Outputs.FixedStageTables | energyPATHWAYS/config.py:147-150 | `technology`, `final_energy`, `supply_node` and `supply_node_export` each hold their own table |
| Outputs.FixedStageMoreTables | energyPATHWAYS/config.py:151-153 | `subsector`, `sector` and `ghg` each hold their own table |
| Outputs.ClaimedNames | energyPATHWAYS/config.py:154-157 | every catalog name other than `technology` and `final_energy` is claimed, and neither of those two ever is |
| Outputs.ClaimedNamesMembers | energyPATHWAYS/config.py:154-157 | a name is claimed exactly when some catalog row that is not skipped carries it |
| Outputs.OtherStage | energyPATHWAYS/config.py:154-157 | after the OtherIndexes loop the map's keys are its earlier keys plus the claimed catalog names |
| Outputs.OtherStageKeeps | energyPATHWAYS/config.py:154-157 | a dimension that no catalog row claims keeps the table it had before the loop |
| Outputs.OtherStageLastWins | energyPATHWAYS/config.py:154-157 | a claimed name holds the member table of the last catalog row carrying it, so later rows overwrite earlier ones |
| Outputs.OtherStageSnoc | energyPATHWAYS/config.py:154-157 | one more loop iteration skips a reserved row and stores any other row's table under its name |
| Outputs.StoreOtherIndexes | energyPATHWAYS/config.py:154-157 | the loop leaves exactly the map that `OtherStage` describes |
| Outputs.IdMapSpec | energyPATHWAYS/config.py:145-157 | the finished map's dimensions are the primary geography, its `_supply` alias, the seven fixed dimensions and the claimed catalog names |
| Outputs.ReservedDimensionsKept | energyPATHWAYS/config.py:147-148 | `technology` and `final_energy` still hold the DemandTechs and FinalEnergy tables after the loop, whatever the catalog holds |
| Outputs.PrimaryGeographyShared | energyPATHWAYS/config.py:145-146 | unless a fixed dimension or a catalog row reuses one of the two names, the finished map holds the same geography table under the primary geography and under its `_supply` alias |
| Outputs.ExportMirrorsSupplyNode | energyPATHWAYS/config.py:149-150 | unless a catalog row reuses the names, `supply_node_export` has exactly the ids of `supply_node`, each named as the supply node followed by " EXPORT" |
| Outputs.FixedStageKeepsUpper | energyPATHWAYS/config.py:147-153 | storing upper-case fixed tables keeps every name in the map upper case |
| Outputs.OtherStageKeepsUpper | energyPATHWAYS/config.py:154-157 | the catalog loop keeps every name in the map upper case |
| Outputs.AllNamesUpper | energyPATHWAYS/config.py:145-157 | every name in every table of the finished map is upper case |
| Outputs.OutputCurrency | energyPATHWAYS/config.py:139 | the label is the currency year id, then one space at the year id's length, then the currency name, and nothing else |
| Outputs.OutputCurrencySplits | energyPATHWAYS/config.py:139 | when the currency year id has no space, the output currency label splits at its first space back into the year id and the currency name |
| Outputs.InitOutputsIdMap | energyPATHWAYS/config.py:135-157 | publishes the currency name and the label `currency_year_id + " " + currency_name`; the output levels keep the split's length and positions, with only the first `primary_geography` token replaced when present and exactly the split otherwise; the id map is the one the stage functions describe |

## Left out

- `util.create_weibul_coefficient_of_variation` (energyPATHWAYS/config.py:56) is floating-point numerics, and its code is not part of this model.
- ConfigParser reading and `cfgfile.set` (energyPATHWAYS/config.py:65-85) are file I/O and global state. Configuration values are parameters. A failing `int(...)` is outside the model, because values arrive already parsed.
- Years.Range: a `year_step` of zero or less is excluded by a precondition. Python raises an error for zero and yields a descending or empty range for negative steps; neither is modelled.
- `data_source.init`, `psycopg2.connect` and the cursor (energyPATHWAYS/config.py:110-114) are database I/O. The model builds the string and the descriptor and stops there.
- Connection.ConnectionStringAgreesWithDescriptor: requires that no configured value holds a single quote. The source inserts values into the string without escaping, so such a value would change how the string reads. The string itself is still built for every input. The model's clause reader also ignores the backslash escapes that libpq honours inside quoted values, so a value holding a backslash reads back as itself here but not with libpq.
- A missing `pg_host` option: the code only treats an empty value as absent, because `cfgfile.get` on a missing option raises. The model follows the code: only the empty host falls back to `localhost`.
- `pint` and the definitions-file check (energyPATHWAYS/config.py:116-124) belong to an external library and the file system.
- `geography.Geography()` (energyPATHWAYS/config.py:129) is an external collaborator.
- `init_electricity_energy_type` (energyPATHWAYS/config.py:131-133) is a single lookup with no logic of its own.
- The `Currencies` and `Geographies` lookups (energyPATHWAYS/config.py:137, 143) and every table query are inputs. `sql_read_table`'s filtering, uniqueness and error behaviour are not modelled: each input sequence is taken as the rows the query returns.
- Text.Upper: upper-cases ASCII letters only; Python's Unicode case mapping is not modelled.
- The debug `print` (energyPATHWAYS/config.py:144) and the module-global bookkeeping are left out.
- Outputs.GeographyStage: the two keys hold equal tables. Whether they are the same object is not modelled, because Dafny maps hold values.
- `defaultdict(dict)` returns an empty table when a missing dimension is read. The model's map has no default: a dimension absent from the finished map is simply not a key. The code never adds the dimensions named in `output_levels` as keys; the model follows the code.
- A duplicate catalog name overwrites silently, as the code does. It does not fail.
- The `supply_node` and `supply_node_export` tables come from two separate `SupplyNodes` queries (energyPATHWAYS/config.py:149-150). The model takes both to return the same rows, `supplyNodes`; `ExportMirrorsSupplyNode` and `TablesOf` depend on that.
