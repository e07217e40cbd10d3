# TeamCity builds/VCS-root report — a Dafny model

`teamcity-vcs.py` prints a CSV report of every build configuration on a
TeamCity server together with the names of the VCS roots attached to it. It
walks projects, then each project's build configurations, then each
configuration's VCS root entries, and resolves each entry's root id to a root
name. The resulting `(build id, build name, root name)` rows go into a set,
and the set is printed in ascending tuple order under a header line.

This project models that report in Dafny:

- `teamcity.dfy` (module `TeamCity`): the entities (project, build
  configuration, VCS root entry, report row) and the server as an immutable
  snapshot. Each REST endpoint is a total function from an id to a
  `Response` (`Ok`, `NotFound` or `Failed`). The four accessors
  `get_all_projects`, `get_build_types`, `get_vcs_root_entries` and
  `get_vcs_root_name` are pure lookups that turn every failure into `[]` or
  no name, as the tool does.
- `aggregation.dfy` (module `Aggregation`): `get_all_build_details` as an
  imperative method with the source's three nested loops. The project loop
  sits in `GetAllBuildDetails`, the build-type loop in `AddProjectRows` (the
  body of the project loop's `try`), and the entries loop in
  `AddBuildTypeRows` (the build-type loop's body). They add to one set; the
  project loop models the per-project `try`/`except` and ends by listing the
  set. The method is proved equal to a specification made of one fold per
  loop. Each fold records the rows added and whether an exception escaped.
- `aggregation_properties.dfy` (module `AggregationProperties`): closed,
  fold-free descriptions of each loop, plus the report's rules derived from
  them.
- `ordering.dfy` (module `Ordering`): Python's `<` on strings and on row
  tuples (proved a strict total order), and `sorted` as an insertion sort. It
  proves the ascending arrangement of a multiset of rows is unique.
- `report.dfy` (module `Report`): `main` — the header, then the rows in
  ascending order.

Exceptions the model reproduces inside a project's `try` block:

- a project without `id`;
- a build configuration without `id` or `name`;
- an entry whose `vcs-root` is JSON `null` (`None.get`).

Each abandons the rest of that project and keeps the rows already added. If
such a project also lacks `name`, the `except` handler itself raises while
formatting its message. That exception escapes the aggregation, and no report
is printed (`Outcome.Crashed`).

Rows have three fields and no root-id column (teamcity-vcs.py:78, 102, 105,
123).

## Model

| member | source | states |
|---|---|---|
| TeamCity.GetAllProjects | teamcity-vcs.py:31-39 | A successful project listing yields its projects; any failed request yields the empty list. |
| TeamCity.GetBuildTypes | teamcity-vcs.py:41-48 | A successful lookup yields the project's build configurations; any failure, 404 included, yields the empty list. |
| TeamCity.GetVcsRootEntries | teamcity-vcs.py:50-59 | A successful lookup yields the build configuration's entries; a 404 or any other failure yields the empty list. |
| TeamCity.GetVcsRootName | teamcity-vcs.py:61-71 | A successful lookup yields the root's `name`, possibly absent; a 404 or any other failure yields no name. |
| Aggregation.EntryStep | teamcity-vcs.py:97-102 | An entry raises iff its `vcs-root` is null. It adds a row only when its `vcs-root.id` is truthy and the server names that root with the non-empty name of the row. An entry whose root lookup fails adds nothing. |
| Aggregation.EntriesRows | teamcity-vcs.py:96-102 | Every row the entries loop adds carries the build configuration's id and name. |
| Aggregation.BuildTypeRows | teamcity-vcs.py:90-105 | A build configuration without `id` or `name` raises before adding anything. Every row it adds carries its own id and name. Without entries it adds exactly the row (id, name, "No VCS Root") and does not raise. |
| Aggregation.BuildTypesRows | teamcity-vcs.py:89-105 | An empty list of build configurations adds nothing and does not raise; a list of one is exactly that build configuration's loop body. AggregationProperties.BuildTypesRowsExact gives the full description. |
| Aggregation.BuildTypesRowsListed | teamcity-vcs.py:89-105 | Every row the build-type loop adds carries the id and name of a build configuration in the list. |
| Aggregation.ProjectRows | teamcity-vcs.py:86-89 | A project without `id` raises before adding anything. A project whose build-type lookup fails adds nothing and does not raise. |
| Aggregation.ProjectsRows | teamcity-vcs.py:85-109 | The project loop can fail only if some project lacks `name`. |
| Aggregation.BuildDetails | teamcity-vcs.py:80-111 | If the project listing fails, the aggregation returns the empty set. It can fail only if some listed project lacks `name`. |
| Aggregation.GetAllBuildDetails | teamcity-vcs.py:74-111 | The loops crash exactly when the specification does. Otherwise they return a list without duplicates holding exactly the specification's rows. |
| Aggregation.AddProjectRows | teamcity-vcs.py:86-105 | Processing one project inside its `try` adds exactly the rows of the specification's project step to the set. It raises exactly when that step raises. |
| Aggregation.AddBuildTypeRows | teamcity-vcs.py:90-105 | Processing one build configuration adds exactly the rows of the specification's step to the set. It raises exactly when the step raises. |
| Aggregation.ListOf | teamcity-vcs.py:111 | `list(...)` of the set holds each of its rows exactly once. |
| Aggregation.EntriesRaisedFinal | teamcity-vcs.py:96-102 | Once an entry has raised, the remaining entries of the loop add nothing. |
| Aggregation.BuildTypesRaisedFinal | teamcity-vcs.py:86-109 | Once a build configuration has raised, the remaining build configurations of the project add nothing. |
| Aggregation.CrashedFinal | teamcity-vcs.py:107-108 | Once the handler has raised on a nameless project, the whole aggregation fails, whatever projects follow. |
| AggregationProperties.EntriesRowsExact | teamcity-vcs.py:96-102 | The entries loop raises iff some entry raises. A row is added iff it carries the build's id and name and some entry before the first raising entry resolves to its root name. |
| AggregationProperties.BuildTypesRaisedExact | teamcity-vcs.py:86-109 | A project's build-type loop raises iff some build configuration raises. |
| AggregationProperties.BuildTypesRowsSound | teamcity-vcs.py:89-105 | Every row of the build-type loop comes from a build configuration that no earlier one's exception cut off. |
| AggregationProperties.BuildTypesRowsComplete | teamcity-vcs.py:89-105 | Every row of a build configuration that no earlier one's exception cut off is a row of the build-type loop. |
| AggregationProperties.BuildTypesRowsExact | teamcity-vcs.py:89-105 | A project's build-type loop raises iff some build configuration raises. Its rows are those of the build configurations up to and including the first one that raises. |
| AggregationProperties.ProjectsRowsExact | teamcity-vcs.py:85-109 | The aggregation fails iff some project raises and lacks a name. Otherwise its rows are the union of every project's partial rows. |
| AggregationProperties.ProjectsCrashedExact | teamcity-vcs.py:85-109 | The aggregation fails iff some project raises and lacks a name. |
| AggregationProperties.EntryAddsIffResolved | teamcity-vcs.py:97-102 | An entry adds a row with root name n iff its `vcs-root.id` is truthy and the root lookup succeeds with the non-empty name n. It raises iff `vcs-root` is null. |
| AggregationProperties.SentinelForNoEntries | teamcity-vcs.py:94-105 | An entries lookup that gives an empty list, a 404 or an error yields exactly the row (id, name, "No VCS Root") and no exception. |
| AggregationProperties.ResolvedEntriesContribution | teamcity-vcs.py:96-102 | With non-empty entries, none raising, the build configuration adds exactly one row per resolving entry and nothing else. |
| AggregationProperties.UnresolvedEntriesContributeNothing | teamcity-vcs.py:96-105 | With non-empty entries of which none resolves, the build configuration adds no row, not even the sentinel. |
| AggregationProperties.ProjectListFailureEmptyReport | teamcity-vcs.py:31-39 | If the project list cannot be fetched, the aggregation returns the empty set. |
| AggregationProperties.BuildTypesFailureContributesNothing | teamcity-vcs.py:41-48 | A project whose build-type lookup fails adds no row and raises nothing. |
| AggregationProperties.RaisingBuildTypeKeepsEarlierRows | teamcity-vcs.py:86-109 | When build configuration j is the first to raise, the project keeps the rows of those before j and what j added, then stops with an exception. |
| AggregationProperties.SentinelReachesReport | teamcity-vcs.py:103-105 | A reached build configuration without entries puts its sentinel row in the final report. |
| AggregationProperties.LaterProjectsStillProcessed | teamcity-vcs.py:107-109 | A row added by any project, including one after a project that raised, is in the final report, unless some raising project lacks a name. |
| AggregationProperties.ExampleNoEntries | teamcity-vcs.py:94-105 | Example: project P1 with build B1 and no entries gives exactly {("B1", "Build", "No VCS Root")}. |
| AggregationProperties.ExampleOneRoot | teamcity-vcs.py:96-102 | Example: two entries for root V1 named RepoA give the single row ("B1", "Build", "RepoA"). |
| Ordering.StrLess | teamcity-vcs.py:126 | Python string `<`: no string is less than itself, and a proper prefix is less than the longer string. |
| Ordering.RowLess | teamcity-vcs.py:126 | Python tuple `<` on rows: no row is less than itself, and rows with different build ids are ordered by build id. |
| Ordering.StrLessIrreflexive | teamcity-vcs.py:126 | Python string `<` is irreflexive. |
| Ordering.StrLessTransitive | teamcity-vcs.py:126 | Python string `<` is transitive. |
| Ordering.StrLessTotal | teamcity-vcs.py:126 | Any two different strings are ordered one way or the other. |
| Ordering.RowLessStrictTotal | teamcity-vcs.py:126 | Lexicographic `<` on (build id, build name, root name) tuples is a strict total order. |
| Ordering.Insert | teamcity-vcs.py:126 | Inserting into an ascending list gives an ascending list with the same elements plus the new one. |
| Ordering.Sort | teamcity-vcs.py:126 | `sorted` returns an ascending permutation of its input. |
| Ordering.AscendingUnique | teamcity-vcs.py:126 | Two ascending lists with the same multiset of rows are equal. |
| Ordering.SortWithoutDuplicates | teamcity-vcs.py:126 | Sorting a list without duplicates gives a strictly ascending list of the same rows. |
| Report.InOrder | teamcity-vcs.py:126 | The rows of a set, each once, in strictly ascending tuple order. |
| Report.SortOfAnyListing | teamcity-vcs.py:111-126 | However `list(...)` orders the set, `sorted` yields the same sequence. Two runs over the same server print the same report. |
| Report.WriteLines | teamcity-vcs.py:122-127 | The header line comes first, then line i+1 holds the three cells of row i, in the given order. |
| Report.BuildsReport | teamcity-vcs.py:114-127 | If the aggregation raises, no CSV line is written. Otherwise the output is the header `Build ID, Build Name, VCS Root Name`, then one line per row in ascending order. |

## Left out

- HTTP requests, headers, bearer token, `raise_for_status` and JSON decoding (teamcity-vcs.py:26-71) are not modelled. The server is a snapshot of responses; every non-404 failure is one `Failed` response.
- A response body that is not valid JSON is not modelled. Neither is a list key holding something other than a list. A body whose list key is missing is modelled as an empty list.
- Ids and names are modelled as strings, absent or present, and an absent project or build-type `id` or `name` raises `KeyError`. JSON `null` in those places is not modelled: a null project `id` does not raise but requests `id:None` (teamcity-vcs.py:87), and a null build `name` puts `None` into a row, which can make `sorted` raise `TypeError` after the header is written (teamcity-vcs.py:126). JSON numbers, booleans or objects in those places, and their Python truthiness, are not modelled either. Nor are other JSON shapes of a VCS root entry: an entry that is not an object, a `vcs-root` holding a string, list or number (`.get` raises `AttributeError` at teamcity-vcs.py:98 and the project is abandoned), or a truthy `vcs-root.id` or root `name` that is not a string (such a name lands in a row, and `sorted` can then raise `TypeError`).
- Reading `TEAMCITY_BASE_URL` and `TEAMCITY_ACCESS_TOKEN`, and the exit when the token is missing (teamcity-vcs.py:19-24), are process start-up and are not modelled.
- CSV quoting and encoding, and the error messages on stderr and stdout (teamcity-vcs.py:38, 108, 120-127), are not modelled. The report is the list of its lines' cells.
- The "Error processing project …" line of each project that raised (teamcity-vcs.py:108) goes to stdout, the same stream as the report (teamcity-vcs.py:6 redirects it to the report file), so those lines precede the CSV header in that file. The model's output holds only the CSV lines.
- Update and import modes, CSV input validation and VCS root mutation have no code in teamcity-vcs.py. They are not part of this model.
- Ordering.Sort: models `sorted` by an insertion sort, not Python's Timsort. Report.SortOfAnyListing and Ordering.AscendingUnique show any correct sort gives the same list here.
- Ordering.StrLess: compares Dafny characters, which are Unicode scalar values. Python strings containing lone surrogate code points cannot be represented.
