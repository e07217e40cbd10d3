/**
 What the builds report contains, stated without the folds: closed
 descriptions of each loop (which rows it adds and when it raises), and the
 report's rules derived from them — the sentinel row, the dropped entries,
 the lookup failures and the partial results of a project that raises.
 */
module AggregationProperties {
  import opened TeamCity
  import opened Aggregation

  /** The entries loop adds the row of every entry that resolves to a root
      name and comes before the first entry that raises; it raises exactly
      when some entry raises. */
  lemma {:induction false} EntriesRowsExact(server: Server, buildId: string, buildName: string, entries: seq<Entry>)
    ensures EntriesRows(server, buildId, buildName, entries).raised <==>
      exists k :: 0 <= k < |entries| && EntryStep(server, entries[k]).Raise?
    ensures forall row :: row in EntriesRows(server, buildId, buildName, entries).rows <==>
      row.buildId == buildId && row.buildName == buildName &&
      exists k :: 0 <= k < |entries| && EntryStep(server, entries[k]) == Add(row.vcsRootName) &&
        forall k' :: 0 <= k' < k ==> !EntryStep(server, entries[k']).Raise?
    decreases |entries|
  {
    if entries != [] {
      var n := |entries|;
      var init := entries[..n - 1];
      EntriesRowsExact(server, buildId, buildName, init);
      assert forall k :: 0 <= k < n - 1 ==> init[k] == entries[k];
      var before := EntriesRows(server, buildId, buildName, init);
      if !before.raised {
        assert forall k :: 0 <= k < n - 1 ==> !EntryStep(server, entries[k]).Raise?;
      }
      forall row | row in EntriesRows(server, buildId, buildName, entries).rows
        ensures exists k :: (0 <= k < n && EntryStep(server, entries[k]) == Add(row.vcsRootName) &&
          forall k' :: 0 <= k' < k ==> !EntryStep(server, entries[k']).Raise?)
      {
        if row !in before.rows {
          assert EntryStep(server, entries[n - 1]) == Add(row.vcsRootName);
        }
      }
    }
  }

  /** The build-type loop raises exactly when one of its build
      configurations raises. */
  lemma {:induction false} BuildTypesRaisedExact(server: Server, buildTypes: seq<BuildType>)
    ensures BuildTypesRows(server, buildTypes).raised <==>
      exists j :: 0 <= j < |buildTypes| && BuildTypeRows(server, buildTypes[j]).raised
    decreases |buildTypes|
  {
    if buildTypes != [] {
      var n := |buildTypes|;
      var init := buildTypes[..n - 1];
      BuildTypesRaisedExact(server, init);
      assert forall j :: 0 <= j < n - 1 ==> init[j] == buildTypes[j];
    }
  }

  /** Every row of the build-type loop comes from a build configuration
      reached before any exception. */
  lemma {:induction false} BuildTypesRowsSound(server: Server, buildTypes: seq<BuildType>, row: Row)
    requires row in BuildTypesRows(server, buildTypes).rows
    ensures exists j :: (0 <= j < |buildTypes| && row in BuildTypeRows(server, buildTypes[j]).rows &&
      forall j' :: 0 <= j' < j ==> !BuildTypeRows(server, buildTypes[j']).raised)
    decreases |buildTypes|
  {
    var n := |buildTypes|;
    var init := buildTypes[..n - 1];
    var before := BuildTypesRows(server, init);
    if row in before.rows {
      BuildTypesRowsSound(server, init, row);
      var j :| 0 <= j < n - 1 && row in BuildTypeRows(server, init[j]).rows &&
        forall j' :: 0 <= j' < j ==> !BuildTypeRows(server, init[j']).raised;
      assert init[j] == buildTypes[j];
      forall j' | 0 <= j' < j
        ensures !BuildTypeRows(server, buildTypes[j']).raised
      {
        assert init[j'] == buildTypes[j'];
      }
    } else {
      BuildTypesRaisedExact(server, init);
      forall j' | 0 <= j' < n - 1
        ensures !BuildTypeRows(server, buildTypes[j']).raised
      {
        assert init[j'] == buildTypes[j'];
      }
      assert row in BuildTypeRows(server, buildTypes[n - 1]).rows;
    }
  }

  /** Every row of a build configuration reached before any exception is a
      row of the build-type loop. */
  lemma {:induction false} BuildTypesRowsComplete(server: Server, buildTypes: seq<BuildType>, j: nat, row: Row)
    requires j < |buildTypes| && row in BuildTypeRows(server, buildTypes[j]).rows
    requires forall j' :: 0 <= j' < j ==> !BuildTypeRows(server, buildTypes[j']).raised
    ensures row in BuildTypesRows(server, buildTypes).rows
    decreases |buildTypes|
  {
    var n := |buildTypes|;
    var init := buildTypes[..n - 1];
    if j < n - 1 {
      assert init[j] == buildTypes[j];
      forall j' | 0 <= j' < j
        ensures !BuildTypeRows(server, init[j']).raised
      {
        assert init[j'] == buildTypes[j'];
      }
      BuildTypesRowsComplete(server, init, j, row);
    } else {
      BuildTypesRaisedExact(server, init);
      forall j' | 0 <= j' < n - 1
        ensures !BuildTypeRows(server, init[j']).raised
      {
        assert init[j'] == buildTypes[j'];
      }
    }
  }

  /** The build-type loop adds the rows of every build configuration up to
      and including the first one that raises, and raises exactly when one
      of them raises. */
  lemma {:induction false} BuildTypesRowsExact(server: Server, buildTypes: seq<BuildType>)
    ensures BuildTypesRows(server, buildTypes).raised <==>
      exists j :: 0 <= j < |buildTypes| && BuildTypeRows(server, buildTypes[j]).raised
    ensures forall row :: row in BuildTypesRows(server, buildTypes).rows <==>
      exists j :: 0 <= j < |buildTypes| && row in BuildTypeRows(server, buildTypes[j]).rows &&
        forall j' :: 0 <= j' < j ==> !BuildTypeRows(server, buildTypes[j']).raised
  {
    BuildTypesRaisedExact(server, buildTypes);
    forall row | row in BuildTypesRows(server, buildTypes).rows
      ensures exists j :: (0 <= j < |buildTypes| && row in BuildTypeRows(server, buildTypes[j]).rows &&
        forall j' :: 0 <= j' < j ==> !BuildTypeRows(server, buildTypes[j']).raised)
    {
      BuildTypesRowsSound(server, buildTypes, row);
    }
    forall row | exists j :: (0 <= j < |buildTypes| && row in BuildTypeRows(server, buildTypes[j]).rows &&
        forall j' :: 0 <= j' < j ==> !BuildTypeRows(server, buildTypes[j']).raised)
      ensures row in BuildTypesRows(server, buildTypes).rows
    {
      var j :| 0 <= j < |buildTypes| && row in BuildTypeRows(server, buildTypes[j]).rows &&
        forall j' :: 0 <= j' < j ==> !BuildTypeRows(server, buildTypes[j']).raised;
      BuildTypesRowsComplete(server, buildTypes, j, row);
    }
  }

  /** The project loop abandons everything exactly when some project raises
      and lacks a name. */
  lemma {:induction false} ProjectsCrashedExact(server: Server, projects: seq<Project>)
    ensures ProjectsRows(server, projects).Crashed? <==>
      exists i :: 0 <= i < |projects| && ProjectRows(server, projects[i]).raised && projects[i].name.None?
    decreases |projects|
  {
    if projects != [] {
      var n := |projects|;
      var init := projects[..n - 1];
      ProjectsCrashedExact(server, init);
      assert forall i :: 0 <= i < n - 1 ==> init[i] == projects[i];
    }
  }

  /** The project loop abandons everything exactly when some project raises
      and lacks a name; otherwise every project contributes the rows its
      `try` block added before it raised, whatever earlier projects did. */
  lemma {:induction false} ProjectsRowsExact(server: Server, projects: seq<Project>)
    ensures ProjectsRows(server, projects).Crashed? <==>
      exists i :: 0 <= i < |projects| && ProjectRows(server, projects[i]).raised && projects[i].name.None?
    ensures ProjectsRows(server, projects).Returned? ==>
      forall row :: row in ProjectsRows(server, projects).value <==>
        exists i :: 0 <= i < |projects| && row in ProjectRows(server, projects[i]).rows
    decreases |projects|
  {
    ProjectsCrashedExact(server, projects);
    if projects != [] {
      var n := |projects|;
      var init := projects[..n - 1];
      var last := ProjectRows(server, projects[n - 1]);
      match ProjectsRows(server, init)
      case Crashed =>
      case Returned(before) =>
        if !(last.raised && projects[n - 1].name.None?) {
          ProjectsRowsExact(server, init);
          assert ProjectsRows(server, projects) == Returned(before + last.rows);
          forall row | row in before + last.rows
            ensures exists i :: 0 <= i < n && row in ProjectRows(server, projects[i]).rows
          {
            if row in before {
              var i :| 0 <= i < n - 1 && row in ProjectRows(server, init[i]).rows;
              assert init[i] == projects[i];
            } else {
              assert row in ProjectRows(server, projects[n - 1]).rows;
            }
          }
          forall row | exists i :: 0 <= i < n && row in ProjectRows(server, projects[i]).rows
            ensures row in before + last.rows
          {
            var i :| 0 <= i < n && row in ProjectRows(server, projects[i]).rows;
            if i < n - 1 {
              assert init[i] == projects[i];
            }
          }
        }
    }
  }

  /** An entry adds a row exactly when its `vcs-root.id` is truthy and the
      root lookup succeeds with a truthy name; a 404 or a failed lookup
      drops the entry. */
  lemma EntryAddsIffResolved(server: Server, entry: Entry, name: string)
    ensures EntryStep(server, entry) == Add(name) <==>
      entry.vcsRoot.Object? && Truthy(entry.vcsRoot.id) && name != "" &&
      server.rootNameOf(entry.vcsRoot.id.value) == Ok(Some(name))
    ensures EntryStep(server, entry).Raise? <==> entry.vcsRoot.Null?
  {
  }

  /** A build configuration whose entries lookup returns an empty list, a
      404 or an error contributes exactly the sentinel row. */
  lemma SentinelForNoEntries(server: Server, buildType: BuildType)
    requires buildType.id.Some? && buildType.name.Some?
    requires server.entriesOf(buildType.id.value) in {NotFound, Failed, Ok([])}
    ensures BuildTypeRows(server, buildType) ==
      Partial({Row(buildType.id.value, buildType.name.value, NoVcsRoot)}, false)
  {
  }

  /** A build configuration with entries, none of which raises, contributes
      one row per entry that resolves to a root name and nothing else — in
      particular no sentinel row of its own. */
  lemma ResolvedEntriesContribution(server: Server, buildType: BuildType)
    requires buildType.id.Some? && buildType.name.Some?
    requires GetVcsRootEntries(server, buildType.id.value) != []
    requires forall entry :: entry in GetVcsRootEntries(server, buildType.id.value) ==> !EntryStep(server, entry).Raise?
    ensures !BuildTypeRows(server, buildType).raised
    ensures forall row :: row in BuildTypeRows(server, buildType).rows <==>
      row.buildId == buildType.id.value && row.buildName == buildType.name.value &&
      exists entry :: entry in GetVcsRootEntries(server, buildType.id.value) && EntryStep(server, entry) == Add(row.vcsRootName)
  {
    var entries := GetVcsRootEntries(server, buildType.id.value);
    EntriesRowsExact(server, buildType.id.value, buildType.name.value, entries);
    forall row: Row | row.buildId == buildType.id.value && row.buildName == buildType.name.value &&
      exists entry :: entry in entries && EntryStep(server, entry) == Add(row.vcsRootName)
      ensures row in BuildTypeRows(server, buildType).rows
    {
      var entry :| entry in entries && EntryStep(server, entry) == Add(row.vcsRootName);
      var k :| 0 <= k < |entries| && entries[k] == entry;
      assert forall k' :: 0 <= k' < k ==> !EntryStep(server, entries[k']).Raise?;
    }
  }

  /** A build configuration with entries, none of which resolves, contributes
      no row at all: no resolved row and no sentinel. */
  lemma UnresolvedEntriesContributeNothing(server: Server, buildType: BuildType)
    requires buildType.id.Some? && buildType.name.Some?
    requires GetVcsRootEntries(server, buildType.id.value) != []
    requires forall entry :: entry in GetVcsRootEntries(server, buildType.id.value) ==> EntryStep(server, entry).Skip?
    ensures BuildTypeRows(server, buildType) == Partial({}, false)
  {
    var entries := GetVcsRootEntries(server, buildType.id.value);
    EntriesRowsExact(server, buildType.id.value, buildType.name.value, entries);
    assert forall k :: 0 <= k < |entries| ==> EntryStep(server, entries[k]).Skip?;
  }

  /** When the project list cannot be fetched the report is empty. */
  lemma ProjectListFailureEmptyReport(server: Server)
    requires !server.projects.Ok?
    ensures BuildDetails(server) == Returned({})
  {
  }

  /** A project whose build-type lookup fails contributes no row and does
      not raise. */
  lemma BuildTypesFailureContributesNothing(server: Server, project: Project)
    requires project.id.Some? && !server.buildTypesOf(project.id.value).Ok?
    ensures ProjectRows(server, project) == Partial({}, false)
  {
  }

  /** When build configuration `j` is the first to raise, the project keeps
      the rows of the earlier ones and those `j` added before raising, and
      skips every later one. */
  lemma {:induction false} RaisingBuildTypeKeepsEarlierRows(server: Server, buildTypes: seq<BuildType>, j: nat)
    requires j < |buildTypes| && BuildTypeRows(server, buildTypes[j]).raised
    requires forall j' :: 0 <= j' < j ==> !BuildTypeRows(server, buildTypes[j']).raised
    ensures BuildTypesRows(server, buildTypes) ==
      Partial(BuildTypesRows(server, buildTypes[..j]).rows + BuildTypeRows(server, buildTypes[j]).rows, true)
  {
    BuildTypesRowsExact(server, buildTypes[..j]);
    assert buildTypes[..j + 1][..j] == buildTypes[..j];
    assert !BuildTypesRows(server, buildTypes[..j]).raised;
    BuildTypesRaisedFinal(server, buildTypes, j + 1);
  }

  /** A build configuration reached in a report that returns — its project
      has an id, no earlier build configuration of the project raised — with
      no VCS root entries puts the sentinel row in the report. */
  lemma SentinelReachesReport(server: Server, i: nat, j: nat)
    requires i < |GetAllProjects(server)| && GetAllProjects(server)[i].id.Some?
    requires var buildTypes := GetBuildTypes(server, GetAllProjects(server)[i].id.value);
      j < |buildTypes| && buildTypes[j].id.Some? && buildTypes[j].name.Some? &&
      GetVcsRootEntries(server, buildTypes[j].id.value) == [] &&
      forall j' :: 0 <= j' < j ==> !BuildTypeRows(server, buildTypes[j']).raised
    requires BuildDetails(server).Returned?
    ensures var buildType := GetBuildTypes(server, GetAllProjects(server)[i].id.value)[j];
      Row(buildType.id.value, buildType.name.value, NoVcsRoot) in BuildDetails(server).value
  {
    var projects := GetAllProjects(server);
    var buildTypes := GetBuildTypes(server, projects[i].id.value);
    var row := Row(buildTypes[j].id.value, buildTypes[j].name.value, NoVcsRoot);
    BuildTypesRowsExact(server, buildTypes);
    assert row in BuildTypeRows(server, buildTypes[j]).rows;
    assert row in ProjectRows(server, projects[i]).rows;
    ProjectsRowsExact(server, projects);
  }

  /** A project that raises keeps whatever it added, and a later project
      still contributes its rows, unless the raising project lacks a name. */
  lemma LaterProjectsStillProcessed(server: Server, i: nat, row: Row)
    requires i < |GetAllProjects(server)|
    requires row in ProjectRows(server, GetAllProjects(server)[i]).rows
    requires forall i' :: 0 <= i' < |GetAllProjects(server)| ==>
      !(ProjectRows(server, GetAllProjects(server)[i']).raised && GetAllProjects(server)[i'].name.None?)
    ensures BuildDetails(server).Returned? && row in BuildDetails(server).value
  {
    ProjectsRowsExact(server, GetAllProjects(server));
  }

  /** One project, one build configuration, no VCS root entries: the report
      is the sentinel row alone. */
  lemma ExampleNoEntries()
    ensures BuildDetails(Server(
      Ok([Project(Some("P1"), Some("Proj"))]),
      p => if p == "P1" then Ok([BuildType(Some("B1"), Some("Build"))]) else Failed,
      b => Ok([]),
      v => NotFound)) == Returned({Row("B1", "Build", "No VCS Root")})
  {
  }

  /** One project, one build configuration with two entries for the root
      `V1` named `RepoA`: the two identical rows collapse to one. */
  lemma ExampleOneRoot()
    ensures BuildDetails(Server(
      Ok([Project(Some("P1"), Some("Proj"))]),
      p => if p == "P1" then Ok([BuildType(Some("B1"), Some("Build"))]) else Failed,
      b => if b == "B1" then Ok([Entry(Object(Some("V1"))), Entry(Object(Some("V1")))]) else NotFound,
      v => if v == "V1" then Ok(Some("RepoA")) else NotFound)) == Returned({Row("B1", "Build", "RepoA")})
  {
    var server := Server(
      Ok([Project(Some("P1"), Some("Proj"))]),
      p => if p == "P1" then Ok([BuildType(Some("B1"), Some("Build"))]) else Failed,
      b => if b == "B1" then Ok([Entry(Object(Some("V1"))), Entry(Object(Some("V1")))]) else NotFound,
      v => if v == "V1" then Ok(Some("RepoA")) else NotFound);
    var entries := [Entry(Object(Some("V1"))), Entry(Object(Some("V1")))];
    assert GetVcsRootEntries(server, "B1") == entries;
    assert EntryStep(server, entries[0]) == Add("RepoA");
    assert entries[..1][..0] == [];
    assert EntriesRows(server, "B1", "Build", entries[..1]) == Partial({Row("B1", "Build", "RepoA")}, false);
    assert entries[..1] == entries[..|entries| - 1];
    assert EntriesRows(server, "B1", "Build", entries) == Partial({Row("B1", "Build", "RepoA")}, false);
  }
}
