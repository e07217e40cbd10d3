/**
 The builds report aggregation (`get_all_build_details`): walk projects,
 their build configurations and each configuration's VCS root entries,
 adding (build id, build name, root name) rows to one shared set.

 The specification is a family of left-to-right folds, one per loop of the
 source. Each fold returns the rows it added and whether an exception
 escaped; once an exception escapes the rest of the project is abandoned,
 but the rows already added stay in the set.
 */
module Aggregation {
  import opened TeamCity

  /** What one VCS root entry does: add a row with this root name, add
      nothing, or raise (`None.get` when `vcs-root` is JSON null). */
  datatype Step = Add(name: string) | Skip | Raise

  /** Rows added while processing part of a project, and whether an
      exception escaped from that part. */
  datatype Partial = Partial(rows: set<Row>, raised: bool)

  /** How `get_all_build_details` ends: it returns its rows, or an exception
      escapes it. */
  datatype Outcome<T> = Returned(value: T) | Crashed

  /** What the body of the entries loop does with one entry. */
  function EntryStep(server: Server, entry: Entry): (r: Step)
    ensures r.Raise? <==> entry.vcsRoot.Null?
    ensures r.Add? ==>
      entry.vcsRoot.Object? && Truthy(entry.vcsRoot.id) && r.name != "" &&
      server.rootNameOf(entry.vcsRoot.id.value) == Ok(Some(r.name))
    ensures entry.vcsRoot.Object? && Truthy(entry.vcsRoot.id) && !server.rootNameOf(entry.vcsRoot.id.value).Ok? ==> r.Skip?
  {
    match entry.vcsRoot
    case Absent => Skip
    case Null => Raise
    case Object(vcsId) =>
      if !Truthy(vcsId) then Skip
      else
        var vcsName := GetVcsRootName(server, vcsId.value);
        if Truthy(vcsName) then Add(vcsName.value) else Skip
  }

  /** The entries loop of one build configuration, over `entries`. */
  function EntriesRows(server: Server, buildId: string, buildName: string, entries: seq<Entry>): (r: Partial)
    ensures forall row :: row in r.rows ==> row.buildId == buildId && row.buildName == buildName
    decreases |entries|
  {
    if entries == [] then Partial({}, false)
    else
      var before := EntriesRows(server, buildId, buildName, entries[..|entries| - 1]);
      if before.raised then before
      else
        match EntryStep(server, entries[|entries| - 1])
        case Raise => Partial(before.rows, true)
        case Skip => before
        case Add(name) => Partial(before.rows + {Row(buildId, buildName, name)}, false)
  }

  /** The body of the build-type loop for one build configuration. */
  function BuildTypeRows(server: Server, buildType: BuildType): (r: Partial)
    ensures buildType.id.None? || buildType.name.None? ==> r == Partial({}, true)
    ensures forall row :: row in r.rows ==> buildType.id == Some(row.buildId) && buildType.name == Some(row.buildName)
    ensures buildType.id.Some? && buildType.name.Some? && GetVcsRootEntries(server, buildType.id.value) == [] ==>
      r == Partial({Row(buildType.id.value, buildType.name.value, NoVcsRoot)}, false)
  {
    if buildType.id.None? || buildType.name.None? then Partial({}, true)
    else
      var entries := GetVcsRootEntries(server, buildType.id.value);
      if entries == [] then Partial({Row(buildType.id.value, buildType.name.value, NoVcsRoot)}, false)
      else EntriesRows(server, buildType.id.value, buildType.name.value, entries)
  }

  /** The build-type loop of one project, over `buildTypes`. */
  function BuildTypesRows(server: Server, buildTypes: seq<BuildType>): (r: Partial)
    ensures buildTypes == [] ==> r == Partial({}, false)
    ensures |buildTypes| == 1 ==> r == BuildTypeRows(server, buildTypes[0])
    decreases |buildTypes|
  {
    if buildTypes == [] then Partial({}, false)
    else
      var before := BuildTypesRows(server, buildTypes[..|buildTypes| - 1]);
      if before.raised then before
      else
        var last := BuildTypeRows(server, buildTypes[|buildTypes| - 1]);
        Partial(before.rows + last.rows, last.raised)
  }

  /** The body of the project loop, inside its `try`. */
  function ProjectRows(server: Server, project: Project): (r: Partial)
    ensures project.id.None? ==> r == Partial({}, true)
    ensures project.id.Some? && !server.buildTypesOf(project.id.value).Ok? ==> r == Partial({}, false)
  {
    if project.id.None? then Partial({}, true)
    else BuildTypesRows(server, GetBuildTypes(server, project.id.value))
  }

  /** The project loop. When a project raises, its `except` handler reads
      the project's `name`; if that key is missing the handler raises in
      turn and the whole aggregation is abandoned. */
  function ProjectsRows(server: Server, projects: seq<Project>): (r: Outcome<set<Row>>)
    ensures r.Crashed? ==> exists i :: 0 <= i < |projects| && projects[i].name.None?
    decreases |projects|
  {
    if projects == [] then Returned({})
    else
      match ProjectsRows(server, projects[..|projects| - 1])
      case Crashed => Crashed
      case Returned(before) =>
        var last := ProjectRows(server, projects[|projects| - 1]);
        if last.raised && projects[|projects| - 1].name.None? then Crashed
        else Returned(before + last.rows)
  }

  /** The set `get_all_build_details` builds before turning it into a list. */
  function BuildDetails(server: Server): (r: Outcome<set<Row>>)
    ensures !server.projects.Ok? ==> r == Returned({})
    ensures r.Crashed? ==> exists project :: project in GetAllProjects(server) && project.name.None?
  {
    ProjectsRows(server, GetAllProjects(server))
  }

  /** Every row of the build-type loop carries the id and name of a build
      configuration in the list. */
  lemma {:induction false} BuildTypesRowsListed(server: Server, buildTypes: seq<BuildType>, row: Row)
    requires row in BuildTypesRows(server, buildTypes).rows
    ensures BuildType(Some(row.buildId), Some(row.buildName)) in buildTypes
    decreases |buildTypes|
  {
    var init := buildTypes[..|buildTypes| - 1];
    if row in BuildTypesRows(server, init).rows {
      BuildTypesRowsListed(server, init, row);
    } else {
      assert row in BuildTypeRows(server, buildTypes[|buildTypes| - 1]).rows;
    }
  }

  /** Once the entries loop has raised, later entries change nothing. */
  lemma {:induction false} EntriesRaisedFinal(server: Server, buildId: string, buildName: string, entries: seq<Entry>, k: nat)
    requires k <= |entries|
    requires EntriesRows(server, buildId, buildName, entries[..k]).raised
    ensures EntriesRows(server, buildId, buildName, entries) == EntriesRows(server, buildId, buildName, entries[..k])
    decreases |entries| - k
  {
    if k < |entries| {
      var n := |entries|;
      assert entries[..n - 1][..k] == entries[..k];
      EntriesRaisedFinal(server, buildId, buildName, entries[..n - 1], k);
    } else {
      assert entries[..k] == entries;
    }
  }

  /** Once the build-type loop has raised, later build types change nothing. */
  lemma {:induction false} BuildTypesRaisedFinal(server: Server, buildTypes: seq<BuildType>, j: nat)
    requires j <= |buildTypes|
    requires BuildTypesRows(server, buildTypes[..j]).raised
    ensures BuildTypesRows(server, buildTypes) == BuildTypesRows(server, buildTypes[..j])
    decreases |buildTypes| - j
  {
    if j < |buildTypes| {
      var init := buildTypes[..|buildTypes| - 1];
      assert init[..j] == buildTypes[..j];
      BuildTypesRaisedFinal(server, init, j);
      assert BuildTypesRows(server, init).raised;
    } else {
      assert buildTypes[..j] == buildTypes;
    }
  }

  /** Once the project loop has crashed, later projects change nothing. */
  lemma {:induction false} CrashedFinal(server: Server, projects: seq<Project>, i: nat)
    requires i <= |projects|
    requires ProjectsRows(server, projects[..i]).Crashed?
    ensures ProjectsRows(server, projects).Crashed?
    decreases |projects| - i
  {
    if i < |projects| {
      var n := |projects|;
      assert projects[..n - 1][..i] == projects[..i];
      CrashedFinal(server, projects[..n - 1], i);
    } else {
      assert projects[..i] == projects;
    }
  }

  /** The body of the build-type loop: add the rows of one build
      configuration to `details`, stopping at the first exception. */
  method AddBuildTypeRows(server: Server, buildType: BuildType, details: set<Row>)
    returns (details': set<Row>, raised: bool)
    ensures details' == details + BuildTypeRows(server, buildType).rows
    ensures raised == BuildTypeRows(server, buildType).raised
  {
    details', raised := details, false;
    if buildType.id.None? || buildType.name.None? {
      raised := true;
      return;
    }
    var buildId, buildName := buildType.id.value, buildType.name.value;
    var entries := GetVcsRootEntries(server, buildId);
    if entries == [] {
      details' := details' + {Row(buildId, buildName, NoVcsRoot)};
      return;
    }
    var k := 0;
    while k < |entries| && !raised
      invariant 0 <= k <= |entries|
      invariant details' == details + EntriesRows(server, buildId, buildName, entries[..k]).rows
      invariant raised == EntriesRows(server, buildId, buildName, entries[..k]).raised
      decreases |entries| - k
    {
      assert entries[..k + 1][..k] == entries[..k];
      match entries[k].vcsRoot {
        case Absent =>
        case Null =>
          raised := true;
        case Object(vcsId) =>
          if Truthy(vcsId) {
            var vcsName := GetVcsRootName(server, vcsId.value);
            if Truthy(vcsName) {
              details' := details' + {Row(buildId, buildName, vcsName.value)};
            }
          }
      }
      k := k + 1;
    }
    if raised {
      EntriesRaisedFinal(server, buildId, buildName, entries, k);
    } else {
      assert entries[..k] == entries;
    }
  }

  /** The body of the project loop, inside its `try`: add the rows of every
      build configuration of `project` to `details`, stopping at the first
      exception. */
  method AddProjectRows(server: Server, project: Project, details: set<Row>)
    returns (details': set<Row>, raised: bool)
    ensures details' == details + ProjectRows(server, project).rows
    ensures raised == ProjectRows(server, project).raised
  {
    details', raised := details, false;
    if project.id.None? {
      raised := true;
      return;
    }
    var buildTypes := GetBuildTypes(server, project.id.value);
    var j := 0;
    while j < |buildTypes| && !raised
      invariant 0 <= j <= |buildTypes|
      invariant details' == details + BuildTypesRows(server, buildTypes[..j]).rows
      invariant raised == BuildTypesRows(server, buildTypes[..j]).raised
      decreases |buildTypes| - j
    {
      assert buildTypes[..j + 1][..j] == buildTypes[..j];
      details', raised := AddBuildTypeRows(server, buildTypes[j], details');
      j := j + 1;
    }
    if raised {
      BuildTypesRaisedFinal(server, buildTypes, j);
    } else {
      assert buildTypes[..j] == buildTypes;
    }
  }

  /** `get_all_build_details`: the project loop adding to one set (its body
      is in `AddProjectRows`), the `try`/`except` around each project, and
      the final `list(...)`. The list holds every row of the specification's
      set exactly once. */
  method GetAllBuildDetails(server: Server) returns (r: Outcome<seq<Row>>)
    ensures r.Crashed? <==> BuildDetails(server).Crashed?
    ensures r.Returned? ==> NoDuplicates(r.value)
    ensures r.Returned? ==> forall row :: row in r.value <==> row in BuildDetails(server).value
  {
    var details: set<Row> := {};
    var projects := GetAllProjects(server);
    for i := 0 to |projects|
      invariant ProjectsRows(server, projects[..i]) == Returned(details)
    {
      var project := projects[i];
      var raised;
      details, raised := AddProjectRows(server, project, details);
      assert projects[..i + 1][..i] == projects[..i];
      if raised && project.name.None? {
        CrashedFinal(server, projects, i + 1);
        return Crashed;
      }
    }
    assert projects[..|projects|] == projects;

    var listed := ListOf(details);
    return Returned(listed);
  }

  /** `list(...)` on a set: its elements, each once, in some order. */
  method ListOf(s: set<Row>) returns (listed: seq<Row>)
    ensures NoDuplicates(listed)
    ensures forall row :: row in listed <==> row in s
  {
    var rest := s;
    listed := [];
    while rest != {}
      invariant rest <= s
      invariant forall row :: row in listed <==> row in s && row !in rest
      invariant NoDuplicates(listed)
      decreases rest
    {
      var row :| row in rest;
      listed := listed + [row];
      rest := rest - {row};
    }
  }
}
