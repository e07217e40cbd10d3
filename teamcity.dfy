/**
 The CI server as the report generator sees it: the entities it reads, an
 immutable snapshot of the REST endpoints it queries, and the four accessor
 functions that turn a response into a value. Every accessor is total: a
 404 or a request failure becomes an empty list or an absent name, exactly
 as the `except requests.RequestException` branches of the tool do.
 */
module TeamCity {

  datatype Option<T> = None | Some(value: T)

  /** The outcome of one GET request. `Failed` is a transport error or any
      non-success status other than 404 (what `raise_for_status` raises). */
  datatype Response<T> = Ok(body: T) | NotFound | Failed

  /** A project as listed by `GET /projects`; either key may be missing. */
  datatype Project = Project(id: Option<string>, name: Option<string>)

  /** A build configuration as listed by `GET /projects/id:{id}/buildTypes`. */
  datatype BuildType = BuildType(id: Option<string>, name: Option<string>)

  /** The `vcs-root` member of a VCS root entry: the key may be missing, be
      JSON null, or hold an object whose `id` may be missing or null. */
  datatype RootRef = Absent | Null | Object(id: Option<string>)

  datatype Entry = Entry(vcsRoot: RootRef)

  /** A snapshot of the server. Each endpoint parametrised by an id is a total
      function from that id to the response the server would give. A body
      whose list key is missing is the same as `Ok([])`. */
  datatype Server = Server(
    projects: Response<seq<Project>>,
    buildTypesOf: string -> Response<seq<BuildType>>,
    entriesOf: string -> Response<seq<Entry>>,
    rootNameOf: string -> Response<Option<string>>)

  /** One report row: (build id, build name, VCS root name). */
  datatype Row = Row(buildId: string, buildName: string, vcsRootName: string)

  /** The root name written for a build configuration without VCS root entries. */
  const NoVcsRoot: string := "No VCS Root"

  /** Python truthiness of an optional string: present and non-empty. */
  predicate Truthy(v: Option<string>) {
    v.Some? && v.value != ""
  }

  /** No element of `s` occurs twice. */
  predicate NoDuplicates<T(==)>(s: seq<T>) {
    forall i, j :: 0 <= i < j < |s| ==> s[i] != s[j]
  }

  /** `get_all_projects`: any failure yields the empty list. */
  function GetAllProjects(server: Server): (r: seq<Project>)
    ensures !server.projects.Ok? ==> r == []
    ensures server.projects.Ok? ==> r == server.projects.body
  {
    if server.projects.Ok? then server.projects.body else []
  }

  /** `get_build_types`: any failure, 404 included, yields the empty list. */
  function GetBuildTypes(server: Server, projectId: string): (r: seq<BuildType>)
    ensures !server.buildTypesOf(projectId).Ok? ==> r == []
    ensures server.buildTypesOf(projectId).Ok? ==> r == server.buildTypesOf(projectId).body
  {
    var resp := server.buildTypesOf(projectId);
    if resp.Ok? then resp.body else []
  }

  /** `get_vcs_root_entries`: 404 and every other failure yield the empty list. */
  function GetVcsRootEntries(server: Server, buildTypeId: string): (r: seq<Entry>)
    ensures server.entriesOf(buildTypeId) in {NotFound, Failed} ==> r == []
    ensures server.entriesOf(buildTypeId).Ok? ==> r == server.entriesOf(buildTypeId).body
  {
    match server.entriesOf(buildTypeId)
    case NotFound => []
    case Failed => []
    case Ok(entries) => entries
  }

  /** `get_vcs_root_name`: 404 and every other failure yield no name. */
  function GetVcsRootName(server: Server, vcsRootId: string): (r: Option<string>)
    ensures server.rootNameOf(vcsRootId) in {NotFound, Failed} ==> r == None
    ensures server.rootNameOf(vcsRootId).Ok? ==> r == server.rootNameOf(vcsRootId).body
  {
    match server.rootNameOf(vcsRootId)
    case NotFound => None
    case Failed => None
    case Ok(name) => name
  }
}
