/**
 The report the tool prints (`main`): a header line, then every row of the
 builds aggregation in ascending tuple order. CSV quoting and the writing
 itself are not modelled; a line is the list of its cells.
 */
module Report {
  import opened TeamCity
  import opened Aggregation
  import opened Ordering

  const Header: seq<string> := ["Build ID", "Build Name", "VCS Root Name"]

  function Fields(row: Row): seq<string> {
    [row.buildId, row.buildName, row.vcsRootName]
  }

  /** Some list of the rows of `s`, each once. */
  ghost function Listing(s: set<Row>): (r: seq<Row>)
    ensures NoDuplicates(r)
    ensures forall x :: x in r <==> x in s
    decreases |s|
  {
    if s == {} then []
    else
      var x :| x in s;
      var rest := Listing(s - {x});
      assert forall i :: 0 <= i < |rest| ==> rest[i] != x;
      [x] + rest
  }

  /** The rows of `s` in ascending tuple order, each once. */
  ghost function InOrder(s: set<Row>): (r: seq<Row>)
    ensures StrictlyAscending(r)
    ensures forall x :: x in r <==> x in s
  {
    SortWithoutDuplicates(Listing(s));
    Sort(Listing(s))
  }

  /** However the set is listed, sorting the list gives the same rows in the
      same order: two runs over the same server print the same report. */
  lemma SortOfAnyListing(rows: seq<Row>, s: set<Row>)
    requires NoDuplicates(rows)
    requires forall x :: x in rows <==> x in s
    ensures Sort(rows) == InOrder(s)
  {
    SameRowsSameMultiset(rows, Listing(s));
    AscendingUnique(Sort(rows), Sort(Listing(s)));
  }

  /** The writing loop of `main`: the header line, then one line per row,
      in the order given. */
  method WriteLines(rows: seq<Row>) returns (lines: seq<seq<string>>)
    ensures |lines| == |rows| + 1 && lines[0] == Header
    ensures forall i :: 0 <= i < |rows| ==> lines[i + 1] == Fields(rows[i])
  {
    lines := [Header];
    for i := 0 to |rows|
      invariant |lines| == i + 1 && lines[0] == Header
      invariant forall k :: 0 <= k < i ==> lines[k + 1] == Fields(rows[k])
    {
      lines := lines + [Fields(rows[i])];
    }
  }

  /** `main`: the header line, then one line per row of the aggregation in
      ascending order. When the aggregation raises no CSV line is written. */
  method BuildsReport(server: Server) returns (out: Outcome<seq<seq<string>>>)
    ensures out.Crashed? <==> BuildDetails(server).Crashed?
    ensures out.Returned? ==>
      var ordered := InOrder(BuildDetails(server).value);
      |out.value| == |ordered| + 1 && out.value[0] == Header &&
      forall i :: 0 <= i < |ordered| ==> out.value[i + 1] == Fields(ordered[i])
  {
    var details := GetAllBuildDetails(server);
    if details.Crashed? {
      return Crashed;
    }
    var ordered := Sort(details.value);
    SortOfAnyListing(details.value, BuildDetails(server).value);
    var lines := WriteLines(ordered);
    return Returned(lines);
  }
}
