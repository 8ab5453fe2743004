/** The loop of `read_db`: every row of the package query becomes one package
    record, in query order, whose dependency column is replaced by the parsed
    dependency map. */
module Packages {
  import opened Results
  import opened Deps

  /** One row of the package query. `dependency` is `None` when the package
      has no dependency rows (the left join yields NULL). */
  datatype Row = Row(
    name: string,
    category: string,
    section: string,
    pkgSection: string,
    version: string,
    release: string,
    description: string,
    dependency: Option<string>)

  /** One package record as handed to the page template. */
  datatype Package = Package(
    name: string,
    category: string,
    section: string,
    pkgSection: string,
    version: string,
    release: string,
    description: string,
    dependency: DepMap)

  /** The record carries the row's columns unchanged. */
  predicate SameColumns(row: Row, p: Package) {
    && p.name == row.name
    && p.category == row.category
    && p.section == row.section
    && p.pkgSection == row.pkgSection
    && p.version == row.version
    && p.release == row.release
    && p.description == row.description
  }

  /** `pkg = dict(row); pkg['dependency'] = dep_dict`. */
  function WithDependency(row: Row, deps: DepMap): (p: Package)
    ensures SameColumns(row, p) && p.dependency == deps
  {
    Package(row.name, row.category, row.section, row.pkgSection,
            row.version, row.release, row.description, deps)
  }

  /** Reads all rows: one record per row, in row order, differing from its
      row only in the parsed dependency map. The first row whose dependency
      string is malformed aborts the whole read with that row's error. */
  method ReadPackages(rows: seq<Row>) returns (r: Result<seq<Package>, DepError>)
    ensures r.Ok? <==> forall i :: 0 <= i < |rows| ==> ParseDependency(rows[i].dependency).Ok?
    ensures r.Ok? ==> |r.value| == |rows|
    ensures r.Ok? ==> forall i :: 0 <= i < |rows| ==>
              SameColumns(rows[i], r.value[i])
              && Ok(r.value[i].dependency) == ParseDependency(rows[i].dependency)
    ensures r.Err? ==>
              exists i :: 0 <= i < |rows|
                && ParseDependency(rows[i].dependency) == Err(r.error)
                && forall j :: 0 <= j < i ==> ParseDependency(rows[j].dependency).Ok?
  {
    var packages: seq<Package> := [];
    var i := 0;
    while i < |rows|
      invariant 0 <= i <= |rows|
      invariant |packages| == i
      invariant forall j :: 0 <= j < i ==>
                  SameColumns(rows[j], packages[j])
                  && Ok(packages[j].dependency) == ParseDependency(rows[j].dependency)
      invariant forall j :: 0 <= j < i ==> ParseDependency(rows[j].dependency).Ok?
    {
      var deps := ParseDependency(rows[i].dependency);
      if deps.Err? {
        assert ParseDependency(rows[i].dependency) == Err(deps.error);
        return Err(deps.error);
      }
      var p := WithDependency(rows[i], deps.value);
      packages := packages + [p];
      i := i + 1;
    }
    return Ok(packages);
  }

  /** The names of the packages, in order: the word list of the search trie. */
  function Names(ps: seq<Package>): (r: seq<string>)
    ensures |r| == |ps|
    ensures forall i :: 0 <= i < |ps| ==> r[i] == ps[i].name
  {
    if ps == [] then [] else [ps[0].name] + Names(ps[1..])
  }
}
