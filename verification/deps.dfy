/** The dependency column of a package row: each edge is stored as
    `dependency|version|relationship`, the edges of one package are joined
    with `,`, and the report groups them into an insertion-ordered map from
    the raw relationship tag to the list of `(dependency, version)` pairs. */
module Deps {
  import opened Results
  import opened Seqs

  /** Separator `group_concat` puts between the edges of one package. */
  const ItemSep: char := ','
  /** Separator the query puts between the three fields of one edge. */
  const FieldSep: char := '|'

  /** The relationship tags the report knows a label for, in display order.
      Parsing never consults this table. */
  const DepRel: seq<(string, string)> := [
    ("PKGDEP", "Depends"),
    ("BUILDDEP", "Depends (build)"),
    ("PKGREP", "Replaces"),
    ("PKGRECOM", "Recommends"),
    ("PKGCONFL", "Conflicts"),
    ("PKGBREAK", "Breaks")
  ]

  /** Display label of a relationship tag, as `DEP_REL.get(tag)` finds it:
      the label paired with the tag in the table, none for a tag the table
      does not list. */
  function Label(tag: string): (r: Option<string>)
    ensures r.None? <==> forall i :: 0 <= i < |DepRel| ==> DepRel[i].0 != tag
    ensures r.Some? ==> (tag, r.value) in DepRel
  {
    LabelIn(DepRel, tag)
  }

  /** The label of the first pair of `table` whose tag is `tag`. */
  function LabelIn(table: seq<(string, string)>, tag: string): (r: Option<string>)
    ensures r.None? <==> forall i :: 0 <= i < |table| ==> table[i].0 != tag
    ensures r.Some? ==> (tag, r.value) in table
  {
    if table == [] then None
    else if table[0].0 == tag then Some(table[0].1)
    else LabelIn(table[1..], tag)
  }

  /** One edge as the query produces it. */
  datatype Triple = Triple(dep: string, ver: string, rel: string)

  /** One entry of a dependency list: the target package and its version
      constraint. */
  datatype Edge = Edge(dep: string, ver: string)

  /** One key of the dependency map with its list. */
  datatype Group = Group(tag: string, edges: seq<Edge>)

  /** The insertion-ordered dictionary `dep_dict`, as its entries in order. */
  type DepMap = seq<Group>

  /** An edge that does not split into exactly three fields: the tuple
      unpacking raises `ValueError`. */
  datatype DepError = FieldCount(item: string, fields: nat)

  function EdgeOf(t: Triple): Edge {
    Edge(t.dep, t.ver)
  }

  /** The text the query builds for one edge: splitting it at `|` gives the
      three fields back when none of them holds a `|`. */
  function FormatItem(t: Triple): (r: string)
    ensures FieldSep !in t.dep && FieldSep !in t.ver && FieldSep !in t.rel ==>
              Split(r, FieldSep) == [t.dep, t.ver, t.rel]
  {
    var r := t.dep + [FieldSep] + t.ver + [FieldSep] + t.rel;
    if FieldSep !in t.dep && FieldSep !in t.ver && FieldSep !in t.rel then
      Join3(t.dep, t.ver, t.rel, FieldSep);
      SplitJoin([t.dep, t.ver, t.rel], FieldSep);
      r
    else
      r
  }

  /** The text `group_concat` builds for a package's edges: splitting it at
      `,` gives one item per edge, in order, when there is an edge and no
      field holds a separator. A package without edges gets no group from
      the query, so the LEFT JOIN gives `None`, not text; `FormatDeps([])`
      is `""` only by convention here, and `ParseDependency` maps both
      `None` and `""` to the empty map. */
  function FormatDeps(ts: seq<Triple>): (r: string)
    ensures ts == [] ==> r == ""
    ensures ts != [] && (forall i :: 0 <= i < |ts| ==> CleanTriple(ts[i])) ==> Split(r, ItemSep) == FormatItems(ts)
  {
    var items := FormatItems(ts);
    if ts != [] && forall i :: 0 <= i < |ts| ==> CleanTriple(ts[i]) then
      assert forall i :: 0 <= i < |items| ==> ItemSep !in items[i];
      SplitJoin(items, ItemSep);
      Join(items, ItemSep)
    else
      Join(items, ItemSep)
  }

  function FormatItems(ts: seq<Triple>): (r: seq<string>)
    ensures |r| == |ts|
    ensures forall i :: 0 <= i < |ts| ==> r[i] == FormatItem(ts[i])
  {
    if ts == [] then [] else [FormatItem(ts[0])] + FormatItems(ts[1..])
  }

  /** A field that survives the round trip: it holds neither separator. */
  predicate CleanField(f: string) {
    ItemSep !in f && FieldSep !in f
  }

  predicate CleanTriple(t: Triple) {
    CleanField(t.dep) && CleanField(t.ver) && CleanField(t.rel)
  }

  /** `dep_pkg, dep_ver, dep_rel = dep.split('|')`: succeeds exactly when the
      item holds two field separators, and then the fields rebuild it. */
  function ParseItem(item: string): (r: Result<Triple, DepError>)
    ensures r.Ok? <==> Occurrences(item, FieldSep) == 2
    ensures r.Ok? ==> FormatItem(r.value) == item
    ensures r.Err? ==> r.error == FieldCount(item, Occurrences(item, FieldSep) + 1)
  {
    var fields := Split(item, FieldSep);
    if |fields| == 3 then
      assert fields == [fields[0], fields[1], fields[2]];
      Join3(fields[0], fields[1], fields[2], FieldSep);
      Ok(Triple(fields[0], fields[1], fields[2]))
    else
      Err(FieldCount(item, |fields|))
  }

  /** Parsing the text of a clean edge gives the edge back. */
  lemma ParseFormatItem(t: Triple)
    requires CleanTriple(t)
    ensures ParseItem(FormatItem(t)) == Ok(t)
  {
    var parts := [t.dep, t.ver, t.rel];
    Join3(t.dep, t.ver, t.rel, FieldSep);
    SplitJoin(parts, FieldSep);
  }

  /** The keys of a dependency map, in order. */
  function Tags(m: DepMap): (r: seq<string>)
    ensures |r| == |m|
    ensures forall i :: 0 <= i < |m| ==> r[i] == m[i].tag
  {
    if m == [] then [] else [m[0].tag] + Tags(m[1..])
  }

  /** The tags of a non-empty map: its first tag, then the rest. */
  lemma TagsCons(m: DepMap)
    requires m != []
    ensures Tags(m) == [m[0].tag] + Tags(m[1..])
  {
  }

  /** `dep_dict.get(tag)`. */
  function Lookup(m: DepMap, tag: string): Option<seq<Edge>> {
    if m == [] then None
    else if m[0].tag == tag then Some(m[0].edges)
    else Lookup(m[1..], tag)
  }

  /** In a map with distinct keys, a key finds its own entry and a missing key
      finds nothing. */
  lemma {:induction false} LookupDistinct(m: DepMap, tag: string)
    requires Distinct(Tags(m))
    ensures tag !in Tags(m) ==> Lookup(m, tag) == None
    ensures forall i :: 0 <= i < |m| && m[i].tag == tag ==> Lookup(m, tag) == Some(m[i].edges)
  {
    if m != [] {
      assert Tags(m[1..]) == Tags(m)[1..];
      LookupDistinct(m[1..], tag);
      forall i | 0 <= i < |m| && m[i].tag == tag
        ensures Lookup(m, tag) == Some(m[i].edges)
      {
        if i > 0 {
          assert Tags(m)[0] != Tags(m)[i];
          assert m[1..][i - 1] == m[i];
        }
      }
    }
  }

  /** Total number of edges held by the map. */
  function TotalEdges(m: DepMap): nat {
    if m == [] then 0 else |m[0].edges| + TotalEdges(m[1..])
  }

  /** The `if dep_rel in dep_dict: append … else: create` step: the tag
      becomes the last key when it is new, and the keys keep their order. */
  function AddEdge(m: DepMap, tag: string, e: Edge): (r: DepMap)
    ensures Tags(r) == AddKey(Tags(m), tag)
  {
    if m == [] then [Group(tag, [e])]
    else if m[0].tag == tag then
      var r := [Group(tag, m[0].edges + [e])] + m[1..];
      TagsCons(m);
      TagsCons(r);
      assert r[1..] == m[1..];
      r
    else
      var rest := AddEdge(m[1..], tag, e);
      var r := [m[0]] + rest;
      assert r[1..] == rest;
      TagsCons(m);
      TagsCons(r);
      AddKeyCons(m[0].tag, Tags(m[1..]), tag);
      r
  }

  /** In a map with distinct keys, the edge is appended to the list of its
      own tag and every other entry is left as it was. */
  lemma {:induction false} AddEdgeAt(m: DepMap, tag: string, e: Edge, i: nat)
    requires Distinct(Tags(m)) && i < |m|
    ensures AddEdge(m, tag, e)[i] ==
              if m[i].tag == tag then Group(tag, m[i].edges + [e]) else m[i]
  {
    TagsCons(m);
    if m[0].tag == tag {
      if i > 0 {
        assert Tags(m)[0] != Tags(m)[i];
      }
    } else if i > 0 {
      AddEdgeAt(m[1..], tag, e, i - 1);
    }
  }

  /** A new tag is filed after all the existing keys, holding just the edge. */
  lemma {:induction false} AddEdgeNew(m: DepMap, tag: string, e: Edge)
    requires tag !in Tags(m)
    ensures |AddEdge(m, tag, e)| == |m| + 1
    ensures AddEdge(m, tag, e)[|m|] == Group(tag, [e])
  {
    if m != [] {
      TagsCons(m);
      AddEdgeNew(m[1..], tag, e);
    }
  }

  /** Filing an edge keeps the tags distinct. */
  lemma AddEdgeDistinct(m: DepMap, tag: string, e: Edge)
    requires Distinct(Tags(m))
    ensures Distinct(Tags(AddEdge(m, tag, e)))
  {
    AddKeyDistinct(Tags(m), tag);
  }

  /** Filing an edge adds exactly one edge to the map. */
  lemma {:induction false} AddEdgeTotal(m: DepMap, tag: string, e: Edge)
    ensures TotalEdges(AddEdge(m, tag, e)) == TotalEdges(m) + 1
  {
    if m != [] && m[0].tag != tag {
      AddEdgeTotal(m[1..], tag, e);
    }
  }

  /** The loop over the `,`-separated items of one package (the body of the
      inner `for`): each item is split into its three fields and filed under
      its tag; the first malformed item aborts the whole package. */
  function Aggregate(m: DepMap, items: seq<string>): (r: Result<DepMap, DepError>)
    requires Distinct(Tags(m))
    ensures r.Ok? ==> Distinct(Tags(r.value))
    ensures r.Ok? ==> TotalEdges(r.value) == TotalEdges(m) + |items|
    decreases |items|
  {
    if items == [] then Ok(m)
    else
      var t :- ParseItem(items[0]);
      AddEdgeDistinct(m, t.rel, EdgeOf(t));
      AddEdgeTotal(m, t.rel, EdgeOf(t));
      Aggregate(AddEdge(m, t.rel, EdgeOf(t)), items[1..])
  }

  /** The dependency field of one row becomes `dep_dict`: an absent or empty
      string gives the empty map, otherwise the items are aggregated. */
  function ParseDependency(field: Option<string>): (r: Result<DepMap, DepError>)
    ensures (field.None? || field.value == "") ==> r == Ok([])
    ensures r.Ok? ==> Distinct(Tags(r.value))
  {
    if field.None? || field.value == "" then Ok([])
    else Aggregate([], Split(field.value, ItemSep))
  }

  // ---------------------------------------------------------------------
  // Reference definition of the grouping, independent of the loop.

  /** Every item parsed on its own; the first malformed one is the error. */
  function ParseItems(items: seq<string>): (r: Result<seq<Triple>, DepError>)
    ensures r.Ok? <==> forall i :: 0 <= i < |items| ==> ParseItem(items[i]).Ok?
    ensures r.Ok? ==> |r.value| == |items|
    ensures r.Ok? ==> forall i :: 0 <= i < |items| ==> ParseItem(items[i]) == Ok(r.value[i])
    ensures r.Err? ==> exists i :: 0 <= i < |items| && ParseItem(items[i]) == Err(r.error)
                          && forall j :: 0 <= j < i ==> ParseItem(items[j]).Ok?
  {
    if items == [] then Ok([])
    else
      assert forall k :: 0 <= k < |items| - 1 ==> items[1..][k] == items[k + 1];
      match ParseItem(items[0])
      case Err(e) => Err(e)
      case Ok(t) =>
        match ParseItems(items[1..])
        case Err(e) => Err(e)
        case Ok(ts) => Ok([t] + ts)
  }

  /** The relationship tags of the edges, in order. */
  function Rels(ts: seq<Triple>): (r: seq<string>)
    ensures |r| == |ts|
    ensures forall i :: 0 <= i < |ts| ==> r[i] == ts[i].rel
  {
    if ts == [] then [] else Rels(ts[..|ts| - 1]) + [ts[|ts| - 1].rel]
  }

  /** The edges with relationship tag `tag`, in their original order. */
  function Tagged(ts: seq<Triple>, tag: string): seq<Edge> {
    if ts == [] then []
    else
      var last := ts[|ts| - 1];
      Tagged(ts[..|ts| - 1], tag) + (if last.rel == tag then [EdgeOf(last)] else [])
  }

  /** A tag that labels no edge selects no edge. */
  lemma {:induction false} TaggedAbsent(ts: seq<Triple>, tag: string)
    requires tag !in Rels(ts)
    ensures Tagged(ts, tag) == []
  {
    if ts != [] {
      var init := ts[..|ts| - 1];
      assert forall i :: 0 <= i < |init| ==> Rels(init)[i] == Rels(ts)[i];
      TaggedAbsent(init, tag);
    }
  }

  /** The dependency map the edges should produce: one key per distinct tag in
      order of first appearance, holding exactly the edges with that tag. */
  function GroupByTag(ts: seq<Triple>): (r: DepMap)
    ensures Tags(r) == Dedup(Rels(ts))
  {
    var ks := Dedup(Rels(ts));
    seq(|ks|, i requires 0 <= i < |ks| => Group(ks[i], Tagged(ts, ks[i])))
  }

  /** Appending an edge extends exactly the list of its own tag. */
  lemma TaggedSnoc(ts: seq<Triple>, t: Triple, tag: string)
    ensures Tagged(ts + [t], tag) == Tagged(ts, tag) + (if t.rel == tag then [EdgeOf(t)] else [])
  {
    assert (ts + [t])[..|ts + [t]| - 1] == ts;
  }

  /** Filing one more edge into the reference map gives the reference map of
      the longer list. */
  lemma GroupSnoc(ts: seq<Triple>, t: Triple)
    ensures AddEdge(GroupByTag(ts), t.rel, EdgeOf(t)) == GroupByTag(ts + [t])
  {
    var r, g' := AddEdge(GroupByTag(ts), t.rel, EdgeOf(t)), GroupByTag(ts + [t]);
    GroupSnocLength(ts, t);
    forall i | 0 <= i < |r|
      ensures r[i] == g'[i]
    {
      GroupSnocAt(ts, t, i);
    }
    SameElements(r, g');
  }

  /** Filing the edge and grouping the longer list give maps of one size. */
  lemma GroupSnocLength(ts: seq<Triple>, t: Triple)
    ensures |AddEdge(GroupByTag(ts), t.rel, EdgeOf(t))| == |GroupByTag(ts + [t])|
  {
    var ts' := ts + [t];
    assert ts'[..|ts'| - 1] == ts;
    DedupSnoc(Rels(ts), t.rel);
  }

  /** One entry of the map after filing the edge. */
  lemma GroupSnocAt(ts: seq<Triple>, t: Triple, i: nat)
    requires i < |GroupByTag(ts + [t])|
    ensures i < |AddEdge(GroupByTag(ts), t.rel, EdgeOf(t))|
    ensures AddEdge(GroupByTag(ts), t.rel, EdgeOf(t))[i] == GroupByTag(ts + [t])[i]
  {
    var ts' := ts + [t];
    assert ts'[..|ts'| - 1] == ts;
    DedupSnoc(Rels(ts), t.rel);
    var ks := Dedup(Rels(ts));
    GroupSnocLength(ts, t);
    if i < |ks| {
      GroupSnocOld(ts, t, i);
    } else {
      assert t.rel !in ks && i == |ks|;
      GroupSnocNew(ts, t);
    }
  }

  /** An entry that was already in the reference map. */
  lemma GroupSnocOld(ts: seq<Triple>, t: Triple, i: nat)
    requires i < |GroupByTag(ts)|
    ensures AddEdge(GroupByTag(ts), t.rel, EdgeOf(t))[i] == GroupByTag(ts + [t])[i]
  {
    var ts' := ts + [t];
    assert ts'[..|ts'| - 1] == ts;
    DedupSnoc(Rels(ts), t.rel);
    var k := Dedup(Rels(ts))[i];
    var g := GroupByTag(ts);
    assert g[i] == Group(k, Tagged(ts, k));
    assert GroupByTag(ts + [t])[i] == Group(k, Tagged(ts + [t], k));
    AddEdgeAt(g, t.rel, EdgeOf(t), i);
    TaggedSnoc(ts, t, k);
  }

  /** The entry a new tag adds at the end of the reference map. */
  lemma GroupSnocNew(ts: seq<Triple>, t: Triple)
    requires t.rel !in Dedup(Rels(ts))
    ensures AddEdge(GroupByTag(ts), t.rel, EdgeOf(t))[|GroupByTag(ts)|] == GroupByTag(ts + [t])[|GroupByTag(ts)|]
  {
    var n := |Dedup(Rels(ts))|;
    AddEdgeNew(GroupByTag(ts), t.rel, EdgeOf(t));
    assert GroupByTag(ts + [t])[n] == Group(t.rel, Tagged(ts + [t], t.rel));
    TaggedSnoc(ts, t, t.rel);
    TaggedAbsent(ts, t.rel);
  }

  /** The loop and the reference definition agree: starting from the map of
      the edges seen so far, the remaining items either fail at the first
      malformed one or yield the map of all the edges. */
  lemma {:induction false} AggregateGroups(pre: seq<Triple>, items: seq<string>)
    ensures Aggregate(GroupByTag(pre), items) ==
              match ParseItems(items)
              case Ok(ts) => Ok(GroupByTag(pre + ts))
              case Err(e) => Err(e)
    decreases |items|
  {
    if items == [] {
      assert pre + [] == pre;
    } else {
      var first := ParseItem(items[0]);
      if first.Err? {
        assert Aggregate(GroupByTag(pre), items) == Err(first.error);
        assert ParseItems(items) == Err(first.error);
      } else {
        var t := first.value;
        GroupSnoc(pre, t);
        assert Aggregate(GroupByTag(pre), items) == Aggregate(GroupByTag(pre + [t]), items[1..]);
        AggregateGroups(pre + [t], items[1..]);
        var rest := ParseItems(items[1..]);
        ParseItemsCons(items, t);
        if rest.Ok? {
          GroupByTagAssoc(pre, t, rest.value);
        } else {
          assert ParseItems(items) == Err(rest.error);
          assert Aggregate(GroupByTag(pre), items) == Err(rest.error);
        }
      }
    }
  }

  lemma GroupByTagAssoc(pre: seq<Triple>, t: Triple, ts: seq<Triple>)
    ensures GroupByTag(pre + [t] + ts) == GroupByTag(pre + ([t] + ts))
  {
    assert pre + [t] + ts == pre + ([t] + ts);
  }

  /** How `ParseItems` continues after a well-formed first item. */
  lemma ParseItemsCons(items: seq<string>, t: Triple)
    requires items != [] && ParseItem(items[0]) == Ok(t)
    ensures ParseItems(items) ==
              match ParseItems(items[1..])
              case Ok(ts) => Ok([t] + ts)
              case Err(e) => Err(e)
  {
  }

  /** What the reference map promises: each key is looked up to exactly the
      edges with that tag, in order; a tag no edge carries is absent. */
  lemma GroupByTagLookup(ts: seq<Triple>, tag: string)
    ensures Lookup(GroupByTag(ts), tag) ==
              if tag in Rels(ts) then Some(Tagged(ts, tag)) else None
  {
    var g := GroupByTag(ts);
    LookupDistinct(g, tag);
    if tag in Rels(ts) {
      var ks := Dedup(Rels(ts));
      var i :| 0 <= i < |ks| && ks[i] == tag;
      assert g[i].tag == tag;
    }
  }

  /** Every edge lands in exactly one list: the list lengths add up to the
      number of edges. */
  lemma {:induction false} GroupByTagTotal(ts: seq<Triple>)
    ensures TotalEdges(GroupByTag(ts)) == |ts|
  {
    if ts != [] {
      var init, last := ts[..|ts| - 1], ts[|ts| - 1];
      InitLast(ts);
      GroupByTagTotal(init);
      GroupSnoc(init, last);
      AddEdgeTotal(GroupByTag(init), last.rel, EdgeOf(last));
    }
  }

  /** The dependency field read from a row: absent or empty gives the empty
      map; otherwise the result is an error exactly when some item does not
      split into three fields (and then it is the first such item's error),
      and is otherwise the reference grouping of the parsed edges. */
  lemma ParseDependencySpec(s: string)
    requires s != ""
    ensures ParseDependency(Some(s)) ==
              match ParseItems(Split(s, ItemSep))
              case Ok(ts) => Ok(GroupByTag(ts))
              case Err(e) => Err(e)
  {
    assert GroupByTag([]) == [];
    AggregateGroups([], Split(s, ItemSep));
    var r := ParseItems(Split(s, ItemSep));
    if r.Ok? {
      assert [] + r.value == r.value;
    }
  }

  /** Round trip through the query's format: building the dependency string
      from clean edges and parsing it back gives the edges grouped by tag. */
  lemma FormatParse(ts: seq<Triple>)
    requires forall i :: 0 <= i < |ts| ==> CleanTriple(ts[i])
    ensures ParseDependency(Some(FormatDeps(ts))) == Ok(GroupByTag(ts))
  {
    if ts == [] {
      assert Dedup(Rels(ts)) == [];
    } else {
      var items := FormatItems(ts);
      forall i | 0 <= i < |items|
        ensures ItemSep !in items[i]
        ensures ParseItem(items[i]) == Ok(ts[i])
      {
        ParseFormatItem(ts[i]);
      }
      SplitJoin(items, ItemSep);
      ParseItemsOk(items, ts);
      assert FormatDeps(ts) != "" by {
        assert Split(FormatDeps(ts), ItemSep) == items;
        assert |FormatItem(ts[0])| >= 2;
        if |items| == 1 {
          assert FormatDeps(ts) == items[0];
        } else {
          assert FormatDeps(ts) == items[0] + [ItemSep] + Join(items[1..], ItemSep);
        }
      }
      ParseDependencySpec(FormatDeps(ts));
    }
  }

  /** Items that each parse to the matching edge parse together to the list. */
  lemma ParseItemsOk(items: seq<string>, ts: seq<Triple>)
    requires |items| == |ts|
    requires forall i :: 0 <= i < |items| ==> ParseItem(items[i]) == Ok(ts[i])
    ensures ParseItems(items) == Ok(ts)
  {
    if items != [] {
      ParseItemsOk(items[1..], ts[1..]);
      assert ts == [ts[0]] + ts[1..];
    }
  }

  /** The reference map of a single edge has one key holding that edge. */
  lemma GroupSingle(t: Triple)
    ensures GroupByTag([t]) == [Group(t.rel, [EdgeOf(t)])]
  {
    assert [t][..0] == [];
    assert Rels([t]) == [t.rel];
    assert Dedup(Rels([t])) == [t.rel] by {
      assert Rels([t])[..0] == [];
    }
    assert Tagged([t], t.rel) == [EdgeOf(t)];
  }

  /** The text of a single clean edge parses to the map holding just it. */
  lemma SingleEdge(t: Triple)
    requires CleanTriple(t)
    ensures ParseDependency(Some(FormatItem(t))) == Ok([Group(t.rel, [EdgeOf(t)])])
  {
    assert FormatItems([t]) == [FormatItem(t)];
    assert FormatDeps([t]) == FormatItem(t);
    FormatParse([t]);
    GroupSingle(t);
  }

  /** The record for `a` with the single edge `b|>=1.0|PKGDEP` maps `PKGDEP`
      to `[("b", ">=1.0")]`. */
  lemma SingleEdgeExample()
    ensures ParseDependency(Some("b|>=1.0|PKGDEP")) ==
              Ok([Group("PKGDEP", [Edge("b", ">=1.0")])])
    ensures Label("PKGDEP") == Some("Depends")
  {
    var t := Triple("b", ">=1.0", "PKGDEP");
    var text := t.dep + [FieldSep] + t.ver + [FieldSep] + t.rel;
    assert text == "b|>=1.0|PKGDEP";
    assert FormatItem(t) == text;
    SingleEdge(t);
    DependsLabel();
  }

  lemma DependsLabel()
    ensures Label("PKGDEP") == Some("Depends")
  {
    assert DepRel[0] == ("PKGDEP", "Depends");
  }

  /** A tag the label table does not know is filed like any other tag. */
  lemma UnknownTagExample()
    ensures ParseDependency(Some("b||PKGSUGGEST")) ==
              Ok([Group("PKGSUGGEST", [Edge("b", "")])])
  {
    var t := Triple("b", "", "PKGSUGGEST");
    var text := t.dep + [FieldSep] + t.ver + [FieldSep] + t.rel;
    assert text == "b||PKGSUGGEST";
    assert FormatItem(t) == text;
    SingleEdge(t);
  }

  /** `PKGSUGGEST` has no label in the table. */
  lemma UnknownTagLabel()
    ensures Label("PKGSUGGEST") == None
  {
    assert "PKGSUGGEST"[3] == 'S';
    assert DepRel[0].0[3] == 'D' && DepRel[1].0[3] != 'S' && DepRel[2].0[3] == 'R';
    assert DepRel[3].0[3] == 'R' && DepRel[4].0[3] == 'C' && DepRel[5].0[3] == 'B';
  }

  /** A malformed item is never skipped: the field fails exactly when some
      item does not split into three fields, and the error names the first
      such item and its field count. */
  lemma MalformedFails(s: string)
    requires s != ""
    ensures var items := Split(s, ItemSep);
            ParseDependency(Some(s)).Err? <==>
              exists i :: 0 <= i < |items| && Occurrences(items[i], FieldSep) != 2
    ensures var items := Split(s, ItemSep);
            ParseDependency(Some(s)).Err? ==>
              exists i :: 0 <= i < |items|
                && ParseDependency(Some(s)).error == FieldCount(items[i], Occurrences(items[i], FieldSep) + 1)
                && forall j :: 0 <= j < i ==> Occurrences(items[j], FieldSep) == 2
  {
    ParseDependencySpec(s);
  }
}
