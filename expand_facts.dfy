/** What `addUpstreamNodes` adds, stated without the grouping by table:
    up to reordering, the new edges are those of each upstream ref taken
    one at a time, and the new nodes are each group's table node plus the
    field node of each ref. */
module ExpandFacts {
  import opened Strings
  import opened OrderedMaps
  import opened DataParser
  import opened GraphSpec

  // ---------------------------------------------------------------------
  // The grouping

  function TableKeysOf(ups: seq<UpstreamRef>): seq<string>
  {
    seq(|ups|, i requires 0 <= i < |ups| => ups[i].tableKey)
  }

  /** The refs of `ups` on table `tk`, in their order. */
  function RefsOfTable(ups: seq<UpstreamRef>, tk: string): seq<UpstreamRef>
  {
    if |ups| == 0 then []
    else RefsOfTable(ups[..|ups| - 1], tk) + (if ups[|ups| - 1].tableKey == tk then [ups[|ups| - 1]] else [])
  }

  lemma {:induction false} GroupKeys(ups: seq<UpstreamRef>)
    ensures GroupByTable(ups).keys == Dedup(TableKeysOf(ups))
  {
    if |ups| > 0 {
      var init := ups[..|ups| - 1];
      var u := ups[|ups| - 1];
      var g0 := GroupByTable(init);
      GroupKeys(init);
      assert GroupByTable(ups) == GroupStep(g0, u);
      assert TableKeysOf(ups)[..|ups| - 1] == TableKeysOf(init);
      assert TableKeysOf(ups)[|ups| - 1] == u.tableKey;
      var d := Dedup(TableKeysOf(init));
      assert Dedup(TableKeysOf(ups)) == if u.tableKey in d then d else d + [u.tableKey];
      assert u.tableKey in g0.values <==> u.tableKey in g0.keys;
      assert GroupByTable(ups).keys == if u.tableKey in g0.values then g0.keys else g0.keys + [u.tableKey];
    }
  }

  lemma {:induction false} GroupValues(ups: seq<UpstreamRef>)
    ensures forall tk | tk in GroupByTable(ups).values :: GroupByTable(ups).values[tk] == RefsOfTable(ups, tk)
    ensures forall tk | tk !in GroupByTable(ups).values :: RefsOfTable(ups, tk) == []
  {
    if |ups| > 0 {
      var init := ups[..|ups| - 1];
      var u := ups[|ups| - 1];
      var g0 := GroupByTable(init);
      var g := GroupByTable(ups);
      GroupValues(init);
      assert g == GroupStep(g0, u);
      forall tk | tk in g.values
        ensures g.values[tk] == RefsOfTable(ups, tk)
      {
        assert RefsOfTable(ups, tk) == RefsOfTable(init, tk) + (if u.tableKey == tk then [u] else []);
      }
      forall tk | tk !in g.values
        ensures RefsOfTable(ups, tk) == []
      {
        assert RefsOfTable(ups, tk) == RefsOfTable(init, tk);
      }
    }
  }

  /** The groups are the distinct table keys in order of first appearance,
      each holding exactly the refs on that table, in their order. */
  lemma GroupByTableContents(ups: seq<UpstreamRef>)
    ensures GroupByTable(ups).keys == Dedup(TableKeysOf(ups))
    ensures forall tk | tk in GroupByTable(ups).values :: GroupByTable(ups).values[tk] == RefsOfTable(ups, tk)
    ensures forall tk | tk !in GroupByTable(ups).values :: RefsOfTable(ups, tk) == []
  {
    GroupKeys(ups);
    GroupValues(ups);
  }

  lemma {:induction false} RefsOfTableKey(ups: seq<UpstreamRef>, tk: string)
    ensures forall u | u in RefsOfTable(ups, tk) :: u.tableKey == tk
  {
    if |ups| > 0 {
      RefsOfTableKey(ups[..|ups| - 1], tk);
    }
  }

  /** Every ref sits in the group of its own table. */
  lemma {:induction false} GroupsUniform(ups: seq<UpstreamRef>)
    ensures forall tk | tk in GroupByTable(ups).values ::
              forall u | u in GroupByTable(ups).values[tk] :: u.tableKey == tk
  {
    GroupByTableContents(ups);
    forall tk | tk in GroupByTable(ups).values
      ensures forall u | u in GroupByTable(ups).values[tk] :: u.tableKey == tk
    {
      RefsOfTableKey(ups, tk);
    }
  }

  // ---------------------------------------------------------------------
  // Per-ref output, concatenated in ref order or group by group

  function FlatMap<X>(refs: seq<UpstreamRef>, f: UpstreamRef -> seq<X>): seq<X>
  {
    if |refs| == 0 then [] else FlatMap(refs[..|refs| - 1], f) + f(refs[|refs| - 1])
  }

  function GroupsFlat<X>(gkeys: seq<string>, gvals: map<string, seq<UpstreamRef>>, f: UpstreamRef -> seq<X>): seq<X>
    requires forall k | k in gkeys :: k in gvals
  {
    if |gkeys| == 0 then []
    else GroupsFlat(gkeys[..|gkeys| - 1], gvals, f) + FlatMap(gvals[gkeys[|gkeys| - 1]], f)
  }

  lemma {:induction false} GroupsFlatFrame<X>(gkeys: seq<string>, v1: map<string, seq<UpstreamRef>>,
                                              v2: map<string, seq<UpstreamRef>>, f: UpstreamRef -> seq<X>)
    requires forall k | k in gkeys :: k in v1 && k in v2 && v1[k] == v2[k]
    ensures GroupsFlat(gkeys, v1, f) == GroupsFlat(gkeys, v2, f)
  {
    if |gkeys| > 0 {
      GroupsFlatFrame(gkeys[..|gkeys| - 1], v1, v2, f);
    }
  }

  /** Appending a ref to an existing group adds its output once. */
  lemma {:induction false} GroupsFlatExtend<X>(gkeys: seq<string>, gvals: map<string, seq<UpstreamRef>>,
                                               tk: string, u: UpstreamRef, f: UpstreamRef -> seq<X>)
    requires Distinct(gkeys) && tk in gkeys
    requires forall k | k in gkeys :: k in gvals
    ensures multiset(GroupsFlat(gkeys, gvals[tk := gvals[tk] + [u]], f))
            == multiset(GroupsFlat(gkeys, gvals, f)) + multiset(f(u))
  {
    var gvals' := gvals[tk := gvals[tk] + [u]];
    var init := gkeys[..|gkeys| - 1];
    var last := gkeys[|gkeys| - 1];
    assert (gvals[tk] + [u])[..|gvals[tk]|] == gvals[tk];
    if last == tk {
      assert tk !in init;
      GroupsFlatFrame(init, gvals', gvals, f);
    } else {
      GroupsFlatExtend(init, gvals, tk, u, f);
    }
  }

  /** Grouping reorders the per-ref output and loses or adds nothing. */
  lemma {:induction false} GroupsFlatPermutation<X>(ups: seq<UpstreamRef>, f: UpstreamRef -> seq<X>)
    ensures multiset(GroupsFlat(GroupByTable(ups).keys, GroupByTable(ups).values, f))
            == multiset(FlatMap(ups, f))
  {
    if |ups| > 0 {
      var init := ups[..|ups| - 1];
      var u := ups[|ups| - 1];
      var g := GroupByTable(init);
      GroupsFlatPermutation(init, f);
      if u.tableKey in g.values {
        GroupsFlatExtend(g.keys, g.values, u.tableKey, u, f);
      } else {
        var g' := GroupByTable(ups);
        assert g'.keys == g.keys + [u.tableKey];
        assert g'.keys[..|g.keys|] == g.keys;
        GroupsFlatFrame(g.keys, g'.values, g.values, f);
        assert FlatMap([u], f) == f(u);
      }
    }
  }

  // ---------------------------------------------------------------------
  // The reference definition: each ref on its own

  /** The edges one ref contributes: a table edge from its table's node when
      its field node is new, then its arrow into `key`. */
  function OwnEdges(ids: set<string>, key: string, u: UpstreamRef): seq<Edge>
  {
    RefEdges(ids, key, UpstreamTableId(u.tableKey, key), u)
  }

  function PerRefEdges(ids: set<string>, key: string, ups: seq<UpstreamRef>): seq<Edge>
  {
    if |ups| == 0 then [] else PerRefEdges(ids, key, ups[..|ups| - 1]) + OwnEdges(ids, key, ups[|ups| - 1])
  }

  /** One table node per table, for the tables whose node is new. */
  function TableHeads(ids: set<string>, key: string, tks: seq<string>): seq<Node>
  {
    if |tks| == 0 then [] else TableHeads(ids, key, tks[..|tks| - 1]) + GroupHead(ids, key, tks[|tks| - 1])
  }

  lemma {:induction false} PerRefEdgesFlat(ids: set<string>, key: string, ups: seq<UpstreamRef>,
                                           f: UpstreamRef -> seq<Edge>)
    requires forall u :: f(u) == OwnEdges(ids, key, u)
    ensures PerRefEdges(ids, key, ups) == FlatMap(ups, f)
  {
    if |ups| > 0 {
      PerRefEdgesFlat(ids, key, ups[..|ups| - 1], f);
    }
  }

  lemma {:induction false} RefsNodesFlat(m: LineageMap, ids: set<string>, expanded: set<string>, key: string,
                                           ups: seq<UpstreamRef>, f: UpstreamRef -> seq<Node>)
    requires forall u :: f(u) == RefNodes(m, ids, expanded, key, u)
    ensures RefsNodes(m, ids, expanded, key, ups) == FlatMap(ups, f)
  {
    if |ups| > 0 {
      RefsNodesFlat(m, ids, expanded, key, ups[..|ups| - 1], f);
    }
  }

  lemma {:induction false} RefsEdgesFlat(ids: set<string>, key: string, tk: string, refs: seq<UpstreamRef>,
                                         f: UpstreamRef -> seq<Edge>)
    requires forall u :: f(u) == OwnEdges(ids, key, u)
    requires forall u | u in refs :: u.tableKey == tk
    ensures RefsEdges(ids, key, UpstreamTableId(tk, key), refs) == FlatMap(refs, f)
  {
    if |refs| > 0 {
      RefsEdgesFlat(ids, key, tk, refs[..|refs| - 1], f);
    }
  }

  lemma {:induction false} GroupsEdgesFlat(ids: set<string>, key: string, gkeys: seq<string>,
                                           gvals: map<string, seq<UpstreamRef>>, f: UpstreamRef -> seq<Edge>)
    requires forall u :: f(u) == OwnEdges(ids, key, u)
    requires forall k | k in gkeys :: k in gvals && forall u | u in gvals[k] :: u.tableKey == k
    ensures GroupsEdges(ids, key, gkeys, gvals) == GroupsFlat(gkeys, gvals, f)
  {
    if |gkeys| > 0 {
      var tk := gkeys[|gkeys| - 1];
      GroupsEdgesFlat(ids, key, gkeys[..|gkeys| - 1], gvals, f);
      RefsEdgesFlat(ids, key, tk, gvals[tk], f);
    }
  }

  lemma {:induction false} GroupsNodesSplit(m: LineageMap, ids: set<string>, expanded: set<string>, key: string,
                                            gkeys: seq<string>, gvals: map<string, seq<UpstreamRef>>,
                                            f: UpstreamRef -> seq<Node>)
    requires forall u :: f(u) == RefNodes(m, ids, expanded, key, u)
    requires forall k | k in gkeys :: k in gvals
    ensures multiset(GroupsNodes(m, ids, expanded, key, gkeys, gvals))
            == multiset(TableHeads(ids, key, gkeys)) + multiset(GroupsFlat(gkeys, gvals, f))
  {
    if |gkeys| > 0 {
      var tk := gkeys[|gkeys| - 1];
      GroupsNodesSplit(m, ids, expanded, key, gkeys[..|gkeys| - 1], gvals, f);
      RefsNodesFlat(m, ids, expanded, key, gvals[tk], f);
    }
  }

  /** Up to order, the edges `addUpstreamNodes` appends are those of the
      refs taken one at a time. */
  lemma ExpandedEdgesPerRef(g: Graph, key: string, ups: seq<UpstreamRef>)
    ensures multiset(ExpandedEdges(g, key, ups)) == multiset(PerRefEdges(Ids(g.nodes), key, ups))
  {
    var ids := Ids(g.nodes);
    var groups := GroupByTable(ups);
    var f := (u: UpstreamRef) => OwnEdges(ids, key, u);
    GroupsUniform(ups);
    GroupsEdgesFlat(ids, key, groups.keys, groups.values, f);
    GroupsFlatPermutation(ups, f);
    PerRefEdgesFlat(ids, key, ups, f);
  }

  /** Up to order, the nodes `addUpstreamNodes` appends are a table node
      for each distinct table of the refs (when new) and the field node of
      each ref (when new). */
  lemma ExpandedNodesPerRef(m: LineageMap, g: Graph, key: string, ups: seq<UpstreamRef>)
    ensures multiset(ExpandedNodes(m, g, key, ups))
            == multiset(TableHeads(Ids(g.nodes), key, Dedup(TableKeysOf(ups))))
               + multiset(RefsNodes(m, Ids(g.nodes), g.expanded, key, ups))
  {
    var ids := Ids(g.nodes);
    var groups := GroupByTable(ups);
    var f := (u: UpstreamRef) => RefNodes(m, ids, g.expanded, key, u);
    GroupByTableContents(ups);
    GroupsNodesSplit(m, ids, g.expanded, key, groups.keys, groups.values, f);
    GroupsFlatPermutation(ups, f);
    RefsNodesFlat(m, ids, g.expanded, key, ups, f);
  }

  // ---------------------------------------------------------------------
  // Arrows: one per upstream ref

  function Arrows(es: seq<Edge>): seq<Edge>
  {
    if |es| == 0 then []
    else Arrows(es[..|es| - 1]) + (if es[|es| - 1].kind == FieldToUpstream then [es[|es| - 1]] else [])
  }

  function ArrowOf(key: string, u: UpstreamRef): Edge
  {
    MkEdge(UpstreamFieldId(u.fieldKey, key), key, FieldToUpstream)
  }

  lemma {:induction false} ArrowsShorter(es: seq<Edge>)
    ensures |Arrows(es)| <= |es|
  {
    if |es| > 0 {
      ArrowsShorter(es[..|es| - 1]);
    }
  }

  lemma {:induction false} ArrowsAppend(a: seq<Edge>, b: seq<Edge>)
    ensures Arrows(a + b) == Arrows(a) + Arrows(b)
  {
    if |b| > 0 {
      ArrowsAppend(a, b[..|b| - 1]);
      assert (a + b)[..|a + b| - 1] == a + b[..|b| - 1];
    } else {
      assert a + b == a;
    }
  }

  lemma {:induction false} ArrowsCount(es: seq<Edge>, e: Edge)
    ensures multiset(Arrows(es))[e] == if e.kind == FieldToUpstream then multiset(es)[e] else 0
  {
    if |es| > 0 {
      ArrowsCount(es[..|es| - 1], e);
      assert es == es[..|es| - 1] + [es[|es| - 1]];
    }
  }

  lemma ArrowsPermutation(a: seq<Edge>, b: seq<Edge>)
    requires multiset(a) == multiset(b)
    ensures multiset(Arrows(a)) == multiset(Arrows(b))
  {
    forall e
      ensures multiset(Arrows(a))[e] == multiset(Arrows(b))[e]
    {
      ArrowsCount(a, e);
      ArrowsCount(b, e);
    }
  }

  lemma OwnArrows(ids: set<string>, key: string, u: UpstreamRef)
    ensures Arrows(OwnEdges(ids, key, u)) == [ArrowOf(key, u)]
  {
    var tid := UpstreamTableId(u.tableKey, key);
    var fid := UpstreamFieldId(u.fieldKey, key);
    var table: seq<Edge> := if fid in ids then [] else [MkEdge(tid, fid, TableToField)];
    assert OwnEdges(ids, key, u) == table + [ArrowOf(key, u)];
    ArrowsAppend(table, [ArrowOf(key, u)]);
    assert Arrows([ArrowOf(key, u)]) == [ArrowOf(key, u)] by {
      assert [ArrowOf(key, u)][..0] == [];
    }
    if fid !in ids {
      assert Arrows(table) == [] by {
        assert table[..0] == [];
      }
    }
  }

  lemma {:induction false} ArrowsFlat(ups: seq<UpstreamRef>, f: UpstreamRef -> seq<Edge>, key: string)
    requires forall u :: Arrows(f(u)) == [ArrowOf(key, u)]
    ensures Arrows(FlatMap(ups, f)) == seq(|ups|, i requires 0 <= i < |ups| => ArrowOf(key, ups[i]))
  {
    if |ups| > 0 {
      var init := ups[..|ups| - 1];
      var u := ups[|ups| - 1];
      ArrowsFlat(init, f, key);
      ArrowsAppend(FlatMap(init, f), f(u));
      var prefix := seq(|init|, i requires 0 <= i < |init| => ArrowOf(key, init[i]));
      assert seq(|ups|, i requires 0 <= i < |ups| => ArrowOf(key, ups[i])) == prefix + [ArrowOf(key, u)];
    }
  }

  lemma PerRefArrows(ids: set<string>, key: string, ups: seq<UpstreamRef>)
    ensures Arrows(PerRefEdges(ids, key, ups)) == seq(|ups|, i requires 0 <= i < |ups| => ArrowOf(key, ups[i]))
  {
    var f := (u: UpstreamRef) => OwnEdges(ids, key, u);
    PerRefEdgesFlat(ids, key, ups, f);
    forall u
      ensures Arrows(f(u)) == [ArrowOf(key, u)]
    {
      OwnArrows(ids, key, u);
    }
    ArrowsFlat(ups, f, key);
  }

  lemma ExpandArrowsMultiset(g: Graph, key: string, ups: seq<UpstreamRef>)
    ensures multiset(Arrows(ExpandedEdges(g, key, ups)))
            == multiset(seq(|ups|, i requires 0 <= i < |ups| => ArrowOf(key, ups[i])))
  {
    ExpandedEdgesPerRef(g, key, ups);
    ArrowsPermutation(ExpandedEdges(g, key, ups), PerRefEdges(Ids(g.nodes), key, ups));
    PerRefArrows(Ids(g.nodes), key, ups);
  }

  /** Expanding `key` adds exactly one arrow into `key` per upstream ref,
      from that ref's field node: as many arrows as refs. */
  lemma ExpandArrows(g: Graph, key: string, ups: seq<UpstreamRef>)
    ensures multiset(Arrows(ExpandedEdges(g, key, ups)))
            == multiset(seq(|ups|, i requires 0 <= i < |ups| => ArrowOf(key, ups[i])))
    ensures |Arrows(ExpandedEdges(g, key, ups))| == |ups|
  {
    ExpandArrowsMultiset(g, key, ups);
    var arrows := Arrows(ExpandedEdges(g, key, ups));
    var expected := seq(|ups|, i requires 0 <= i < |ups| => ArrowOf(key, ups[i]));
    assert |multiset(arrows)| == |arrows|;
    assert |multiset(expected)| == |expected|;
  }

  // ---------------------------------------------------------------------
  // Which nodes and edges are new

  /** The field node created for ref `u` when expanding `key`. */
  function NewFieldNode(m: LineageMap, expanded: set<string>, key: string, u: UpstreamRef): Node
  {
    FieldNode(UpstreamFieldId(u.fieldKey, key), u.column, u.fieldKey, u.fieldKey in expanded,
              u.fieldKey in m.values && |m.values[u.fieldKey].upstreams| > 0, u.sqlFile, u.unionBranch)
  }

  predicate IsNewEdge(ids: set<string>, key: string, ups: seq<UpstreamRef>, e: Edge)
  {
    exists u | u in ups ::
      e == ArrowOf(key, u)
      || (UpstreamFieldId(u.fieldKey, key) !in ids
          && e == MkEdge(UpstreamTableId(u.tableKey, key), UpstreamFieldId(u.fieldKey, key), TableToField))
  }

  predicate IsNewNode(m: LineageMap, ids: set<string>, expanded: set<string>, key: string,
                      ups: seq<UpstreamRef>, n: Node)
  {
    exists u | u in ups ::
      (UpstreamTableId(u.tableKey, key) !in ids && n == TableNode(UpstreamTableId(u.tableKey, key), u.tableKey))
      || (UpstreamFieldId(u.fieldKey, key) !in ids && n == NewFieldNode(m, expanded, key, u))
  }

  lemma {:induction false} PerRefEdgesMembers(ids: set<string>, key: string, ups: seq<UpstreamRef>)
    ensures forall e :: e in PerRefEdges(ids, key, ups) <==> IsNewEdge(ids, key, ups, e)
  {
    if |ups| > 0 {
      var init := ups[..|ups| - 1];
      PerRefEdgesMembers(ids, key, init);
      assert ups == init + [ups[|ups| - 1]];
    }
  }

  lemma {:induction false} TableHeadsMembers(ids: set<string>, key: string, tks: seq<string>)
    ensures forall n :: n in TableHeads(ids, key, tks) <==>
              exists tk | tk in tks :: UpstreamTableId(tk, key) !in ids && n == TableNode(UpstreamTableId(tk, key), tk)
  {
    if |tks| > 0 {
      var init := tks[..|tks| - 1];
      TableHeadsMembers(ids, key, init);
      assert tks == init + [tks[|tks| - 1]];
    }
  }

  lemma {:induction false} RefsNodesMembers(m: LineageMap, ids: set<string>, expanded: set<string>, key: string,
                                              ups: seq<UpstreamRef>)
    ensures forall n :: n in RefsNodes(m, ids, expanded, key, ups) <==>
              exists u | u in ups :: UpstreamFieldId(u.fieldKey, key) !in ids && n == NewFieldNode(m, expanded, key, u)
  {
    if |ups| > 0 {
      var init := ups[..|ups| - 1];
      RefsNodesMembers(m, ids, expanded, key, init);
      assert ups == init + [ups[|ups| - 1]];
    }
  }

  lemma TableKeysOfMembers(ups: seq<UpstreamRef>)
    ensures forall tk :: tk in Dedup(TableKeysOf(ups)) <==> exists u | u in ups :: u.tableKey == tk
  {
    DedupProperties(TableKeysOf(ups));
    forall tk | tk in TableKeysOf(ups)
      ensures exists u | u in ups :: u.tableKey == tk
    {
      var i :| 0 <= i < |ups| && TableKeysOf(ups)[i] == tk;
      assert ups[i] in ups;
    }
    forall u | u in ups
      ensures u.tableKey in TableKeysOf(ups)
    {
      var i :| 0 <= i < |ups| && ups[i] == u;
      assert TableKeysOf(ups)[i] == u.tableKey;
    }
  }

  /** An edge is appended by expanding `key` exactly when it is the arrow of
      some ref, or the table edge of a ref whose field node did not exist. */
  lemma ExpandedEdgesMembers(g: Graph, key: string, ups: seq<UpstreamRef>)
    ensures forall e :: e in ExpandedEdges(g, key, ups) <==> IsNewEdge(Ids(g.nodes), key, ups, e)
  {
    ExpandedEdgesPerRef(g, key, ups);
    PerRefEdgesMembers(Ids(g.nodes), key, ups);
    forall e
      ensures e in ExpandedEdges(g, key, ups) <==> e in PerRefEdges(Ids(g.nodes), key, ups)
    {
      assert e in ExpandedEdges(g, key, ups) <==> e in multiset(ExpandedEdges(g, key, ups));
    }
  }

  /** A node is appended by expanding `key` exactly when it is the table
      node of a ref's table or the field node of a ref, and no node had
      its id before. */
  lemma ExpandedNodesMembers(m: LineageMap, g: Graph, key: string, ups: seq<UpstreamRef>)
    ensures forall n :: n in ExpandedNodes(m, g, key, ups) <==> IsNewNode(m, Ids(g.nodes), g.expanded, key, ups, n)
  {
    var ids := Ids(g.nodes);
    var heads := TableHeads(ids, key, Dedup(TableKeysOf(ups)));
    var fields := RefsNodes(m, ids, g.expanded, key, ups);
    ExpandedNodesPerRef(m, g, key, ups);
    TableHeadsMembers(ids, key, Dedup(TableKeysOf(ups)));
    RefsNodesMembers(m, ids, g.expanded, key, ups);
    TableKeysOfMembers(ups);
    forall n
      ensures n in ExpandedNodes(m, g, key, ups) <==> n in heads || n in fields
    {
      assert n in ExpandedNodes(m, g, key, ups) <==> n in multiset(ExpandedNodes(m, g, key, ups));
      assert n in heads + fields <==> n in multiset(heads + fields);
    }
  }

  lemma SuffixNotEqual(a: string, key: string)
    requires |a| > 0
    ensures a + key != key
  {
    assert |a + key| > |key|;
  }

  lemma SetExpandedAppend(a: seq<Node>, b: seq<Node>, key: string, x: bool)
    requires forall n | n in b :: n.id != key
    ensures SetExpanded(a + b, key, x) == SetExpanded(a, key, x) + b
  {
    var r := SetExpanded(a + b, key, x);
    forall i | 0 <= i < |r|
      ensures r[i] == (SetExpanded(a, key, x) + b)[i]
    {
      if i >= |a| {
        assert (a + b)[i] == b[i - |a|];
      }
    }
  }

  /** Expanding a present `key` keeps every existing node and edge in
      place, marks the node of `key` expanded and only appends nodes whose
      ids are new, end in `key` and differ from it. */
  lemma ExpandKeepsGraph(m: LineageMap, g: Graph, key: string, ups: seq<UpstreamRef>)
    requires key in Ids(g.nodes)
    ensures forall n | n in ExpandedNodes(m, g, key, ups) :: n.id !in Ids(g.nodes) && n.id != key
    ensures Expand(m, g, key, ups).nodes == SetExpanded(g.nodes, key, true) + ExpandedNodes(m, g, key, ups)
    ensures Expand(m, g, key, ups).edges[..|g.edges|] == g.edges
    ensures Expand(m, g, key, ups).expanded == g.expanded
  {
    ExpandedNodesMembers(m, g, key, ups);
    forall n | n in ExpandedNodes(m, g, key, ups)
      ensures n.id !in Ids(g.nodes) && n.id != key
    {
      var u :| u in ups &&
        ((UpstreamTableId(u.tableKey, key) !in Ids(g.nodes) && n == TableNode(UpstreamTableId(u.tableKey, key), u.tableKey))
         || (UpstreamFieldId(u.fieldKey, key) !in Ids(g.nodes) && n == NewFieldNode(m, g.expanded, key, u)));
      if n.TableNode? {
        SuffixNotEqual("table-" + u.tableKey + "-", key);
        assert n.id == "table-" + u.tableKey + "-" + key;
      } else {
        SuffixNotEqual(u.fieldKey + "-from-", key);
        assert n.id == u.fieldKey + "-from-" + key;
      }
    }
    SetExpandedAppend(g.nodes, ExpandedNodes(m, g, key, ups), key, true);
  }

  lemma {:induction false} FlatMapCount<X>(ups: seq<UpstreamRef>, f: UpstreamRef -> seq<X>, u: UpstreamRef, x: X)
    requires x in f(u)
    ensures multiset(FlatMap(ups, f))[x] >= multiset(ups)[u]
  {
    if |ups| > 0 {
      var init := ups[..|ups| - 1];
      var last := ups[|ups| - 1];
      FlatMapCount(init, f, u, x);
      assert ups == init + [last];
      assert multiset(FlatMap(ups, f)) == multiset(FlatMap(init, f)) + multiset(f(last));
    }
  }

  lemma RefsNodesCount(m: LineageMap, ids: set<string>, expanded: set<string>, key: string,
                       ups: seq<UpstreamRef>, u: UpstreamRef)
    requires UpstreamFieldId(u.fieldKey, key) !in ids
    ensures multiset(RefsNodes(m, ids, expanded, key, ups))[NewFieldNode(m, expanded, key, u)] >= multiset(ups)[u]
  {
    var f := (r: UpstreamRef) => RefNodes(m, ids, expanded, key, r);
    RefsNodesFlat(m, ids, expanded, key, ups, f);
    assert f(u) == [NewFieldNode(m, expanded, key, u)];
    FlatMapCount(ups, f, u, NewFieldNode(m, expanded, key, u));
  }

  /** Existence is checked against the nodes before the call, so a ref
      listed several times yields its field node, with one and the same
      id, as many times. */
  lemma DuplicateRefNodes(m: LineageMap, g: Graph, key: string, ups: seq<UpstreamRef>, u: UpstreamRef)
    requires UpstreamFieldId(u.fieldKey, key) !in Ids(g.nodes)
    ensures multiset(ExpandedNodes(m, g, key, ups))[NewFieldNode(m, g.expanded, key, u)] >= multiset(ups)[u]
  {
    var ids := Ids(g.nodes);
    var n := NewFieldNode(m, g.expanded, key, u);
    ExpandedNodesPerRef(m, g, key, ups);
    HeadsHoldNoField(ids, key, Dedup(TableKeysOf(ups)), n);
    RefsNodesCount(m, ids, g.expanded, key, ups, u);
  }

  lemma HeadsHoldNoField(ids: set<string>, key: string, tks: seq<string>, n: Node)
    requires n.FieldNode?
    ensures multiset(TableHeads(ids, key, tks))[n] == 0
  {
    TableHeadsMembers(ids, key, tks);
  }

  lemma {:induction false} ArrowSeqCount(key: string, ups: seq<UpstreamRef>, u: UpstreamRef)
    ensures multiset(seq(|ups|, i requires 0 <= i < |ups| => ArrowOf(key, ups[i])))[ArrowOf(key, u)] >= multiset(ups)[u]
  {
    if |ups| > 0 {
      var init := ups[..|ups| - 1];
      var last := ups[|ups| - 1];
      ArrowSeqCount(key, init, u);
      var prefix := seq(|init|, i requires 0 <= i < |init| => ArrowOf(key, init[i]));
      assert seq(|ups|, i requires 0 <= i < |ups| => ArrowOf(key, ups[i])) == prefix + [ArrowOf(key, last)];
      assert ups == init + [last];
    }
  }

  /** A ref listed several times yields its arrow, with one and the same
      edge id, as many times. */
  lemma DuplicateRefArrows(g: Graph, key: string, ups: seq<UpstreamRef>, u: UpstreamRef)
    ensures multiset(Arrows(ExpandedEdges(g, key, ups)))[ArrowOf(key, u)] >= multiset(ups)[u]
  {
    ExpandArrowsMultiset(g, key, ups);
    ArrowSeqCount(key, ups, u);
  }
}
