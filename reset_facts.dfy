/** The graph `buildInitialGraph` shows for a selected table. */
module ResetFacts {
  import opened Strings
  import opened Sorting
  import opened OrderedMaps
  import opened DataParser
  import opened GraphSpec

  lemma RootIds(fs: seq<FieldEntry>)
    ensures Ids(seq(|fs|, i requires 0 <= i < |fs| => RootFieldNode(fs[i]))) == set e | e in fs :: e.key
  {
    var ns := seq(|fs|, i requires 0 <= i < |fs| => RootFieldNode(fs[i]));
    forall k | k in Ids(ns)
      ensures k in set e | e in fs :: e.key
    {
      var n :| n in ns && n.id == k;
      var i :| 0 <= i < |ns| && ns[i] == n;
      assert fs[i] in fs;
    }
    forall k | k in set e | e in fs :: e.key
      ensures k in Ids(ns)
    {
      var e :| e in fs && e.key == k;
      var i :| 0 <= i < |fs| && fs[i] == e;
      assert ns[i] in ns;
    }
  }

  lemma InitialGraphIdSet(m: LineageMap, t: string)
    requires m.Valid()
    ensures forall k :: k in Ids(InitialGraph(m, t).nodes[1..]) <==> k in m.values && m.values[k].tableKey == t
  {
    var fs := TableFields(m, t);
    assert InitialGraph(m, t).nodes[1..] == seq(|fs|, i requires 0 <= i < |fs| => RootFieldNode(fs[i]));
    RootIds(fs);
    TableFieldsMembers(m, t);
    forall k | k in m.values && m.values[k].tableKey == t
      ensures k in set e | e in fs :: e.key
    {
      assert FieldEntry(k, m.values[k]) in fs;
    }
  }

  lemma InitialGraphDistinct(m: LineageMap, t: string)
    requires m.Valid()
    ensures var g := InitialGraph(m, t);
      forall i, j :: 1 <= i < j < |g.nodes| ==> g.nodes[i].id != g.nodes[j].id
  {
    var fs := TableFields(m, t);
    var g := InitialGraph(m, t);
    TableFieldsMembers(m, t);
    forall i, j | 1 <= i < j < |g.nodes|
      ensures g.nodes[i].id != g.nodes[j].id
    {
      assert g.nodes[i].id == fs[i - 1].key;
      assert g.nodes[j].id == fs[j - 1].key;
    }
  }

  /** The table's node comes first, then one node per record of the table,
      each once and linked to the table node by one edge; nothing is
      expanded. */
  lemma InitialGraphFields(m: LineageMap, t: string)
    requires m.Valid()
    ensures var g := InitialGraph(m, t);
      && |g.nodes| == |g.edges| + 1
      && g.nodes[0] == TableNode(RootTableId(t), t)
      && (forall i :: 0 <= i < |g.edges| ==> g.edges[i] == MkEdge(RootTableId(t), g.nodes[i + 1].id, TableToField))
      && g.expanded == {}
      && (forall k :: k in Ids(g.nodes[1..]) <==> k in m.values && m.values[k].tableKey == t)
      && (forall i, j :: 1 <= i < j < |g.nodes| ==> g.nodes[i].id != g.nodes[j].id)
  {
    InitialGraphIdSet(m, t);
    InitialGraphDistinct(m, t);
  }

  /** Each field node starts collapsed, shows its record's column, says
      whether the record has upstreams, and the nodes are ordered by column. */
  lemma InitialGraphFieldData(m: LineageMap, t: string)
    requires m.Valid()
    ensures var g := InitialGraph(m, t);
      && (forall i :: 1 <= i < |g.nodes| ==>
            && g.nodes[i].FieldNode?
            && g.nodes[i].id in m.values
            && g.nodes[i].fieldKey == g.nodes[i].id
            && g.nodes[i].column == m.values[g.nodes[i].id].column
            && !g.nodes[i].isExpanded
            && g.nodes[i].hasUpstream == (|m.values[g.nodes[i].id].upstreams| > 0))
      && (forall i, j :: 1 <= i < j < |g.nodes| ==> LessEq(g.nodes[i].column, g.nodes[j].column))
  {
    var fs := TableFields(m, t);
    var g := InitialGraph(m, t);
    TableFieldsMembers(m, t);
    TableFieldsOrdered(m, t);
    forall i | 1 <= i < |g.nodes|
      ensures g.nodes[i] == RootFieldNode(fs[i - 1])
      ensures fs[i - 1].key in m.values && fs[i - 1].record == m.values[fs[i - 1].key]
    {
      assert fs[i - 1] in fs;
    }
    forall i, j | 1 <= i < j < |g.nodes|
      ensures LessEq(g.nodes[i].column, g.nodes[j].column)
    {
      assert LessEq(Column(fs[i - 1]), Column(fs[j - 1]));
    }
  }
}
