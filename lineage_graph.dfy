/** The `LineageGraph` component of `src/components/LineageGraph.jsx` as an
    object: its React state `nodes`, `edges` and `expandedFields` are
    fields, each `setX` call an assignment, and every handler runs to
    completion on the current state. Each method is proved to compute the
    corresponding function of `GraphSpec`. */
module LineageGraphs {
  import opened Wrappers
  import opened Strings
  import opened OrderedMaps
  import opened DataParser
  import opened GraphSpec

  /** `has`/`set([])` followed by `get(..).push(u)` is one `GroupStep`. */
  lemma PushToGroup(g: OrderedMap<seq<UpstreamRef>>, u: UpstreamRef)
    ensures var h := if u.tableKey in g.values then g else g.Set(u.tableKey, []);
            h.Set(u.tableKey, h.values[u.tableKey] + [u]) == GroupStep(g, u)
  {
    if u.tableKey !in g.values {
      SetTwice(g, u.tableKey, [], [u]);
    }
  }

  lemma GroupByTableSnoc(ups: seq<UpstreamRef>, i: nat)
    requires i < |ups|
    ensures GroupByTable(ups[..i + 1]) == GroupStep(GroupByTable(ups[..i]), ups[i])
  {
    assert ups[..i + 1][..i] == ups[..i];
  }

  /** The `tableGroups` loop of `addUpstreamNodes`. */
  method GroupUpstreams(upstreams: seq<UpstreamRef>) returns (tableGroups: OrderedMap<seq<UpstreamRef>>)
    ensures tableGroups == GroupByTable(upstreams)
  {
    tableGroups := Empty();
    var i := 0;
    while i < |upstreams|
      invariant 0 <= i <= |upstreams|
      invariant tableGroups == GroupByTable(upstreams[..i])
    {
      var upstream := upstreams[i];
      PushToGroup(tableGroups, upstream);
      GroupByTableSnoc(upstreams, i);
      if upstream.tableKey !in tableGroups.values {
        tableGroups := tableGroups.Set(upstream.tableKey, []);
      }
      tableGroups := tableGroups.Set(upstream.tableKey, tableGroups.values[upstream.tableKey] + [upstream]);
      i := i + 1;
    }
    assert upstreams[..i] == upstreams;
  }

  lemma RefsSnoc(m: LineageMap, ids: set<string>, expanded: set<string>, key: string, tid: string,
                 refs: seq<UpstreamRef>, j: nat)
    requires j < |refs|
    ensures RefsNodes(m, ids, expanded, key, refs[..j + 1])
            == RefsNodes(m, ids, expanded, key, refs[..j]) + RefNodes(m, ids, expanded, key, refs[j])
    ensures RefsEdges(ids, key, tid, refs[..j + 1]) == RefsEdges(ids, key, tid, refs[..j]) + RefEdges(ids, key, tid, refs[j])
  {
    assert refs[..j + 1][..j] == refs[..j];
  }

  /** The nodes and edges one field of a group adds extend the group's
      running output by that field's `RefNodes` and `RefEdges`. */
  lemma FieldAdded(m: LineageMap, ids: set<string>, expanded: set<string>, key: string, tid: string,
                   refs: seq<UpstreamRef>, j: nat, head: seq<Node>,
                   nodes0: seq<Node>, edges0: seq<Edge>, nodes1: seq<Node>, edges1: seq<Edge>)
    requires j < |refs|
    requires nodes0 == head + RefsNodes(m, ids, expanded, key, refs[..j])
    requires edges0 == RefsEdges(ids, key, tid, refs[..j])
    requires nodes1 == nodes0 + RefNodes(m, ids, expanded, key, refs[j])
    requires edges1 == edges0 + RefEdges(ids, key, tid, refs[j])
    ensures nodes1 == head + RefsNodes(m, ids, expanded, key, refs[..j + 1])
    ensures edges1 == RefsEdges(ids, key, tid, refs[..j + 1])
  {
    RefsSnoc(m, ids, expanded, key, tid, refs, j);
    assert (head + RefsNodes(m, ids, expanded, key, refs[..j])) + RefNodes(m, ids, expanded, key, refs[j])
        == head + (RefsNodes(m, ids, expanded, key, refs[..j]) + RefNodes(m, ids, expanded, key, refs[j]));
  }

  /** Appending one group's additions extends the running output of the
      groups before it to the output of one more group. */
  lemma GroupAdded(m: LineageMap, ids: set<string>, expanded: set<string>, key: string,
                   gkeys: seq<string>, gvals: map<string, seq<UpstreamRef>>, g: nat,
                   nodes0: seq<Node>, edges0: seq<Edge>, groupNodes: seq<Node>, groupEdges: seq<Edge>)
    requires g < |gkeys|
    requires forall k | k in gkeys :: k in gvals
    requires nodes0 == GroupsNodes(m, ids, expanded, key, gkeys[..g], gvals)
    requires edges0 == GroupsEdges(ids, key, gkeys[..g], gvals)
    requires groupNodes == GroupHead(ids, key, gkeys[g]) + RefsNodes(m, ids, expanded, key, gvals[gkeys[g]])
    requires groupEdges == RefsEdges(ids, key, UpstreamTableId(gkeys[g], key), gvals[gkeys[g]])
    ensures nodes0 + groupNodes == GroupsNodes(m, ids, expanded, key, gkeys[..g + 1], gvals)
    ensures edges0 + groupEdges == GroupsEdges(ids, key, gkeys[..g + 1], gvals)
  {
    assert gkeys[..g + 1][..g] == gkeys[..g];
    assert gkeys[..g + 1][g] == gkeys[g];
    assert (nodes0 + GroupHead(ids, key, gkeys[g])) + RefsNodes(m, ids, expanded, key, gvals[gkeys[g]])
        == nodes0 + (GroupHead(ids, key, gkeys[g]) + RefsNodes(m, ids, expanded, key, gvals[gkeys[g]]));
  }

  /** One iteration of the `tableGroups.forEach` of `addUpstreamNodes`: the
      group's table node if it is new, then per field its node and
      table edge if new, and its arrow into `fieldKey`. */
  method GroupAdditions(lineageData: LineageMap, prevNodes: seq<Node>, prevExpanded: set<string>,
                        fieldKey: string, tableKey: string, fields: seq<UpstreamRef>)
    returns (newNodes: seq<Node>, newEdges: seq<Edge>)
    ensures newNodes == GroupHead(Ids(prevNodes), fieldKey, tableKey)
                        + RefsNodes(lineageData, Ids(prevNodes), prevExpanded, fieldKey, fields)
    ensures newEdges == RefsEdges(Ids(prevNodes), fieldKey, UpstreamTableId(tableKey, fieldKey), fields)
  {
    var ids := Ids(prevNodes);
    var tableNodeId := UpstreamTableId(tableKey, fieldKey);
    newNodes, newEdges := [], [];
    if tableNodeId !in ids {
      newNodes := newNodes + [TableNode(tableNodeId, tableKey)];
    }
    ghost var head := newNodes;
    var j := 0;
    while j < |fields|
      invariant 0 <= j <= |fields|
      invariant newNodes == head + RefsNodes(lineageData, ids, prevExpanded, fieldKey, fields[..j])
      invariant newEdges == RefsEdges(ids, fieldKey, tableNodeId, fields[..j])
    {
      var field := fields[j];
      ghost var nodes0, edges0 := newNodes, newEdges;
      var upstreamFieldId := UpstreamFieldId(field.fieldKey, fieldKey);
      if upstreamFieldId !in ids {
        newNodes := newNodes + [FieldNode(upstreamFieldId, field.column, field.fieldKey,
                                          field.fieldKey in prevExpanded,
                                          field.fieldKey in lineageData.values &&
                                            |lineageData.values[field.fieldKey].upstreams| > 0,
                                          field.sqlFile, field.unionBranch)];
        newEdges := newEdges + [MkEdge(tableNodeId, upstreamFieldId, TableToField)];
      }
      newEdges := newEdges + [MkEdge(upstreamFieldId, fieldKey, FieldToUpstream)];
      FieldAdded(lineageData, ids, prevExpanded, fieldKey, tableNodeId, fields, j, head, nodes0, edges0, newNodes, newEdges);
      j := j + 1;
    }
    assert fields[..j] == fields;
  }

  class LineageGraph {
    /** The `lineageData` prop: the index built by `ParseLineageData`. */
    const lineageData: LineageMap
    var nodes: seq<Node>
    var edges: seq<Edge>
    var expandedFields: set<string>

    function State(): Graph
      reads this
    {
      Graph(nodes, edges, expandedFields)
    }

    /** The three `useState` hooks start empty. */
    constructor (lineageData: LineageMap)
      ensures this.lineageData == lineageData
      ensures State() == Graph([], [], {})
    {
      this.lineageData := lineageData;
      nodes := [];
      edges := [];
      expandedFields := {};
    }

    /** The effect run when the selected table changes. */
    method SelectTable(initialTable: string)
      requires lineageData.Valid()
      modifies this
      ensures State() == GraphSpec.SelectTable(lineageData, old(State()), initialTable)
    {
      if initialTable == "" {
        return;
      }
      expandedFields := {};
      BuildInitialGraph(initialTable);
    }

    /** `buildInitialGraph`: the table node, then one field node and one
        edge per field of the table. */
    method BuildInitialGraph(tableKey: string)
      requires lineageData.Valid()
      modifies this
      ensures nodes == InitialGraph(lineageData, tableKey).nodes
      ensures edges == InitialGraph(lineageData, tableKey).edges
      ensures expandedFields == old(expandedFields)
    {
      var fields := GetTableFields(lineageData, tableKey);
      var newNodes: seq<Node> := [];
      var newEdges: seq<Edge> := [];
      var tableNode := TableNode("table-" + tableKey, tableKey);
      newNodes := newNodes + [tableNode];
      var index := 0;
      while index < |fields|
        invariant 0 <= index <= |fields|
        invariant newNodes == [tableNode] + seq(index, k requires 0 <= k < index => RootFieldNode(fields[k]))
        invariant newEdges == seq(index, k requires 0 <= k < index => RootEdge(tableKey, fields[k]))
      {
        var field := fields[index];
        newNodes := newNodes + [FieldNode(field.key, field.record.column, field.key, false,
                                          |field.record.upstreams| > 0, None, None)];
        newEdges := newEdges + [MkEdge(tableNode.id, field.key, TableToField)];
        index := index + 1;
      }
      nodes := newNodes;
      edges := newEdges;
    }

    /** `handleFieldExpand`: nothing for a field without upstreams; otherwise
        collapse it if it is expanded and expand it if not. */
    method HandleFieldExpand(fieldKey: string)
      modifies this
      ensures State() == Toggle(lineageData, old(State()), fieldKey)
    {
      var upstreams := GetFieldUpstreams(lineageData, fieldKey);
      if |upstreams| == 0 {
        return;
      }
      var newExpanded := expandedFields;
      if fieldKey in newExpanded {
        newExpanded := newExpanded - {fieldKey};
        RemoveUpstreamNodes(fieldKey);
      } else {
        newExpanded := newExpanded + {fieldKey};
        AddUpstreamNodes(fieldKey, upstreams);
      }
      expandedFields := newExpanded;
    }

    /** `addUpstreamNodes`: group the upstreams by table, append the missing
        table and field nodes and their edges, then mark `fieldKey` expanded.
        Existence checks consult the nodes as they were before the call. */
    method AddUpstreamNodes(fieldKey: string, upstreams: seq<UpstreamRef>)
      modifies this
      ensures State() == Expand(lineageData, old(State()), fieldKey, upstreams)
    {
      var prevNodes, prevEdges := nodes, edges;
      var prevExpanded := expandedFields;
      if fieldKey !in Ids(prevNodes) {
        return;
      }
      var newNodes: seq<Node> := [];
      var newEdges: seq<Edge> := [];
      var tableGroups := GroupUpstreams(upstreams);
      ghost var ids := Ids(prevNodes);
      var keys := tableGroups.keys;
      var g := 0;
      while g < |keys|
        invariant 0 <= g <= |keys|
        invariant unchanged(this)
        invariant newNodes == GroupsNodes(lineageData, ids, prevExpanded, fieldKey, keys[..g], tableGroups.values)
        invariant newEdges == GroupsEdges(ids, fieldKey, keys[..g], tableGroups.values)
      {
        var tableKey := keys[g];
        var groupNodes, groupEdges :=
          GroupAdditions(lineageData, prevNodes, prevExpanded, fieldKey, tableKey, tableGroups.values[tableKey]);
        GroupAdded(lineageData, ids, prevExpanded, fieldKey, keys, tableGroups.values, g,
                   newNodes, newEdges, groupNodes, groupEdges);
        newNodes := newNodes + groupNodes;
        newEdges := newEdges + groupEdges;
        g := g + 1;
      }
      assert keys[..g] == keys;
      nodes := SetExpanded(prevNodes + newNodes, fieldKey, true);
      edges := prevEdges + newEdges;
    }

    /** `removeUpstreamNodes`: mark every arrow into `fieldKey` from a
        `-from-` node together with that node, every edge into such a node,
        and each feeding node left without an unmarked edge; then drop the
        marked nodes and edges and mark `fieldKey` collapsed. */
    method RemoveUpstreamNodes(fieldKey: string)
      modifies this
      ensures State() == Collapse(old(State()), fieldKey)
    {
      var all := edges;
      var nodesToRemove: set<string> := {};
      var edgesToRemove: set<string> := {};
      var i := 0;
      while i < |all|
        invariant 0 <= i <= |all|
        invariant Marks(nodesToRemove, edgesToRemove) == ChildFold(all, fieldKey, all[..i], Marks({}, {}))
      {
        var edge := all[i];
        if edge.target == fieldKey && Contains(edge.source, "-from-") {
          var upstreamFieldId := edge.source;
          nodesToRemove := nodesToRemove + {upstreamFieldId};
          edgesToRemove := edgesToRemove + {edge.id};
          ghost var start := Marks(nodesToRemove, edgesToRemove);
          var j := 0;
          while j < |all|
            invariant 0 <= j <= |all|
            invariant Marks(nodesToRemove, edgesToRemove) == FeedFold(all, upstreamFieldId, all[..j], start)
          {
            var e := all[j];
            if e.target == upstreamFieldId {
              edgesToRemove := edgesToRemove + {e.id};
              var tableNodeId := e.source;
              var hasOtherFields := HasOtherEdge(all, tableNodeId, e.id, edgesToRemove);
              if !hasOtherFields {
                nodesToRemove := nodesToRemove + {tableNodeId};
              }
            }
            assert all[..j + 1][..j] == all[..j];
            j := j + 1;
          }
          assert all[..j] == all;
        }
        assert all[..i + 1][..i] == all[..i];
        i := i + 1;
      }
      assert all[..i] == all;
      nodes := KeepNodes(nodes, nodesToRemove);
      edges := KeepEdges(edges, edgesToRemove);
      nodes := SetExpanded(nodes, fieldKey, false);
    }
  }
}
