/** Clicking a field's expand button twice restores the graph: the collapse
    removes exactly what the expansion added. This holds when the ids the
    expansion derives (`table-<table>-<key>`, `<field>-from-<key>` and the
    `edge-…` ids) are not already in use and edge ids determine their
    source, i.e. when no two of these id strings collide. */
module RoundTrip {
  import opened Strings
  import opened DataParser
  import opened GraphSpec
  import opened ExpandFacts
  import opened CollapseFacts

  function TableEdgeOf(key: string, u: UpstreamRef): Edge
  {
    MkEdge(UpstreamTableId(u.tableKey, key), UpstreamFieldId(u.fieldKey, key), TableToField)
  }

  /** No node has id `id` and no edge starts or ends there. */
  predicate Unused(g: Graph, id: string)
  {
    id !in Ids(g.nodes) && forall e | e in g.edges :: e.source != id && e.target != id
  }

  /** The graph has no arrow from a `-from-` node into `key`, and nothing in
      it uses an id that expanding `key` with `ups` derives. */
  predicate FreshFor(g: Graph, key: string, ups: seq<UpstreamRef>)
  {
    (forall e | e in g.edges :: !IsChildArrow(e, key))
    && (forall u | u in ups :: Unused(g, UpstreamTableId(u.tableKey, key)) && Unused(g, UpstreamFieldId(u.fieldKey, key)))
    && (forall e, u | e in g.edges && u in ups :: e.id != ArrowOf(key, u).id && e.id != TableEdgeOf(key, u).id)
  }

  // ---------------------------------------------------------------------
  // Filters over concatenations

  lemma {:induction false} KeepEdgesAppend(a: seq<Edge>, b: seq<Edge>, removed: set<string>)
    ensures KeepEdges(a + b, removed) == KeepEdges(a, removed) + KeepEdges(b, removed)
  {
    if |a| > 0 {
      KeepEdgesAppend(a[1..], b, removed);
      assert (a + b)[1..] == a[1..] + b;
    } else {
      assert a + b == b;
    }
  }

  lemma {:induction false} KeepNodesAppend(a: seq<Node>, b: seq<Node>, removed: set<string>)
    ensures KeepNodes(a + b, removed) == KeepNodes(a, removed) + KeepNodes(b, removed)
  {
    if |a| > 0 {
      KeepNodesAppend(a[1..], b, removed);
      assert (a + b)[1..] == a[1..] + b;
    } else {
      assert a + b == b;
    }
  }

  lemma {:induction false} KeepEdgesSplit(a: seq<Edge>, removed: set<string>)
    ensures (forall e | e in a :: e.id !in removed) ==> KeepEdges(a, removed) == a
    ensures (forall e | e in a :: e.id in removed) ==> KeepEdges(a, removed) == []
  {
    if |a| > 0 {
      KeepEdgesSplit(a[1..], removed);
      assert a == [a[0]] + a[1..];
    }
  }

  lemma {:induction false} KeepNodesSplit(a: seq<Node>, removed: set<string>)
    ensures (forall n | n in a :: n.id !in removed) ==> KeepNodes(a, removed) == a
    ensures (forall n | n in a :: n.id in removed) ==> KeepNodes(a, removed) == []
  {
    if |a| > 0 {
      KeepNodesSplit(a[1..], removed);
      assert a == [a[0]] + a[1..];
    }
  }

  lemma SetExpandedTwice(ns: seq<Node>, key: string, x: bool, y: bool)
    ensures SetExpanded(SetExpanded(ns, key, x), key, y) == SetExpanded(ns, key, y)
  {
  }

  // ---------------------------------------------------------------------
  // The marks of the collapse after the expansion

  lemma ArrowIsChild(key: string, u: UpstreamRef)
    ensures IsChildArrow(ArrowOf(key, u), key)
  {
    InfixContained(u.fieldKey, "-from-", key);
    assert UpstreamFieldId(u.fieldKey, key) == u.fieldKey + "-from-" + key;
  }

  lemma TableEdgeNotChild(key: string, u: UpstreamRef)
    ensures !IsChildArrow(TableEdgeOf(key, u), key)
  {
    SuffixNotEqual(u.fieldKey + "-from-", key);
    assert UpstreamFieldId(u.fieldKey, key) == u.fieldKey + "-from-" + key;
  }

  /** After expanding a fresh `key`, each ref contributes its arrow and its
      table edge, and nothing else is added. */
  lemma NewEdgesShape(g: Graph, key: string, ups: seq<UpstreamRef>)
    requires FreshFor(g, key, ups)
    ensures forall e | e in ExpandedEdges(g, key, ups) ::
              exists u | u in ups :: e == ArrowOf(key, u) || e == TableEdgeOf(key, u)
  {
    ExpandedEdgesMembers(g, key, ups);
  }

  lemma RefEdgesAdded(g: Graph, key: string, ups: seq<UpstreamRef>, u: UpstreamRef)
    requires FreshFor(g, key, ups)
    requires u in ups
    ensures ArrowOf(key, u) in ExpandedEdges(g, key, ups)
    ensures TableEdgeOf(key, u) in ExpandedEdges(g, key, ups)
  {
    ExpandedEdgesMembers(g, key, ups);
  }

  /** The added edges start outside the old graph and reuse none of its edge ids. */
  lemma NewEdgesApart(g: Graph, key: string, ups: seq<UpstreamRef>)
    requires FreshFor(g, key, ups)
    ensures forall e | e in ExpandedEdges(g, key, ups) :: e.source !in Ids(g.nodes)
    ensures forall e, e0 | e in ExpandedEdges(g, key, ups) && e0 in g.edges :: e0.id != e.id
  {
    NewEdgesShape(g, key, ups);
    forall e | e in ExpandedEdges(g, key, ups)
      ensures e.source !in Ids(g.nodes)
      ensures forall e0 | e0 in g.edges :: e0.id != e.id
    {
      var u :| u in ups && (e == ArrowOf(key, u) || e == TableEdgeOf(key, u));
      assert Unused(g, UpstreamTableId(u.tableKey, key)) && Unused(g, UpstreamFieldId(u.fieldKey, key));
    }
  }

  /** After expanding a fresh `key`, its children are the refs' field nodes. */
  lemma ExpandedChildren(g: Graph, key: string, ups: seq<UpstreamRef>)
    requires FreshFor(g, key, ups)
    ensures forall s :: IsChild(g.edges + ExpandedEdges(g, key, ups), key, s) <==>
              exists u | u in ups :: s == UpstreamFieldId(u.fieldKey, key)
  {
    var ne := ExpandedEdges(g, key, ups);
    var all := g.edges + ne;
    NewEdgesShape(g, key, ups);
    forall s | IsChild(all, key, s)
      ensures exists u | u in ups :: s == UpstreamFieldId(u.fieldKey, key)
    {
      var e :| e in all && IsChildArrow(e, key) && e.source == s;
      assert e in ne;
      var u :| u in ups && (e == ArrowOf(key, u) || e == TableEdgeOf(key, u));
      TableEdgeNotChild(key, u);
    }
    forall s | exists u | u in ups :: s == UpstreamFieldId(u.fieldKey, key)
      ensures IsChild(all, key, s)
    {
      var u :| u in ups && s == UpstreamFieldId(u.fieldKey, key);
      RefEdgesAdded(g, key, ups, u);
      ArrowIsChild(key, u);
    }
  }

  /** After expanding a fresh `key`, the edges a collapse removes are
      exactly the edges the expansion added. */
  lemma ExpandedRemoved(g: Graph, key: string, ups: seq<UpstreamRef>)
    requires FreshFor(g, key, ups)
    ensures forall id :: RemovedEdge(g.edges + ExpandedEdges(g, key, ups), key, id) <==>
              exists e | e in ExpandedEdges(g, key, ups) :: e.id == id
  {
    var ne := ExpandedEdges(g, key, ups);
    var all := g.edges + ne;
    NewEdgesShape(g, key, ups);
    ExpandedChildren(g, key, ups);
    forall id | RemovedEdge(all, key, id)
      ensures exists e | e in ne :: e.id == id
    {
      var e :| e in all && IsChildArrow(e, key) && (e.id == id || EdgeIdInto(all, e.source, id));
      assert IsChild(all, key, e.source);
      var u :| u in ups && e.source == UpstreamFieldId(u.fieldKey, key);
      if e.id != id {
        var e2 :| e2 in all && e2.target == e.source && e2.id == id;
        assert e2 !in g.edges;
      }
    }
    forall id | exists e | e in ne :: e.id == id
      ensures RemovedEdge(all, key, id)
    {
      var e :| e in ne && e.id == id;
      var u :| u in ups && (e == ArrowOf(key, u) || e == TableEdgeOf(key, u));
      RefEdgesAdded(g, key, ups, u);
      ArrowIsChild(key, u);
      if e == TableEdgeOf(key, u) {
        assert EdgeIdInto(all, ArrowOf(key, u).source, id);
      }
    }
  }

  /** Every edge out of a ref's new table node is one the collapse removes. */
  lemma TableNodeOrphaned(g: Graph, key: string, ups: seq<UpstreamRef>, u: UpstreamRef)
    requires FreshFor(g, key, ups)
    requires u in ups
    ensures Orphaned(g.edges + ExpandedEdges(g, key, ups), key, UpstreamTableId(u.tableKey, key))
  {
    var ne := ExpandedEdges(g, key, ups);
    var all := g.edges + ne;
    var t := UpstreamTableId(u.tableKey, key);
    ExpandedRemoved(g, key, ups);
    assert Unused(g, t);
    forall e | e in all && e.source == t
      ensures RemovedEdge(all, key, e.id)
    {
      assert e !in g.edges;
    }
    RefEdgesAdded(g, key, ups, u);
    assert TableEdgeOf(key, u) in all && TableEdgeOf(key, u).source == t;
  }

  /** The collapse removes every node the expansion added. */
  lemma NewNodesMarked(m: LineageMap, g: Graph, key: string, ups: seq<UpstreamRef>)
    requires FreshFor(g, key, ups)
    requires IdsDetermineSource(g.edges + ExpandedEdges(g, key, ups))
    ensures forall n | n in ExpandedNodes(m, g, key, ups) ::
              n.id in CollapseMarks(g.edges + ExpandedEdges(g, key, ups), key).nodes
  {
    var ne := ExpandedEdges(g, key, ups);
    var all := g.edges + ne;
    ExpandedChildren(g, key, ups);
    ExpandedRemoved(g, key, ups);
    ExpandedNodesMembers(m, g, key, ups);
    CollapseNodeMarks(all, key);
    forall n | n in ExpandedNodes(m, g, key, ups)
      ensures n.id in CollapseMarks(all, key).nodes
    {
      var u :| u in ups &&
        ((UpstreamTableId(u.tableKey, key) !in Ids(g.nodes) && n == TableNode(UpstreamTableId(u.tableKey, key), u.tableKey))
         || (UpstreamFieldId(u.fieldKey, key) !in Ids(g.nodes) && n == NewFieldNode(m, g.expanded, key, u)));
      if n.TableNode? {
        TableNodeOrphaned(g, key, ups, u);
      }
    }
  }

  /** The collapse removes none of the old nodes. */
  lemma OldNodesUnmarked(g: Graph, key: string, ups: seq<UpstreamRef>)
    requires FreshFor(g, key, ups)
    ensures forall id | id in Ids(g.nodes) :: id !in CollapseMarks(g.edges + ExpandedEdges(g, key, ups), key).nodes
  {
    var ne := ExpandedEdges(g, key, ups);
    var all := g.edges + ne;
    ExpandedChildren(g, key, ups);
    ExpandedRemoved(g, key, ups);
    NewEdgesApart(g, key, ups);
    CollapseNodeMarksBound(all, key);
    forall id | id in Ids(g.nodes)
      ensures id !in CollapseMarks(all, key).nodes
    {
      assert forall e | e in all && e.source == id :: e in g.edges;
      assert !Orphaned(all, key, id);
    }
  }

  /** The collapse after the expansion keeps exactly the old edges. */
  lemma ExpandedEdgesDropped(g: Graph, key: string, ups: seq<UpstreamRef>)
    requires FreshFor(g, key, ups)
    ensures var all := g.edges + ExpandedEdges(g, key, ups);
            KeepEdges(all, CollapseMarks(all, key).edges) == g.edges
  {
    var ne := ExpandedEdges(g, key, ups);
    var all := g.edges + ne;
    var mk := CollapseMarks(all, key);
    ExpandedRemoved(g, key, ups);
    NewEdgesApart(g, key, ups);
    CollapseEdgeMarks(all, key);
    assert forall e | e in g.edges :: e.id !in mk.edges;
    assert forall e | e in ne :: e.id in mk.edges;
    KeepEdgesAppend(g.edges, ne, mk.edges);
    KeepEdgesSplit(g.edges, mk.edges);
    KeepEdgesSplit(ne, mk.edges);
  }

  /** The collapse after the expansion keeps exactly the old nodes. */
  lemma ExpandedNodesDropped(m: LineageMap, g: Graph, key: string, ups: seq<UpstreamRef>)
    requires key in Ids(g.nodes)
    requires FreshFor(g, key, ups)
    requires IdsDetermineSource(g.edges + ExpandedEdges(g, key, ups))
    ensures var all := g.edges + ExpandedEdges(g, key, ups);
            var kept := SetExpanded(g.nodes, key, true);
            KeepNodes(kept + ExpandedNodes(m, g, key, ups), CollapseMarks(all, key).nodes) == kept
  {
    var nn := ExpandedNodes(m, g, key, ups);
    var all := g.edges + ExpandedEdges(g, key, ups);
    var mk := CollapseMarks(all, key);
    NewNodesMarked(m, g, key, ups);
    OldNodesUnmarked(g, key, ups);
    var kept := SetExpanded(g.nodes, key, true);
    SetExpandedIds(g.nodes, key, true);
    forall n | n in kept
      ensures n.id !in mk.nodes
    {
      assert n.id in Ids(kept);
    }
    KeepNodesAppend(kept, nn, mk.nodes);
    KeepNodesSplit(kept, mk.nodes);
    KeepNodesSplit(nn, mk.nodes);
  }

  /** Collapsing `key` right after expanding it gives back the graph, with
      `key`'s node shown collapsed. */
  lemma CollapseUndoesExpand(m: LineageMap, g: Graph, key: string, ups: seq<UpstreamRef>)
    requires FreshFor(g, key, ups)
    requires IdsDetermineSource(g.edges + ExpandedEdges(g, key, ups))
    ensures key in Ids(g.nodes) ==>
              Collapse(Expand(m, g, key, ups), key) == Graph(SetExpanded(g.nodes, key, false), g.edges, g.expanded)
  {
    if key in Ids(g.nodes) {
      ExpandKeepsGraph(m, g, key, ups);
      ExpandedEdgesDropped(g, key, ups);
      ExpandedNodesDropped(m, g, key, ups);
      SetExpandedTwice(g.nodes, key, true, false);
    }
  }

  lemma SetExpandedAbsent(ns: seq<Node>, key: string, x: bool)
    requires key !in Ids(ns)
    ensures SetExpanded(ns, key, x) == ns
  {
    forall i | 0 <= i < |ns|
      ensures SetExpanded(ns, key, x)[i] == ns[i]
    {
      assert ns[i] in ns;
    }
  }

  /** Collapsing a field with no arrow from a `-from-` node into it removes
      nothing and only shows the field collapsed. */
  lemma CollapseWithoutChildren(g: Graph, key: string)
    requires forall e | e in g.edges :: !IsChildArrow(e, key)
    ensures Collapse(g, key) == g.(nodes := SetExpanded(g.nodes, key, false))
  {
    var mk := CollapseMarks(g.edges, key);
    CollapseEdgeMarks(g.edges, key);
    CollapseNodeMarksBound(g.edges, key);
    assert forall id :: !RemovedEdge(g.edges, key, id);
    KeepEdgesSplit(g.edges, mk.edges);
    assert forall n | n in g.nodes :: n.id !in mk.nodes;
    KeepNodesSplit(g.nodes, mk.nodes);
  }

  /** Pressing a field's expand button twice restores the graph, with the
      field shown collapsed; a field without upstreams is never changed. */
  lemma ToggleTwice(m: LineageMap, g: Graph, key: string)
    requires key !in g.expanded
    requires FreshFor(g, key, GetFieldUpstreams(m, key))
    requires IdsDetermineSource(g.edges + ExpandedEdges(g, key, GetFieldUpstreams(m, key)))
    ensures Toggle(m, Toggle(m, g, key), key)
            == if |GetFieldUpstreams(m, key)| == 0 || key !in Ids(g.nodes) then g
               else g.(nodes := SetExpanded(g.nodes, key, false))
  {
    var ups := GetFieldUpstreams(m, key);
    if |ups| > 0 {
      CollapseUndoesExpand(m, g, key, ups);
      if key in Ids(g.nodes) {
        var g1 := Expand(m, g, key, ups).(expanded := g.expanded + {key});
        assert Collapse(g1, key) == Collapse(Expand(m, g, key, ups), key).(expanded := g1.expanded);
        assert g.expanded + {key} - {key} == g.expanded;
      } else {
        assert g.expanded + {key} - {key} == g.expanded;
        CollapseWithoutChildren(g.(expanded := g.expanded + {key}), key);
        SetExpandedAbsent(g.nodes, key, false);
      }
    }
  }

  /** A field whose node is not on the canvas, such as the field behind an
      upstream `<field>-from-<key>` node whose button toggles the bare field
      key: toggling it changes no node and no edge, only whether the key is
      recorded as expanded. */
  lemma ToggleAbsentField(m: LineageMap, g: Graph, key: string)
    requires key !in Ids(g.nodes)
    requires forall e | e in g.edges :: !IsChildArrow(e, key)
    ensures Toggle(m, g, key).nodes == g.nodes && Toggle(m, g, key).edges == g.edges
    ensures Toggle(m, g, key).expanded ==
              if |GetFieldUpstreams(m, key)| == 0 then g.expanded
              else if key in g.expanded then g.expanded - {key}
              else g.expanded + {key}
  {
    if |GetFieldUpstreams(m, key)| > 0 && key in g.expanded {
      CollapseWithoutChildren(g, key);
      SetExpandedAbsent(g.nodes, key, false);
    }
  }

  /** Expanding is not idempotent: every upstream's arrow is pushed whether
      or not an edge with its id exists, so expanding a field a second
      time adds one more arrow per upstream. `Toggle` never expands a field
      that is already expanded. */
  lemma ExpandTwice(m: LineageMap, g: Graph, key: string, ups: seq<UpstreamRef>)
    requires key in Ids(g.nodes)
    ensures |Expand(m, Expand(m, g, key, ups), key, ups).edges| >= |Expand(m, g, key, ups).edges| + |ups|
    ensures |ups| > 0 ==> Expand(m, Expand(m, g, key, ups), key, ups) != Expand(m, g, key, ups)
  {
    var g1 := Expand(m, g, key, ups);
    var n :| n in g.nodes && n.id == key;
    assert n in g.nodes + ExpandedNodes(m, g, key, ups);
    SetExpandedIds(g.nodes + ExpandedNodes(m, g, key, ups), key, true);
    assert key in Ids(g1.nodes);
    ExpandArrows(g1, key, ups);
    ArrowsShorter(ExpandedEdges(g1, key, ups));
    assert Expand(m, g1, key, ups).edges == g1.edges + ExpandedEdges(g1, key, ups);
  }
}
