/** The displayed graph of `src/components/LineageGraph.jsx` and, as
    functions of the current graph, what its reset, expand, collapse and
    toggle steps compute. The class in `lineage_graph.dfy` holds the state
    and is proved to follow these functions. */
module GraphSpec {
  import opened Wrappers
  import opened Strings
  import opened OrderedMaps
  import opened DataParser

  /** A plain table-to-field line, or the arrow from an upstream field
      into the field that was expanded. */
  datatype EdgeKind = TableToField | FieldToUpstream

  /** Node data the engine reads or writes; a field node shows its `column`,
      positions and styling are left out. The field node's expand button
      calls the toggle with `fieldKey`. */
  datatype Node =
    | TableNode(id: string, tableKey: string)
    | FieldNode(id: string, column: string, fieldKey: string, isExpanded: bool, hasUpstream: bool,
                sqlFile: Option<string>, unionBranch: Option<string>)

  datatype Edge = Edge(id: string, source: string, target: string, kind: EdgeKind)

  /** The component's three pieces of state. */
  datatype Graph = Graph(nodes: seq<Node>, edges: seq<Edge>, expanded: set<string>)

  function RootTableId(t: string): string
  {
    "table-" + t
  }

  /** The table node grouping the upstream fields of one table under `key`. */
  function UpstreamTableId(tk: string, key: string): string
  {
    "table-" + tk + "-" + key
  }

  /** The node of upstream field `fk` reached by expanding `key`. */
  function UpstreamFieldId(fk: string, key: string): string
  {
    fk + "-from-" + key
  }

  /** Every edge the component creates has id `edge-<source>-<target>`. */
  function MkEdge(source: string, target: string, kind: EdgeKind): Edge
  {
    Edge("edge-" + source + "-" + target, source, target, kind)
  }

  function Ids(ns: seq<Node>): set<string>
  {
    set n | n in ns :: n.id
  }

  /** The `isExpanded` update applied to a node whose id is `key`. */
  function WithExpanded(n: Node, key: string, b: bool): Node
  {
    if n.FieldNode? && n.id == key then n.(isExpanded := b) else n
  }

  /** `nodes.map(...)` setting `isExpanded` on the nodes with id `key`. */
  function SetExpanded(ns: seq<Node>, key: string, b: bool): seq<Node>
  {
    seq(|ns|, i requires 0 <= i < |ns| => WithExpanded(ns[i], key, b))
  }

  // ---------------------------------------------------------------------
  // Reset (`buildInitialGraph`, run by the effect that watches the table)

  function RootFieldNode(f: FieldEntry): Node
  {
    FieldNode(f.key, f.record.column, f.key, false, |f.record.upstreams| > 0, None, None)
  }

  function RootEdge(t: string, f: FieldEntry): Edge
  {
    MkEdge(RootTableId(t), f.key, TableToField)
  }

  function InitialGraph(m: LineageMap, t: string): Graph
    requires m.Valid()
  {
    var fs := TableFields(m, t);
    Graph([TableNode(RootTableId(t), t)] + seq(|fs|, i requires 0 <= i < |fs| => RootFieldNode(fs[i])),
          seq(|fs|, i requires 0 <= i < |fs| => RootEdge(t, fs[i])),
          {})
  }

  /** The effect: nothing for an empty selection, otherwise a fresh graph. */
  function SelectTable(m: LineageMap, g: Graph, t: string): Graph
    requires m.Valid()
  {
    if t == "" then g else InitialGraph(m, t)
  }

  // ---------------------------------------------------------------------
  // Expand (`addUpstreamNodes`)

  /** `tableGroups`: upstream refs grouped by table key, tables in order of
      first appearance, refs in their order. */
  function GroupStep(g: OrderedMap<seq<UpstreamRef>>, u: UpstreamRef): OrderedMap<seq<UpstreamRef>>
  {
    var tk := u.tableKey;
    g.Set(tk, (if tk in g.values then g.values[tk] else []) + [u])
  }

  function GroupByTable(ups: seq<UpstreamRef>): (r: OrderedMap<seq<UpstreamRef>>)
    ensures r.Valid()
  {
    if |ups| == 0 then Empty() else GroupStep(GroupByTable(ups[..|ups| - 1]), ups[|ups| - 1])
  }

  /** The field node for ref `u`, created only if no node had its id before the call. */
  function RefNodes(m: LineageMap, ids: set<string>, expanded: set<string>, key: string,
                    u: UpstreamRef): seq<Node>
  {
    var fid := UpstreamFieldId(u.fieldKey, key);
    if fid in ids then []
    else [FieldNode(fid, u.column, u.fieldKey, u.fieldKey in expanded,
                    u.fieldKey in m.values && |m.values[u.fieldKey].upstreams| > 0,
                    u.sqlFile, u.unionBranch)]
  }

  /** The table-to-field edge, only with a newly created field node, then the arrow. */
  function RefEdges(ids: set<string>, key: string, tid: string, u: UpstreamRef): seq<Edge>
  {
    var fid := UpstreamFieldId(u.fieldKey, key);
    (if fid in ids then [] else [MkEdge(tid, fid, TableToField)]) + [MkEdge(fid, key, FieldToUpstream)]
  }

  function RefsNodes(m: LineageMap, ids: set<string>, expanded: set<string>, key: string,
                     refs: seq<UpstreamRef>): seq<Node>
  {
    if |refs| == 0 then []
    else RefsNodes(m, ids, expanded, key, refs[..|refs| - 1]) + RefNodes(m, ids, expanded, key, refs[|refs| - 1])
  }

  function RefsEdges(ids: set<string>, key: string, tid: string, refs: seq<UpstreamRef>): seq<Edge>
  {
    if |refs| == 0 then []
    else RefsEdges(ids, key, tid, refs[..|refs| - 1]) + RefEdges(ids, key, tid, refs[|refs| - 1])
  }

  function GroupHead(ids: set<string>, key: string, tk: string): seq<Node>
  {
    var tid := UpstreamTableId(tk, key);
    if tid in ids then [] else [TableNode(tid, tk)]
  }

  function GroupsNodes(m: LineageMap, ids: set<string>, expanded: set<string>, key: string,
                       gkeys: seq<string>, gvals: map<string, seq<UpstreamRef>>): seq<Node>
    requires forall k | k in gkeys :: k in gvals
  {
    if |gkeys| == 0 then []
    else
      var tk := gkeys[|gkeys| - 1];
      GroupsNodes(m, ids, expanded, key, gkeys[..|gkeys| - 1], gvals)
        + GroupHead(ids, key, tk) + RefsNodes(m, ids, expanded, key, gvals[tk])
  }

  function GroupsEdges(ids: set<string>, key: string,
                       gkeys: seq<string>, gvals: map<string, seq<UpstreamRef>>): seq<Edge>
    requires forall k | k in gkeys :: k in gvals
  {
    if |gkeys| == 0 then []
    else
      var tk := gkeys[|gkeys| - 1];
      GroupsEdges(ids, key, gkeys[..|gkeys| - 1], gvals) + RefsEdges(ids, key, UpstreamTableId(tk, key), gvals[tk])
  }

  /** The nodes `addUpstreamNodes(key, ups)` appends to the graph `g`. */
  function ExpandedNodes(m: LineageMap, g: Graph, key: string, ups: seq<UpstreamRef>): seq<Node>
  {
    var groups := GroupByTable(ups);
    GroupsNodes(m, Ids(g.nodes), g.expanded, key, groups.keys, groups.values)
  }

  /** The edges `addUpstreamNodes(key, ups)` appends to the graph `g`. */
  function ExpandedEdges(g: Graph, key: string, ups: seq<UpstreamRef>): seq<Edge>
  {
    var groups := GroupByTable(ups);
    GroupsEdges(Ids(g.nodes), key, groups.keys, groups.values)
  }

  /** `addUpstreamNodes(key, ups)`; the expanded set is the toggle's business. */
  function Expand(m: LineageMap, g: Graph, key: string, ups: seq<UpstreamRef>): Graph
  {
    if key !in Ids(g.nodes) then g
    else Graph(SetExpanded(g.nodes + ExpandedNodes(m, g, key, ups), key, true),
               g.edges + ExpandedEdges(g, key, ups), g.expanded)
  }

  // ---------------------------------------------------------------------
  // Collapse (`removeUpstreamNodes`)

  /** An edge into `key` from a node whose id contains `-from-`. */
  predicate IsChildArrow(e: Edge, key: string)
  {
    e.target == key && Contains(e.source, "-from-")
  }

  /** `nodesToRemove` and `edgesToRemove`. */
  datatype Marks = Marks(nodes: set<string>, edges: set<string>)

  /** `edges.some(...)`: an edge out of `from`, other than `except`, not yet marked. */
  predicate HasOtherEdge(all: seq<Edge>, from: string, except: string, marked: set<string>)
  {
    exists e2 | e2 in all :: e2.source == from && e2.id != except && e2.id !in marked
  }

  /** The inner loop body for child `u`: mark an edge into `u`, and its
      source too when it has no other unmarked edge. */
  function FeedStep(all: seq<Edge>, u: string, e: Edge, mk: Marks): Marks
  {
    if e.target == u then
      var marked := mk.edges + {e.id};
      Marks(if HasOtherEdge(all, e.source, e.id, marked) then mk.nodes else mk.nodes + {e.source}, marked)
    else mk
  }

  function FeedFold(all: seq<Edge>, u: string, es: seq<Edge>, mk: Marks): Marks
  {
    if |es| == 0 then mk else FeedStep(all, u, es[|es| - 1], FeedFold(all, u, es[..|es| - 1], mk))
  }

  /** The outer loop body: a child arrow marks itself and its source, then
      runs the inner loop over all edges. */
  function ChildStep(all: seq<Edge>, key: string, e: Edge, mk: Marks): Marks
  {
    if IsChildArrow(e, key) then FeedFold(all, e.source, all, Marks(mk.nodes + {e.source}, mk.edges + {e.id}))
    else mk
  }

  function ChildFold(all: seq<Edge>, key: string, es: seq<Edge>, mk: Marks): Marks
  {
    if |es| == 0 then mk else ChildStep(all, key, es[|es| - 1], ChildFold(all, key, es[..|es| - 1], mk))
  }

  function CollapseMarks(all: seq<Edge>, key: string): Marks
  {
    ChildFold(all, key, all, Marks({}, {}))
  }

  /** `nodes.filter(...)` dropping the marked ids. */
  function KeepNodes(ns: seq<Node>, removed: set<string>): seq<Node>
  {
    if |ns| == 0 then []
    else (if ns[0].id in removed then [] else [ns[0]]) + KeepNodes(ns[1..], removed)
  }

  /** `edges.filter(...)` dropping the marked ids. */
  function KeepEdges(es: seq<Edge>, removed: set<string>): seq<Edge>
  {
    if |es| == 0 then []
    else (if es[0].id in removed then [] else [es[0]]) + KeepEdges(es[1..], removed)
  }

  /** `removeUpstreamNodes(key)`; the expanded set is the toggle's business. */
  function Collapse(g: Graph, key: string): Graph
  {
    var mk := CollapseMarks(g.edges, key);
    Graph(SetExpanded(KeepNodes(g.nodes, mk.nodes), key, false), KeepEdges(g.edges, mk.edges), g.expanded)
  }

  // ---------------------------------------------------------------------
  // Toggle (`handleFieldExpand`)

  function Toggle(m: LineageMap, g: Graph, key: string): Graph
  {
    var ups := GetFieldUpstreams(m, key);
    if |ups| == 0 then g
    else if key in g.expanded then Collapse(g, key).(expanded := g.expanded - {key})
    else Expand(m, g, key, ups).(expanded := g.expanded + {key})
  }
}
