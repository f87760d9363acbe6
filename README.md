# Column lineage graph — a Dafny model

This project models the core of a column-level lineage viewer.

The parser (`src/utils/dataParser.js`) reads spreadsheet rows that each
say "column `target_column` of table `target_table_db.target_table_name`
is computed from column `source_column` of
`source_db.source_table_name`". From those rows it builds:
- an index from each target field key `db.table.column` to a record that
  lists all its upstream fields, in row order;
- the sorted list of every table key seen.

The graph component (`src/components/LineageGraph.jsx`) holds three
pieces of state: a list of nodes, a list of edges and a set of expanded
field keys. It has four operations:
- When a table is selected, it resets to that table's node plus one node
  per field of the table, sorted by column.
- Pressing a field's expand button calls the toggle with the field's key.
  If some node has that key as its id, the field's upstream tables and
  fields are added as nodes, keyed under the field, and linked to it with
  edges. Only the nodes of the reset graph have ids equal to their field
  keys. An upstream node has id `<field>-from-<key>` but passes the bare
  `<field>` to the toggle. So pressing its button adds nothing unless the
  same field is also on the reset graph. It only flips the field's entry
  in the expanded set, when the field has upstreams.
- Pressing the button a second time removes what the first press added.
- Removing a child also removes any table node that is left without an
  outgoing edge.
- Expanding is not idempotent: expanding the same field twice adds a
  second arrow per upstream. The toggle never does this, because it
  collapses a field that is already expanded.

The model has these modules:
- `Wrappers`, `Strings`, `Sorting` and `OrderedMaps` provide the
  building blocks:
  - an insertion-ordered map that stands in for a JavaScript `Map`;
  - de-duplication in order of first appearance, which stands in for a
    `Set` followed by `Array.from`;
  - lexicographic string order;
  - a stable sort.
- `DataParser` holds the parser:
  - `ParseLineageData` and `GetTableFields` are methods whose loops are
    proved equal to the fold functions `Index` and `TableFields`;
  - lemmas state what those functions compute.
- `GraphSpec` holds the graph's value types and one specification
  function per component operation: `SelectTable`, `InitialGraph`,
  `Expand`, `Collapse` and `Toggle`.
- `LineageGraphs` holds the component as a class:
  - its fields `nodes`, `edges` and `expandedFields` are the React state;
  - each handler is a method whose loops are proved to produce exactly
    the specification function of the old state.
- `ResetFacts`, `ExpandFacts`, `CollapseFacts` and `RoundTrip` state what
  those specification functions mean, without reference to their loops:
  - which nodes and edges a reset produces;
  - which nodes and edges an expand adds, stated as a per-upstream
    reference definition and as membership;
  - which a collapse removes, with the orphan rule;
  - that collapsing undoes expanding, and that pressing the button twice
    restores the graph.

## Model

| member | source | states |
|---|---|---|
| DataParser.ParseLineageData | src/utils/dataParser.js:4-43 | The map it returns is the row-by-row fold `Index(rows)`. The table list is strictly increasing, so it is sorted and has no duplicates. A key is in the list exactly when some row names it as a target or source table. |
| DataParser.IndexValid | src/utils/dataParser.js:5-26 | The built map is well formed: its key list has no duplicates and matches the map's domain. |
| DataParser.IndexKeys | src/utils/dataParser.js:9-26 | The map's keys are the distinct target field keys `db.table.column`, in order of first appearance. A key is present exactly when some row bears it. |
| DataParser.IndexUpstreams | src/utils/dataParser.js:18-36 | A record's upstream list has one entry per row bearing its key, in row order. A key no row bears has no rows. |
| DataParser.IndexHeader | src/utils/dataParser.js:18-26 | A record's database, table, column and table key come from the first row bearing its key. Later rows do not overwrite them. |
| DataParser.RecordsNonEmpty | src/utils/dataParser.js:18-36 | Every record has at least one upstream. |
| DataParser.UpstreamKeysWellFormed | src/utils/dataParser.js:10-36 | The table key of every upstream entry is `database.table`. Its field key is `tableKey.column`. |
| DataParser.UpstreamsForFromRows | src/utils/dataParser.js:28-36 | Every upstream entry of a key is built from a row bearing that key, with its source columns, union branch and SQL file. |
| DataParser.GetTableFields | src/utils/dataParser.js:48-62 | Its loop and sort compute `TableFields(m, t)`. |
| DataParser.TableFieldsMembers | src/utils/dataParser.js:48-59 | An entry is among a table's fields exactly when it is a key of the map with a record whose table key is `t`. Each key appears once. |
| DataParser.TableFieldsOrdered | src/utils/dataParser.js:61 | The fields are sorted by column. Fields with the same column keep the map's insertion order. |
| DataParser.FieldUpstreamsOfIndex | src/utils/dataParser.js:67-70 | Looking up a key in the built map gives the upstreams of the rows bearing that key. A key no row bears gives the empty list. |
| Strings.DedupProperties | src/utils/dataParser.js:6-41 | De-duplication gives a duplicate-free list with exactly the elements of its input. |
| Sorting.SortBySorted | src/utils/dataParser.js:61 | The sort's result is ordered by its key. The same sort orders the table list at line 41. |
| Sorting.SortByPermutation | src/utils/dataParser.js:61 | The sort's result is a permutation of its input. The same holds for the table list sorted at line 41. |
| Sorting.SortByStable | src/utils/dataParser.js:61 | The sort is stable: for every key value, the elements with that key keep their input order. |
| LineageGraphs.LineageGraph.constructor | src/components/LineageGraph.jsx:21-24 | The component starts with no nodes, no edges and no expanded field, over the given index. |
| LineageGraphs.LineageGraph.SelectTable | src/components/LineageGraph.jsx:27-32 | An empty table key changes nothing. Otherwise the expanded set is cleared and the graph becomes the table's initial graph. |
| LineageGraphs.LineageGraph.BuildInitialGraph | src/components/LineageGraph.jsx:35-87 | The nodes and edges become `InitialGraph`: the table node, then one field node and one table-to-field edge per field, in order. The expanded set is untouched. |
| LineageGraphs.LineageGraph.HandleFieldExpand | src/components/LineageGraph.jsx:90-112 | The new state is `Toggle` of the old. A field without upstreams changes nothing. An expanded field is collapsed and removed from the set. Any other field is expanded and added to the set. |
| LineageGraphs.LineageGraph.AddUpstreamNodes | src/components/LineageGraph.jsx:115-234 | The new state is `Expand` of the old: nothing changes if no node bears the key. Otherwise the per-table additions are appended and the key's node is shown expanded. |
| LineageGraphs.LineageGraph.RemoveUpstreamNodes | src/components/LineageGraph.jsx:237-285 | The new state is `Collapse` of the old: the marked nodes and edges are filtered out and the key's node is shown collapsed. |
| LineageGraphs.GroupUpstreams | src/components/LineageGraph.jsx:121-129 | The grouping loop computes `GroupByTable`. |
| LineageGraphs.GroupAdditions | src/components/LineageGraph.jsx:135-213 | For one group, the table node is added when missing. So is each missing field node with its table edge. Every field gets an arrow into the key. |
| ResetFacts.InitialGraphFields | src/components/LineageGraph.jsx:35-87 | The reset graph has the table node first and one edge from the table node to each later node. Its field ids are exactly the keys of the table's records, each once. Nothing is expanded. |
| ResetFacts.InitialGraphFieldData | src/components/LineageGraph.jsx:56-82 | Each field node shows its record's column and starts collapsed. It says whether the record has upstreams. The field nodes are ordered by column. |
| ExpandFacts.GroupByTableContents | src/components/LineageGraph.jsx:121-129 | The groups are keyed by the distinct upstream table keys in order of first appearance. Each group holds exactly that table's upstreams, in order. |
| ExpandFacts.ExpandedEdgesPerRef | src/components/LineageGraph.jsx:135-213 | The edges added are a permutation of the per-upstream edges. Each upstream gets a table edge when its field node is new, and always an arrow into the key. |
| ExpandFacts.ExpandedNodesPerRef | src/components/LineageGraph.jsx:135-187 | The nodes added are a permutation of one node per distinct, missing table plus one node per upstream whose field node is missing. |
| ExpandFacts.ExpandedEdgesMembers | src/components/LineageGraph.jsx:160-213 | An edge is added exactly when it is some upstream's arrow into the key, or the table edge of an upstream whose field id is missing. |
| ExpandFacts.ExpandedNodesMembers | src/components/LineageGraph.jsx:135-187 | A node is added exactly when it is the table node or field node, with its data, of an upstream whose id is missing. |
| ExpandFacts.ExpandArrows | src/components/LineageGraph.jsx:200-212 | The arrows added are one per upstream, as a multiset. |
| ExpandFacts.ExpandKeepsGraph | src/components/LineageGraph.jsx:116-233 | When the key's node exists, the old nodes are kept with the key shown expanded, followed by the new nodes. Every new node has a fresh id. The old edges stay as a prefix. |
| ExpandFacts.DuplicateRefNodes | src/components/LineageGraph.jsx:161-186 | The missing-id check only consults the nodes that existed before the press. So a field whose `-from-` id is missing gets its node at least as many times as it is listed among the upstreams, every copy with the same id. |
| ExpandFacts.DuplicateRefArrows | src/components/LineageGraph.jsx:200-212 | A field's arrow into the key is added at least as many times as the field is listed among the upstreams, every copy with the same edge id. |
| CollapseFacts.CollapseEdgeMarks | src/components/LineageGraph.jsx:242-252 | An edge is removed exactly when it is an arrow into the key from a `-from-` node, or an edge into such a child. |
| CollapseFacts.CollapseNodeMarksBound | src/components/LineageGraph.jsx:242-266 | Every child is removed. Any other removed node has all its outgoing edges removed, and at least one. |
| CollapseFacts.CollapseNodeMarks | src/components/LineageGraph.jsx:254-263 | When edge ids determine their source, the removed nodes are exactly the children and the orphans. |
| CollapseFacts.CollapseKeeps | src/components/LineageGraph.jsx:237-285 | For any edge list, the collapsed graph keeps exactly the edges not removed, in their original order. Its nodes are a subsequence of the original nodes, with the key's node shown collapsed. Every child is removed, and every node that is neither a child nor an orphan is kept. |
| CollapseFacts.CollapseResult | src/components/LineageGraph.jsx:237-285 | When edge ids determine their source, the collapsed graph keeps exactly the edges not removed and the nodes that are neither children nor orphans. Only the key's expanded flag changes. |
| RoundTrip.CollapseWithoutChildren | src/components/LineageGraph.jsx:237-285 | Collapsing a field with no children only shows the field as collapsed. |
| RoundTrip.CollapseUndoesExpand | src/components/LineageGraph.jsx:115-285 | Collapsing right after expanding, when the derived ids are unused, gives back the original nodes and edges with the key shown collapsed. |
| RoundTrip.ToggleTwice | src/components/LineageGraph.jsx:90-285 | Pressing a collapsed field's button twice restores the graph, with the field shown collapsed. A field with no upstreams, or absent from the graph, comes back unchanged. |
| RoundTrip.ToggleAbsentField | src/components/LineageGraph.jsx:165-176 | The `onExpand` of an upstream field node passes the upstream's own field key, not its `-from-` id. When no node bears that key and no child arrow points at it, pressing the button changes no node and no edge, because the expand guard returns at once. It only flips the key's membership in the expanded set, and only if the key has upstreams. |
| RoundTrip.ExpandTwice | src/components/LineageGraph.jsx:200-212 | Expanding a present field a second time adds at least one more edge per upstream, because the arrow is pushed without checking for an edge with the same id. With any upstream, the second expand changes the graph. |

## Left out

- Positions, styles, colours, handle names, zoom and the rendering of `TableNode`, `FieldNode`, the minimap and `App`. A node keeps its id, kind and data; an edge keeps its id, endpoints and kind (table-to-field or lineage arrow).
- The spreadsheet is not read. `FileUploader` and the XLSX decoding are not part of this model; rows come in as values.
- React's scheduling: state updates are batched and asynchronous, `useCallback` closures can be stale, and StrictMode runs updaters twice. Each handler is modelled as running to completion on the current state, and the expanded set is updated together with the graph.
- `localeCompare` and the default `Array.prototype.sort` order are modelled as lexicographic order by character. Locale collation rules are not modelled.
- JavaScript truthiness: a table key that is empty or undefined is modelled as the empty string.
- Setting `isExpanded` on a table node whose id equals the key is not modelled, since a table node carries no such flag.
- DataParser.GetFieldUpstreams: a lookup with no contract of its own. `FieldUpstreamsOfIndex` states what it returns.
- RoundTrip.CollapseUndoesExpand: holds only when none of the ids an expand derives by string concatenation are already used or collide, and when edge ids determine their source.
- RoundTrip.ToggleTwice: same assumptions as `CollapseUndoesExpand`.
- CollapseFacts.CollapseResult: the exact node clause assumes that edge ids determine their source, as `CollapseNodeMarks` does. Without that, `CollapseKeeps` gives the edge clause, the order, and the upper and lower bounds on the kept nodes.
- CollapseFacts.CollapseNodeMarks: the exact orphan rule assumes that edge ids determine their source. Without that, `CollapseNodeMarksBound` gives the upper and lower bounds.
- Unicode: strings are sequences of characters. UTF-16 code units and code points are not distinguished.
