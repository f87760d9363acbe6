/** What `removeUpstreamNodes` removes, stated without its loops. The edges
    removed are the arrows into `key` from `-from-` nodes (the children)
    and every edge into a child. The nodes removed are the children and any
    node all of whose outgoing edges are removed (at least one). The second
    half needs edge ids to determine the edge's source, which holds for the
    `edge-<source>-<target>` ids the component builds as long as those
    strings do not collide. */
module CollapseFacts {
  import opened Strings
  import opened GraphSpec

  predicate IsChild(all: seq<Edge>, key: string, s: string)
  {
    exists e | e in all :: IsChildArrow(e, key) && e.source == s
  }

  predicate EdgeIdInto(all: seq<Edge>, u: string, id: string)
  {
    exists e | e in all :: e.target == u && e.id == id
  }

  /** The ids of the edges a collapse of `key` removes. */
  predicate RemovedEdge(all: seq<Edge>, key: string, id: string)
  {
    exists e | e in all :: IsChildArrow(e, key) && (e.id == id || EdgeIdInto(all, e.source, id))
  }

  predicate AllOutMarked(all: seq<Edge>, s: string, marked: set<string>)
  {
    forall e | e in all && e.source == s :: e.id in marked
  }

  predicate SomeOutMarked(all: seq<Edge>, s: string, marked: set<string>)
  {
    exists e | e in all && e.source == s :: e.id in marked
  }

  /** A node left with no edge once the removed edges are gone, that had one. */
  predicate Orphaned(all: seq<Edge>, key: string, s: string)
  {
    (forall e | e in all && e.source == s :: RemovedEdge(all, key, e.id))
    && (exists e | e in all && e.source == s :: RemovedEdge(all, key, e.id))
  }

  predicate IdsDetermineSource(all: seq<Edge>)
  {
    forall e1, e2 | e1 in all && e2 in all && e1.id == e2.id :: e1.source == e2.source
  }

  // ---------------------------------------------------------------------
  // Edge marks

  lemma {:induction false} FeedFoldEdges(all: seq<Edge>, u: string, es: seq<Edge>, mk: Marks)
    ensures FeedFold(all, u, es, mk).edges == mk.edges + (set e | e in es && e.target == u :: e.id)
  {
    if |es| > 0 {
      var init := es[..|es| - 1];
      FeedFoldEdges(all, u, init, mk);
      assert es == init + [es[|es| - 1]];
    }
  }

  lemma {:induction false} ChildFoldEdges(all: seq<Edge>, key: string, es: seq<Edge>, mk: Marks)
    ensures forall id :: id in ChildFold(all, key, es, mk).edges <==>
              id in mk.edges || exists e | e in es :: IsChildArrow(e, key) && (e.id == id || EdgeIdInto(all, e.source, id))
  {
    if |es| > 0 {
      var init := es[..|es| - 1];
      var last := es[|es| - 1];
      ChildFoldEdges(all, key, init, mk);
      assert es == init + [last];
      if IsChildArrow(last, key) {
        var before := ChildFold(all, key, init, mk);
        FeedFoldEdges(all, last.source, all, Marks(before.nodes + {last.source}, before.edges + {last.id}));
      }
    }
  }

  /** The edges marked are exactly the child arrows and the edges into a child. */
  lemma CollapseEdgeMarks(all: seq<Edge>, key: string)
    ensures forall id :: id in CollapseMarks(all, key).edges <==> RemovedEdge(all, key, id)
  {
    ChildFoldEdges(all, key, all, Marks({}, {}));
  }

  // ---------------------------------------------------------------------
  // Node marks: every marked node is a child or has all its edges marked

  predicate Justified(all: seq<Edge>, key: string, mk: Marks)
  {
    forall s | s in mk.nodes :: IsChild(all, key, s) || (AllOutMarked(all, s, mk.edges) && SomeOutMarked(all, s, mk.edges))
  }

  lemma {:induction false} FeedFoldJustified(all: seq<Edge>, key: string, u: string, es: seq<Edge>, mk: Marks)
    requires forall e | e in es :: e in all
    requires Justified(all, key, mk)
    ensures Justified(all, key, FeedFold(all, u, es, mk))
    ensures mk.edges <= FeedFold(all, u, es, mk).edges
    ensures mk.nodes <= FeedFold(all, u, es, mk).nodes
  {
    if |es| > 0 {
      var init := es[..|es| - 1];
      var e := es[|es| - 1];
      assert e in es;
      FeedFoldJustified(all, key, u, init, mk);
    }
  }

  lemma {:induction false} ChildFoldJustified(all: seq<Edge>, key: string, es: seq<Edge>, mk: Marks)
    requires forall e | e in es :: e in all
    requires Justified(all, key, mk)
    ensures Justified(all, key, ChildFold(all, key, es, mk))
    ensures forall e | e in es && IsChildArrow(e, key) :: e.source in ChildFold(all, key, es, mk).nodes
  {
    if |es| > 0 {
      var init := es[..|es| - 1];
      var last := es[|es| - 1];
      assert last in es;
      ChildFoldJustified(all, key, init, mk);
      var before := ChildFold(all, key, init, mk);
      if IsChildArrow(last, key) {
        var start := Marks(before.nodes + {last.source}, before.edges + {last.id});
        FeedFoldJustified(all, key, last.source, all, start);
      }
      assert es == init + [last];
    }
  }

  /** Collapsing never removes a node other than a child or a node all of
      whose edges it removes. */
  lemma CollapseNodeMarksBound(all: seq<Edge>, key: string)
    ensures forall s | s in CollapseMarks(all, key).nodes :: IsChild(all, key, s) || Orphaned(all, key, s)
    ensures forall s | IsChild(all, key, s) :: s in CollapseMarks(all, key).nodes
  {
    ChildFoldJustified(all, key, all, Marks({}, {}));
    CollapseEdgeMarks(all, key);
  }

  // ---------------------------------------------------------------------
  // Node marks: with source-determining ids, every orphan is marked

  /** Node `s` is marked, or still has an unmarked edge, or has no marked edge. */
  predicate Pending(all: seq<Edge>, s: string, mk: Marks)
  {
    s in mk.nodes
    || (exists e | e in all && e.source == s :: e.id !in mk.edges)
    || !SomeOutMarked(all, s, mk.edges)
  }

  lemma {:induction false} FeedFoldPending(all: seq<Edge>, u: string, es: seq<Edge>, mk: Marks, s: string)
    requires IdsDetermineSource(all)
    requires forall e | e in es :: e in all
    requires Pending(all, s, mk)
    ensures Pending(all, s, FeedFold(all, u, es, mk))
  {
    if |es| > 0 {
      var init := es[..|es| - 1];
      var e := es[|es| - 1];
      assert e in es;
      FeedFoldPending(all, u, init, mk, s);
      var before := FeedFold(all, u, init, mk);
      if e.target == u && e.source != s {
        var marked := before.edges + {e.id};
        forall e2 | e2 in all && e2.source == s
          ensures e2.id in marked <==> e2.id in before.edges
        {
        }
      }
    }
  }

  lemma {:induction false} ChildFoldPending(all: seq<Edge>, key: string, es: seq<Edge>, mk: Marks, s: string)
    requires IdsDetermineSource(all)
    requires forall e | e in es :: e in all
    requires Pending(all, s, mk)
    ensures Pending(all, s, ChildFold(all, key, es, mk))
  {
    if |es| > 0 {
      var init := es[..|es| - 1];
      var last := es[|es| - 1];
      assert last in es;
      ChildFoldPending(all, key, init, mk, s);
      var before := ChildFold(all, key, init, mk);
      if IsChildArrow(last, key) {
        var start := Marks(before.nodes + {last.source}, before.edges + {last.id});
        if last.source != s {
          forall e2 | e2 in all && e2.source == s
            ensures e2.id in start.edges <==> e2.id in before.edges
          {
          }
        }
        FeedFoldPending(all, last.source, all, start, s);
      }
    }
  }

  /** When edge ids determine their source, the nodes a collapse removes
      are exactly the children and the orphans. */
  lemma CollapseNodeMarks(all: seq<Edge>, key: string)
    requires IdsDetermineSource(all)
    ensures forall s :: s in CollapseMarks(all, key).nodes <==> IsChild(all, key, s) || Orphaned(all, key, s)
  {
    CollapseNodeMarksBound(all, key);
    CollapseEdgeMarks(all, key);
    forall s | Orphaned(all, key, s)
      ensures s in CollapseMarks(all, key).nodes
    {
      ChildFoldPending(all, key, all, Marks({}, {}), s);
    }
  }

  // ---------------------------------------------------------------------
  // The collapsed graph

  lemma {:induction false} KeepEdgesMembers(es: seq<Edge>, removed: set<string>)
    ensures forall e :: e in KeepEdges(es, removed) <==> e in es && e.id !in removed
  {
    if |es| > 0 {
      KeepEdgesMembers(es[1..], removed);
      assert es == [es[0]] + es[1..];
    }
  }

  lemma {:induction false} KeepNodesMembers(ns: seq<Node>, removed: set<string>)
    ensures forall n :: n in KeepNodes(ns, removed) <==> n in ns && n.id !in removed
  {
    if |ns| > 0 {
      KeepNodesMembers(ns[1..], removed);
      assert ns == [ns[0]] + ns[1..];
    }
  }

  lemma SetExpandedIds(ns: seq<Node>, key: string, x: bool)
    ensures Ids(SetExpanded(ns, key, x)) == Ids(ns)
    ensures forall n | n in SetExpanded(ns, key, x) :: exists n0 | n0 in ns :: n == WithExpanded(n0, key, x)
  {
    var r := SetExpanded(ns, key, x);
    forall id | id in Ids(ns)
      ensures id in Ids(r)
    {
      var n :| n in ns && n.id == id;
      var i :| 0 <= i < |ns| && ns[i] == n;
      assert r[i].id == id;
    }
  }

  /** `a` is `b` with some elements left out: `a`'s elements occur in `b`
      in the same order. */
  predicate Subsequence<T(==)>(a: seq<T>, b: seq<T>)
    decreases |b|
  {
    if |a| == 0 then true
    else if |b| == 0 then false
    else if a[0] == b[0] then Subsequence(a[1..], b[1..])
    else Subsequence(a, b[1..])
  }

  lemma {:induction false} KeepEdgesSubsequence(es: seq<Edge>, removed: set<string>)
    ensures Subsequence(KeepEdges(es, removed), es)
  {
    if |es| > 0 {
      var rest := KeepEdges(es[1..], removed);
      KeepEdgesSubsequence(es[1..], removed);
      if es[0].id in removed {
        assert KeepEdges(es, removed) == rest;
        KeepEdgesMembers(es[1..], removed);
        if |rest| > 0 {
          assert rest[0] in rest;
          assert rest[0] != es[0];
        }
      } else {
        assert KeepEdges(es, removed)[1..] == rest;
      }
    }
  }

  lemma SetExpandedCons(ns: seq<Node>, key: string, x: bool)
    requires |ns| > 0
    ensures SetExpanded(ns, key, x) == [WithExpanded(ns[0], key, x)] + SetExpanded(ns[1..], key, x)
  {
  }

  lemma {:induction false} KeepNodesSubsequence(ns: seq<Node>, removed: set<string>, key: string, x: bool)
    ensures Subsequence(SetExpanded(KeepNodes(ns, removed), key, x), SetExpanded(ns, key, x))
  {
    if |ns| > 0 {
      var kept := KeepNodes(ns[1..], removed);
      var rest := SetExpanded(kept, key, x);
      KeepNodesSubsequence(ns[1..], removed, key, x);
      SetExpandedCons(ns, key, x);
      var whole := SetExpanded(ns, key, x);
      assert whole[0] == WithExpanded(ns[0], key, x) && whole[1..] == SetExpanded(ns[1..], key, x);
      if ns[0].id in removed {
        assert KeepNodes(ns, removed) == kept;
        if |rest| > 0 {
          KeepNodesMembers(ns[1..], removed);
          SetExpandedIds(kept, key, x);
          assert rest[0].id in Ids(rest);
          var n :| n in kept && n.id == rest[0].id;
          assert rest[0] != whole[0];
        }
      } else {
        assert KeepNodes(ns, removed) == [ns[0]] + kept;
        SetExpandedCons(KeepNodes(ns, removed), key, x);
      }
    }
  }

  /** The collapsed graph keeps, in their order, exactly the edges not
      removed, and a subsequence of the nodes with `key`'s node shown as
      collapsed: every child goes and every node that is neither a child
      nor an orphan stays. No assumption about edge ids is needed. */
  lemma CollapseKeeps(g: Graph, key: string)
    ensures forall e :: e in Collapse(g, key).edges <==> e in g.edges && !RemovedEdge(g.edges, key, e.id)
    ensures Subsequence(Collapse(g, key).edges, g.edges)
    ensures Subsequence(Collapse(g, key).nodes, SetExpanded(g.nodes, key, false))
    ensures forall id | id in Ids(Collapse(g, key).nodes) :: id in Ids(g.nodes) && !IsChild(g.edges, key, id)
    ensures forall id | id in Ids(g.nodes) && !IsChild(g.edges, key, id) && !Orphaned(g.edges, key, id) ::
              id in Ids(Collapse(g, key).nodes)
    ensures Collapse(g, key).expanded == g.expanded
  {
    var mk := CollapseMarks(g.edges, key);
    CollapseEdgeMarks(g.edges, key);
    CollapseNodeMarksBound(g.edges, key);
    KeepEdgesMembers(g.edges, mk.edges);
    KeepNodesMembers(g.nodes, mk.nodes);
    KeepEdgesSubsequence(g.edges, mk.edges);
    KeepNodesSubsequence(g.nodes, mk.nodes, key, false);
    SetExpandedIds(KeepNodes(g.nodes, mk.nodes), key, false);
  }

  /** When edge ids determine their source, the collapsed graph keeps
      exactly the nodes that are neither children nor orphans; `key`'s
      node shows as collapsed and no data of a kept node otherwise
      changes. */
  lemma CollapseResult(g: Graph, key: string)
    requires IdsDetermineSource(g.edges)
    ensures forall e :: e in Collapse(g, key).edges <==> e in g.edges && !RemovedEdge(g.edges, key, e.id)
    ensures forall id :: id in Ids(Collapse(g, key).nodes) <==>
              id in Ids(g.nodes) && !IsChild(g.edges, key, id) && !Orphaned(g.edges, key, id)
    ensures forall n | n in Collapse(g, key).nodes :: exists n0 | n0 in g.nodes :: n == WithExpanded(n0, key, false)
    ensures Collapse(g, key).expanded == g.expanded
  {
    var mk := CollapseMarks(g.edges, key);
    CollapseKeeps(g, key);
    CollapseNodeMarks(g.edges, key);
    KeepNodesMembers(g.nodes, mk.nodes);
    SetExpandedIds(KeepNodes(g.nodes, mk.nodes), key, false);
  }
}
