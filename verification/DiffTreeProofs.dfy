/** What the rendered tree contains, with the client's pruning and the server's rollups taken together. */
module DiffTreeProofs {
  import opened Options
  import opened Graphs
  import opened DiffTreeWalk
  import opened DiffTree
  import DescendantCounts
  import ByteStrings

  /** Sorting child lists changes no walk. */
  lemma {:induction false} SortingKeepsReach(byRef: map<string, TreeNode>, children: map<string, seq<string>>,
                                             order: seq<string> -> seq<string>, show: set<string>,
                                             roots: seq<string>, x: string)
    requires SortsByName(byRef, order)
    ensures Reaches(SortedKids(children, order), show, roots, x) <==> Reaches(children, show, roots, x)
  {
    var sorted := SortedKids(children, order);
    forall r, c ensures c in Kids(sorted, r) <==> c in Kids(children, r) {
      if r in children {
        assert multiset(order(children[r])) == multiset(children[r]);
        assert c in order(children[r]) <==> c in multiset(order(children[r]));
      }
    }
    SameEdges(sorted, children, show, roots, x);
    SameEdges(children, sorted, show, roots, x);
  }

  lemma {:induction false} SameEdges(a: map<string, seq<string>>, b: map<string, seq<string>>, show: set<string>,
                                     roots: seq<string>, x: string)
    requires forall r, c :: c in Kids(a, r) <==> c in Kids(b, r)
    ensures Reaches(a, show, roots, x) ==> Reaches(b, show, roots, x)
  {
    if Reaches(a, show, roots, x) {
      var p :| IsWalkTo(a, show, roots, p, x);
      assert IsWalkTo(b, show, roots, p, x);
    }
  }

  // ---------- the lines, one by one ----------

  /**
   * What is written for a response: one line for each entry of the walk, in the order of their addresses, at the depth
   * of their paths; a node line shows the joined node of a ref that is shown, every other line says that a ref is on
   * the path already.
   */
  lemma {:induction false} WrittenLines(byRef: map<string, TreeNode>, children: map<string, seq<string>>,
                                        order: seq<string> -> seq<string>, changedOnly: bool, roots: seq<string>)
    ensures var v := ViewOf(byRef, children, order, changedOnly);
            var es := WalkList(v, roots, 0, {});
            var lines := Lines(byRef, es, -1);
            && |lines| == |es| && InOrder(es)
            && forall k :: 0 <= k < |es| ==>
                 && WellPlaced(v, roots, {}, es[k]) && !lines[k].NoTree? && lines[k].depth == |es[k].addr| - 1
                 && (es[k].cycle ==> lines[k] == CycleLine(|es[k].addr| - 1, es[k].ref))
                 && (!es[k].cycle ==> es[k].ref in byRef && lines[k] == NodeLine(|es[k].addr| - 1, byRef[es[k].ref]))
  {
    var v := ViewOf(byRef, children, order, changedOnly);
    var es := WalkList(v, roots, 0, {});
    LinesAt(byRef, es, -1);
    LinesInOrder(v, roots, 0, {});
    forall k | 0 <= k < |es| ensures WellPlaced(v, roots, {}, es[k]) && (!es[k].cycle ==> es[k].ref in byRef) {
      EntriesPlaced(v, roots, 0, {}, es[k]);
      if !es[k].cycle { SimpleEndsShown(v, roots, es[k].addr, {}); }
    }
  }

  lemma {:induction false} SimpleEndsShown(v: View, list: seq<string>, addr: seq<nat>, path: set<string>)
    requires Simple(v, list, addr, path) && InRange(v, list, addr)
    ensures Trail(v, list, addr)[|addr| - 1] in v.show
    decreases |addr|
  {
    if |addr| > 1 { SimpleEndsShown(v, Kids(v.kids, list[addr[0]]), addr[1..], path + {list[addr[0]]}); }
  }

  /** Below one parent, the line that comes first is that of the name that sorts first; roots keep their order. */
  lemma {:induction false} SiblingsByName(byRef: map<string, TreeNode>, children: map<string, seq<string>>,
                                          order: seq<string> -> seq<string>, changedOnly: bool, roots: seq<string>,
                                          a: seq<nat>, i: nat, j: nat, e: Entry, f: Entry)
    requires SortsByName(byRef, order) && i < j && e.addr == a + [i] && f.addr == a + [j]
    requires e in WalkList(ViewOf(byRef, children, order, changedOnly), roots, 0, {})
    requires f in WalkList(ViewOf(byRef, children, order, changedOnly), roots, 0, {})
    ensures Before(e.addr, f.addr)
    ensures if a == [] then i < j < |roots| && e.ref == roots[i] && f.ref == roots[j]
            else ByteStrings.LexLeq(Name(byRef, e.ref), Name(byRef, f.ref))
  {
    var v := ViewOf(byRef, children, order, changedOnly);
    EntriesPlaced(v, roots, 0, {}, e);
    EntriesPlaced(v, roots, 0, {}, f);
    TrailEnds(v, roots, a, i);
    TrailEnds(v, roots, a, j);
    SiblingAddresses(a, i, j);
    if a != [] {
      var parent := Trail(v, roots, a)[|a| - 1];
      assert Kids(v.kids, parent) == order(children[parent]);
    }
  }

  lemma {:induction false} SiblingAddresses(a: seq<nat>, i: nat, j: nat)
    requires i < j
    ensures Before(a + [i], a + [j])
  {
    if a != [] {
      assert (a + [i])[1..] == a[1..] + [i] && (a + [j])[1..] == a[1..] + [j];
      SiblingAddresses(a[1..], i, j);
    }
  }

  predicate IsChanged(byRef: map<string, TreeNode>, r: string) {
    r in byRef && byRef[r].change.Some?
  }

  predicate IsChangedBelow(byRef: map<string, TreeNode>, r: string) {
    r in byRef && byRef[r].node.below.Some? && byRef[r].node.below.value > 0
  }

  /** Some changed node can be reached from the children of `r` through known nodes. */
  ghost predicate LeadsToChange(byRef: map<string, TreeNode>, children: map<string, seq<string>>, r: string) {
    exists y :: Reaches(children, byRef.Keys, Kids(children, r), y) && IsChanged(byRef, y)
  }

  /** The descendant counts say exactly which nodes lead to a change. */
  ghost predicate Accurate(byRef: map<string, TreeNode>, children: map<string, seq<string>>) {
    forall r :: r in byRef ==> (IsChangedBelow(byRef, r) <==> LeadsToChange(byRef, children, r))
  }

  /** Without pruning, every known node reachable through known nodes gets a line, and nothing else does. */
  lemma {:induction false} FullTreePrintsReachable(byRef: map<string, TreeNode>, children: map<string, seq<string>>,
                                                   order: seq<string> -> seq<string>, roots: seq<string>, x: string)
    requires SortsByName(byRef, order)
    ensures Prints(WalkList(ViewOf(byRef, children, order, false), roots, 0, {}), x) <==>
            Reaches(children, byRef.Keys, roots, x)
  {
    assert Shown(byRef, false) == byRef.Keys;
    PrintsReachable(ViewOf(byRef, children, order, false), roots, x);
    SortingKeepsReach(byRef, children, order, byRef.Keys, roots, x);
  }

  /** A node on a walk to `x` either is `x` or leads to whatever `x` is or leads to. */
  lemma {:induction false} WalkIsShown(
      byRef: map<string, TreeNode>, children: map<string, seq<string>>, p: seq<string>, i: nat)
    requires Accurate(byRef, children) && IsWalk(children, byRef.Keys, p) && i < |p|
    requires var x := p[|p| - 1]; IsChanged(byRef, x) || LeadsToChange(byRef, children, x)
    ensures p[i] in Shown(byRef, true)
  {
    var x := p[|p| - 1];
    if i < |p| - 1 {
      var q := p[i + 1..];
      assert p[i + 1] in Kids(children, p[i]);
      assert forall m :: 0 <= m < |q| ==> q[m] == p[i + 1 + m];
      assert IsWalkTo(children, byRef.Keys, Kids(children, p[i]), q, x);
      if !IsChanged(byRef, x) {
        var y :| Reaches(children, byRef.Keys, Kids(children, x), y) && IsChanged(byRef, y);
        ReachesVia(children, byRef.Keys, Kids(children, p[i]), x, y);
      }
      assert LeadsToChange(byRef, children, p[i]);
      assert IsChangedBelow(byRef, p[i]);
    } else {
      assert p[i] == x && (IsChanged(byRef, x) || IsChangedBelow(byRef, x));
    }
  }

  /**
   * With pruning and accurate counts, on every graph with cycles and shared children: a node gets a line exactly when
   * it is reachable through known nodes and is changed or leads to a change.
   */
  lemma {:induction false} PrunedTreePrintsChanges(byRef: map<string, TreeNode>, children: map<string, seq<string>>,
                                                   order: seq<string> -> seq<string>, roots: seq<string>, x: string)
    requires SortsByName(byRef, order) && Accurate(byRef, children)
    ensures Prints(WalkList(ViewOf(byRef, children, order, true), roots, 0, {}), x) <==>
            Reaches(children, byRef.Keys, roots, x) && (IsChanged(byRef, x) || LeadsToChange(byRef, children, x))
  {
    var show := Shown(byRef, true);
    PrintsReachable(ViewOf(byRef, children, order, true), roots, x);
    SortingKeepsReach(byRef, children, order, show, roots, x);
    if Reaches(children, show, roots, x) {
      var p :| IsWalkTo(children, show, roots, p, x);
      assert IsWalkTo(children, byRef.Keys, roots, p, x);
      assert x in show && (IsChanged(byRef, x) || IsChangedBelow(byRef, x));
    }
    if Reaches(children, byRef.Keys, roots, x) && (IsChanged(byRef, x) || LeadsToChange(byRef, children, x)) {
      var p :| IsWalkTo(children, byRef.Keys, roots, p, x);
      forall i | 0 <= i < |p| ensures p[i] in show { WalkIsShown(byRef, children, p, i); }
      assert IsWalkTo(children, show, roots, p, x);
    }
  }

  // ---------- the counts the server sends ----------

  /** How many changes land on a ref. */
  function Landing(byID: map<string, string>, changes: seq<Change>, r: string): nat {
    if changes == [] then 0
    else Landing(byID, changes[..|changes| - 1], r) + if LandsOn(byID, changes[|changes| - 1], r) then 1 else 0
  }

  lemma {:induction false} LandingExact(byID: map<string, string>, changes: seq<Change>, r: string)
    ensures Landing(byID, changes, r) > 0 <==> exists c :: c in changes && LandsOn(byID, c, r)
  {
    if changes != [] {
      var init, last := changes[..|changes| - 1], changes[|changes| - 1];
      LandingExact(byID, init, r);
      assert changes == init + [last];
      assert forall c :: c in changes <==> c in init || c == last;
    }
  }

  /** The graph the server counts over: the tree's nodes, its edges, and the changes per node. */
  function ServerGraph(t: Tree): DescendantCounts.Graph {
    var byRef := Nodes(t);
    DescendantCounts.Graph(byRef.Keys, Children(t.edges),
                           map r | r in byRef :: Landing(IndexIDs(t.nodes), t.changes, r))
  }

  /** Every node carries the server's rollup, left out when it is zero. */
  ghost predicate FromServer(t: Tree) {
    forall r :: r in Nodes(t) ==>
      Nodes(t)[r].node.below ==
        var n := DescendantCounts.Rollup(ServerGraph(t), r); if n == 0 then None else Some(n)
  }

  lemma {:induction false} IndexedWithoutChange(nodes: seq<Node>)
    ensures forall r :: r in IndexNodes(nodes) ==> IndexNodes(nodes)[r].change.None?
  {
    if nodes != [] { IndexedWithoutChange(nodes[..|nodes| - 1]); }
  }

  lemma {:induction false} ChangedOnBothSides(t: Tree, r: string)
    ensures DescendantCounts.Changed(ServerGraph(t), r) <==> IsChanged(Nodes(t), r)
  {
    IndexedWithoutChange(t.nodes);
    JoinedExact(IndexNodes(t.nodes), IndexIDs(t.nodes), t.changes);
    LandingExact(IndexIDs(t.nodes), t.changes, r);
  }

  lemma {:induction false} ServerIsAccurate(t: Tree)
    requires FromServer(t)
    ensures Accurate(Nodes(t), Children(t.edges))
  {
    var g := ServerGraph(t);
    forall r | r in Nodes(t)
      ensures IsChangedBelow(Nodes(t), r) <==> LeadsToChange(Nodes(t), Children(t.edges), r)
    {
      DescendantCounts.RollupExact(g, r);
      forall y ensures DescendantCounts.Changed(g, y) <==> IsChanged(Nodes(t), y) { ChangedOnBothSides(t, y); }
    }
  }

  /**
   * Server and client together: rendered with pruning, a tree whose counts come from the server's depth-first rollup
   * has a line for a ref exactly when the ref is reachable and some change lands on it or on a node below it.
   */
  lemma {:induction false} RenderedChangesExact(t: Tree, order: seq<string> -> seq<string>, x: string)
    requires FromServer(t) && SortsByName(Nodes(t), order)
    ensures Prints(WalkList(ViewOf(Nodes(t), Children(t.edges), order, true), t.roots, 0, {}), x) <==>
            && Reaches(Children(t.edges), Nodes(t).Keys, t.roots, x)
            && (IsChanged(Nodes(t), x) || LeadsToChange(Nodes(t), Children(t.edges), x))
  {
    ServerIsAccurate(t);
    PrunedTreePrintsChanges(Nodes(t), Children(t.edges), order, t.roots, x);
  }
}
