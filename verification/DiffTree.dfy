/** Rendering the server's diff tree: joining nodes, changes and edges, then the walk that prints it. */
module DiffTree {
  import opened Options
  import opened Graphs
  import opened DiffTreeWalk
  import ByteStrings

  /** `bomRef` and `nodeRef` are empty where the response has none; `below` sums the five descendant counts. */
  datatype Node = Node(id: string, bomRef: string, name: string, below: Option<nat>)

  datatype Change = Change(nodeRef: string, direction: string)

  datatype Edge = Edge(from: string, to: string)

  datatype TreeNode = TreeNode(node: Node, change: Option<Change>)

  datatype Tree = Tree(nodes: seq<Node>, edges: seq<Edge>, roots: seq<string>, changes: seq<Change>)

  datatype Line = NodeLine(depth: int, node: TreeNode) | CycleLine(depth: int, ref: string) | NoTree

  // ---------- the joins ----------

  /** Nodes by bom-ref; a later node replaces an earlier one. */
  function IndexNodes(nodes: seq<Node>): map<string, TreeNode> {
    if nodes == [] then map[]
    else
      var n := nodes[|nodes| - 1];
      if n.bomRef == "" then IndexNodes(nodes[..|nodes| - 1])
      else IndexNodes(nodes[..|nodes| - 1])[n.bomRef := TreeNode(n, None)]
  }

  function IndexIDs(nodes: seq<Node>): map<string, string> {
    if nodes == [] then map[]
    else
      var n := nodes[|nodes| - 1];
      if n.bomRef == "" then IndexIDs(nodes[..|nodes| - 1]) else IndexIDs(nodes[..|nodes| - 1])[n.id := n.bomRef]
  }

  /** The ref a change lands on, if its node id is one of the tree's. */
  predicate LandsOn(byID: map<string, string>, c: Change, ref: string) {
    c.nodeRef in byID && byID[c.nodeRef] == ref
  }

  function Joined(byRef: map<string, TreeNode>, byID: map<string, string>, changes: seq<Change>): map<string, TreeNode>
  {
    if changes == [] then byRef
    else Attach(Joined(byRef, byID, changes[..|changes| - 1]), byID, changes[|changes| - 1])
  }

  function Attach(byRef: map<string, TreeNode>, byID: map<string, string>, c: Change): map<string, TreeNode> {
    if c.nodeRef in byID && byID[c.nodeRef] in byRef then
      byRef[byID[c.nodeRef] := byRef[byID[c.nodeRef]].(change := Some(c))]
    else byRef
  }

  /** Child lists, in edge order. */
  function Children(edges: seq<Edge>): map<string, seq<string>> {
    if edges == [] then map[]
    else
      var cs, e := Children(edges[..|edges| - 1]), edges[|edges| - 1];
      cs[e.from := Kids(cs, e.from) + [e.to]]
  }

  function Nodes(t: Tree): map<string, TreeNode> {
    Joined(IndexNodes(t.nodes), IndexIDs(t.nodes), t.changes)
  }

  /** The last node with this bom-ref. */
  predicate LastWithRef(nodes: seq<Node>, i: int, ref: string) {
    0 <= i < |nodes| && nodes[i].bomRef == ref && forall j :: i < j < |nodes| ==> nodes[j].bomRef != ref
  }

  /** A ref is known exactly if it is some node's and not empty, and stands for the last node that has it. */
  lemma {:induction false} IndexedExact(nodes: seq<Node>, ref: string)
    ensures ref in IndexNodes(nodes) <==> ref != "" && exists i :: 0 <= i < |nodes| && nodes[i].bomRef == ref
    ensures ref in IndexNodes(nodes) ==>
              forall i :: LastWithRef(nodes, i, ref) ==> IndexNodes(nodes)[ref] == TreeNode(nodes[i], None)
  {
    if nodes != [] {
      var init, n := nodes[..|nodes| - 1], nodes[|nodes| - 1];
      IndexedExact(init, ref);
      assert forall i :: 0 <= i < |init| ==> init[i] == nodes[i];
      if n.bomRef == ref {
        forall i | LastWithRef(nodes, i, ref) ensures i == |nodes| - 1 {}
      } else {
        forall i | LastWithRef(nodes, i, ref) ensures LastWithRef(init, i, ref) {}
      }
    }
  }

  /** The last node with this id that has a bom-ref. */
  predicate LastWithID(nodes: seq<Node>, i: int, id: string) {
    && 0 <= i < |nodes| && nodes[i].id == id && nodes[i].bomRef != ""
    && forall j :: i < j < |nodes| ==> nodes[j].id != id || nodes[j].bomRef == ""
  }

  /** An id leads to a ref exactly if some node of that id has one, and then to that of the last. */
  lemma {:induction false} IDsExact(nodes: seq<Node>, id: string)
    ensures id in IndexIDs(nodes) <==> exists i :: 0 <= i < |nodes| && nodes[i].id == id && nodes[i].bomRef != ""
    ensures id in IndexIDs(nodes) ==> forall i :: LastWithID(nodes, i, id) ==> IndexIDs(nodes)[id] == nodes[i].bomRef
  {
    if nodes != [] {
      var init, n := nodes[..|nodes| - 1], nodes[|nodes| - 1];
      IDsExact(init, id);
      assert forall i :: 0 <= i < |init| ==> init[i] == nodes[i];
      if n.id == id && n.bomRef != "" {
        forall i | LastWithID(nodes, i, id) ensures i == |nodes| - 1 {}
      } else {
        forall i | LastWithID(nodes, i, id) ensures LastWithID(init, i, id) {}
      }
    }
  }

  /** The child list of a ref is made of the ends of the edges that start there, in their order. */
  lemma {:induction false} ChildrenExact(a: seq<Edge>, b: seq<Edge>, e: Edge, r: string)
    ensures Kids(Children(a + b), r) == Kids(Children(a), r) + Kids(Children(b), r)
    ensures Kids(Children([e]), r) == if e.from == r then [e.to] else []
    ensures r in Children(a) <==> exists i :: 0 <= i < |a| && a[i].from == r
  {
    KeysOfChildren(a, r);
    ChildrenConcat(a, b, r);
    assert [e][..0] == [];
  }

  lemma {:induction false} KeysOfChildren(a: seq<Edge>, r: string)
    ensures r in Children(a) <==> exists i :: 0 <= i < |a| && a[i].from == r
  {
    if a != [] {
      var init := a[..|a| - 1];
      KeysOfChildren(init, r);
      assert forall i :: 0 <= i < |init| ==> init[i] == a[i];
    }
  }

  lemma {:induction false} ChildrenSnoc(edges: seq<Edge>, e: Edge, r: string)
    ensures Kids(Children(edges + [e]), r) == Kids(Children(edges), r) + if e.from == r then [e.to] else []
  {
    assert (edges + [e])[..|edges + [e]| - 1] == edges;
  }

  lemma {:induction false} Regrouped(xs: seq<string>, ys: seq<string>, zs: seq<string>)
    ensures xs + ys + zs == xs + (ys + zs)
  {
  }

  lemma {:induction false} ChildrenConcat(a: seq<Edge>, b: seq<Edge>, r: string)
    ensures Kids(Children(a + b), r) == Kids(Children(a), r) + Kids(Children(b), r)
  {
    if b == [] {
      assert a + b == a;
    } else {
      var front, last := b[..|b| - 1], b[|b| - 1];
      ChildrenConcat(a, front, r);
      assert b == front + [last] && a + b == a + front + [last];
      ChildrenSnoc(front, last, r);
      ChildrenSnoc(a + front, last, r);
      Regrouped(Kids(Children(a), r), Kids(Children(front), r), if last.from == r then [last.to] else []);
    }
  }

  /** The last of these changes that lands on a ref. */
  predicate LastLands(byID: map<string, string>, changes: seq<Change>, i: int, ref: string) {
    && 0 <= i < |changes| && LandsOn(byID, changes[i], ref)
    && forall j :: i < j < |changes| ==> !LandsOn(byID, changes[j], ref)
  }

  lemma {:induction false} LastLandsUnder(byID: map<string, string>, changes: seq<Change>, ref: string)
    requires changes != []
    ensures var n := |changes| - 1;
            if LandsOn(byID, changes[n], ref) then LastLands(byID, changes, n, ref)
            else forall i :: LastLands(byID, changes, i, ref) <==> LastLands(byID, changes[..n], i, ref)
  {
  }

  /**
   * A node of the joined tree carries a change exactly when some change lands on its ref, and it is the last that does.
   */
  lemma {:induction false} JoinedExact(byRef: map<string, TreeNode>, byID: map<string, string>, changes: seq<Change>)
    requires forall r :: r in byRef ==> byRef[r].change.None?
    ensures var js := Joined(byRef, byID, changes);
            && js.Keys == byRef.Keys
            && forall r :: r in js ==>
                 && js[r].node == byRef[r].node
                 && (js[r].change.Some? <==> exists c :: c in changes && LandsOn(byID, c, r))
                 && forall i :: LastLands(byID, changes, i, r) ==> js[r].change == Some(changes[i])
  {
    if changes != [] {
      var init, c := changes[..|changes| - 1], changes[|changes| - 1];
      JoinedExact(byRef, byID, init);
      assert changes == init + [c];
      var js := Joined(byRef, byID, changes);
      forall r | r in js
        ensures js[r].change.Some? <==> exists o :: o in changes && LandsOn(byID, o, r)
        ensures forall i :: LastLands(byID, changes, i, r) ==> js[r].change == Some(changes[i])
      {
        LastLandsUnder(byID, changes, r);
        if LandsOn(byID, c, r) { assert c in changes && js[r].change == Some(c); }
        if o :| o in init && LandsOn(byID, o, r) { assert o in changes; }
        if o :| o in changes && LandsOn(byID, o, r) { assert o in init || o == c; }
      }
    }
  }

  // ---------- what is shown ----------

  predicate SubtreeChanged(tn: TreeNode) {
    tn.change.Some? || (tn.node.below.Some? && tn.node.below.value > 0)
  }

  /** The refs the walk prints a node line for when it gets to them. */
  function Shown(byRef: map<string, TreeNode>, changedOnly: bool): set<string> {
    set r | r in byRef && (changedOnly ==> SubtreeChanged(byRef[r]))
  }

  function Name(byRef: map<string, TreeNode>, r: string): string {
    if r in byRef then byRef[r].node.name else ""
  }

  /** What sort.Slice promises: the same refs, in order of their node names; ties may fall either way. */
  ghost predicate SortsByName(byRef: map<string, TreeNode>, order: seq<string> -> seq<string>) {
    forall s {:trigger order(s)} ::
      && multiset(order(s)) == multiset(s)
      && forall i, j :: 0 <= i < j < |order(s)| ==>
           ByteStrings.LexLeq(Name(byRef, order(s)[i]), Name(byRef, order(s)[j]))
  }

  function SortedKids(children: map<string, seq<string>>, order: seq<string> -> seq<string>): map<string, seq<string>> {
    map r | r in children :: order(children[r])
  }

  function ViewOf(byRef: map<string, TreeNode>, children: map<string, seq<string>>,
                  order: seq<string> -> seq<string>, changedOnly: bool): View {
    View(Shown(byRef, changedOnly), SortedKids(children, order))
  }

  function LineOf(byRef: map<string, TreeNode>, e: Entry, depth: int): Line {
    if e.cycle || e.ref !in byRef then CycleLine(depth + |e.addr|, e.ref) else NodeLine(depth + |e.addr|, byRef[e.ref])
  }

  /** The lines of entries whose empty address stands at this depth. */
  function Lines(byRef: map<string, TreeNode>, es: seq<Entry>, depth: int): seq<Line> {
    if es == [] then [] else [LineOf(byRef, es[0], depth)] + Lines(byRef, es[1..], depth)
  }

  lemma {:induction false} LinesConcat(byRef: map<string, TreeNode>, a: seq<Entry>, b: seq<Entry>, depth: int)
    ensures Lines(byRef, a + b, depth) == Lines(byRef, a, depth) + Lines(byRef, b, depth)
  {
    if a == [] {
      assert a + b == b;
    } else {
      LinesConcat(byRef, a[1..], b, depth);
      assert (a + b)[1..] == a[1..] + b && (a + b)[0] == a[0];
      Regroup([LineOf(byRef, a[0], depth)], Lines(byRef, a[1..], depth), Lines(byRef, b, depth));
    }
  }

  lemma {:induction false} LinesBelow(byRef: map<string, TreeNode>, i: nat, es: seq<Entry>, depth: int)
    ensures Lines(byRef, Below(i, es), depth) == Lines(byRef, es, depth + 1)
  {
    if es != [] {
      LinesBelow(byRef, i, es[1..], depth);
      assert Below(i, es)[1..] == Below(i, es[1..]);
    }
  }

  lemma {:induction false} LinesOfRef(byRef: map<string, TreeNode>, v: View, ref: string, path: set<string>, depth: int)
    requires ref in v.show && ref !in path && ref in byRef
    ensures Lines(byRef, WalkRef(v, ref, path), depth) ==
            [NodeLine(depth, byRef[ref])] + Lines(byRef, WalkList(v, Kids(v.kids, ref), 0, path + {ref}), depth)
  {
    LinesConcat(byRef, [Entry([], ref, false)], WalkList(v, Kids(v.kids, ref), 0, path + {ref}), depth);
  }

  lemma {:induction false} LinesOfList(byRef: map<string, TreeNode>, v: View, list: seq<string>, i: nat,
                                       path: set<string>, depth: int)
    requires i < |list|
    ensures Lines(byRef, WalkList(v, list, i, path), depth - 1) ==
            Lines(byRef, WalkRef(v, list[i], path), depth) + Lines(byRef, WalkList(v, list, i + 1, path), depth - 1)
  {
    LinesConcat(byRef, Below(i, WalkRef(v, list[i], path)), WalkList(v, list, i + 1, path), depth - 1);
    LinesBelow(byRef, i, WalkRef(v, list[i], path), depth - 1);
  }

  /** Line for line, node lines carry the joined node of their ref and cycle lines the ref, each at its depth. */
  lemma {:induction false} LinesAt(byRef: map<string, TreeNode>, es: seq<Entry>, depth: int)
    ensures |Lines(byRef, es, depth)| == |es|
    ensures forall k :: 0 <= k < |es| ==>
              var line := Lines(byRef, es, depth)[k];
              && !line.NoTree? && line.depth == depth + |es[k].addr|
              && (line.NodeLine? <==> !es[k].cycle && es[k].ref in byRef)
              && if line.NodeLine? then line.node == byRef[es[k].ref] else line.ref == es[k].ref
  {
    if es != [] { LinesAt(byRef, es[1..], depth); }
  }

  lemma {:induction false} Regroup<T>(a: seq<T>, b: seq<T>, c: seq<T>)
    ensures a + (b + c) == (a + b) + c
  {
  }

  /** Text already out, followed by the lines of a list from one of its positions on. */
  lemma {:induction false} OneMore(byRef: map<string, TreeNode>, v: View, list: seq<string>, i: nat,
                                   path: set<string>, depth: int, out: seq<Line>)
    requires i < |list|
    ensures out + Lines(byRef, WalkList(v, list, i, path), depth - 1) ==
            out + Lines(byRef, WalkRef(v, list[i], path), depth)
                + Lines(byRef, WalkList(v, list, i + 1, path), depth - 1)
  {
    LinesOfList(byRef, v, list, i, path, depth);
    Regroup(out, Lines(byRef, WalkRef(v, list[i], path), depth),
            Lines(byRef, WalkList(v, list, i + 1, path), depth - 1));
  }

  // ---------- the writer ----------

  class Writer {
    var byRef: map<string, TreeNode>
    var children: map<string, seq<string>>
    var onPath: set<string>
    var out: seq<Line>
    const order: seq<string> -> seq<string>
    const changedOnly: bool

    constructor (order: seq<string> -> seq<string>, changedOnly: bool)
      ensures this.order == order && this.changedOnly == changedOnly && out == []
    {
      this.order, this.changedOnly := order, changedOnly;
      byRef, children, onPath, out := map[], map[], {}, [];
    }

    function TheView(): View
      reads this
    {
      ViewOf(byRef, children, order, changedOnly)
    }

    /** Joins the response and walks it from every root. */
    method Render(t: Tree)
      modifies this
      ensures out == old(out) +
                     if t.roots == [] then [NoTree]
                     else
                       var v := ViewOf(Nodes(t), Children(t.edges), order, changedOnly);
                       Lines(Nodes(t), WalkList(v, t.roots, 0, {}), -1)
    {
      Join(t);
      children := map[];
      for i := 0 to |t.edges|
        invariant children == Children(t.edges[..i])
        invariant unchanged(`out) && byRef == Nodes(t)
      {
        var e := t.edges[i];
        children := children[e.from := Kids(children, e.from) + [e.to]];
        assert t.edges[..i + 1][..i] == t.edges[..i];
      }
      assert t.edges[..|t.edges|] == t.edges;
      if t.roots == [] {
        out := out + [NoTree];
        return;
      }
      onPath := {};
      WalkAll(t.roots, 0, TheView());
    }

    method Join(t: Tree)
      modifies this`byRef
      ensures byRef == Nodes(t)
    {
      byRef := map[];
      var byID: map<string, string> := map[];
      for i := 0 to |t.nodes|
        invariant byRef == IndexNodes(t.nodes[..i]) && byID == IndexIDs(t.nodes[..i])
      {
        var n := t.nodes[i];
        if n.bomRef != "" {
          byRef := byRef[n.bomRef := TreeNode(n, None)];
          byID := byID[n.id := n.bomRef];
        }
        assert t.nodes[..i + 1][..i] == t.nodes[..i];
      }
      assert t.nodes[..|t.nodes|] == t.nodes;
      for i := 0 to |t.changes|
        invariant byRef == Joined(IndexNodes(t.nodes), byID, t.changes[..i]) && byID == IndexIDs(t.nodes)
      {
        var c := t.changes[i];
        if c.nodeRef in byID {
          var ref := byID[c.nodeRef];
          if ref in byRef { byRef := byRef[ref := byRef[ref].(change := Some(c))]; }
        }
        assert t.changes[..i + 1][..i] == t.changes[..i];
      }
      assert t.changes[..|t.changes|] == t.changes;
    }

    /** Walks a list of refs that stand at `depth`; `v` is what the writer's maps show. */
    method WalkAll(refs: seq<string>, depth: int, ghost v: View)
      requires v == TheView()
      modifies this`out, this`onPath
      ensures out == old(out) + Lines(byRef, WalkList(v, refs, 0, old(onPath)), depth - 1)
      ensures onPath == old(onPath)
      decreases |v.show - onPath|, 1
    {
      ghost var path := onPath;
      ghost var all := out + Lines(byRef, WalkList(v, refs, 0, path), depth - 1);
      var i := 0;
      while i < |refs|
        invariant 0 <= i <= |refs| && onPath == path
        invariant out + Lines(byRef, WalkList(v, refs, i, path), depth - 1) == all
      {
        OneMore(byRef, v, refs, i, path, depth, out);
        Walk(refs[i], depth, v);
        i := i + 1;
      }
    }

    /** Prints the subtree of one ref and leaves the path set as it was. Terminates on every graph. */
    method Walk(ref: string, depth: int, ghost v: View)
      requires v == TheView()
      modifies this`out, this`onPath
      ensures out == old(out) + Lines(byRef, WalkRef(v, ref, old(onPath)), depth)
      ensures onPath == old(onPath)
      decreases |v.show - onPath|, 0
    {
      if ref in onPath {
        out := out + [CycleLine(depth, ref)];
        return;
      }
      if ref !in byRef { return; }
      if changedOnly && !SubtreeChanged(byRef[ref]) { return; }
      LinesOfRef(byRef, v, ref, onPath, depth);
      Smaller(v.show - (onPath + {ref}), v.show - onPath, ref);
      Regroup(out, [NodeLine(depth, byRef[ref])],
              Lines(byRef, WalkList(v, Kids(v.kids, ref), 0, onPath + {ref}), depth));
      out := out + [NodeLine(depth, byRef[ref])];
      onPath := onPath + {ref};
      var kids := if ref in children then order(children[ref]) else [];
      WalkAll(kids, depth + 1, v);
      onPath := onPath - {ref};
    }
  }
}
