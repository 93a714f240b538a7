/** The server's per-node rollup: a depth-first count of the changes anywhere beneath a node. */
module DescendantCounts {
  import opened Graphs

  /**
   * The nodes of the tree, their child lists, and how many changes point at each node: those of one direction, for one
   * of the five fields of a count, or all of them, for the sum that readers take. Which it is does not steer the
   * descent.
   */
  datatype Graph = Graph(known: set<string>, kids: map<string, seq<string>>, own: map<string, nat>)

  function Own(g: Graph, r: string): nat {
    if r in g.own then g.own[r] else 0
  }

  predicate Changed(g: Graph, r: string) {
    Own(g, r) > 0
  }

  /** Children that are no node of the tree are dropped before the count starts. */
  function KnownKids(g: Graph, r: string): (ks: seq<string>)
    ensures forall k :: k in ks <==> k in Kids(g.kids, r) && k in g.known
  {
    Filter(Kids(g.kids, r), g.known)
  }

  function Filter(ks: seq<string>, known: set<string>): (fs: seq<string>)
    ensures forall k :: k in fs <==> k in ks && k in known
  {
    if ks == [] then [] else (if ks[0] in known then [ks[0]] else []) + Filter(ks[1..], known)
  }

  datatype Visit = Visit(count: nat, visited: set<string>)

  /** Counts the changes on the unvisited nodes reached from a child list, marking them visited. */
  function Descend(g: Graph, list: seq<string>, visited: set<string>): (v: Visit)
    requires forall c :: c in list ==> c in g.known
    ensures visited <= v.visited
    decreases |g.known - visited|, |list|
  {
    if list == [] then Visit(0, visited)
    else if list[0] in visited then Descend(g, list[1..], visited)
    else
      var c := list[0];
      assert g.known - (visited + {c}) < g.known - visited by { assert c in g.known - visited; }
      Smaller(g.known - (visited + {c}), g.known - visited);
      var sub := Descend(g, KnownKids(g, c), visited + {c});
      Smaller(g.known - sub.visited, g.known - (visited + {c}));
      var rest := Descend(g, list[1..], sub.visited);
      Visit(Own(g, c) + sub.count + rest.count, rest.visited)
  }

  lemma {:induction false} Smaller(a: set<string>, b: set<string>)
    requires a <= b
    ensures |a| <= |b| && (a != b ==> |a| < |b|)
  {
    if a != b {
      assert b == a + (b - a) && |b| == |a| + |b - a|;
    }
  }

  /** A node's rollup: its own changes are not part of it, unless a cycle leads back to it. */
  function Rollup(g: Graph, r: string): nat {
    Descend(g, KnownKids(g, r), {}).count
  }

  // ---------- the nodes visited are those reachable ----------

  /** The children of every newly visited node are visited, and so is the whole list. */
  lemma {:induction false} DescendCloses(g: Graph, list: seq<string>, visited: set<string>)
    requires forall c :: c in list ==> c in g.known
    ensures var v := Descend(g, list, visited).visited;
            && (forall c :: c in list ==> c in v)
            && forall x :: x in v && x !in visited ==> forall k :: k in KnownKids(g, x) ==> k in v
    decreases |g.known - visited|, |list|
  {
    if list != [] {
      if list[0] in visited {
        DescendCloses(g, list[1..], visited);
      } else {
        var c := list[0];
        assert c in g.known - visited;
        Smaller(g.known - (visited + {c}), g.known - visited);
        var sub := Descend(g, KnownKids(g, c), visited + {c});
        DescendCloses(g, KnownKids(g, c), visited + {c});
        Smaller(g.known - sub.visited, g.known - (visited + {c}));
        DescendCloses(g, list[1..], sub.visited);
      }
    }
  }

  /** Every newly visited node is reachable from the list. */
  lemma {:induction false} DescendReaches(g: Graph, list: seq<string>, visited: set<string>, x: string)
    requires forall c :: c in list ==> c in g.known
    requires x in Descend(g, list, visited).visited && x !in visited
    ensures Reaches(g.kids, g.known, list, x)
    decreases |g.known - visited|, |list|
  {
    if list[0] in visited {
      DescendReaches(g, list[1..], visited, x);
      ReachesMore(g, list, x);
    } else {
      var c := list[0];
      assert c in g.known - visited;
      Smaller(g.known - (visited + {c}), g.known - visited);
      var sub := Descend(g, KnownKids(g, c), visited + {c});
      Smaller(g.known - sub.visited, g.known - (visited + {c}));
      if x == c {
        ReachesStart(g.kids, g.known, list, x);
      } else if x in sub.visited {
        DescendReaches(g, KnownKids(g, c), visited + {c}, x);
        var p :| IsWalkTo(g.kids, g.known, KnownKids(g, c), p, x);
        assert IsWalkTo(g.kids, g.known, Kids(g.kids, c), p, x);
        ReachesThrough(g.kids, g.known, list, c, x);
      } else {
        DescendReaches(g, list[1..], sub.visited, x);
        ReachesMore(g, list, x);
      }
    }
  }

  lemma {:induction false} ReachesMore(g: Graph, list: seq<string>, x: string)
    requires list != [] && Reaches(g.kids, g.known, list[1..], x)
    ensures Reaches(g.kids, g.known, list, x)
  {
    var p :| IsWalkTo(g.kids, g.known, list[1..], p, x);
    assert IsWalkTo(g.kids, g.known, list, p, x);
  }

  // ---------- sums over sets of nodes ----------

  /** The changes on the nodes of a set. */
  ghost function ChangesOn(g: Graph, nodes: set<string>): nat {
    if nodes == {} then 0
    else
      var x :| x in nodes;
      Own(g, x) + ChangesOn(g, nodes - {x})
  }

  lemma {:induction false} ChangesLess(g: Graph, nodes: set<string>, x: string)
    requires x in nodes
    ensures ChangesOn(g, nodes) == Own(g, x) + ChangesOn(g, nodes - {x})
  {
    var y :| y in nodes && ChangesOn(g, nodes) == Own(g, y) + ChangesOn(g, nodes - {y});
    if y != x {
      ChangesLess(g, nodes - {y}, x);
      ChangesLess(g, nodes - {x}, y);
      assert nodes - {y} - {x} == nodes - {x} - {y};
    }
  }

  lemma {:induction false} ChangesJoin(g: Graph, a: set<string>, b: set<string>)
    requires a !! b
    ensures ChangesOn(g, a + b) == ChangesOn(g, a) + ChangesOn(g, b)
  {
    if a == {} {
      assert a + b == b;
    } else {
      var x :| x in a;
      ChangesJoin(g, a - {x}, b);
      ChangesLess(g, a, x);
      ChangesLess(g, a + b, x);
      assert a + b - {x} == a - {x} + b;
    }
  }

  lemma {:induction false} SomeChange(g: Graph, nodes: set<string>)
    ensures ChangesOn(g, nodes) > 0 <==> exists x :: x in nodes && Changed(g, x)
  {
    if nodes != {} {
      var x :| x in nodes;
      ChangesLess(g, nodes, x);
      SomeChange(g, nodes - {x});
    }
  }

  /** What is new between three growing sets, of which the second has one named element more than the first. */
  lemma {:induction false} ChangesGrow(g: Graph, c: string, v0: set<string>, v1: set<string>, v2: set<string>)
    requires c !in v0 && v0 + {c} <= v1 <= v2
    ensures ChangesOn(g, v2 - v0) == Own(g, c) + ChangesOn(g, v1 - (v0 + {c})) + ChangesOn(g, v2 - v1)
  {
    ChangesLess(g, v2 - v0, c);
    ChangesJoin(g, v1 - (v0 + {c}), v2 - v1);
    assert v2 - v0 - {c} == (v1 - (v0 + {c})) + (v2 - v1);
  }

  /** The count is that of the changes on the newly visited nodes. */
  lemma {:induction false} DescendCounts(g: Graph, list: seq<string>, visited: set<string>)
    requires forall c :: c in list ==> c in g.known
    ensures var v := Descend(g, list, visited); v.count == ChangesOn(g, v.visited - visited)
    decreases |g.known - visited|, |list|
  {
    if list == [] {
      assert visited - visited == {};
    } else if list[0] in visited {
      DescendCounts(g, list[1..], visited);
    } else {
      var c := list[0];
      assert c in g.known - visited;
      Smaller(g.known - (visited + {c}), g.known - visited);
      var sub := Descend(g, KnownKids(g, c), visited + {c});
      var rest := Descend(g, list[1..], sub.visited);
      DescendCounts(g, KnownKids(g, c), visited + {c});
      Smaller(g.known - sub.visited, g.known - (visited + {c}));
      DescendCounts(g, list[1..], sub.visited);
      ChangesGrow(g, c, visited, sub.visited, rest.visited);
    }
  }

  /** A set closed under known children that holds the known starts holds everything reachable from them. */
  lemma {:induction false} ClosedHoldsWalk(g: Graph, v: set<string>, p: seq<string>, i: nat)
    requires IsWalk(g.kids, g.known, p) && p[0] in v && i < |p|
    requires forall x :: x in v ==> forall k :: k in KnownKids(g, x) ==> k in v
    ensures p[i] in v
  {
    if i > 0 {
      ClosedHoldsWalk(g, v, p, i - 1);
      assert p[i - 1 + 1] in Kids(g.kids, p[i - 1]);
    }
  }

  /** The nodes below one, each once, however many paths and cycles lead to it. */
  ghost function Below(g: Graph, r: string): set<string> {
    set x | x in g.known && Reaches(g.kids, g.known, Kids(g.kids, r), x)
  }

  lemma {:induction false} VisitsBelow(g: Graph, r: string)
    ensures Descend(g, KnownKids(g, r), {}).visited == Below(g, r)
  {
    var list := KnownKids(g, r);
    var v := Descend(g, list, {}).visited;
    DescendCloses(g, list, {});
    forall x | x in v ensures x in Below(g, r) {
      DescendReaches(g, list, {}, x);
      var p :| IsWalkTo(g.kids, g.known, list, p, x);
      assert IsWalkTo(g.kids, g.known, Kids(g.kids, r), p, x);
      assert p[|p| - 1] in g.known;
    }
    forall x | x in Below(g, r) ensures x in v {
      var p :| IsWalkTo(g.kids, g.known, Kids(g.kids, r), p, x);
      assert p[0] in list;
      ClosedHoldsWalk(g, v, p, |p| - 1);
    }
  }

  /**
   * On every graph, with cycles and shared children, a rollup is the number of changes on the distinct nodes reachable
   * below the node; so it is positive iff a change is reachable there.
   */
  lemma {:induction false} RollupExact(g: Graph, r: string)
    ensures Rollup(g, r) == ChangesOn(g, Below(g, r))
    ensures Rollup(g, r) > 0 <==>
            exists x :: Reaches(g.kids, g.known, Kids(g.kids, r), x) && Changed(g, x)
  {
    VisitsBelow(g, r);
    DescendCounts(g, KnownKids(g, r), {});
    assert Below(g, r) - {} == Below(g, r);
    SomeChange(g, Below(g, r));
    forall x | Reaches(g.kids, g.known, Kids(g.kids, r), x) ensures x in Below(g, r) {
      var p :| IsWalkTo(g.kids, g.known, Kids(g.kids, r), p, x);
      assert p[|p| - 1] in g.known;
    }
  }
}
