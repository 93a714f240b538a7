/** Directed graphs given by child lists, and walks through a set of nodes. */
module Graphs {

  /** The children of a node, in list order; a node without an entry has none. */
  function Kids(kids: map<string, seq<string>>, r: string): seq<string> {
    if r in kids then kids[r] else []
  }

  /** A nonempty walk along edges that stays inside `show`. */
  predicate IsWalk(kids: map<string, seq<string>>, show: set<string>, p: seq<string>) {
    && p != [] && (forall i :: 0 <= i < |p| ==> p[i] in show)
    && forall i :: 0 <= i < |p| - 1 ==> p[i + 1] in Kids(kids, p[i])
  }

  /** `p` is a walk inside `show` from one of `starts` to `x`. */
  predicate IsWalkTo(kids: map<string, seq<string>>, show: set<string>, starts: seq<string>, p: seq<string>, x: string)
  {
    IsWalk(kids, show, p) && p[0] in starts && p[|p| - 1] == x
  }

  /** Some walk inside `show` leads from one of `starts` to `x`. */
  ghost predicate Reaches(kids: map<string, seq<string>>, show: set<string>, starts: seq<string>, x: string) {
    exists p :: IsWalkTo(kids, show, starts, p, x)
  }

  lemma {:induction false} ReachesStart(kids: map<string, seq<string>>, show: set<string>, starts: seq<string>,
                                        x: string)
    requires x in starts && x in show
    ensures Reaches(kids, show, starts, x)
  {
    assert IsWalkTo(kids, show, starts, [x], x);
  }

  /** A walk extended at its front. */
  lemma {:induction false} ReachesThrough(kids: map<string, seq<string>>, show: set<string>, starts: seq<string>,
                                          r: string, x: string)
    requires r in starts && r in show && Reaches(kids, show, Kids(kids, r), x)
    ensures Reaches(kids, show, starts, x)
  {
    var p :| IsWalkTo(kids, show, Kids(kids, r), p, x);
    assert IsWalkTo(kids, show, starts, [r] + p, x);
  }

  /** A walk from `starts` to `r` followed by one from the children of `r`. */
  lemma {:induction false} ReachesVia(kids: map<string, seq<string>>, show: set<string>, starts: seq<string>,
                                      r: string, x: string)
    requires Reaches(kids, show, starts, r) && Reaches(kids, show, Kids(kids, r), x)
    ensures Reaches(kids, show, starts, x)
  {
    var p :| IsWalkTo(kids, show, starts, p, r);
    var q :| IsWalkTo(kids, show, Kids(kids, r), q, x);
    var pq := p + q;
    forall i | 0 <= i < |pq| - 1 ensures pq[i + 1] in Kids(kids, pq[i]) {
      if i == |p| - 1 { assert pq[i] == r && pq[i + 1] == q[0]; }
    }
    assert IsWalkTo(kids, show, starts, pq, x);
  }
}
