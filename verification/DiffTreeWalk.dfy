/**
 * The depth-first walk that prints a diff tree. `show` is the set of refs that get a line: the known nodes, or with
 * pruning the known nodes whose subtree changed. Entries carry their address, the position in the roots followed by
 * the positions in the sorted child lists, so that an address names one edge path.
 */
module DiffTreeWalk {
  import opened Graphs

  datatype View = View(show: set<string>, kids: map<string, seq<string>>)

  /** One printed line: a node, or a note that its ref is already on the path. */
  datatype Entry = Entry(addr: seq<nat>, ref: string, cycle: bool)

  function Below(i: nat, es: seq<Entry>): seq<Entry> {
    if es == [] then [] else [es[0].(addr := [i] + es[0].addr)] + Below(i, es[1..])
  }

  /** The lines for one ref, addressed relative to it. */
  function WalkRef(v: View, ref: string, path: set<string>): seq<Entry>
    decreases |v.show - path|, 0
  {
    if ref in path then [Entry([], ref, true)]
    else if ref !in v.show then []
    else
      Smaller(v.show - (path + {ref}), v.show - path, ref);
      [Entry([], ref, false)] + WalkList(v, Kids(v.kids, ref), 0, path + {ref})
  }

  /** The lines for the refs of a list from position `i` on. */
  function WalkList(v: View, list: seq<string>, i: nat, path: set<string>): seq<Entry>
    requires i <= |list|
    decreases |v.show - path|, |list| - i + 1
  {
    if i == |list| then [] else Below(i, WalkRef(v, list[i], path)) + WalkList(v, list, i + 1, path)
  }

  lemma {:induction false} Smaller(a: set<string>, b: set<string>, x: string)
    requires a <= b && x in b && x !in a
    ensures |a| < |b|
  {
    assert b == a + (b - a) && |b| == |a| + |b - a|;
  }

  /** Node lines with this address. */
  function Count(es: seq<Entry>, addr: seq<nat>): nat {
    if es == [] then 0 else (if es[0].addr == addr && !es[0].cycle then 1 else 0) + Count(es[1..], addr)
  }

  lemma {:induction false} CountConcat(a: seq<Entry>, b: seq<Entry>, addr: seq<nat>)
    ensures Count(a + b, addr) == Count(a, addr) + Count(b, addr)
  {
    if a == [] {
      assert a + b == b;
    } else {
      CountConcat(a[1..], b, addr);
      assert (a + b)[1..] == a[1..] + b;
    }
  }

  lemma {:induction false} CountBelow(i: nat, es: seq<Entry>, addr: seq<nat>)
    ensures Count(Below(i, es), addr) == if addr != [] && addr[0] == i then Count(es, addr[1..]) else 0
  {
    if es != [] {
      CountBelow(i, es[1..], addr);
      var low := es[0].(addr := [i] + es[0].addr);
      assert Below(i, es)[1..] == Below(i, es[1..]);
      assert low.addr[1..] == es[0].addr;
      assert addr != [] ==> addr == [addr[0]] + addr[1..];
    }
  }

  /** The address names an edge path from the list through shown refs that never meets `path` or itself. */
  predicate Simple(v: View, list: seq<string>, addr: seq<nat>, path: set<string>)
    decreases |addr|
  {
    && addr != [] && addr[0] < |list|
    && list[addr[0]] in v.show && list[addr[0]] !in path
    && (|addr| > 1 ==> Simple(v, Kids(v.kids, list[addr[0]]), addr[1..], path + {list[addr[0]]}))
  }

  /** One node line for each simple address, and none for any other. */
  lemma {:induction false} CountRef(v: View, ref: string, path: set<string>, addr: seq<nat>)
    ensures Count(WalkRef(v, ref, path), addr) ==
            if ref in v.show && ref !in path
               && (addr != [] ==> Simple(v, Kids(v.kids, ref), addr, path + {ref})) then 1 else 0
    decreases |v.show - path|, 0
  {
    if ref in v.show && ref !in path {
      Smaller(v.show - (path + {ref}), v.show - path, ref);
      var es := WalkList(v, Kids(v.kids, ref), 0, path + {ref});
      CountConcat([Entry([], ref, false)], es, addr);
      CountList(v, Kids(v.kids, ref), 0, path + {ref}, addr);
    }
  }

  lemma {:induction false} CountList(v: View, list: seq<string>, i: nat, path: set<string>, addr: seq<nat>)
    requires i <= |list|
    ensures Count(WalkList(v, list, i, path), addr) ==
            if addr != [] && addr[0] >= i && Simple(v, list, addr, path) then 1 else 0
    decreases |v.show - path|, |list| - i + 1
  {
    if i < |list| {
      CountConcat(Below(i, WalkRef(v, list[i], path)), WalkList(v, list, i + 1, path), addr);
      CountBelow(i, WalkRef(v, list[i], path), addr);
      CountList(v, list, i + 1, path, addr);
      if addr != [] { CountRef(v, list[i], path, addr[1..]); }
    }
  }

  // ---------- addresses are simple edge paths ----------

  /** Every position of the address exists. */
  predicate InRange(v: View, list: seq<string>, addr: seq<nat>)
    decreases |addr|
  {
    addr == [] || (addr[0] < |list| && InRange(v, Kids(v.kids, list[addr[0]]), addr[1..]))
  }

  /** The refs along an address. */
  function Trail(v: View, list: seq<string>, addr: seq<nat>): (t: seq<string>)
    requires InRange(v, list, addr)
    ensures |t| == |addr|
    decreases |addr|
  {
    if addr == [] then [] else [list[addr[0]]] + Trail(v, Kids(v.kids, list[addr[0]]), addr[1..])
  }

  predicate Distinct(t: seq<string>) {
    forall i, j :: 0 <= i < j < |t| ==> t[i] != t[j]
  }

  /** Refs that are shown, pairwise distinct and off the path. */
  predicate Good(v: View, t: seq<string>, path: set<string>) {
    Distinct(t) && forall r :: r in t ==> r in v.show && r !in path
  }

  lemma {:induction false} GoodCons(v: View, r: string, rest: seq<string>, path: set<string>)
    ensures Good(v, [r] + rest, path) <==> r in v.show && r !in path && Good(v, rest, path + {r})
  {
    var t := [r] + rest;
    assert t[0] == r && forall i :: 0 <= i < |rest| ==> t[i + 1] == rest[i];
    assert forall x :: x in t <==> x == r || x in rest;
    DistinctCons(r, rest);
  }

  /** A simple address is a nonempty edge path whose refs are shown, pairwise distinct and off the path so far. */
  lemma {:induction false} SimpleIsPath(v: View, list: seq<string>, addr: seq<nat>, path: set<string>)
    ensures Simple(v, list, addr, path) <==>
            addr != [] && InRange(v, list, addr) && Good(v, Trail(v, list, addr), path)
    decreases |addr|
  {
    if addr != [] && addr[0] < |list| {
      var r := list[addr[0]];
      SimpleIsPath(v, Kids(v.kids, r), addr[1..], path + {r});
      if InRange(v, list, addr) {
        GoodCons(v, r, Trail(v, Kids(v.kids, r), addr[1..]), path);
      }
    }
  }

  lemma {:induction false} DistinctCons(r: string, rest: seq<string>)
    ensures Distinct([r] + rest) <==> Distinct(rest) && r !in rest
  {
    var t := [r] + rest;
    assert forall i :: 0 <= i < |rest| ==> t[i + 1] == rest[i];
    if Distinct(t) {
      forall i, j | 0 <= i < j < |rest| ensures rest[i] != rest[j] { assert t[i + 1] != t[j + 1]; }
      forall i | 0 <= i < |rest| ensures rest[i] != r { assert t[0] != t[i + 1]; }
    }
  }

  /**
   * The walk over the roots prints exactly one node line for each simple edge path from a root through shown refs, on
   * every graph, and no other.
   */
  lemma {:induction false} OneLinePerSimplePath(v: View, roots: seq<string>, addr: seq<nat>)
    ensures Count(WalkList(v, roots, 0, {}), addr) ==
            if && addr != [] && InRange(v, roots, addr) && Distinct(Trail(v, roots, addr))
               && (forall r :: r in Trail(v, roots, addr) ==> r in v.show) then 1 else 0
  {
    CountList(v, roots, 0, {}, addr);
    SimpleIsPath(v, roots, addr, {});
  }

  /** Where an entry stands in the graph: a node line ends a simple path; a cycle note repeats a ref of its path. */
  predicate WellPlaced(v: View, list: seq<string>, path: set<string>, e: Entry) {
    && e.addr != [] && InRange(v, list, e.addr)
    && var t := Trail(v, list, e.addr);
       && t[|t| - 1] == e.ref
       && if e.cycle then e.ref in path || e.ref in t[..|t| - 1] else Simple(v, list, e.addr, path)
  }

  lemma {:induction false} PlacedBelow(v: View, list: seq<string>, i: nat, path: set<string>, e: Entry, low: Entry)
    requires i < |list| && list[i] !in path && list[i] in v.show && low == e.(addr := [i] + e.addr)
    requires WellPlaced(v, Kids(v.kids, list[i]), path + {list[i]}, e)
    ensures WellPlaced(v, list, path, low)
  {
    assert low.addr[1..] == e.addr;
    var t, rest := Trail(v, list, low.addr), Trail(v, Kids(v.kids, list[i]), e.addr);
    assert t == [list[i]] + rest;
    if e.cycle {
      assert t[..|t| - 1] == [list[i]] + rest[..|rest| - 1];
    }
  }

  lemma {:induction false} InBelow(i: nat, es: seq<Entry>, low: Entry) returns (e: Entry)
    requires low in Below(i, es)
    ensures e in es && low == e.(addr := [i] + e.addr)
  {
    if low == es[0].(addr := [i] + es[0].addr) {
      e := es[0];
    } else {
      e := InBelow(i, es[1..], low);
    }
  }

  lemma {:induction false} EntriesPlaced(v: View, list: seq<string>, i: nat, path: set<string>, low: Entry)
    requires i <= |list| && low in WalkList(v, list, i, path)
    ensures WellPlaced(v, list, path, low)
    decreases |v.show - path|, |list| - i
  {
    if low in WalkList(v, list, i + 1, path) {
      EntriesPlaced(v, list, i + 1, path, low);
    } else {
      var ref := list[i];
      var e := InBelow(i, WalkRef(v, ref, path), low);
      if ref in v.show && ref !in path && e in WalkList(v, Kids(v.kids, ref), 0, path + {ref}) {
        Smaller(v.show - (path + {ref}), v.show - path, ref);
        EntriesPlaced(v, Kids(v.kids, ref), 0, path + {ref}, e);
        PlacedBelow(v, list, i, path, e, low);
      } else {
        assert e == Entry([], ref, ref in path) && low.addr == [i];
        assert Trail(v, list, low.addr) == [ref];
      }
    }
  }

  // ---------- the order of the lines ----------

  /** One address comes before another: it is where the other starts, or turns off earlier where they part. */
  predicate Before(a: seq<nat>, b: seq<nat>) {
    b != [] && (a == [] || a[0] < b[0] || (a[0] == b[0] && Before(a[1..], b[1..])))
  }

  predicate InOrder(es: seq<Entry>) {
    forall m, n :: 0 <= m < n < |es| ==> Before(es[m].addr, es[n].addr)
  }

  lemma {:induction false} BelowAt(i: nat, es: seq<Entry>)
    ensures |Below(i, es)| == |es|
    ensures forall m :: 0 <= m < |es| ==> Below(i, es)[m] == es[m].(addr := [i] + es[m].addr)
  {
    if es != [] { BelowAt(i, es[1..]); }
  }

  lemma {:induction false} BelowInOrder(i: nat, es: seq<Entry>)
    requires InOrder(es)
    ensures InOrder(Below(i, es))
  {
    BelowAt(i, es);
    forall m, n | 0 <= m < n < |es| ensures Before([i] + es[m].addr, [i] + es[n].addr) {
      assert ([i] + es[m].addr)[1..] == es[m].addr && ([i] + es[n].addr)[1..] == es[n].addr;
    }
  }

  lemma {:induction false} RefInOrder(v: View, ref: string, path: set<string>)
    ensures InOrder(WalkRef(v, ref, path))
    decreases |v.show - path|, 0
  {
    if ref in v.show && ref !in path {
      Smaller(v.show - (path + {ref}), v.show - path, ref);
      LinesInOrder(v, Kids(v.kids, ref), 0, path + {ref});
    }
  }

  /** The lines come in the order of their addresses: a node before what is below it, siblings by their position. */
  lemma {:induction false} LinesInOrder(v: View, list: seq<string>, i: nat, path: set<string>)
    requires i <= |list|
    ensures InOrder(WalkList(v, list, i, path))
    ensures forall e :: e in WalkList(v, list, i, path) ==> e.addr != [] && e.addr[0] >= i
    decreases |v.show - path|, |list| - i + 1
  {
    if i < |list| {
      var here, rest := WalkRef(v, list[i], path), WalkList(v, list, i + 1, path);
      RefInOrder(v, list[i], path);
      BelowInOrder(i, here);
      BelowAt(i, here);
      LinesInOrder(v, list, i + 1, path);
      var es := Below(i, here) + rest;
      forall m, n | 0 <= m < |here| <= n < |es| ensures Before(es[m].addr, es[n].addr) {
        assert es[n] == rest[n - |here|] && rest[n - |here|] in rest;
      }
      assert forall e :: e in es <==> e in Below(i, here) || e in rest;
    }
  }

  /** The list that the last position of an address points into. */
  function ListAt(v: View, list: seq<string>, addr: seq<nat>): seq<string>
    decreases |addr|
  {
    if addr == [] then list
    else if addr[0] < |list| then ListAt(v, Kids(v.kids, list[addr[0]]), addr[1..])
    else []
  }

  lemma {:induction false} TrailEnds(v: View, list: seq<string>, addr: seq<nat>, i: nat)
    requires InRange(v, list, addr + [i])
    ensures InRange(v, list, addr) && i < |ListAt(v, list, addr)|
    ensures Trail(v, list, addr + [i]) == Trail(v, list, addr) + [ListAt(v, list, addr)[i]]
    ensures addr != [] ==> ListAt(v, list, addr) == Kids(v.kids, Trail(v, list, addr)[|addr| - 1])
    decreases |addr|
  {
    if addr != [] {
      assert (addr + [i])[1..] == addr[1..] + [i];
      TrailEnds(v, Kids(v.kids, list[addr[0]]), addr[1..], i);
    }
  }

  // ---------- which refs are printed ----------

  predicate Prints(es: seq<Entry>, ref: string) {
    exists e :: e in es && !e.cycle && e.ref == ref
  }

  lemma {:induction false} Counted(es: seq<Entry>, addr: seq<nat>) returns (e: Entry)
    requires Count(es, addr) > 0
    ensures e in es && e.addr == addr && !e.cycle
  {
    if es[0].addr == addr && !es[0].cycle {
      e := es[0];
    } else {
      e := Counted(es[1..], addr);
    }
  }

  /** A walk from the list to `x` off the path can be cut down to a simple address ending in `x`. */
  lemma {:induction false} CutToSimple(v: View, list: seq<string>, path: set<string>, p: seq<string>)
    returns (addr: seq<nat>)
    requires IsWalk(v.kids, v.show, p) && p[0] in list && forall r :: r in p ==> r !in path
    ensures Simple(v, list, addr, path) && InRange(v, list, addr)
    ensures Trail(v, list, addr)[|addr| - 1] == p[|p| - 1]
    decreases |p|
  {
    var i :| 0 <= i < |list| && list[i] == p[0];
    var j := 0;
    var k := 0;
    while k < |p|
      invariant 0 <= j < |p| && j <= k <= |p| && p[j] == p[0]
      invariant forall m :: j < m < k ==> p[m] != p[0]
    {
      if p[k] == p[0] { j := k; }
      k := k + 1;
    }
    if j == |p| - 1 {
      addr := [i];
      assert Trail(v, list, addr) == [list[i]];
    } else {
      var q := p[j + 1..];
      assert p[j + 1] in Kids(v.kids, p[j]);
      assert forall m :: 0 <= m < |q| ==> q[m] == p[j + 1 + m];
      var rest := CutToSimple(v, Kids(v.kids, p[0]), path + {p[0]}, q);
      addr := [i] + rest;
      assert addr[1..] == rest;
    }
  }

  /** On every graph, cyclic or not: a ref gets a node line iff a walk through shown refs leads to it from a root. */
  lemma {:induction false} PrintsReachable(v: View, roots: seq<string>, x: string)
    ensures Prints(WalkList(v, roots, 0, {}), x) <==> Reaches(v.kids, v.show, roots, x)
  {
    var es := WalkList(v, roots, 0, {});
    if Prints(es, x) {
      var e :| e in es && !e.cycle && e.ref == x;
      EntriesPlaced(v, roots, 0, {}, e);
      TrailWalks(v, roots, e.addr, {});
      assert IsWalkTo(v.kids, v.show, roots, Trail(v, roots, e.addr), x);
    }
    if Reaches(v.kids, v.show, roots, x) {
      var p :| IsWalkTo(v.kids, v.show, roots, p, x);
      var addr := CutToSimple(v, roots, {}, p);
      CountList(v, roots, 0, {}, addr);
      var e := Counted(es, addr);
      EntriesPlaced(v, roots, 0, {}, e);
    }
  }

  lemma {:induction false} TrailWalks(v: View, list: seq<string>, addr: seq<nat>, path: set<string>)
    requires Simple(v, list, addr, path) && InRange(v, list, addr)
    ensures IsWalk(v.kids, v.show, Trail(v, list, addr)) && Trail(v, list, addr)[0] in list
    decreases |addr|
  {
    var r := list[addr[0]];
    if |addr| > 1 {
      TrailWalks(v, Kids(v.kids, r), addr[1..], path + {r});
    }
  }
}
