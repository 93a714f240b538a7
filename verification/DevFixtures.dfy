/** The dependency graph of a generated fixture SBOM, and why every component stays reachable from the image. */
module DevFixtures {

  datatype Component = Component(name: string, ref: string)

  /** One entry of a CycloneDX `dependencies` array. */
  datatype Entry = Entry(ref: string, dependsOn: seq<string>)

  /** Edges between package names: what each pulls in. */
  type Table = map<string, seq<string>>

  /** Refs by package name; of two components with one name the later wins. */
  function ByName(cs: seq<Component>): map<string, string> {
    if cs == [] then map[] else ByName(cs[..|cs| - 1])[cs[|cs| - 1].name := cs[|cs| - 1].ref]
  }

  /** The refs of the listed names that are present. */
  function Present(names: seq<string>, byName: map<string, string>): (refs: seq<string>)
    ensures forall r :: r in refs <==> exists t :: t in names && t in byName && byName[t] == r
  {
    if names == [] then []
    else
      var rest, t := Present(names[..|names| - 1], byName), names[|names| - 1];
      assert forall n :: n in names <==> n in names[..|names| - 1] || n == t;
      if t in byName then rest + [byName[t]] else rest
  }

  function Targets(table: Table, byName: map<string, string>, c: Component): seq<string> {
    Present(if c.name in table then table[c.name] else [], byName)
  }

  function Edges(table: Table, byName: map<string, string>, cs: seq<Component>): seq<Entry> {
    if cs == [] then []
    else
      var rest, c := Edges(table, byName, cs[..|cs| - 1]), cs[|cs| - 1];
      if Targets(table, byName, c) == [] then rest else rest + [Entry(c.ref, Targets(table, byName, c))]
  }

  function Elements(refs: seq<string>): set<string> {
    set r | r in refs
  }

  /** Everything some component pulls in. */
  function Pulled(table: Table, byName: map<string, string>, cs: seq<Component>): set<string> {
    if cs == [] then {}
    else Pulled(table, byName, cs[..|cs| - 1]) + Elements(Targets(table, byName, cs[|cs| - 1]))
  }

  /** The refs nothing pulls in, which hang off the image. */
  function Direct(pulled: set<string>, cs: seq<Component>): seq<string> {
    if cs == [] then []
    else
      var rest, c := Direct(pulled, cs[..|cs| - 1]), cs[|cs| - 1];
      if c.ref in pulled then rest else rest + [c.ref]
  }

  function Graph(table: Table, root: string, cs: seq<Component>): seq<Entry> {
    var byName := ByName(cs);
    [Entry(root, Direct(Pulled(table, byName, cs), cs))] + Edges(table, byName, cs)
  }

  // ---------- reachability ----------

  predicate IsEdge(g: seq<Entry>, a: string, b: string) {
    exists e :: e in g && e.ref == a && b in e.dependsOn
  }

  predicate IsPath(g: seq<Entry>, p: seq<string>, a: string, b: string) {
    p != [] && p[0] == a && p[|p| - 1] == b && forall i :: 0 <= i < |p| - 1 ==> IsEdge(g, p[i], p[i + 1])
  }

  ghost predicate Reachable(g: seq<Entry>, a: string, b: string) {
    exists p :: IsPath(g, p, a, b)
  }

  lemma {:induction false} ReachableSnoc(g: seq<Entry>, a: string, b: string, c: string)
    requires Reachable(g, a, b) && IsEdge(g, b, c)
    ensures Reachable(g, a, c)
  {
    var p :| IsPath(g, p, a, b);
    assert IsPath(g, p + [c], a, c);
  }

  ghost predicate AllReachable(table: Table, root: string, cs: seq<Component>) {
    forall c :: c in cs ==> Reachable(Graph(table, root, cs), root, c.ref)
  }

  predicate DistinctRefs(cs: seq<Component>) {
    forall i, j :: 0 <= i < j < |cs| ==> cs[i].ref != cs[j].ref
  }

  predicate Pulls(table: Table, m: string, n: string) {
    m in table && n in table[m]
  }

  /** No member of the set pulls this name in. */
  predicate PulledByNone(table: Table, names: set<string>, n: string) {
    forall m :: m in names ==> !Pulls(table, m, n)
  }

  predicate HasTop(table: Table, names: set<string>) {
    exists n :: n in names && PulledByNone(table, names, n)
  }

  /** Every nonempty set of names has a member that no member pulls in. */
  ghost predicate Acyclic(table: Table) {
    forall names :: names == {} || HasTop(table, names)
  }

  ghost predicate Stranded(table: Table, root: string, cs: seq<Component>, c: Component) {
    c in cs && !Reachable(Graph(table, root, cs), root, c.ref)
  }

  // ---------- the joins say what they mean ----------

  lemma {:induction false} ByNameFinds(cs: seq<Component>, t: string)
    ensures t in ByName(cs) <==> exists c :: c in cs && c.name == t
    ensures t in ByName(cs) ==> Component(t, ByName(cs)[t]) in cs
  {
    if cs != [] {
      ByNameFinds(cs[..|cs| - 1], t);
      assert forall c :: c in cs <==> c in cs[..|cs| - 1] || c == cs[|cs| - 1];
    }
  }

  lemma {:induction false} EdgesExact(table: Table, byName: map<string, string>, cs: seq<Component>, e: Entry)
    ensures e in Edges(table, byName, cs) <==>
            e.dependsOn != [] && exists c :: c in cs && e == Entry(c.ref, Targets(table, byName, c))
  {
    if cs != [] {
      EdgesExact(table, byName, cs[..|cs| - 1], e);
      assert forall c :: c in cs <==> c in cs[..|cs| - 1] || c == cs[|cs| - 1];
    }
  }

  lemma {:induction false} PulledExact(table: Table, byName: map<string, string>, cs: seq<Component>, r: string)
    ensures r in Pulled(table, byName, cs) <==> exists c :: c in cs && r in Targets(table, byName, c)
  {
    if cs != [] {
      PulledExact(table, byName, cs[..|cs| - 1], r);
      assert forall c :: c in cs <==> c in cs[..|cs| - 1] || c == cs[|cs| - 1];
    }
  }

  lemma {:induction false} DirectExact(pulled: set<string>, cs: seq<Component>, r: string)
    ensures r in Direct(pulled, cs) <==> r !in pulled && exists c :: c in cs && c.ref == r
  {
    if cs != [] {
      DirectExact(pulled, cs[..|cs| - 1], r);
      assert forall c :: c in cs <==> c in cs[..|cs| - 1] || c == cs[|cs| - 1];
    }
  }

  lemma {:induction false} TargetIsPulled(table: Table, cs: seq<Component>, p: Component, u: Component)
    requires DistinctRefs(cs) && u in cs && u.ref in Targets(table, ByName(cs), p)
    ensures Pulls(table, p.name, u.name)
  {
    var byName := ByName(cs);
    var t :| t in (if p.name in table then table[p.name] else []) && t in byName && byName[t] == u.ref;
    ByNameFinds(cs, t);
    assert Component(t, u.ref) == u;
  }

  lemma {:induction false} PullerOf(table: Table, cs: seq<Component>, u: Component) returns (p: Component)
    requires DistinctRefs(cs) && u in cs && u.ref in Pulled(table, ByName(cs), cs)
    ensures p in cs && Pulls(table, p.name, u.name) && u.ref in Targets(table, ByName(cs), p)
  {
    var byName := ByName(cs);
    PulledExact(table, byName, cs, u.ref);
    p :| p in cs && u.ref in Targets(table, byName, p);
    TargetIsPulled(table, cs, p, u);
  }

  /** A component that nothing pulls in hangs directly off the image. */
  lemma {:induction false} UnpulledIsReachable(table: Table, root: string, cs: seq<Component>, u: Component)
    requires u in cs && u.ref !in Pulled(table, ByName(cs), cs)
    ensures Reachable(Graph(table, root, cs), root, u.ref)
  {
    var g := Graph(table, root, cs);
    DirectExact(Pulled(table, ByName(cs), cs), cs, u.ref);
    assert g[0] in g && IsEdge(g, root, u.ref);
    assert IsPath(g, [root, u.ref], root, u.ref);
  }

  /** An unreachable component is pulled in by another unreachable component. */
  lemma {:induction false} UnreachableHasPuller(table: Table, root: string, cs: seq<Component>, u: Component)
    returns (p: Component)
    requires DistinctRefs(cs) && Stranded(table, root, cs, u)
    ensures Stranded(table, root, cs, p) && Pulls(table, p.name, u.name)
  {
    var byName, g := ByName(cs), Graph(table, root, cs);
    if u.ref !in Pulled(table, byName, cs) { UnpulledIsReachable(table, root, cs, u); }
    p := PullerOf(table, cs, u);
    var e := Entry(p.ref, Targets(table, byName, p));
    EdgesExact(table, byName, cs, e);
    assert e in g && IsEdge(g, p.ref, u.ref);
    if Reachable(g, root, p.ref) { ReachableSnoc(g, root, p.ref, u.ref); }
  }

  /** Over an acyclic table every component of every list is reachable from the image. Names may even repeat. */
  lemma {:induction false} AcyclicReaches(table: Table, root: string, cs: seq<Component>)
    requires Acyclic(table) && DistinctRefs(cs)
    ensures AllReachable(table, root, cs)
  {
    ghost var names := set c | c in cs && Stranded(table, root, cs, c) :: c.name;
    if names != {} {
      assert HasTop(table, names);
      var n :| n in names && PulledByNone(table, names, n);
      var u :| u in cs && Stranded(table, root, cs, u) && u.name == n;
      var p := UnreachableHasPuller(table, root, cs, u);
      assert false;
    }
    forall c | c in cs ensures Reachable(Graph(table, root, cs), root, c.ref) {
      assert Stranded(table, root, cs, c) ==> c.name in names;
    }
  }

  // ---------- and over no other table ----------

  /** One component per name of the set. */
  ghost predicate ListsNames(cs: seq<Component>, names: set<string>) {
    forall c :: c in cs <==> c.name in names && c.ref == ['r'] + c.name
  }

  /** One component per name, its ref never empty. */
  lemma {:induction false} ComponentsFor(names: set<string>) returns (cs: seq<Component>)
    ensures ListsNames(cs, names) && DistinctRefs(cs)
    decreases |names|
  {
    if names == {} {
      cs := [];
    } else {
      var n :| n in names;
      var rest := ComponentsFor(names - {n});
      cs := [Component(n, ['r'] + n)] + rest;
      forall i, j | 0 <= i < j < |cs| ensures cs[i].ref != cs[j].ref {
        assert cs[j] in rest && cs[j].ref[1..] == cs[j].name;
        if i == 0 { assert cs[0].ref[1..] == n; } else { assert rest[i - 1].ref != rest[j - 1].ref; }
      }
    }
  }

  lemma {:induction false} NameIsPulled(table: Table, names: set<string>, cs: seq<Component>, m: string, n: string)
    requires ListsNames(cs, names) && m in names && n in names && Pulls(table, m, n)
    ensures ['r'] + n in Pulled(table, ByName(cs), cs)
  {
    assert Component(m, ['r'] + m) in cs && Component(n, ['r'] + n) in cs;
    ByNameFinds(cs, n);
    PulledExact(table, ByName(cs), cs, ['r'] + n);
  }

  /** If every name of a list is pulled in by another, nothing hangs off the image. */
  lemma {:induction false} NothingDirect(table: Table, names: set<string>, cs: seq<Component>, r: string)
    requires !HasTop(table, names) && ListsNames(cs, names)
    ensures r !in Direct(Pulled(table, ByName(cs), cs), cs)
  {
    DirectExact(Pulled(table, ByName(cs), cs), cs, r);
    if c :| c in cs && c.ref == r {
      assert !PulledByNone(table, names, c.name);
      var m :| m in names && Pulls(table, m, c.name);
      NameIsPulled(table, names, cs, m, c.name);
    }
  }

  lemma {:induction false} CycleStrands(table: Table, names: set<string>) returns (cs: seq<Component>)
    requires names != {} && !HasTop(table, names)
    ensures DistinctRefs(cs) && !AllReachable(table, "", cs)
  {
    cs := ComponentsFor(names);
    var n :| n in names;
    var c := Component(n, ['r'] + n);
    assert c in cs;
    if Reachable(Graph(table, "", cs), "", c.ref) {
      var p :| IsPath(Graph(table, "", cs), p, "", c.ref);
      assert IsEdge(Graph(table, "", cs), p[0], p[0 + 1]);
      NoEdgeFromImage(table, names, cs, p[1]);
    }
  }

  lemma {:induction false} NoEdgeFromImage(table: Table, names: set<string>, cs: seq<Component>, x: string)
    requires !HasTop(table, names) && ListsNames(cs, names)
    ensures !IsEdge(Graph(table, "", cs), "", x)
  {
    var edges := Edges(table, ByName(cs), cs);
    NothingDirect(table, names, cs, x);
    forall e | e in edges ensures e.ref != "" { EdgesExact(table, ByName(cs), cs, e); }
  }

  /** Every list with distinct refs is reachable in full, whatever its tail was cut to, iff the table is acyclic. */
  lemma {:induction false} ReachableExact(table: Table)
    ensures (forall root, cs :: DistinctRefs(cs) ==> AllReachable(table, root, cs)) <==> Acyclic(table)
  {
    if Acyclic(table) {
      forall root, cs | DistinctRefs(cs) ensures AllReachable(table, root, cs) { AcyclicReaches(table, root, cs); }
    } else {
      var names :| !(names == {} || HasTop(table, names));
      var cs := CycleStrands(table, names);
    }
  }

  /** A table whose edges all climb some ranking is acyclic. */
  lemma {:induction false} RankedIsAcyclic(table: Table, rank: string -> nat)
    requires forall m, n :: Pulls(table, m, n) ==> rank(m) < rank(n)
    ensures Acyclic(table)
  {
    forall names: set<string> | names != {} ensures HasTop(table, names) {
      var n := Lowest(names, rank);
      assert PulledByNone(table, names, n);
    }
  }

  lemma {:induction false} Lowest(names: set<string>, rank: string -> nat) returns (n: string)
    requires names != {}
    ensures n in names && forall m :: m in names ==> rank(n) <= rank(m)
    decreases |names|
  {
    n :| n in names;
    if names != {n} {
      assert names == {n} + (names - {n});
      var rest := Lowest(names - {n}, rank);
      if rank(rest) < rank(n) { n := rest; }
      forall m | m in names ensures rank(n) <= rank(m) { }
    }
  }

  /** The edges of the fixture corpus. */
  const DEPENDS_ON: Table := map[
    "busybox" := ["musl", "ssl_client"],
    "apk-tools" := ["scanelf", "openssl"],
    "openssl" := ["libssl3", "libcrypto3"],
    "ssl_client" := ["libssl3"],
    "libssl3" := ["libcrypto3", "libc6"],
    "libcrypto3" := ["musl"],
    "zlib" := ["musl"],
    "scanelf" := ["musl"],
    "bash" := ["libc6"],
    "coreutils" := ["libc6", "libgcc-s1"],
    "libpq5" := ["libssl3"],
    "zlib1g" := ["libc6"],
    "libgcc-s1" := ["libc6"],
    "github.com/go-chi/chi/v5" := ["golang.org/x/net"],
    "github.com/danielgtaylor/huma/v2" := ["golang.org/x/net"],
    "github.com/jackc/pgx/v5" := ["golang.org/x/crypto", "stdlib"],
    "github.com/nats-io/nats.go" := ["golang.org/x/crypto"],
    "golang.org/x/net" := ["stdlib"],
    "golang.org/x/crypto" := ["stdlib"],
    "@tanstack/solid-query" := ["solid-js"],
    "@solidjs/router" := ["solid-js"],
    "lucide-solid" := ["solid-js"]]

  /** How far below the image a package of the corpus can hang. */
  function Layer(n: string): nat {
    if n == "musl" || n == "libc6" || n == "stdlib" || n == "solid-js" then 4
    else if n == "libcrypto3" || n == "scanelf" || n == "libgcc-s1" || n == "golang.org/x/net"
            || n == "golang.org/x/crypto" then 3
    else if n == "libssl3" then 2
    else if n == "openssl" || n == "ssl_client" then 1
    else 0
  }

  lemma {:induction false} EdgesClimb(m: string, n: string)
    requires m in DEPENDS_ON && n in DEPENDS_ON[m]
    ensures Layer(m) < Layer(n)
  {
  }

  lemma {:induction false} DependsOnIsAcyclic()
    ensures Acyclic(DEPENDS_ON)
  {
    forall m, n | Pulls(DEPENDS_ON, m, n) ensures Layer(m) < Layer(n) { EdgesClimb(m, n); }
    RankedIsAcyclic(DEPENDS_ON, Layer);
  }

  // ---------- releases ----------

  /** Python's s[:k], which counts a negative k from the end. */
  function Head<T>(s: seq<T>, k: int): (r: seq<T>)
    ensures r <= s
  {
    if k >= |s| then s else if k >= 0 then s[..k] else if |s| + k >= 0 then s[..|s| + k] else []
  }

  /** Release `rel` of a list: the first `rel` components are renamed to a new version, a tail is dropped. */
  function Drifted(base: seq<Component>, rel: nat, bump: Component -> Component): seq<Component> {
    var out := seq(|base|, i requires 0 <= i < |base| => if i < rel then bump(base[i]) else base[i]);
    Head(out, |out| - rel / 2)
  }

  /**
   * A release keeps the front of the list, its first `rel` components renamed. The tail it drops is half of `rel`; once
   * that is more than the whole list, the count to keep goes negative and drops that much off the list instead.
   */
  lemma {:induction false} DriftedExact(base: seq<Component>, rel: nat, bump: Component -> Component)
    ensures var kept, half := Drifted(base, rel, bump), rel / 2;
            && |kept| <= |base|
            && (half <= |base| ==> |kept| + half == |base|)
            && (half > |base| ==> |kept| == if half - |base| <= |base| then |base| - (half - |base|) else 0)
            && (forall i :: 0 <= i < |kept| ==> kept[i] == if i >= rel then base[i] else bump(base[i]))
  {
  }

  /** In every release of one or two lists whose remaining refs are distinct, each component is reachable. */
  lemma {:induction false} EveryReleaseReachable(
      root: string, base: seq<Component>, more: seq<Component>, rel: nat, bump: Component -> Component)
    requires DistinctRefs(Drifted(base, rel, bump) + Drifted(more, rel, bump))
    ensures AllReachable(DEPENDS_ON, root, Drifted(base, rel, bump) + Drifted(more, rel, bump))
  {
    DependsOnIsAcyclic();
    AcyclicReaches(DEPENDS_ON, root, Drifted(base, rel, bump) + Drifted(more, rel, bump));
  }

  // ---------- the program ----------

  method IndexNames(cs: seq<Component>) returns (byName: map<string, string>)
    ensures byName == ByName(cs)
  {
    byName := map[];
    for i := 0 to |cs|
      invariant byName == ByName(cs[..i])
    {
      byName := byName[cs[i].name := cs[i].ref];
      assert cs[..i + 1][..i] == cs[..i];
    }
    assert cs[..|cs|] == cs;
  }

  /** The loop that grows the edges, and with them the refs something pulls in. */
  method GrowEdges(table: Table, byName: map<string, string>, cs: seq<Component>)
    returns (edges: seq<Entry>, pulled: set<string>)
    ensures edges == Edges(table, byName, cs) && pulled == Pulled(table, byName, cs)
  {
    edges, pulled := [], {};
    for i := 0 to |cs|
      invariant edges == Edges(table, byName, cs[..i]) && pulled == Pulled(table, byName, cs[..i])
    {
      var targets := Targets(table, byName, cs[i]);
      if targets != [] {
        edges := edges + [Entry(cs[i].ref, targets)];
        pulled := pulled + Elements(targets);
      }
      assert cs[..i + 1][..i] == cs[..i];
    }
    assert cs[..|cs|] == cs;
  }

  method DirectRefs(pulled: set<string>, cs: seq<Component>) returns (direct: seq<string>)
    ensures direct == Direct(pulled, cs)
  {
    direct := [];
    for i := 0 to |cs|
      invariant direct == Direct(pulled, cs[..i])
    {
      if cs[i].ref !in pulled { direct := direct + [cs[i].ref]; }
      assert cs[..i + 1][..i] == cs[..i];
    }
    assert cs[..|cs|] == cs;
  }

  method DependencyGraph(table: Table, root: string, cs: seq<Component>) returns (g: seq<Entry>)
    ensures g == Graph(table, root, cs)
  {
    var byName := IndexNames(cs);
    var edges, pulled := GrowEdges(table, byName, cs);
    var direct := DirectRefs(pulled, cs);
    g := [Entry(root, direct)] + edges;
  }
}
