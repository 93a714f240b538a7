/** The dependency graph of a generated SBOM, and where its paths lead. */
module LoadGraphs {

  /** The base image or the artifact a component slot comes from. */
  datatype Owner = Base(b: nat) | App(a: nat)

  /** `slot` numbers the owner's components, `vulnerable` marks a real package at a version with advisories. */
  datatype Pkg = Pkg(owner: Owner, slot: nat, vulnerable: bool, bump: nat, license: nat, deps: seq<nat>)

  datatype Dependency = Dependency(ref: nat, on: seq<nat>)

  /** Component i is known by its index; `root` lists what the described image itself depends on. */
  datatype Doc = Doc(artifact: nat, version: nat, comps: seq<Pkg>, deps: seq<Dependency>, root: seq<nat>)

  function Dependencies(pkgs: seq<Pkg>): seq<Dependency> {
    if pkgs == [] then []
    else
      var last := |pkgs| - 1;
      Dependencies(pkgs[..last]) + if pkgs[last].deps != [] then [Dependency(last, pkgs[last].deps)] else []
  }

  function RootDeps(pkgs: seq<Pkg>): seq<nat> {
    if pkgs == [] then []
    else RootDeps(pkgs[..|pkgs| - 1]) + if pkgs[|pkgs| - 1].deps == [] then [|pkgs| - 1] else []
  }

  /** The part of a document that is about the graph. */
  method Document(a: nat, v: nat, pkgs: array<Pkg>) returns (doc: Doc)
    ensures doc == Doc(a, v, pkgs[..], Dependencies(pkgs[..]), RootDeps(pkgs[..]))
  {
    var deps, rootDeps := [], [];
    for i := 0 to pkgs.Length
      invariant deps == Dependencies(pkgs[..i]) && rootDeps == RootDeps(pkgs[..i])
    {
      assert pkgs[..i + 1][..i] == pkgs[..i];
      if |pkgs[i].deps| > 0 {
        deps := deps + [Dependency(i, pkgs[i].deps)];
      } else {
        rootDeps := rootDeps + [i];
      }
    }
    assert pkgs[..pkgs.Length] == pkgs[..];
    doc := Doc(a, v, pkgs[..], deps, rootDeps);
  }

  // ---------- reading the document's graph ----------

  predicate DependsOn(deps: seq<Dependency>, from: nat, to: nat) {
    exists d :: d in deps && d.ref == from && to in d.on
  }

  /** The document's edges are the components' dependencies. */
  lemma {:induction false} EdgesExact(pkgs: seq<Pkg>, from: nat, to: nat)
    ensures DependsOn(Dependencies(pkgs), from, to) <==> from < |pkgs| && to in pkgs[from].deps
  {
    if pkgs != [] {
      var init, last := pkgs[..|pkgs| - 1], pkgs[|pkgs| - 1];
      var deps := Dependencies(pkgs);
      EdgesExact(init, from, to);
      if last.deps != [] { assert deps[|deps| - 1] == Dependency(|pkgs| - 1, last.deps) && deps[|deps| - 1] in deps; }
      assert forall d :: d in Dependencies(init) ==> d in deps;
    }
  }

  /** The root lists the components without dependencies, and no others. */
  lemma {:induction false} RootExact(pkgs: seq<Pkg>, i: nat)
    ensures i in RootDeps(pkgs) <==> i < |pkgs| && pkgs[i].deps == []
  {
    if pkgs != [] { RootExact(pkgs[..|pkgs| - 1], i); }
  }

  /** What linking leaves: nothing below `first` depends on anything, and the rest on one to three earlier ones. */
  predicate WellLinked(pkgs: seq<Pkg>, first: nat) {
    forall i :: 0 <= i < |pkgs| ==> LinkedAt(pkgs[i].deps, i, first)
  }

  predicate LinkedAt(deps: seq<nat>, i: nat, first: nat) {
    if i < first then deps == [] else 1 <= |deps| <= 3 && forall d :: d in deps ==> d < i
  }

  predicate RightDoc(doc: Doc, components: nat, first: nat) {
    && |doc.comps| == components && WellLinked(doc.comps, first)
    && doc.deps == Dependencies(doc.comps) && doc.root == RootDeps(doc.comps)
  }

  /** A path along the document's dependencies, from one of its components. */
  predicate IsPath(doc: Doc, path: seq<nat>) {
    && path != [] && path[0] < |doc.comps|
    && forall i :: 0 <= i < |path| - 1 ==> DependsOn(doc.deps, path[i], path[i + 1])
  }

  /** Every step goes to an earlier component, so a path never returns and is never longer than its start allows. */
  lemma {:induction false} PathsDescend(doc: Doc, components: nat, first: nat, path: seq<nat>)
    requires RightDoc(doc, components, first) && IsPath(doc, path)
    ensures forall i, j :: 0 <= i < j < |path| ==> path[j] < path[i]
    ensures |path| <= path[0] + 1 && path[|path| - 1] < components
  {
    if |path| > 1 {
      EdgesExact(doc.comps, path[0], path[1]);
      assert LinkedAt(doc.comps[path[0]].deps, path[0], first);
      forall i | 0 <= i < |path| - 2 ensures DependsOn(doc.deps, path[1..][i], path[1..][i + 1]) {
        assert DependsOn(doc.deps, path[i + 1], path[i + 2]);
      }
      PathsDescend(doc, components, first, path[1..]);
      forall i, j | 0 <= i < j < |path| ensures path[j] < path[i] {
        if i == 0 { assert path[1..][j - 1] <= path[1..][0]; } else { assert path[1..][j - 1] < path[1..][i - 1]; }
      }
    }
  }

  /** A path that can go no further has ended at a component the root lists, in the base layer if there is one. */
  lemma {:induction false} PathsEndAtRoot(doc: Doc, components: nat, first: nat, path: seq<nat>)
    requires RightDoc(doc, components, first) && IsPath(doc, path)
    ensures var end := path[|path| - 1];
            (forall to: nat :: !DependsOn(doc.deps, end, to)) <==> end in doc.root
    ensures path[|path| - 1] in doc.root <==> path[|path| - 1] < first
  {
    PathsDescend(doc, components, first, path);
    var end := path[|path| - 1];
    RootExact(doc.comps, end);
    assert LinkedAt(doc.comps[end].deps, end, first);
    if end in doc.root {
      forall to: nat ensures !DependsOn(doc.deps, end, to) { EdgesExact(doc.comps, end, to); }
    } else {
      EdgesExact(doc.comps, end, doc.comps[end].deps[0]);
    }
  }

  /** From every component some path does end there. */
  lemma {:induction false} SomePathEnds(doc: Doc, components: nat, first: nat, i: nat) returns (path: seq<nat>)
    requires RightDoc(doc, components, first) && i < components
    ensures IsPath(doc, path) && path[0] == i && path[|path| - 1] in doc.root
  {
    RootExact(doc.comps, i);
    assert LinkedAt(doc.comps[i].deps, i, first);
    path := [i];
    if doc.comps[i].deps != [] {
      var d := doc.comps[i].deps[0];
      EdgesExact(doc.comps, i, d);
      var rest := SomePathEnds(doc, components, first, d);
      path := [i] + rest;
      forall k | 0 <= k < |path| - 1 ensures DependsOn(doc.deps, path[k], path[k + 1]) {
        if k > 0 { assert path[k] == rest[k - 1] && path[k + 1] == rest[k]; }
      }
    }
  }

  /** The root itself reaches the components it lists and no others: those depend on nothing. */
  lemma {:induction false} RootReachesExact(doc: Doc, components: nat, first: nat, path: seq<nat>)
    requires RightDoc(doc, components, first) && IsPath(doc, path) && path[0] in doc.root
    ensures |path| == 1
  {
    RootExact(doc.comps, path[0]);
    if |path| > 1 {
      assert DependsOn(doc.deps, path[0], path[1]);
      EdgesExact(doc.comps, path[0], path[1]);
    }
  }
}
