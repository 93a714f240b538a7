/** Generating the corpus: base packages shared by artifacts, each artifact's own ones, their links and their churn. */
module LoadGen {
  import opened LoadGraphs

  /**
   * The corpus, with `baseSize` the BaseSize of its components and base share, and how long the built-in lists are:
   * vulnerable packages per owner, and licenses.
   */
  datatype Spec = Spec(
    artifacts: nat, versions: nat, components: nat, baseImages: nat, baseSize: nat, churn: real, known: Owner -> nat,
    licenses: nat)

  predicate Valid(s: Spec) {
    && s.artifacts >= 1 && s.versions >= 1 && s.components >= 1 && s.baseImages >= 1 && s.baseSize <= s.components
    && 0.0 <= s.churn <= 1.0 && s.licenses >= 1
  }

  /** What 64-bit floating point keeps of a real number: order, and integers up to 2^53 as they are. */
  ghost predicate Rounds(float: real -> real) {
    && (forall x, y :: x <= y ==> float(x) <= float(y))
    && forall x :: 0.0 <= x <= 9007199254740992.0 && x.Floor as real == x ==> float(x) == x
  }

  lemma {:induction false} ShareOf(x: real, share: real)
    requires x >= 0.0 && 0.0 <= share <= 1.0
    ensures 0.0 <= x * share <= x && x * 1.0 == x && x * 0.0 == 0.0
  {
    assert x * share <= x * 1.0;
  }

  lemma {:induction false} RoundedShare(components: nat, share: real, float: real -> real)
    requires 0.0 <= share <= 1.0 && components <= 9007199254740992 && Rounds(float)
    ensures var x := components as real;
            && float(x) == x && 0.0 <= float(x * share) <= x
            && (share == 1.0 ==> float(x * share) == x) && (share == 0.0 ==> float(x * share) == 0.0)
  {
    var x := components as real;
    ShareOf(x, share);
    assert x <= 9007199254740992.0 && x.Floor as real == x;
    assert float(x) == x && float(0.0) == 0.0;
    var y := x * share;
    assert float(0.0) <= float(y) && float(y) <= float(x);
  }

  /**
   * How many of an artifact's components are its base image's: a floating-point product, truncated. However it rounds,
   * a share between 0 and 1 never asks for more packages than there are components, and 1 asks for all of them.
   */
  function BaseSize(components: nat, baseShare: real, float: real -> real): (n: nat)
    requires 0.0 <= baseShare <= 1.0 && components <= 9007199254740992 && Rounds(float)
    ensures n <= components && (baseShare == 1.0 ==> n == components) && (baseShare == 0.0 ==> n == 0)
  {
    RoundedShare(components, baseShare, float);
    float(float(components as real) * baseShare).Floor
  }

  /** The base image an artifact sits on. */
  function BaseOf(a: nat, s: Spec): (b: nat)
    requires Valid(s)
    ensures b < s.baseImages
  {
    a % s.baseImages
  }

  /** The first component that gets links: no base package, and never the very first component. */
  function First(s: Spec): nat {
    if s.baseSize > 1 then s.baseSize else 1
  }

  /** A component gets links exactly if it is none of the base packages and not the very first. */
  lemma {:induction false} FirstExact(s: Spec, i: nat)
    ensures i >= First(s) <==> i >= s.baseSize && i != 0
  {
  }

  /** A random source: whatever numbers it gives, in turn. */
  class Rand {
    const ints: nat -> nat
    const reals: nat -> real
    var drawn: nat

    constructor (ints: nat -> nat, reals: nat -> real)
      ensures this.ints == ints && this.reals == reals && drawn == 0
    {
      this.ints, this.reals, drawn := ints, reals, 0;
    }

    method IntN(n: nat) returns (k: nat)
      requires n > 0
      modifies this`drawn
      ensures k == ints(old(drawn)) % n && drawn == old(drawn) + 1
    {
      k := ints(drawn) % n;
      drawn := drawn + 1;
    }

    method Float64() returns (x: real)
      modifies this`drawn
      ensures x == reals(old(drawn)) && drawn == old(drawn) + 1
    {
      x := reals(drawn);
      drawn := drawn + 1;
    }
  }

  /** What every package starts as: numbered in its owner, the known vulnerable ones first, depending on nothing. */
  predicate Fresh(pkgs: seq<Pkg>, owner: Owner, known: nat) {
    forall i :: 0 <= i < |pkgs| ==>
      && pkgs[i].owner == owner && pkgs[i].slot == i && pkgs[i].deps == []
      && pkgs[i].vulnerable == (i < known) && (pkgs[i].vulnerable ==> pkgs[i].bump == 0)
  }

  /** The family's vulnerable packages, as far as they fit, then synthetic ones up to n. */
  method Packages(r: Rand, owner: Owner, known: nat, licenses: nat, n: nat) returns (out: seq<Pkg>)
    requires licenses > 0
    modifies r`drawn
    ensures |out| == n && Fresh(out, owner, known)
  {
    out := [];
    for v := 0 to known
      invariant |out| == v <= n && Fresh(out, owner, known)
    {
      if |out| == n { break; }
      var license := r.IntN(licenses);
      out := out + [Pkg(owner, v, true, 0, license, [])];
    }
    var start := |out|;
    for i := start to n
      invariant |out| == i && Fresh(out, owner, known)
    {
      var bump := r.IntN(50);
      var license := r.IntN(licenses);
      out := out + [Pkg(owner, i, false, bump, license, [])];
    }
  }

  /** One to three dependencies on earlier components for each application library; nothing else changes. */
  method LinkDependencies(r: Rand, pkgs: array<Pkg>, first: nat)
    requires first >= 1 && forall i :: 0 <= i < pkgs.Length ==> pkgs[i].deps == []
    modifies r`drawn, pkgs
    ensures WellLinked(pkgs[..], first)
    ensures forall i :: 0 <= i < pkgs.Length ==> pkgs[i].(deps := []) == old(pkgs[i])
  {
    for i := first to if first < pkgs.Length then pkgs.Length else first
      invariant forall j :: 0 <= j < pkgs.Length ==> pkgs[j].(deps := []) == old(pkgs[j])
      invariant forall j :: 0 <= j < pkgs.Length ==>
        if j < i then LinkedAt(pkgs[j].deps, j, first) else pkgs[j].deps == []
    {
      var n := r.IntN(3);
      n := n + 1;
      for k := 0 to n
        invariant forall j :: 0 <= j < pkgs.Length ==> pkgs[j].(deps := []) == old(pkgs[j])
        invariant forall j :: 0 <= j < pkgs.Length && j != i ==>
          if j < i then LinkedAt(pkgs[j].deps, j, first) else pkgs[j].deps == []
        invariant |pkgs[i].deps| == k && forall d :: d in pkgs[i].deps ==> d < i
      {
        var d := r.IntN(i);
        pkgs[i] := pkgs[i].(deps := pkgs[i].deps + [d]);
      }
    }
  }

  /** A package whose draw falls below the fraction is bumped. */
  function Bumped(p: Pkg, draw: real, fraction: real): Pkg {
    if draw < fraction then p.(bump := p.bump + 1) else p
  }

  predicate ChurnedBy(before: seq<Pkg>, after: seq<Pkg>, draws: nat -> real, from: nat, fraction: real) {
    |after| == |before| && forall i :: 0 <= i < |before| ==> after[i] == Bumped(before[i], draws(from + i), fraction)
  }

  /** One release later: each package is bumped once if its draw, one of a run of draws, is below the fraction. */
  ghost predicate Released(before: seq<Pkg>, after: seq<Pkg>, draws: nat -> real, fraction: real) {
    exists from: nat :: ChurnedBy(before, after, draws, from, fraction)
  }

  /** Each package takes one draw, in order, and is bumped exactly if the draw is below the fraction. */
  method Churn(r: Rand, pkgs: array<Pkg>, fraction: real)
    modifies r`drawn, pkgs
    ensures ChurnedBy(old(pkgs[..]), pkgs[..], r.reals, old(r.drawn), fraction)
    ensures Released(old(pkgs[..]), pkgs[..], r.reals, fraction) && r.drawn == old(r.drawn) + pkgs.Length
  {
    for i := 0 to pkgs.Length
      invariant r.drawn == old(r.drawn) + i
      invariant forall j :: 0 <= j < pkgs.Length ==>
        pkgs[j] == if j < i then Bumped(old(pkgs[j]), r.reals(old(r.drawn) + j), fraction) else old(pkgs[j])
    {
      var x := r.Float64();
      if x < fraction { pkgs[i] := pkgs[i].(bump := pkgs[i].bump + 1); }
    }
    assert ChurnedBy(old(pkgs[..]), pkgs[..], r.reals, old(r.drawn), fraction);
  }

  /** Where an artifact's packages come from: its base image first, then its own, the vulnerable ones first in each. */
  predicate Stacked(pkgs: seq<Pkg>, a: nat, s: Spec)
    requires Valid(s)
  {
    forall i :: 0 <= i < |pkgs| ==>
      var own := i >= s.baseSize;
      var owner := if own then App(a) else Base(BaseOf(a, s));
      && pkgs[i].owner == owner && pkgs[i].slot == (if own then i - s.baseSize else i)
      && pkgs[i].vulnerable == (pkgs[i].slot < s.known(owner))
  }

  /** In a first version every vulnerable package is at its starting version. */
  predicate AtStart(pkgs: seq<Pkg>) {
    forall i :: 0 <= i < |pkgs| ==> (pkgs[i].vulnerable ==> pkgs[i].bump == 0)
  }

  /** The versions of one artifact so far, each a release after the one before. */
  ghost predicate History(docs: seq<Doc>, a: nat, s: Spec, draws: nat -> real)
    requires Valid(s)
  {
    && (forall v :: 0 <= v < |docs| ==>
          && docs[v].artifact == a && docs[v].version == v && RightDoc(docs[v], s.components, First(s))
          && Stacked(docs[v].comps, a, s))
    && (forall v :: 0 < v < |docs| ==> Released(docs[v - 1].comps, docs[v].comps, draws, s.churn))
  }

  predicate StartsWith(comps: seq<Pkg>, base: seq<Pkg>) {
    |base| <= |comps| && comps[..|base|] == base
  }

  /** What was emitted once there is something. */
  ghost predicate Told(docs: seq<Doc>, a: nat, s: Spec, draws: nat -> real, layer: seq<Pkg>)
    requires Valid(s)
  {
    docs != [] && History(docs, a, s, draws) && StartsWith(docs[0].comps, layer) && AtStart(docs[0].comps)
  }

  /** Between two versions: what was emitted, and the packages for the next version on top of it. */
  ghost predicate Going(docs: seq<Doc>, pkgs: seq<Pkg>, a: nat, s: Spec, draws: nat -> real, layer: seq<Pkg>)
    requires Valid(s)
  {
    && |pkgs| == s.components && WellLinked(pkgs, First(s)) && Stacked(pkgs, a, s)
    && if docs == [] then StartsWith(pkgs, layer) && AtStart(pkgs)
       else Told(docs, a, s, draws, layer) && Released(docs[|docs| - 1].comps, pkgs, draws, s.churn)
  }

  lemma {:induction false} HistoryGrows(docs: seq<Doc>, doc: Doc, a: nat, s: Spec, draws: nat -> real, layer: seq<Pkg>)
    requires Valid(s) && Going(docs, doc.comps, a, s, draws, layer)
    requires doc == Doc(a, |docs|, doc.comps, Dependencies(doc.comps), RootDeps(doc.comps))
    ensures Told(docs + [doc], a, s, draws, layer)
  {
    var all := docs + [doc];
    assert RightDoc(doc, s.components, First(s));
    forall v | 0 < v < |all| ensures Released(all[v - 1].comps, all[v].comps, draws, s.churn) {
      if v < |docs| { assert Released(docs[v - 1].comps, docs[v].comps, draws, s.churn); }
    }
  }

  lemma {:induction false} ReleasedStays(before: seq<Pkg>, after: seq<Pkg>, a: nat, s: Spec, draws: nat -> real)
    requires Valid(s) && Released(before, after, draws, s.churn)
    requires WellLinked(before, First(s)) && Stacked(before, a, s)
    ensures WellLinked(after, First(s)) && Stacked(after, a, s)
  {
    var from: nat :| ChurnedBy(before, after, draws, from, s.churn);
    forall i | 0 <= i < |after| ensures LinkedAt(after[i].deps, i, First(s)) {
      assert LinkedAt(before[i].deps, i, First(s)) && after[i] == Bumped(before[i], draws(from + i), s.churn);
    }
    forall i | 0 <= i < |after|
      ensures after[i].owner == before[i].owner && after[i].slot == before[i].slot
              && after[i].vulnerable == before[i].vulnerable
    {
      assert after[i] == Bumped(before[i], draws(from + i), s.churn);
    }
  }

  lemma {:induction false} GoesOn(docs: seq<Doc>, pkgs: seq<Pkg>, a: nat, s: Spec, draws: nat -> real, layer: seq<Pkg>)
    requires Valid(s) && Told(docs, a, s, draws, layer)
    requires Released(docs[|docs| - 1].comps, pkgs, draws, s.churn)
    ensures Going(docs, pkgs, a, s, draws, layer)
  {
    ReleasedStays(docs[|docs| - 1].comps, pkgs, a, s, draws);
    var from: nat :| ChurnedBy(docs[|docs| - 1].comps, pkgs, draws, from, s.churn);
  }

  /** Base packages copied, the artifact's own ones after them, and the links drawn; the base stays as it was. */
  method Assemble(s: Spec, a: nat, base: array<Pkg>, r: Rand) returns (pkgs: array<Pkg>)
    requires Valid(s) && base.Length == s.baseSize
    requires Fresh(base[..], Base(BaseOf(a, s)), s.known(Base(BaseOf(a, s))))
    modifies r`drawn
    ensures fresh(pkgs) && pkgs.Length == s.components && WellLinked(pkgs[..], First(s))
    ensures StartsWith(pkgs[..], base[..]) && Stacked(pkgs[..], a, s) && AtStart(pkgs[..])
  {
    var own := Packages(r, App(a), s.known(App(a)), s.licenses, s.components - base.Length);
    var start := base[..] + own;
    pkgs := new Pkg[s.components](i requires 0 <= i < |start| => start[i]);
    forall i | 0 <= i < s.components ensures start[i].deps == [] && pkgs[i] == start[i] {
      assert start[i] == if i < base.Length then base[..][i] else own[i - base.Length];
    }
    assert pkgs[..] == start;
    StackedAtStart(base[..], own, a, s);
    LinkDependencies(r, pkgs, First(s));
    forall i | 0 <= i < s.components ensures pkgs[i] == start[i].(deps := pkgs[i].deps) {
      assert pkgs[i].(deps := []) == start[i];
    }
    forall i | 0 <= i < base.Length ensures pkgs[i] == base[i] {
      assert LinkedAt(pkgs[..][i].deps, i, First(s));
      assert pkgs[i].(deps := []) == start[i] == base[..][i];
    }
  }

  lemma {:induction false} StackedAtStart(base: seq<Pkg>, own: seq<Pkg>, a: nat, s: Spec)
    requires Valid(s) && |base| == s.baseSize
    requires Fresh(base, Base(BaseOf(a, s)), s.known(Base(BaseOf(a, s)))) && Fresh(own, App(a), s.known(App(a)))
    ensures Stacked(base + own, a, s) && AtStart(base + own)
  {
  }

  /** The next document, after the ones that are out. */
  method Append(s: Spec, a: nat, pkgs: array<Pkg>, ghost draws: nat -> real, docs: seq<Doc>, ghost layer: seq<Pkg>)
    returns (all: seq<Doc>)
    requires Valid(s) && Going(docs, pkgs[..], a, s, draws, layer)
    ensures |all| == |docs| + 1 && Told(all, a, s, draws, layer) && all[|docs|].comps == pkgs[..]
  {
    var doc := Document(a, |docs|, pkgs);
    HistoryGrows(docs, doc, a, s, draws, layer);
    all := docs + [doc];
  }

  /** On to the next version, once these are out. */
  method Advance(s: Spec, a: nat, pkgs: array<Pkg>, r: Rand, ghost docs: seq<Doc>, ghost layer: seq<Pkg>)
    requires Valid(s) && Told(docs, a, s, r.reals, layer) && docs[|docs| - 1].comps == pkgs[..]
    modifies r`drawn, pkgs
    ensures Going(docs, pkgs[..], a, s, r.reals, layer)
  {
    Churn(r, pkgs, s.churn);
    GoesOn(docs, pkgs[..], a, s, r.reals, layer);
  }

  /** One version: its document is emitted, and if that does not fail, the packages go on to the next. */
  method Version(
    s: Spec, a: nat, pkgs: array<Pkg>, r: Rand, fail: bool, docs: seq<Doc>, ghost layer: seq<Pkg>)
    returns (all: seq<Doc>)
    requires Valid(s) && Going(docs, pkgs[..], a, s, r.reals, layer)
    modifies r`drawn, pkgs
    ensures |all| == |docs| + 1 && Told(all, a, s, r.reals, layer)
    ensures !fail ==> Going(all, pkgs[..], a, s, r.reals, layer)
  {
    all := Append(s, a, pkgs, r.reals, docs, layer);
    if !fail { Advance(s, a, pkgs, r, all, layer); }
  }

  /** The versions of an assembled artifact. `fails` says which documents emit gives up at. */
  method Versions(s: Spec, a: nat, pkgs: array<Pkg>, r: Rand, fails: nat -> bool, ghost layer: seq<Pkg>)
    returns (docs: seq<Doc>, ok: bool)
    requires Valid(s) && Going([], pkgs[..], a, s, r.reals, layer)
    modifies r`drawn, pkgs
    ensures Told(docs, a, s, r.reals, layer) && |docs| <= s.versions
    ensures forall v :: 0 <= v < |docs| - 1 ==> !fails(v)
    ensures if ok then |docs| == s.versions && !fails(|docs| - 1) else fails(|docs| - 1)
  {
    docs := [];
    for v := 0 to s.versions
      invariant |docs| == v && Going(docs, pkgs[..], a, s, r.reals, layer)
      invariant v > 0 ==> Told(docs, a, s, r.reals, layer)
      invariant forall k :: 0 <= k < v ==> !fails(k)
    {
      docs := Version(s, a, pkgs, r, fails(v), docs, layer);
      if fails(v) { return docs, false; }
    }
    return docs, true;
  }

  /** One artifact on its base image, from its own random source. */
  method Artifact(s: Spec, a: nat, base: array<Pkg>, ints: nat -> nat, reals: nat -> real, fails: nat -> bool)
    returns (docs: seq<Doc>, ok: bool)
    requires Valid(s) && base.Length == s.baseSize
    requires Fresh(base[..], Base(BaseOf(a, s)), s.known(Base(BaseOf(a, s))))
    ensures Told(docs, a, s, reals, base[..]) && |docs| <= s.versions
    ensures forall v :: 0 <= v < |docs| - 1 ==> !fails(v)
    ensures if ok then |docs| == s.versions && !fails(|docs| - 1) else fails(|docs| - 1)
  {
    var r := new Rand(ints, reals);
    var pkgs := Assemble(s, a, base, r);
    docs, ok := Versions(s, a, pkgs, r, fails, base[..]);
  }

  /**
   * Artifact by artifact, oldest version first: document k is version k mod V of artifact k div V, and after a first
   * version each is a release of the one before it, by the artifact's own draws.
   */
  ghost predicate Corpus(docs: seq<Doc>, s: Spec, draws: Owner -> nat -> real)
    requires Valid(s)
  {
    && (forall k :: 0 <= k < |docs| ==>
          && InPlace(docs[k], k, s.versions) && RightDoc(docs[k], s.components, First(s))
          && Stacked(docs[k].comps, docs[k].artifact, s) && (docs[k].version == 0 ==> AtStart(docs[k].comps)))
    && (forall k :: 0 < k < |docs| && docs[k].version > 0 ==>
          Released(docs[k - 1].comps, docs[k].comps, draws(App(docs[k].artifact)), s.churn))
  }

  predicate InPlace(doc: Doc, k: nat, versions: nat) {
    doc.version < versions && k == doc.artifact * versions + doc.version
  }

  /** Each first version begins with the packages of its base image. */
  predicate OnLayers(docs: seq<Doc>, layers: seq<seq<Pkg>>, s: Spec)
    requires Valid(s) && |layers| == s.baseImages
  {
    forall k :: (0 <= k < |docs| && docs[k].version == 0) ==>
      StartsWith(docs[k].comps, layers[BaseOf(docs[k].artifact, s)])
  }

  /** The base images' packages, each list of the one size and numbered afresh. */
  predicate Layers(layers: seq<seq<Pkg>>, s: Spec) {
    forall b :: 0 <= b < |layers| ==> |layers[b]| == s.baseSize && Fresh(layers[b], Base(b), s.known(Base(b)))
  }

  function Front(comps: seq<Pkg>, n: nat): seq<Pkg> {
    if n <= |comps| then comps[..n] else comps
  }

  /** Two artifacts on one base image start from the same packages of it, whatever happened to the other's copy. */
  predicate AlikeAtStart(x: Doc, y: Doc, s: Spec)
    requires Valid(s)
  {
    x.version == 0 && y.version == 0 && BaseOf(x.artifact, s) == BaseOf(y.artifact, s) ==>
      && Front(x.comps, s.baseSize) == Front(y.comps, s.baseSize)
      && Fresh(Front(y.comps, s.baseSize), Base(BaseOf(y.artifact, s)), s.known(Base(BaseOf(y.artifact, s))))
  }

  predicate SharesBases(docs: seq<Doc>, s: Spec)
    requires Valid(s)
  {
    forall j, k :: 0 <= j < |docs| && 0 <= k < |docs| ==> AlikeAtStart(docs[j], docs[k], s)
  }

  lemma {:induction false} CorpusGrows(docs: seq<Doc>, more: seq<Doc>, a: nat, s: Spec, draws: Owner -> nat -> real)
    requires Valid(s) && Corpus(docs, s, draws) && |docs| == a * s.versions
    requires more != [] && History(more, a, s, draws(App(a))) && AtStart(more[0].comps) && |more| <= s.versions
    ensures Corpus(docs + more, s, draws)
  {
    var all := docs + more;
    forall k | |docs| <= k < |all|
      ensures InPlace(all[k], k, s.versions) && (all[k].version == 0 ==> AtStart(all[k].comps))
    {
      assert all[k] == more[k - |docs|];
    }
    forall k | 0 < k < |all| && all[k].version > 0
      ensures Released(all[k - 1].comps, all[k].comps, draws(App(all[k].artifact)), s.churn)
    {
      if k >= |docs| {
        assert all[k] == more[k - |docs|] && all[k - 1] == more[k - |docs| - 1];
      } else {
        assert all[k] == docs[k] && all[k - 1] == docs[k - 1];
      }
    }
  }

  lemma {:induction false} LayersGrow(docs: seq<Doc>, more: seq<Doc>, a: nat, s: Spec, layers: seq<seq<Pkg>>)
    requires Valid(s) && |layers| == s.baseImages && OnLayers(docs, layers, s) && more != []
    requires forall v :: 0 <= v < |more| ==> more[v].artifact == a && more[v].version == v
    requires StartsWith(more[0].comps, layers[BaseOf(a, s)])
    ensures OnLayers(docs + more, layers, s)
  {
  }

  lemma {:induction false} LayersAreShared(docs: seq<Doc>, layers: seq<seq<Pkg>>, s: Spec)
    requires Valid(s) && |layers| == s.baseImages && Layers(layers, s) && OnLayers(docs, layers, s)
    ensures SharesBases(docs, s)
  {
  }

  /** Emit accepts the first n documents. */
  predicate Accepts(fails: nat -> bool, n: nat) {
    forall k :: 0 <= k < n ==> !fails(k)
  }

  lemma {:induction false} AcceptsMore(fails: nat -> bool, later: nat -> bool, done: nat, n: nat)
    requires forall v :: later(v) == fails(done + v)
    requires Accepts(fails, done) && forall v :: 0 <= v < n ==> !later(v)
    ensures Accepts(fails, done + n)
  {
    forall k | done <= k < done + n ensures !fails(k) { assert !later(k - done); }
  }

  method Bases(s: Spec, ints: Owner -> nat -> nat, reals: Owner -> nat -> real) returns (bases: seq<array<Pkg>>)
    requires Valid(s)
    ensures |bases| == s.baseImages
    ensures forall b :: 0 <= b < s.baseImages ==>
      fresh(bases[b]) && bases[b].Length == s.baseSize && Fresh(bases[b][..], Base(b), s.known(Base(b)))
  {
    bases := [];
    var n := s.baseSize;
    for b := 0 to s.baseImages
      invariant |bases| == b
      invariant forall i :: 0 <= i < b ==>
        fresh(bases[i]) && bases[i].Length == n && Fresh(bases[i][..], Base(i), s.known(Base(i)))
    {
      var r := new Rand(ints(Base(b)), reals(Base(b)));
      var out := Packages(r, Base(b), s.known(Base(b)), s.licenses, n);
      var slice := new Pkg[|out|](i requires 0 <= i < |out| => out[i]);
      assert slice[..] == out;
      bases := bases + [slice];
    }
  }

  /** The base images still hold these packages. */
  ghost predicate Hold(bases: seq<array<Pkg>>, layers: seq<seq<Pkg>>)
    reads bases
  {
    |bases| == |layers| && forall b :: 0 <= b < |bases| ==> bases[b][..] == layers[b]
  }

  /** What is known of the corpus when its next artifact is `a`. */
  ghost predicate UpTo(docs: seq<Doc>, a: nat, s: Spec, draws: Owner -> nat -> real, layers: seq<seq<Pkg>>,
                       fails: nat -> bool)
    requires Valid(s) && |layers| == s.baseImages
  {
    |docs| == a * s.versions && Corpus(docs, s, draws) && OnLayers(docs, layers, s) && Accepts(fails, |docs|)
  }

  lemma {:induction false} UpToNext(docs: seq<Doc>, more: seq<Doc>, a: nat, s: Spec, draws: Owner -> nat -> real,
                                    layers: seq<seq<Pkg>>, fails: nat -> bool, later: nat -> bool)
    requires Valid(s) && |layers| == s.baseImages && UpTo(docs, a, s, draws, layers, fails)
    requires forall v :: later(v) == fails(|docs| + v)
    requires Told(more, a, s, draws(App(a)), layers[BaseOf(a, s)]) && |more| <= s.versions
    requires forall v :: 0 <= v < |more| - 1 ==> !later(v)
    ensures Corpus(docs + more, s, draws) && OnLayers(docs + more, layers, s)
    ensures Accepts(fails, |docs + more| - 1) && later(|more| - 1) == fails(|docs + more| - 1)
    ensures |more| == s.versions && !later(|more| - 1) ==> UpTo(docs + more, a + 1, s, draws, layers, fails)
  {
    CorpusGrows(docs, more, a, s, draws);
    LayersGrow(docs, more, a, s, layers);
    AcceptsMore(fails, later, |docs|, |more| - 1);
    if |more| == s.versions && !later(|more| - 1) {
      AcceptsMore(fails, later, |docs|, |more|);
      assert (a + 1) * s.versions == a * s.versions + s.versions;
    }
  }

  /** The documents of one more artifact. */
  method NextArtifact(s: Spec, a: nat, base: array<Pkg>, ints: Owner -> nat -> nat, reals: Owner -> nat -> real,
                      fails: nat -> bool, docs: seq<Doc>, ghost layers: seq<seq<Pkg>>)
    returns (all: seq<Doc>, emitted: bool)
    requires Valid(s) && |layers| == s.baseImages && Layers(layers, s) && base[..] == layers[BaseOf(a, s)]
    requires UpTo(docs, a, s, reals, layers, fails)
    ensures all != [] && Corpus(all, s, reals) && OnLayers(all, layers, s) && Accepts(fails, |all| - 1)
    ensures if emitted then UpTo(all, a + 1, s, reals, layers, fails) else fails(|all| - 1)
  {
    var done := |docs|;
    var later := (v: nat) => fails(done + v);
    var more, ok := Artifact(s, a, base, ints(App(a)), reals(App(a)), later);
    UpToNext(docs, more, a, s, reals, layers, fails, later);
    return docs + more, ok;
  }

  /**
   * The whole corpus, until emit gives up: every document has the right size and links, consecutive versions are
   * releases of one another, and artifacts on one base image start from the same packages.
   */
  method Generate(s: Spec, ints: Owner -> nat -> nat, reals: Owner -> nat -> real, fails: nat -> bool)
    returns (docs: seq<Doc>, ok: bool)
    requires Valid(s)
    ensures Corpus(docs, s, reals) && SharesBases(docs, s) && docs != []
    ensures Accepts(fails, |docs| - 1)
    ensures if ok then |docs| == s.artifacts * s.versions && !fails(|docs| - 1) else fails(|docs| - 1)
  {
    var bases := Bases(s, ints, reals);
    ghost var layers := seq(|bases|, b requires 0 <= b < |bases| reads set x | x in bases => bases[b][..]);
    docs := [];
    for a := 0 to s.artifacts
      invariant UpTo(docs, a, s, reals, layers, fails) && Hold(bases, layers) && (a > 0 ==> docs != [])
    {
      var emitted;
      docs, emitted := NextArtifact(s, a, bases[BaseOf(a, s)], ints, reals, fails, docs, layers);
      if !emitted {
        LayersAreShared(docs, layers, s);
        return docs, false;
      }
    }
    LayersAreShared(docs, layers, s);
    return docs, true;
  }
}
