/** Aggregating pods into inventory rows: one row per workload, container and digest, with its pod count. */
module Inventory {
  import opened Options
  import opened ImageIds

  datatype OwnerRef = OwnerRef(controller: Option<bool>, kind: string, name: string)

  /** `imageID` and `image` as the status reports them. */
  datatype ContainerStatus = ContainerStatus(name: string, image: string, imageID: string)

  /**
   * `templateHash` is the pod-template-hash label, empty if absent. `specImages` lists name and image of the regular,
   * init and ephemeral containers of the spec in that order, `statuses` their statuses likewise.
   */
  datatype Pod = Pod(
    namespace: string, name: string, running: bool, owners: seq<OwnerRef>, templateHash: string,
    specImages: seq<(string, string)>, statuses: seq<ContainerStatus>)

  datatype Key = Key(namespace: string, kind: string, name: string, container: string, digest: string)

  datatype Agg = Agg(imageRef: string, pods: nat)

  /** The controlling owner; a ReplicaSet stands for its Deployment, and a bare or static pod for itself. */
  function OwnerOf(pod: Pod, i: nat := 0): (string, string)
    requires i <= |pod.owners|
    decreases |pod.owners| - i
  {
    if i == |pod.owners| then ("Pod", pod.name)
    else
      var ref := pod.owners[i];
      if ref.controller != Some(true) then OwnerOf(pod, i + 1)
      else if ref.kind == "ReplicaSet" then ("Deployment", StripHash(ref.name, pod.templateHash))
      else if ref.kind == "Node" then ("Pod", pod.name)
      else (ref.kind, ref.name)
  }

  /** The spec image of a container; of two with one name the later wins. */
  function SpecImage(images: seq<(string, string)>, name: string): string {
    if images == [] then ""
    else if images[|images| - 1].0 == name then images[|images| - 1].1
    else SpecImage(images[..|images| - 1], name)
  }

  function RefOf(pod: Pod, cs: ContainerStatus): string {
    DisplayRef(cs.image, SpecImage(pod.specImages, cs.name))
  }

  function KeyOf(pod: Pod, cs: ContainerStatus): Key {
    var (kind, name) := OwnerOf(pod);
    Key(pod.namespace, kind, name, cs.name, match Normalized(cs.imageID) case Some(d) => d case None => "")
  }

  /** The container statuses that make it into the snapshot: a running pod's, with something to show. */
  predicate Counts(pod: Pod, cs: ContainerStatus) {
    pod.running && RefOf(pod, cs) != ""
  }

  function Counted(acc: map<Key, Agg>, pod: Pod, cs: ContainerStatus): map<Key, Agg> {
    if !Counts(pod, cs) then acc
    else
      var key := KeyOf(pod, cs);
      if key in acc then acc[key := acc[key].(pods := acc[key].pods + 1)] else acc[key := Agg(RefOf(pod, cs), 1)]
  }

  function CountedAll(acc: map<Key, Agg>, pod: Pod, css: seq<ContainerStatus>): map<Key, Agg> {
    if css == [] then acc else Counted(CountedAll(acc, pod, css[..|css| - 1]), pod, css[|css| - 1])
  }

  /** The accumulator after these pods, in their order. */
  function Accumulated(pods: seq<Pod>): map<Key, Agg> {
    if pods == [] then map[]
    else CountedAll(Accumulated(pods[..|pods| - 1]), pods[|pods| - 1], pods[|pods| - 1].statuses)
  }

  // ---------- what the pieces mean ----------

  /** The first owner that is marked as the controller. */
  predicate Controls(pod: Pod, i: int) {
    && 0 <= i < |pod.owners| && pod.owners[i].controller == Some(true)
    && forall j :: 0 <= j < i ==> pod.owners[j].controller != Some(true)
  }

  /** The workload a pod belongs to. */
  ghost predicate OwnedBy(pod: Pod, kind: string, name: string) {
    if exists i :: Controls(pod, i) then
      forall i :: Controls(pod, i) ==>
        var ref := pod.owners[i];
        && (ref.kind == "ReplicaSet" ==> kind == "Deployment" && Strips(ref.name, pod.templateHash, name))
        && (ref.kind == "Node" ==> kind == "Pod" && name == pod.name)
        && (ref.kind != "ReplicaSet" && ref.kind != "Node" ==> kind == ref.kind && name == ref.name)
    else kind == "Pod" && name == pod.name
  }

  lemma {:induction false} OwnerFrom(pod: Pod, i: nat)
    requires i <= |pod.owners| && forall j :: 0 <= j < i ==> pod.owners[j].controller != Some(true)
    ensures if exists k :: Controls(pod, k)
            then forall k :: Controls(pod, k) ==>
                   && k >= i
                   && var ref := pod.owners[k];
                      OwnerOf(pod, i) ==
                      if ref.kind == "ReplicaSet" then ("Deployment", StripHash(ref.name, pod.templateHash))
                      else if ref.kind == "Node" then ("Pod", pod.name) else (ref.kind, ref.name)
            else OwnerOf(pod, i) == ("Pod", pod.name)
    decreases |pod.owners| - i
  {
    if i < |pod.owners| {
      if pod.owners[i].controller == Some(true) { assert Controls(pod, i); } else { OwnerFrom(pod, i + 1); }
    }
  }

  /** The owner computed is the workload the pod belongs to. */
  lemma {:induction false} OwnerExact(pod: Pod, kind: string, name: string)
    ensures OwnerOf(pod) == (kind, name) <==> OwnedBy(pod, kind, name)
  {
    OwnerFrom(pod, 0);
    forall k | Controls(pod, k)
      ensures name == StripHash(pod.owners[k].name, pod.templateHash) <==>
              Strips(pod.owners[k].name, pod.templateHash, name)
    {
      StripsExact(pod.owners[k].name, pod.templateHash, name);
    }
    assert "Node" != "ReplicaSet";
    if j :| Controls(pod, j) { forall k | Controls(pod, k) ensures k == j {} }
  }

  predicate IsLast(images: seq<(string, string)>, i: int) {
    0 <= i < |images| && forall j :: i < j < |images| ==> images[j].0 != images[i].0
  }

  /** The image the spec gives a container, by its last entry of that name. */
  ghost predicate SpecGives(images: seq<(string, string)>, name: string, image: string) {
    if exists i :: 0 <= i < |images| && images[i].0 == name then
      exists i :: 0 <= i < |images| && images[i] == (name, image) && IsLast(images, i)
    else image == ""
  }

  lemma {:induction false} SpecImageExact(images: seq<(string, string)>, name: string, image: string)
    ensures image == SpecImage(images, name) <==> SpecGives(images, name, image)
  {
    if images != [] {
      var init, last := images[..|images| - 1], images[|images| - 1];
      if last.0 != name {
        SpecImageExact(init, name, image);
        assert forall i :: 0 <= i < |init| ==> init[i] == images[i];
      } else {
        assert images[|images| - 1] == (name, last.1);
      }
    }
  }

  /** The reference to show: the status image if that is a name, else the spec's, else the bare id. */
  ghost predicate Shows(pod: Pod, cs: ContainerStatus, ref: string) {
    var status := Trim(cs.image);
    && (status != "" && !IsBareID(status) ==> ref == status)
    && (status == "" || IsBareID(status) ==>
          exists image :: SpecGives(pod.specImages, cs.name, image)
            && if Trim(image) != "" then ref == Trim(image) else ref == status)
  }

  lemma {:induction false} RefExact(pod: Pod, cs: ContainerStatus, ref: string)
    ensures ref == RefOf(pod, cs) <==> Shows(pod, cs, ref)
  {
    SpecImageExact(pod.specImages, cs.name, SpecImage(pod.specImages, cs.name));
    forall image | SpecGives(pod.specImages, cs.name, image) ensures image == SpecImage(pod.specImages, cs.name) {
      SpecImageExact(pod.specImages, cs.name, image);
    }
  }

  // ---------- conservation ----------

  /** How many of these statuses count towards a key. */
  function InPod(pod: Pod, css: seq<ContainerStatus>, key: Key): nat {
    if css == [] then 0
    else
      InPod(pod, css[..|css| - 1], key)
      + if Counts(pod, css[|css| - 1]) && KeyOf(pod, css[|css| - 1]) == key then 1 else 0
  }

  function InPods(pods: seq<Pod>, key: Key): nat {
    if pods == [] then 0
    else InPods(pods[..|pods| - 1], key) + InPod(pods[|pods| - 1], pods[|pods| - 1].statuses, key)
  }

  function CountOf(acc: map<Key, Agg>, key: Key): nat {
    if key in acc then acc[key].pods else 0
  }

  lemma {:induction false} CountedAllCounts(acc: map<Key, Agg>, pod: Pod, css: seq<ContainerStatus>, key: Key)
    ensures CountOf(CountedAll(acc, pod, css), key) == CountOf(acc, key) + InPod(pod, css, key)
  {
    if css != [] { CountedAllCounts(acc, pod, css[..|css| - 1], key); }
  }

  lemma {:induction false} PositiveCounts(acc: map<Key, Agg>, pod: Pod, css: seq<ContainerStatus>)
    requires forall k :: k in acc ==> acc[k].pods > 0
    ensures forall k :: k in CountedAll(acc, pod, css) ==> CountedAll(acc, pod, css)[k].pods > 0
  {
    if css != [] { PositiveCounts(acc, pod, css[..|css| - 1]); }
  }

  /** A key has a row exactly when some status counts towards it, and its count is the number of those statuses. */
  lemma {:induction false} AccumulatedExact(pods: seq<Pod>, key: Key)
    ensures CountOf(Accumulated(pods), key) == InPods(pods, key)
    ensures key in Accumulated(pods) <==> InPods(pods, key) > 0
    ensures forall k :: k in Accumulated(pods) ==> Accumulated(pods)[k].pods > 0
  {
    if pods != [] {
      var pod := pods[|pods| - 1];
      AccumulatedExact(pods[..|pods| - 1], key);
      CountedAllCounts(Accumulated(pods[..|pods| - 1]), pod, pod.statuses, key);
      PositiveCounts(Accumulated(pods[..|pods| - 1]), pod, pod.statuses);
    }
  }

  // ---------- the order of pods does not matter to the counts ----------

  lemma {:induction false} InPodsConcat(a: seq<Pod>, b: seq<Pod>, key: Key)
    ensures InPods(a + b, key) == InPods(a, key) + InPods(b, key)
  {
    if b == [] {
      assert a + b == a;
    } else {
      InPodsConcat(a, b[..|b| - 1], key);
      assert (a + b)[..|a + b| - 1] == a + b[..|b| - 1];
    }
  }

  lemma {:induction false} RemoveOne<T>(s: seq<T>, i: nat)
    requires i < |s|
    ensures multiset(s[..i] + s[i + 1..]) == multiset(s) - multiset{s[i]}
  {
    assert s == s[..i] + [s[i]] + s[i + 1..];
  }

  function InOne(pod: Pod, key: Key): nat {
    InPod(pod, pod.statuses, key)
  }

  lemma {:induction false} InPodsWithout(s: seq<Pod>, i: nat, key: Key)
    requires i < |s|
    ensures InPods(s, key) == InPods(s[..i] + s[i + 1..], key) + InOne(s[i], key)
  {
    var upTo := s[..i + 1];
    InPodsConcat(s[..i], s[i + 1..], key);
    InPodsConcat(upTo, s[i + 1..], key);
    assert upTo[..|upTo| - 1] == s[..i] && upTo[i] == s[i] && s == upTo + s[i + 1..];
  }

  /** Two listings of one multiset, less one pod they share. */
  lemma {:induction false} Matching<T>(a: seq<T>, b: seq<T>) returns (i: nat)
    requires multiset(a) == multiset(b) && a != []
    ensures i < |b| && b[i] == a[0] && |a| == |b|
    ensures multiset(a[..0] + a[1..]) == multiset(b[..i] + b[i + 1..])
  {
    assert |multiset(a)| == |a| && |multiset(b)| == |b|;
    assert a[0] in multiset(b);
    i :| 0 <= i < |b| && b[i] == a[0];
    RemoveOne(a, 0);
    RemoveOne(b, i);
  }

  lemma {:induction false} CountsArePermutable(a: seq<Pod>, b: seq<Pod>, key: Key)
    requires multiset(a) == multiset(b)
    ensures InPods(a, key) == InPods(b, key)
    decreases |a|
  {
    if a == [] {
      assert |multiset(b)| == 0;
    } else {
      var i := Matching(a, b);
      InPodsWithout(a, 0, key);
      InPodsWithout(b, i, key);
      CountsArePermutable(a[..0] + a[1..], b[..i] + b[i + 1..], key);
    }
  }

  /** Which rows there are, and their counts, do not depend on the order the pods come in. */
  lemma {:induction false} SnapshotIsOrderIndependent(a: seq<Pod>, b: seq<Pod>, key: Key)
    requires multiset(a) == multiset(b)
    ensures (key in Accumulated(a) <==> key in Accumulated(b)) &&
            CountOf(Accumulated(a), key) == CountOf(Accumulated(b), key)
  {
    AccumulatedExact(a, key);
    AccumulatedExact(b, key);
    CountsArePermutable(a, b, key);
  }

  // ---------- the sum of the counts ----------

  function StatusesOf(pod: Pod, css: seq<ContainerStatus>): nat {
    if css == [] then 0
    else StatusesOf(pod, css[..|css| - 1]) + if Counts(pod, css[|css| - 1]) then 1 else 0
  }

  /** The container statuses of running pods that have something to show. */
  function Statuses(pods: seq<Pod>): nat {
    if pods == [] then 0
    else Statuses(pods[..|pods| - 1]) + StatusesOf(pods[|pods| - 1], pods[|pods| - 1].statuses)
  }

  /** The total over any listing of the accumulator's keys. */
  function SumKeys(acc: map<Key, Agg>, keys: seq<Key>): nat {
    if keys == [] then 0 else SumKeys(acc, keys[..|keys| - 1]) + CountOf(acc, keys[|keys| - 1])
  }

  predicate DistinctKeys(keys: seq<Key>) {
    forall i, j :: 0 <= i < j < |keys| ==> keys[i] != keys[j]
  }

  lemma {:induction false} SumAfterCount(acc: map<Key, Agg>, pod: Pod, cs: ContainerStatus, keys: seq<Key>)
    requires Counts(pod, cs) && DistinctKeys(keys)
    ensures SumKeys(Counted(acc, pod, cs), keys) == SumKeys(acc, keys) + if KeyOf(pod, cs) in keys then 1 else 0
  {
    if keys != [] {
      var init, last := keys[..|keys| - 1], keys[|keys| - 1];
      SumAfterCount(acc, pod, cs, init);
      assert forall k :: k in keys <==> k in init || k == last;
      assert last !in init;
    }
  }

  lemma {:induction false} CountedKeys(acc: map<Key, Agg>, pod: Pod, css: seq<ContainerStatus>)
    ensures acc.Keys <= CountedAll(acc, pod, css).Keys
  {
    if css != [] { CountedKeys(acc, pod, css[..|css| - 1]); }
  }

  lemma {:induction false} SumAfterPod(acc: map<Key, Agg>, pod: Pod, css: seq<ContainerStatus>, keys: seq<Key>)
    requires DistinctKeys(keys) && CountedAll(acc, pod, css).Keys <= set k | k in keys
    ensures SumKeys(CountedAll(acc, pod, css), keys) == SumKeys(acc, keys) + StatusesOf(pod, css)
  {
    if css != [] {
      var before := CountedAll(acc, pod, css[..|css| - 1]);
      assert before.Keys <= CountedAll(acc, pod, css).Keys;
      SumAfterPod(acc, pod, css[..|css| - 1], keys);
      if Counts(pod, css[|css| - 1]) {
        SumAfterCount(before, pod, css[|css| - 1], keys);
        assert KeyOf(pod, css[|css| - 1]) in CountedAll(acc, pod, css).Keys;
      }
    }
  }

  /** Every counted status is in exactly one row's count. */
  lemma {:induction false} CountsAreConserved(pods: seq<Pod>, keys: seq<Key>)
    requires DistinctKeys(keys) && Accumulated(pods).Keys <= set k | k in keys
    ensures SumKeys(Accumulated(pods), keys) == Statuses(pods)
  {
    if pods == [] {
      EmptySum(keys);
    } else {
      var init, pod := pods[..|pods| - 1], pods[|pods| - 1];
      CountedKeys(Accumulated(init), pod, pod.statuses);
      CountsAreConserved(init, keys);
      SumAfterPod(Accumulated(init), pod, pod.statuses, keys);
    }
  }

  lemma {:induction false} EmptySum(keys: seq<Key>)
    ensures SumKeys(map[], keys) == 0
  {
    if keys != [] { EmptySum(keys[..|keys| - 1]); }
  }

  // ---------- which image reference a row shows ----------

  function FirstIn(pod: Pod, css: seq<ContainerStatus>, key: Key): Option<string> {
    if css == [] then None
    else
      match FirstIn(pod, css[..|css| - 1], key)
      case Some(ref) => Some(ref)
      case None =>
        var cs := css[|css| - 1];
        if Counts(pod, cs) && KeyOf(pod, cs) == key then Some(RefOf(pod, cs)) else None
  }

  function RefOn(pod: Pod, key: Key): Option<string> {
    FirstIn(pod, pod.statuses, key)
  }

  /** The reference of the first status that counts towards a key. */
  function FirstRef(pods: seq<Pod>, key: Key): Option<string> {
    if pods == [] then None
    else match FirstRef(pods[..|pods| - 1], key) case Some(ref) => Some(ref) case None => RefOn(pods[|pods| - 1], key)
  }

  function RefIn(acc: map<Key, Agg>, key: Key): Option<string> {
    if key in acc then Some(acc[key].imageRef) else None
  }

  lemma {:induction false} RefAfterPod(acc: map<Key, Agg>, pod: Pod, css: seq<ContainerStatus>, key: Key)
    ensures RefIn(CountedAll(acc, pod, css), key) == if key in acc then RefIn(acc, key) else FirstIn(pod, css, key)
  {
    if css != [] { RefAfterPod(acc, pod, css[..|css| - 1], key); }
  }

  /** A row shows the reference of the first status counted towards it. */
  lemma {:induction false} FirstSeenIsShown(pods: seq<Pod>, key: Key)
    ensures RefIn(Accumulated(pods), key) == FirstRef(pods, key)
  {
    if pods != [] {
      var init, pod := pods[..|pods| - 1], pods[|pods| - 1];
      FirstSeenIsShown(init, key);
      RefAfterPod(Accumulated(init), pod, pod.statuses, key);
    }
  }

  /** All pods with statuses under a key show the same reference first. */
  predicate AgreeOn(pods: seq<Pod>, key: Key) {
    forall p, q :: (p in pods && q in pods && RefOn(p, key).Some? && RefOn(q, key).Some?) ==>
      RefOn(p, key) == RefOn(q, key)
  }

  lemma {:induction false} FirstRefFrom(pods: seq<Pod>, key: Key)
    ensures FirstRef(pods, key).Some? <==> exists p :: p in pods && RefOn(p, key).Some?
    ensures FirstRef(pods, key).Some? ==> exists p :: p in pods && RefOn(p, key) == FirstRef(pods, key)
    ensures pods != [] && RefOn(pods[0], key).Some? ==> FirstRef(pods, key) == RefOn(pods[0], key)
  {
    if pods != [] {
      var init, last := pods[..|pods| - 1], pods[|pods| - 1];
      FirstRefFrom(init, key);
      assert forall p :: p in pods <==> p in init || p == last;
      assert init != [] ==> init[0] == pods[0];
    }
  }

  ghost predicate SameInAnyOrder(pods: seq<Pod>, key: Key) {
    forall other: seq<Pod> :: multiset(other) == multiset(pods) ==>
      RefIn(Accumulated(other), key) == RefIn(Accumulated(pods), key)
  }

  lemma {:induction false} InFront(pods: seq<Pod>, p: Pod, key: Key) returns (other: seq<Pod>)
    requires p in pods && RefOn(p, key).Some?
    ensures multiset(other) == multiset(pods) && RefIn(Accumulated(other), key) == RefOn(p, key)
  {
    var i :| 0 <= i < |pods| && pods[i] == p;
    other := [p] + (pods[..i] + pods[i + 1..]);
    RemoveOne(pods, i);
    FirstRefFrom(other, key);
    FirstSeenIsShown(other, key);
  }

  /** The reference shown is free of the pods' order exactly when the pods under the key agree on it. */
  lemma {:induction false} ReferenceOrderExact(pods: seq<Pod>, key: Key)
    ensures SameInAnyOrder(pods, key) <==> AgreeOn(pods, key)
  {
    if AgreeOn(pods, key) {
      forall other: seq<Pod> | multiset(other) == multiset(pods)
        ensures RefIn(Accumulated(other), key) == RefIn(Accumulated(pods), key)
      {
        assert forall p :: p in other <==> p in multiset(other);
        assert forall p :: p in pods <==> p in multiset(pods);
        FirstSeenIsShown(other, key);
        FirstSeenIsShown(pods, key);
        FirstRefFrom(other, key);
        FirstRefFrom(pods, key);
      }
    }
    if SameInAnyOrder(pods, key) {
      forall p, q | p in pods && q in pods && RefOn(p, key).Some? && RefOn(q, key).Some?
        ensures RefOn(p, key) == RefOn(q, key)
      {
        var pFirst := InFront(pods, p, key);
        var qFirst := InFront(pods, q, key);
      }
    }
  }
}
