/** The inventory snapshot itself: the rows of the accumulated counts, in the order the push sends them. */
module Snapshots {
  import opened Options
  import opened ImageIds
  import opened Inventory
  import ByteStrings

  /** `digest` is None when it could not be resolved. */
  datatype Row = Row(
    namespace: string, kind: string, name: string, container: string, imageRef: string, pods: nat,
    digest: Option<string>)

  function RowOf(key: Key, agg: Agg): Row {
    Row(key.namespace, key.kind, key.name, key.container, agg.imageRef, agg.pods,
        if key.digest == "" then None else Some(key.digest))
  }

  function DigestOf(row: Row): string {
    match row.digest case Some(d) => d case None => ""
  }

  function KeyOfRow(row: Row): Key {
    Key(row.namespace, row.kind, row.name, row.container, DigestOf(row))
  }

  // ---------- the order ----------

  predicate Before(x: string, y: string) {
    x != y && ByteStrings.LexLeq(x, y)
  }

  /** The comparator the rows are sorted with; it does not look at the kind. */
  predicate Less(a: Row, b: Row) {
    if a.namespace != b.namespace then Before(a.namespace, b.namespace)
    else if a.name != b.name then Before(a.name, b.name)
    else if a.container != b.container then Before(a.container, b.container)
    else Before(DigestOf(a), DigestOf(b))
  }

  predicate Tied(a: Row, b: Row) {
    !Less(a, b) && !Less(b, a)
  }

  predicate Sorted(rows: seq<Row>) {
    forall i, j :: 0 <= i < j < |rows| ==> !Less(rows[j], rows[i])
  }

  /** Rows tie exactly when nothing but kind, reference and count tells them apart. */
  lemma {:induction false} TiedExact(a: Row, b: Row)
    ensures Tied(a, b) <==> KeyOfRow(a).(kind := "") == KeyOfRow(b).(kind := "")
  {
    ByteStrings.LexTotal(a.namespace, b.namespace);
    ByteStrings.LexTotal(a.name, b.name);
    ByteStrings.LexTotal(a.container, b.container);
    ByteStrings.LexTotal(DigestOf(a), DigestOf(b));
  }

  /** Sorted rows ascend by namespace, then workload name, then container, then digest. */
  lemma {:induction false} SortedAscends(rows: seq<Row>, i: nat, j: nat)
    requires Sorted(rows) && i < j < |rows|
    ensures var a, b := rows[i], rows[j];
            && ByteStrings.LexLeq(a.namespace, b.namespace)
            && (a.namespace == b.namespace ==> ByteStrings.LexLeq(a.name, b.name))
            && (a.namespace == b.namespace && a.name == b.name ==> ByteStrings.LexLeq(a.container, b.container))
            && (a.namespace == b.namespace && a.name == b.name && a.container == b.container ==>
                  ByteStrings.LexLeq(DigestOf(a), DigestOf(b)))
  {
    var a, b := rows[i], rows[j];
    ByteStrings.LexTotal(a.namespace, b.namespace);
    ByteStrings.LexTotal(a.name, b.name);
    ByteStrings.LexTotal(a.container, b.container);
    ByteStrings.LexTotal(DigestOf(a), DigestOf(b));
  }

  /** Moving a row to one it ties with never changes a comparison. */
  lemma {:induction false} TiedCompareAlike(a: Row, b: Row, c: Row)
    requires Tied(a, b)
    ensures Less(a, c) == Less(b, c) && Less(c, a) == Less(c, b)
  {
    TiedExact(a, b);
    assert KeyOfRow(a).(kind := "").namespace == a.namespace && KeyOfRow(b).(kind := "").namespace == b.namespace;
    assert KeyOfRow(a).(kind := "").name == a.name && KeyOfRow(b).(kind := "").name == b.name;
    assert KeyOfRow(a).(kind := "").container == a.container && KeyOfRow(b).(kind := "").container == b.container;
    assert KeyOfRow(a).(kind := "").digest == DigestOf(a) && KeyOfRow(b).(kind := "").digest == DigestOf(b);
  }

  /** What sort.Slice promises; rows that tie may come in either order. */
  ghost predicate Sorts(sort: seq<Row> -> seq<Row>) {
    forall rows {:trigger sort(rows)} :: multiset(sort(rows)) == multiset(rows) && Sorted(sort(rows))
  }

  // ---------- when the snapshot is a function of the rows ----------

  predicate NoTies(rows: seq<Row>) {
    forall a, b :: a in rows && b in rows && Tied(a, b) ==> a == b
  }

  /** Every sorted listing of the same rows is this one. */
  ghost predicate OnlyListing(rows: seq<Row>) {
    forall other: seq<Row> :: multiset(other) == multiset(rows) && Sorted(other) ==> other == rows
  }

  lemma {:induction false} SameHead(x: seq<Row>, y: seq<Row>)
    requires multiset(x) == multiset(y) && Sorted(x) && Sorted(y) && NoTies(x) && x != [] && y != []
    ensures x[0] == y[0]
  {
    assert y[0] in multiset(x) && x[0] in multiset(y);
    var m :| 0 <= m < |x| && x[m] == y[0];
    var k :| 0 <= k < |y| && y[k] == x[0];
    assert !Less(x[m], x[0]) && !Less(y[k], y[0]);
    assert Tied(x[0], y[0]) && x[0] in x && y[0] in x;
  }

  lemma {:induction false} SameTails<T>(x: seq<T>, y: seq<T>)
    requires multiset(x) == multiset(y) && x != [] && y != [] && x[0] == y[0]
    ensures multiset(x[1..]) == multiset(y[1..])
  {
    assert x == [x[0]] + x[1..] && y == [y[0]] + y[1..];
    assert multiset(x[1..]) == multiset(x) - multiset{x[0]};
  }

  lemma {:induction false} TailSorted(x: seq<Row>)
    requires Sorted(x) && x != []
    ensures Sorted(x[1..])
  {
    forall i, j | 0 <= i < j < |x| - 1 ensures !Less(x[1..][j], x[1..][i]) {
      assert x[1..][j] == x[j + 1] && x[1..][i] == x[i + 1];
    }
  }

  lemma {:induction false} SortedUnique(x: seq<Row>, y: seq<Row>)
    requires multiset(x) == multiset(y) && Sorted(x) && Sorted(y) && NoTies(x)
    ensures x == y
  {
    assert |multiset(x)| == |x| && |multiset(y)| == |y|;
    if x != [] {
      SameHead(x, y);
      SameTails(x, y);
      TailSorted(x);
      TailSorted(y);
      assert forall a :: a in x[1..] ==> a in x;
      SortedUnique(x[1..], y[1..]);
      assert x == [x[0]] + x[1..] && y == [y[0]] + y[1..];
    }
  }

  function Swapped(rows: seq<Row>, i: nat, j: nat): seq<Row>
    requires i < j < |rows|
  {
    rows[i := rows[j]][j := rows[i]]
  }

  lemma {:induction false} TiedCanSwap(rows: seq<Row>, i: nat, j: nat)
    requires i < j < |rows| && Sorted(rows) && Tied(rows[i], rows[j])
    ensures Sorted(Swapped(rows, i, j)) && multiset(Swapped(rows, i, j)) == multiset(rows)
  {
    var swapped := Swapped(rows, i, j);
    forall p, q | 0 <= p < q < |rows| ensures !Less(swapped[q], swapped[p]) {
      TiedCompareAlike(rows[i], rows[j], rows[p]);
      TiedCompareAlike(rows[i], rows[j], rows[q]);
    }
  }

  /** The order sent is determined exactly when no two rows differ only in what the comparator leaves out. */
  lemma {:induction false} OrderDeterminedExact(rows: seq<Row>)
    requires Sorted(rows)
    ensures OnlyListing(rows) <==> NoTies(rows)
  {
    if NoTies(rows) {
      forall other: seq<Row> | multiset(other) == multiset(rows) && Sorted(other) ensures other == rows {
        SortedUnique(rows, other);
      }
    } else {
      var a, b :| a in rows && b in rows && Tied(a, b) && a != b;
      var p :| 0 <= p < |rows| && rows[p] == a;
      var q :| 0 <= q < |rows| && rows[q] == b;
      var i, j := if p < q then p else q, if p < q then q else p;
      TiedCanSwap(rows, i, j);
      assert Swapped(rows, i, j)[i] != rows[i];
    }
  }

  // ---------- sums over rows ----------

  function SumRows(rows: seq<Row>): nat {
    if rows == [] then 0 else SumRows(rows[..|rows| - 1]) + rows[|rows| - 1].pods
  }

  function KeysOf(rows: seq<Row>): seq<Key> {
    seq(|rows|, i requires 0 <= i < |rows| => KeyOfRow(rows[i]))
  }

  /** The rows are the accumulator's entries, once each. */
  ghost predicate RowsOf(rows: seq<Row>, acc: map<Key, Agg>) {
    && DistinctKeys(KeysOf(rows))
    && (forall row :: row in rows ==> KeyOfRow(row) in acc && row == RowOf(KeyOfRow(row), acc[KeyOfRow(row)]))
    && (forall key :: key in acc ==> RowOf(key, acc[key]) in rows)
  }

  /** No two keys that have a row differ in kind alone. */
  predicate NoKindClash(acc: map<Key, Agg>) {
    forall j, k :: j in acc && k in acc && j.(kind := "") == k.(kind := "") ==> j == k
  }

  /** The snapshot is a function of its rows exactly when no two workloads differ in kind alone. */
  lemma {:induction false} SnapshotDeterminedExact(rows: seq<Row>, acc: map<Key, Agg>)
    requires RowsOf(rows, acc) && Sorted(rows)
    ensures OnlyListing(rows) <==> NoKindClash(acc)
  {
    OrderDeterminedExact(rows);
    if NoKindClash(acc) {
      forall a, b | a in rows && b in rows && Tied(a, b) ensures a == b { TiedExact(a, b); }
    }
    if NoTies(rows) {
      forall j, k | j in acc && k in acc && j.(kind := "") == k.(kind := "") ensures j == k {
        var a, b := RowOf(j, acc[j]), RowOf(k, acc[k]);
        assert a in rows && b in rows && KeyOfRow(a) == j && KeyOfRow(b) == k;
        TiedExact(a, b);
      }
    }
  }

  /** Two pods on one image, one a bare pod and one a StatefulSet's, with workloads of one name. */
  lemma {:induction false} SameNameOtherKind(cs: ContainerStatus)
    requires cs == ContainerStatus("app", "nginx", "")
    ensures var bare := Pod("default", "web", true, [], "", [], [cs]);
            var owned := Pod("default", "web-0", true, [OwnerRef(Some(true), "StatefulSet", "web")], "", [], [cs]);
            !NoKindClash(Accumulated([bare, owned]))
  {
    var bare := Pod("default", "web", true, [], "", [], [cs]);
    var owned := Pod("default", "web-0", true, [OwnerRef(Some(true), "StatefulSet", "web")], "", [], [cs]);
    var j, k := Key("default", "Pod", "web", "app", ""), Key("default", "StatefulSet", "web", "app", "");
    assert Trim("nginx") == "nginx" && !IsBareID("nginx");
    assert KeyOf(bare, cs) == j && KeyOf(owned, cs) == k && Counts(bare, cs) && Counts(owned, cs);
    assert [bare, owned][..1] == [bare] && [bare][..0] == [] && [cs][..0] == [];
    assert InPod(bare, [cs], j) == 1 && InPod(owned, [cs], k) == 1;
    AccumulatedExact([bare, owned], j);
    AccumulatedExact([bare, owned], k);
    assert j.(kind := "") == k.(kind := "") && j != k;
  }

  lemma {:induction false} SumRowsIsSumKeys(rows: seq<Row>, acc: map<Key, Agg>)
    requires forall row :: row in rows ==> KeyOfRow(row) in acc && row == RowOf(KeyOfRow(row), acc[KeyOfRow(row)])
    ensures SumRows(rows) == SumKeys(acc, KeysOf(rows))
  {
    if rows != [] {
      var init := rows[..|rows| - 1];
      assert KeysOf(rows)[..|rows| - 1] == KeysOf(init);
      assert forall row :: row in init ==> row in rows;
      assert rows[|rows| - 1] in rows;
      SumRowsIsSumKeys(init, acc);
    }
  }

  /** Every container status of a running pod with something to show is counted in exactly one row. */
  lemma {:induction false} RowsConserve(rows: seq<Row>, pods: seq<Pod>)
    requires RowsOf(rows, Accumulated(pods))
    ensures SumRows(rows) == Statuses(pods)
  {
    var acc := Accumulated(pods);
    SumRowsIsSumKeys(rows, acc);
    forall key | key in acc ensures key in KeysOf(rows) {
      var i :| 0 <= i < |rows| && rows[i] == RowOf(key, acc[key]);
      assert KeysOf(rows)[i] == key;
    }
    CountsAreConserved(pods, KeysOf(rows));
  }

  lemma {:induction false} NoRowTwice(rows: seq<Row>)
    requires DistinctKeys(KeysOf(rows))
    ensures forall row :: multiset(rows)[row] <= 1
  {
    forall row ensures multiset(rows)[row] <= 1 {
      if row in rows {
        var i :| 0 <= i < |rows| && rows[i] == row;
        RemoveOne(rows, i);
        var rest := rows[..i] + rows[i + 1..];
        forall j | 0 <= j < |rest| ensures rest[j] != row {
          var at := if j < i then j else j + 1;
          assert KeysOf(rows)[at] != KeysOf(rows)[i] && KeysOf(rows)[at] == KeyOfRow(rest[j]);
        }
        assert row !in multiset(rest);
      }
    }
  }

  lemma {:induction false} Repeats(rows: seq<Row>, i: nat, j: nat)
    requires i < j < |rows| && rows[i] == rows[j]
    ensures multiset(rows)[rows[i]] >= 2
  {
    RemoveOne(rows, j);
    var rest := rows[..j] + rows[j + 1..];
    assert rest[i] in multiset(rest);
  }

  /** Sorting keeps the rows what they are. */
  lemma {:induction false} SortKeepsRows(rows: seq<Row>, sorted: seq<Row>, acc: map<Key, Agg>)
    requires RowsOf(rows, acc) && multiset(sorted) == multiset(rows)
    ensures RowsOf(sorted, acc)
  {
    assert forall row :: row in sorted <==> row in multiset(sorted);
    assert forall row :: row in rows <==> row in multiset(rows);
    NoRowTwice(rows);
    forall i, j | 0 <= i < j < |sorted| ensures KeysOf(sorted)[i] != KeysOf(sorted)[j] {
      assert sorted[i] in sorted && sorted[j] in sorted;
      if sorted[i] == sorted[j] { Repeats(sorted, i, j); }
    }
  }

  // ---------- what the rows say of the pods ----------

  /** The row is about this container of this pod: its namespace and workload, its name, and the digest it runs. */
  ghost predicate Describes(row: Row, pod: Pod, cs: ContainerStatus) {
    && row.namespace == pod.namespace && OwnedBy(pod, row.kind, row.name) && row.container == cs.name
    && row.digest == Normalized(cs.imageID)
  }

  /** A status of a running pod with an image to show. */
  ghost predicate Runs(pod: Pod, cs: ContainerStatus) {
    pod.running && exists ref :: ref != "" && Shows(pod, cs, ref)
  }

  lemma {:induction false} RunsExact(pod: Pod, cs: ContainerStatus)
    ensures Runs(pod, cs) <==> Counts(pod, cs)
  {
    RefExact(pod, cs, RefOf(pod, cs));
    forall ref | Shows(pod, cs, ref) ensures ref == RefOf(pod, cs) { RefExact(pod, cs, ref); }
  }

  /** Of the rows an accumulator gives, the one under a status's key is the one that describes it. */
  lemma {:induction false} DescribesExact(row: Row, pod: Pod, cs: ContainerStatus)
    requires row.digest != Some("")
    ensures Describes(row, pod, cs) <==> KeyOf(pod, cs) == KeyOfRow(row)
  {
    OwnerExact(pod, row.kind, row.name);
    if Normalized(cs.imageID).Some? { NormalizedIsCanonical(cs.imageID); }
  }

  /** How many of these statuses of a pod run and are described by the row. */
  ghost function DescribedIn(row: Row, pod: Pod, css: seq<ContainerStatus>): nat {
    if css == [] then 0
    else
      DescribedIn(row, pod, css[..|css| - 1])
      + if Runs(pod, css[|css| - 1]) && Describes(row, pod, css[|css| - 1]) then 1 else 0
  }

  ghost function Described(row: Row, pods: seq<Pod>): nat {
    if pods == [] then 0
    else Described(row, pods[..|pods| - 1]) + DescribedIn(row, pods[|pods| - 1], pods[|pods| - 1].statuses)
  }

  lemma {:induction false} DescribedInPod(row: Row, pod: Pod, css: seq<ContainerStatus>)
    requires row.digest != Some("")
    ensures DescribedIn(row, pod, css) == InPod(pod, css, KeyOfRow(row))
  {
    if css != [] {
      DescribedInPod(row, pod, css[..|css| - 1]);
      RunsExact(pod, css[|css| - 1]);
      DescribesExact(row, pod, css[|css| - 1]);
    }
  }

  lemma {:induction false} DescribedInPods(row: Row, pods: seq<Pod>)
    requires row.digest != Some("")
    ensures Described(row, pods) == InPods(pods, KeyOfRow(row))
  {
    if pods != [] {
      DescribedInPods(row, pods[..|pods| - 1]);
      DescribedInPod(row, pods[|pods| - 1], pods[|pods| - 1].statuses);
    }
  }

  lemma {:induction false} SomeDescribedIn(row: Row, pod: Pod, css: seq<ContainerStatus>)
    ensures DescribedIn(row, pod, css) > 0 <==> exists cs :: cs in css && Runs(pod, cs) && Describes(row, pod, cs)
  {
    if css != [] {
      var init, last := css[..|css| - 1], css[|css| - 1];
      SomeDescribedIn(row, pod, init);
      assert css == init + [last];
      assert forall cs :: cs in css <==> cs in init || cs == last;
    }
  }

  lemma {:induction false} SomeDescribed(row: Row, pods: seq<Pod>)
    ensures Described(row, pods) > 0 <==>
            exists pod, cs :: pod in pods && cs in pod.statuses && Runs(pod, cs) && Describes(row, pod, cs)
  {
    if pods != [] {
      var init, last := pods[..|pods| - 1], pods[|pods| - 1];
      SomeDescribed(row, init);
      SomeDescribedIn(row, last, last.statuses);
      assert pods == init + [last];
      assert forall pod :: pod in pods <==> pod in init || pod == last;
    }
  }

  /**
   * The snapshot in terms of the pods: every running container with an image to show is described by one row and by no
   * other, and every row describes as many of them as it counts, at least one.
   */
  lemma {:induction false} RowsDescribe(rows: seq<Row>, pods: seq<Pod>)
    requires RowsOf(rows, Accumulated(pods))
    ensures forall pod, cs :: pod in pods && cs in pod.statuses && Runs(pod, cs) ==>
              exists i :: 0 <= i < |rows| && Describes(rows[i], pod, cs)
                && forall j :: 0 <= j < |rows| && Describes(rows[j], pod, cs) ==> j == i
    ensures forall row :: row in rows ==> row.pods == Described(row, pods) > 0
  {
    var acc := Accumulated(pods);
    forall row | row in rows ensures row.digest != Some("") && row.pods == Described(row, pods) > 0 {
      AccumulatedExact(pods, KeyOfRow(row));
      DescribedInPods(row, pods);
    }
    forall pod, cs | pod in pods && cs in pod.statuses && Runs(pod, cs)
      ensures exists i :: 0 <= i < |rows| && Describes(rows[i], pod, cs)
                && forall j :: 0 <= j < |rows| && Describes(rows[j], pod, cs) ==> j == i
    {
      var i := RowUnder(rows, pods, pod, cs);
      DescribesExact(rows[i], pod, cs);
      forall j | 0 <= j < |rows| && Describes(rows[j], pod, cs) ensures j == i {
        assert rows[j] in rows;
        DescribesExact(rows[j], pod, cs);
        assert KeysOf(rows)[j] == KeysOf(rows)[i];
      }
    }
  }

  /** The row under the key of a status that is counted. */
  lemma {:induction false} RowUnder(rows: seq<Row>, pods: seq<Pod>, pod: Pod, cs: ContainerStatus) returns (i: nat)
    requires RowsOf(rows, Accumulated(pods)) && pod in pods && cs in pod.statuses && Runs(pod, cs)
    ensures i < |rows| && KeyOfRow(rows[i]) == KeyOf(pod, cs) && rows[i].digest != Some("")
  {
    var key := KeyOf(pod, cs);
    var acc := Accumulated(pods);
    var row := RowOf(key, Agg("", 1));
    assert KeyOfRow(row) == key;
    DescribesExact(row, pod, cs);
    SomeDescribed(row, pods);
    DescribedInPods(row, pods);
    AccumulatedExact(pods, key);
    i :| 0 <= i < |rows| && rows[i] == RowOf(key, acc[key]);
  }

  /** Two digests of one container of one workload are two rows, as in a rollout. */
  lemma {:induction false} TwoDigestsTwoRows(rows: seq<Row>, pods: seq<Pod>, p: Pod, a: ContainerStatus, q: Pod,
                                             b: ContainerStatus)
    requires RowsOf(rows, Accumulated(pods)) && p in pods && q in pods && a in p.statuses && b in q.statuses
    requires Runs(p, a) && Runs(q, b) && Normalized(a.imageID) != Normalized(b.imageID)
    ensures exists r, s :: r in rows && s in rows && r != s && Describes(r, p, a) && Describes(s, q, b)
  {
    RowsDescribe(rows, pods);
    var i :| 0 <= i < |rows| && Describes(rows[i], p, a);
    var j :| 0 <= j < |rows| && Describes(rows[j], q, b);
    assert rows[i] in rows && rows[j] in rows && rows[i] != rows[j];
  }

  // ---------- the reference a row shows ----------

  lemma {:induction false} FirstInShows(pod: Pod, css: seq<ContainerStatus>, row: Row)
    requires row.digest != Some("") && FirstIn(pod, css, KeyOfRow(row)).Some?
    ensures exists cs :: cs in css && Runs(pod, cs) && Describes(row, pod, cs)
              && Shows(pod, cs, FirstIn(pod, css, KeyOfRow(row)).value)
  {
    var init, last := css[..|css| - 1], css[|css| - 1];
    assert css == init + [last];
    if FirstIn(pod, init, KeyOfRow(row)).Some? {
      FirstInShows(pod, init, row);
    } else {
      RunsExact(pod, last);
      DescribesExact(row, pod, last);
      RefExact(pod, last, RefOf(pod, last));
      assert last in css;
    }
  }

  lemma {:induction false} FirstRefShows(pods: seq<Pod>, row: Row)
    requires row.digest != Some("") && FirstRef(pods, KeyOfRow(row)).Some?
    ensures exists pod, cs :: pod in pods && cs in pod.statuses && Runs(pod, cs) && Describes(row, pod, cs)
              && Shows(pod, cs, FirstRef(pods, KeyOfRow(row)).value)
  {
    FirstRefFrom(pods, KeyOfRow(row));
    var pod :| pod in pods && RefOn(pod, KeyOfRow(row)) == FirstRef(pods, KeyOfRow(row));
    FirstInShows(pod, pod.statuses, row);
  }

  /** Every row shows the reference of a container it describes. */
  lemma {:induction false} RowsShow(rows: seq<Row>, pods: seq<Pod>)
    requires RowsOf(rows, Accumulated(pods))
    ensures forall row :: row in rows ==>
              exists pod, cs :: pod in pods && cs in pod.statuses && Runs(pod, cs) && Describes(row, pod, cs)
                && Shows(pod, cs, row.imageRef)
  {
    forall row | row in rows
      ensures exists pod, cs :: pod in pods && cs in pod.statuses && Runs(pod, cs) && Describes(row, pod, cs)
                && Shows(pod, cs, row.imageRef)
    {
      FirstSeenIsShown(pods, KeyOfRow(row));
      FirstRefShows(pods, row);
    }
  }

  // ---------- the loops ----------

  method Owner(pod: Pod) returns (kind: string, name: string)
    ensures (kind, name) == OwnerOf(pod)
  {
    for i := 0 to |pod.owners|
      invariant OwnerOf(pod, i) == OwnerOf(pod)
    {
      var ref := pod.owners[i];
      if ref.controller != Some(true) { continue; }
      match ref.kind {
        case "ReplicaSet" => return "Deployment", StripHash(ref.name, pod.templateHash);
        case "Node" => return "Pod", pod.name;
        case _ => return ref.kind, ref.name;
      }
    }
    return "Pod", pod.name;
  }

  method SpecImages(images: seq<(string, string)>) returns (byName: map<string, string>)
    ensures forall name :: (if name in byName then byName[name] else "") == SpecImage(images, name)
  {
    byName := map[];
    for i := 0 to |images|
      invariant forall name :: (if name in byName then byName[name] else "") == SpecImage(images[..i], name)
    {
      byName := byName[images[i].0 := images[i].1];
      assert images[..i + 1][..i] == images[..i];
    }
    assert images[..|images|] == images;
  }

  /** One container status added to the counts. */
  method CountStatus(acc: map<Key, Agg>, pod: Pod, kind: string, name: string, spec: map<string, string>,
                     cs: ContainerStatus) returns (counted: map<Key, Agg>)
    requires pod.running && (kind, name) == OwnerOf(pod)
    requires (if cs.name in spec then spec[cs.name] else "") == SpecImage(pod.specImages, cs.name)
    ensures counted == Counted(acc, pod, cs)
  {
    counted := acc;
    var digest := match Normalized(cs.imageID) case Some(d) => d case None => "";
    var ref := DisplayRef(cs.image, if cs.name in spec then spec[cs.name] else "");
    if ref == "" { return; }
    var key := Key(pod.namespace, kind, name, cs.name, digest);
    if key in acc {
      counted := acc[key := acc[key].(pods := acc[key].pods + 1)];
    } else {
      counted := acc[key := Agg(ref, 1)];
    }
  }

  /** One pod's statuses added to the counts. */
  method CountPod(acc: map<Key, Agg>, pod: Pod) returns (counted: map<Key, Agg>)
    ensures counted == CountedAll(acc, pod, pod.statuses)
  {
    counted := acc;
    if !pod.running {
      NotRunning(acc, pod, pod.statuses);
      return;
    }
    var kind, name := Owner(pod);
    var spec := SpecImages(pod.specImages);
    for i := 0 to |pod.statuses|
      invariant counted == CountedAll(acc, pod, pod.statuses[..i])
    {
      counted := CountStatus(counted, pod, kind, name, spec, pod.statuses[i]);
      assert pod.statuses[..i + 1][..i] == pod.statuses[..i];
    }
    assert pod.statuses[..|pod.statuses|] == pod.statuses;
  }

  lemma {:induction false} NotRunning(acc: map<Key, Agg>, pod: Pod, css: seq<ContainerStatus>)
    requires !pod.running
    ensures CountedAll(acc, pod, css) == acc
  {
    if css != [] { NotRunning(acc, pod, css[..|css| - 1]); }
  }

  /** Ranging over the accumulator, in whatever order its keys come up. */
  method Unsorted(acc: map<Key, Agg>) returns (rows: seq<Row>)
    ensures RowsOf(rows, acc)
  {
    rows := [];
    var left := acc.Keys;
    while left != {}
      invariant left <= acc.Keys && DistinctKeys(KeysOf(rows))
      invariant forall row :: row in rows ==>
        KeyOfRow(row) in acc.Keys - left && row == RowOf(KeyOfRow(row), acc[KeyOfRow(row)])
      invariant forall key :: key in acc.Keys - left ==> RowOf(key, acc[key]) in rows
    {
      var key :| key in left;
      left := left - {key};
      var row := RowOf(key, acc[key]);
      forall i | 0 <= i < |rows| ensures KeysOf(rows)[i] != key { assert rows[i] in rows; }
      assert KeysOf(rows + [row]) == KeysOf(rows) + [key];
      rows := rows + [row];
    }
  }

  method BuildSnapshot(pods: seq<Pod>, sort: seq<Row> -> seq<Row>) returns (rows: seq<Row>)
    requires Sorts(sort)
    ensures RowsOf(rows, Accumulated(pods)) && Sorted(rows)
    ensures SumRows(rows) == Statuses(pods)
    ensures forall pod, cs :: pod in pods && cs in pod.statuses && Runs(pod, cs) ==>
              exists i :: 0 <= i < |rows| && Describes(rows[i], pod, cs)
                && forall j :: 0 <= j < |rows| && Describes(rows[j], pod, cs) ==> j == i
    ensures forall row :: row in rows ==>
              && row.pods == Described(row, pods) > 0
              && exists pod, cs :: pod in pods && cs in pod.statuses && Runs(pod, cs) && Describes(row, pod, cs)
                   && Shows(pod, cs, row.imageRef)
  {
    var acc: map<Key, Agg> := map[];
    for i := 0 to |pods|
      invariant acc == Accumulated(pods[..i])
    {
      acc := CountPod(acc, pods[i]);
      assert pods[..i + 1][..i] == pods[..i];
    }
    assert pods[..|pods|] == pods;
    var out := Unsorted(acc);
    rows := sort(out);
    SortKeepsRows(out, rows, acc);
    RowsConserve(rows, pods);
    RowsDescribe(rows, pods);
    RowsShow(rows, pods);
  }
}
