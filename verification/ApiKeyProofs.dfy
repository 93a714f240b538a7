/** The key list, the create path, and what every run of the APIKey reconciler keeps of the server's keys. */
module ApiKeyProofs {
  import opened Kubernetes
  import opened Options
  import opened ApiKeyModel

  // ---------- the key list ----------

  lemma {:induction false} WithoutHas(keys: seq<Key>, id: string)
    ensures forall k :: k in Without(keys, id) <==> k in keys && k.id != id
  {
    if keys != [] {
      var init, last := keys[..|keys| - 1], keys[|keys| - 1];
      WithoutHas(init, id);
      assert keys == init + [last];
      assert forall k :: k in keys <==> k in init || k == last;
    }
  }

  lemma {:induction false} WithoutKeeps(keys: seq<Key>, id: string)
    ensures forall k :: k in Without(keys, id) <==> k in keys && k.id != id
    ensures (forall i, j :: 0 <= i < j < |keys| ==> keys[i].id != keys[j].id) ==>
              forall i, j :: 0 <= i < j < |Without(keys, id)| ==> Without(keys, id)[i].id != Without(keys, id)[j].id
  {
    WithoutHas(keys, id);
    if keys != [] {
      var init, last := keys[..|keys| - 1], keys[|keys| - 1];
      WithoutKeeps(init, id);
      assert keys == init + [last];
      forall k | k in Without(init, id) && last.id != id && (forall i :: 0 <= i < |init| ==> init[i].id != last.id)
        ensures k.id != last.id
      {
        assert k in init;
      }
    }
  }

  lemma {:induction false} FirstByPrefixFinds(keys: seq<Key>, prefix: string)
    ensures match FirstByPrefix(keys, prefix)
            case None => forall k :: k in keys ==> k.prefix != prefix
            case Some(k) => k in keys && k.prefix == prefix
  {
    if keys != [] && keys[0].prefix != prefix {
      FirstByPrefixFinds(keys[1..], prefix);
    }
  }

  /** The lookup after a create returns the new key exactly when no key listed before it carries its prefix. */
  lemma {:induction false} LookupFindsNewest(keys: seq<Key>, k: Key)
    ensures (forall o :: o in keys ==> o.prefix != k.prefix) ==>
              FirstByPrefix(keys + [k], k.prefix) == Some(k)
    ensures (exists o :: o in keys && o.prefix == k.prefix) ==>
              FirstByPrefix(keys + [k], k.prefix) == FirstByPrefix(keys, k.prefix)
  {
    if keys != [] && keys[0].prefix != k.prefix {
      LookupFindsNewest(keys[1..], k);
      assert (keys + [k])[1..] == keys[1..] + [k];
    }
  }

  // ---------- coherence ----------

  lemma {:induction false} CoherentAfterDelete(s: Server, generation: nat, spec: Spec, id: string)
    requires CoherentServer(s, generation, spec)
    ensures CoherentServer(s.(keys := Without(s.keys, id)), generation, spec)
  {
    WithoutKeeps(s.keys, id);
  }

  lemma {:induction false} CoherentAfterMint(w: World, p: Plan)
    requires CoherentServer(w.server, w.cr.generation, w.cr.spec) && FreshKey(w.server, p.id, p.plaintext)
    ensures CoherentServer(Mint(w, p).server, w.cr.generation, w.cr.spec)
  {
    assert forall k :: k in Mint(w, p).server.keys ==> k in w.server.keys || k == NewKey(w.cr, p);
  }

  /** How a create path can leave the stored status: as it was, with an error recorded, or naming the key it found. */
  predicate StoredBy(w: World, st: Status, r: World, found: Option<Key>, p: Plan) {
    || r.cr.status == w.cr.status
    || r.cr.status == SetReady(st, false, APIError, w.cr.generation)
    || r.cr.status == SetReady(st, false, LookupError, w.cr.generation)
    || r.cr.status == SetReady(st, false, SecretWriteError, w.cr.generation)
    || (&& found.Some? && p.create.reply == p.writeSecret.reply == Ok
        && r.cr.status == SetReady(Status(Some(found.value.id), Some(found.value.prefix), st.ready), true, Created,
                                   w.cr.generation)
        && (p.writeSecret.effect ==> r.secrets == w.secrets[w.cr.spec.secretName := p.plaintext]))
  }

  lemma {:induction false} WriteOutcome(w: World, st: Status, k: Key, p: Plan)
    requires p.create.reply == Ok
    ensures var r := WriteAndPersist(w, st, k, p);
            r.server == w.server && r.cr == w.cr.(status := r.cr.status) && StoredBy(w, st, r, Some(k), p)
  {
  }

  lemma {:induction false} FindOutcome(w: World, st: Status, p: Plan)
    requires p.create.reply == Ok
    ensures var r := FindAndPersist(w, st, p);
            && r.server == w.server && r.cr == w.cr.(status := r.cr.status)
            && StoredBy(w, st, r, FirstByPrefix(w.server.keys, Prefix(p.plaintext)), p)
  {
    var found := FirstByPrefix(w.server.keys, Prefix(p.plaintext));
    if found.Some? { WriteOutcome(w, st, found.value, p); }
  }

  lemma {:induction false} CreateOutcome(w: World, st: Status, p: Plan)
    ensures var w1 := if p.create.effect then Mint(w, p) else w;
            var r := CreateAndPersist(w, st, p);
            && r.server == w1.server && r.cr == w.cr.(status := r.cr.status)
            && StoredBy(w, st, r, FirstByPrefix(w1.server.keys, Prefix(p.plaintext)), p)
  {
    if p.create.reply == Ok {
      FindOutcome(if p.create.effect then Mint(w, p) else w, st, p);
    }
  }

  lemma {:induction false} CoherentAfterCreate(w: World, st: Status, p: Plan)
    requires Coherent(w) && w.cr.finalizer && FreshKey(w.server, p.id, p.plaintext) && st.keyID.None?
    ensures Coherent(CreateAndPersist(w, st, p))
  {
    CreateOutcome(w, st, p);
    FirstByPrefixFinds(CreateAndPersist(w, st, p).server.keys, Prefix(p.plaintext));
    if p.create.effect { CoherentAfterMint(w, p); }
  }

  lemma {:induction false} CoherentAfterRotate(w: World, st: Status, id: string, p: Plan)
    requires Coherent(w) && w.cr.finalizer && FreshKey(w.server, p.id, p.plaintext)
    requires st.keyID == Some(id) == w.cr.status.keyID
    ensures Coherent(Rotate(w, st, id, p))
  {
    var w1 := DeleteKey(w, id, p);
    WithoutKeeps(w.server.keys, id);
    CoherentAfterDelete(w.server, w.cr.generation, w.cr.spec, id);
    if p.delete.reply.Ok? || p.delete.reply.NotFound? {
      CoherentAfterCreate(w1, Status(None, None, st.ready), p);
    }
  }

  lemma {:induction false} CoherentAfterVerify(w: World, st: Status, id: string, p: Plan)
    requires Coherent(w) && w.cr.finalizer && FreshKey(w.server, p.id, p.plaintext)
    requires st.keyID == Some(id) == w.cr.status.keyID
    ensures Coherent(VerifyOrRotate(w, st, id, p))
  {
    if Live(w.server.keys, id) && NeedsRotation(w.cr.generation, st) {
      CoherentAfterRotate(w, st, id, p);
    }
  }

  lemma {:induction false} RemovalKeeps(w: World, p: Plan)
    ensures var r := RemoveSecret(w, p);
            r.server == w.server && r.cr.status == w.cr.status && r.cr.generation == w.cr.generation
  {
  }

  /** A deletion changes the status only to record a failed delete, and the server only by the stored key. */
  lemma {:induction false} DeletionOutcome(w: World, p: Plan)
    ensures var r := HandleDeletion(w, w.cr.status, p);
            && r.cr.generation == w.cr.generation
            && (|| r.cr.status == w.cr.status
                || (p.delete.reply == Failed && p.writeStatus.effect
                    && r.cr.status == SetReady(w.cr.status, false, DeleteError, w.cr.generation)))
            && (r.server == w.server ||
                (w.cr.status.keyID.Some? &&
                 r.server == w.server.(keys := Without(w.server.keys, w.cr.status.keyID.value))))
  {
    match w.cr.status.keyID
    case None => RemovalKeeps(w, p);
    case Some(id) => RemovalKeeps(DeleteKey(w, id, p), p);
  }

  lemma {:induction false} CoherentAfterRemoval(w: World, p: Plan)
    requires Coherent(w) && w.cr.finalizer
    ensures Coherent(RemoveSecret(w, p))
  {
  }

  lemma {:induction false} CoherentAfterDeletion(w: World, p: Plan)
    requires Coherent(w) && w.cr.finalizer
    ensures Coherent(HandleDeletion(w, w.cr.status, p))
  {
    if w.cr.status.keyID.Some? {
      var w1 := DeleteKey(w, w.cr.status.keyID.value, p);
      CoherentAfterDelete(w.server, w.cr.generation, w.cr.spec, w.cr.status.keyID.value);
      assert Coherent(w1);
      CoherentAfterRemoval(w1, p);
    } else {
      CoherentAfterRemoval(w, p);
    }
  }

  lemma {:induction false} CoherentAfterReconcile(w: World, p: Plan)
    requires Coherent(w) && Truthful(p.addFinalizer) && FreshKey(w.server, p.id, p.plaintext)
    ensures Coherent(Reconciled(w, p))
  {
    if !w.cr.present || p.get.reply != Ok {
    } else if w.cr.deleting {
      if w.cr.finalizer { CoherentAfterDeletion(w, p); }
    } else {
      match w.cr.status.keyID
      case None =>
        CoherentAfterCreate(w.(cr := w.cr.(finalizer := true)), w.cr.status, p);
        assert w.cr.finalizer ==> w == w.(cr := w.cr.(finalizer := true));
      case Some(id) => CoherentAfterVerify(w, w.cr.status, id, p);
    }
  }

  lemma {:induction false} CoherentStep(w: World, e: Event)
    requires Coherent(w) && Legal(w, e)
    ensures Coherent(Step(w, e))
  {
    match e
    case Reconcile(p) => CoherentAfterReconcile(w, p);
    case DeleteRemotely(id) => CoherentAfterDelete(w.server, w.cr.generation, w.cr.spec, id);
    case CreateRemotely(key) =>
      assert forall k :: k in Step(w, e).server.keys ==> k in w.server.keys || k == key;
    case _ =>
  }

  // ---------- distinct prefixes ----------

  /** None of these keys carries the prefix of the key about to be minted. */
  predicate NewPrefix(keys: seq<Key>, p: Plan) {
    forall k :: k in keys ==> k.prefix != Prefix(p.plaintext)
  }

  /** The keys that are live when this reconcile asks for a new one: a rotation has deleted the stored one by then. */
  function KeysAtCreate(w: World, p: Plan): seq<Key> {
    if w.cr.status.keyID.Some? && p.delete.effect then Without(w.server.keys, w.cr.status.keyID.value)
    else w.server.keys
  }

  /** A key minted by this reconcile has a prefix that no other live key has. */
  predicate Unambiguous(w: World, p: Plan) {
    p.create.effect ==> NewPrefix(KeysAtCreate(w, p), p)
  }

  /** Live prefixes stay distinct from those of the keys the operator mints. */
  predicate CarefulRun(w: World, events: seq<Event>) {
    events == [] ||
    var before, e := events[..|events| - 1], events[|events| - 1];
    CarefulRun(w, before) && (e.Reconcile? ==> Unambiguous(Run(w, before), e.plan))
  }
}
