/** When the Secret holds the stored key, over every run, and exactly which reconciles break that. */
module ApiKeySecrets {
  import opened Kubernetes
  import opened Options
  import opened ApiKeyModel
  import opened ApiKeyProofs

  /** If the stored id names a live key, the Secret that key was minted for holds its plaintext. */
  predicate SecretMatches(w: World) {
    forall k :: k in w.server.keys && w.cr.status.keyID == Some(k.id) ==> HeldIn(w.secrets, k)
  }

  predicate HeldIn(secrets: map<string, string>, k: Key) {
    k.origin.Operator? && k.origin.secretName in secrets && secrets[k.origin.secretName] == k.plaintext
  }

  predicate MintedInto(k: Key, secretName: string) {
    k.origin.Operator? && k.origin.secretName == secretName
  }

  /** The stored id names a live key that was minted into the Secret the spec names. */
  predicate StoredInto(w: World) {
    exists k :: k in w.server.keys && w.cr.status.keyID == Some(k.id) && MintedInto(k, w.cr.spec.secretName)
  }

  // ---------- what breaks it ----------

  /** The new key is created and found again, and the Secret is overwritten with it. */
  predicate Overwrites(p: Plan) {
    p.create.reply == Ok && p.lookup.reply == Ok && p.writeSecret.effect
  }

  /**
   * A delete reports the stored live key as missing, and the Secret of that key is then removed, or overwritten while
   * the stored id stays.
   */
  predicate Misreported(w: World, p: Plan) {
    && w.cr.present && p.get.reply == Ok && p.delete == Call(false, NotFound)
    && StoredInto(w)
    && if w.cr.deleting then p.getSecret.reply == Ok && p.deleteSecret.effect
       else
         && p.list.reply == Ok && NeedsRotation(w.cr.generation, w.cr.status) && Overwrites(p)
         && !(p.writeStatus.effect && p.writeSecret.reply != Crashed)
  }

  /** The reconcile gets as far as asking for a new key. */
  predicate Creates(w: World, p: Plan) {
    && w.cr.present && !w.cr.deleting && p.get.reply == Ok
    && (w.cr.finalizer || (p.addFinalizer.reply == Ok && p.refetch.reply == Ok))
    && match w.cr.status.keyID
       case None => true
       case Some(id) =>
         && p.list.reply == Ok && Live(w.server.keys, id) && NeedsRotation(w.cr.generation, w.cr.status)
         && (p.delete.reply == Ok || p.delete.reply == NotFound)
  }

  /** The lookup finds an older key of the same prefix, and its id is stored over a Secret that is not its own. */
  predicate Collided(w: World, p: Plan) {
    && Creates(w, p) && Overwrites(p) && p.writeSecret.reply == Ok && p.writeStatus.effect
    && var found := FirstByPrefix(KeysAtCreate(w, p), Prefix(p.plaintext));
       found.Some? && !(HeldIn(w.secrets, found.value) && !MintedInto(found.value, w.cr.spec.secretName))
  }

  lemma {:induction false} NewPrefixNeverCollides(w: World, p: Plan)
    requires Unambiguous(w, p) && Truthful(p.create)
    ensures !Collided(w, p)
  {
    FirstByPrefixFinds(KeysAtCreate(w, p), Prefix(p.plaintext));
  }

  // ---------- one reconcile ----------

  /** The call after which the create path stopped because the process died. */
  predicate CreateCrashed(p: Plan) {
    || p.create.reply == Crashed
    || (p.create.reply == Ok && p.lookup.reply == Crashed)
    || (p.create.reply == Ok && p.lookup.reply == Ok && p.writeSecret.reply == Crashed)
  }

  /** The key the lookup after the create returns: the oldest with the prefix. */
  function FoundKey(w: World, p: Plan): Key {
    match FirstByPrefix(w.server.keys, Prefix(p.plaintext)) case Some(o) => o case None => NewKey(w.cr, p)
  }

  function MintedKeys(w: World, p: Plan): seq<Key> {
    if p.create.effect then w.server.keys + [NewKey(w.cr, p)] else w.server.keys
  }

  lemma {:induction false} LookupFinds(w: World, p: Plan)
    ensures FirstByPrefix(w.server.keys + [NewKey(w.cr, p)], Prefix(p.plaintext)) == Some(FoundKey(w, p))
  {
    LookupFindsNewest(w.server.keys, NewKey(w.cr, p));
    FirstByPrefixFinds(w.server.keys, Prefix(p.plaintext));
  }

  lemma {:induction false} WriteExact(w: World, st: Status, k: Key, p: Plan)
    requires st.keyID.None?
    ensures var r := WriteAndPersist(w, st, k, p);
            && r.server == w.server
            && r.secrets == (if p.writeSecret.effect then w.secrets[w.cr.spec.secretName := p.plaintext] else w.secrets)
            && r.cr.status.keyID ==
               if p.writeSecret.reply == Crashed || !p.writeStatus.effect then w.cr.status.keyID
               else if p.writeSecret.reply == Ok then Some(k.id) else None
  {
  }

  /** Everything the create path can leave behind, whatever its calls do. */
  lemma {:induction false} CreateExact(w: World, st: Status, p: Plan)
    requires Truthful(p.create) && st.keyID.None?
    ensures var r := CreateAndPersist(w, st, p);
            && r.server.keys == MintedKeys(w, p)
            && r.secrets == (if Overwrites(p) then w.secrets[w.cr.spec.secretName := p.plaintext] else w.secrets)
            && r.cr.status.keyID ==
               if CreateCrashed(p) || !p.writeStatus.effect then w.cr.status.keyID
               else if p.create.reply == Ok && p.lookup.reply == Ok && p.writeSecret.reply == Ok
               then Some(FoundKey(w, p).id) else None
  {
    LookupFinds(w, p);
    if p.create.reply == Ok && p.lookup.reply == Ok { WriteExact(Mint(w, p), st, FoundKey(w, p), p); }
  }

  lemma {:induction false} OneOfEach(w: World, k: Key, o: Key)
    requires Coherent(w) && k in w.server.keys && o in w.server.keys && k.id == o.id
    ensures k == o
  {
  }

  /** A stored id that the create path put there: its key is in the Secret unless the lookup found an older key. */
  lemma {:induction false} NamedMatches(w: World, st: Status, p: Plan)
    requires Coherent(w) && FreshKey(w.server, p.id, p.plaintext) && Truthful(p.create) && Truthful(p.writeSecret)
    requires st.keyID.None? && Overwrites(p) && p.writeSecret.reply == Ok && p.writeStatus.effect
    ensures SecretMatches(CreateAndPersist(w, st, p)) <==>
            var found := FirstByPrefix(w.server.keys, Prefix(p.plaintext));
            !(found.Some? && !(HeldIn(w.secrets, found.value) && !MintedInto(found.value, w.cr.spec.secretName)))
  {
    var r, k := CreateAndPersist(w, st, p), FoundKey(w, p);
    CreateExact(w, st, p);
    FirstByPrefixFinds(w.server.keys, Prefix(p.plaintext));
    assert r.server.keys[|w.server.keys|] == NewKey(w.cr, p);
    assert k in r.server.keys && r.cr.status.keyID == Some(k.id);
    forall o | o in r.server.keys && o.id == k.id ensures o == k {
      if o in w.server.keys && k in w.server.keys { OneOfEach(w, o, k); }
    }
    assert SecretMatches(r) <==> HeldIn(r.secrets, k);
  }

  /** A stored id that the create path left alone. */
  lemma {:induction false} UnnamedMatches(w: World, st: Status, p: Plan)
    requires Coherent(w) && SecretMatches(w) && FreshKey(w.server, p.id, p.plaintext)
    requires Truthful(p.create) && Truthful(p.writeSecret) && st.keyID.None?
    requires !(Overwrites(p) && p.writeSecret.reply == Ok && p.writeStatus.effect)
    ensures SecretMatches(CreateAndPersist(w, st, p)) <==>
            !(&& Overwrites(p) && !(p.writeStatus.effect && p.writeSecret.reply != Crashed)
              && StoredInto(w))
  {
    var r := CreateAndPersist(w, st, p);
    CreateExact(w, st, p);
    if r.cr.status.keyID.Some? {
      assert forall k :: k in r.server.keys && r.cr.status.keyID == Some(k.id) ==> k in w.server.keys;
      assert forall k :: k in w.server.keys ==> k in r.server.keys;
    }
  }

  /** On the create path of a reconcile, from the keys that are live at that point. */
  lemma {:induction false} CreateMatches(w: World, w1: World, st: Status, p: Plan)
    requires Coherent(w1) && SecretMatches(w1) && FreshKey(w1.server, p.id, p.plaintext) && st.keyID.None?
    requires Truthful(p.create) && Truthful(p.writeSecret) && Creates(w, p)
    requires w1.cr == w.cr.(finalizer := true) && w1.secrets == w.secrets && w1.server.keys == KeysAtCreate(w, p)
    requires w.cr.status.keyID.Some? ==>
               forall k :: k in w1.server.keys && w.cr.status.keyID == Some(k.id) <==>
                           k in w.server.keys && w.cr.status.keyID == Some(k.id) && !p.delete.effect
    requires p.delete.reply == Ok ==> p.delete.effect
    ensures SecretMatches(CreateAndPersist(w1, st, p)) <==> !Misreported(w, p) && !Collided(w, p)
  {
    if Overwrites(p) && p.writeSecret.reply == Ok && p.writeStatus.effect {
      NamedMatches(w1, st, p);
      assert !Misreported(w, p);
    } else {
      UnnamedMatches(w1, st, p);
    }
  }

  lemma {:induction false} DispatchMatches(w: World, p: Plan)
    requires Coherent(w) && SecretMatches(w) && Legal(w, Reconcile(p)) && w.cr.present && !w.cr.deleting
    requires p.get.reply == Ok && (w.cr.finalizer || (p.addFinalizer.reply == Ok && p.refetch.reply == Ok))
    ensures var w1 := w.(cr := w.cr.(finalizer := true));
            SecretMatches(Dispatch(w1, w.cr.status, p)) <==> !Misreported(w, p) && !Collided(w, p)
  {
    var w1 := w.(cr := w.cr.(finalizer := true));
    match w.cr.status.keyID
    case None => CreateMatches(w, w1, w.cr.status, p);
    case Some(id) =>
      if Creates(w, p) {
        WithoutKeeps(w.server.keys, id);
        CoherentAfterDelete(w.server, w.cr.generation, w.cr.spec, id);
        CreateMatches(w, DeleteKey(w1, id, p), Status(None, None, w.cr.status.ready), p);
      } else {
        UncreatedMatches(w, w1, id, p);
      }
  }

  lemma {:induction false} UncreatedMatches(w: World, w1: World, id: string, p: Plan)
    requires SecretMatches(w) && !Creates(w, p) && w.cr.present && !w.cr.deleting && p.get.reply == Ok
    requires w1 == w.(cr := w.cr.(finalizer := true)) && w.cr.status.keyID == Some(id) && Truthful(p.delete)
    requires w.cr.finalizer || (p.addFinalizer.reply == Ok && p.refetch.reply == Ok)
    ensures SecretMatches(VerifyOrRotate(w1, w.cr.status, id, p)) && !Misreported(w, p) && !Collided(w, p)
  {
    UncreatedKeeps(w, w1, id, p);
    WithoutKeeps(w.server.keys, id);
    if Misreported(w, p) { assert Live(w.server.keys, id); }
  }

  lemma {:induction false} UncreatedKeeps(w: World, w1: World, id: string, p: Plan)
    requires !Creates(w, p) && w.cr.present && !w.cr.deleting && p.get.reply == Ok
    requires w1 == w.(cr := w.cr.(finalizer := true)) && w.cr.status.keyID == Some(id)
    requires w.cr.finalizer || (p.addFinalizer.reply == Ok && p.refetch.reply == Ok)
    ensures var r := VerifyOrRotate(w1, w.cr.status, id, p);
            && r.secrets == w.secrets && (r.cr.status.keyID.None? || r.cr.status.keyID == Some(id))
            && (r.server == w.server || r.server == w.server.(keys := Without(w.server.keys, id)))
  {
  }

  lemma {:induction false} DeletionMatches(w: World, p: Plan)
    requires Coherent(w) && SecretMatches(w) && Legal(w, Reconcile(p)) && w.cr.present && w.cr.deleting
    requires p.get.reply == Ok
    ensures SecretMatches(HandleDeletion(w, w.cr.status, p)) <==> !Misreported(w, p)
  {
    if w.cr.status.keyID.Some? {
      var id := w.cr.status.keyID.value;
      var w1 := DeleteKey(w, id, p);
      WithoutKeeps(w.server.keys, id);
      if p.delete.reply == Ok || p.delete.reply == NotFound { RemovalMatches(w1, p); }
    }
  }

  /** Removing the Secret matters to a stored key that is still live and was minted into that Secret. */
  lemma {:induction false} RemovalMatches(w: World, p: Plan)
    requires SecretMatches(w)
    ensures SecretMatches(RemoveSecret(w, p)) <==>
            !(&& p.getSecret.reply == Ok && p.deleteSecret.effect
              && StoredInto(w))
  {
    var r := RemoveSecret(w, p);
    assert r.server == w.server && r.cr.status == w.cr.status;
    if k :| k in w.server.keys && w.cr.status.keyID == Some(k.id) && MintedInto(k, w.cr.spec.secretName) {
      assert HeldIn(w.secrets, k);
    }
  }

  /**
   * From a Secret that matches, one reconcile, whatever its calls do, leaves one that matches exactly unless a delete
   * is misreported or a prefix collides. A new prefix never collides, so then the misreported deletes alone decide.
   */
  lemma {:induction false} SecretExact(w: World, p: Plan)
    requires Coherent(w) && SecretMatches(w) && Legal(w, Reconcile(p))
    ensures SecretMatches(Reconciled(w, p)) <==> !Misreported(w, p) && !Collided(w, p)
    ensures Unambiguous(w, p) ==> (SecretMatches(Reconciled(w, p)) <==> !Misreported(w, p))
  {
    if Unambiguous(w, p) { NewPrefixNeverCollides(w, p); }
    if !w.cr.present || p.get.reply != Ok {
    } else if w.cr.deleting {
      DeletionMatches(w, p);
    } else if w.cr.finalizer || (p.addFinalizer.reply == Ok && p.refetch.reply == Ok) {
      assert w.cr.finalizer ==> w == w.(cr := w.cr.(finalizer := true));
      DispatchMatches(w, p);
    }
  }

  // ---------- over whole runs ----------

  /** The Secret matches after every event of the run. */
  predicate AlwaysMatches(w: World, events: seq<Event>) {
    SecretMatches(Run(w, events)) && (events == [] || AlwaysMatches(w, events[..|events| - 1]))
  }

  predicate NeverMisreported(w: World, events: seq<Event>) {
    events == [] ||
    var before, e := events[..|events| - 1], events[|events| - 1];
    NeverMisreported(w, before) && (e.Reconcile? ==> !Misreported(Run(w, before), e.plan))
  }

  predicate NeverCollided(w: World, events: seq<Event>) {
    events == [] ||
    var before, e := events[..|events| - 1], events[|events| - 1];
    NeverCollided(w, before) && (e.Reconcile? ==> !Collided(Run(w, before), e.plan))
  }

  lemma {:induction false} OtherEventsMatch(w: World, e: Event)
    requires Coherent(w) && SecretMatches(w) && Legal(w, e) && !e.Reconcile?
    ensures SecretMatches(Step(w, e))
  {
    match e
    case DeleteRemotely(id) => WithoutKeeps(w.server.keys, id);
    case CreateRemotely(key) =>
      assert forall k :: k in Step(w, e).server.keys ==> k in w.server.keys || k == key;
    case _ =>
  }

  lemma {:induction false} CoherentRun(w: World, events: seq<Event>)
    requires Initial(w) && LegalRun(w, events)
    ensures Coherent(Run(w, events))
  {
    if events != [] {
      CoherentRun(w, events[..|events| - 1]);
      CoherentStep(Run(w, events[..|events| - 1]), events[|events| - 1]);
    }
  }

  /**
   * Over every run with any failed calls, crashes and lost status writes: the Secret holds the stored key all along
   * exactly when no delete is misreported and no prefix collides on the way.
   */
  lemma {:induction false} AlwaysMatchesExact(w: World, events: seq<Event>)
    requires Initial(w) && LegalRun(w, events)
    ensures AlwaysMatches(w, events) <==> NeverMisreported(w, events) && NeverCollided(w, events)
  {
    if events != [] {
      var before, e := events[..|events| - 1], events[|events| - 1];
      AlwaysMatchesExact(w, before);
      if AlwaysMatches(w, before) {
        assert SecretMatches(Run(w, before));
        CoherentRun(w, before);
        if e.Reconcile? { SecretExact(Run(w, before), e.plan); } else { OtherEventsMatch(Run(w, before), e); }
      }
    }
  }

  lemma {:induction false} CarefulNeverCollides(w: World, events: seq<Event>)
    requires LegalRun(w, events) && CarefulRun(w, events)
    ensures NeverCollided(w, events)
  {
    if events != [] {
      var before, e := events[..|events| - 1], events[|events| - 1];
      CarefulNeverCollides(w, before);
      if e.Reconcile? { NewPrefixNeverCollides(Run(w, before), e.plan); }
    }
  }

  /** So where live prefixes stay distinct and no delete is misreported, the Secret holds the stored key throughout. */
  lemma {:induction false} SecretMatchesAlways(w: World, events: seq<Event>)
    requires Initial(w) && LegalRun(w, events) && CarefulRun(w, events)
    ensures AlwaysMatches(w, events) <==> NeverMisreported(w, events)
  {
    CarefulNeverCollides(w, events);
    AlwaysMatchesExact(w, events);
  }

  // ---------- the failing inputs ----------

  /** The Secret the current spec names holds the plaintext of the stored key. */
  predicate SecretIsStoredKeys(w: World) {
    forall k :: k in w.server.keys && w.cr.status.keyID == Some(k.id) ==>
      w.cr.spec.secretName in w.secrets && w.secrets[w.cr.spec.secretName] == k.plaintext
  }

  /**
   * After a create in which every call succeeds, the stored id is the new key's, and its plaintext is in the Secret,
   * if and only if no live key listed before it has the same prefix.
   */
  lemma {:induction false} LookupExact(w: World, st: Status, p: Plan)
    requires Coherent(w) && FreshKey(w.server, p.id, p.plaintext)
    requires p.create == p.lookup == p.writeSecret == p.writeStatus == FINE
    ensures var r := CreateAndPersist(w, st, p);
            && (r.cr.status.keyID == Some(p.id) <==> NewPrefix(w.server.keys, p))
            && (SecretIsStoredKeys(r) <==> NewPrefix(w.server.keys, p))
  {
    var k := NewKey(w.cr, p);
    var r := CreateAndPersist(w, st, p);
    LookupFindsNewest(w.server.keys, k);
    FirstByPrefixFinds(w.server.keys, Prefix(p.plaintext));
    assert k == r.server.keys[|w.server.keys|];
    if !NewPrefix(w.server.keys, p) {
      var found := FirstByPrefix(w.server.keys, Prefix(p.plaintext)).value;
      assert found in r.server.keys && r.cr.status.keyID == Some(found.id);
    } else {
      assert forall o :: o in r.server.keys ==> o in w.server.keys || o == k;
    }
  }

  /**
   * A live key that a rotation reports missing: the Secret is overwritten, and losing the status write leaves the old
   * key stored.
   */
  lemma {:induction false} MisreportedDeleteBreaksSecret(w: World, k: Key, p: Plan)
    requires Coherent(w) && k in w.server.keys && w.cr.status.keyID == Some(k.id)
    requires w.cr.present && !w.cr.deleting && NeedsRotation(w.cr.generation, w.cr.status)
    requires Legal(w, Reconcile(p))
    requires p.get == p.list == p.create == p.lookup == p.writeSecret == FINE && p.writeStatus == Call(false, Failed)
    requires p.delete == Call(false, NotFound)
    ensures !SecretIsStoredKeys(Reconciled(w, p))
    ensures SecretMatches(w) && MintedInto(k, w.cr.spec.secretName) ==> !SecretMatches(Reconciled(w, p))
  {
    assert Live(w.server.keys, k.id);
    CreateExact(w, Status(None, None, w.cr.status.ready), p);
    assert k in Reconciled(w, p).server.keys;
    if SecretMatches(w) { SecretExact(w, p); }
  }

  /** A live key that the deletion of the object reports missing: its Secret goes, and the key stays. */
  lemma {:induction false} MisreportedDeletion(w: World, k: Key, p: Plan)
    requires Coherent(w) && SecretMatches(w) && k in w.server.keys && w.cr.status.keyID == Some(k.id)
    requires MintedInto(k, w.cr.spec.secretName) && w.cr.present && w.cr.deleting && Legal(w, Reconcile(p))
    requires p.get == p.getSecret == p.deleteSecret == FINE && p.delete == Call(false, NotFound)
    ensures !SecretMatches(Reconciled(w, p))
  {
    SecretExact(w, p);
  }
}
