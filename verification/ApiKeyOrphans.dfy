/** How many keys the operator can leave behind on the server, and what deletion guarantees. */
module ApiKeyOrphans {
  import opened Kubernetes
  import opened Options
  import opened ApiKeyModel
  import opened ApiKeyProofs

  predicate IsOrphan(k: Key, stored: Option<string>) {
    k.origin.Operator? && stored != Some(k.id)
  }

  /** Live operator-minted keys other than the stored one. */
  function Orphans(keys: seq<Key>, stored: Option<string>): nat {
    if keys == [] then 0
    else Orphans(keys[..|keys| - 1], stored) + if IsOrphan(keys[|keys| - 1], stored) then 1 else 0
  }

  predicate StoredIsLive(keys: seq<Key>, stored: Option<string>) {
    exists k :: k in keys && k.origin.Operator? && stored == Some(k.id)
  }

  /** Every live operator-minted key is an orphan or the stored key. */
  lemma {:induction false} StoredIsOneOfThem(keys: seq<Key>, stored: Option<string>)
    requires forall i, j :: 0 <= i < j < |keys| ==> keys[i].id != keys[j].id
    ensures Orphans(keys, None) == Orphans(keys, stored) + if StoredIsLive(keys, stored) then 1 else 0
  {
    if keys != [] {
      var init, last := keys[..|keys| - 1], keys[|keys| - 1];
      StoredIsOneOfThem(init, stored);
      assert keys == init + [last];
      assert forall k :: k in keys <==> k in init || k == last;
    }
  }

  /** Deleting a key leaves the operator-minted keys other than it. */
  lemma {:induction false} OrphansWithout(keys: seq<Key>, id: string)
    ensures Orphans(Without(keys, id), None) == Orphans(keys, Some(id))
  {
    if keys != [] {
      var rest := Without(keys[..|keys| - 1], id);
      OrphansWithout(keys[..|keys| - 1], id);
      assert (rest + [keys[|keys| - 1]])[..|rest|] == rest;
    }
  }

  /** The reconcile minted a key and did not store its id. */
  predicate Unstored(w: World, p: Plan) {
    p.id in Reconciled(w, p).server.issued && Reconciled(w, p).cr.status.keyID != Some(p.id)
  }

  /** The id the object stores, while there is an object. */
  function StoredID(w: World): Option<string> {
    if w.cr.present then w.cr.status.keyID else None
  }

  /** A delete reports the stored live key missing, and its id is dropped: with the object, or by the rotation. */
  predicate DropsLive(w: World, p: Plan) {
    && p.delete == Call(false, NotFound) && StoredIsLive(w.server.keys, StoredID(w))
    && StoredID(Reconciled(w, p)) != StoredID(w)
  }

  /** Keys one reconcile can leave behind: a minted key whose id was not stored, a live key dropped as missing. */
  function Leak(w: World, p: Plan): nat {
    (if Unstored(w, p) then 1 else 0) + (if DropsLive(w, p) then 1 else 0)
  }

  function Leaks(w: World, events: seq<Event>): nat {
    if events == [] then 0
    else
      var before := events[..|events| - 1];
      Leaks(w, before) + match events[|events| - 1] case Reconcile(p) => Leak(Run(w, before), p) case _ => 0
  }

  /** Operator-minted live keys, and how many of them the stored id accounts for. */
  function Minted(w: World): nat {
    Orphans(w.server.keys, None)
  }

  function Attached(w: World): nat {
    if StoredIsLive(w.server.keys, StoredID(w)) then 1 else 0
  }

  lemma {:induction false} AfterMint(w: World, p: Plan)
    ensures Minted(Mint(w, p)) == Minted(w) + 1
    ensures StoredIsLive(Mint(w, p).server.keys, Some(p.id))
    ensures StoredIsLive(w.server.keys, w.cr.status.keyID) ==> StoredIsLive(Mint(w, p).server.keys, w.cr.status.keyID)
  {
    var keys := w.server.keys + [NewKey(w.cr, p)];
    assert keys[..|keys| - 1] == w.server.keys;
    assert keys[|w.server.keys|] == NewKey(w.cr, p);
  }

  lemma {:induction false} AfterDelete(w: World, id: string)
    requires CoherentServer(w.server, w.cr.generation, w.cr.spec)
    ensures var keys := Without(w.server.keys, id);
            && Orphans(keys, None) == Minted(w) - (if StoredIsLive(w.server.keys, Some(id)) then 1 else 0)
            && !StoredIsLive(keys, Some(id))
  {
    OrphansWithout(w.server.keys, id);
    StoredIsOneOfThem(w.server.keys, Some(id));
    WithoutKeeps(w.server.keys, id);
  }

  lemma {:induction false} CreateLeaks(w: World, st: Status, p: Plan)
    requires p.id !in w.server.issued && w.cr.present
    ensures var r := CreateAndPersist(w, st, p);
            && (p.id in r.server.issued <==> p.create.effect) && r.cr.present
            && Minted(r) == Minted(w) + (if p.create.effect then 1 else 0)
            && (p.create.effect && r.cr.status.keyID == Some(p.id) ==> Attached(r) == 1)
            && (StoredIsLive(w.server.keys, w.cr.status.keyID) && r.cr.status.keyID == w.cr.status.keyID ==>
                  Attached(r) == 1)
  {
    CreateOutcome(w, st, p);
    AfterMint(w, p);
  }

  lemma {:induction false} RotateLeaks(w: World, st: Status, id: string, p: Plan)
    requires Coherent(w) && FreshKey(w.server, p.id, p.plaintext) && Truthful(p.delete) && w.cr.present
    requires st.keyID == Some(id) == w.cr.status.keyID
    ensures var r := Rotate(w, st, id, p);
            && r.cr.present
            && Minted(r) - Attached(r) <= Minted(w) - Attached(w)
                 + (if p.id in r.server.issued && r.cr.status.keyID != Some(p.id) then 1 else 0)
                 + (if p.delete == Call(false, NotFound) && Attached(w) == 1 && r.cr.status.keyID != Some(id)
                    then 1 else 0)
  {
    AfterDelete(w, id);
    var w1 := DeleteKey(w, id, p);
    if p.delete.reply.Ok? || p.delete.reply.NotFound? {
      CreateLeaks(w1, Status(None, None, st.ready), p);
    }
  }

  lemma {:induction false} VerifyLeaks(w: World, id: string, p: Plan)
    requires w.cr.status.keyID == Some(id)
    requires !(p.list.reply == Ok && Live(w.server.keys, id) && NeedsRotation(w.cr.generation, w.cr.status))
    ensures var r := VerifyOrRotate(w, w.cr.status, id, p);
            && r.server == w.server && r.cr.present == w.cr.present
            && (r.cr.status.keyID == Some(id) || (r.cr.status.keyID.None? && !Live(w.server.keys, id)))
  {
  }

  lemma {:induction false} DispatchLeaks(w: World, p: Plan)
    requires Coherent(w) && FreshKey(w.server, p.id, p.plaintext) && Truthful(p.delete) && w.cr.present
    ensures var r := Dispatch(w, w.cr.status, p);
            && r.cr.present
            && Minted(r) - Attached(r) <= Minted(w) - Attached(w)
                 + (if p.id in r.server.issued && r.cr.status.keyID != Some(p.id) then 1 else 0)
                 + (if p.delete == Call(false, NotFound) && Attached(w) == 1 && r.cr.status.keyID != w.cr.status.keyID
                    then 1 else 0)
  {
    match w.cr.status.keyID
    case None => CreateLeaks(w, w.cr.status, p);
    case Some(id) =>
      if p.list.reply == Ok && Live(w.server.keys, id) && NeedsRotation(w.cr.generation, w.cr.status) {
        RotateLeaks(w, w.cr.status, id, p);
      } else {
        VerifyLeaks(w, id, p);
      }
  }

  /** The object goes only past the delete of its key. */
  lemma {:induction false} DeletionServer(w: World, p: Plan)
    requires w.cr.finalizer && w.cr.present && Truthful(p.delete)
    ensures var r, stored := HandleDeletion(w, w.cr.status, p), w.cr.status.keyID;
            && r.server.keys == (if stored.Some? && p.delete.effect then Without(w.server.keys, stored.value)
                                 else w.server.keys)
            && (stored.Some? && !r.cr.present ==> p.delete.effect || p.delete == Call(false, NotFound))
  {
    match w.cr.status.keyID
    case None => RemovalKeeps(w, p);
    case Some(id) => RemovalKeeps(DeleteKey(w, id, p), p);
  }

  lemma {:induction false} DeletionLeaks(w: World, p: Plan)
    requires Coherent(w) && w.cr.present && Truthful(p.delete)
    ensures var r := HandleDeletion(w, w.cr.status, p);
            Minted(r) - Attached(r) <= Minted(w) - Attached(w)
              + if p.delete == Call(false, NotFound) && Attached(w) == 1 && StoredID(r) != StoredID(w) then 1 else 0
  {
    DeletionOutcome(w, p);
    if w.cr.finalizer {
      DeletionServer(w, p);
      if w.cr.status.keyID.Some? { AfterDelete(w, w.cr.status.keyID.value); }
    }
  }

  lemma {:induction false} StepLeaks(w: World, e: Event)
    requires Coherent(w) && Legal(w, e)
    ensures var r := Step(w, e);
            Minted(r) - Attached(r) <= Minted(w) - Attached(w) + if e.Reconcile? then Leak(w, e.plan) else 0
  {
    match e
    case Reconcile(p) =>
      if w.cr.present && p.get.reply == Ok {
        if w.cr.deleting {
          DeletionLeaks(w, p);
        } else {
          DispatchLeaks(w, p);
          DispatchLeaks(AddFinalizer(w, p), p);
        }
      }
    case DeleteRemotely(id) =>
      AfterDelete(w, id);
      WithoutKeeps(w.server.keys, id);
    case CreateRemotely(k) =>
      assert (w.server.keys + [k])[..|w.server.keys|] == w.server.keys;
      assert forall o :: o in w.server.keys + [k] <==> o in w.server.keys || o == k;
    case _ =>
  }

  lemma {:induction false} NoneMinted(keys: seq<Key>)
    requires forall k :: k in keys ==> k.origin == External
    ensures Orphans(keys, None) == 0
  {
    if keys != [] { NoneMinted(keys[..|keys| - 1]); }
  }

  /**
   * Over every run, live operator-minted keys that the object does not store never outnumber the reconciles that minted
   * a key without storing its id plus those that dropped a live one as missing. No assumption on prefixes.
   */
  lemma {:induction false} OrphanBound(w: World, events: seq<Event>)
    requires Initial(w) && LegalRun(w, events)
    ensures var r := Run(w, events);
            && Coherent(r)
            && Orphans(r.server.keys, StoredID(r)) <= Leaks(w, events)
  {
    if events == [] {
      NoneMinted(w.server.keys);
    } else {
      var before := events[..|events| - 1];
      OrphanBound(w, before);
      CoherentStep(Run(w, before), events[|events| - 1]);
      StepLeaks(Run(w, before), events[|events| - 1]);
      StoredIsOneOfThem(Run(w, before).server.keys, StoredID(Run(w, before)));
    }
    StoredIsOneOfThem(Run(w, events).server.keys, StoredID(Run(w, events)));
  }

  // ---------- cut short ----------

  /** The create takes effect, and something between it and the status write does not. */
  predicate CutShort(w: World, p: Plan) {
    && p.id in Reconciled(w, p).server.issued
    && !(p.create.reply == Ok && p.lookup.reply == Ok && p.writeSecret.reply == Ok && p.writeStatus.effect)
  }

  lemma {:induction false} CreateCutShort(w: World, st: Status, p: Plan)
    requires FreshKey(w.server, p.id, p.plaintext) && Truthful(p.create) && st.keyID.None?
    requires w.cr.status.keyID != Some(p.id) && p.create.effect && NewPrefix(w.server.keys, p)
    ensures CreateAndPersist(w, st, p).cr.status.keyID != Some(p.id) <==>
            !(p.create.reply == Ok && p.lookup.reply == Ok && p.writeSecret.reply == Ok && p.writeStatus.effect)
  {
    LookupFindsNewest(w.server.keys, NewKey(w.cr, p));
  }

  lemma {:induction false} MintedByCreate(w: World, st: Status, p: Plan)
    requires p.id !in w.server.issued
    ensures p.id in CreateAndPersist(w, st, p).server.issued <==> p.create.effect
  {
    CreateOutcome(w, st, p);
  }

  lemma {:induction false} DispatchCutShort(w: World, p: Plan)
    requires Coherent(w) && FreshKey(w.server, p.id, p.plaintext) && Truthful(p.create) && Truthful(p.delete)
    requires Unambiguous(w, p)
    ensures var r := Dispatch(w, w.cr.status, p);
            p.id in r.server.issued && r.cr.status.keyID != Some(p.id) <==>
            && p.id in r.server.issued
            && !(p.create.reply == Ok && p.lookup.reply == Ok && p.writeSecret.reply == Ok && p.writeStatus.effect)
  {
    match w.cr.status.keyID
    case None =>
      MintedByCreate(w, w.cr.status, p);
      if p.create.effect { CreateCutShort(w, w.cr.status, p); }
    case Some(id) =>
      if Live(w.server.keys, id) && NeedsRotation(w.cr.generation, w.cr.status) {
        var w1, st := DeleteKey(w, id, p), Status(None, None, w.cr.status.ready);
        WithoutKeeps(w.server.keys, id);
        MintedByCreate(w1, st, p);
        if p.create.effect { CreateCutShort(w1, st, p); }
      }
  }

  /** Where the new prefix is distinct, a minted key goes unstored exactly when its reconcile was cut short. */
  lemma {:induction false} LeakIsCutShort(w: World, p: Plan)
    requires Coherent(w) && Legal(w, Reconcile(p)) && Unambiguous(w, p)
    ensures Unstored(w, p) <==> CutShort(w, p)
  {
    if w.cr.present && w.cr.deleting {
      DeletionOutcome(w, p);
    } else {
      DispatchCutShort(w, p);
      DispatchCutShort(AddFinalizer(w, p), p);
    }
  }

  /** The reconciles of a run that were cut short, and those that dropped a live key as missing. */
  function CutsShort(w: World, events: seq<Event>): nat {
    if events == [] then 0
    else
      var before, e := events[..|events| - 1], events[|events| - 1];
      CutsShort(w, before) + if e.Reconcile? && CutShort(Run(w, before), e.plan) then 1 else 0
  }

  function Drops(w: World, events: seq<Event>): nat {
    if events == [] then 0
    else
      var before, e := events[..|events| - 1], events[|events| - 1];
      Drops(w, before) + if e.Reconcile? && DropsLive(Run(w, before), e.plan) then 1 else 0
  }

  lemma {:induction false} LeaksAreCutsShort(w: World, events: seq<Event>)
    requires Initial(w) && LegalRun(w, events) && CarefulRun(w, events)
    ensures Leaks(w, events) == CutsShort(w, events) + Drops(w, events)
  {
    if events != [] {
      var before, e := events[..|events| - 1], events[|events| - 1];
      LeaksAreCutsShort(w, before);
      OrphanBound(w, before);
      if e.Reconcile? { LeakIsCutShort(Run(w, before), e.plan); }
    }
  }

  /**
   * Over every run whose live prefixes stay distinct, live minted keys that the object does not store never outnumber
   * the reconciles cut short between the create taking effect and the status write landing, plus those that dropped a
   * live key as missing.
   */
  lemma {:induction false} OrphansAreCutShort(w: World, events: seq<Event>)
    requires Initial(w) && LegalRun(w, events) && CarefulRun(w, events)
    ensures var r := Run(w, events);
            Orphans(r.server.keys, StoredID(r)) <= CutsShort(w, events) + Drops(w, events)
  {
    OrphanBound(w, events);
    LeaksAreCutsShort(w, events);
  }

  // ---------- deletion ----------

  /**
   * The object disappears only once its stored key is gone, exactly unless a delete reported that live key missing. The
   * Secret the spec names outlives it exactly when it existed and could not be read.
   */
  lemma {:induction false} FinalizerGuardsKey(w: World, p: Plan)
    requires Coherent(w) && Legal(w, Reconcile(p)) && w.cr.present && !Reconciled(w, p).cr.present
    ensures var r := Reconciled(w, p);
            && w.cr.deleting
            && (w.cr.status.keyID.Some? ==>
                  (Live(r.server.keys, w.cr.status.keyID.value) <==>
                   Live(w.server.keys, w.cr.status.keyID.value) && p.delete == Call(false, NotFound)))
            && (w.cr.spec.secretName in r.secrets <==> w.cr.spec.secretName in w.secrets && p.getSecret.reply != Ok)
  {
    if w.cr.deleting {
      DeletionGuardsKey(w, p);
    } else {
      DispatchKeepsObject(w, p);
      DispatchKeepsObject(AddFinalizer(w, p), p);
    }
  }

  lemma {:induction false} RemovalOutcome(w: World, p: Plan)
    requires w.cr.present && Truthful(p.deleteSecret) && (p.deleteSecret.reply == NotFound ==> p.deleteSecret.effect)
    requires !RemoveSecret(w, p).cr.present
    ensures var r, name := RemoveSecret(w, p), w.cr.spec.secretName;
            && r.server == w.server && (name in r.secrets <==> name in w.secrets && p.getSecret.reply != Ok)
  {
  }

  lemma {:induction false} DeletionGuardsKey(w: World, p: Plan)
    requires Legal(w, Reconcile(p)) && w.cr.present && !HandleDeletion(w, w.cr.status, p).cr.present
    ensures var r, name := HandleDeletion(w, w.cr.status, p), w.cr.spec.secretName;
            && (w.cr.status.keyID.Some? ==>
                  (Live(r.server.keys, w.cr.status.keyID.value) <==>
                   Live(w.server.keys, w.cr.status.keyID.value) && p.delete == Call(false, NotFound)))
            && (name in r.secrets <==> name in w.secrets && p.getSecret.reply != Ok)
  {
    match w.cr.status.keyID
    case None => RemovalOutcome(w, p);
    case Some(id) =>
      WithoutKeeps(w.server.keys, id);
      RemovalOutcome(DeleteKey(w, id, p), p);
  }

  lemma {:induction false} RotateKeepsObject(w: World, st: Status, id: string, p: Plan)
    ensures Rotate(w, st, id, p).cr.present == w.cr.present
  {
    CreateOutcome(DeleteKey(w, id, p), Status(None, None, st.ready), p);
  }

  lemma {:induction false} DispatchKeepsObject(w: World, p: Plan)
    ensures Dispatch(w, w.cr.status, p).cr.present == w.cr.present
  {
    match w.cr.status.keyID
    case None => CreateOutcome(w, w.cr.status, p);
    case Some(id) => RotateKeepsObject(w, w.cr.status, id, p);
  }
}
