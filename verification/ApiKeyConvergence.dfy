/** What error-free reconciles of an APIKey come to, from any state of the two stores. */
module ApiKeyConvergence {
  import opened Kubernetes
  import opened Options
  import opened ApiKeyModel
  import opened ApiKeyProofs
  import opened ApiKeySecrets
  import opened ApiKeyReady

  /** No call fails or loses its effect. */
  predicate ErrorFree(p: Plan) {
    && p.get == p.addFinalizer == p.refetch == p.list == p.delete == FINE
    && p.create == p.lookup == p.writeSecret == p.writeStatus == FINE
  }

  predicate Wanted(w: World) {
    w.cr.present && !w.cr.deleting
  }

  predicate StoredLive(w: World) {
    w.cr.status.keyID.Some? && Live(w.server.keys, w.cr.status.keyID.value)
  }

  /** Ready=True for the current generation. */
  predicate ReadyNow(w: World) {
    w.cr.status.ready.Some? && w.cr.status.ready.value.status
    && w.cr.status.ready.value.observedGeneration == w.cr.generation
  }

  predicate SameSpec(w: World, r: World) {
    Wanted(r) && r.cr.spec == w.cr.spec && r.cr.generation == w.cr.generation
  }

  lemma {:induction false} CreateStores(w: World, st: Status, p: Plan)
    requires ErrorFree(p) && st.keyID.None?
    ensures var r := CreateAndPersist(w, st, p);
            && r.cr == w.cr.(status := r.cr.status) && StoredLive(r) && ReadyNow(r)
            && FoundKey(w, p) in r.server.keys && r.cr.status.keyID == Some(FoundKey(w, p).id)
            && r.cr.status.prefix == Some(FoundKey(w, p).prefix)
  {
    LookupFinds(w, p);
    FirstByPrefixFinds(w.server.keys, Prefix(p.plaintext));
    assert NewKey(w.cr, p) == (w.server.keys + [NewKey(w.cr, p)])[|w.server.keys|];
  }

  /** An error-free reconcile leaves a live stored key, ready for the current generation, or clears a missing one. */
  lemma {:induction false} OnePass(w: World, p: Plan)
    requires Coherent(w) && Wanted(w) && ErrorFree(p) && Legal(w, Reconcile(p))
    ensures var r := Reconciled(w, p);
            && SameSpec(w, r) && r.cr.finalizer && Coherent(r)
            && if w.cr.status.keyID.Some? && !StoredLive(w)
               then r.cr.status == Status(None, None, Some(Condition(false, KeyMissing, w.cr.generation)))
               else StoredLive(r) && ReadyNow(r)
  {
    CoherentStep(w, Reconcile(p));
    match w.cr.status.keyID
    case None => CreateStores(AddFinalizer(w, p), w.cr.status, p); CreateStores(w, w.cr.status, p);
    case Some(id) => CreateStores(DeleteKey(w, id, p), Status(None, None, w.cr.status.ready), p);
  }

  /**
   * From every coherent world of a wanted object, with no stored id, a missing key's or a live one's, two error-free
   * reconciles store the id of a live key and report Ready=True for the current generation.
   */
  lemma {:induction false} ConvergesInTwo(w: World, p1: Plan, p2: Plan)
    requires Coherent(w) && Wanted(w) && ErrorFree(p1) && ErrorFree(p2)
    requires Legal(w, Reconcile(p1)) && Legal(Reconciled(w, p1), Reconcile(p2))
    ensures var r := Reconciled(Reconciled(w, p1), p2);
            SameSpec(w, r) && r.cr.finalizer && StoredLive(r) && ReadyNow(r)
  {
    OnePass(w, p1);
    OnePass(Reconciled(w, p1), p2);
  }

  // ---------- a healthy object ----------

  /** Field by field, the key is what the spec asks for. */
  predicate Carries(k: Key, spec: Spec) {
    && k.body.name == spec.name
    && (if spec.capabilities == [] then k.body.capabilities.None? else k.body.capabilities == Some(spec.capabilities))
  }

  /** The stored key is live, carries the current spec, and its plaintext is in the Secret the spec names. */
  predicate Healthy(w: World) {
    exists k :: k in w.server.keys && w.cr.status.keyID == Some(k.id) && MintedFor(k, w.cr.generation)
      && Carries(k, w.cr.spec)
      && w.cr.spec.secretName in w.secrets && w.secrets[w.cr.spec.secretName] == k.plaintext
  }

  lemma {:induction false} MaskedStays(w: World, p: Plan, k: Key)
    requires Coherent(w) && Wanted(w) && ErrorFree(p) && Legal(w, Reconcile(p))
    requires k in w.server.keys && w.cr.status.keyID == Some(k.id) && !NeedsRotation(w.cr.generation, w.cr.status)
    ensures var r := Reconciled(w, p);
            k in r.server.keys && r.cr.status.keyID == Some(k.id) && !NeedsRotation(r.cr.generation, r.cr.status)
  {
  }

  lemma {:induction false} MaskedEndsStale(w: World, p1: Plan, p2: Plan)
    requires Coherent(w) && Wanted(w) && ErrorFree(p1) && ErrorFree(p2) && Masked(w)
    requires Legal(w, Reconcile(p1)) && Legal(Reconciled(w, p1), Reconcile(p2))
    ensures !Healthy(Reconciled(Reconciled(w, p1), p2))
  {
    var w1 := Reconciled(w, p1);
    var r := Reconciled(w1, p2);
    var k :| k in w.server.keys && w.cr.status.keyID == Some(k.id)
             && !ReadyIsTrue(w.cr.status) && !MintedFor(k, w.cr.generation);
    OnePass(w, p1);
    MaskedStays(w, p1, k);
    OnePass(w1, p2);
    MaskedStays(w1, p2, k);
    forall o | o in r.server.keys && r.cr.status.keyID == Some(o.id) ensures o == k { OneOfEach(r, o, k); }
  }

  lemma {:induction false} Believed(w: World, p: Plan)
    requires Coherent(w) && Wanted(w) && ErrorFree(p) && Legal(w, Reconcile(p)) && Unambiguous(w, p)
    requires ReadyMatches(w) && SecretMatches(w) && !Masked(w)
    ensures var r := Reconciled(w, p); ReadyMatches(r) && SecretMatches(r) && !Masked(r)
  {
    OnePass(w, p);
    ReadyExact(w, p);
    SecretExact(w, p);
  }

  /**
   * With distinct new prefixes, from stores in which Ready can be believed and the Secret matches, they leave a live
   * key that carries the current spec, with its plaintext in the Secret, exactly unless the rotation was masked.
   */
  lemma {:induction false} HealthyExact(w: World, p1: Plan, p2: Plan)
    requires Coherent(w) && Wanted(w) && ErrorFree(p1) && ErrorFree(p2) && ReadyMatches(w) && SecretMatches(w)
    requires Legal(w, Reconcile(p1)) && Legal(Reconciled(w, p1), Reconcile(p2))
    requires Unambiguous(w, p1) && Unambiguous(Reconciled(w, p1), p2)
    ensures Healthy(Reconciled(Reconciled(w, p1), p2)) <==> !Masked(w)
  {
    var w1 := Reconciled(w, p1);
    var r := Reconciled(w1, p2);
    if Masked(w) {
      MaskedEndsStale(w, p1, p2);
    } else {
      ConvergesInTwo(w, p1, p2);
      OnePass(w, p1);
      OnePass(w1, p2);
      Believed(w, p1);
      Believed(w1, p2);
      var k :| k in r.server.keys && r.cr.status.keyID == Some(k.id);
      assert MintedFor(k, r.cr.generation) && HeldIn(r.secrets, k);
    }
  }

  // ---------- what the status reports ----------

  /** Ready=True was recorded for an older generation, so the key is to be rotated. */
  predicate Due(w: World) {
    ReadyIsTrue(w.cr.status) && w.cr.status.ready.value.observedGeneration < w.cr.generation
  }

  /** The reconcile gets to work on a wanted object, no call it reaches crashes, and its status write lands. */
  predicate Concludes(w: World, p: Plan) {
    && Wanted(w) && p.get.reply == Ok && p.writeStatus.effect
    && (w.cr.finalizer || (p.addFinalizer.reply == Ok && p.refetch.reply == Ok))
    && (w.cr.status.keyID.Some? ==>
          && p.list.reply != Crashed
          && (p.list.reply == Ok && StoredLive(w) && Due(w) ==> p.delete.reply != Crashed))
    && (Asks(w, p) ==> !CreateCrashed(p))
  }

  /** A new key is asked for: there is none, or it is due and the old one is out of the way. */
  predicate Asks(w: World, p: Plan) {
    || w.cr.status.keyID.None?
    || (p.list.reply == Ok && StoredLive(w) && Due(w) && (p.delete.reply == Ok || p.delete.reply == NotFound))
  }

  /** Why a concluding reconcile says what it says. */
  predicate ReasonGiven(w: World, p: Plan, reason: Reason) {
    var made := p.create.reply == Ok;
    && (reason == Created <==> Asks(w, p) && made && p.lookup.reply == Ok && p.writeSecret.reply == Ok)
    && (reason == LookupError <==> Asks(w, p) && made && p.lookup.reply != Ok)
    && (reason == SecretWriteError <==> Asks(w, p) && made && p.lookup.reply == Ok && p.writeSecret.reply != Ok)
    && (reason == KeyMissing <==> w.cr.status.keyID.Some? && p.list.reply == Ok && !StoredLive(w))
    && (reason == Synced <==> StoredLive(w) && p.list.reply == Ok && !Due(w))
    && (reason == RotateError <==> StoredLive(w) && p.list.reply == Ok && Due(w) && p.delete.reply == Failed)
    && (reason == APIError <==>
          (w.cr.status.keyID.Some? && p.list.reply != Ok) || (Asks(w, p) && !made))
  }

  lemma {:induction false} ReadyByCreate(w: World, st: Status, p: Plan)
    requires st.keyID.None? && !CreateCrashed(p) && p.writeStatus.effect && Truthful(p.create)
    ensures CreateAndPersist(w, st, p).cr.status.ready ==
            Some(if p.create.reply != Ok then Condition(false, APIError, w.cr.generation)
                 else if p.lookup.reply != Ok then Condition(false, LookupError, w.cr.generation)
                 else if p.writeSecret.reply != Ok then Condition(false, SecretWriteError, w.cr.generation)
                 else Condition(true, Created, w.cr.generation))
  {
    LookupFinds(w, p);
  }

  lemma {:induction false} ReadyByVerify(w: World, id: string, p: Plan)
    requires w.cr.status.keyID == Some(id) && Concludes(w, p) && Truthful(p.create) && !Asks(w, p)
    ensures VerifyOrRotate(w, w.cr.status, id, p).cr.status.ready ==
            Some(if p.list.reply != Ok then Condition(false, APIError, w.cr.generation)
                 else if !StoredLive(w) then Condition(false, KeyMissing, w.cr.generation)
                 else if !Due(w) then Condition(true, Synced, w.cr.generation)
                 else Condition(false, RotateError, w.cr.generation))
  {
  }

  /** Ready says, for the current generation, exactly how a concluding reconcile went. */
  lemma {:induction false} ReportedExact(w: World, p: Plan)
    requires Coherent(w) && Legal(w, Reconcile(p)) && Concludes(w, p)
    ensures var ready := Reconciled(w, p).cr.status.ready;
            && ready.Some? && ready.value.observedGeneration == w.cr.generation
            && (ready.value.status <==> ready.value.reason in {Created, Synced})
            && ReasonGiven(w, p, ready.value.reason)
  {
    match w.cr.status.keyID
    case None => ReadyByCreate(w, w.cr.status, p); ReadyByCreate(AddFinalizer(w, p), w.cr.status, p);
    case Some(id) =>
      if Asks(w, p) { ReadyByCreate(DeleteKey(w, id, p), Status(None, None, w.cr.status.ready), p); }
      else { ReadyByVerify(w, id, p); }
  }

  // ---------- the stored prefix ----------

  /** A prefix is stored with the id, and it is that of the stored key. */
  predicate PrefixKept(w: World) {
    && (w.cr.status.keyID.None? <==> w.cr.status.prefix.None?)
    && forall k :: k in w.server.keys && w.cr.status.keyID == Some(k.id) ==> w.cr.status.prefix == Some(k.prefix)
  }

  lemma {:induction false} PrefixAfterCreate(w: World, st: Status, p: Plan)
    requires Coherent(w) && PrefixKept(w) && FreshKey(w.server, p.id, p.plaintext) && Truthful(p.create)
    requires st.keyID.None? && st.prefix.None?
    ensures PrefixKept(CreateAndPersist(w, st, p))
  {
    var r, k := CreateAndPersist(w, st, p), FoundKey(w, p);
    CreateOutcome(w, st, p);
    LookupFinds(w, p);
    FirstByPrefixFinds(w.server.keys, Prefix(p.plaintext));
    assert forall o :: o in Mint(w, p).server.keys ==> o in w.server.keys || o == NewKey(w.cr, p);
    if p.create.reply == Ok && r.cr.status.keyID == Some(k.id) {
      forall o | o in r.server.keys && o.id == k.id ensures o == k {
        if o in w.server.keys && k in w.server.keys { OneOfEach(w, o, k); }
      }
    }
  }

  lemma {:induction false} PrefixAfterVerify(w: World, id: string, p: Plan)
    requires Coherent(w) && PrefixKept(w) && Legal(w, Reconcile(p)) && w.cr.status.keyID == Some(id)
    ensures PrefixKept(VerifyOrRotate(w, w.cr.status, id, p))
  {
    WithoutKeeps(w.server.keys, id);
    CoherentAfterDelete(w.server, w.cr.generation, w.cr.spec, id);
    if p.list.reply == Ok && Live(w.server.keys, id) && NeedsRotation(w.cr.generation, w.cr.status)
       && (p.delete.reply == Ok || p.delete.reply == NotFound) {
      PrefixAfterCreate(DeleteKey(w, id, p), Status(None, None, w.cr.status.ready), p);
    }
  }

  lemma {:induction false} PrefixStep(w: World, e: Event)
    requires Coherent(w) && PrefixKept(w) && Legal(w, e)
    ensures PrefixKept(Step(w, e))
  {
    match e
    case Reconcile(p) =>
      if w.cr.present && p.get.reply == Ok {
        if w.cr.deleting {
          DeletionOutcome(w, p);
          if w.cr.status.keyID.Some? { WithoutKeeps(w.server.keys, w.cr.status.keyID.value); }
        } else {
          match w.cr.status.keyID
          case None => PrefixAfterCreate(w, w.cr.status, p); PrefixAfterCreate(AddFinalizer(w, p), w.cr.status, p);
          case Some(id) => PrefixAfterVerify(w, id, p);
        }
      }
    case DeleteRemotely(id) => WithoutKeeps(w.server.keys, id);
    case CreateRemotely(key) =>
      assert forall k :: k in Step(w, e).server.keys ==> k in w.server.keys || k == key;
    case _ =>
  }

  /** Over every run with any faults the status shows the prefix of the key whose id it stores. */
  lemma {:induction false} PrefixIsStoredKeys(w: World, events: seq<Event>)
    requires Initial(w) && LegalRun(w, events)
    ensures PrefixKept(Run(w, events))
  {
    if events != [] {
      var before := events[..|events| - 1];
      PrefixIsStoredKeys(w, before);
      CoherentRun(w, before);
      PrefixStep(Run(w, before), events[|events| - 1]);
    }
  }

  /**
   * The prefix is the first eight characters, so of keys spelled "ocidex_" and base64 text it shows one character of
   * the text: there are no more prefixes than characters of the base64 alphabet.
   */
  lemma {:induction false} PrefixShowsOneCharacter(c: char, rest: string, s: string)
    ensures Prefix("ocidex_" + [c] + rest) == "ocidex_" + [c]
    ensures Prefix(s) <= s && |Prefix(s)| == if |s| < 8 then |s| else 8
  {
    assert ("ocidex_" + [c] + rest)[..8] == "ocidex_" + [c];
  }

  // ---------- the finalizer ----------

  /** A wanted object gets its finalizer exactly if writing it took effect, and nothing else is touched before. */
  lemma {:induction false} FinalizerExact(w: World, p: Plan)
    requires Coherent(w) && Legal(w, Reconcile(p)) && Wanted(w) && p.get.reply == Ok
    ensures var r := Reconciled(w, p);
            && Wanted(r) && (r.cr.finalizer <==> w.cr.finalizer || p.addFinalizer.effect)
            && (!r.cr.finalizer ==> r == w)
  {
    DispatchKeepsWanted(w, p);
    DispatchKeepsWanted(AddFinalizer(w, p), p);
  }

  /** Nothing of the object but its status differs. */
  predicate StatusOnly(w: World, r: World) {
    r.cr == w.cr.(status := r.cr.status)
  }

  lemma {:induction false} RotateKeepsWanted(w: World, st: Status, id: string, p: Plan)
    ensures StatusOnly(w, Rotate(w, st, id, p))
  {
    CreateOutcome(DeleteKey(w, id, p), Status(None, None, st.ready), p);
  }

  lemma {:induction false} DispatchKeepsWanted(w: World, p: Plan)
    ensures StatusOnly(w, Dispatch(w, w.cr.status, p))
  {
    match w.cr.status.keyID
    case None => CreateOutcome(w, w.cr.status, p);
    case Some(id) => RotateKeepsWanted(w, w.cr.status, id, p);
  }

  // ---------- deletion ----------

  /**
   * An object under deletion goes exactly when its key's delete did not fail, its Secret, if it was read, is gone, and
   * the finalizer could be removed; a failed delete is reported.
   */
  lemma {:induction false} DisappearsExact(w: World, p: Plan)
    requires w.cr.present && w.cr.deleting && w.cr.finalizer
    ensures !Reconciled(w, p).cr.present <==>
            && p.get.reply == Ok && p.removeFinalizer.effect
            && (w.cr.status.keyID.None? || p.delete.reply == Ok || p.delete.reply == NotFound)
            && p.getSecret.reply != Crashed
            && (p.getSecret.reply == Ok && w.cr.spec.secretName in w.secrets ==>
                  p.deleteSecret.reply == Ok || p.deleteSecret.reply == NotFound)
    ensures !Reconciled(w, p).cr.present <==> !Reconciled(w, p).cr.finalizer
    ensures p.get.reply == Ok && w.cr.status.keyID.Some? && p.delete.reply == Failed && p.writeStatus.effect ==>
              Reconciled(w, p).cr.status == w.cr.status.(ready := Some(Condition(false, DeleteError, w.cr.generation)))
  {
  }

  /** A deletion that is asked for waits for the finalizer, and takes an object without one at once. */
  lemma {:induction false} DeletionWaits(w: World)
    requires w.cr.present
    ensures var r := Step(w, RequestDeletion);
            && r.server == w.server && r.secrets == w.secrets && r.cr.status == w.cr.status
            && (r.cr.present <==> w.cr.finalizer) && (w.cr.finalizer ==> r.cr.deleting && r.cr.finalizer)
  {
  }

  /** When nothing fails, the object, its key and its Secret are gone, and no other key or Secret is. */
  lemma {:induction false} DeletionCompletes(w: World, p: Plan)
    requires w.cr.present && w.cr.deleting && w.cr.finalizer
    requires p.get == p.delete == p.getSecret == p.deleteSecret == p.removeFinalizer == FINE
    ensures var r := Reconciled(w, p);
            && !r.cr.present && r.secrets == w.secrets - {w.cr.spec.secretName}
            && forall k :: k in r.server.keys <==> k in w.server.keys && w.cr.status.keyID != Some(k.id)
  {
    if w.cr.status.keyID.Some? { WithoutKeeps(w.server.keys, w.cr.status.keyID.value); }
  }
}
