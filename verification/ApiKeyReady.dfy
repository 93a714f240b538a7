/** When Ready=True at a generation means that the stored key was minted for that generation. */
module ApiKeyReady {
  import opened Kubernetes
  import opened Options
  import opened ApiKeyModel
  import opened ApiKeyProofs
  import opened ApiKeySecrets

  predicate MintedFor(k: Key, generation: nat) {
    k.origin.Operator? && k.origin.generation == generation
  }

  predicate ReadyIsTrue(st: Status) {
    st.ready.Some? && st.ready.value.status
  }

  /** If Ready is True at a generation, the stored live key was minted for that generation. */
  predicate ReadyMatches(w: World) {
    forall k :: k in w.server.keys && w.cr.status.keyID == Some(k.id) && ReadyIsTrue(w.cr.status) ==>
      MintedFor(k, w.cr.status.ready.value.observedGeneration)
  }

  /** The stored live key is older than the spec, and the stored Ready is not True: the rotation guard cannot see it. */
  predicate Masked(w: World) {
    exists k :: k in w.server.keys && w.cr.status.keyID == Some(k.id)
      && !ReadyIsTrue(w.cr.status) && !MintedFor(k, w.cr.generation)
  }

  /** This reconcile gets as far as a verdict on the stored key and stores it. */
  predicate Judges(w: World, p: Plan) {
    w.cr.present && !w.cr.deleting && p.get.reply == Ok && p.list.reply == Ok && p.writeStatus.effect
  }

  /** The create path gets to store the key its lookup finds, as ready. */
  predicate StoresFound(p: Plan) {
    p.create.reply == Ok && p.lookup.reply == Ok && p.writeSecret.reply == Ok && p.writeStatus.effect
  }

  /** The lookup after a create would find one of these keys, minted for no generation or another one. */
  predicate Outdated(keys: seq<Key>, generation: nat, p: Plan) {
    var found := FirstByPrefix(keys, Prefix(p.plaintext));
    found.Some? && !MintedFor(found.value, generation)
  }

  /** The lookup finds an older key of the same prefix, not minted for this generation, and it is stored as ready. */
  predicate FindsOutdated(w: World, p: Plan) {
    Creates(w, p) && StoresFound(p) && Outdated(KeysAtCreate(w, p), w.cr.generation, p)
  }

  lemma {:induction false} NewPrefixIsCurrent(w: World, p: Plan)
    requires Unambiguous(w, p) && Truthful(p.create)
    ensures !FindsOutdated(w, p)
  {
    FirstByPrefixFinds(KeysAtCreate(w, p), Prefix(p.plaintext));
  }

  /** The key a successful create path stores, as ready for this generation, decides. */
  lemma {:induction false} ReadyAfterStore(w: World, st: Status, p: Plan)
    requires Coherent(w) && FreshKey(w.server, p.id, p.plaintext) && Truthful(p.create) && st.keyID.None?
    requires StoresFound(p)
    ensures ReadyMatches(CreateAndPersist(w, st, p)) <==> !Outdated(w.server.keys, w.cr.generation, p)
  {
    var r, k := CreateAndPersist(w, st, p), FoundKey(w, p);
    LookupFinds(w, p);
    FirstByPrefixFinds(w.server.keys, Prefix(p.plaintext));
    assert r.server.keys[|w.server.keys|] == NewKey(w.cr, p);
    assert k in r.server.keys && r.cr.status.keyID == Some(k.id);
    forall o | o in r.server.keys && o.id == k.id ensures o == k {
      if o in w.server.keys && k in w.server.keys { OneOfEach(w, o, k); }
    }
    assert ReadyMatches(r) <==> MintedFor(k, w.cr.generation);
  }

  lemma {:induction false} ReadyAfterCreate(w: World, st: Status, p: Plan)
    requires Coherent(w) && FreshKey(w.server, p.id, p.plaintext) && Truthful(p.create) && st.keyID.None?
    requires w.cr.status.keyID.Some? ==> !Live(w.server.keys, w.cr.status.keyID.value) || ReadyMatches(w)
    ensures ReadyMatches(CreateAndPersist(w, st, p)) <==>
            !(StoresFound(p) && Outdated(w.server.keys, w.cr.generation, p))
  {
    if StoresFound(p) {
      ReadyAfterStore(w, st, p);
    } else {
      UnstoredIsReady(w, st, p);
    }
  }

  lemma {:induction false} UnstoredIsReady(w: World, st: Status, p: Plan)
    requires Coherent(w) && FreshKey(w.server, p.id, p.plaintext) && st.keyID.None? && !StoresFound(p)
    requires w.cr.status.keyID.Some? ==> !Live(w.server.keys, w.cr.status.keyID.value) || ReadyMatches(w)
    ensures ReadyMatches(CreateAndPersist(w, st, p))
  {
    UnstoredStatus(w, st, p);
    CreateOutcome(w, st, p);
    assert forall k :: k in Mint(w, p).server.keys ==> k in w.server.keys || k == NewKey(w.cr, p);
  }

  lemma {:induction false} UnwrittenStatus(w: World, st: Status, k: Key, p: Plan)
    requires st.keyID.None? && !(p.writeSecret.reply == Ok && p.writeStatus.effect)
    ensures var r := WriteAndPersist(w, st, k, p); r.cr.status == w.cr.status || r.cr.status.keyID.None?
  {
  }

  lemma {:induction false} UnstoredStatus(w: World, st: Status, p: Plan)
    requires st.keyID.None? && !StoresFound(p)
    ensures var r := CreateAndPersist(w, st, p); r.cr.status == w.cr.status || r.cr.status.keyID.None?
  {
    var w1 := if p.create.effect then Mint(w, p) else w;
    var found := FirstByPrefix(w1.server.keys, Prefix(p.plaintext));
    if p.create.reply == Ok && p.lookup.reply == Ok && found.Some? { UnwrittenStatus(w1, st, found.value, p); }
  }

  lemma {:induction false} ReadyAfterRotate(w: World, st: Status, id: string, p: Plan)
    requires Coherent(w) && ReadyMatches(w) && FreshKey(w.server, p.id, p.plaintext)
    requires Truthful(p.create) && st.keyID == Some(id) == w.cr.status.keyID
    ensures ReadyMatches(Rotate(w, st, id, p)) <==>
            !(&& (p.delete.reply == Ok || p.delete.reply == NotFound) && StoresFound(p)
              && Outdated(KeysAtCreate(w, p), w.cr.generation, p))
  {
    WithoutKeeps(w.server.keys, id);
    CoherentAfterDelete(w.server, w.cr.generation, w.cr.spec, id);
    if p.delete.reply.Ok? || p.delete.reply.NotFound? {
      ReadyAfterCreate(DeleteKey(w, id, p), Status(None, None, st.ready), p);
    }
  }

  lemma {:induction false} ReadyAfterDeletion(w: World, p: Plan)
    requires Coherent(w) && ReadyMatches(w)
    ensures ReadyMatches(HandleDeletion(w, w.cr.status, p))
  {
    DeletionOutcome(w, p);
    if w.cr.status.keyID.Some? {
      WithoutKeeps(w.server.keys, w.cr.status.keyID.value);
    }
  }

  lemma {:induction false} ReadyAfterVerify(w: World, id: string, p: Plan)
    requires Coherent(w) && ReadyMatches(w) && Legal(w, Reconcile(p)) && w.cr.status.keyID == Some(id)
    requires w.cr.present && !w.cr.deleting && p.get.reply == Ok
    ensures ReadyMatches(VerifyOrRotate(w, w.cr.status, id, p)) <==>
            !(Masked(w) && Judges(w, p)) && !FindsOutdated(w, p)
  {
    var r := VerifyOrRotate(w, w.cr.status, id, p);
    if p.list.reply == Ok && Live(w.server.keys, id) {
      if NeedsRotation(w.cr.generation, w.cr.status) {
        ReadyAfterRotate(w, w.cr.status, id, p);
      } else {
        var k :| k in w.server.keys && k.id == id;
        forall o | o in w.server.keys && o.id == id ensures o == k { OneOfEach(w, k, o); }
      }
    }
  }

  /**
   * From any coherent world where Ready can be believed, one reconcile breaks that exactly when it started masked and
   * stored its verdict, or stored as ready an older key that has the new one's prefix. In the first case it reports
   * Synced at the current generation over a key of an older one; a new prefix leaves that case alone.
   */
  lemma {:induction false} ReadyExact(w: World, p: Plan)
    requires Coherent(w) && ReadyMatches(w) && Legal(w, Reconcile(p))
    ensures ReadyMatches(Reconciled(w, p)) <==> !(Masked(w) && Judges(w, p)) && !FindsOutdated(w, p)
    ensures Unambiguous(w, p) ==> (ReadyMatches(Reconciled(w, p)) <==> !(Masked(w) && Judges(w, p)))
  {
    if Unambiguous(w, p) { NewPrefixIsCurrent(w, p); }
    if !w.cr.present || p.get.reply != Ok {
    } else if w.cr.deleting {
      ReadyAfterDeletion(w, p);
    } else {
      match w.cr.status.keyID
      case None =>
        ReadyAfterCreate(w, w.cr.status, p);
        ReadyAfterCreate(AddFinalizer(w, p), w.cr.status, p);
      case Some(id) => ReadyAfterVerify(w, id, p);
    }
  }

  // ---------- over whole runs ----------

  /** Ready can be believed after every event of the run. */
  predicate AlwaysReadyMatches(w: World, events: seq<Event>) {
    ReadyMatches(Run(w, events)) && (events == [] || AlwaysReadyMatches(w, events[..|events| - 1]))
  }

  /** No reconcile of the run starts masked and stores its verdict. */
  predicate NeverJudgesMasked(w: World, events: seq<Event>) {
    events == [] ||
    var before, e := events[..|events| - 1], events[|events| - 1];
    NeverJudgesMasked(w, before) && (e.Reconcile? ==> !(Masked(Run(w, before)) && Judges(Run(w, before), e.plan)))
  }

  predicate NeverFindsOutdated(w: World, events: seq<Event>) {
    events == [] ||
    var before, e := events[..|events| - 1], events[|events| - 1];
    NeverFindsOutdated(w, before) && (e.Reconcile? ==> !FindsOutdated(Run(w, before), e.plan))
  }

  lemma {:induction false} OtherEventsReady(w: World, e: Event)
    requires Coherent(w) && ReadyMatches(w) && Legal(w, e) && !e.Reconcile?
    ensures ReadyMatches(Step(w, e))
  {
    match e
    case DeleteRemotely(id) => WithoutKeeps(w.server.keys, id);
    case CreateRemotely(key) =>
      assert forall k :: k in Step(w, e).server.keys ==> k in w.server.keys || k == key;
    case _ =>
  }

  /**
   * Over every run with any failed calls, crashes and lost status writes: Ready=True at a generation means all along
   * that the stored live key was minted for it exactly when no reconcile that starts masked stores its verdict, and
   * none stores an outdated key that has the new one's prefix.
   */
  lemma {:induction false} ReadyAlwaysExact(w: World, events: seq<Event>)
    requires Initial(w) && LegalRun(w, events)
    ensures AlwaysReadyMatches(w, events) <==> NeverJudgesMasked(w, events) && NeverFindsOutdated(w, events)
  {
    if events != [] {
      var before, e := events[..|events| - 1], events[|events| - 1];
      ReadyAlwaysExact(w, before);
      if AlwaysReadyMatches(w, before) {
        assert ReadyMatches(Run(w, before));
        CoherentRun(w, before);
        if e.Reconcile? { ReadyExact(Run(w, before), e.plan); } else { OtherEventsReady(Run(w, before), e); }
      }
    }
  }

  /** Where Ready can be believed, Ready=True at the current generation vouches for the current spec. */
  lemma {:induction false} ReadyMeansCurrentSpec(w: World, events: seq<Event>)
    requires Initial(w) && LegalRun(w, events) && NeverJudgesMasked(w, events) && NeverFindsOutdated(w, events)
    ensures var r := Run(w, events);
            ReadyIsTrue(r.cr.status) && r.cr.status.ready.value.observedGeneration == r.cr.generation ==>
              forall k :: k in r.server.keys && r.cr.status.keyID == Some(k.id) ==> k.body == BodyOf(r.cr.spec)
  {
    ReadyAlwaysExact(w, events);
    CoherentRun(w, events);
    assert ReadyMatches(Run(w, events));
  }

  /**
   * A world becomes masked in two ways only: a list or delete error is recorded while a rotation is due, or the spec
   * changes while the stored Ready is not True.
   */
  lemma {:induction false} MaskedFrom(w: World, e: Event)
    requires Coherent(w) && ReadyMatches(w) && Legal(w, e) && !Masked(w) && Masked(Step(w, e))
    ensures match e
            case Reconcile(p) =>
              && NeedsRotation(w.cr.generation, w.cr.status) && p.writeStatus.effect
              && (p.list.reply != Ok || p.delete.reply == Failed)
            case ChangeSpec(_) => !ReadyIsTrue(w.cr.status)
            case _ => false
  {
    match e
    case Reconcile(p) =>
      if w.cr.present && !w.cr.deleting && p.get.reply == Ok {
        match w.cr.status.keyID
        case None => NotMaskedAfterCreate(w, p); NotMaskedAfterCreate(AddFinalizer(w, p), p);
        case Some(id) => MaskedAfterVerify(w, id, p);
      } else {
        MaskedAfterDeletion(w, p);
      }
    case DeleteRemotely(id) => WithoutKeeps(w.server.keys, id);
    case _ =>
  }

  lemma {:induction false} NotMaskedAfterCreate(w: World, p: Plan)
    requires Coherent(w) && w.cr.status.keyID.None?
    ensures !Masked(CreateAndPersist(w, w.cr.status, p))
  {
    CreateOutcome(w, w.cr.status, p);
  }

  lemma {:induction false} MaskedAfterDeletion(w: World, p: Plan)
    requires Coherent(w) && ReadyMatches(w) && !Masked(w)
    ensures Masked(HandleDeletion(w, w.cr.status, p)) ==>
              NeedsRotation(w.cr.generation, w.cr.status) && p.writeStatus.effect && p.delete.reply == Failed
  {
    DeletionOutcome(w, p);
    if w.cr.status.keyID.Some? {
      WithoutKeeps(w.server.keys, w.cr.status.keyID.value);
    }
  }

  lemma {:induction false} MaskedAfterRotate(w: World, id: string, p: Plan)
    requires Coherent(w) && Legal(w, Reconcile(p)) && w.cr.status.keyID == Some(id)
    requires NeedsRotation(w.cr.generation, w.cr.status) && Masked(Rotate(w, w.cr.status, id, p))
    ensures p.writeStatus.effect && p.delete.reply == Failed
  {
    WithoutKeeps(w.server.keys, id);
    if p.delete.reply != Failed {
      CreateOutcome(DeleteKey(w, id, p), Status(None, None, w.cr.status.ready), p);
    }
  }

  lemma {:induction false} MaskedAfterVerify(w: World, id: string, p: Plan)
    requires Coherent(w) && ReadyMatches(w) && Legal(w, Reconcile(p)) && !Masked(w)
    requires w.cr.status.keyID == Some(id) && Masked(VerifyOrRotate(w, w.cr.status, id, p))
    ensures NeedsRotation(w.cr.generation, w.cr.status) && p.writeStatus.effect
    ensures p.list.reply != Ok || p.delete.reply == Failed
  {
    if Live(w.server.keys, id) && NeedsRotation(w.cr.generation, w.cr.status) && p.list.reply == Ok {
      MaskedAfterRotate(w, id, p);
    }
  }

  // ---------- one recorded error hides a spec change ----------

  function FinePlan(id: string, plaintext: string): Plan {
    Plan(FINE, FINE, FINE, FINE, FINE, FINE, FINE, FINE, FINE, FINE, FINE, FINE, id, plaintext)
  }

  lemma {:induction false} RunSnoc(w: World, events: seq<Event>, e: Event)
    ensures Run(w, events + [e]) == Step(Run(w, events), e)
  {
    assert (events + [e])[..|events|] == events;
  }

  /** A first reconcile in which every call succeeds stores the new key, ready for the current generation. */
  lemma {:induction false} FirstReconcile(w: World, p: Plan)
    requires Initial(w) && FreshKey(w.server, p.id, p.plaintext) && NewPrefix(w.server.keys, p)
    requires p == FinePlan(p.id, p.plaintext)
    ensures var r := Reconciled(w, p);
            && r.cr == w.cr.(finalizer := true, status :=
                 Status(Some(p.id), Some(Prefix(p.plaintext)), Some(Condition(true, Created, w.cr.generation))))
            && NewKey(w.cr, p) in r.server.keys
  {
    LookupFindsNewest(w.server.keys, NewKey(w.cr, p));
    assert NewKey(w.cr, p) == Reconciled(w, p).server.keys[|w.server.keys|];
  }

  /**
   * One failed ListAPIKeys is enough, on either side of the spec change: the error stamps Ready=False, and the next
   * reconcile, in which nothing fails, reports Synced at the new generation with the old key still stored and live.
   */
  lemma {:induction false} ErrorHidesSpecChange(w: World, p: Plan, spec: Spec, errorFirst: bool)
    requires Initial(w) && FreshKey(w.server, p.id, p.plaintext) && NewPrefix(w.server.keys, p)
    requires p == FinePlan(p.id, p.plaintext)
    ensures var failing := Reconcile(p.(list := Call(false, Failed)));
            var change := ChangeSpec(spec);
            var middle := if errorFirst then [failing, change] else [change, failing];
            var r := Run(w, [Reconcile(p)] + middle + [Reconcile(p)]);
            && r.cr.spec == spec && r.cr.generation == w.cr.generation + 1
            && r.cr.status.ready == Some(Condition(true, Synced, w.cr.generation + 1))
            && NewKey(w.cr, p) in r.server.keys && r.cr.status.keyID == Some(NewKey(w.cr, p).id)
            && !ReadyMatches(r)
  {
    var failing := Reconcile(p.(list := Call(false, Failed)));
    var change := ChangeSpec(spec);
    var a, b := if errorFirst then failing else change, if errorFirst then change else failing;
    FirstReconcile(w, p);
    var w1 := Reconciled(w, p);
    assert [Reconcile(p)] == [] + [Reconcile(p)];
    RunSnoc(w, [], Reconcile(p));
    RunSnoc(w, [Reconcile(p)], a);
    RunSnoc(w, [Reconcile(p)] + [a], b);
    RunSnoc(w, [Reconcile(p)] + [a] + [b], Reconcile(p));
    var middle := if errorFirst then [failing, change] else [change, failing];
    assert [Reconcile(p)] + middle + [Reconcile(p)] == [Reconcile(p)] + [a] + [b] + [Reconcile(p)];
    assert Live(w1.server.keys, p.id);
  }
}
