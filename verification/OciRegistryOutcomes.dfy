/** What Ready=True means, what a deletion takes away, and how an OCIRegistry object comes to be stuck. */
module OciRegistryOutcomes {
  import opened Kubernetes
  import opened Options
  import opened OciRegistryModel
  import opened RegistrySettings
  import opened OciRegistryServer
  import opened OciRegistryProofs

  // ---------- what Ready=True means ----------

  /** From an empty stored id: no call this pass reaches crashes. */
  predicate CreateSurvives(w: World, p: Plan) {
    && p.create.reply != Crashed
    && (p.create.reply == Ok ==> if NameTaken(w) then p.getByName.reply != Crashed else p.preview.reply != Crashed)
  }

  /** From a stored id: no call this pass reaches crashes. */
  predicate CheckSurvives(w: World, id: string, p: Plan) {
    && p.getRegistry.reply != Crashed
    && (p.getRegistry.reply == Ok && FindByID(w.server.registries, id).Some? ==>
          && p.update.reply != Crashed
          && (p.update.reply == Ok && UpdateAccepted(w, id) ==> p.preview.reply != Crashed))
  }

  /** The pass lives to its status write, and the write lands. */
  predicate Concludes(w: World, p: Plan) {
    && p.get.reply == Ok && (w.cr.finalizer || (p.addFinalizer.reply == Ok && p.refetch.reply == Ok))
    && (w.cr.spec.authSecret.Some? ==> p.readSecret.reply != Crashed) && p.writeStatus.effect
    && match w.cr.status.registryID case None => CreateSurvives(w, p) case Some(id) => CheckSurvives(w, id, p)
  }

  /** The verdict of a pass is for the current generation, and a positive one is deserved or an adoption. */
  predicate Deserved(w: World, r: World) {
    && r.cr.status.ready.Some? && r.cr.status.ready.value.observedGeneration == w.cr.generation
    && (r.cr.status.ready.value.status ==>
          if r.cr.status.ready.value.reason == Adopted then r.server == w.server else InSync(r))
  }

  lemma {:induction false} DeservedAfterAdopt(w: World, p: Plan)
    requires NameTaken(w) && CreateSurvives(w, p) && p.writeStatus.effect && w.cr.status.registryID.None?
    ensures Deserved(w, CreateOrAdopt(w, w.cr.status, p))
  {
    CreateTouchesServer(w, p);
  }

  lemma {:induction false} DeservedAfterCreate(w: World, p: Plan)
    requires Coherent(w.server) && Legal(w, p) && w.cr.status.registryID.None? && !NameTaken(w)
    requires CreateSurvives(w, p) && p.writeStatus.effect
    ensures Deserved(w, CreateOrAdopt(w, w.cr.status, p))
  {
    var r := CreateOrAdopt(w, w.cr.status, p);
    CreateOutcome(w, w.cr.status, p);
    if p.create.reply == Ok { SyncAfterCreate(w, p, r); }
  }

  lemma {:induction false} DeservedAfterCheck(w: World, id: string, p: Plan)
    requires Coherent(w.server) && Legal(w, p) && w.cr.status.registryID == Some(id)
    requires CheckSurvives(w, id, p) && p.writeStatus.effect
    ensures Deserved(w, CheckAndUpdate(w, w.cr.status, id, p))
  {
    var r := CheckAndUpdate(w, w.cr.status, id, p);
    CheckOutcome(w, w.cr.status, id, p);
    UpdateTouchesServer(w, id, p);
    if p.getRegistry.reply == Ok && p.update.reply == Ok && UpdateAccepted(w, id) { SyncAfterUpdate(w, id, p, r); }
  }

  /**
   * A pass that concludes, the ordinary repeat pass included, stores a verdict on the current generation; Ready=True
   * then means that the registry is in sync, except after adopting: that pass sends nothing, and the registry stays as
   * whoever created it left it.
   */
  lemma {:induction false} ReadyMeansInSync(w: World, p: Plan)
    requires Coherent(w.server) && Legal(w, p) && w.cr.present && !w.cr.deleting && Concludes(w, p)
    ensures Deserved(w, Reconciled(w, p))
  {
    var w1 := Guarded(w);
    assert w.cr.finalizer ==> w1 == w;
    assert Reconciled(w, p) == Dispatch(w1, w1.cr.status, p);
    assert NameTaken(w1) == NameTaken(w);
    match w.cr.status.registryID
    case None => if NameTaken(w) { DeservedAfterAdopt(w1, p); } else { DeservedAfterCreate(w1, p); }
    case Some(id) =>
      ViewKept(w, w1, id);
      DeservedAfterCheck(w1, id, p);
  }

  /** The pass does what it is for: it creates, finds the registry to adopt, or updates the stored one. */
  predicate Serves(w: World, p: Plan) {
    && (w.cr.spec.authSecret.Some? ==> p.readSecret.reply == Ok && AuthReadable(w))
    && match w.cr.status.registryID
       case None =>
         && p.create.reply == Ok
         && (NameTaken(w) ==> p.getByName.reply == Ok && FindByName(w.server.registries, w.cr.spec.name).Some?)
       case Some(id) => p.getRegistry.reply == Ok && p.update.reply == Ok && UpdateAccepted(w, id)
  }

  /** Why a concluding pass says what it says. */
  predicate ReasonGiven(w: World, p: Plan, reason: Reason) {
    && (reason == SecretReadError <==>
          w.cr.spec.authSecret.Some? && (p.readSecret.reply != Ok || !AuthReadable(w)))
    && (reason == Synced <==> Serves(w, p) && w.cr.status.registryID.Some?)
    && (reason == Adopted <==> Serves(w, p) && w.cr.status.registryID.None? && NameTaken(w))
    && (reason == Created <==> Serves(w, p) && w.cr.status.registryID.None? && !NameTaken(w))
    && (reason == RegistryMissing <==>
          && reason != SecretReadError && w.cr.status.registryID.Some?
          && (p.getRegistry.reply == NotFound || (p.getRegistry.reply == Ok && !StoredLive(w))))
    && reason in {SecretReadError, Synced, Adopted, Created, RegistryMissing, APIError}
  }

  /** The status a concluding pass stores; the scan scope is previewed only after a create or an update. */
  predicate Reported(w: World, p: Plan, r: World) {
    && r.cr.status.ready.Some? && r.cr.status.ready.value.observedGeneration == w.cr.generation
    && (r.cr.status.ready.value.status <==> Serves(w, p)) && ReasonGiven(w, p, r.cr.status.ready.value.reason)
    && r.cr.status.scope ==
       if Serves(w, p) && r.cr.status.ready.value.reason != Adopted
       then Some(Scope(w.cr.generation, p.preview.reply != Ok)) else w.cr.status.scope
  }

  lemma {:induction false} StatusByCreate(w: World, p: Plan)
    requires w.cr.status.registryID.None? && CreateSurvives(w, p) && p.writeStatus.effect && !NameTaken(w)
    ensures var st, g := w.cr.status, w.cr.generation;
            CreateOrAdopt(w, st, p).cr.status ==
            if p.create.reply == Ok
            then SetReady(st.(registryID := Some(p.id), scope := Some(Scope(g, p.preview.reply != Ok))), true, Created,
                          g)
            else SetReady(st, false, APIError, g)
  {
    CreateTouchesServer(w, p);
  }

  lemma {:induction false} StatusByAdopt(w: World, p: Plan)
    requires w.cr.status.registryID.None? && CreateSurvives(w, p) && p.writeStatus.effect && NameTaken(w)
    ensures var st, g, o := w.cr.status, w.cr.generation, FindByName(w.server.registries, w.cr.spec.name);
            CreateOrAdopt(w, st, p).cr.status ==
            if p.create.reply == Ok && p.getByName.reply == Ok && o.Some?
            then SetReady(st.(registryID := Some(o.value.id)), true, Adopted, g)
            else SetReady(st, false, APIError, g)
  {
    CreateTouchesServer(w, p);
  }

  lemma {:induction false} ReportedByCreate(w: World, p: Plan)
    requires w.cr.status.registryID.None? && CreateSurvives(w, p) && p.writeStatus.effect
    requires w.cr.spec.authSecret.Some? ==> p.readSecret.reply == Ok && AuthReadable(w)
    ensures Reported(w, p, CreateOrAdopt(w, w.cr.status, p))
  {
    if NameTaken(w) { StatusByAdopt(w, p); } else { StatusByCreate(w, p); }
  }

  lemma {:induction false} StatusByCheck(w: World, id: string, p: Plan)
    requires w.cr.status.registryID == Some(id) && CheckSurvives(w, id, p) && p.writeStatus.effect
    ensures var st, g := w.cr.status, w.cr.generation;
            CheckAndUpdate(w, st, id, p).cr.status ==
            if GetFindsNone(w, id, p) then SetReady(st.(registryID := None), false, RegistryMissing, g)
            else if p.getRegistry.reply == Ok && p.update.reply == Ok && UpdateAccepted(w, id)
            then SetReady(st.(scope := Some(Scope(g, p.preview.reply != Ok))), true, Synced, g)
            else SetReady(st, false, APIError, g)
  {
    UpdateTouchesServer(w, id, p);
  }

  lemma {:induction false} ReportedByCheck(w: World, id: string, p: Plan)
    requires w.cr.status.registryID == Some(id) && CheckSurvives(w, id, p) && p.writeStatus.effect
    requires w.cr.spec.authSecret.Some? ==> p.readSecret.reply == Ok && AuthReadable(w)
    ensures Reported(w, p, CheckAndUpdate(w, w.cr.status, id, p))
  {
    StatusByCheck(w, id, p);
  }

  /** Ready, its reason and the scan scope say exactly how a concluding pass went. */
  lemma {:induction false} ReportedExact(w: World, p: Plan)
    requires Legal(w, p) && w.cr.present && !w.cr.deleting && Concludes(w, p)
    ensures Reported(w, p, Reconciled(w, p))
  {
    var w1 := Guarded(w);
    assert w.cr.finalizer ==> w1 == w;
    assert Reconciled(w, p) == Dispatch(w1, w1.cr.status, p);
    assert NameTaken(w1) == NameTaken(w) && StoredLive(w1) == StoredLive(w);
    if w.cr.status.registryID.Some? { ViewKept(w, w1, w.cr.status.registryID.value); }
    if w.cr.spec.authSecret.Some? ==> p.readSecret.reply == Ok && AuthReadable(w) {
      match w.cr.status.registryID
      case None => ReportedByCreate(w1, p);
      case Some(id) => ReportedByCheck(w1, id, p);
    }
  }

  /** Two error-free passes end at a live registry, or at a conflict with nothing to adopt. */
  predicate Arrived(w: World) {
    StoredLive(w) || (w.cr.status.registryID.None? && NameTaken(w)
                      && FindByName(w.server.registries, w.cr.spec.name).None?)
  }

  lemma {:induction false} ArrivesInTwo(w: World, p1: Plan, p2: Plan)
    requires Coherent(w.server) && Active(w) && ErrorFree(p1) && ErrorFree(p2)
    requires Legal(w, p1) && Legal(Reconciled(w, p1), p2)
    ensures Arrived(Reconciled(Reconciled(w, p1), p2))
  {
    Progress(w, p1);
    OnePass(w, p1);
    OnePass(Reconciled(w, p1), p2);
  }

  /** An error-free pass arrives, unless it clears a stale id. */
  lemma {:induction false} OnePass(w: World, p: Plan)
    requires Coherent(w.server) && Active(w) && ErrorFree(p) && Legal(w, p)
    ensures Arrived(Reconciled(w, p)) || (w.cr.status.registryID.Some? && Reconciled(w, p).cr.status.registryID.None?)
    ensures Arrived(w) ==> Arrived(Reconciled(w, p))
  {
    var r := Reconciled(w, p);
    StepOutcome(w, p);
    match w.cr.status.registryID
    case None =>
      if NameTaken(w) {
        AfreshKept(w, r);
        FindByNameFinds(w.server.registries, w.cr.spec.name);
        if r.cr.status.registryID.Some? { FindByIDFinds(w.server.registries, r.cr.status.registryID.value); }
      } else {
        CreatedIsAccepted(w, p);
      }
    case Some(id) => CoherentAfterUpdate(w, id, p);
  }

  /**
   * What three error-free passes leave, on every coherent world: the finalizer, and Ready=True, as synced on the
   * current generation with its scan scope, exactly when the registry is in sync.
   */
  lemma {:induction false} SettledInThree(w: World, p1: Plan, p2: Plan, p3: Plan)
    requires Coherent(w.server) && Active(w) && ErrorFree(p1) && ErrorFree(p2) && ErrorFree(p3)
    requires Legal(w, p1) && Legal(Reconciled(w, p1), p2) && Legal(Reconciled(Reconciled(w, p1), p2), p3)
    ensures var r := Reconciled(Reconciled(Reconciled(w, p1), p2), p3);
            && r.cr.finalizer && r.cr.spec == w.cr.spec && r.cr.generation == w.cr.generation
            && r.cr.status.ready ==
               Some(Condition(InSync(r), if InSync(r) then Synced else APIError, w.cr.generation))
            && (InSync(r) ==> r.cr.status.scope == Some(Scope(w.cr.generation, p3.preview.reply != Ok)))
  {
    var m := Reconciled(Reconciled(w, p1), p2);
    ArrivesInTwo(w, p1, p2);
    Progress(w, p1);
    Progress(Reconciled(w, p1), p2);
    CoherentStep(w, p1);
    CoherentStep(Reconciled(w, p1), p2);
    LastPass(m, p3);
  }

  lemma {:induction false} LastPass(w: World, p: Plan)
    requires Coherent(w.server) && Active(w) && ErrorFree(p) && Legal(w, p) && Arrived(w)
    ensures var r := Reconciled(w, p);
            && r.cr.finalizer && Kept(w, r)
            && r.cr.status.ready ==
               Some(Condition(InSync(r), if InSync(r) then Synced else APIError, w.cr.generation))
            && (InSync(r) ==> r.cr.status.scope == Some(Scope(w.cr.generation, p.preview.reply != Ok)))
  {
    var r := Reconciled(w, p);
    CoherentStep(w, p);
    StuckStep(w, p);
    ReportedExact(w, p);
    FinalizerStays(w, p);
    if InSync(r) { InSyncIsNotStuck(r); }
    if StoredLive(w) && UpdateAccepted(w, w.cr.status.registryID.value) {
      SyncAfterUpdate(w, w.cr.status.registryID.value, p, r);
    }
  }

  /** No registry call is made before the finalizer is on the object. */
  lemma {:induction false} FinalizerStays(w: World, p: Plan)
    requires Legal(w, p) && !w.cr.deleting
    ensures Reaches(w, p) || w.cr.finalizer ==> Reconciled(w, p).cr.finalizer
    ensures Reconciled(w, p).server != w.server ==> Reconciled(w, p).cr.finalizer
    ensures w.cr.present && p.get.reply == Ok ==>
              (Reconciled(w, p).cr.finalizer <==> w.cr.finalizer || p.addFinalizer.effect)
  {
    StepOutcome(w, p);
    if Reaches(w, p) || w.cr.finalizer {
      if w.cr.present && p.get.reply == Ok { DispatchKeepsFinalizer(Guarded(w), p); }
      assert w.cr.finalizer ==> Guarded(w) == w;
    }
  }

  lemma {:induction false} DispatchKeepsFinalizer(w: World, p: Plan)
    ensures Dispatch(w, w.cr.status, p).cr.finalizer == w.cr.finalizer
  {
    match w.cr.status.registryID
    case None => CreateOutcome(w, w.cr.status, p);
    case Some(id) => CheckOutcome(w, w.cr.status, id, p);
  }

  // ---------- deletion ----------

  lemma {:induction false} WithoutIDKeeps(rs: seq<Registry>, id: string)
    ensures forall r :: r in WithoutID(rs, id) <==> r in rs && r.id != id
  {
    if rs != [] { WithoutIDKeeps(rs[1..], id); }
  }

  /** The stored registry is live, and deleting it would be answered with NotFound. */
  predicate MissesLive(w: World, p: Plan) {
    p.delete == Call(false, NotFound) && StoredLive(w)
  }

  lemma {:induction false} DeletionServer(w: World, p: Plan)
    requires Legal(w, p) && w.cr.deleting && w.cr.present && !Reconciled(w, p).cr.present
    ensures Reconciled(w, p).server.registries ==
            if w.cr.status.registryID.Some? && p.delete.effect
            then WithoutID(w.server.registries, w.cr.status.registryID.value) else w.server.registries
    ensures w.cr.status.registryID.Some? ==> p.delete.effect || p.delete == Call(false, NotFound)
  {
  }

  /**
   * An object that disappears takes the stored registry with it and no other, exactly unless that live registry was
   * reported missing; a registry whose id was never stored, left by a lost status write, outlives the object.
   */
  lemma {:induction false} DeletionRemovesStored(w: World, p: Plan)
    requires Legal(w, p) && w.cr.deleting && w.cr.present && !Reconciled(w, p).cr.present
    ensures (forall r :: r in Reconciled(w, p).server.registries <==>
                         r in w.server.registries && w.cr.status.registryID != Some(r.id))
            <==> !MissesLive(w, p)
  {
    DeletionServer(w, p);
    if w.cr.status.registryID.Some? {
      WithoutIDKeeps(w.server.registries, w.cr.status.registryID.value);
      FindByIDFinds(w.server.registries, w.cr.status.registryID.value);
    }
  }

  /** The object goes exactly when nothing is stored or the delete did not fail, and the finalizer could be removed. */
  lemma {:induction false} DisappearsExact(w: World, p: Plan)
    requires w.cr.present && w.cr.deleting && w.cr.finalizer
    ensures !Reconciled(w, p).cr.present <==>
            && p.get.reply == Ok && p.removeFinalizer.effect
            && (w.cr.status.registryID.None? || p.delete.reply == Ok || p.delete.reply == NotFound)
    ensures !Reconciled(w, p).cr.present <==> !Reconciled(w, p).cr.finalizer
    ensures p.get.reply == Ok && w.cr.status.registryID.Some? && p.delete.reply == Failed && p.writeStatus.effect ==>
              Reconciled(w, p).cr.status == w.cr.status.(ready := Some(Condition(false, DeleteError, w.cr.generation)))
  {
  }

  // ---------- adoption ----------

  lemma {:induction false} OldestIsFirst(rs: seq<Registry>, k: nat)
    requires k < |rs|
    ensures FindByName(rs, rs[k].name).Some?
    ensures (forall i :: 0 <= i < k ==> rs[i].name != rs[k].name) ==> FindByName(rs, rs[k].name) == Some(rs[k])
    ensures (forall i, j :: 0 <= i < j < |rs| ==> rs[i].id != rs[j].id) ==>
              forall i :: 0 <= i < k && rs[i].name == rs[k].name ==> FindByName(rs, rs[k].name) != Some(rs[k])
  {
    if rs[0].name != rs[k].name {
      assert rs[1..][k - 1] == rs[k];
      OldestIsFirst(rs[1..], k - 1);
    }
  }

  /**
   * When a registry of the wanted name makes the create conflict, an error-free pass stores its id exactly when no
   * other namespace has an older one of that name.
   */
  lemma {:induction false} AdoptsRightExact(w: World, p: Plan, k: nat)
    requires Coherent(w.server) && Legal(w, p) && ErrorFree(p) && Active(w) && w.cr.status.registryID.None?
    requires k < |w.server.registries| && w.server.registries[k].name == w.cr.spec.name
    requires var ns := NamespaceNamed(w.server.namespaces, NamespaceOf(w.cr));
             ns.Some? && w.server.registries[k].namespace == ns.value.id
    ensures Reconciled(w, p).cr.status.registryID == Some(w.server.registries[k].id)
            <==> forall i :: 0 <= i < k ==> w.server.registries[i].name != w.cr.spec.name
  {
    var rs := w.server.registries;
    assert rs[k] in rs;
    StepOutcome(w, p);
    OldestIsFirst(rs, k);
    FindByNameFinds(rs, w.cr.spec.name);
    if FindByName(rs, w.cr.spec.name).value.id == rs[k].id {
      UniqueName(w.server, FindByName(rs, w.cr.spec.name).value, rs[k]);
    }
  }

  // ---------- how an object comes to be stuck ----------

  /** The registry has a namespace of its own called something else, and another one is called by the wanted name. */
  predicate OwnClash(w: World, id: string) {
    && Owns(w.server, id)
    && (exists ns :: ns in w.server.namespaces && ns.name == w.cr.spec.name && ns.id != id)
  }

  /** After a write, a namespace of this name is the one there was, if there is any. */
  lemma {:induction false} PlaceAfterWrite(s: Server, r: Registry, body: Body, place: Namespace)
    requires Coherent(s) && WriteAccepted(s, r, body.name) && place in s.namespaces
    ensures var after := NamespaceNamed(Written(s, r, body).namespaces, place.name);
            after.Some? ==> after.value.id == place.id
  {
    var us := RenameNamespace(s.namespaces, r.id, body.name);
    RenameAt(s.namespaces, r.id, body.name);
    NamespaceNamedFinds(us, place.name);
    if NamespaceNamed(us, place.name).Some? {
      var i :| 0 <= i < |us| && us[i] == NamespaceNamed(us, place.name).value;
      assert s.namespaces[i] in s.namespaces;
      if s.namespaces[i].id != r.id { UniqueNamespace(s, s.namespaces[i], place); }
    }
  }

  lemma {:induction false} OthersStay(s: Server, o: Registry, body: Body, holder: Registry)
    requires holder in s.registries && o.id != holder.id
    ensures holder in Written(s, o, body).registries
  {
    ReplaceAt(s.registries, Told(o, body));
    var k :| 0 <= k < |s.registries| && s.registries[k] == holder;
    assert Written(s, o, body).registries[k] == holder;
  }

  /** A registry cannot be moved to where another one has its name. */
  lemma {:induction false} MoveIsRefused(w: World, o: Registry, holder: Registry)
    requires Coherent(w.server) && holder in w.server.registries && o.id != holder.id
    requires FindByID(w.server.registries, o.id) == Some(o) && holder.name == w.cr.spec.name
    requires w.cr.spec.namespace != "" && InPlace(w, holder)
    ensures !UpdateAccepted(w, o.id)
  {
    var body := UpdateBody(w.cr, AuthOf(w));
    if WriteAccepted(w.server, o, body.name) {
      NamespaceNamedFinds(w.server.namespaces, w.cr.spec.namespace);
      PlaceAfterWrite(w.server, o, body, Namespace(holder.namespace, w.cr.spec.namespace));
      OthersStay(w.server, o, body, holder);
    }
  }

  lemma {:induction false} HolderIsWritten(w: World, o: Registry)
    requires Coherent(w.server) && o in w.server.registries && o.name == w.cr.spec.name
    ensures WriteAccepted(w.server, o, o.name) <==> !OwnClash(w, o.id)
  {
    forall x | x in w.server.registries && x.namespace == o.namespace && x.name == o.name ensures x.id == o.id {
      UniqueName(w.server, x, o);
    }
  }

  /** Without an explicit namespace a registry that has the name takes the update, save for its own namespace. */
  lemma {:induction false} StayIsAccepted(w: World, o: Registry)
    requires Coherent(w.server) && o in w.server.registries && FindByID(w.server.registries, o.id) == Some(o)
    requires o.name == w.cr.spec.name && w.cr.spec.namespace == ""
    ensures UpdateAccepted(w, o.id) <==> !OwnClash(w, o.id)
  {
    HolderIsWritten(w, o);
  }

  /**
   * A registry that was created but whose id was not stored leaves the object stuck exactly when there is an older
   * registry of the name and the spec names its namespace, or that older one cannot rename a namespace of its own: the
   * next pass adopts the older one, and its update is refused from then on.
   */
  lemma {:induction false} UnstoredCreateExact(w: World, p: Plan)
    requires Coherent(w.server) && Legal(w, p) && LeavesUnstored(w, p)
    ensures var o := FindByName(w.server.registries, w.cr.spec.name);
            Stuck(Reconciled(w, p)) <==>
            o.Some? && (w.cr.spec.namespace != "" || OwnClash(ServerCreate(w, p), o.value.id))
  {
    var c := ServerCreate(w, p);
    StuckStep(w, p);
    CreatedIsAccepted(w, p);
    CoherentAfterCreate(w, p);
    CreateTouchesServer(w, p);
    AfterCreate(w, p);
    var made := c.server.registries[|w.server.registries|];
    FindByNameAppended(w.server.registries, made);
    FindByNameFinds(w.server.registries, w.cr.spec.name);
    match FindByName(w.server.registries, w.cr.spec.name)
    case None =>
    case Some(o) =>
      FindByIDKept(w.server.registries, made, o.id);
      FindByIDFinds(w.server.registries, o.id);
      UniqueName(w.server, o, FindByID(w.server.registries, o.id).value);
      if w.cr.spec.namespace == "" { StayIsAccepted(c, o); }
      else { MoveIsRefused(c, o, made); }
  }

  /** Renaming the registry's own namespace takes away the namespace the spec names. */
  predicate LosesPlace(w: World, o: Registry) {
    o.namespace == o.id && w.cr.spec.namespace != w.cr.spec.name
  }

  /** A write keeps a namespace of this name unless it renames it. */
  lemma {:induction false} PlaceStays(s: Server, r: Registry, body: Body, place: Namespace)
    requires Coherent(s) && WriteAccepted(s, r, body.name) && place in s.namespaces
    requires place.id != r.id || place.name == body.name
    ensures NamespaceNamed(Written(s, r, body).namespaces, place.name) == Some(place)
  {
    var us := RenameNamespace(s.namespaces, r.id, body.name);
    RenameAt(s.namespaces, r.id, body.name);
    NamespaceNamedFinds(us, place.name);
    PlaceAfterWrite(s, r, body, place);
    var i :| 0 <= i < |us| && s.namespaces[i] == place;
    assert us[i] == place;
  }

  /** A registry that has the name and place asked for takes the update unless its own namespace is in the way. */
  lemma {:induction false} HolderIsAccepted(w: World, o: Registry)
    requires Coherent(w.server) && FindByID(w.server.registries, o.id) == Some(o) && o.name == w.cr.spec.name
    requires w.cr.spec.namespace != "" && InPlace(w, o)
    ensures UpdateAccepted(w, o.id) <==> !OwnClash(w, o.id) && !LosesPlace(w, o)
  {
    var body, place := UpdateBody(w.cr, AuthOf(w)), Namespace(o.namespace, w.cr.spec.namespace);
    FindByIDFinds(w.server.registries, o.id);
    NamespaceNamedFinds(w.server.namespaces, place.name);
    HolderIsWritten(w, o);
    if WriteAccepted(w.server, o, body.name) {
      AfterWrite(w.server, o, body);
      FreeElsewhere(w.server, Written(w.server, o, body), o.namespace, o.name, o.id);
      if LosesPlace(w, o) {
        PlaceAfterWrite(w.server, o, body, place);
        NamespaceNamedFinds(Written(w.server, o, body).namespaces, place.name);
      } else {
        PlaceStays(w.server, o, body, place);
      }
    }
  }

  /**
   * From no stored id, when a registry of the wanted namespace makes the create conflict: the object is stuck exactly
   * when the spec names that namespace and the oldest registry of the name is in another one, or when the namespace
   * that oldest one has of its own, if any, cannot be called by the name or is renamed away from under it.
   */
  lemma {:induction false} OlderNamesakeStrands(w: World, holder: Registry)
    requires Coherent(w.server) && !StoredLive(w) && holder in w.server.registries && holder.name == w.cr.spec.name
    requires NamespaceNamed(w.server.namespaces, NamespaceOf(w.cr)) ==
             Some(Namespace(holder.namespace, NamespaceOf(w.cr)))
    ensures FindByName(w.server.registries, w.cr.spec.name).Some?
    ensures var o := FindByName(w.server.registries, w.cr.spec.name).value;
            Stuck(w) <==>
            OwnClash(w, o.id) || (w.cr.spec.namespace != "" && (o.id != holder.id || LosesPlace(w, o)))
  {
    FindByNameFinds(w.server.registries, w.cr.spec.name);
    var o := FindByName(w.server.registries, w.cr.spec.name).value;
    FindByIDFinds(w.server.registries, o.id);
    UniqueName(w.server, o, FindByID(w.server.registries, o.id).value);
    if w.cr.spec.namespace == "" {
      StayIsAccepted(w, o);
    } else if o.id != holder.id {
      MoveIsRefused(w, o, holder);
    } else {
      UniqueName(w.server, o, holder);
      HolderIsAccepted(w, o);
    }
  }

  /** Only forgetting its registry frees a stuck object, unless it is then stuck afresh. */
  lemma {:induction false} OnlyForgettingFrees(w: World, p: Plan)
    requires Coherent(w.server) && Legal(w, p) && !w.cr.deleting && Stuck(w)
    ensures Stuck(Reconciled(w, p)) <==> !Forgets(w, p) || StuckAfresh(w)
  {
    StuckStep(w, p);
  }

  /** A stuck object is out of sync after every run that never forgets. */
  lemma {:induction false} StuckForGood(w: World, plans: seq<Plan>)
    requires Coherent(w.server) && !w.cr.deleting && LegalRun(w, plans) && Stuck(w) && NeverForgets(w, plans)
    ensures Stuck(Run(w, plans)) && !InSync(Run(w, plans))
  {
    KeptOverRun(w, plans);
    if plans != [] {
      var before := plans[..|plans| - 1];
      StuckForGood(w, before);
      KeptOverRun(w, before);
      OnlyForgettingFrees(Run(w, before), plans[|plans| - 1]);
    }
    if InSync(Run(w, plans)) { InSyncIsNotStuck(Run(w, plans)); }
  }

  /**
   * The input: a create in a namespace the spec names, while an older registry elsewhere has the name. If the status
   * write is lost, no run that never forgets comes in sync; had it landed, the object would have been in sync at once.
   */
  lemma {:induction false} LostWriteStrands(w: World, p: Plan, plans: seq<Plan>)
    requires Coherent(w.server) && Active(w) && w.cr.status.registryID.None? && !NameTaken(w)
    requires w.cr.spec.namespace != "" && FindByName(w.server.registries, w.cr.spec.name).Some?
    requires Legal(w, p) && p.writeStatus == Call(false, Failed) && ErrorFree(p.(writeStatus := FINE))
    requires LegalRun(Reconciled(w, p), plans) && NeverForgets(Reconciled(w, p), plans)
    ensures !InSync(Run(Reconciled(w, p), plans)) && InSync(Reconciled(w, p.(writeStatus := FINE)))
  {
    UnstoredCreateExact(w, p);
    CoherentStep(w, p);
    StuckForGood(Reconciled(w, p), plans);
    StepOutcome(w, p.(writeStatus := FINE));
    SyncAfterCreate(w, p.(writeStatus := FINE), Reconciled(w, p.(writeStatus := FINE)));
  }

  // ---------- swapped names ----------

  /** Another registry of the same namespace has the name the object was renamed to. */
  predicate Swapped(w: World, mine: Registry, other: Registry) {
    && Coherent(w.server) && w.cr.status.registryID == Some(mine.id) && other.id != mine.id
    && FindByID(w.server.registries, mine.id) == Some(mine)
    && FindByName(w.server.registries, w.cr.spec.name) == Some(other) && mine.namespace == other.namespace
    && NamespaceNamed(w.server.namespaces, NamespaceOf(w.cr)) == Some(Namespace(other.namespace, NamespaceOf(w.cr)))
    && forall ns :: ns in w.server.namespaces ==> ns.id != other.id
  }

  /** The object stands for the registry that has its name and place, stored or yet to be adopted. */
  predicate Settling(w: World, id: string, place: Namespace) {
    && Coherent(w.server) && w.cr.status.registryID in {None, Some(id)}
    && FindByName(w.server.registries, w.cr.spec.name).Some?
    && FindByName(w.server.registries, w.cr.spec.name).value.id == id
    && FindByName(w.server.registries, w.cr.spec.name).value.namespace == place.id
    && place.name == NamespaceOf(w.cr) && NamespaceNamed(w.server.namespaces, place.name) == Some(place)
    && forall ns :: ns in w.server.namespaces ==> ns.id != id
  }

  lemma {:induction false} SettlingFinds(w: World, id: string, place: Namespace)
    requires Settling(w, id, place)
    ensures NameTaken(w) && FindByName(w.server.registries, w.cr.spec.name) == FindByID(w.server.registries, id)
    ensures UpdateAccepted(w, id) && !Stuck(w)
  {
    var o := FindByName(w.server.registries, w.cr.spec.name).value;
    FindByNameFinds(w.server.registries, w.cr.spec.name);
    FindByIDFinds(w.server.registries, id);
    UniqueName(w.server, o, FindByID(w.server.registries, id).value);
    SettledIsAccepted(w, o);
  }

  /** A registry changed where it stands stays the oldest of its name. */
  lemma {:induction false} StaysOldest(rs: seq<Registry>, us: seq<Registry>, name: string, v: Registry)
    requires |rs| == |us| && v.name == name && FindByName(rs, name).Some? && FindByName(rs, name).value.id == v.id
    requires forall i :: 0 <= i < |rs| ==> us[i] == if rs[i].id == v.id then v else rs[i]
    requires forall i, j :: 0 <= i < j < |rs| ==> rs[i].id != rs[j].id
    ensures FindByName(us, name) == Some(v)
  {
    if rs[0].name != name {
      FindByNameFinds(rs[1..], name);
      var k :| 0 <= k < |rs| - 1 && rs[1..][k] == FindByName(rs, name).value;
      assert rs[k + 1].id == v.id;
      StaysOldest(rs[1..], us[1..], name, v);
    }
  }

  /** An update leaves a registry that is in place where it is. */
  lemma {:induction false} StaysInPlace(w: World, o: Registry, p: Plan)
    requires Coherent(w.server) && FindByID(w.server.registries, o.id) == Some(o) && p.update.effect
    requires WriteAccepted(w.server, o, w.cr.spec.name) && InPlace(w, o)
    requires forall ns :: ns in w.server.namespaces ==> ns.id != o.id
    ensures var t := ServerUpdate(w, o.id, p).server;
            && t.namespaces == w.server.namespaces
            && FindByID(t.registries, o.id).Some? && FindByID(t.registries, o.id).value.namespace == o.namespace
  {
    var body := UpdateBody(w.cr, AuthOf(w));
    var u := Written(w.server, o, body);
    RenameSame(w.server.namespaces, o.id, body.name);
    AfterWrite(w.server, o, body);
    if w.cr.spec.namespace != "" && MoveTarget(u, o.id, body.name, w.cr.spec.namespace).Some? {
      AfterMove(u, Told(o, body), w.cr.spec.namespace);
    }
  }

  lemma {:induction false} StaysOldestAfterUpdate(w: World, o: Registry, p: Plan)
    requires Coherent(w.server) && FindByID(w.server.registries, o.id) == Some(o) && p.update.effect
    requires WriteAccepted(w.server, o, w.cr.spec.name) && FindByName(w.server.registries, w.cr.spec.name) == Some(o)
    ensures var t := ServerUpdate(w, o.id, p).server;
            FindByName(t.registries, w.cr.spec.name) == FindByID(t.registries, o.id)
  {
    var t := ServerUpdate(w, o.id, p).server;
    AfterUpdate(w, o, p);
    var v := FindByID(t.registries, o.id).value;
    FindByIDFinds(t.registries, o.id);
    forall i | 0 <= i < |t.registries|
      ensures t.registries[i] == if w.server.registries[i].id == o.id then v else w.server.registries[i]
    {
      if t.registries[i].id == o.id { UniqueName(t, t.registries[i], v); }
    }
    StaysOldest(w.server.registries, t.registries, w.cr.spec.name, v);
  }

  lemma {:induction false} SettlingUpdate(w: World, id: string, place: Namespace, p: Plan)
    requires Settling(w, id, place)
    ensures Settling(ServerUpdate(w, id, p), id, place)
  {
    SettlingFinds(w, id, place);
    CoherentAfterUpdate(w, id, p);
    UpdateTouchesServer(w, id, p);
    if p.update.effect {
      var o := FindByID(w.server.registries, id).value;
      StaysInPlace(w, o, p);
      StaysOldestAfterUpdate(w, o, p);
      FindByIDFinds(ServerUpdate(w, id, p).server.registries, id);
    }
  }

  lemma {:induction false} SettlingStep(w: World, id: string, place: Namespace, p: Plan)
    requires Settling(w, id, place) && Legal(w, p) && !w.cr.deleting
    ensures Settling(Reconciled(w, p), id, place)
  {
    var r := Reconciled(w, p);
    SettlingFinds(w, id, place);
    CoherentStep(w, p);
    assert r.server == w.server || r.server == ServerUpdate(w, id, p).server;
    if r.server != w.server {
      SettlingUpdate(w, id, place, p);
      UpdateTouchesServer(w, id, p);
    }
  }

  lemma {:induction false} SwappedStep(w: World, mine: Registry, other: Registry, p: Plan)
    requires Swapped(w, mine, other) && Legal(w, p) && !w.cr.deleting
    ensures Stuck(w)
    ensures var r := Reconciled(w, p);
            if Forgets(w, p) then Settling(r, other.id, Namespace(other.namespace, NamespaceOf(w.cr)))
            else Swapped(r, mine, other)
  {
    FindByNameFinds(w.server.registries, w.cr.spec.name);
    FindByIDFinds(w.server.registries, mine.id);
    assert !Free(w.server, mine.namespace, w.cr.spec.name, Some(mine.id));
    CoherentStep(w, p);
  }

  lemma {:induction false} SwappedRun(w: World, mine: Registry, other: Registry, plans: seq<Plan>)
    requires Swapped(w, mine, other) && !w.cr.deleting && LegalRun(w, plans)
    ensures Kept(w, Run(w, plans))
    ensures if NeverForgets(w, plans) then Swapped(Run(w, plans), mine, other)
            else Settling(Run(w, plans), other.id, Namespace(other.namespace, NamespaceOf(w.cr)))
  {
    KeptOverRun(w, plans);
    if plans != [] {
      var before, p := plans[..|plans| - 1], plans[|plans| - 1];
      SwappedRun(w, mine, other, before);
      if NeverForgets(w, before) { SwappedStep(Run(w, before), mine, other, p); }
      else { SettlingStep(Run(w, before), other.id, Namespace(other.namespace, NamespaceOf(w.cr)), p); }
    }
  }

  /**
   * Two objects renamed into each other's names: the first stays stuck whatever the calls do, exactly until a get
   * reports its live registry missing and that is stored.
   */
  lemma {:induction false} SwappedNames(w: World, mine: Registry, other: Registry, plans: seq<Plan>)
    requires Swapped(w, mine, other) && !w.cr.deleting && LegalRun(w, plans)
    ensures Stuck(Run(w, plans)) <==> NeverForgets(w, plans)
  {
    SwappedRun(w, mine, other, plans);
    var r := Run(w, plans);
    if NeverForgets(w, plans) {
      FindByNameFinds(r.server.registries, w.cr.spec.name);
      assert !Free(r.server, mine.namespace, w.cr.spec.name, Some(mine.id));
    } else {
      SettlingFinds(r, other.id, Namespace(other.namespace, NamespaceOf(w.cr)));
    }
  }

  /** The input that frees it: after one such get, three error-free reconciles take over the other registry. */
  lemma {:induction false} MissedGetFrees(w: World, mine: Registry, other: Registry, p: Plan, p1: Plan, p2: Plan,
                                          p3: Plan)
    requires Swapped(w, mine, other) && Active(w) && Legal(w, p) && Forgets(w, p)
    requires ErrorFree(p1) && ErrorFree(p2) && ErrorFree(p3)
    requires var m := Reconciled(w, p);
             Legal(m, p1) && Legal(Reconciled(m, p1), p2) && Legal(Reconciled(Reconciled(m, p1), p2), p3)
    ensures var r := Reconciled(Reconciled(Reconciled(Reconciled(w, p), p1), p2), p3);
            InSync(r) && r.cr.status.registryID == Some(other.id)
  {
    var m, place := Reconciled(w, p), Namespace(other.namespace, NamespaceOf(w.cr));
    SwappedStep(w, mine, other, p);
    CoherentStep(w, p);
    SettlingFinds(m, other.id, place);
    ConvergesInThree(m, p1, p2, p3);
    ChosenInThree(m, p1, p2, p3);
  }

  // ---------- a namespace left behind ----------

  /**
   * A namespace that shares the registry's id takes the visibility of the spec. Where the spec leaves it out, it takes
   * that of the namespace the registry is in: once the registry has moved away, the namespace left behind, with every
   * other source in it, follows the one it moved to.
   */
  lemma {:induction false} LeftNamespaceFollows(w: World, r: Registry, p: Plan)
    requires FindByID(w.server.registries, r.id) == Some(r) && Owns(w.server, r.id)
    requires p.update.effect && WriteAccepted(w.server, r, w.cr.spec.name)
    ensures VisibilityOf(ServerUpdate(w, r.id, p).server, r.id) ==
            if w.cr.spec.settings.visibility.Some? then w.cr.spec.settings.visibility.value
            else VisibilityOf(w.server, r.namespace)
  {
  }

  /** A namespace minted by a create has the name asked for, and the visibility of the spec or is public. */
  lemma {:induction false} MintObeysSpec(w: World, p: Plan)
    requires Coherent(w.server) && Legal(w, p) && NamespaceNamed(w.server.namespaces, NamespaceOf(w.cr)).None?
    requires p.create.effect || p.minted
    ensures var s, v := ServerCreate(w, p).server, w.cr.spec.settings.visibility;
            && VisibilityOf(s, p.namespaceID) == (if v.Some? then v.value else Public)
            && NamespaceNamed(s.namespaces, NamespaceOf(w.cr)) == Some(Namespace(p.namespaceID, NamespaceOf(w.cr)))
            && NamespaceOf(w.cr) == if w.cr.spec.namespace != "" then w.cr.spec.namespace else w.cr.namespace
  {
    NamespaceAppended(w.server.namespaces, Namespace(p.namespaceID, NamespaceOf(w.cr)), NamespaceOf(w.cr));
  }
}
