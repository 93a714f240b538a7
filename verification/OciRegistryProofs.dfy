/** Convergence of the OCIRegistry reconciler, and what any faulty run keeps. */
module OciRegistryProofs {
  import opened Kubernetes
  import opened Options
  import opened OciRegistryModel
  import opened RegistrySettings
  import opened OciRegistryServer

  // ---------- one pass ----------

  /** The pass gets as far as its first call for a registry. */
  predicate Reaches(w: World, p: Plan) {
    && w.cr.present && !w.cr.deleting && p.get.reply == Ok
    && (w.cr.finalizer || (p.addFinalizer.reply == Ok && p.refetch.reply == Ok))
    && (w.cr.spec.authSecret.Some? ==> p.readSecret.reply == Ok && AuthReadable(w))
  }

  /** The stored id is that of a live registry. */
  predicate StoredLive(w: World) {
    w.cr.status.registryID.Some? && FindByID(w.server.registries, w.cr.status.registryID.value).Some?
  }

  /** The pass is told that its live registry is missing, and stores that. */
  predicate Forgets(w: World, p: Plan) {
    Reaches(w, p) && StoredLive(w) && p.getRegistry.reply == NotFound && p.writeStatus.effect
  }

  /** The pass lives to store the id of the registry it creates. */
  predicate Stores(p: Plan) {
    p.create.reply == Ok && p.preview.reply != Crashed && p.writeStatus.effect
  }

  /** The pass lives to store the id of the registry it finds under the name. */
  predicate Adopts(p: Plan) {
    p.create.reply == Ok && p.getByName.reply == Ok && p.writeStatus.effect
  }

  /** The pass creates a registry and does not store its id. */
  predicate LeavesUnstored(w: World, p: Plan) {
    Reaches(w, p) && w.cr.status.registryID.None? && !NameTaken(w) && p.create.effect && !Stores(p)
  }

  predicate Kept(w: World, r: World) {
    r.cr == w.cr.(finalizer := r.cr.finalizer, status := r.cr.status) && r.secrets == w.secrets
  }

  /** From no stored id: what a pass leaves on the server, and the id it leaves stored. */
  predicate CreateStep(w: World, p: Plan, r: World) {
    if NameTaken(w) then
      && r.server == w.server
      && match FindByName(w.server.registries, w.cr.spec.name)
         case None => r.cr.status.registryID.None?
         case Some(o) => r.cr.status.registryID == if Adopts(p) then Some(o.id) else None
    else
      && r.server == ServerCreate(w, p).server
      && r.cr.status.registryID == if Stores(p) then Some(p.id) else None
  }

  predicate CheckStep(w: World, id: string, p: Plan, r: World) {
    && r.server == (if p.getRegistry.reply == Ok && StoredLive(w) then ServerUpdate(w, id, p).server else w.server)
    && r.cr.status.registryID == if GetFindsNone(w, id, p) && p.writeStatus.effect then None else Some(id)
  }

  /** What one pass leaves of the object, the server and the stored id. */
  predicate Step(w: World, p: Plan, r: World) {
    && Kept(w, r)
    && if !Reaches(w, p) then r.server == w.server && r.cr.status.registryID == w.cr.status.registryID
       else match w.cr.status.registryID
            case None => CreateStep(w, p, r)
            case Some(id) => CheckStep(w, id, p, r)
  }

  lemma {:induction false} AdoptOutcome(w: World, st: Status, p: Plan)
    requires st == w.cr.status && st.registryID.None?
    ensures var r := Adopt(w, st, p);
            && r.cr == w.cr.(status := r.cr.status) && r.secrets == w.secrets && r.server == w.server
            && match FindByName(w.server.registries, w.cr.spec.name)
               case None => r.cr.status.registryID.None?
               case Some(o) =>
                 r.cr.status.registryID == if p.getByName.reply == Ok && p.writeStatus.effect then Some(o.id) else None
  {
  }

  /** Whatever follows a create without a conflict, only the status is still to change. */
  lemma {:induction false} CreatedOutcome(w: World, st: Status, p: Plan)
    requires st == w.cr.status && st.registryID.None?
    ensures var r := match p.create.reply
                     case Crashed => w
                     case Ok => Succeed(w, st.(registryID := Some(p.id)), Created, p)
                     case _ => Fail(w, st, APIError, p);
            && r.cr == w.cr.(status := r.cr.status) && r.secrets == w.secrets && r.server == w.server
            && r.cr.status.registryID == if Stores(p) then Some(p.id) else None
  {
  }

  lemma {:induction false} CreateTouchesServer(w: World, p: Plan)
    ensures ServerCreate(w, p).cr == w.cr && ServerCreate(w, p).secrets == w.secrets
    ensures NameTaken(w) ==> ServerCreate(w, p) == w
  {
  }

  lemma {:induction false} CreateOutcome(w: World, st: Status, p: Plan)
    requires st == w.cr.status && st.registryID.None?
    ensures var r := CreateOrAdopt(w, st, p);
            r.cr == w.cr.(status := r.cr.status) && r.secrets == w.secrets && CreateStep(w, p, r)
  {
    CreateTouchesServer(w, p);
    if NameTaken(w) {
      AdoptOutcome(w, st, p);
    } else {
      CreatedOutcome(ServerCreate(w, p), st, p);
    }
  }

  /** Whatever verdict follows an update, only the status is still to change, and not its id. */
  lemma {:induction false} UpdateOutcome(w: World, st: Status, p: Plan, accepted: bool)
    requires st == w.cr.status
    ensures var r := if p.update.reply == Crashed then w
                     else if p.update.reply == Ok && accepted then Succeed(w, st, Synced, p)
                     else Fail(w, st, APIError, p);
            && r.cr == w.cr.(status := r.cr.status) && r.secrets == w.secrets && r.server == w.server
            && r.cr.status.registryID == st.registryID
  {
  }

  lemma {:induction false} UpdateTouchesServer(w: World, id: string, p: Plan)
    ensures ServerUpdate(w, id, p).cr == w.cr && ServerUpdate(w, id, p).secrets == w.secrets
  {
  }

  lemma {:induction false} CheckOutcome(w: World, st: Status, id: string, p: Plan)
    requires st == w.cr.status && st.registryID == Some(id)
    ensures var r := CheckAndUpdate(w, st, id, p);
            r.cr == w.cr.(status := r.cr.status) && r.secrets == w.secrets && CheckStep(w, id, p, r)
  {
    if p.getRegistry.reply == Ok && FindByID(w.server.registries, id).Some? {
      UpdateTouchesServer(w, id, p);
      UpdateOutcome(ServerUpdate(w, id, p), st, p, UpdateAccepted(w, id));
    }
  }

  /** The same object, with its finalizer. */
  function Guarded(w: World): World {
    w.(cr := w.cr.(finalizer := true))
  }

  /** The server does not see the finalizer. */
  lemma {:induction false} CreateIsUnseen(w: World, p: Plan)
    ensures NameTaken(Guarded(w)) == NameTaken(w) && ServerCreate(Guarded(w), p).server == ServerCreate(w, p).server
  {
  }

  lemma {:induction false} UpdateIsUnseen(w: World, id: string, p: Plan)
    ensures ServerUpdate(Guarded(w), id, p).server == ServerUpdate(w, id, p).server
  {
  }

  lemma {:induction false} FinalizerIsUnseen(w: World, p: Plan, r: World)
    requires Step(Guarded(w), p, r) && Reaches(w, p)
    ensures Step(w, p, r)
  {
    match w.cr.status.registryID
    case None => CreateIsUnseen(w, p);
    case Some(id) => UpdateIsUnseen(w, id, p);
  }

  lemma {:induction false} StepOutcome(w: World, p: Plan)
    requires !w.cr.deleting && Truthful(p.addFinalizer)
    ensures Step(w, p, Reconciled(w, p))
  {
    if Reaches(w, p) {
      var w1 := Guarded(w);
      assert w.cr.finalizer ==> w1 == w;
      assert Reconciled(w, p) == Dispatch(w1, w1.cr.status, p);
      match w.cr.status.registryID {
        case None => CreateOutcome(w1, w1.cr.status, p);
        case Some(id) => CheckOutcome(w1, w1.cr.status, id, p);
      }
      FinalizerIsUnseen(w, p, Reconciled(w, p));
    }
  }

  // ---------- coherence ----------

  lemma {:induction false} CoherentAfterUpdate(w: World, id: string, p: Plan)
    requires Coherent(w.server)
    ensures Coherent(ServerUpdate(w, id, p).server) && SameElsewhere(w.server, ServerUpdate(w, id, p).server, id)
    ensures FindByID(ServerUpdate(w, id, p).server.registries, id).Some? <==> FindByID(w.server.registries, id).Some?
  {
    match FindByID(w.server.registries, id)
    case None =>
    case Some(r) =>
      FindByIDFinds(w.server.registries, id);
      if p.update.effect && WriteAccepted(w.server, r, w.cr.spec.name) { AfterUpdate(w, r, p); }
  }

  /** Whatever fails in a pass, ids and names stay unique and a registry keeps the name it was told. */
  lemma {:induction false} CoherentStep(w: World, p: Plan)
    requires Coherent(w.server) && Legal(w, p) && !w.cr.deleting
    ensures Step(w, p, Reconciled(w, p)) && Coherent(Reconciled(w, p).server)
  {
    StepOutcome(w, p);
    CoherentAfterCreate(w, p);
    if w.cr.status.registryID.Some? { CoherentAfterUpdate(w, w.cr.status.registryID.value, p); }
  }

  // ---------- stuck objects ----------

  /** A create conflicts, and adoption finds no registry of the name, or one whose update is refused. */
  predicate StuckAfresh(w: World) {
    && NameTaken(w)
    && match FindByName(w.server.registries, w.cr.spec.name)
       case None => true
       case Some(o) => !UpdateAccepted(w, o.id)
  }

  /** The registry the object stands for, or would adopt, refuses its update. */
  predicate Stuck(w: World) {
    if StoredLive(w) then !UpdateAccepted(w, w.cr.status.registryID.value) else StuckAfresh(w)
  }

  /** A registry just created, in the namespace and under the name asked for, takes the update. */
  lemma {:induction false} CreatedIsAccepted(w: World, p: Plan)
    requires Coherent(w.server) && Legal(w, p) && !NameTaken(w) && p.create.effect
    ensures var r := ServerCreate(w, p);
            FindByID(r.server.registries, p.id).Some? && NameTaken(r) && UpdateAccepted(r, p.id)
  {
    var r := ServerCreate(w, p);
    AfterCreate(w, p);
    CoherentAfterCreate(w, p);
    var made := r.server.registries[|w.server.registries|];
    FindByIDAppended(w.server.registries, made);
    SettledIsAccepted(r, made);
  }

  /** With the server unchanged, the object sees the same answers. */
  lemma {:induction false} ViewKept(w: World, r: World, id: string)
    requires Kept(w, r) && r.server == w.server
    ensures NameTaken(r) == NameTaken(w) && UpdateAccepted(r, id) == UpdateAccepted(w, id)
  {
  }

  lemma {:induction false} AfreshKept(w: World, r: World)
    requires Kept(w, r) && r.server == w.server
    ensures NameTaken(r) == NameTaken(w) && StuckAfresh(r) == StuckAfresh(w)
  {
    match FindByName(w.server.registries, w.cr.spec.name)
    case None => ViewKept(w, r, "");
    case Some(o) => ViewKept(w, r, o.id);
  }

  /** A create without effect leaves the name free, even if it minted the namespace. */
  lemma {:induction false} StillFree(w: World, p: Plan)
    requires Coherent(w.server) && Legal(w, p) && !NameTaken(w) && !p.create.effect
    ensures !NameTaken(ServerCreate(w, p)) && ServerCreate(w, p).server.registries == w.server.registries
  {
    match NamespaceNamed(w.server.namespaces, NamespaceOf(w.cr))
    case Some(ns) =>
    case None =>
      NamespaceAppended(w.server.namespaces, Namespace(p.namespaceID, NamespaceOf(w.cr)), NamespaceOf(w.cr));
      FreshIsFree(w.server, p.namespaceID, w.cr.spec.name);
  }

  lemma {:induction false} StuckAfterCreate(w: World, p: Plan, r: World)
    requires Coherent(w.server) && Legal(w, p) && Kept(w, r) && w.cr.status.registryID.None? && CreateStep(w, p, r)
    requires !NameTaken(w)
    ensures Stuck(r) <==> p.create.effect && !Stores(p) && StuckAfresh(ServerCreate(w, p))
  {
    var c := ServerCreate(w, p);
    CreateTouchesServer(w, p);
    AfreshKept(c, r);
    if p.create.effect {
      CreatedIsAccepted(w, p);
      ViewKept(c, r, p.id);
    } else {
      StillFree(w, p);
    }
  }

  lemma {:induction false} StuckAfterAdopt(w: World, p: Plan, r: World)
    requires Kept(w, r) && w.cr.status.registryID.None? && CreateStep(w, p, r) && NameTaken(w)
    ensures Stuck(r) <==> Stuck(w)
  {
    AfreshKept(w, r);
    FindByNameFinds(w.server.registries, w.cr.spec.name);
    if FindByName(w.server.registries, w.cr.spec.name).Some? {
      var id := FindByName(w.server.registries, w.cr.spec.name).value.id;
      FindByIDFinds(w.server.registries, id);
      ViewKept(w, r, id);
    }
  }

  lemma {:induction false} StuckAfterCheck(w: World, id: string, p: Plan, r: World)
    requires Coherent(w.server) && Kept(w, r) && w.cr.status.registryID == Some(id) && CheckStep(w, id, p, r)
    ensures Stuck(r) <==>
            if StoredLive(w) && p.getRegistry.reply == NotFound && p.writeStatus.effect then StuckAfresh(w)
            else Stuck(w)
  {
    if StoredLive(w) && p.getRegistry.reply == Ok {
      UpdateTouchesServer(w, id, p);
      CoherentAfterUpdate(w, id, p);
      AcceptedAgain(w, id, p);
      ViewKept(ServerUpdate(w, id, p), r, id);
    } else {
      AfreshKept(w, r);
      ViewKept(w, r, id);
    }
  }

  /**
   * The verdict of a pass on an object's future: one that forgets a live registry or leaves a new one unstored sends it
   * to a create that conflicts or not; every other pass, whatever fails in it, leaves it stuck or not as it was.
   */
  function Verdict(w: World, p: Plan): Option<bool> {
    if Forgets(w, p) then Some(StuckAfresh(w))
    else if LeavesUnstored(w, p) then Some(StuckAfresh(ServerCreate(w, p)))
    else None
  }

  lemma {:induction false} StuckStep(w: World, p: Plan)
    requires Coherent(w.server) && Legal(w, p) && !w.cr.deleting
    ensures Stuck(Reconciled(w, p)) <==> match Verdict(w, p) case Some(stuck) => stuck case None => Stuck(w)
  {
    var r := Reconciled(w, p);
    StepOutcome(w, p);
    if !Reaches(w, p) {
      AfreshKept(w, r);
      ViewKept(w, r, if w.cr.status.registryID.Some? then w.cr.status.registryID.value else "");
    } else {
      match w.cr.status.registryID
      case None => if NameTaken(w) { StuckAfterAdopt(w, p, r); } else { StuckAfterCreate(w, p, r); }
      case Some(id) => StuckAfterCheck(w, id, p, r);
    }
  }

  /** The last pass with a verdict decides, and the start if there is none. */
  predicate Decided(w: World, plans: seq<Plan>) {
    if plans == [] then Stuck(w)
    else
      var before, p := plans[..|plans| - 1], plans[|plans| - 1];
      match Verdict(Run(w, before), p) case Some(stuck) => stuck case None => Decided(w, before)
  }

  lemma {:induction false} KeptOverRun(w: World, plans: seq<Plan>)
    requires Coherent(w.server) && !w.cr.deleting && LegalRun(w, plans)
    ensures Kept(w, Run(w, plans)) && Coherent(Run(w, plans).server)
  {
    if plans != [] {
      var before := plans[..|plans| - 1];
      KeptOverRun(w, before);
      CoherentStep(Run(w, before), plans[|plans| - 1]);
    }
  }

  /** After every run, with any failed calls, crashes and lost writes, the object is stuck exactly as decided. */
  lemma {:induction false} StuckOverRun(w: World, plans: seq<Plan>)
    requires Coherent(w.server) && !w.cr.deleting && LegalRun(w, plans)
    ensures Stuck(Run(w, plans)) <==> Decided(w, plans)
  {
    if plans != [] {
      var before := plans[..|plans| - 1];
      StuckOverRun(w, before);
      KeptOverRun(w, before);
      StuckStep(Run(w, before), plans[|plans| - 1]);
    }
  }

  // ---------- convergence ----------

  /** No call fails or loses its effect; only the scan preview may report an error. */
  predicate ErrorFree(p: Plan) {
    && p.get == p.addFinalizer == p.refetch == p.readSecret == FINE
    && p.create == p.getByName == p.getRegistry == p.update == p.writeStatus == FINE && p.preview.reply != Crashed
  }

  /** The object is wanted and its credentials can be read. */
  predicate Active(w: World) {
    w.cr.present && !w.cr.deleting && AuthReadable(w)
  }

  /** The registry has the username and token of the Secret the spec names, or none where that has no username. */
  predicate HasCredentials(w: World, auth: Option<Auth>) {
    match w.cr.spec.authSecret
    case None => auth.None?
    case Some(name) =>
      if name in w.secrets && w.secrets[name].username != "" then auth == Some(w.secrets[name]) else auth.None?
  }

  /**
   * The stored id is that of a live registry that is kept as the spec says, owned by this object, under the name, and
   * in the namespace if the spec names one; a namespace of its own is called after it.
   */
  predicate InSync(w: World) {
    && StoredLive(w)
    && var r := FindByID(w.server.registries, w.cr.status.registryID.value).value;
       && r.name == w.cr.spec.name && Carries(r.config, w.cr.spec.settings)
       && r.config.managedRef == Some((w.cr.namespace, w.cr.name)) && HasCredentials(w, r.config.auth)
       && OwnNamed(w.server, r.id, w.cr.spec.name) && InPlace(w, r)
  }

  lemma {:induction false} InSyncIsNotStuck(w: World)
    requires Coherent(w.server) && InSync(w)
    ensures !Stuck(w)
  {
    FindByIDFinds(w.server.registries, w.cr.status.registryID.value);
    SettledIsAccepted(w, FindByID(w.server.registries, w.cr.status.registryID.value).value);
  }

  lemma {:induction false} SyncAfterUpdate(w: World, id: string, p: Plan, r: World)
    requires Coherent(w.server) && UpdateAccepted(w, id) && p.update.effect && p.moved
    requires Kept(w, r) && r.server == ServerUpdate(w, id, p).server && r.cr.status.registryID == Some(id)
    ensures InSync(r)
  {
    var o := FindByID(w.server.registries, id).value;
    FindByIDFinds(w.server.registries, id);
    AfterUpdate(w, o, p);
    RequestsCarry(o.config, w.cr.spec.settings, (w.cr.namespace, w.cr.name), AuthOf(w));
    if w.cr.spec.namespace != "" { MovedInPlace(w, o, p); }
  }

  lemma {:induction false} SyncAfterCreate(w: World, p: Plan, r: World)
    requires Coherent(w.server) && Legal(w, p) && !NameTaken(w) && p.create.effect
    requires Kept(w, r) && r.server == ServerCreate(w, p).server && r.cr.status.registryID == Some(p.id)
    ensures InSync(r)
  {
    AfterCreate(w, p);
    var made := r.server.registries[|w.server.registries|];
    RequestsCarry(made.config, w.cr.spec.settings, (w.cr.namespace, w.cr.name), AuthOf(w));
    FindByIDAppended(w.server.registries, made);
  }

  /** Reconciles still needed: clear a stale id, create or adopt, then send the spec to an adopted registry. */
  function Rank(w: World): nat {
    if InSync(w) then 0
    else if StoredLive(w) then 1
    else (if NameTaken(w) then 2 else 1) + if w.cr.status.registryID.Some? then 1 else 0
  }

  lemma {:induction false} Progress(w: World, p: Plan)
    requires Coherent(w.server) && Legal(w, p) && ErrorFree(p) && Active(w)
    ensures var r := Reconciled(w, p);
            && Active(r) && Coherent(r.server) && (Stuck(r) <==> Stuck(w))
            && (!Stuck(w) ==> Rank(r) < Rank(w) || Rank(r) == 0)
  {
    var r := Reconciled(w, p);
    assert Reaches(w, p) && Verdict(w, p) == None;
    CoherentStep(w, p);
    StuckStep(w, p);
    match w.cr.status.registryID
    case None =>
      if NameTaken(w) {
        if !Stuck(w) {
          FindByNameFinds(w.server.registries, w.cr.spec.name);
          FindByIDFinds(w.server.registries, r.cr.status.registryID.value);
        }
      } else {
        SyncAfterCreate(w, p, r);
      }
    case Some(id) =>
      if StoredLive(w) {
        if UpdateAccepted(w, id) { SyncAfterUpdate(w, id, p, r); }
      } else {
        AfreshKept(w, r);
      }
  }

  /**
   * From any stored id, empty, stale or live, three error-free reconciles bring the registry in sync with the spec
   * exactly when the object is not stuck.
   */
  lemma {:induction false} ConvergesInThree(w: World, p1: Plan, p2: Plan, p3: Plan)
    requires Coherent(w.server) && Active(w) && ErrorFree(p1) && ErrorFree(p2) && ErrorFree(p3)
    requires Legal(w, p1) && Legal(Reconciled(w, p1), p2) && Legal(Reconciled(Reconciled(w, p1), p2), p3)
    ensures InSync(Reconciled(Reconciled(Reconciled(w, p1), p2), p3)) <==> !Stuck(w)
  {
    var w1 := Reconciled(w, p1);
    var w2 := Reconciled(w1, p2);
    var w3 := Reconciled(w2, p3);
    Progress(w, p1);
    Progress(w1, p2);
    Progress(w2, p3);
    if InSync(w3) { InSyncIsNotStuck(w3); }
  }

  /** The id the object stands for: the stored one if it is live, or else that of the registry it would adopt. */
  function Chosen(w: World): Option<string> {
    if StoredLive(w) then w.cr.status.registryID
    else if NameTaken(w) && FindByName(w.server.registries, w.cr.spec.name).Some? then
      Some(FindByName(w.server.registries, w.cr.spec.name).value.id)
    else None
  }

  /** Once there is such a registry, only forgetting it makes the object turn to another. */
  lemma {:induction false} ChosenStep(w: World, p: Plan)
    requires Coherent(w.server) && Legal(w, p) && !w.cr.deleting && Chosen(w).Some? && !Forgets(w, p)
    ensures Chosen(Reconciled(w, p)) == Chosen(w)
  {
    var r := Reconciled(w, p);
    StepOutcome(w, p);
    FindByIDFinds(w.server.registries, Chosen(w).value);
    FindByNameFinds(w.server.registries, w.cr.spec.name);
    if StoredLive(w) {
      CoherentAfterUpdate(w, w.cr.status.registryID.value, p);
    } else {
      AfreshKept(w, r);
    }
  }

  predicate NeverForgets(w: World, plans: seq<Plan>) {
    plans == [] ||
    var before := plans[..|plans| - 1];
    NeverForgets(w, before) && !Forgets(Run(w, before), plans[|plans| - 1])
  }

  /** Over every run that never forgets, the object stays with the registry it stood for or would adopt. */
  lemma {:induction false} ChosenOverRun(w: World, plans: seq<Plan>)
    requires Coherent(w.server) && !w.cr.deleting && LegalRun(w, plans)
    requires Chosen(w).Some? && NeverForgets(w, plans)
    ensures Chosen(Run(w, plans)) == Chosen(w)
  {
    if plans != [] {
      var before := plans[..|plans| - 1];
      ChosenOverRun(w, before);
      KeptOverRun(w, before);
      ChosenStep(Run(w, before), plans[|plans| - 1]);
    }
  }

  /**
   * After any run, with any failed calls, crashes and lost writes, three error-free reconciles bring the registry in
   * sync exactly when the run has not left the object stuck; if the run forgot no live registry, it is the one the
   * object stood for before the run, or would have adopted.
   */
  lemma {:induction false} ConvergesAfterAnyRun(w: World, plans: seq<Plan>, p1: Plan, p2: Plan, p3: Plan)
    requires Coherent(w.server) && Active(w) && ErrorFree(p1) && ErrorFree(p2) && ErrorFree(p3)
    requires LegalRun(w, plans)
    requires var m := Run(w, plans);
             Legal(m, p1) && Legal(Reconciled(m, p1), p2) && Legal(Reconciled(Reconciled(m, p1), p2), p3)
    ensures var r := Reconciled(Reconciled(Reconciled(Run(w, plans), p1), p2), p3);
            && (InSync(r) <==> !Decided(w, plans))
            && (InSync(r) && NeverForgets(w, plans) && Chosen(w).Some? ==> r.cr.status.registryID == Chosen(w))
  {
    var m := Run(w, plans);
    KeptOverRun(w, plans);
    PresentOverRun(w, plans);
    StuckOverRun(w, plans);
    ConvergesInThree(m, p1, p2, p3);
    if NeverForgets(w, plans) && Chosen(w).Some? {
      ChosenOverRun(w, plans);
      ChosenInThree(m, p1, p2, p3);
    }
  }

  /** Only a deletion takes an object away, and nobody changes the Secrets. */
  lemma {:induction false} PresentOverRun(w: World, plans: seq<Plan>)
    requires Coherent(w.server) && Active(w) && LegalRun(w, plans)
    ensures Active(Run(w, plans))
  {
    KeptOverRun(w, plans);
  }

  lemma {:induction false} ChosenInThree(m: World, p1: Plan, p2: Plan, p3: Plan)
    requires Coherent(m.server) && Active(m) && ErrorFree(p1) && ErrorFree(p2) && ErrorFree(p3) && Chosen(m).Some?
    requires Legal(m, p1) && Legal(Reconciled(m, p1), p2) && Legal(Reconciled(Reconciled(m, p1), p2), p3)
    ensures Chosen(Reconciled(Reconciled(Reconciled(m, p1), p2), p3)) == Chosen(m)
  {
    Progress(m, p1);
    ChosenStep(m, p1);
    Progress(Reconciled(m, p1), p2);
    ChosenStep(Reconciled(m, p1), p2);
    ChosenStep(Reconciled(Reconciled(m, p1), p2), p3);
  }

  // ---------- how many registries are created ----------

  /** The next create would go through. */
  function Credit(w: World): nat {
    if StoredLive(w) || NameTaken(w) then 0 else 1
  }

  /** The pass forgets a live registry that does not have the wanted name in the wanted namespace, nor has another. */
  predicate ForgetsFree(w: World, p: Plan) {
    Forgets(w, p) && !NameTaken(w)
  }

  lemma {:induction false} CreditAfterCreate(w: World, p: Plan, r: World)
    requires Coherent(w.server) && Legal(w, p) && Kept(w, r) && w.cr.status.registryID.None? && CreateStep(w, p, r)
    ensures |r.server.registries| + Credit(r) == |w.server.registries| + Credit(w)
  {
    if NameTaken(w) {
      AfreshKept(w, r);
    } else {
      CreateTouchesServer(w, p);
      AfreshKept(ServerCreate(w, p), r);
      if p.create.effect {
        CreatedIsAccepted(w, p);
        AfterCreate(w, p);
      } else {
        StillFree(w, p);
      }
    }
  }

  lemma {:induction false} CreditAfterCheck(w: World, id: string, p: Plan, r: World)
    requires Coherent(w.server) && Kept(w, r) && w.cr.status.registryID == Some(id) && CheckStep(w, id, p, r)
    ensures |r.server.registries| + Credit(r) ==
            |w.server.registries| + Credit(w) +
            if StoredLive(w) && p.getRegistry.reply == NotFound && p.writeStatus.effect && !NameTaken(w) then 1 else 0
  {
    CoherentAfterUpdate(w, id, p);
    if r.server == w.server { AfreshKept(w, r); }
  }

  lemma {:induction false} CreatedStep(w: World, p: Plan)
    requires Coherent(w.server) && Legal(w, p) && !w.cr.deleting
    ensures var r := Reconciled(w, p);
            |r.server.registries| + Credit(r) ==
            |w.server.registries| + Credit(w) + if ForgetsFree(w, p) then 1 else 0
  {
    var r := Reconciled(w, p);
    StepOutcome(w, p);
    if !Reaches(w, p) {
      AfreshKept(w, r);
    } else {
      match w.cr.status.registryID
      case Some(id) => CreditAfterCheck(w, id, p, r);
      case None => CreditAfterCreate(w, p, r);
    }
  }

  function ForgottenFree(w: World, plans: seq<Plan>): nat {
    if plans == [] then 0
    else
      var before := plans[..|plans| - 1];
      ForgottenFree(w, before) + if ForgetsFree(Run(w, before), plans[|plans| - 1]) then 1 else 0
  }

  /**
   * Over every run of reconciles with any failed calls, crashes and lost status writes: the registries created are
   * the one there was call for at the start, if any, and one for each live registry forgotten while the name is free,
   * less the one there still is call for.
   */
  lemma {:induction false} CreatesExactly(w: World, plans: seq<Plan>)
    requires Coherent(w.server) && !w.cr.deleting && LegalRun(w, plans)
    ensures |Run(w, plans).server.registries| - |w.server.registries| ==
            Credit(w) + ForgottenFree(w, plans) - Credit(Run(w, plans))
  {
    if plans != [] {
      var before := plans[..|plans| - 1];
      CreatesExactly(w, before);
      KeptOverRun(w, before);
      CreatedStep(Run(w, before), plans[|plans| - 1]);
    }
  }

  /**
   * A get that misses the stored registry makes the next error-free reconcile create a second one exactly when the name
   * is free, as before the first update after a rename; the first one is left behind.
   */
  lemma {:induction false} ForgottenIsReplaced(w: World, p: Plan, q: Plan)
    requires Coherent(w.server) && Active(w) && Legal(w, p) && Forgets(w, p)
    requires ErrorFree(q) && Legal(Reconciled(w, p), q)
    ensures var r := Reconciled(Reconciled(w, p), q);
            && (|r.server.registries| == |w.server.registries| + 1 <==> !NameTaken(w))
            && (!NameTaken(w) ==> InSync(r) && r.cr.status.registryID != w.cr.status.registryID
                                  && FindByID(r.server.registries, w.cr.status.registryID.value).Some?)
  {
    var m := Reconciled(w, p);
    StepOutcome(w, p);
    AfreshKept(w, m);
    CreatedStep(w, p);
    CreatedStep(m, q);
    StepOutcome(m, q);
    if !NameTaken(w) {
      SyncAfterCreate(m, q, Reconciled(m, q));
      AfterCreate(m, q);
      FindByIDFinds(w.server.registries, w.cr.status.registryID.value);
      FindByIDFinds(Reconciled(m, q).server.registries, w.cr.status.registryID.value);
    }
  }

  /** Without an explicit namespace in the spec, no run moves any registry to another namespace. */
  lemma {:induction false} NeverMoves(w: World, plans: seq<Plan>)
    requires Coherent(w.server) && !w.cr.deleting && LegalRun(w, plans) && w.cr.spec.namespace == ""
    ensures var r := Run(w, plans);
            && |w.server.registries| <= |r.server.registries|
            && forall i :: 0 <= i < |w.server.registries| ==>
                 && r.server.registries[i].id == w.server.registries[i].id
                 && r.server.registries[i].namespace == w.server.registries[i].namespace
  {
    if plans != [] {
      var before, p := plans[..|plans| - 1], plans[|plans| - 1];
      NeverMoves(w, before);
      KeptOverRun(w, before);
      NeverMovesStep(Run(w, before), p);
    }
  }

  lemma {:induction false} NeverMovesStep(w: World, p: Plan)
    requires Coherent(w.server) && !w.cr.deleting && Legal(w, p) && w.cr.spec.namespace == ""
    ensures var r := Reconciled(w, p);
            && |w.server.registries| <= |r.server.registries|
            && forall i :: 0 <= i < |w.server.registries| ==>
                 && r.server.registries[i].id == w.server.registries[i].id
                 && r.server.registries[i].namespace == w.server.registries[i].namespace
  {
    StepOutcome(w, p);
    match w.cr.status.registryID
    case None =>
      if !NameTaken(w) { if p.create.effect { AfterCreate(w, p); } else { StillFree(w, p); } }
    case Some(id) =>
      match FindByID(w.server.registries, id)
      case None =>
      case Some(o) =>
        FindByIDFinds(w.server.registries, id);
        ReplaceAt(w.server.registries, Told(o, UpdateBody(w.cr, AuthOf(w))));
        forall i | 0 <= i < |w.server.registries| && w.server.registries[i].id == id
          ensures w.server.registries[i] == o
        {
          UniqueName(w.server, w.server.registries[i], o);
        }
  }

  // ---------- visibility ----------

  lemma {:induction false} VisibilityStep(w: World, p: Plan, ns: string)
    requires Coherent(w.server) && Legal(w, p) && !w.cr.deleting && ns in w.server.issued
    requires forall r :: r in w.server.registries ==> r.id != ns
    ensures VisibilityOf(Reconciled(w, p).server, ns) == VisibilityOf(w.server, ns)
    ensures forall r :: r in Reconciled(w, p).server.registries ==> r.id != ns
    ensures ns in Reconciled(w, p).server.issued
  {
    StepOutcome(w, p);
    match w.cr.status.registryID
    case None =>
      if !NameTaken(w) { if p.create.effect { AfterCreate(w, p); } else { StillFree(w, p); } }
    case Some(id) =>
      CoherentAfterUpdate(w, id, p);
      VisibilityAfterUpdate(w, id, p, ns);
  }

  lemma {:induction false} VisibilityAfterUpdate(w: World, id: string, p: Plan, ns: string)
    requires Coherent(w.server) && forall r :: r in w.server.registries ==> r.id != ns
    ensures var t := ServerUpdate(w, id, p).server;
            && VisibilityOf(t, ns) == VisibilityOf(w.server, ns)
            && forall r :: r in t.registries ==> r.id != ns
  {
    var t := ServerUpdate(w, id, p).server;
    FindByIDFinds(w.server.registries, id);
    CoherentAfterUpdate(w, id, p);
    forall r | r in t.registries ensures r.id != ns {
      var i :| 0 <= i < |t.registries| && t.registries[i] == r;
      assert w.server.registries[i] in w.server.registries;
    }
  }

  /** Whatever the spec says, no run changes the visibility of a namespace that shares its id with no registry. */
  lemma {:induction false} VisibilityOverRun(w: World, plans: seq<Plan>, ns: string)
    requires Coherent(w.server) && !w.cr.deleting && LegalRun(w, plans) && ns in w.server.issued
    requires forall r :: r in w.server.registries ==> r.id != ns
    ensures VisibilityOf(Run(w, plans).server, ns) == VisibilityOf(w.server, ns)
    ensures forall r :: r in Run(w, plans).server.registries ==> r.id != ns
    ensures ns in Run(w, plans).server.issued
  {
    if plans != [] {
      var before := plans[..|plans| - 1];
      VisibilityOverRun(w, before, ns);
      KeptOverRun(w, before);
      VisibilityStep(Run(w, before), plans[|plans| - 1], ns);
    }
  }
}
