/** The stores an OCIRegistry reconcile acts on, and what one reconcile does to them. */
module OciRegistryModel {
  import opened Kubernetes
  import opened Options
  import opened RegistrySettings

  /** `settings` is the part of the spec that only the requests look at. */
  datatype Spec = Spec(name: string, namespace: string, settings: Settings, authSecret: Option<string>)

  /** A create or update request; None is left out of it. */
  datatype Body = Body(name: string, namespace: Option<string>, fields: Fields)

  /** `namespace` is the id of the namespace it is in, which is its own id if it was created without naming one. */
  datatype Registry = Registry(id: string, name: string, namespace: string, config: Config)

  datatype Namespace = Namespace(id: string, name: string)

  datatype Scope = Scope(observedGeneration: nat, failed: bool)

  datatype Status = Status(registryID: Option<string>, ready: Option<Condition>, scope: Option<Scope>)

  /** Every namespaced Kubernetes object has a namespace. */
  type NamespaceName = s: string | |s| > 0 witness "default"

  datatype Resource = Resource(
    namespace: NamespaceName, name: string, present: bool, deleting: bool, finalizer: bool, generation: nat, spec: Spec,
    status: Status)

  /**
   * `registries` is in creation order; `visibility` is by namespace id, private where it says nothing; `others` holds
   * the names, each with its namespace id, of the sources that are no registries; `issued` remembers every id that the
   * server ever handed out.
   */
  datatype Server = Server(
    registries: seq<Registry>, namespaces: seq<Namespace>, visibility: map<string, Visibility>,
    others: set<(string, string)>, issued: set<string>)

  datatype World = World(cr: Resource, secrets: map<string, Auth>, server: Server)

  /**
   * A create may mint its namespace and go no further (`minted`), and an update may stop before it moves the registry
   * (not `moved`). `id` and `namespaceID` are the ids the server would hand out.
   */
  datatype Plan = Plan(
    get: Call, addFinalizer: Call, refetch: Call, readSecret: Call,
    create: Call, getByName: Call, getRegistry: Call, update: Call, preview: Call, writeStatus: Call,
    delete: Call, removeFinalizer: Call,
    minted: bool, moved: bool, id: string, namespaceID: string)

  // ---------- request bodies ----------

  /** The OCIDex namespace of a new registry: the spec's, or the custom resource's Kubernetes namespace. */
  function NamespaceOf(cr: Resource): string {
    if cr.spec.namespace != "" then cr.spec.namespace else cr.namespace
  }

  function Explicit(s: string): Option<string> {
    if s != "" then Some(s) else None
  }

  function CreateBody(cr: Resource, auth: Option<Auth>): Body {
    Body(cr.spec.name, Explicit(NamespaceOf(cr)), CreateFields(cr.spec.settings, (cr.namespace, cr.name), auth))
  }

  /** Only an explicit namespace is sent on update: the default of a create is never re-asserted. */
  function UpdateBody(cr: Resource, auth: Option<Auth>): Body {
    Body(cr.spec.name, Explicit(cr.spec.namespace), UpdateFields(cr.spec.settings, (cr.namespace, cr.name), auth))
  }

  /** The credentials as sent: none when no Secret is referenced or its username is empty. */
  function AuthOf(w: World): Option<Auth> {
    match w.cr.spec.authSecret
    case None => None
    case Some(name) =>
      if name in w.secrets && w.secrets[name].username != "" then Some(w.secrets[name]) else None
  }

  predicate AuthReadable(w: World) {
    w.cr.spec.authSecret.Some? ==> w.cr.spec.authSecret.value in w.secrets
  }

  // ---------- the server ----------

  function FindByID(rs: seq<Registry>, id: string): Option<Registry> {
    if rs == [] then None else if rs[0].id == id then Some(rs[0]) else FindByID(rs[1..], id)
  }

  /** The oldest registry of this name. */
  function FindByName(rs: seq<Registry>, name: string): Option<Registry> {
    if rs == [] then None else if rs[0].name == name then Some(rs[0]) else FindByName(rs[1..], name)
  }

  function WithoutID(rs: seq<Registry>, id: string): seq<Registry> {
    if rs == [] then [] else (if rs[0].id == id then [] else [rs[0]]) + WithoutID(rs[1..], id)
  }

  function NamespaceNamed(nss: seq<Namespace>, name: string): Option<Namespace> {
    if nss == [] then None else if nss[0].name == name then Some(nss[0]) else NamespaceNamed(nss[1..], name)
  }

  /** No source of the namespace has this name, save the registry `own`. */
  predicate Free(s: Server, namespace: string, name: string, own: Option<string>) {
    && (namespace, name) !in s.others
    && forall r :: r in s.registries && r.namespace == namespace && r.name == name ==> own == Some(r.id)
  }

  /** A create conflicts: the namespace it names exists, and a source there has the name. */
  predicate NameTaken(w: World) {
    match NamespaceNamed(w.server.namespaces, NamespaceOf(w.cr))
    case None => false
    case Some(ns) => !Free(w.server, ns.id, w.cr.spec.name, None)
  }

  function Added(s: Server, id: string, namespace: string, body: Body): Server {
    s.(registries := s.registries + [Registry(id, body.name, namespace, Made(body.fields))],
       issued := s.issued + {id})
  }

  function Minted(s: Server, id: string, name: string, visibility: Visibility): Server {
    s.(namespaces := s.namespaces + [Namespace(id, name)], visibility := s.visibility[id := visibility],
       issued := s.issued + {id})
  }

  /** CreateRegistry, which first mints the namespace if there is none of that name. */
  function ServerCreate(w: World, p: Plan): World {
    var body := CreateBody(w.cr, AuthOf(w));
    match NamespaceNamed(w.server.namespaces, NamespaceOf(w.cr))
    case Some(ns) =>
      if p.create.effect && !NameTaken(w) then w.(server := Added(w.server, p.id, ns.id, body)) else w
    case None =>
      var s := Minted(w.server, p.namespaceID, NamespaceOf(w.cr), VisibilityCreated(body.fields, None));
      if p.create.effect then w.(server := Added(s, p.id, p.namespaceID, body))
      else if p.minted then w.(server := s) else w
  }

  /** Puts `r` where the registry of its id stands. */
  function Replace(rs: seq<Registry>, r: Registry): seq<Registry> {
    if rs == [] then [] else [if rs[0].id == r.id then r else rs[0]] + Replace(rs[1..], r)
  }

  function RenameNamespace(nss: seq<Namespace>, id: string, name: string): seq<Namespace> {
    if nss == [] then []
    else [if nss[0].id == id then Namespace(id, name) else nss[0]] + RenameNamespace(nss[1..], id, name)
  }

  function Told(r: Registry, body: Body): Registry {
    r.(name := body.name, config := Updated(r.config, body.fields))
  }

  /** The registry has a namespace of its own: one that shares its id. */
  predicate Owns(s: Server, id: string) {
    exists ns :: ns in s.namespaces && ns.id == id
  }

  /** The update proper is refused when its name is taken in its namespace, or by a namespace other than its own. */
  predicate WriteAccepted(s: Server, r: Registry, name: string) {
    && Free(s, r.namespace, name, Some(r.id))
    && (Owns(s, r.id) ==> forall ns :: ns in s.namespaces && ns.name == name ==> ns.id == r.id)
  }

  function VisibilityOf(s: Server, namespace: string): Visibility {
    if namespace in s.visibility then s.visibility[namespace] else Private
  }

  /** What an update sends as visibility: the spec's, or that of the namespace the registry is in. */
  function VisibilitySent(s: Server, r: Registry, body: Body): Visibility {
    Or(body.fields.visibility, VisibilityOf(s, r.namespace))
  }

  /** The update proper: a namespace that shares the registry's id gets its name and the visibility sent. */
  function Written(s: Server, r: Registry, body: Body): Server {
    s.(namespaces := RenameNamespace(s.namespaces, r.id, body.name), registries := Replace(s.registries, Told(r, body)),
       visibility := if Owns(s, r.id) then s.visibility[r.id := VisibilitySent(s, r, body)] else s.visibility)
  }

  /** A move never mints: the namespace must exist and have no other source of the name. */
  function MoveTarget(s: Server, id: string, name: string, namespace: string): Option<Namespace> {
    match NamespaceNamed(s.namespaces, namespace)
    case None => None
    case Some(ns) => if Free(s, ns.id, name, Some(id)) then Some(ns) else None
  }

  function MovedTo(s: Server, r: Registry, namespace: string): Server {
    s.(registries := Replace(s.registries, r.(namespace := namespace)))
  }

  /** UpdateRegistry goes through: it is written, and then moved if the spec names a namespace. */
  predicate UpdateAccepted(w: World, id: string) {
    match FindByID(w.server.registries, id)
    case None => false
    case Some(r) =>
      && WriteAccepted(w.server, r, w.cr.spec.name)
      && (w.cr.spec.namespace != "" ==>
            MoveTarget(Written(w.server, r, UpdateBody(w.cr, AuthOf(w))), id, w.cr.spec.name,
                       w.cr.spec.namespace).Some?)
  }

  /** UpdateRegistry: a refused move leaves the registry written and where it was. */
  function ServerUpdate(w: World, id: string, p: Plan): World {
    match FindByID(w.server.registries, id)
    case None => w
    case Some(r) =>
      if !p.update.effect || !WriteAccepted(w.server, r, w.cr.spec.name) then w
      else
        var body := UpdateBody(w.cr, AuthOf(w));
        var s := Written(w.server, r, body);
        var target := MoveTarget(s, id, w.cr.spec.name, w.cr.spec.namespace);
        if w.cr.spec.namespace != "" && p.moved && target.Some? then
          w.(server := MovedTo(s, Told(r, body), target.value.id))
        else w.(server := s)
  }

  // ---------- one reconcile ----------

  function SetReady(st: Status, status: bool, reason: Reason, generation: nat): Status {
    st.(ready := Some(Condition(status, reason, generation)))
  }

  function StoreStatus(w: World, st: Status, p: Plan): World {
    if p.writeStatus.effect then w.(cr := w.cr.(status := st)) else w
  }

  function Fail(w: World, st: Status, reason: Reason, p: Plan): World {
    StoreStatus(w, SetReady(st, false, reason, w.cr.generation), p)
  }

  /** Store a Ready status together with the scan-scope preview, whose failure is recorded and not returned. */
  function Succeed(w: World, st: Status, reason: Reason, p: Plan): World {
    if p.preview.reply == Crashed then w
    else StoreStatus(w, SetReady(st.(scope := Some(Scope(w.cr.generation, p.preview.reply != Ok))), true, reason,
                                 w.cr.generation), p)
  }

  function CreateOrAdopt(w: World, st: Status, p: Plan): World {
    var w1 := ServerCreate(w, p);
    match p.create.reply
    case Crashed => w1
    case Ok =>
      if NameTaken(w) then Adopt(w1, st, p)
      else Succeed(w1, st.(registryID := Some(p.id)), Created, p)
    case _ => Fail(w1, st, APIError, p)
  }

  /** The name is taken: take over the oldest registry that has it anywhere. Nothing is sent to it in this pass. */
  function Adopt(w: World, st: Status, p: Plan): World {
    match p.getByName.reply
    case Crashed => w
    case Ok =>
      (match FindByName(w.server.registries, w.cr.spec.name)
       case Some(r) =>
         StoreStatus(w, SetReady(st.(registryID := Some(r.id)), true, Adopted, w.cr.generation), p)
       case None => Fail(w, st, APIError, p))
    case _ => Fail(w, st, APIError, p)
  }

  /** The get answers not found: it does so to every error of its database, and to a caller who may not see it. */
  predicate GetFindsNone(w: World, id: string, p: Plan) {
    p.getRegistry.reply == NotFound || (p.getRegistry.reply == Ok && FindByID(w.server.registries, id).None?)
  }

  function CheckAndUpdate(w: World, st: Status, id: string, p: Plan): World {
    if p.getRegistry.reply == Crashed then w
    else if GetFindsNone(w, id, p) then
      StoreStatus(w, SetReady(st.(registryID := None), false, RegistryMissing, w.cr.generation), p)
    else if p.getRegistry.reply != Ok then Fail(w, st, APIError, p)
    else
      var w1 := ServerUpdate(w, id, p);
      if p.update.reply == Crashed then w1
      else if p.update.reply == Ok && UpdateAccepted(w, id) then Succeed(w1, st, Synced, p)
      else Fail(w1, st, APIError, p)
  }

  function Dispatch(w: World, st: Status, p: Plan): World {
    if w.cr.spec.authSecret.Some? && p.readSecret.reply == Crashed then w
    else if w.cr.spec.authSecret.Some? && (p.readSecret.reply != Ok || !AuthReadable(w)) then
      Fail(w, st, SecretReadError, p)
    else match st.registryID
      case None => CreateOrAdopt(w, st, p)
      case Some(id) => CheckAndUpdate(w, st, id, p)
  }

  function HandleDeletion(w: World, st: Status, p: Plan): World {
    if !w.cr.finalizer then w
    else match st.registryID
      case None => RemoveFinalizer(w, p)
      case Some(id) =>
        var w1 := if p.delete.effect then
                    w.(server := w.server.(registries := WithoutID(w.server.registries, id)))
                  else w;
        match p.delete.reply
        case Crashed => w1
        case Failed => Fail(w1, st, DeleteError, p)
        case _ => RemoveFinalizer(w1, p)
  }

  function RemoveFinalizer(w: World, p: Plan): World {
    if p.removeFinalizer.effect then w.(cr := w.cr.(finalizer := false, present := false)) else w
  }

  function AddFinalizer(w: World, p: Plan): World {
    if p.addFinalizer.effect then w.(cr := w.cr.(finalizer := true)) else w
  }

  function Reconciled(w: World, p: Plan): World {
    if !w.cr.present || p.get.reply != Ok then w
    else if w.cr.deleting then HandleDeletion(w, w.cr.status, p)
    else if w.cr.finalizer then Dispatch(w, w.cr.status, p)
    else if p.addFinalizer.reply == Ok && p.refetch.reply == Ok then
      Dispatch(AddFinalizer(w, p), w.cr.status, p)
    else AddFinalizer(w, p)
  }

  /** Repeated reconciles of one object whose spec nobody changes, on stores nobody else touches. */
  function Run(w: World, plans: seq<Plan>): World {
    if plans == [] then w else Reconciled(Run(w, plans[..|plans| - 1]), plans[|plans| - 1])
  }

  /** Ids are unique, and names are unique per namespace. */
  predicate Coherent(s: Server) {
    && (forall r :: r in s.registries ==>
          r.id in s.issued && r.namespace in s.issued && (r.namespace, r.name) !in s.others)
    && (forall i, j :: 0 <= i < j < |s.registries| ==>
          && s.registries[i].id != s.registries[j].id
          && (s.registries[i].namespace != s.registries[j].namespace || s.registries[i].name != s.registries[j].name))
    && (forall ns :: ns in s.namespaces ==> ns.id in s.issued)
    && (forall i, j :: 0 <= i < j < |s.namespaces| ==>
          s.namespaces[i].id != s.namespaces[j].id && s.namespaces[i].name != s.namespaces[j].name)
    && (forall o :: o in s.others ==> o.0 in s.issued)
  }

  /** The server's contract for one reconcile: ids are fresh and success is not reported without effect. */
  predicate Legal(w: World, p: Plan) {
    && p.id !in w.server.issued && p.namespaceID !in w.server.issued && p.id != p.namespaceID
    && w.cr.status.registryID != Some(p.id)
    && Truthful(p.addFinalizer) && Truthful(p.create) && Truthful(p.update) && Truthful(p.delete)
    && Truthful(p.writeStatus) && Truthful(p.removeFinalizer) && (p.update.reply == Ok ==> p.moved)
  }

  predicate LegalRun(w: World, plans: seq<Plan>) {
    plans == [] ||
    var before := plans[..|plans| - 1];
    LegalRun(w, before) && Legal(Run(w, before), plans[|plans| - 1])
  }
}
