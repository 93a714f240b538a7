/**
 * The two stores an APIKey reconcile acts on, and what one reconcile does to them. The stored status is kept apart
 * from the in-memory copy `cr`, which is lost unless a status write takes effect.
 */
module ApiKeyModel {
  import opened Kubernetes
  import opened Options

  datatype Spec = Spec(name: string, capabilities: seq<string>, secretName: string)

  /** `keyID` and `prefix` are None where the stored strings are empty. */
  datatype Status = Status(keyID: Option<string>, prefix: Option<string>, ready: Option<Condition>)

  /** The request for a new key. An empty capability list is left absent rather than sent. */
  datatype Body = Body(name: string, capabilities: Option<seq<string>>)

  /** Who asked for a key: somebody else, or this operator for one generation of the spec. */
  datatype Origin = External | Operator(generation: nat, secretName: string)

  datatype Key = Key(id: string, plaintext: string, prefix: string, body: Body, origin: Origin)

  /** The stored custom resource. */
  datatype Resource = Resource(
    present: bool, deleting: bool, finalizer: bool, generation: nat, spec: Spec, status: Status)

  /** `keys` is what ListAPIKeys returns, oldest first. `issued` remembers every id the server ever handed out. */
  datatype Server = Server(keys: seq<Key>, issued: set<string>)

  datatype World = World(cr: Resource, secrets: map<string, string>, server: Server)

  /** The oracle for one reconcile: how each call it may make ends, and the key the server would hand out. */
  datatype Plan = Plan(
    get: Call, addFinalizer: Call, refetch: Call,
    list: Call, delete: Call, create: Call, lookup: Call, writeSecret: Call, writeStatus: Call,
    getSecret: Call, deleteSecret: Call, removeFinalizer: Call,
    id: string, plaintext: string)

  /** The first eight characters, or all of a shorter string. */
  function Prefix(plaintext: string): string {
    if |plaintext| > 8 then plaintext[..8] else plaintext
  }

  function BodyOf(spec: Spec): Body {
    Body(spec.name, if |spec.capabilities| > 0 then Some(spec.capabilities) else None)
  }

  /** The live keys other than `id`, in list order. */
  function Without(keys: seq<Key>, id: string): seq<Key> {
    if keys == [] then []
    else
      var rest := Without(keys[..|keys| - 1], id);
      if keys[|keys| - 1].id == id then rest else rest + [keys[|keys| - 1]]
  }

  predicate Live(keys: seq<Key>, id: string) {
    exists k :: k in keys && k.id == id
  }

  /** The first listed key with this prefix. */
  function FirstByPrefix(keys: seq<Key>, prefix: string): Option<Key> {
    if keys == [] then None
    else if keys[0].prefix == prefix then Some(keys[0])
    else FirstByPrefix(keys[1..], prefix)
  }

  function SetReady(st: Status, status: bool, reason: Reason, generation: nat): Status {
    st.(ready := Some(Condition(status, reason, generation)))
  }

  function StoreStatus(w: World, st: Status, p: Plan): World {
    if p.writeStatus.effect then w.(cr := w.cr.(status := st)) else w
  }

  /** An error path: record Ready=False and try to store it; the write's own failure is ignored. */
  function Fail(w: World, st: Status, reason: Reason, p: Plan): World {
    StoreStatus(w, SetReady(st, false, reason, w.cr.generation), p)
  }

  function NewKey(cr: Resource, p: Plan): Key {
    Key(p.id, p.plaintext, Prefix(p.plaintext), BodyOf(cr.spec), Operator(cr.generation, cr.spec.secretName))
  }

  function Mint(w: World, p: Plan): World {
    w.(server := Server(w.server.keys + [NewKey(w.cr, p)], w.server.issued + {p.id}))
  }

  function CreateAndPersist(w: World, st: Status, p: Plan): World {
    var w1 := if p.create.effect then Mint(w, p) else w;
    match p.create.reply
    case Crashed => w1
    case Ok => FindAndPersist(w1, st, p)
    case _ => Fail(w1, st, APIError, p)
  }

  function FindAndPersist(w: World, st: Status, p: Plan): World {
    match p.lookup.reply
    case Crashed => w
    case Ok =>
      (match FirstByPrefix(w.server.keys, Prefix(p.plaintext))
       case None => Fail(w, st, LookupError, p)
       case Some(k) => WriteAndPersist(w, st, k, p))
    case _ => Fail(w, st, LookupError, p)
  }

  function WriteAndPersist(w: World, st: Status, k: Key, p: Plan): World {
    var w1 := if p.writeSecret.effect then w.(secrets := w.secrets[w.cr.spec.secretName := p.plaintext]) else w;
    match p.writeSecret.reply
    case Crashed => w1
    case Ok =>
      StoreStatus(w1, SetReady(Status(Some(k.id), Some(k.prefix), st.ready), true, Created, w.cr.generation), p)
    case _ => Fail(w1, st, SecretWriteError, p)
  }

  function VerifyOrRotate(w: World, st: Status, id: string, p: Plan): World {
    match p.list.reply
    case Crashed => w
    case Ok =>
      if !Live(w.server.keys, id) then
        StoreStatus(w, SetReady(Status(None, None, st.ready), false, KeyMissing, w.cr.generation), p)
      else if NeedsRotation(w.cr.generation, st) then
        Rotate(w, st, id, p)
      else
        StoreStatus(w, SetReady(st, true, Synced, w.cr.generation), p)
    case _ => Fail(w, st, APIError, p)
  }

  /** Rotation happens only out of Ready=True recorded for an older generation. */
  predicate NeedsRotation(generation: nat, st: Status) {
    st.ready.Some? && st.ready.value.status && st.ready.value.observedGeneration < generation
  }

  function DeleteKey(w: World, id: string, p: Plan): World {
    if p.delete.effect then w.(server := w.server.(keys := Without(w.server.keys, id))) else w
  }

  function Rotate(w: World, st: Status, id: string, p: Plan): World {
    var w1 := DeleteKey(w, id, p);
    match p.delete.reply
    case Crashed => w1
    case Failed => Fail(w1, st, RotateError, p)
    case _ => CreateAndPersist(w1, Status(None, None, st.ready), p)
  }

  function HandleDeletion(w: World, st: Status, p: Plan): World {
    if !w.cr.finalizer then w
    else match st.keyID
      case None => RemoveSecret(w, p)
      case Some(id) =>
        var w1 := DeleteKey(w, id, p);
        match p.delete.reply
        case Crashed => w1
        case Failed => Fail(w1, st, DeleteError, p)
        case _ => RemoveSecret(w1, p)
  }

  /** The Secret is deleted only when reading it succeeds: a failed read is not told apart from an absent Secret. */
  function RemoveSecret(w: World, p: Plan): World {
    if p.getSecret.reply == Crashed then w
    else if p.getSecret.reply == Ok && w.cr.spec.secretName in w.secrets then
      var w1 := if p.deleteSecret.effect then w.(secrets := w.secrets - {w.cr.spec.secretName}) else w;
      if p.deleteSecret.reply == Ok || p.deleteSecret.reply == NotFound then RemoveFinalizer(w1, p) else w1
    else RemoveFinalizer(w, p)
  }

  /** A deleted object disappears with its last finalizer. */
  function RemoveFinalizer(w: World, p: Plan): World {
    if p.removeFinalizer.effect then w.(cr := w.cr.(finalizer := false, present := false)) else w
  }

  function Dispatch(w: World, st: Status, p: Plan): World {
    match st.keyID
    case None => CreateAndPersist(w, st, p)
    case Some(id) => VerifyOrRotate(w, st, id, p)
  }

  function AddFinalizer(w: World, p: Plan): World {
    if p.addFinalizer.effect then w.(cr := w.cr.(finalizer := true)) else w
  }

  /** One reconcile, from reading the object to its last call. */
  function Reconciled(w: World, p: Plan): World {
    if !w.cr.present || p.get.reply != Ok then w
    else if w.cr.deleting then HandleDeletion(w, w.cr.status, p)
    else if w.cr.finalizer then Dispatch(w, w.cr.status, p)
    else if p.addFinalizer.reply == Ok && p.refetch.reply == Ok then
      Dispatch(AddFinalizer(w, p), w.cr.status, p)
    else AddFinalizer(w, p)
  }

  /** What can happen between two reconciles. */
  datatype Event =
    | Reconcile(plan: Plan)
    | ChangeSpec(spec: Spec)
    | RequestDeletion
    | DeleteRemotely(id: string)
    | CreateRemotely(key: Key)

  function Step(w: World, e: Event): World {
    match e
    case Reconcile(p) => Reconciled(w, p)
    case ChangeSpec(spec) => w.(cr := w.cr.(spec := spec, generation := w.cr.generation + 1))
    case RequestDeletion => w.(cr := if w.cr.finalizer then w.cr.(deleting := true) else w.cr.(present := false))
    case DeleteRemotely(id) => w.(server := w.server.(keys := Without(w.server.keys, id)))
    case CreateRemotely(k) => w.(server := Server(w.server.keys + [k], w.server.issued + {k.id}))
  }

  function Run(w: World, events: seq<Event>): World {
    if events == [] then w else Step(Run(w, events[..|events| - 1]), events[|events| - 1])
  }

  /** A fresh custom resource; the account may already hold keys of its own. */
  predicate Initial(w: World) {
    && w.cr.present && !w.cr.deleting && !w.cr.finalizer && w.cr.status == Status(None, None, None)
    && (forall k :: k in w.server.keys ==> k.origin == External)
    && CoherentServer(w.server, w.cr.generation, w.cr.spec)
  }

  /** What the server and the serialized operator keep true of the two stores in every run. */
  predicate Coherent(w: World) {
    && CoherentServer(w.server, w.cr.generation, w.cr.spec)
    && (w.cr.status.keyID.Some? ==>
          w.cr.status.keyID.value in w.server.issued && (w.cr.present ==> w.cr.finalizer))
  }

  /** Live keys have distinct issued ids, and those minted for the current generation carry the current spec. */
  predicate CoherentServer(s: Server, generation: nat, spec: Spec) {
    && (forall k :: k in s.keys ==> k.id in s.issued && k.prefix == Prefix(k.plaintext))
    && (forall i, j :: 0 <= i < j < |s.keys| ==> s.keys[i].id != s.keys[j].id)
    && (forall k :: k in s.keys && k.origin.Operator? ==>
          && k.origin.generation <= generation
          && (k.origin.generation == generation ==>
                k.body == BodyOf(spec) && k.origin.secretName == spec.secretName))
  }

  predicate FreshKey(s: Server, id: string, plaintext: string) {
    id !in s.issued && forall k :: k in s.keys ==> k.plaintext != plaintext
  }

  /** The server and Kubernetes contracts. A delete may answer NotFound without having deleted a live key. */
  predicate Legal(w: World, e: Event) {
    match e
    case Reconcile(p) =>
      && Truthful(p.addFinalizer) && Truthful(p.delete) && Truthful(p.create) && Truthful(p.writeSecret)
      && Truthful(p.writeStatus) && Truthful(p.deleteSecret) && Truthful(p.removeFinalizer)
      && (p.deleteSecret.reply == NotFound ==> p.deleteSecret.effect)
      && FreshKey(w.server, p.id, p.plaintext)
    case CreateRemotely(k) =>
      FreshKey(w.server, k.id, k.plaintext) && k.prefix == Prefix(k.plaintext) && k.origin == External
    case _ => true
  }

  predicate LegalRun(w: World, events: seq<Event>) {
    events == [] ||
    var before := events[..|events| - 1];
    LegalRun(w, before) && Legal(Run(w, before), events[|events| - 1])
  }
}
