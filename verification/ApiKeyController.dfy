/** The APIKey reconciler itself, call by call, in the order the operator makes them. */
module ApiKeyController {
  import opened Kubernetes
  import opened Options
  import opened ApiKeyModel

  class ApiKeyReconciler {
    var cr: Resource                   // the stored custom resource
    var secrets: map<string, string>   // the namespace's Secrets, by name
    var server: Server                 // the OCIDex server's keys for this account
    var mem: Status                    // the status of the in-memory copy; lost unless written

    ghost function World(): World
      reads this
    {
      ApiKeyModel.World(cr, secrets, server)
    }

    constructor (w: World)
      ensures World() == w
    {
      cr, secrets, server, mem := w.cr, w.secrets, w.server, w.cr.status;
    }

    method Reconcile(p: Plan)
      modifies this
      ensures World() == Reconciled(old(World()), p)
    {
      if !cr.present || p.get.reply != Ok { return; }
      mem := cr.status;
      if cr.deleting {
        HandleDeletion(p);
        return;
      }
      if !cr.finalizer {
        if p.addFinalizer.effect { cr := cr.(finalizer := true); }
        if p.addFinalizer.reply != Ok { return; }
        if p.refetch.reply != Ok { return; }
      }
      if mem.keyID.None? {
        CreateAndPersist(p);
      } else {
        VerifyOrRotate(mem.keyID.value, p);
      }
    }

    method CreateAndPersist(p: Plan)
      modifies this
      ensures World() == ApiKeyModel.CreateAndPersist(old(World()), old(mem), p)
    {
      if p.create.effect {
        server := Server(server.keys + [NewKey(cr, p)], server.issued + {p.id});
      }
      if p.create.reply == Crashed { return; }
      if p.create.reply != Ok {
        RecordFailure(APIError, p);
        return;
      }
      if p.lookup.reply == Crashed { return; }
      var found: Option<Key> := None;
      if p.lookup.reply == Ok { found := FindKeyByPrefix(Prefix(p.plaintext)); }
      if found.None? {
        RecordFailure(LookupError, p);
        return;
      }
      if p.writeSecret.effect { secrets := secrets[cr.spec.secretName := p.plaintext]; }
      if p.writeSecret.reply == Crashed { return; }
      if p.writeSecret.reply != Ok {
        RecordFailure(SecretWriteError, p);
        return;
      }
      mem := mem.(keyID := Some(found.value.id), prefix := Some(found.value.prefix));
      mem := SetReady(mem, true, Created, cr.generation);
      UpdateStatus(p);
    }

    method VerifyOrRotate(id: string, p: Plan)
      requires mem.keyID == Some(id)
      modifies this
      ensures World() == ApiKeyModel.VerifyOrRotate(old(World()), old(mem), id, p)
    {
      if p.list.reply == Crashed { return; }
      if p.list.reply != Ok {
        RecordFailure(APIError, p);
        return;
      }
      var found := IsListed(id);
      if !found {
        mem := SetReady(mem.(keyID := None, prefix := None), false, KeyMissing, cr.generation);
        UpdateStatus(p);
        return;
      }
      if mem.ready.Some? && mem.ready.value.status && mem.ready.value.observedGeneration < cr.generation {
        Rotate(id, p);
        return;
      }
      mem := SetReady(mem, true, Synced, cr.generation);
      UpdateStatus(p);
    }

    method Rotate(id: string, p: Plan)
      modifies this
      ensures World() == ApiKeyModel.Rotate(old(World()), old(mem), id, p)
    {
      if p.delete.effect { server := server.(keys := Without(server.keys, id)); }
      if p.delete.reply == Crashed { return; }
      if p.delete.reply == Failed {
        RecordFailure(RotateError, p);
        return;
      }
      mem := mem.(keyID := None, prefix := None);
      CreateAndPersist(p);
    }

    method HandleDeletion(p: Plan)
      modifies this
      ensures World() == ApiKeyModel.HandleDeletion(old(World()), old(mem), p)
    {
      if !cr.finalizer { return; }
      if mem.keyID.Some? {
        if p.delete.effect { server := server.(keys := Without(server.keys, mem.keyID.value)); }
        if p.delete.reply == Crashed { return; }
        if p.delete.reply == Failed {
          RecordFailure(DeleteError, p);
          return;
        }
      }
      if p.getSecret.reply == Crashed { return; }
      if p.getSecret.reply == Ok && cr.spec.secretName in secrets {
        if p.deleteSecret.effect { secrets := secrets - {cr.spec.secretName}; }
        if p.deleteSecret.reply != Ok && p.deleteSecret.reply != NotFound { return; }
      }
      if p.removeFinalizer.effect { cr := cr.(finalizer := false, present := false); }
    }

    /** The key whose server-reported prefix matches, or None: ListAPIKeys is scanned in order. */
    method FindKeyByPrefix(prefix: string) returns (found: Option<Key>)
      ensures found == FirstByPrefix(server.keys, prefix)
    {
      var i := 0;
      while i < |server.keys|
        invariant 0 <= i <= |server.keys|
        invariant FirstByPrefix(server.keys, prefix) == FirstByPrefix(server.keys[i..], prefix)
      {
        if server.keys[i].prefix == prefix { return Some(server.keys[i]); }
        assert server.keys[i..][1..] == server.keys[i + 1..];
        i := i + 1;
      }
      return None;
    }

    method IsListed(id: string) returns (found: bool)
      ensures found <==> Live(server.keys, id)
    {
      found := false;
      for i := 0 to |server.keys|
        invariant !found && forall j :: 0 <= j < i ==> server.keys[j].id != id
      {
        if server.keys[i].id == id { return true; }
      }
    }

    method RecordFailure(reason: Reason, p: Plan)
      modifies this
      ensures World() == Fail(old(World()), old(mem), reason, p)
    {
      mem := SetReady(mem, false, reason, cr.generation);
      UpdateStatus(p);
    }

    method UpdateStatus(p: Plan)
      modifies this`cr
      ensures World() == StoreStatus(old(World()), mem, p)
    {
      if p.writeStatus.effect { cr := cr.(status := mem); }
    }
  }
}
