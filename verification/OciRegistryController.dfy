/** The OCIRegistry reconciler itself, call by call, in the order the operator makes them. */
module OciRegistryController {
  import opened Kubernetes
  import opened Options
  import opened OciRegistryModel
  import opened RegistrySettings

  class OciRegistryReconciler {
    var cr: Resource                 // the stored custom resource
    var secrets: map<string, Auth>   // the namespace's registry credentials, by Secret name
    var server: Server               // the OCIDex server
    var mem: Status                  // the status of the in-memory copy; lost unless written

    ghost function World(): World
      reads this
    {
      OciRegistryModel.World(cr, secrets, server)
    }

    constructor (w: World)
      ensures World() == w
    {
      cr, secrets, server, mem := w.cr, w.secrets, w.server, w.cr.status;
    }

    method Reconcile(p: Plan)
      modifies this
      ensures World() == Reconciled(old(World()), p)
    {
      if !cr.present || p.get.reply != Ok { return; }
      mem := cr.status;
      if cr.deleting {
        HandleDeletion(p);
        return;
      }
      if !cr.finalizer {
        if p.addFinalizer.effect { cr := cr.(finalizer := true); }
        if p.addFinalizer.reply != Ok { return; }
        if p.refetch.reply != Ok { return; }
      }
      var auth: Option<Auth> := None;
      if cr.spec.authSecret.Some? {
        if p.readSecret.reply == Crashed { return; }
        if p.readSecret.reply != Ok || cr.spec.authSecret.value !in secrets {
          RecordFailure(SecretReadError, p);
          return;
        }
        if secrets[cr.spec.authSecret.value].username != "" { auth := Some(secrets[cr.spec.authSecret.value]); }
      }
      if mem.registryID.None? {
        CreateOrAdopt(auth, p);
      } else {
        CheckAndUpdate(mem.registryID.value, auth, p);
      }
    }

    method CreateOrAdopt(auth: Option<Auth>, p: Plan)
      requires auth == AuthOf(World())
      modifies this
      ensures World() == OciRegistryModel.CreateOrAdopt(old(World()), old(mem), p)
    {
      var body := SpecToBody(if cr.spec.namespace != "" then cr.spec.namespace else cr.namespace, None, auth);
      var conflict := CallCreate(body, p);
      if p.create.reply == Crashed { return; }
      if p.create.reply != Ok {
        RecordFailure(APIError, p);
        return;
      }
      if conflict {
        if p.getByName.reply == Crashed { return; }
        var existing := FindByName(server.registries, body.name);
        if p.getByName.reply != Ok || existing.None? {
          RecordFailure(APIError, p);
          return;
        }
        mem := SetReady(mem.(registryID := Some(existing.value.id)), true, Adopted, cr.generation);
        UpdateStatus(p);
        return;
      }
      mem := mem.(registryID := Some(p.id));
      RecordSuccess(Created, p);
    }

    method CheckAndUpdate(id: string, auth: Option<Auth>, p: Plan)
      requires auth == AuthOf(World())
      modifies this
      ensures World() == OciRegistryModel.CheckAndUpdate(old(World()), old(mem), id, p)
    {
      if p.getRegistry.reply == Crashed { return; }
      if p.getRegistry.reply == NotFound || (p.getRegistry.reply == Ok && FindByID(server.registries, id).None?) {
        mem := SetReady(mem.(registryID := None), false, RegistryMissing, cr.generation);
        UpdateStatus(p);
        return;
      }
      if p.getRegistry.reply != Ok {
        RecordFailure(APIError, p);
        return;
      }
      var body := SpecToBody(cr.spec.namespace, Some(true), auth);
      var accepted := CallUpdate(id, body, p);
      if p.update.reply == Crashed { return; }
      if p.update.reply != Ok || !accepted {
        RecordFailure(APIError, p);
        return;
      }
      RecordSuccess(Synced, p);
    }

    /** The server's side of a create: mint the namespace if there is none of the name, then add the registry. */
    method CallCreate(body: Body, p: Plan) returns (conflict: bool)
      requires body == CreateBody(cr, AuthOf(World()))
      modifies this`server
      ensures World() == ServerCreate(old(World()), p) && conflict == NameTaken(old(World()))
    {
      var place := NamespaceNamed(server.namespaces, NamespaceOf(cr));
      if place.None? {
        if p.create.effect || p.minted {
          server := Minted(server, p.namespaceID, NamespaceOf(cr), VisibilityCreated(body.fields, None));
        }
        if p.create.effect { server := Added(server, p.id, p.namespaceID, body); }
        return false;
      }
      conflict := !Free(server, place.value.id, body.name, None);
      if p.create.effect && !conflict { server := Added(server, p.id, place.value.id, body); }
    }

    /** The server's side of an update: write the registry, then move it if the request names a namespace. */
    method CallUpdate(id: string, body: Body, p: Plan) returns (accepted: bool)
      requires body == UpdateBody(cr, AuthOf(World())) && FindByID(server.registries, id).Some?
      modifies this`server
      ensures World() == ServerUpdate(old(World()), id, p) && accepted == UpdateAccepted(old(World()), id)
    {
      var r := FindByID(server.registries, id).value;
      accepted := WriteAccepted(server, r, body.name);
      if !accepted { return; }
      var written := Written(server, r, body);
      if p.update.effect { server := written; }
      if body.namespace.None? { return; }
      var target := MoveTarget(written, id, body.name, body.namespace.value);
      accepted := target.Some?;
      if accepted && p.update.effect && p.moved { server := MovedTo(server, Told(r, body), target.value.id); }
    }

    method HandleDeletion(p: Plan)
      modifies this
      ensures World() == OciRegistryModel.HandleDeletion(old(World()), old(mem), p)
    {
      if !cr.finalizer { return; }
      if mem.registryID.Some? {
        if p.delete.effect {
          server := server.(registries := WithoutID(server.registries, mem.registryID.value));
        }
        if p.delete.reply == Crashed { return; }
        if p.delete.reply == Failed {
          RecordFailure(DeleteError, p);
          return;
        }
      }
      if p.removeFinalizer.effect { cr := cr.(finalizer := false, present := false); }
    }

    /** Fills a request from the spec; `namespace` is the one to send, empty for none. What is left out is not sent. */
    method SpecToBody(namespace: string, enabled: Option<bool>, auth: Option<Auth>) returns (body: Body)
      ensures body == Body(cr.spec.name, Explicit(namespace),
                           FieldsOf(cr.spec.settings, enabled, (cr.namespace, cr.name), auth))
    {
      var s := cr.spec.settings;
      var repositories, repositoryPatterns, tagPatterns: Option<seq<string>> := None, None, None;
      if |s.repositories| > 0 { repositories := Some(s.repositories); }
      if |s.repositoryPatterns| > 0 { repositoryPatterns := Some(s.repositoryPatterns); }
      if |s.tagPatterns| > 0 { tagPatterns := Some(s.tagPatterns); }
      var includeUntagged: Option<bool> := None;
      if s.includeUntagged { includeUntagged := Some(true); }
      var tagLimit, tagOrder, maxTagAgeDays := SpecScanWindow();
      var fields := Fields(s.url, s.kind, s.insecure, enabled, s.visibility, s.scanMode, s.pollMinutes, repositories,
                           repositoryPatterns, tagPatterns, includeUntagged, s.verificationMode, s.trust,
                           Some(tagLimit), Some(tagOrder), Some(maxTagAgeDays), Some((cr.namespace, cr.name)), auth);
      body := Body(cr.spec.name, None, fields);
      if namespace != "" { body := body.(namespace := Some(namespace)); }
    }

    /** The scan window with the defaults of the custom resource, so that all three fields are always sent. */
    method SpecScanWindow() returns (tagLimit: int, tagOrder: TagOrder, maxTagAgeDays: int)
      ensures var s := cr.spec.settings;
              && (tagLimit == if s.tagLimit.Some? then s.tagLimit.value else 50)
              && (tagOrder == if s.tagOrder.Some? then s.tagOrder.value else Auto)
              && (maxTagAgeDays == if s.maxTagAgeDays.Some? then s.maxTagAgeDays.value else 0)
    {
      var s := cr.spec.settings;
      tagLimit, tagOrder, maxTagAgeDays := 50, Auto, 0;
      if s.tagLimit.Some? { tagLimit := s.tagLimit.value; }
      if s.tagOrder.Some? { tagOrder := s.tagOrder.value; }
      if s.maxTagAgeDays.Some? { maxTagAgeDays := s.maxTagAgeDays.value; }
    }

    method RecordSuccess(reason: Reason, p: Plan)
      modifies this
      ensures World() == Succeed(old(World()), old(mem), reason, p)
    {
      mem := SetReady(mem, true, reason, cr.generation);
      if p.preview.reply == Crashed { return; }
      mem := mem.(scope := Some(Scope(cr.generation, p.preview.reply != Ok)));
      UpdateStatus(p);
    }

    method RecordFailure(reason: Reason, p: Plan)
      modifies this
      ensures World() == Fail(old(World()), old(mem), reason, p)
    {
      mem := SetReady(mem, false, reason, cr.generation);
      UpdateStatus(p);
    }

    method UpdateStatus(p: Plan)
      modifies this`cr
      ensures World() == StoreStatus(old(World()), mem, p)
    {
      if p.writeStatus.effect { cr := cr.(status := mem); }
    }
  }
}
