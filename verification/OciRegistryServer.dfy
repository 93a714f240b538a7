/** What the server keeps while the operator creates and updates registries, and what becomes of a refused update. */
module OciRegistryServer {
  import opened Kubernetes
  import opened Options
  import opened OciRegistryModel
  import opened RegistrySettings

  // ---------- lists ----------

  lemma {:induction false} FindByIDFinds(rs: seq<Registry>, id: string)
    ensures match FindByID(rs, id)
            case None => forall r :: r in rs ==> r.id != id
            case Some(r) => r in rs && r.id == id
  {
    if rs != [] && rs[0].id != id { FindByIDFinds(rs[1..], id); }
  }

  lemma {:induction false} FindByNameFinds(rs: seq<Registry>, name: string)
    ensures match FindByName(rs, name)
            case None => forall r :: r in rs ==> r.name != name
            case Some(r) => r in rs && r.name == name
  {
    if rs != [] && rs[0].name != name { FindByNameFinds(rs[1..], name); }
  }

  lemma {:induction false} NamespaceNamedFinds(nss: seq<Namespace>, name: string)
    ensures match NamespaceNamed(nss, name)
            case None => forall ns :: ns in nss ==> ns.name != name
            case Some(ns) => ns in nss && ns.name == name
  {
    if nss != [] && nss[0].name != name { NamespaceNamedFinds(nss[1..], name); }
  }

  lemma {:induction false} FindByIDAppended(rs: seq<Registry>, r: Registry)
    requires forall o :: o in rs ==> o.id != r.id
    ensures FindByID(rs + [r], r.id) == Some(r)
  {
    if rs != [] {
      assert (rs + [r])[1..] == rs[1..] + [r];
      FindByIDAppended(rs[1..], r);
    }
  }

  lemma {:induction false} FindByIDKept(rs: seq<Registry>, r: Registry, id: string)
    requires r.id != id
    ensures FindByID(rs + [r], id) == FindByID(rs, id)
  {
    if rs != [] {
      assert (rs + [r])[1..] == rs[1..] + [r];
      FindByIDKept(rs[1..], r, id);
    }
  }

  lemma {:induction false} FindByNameAppended(rs: seq<Registry>, r: Registry)
    ensures FindByName(rs + [r], r.name) ==
            if FindByName(rs, r.name).Some? then FindByName(rs, r.name) else Some(r)
  {
    if rs != [] {
      assert (rs + [r])[1..] == rs[1..] + [r];
      FindByNameAppended(rs[1..], r);
    }
  }

  lemma {:induction false} NamespaceAppended(nss: seq<Namespace>, ns: Namespace, name: string)
    ensures NamespaceNamed(nss + [ns], name) ==
            if NamespaceNamed(nss, name).Some? then NamespaceNamed(nss, name)
            else if ns.name == name then Some(ns) else None
  {
    if nss != [] {
      assert (nss + [ns])[1..] == nss[1..] + [ns];
      NamespaceAppended(nss[1..], ns, name);
    }
  }

  lemma {:induction false} ReplaceAt(rs: seq<Registry>, r: Registry)
    ensures |Replace(rs, r)| == |rs|
    ensures forall i :: 0 <= i < |rs| ==> Replace(rs, r)[i] == if rs[i].id == r.id then r else rs[i]
  {
    if rs != [] { ReplaceAt(rs[1..], r); }
  }

  lemma {:induction false} FindAfterReplace(rs: seq<Registry>, r: Registry)
    requires FindByID(rs, r.id).Some?
    ensures FindByID(Replace(rs, r), r.id) == Some(r)
  {
    if rs[0].id != r.id { FindAfterReplace(rs[1..], r); }
  }

  lemma {:induction false} RenameAt(nss: seq<Namespace>, id: string, name: string)
    ensures |RenameNamespace(nss, id, name)| == |nss|
    ensures forall i :: 0 <= i < |nss| ==>
              RenameNamespace(nss, id, name)[i] == if nss[i].id == id then Namespace(id, name) else nss[i]
  {
    if nss != [] { RenameAt(nss[1..], id, name); }
  }

  lemma {:induction false} UniqueName(s: Server, a: Registry, b: Registry)
    requires Coherent(s) && a in s.registries && b in s.registries
    requires a.id == b.id || (a.namespace == b.namespace && a.name == b.name)
    ensures a == b
  {
  }

  lemma {:induction false} UniqueNamespace(s: Server, a: Namespace, b: Namespace)
    requires Coherent(s) && a in s.namespaces && b in s.namespaces && (a.id == b.id || a.name == b.name)
    ensures a == b
  {
  }

  // ---------- creates ----------

  lemma {:induction false} CoherentAfterAdd(s: Server, id: string, namespace: string, body: Body)
    requires Coherent(s) && id !in s.issued && namespace in s.issued && Free(s, namespace, body.name, None)
    ensures Coherent(Added(s, id, namespace, body))
  {
    var made := Registry(id, body.name, namespace, Made(body.fields));
    assert forall r :: r in s.registries + [made] ==> r in s.registries || r == made;
  }

  lemma {:induction false} CoherentAfterMint(s: Server, id: string, name: string, v: Visibility)
    requires Coherent(s) && id !in s.issued && NamespaceNamed(s.namespaces, name).None?
    ensures Coherent(Minted(s, id, name, v)) && Free(Minted(s, id, name, v), id, name, None)
  {
    NamespaceNamedFinds(s.namespaces, name);
    assert forall ns :: ns in s.namespaces + [Namespace(id, name)] ==> ns in s.namespaces || ns == Namespace(id, name);
  }

  lemma {:induction false} FreshIsFree(s: Server, id: string, name: string)
    requires Coherent(s) && id !in s.issued
    ensures Free(s, id, name, None)
  {
  }

  lemma {:induction false} CoherentAfterCreate(w: World, p: Plan)
    requires Coherent(w.server) && Legal(w, p)
    ensures Coherent(ServerCreate(w, p).server)
  {
    var s, body := w.server, CreateBody(w.cr, AuthOf(w));
    NamespaceNamedFinds(s.namespaces, NamespaceOf(w.cr));
    match NamespaceNamed(s.namespaces, NamespaceOf(w.cr))
    case Some(ns) => if !NameTaken(w) { CoherentAfterAdd(s, p.id, ns.id, body); }
    case None =>
      var v := VisibilityCreated(body.fields, None);
      CoherentAfterMint(s, p.namespaceID, NamespaceOf(w.cr), v);
      FreshIsFree(s, p.namespaceID, body.name);
      CoherentAfterAdd(Minted(s, p.namespaceID, NamespaceOf(w.cr), v), p.id, p.namespaceID, body);
  }

  // ---------- updates ----------

  /** The two servers differ at most in the registry `id` and in what its own namespace is called. */
  ghost predicate SameElsewhere(s: Server, t: Server, id: string) {
    && s.others == t.others && s.issued == t.issued && |s.registries| == |t.registries|
    && forall i :: 0 <= i < |s.registries| ==>
         && s.registries[i].id == t.registries[i].id
         && (s.registries[i].id != id ==> s.registries[i] == t.registries[i])
  }

  lemma {:induction false} FreeElsewhere(s: Server, t: Server, namespace: string, name: string, id: string)
    requires SameElsewhere(s, t, id)
    ensures Free(s, namespace, name, Some(id)) <==> Free(t, namespace, name, Some(id))
  {
    forall r | r in s.registries && r.id != id ensures r in t.registries {
      var i :| 0 <= i < |s.registries| && s.registries[i] == r;
    }
    forall r | r in t.registries && r.id != id ensures r in s.registries {
      var i :| 0 <= i < |t.registries| && t.registries[i] == r;
    }
  }

  /** Putting a registry with a free name where it stood keeps the registries coherent. */
  lemma {:induction false} CoherentAfterReplace(s: Server, r: Registry)
    requires Coherent(s) && FindByID(s.registries, r.id).Some? && r.namespace in s.issued
    requires Free(s, r.namespace, r.name, Some(r.id))
    ensures Coherent(s.(registries := Replace(s.registries, r)))
    ensures SameElsewhere(s, s.(registries := Replace(s.registries, r)), r.id)
  {
    ReplaceAt(s.registries, r);
    FindByIDFinds(s.registries, r.id);
    var us := Replace(s.registries, r);
    forall o | o in us
      ensures o.id in s.issued && o.namespace in s.issued && (o.namespace, o.name) !in s.others
    {
      var i :| 0 <= i < |us| && us[i] == o;
      assert s.registries[i] in s.registries;
    }
  }

  lemma {:induction false} CoherentAfterRename(s: Server, id: string, name: string)
    requires Coherent(s)
    requires Owns(s, id) ==> forall ns :: ns in s.namespaces && ns.name == name ==> ns.id == id
    ensures Coherent(s.(namespaces := RenameNamespace(s.namespaces, id, name)))
  {
    RenameAt(s.namespaces, id, name);
    var us := RenameNamespace(s.namespaces, id, name);
    forall ns | ns in us ensures ns.id in s.issued {
      var i :| 0 <= i < |us| && us[i] == ns;
      assert s.namespaces[i] in s.namespaces;
    }
    forall i, j | 0 <= i < j < |us| ensures us[i].id != us[j].id && us[i].name != us[j].name {
      assert s.namespaces[i] in s.namespaces && s.namespaces[j] in s.namespaces;
    }
  }

  lemma {:induction false} NamedAfterRename(nss: seq<Namespace>, id: string, name: string)
    ensures forall ns :: ns in RenameNamespace(nss, id, name) && ns.id == id ==> ns.name == name
  {
    RenameAt(nss, id, name);
  }

  lemma {:induction false} CoherentAfterWrite(s: Server, r: Registry, body: Body)
    requires Coherent(s) && FindByID(s.registries, r.id) == Some(r) && WriteAccepted(s, r, body.name)
    ensures Coherent(Written(s, r, body)) && SameElsewhere(s, Written(s, r, body), r.id)
  {
    FindByIDFinds(s.registries, r.id);
    CoherentAfterRename(s, r.id, body.name);
    CoherentAfterReplace(s.(namespaces := RenameNamespace(s.namespaces, r.id, body.name)), Told(r, body));
  }

  /** What an accepted write leaves. */
  lemma {:induction false} AfterWrite(s: Server, r: Registry, body: Body)
    requires Coherent(s) && FindByID(s.registries, r.id) == Some(r) && WriteAccepted(s, r, body.name)
    ensures var t := Written(s, r, body);
            && Coherent(t) && SameElsewhere(s, t, r.id) && FindByID(t.registries, r.id) == Some(Told(r, body))
            && (forall ns :: ns in t.namespaces && ns.id == r.id ==> ns.name == body.name)
  {
    CoherentAfterWrite(s, r, body);
    FindAfterReplace(s.registries, Told(r, body));
    NamedAfterRename(s.namespaces, r.id, body.name);
  }

  lemma {:induction false} AfterMove(s: Server, r: Registry, namespace: string)
    requires Coherent(s) && FindByID(s.registries, r.id) == Some(r)
    requires MoveTarget(s, r.id, r.name, namespace).Some?
    ensures var ns := MoveTarget(s, r.id, r.name, namespace).value;
            var t := MovedTo(s, r, ns.id);
            && Coherent(t) && SameElsewhere(s, t, r.id) && FindByID(t.registries, r.id) == Some(r.(namespace := ns.id))
  {
    var ns := MoveTarget(s, r.id, r.name, namespace).value;
    NamespaceNamedFinds(s.namespaces, namespace);
    FindByIDFinds(s.registries, r.id);
    CoherentAfterReplace(s, r.(namespace := ns.id));
    FindAfterReplace(s.registries, r.(namespace := ns.id));
  }

  lemma {:induction false} ReplaceSame(rs: seq<Registry>, r: Registry)
    requires forall o :: o in rs && o.id == r.id ==> o == r
    ensures Replace(rs, r) == rs
  {
    ReplaceAt(rs, r);
  }

  lemma {:induction false} RenameSame(nss: seq<Namespace>, id: string, name: string)
    requires forall ns :: ns in nss && ns.id == id ==> ns.name == name
    ensures RenameNamespace(nss, id, name) == nss
  {
    RenameAt(nss, id, name);
    forall i | 0 <= i < |nss| ensures RenameNamespace(nss, id, name)[i] == nss[i] {
      assert nss[i] in nss;
    }
  }

  /** A namespace that shares the registry's id is called by this name. */
  predicate OwnNamed(s: Server, id: string, name: string) {
    forall ns :: ns in s.namespaces && ns.id == id ==> ns.name == name
  }

  /** A registry that has the name is written without a refusal. */
  lemma {:induction false} NamedIsAccepted(s: Server, r: Registry)
    requires Coherent(s) && r in s.registries && OwnNamed(s, r.id, r.name)
    ensures WriteAccepted(s, r, r.name)
  {
    forall o | o in s.registries && o.namespace == r.namespace && o.name == r.name ensures o.id == r.id {
      UniqueName(s, o, r);
    }
    forall own, ns | own in s.namespaces && own.id == r.id && ns in s.namespaces && ns.name == r.name
      ensures ns.id == r.id
    {
      UniqueNamespace(s, own, ns);
    }
  }

  /** A registry that has been written is written again to no effect, visibility aside. */
  lemma {:induction false} WrittenAgain(s: Server, r: Registry, body: Body)
    requires Coherent(s) && r in s.registries && Told(r, body) == r && OwnNamed(s, r.id, body.name)
    ensures Written(s, r, body).registries == s.registries && Written(s, r, body).namespaces == s.namespaces
  {
    forall o | o in s.registries && o.id == r.id ensures o == r { UniqueName(s, o, r); }
    ReplaceSame(s.registries, r);
    RenameSame(s.namespaces, r.id, body.name);
  }

  /** What an update that is written leaves, moved or not. */
  lemma {:induction false} AfterUpdate(w: World, r: Registry, p: Plan)
    requires Coherent(w.server) && FindByID(w.server.registries, r.id) == Some(r)
    requires WriteAccepted(w.server, r, w.cr.spec.name) && p.update.effect
    ensures var body := UpdateBody(w.cr, AuthOf(w));
            var t, u := ServerUpdate(w, r.id, p).server, Written(w.server, r, body);
            && Coherent(t) && SameElsewhere(w.server, t, r.id) && SameElsewhere(u, t, r.id)
            && t.namespaces == u.namespaces && OwnNamed(t, r.id, body.name)
            && FindByID(t.registries, r.id).Some?
            && var v := FindByID(t.registries, r.id).value;
               && v == Told(r, body).(namespace := v.namespace)
               && (w.cr.spec.namespace == "" ==> v.namespace == r.namespace)
  {
    var body := UpdateBody(w.cr, AuthOf(w));
    var u := Written(w.server, r, body);
    AfterWrite(w.server, r, body);
    if MoveTarget(u, r.id, body.name, w.cr.spec.namespace).Some? {
      AfterMove(u, Told(r, body), w.cr.spec.namespace);
    }
  }

  /** The registry is in the namespace the spec names, if it names one. */
  predicate InPlace(w: World, r: Registry) {
    w.cr.spec.namespace != "" ==>
      NamespaceNamed(w.server.namespaces, w.cr.spec.namespace) == Some(Namespace(r.namespace, w.cr.spec.namespace))
  }

  /** An accepted update that gets to its move leaves the registry in place. */
  lemma {:induction false} MovedInPlace(w: World, r: Registry, p: Plan)
    requires Coherent(w.server) && FindByID(w.server.registries, r.id) == Some(r)
    requires UpdateAccepted(w, r.id) && p.update.effect && p.moved && w.cr.spec.namespace != ""
    ensures var t := ServerUpdate(w, r.id, p);
            FindByID(t.server.registries, r.id).Some? && InPlace(t, FindByID(t.server.registries, r.id).value)
  {
    var body := UpdateBody(w.cr, AuthOf(w));
    var u := Written(w.server, r, body);
    AfterWrite(w.server, r, body);
    AfterMove(u, Told(r, body), w.cr.spec.namespace);
    NamespaceNamedFinds(u.namespaces, w.cr.spec.namespace);
  }

  lemma {:induction false} TargetElsewhere(s: Server, t: Server, id: string, name: string, namespace: string)
    requires SameElsewhere(s, t, id) && s.namespaces == t.namespaces
    ensures MoveTarget(s, id, name, namespace) == MoveTarget(t, id, name, namespace)
  {
    match NamespaceNamed(s.namespaces, namespace)
    case None =>
    case Some(ns) => FreeElsewhere(s, t, ns.id, name, id);
  }

  /** An update, landed or not, moved or not, is accepted the next time exactly if it was to be accepted this time. */
  lemma {:induction false} AcceptedAgain(w: World, id: string, p: Plan)
    requires Coherent(w.server)
    ensures UpdateAccepted(ServerUpdate(w, id, p), id) <==> UpdateAccepted(w, id)
  {
    match FindByID(w.server.registries, id)
    case None =>
    case Some(r) =>
      FindByIDFinds(w.server.registries, id);
      if p.update.effect && WriteAccepted(w.server, r, w.cr.spec.name) {
        var body := UpdateBody(w.cr, AuthOf(w));
        var t := ServerUpdate(w, id, p).server;
        AfterUpdate(w, r, p);
        FindByIDFinds(t.registries, id);
        var v := FindByID(t.registries, id).value;
        NamedIsAccepted(t, v);
        OneUpdateSettles(r.config, body.fields);
        WrittenAgain(t, v, body);
        TargetElsewhere(Written(w.server, r, body), Written(t, v, body), id, body.name, w.cr.spec.namespace);
      }
  }

  /** A registry that has the name and place the spec asks for takes the update. */
  lemma {:induction false} SettledIsAccepted(w: World, r: Registry)
    requires Coherent(w.server) && FindByID(w.server.registries, r.id) == Some(r)
    requires r.name == w.cr.spec.name && OwnNamed(w.server, r.id, r.name) && InPlace(w, r)
    ensures UpdateAccepted(w, r.id)
  {
    var body := UpdateBody(w.cr, AuthOf(w));
    FindByIDFinds(w.server.registries, r.id);
    NamedIsAccepted(w.server, r);
    RenameSame(w.server.namespaces, r.id, r.name);
    CoherentAfterWrite(w.server, r, body);
    FreeElsewhere(w.server, Written(w.server, r, body), r.namespace, r.name, r.id);
  }

  /** A create that goes through adds one registry, as asked, in the namespace asked for. */
  lemma {:induction false} AfterCreate(w: World, p: Plan)
    requires Coherent(w.server) && Legal(w, p) && !NameTaken(w) && p.create.effect
    ensures var t := ServerCreate(w, p).server;
            && |t.registries| == |w.server.registries| + 1
            && var made := t.registries[|w.server.registries|];
               && t.registries == w.server.registries + [made]
               && made == Registry(p.id, w.cr.spec.name, made.namespace, made.config)
               && made.config == Made(CreateBody(w.cr, AuthOf(w)).fields)
               && NamespaceNamed(t.namespaces, NamespaceOf(w.cr)) == Some(Namespace(made.namespace, NamespaceOf(w.cr)))
               && forall ns :: ns in t.namespaces ==> ns.id != p.id
  {
    NamespaceNamedFinds(w.server.namespaces, NamespaceOf(w.cr));
    NamespaceAppended(w.server.namespaces, Namespace(p.namespaceID, NamespaceOf(w.cr)), NamespaceOf(w.cr));
  }
}
