/** Namespace capabilities: the role table as a parameter, and runs of membership changes guarded by it. */
module Authz {
  import opened Options

  type Role = string
  type Capability = string

  /** Which capabilities each role names, and whether it holds them. */
  type Table = map<Role, map<Capability, bool>>

  const READ_PRIVATE: Capability := "read_private"
  const MANAGE_MEMBER: Capability := "manage_member"
  const ADMIN := "admin"
  const VIEWER := "viewer"

  /** An unknown role or capability grants nothing. */
  predicate Allows(t: Table, r: Role, c: Capability) {
    r in t && c in t[r] && t[r][c]
  }

  /** Every capability `other` is listed as holding is held by `r`. */
  predicate Dominates(t: Table, r: Role, other: Role) {
    other in t ==> forall c :: c in t[other] && t[other][c] ==> Allows(t, r, c)
  }

  function CapsOf(t: Table, r: Role): set<Capability> {
    if r in t then set c | c in t[r] && t[r][c] else {}
  }

  /** May a caller with this installation-wide role and this membership, if any, use the capability here? */
  predicate Allow(t: Table, globalRole: string, member: Role, present: bool, c: Capability) {
    if globalRole == ADMIN then true
    else if !present then false
    else if globalRole == VIEWER then c == READ_PRIVATE && Allows(t, member, c)
    else Allows(t, member, c)
  }

  /** `ceiling` is what the caller's API key may do at most; None is a session without a key. */
  datatype User = User(id: string, globalRole: string, ceiling: Option<set<Capability>>, grants: map<string, Role>)

  predicate KeyAllows(u: User, c: Capability) {
    u.ceiling.Some? ==> c in u.ceiling.value
  }

  predicate Can(t: Table, u: User, namespace: string, c: Capability) {
    && KeyAllows(u, c)
    && var present := namespace in u.grants && namespace != "";
       Allow(t, u.globalRole, if present then u.grants[namespace] else "", present, c)
  }

  predicate MayGrant(t: Table, u: User, namespace: string, role: Role) {
    u.globalRole == ADMIN || (namespace != "" && namespace in u.grants && Dominates(t, u.grants[namespace], role))
  }

  // ---------- the lattice ----------

  /** Dominance is inclusion of capability sets. */
  lemma {:induction false} DominatesIsInclusion(t: Table, r: Role, other: Role)
    ensures Dominates(t, r, other) <==> CapsOf(t, other) <= CapsOf(t, r)
  {
    if CapsOf(t, other) <= CapsOf(t, r) && other in t {
      forall c | c in t[other] && t[other][c] ensures Allows(t, r, c) { assert c in CapsOf(t, other); }
    }
  }

  /** So it is reflexive and transitive. */
  lemma {:induction false} DominatesIsPreorder(t: Table, a: Role, b: Role, c: Role)
    ensures Dominates(t, a, a)
    ensures Dominates(t, a, b) && Dominates(t, b, c) ==> Dominates(t, a, c)
  {
    DominatesIsInclusion(t, a, b);
    DominatesIsInclusion(t, b, c);
    DominatesIsInclusion(t, a, c);
  }

  /**
   * Whatever the installation-wide role, a dominating member role answers yes wherever the dominated one does; and
   * for a caller who is neither admin nor viewer nothing less than dominance gives that.
   */
  lemma {:induction false} AllowIsMonotone(t: Table, globalRole: string, a: Role, b: Role)
    ensures Dominates(t, a, b) ==> forall p, c :: Allow(t, globalRole, b, p, c) ==> Allow(t, globalRole, a, p, c)
    ensures globalRole != ADMIN && globalRole != VIEWER ==>
              ((forall p, c :: Allow(t, globalRole, b, p, c) ==> Allow(t, globalRole, a, p, c)) <==> Dominates(t, a, b))
  {
    if globalRole != ADMIN && globalRole != VIEWER
       && forall p, c :: Allow(t, globalRole, b, p, c) ==> Allow(t, globalRole, a, p, c) {
      forall c | b in t && c in t[b] && t[b][c] ensures Allows(t, a, c) {
        assert Allow(t, globalRole, b, true, c);
      }
    }
  }

  // ---------- what a caller can do ----------

  /**
   * A caller can do something in a namespace exactly if the key, where there is one, carries it, and the caller is an
   * installation admin, or a member whose role grants it and, as an installation-wide viewer, only reads.
   */
  lemma {:induction false} CanExact(t: Table, u: User, namespace: string, c: Capability)
    ensures u.ceiling.Some? && c !in u.ceiling.value ==> !Can(t, u, namespace, c)
    ensures u.globalRole == "admin" ==> (Can(t, u, namespace, c) <==> u.ceiling.None? || c in u.ceiling.value)
    ensures u.globalRole == "viewer" && Can(t, u, namespace, c) ==> c == "read_private"
    ensures u.globalRole != "admin" && (namespace == "" || namespace !in u.grants) ==> !Can(t, u, namespace, c)
    ensures u.globalRole != "admin" && namespace != "" && namespace in u.grants ==>
              (Can(t, u, namespace, c) <==>
                 && c in CapsOf(t, u.grants[namespace]) && (u.ceiling.None? || c in u.ceiling.value)
                 && (u.globalRole == "viewer" ==> c == "read_private"))
  {
    assert ADMIN[0] != VIEWER[0];
  }

  /** An installation admin may grant any role, and a member exactly those that confer no more than the member has. */
  lemma {:induction false} MayGrantExact(t: Table, u: User, namespace: string, role: Role)
    ensures u.globalRole == "admin" ==> MayGrant(t, u, namespace, role)
    ensures u.globalRole != "admin" && (namespace == "" || namespace !in u.grants) ==> !MayGrant(t, u, namespace, role)
    ensures u.globalRole != "admin" && namespace != "" && namespace in u.grants ==>
              (MayGrant(t, u, namespace, role) <==> CapsOf(t, role) <= CapsOf(t, u.grants[namespace]))
  {
    if namespace in u.grants { DominatesIsInclusion(t, u.grants[namespace], role); }
  }

  // ---------- membership runs ----------

  /** A membership change of one namespace; `stored` says whether the service went through with it. */
  datatype Change = SetMember(actor: User, target: string, role: Role, stored: bool)
                  | RemoveMember(actor: User, target: string, stored: bool)

  /** The actor's grants are read from the membership as it is, and the request passed its guards. */
  predicate Permitted(t: Table, namespace: string, members: map<string, Role>, e: Change) {
    && (namespace in e.actor.grants <==> e.actor.id in members)
    && (e.actor.id in members ==> e.actor.grants[namespace] == members[e.actor.id])
    && Can(t, e.actor, namespace, MANAGE_MEMBER)
    && (e.SetMember? ==> MayGrant(t, e.actor, namespace, e.role))
  }

  function Changed(members: map<string, Role>, e: Change): map<string, Role> {
    if !e.stored then members
    else match e
      case SetMember(_, target, role, _) => members[target := role]
      case RemoveMember(_, target, _) => members - {target}
  }

  function Run(members: map<string, Role>, es: seq<Change>): map<string, Role> {
    if es == [] then members else Changed(Run(members, es[..|es| - 1]), es[|es| - 1])
  }

  predicate PermittedRun(t: Table, namespace: string, members: map<string, Role>, es: seq<Change>) {
    es == [] ||
    var before := es[..|es| - 1];
    PermittedRun(t, namespace, members, before) && Permitted(t, namespace, Run(members, before), es[|es| - 1])
  }

  /** Everything some member may do. */
  function Held(t: Table, members: map<string, Role>): set<Capability> {
    set u, c | u in members && c in CapsOf(t, members[u]) :: c
  }

  /** A change by anybody but an installation admin confers only what the actor's own membership already holds. */
  lemma {:induction false} ChangeConfersOwn(t: Table, namespace: string, members: map<string, Role>, e: Change)
    requires Permitted(t, namespace, members, e) && e.actor.globalRole != ADMIN
    ensures e.actor.id in members
    ensures e.SetMember? ==> CapsOf(t, e.role) <= CapsOf(t, members[e.actor.id])
    ensures Held(t, Changed(members, e)) <= Held(t, members)
  {
    var after := Changed(members, e);
    if e.SetMember? { DominatesIsInclusion(t, members[e.actor.id], e.role); }
    forall c | c in Held(t, after) ensures c in Held(t, members) {
      var u :| u in after && c in CapsOf(t, after[u]);
      if !(u in members && members[u] == after[u]) {
        assert c in CapsOf(t, members[e.actor.id]);
      } else {
        assert c in CapsOf(t, members[u]);
      }
    }
  }

  /** Over any run of membership changes by non-admins, no member comes to hold what no member held at the start. */
  lemma {:induction false} NoEscalation(t: Table, namespace: string, members: map<string, Role>, es: seq<Change>)
    requires PermittedRun(t, namespace, members, es) && forall e :: e in es ==> e.actor.globalRole != ADMIN
    ensures Held(t, Run(members, es)) <= Held(t, members)
  {
    if es != [] {
      assert es[|es| - 1] in es && forall e :: e in es[..|es| - 1] ==> e in es;
      NoEscalation(t, namespace, members, es[..|es| - 1]);
      ChangeConfersOwn(t, namespace, Run(members, es[..|es| - 1]), es[|es| - 1]);
    }
  }

  /**
   * On every run of permitted changes each actor's key, if any, carries manage_member; no actor is an installation-wide
   * viewer; and one who is no admin is, at that point, a member whose role grants manage_member.
   */
  lemma {:induction false} ActorsManageMembers(t: Table, namespace: string, members: map<string, Role>, es: seq<Change>,
                                               i: nat)
    requires PermittedRun(t, namespace, members, es) && i < |es|
    ensures var u := es[i].actor;
            && u.globalRole != "viewer" && (u.ceiling.Some? ==> "manage_member" in u.ceiling.value)
            && (u.globalRole != "admin" ==>
                  var before := Run(members, es[..i]);
                  u.id in before && "manage_member" in CapsOf(t, before[u.id]))
  {
    var before := es[..|es| - 1];
    if i < |es| - 1 {
      ActorsManageMembers(t, namespace, members, before, i);
      assert before[i] == es[i] && before[..i] == es[..i];
    } else {
      assert es[..i] == before;
      CanExact(t, es[i].actor, namespace, MANAGE_MEMBER);
      assert MANAGE_MEMBER[0] != READ_PRIVATE[0];
    }
  }

  /** A change that goes through does to the membership what it says, and one that does not, nothing. */
  lemma {:induction false} ChangeIsLocal(members: map<string, Role>, e: Change, user: string)
    ensures var after := Changed(members, e);
            if !e.stored || user != e.target then
              (user in after <==> user in members) && (user in members ==> after[user] == members[user])
            else if e.SetMember? then user in after && after[user] == e.role
            else user !in after
  {
  }

  // ---------- renderings of the table ----------

  /** The entries of a list that satisfy a lookup, in list order. */
  function Filtered(xs: seq<string>, keep: string -> bool): (ys: seq<string>)
    ensures forall x :: x in ys <==> x in xs && keep(x)
  {
    if xs == [] then []
    else
      var rest, x := Filtered(xs[..|xs| - 1], keep), xs[|xs| - 1];
      assert forall y :: y in xs <==> y in xs[..|xs| - 1] || y == x;
      if keep(x) then rest + [x] else rest
  }

  lemma {:induction false} AllKept(a: seq<string>, keep: string -> bool)
    requires forall x :: x in a ==> keep(x)
    ensures Filtered(a, keep) == a
  {
    if a != [] { AllKept(a[..|a| - 1], keep); }
  }

  /** Filtering keeps the order, and an entry that is kept as often as it is listed. */
  lemma {:induction false} FilteredInOrder(a: seq<string>, b: seq<string>, keep: string -> bool)
    ensures Filtered(a + b, keep) == Filtered(a, keep) + Filtered(b, keep)
  {
    if b == [] {
      assert a + b == a;
    } else {
      var before, x := Filtered(b[..|b| - 1], keep), b[|b| - 1];
      FilteredInOrder(a, b[..|b| - 1], keep);
      assert (a + b)[..|a + b| - 1] == a + b[..|b| - 1];
      assert Filtered(a, keep) + (before + [x]) == Filtered(a, keep) + before + [x];
    }
  }

  /** The capabilities a role grants, in declaration order. */
  method Capabilities(t: Table, r: Role, all: seq<Capability>) returns (out: seq<Capability>)
    ensures out == Filtered(all, c => Allows(t, r, c))
  {
    var keep := c => Allows(t, r, c);
    out := [];
    for i := 0 to |all|
      invariant out == Filtered(all[..i], keep)
    {
      if Allows(t, r, all[i]) { out := out + [all[i]]; }
      assert all[..i + 1][..i] == all[..i];
    }
    assert all[..|all|] == all;
  }

  /** The roles that grant a capability, in declaration order. */
  method RolesWith(t: Table, c: Capability, all: seq<Role>) returns (out: seq<Role>)
    ensures out == Filtered(all, r => Allows(t, r, c))
  {
    var keep := r => Allows(t, r, c);
    out := [];
    for i := 0 to |all|
      invariant out == Filtered(all[..i], keep)
    {
      if Allows(t, all[i], c) { out := out + [all[i]]; }
      assert all[..i + 1][..i] == all[..i];
    }
    assert all[..|all|] == all;
  }
}
