/** The ScanRequest reconciler: a one-shot trigger whose only memory is the stored phase. */
module ScanRequestController {
  import opened Kubernetes
  import opened Options

  datatype Phase = Unset | Pending | Dispatched | Failed

  datatype Status = Status(phase: Phase, condition: Option<Condition>)

  /** `registry` is what the referenced OCIRegistry looks like in the cluster: absent, without an id, or with one. */
  datatype Registry = Absent | WithoutID | WithID(id: string)

  /** `accepted` counts the scans OCIDex ever accepted for this object; `live` holds the registry ids it knows. */
  datatype World = World(
    present: bool, generation: nat, status: Status, registry: Registry, live: set<string>, accepted: nat)

  datatype Plan = Plan(get: Call, getRegistry: Call, scan: Call, writeStatus: Call)

  function Decide(w: World, phase: Phase, status: bool, reason: Reason): Status {
    Status(phase, Some(Condition(status, reason, w.generation)))
  }

  function Store(w: World, st: Status, p: Plan): World {
    if p.writeStatus.effect then w.(status := st) else w
  }

  predicate Terminal(w: World) {
    w.status.phase == Phase.Dispatched || w.status.phase == Phase.Failed
  }

  /** The scan call is reached, and OCIDex knows the registry and takes the request. */
  predicate Accepts(w: World, p: Plan) {
    && w.present && p.get.reply == Ok && !Terminal(w) && p.getRegistry.reply == Ok
    && w.registry.WithID? && w.registry.id in w.live && p.scan.effect
  }

  function Reconciled(w: World, p: Plan): World {
    if !w.present || p.get.reply != Ok || Terminal(w) then w
    else if p.getRegistry.reply != Ok && p.getRegistry.reply != NotFound then w
    else if p.getRegistry.reply == NotFound || w.registry.Absent? then
      Store(w, Decide(w, Phase.Failed, false, RegistryMissing), p)
    else if w.registry.WithoutID? then
      Store(w, Decide(w, Pending, false, RegistryNotReady), p)
    else Scanned(w, p)
  }

  function Scanned(w: World, p: Plan): World {
    var w1 := if Accepts(w, p) then w.(accepted := w.accepted + 1) else w;
    match p.scan.reply
    case Crashed => w1
    case Ok =>
      if w.registry.WithID? && w.registry.id in w.live
      then Store(w1, Decide(w, Phase.Dispatched, true, Reason.Dispatched), p)
      else Store(w1, Decide(w, Phase.Failed, false, RegistryMissing), p)
    case NotFound => Store(w1, Decide(w, Phase.Failed, false, RegistryMissing), p)
    case Failed => Store(w1, Decide(w, Phase.Failed, false, APIError), p)
  }

  class ScanRequestReconciler {
    var w: World

    constructor (initial: World)
      ensures w == initial
    {
      w := initial;
    }

    method Reconcile(p: Plan)
      modifies this
      ensures w == Reconciled(old(w), p)
    {
      if !w.present || p.get.reply != Ok { return; }
      if w.status.phase == Phase.Dispatched || w.status.phase == Phase.Failed { return; }
      if p.getRegistry.reply != Ok && p.getRegistry.reply != NotFound { return; }
      var mem: Status;
      if p.getRegistry.reply == NotFound || w.registry == Absent {
        mem := Decide(w, Phase.Failed, false, RegistryMissing);
      } else if w.registry == WithoutID {
        mem := Decide(w, Pending, false, RegistryNotReady);
      } else {
        var known := w.registry.id in w.live;
        if known && p.scan.effect { w := w.(accepted := w.accepted + 1); }
        if p.scan.reply == Crashed { return; }
        if p.scan.reply == Reply.Failed {
          mem := Decide(w, Phase.Failed, false, APIError);
        } else if p.scan.reply == NotFound || !known {
          mem := Decide(w, Phase.Failed, false, RegistryMissing);
        } else {
          mem := Decide(w, Phase.Dispatched, true, Reason.Dispatched);
        }
      }
      if p.writeStatus.effect { w := w.(status := mem); }
    }
  }

  /** Between reconciles the cluster and OCIDex may change the registry at will. */
  datatype Event = Reconcile(plan: Plan) | ChangeRegistry(registry: Registry, live: set<string>)

  function Step(w: World, e: Event): World {
    match e
    case Reconcile(p) => Reconciled(w, p)
    case ChangeRegistry(registry, live) => w.(registry := registry, live := live)
  }

  function Run(w: World, events: seq<Event>): World {
    if events == [] then w else Step(Run(w, events[..|events| - 1]), events[|events| - 1])
  }

  /** Reconciles of the run whose scan was accepted and whose stored phase did not become terminal. */
  function LostAfterAccept(w: World, events: seq<Event>): nat {
    if events == [] then 0
    else
      var before, e := Run(w, events[..|events| - 1]), events[|events| - 1];
      LostAfterAccept(w, events[..|events| - 1])
      + if e.Reconcile? && Accepts(before, e.plan) && !Terminal(Step(before, e)) then 1 else 0
  }

  /** Once the stored phase is terminal it stays as it is, and no scan is accepted again. */
  lemma {:induction false} TerminalForever(w: World, events: seq<Event>)
    requires Terminal(w)
    ensures Run(w, events).accepted == w.accepted && Run(w, events).status == w.status
  {
    if events != [] { TerminalForever(w, events[..|events| - 1]); }
  }

  /** An accepted scan leaves a terminal phase exactly when the process survives the call and the status write lands. */
  lemma {:induction false} AcceptedThenTerminal(w: World, p: Plan)
    requires Accepts(w, p)
    ensures Reconciled(w, p).accepted == w.accepted + 1
    ensures Terminal(Reconciled(w, p)) <==> p.scan.reply != Crashed && p.writeStatus.effect
  {
  }

  /** A reconcile whose status write lands, and in which no call it reaches crashed or could not be answered. */
  predicate Concludes(w: World, p: Plan) {
    && w.present && p.get.reply == Ok && w.status.phase in {Unset, Pending} && p.writeStatus.effect
    && (p.getRegistry.reply == Ok || p.getRegistry.reply == NotFound)
    && (p.getRegistry.reply == Ok && w.registry.WithID? ==> p.scan.reply != Crashed)
  }

  /**
   * Where each outcome ends: Dispatched and true exactly if OCIDex knows the registry and took the scan; Pending, to be
   * tried again, if the registry has no id yet; and Failed otherwise, for want of the registry or by an error.
   */
  lemma {:induction false} PhaseExact(w: World, p: Plan)
    requires Concludes(w, p) && Truthful(p.scan)
    ensures var r := Reconciled(w, p);
            && r.status.condition.Some? && r.status.condition.value.observedGeneration == w.generation
            && (r.status.condition.value.status <==> r.status.phase == Phase.Dispatched)
            && (r.status.phase == Phase.Dispatched <==> Accepts(w, p) && p.scan.reply == Ok)
            && (r.status.phase == Pending <==> p.getRegistry.reply == Ok && w.registry.WithoutID?)
            && r.status.phase != Unset
            && match r.status.condition.value.reason
               case Dispatched => r.status.phase == Phase.Dispatched
               case RegistryNotReady => r.status.phase == Pending
               case APIError => r.status.phase == Phase.Failed && w.registry.WithID? && p.scan.reply == Reply.Failed
               case RegistryMissing =>
                 && r.status.phase == Phase.Failed
                 && (p.getRegistry.reply == NotFound || w.registry.Absent?
                     || (w.registry.WithID? && (w.registry.id !in w.live || p.scan.reply == NotFound)))
               case _ => false
  {
  }

  /** Nothing is stored by a reconcile that does not conclude, and nothing but the status and the count ever changes. */
  lemma {:induction false} OnlyConclusionsAreStored(w: World, p: Plan)
    ensures var r := Reconciled(w, p);
            && r == w.(status := r.status, accepted := r.accepted)
            && (!Concludes(w, p) ==> r.status == w.status)
            && r.accepted == w.accepted + if Accepts(w, p) then 1 else 0
  {
  }

  /** Some reconcile of the run both got a scan accepted and stored a terminal phase. */
  predicate SettledByScan(w: World, events: seq<Event>) {
    events != [] &&
    var before, e := Run(w, events[..|events| - 1]), events[|events| - 1];
    || SettledByScan(w, events[..|events| - 1])
    || (e.Reconcile? && Accepts(before, e.plan) && Terminal(Step(before, e)))
  }

  /**
   * Over any run, accepted scans are exactly the status writes lost after an accepted scan, and one more if an
   * accepted scan settled the phase.
   */
  lemma {:induction false} AcceptedScans(w: World, events: seq<Event>)
    ensures Run(w, events).accepted ==
            w.accepted + LostAfterAccept(w, events) + if SettledByScan(w, events) then 1 else 0
    ensures SettledByScan(w, events) ==> Terminal(Run(w, events))
  {
    if events != [] {
      var before, e := events[..|events| - 1], events[|events| - 1];
      AcceptedScans(w, before);
      if Terminal(Run(w, before)) { assert Run(w, events).accepted == Run(w, before).accepted; }
    }
  }
}
