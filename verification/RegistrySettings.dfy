/** The configuration of a registry: as the spec states it, as a request carries it, and as the server keeps it. */
module RegistrySettings {
  import opened Options

  datatype Kind = Docker | Ghcr | Zot | Harbor | Generic

  datatype ScanMode = Webhook | Poll | Both

  datatype Visibility = Public | Private

  datatype VerificationMode = Unverified | PublicKey | Keyless

  datatype TagOrder = Auto | BySemver | ByCreation | Lexical

  datatype Trust = Trust(publicKey: Option<string>, identity: Option<string>, issuer: Option<string>)

  datatype Auth = Auth(username: string, token: string)

  /** None, an empty list and false mean that the spec leaves the field out. */
  datatype Settings = Settings(
    url: string, kind: Kind, insecure: bool, visibility: Option<Visibility>, scanMode: Option<ScanMode>,
    pollMinutes: Option<int>, repositories: seq<string>, repositoryPatterns: seq<string>, tagPatterns: seq<string>,
    includeUntagged: bool, verificationMode: Option<VerificationMode>, trust: Trust,
    tagLimit: Option<int>, tagOrder: Option<TagOrder>, maxTagAgeDays: Option<int>)

  /** The fields of a create or update request; None is left out of it. Only an update carries `enabled`. */
  datatype Fields = Fields(
    url: string, kind: Kind, insecure: bool, enabled: Option<bool>, visibility: Option<Visibility>,
    scanMode: Option<ScanMode>, pollMinutes: Option<int>, repositories: Option<seq<string>>,
    repositoryPatterns: Option<seq<string>>, tagPatterns: Option<seq<string>>, includeUntagged: Option<bool>,
    verificationMode: Option<VerificationMode>, trust: Trust, tagLimit: Option<int>, tagOrder: Option<TagOrder>,
    maxTagAgeDays: Option<int>, managedRef: Option<(string, string)>, auth: Option<Auth>)

  /** What the server keeps of a registry, next to its name and namespace. */
  datatype Config = Config(
    url: string, kind: Kind, insecure: bool, enabled: bool, scanMode: ScanMode, pollMinutes: int,
    repositories: seq<string>, repositoryPatterns: seq<string>, tagPatterns: seq<string>, includeUntagged: bool,
    verificationMode: VerificationMode, trust: Trust, tagLimit: int, tagOrder: TagOrder, maxTagAgeDays: int,
    managedRef: Option<(string, string)>, auth: Option<Auth>)

  // ---------- the operator's side ----------

  function List(s: seq<string>): Option<seq<string>> {
    if |s| > 0 then Some(s) else None
  }

  function Or<T>(o: Option<T>, value: T): T {
    match o case Some(v) => v case None => value
  }

  /** Both requests; the scan window is always sent in full, with the defaults of the custom resource. */
  function FieldsOf(s: Settings, enabled: Option<bool>, managedRef: (string, string), auth: Option<Auth>): Fields {
    Fields(s.url, s.kind, s.insecure, enabled, s.visibility, s.scanMode, s.pollMinutes, List(s.repositories),
           List(s.repositoryPatterns), List(s.tagPatterns), if s.includeUntagged then Some(true) else None,
           s.verificationMode, s.trust, Some(Or(s.tagLimit, 50)), Some(Or(s.tagOrder, Auto)),
           Some(Or(s.maxTagAgeDays, 0)), Some(managedRef), auth)
  }

  function CreateFields(s: Settings, managedRef: (string, string), auth: Option<Auth>): Fields {
    FieldsOf(s, None, managedRef, auth)
  }

  function UpdateFields(s: Settings, managedRef: (string, string), auth: Option<Auth>): Fields {
    FieldsOf(s, Some(true), managedRef, auth)
  }

  // ---------- the server's side ----------

  const DOCKER_URL := "registry-1.docker.io"
  const GHCR_URL := "ghcr.io"

  /** Two kinds have an address of their own, and the one sent is ignored. */
  function Address(kind: Kind, url: string): string {
    match kind case Docker => DOCKER_URL case Ghcr => GHCR_URL case _ => url
  }

  /** Registries of these kinds can call back. */
  predicate SupportsWebhook(kind: Kind) {
    kind == Zot || kind == Harbor || kind == Generic
  }

  function NonEmpty(ss: seq<string>): seq<string> {
    if ss == [] then [] else (if ss[0] != "" then [ss[0]] else []) + NonEmpty(ss[1..])
  }

  /** An absent or zero poll interval takes the value given. */
  function PollOr(o: Option<int>, minutes: int): int {
    if Or(o, 0) == 0 then minutes else o.value
  }

  /** CreateRegistry. A registry is enabled when it is made. */
  function Made(f: Fields): Config {
    Config(Address(f.kind, f.url), f.kind, f.insecure, true,
           Or(f.scanMode, if SupportsWebhook(f.kind) then Webhook else Poll), PollOr(f.pollMinutes, 60),
           NonEmpty(Or(f.repositories, [])), NonEmpty(Or(f.repositoryPatterns, [])), NonEmpty(Or(f.tagPatterns, [])),
           Or(f.includeUntagged, false), Or(f.verificationMode, Unverified), f.trust,
           Or(f.tagLimit, 50), Or(f.tagOrder, Auto), Or(f.maxTagAgeDays, 0), f.managedRef, f.auth)
  }

  function OrStored<T>(o: Option<T>, stored: Option<T>): Option<T> {
    if o.Some? then o else stored
  }

  function TrustOr(t: Trust, stored: Trust): Trust {
    Trust(OrStored(t.publicKey, stored.publicKey), OrStored(t.identity, stored.identity),
          OrStored(t.issuer, stored.issuer))
  }

  /** UpdateRegistry: lists, flags and credentials are replaced, another optional field that is left out is kept. */
  function Updated(c: Config, f: Fields): Config {
    Config(Address(f.kind, f.url), f.kind, f.insecure, Or(f.enabled, false),
           Or(f.scanMode, if SupportsWebhook(f.kind) then c.scanMode else Poll), PollOr(f.pollMinutes, c.pollMinutes),
           NonEmpty(Or(f.repositories, [])), NonEmpty(Or(f.repositoryPatterns, [])), NonEmpty(Or(f.tagPatterns, [])),
           Or(f.includeUntagged, false), Or(f.verificationMode, c.verificationMode), TrustOr(f.trust, c.trust),
           Or(f.tagLimit, c.tagLimit), Or(f.tagOrder, c.tagOrder), Or(f.maxTagAgeDays, c.maxTagAgeDays),
           OrStored(f.managedRef, c.managedRef), f.auth)
  }

  lemma {:induction false} NonEmptyHead(a: seq<string>)
    requires a != []
    ensures NonEmpty(a) == (if a[0] != "" then [a[0]] else []) + NonEmpty(a[1..])
  {
  }

  lemma {:induction false} NonEmptyConcat(a: seq<string>, b: seq<string>)
    ensures NonEmpty(a + b) == NonEmpty(a) + NonEmpty(b)
  {
    if a == [] {
      assert a + b == b;
    } else {
      NonEmptyConcat(a[1..], b);
      assert (a + b)[1..] == a[1..] + b && (a + b)[0] == a[0];
      var first := if a[0] != "" then [a[0]] else [];
      NonEmptyHead(a);
      NonEmptyHead(a + b);
      assert first + (NonEmpty(a[1..]) + NonEmpty(b)) == first + NonEmpty(a[1..]) + NonEmpty(b);
    }
  }

  lemma {:induction false} NonEmptyKeeps(a: seq<string>)
    ensures "" !in NonEmpty(a)
    ensures "" !in a ==> NonEmpty(a) == a
  {
    if a != [] {
      NonEmptyKeeps(a[1..]);
      assert a == [a[0]] + a[1..];
    }
  }

  /** The entries kept of a list are those that are not empty, in their order. */
  lemma {:induction false} NonEmptyExact(a: seq<string>, b: seq<string>)
    ensures NonEmpty(a + b) == NonEmpty(a) + NonEmpty(b)
    ensures "" !in NonEmpty(a)
    ensures "" !in a ==> NonEmpty(a) == a
  {
    NonEmptyConcat(a, b);
    NonEmptyKeeps(a);
  }

  // ---------- what the kept configuration says of the spec ----------

  /**
   * Field by field: the registry is enabled, what the spec states is what is kept, its lists and flag are kept whole,
   * and the scan window has the defaults of the custom resource where the spec leaves it out.
   */
  predicate Carries(c: Config, s: Settings) {
    && c.enabled && c.kind == s.kind && c.insecure == s.insecure
    && (s.kind == Docker ==> c.url == "registry-1.docker.io") && (s.kind == Ghcr ==> c.url == "ghcr.io")
    && (s.kind != Docker && s.kind != Ghcr ==> c.url == s.url)
    && (s.scanMode.Some? ==> c.scanMode == s.scanMode.value)
    && (s.scanMode.None? && (s.kind == Docker || s.kind == Ghcr) ==> c.scanMode == Poll)
    && (s.pollMinutes.Some? && s.pollMinutes.value != 0 ==> c.pollMinutes == s.pollMinutes.value)
    && c.repositories == NonEmpty(s.repositories) && c.repositoryPatterns == NonEmpty(s.repositoryPatterns)
    && c.tagPatterns == NonEmpty(s.tagPatterns) && c.includeUntagged == s.includeUntagged
    && (s.verificationMode.Some? ==> c.verificationMode == s.verificationMode.value)
    && (s.trust.publicKey.Some? ==> c.trust.publicKey == s.trust.publicKey)
    && (s.trust.identity.Some? ==> c.trust.identity == s.trust.identity)
    && (s.trust.issuer.Some? ==> c.trust.issuer == s.trust.issuer)
    && (if s.tagLimit.Some? then c.tagLimit == s.tagLimit.value else c.tagLimit == 50)
    && (if s.tagOrder.Some? then c.tagOrder == s.tagOrder.value else c.tagOrder == Auto)
    && (if s.maxTagAgeDays.Some? then c.maxTagAgeDays == s.maxTagAgeDays.value else c.maxTagAgeDays == 0)
  }

  /** A create or an update leaves a configuration that carries the spec, with its owner and credentials. */
  lemma {:induction false} RequestsCarry(c: Config, s: Settings, managedRef: (string, string), auth: Option<Auth>)
    ensures var n := Made(CreateFields(s, managedRef, auth));
            Carries(n, s) && n.managedRef == Some(managedRef) && n.auth == auth
    ensures var u := Updated(c, UpdateFields(s, managedRef, auth));
            Carries(u, s) && u.managedRef == Some(managedRef) && u.auth == auth
  {
    EmptyList(s.repositories);
    EmptyList(s.repositoryPatterns);
    EmptyList(s.tagPatterns);
  }

  lemma {:induction false} EmptyList(ss: seq<string>)
    ensures NonEmpty(Or(List(ss), [])) == NonEmpty(ss)
  {
  }

  // ---------- an update is not a create ----------

  /**
   * Where an update leaves the registry: in the namespace that shares its id, which only a create without a namespace
   * makes; where it is among others; or moved into a namespace of the given visibility.
   */
  datatype Place = Own | Shared | MovedInto(visibility: Visibility)

  /** Only a namespace that shares the registry's id is written; `v` is the visibility before. */
  function VisibilityAfter(v: Visibility, f: Fields, place: Place): Visibility {
    match place
    case Own => Or(f.visibility, v)
    case Shared => v
    case MovedInto(visibility) => visibility
  }

  /** A namespace that exists keeps its visibility, `joined`; otherwise the create mints one. */
  function VisibilityCreated(f: Fields, joined: Option<Visibility>): Visibility {
    Or(joined, Or(f.visibility, Public))
  }

  /** The visibility an update leaves is the one a create would give. */
  predicate SameVisibility(s: Settings, v: Visibility, place: Place, joined: Option<Visibility>) {
    var asked := if joined.Some? then joined.value else if s.visibility.Some? then s.visibility.value else Public;
    match place
    case Own => asked == if s.visibility.Some? then s.visibility.value else v
    case Shared => asked == v
    case MovedInto(u) => asked == u
  }

  /** The fields that an update keeps have their defaults wherever the spec leaves them out. */
  predicate NothingLingers(s: Settings, c: Config) {
    && (s.scanMode.None? && (s.kind == Zot || s.kind == Harbor || s.kind == Generic) ==> c.scanMode == Webhook)
    && (s.pollMinutes == None || s.pollMinutes == Some(0) ==> c.pollMinutes == 60)
    && (s.verificationMode.None? ==> c.verificationMode == Unverified)
    && (s.trust.publicKey.None? ==> c.trust.publicKey.None?)
    && (s.trust.identity.None? ==> c.trust.identity.None?)
    && (s.trust.issuer.None? ==> c.trust.issuer.None?)
  }

  /** What an update can leave different from a create. */
  lemma {:induction false} OnlyKeptDiffer(s: Settings, managedRef: (string, string), auth: Option<Auth>, c: Config)
    ensures var u, n := Updated(c, UpdateFields(s, managedRef, auth)), Made(CreateFields(s, managedRef, auth));
            u == n.(scanMode := u.scanMode, pollMinutes := u.pollMinutes, verificationMode := u.verificationMode,
                    trust := u.trust)
  {
  }

  lemma {:induction false} KeptExact(s: Settings, managedRef: (string, string), auth: Option<Auth>, c: Config)
    ensures Updated(c, UpdateFields(s, managedRef, auth)) == Made(CreateFields(s, managedRef, auth))
            <==> NothingLingers(s, c)
  {
    var u, n := Updated(c, UpdateFields(s, managedRef, auth)), Made(CreateFields(s, managedRef, auth));
    OnlyKeptDiffer(s, managedRef, auth, c);
    assert u.trust == n.trust <==>
             && (s.trust.publicKey.None? ==> c.trust.publicKey.None?)
             && (s.trust.identity.None? ==> c.trust.identity.None?)
             && (s.trust.issuer.None? ==> c.trust.issuer.None?);
  }

  /**
   * An update leaves the registry as a fresh create from the same spec would exactly when nothing lingers and the
   * namespaces the two end in are of one visibility.
   */
  lemma {:induction false} UpdateIsCreateExact(s: Settings, managedRef: (string, string), auth: Option<Auth>,
                                               c: Config, v: Visibility, place: Place, joined: Option<Visibility>)
    ensures var u, n := UpdateFields(s, managedRef, auth), CreateFields(s, managedRef, auth);
            (Updated(c, u) == Made(n) && VisibilityAfter(v, u, place) == VisibilityCreated(n, joined))
            <==> (NothingLingers(s, c) && SameVisibility(s, v, place, joined))
  {
    KeptExact(s, managedRef, auth, c);
    var u, n := UpdateFields(s, managedRef, auth), CreateFields(s, managedRef, auth);
    assert VisibilityAfter(v, u, place) == VisibilityCreated(n, joined) <==> SameVisibility(s, v, place, joined);
  }

  /** A registry is updated again and again, each time from a possibly edited spec. */
  function UpdatedAll(c: Config, specs: seq<Settings>, managedRef: (string, string), auth: Option<Auth>): Config {
    if specs == [] then c
    else Updated(UpdatedAll(c, specs[..|specs| - 1], managedRef, auth),
                 UpdateFields(specs[|specs| - 1], managedRef, auth))
  }

  /** Updates by one request settle at once: the second changes nothing, so what lingers once lingers for ever. */
  lemma {:induction false} OneUpdateSettles(c: Config, f: Fields)
    ensures Updated(Updated(c, f), f) == Updated(c, f)
  {
    var u := Updated(c, f);
    assert Updated(u, f).pollMinutes == u.pollMinutes && Updated(u, f).trust == u.trust;
  }

  /** A private registry asked for in a public namespace is public, created there or updated; only a mint obeys. */
  lemma {:induction false} PrivateStaysPublic(s: Settings, managedRef: (string, string), auth: Option<Auth>, c: Config)
    requires s.visibility == Some(Private)
    ensures var u, n := UpdateFields(s, managedRef, auth), CreateFields(s, managedRef, auth);
            && VisibilityAfter(Public, u, Shared) == Public && VisibilityCreated(n, Some(Public)) == Public
            && VisibilityCreated(n, None) == Private
  {
    UpdateIsCreateExact(s, managedRef, auth, c, Public, Shared, None);
  }

  /** With the visibility left out, a private namespace stays private under an update as under a create into it. */
  lemma {:induction false} OmittedStaysPrivate(s: Settings, managedRef: (string, string), auth: Option<Auth>)
    requires s.visibility.None?
    ensures var u, n := UpdateFields(s, managedRef, auth), CreateFields(s, managedRef, auth);
            VisibilityAfter(Private, u, Shared) == VisibilityCreated(n, Some(Private)) == Private
  {
  }

  /** After any sequence of specs there is no trusted key exactly if neither they nor the registry ever had one. */
  lemma {:induction false} KeyIsNeverTakenBack(c: Config, specs: seq<Settings>, managedRef: (string, string),
                                               auth: Option<Auth>)
    ensures UpdatedAll(c, specs, managedRef, auth).trust.publicKey.None? <==>
            c.trust.publicKey.None? && forall i :: 0 <= i < |specs| ==> specs[i].trust.publicKey.None?
  {
    if specs != [] {
      var before := specs[..|specs| - 1];
      KeyIsNeverTakenBack(c, before, managedRef, auth);
      assert forall i :: 0 <= i < |before| ==> before[i] == specs[i];
    }
  }

  /** A trusted key taken out of the spec stays on the registry, whatever else later specs say. */
  lemma {:induction false} RemovedKeyLingers(c: Config, specs: seq<Settings>, key: string,
                                             managedRef: (string, string), auth: Option<Auth>)
    requires c.trust.publicKey == Some(key) && forall s :: s in specs ==> s.trust.publicKey.None?
    ensures UpdatedAll(c, specs, managedRef, auth).trust.publicKey == Some(key)
    ensures specs != [] ==>
              UpdatedAll(c, specs, managedRef, auth) != Made(CreateFields(specs[|specs| - 1], managedRef, auth))
  {
    if specs != [] { RemovedKeyLingers(c, specs[..|specs| - 1], key, managedRef, auth); }
  }
}
