/** Which client sent a request, believing X-Forwarded-For only as far as the policy says. */
module ClientIp {
  import opened ByteStrings
  import opened Options

  /**
   * The address library as far as it is used: the unmapped address an entry parses to after trimming, and whether a
   * prefix contains an address.
   */
  datatype Net = Net(parse: string -> Option<string>, contains: (string, string) -> bool)

  datatype Policy = Policy(trustedProxies: seq<string>, trustedHops: int, header: string)

  /** `peer` is None when the remote address does not parse; `host` is then the client. */
  datatype Request = Request(host: string, peer: Option<string>, forwarded: seq<string>, edgeHeader: string)

  predicate IsTrusted(net: Net, policy: Policy, ip: string) {
    exists p :: p in policy.trustedProxies && net.contains(p, ip)
  }

  /** Several headers are one list in order: the joined text is split at every comma. */
  function ForwardedFor(values: seq<string>): seq<string> {
    if values == [] then [] else Split(Join(values, ','), ',')
  }

  function FromHeader(net: Net, value: string, peer: string): string {
    match net.parse(value) case Some(ip) => ip case None => peer
  }

  /** The trustedHops-th entry from the right, or the left-most of a shorter chain. */
  function FromHops(net: Net, hops: seq<string>, n: int, peer: string): string
    requires n > 0
  {
    if hops == [] then peer
    else FromHeader(net, hops[if |hops| - n < 0 then 0 else |hops| - n], peer)
  }

  /** The right-most hop outside the trusted proxies; a hop that does not parse ends the walk at the last client. */
  function FromTrustedChain(net: Net, policy: Policy, hops: seq<string>, client: string): string {
    if hops == [] then client
    else
      match net.parse(hops[|hops| - 1])
      case None => client
      case Some(ip) =>
        if IsTrusted(net, policy, ip) then FromTrustedChain(net, policy, hops[..|hops| - 1], ip) else ip
  }

  function ClientOf(net: Net, policy: Policy, r: Request): string {
    match r.peer
    case None => r.host
    case Some(peer) =>
      if policy.trustedProxies != [] && !IsTrusted(net, policy, peer) then peer
      else if policy.header != "" then FromHeader(net, r.edgeHeader, peer)
      else if policy.trustedHops > 0 then FromHops(net, ForwardedFor(r.forwarded), policy.trustedHops, peer)
      else if policy.trustedProxies != [] then FromTrustedChain(net, policy, ForwardedFor(r.forwarded), peer)
      else peer
  }

  // ---------- several headers are one list ----------

  lemma {:induction false} JoinSnoc(a: seq<string>, b: seq<string>)
    requires a != [] && b != []
    ensures Join(a + b, ',') == Join(a, ',') + [','] + Join(b, ',')
  {
    if |a| == 1 {
      assert (a + b)[1..] == b;
    } else {
      JoinSnoc(a[1..], b);
      assert (a + b)[1..] == a[1..] + b;
    }
  }

  /** Splitting headers over several lines is the same as concatenating their lists. */
  lemma {:induction false} HeadersConcatenate(a: seq<string>, b: seq<string>)
    ensures ForwardedFor(a + b) == ForwardedFor(a) + ForwardedFor(b)
  {
    if a == [] {
      assert a + b == b;
    } else if b == [] {
      assert a + b == a;
    } else {
      JoinSnoc(a, b);
      SplitAround(Join(a, ','), ',', Join(b, ','));
    }
  }

  /** A list in one header line is split at its commas. */
  lemma {:induction false} CommaSeparates(a: string, b: string)
    ensures ForwardedFor([a + [','] + b]) == ForwardedFor([a]) + ForwardedFor([b])
    ensures ',' !in a ==> ForwardedFor([a]) == [a]
  {
    SplitAround(a, ',', b);
    if ',' !in a { SplitWithout(a, ','); }
  }

  // ---------- which entry decides ----------

  /** Every hop of the chain parses to a trusted address. */
  predicate AllTrusted(net: Net, policy: Policy, hops: seq<string>) {
    forall h :: h in hops ==> net.parse(h).Some? && IsTrusted(net, policy, net.parse(h).value)
  }

  /** The last address a chain of trusted hops vouches for: the left-most of them, or the peer that sent them. */
  function Vouched(net: Net, hops: seq<string>, peer: string): string {
    if hops != [] && net.parse(hops[0]).Some? then net.parse(hops[0]).value else peer
  }

  /**
   * Behind a chain of trusted hops, the client is the hop that is not trusted; where there is none, or it does not
   * parse, it is the last address the trusted ones vouch for.
   */
  lemma {:induction false} ChainExact(net: Net, policy: Policy, ahead: seq<string>, hop: string, hops: seq<string>,
                                      peer: string)
    requires AllTrusted(net, policy, hops)
    ensures FromTrustedChain(net, policy, hops, peer) == Vouched(net, hops, peer)
    ensures net.parse(hop).None? ==>
              FromTrustedChain(net, policy, ahead + [hop] + hops, peer) == Vouched(net, hops, peer)
    ensures net.parse(hop).Some? && !IsTrusted(net, policy, net.parse(hop).value) ==>
              FromTrustedChain(net, policy, ahead + [hop] + hops, peer) == net.parse(hop).value
  {
    TrustedChain(net, policy, hops, peer);
    ChainSplits(net, policy, ahead + [hop], hops, peer);
    assert (ahead + [hop])[..|ahead|] == ahead && (ahead + [hop])[|ahead|] == hop;
  }

  lemma {:induction false} TrustedChain(net: Net, policy: Policy, hops: seq<string>, peer: string)
    requires AllTrusted(net, policy, hops)
    ensures FromTrustedChain(net, policy, hops, peer) == Vouched(net, hops, peer) && !Stops(net, policy, hops)
  {
    if hops != [] {
      var last := hops[|hops| - 1];
      assert last in hops && hops[0] in hops;
      assert forall h :: h in hops[..|hops| - 1] ==> h in hops;
      TrustedChain(net, policy, hops[..|hops| - 1], net.parse(last).value);
    }
  }

  /** With a hop count, the entry with that many less one behind it decides, or the first of a shorter chain. */
  lemma {:induction false} HopsExact(net: Net, ahead: seq<string>, hop: string, behind: seq<string>, n: int,
                                     peer: string)
    requires n == |behind| + 1 || (ahead == [] && n > |behind| + 1)
    ensures FromHops(net, ahead + [hop] + behind, n, peer) ==
            if net.parse(hop).Some? then net.parse(hop).value else peer
  {
    assert (ahead + [hop] + behind)[|ahead|] == hop;
  }

  /** What decides, in order: no address, an untrusted peer, the edge header, the hop count, the trusted chain. */
  lemma {:induction false} DecidedBy(net: Net, policy: Policy, r: Request)
    ensures r.peer.None? ==> ClientOf(net, policy, r) == r.host
    ensures r.peer.Some? ==>
              var trusted := policy.trustedProxies == [] || IsTrusted(net, policy, r.peer.value);
              && (trusted && policy.header != "" ==>
                    ClientOf(net, policy, r) ==
                    if net.parse(r.edgeHeader).Some? then net.parse(r.edgeHeader).value else r.peer.value)
              && (trusted && policy.header == "" && policy.trustedHops > 0 ==>
                    ClientOf(net, policy, r) ==
                    FromHops(net, ForwardedFor(r.forwarded), policy.trustedHops, r.peer.value))
              && (policy.trustedProxies != [] && trusted && policy.header == "" && policy.trustedHops <= 0 ==>
                    ClientOf(net, policy, r) ==
                    FromTrustedChain(net, policy, ForwardedFor(r.forwarded), r.peer.value))
              && (!trusted || (policy.trustedProxies == [] && policy.header == "" && policy.trustedHops <= 0) ==>
                    ClientOf(net, policy, r) == r.peer.value)
  {
  }

  // ---------- only a suffix of the chain matters ----------

  /** The chain holds a hop that is untrusted or does not parse. */
  predicate Stops(net: Net, policy: Policy, hops: seq<string>) {
    exists h :: h in hops && (net.parse(h).None? || !IsTrusted(net, policy, net.parse(h).value))
  }

  /** The walk over a longer chain: it ends inside the suffix, or goes on into the prefix from where the suffix led. */
  lemma {:induction false} ChainSplits(net: Net, policy: Policy, ahead: seq<string>, hops: seq<string>, client: string)
    ensures FromTrustedChain(net, policy, ahead + hops, client) ==
            var here := FromTrustedChain(net, policy, hops, client);
            if Stops(net, policy, hops) then here else FromTrustedChain(net, policy, ahead, here)
  {
    if hops == [] {
      assert ahead + hops == ahead;
    } else {
      var last := hops[|hops| - 1];
      assert hops == hops[..|hops| - 1] + [last];
      assert forall h :: h in hops <==> h in hops[..|hops| - 1] || h == last;
      assert (ahead + hops)[..|ahead + hops| - 1] == ahead + hops[..|hops| - 1];
      match net.parse(last)
      case Some(ip) => if IsTrusted(net, policy, ip) { ChainSplits(net, policy, ahead, hops[..|hops| - 1], ip); }
      case None =>
    }
  }

  /** Entries put ahead of the chain can never matter exactly when the chain holds a hop that stops the walk. */
  lemma {:induction false} ChainSuffixExact(net: Net, policy: Policy, hops: seq<string>, peer: string, spoof: string)
    requires net.parse(spoof).Some? && net.parse(spoof).value != FromTrustedChain(net, policy, hops, peer)
    ensures (forall ahead ::
              FromTrustedChain(net, policy, ahead + hops, peer) == FromTrustedChain(net, policy, hops, peer))
            <==> Stops(net, policy, hops)
  {
    if Stops(net, policy, hops) {
      forall ahead
        ensures FromTrustedChain(net, policy, ahead + hops, peer) == FromTrustedChain(net, policy, hops, peer)
      {
        ChainSplits(net, policy, ahead, hops, peer);
      }
    } else {
      ChainSplits(net, policy, [spoof], hops, peer);
      assert FromTrustedChain(net, policy, [], net.parse(spoof).value) == net.parse(spoof).value;
      assert [spoof][..0] == [];
    }
  }

  /** With a hop count, entries put ahead can never matter exactly when the chain already has that many. */
  lemma {:induction false} HopsSuffixExact(net: Net, hops: seq<string>, n: int, peer: string, spoof: string)
    requires n > 0 && FromHeader(net, spoof, peer) != FromHops(net, hops, n, peer)
    ensures (forall ahead :: FromHops(net, ahead + hops, n, peer) == FromHops(net, hops, n, peer)) <==> |hops| >= n
  {
    if |hops| < n {
      var ahead := seq(n - |hops|, _ => spoof);
      assert (ahead + hops)[0] == spoof;
      assert FromHops(net, ahead + hops, n, peer) == FromHeader(net, spoof, peer);
    }
  }

  lemma {:induction false} HopsSplit(net: Net, ahead: seq<string>, hops: seq<string>, n: nat, peer: string)
    requires 0 < n <= |hops|
    ensures FromHops(net, ahead + hops, n, peer) == FromHops(net, hops, n, peer)
  {
    assert (ahead + hops)[|ahead + hops| - n] == hops[|hops| - n];
  }

  /**
   * Header lines a client sends ahead of what the proxies wrote never change the answer, once the proxies' part ends
   * the walk, or is as long as the hop count, or an edge header decides.
   */
  lemma {:induction false} LinesAheadAreIgnored(net: Net, policy: Policy, r: Request, ahead: seq<string>)
    requires policy.header != "" ||
             (if policy.trustedHops > 0 then |ForwardedFor(r.forwarded)| >= policy.trustedHops
              else Stops(net, policy, ForwardedFor(r.forwarded)))
    ensures ClientOf(net, policy, r.(forwarded := ahead + r.forwarded)) == ClientOf(net, policy, r)
  {
    HeadersConcatenate(ahead, r.forwarded);
    if r.peer.Some? && policy.header == "" {
      var extra, own := ForwardedFor(ahead), ForwardedFor(r.forwarded);
      if policy.trustedHops > 0 {
        HopsSplit(net, extra, own, policy.trustedHops, r.peer.value);
      } else {
        ChainSplits(net, policy, extra, own, r.peer.value);
      }
    }
  }

  /** With trusted proxies set, a peer outside them is the client whatever its headers say. */
  lemma {:induction false} OutsidersHeadersAreIrrelevant(net: Net, policy: Policy, r: Request, s: Request)
    requires policy.trustedProxies != [] && r.peer == s.peer && r.peer.Some? && !IsTrusted(net, policy, r.peer.value)
    ensures ClientOf(net, policy, r) == ClientOf(net, policy, s) == r.peer.value
  {
  }

  // ---------- the program ----------

  method IsTrustedLoop(net: Net, policy: Policy, ip: string) returns (trusted: bool)
    ensures trusted <==> IsTrusted(net, policy, ip)
  {
    for i := 0 to |policy.trustedProxies|
      invariant forall j :: 0 <= j < i ==> !net.contains(policy.trustedProxies[j], ip)
    {
      if net.contains(policy.trustedProxies[i], ip) { return true; }
    }
    return false;
  }

  method WalkTrustedChain(net: Net, policy: Policy, hops: seq<string>, peer: string) returns (client: string)
    ensures client == FromTrustedChain(net, policy, hops, peer)
  {
    client := peer;
    var i := |hops|;
    assert hops[..i] == hops;
    while i > 0
      invariant 0 <= i <= |hops|
      invariant FromTrustedChain(net, policy, hops, peer) == FromTrustedChain(net, policy, hops[..i], client)
    {
      i := i - 1;
      assert hops[..i + 1][..i] == hops[..i];
      var hop := net.parse(hops[i]);
      if hop.None? { return; }
      client := hop.value;
      var trusted := IsTrustedLoop(net, policy, client);
      if !trusted { return; }
    }
  }
}
