/** Hello frames and the agreement two peers derive from them. */
module Negotiation {
  import opened Basics
  import opened Tokens
  import opened Topology

  datatype Capability =
    | AtomicBatch | SymmetricPoll | DirectedRouting | RemoteDossierControl
    | FileDistribution | FileHashHave | CatalogSync | CatalogAccess
    | Future(name: string)

  datatype Mode = Test | Poll

  datatype Hello = Hello(
    protocol: string, major: int, minimumMinor: int, maximumMinor: int, capabilities: seq<Capability>,
    network: string, node: string, role: Role, mode: Mode)

  const PROTOCOL := "CIRCUITNET-NG"
  const BASELINE: set<Capability> := {AtomicBatch, SymmetricPoll}

  datatype Agreement = Agreement(minor: int, caps: set<Capability>)

  function SetOf(s: seq<Capability>): set<Capability> {
    set c | c in s
  }

  predicate Known(c: Capability) { !c.Future? }

  function NormalHello(h: Hello): Result<Hello> {
    if !(0 <= h.major <= 0xffff && 0 <= h.minimumMinor <= 0xffff && 0 <= h.maximumMinor <= 0xffff) then Err(MalformedFrame)
    else if !(|h.capabilities| <= 8 && forall i :: 0 <= i < |h.capabilities| && h.capabilities[i].Future? ==>
                Utf8Length(h.capabilities[i].name) <= 32) then Err(UnsupportedVersion)
    else
      var network :- Token(h.network, NetworkName);
      var node :- Token(h.node, NodeId);
      Ok(h.(network := network, node := node))
  }

  function Min(a: int, b: int): int { if a <= b then a else b }
  function Max(a: int, b: int): int { if a >= b then a else b }

  /** Speaks this protocol, with a possible range and the baseline capabilities. */
  predicate Speaks(h: Hello) {
    h.protocol == PROTOCOL && h.major == 1 && h.minimumMinor <= h.maximumMinor && BASELINE <= SetOf(h.capabilities)
  }

  predicate RangesMeet(l: Hello, r: Hello) {
    Max(l.minimumMinor, r.minimumMinor) <= Min(l.maximumMinor, r.maximumMinor)
  }

  /** The capabilities both offer, less those the minor or a missing dependency rules out. */
  method Shrink(offered: set<Capability>, minor: int) returns (caps: set<Capability>)
    ensures forall c :: c in caps <==> c in offered && Permitted(offered, minor, c)
  {
    caps := offered;
    if minor < 4 {
      caps := caps - {CatalogSync, CatalogAccess};
    }
    if minor < 3 {
      caps := caps - {FileDistribution, FileHashHave};
    }
    if minor < 2 {
      caps := caps - {DirectedRouting, RemoteDossierControl};
    }
    if FileDistribution !in caps {
      caps := caps - {FileHashHave};
    }
    if CatalogSync !in caps {
      caps := caps - {CatalogAccess};
    }
  }

  predicate Permitted(offered: set<Capability>, minor: int, c: Capability) {
    match c
    case CatalogSync => minor >= 4
    case CatalogAccess => minor >= 4 && CatalogSync in offered
    case FileDistribution => minor >= 3
    case FileHashHave => minor >= 3 && FileDistribution in offered
    case DirectedRouting => minor >= 2
    case RemoteDossierControl => minor >= 2
    case _ => true
  }

  function Negotiated(local: Hello, remote: Hello, expectedNode: string, expectedRole: Role): Result<Agreement> {
    var l :- NormalHello(local);
    var r :- NormalHello(remote);
    :- Require(Speaks(r) && RangesMeet(l, r), UnsupportedVersion);
    :- Require(l.network == r.network, WrongNetwork);
    :- Require(l.mode == r.mode, MalformedFrame);
    :- Require(r.node == expectedNode, UnknownNode);
    :- Require(r.role == expectedRole, TopologyMismatch);
    var minor := Min(l.maximumMinor, r.maximumMinor);
    var offered := set c | c in SetOf(l.capabilities) && c in SetOf(r.capabilities) && Known(c);
    Ok(Agreement(minor, set c | c in offered && Permitted(offered, minor, c)))
  }

  method Negotiate(local: Hello, remote: Hello, expectedNode: string, expectedRole: Role) returns (r: Result<Agreement>)
    ensures r == Negotiated(local, remote, expectedNode, expectedRole)
  {
    var l :- NormalHello(local);
    var far :- NormalHello(remote);
    if !(Speaks(far) && RangesMeet(l, far)) { return Err(UnsupportedVersion); }
    if l.network != far.network { return Err(WrongNetwork); }
    if l.mode != far.mode { return Err(MalformedFrame); }
    if far.node != expectedNode { return Err(UnknownNode); }
    if far.role != expectedRole { return Err(TopologyMismatch); }
    var minor := Min(l.maximumMinor, far.maximumMinor);
    var offered := set c | c in SetOf(l.capabilities) && c in SetOf(far.capabilities) && Known(c);
    var caps := Shrink(offered, minor);
    assert caps == set c | c in offered && Permitted(offered, minor, c);
    return Ok(Agreement(minor, caps));
  }

  /** Both accepting sides hold the same agreement: the baseline is in it, nothing outside
      either offer is, and no capability stands without the one it depends on. */
  lemma BothSidesAgree(a: Hello, b: Hello, nodeA: string, roleA: Role, nodeB: string, roleB: Role)
    requires Negotiated(a, b, nodeB, roleB).Ok? && Negotiated(b, a, nodeA, roleA).Ok?
    ensures Negotiated(a, b, nodeB, roleB) == Negotiated(b, a, nodeA, roleA)
    ensures var g := Negotiated(a, b, nodeB, roleB).value;
            && BASELINE <= g.caps <= SetOf(a.capabilities) * SetOf(b.capabilities)
            && (FileHashHave in g.caps ==> FileDistribution in g.caps)
            && (CatalogAccess in g.caps ==> CatalogSync in g.caps)
            && (forall c :: c in g.caps ==> Known(c))
            && a.minimumMinor <= g.minor <= a.maximumMinor && b.minimumMinor <= g.minor <= b.maximumMinor
  {
    hide Token, Utf8Length;
    var x := set c | c in SetOf(a.capabilities) && c in SetOf(b.capabilities) && Known(c);
    var y := set c | c in SetOf(b.capabilities) && c in SetOf(a.capabilities) && Known(c);
    assert x == y;
    assert AtomicBatch in BASELINE && SymmetricPoll in BASELINE;
  }

  /** A peer that itself speaks the protocol is accepted by any enrolled peer it accepts. */
  lemma AcceptanceIsMutual(a: Hello, b: Hello, nodeB: string, roleB: Role)
    requires NormalHello(a).Ok? && Speaks(a) && Negotiated(a, b, nodeB, roleB).Ok?
    ensures Negotiated(b, a, NormalHello(a).value.node, a.role).Ok?
  {
    hide Token, Utf8Length;
  }

  // ---------------------------------------------------------------------------
  // What is agreed, number by number and name by name

  /** Which hellos are well-formed. */
  lemma HelloMeaning(h: Hello)
    ensures NormalHello(h).Ok? <==>
              && 0 <= h.major <= 65535 && 0 <= h.minimumMinor <= 65535 && 0 <= h.maximumMinor <= 65535
              && |h.capabilities| <= 8
              && (forall i :: 0 <= i < |h.capabilities| && h.capabilities[i].Future? ==> Utf8Length(h.capabilities[i].name) <= 32)
              && Token(h.network, NetworkName).Ok? && Token(h.node, NodeId).Ok?
    ensures NormalHello(h).Ok? ==>
              NormalHello(h).value == h.(network := Token(h.network, NetworkName).value, node := Token(h.node, NodeId).value)
  {
    hide Token, Utf8Length;
  }

  predicate InBothRanges(l: Hello, r: Hello, n: int) {
    l.minimumMinor <= n <= l.maximumMinor && r.minimumMinor <= n <= r.maximumMinor
  }

  /** Exactly when a remote hello is accepted: it speaks this protocol with the baseline, some minor
      lies in both ranges, and network, mode, node and role are as they must be. */
  lemma NegotiateMeaning(l: Hello, r: Hello, node: string, role: Role)
    requires NormalHello(l) == Ok(l) && NormalHello(r) == Ok(r)
    ensures Negotiated(l, r, node, role).Ok? <==>
              && r.protocol == "CIRCUITNET-NG" && r.major == 1 && r.minimumMinor <= r.maximumMinor
              && AtomicBatch in r.capabilities && SymmetricPoll in r.capabilities
              && (exists n :: InBothRanges(l, r, n))
              && l.network == r.network && l.mode == r.mode && r.node == node && r.role == role
  {
    hide Token, Utf8Length, NormalHello;
    SpeaksMeaning(r);
    hide Speaks;
    if RangesMeet(l, r) { assert InBothRanges(l, r, Max(l.minimumMinor, r.minimumMinor)); }
  }

  lemma SpeaksMeaning(r: Hello)
    ensures Speaks(r) <==>
              && r.protocol == "CIRCUITNET-NG" && r.major == 1 && r.minimumMinor <= r.maximumMinor
              && AtomicBatch in r.capabilities && SymmetricPoll in r.capabilities
  {
    assert BASELINE <= SetOf(r.capabilities) <==> AtomicBatch in SetOf(r.capabilities) && SymmetricPoll in SetOf(r.capabilities);
  }

  /** The code of the first test that fails. */
  lemma NegotiateRefusals(l: Hello, r: Hello, node: string, role: Role)
    requires NormalHello(l) == Ok(l) && NormalHello(r) == Ok(r) && Negotiated(l, r, node, role).Err?
    ensures var spoken := && r.protocol == "CIRCUITNET-NG" && r.major == 1 && r.minimumMinor <= r.maximumMinor
                          && AtomicBatch in r.capabilities && SymmetricPoll in r.capabilities
                          && exists n :: InBothRanges(l, r, n);
            Negotiated(l, r, node, role).code ==
              if !spoken then UnsupportedVersion
              else if l.network != r.network then WrongNetwork
              else if l.mode != r.mode then MalformedFrame
              else if r.node != node then UnknownNode
              else TopologyMismatch
  {
    hide Token, Utf8Length, NormalHello;
    SpeaksMeaning(r);
    hide Speaks;
    if RangesMeet(l, r) { assert InBothRanges(l, r, Max(l.minimumMinor, r.minimumMinor)); }
  }

  /** Hellos count by their normal forms; one that has none is refused with its code, the local
      one first. */
  lemma NormalFormsDecide(local: Hello, remote: Hello, node: string, role: Role)
    ensures NormalHello(local).Err? ==> Negotiated(local, remote, node, role) == Err(NormalHello(local).code)
    ensures NormalHello(local).Ok? && NormalHello(remote).Err? ==> Negotiated(local, remote, node, role) == Err(NormalHello(remote).code)
    ensures NormalHello(local).Ok? && NormalHello(remote).Ok? ==>
              var l, r := NormalHello(local).value, NormalHello(remote).value;
              && NormalHello(l) == Ok(l) && NormalHello(r) == Ok(r)
              && Negotiated(local, remote, node, role) == Negotiated(l, r, node, role)
  {
    hide NormalHello, Permitted, Speaks, RangesMeet, SetOf;
    if NormalHello(local).Ok? && NormalHello(remote).Ok? {
      HelloIdempotent(local);
      HelloIdempotent(remote);
    }
  }

  lemma HelloIdempotent(h: Hello)
    requires NormalHello(h).Ok?
    ensures NormalHello(NormalHello(h).value) == NormalHello(h)
  {
    TokenIdempotent(h.network, NetworkName);
    TokenIdempotent(h.node, NodeId);
    hide Token, Utf8Length;
  }

  /** The agreed minor is the greatest in both ranges. */
  lemma GreatestMinor(l: Hello, r: Hello, node: string, role: Role)
    requires Negotiated(l, r, node, role).Ok?
    ensures InBothRanges(l, r, Negotiated(l, r, node, role).value.minor)
    ensures forall n :: InBothRanges(l, r, n) ==> n <= Negotiated(l, r, node, role).value.minor
  {
    hide Token, Utf8Length;
  }

  /** Agreed is every capability both sides offer that the minor has come to know, together with
      the one it rests on; and nothing else. */
  lemma AgreedCapabilities(l: Hello, r: Hello, node: string, role: Role, c: Capability)
    requires Negotiated(l, r, node, role).Ok?
    ensures var g := Negotiated(l, r, node, role).value;
            c in g.caps <==>
              && c in l.capabilities && c in r.capabilities
              && (|| c == AtomicBatch || c == SymmetricPoll
                  || (c == DirectedRouting && g.minor >= 2)
                  || (c == RemoteDossierControl && g.minor >= 2)
                  || (c == FileDistribution && g.minor >= 3)
                  || (c == FileHashHave && g.minor >= 3 && FileDistribution in l.capabilities && FileDistribution in r.capabilities)
                  || (c == CatalogSync && g.minor >= 4)
                  || (c == CatalogAccess && g.minor >= 4 && CatalogSync in l.capabilities && CatalogSync in r.capabilities))
  {
    hide Token, Utf8Length;
  }
}
