/** Starting a peer: every check of its settings against the store it finds, and why a store
    left by one peer may be taken up by the next. */
module Startup {
  import opened Basics
  import opened Tokens
  import opened Topology
  import opened Routing
  import opened Negotiation
  import opened Custody
  import opened Imports
  import opened Files
  import Catalog
  import CatalogBound
  import Peers

  datatype Settings = Settings(
    network: string, node: string, peer: string, role: Role, peerRole: Role, topology: seq<Node>,
    authority: Option<Catalog.Pin>, receive: set<string>, inbound: set<string>, fileSubscriptions: set<string>,
    autoApprove: bool, filePolicy: FileOutcome)

  /** What a store belongs to. */
  datatype Binding = Binding(network: string, node: string, peer: string, topology: seq<Node>, authority: Option<Catalog.Pin>)

  datatype Saved = Saved(data: Data, binding: Option<Binding>)

  function AuthorityForm(a: Catalog.Pin): Result<Catalog.Pin> {
    var network :- Token(a.network, NetworkName);
    var catalogId :- HexStr(a.catalogId, 16);
    var publisher :- Token(a.publisher, NodeId);
    var publicKey :- HexStr(a.publicKey, 32);
    Ok(Catalog.Pin(network, catalogId, publisher, publicKey))
  }

  /** An authority in normal form is one a peer can be configured with. */
  lemma NormalPinIsAuthority(pin: Catalog.Pin)
    requires CatalogBound.NormalPin(pin)
    ensures AuthorityForm(pin) == Ok(pin)
  {
  }

  /** The pinned authority, if there is one: of this network, published by the tree's ROOT. */
  function PinOf(authority: Option<Catalog.Pin>, network: string, nodes: Nodes): Result<Option<Catalog.Pin>> {
    if authority.None? then Ok(None)
    else
      var pin :- AuthorityForm(authority.value);
      :- Require(pin.network == network && pin.publisher in nodes && nodes[pin.publisher].role.Root?, InvalidPublisher);
      Ok(Some(pin))
  }

  /** The configuration the settings give over a store, or the first refusal. */
  ghost function Configured(s: Settings, saved: Saved): Result<Config> {
    var node :- Token(s.node, NodeId);
    var peer :- Token(s.peer, NodeId);
    var network :- Token(s.network, NetworkName);
    :- Require(Topology.Acceptable(s.topology) && node != peer, MalformedFrame);
    var nodes := Rows(s.topology).value;
    :- Require(node in nodes && peer in nodes, Error.Custody);
    :- Require(Adjacent(nodes, node, peer) && nodes[node].role == s.role && nodes[peer].role == s.peerRole, TopologyMismatch);
    var pin :- PinOf(s.authority, network, nodes);
    :- Require(saved.binding.None? || saved.binding.value == Binding(network, node, peer, s.topology, pin), Error.Custody);
    Ok(Config(network, node, peer, nodes, pin, s.receive, s.inbound, s.fileSubscriptions, s.autoApprove, s.filePolicy))
  }

  /** The stored catalogs need an authority, and pass its check. */
  ghost predicate CatalogsPass(pin: Option<Catalog.Pin>, catalogs: seq<Catalog.Signed>) {
    catalogs == [] || (pin.Some? && Catalog.Recheck(pin.value, catalogs))
  }

  /** The configuration is one for this binding. */
  predicate Bound(c: Config, b: Binding) {
    && c.network == b.network && c.node == b.node && c.peer == b.peer && c.pin == b.authority
    && Rows(b.topology) == Ok(c.nodes)
  }

  /** A store as a peer leaves it: new, or safe for whoever has its binding; with content that
      backs its file records. */
  ghost predicate StoreKept(saved: Saved, content: Store) {
    && FilesKept(saved.data.files, content)
    && match saved.binding
       case None => saved.data == EMPTY
       case Some(b) => forall c: Config {:trigger Bound(c, b)} :: c.Valid() && Bound(c, b) ==> Safe(c, saved.data)
  }

  /** The authority setting stands: none, or one whose fields are well spelled, of this network
      and published by a ROOT of the table. */
  predicate AuthorityStands(authority: Option<Catalog.Pin>, c: Config) {
    match authority
    case None => c.pin == None
    case Some(a) =>
      c.pin.Some?
      && var pin := c.pin.value;
         && Token(a.network, NetworkName) == Ok(pin.network) && HexStr(a.catalogId, 16) == Ok(pin.catalogId)
         && Token(a.publisher, NodeId) == Ok(pin.publisher) && HexStr(a.publicKey, 32) == Ok(pin.publicKey)
         && pin.network == c.network && pin.publisher in c.nodes && c.nodes[pin.publisher].role == Root
  }

  /** Exactly which settings give which configuration: well spelled names, an acceptable table
      in which node and peer differ, are listed with their roles and are each other's parent or
      child, an authority that stands, and a store that is new or has this very binding. */
  lemma ConfiguredMeaning(s: Settings, saved: Saved, c: Config)
    ensures Configured(s, saved) == Ok(c) <==>
              && Token(s.node, NodeId) == Ok(c.node) && Token(s.peer, NodeId) == Ok(c.peer) && Token(s.network, NetworkName) == Ok(c.network)
              && Topology.Acceptable(s.topology) && Rows(s.topology) == Ok(c.nodes)
              && c.node != c.peer && c.node in c.nodes && c.peer in c.nodes
              && (c.nodes[c.node].parent == Some(c.peer) || c.nodes[c.peer].parent == Some(c.node))
              && c.nodes[c.node].role == s.role && c.nodes[c.peer].role == s.peerRole
              && AuthorityStands(s.authority, c)
              && (saved.binding.Some? ==>
                    var b := saved.binding.value;
                    b.network == c.network && b.node == c.node && b.peer == c.peer && b.topology == s.topology && b.authority == c.pin)
              && c.receive == s.receive && c.inbound == s.inbound && c.fileSubscriptions == s.fileSubscriptions
              && c.autoApprove == s.autoApprove && c.filePolicy == s.filePolicy
  {
    hide Token, HexStr, Topology.Acceptable, Rows;
    AcceptableHasRows(s.topology);
  }

  /** The first thing wrong with settings decides the code: a misspelled name, an unacceptable
      table or a node that is its own peer; a node or peer that is not listed; one that is not the
      other's parent or child or has another role; a misspelled authority; one of another network
      or not published by a ROOT of the table; the binding of the store. */
  lemma ConfiguredRefusals(s: Settings, saved: Saved)
    requires Configured(s, saved).Err?
    ensures var node, peer := Token(s.node, NodeId), Token(s.peer, NodeId);
            var names := node.Ok? && peer.Ok? && Token(s.network, NetworkName).Ok? && node != peer;
            Configured(s, saved).code ==
              if !names || !Topology.Acceptable(s.topology) then MalformedFrame
              else
                var nodes, x, y := Rows(s.topology).value, node.value, peer.value;
                if x !in nodes || y !in nodes then Error.Custody
                else if (nodes[x].parent != Some(y) && nodes[y].parent != Some(x)) || nodes[x].role != s.role || nodes[y].role != s.peerRole
                then TopologyMismatch
                else if s.authority.Some? && !WellSpelledAuthority(s.authority.value) then MalformedFrame
                else if s.authority.Some? && !(Token(s.authority.value.network, NetworkName) == Token(s.network, NetworkName)
                                               && Token(s.authority.value.publisher, NodeId).value in nodes
                                               && nodes[Token(s.authority.value.publisher, NodeId).value].role == Root)
                then InvalidPublisher
                else Error.Custody
  {
    AcceptableHasRows(s.topology);
    TokensMalformed();
    hide Token, HexStr, Topology.Acceptable, Rows;
  }

  predicate WellSpelledAuthority(a: Catalog.Pin) {
    Token(a.network, NetworkName).Ok? && HexStr(a.catalogId, 16).Ok? && Token(a.publisher, NodeId).Ok? && HexStr(a.publicKey, 32).Ok?
  }

  lemma TokensMalformed()
    ensures forall t, kind :: Token(t, kind).Err? ==> Token(t, kind).code == MalformedFrame
    ensures forall t, n :: HexStr(t, n).Err? ==> HexStr(t, n).code == MalformedFrame
  {
    hide WellSpelled, UpperCase, LowerCase;
  }

  lemma ConfiguredIsValid(s: Settings, saved: Saved)
    requires Configured(s, saved).Ok?
    ensures Configured(s, saved).value.Valid()
    ensures saved.binding.Some? ==> Bound(Configured(s, saved).value, saved.binding.value)
  {
    hide Token, PinOf;
  }

  lemma AcceptableHasRows(topology: seq<Node>)
    ensures Topology.Acceptable(topology) ==> Rows(topology).Ok?
  {
  }

  /** The first stored object that does not verify, or else the first that does not follow,
      decides the code. */
  ghost predicate CatalogsRefusedWith(pin: Option<Catalog.Pin>, catalogs: seq<Catalog.Signed>, code: Error) {
    if pin.None? then code == Error.Custody
    else if AllVerify(pin.value, catalogs, |catalogs|) then
      exists n {:trigger FollowsBefore(catalogs, n)} ::
        0 <= n < |catalogs| && FollowsBefore(catalogs, n) == Err(code)
        && forall k :: 0 <= k < n ==> Catalog.Rechecked(pin.value, catalogs, k)
    else
      exists n {:trigger catalogs[n]} ::
        0 <= n < |catalogs| && AllVerify(pin.value, catalogs, n) && Catalog.VerifyRefusedWith(catalogs[n], pin.value, code)
  }

  predicate AllVerify(pin: Catalog.Pin, catalogs: seq<Catalog.Signed>, n: nat)
    requires n <= |catalogs|
  {
    forall k :: 0 <= k < n ==> Catalog.VerifiedForm(catalogs[k], pin).Some?
  }

  /** How a stored object follows the one before it. */
  function FollowsBefore(catalogs: seq<Catalog.Signed>, n: nat): Result<bool>
    requires n < |catalogs|
  {
    Catalog.Follows(catalogs[n], if n == 0 then None else Some(catalogs[n - 1]))
  }

  lemma RefusedAtVerify(pin: Catalog.Pin, catalogs: seq<Catalog.Signed>, n: nat, code: Error)
    requires n < |catalogs| && AllVerify(pin, catalogs, n) && Catalog.VerifiedForm(catalogs[n], pin).None?
    requires Catalog.VerifyRefusedWith(catalogs[n], pin, code)
    ensures CatalogsRefusedWith(Some(pin), catalogs, code) && !CatalogsPass(Some(pin), catalogs)
  {
    hide Catalog.VerifiedForm, Catalog.Follows, Catalog.VerifyRefusedWith;
    assert !Catalog.Rechecked(pin, catalogs, n);
  }

  lemma RefusedAtFollow(pin: Catalog.Pin, catalogs: seq<Catalog.Signed>, n: nat, code: Error)
    requires n < |catalogs| && AllVerify(pin, catalogs, |catalogs|) && FollowsBefore(catalogs, n) == Err(code)
    requires forall k :: 0 <= k < n ==> FollowsBefore(catalogs, k).Ok?
    ensures CatalogsRefusedWith(Some(pin), catalogs, code) && !CatalogsPass(Some(pin), catalogs)
  {
    hide Catalog.VerifiedForm, Catalog.Follows;
    assert !Catalog.Rechecked(pin, catalogs, n);
    forall k | 0 <= k < n
      ensures Catalog.Rechecked(pin, catalogs, k)
    {
      assert FollowsBefore(catalogs, k).Ok?;
    }
  }

  lemma AllPass(pin: Option<Catalog.Pin>, catalogs: seq<Catalog.Signed>)
    requires catalogs == [] || (pin.Some? && AllVerify(pin.value, catalogs, |catalogs|))
    requires forall k :: 0 <= k < |catalogs| ==> FollowsBefore(catalogs, k).Ok?
    ensures CatalogsPass(pin, catalogs)
  {
    hide Catalog.VerifiedForm, Catalog.Follows;
    forall k | 0 <= k < |catalogs|
      ensures Catalog.Rechecked(pin.value, catalogs, k)
    {
      assert FollowsBefore(catalogs, k).Ok?;
    }
  }

  /** The two loops over the stored catalogs: all verified first, then all compared. */
  method CheckCatalogs(pin: Option<Catalog.Pin>, catalogs: seq<Catalog.Signed>) returns (c: Check)
    ensures c.Pass? <==> CatalogsPass(pin, catalogs)
    ensures c.Fail? ==> CatalogsRefusedWith(pin, catalogs, c.code)
  {
    hide Catalog.VerifiedForm, Catalog.VerifyRefusedWith, FollowsBefore;
    for i := 0 to |catalogs|
      invariant i > 0 ==> pin.Some? && AllVerify(pin.value, catalogs, i)
    {
      if pin.None? {
        return Fail(Error.Custody);
      }
      var signed := Catalog.Verify(catalogs[i], pin.value);
      if signed.Err? {
        RefusedAtVerify(pin.value, catalogs, i, signed.code);
        return Fail(signed.code);
      }
    }
    hide AllVerify, CatalogsPass, CatalogsRefusedWith;
    for i := 0 to |catalogs|
      invariant forall k :: 0 <= k < i ==> FollowsBefore(catalogs, k).Ok?
    {
      var follows := FollowsBefore(catalogs, i);
      if follows.Err? {
        RefusedAtFollow(pin.value, catalogs, i, follows.code);
        return Fail(follows.code);
      }
    }
    AllPass(pin, catalogs);
    return Pass;
  }

  /** The checks in order; the peer that passes them has the store in memory as it is on disk. */
  method Start(s: Settings, saved: Saved, content: Store) returns (r: Result<Peers.Peer>)
    requires StoreKept(saved, content)
    ensures r.Ok? <==> Configured(s, saved).Ok? && CatalogsPass(Configured(s, saved).value.pin, saved.data.catalogs)
    ensures Configured(s, saved).Err? ==> r == Err(Configured(s, saved).code)
    ensures Configured(s, saved).Ok? && r.Err? ==> CatalogsRefusedWith(Configured(s, saved).value.pin, saved.data.catalogs, r.code)
    ensures r.Ok? ==> && fresh(r.value) && r.value.Valid() && r.value.config == Configured(s, saved).value
                      && r.value.data == saved.data && r.value.disk == saved.data
                      && r.value.content == content && r.value.caps == {}
  {
    hide Token, AuthorityForm, Topology.Acceptable, Safe, FilesKept;
    var node :- Token(s.node, NodeId);
    var peer :- Token(s.peer, NodeId);
    var network :- Token(s.network, NetworkName);
    var table := Topology.Validate(s.topology);
    AcceptableHasRows(s.topology);
    if table.Err? || node == peer { return Err(MalformedFrame); }
    var nodes := table.value;
    if node !in nodes || peer !in nodes { return Err(Error.Custody); }
    if !Adjacent(nodes, node, peer) { return Err(TopologyMismatch); }
    if nodes[node].role != s.role || nodes[peer].role != s.peerRole { return Err(TopologyMismatch); }
    var pin :- PinOf(s.authority, network, nodes);
    if saved.binding.Some? && saved.binding.value != Binding(network, node, peer, s.topology, pin) {
      return Err(Error.Custody);
    }
    var config := Config(network, node, peer, nodes, pin, s.receive, s.inbound, s.fileSubscriptions, s.autoApprove, s.filePolicy);
    var checked := CheckCatalogs(pin, saved.data.catalogs);
    assert Configured(s, saved) == Ok(config);
    hide PinOf, Configured, CatalogsPass, CatalogsRefusedWith;
    if checked.Fail? { return Err(checked.code); }
    ConfiguredIsValid(s, saved);
    if saved.binding.None? { EmptyIsSafe(config); }
    var started := new Peers.Peer(config, saved.data, content);
    return Ok(started);
  }

  /** Whatever a peer did, the store it leaves on disk is one the next peer may take up. */
  lemma StoppedStoreIsKept(p: Peers.Peer, b: Binding)
    requires p.Valid() && Bound(p.config, b)
    ensures StoreKept(Saved(p.disk, Some(b)), p.content)
  {
    hide Config.Valid, Safe, FilesKept;
    forall c: Config | c.Valid() && Bound(c, b)
      ensures Safe(c, p.disk)
    {
      SafeDependsOnBinding(p.config, c, p.disk, p.disk);
    }
  }

  /** A stop and a start with any settings: when it succeeds, the new peer has the old one's
      disk, its binding and, again, a safe store with backed receipts. */
  method Restart(p: Peers.Peer, b: Binding, s: Settings) returns (r: Result<Peers.Peer>)
    requires p.Valid() && Bound(p.config, b)
    ensures var saved := Saved(p.disk, Some(b));
            r.Ok? <==> Configured(s, saved).Ok? && CatalogsPass(Configured(s, saved).value.pin, p.disk.catalogs)
    ensures r.Ok? ==> && fresh(r.value) && r.value.Valid() && SameBinding(p.config, r.value.config)
                      && r.value.data == p.disk && r.value.disk == p.disk && r.value.content == p.content
  {
    StoppedStoreIsKept(p, b);
    var saved := Saved(p.disk, Some(b));
    r := Start(s, saved, p.content);
    if r.Ok? {
      ConfiguredIsValid(s, saved);
    }
  }

  /** With the settings it was first started with, a peer whose catalogs grew one by one can
      always be started again. */
  lemma SameSettingsStartAgain(s: Settings, first: Saved, later: Saved)
    requires Configured(s, first).Ok?
    requires later.binding.Some? && Bound(Configured(s, first).value, later.binding.value) && later.binding.value.topology == s.topology
    requires var pin := Configured(s, first).value.pin;
             later.data.catalogs == [] || (pin.Some? && Catalog.History(pin.value, later.data.catalogs))
    ensures Configured(s, later) == Configured(s, first)
    ensures CatalogsPass(Configured(s, later).value.pin, later.data.catalogs)
  {
    var pin := Configured(s, first).value.pin;
    if later.data.catalogs != [] {
      Catalog.RecheckAllowsOnlyRepeatsAndRespellings(pin.value, later.data.catalogs);
    }
    hide Token, Catalog.History, Catalog.Recheck, PinOf, Topology.Acceptable;
  }
}
