/** All-or-nothing batch import: what one batch does to a store, and why the order of
    accepted batches does not matter. */
module Imports {
  import opened Basics
  import opened Tokens
  import opened Records
  import opened Topology
  import opened Routing
  import opened Replies
  import opened Negotiation
  import opened Custody
  import Catalog

  type Caps = set<Capability>

  // ---------------------------------------------------------------------------
  // One message

  /** Whether the current catalog lets a new message in under its codename. */
  function CatalogAdmits(c: Config, caps: Caps, catalogs: seq<Catalog.Signed>, m: Message): Check {
    var e := EntryFor(c.pin, catalogs, m.codename, m.conference, false);
    if e.Err? then Fail(e.code)
    else if e.value.None? then Pass
    else if m.conference != Some(e.value.value.id) then Fail(UnauthorizedCodename)
    else Require(!e.value.value.access.Sysops? || CatalogAccess in caps, UnsupportedVersion)
  }

  function SubscriptionAdmits(c: Config, m: Message): Check {
    Require(m.codename in c.receive && (m.destination.Some? || m.codename in c.inbound), UnauthorizedCodename)
  }

  function CapabilityAdmits(caps: Caps, m: Message): Check {
    Require(&& (m.destination.Some? ==> DirectedRouting in caps)
            && (m.conference.Some? ==> CatalogSync in caps), UnsupportedVersion)
  }

  /** True for a message to store, false for one already held, otherwise the refusal. */
  ghost function Admit(c: Config, caps: Caps, catalogs: seq<Catalog.Signed>, held: Messages, m: Message): Result<bool>
    requires c.Valid()
  {
    if CapabilityAdmits(caps, m).Fail? then Err(UnsupportedVersion)
    else
      var policy := PathPolicy(c.nodes, c.node, c.peer, m.origin, m.path, m.destination);
      if policy.Fail? then Err(policy.code)
      else if m.id in held then
        if held[m.id].fingerprint == Fingerprint(m) then Ok(false) else Err(ConflictingMessage)
      else if SubscriptionAdmits(c, m).Fail? then Err(UnauthorizedCodename)
      else
        var listed := CatalogAdmits(c, caps, catalogs, m);
        if listed.Fail? then Err(listed.code) else Ok(true)
  }

  method AdmitMessage(c: Config, caps: Caps, catalogs: seq<Catalog.Signed>, held: Messages, m: Message) returns (r: Result<bool>)
    requires c.Valid()
    ensures r == Admit(c, caps, catalogs, held, m)
  {
    if m.destination.Some? && DirectedRouting !in caps { return Err(UnsupportedVersion); }
    if m.conference.Some? && CatalogSync !in caps { return Err(UnsupportedVersion); }
    var policy := CheckPath(c.nodes, c.node, c.peer, m.origin, m.path, m.destination);
    if policy.Fail? { return Err(policy.code); }
    if m.id in held {
      return if held[m.id].fingerprint == Fingerprint(m) then Ok(false) else Err(ConflictingMessage);
    }
    if m.codename !in c.receive { return Err(UnauthorizedCodename); }
    if m.destination.None? && m.codename !in c.inbound { return Err(UnauthorizedCodename); }
    var listed := CatalogAdmits(c, caps, catalogs, m);
    return if listed.Fail? then Err(listed.code) else Ok(true);
  }

  // What admission means, over the entries of the current catalog.

  ghost predicate IdsDiffer(entries: seq<Catalog.Entry>) {
    forall i, j :: 0 <= i < j < |entries| ==> entries[i].id != entries[j].id
  }

  /** Any catalog the start check passes has no identity twice in a revision. */
  lemma CheckedIdsDiffer(pin: Catalog.Pin, catalogs: seq<Catalog.Signed>)
    requires Catalog.Recheck(pin, catalogs)
    ensures IdsDiffer(Latest(catalogs))
  {
    if catalogs != [] {
      var last := catalogs[|catalogs| - 1];
      assert Catalog.Rechecked(pin, catalogs, |catalogs| - 1);
      var form := Catalog.VerifiedForm(last, pin).value;
      Catalog.FormEntries(last, pin);
      forall i, j | 0 <= i < j < |last.body.entries|
        ensures last.body.entries[i].id != last.body.entries[j].id
      {
        Catalog.BeforeIrreflexive(form.body.entries[i].id);
      }
    }
  }

  /** The entry is live, has the message's codename and is the generation the message names. */
  predicate IsAreaOf(e: Catalog.Entry, m: Message) {
    (e.status == Catalog.Active || e.status == Catalog.Deprecated) && e.codename == m.codename && m.conference == Some(e.id)
  }

  lemma AreaIsFound(entries: seq<Catalog.Entry>, m: Message, i: nat)
    requires IdsDiffer(entries) && i < |entries| && IsAreaOf(entries[i], m)
    ensures Found(entries, m.codename, m.conference, false) == [entries[i]]
  {
    OneAreaOffered(entries, m);
    FoundAt(entries, m.codename, m.conference, false, i);
  }

  lemma OneAreaOffered(entries: seq<Catalog.Entry>, m: Message)
    requires IdsDiffer(entries) && m.conference.Some?
    ensures forall k, j :: 0 <= k < j < |entries| ==>
              !(Offered(entries[k], m.codename, m.conference, false) && Offered(entries[j], m.codename, m.conference, false))
  {
  }

  lemma CatalogMeaning(c: Config, caps: Caps, catalogs: seq<Catalog.Signed>, m: Message)
    requires c.pin.Some? && IdsDiffer(Latest(catalogs))
    ensures CatalogAdmits(c, caps, catalogs, m).Pass? <==>
              exists i :: 0 <= i < |Latest(catalogs)| && IsAreaOf(Latest(catalogs)[i], m)
                          && (Latest(catalogs)[i].access == Catalog.Public || CatalogAccess in caps)
    ensures var listed := exists i :: 0 <= i < |Latest(catalogs)| && IsAreaOf(Latest(catalogs)[i], m);
            CatalogAdmits(c, caps, catalogs, m) in {Pass, Fail(if listed then UnsupportedVersion else UnauthorizedCodename)}
  {
    var entries := Latest(catalogs);
    var found := Found(entries, m.codename, m.conference, false);
    if i :| 0 <= i < |entries| && IsAreaOf(entries[i], m) {
      AreaIsFound(entries, m, i);
      forall k | 0 <= k < |entries| && IsAreaOf(entries[k], m)
        ensures k == i
      {
      }
    } else if found != [] {
      assert found[0] in found;
      var k :| 0 <= k < |entries| && entries[k] == found[0];
      assert !IsAreaOf(entries[k], m);
    }
  }

  /** The path so far, with this node added, is the route here, and the message is for everyone
      or for this node. */
  ghost predicate ComesByRoute(c: Config, m: Message)
    requires c.Valid()
  {
    && m.origin in c.nodes && m.path != [] && m.path[|m.path| - 1] == c.peer
    && m.path + [c.node] == Route(c.nodes, m.origin, c.node)
    && (m.destination == None || m.destination == Some(c.node))
  }

  predicate CapabilitiesHeld(caps: Caps, m: Message) {
    (m.destination != None ==> DirectedRouting in caps) && (m.conference != None ==> CatalogSync in caps)
  }

  /** Exactly when a message is new to the store and let in. */
  lemma AdmitMeaning(c: Config, caps: Caps, catalogs: seq<Catalog.Signed>, held: Messages, m: Message)
    requires c.Valid() && (c.pin.Some? ==> IdsDiffer(Latest(catalogs)))
    ensures Admit(c, caps, catalogs, held, m) == Ok(true) <==>
              && ComesByRoute(c, m) && CapabilitiesHeld(caps, m) && m.id !in held
              && m.codename in c.receive && (m.destination == Some(c.node) || m.codename in c.inbound)
              && (c.pin == None || exists i :: 0 <= i < |Latest(catalogs)| && IsAreaOf(Latest(catalogs)[i], m)
                                    && (Latest(catalogs)[i].access == Catalog.Public || CatalogAccess in caps))
    ensures Admit(c, caps, catalogs, held, m) == Ok(false) <==>
              ComesByRoute(c, m) && CapabilitiesHeld(caps, m) && m.id in held && held[m.id].fingerprint == Sha256(m.(path := []))
  {
    PolicyMeaning(c.nodes, c.node, c.peer, m.origin, m.path, m.destination);
    if c.pin.Some? {
      CatalogMeaning(c, caps, catalogs, m);
      hide CatalogAdmits;
    }
    hide PathPolicy, Tree;
  }

  /** Exactly why any other message is refused. */
  lemma AdmitRefusals(c: Config, caps: Caps, catalogs: seq<Catalog.Signed>, held: Messages, m: Message)
    requires c.Valid() && (c.pin.Some? ==> IdsDiffer(Latest(catalogs)))
    ensures !CapabilitiesHeld(caps, m) ==> Admit(c, caps, catalogs, held, m) == Err(UnsupportedVersion)
    ensures CapabilitiesHeld(caps, m) && !ComesByRoute(c, m) ==>
              Admit(c, caps, catalogs, held, m) == Err(if PassesThrough(c, m) then UnauthorizedCodename else TopologyMismatch)
    ensures CapabilitiesHeld(caps, m) && ComesByRoute(c, m) && m.id in held && held[m.id].fingerprint != Sha256(m.(path := [])) ==>
              Admit(c, caps, catalogs, held, m) == Err(ConflictingMessage)
    ensures CapabilitiesHeld(caps, m) && ComesByRoute(c, m) && m.id !in held
            && (m.codename !in c.receive || (m.destination == None && m.codename !in c.inbound)) ==>
              Admit(c, caps, catalogs, held, m) == Err(UnauthorizedCodename)
    ensures CapabilitiesHeld(caps, m) && ComesByRoute(c, m) && m.id !in held
            && m.codename in c.receive && (m.destination != None || m.codename in c.inbound)
            && c.pin != None && Admit(c, caps, catalogs, held, m) != Ok(true) ==>
              Admit(c, caps, catalogs, held, m) ==
                Err(if exists i :: 0 <= i < |Latest(catalogs)| && IsAreaOf(Latest(catalogs)[i], m) then UnsupportedVersion
                    else UnauthorizedCodename)
  {
    PolicyMeaning(c.nodes, c.node, c.peer, m.origin, m.path, m.destination);
    PolicyRefusal(c.nodes, c.node, c.peer, m.origin, m.path, m.destination);
    if c.pin.Some? {
      CatalogMeaning(c, caps, catalogs, m);
      hide CatalogAdmits;
    }
    hide PathPolicy, Tree;
  }

  /** A directed message on its way through this node to another. */
  ghost predicate PassesThrough(c: Config, m: Message)
    requires c.Valid()
  {
    && m.origin in c.nodes && m.path != [] && m.path[|m.path| - 1] == c.peer
    && m.path + [c.node] == Route(c.nodes, m.origin, c.node)
    && m.destination.Some? && m.destination.value in c.nodes && m.destination.value != c.node
    && m.path + [c.node] <= Route(c.nodes, m.origin, m.destination.value)
  }

  // ---------------------------------------------------------------------------
  // One batch

  /** Every message filed under its identity with its own fingerprint. */
  ghost predicate WellKept(held: Messages) {
    forall k {:trigger k in held} :: k in held ==>
      held[k].message.id == k && held[k].fingerprint == Fingerprint(held[k].message)
  }

  ghost predicate AllAdmitted(c: Config, caps: Caps, catalogs: seq<Catalog.Signed>, held: Messages, ms: seq<Message>)
    requires c.Valid()
  {
    forall i :: 0 <= i < |ms| ==> Admit(c, caps, catalogs, held, ms[i]).Ok?
  }

  /** The first message that is not admitted, and why. */
  ghost predicate FirstRefused(c: Config, caps: Caps, catalogs: seq<Catalog.Signed>, held: Messages, ms: seq<Message>, n: nat, code: Error)
    requires c.Valid()
  {
    n < |ms| && AllAdmitted(c, caps, catalogs, held, ms[..n]) && Admit(c, caps, catalogs, held, ms[n]) == Err(code)
  }

  /** The store with the messages it did not hold yet. */
  function Merge(held: Messages, ms: seq<Message>): (r: Messages)
    ensures forall k :: k in held ==> k in r && r[k] == held[k]
    ensures forall k :: k in r <==> k in held || k in Ids(ms)
    ensures |held| <= |r| <= |held| + |ms|
  {
    if ms == [] then held
    else
      var last := ms[|ms| - 1];
      var rest := Merge(held, ms[..|ms| - 1]);
      assert Ids(ms) == Ids(ms[..|ms| - 1]) + [last.id];
      if last.id in rest then rest else rest[last.id := Stored(Fingerprint(last), last)]
  }

  ghost predicate MergedAs(held: Messages, ms: seq<Message>, m: Message) {
    m.id in Merge(held, ms) && Merge(held, ms)[m.id] == Stored(Fingerprint(m), m)
  }

  /** With unrepeated identities, exactly the new messages are added, each as it came. */
  lemma {:induction false} MergeContents(held: Messages, ms: seq<Message>)
    requires IdsUnrepeated(ms)
    ensures forall i :: 0 <= i < |ms| && ms[i].id !in held ==> MergedAs(held, ms, ms[i])
    decreases |ms|
  {
    if ms == [] {
    } else {
      var front := ms[..|ms| - 1];
      MergeContents(held, front);
      var last := ms[|ms| - 1];
      assert last.id !in Ids(front);
      forall i | 0 <= i < |ms| && ms[i].id !in held
        ensures MergedAs(held, ms, ms[i])
      {
        assert Ids(ms)[i] == ms[i].id;
        if i < |ms| - 1 { assert front[i] == ms[i] && Ids(front)[i] == ms[i].id; }
      }
    }
  }

  ghost function Imported(c: Config, d: Data, b: Batch): Data {
    d.(messages := Merge(d.messages, b.messages), batches := d.batches[Sha256(b) := ReceiptOf(b)])
  }

  /** Exactly the batches that change the store. */
  ghost predicate Acceptable(c: Config, caps: Caps, d: Data, b: Batch)
    requires c.Valid()
  {
    && b.network == c.network && b.sender == c.peer && b.neighbor == c.node
    && AllAdmitted(c, caps, d.catalogs, d.messages, b.messages)
    && Acyclic(Merge(d.messages, b.messages))
    && Fits(Imported(c, d, b))
  }

  ghost predicate Replayed(c: Config, d: Data, b: Batch) {
    b.network == c.network && b.sender == c.peer && b.neighbor == c.node && Sha256(b) in d.batches
  }

  /** The acknowledgement for a batch the store did not have as an artifact. */
  ghost function FirstAck(d: Data, b: Batch): Ack {
    var added := |Merge(d.messages, b.messages)| - |d.messages|;
    Ack(ReceiptOf(b), added, |b.messages| - added)
  }

  /** What a store becomes and answers; None when the batch is refused and nothing changes. */
  ghost function Import(c: Config, caps: Caps, d: Data, b: Batch): Option<(Data, Ack)>
    requires c.Valid()
  {
    if Replayed(c, d, b) then Some((d, Ack(d.batches[Sha256(b)], 0, |b.messages|)))
    else if Acceptable(c, caps, d, b) then Some((Imported(c, d, b), FirstAck(d, b)))
    else None
  }

  lemma AdmitIgnoresOthers(c: Config, caps: Caps, catalogs: seq<Catalog.Signed>, held: Messages, ms: seq<Message>, n: nat)
    requires c.Valid() && IdsUnrepeated(ms) && n < |ms|
    ensures Admit(c, caps, catalogs, Merge(held, ms[..n]), ms[n]) == Admit(c, caps, catalogs, held, ms[n])
    ensures ms[n].id in Merge(held, ms[..n]) <==> ms[n].id in held
  {
    hide CapabilityAdmits, SubscriptionAdmits, CatalogAdmits, PathPolicy;
    assert ms[n].id !in Ids(ms[..n]);
  }

  /** The import loop on a copy of the store's messages, counting as it goes. */
  method Gather(c: Config, caps: Caps, catalogs: seq<Catalog.Signed>, held: Messages, ms: seq<Message>)
    returns (r: Result<Messages>, added: nat, duplicates: nat)
    requires c.Valid() && IdsUnrepeated(ms)
    ensures r.Ok? <==> AllAdmitted(c, caps, catalogs, held, ms)
    ensures r.Err? ==> exists n :: FirstRefused(c, caps, catalogs, held, ms, n, r.code)
    ensures r.Ok? ==> r.value == Merge(held, ms) && added == |r.value| - |held| && added + duplicates == |ms|
  {
    hide Admit, AllAdmitted, Tree;
    var copy := held;
    added, duplicates := 0, 0;
    NoneAdmitted(c, caps, catalogs, held);
    for n := 0 to |ms|
      invariant copy == Merge(held, ms[..n])
      invariant added == |copy| - |held| && added + duplicates == n
      invariant AllAdmitted(c, caps, catalogs, held, ms[..n])
    {
      var m := ms[n];
      var novel := AdmitMessage(c, caps, catalogs, copy, m);
      AdmitIgnoresOthers(c, caps, catalogs, held, ms, n);
      OneMoreAdmitted(c, caps, catalogs, held, ms, n);
      if novel.Err? {
        assert FirstRefused(c, caps, catalogs, held, ms, n, novel.code);
        return Err(novel.code), added, duplicates;
      }
      FreshMeansNew(c, caps, catalogs, copy, m);
      MergeStep(held, ms, n);
      if novel.value {
        copy := copy[m.id := Stored(Fingerprint(m), m)];
        added := added + 1;
      } else {
        duplicates := duplicates + 1;
      }
    }
    assert ms[..|ms|] == ms;
    return Ok(copy), added, duplicates;
  }

  lemma MergeStep(held: Messages, ms: seq<Message>, n: nat)
    requires n < |ms|
    ensures var before := Merge(held, ms[..n]);
            Merge(held, ms[..n + 1]) == if ms[n].id in before then before else before[ms[n].id := Stored(Fingerprint(ms[n]), ms[n])]
  {
    assert ms[..n + 1][..n] == ms[..n];
  }

  lemma NoneAdmitted(c: Config, caps: Caps, catalogs: seq<Catalog.Signed>, held: Messages)
    requires c.Valid()
    ensures AllAdmitted(c, caps, catalogs, held, [])
  {
  }

  lemma OneMoreAdmitted(c: Config, caps: Caps, catalogs: seq<Catalog.Signed>, held: Messages, ms: seq<Message>, n: nat)
    requires c.Valid() && n < |ms| && AllAdmitted(c, caps, catalogs, held, ms[..n])
    ensures Admit(c, caps, catalogs, held, ms[n]).Ok? ==> AllAdmitted(c, caps, catalogs, held, ms[..n + 1])
    ensures Admit(c, caps, catalogs, held, ms[n]).Err? ==> !AllAdmitted(c, caps, catalogs, held, ms)
  {
    hide Admit, Tree;
    assert forall i :: 0 <= i < n ==> ms[..n + 1][i] == ms[..n][i];
  }

  lemma FreshMeansNew(c: Config, caps: Caps, catalogs: seq<Catalog.Signed>, held: Messages, m: Message)
    requires c.Valid() && Admit(c, caps, catalogs, held, m).Ok?
    ensures Admit(c, caps, catalogs, held, m).value <==> m.id !in held
  {
  }

  /** Why a batch is refused: the first check that fails decides. */
  ghost predicate Refusal(c: Config, caps: Caps, d: Data, b: Batch, code: Error)
    requires c.Valid()
  {
    if b.network != c.network then code == WrongNetwork
    else if b.sender != c.peer || b.neighbor != c.node then code == UnknownNode
    else if !AllAdmitted(c, caps, d.catalogs, d.messages, b.messages) then
      exists n :: FirstRefused(c, caps, d.catalogs, d.messages, b.messages, n, code)
    else if !Acyclic(Merge(d.messages, b.messages)) then code == ConflictingMessage
    else code == Error.Custody
  }

  /** Import on normalised input: all or nothing. */
  method ImportBatch(c: Config, caps: Caps, d: Data, b: Batch) returns (r: Result<(Data, Ack)>)
    requires c.Valid() && WellKept(d.messages) && NormalBatch(b) == Ok(b)
    ensures r.Ok? <==> Import(c, caps, d, b).Some?
    ensures r.Ok? ==> r.value == Import(c, caps, d, b).value
    ensures r.Err? ==> Refusal(c, caps, d, b, r.code)
  {
    hide NormalBatch, AllAdmitted, WellKept, Tree, Acyclic, Fits, Merge, Keyed, IdsUnrepeated, Ids, FirstRefused;
    assert IdsUnrepeated(b.messages) by { NormalBatchIds(b); }
    if b.network != c.network { return Err(WrongNetwork); }
    if b.sender != c.peer || b.neighbor != c.node { return Err(UnknownNode); }
    var artifact := Sha256(b);
    if artifact in d.batches {
      return Ok((d, Ack(d.batches[artifact], 0, |b.messages|)));
    }
    var copy, added, duplicates := Gather(c, caps, d.catalogs, d.messages, b.messages);
    if copy.Err? { return Err(copy.code); }
    MergeWellKept(d.messages, b.messages);
    var linked := CheckReplies(copy.value);
    if !linked { return Err(ConflictingMessage); }
    var next := d.(messages := copy.value, batches := d.batches[artifact := ReceiptOf(b)]);
    if !Fits(next) { return Err(Error.Custody); }
    return Ok((next, Ack(ReceiptOf(b), added, duplicates)));
  }

  lemma NormalBatchIds(b: Batch)
    requires NormalBatch(b) == Ok(b)
    ensures IdsUnrepeated(b.messages) && 1 <= |b.messages| <= 32
  {
    hide Token, NormalMessages;
  }

  lemma {:induction false} MergeWellKept(held: Messages, ms: seq<Message>)
    requires WellKept(held)
    ensures WellKept(Merge(held, ms)) && Keyed(Merge(held, ms))
    decreases |ms|
  {
    if ms == [] {
    } else {
      MergeWellKept(held, ms[..|ms| - 1]);
    }
  }

  // ---------------------------------------------------------------------------
  // What every import keeps

  /** Stored paths are the routes to the peer, so a path adds nothing to a fingerprint. */
  ghost predicate Routed(c: Config, m: Message)
    requires c.Valid()
  {
    m.origin in c.nodes && m.path == Route(c.nodes, m.origin, c.peer)
  }

  ghost predicate Holds(held: Messages, m: Message) {
    m.id in held && held[m.id] == Stored(Fingerprint(m), m)
  }

  /** An artifact that was accepted has the receipt of its batch and all its messages stored. */
  ghost predicate Backed(d: Data, artifact: Digest<Batch>)
    requires artifact in d.batches
  {
    && artifact.Sha256?
    && d.batches[artifact] == ReceiptOf(artifact.preimage)
    && forall i :: 0 <= i < |artifact.preimage.messages| ==> Holds(d.messages, artifact.preimage.messages[i])
  }

  /** What holds of every reachable store. */
  ghost predicate Safe(c: Config, d: Data)
    requires c.Valid()
  {
    && WellKept(d.messages)
    && (forall k {:trigger k in d.messages} :: k in d.messages ==> Routed(c, d.messages[k].message))
    && (forall a {:trigger Backed(d, a)} :: a in d.batches ==> Backed(d, a))
    && Acyclic(d.messages)
  }

  ghost predicate Grown(before: Messages, after: Messages) {
    forall k :: k in before ==> k in after && after[k] == before[k]
  }

  lemma EmptyIsSafe(c: Config)
    requires c.Valid()
    ensures Safe(c, EMPTY)
  {
    forall ring: seq<string>
      ensures !Cycle(EMPTY.messages, ring)
    {
      if |ring| > 0 { assert !Linked(EMPTY.messages, ring, 0); }
    }
  }

  /** What reconfiguration between runs may not touch. */
  predicate SameBinding(c: Config, d: Config) {
    c.network == d.network && c.node == d.node && c.peer == d.peer && c.nodes == d.nodes && c.pin == d.pin
  }

  lemma SafeDependsOnBinding(c: Config, c': Config, d: Data, d': Data)
    requires c.Valid() && c'.Valid() && SameBinding(c, c') && Safe(c, d)
    requires d.messages == d'.messages && d.batches == d'.batches
    ensures Safe(c', d')
  {
    forall a | a in d'.batches
      ensures Backed(d', a)
    {
      assert Backed(d, a);
    }
  }

  /** Two messages the same peer may send here are equal once their fingerprints are. */
  lemma FingerprintDecides(c: Config, m: Message, n: Message)
    requires c.Valid() && Routed(c, m) && Routed(c, n) && Fingerprint(m) == Fingerprint(n)
    ensures m == n
  {
    hide Tree;
    assert m.(path := []) == n.(path := []);
    assert m == m.(path := []).(path := m.path);
    assert n == n.(path := []).(path := n.path);
  }

  lemma AdmittedIsRouted(c: Config, caps: Caps, catalogs: seq<Catalog.Signed>, held: Messages, m: Message)
    requires c.Valid() && Admit(c, caps, catalogs, held, m).Ok?
    ensures Routed(c, m)
  {
  }

  /** After the merge of admitted messages each of them is held as it came. */
  lemma MergeHoldsAll(c: Config, caps: Caps, catalogs: seq<Catalog.Signed>, held: Messages, ms: seq<Message>, i: nat)
    requires c.Valid() && IdsUnrepeated(ms) && AllAdmitted(c, caps, catalogs, held, ms) && i < |ms|
    requires WellKept(held) && forall k {:trigger k in held} :: k in held ==> Routed(c, held[k].message)
    ensures Holds(Merge(held, ms), ms[i]) && Routed(c, ms[i])
  {
    hide Tree, CapabilityAdmits, SubscriptionAdmits, CatalogAdmits, PathPolicy, Merge;
    assert Admit(c, caps, catalogs, held, ms[i]).Ok?;
    AdmittedIsRouted(c, caps, catalogs, held, ms[i]);
    if ms[i].id in held {
      FingerprintDecides(c, held[ms[i].id].message, ms[i]);
    } else {
      MergeContents(held, ms);
      assert MergedAs(held, ms, ms[i]);
    }
  }

  lemma MergeRouted(c: Config, caps: Caps, catalogs: seq<Catalog.Signed>, held: Messages, ms: seq<Message>)
    requires c.Valid() && IdsUnrepeated(ms) && AllAdmitted(c, caps, catalogs, held, ms)
    requires WellKept(held) && forall k {:trigger k in held} :: k in held ==> Routed(c, held[k].message)
    ensures forall k {:trigger k in Merge(held, ms)} :: k in Merge(held, ms) ==> Routed(c, Merge(held, ms)[k].message)
  {
    hide Tree, Merge, AllAdmitted, Routed;
    forall k | k in Merge(held, ms)
      ensures Routed(c, Merge(held, ms)[k].message)
    {
      if k !in held {
        var i :| 0 <= i < |ms| && Ids(ms)[i] == k;
        MergeHoldsAll(c, caps, catalogs, held, ms, i);
      }
    }
  }

  /** An accepted batch leaves a safe store that holds every message of the batch as it
      came and everything it held before; the counts add up to the batch, the new ones are
      exactly the store's growth, and the sender finds the acknowledgement valid. */
  lemma ImportKeeps(c: Config, caps: Caps, d: Data, b: Batch)
    requires c.Valid() && Safe(c, d) && IdsUnrepeated(b.messages) && |b.messages| <= 32
    requires Import(c, caps, d, b).Some?
    ensures var (next, ack) := Import(c, caps, d, b).value;
            && Safe(c, next) && Grown(d.messages, next.messages)
            && Sha256(b) in next.batches
            && (forall i :: 0 <= i < |b.messages| ==> Holds(next.messages, b.messages[i]))
            && AckValid(ack, b)
            && ack.imported == |next.messages| - |d.messages|
  {
    hide Tree, Merge, AllAdmitted, Routed, Acyclic, Fits, IdsUnrepeated, Ids, WellKept;
    if Replayed(c, d, b) {
      assert Backed(d, Sha256(b));
    } else {
      var next := Imported(c, d, b);
      MergeWellKept(d.messages, b.messages);
      MergeRouted(c, caps, d.catalogs, d.messages, b.messages);
      forall i | 0 <= i < |b.messages|
        ensures Holds(next.messages, b.messages[i])
      {
        MergeHoldsAll(c, caps, d.catalogs, d.messages, b.messages, i);
      }
      forall a | a in next.batches
        ensures Backed(next, a)
      {
        if a != Sha256(b) { assert Backed(d, a); }
      }
    }
  }

  /** A batch that was accepted before is answered as all duplicates, validly, and changes nothing. */
  lemma ReplayIsAnswered(c: Config, caps: Caps, d: Data, b: Batch)
    requires c.Valid() && Safe(c, d) && Sha256(b) in d.batches && |b.messages| <= 32
    requires b.network == c.network && b.sender == c.peer && b.neighbor == c.node
    ensures Import(c, caps, d, b) == Some((d, Ack(ReceiptOf(b), 0, |b.messages|)))
    ensures AckValid(Ack(ReceiptOf(b), 0, |b.messages|), b)
  {
    hide Acceptable, Tree, WellKept, Acyclic, Routed;
    assert Backed(d, Sha256(b));
  }

  /** Exactly when a batch is taken, and the whole store and answer it leaves. */
  lemma ImportMeaning(c: Config, caps: Caps, d: Data, b: Batch)
    requires c.Valid() && IdsUnrepeated(b.messages)
    ensures Import(c, caps, d, b).Some? <==>
              && b.network == c.network && b.sender == c.peer && b.neighbor == c.node
              && (Sha256(b) in d.batches ||
                  (&& (forall i :: 0 <= i < |b.messages| ==> Admit(c, caps, d.catalogs, d.messages, b.messages[i]).Ok?)
                   && Acyclic(Merge(d.messages, b.messages))
                   && |Merge(d.messages, b.messages)| + |d.batches| + 1 + |d.controls| + |d.files| + |d.sent| <= 10000))
    ensures Import(c, caps, d, b).Some? && Sha256(b) in d.batches ==>
              Import(c, caps, d, b).value == (d, Ack(d.batches[Sha256(b)], 0, |b.messages|))
    ensures Import(c, caps, d, b).Some? && Sha256(b) !in d.batches ==>
              var (next, ack) := Import(c, caps, d, b).value;
              var receipt := Receipt(b.network, b.neighbor, b.sender, Sha256(b), Ids(b.messages));
              && next == d.(messages := next.messages, batches := d.batches[Sha256(b) := receipt])
              && (forall k :: k in next.messages <==> k in d.messages || k in Ids(b.messages))
              && (forall k :: k in d.messages ==> next.messages[k] == d.messages[k])
              && (forall i :: 0 <= i < |b.messages| && b.messages[i].id !in d.messages ==>
                    b.messages[i].id in next.messages
                    && next.messages[b.messages[i].id] == Stored(Sha256(b.messages[i].(path := [])), b.messages[i]))
              && ack == Ack(receipt, |next.messages| - |d.messages|, |b.messages| - (|next.messages| - |d.messages|))
  {
    hide Admit, Merge, Acyclic, Config.Valid;
    MergeContents(d.messages, b.messages);
    forall i | 0 <= i < |b.messages| && b.messages[i].id !in d.messages
      ensures MergedAs(d.messages, b.messages, b.messages[i])
    {
    }
  }

  // ---------------------------------------------------------------------------
  // Accepted batches commute

  /** A message the later batch brings is admitted without the earlier one, too. */
  lemma AdmittedWithout(c: Config, caps: Caps, catalogs: seq<Catalog.Signed>, held: Messages, first: seq<Message>, m: Message)
    requires c.Valid() && IdsUnrepeated(first) && AllAdmitted(c, caps, catalogs, held, first)
    requires Admit(c, caps, catalogs, Merge(held, first), m).Ok?
    ensures Admit(c, caps, catalogs, held, m).Ok?
    ensures m.id !in held ==> forall i :: 0 <= i < |first| && first[i].id == m.id ==> first[i] == m
  {
    hide Tree, CapabilityAdmits, SubscriptionAdmits, CatalogAdmits, PathPolicy, Merge, IdsUnrepeated;
    if m.id !in held && m.id in Merge(held, first) {
      forall i | 0 <= i < |first| && first[i].id == m.id
        ensures first[i] == m
      {
        MergeContents(held, first);
        assert MergedAs(held, first, first[i]);
        AdmittedIsRouted(c, caps, catalogs, held, first[i]);
        AdmittedIsRouted(c, caps, catalogs, Merge(held, first), m);
        FingerprintDecides(c, first[i], m);
      }
      var i :| 0 <= i < |first| && Ids(first)[i] == m.id;
      assert first[i] == m;
    }
    if m.id !in held && m.id !in Merge(held, first) {
      assert forall i :: 0 <= i < |first| ==> Ids(first)[i] == first[i].id && Ids(first)[i] != m.id;
    }
  }

  /** And the earlier batch's message is admitted after the later batch. */
  lemma AdmittedAfter(c: Config, caps: Caps, catalogs: seq<Catalog.Signed>, held: Messages, second: seq<Message>, m: Message)
    requires c.Valid() && IdsUnrepeated(second) && Admit(c, caps, catalogs, held, m).Ok?
    requires m.id !in held ==> forall i :: 0 <= i < |second| && second[i].id == m.id ==> second[i] == m
    ensures Admit(c, caps, catalogs, Merge(held, second), m).Ok?
  {
    hide Tree, CapabilityAdmits, SubscriptionAdmits, CatalogAdmits, PathPolicy, Merge, IdsUnrepeated;
    if m.id !in held && m.id in Merge(held, second) {
      var i :| 0 <= i < |second| && Ids(second)[i] == m.id;
      MergeContents(held, second);
      assert MergedAs(held, second, second[i]);
    }
  }

  /** The merged store does not depend on the order when shared new messages are equal. */
  lemma MergeCommutes(held: Messages, x: seq<Message>, y: seq<Message>)
    requires IdsUnrepeated(x) && IdsUnrepeated(y)
    requires forall i, j :: 0 <= i < |x| && 0 <= j < |y| && x[i].id == y[j].id && x[i].id !in held ==> x[i] == y[j]
    ensures Merge(Merge(held, x), y) == Merge(Merge(held, y), x)
    ensures Grown(Merge(held, y), Merge(Merge(held, x), y))
  {
    hide Merge, IdsUnrepeated, Ids;
    var xy, yx := Merge(Merge(held, x), y), Merge(Merge(held, y), x);
    forall k | k in xy && k !in held
      ensures k in yx && xy[k] == yx[k] && (k in Merge(held, y) ==> Merge(held, y)[k] == xy[k])
    {
      SameEitherWay(held, x, y, k);
    }
    assert xy.Keys == yx.Keys;
  }

  lemma SameEitherWay(held: Messages, x: seq<Message>, y: seq<Message>, k: string)
    requires IdsUnrepeated(x) && IdsUnrepeated(y)
    requires forall i, j :: 0 <= i < |x| && 0 <= j < |y| && x[i].id == y[j].id && x[i].id !in held ==> x[i] == y[j]
    requires k in Merge(Merge(held, x), y) && k !in held
    ensures var xy, yx := Merge(Merge(held, x), y), Merge(Merge(held, y), x);
            k in yx && xy[k] == yx[k] && (k in Merge(held, y) ==> Merge(held, y)[k] == xy[k])
  {
    hide Merge, IdsUnrepeated;
    MergeContents(held, x);
    MergeContents(held, y);
    if k in Ids(x) {
      var i :| 0 <= i < |x| && Ids(x)[i] == k;
      assert MergedAs(held, x, x[i]);
      if k in Ids(y) {
        var j :| 0 <= j < |y| && Ids(y)[j] == k;
        assert x[i] == y[j] && MergedAs(held, y, y[j]);
      } else {
        MergeContents(Merge(held, y), x);
        assert MergedAs(Merge(held, y), x, x[i]);
      }
    } else {
      var j :| 0 <= j < |y| && Ids(y)[j] == k;
      MergeContents(Merge(held, x), y);
      assert MergedAs(held, y, y[j]) && MergedAs(Merge(held, x), y, y[j]);
    }
  }

  lemma SharedAreEqual(c: Config, caps: Caps, catalogs: seq<Catalog.Signed>, held: Messages, x: seq<Message>, y: seq<Message>)
    requires c.Valid() && IdsUnrepeated(x) && IdsUnrepeated(y)
    requires AllAdmitted(c, caps, catalogs, held, x) && AllAdmitted(c, caps, catalogs, Merge(held, x), y)
    ensures AllAdmitted(c, caps, catalogs, held, y) && AllAdmitted(c, caps, catalogs, Merge(held, y), x)
    ensures forall i, j :: 0 <= i < |x| && 0 <= j < |y| && x[i].id == y[j].id && x[i].id !in held ==> x[i] == y[j]
  {
    hide Tree, Merge, IdsUnrepeated, Admit;
    forall j | 0 <= j < |y|
      ensures Admit(c, caps, catalogs, held, y[j]).Ok?
      ensures y[j].id !in held ==> forall i :: 0 <= i < |x| && x[i].id == y[j].id ==> x[i] == y[j]
    {
      AdmittedWithout(c, caps, catalogs, held, x, y[j]);
    }
    forall i | 0 <= i < |x|
      ensures Admit(c, caps, catalogs, Merge(held, y), x[i]).Ok?
    {
      AdmittedAfter(c, caps, catalogs, held, y, x[i]);
    }
  }

  lemma SubsetIsNoLarger(small: Messages, large: Messages)
    requires Grown(small, large)
    ensures |small| <= |large|
  {
    assert small.Keys <= large.Keys;
    SubsetSize(small.Keys, large.Keys);
  }

  /** The reversed order, for two batches the store knows neither of. */
  lemma NewBatchesCommute(c: Config, caps: Caps, d: Data, x: Batch, y: Batch)
    requires c.Valid() && IdsUnrepeated(x.messages) && IdsUnrepeated(y.messages)
    requires Acceptable(c, caps, d, x) && Acceptable(c, caps, Imported(c, d, x), y)
    ensures Acceptable(c, caps, d, y) && Acceptable(c, caps, Imported(c, d, y), x)
    ensures Imported(c, Imported(c, d, y), x) == Imported(c, Imported(c, d, x), y)
  {
    hide Tree, Merge, IdsUnrepeated, AllAdmitted, Acyclic;
    var dxy := Imported(c, Imported(c, d, x), y);
    SharedAreEqual(c, caps, d.catalogs, d.messages, x.messages, y.messages);
    MergeCommutes(d.messages, x.messages, y.messages);
    var dy := Imported(c, d, y);
    AcyclicSubset(dy.messages, dxy.messages);
    SubsetIsNoLarger(dy.messages, dxy.messages);
    ReceiptsCommute(d.batches, x, y);
  }

  lemma ReceiptsCommute(batches: map<Digest<Batch>, Receipt>, x: Batch, y: Batch)
    ensures batches[Sha256(x) := ReceiptOf(x)][Sha256(y) := ReceiptOf(y)]
         == batches[Sha256(y) := ReceiptOf(y)][Sha256(x) := ReceiptOf(x)]
    ensures |batches[Sha256(y) := ReceiptOf(y)]| <= |batches[Sha256(x) := ReceiptOf(x)][Sha256(y) := ReceiptOf(y)]|
  {
    var xy := batches[Sha256(x) := ReceiptOf(x)][Sha256(y) := ReceiptOf(y)];
    assert xy == batches[Sha256(y) := ReceiptOf(y)][Sha256(x) := ReceiptOf(x)];
  }

  /** With configuration, capabilities and catalog fixed, two batches accepted one after the
      other are accepted in the other order and leave the same store. */
  lemma ImportsCommute(c: Config, caps: Caps, d: Data, x: Batch, y: Batch)
    requires c.Valid() && IdsUnrepeated(x.messages) && IdsUnrepeated(y.messages)
    requires Import(c, caps, d, x).Some? && Import(c, caps, Import(c, caps, d, x).value.0, y).Some?
    ensures Import(c, caps, d, y).Some? && Import(c, caps, Import(c, caps, d, y).value.0, x).Some?
    ensures Import(c, caps, Import(c, caps, d, y).value.0, x).value.0 == Import(c, caps, Import(c, caps, d, x).value.0, y).value.0
  {
    if !Replayed(c, d, x) && !Replayed(c, d, y) && x != y {
      assert !Replayed(c, Imported(c, d, x), y);
      NewBatchesCommute(c, caps, d, x, y);
      hide Acceptable;
      assert !Replayed(c, Imported(c, d, y), x);
    } else {
      hide Acceptable;
    }
  }
}
