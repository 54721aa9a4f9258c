/** A peer's configuration and the state it keeps. */
module Custody {
  import opened Basics
  import opened Tokens
  import opened Records
  import opened Topology
  import opened Routing
  import opened Replies
  import opened Negotiation
  import Catalog

  datatype Config = Config(
    network: string, node: string, peer: string, nodes: Nodes, pin: Option<Catalog.Pin>,
    receive: set<string>, inbound: set<string>, fileSubscriptions: set<string>,
    autoApprove: bool, filePolicy: FileOutcome)
  {
    /** What the constructor has checked: an accepted tree in which node and peer are neighbours. */
    ghost predicate Valid() {
      Tree(nodes) && node in nodes && peer in nodes && node != peer && Adjacent(nodes, node, peer)
    }

    /** The peer is this node's child. */
    predicate IsChild() {
      peer in nodes && nodes[peer].parent == Some(node)
    }
  }

  datatype Outcome =
    | Applied | AlreadySubscribed | AlreadyUnsubscribed | Denied | UnknownCodename
    | Unauthorized | ReplayConflict | AcceptedForReview | PendingApproval | Malformed

  datatype ControlResult = ControlResult(
    network: string, id: string, fingerprint: Digest<Control>, requester: string, target: string,
    outcome: Outcome, subscriptions: set<string>)

  datatype FileOutcome = Published | AwaitingApproval | Quarantined | Rejected
  datatype FileReason = LocalPolicy | NativeAdmissionRejected | HashMismatch
  datatype FileReceipt = FileReceipt(publication: string, sha256: Digest<Content>, outcome: FileOutcome, reason: FileReason)
  datatype FileRecord = FileRecord(fingerprint: Digest<Publication>, publication: Publication, receipt: FileReceipt)

  datatype SentKey = SentBatch(artifact: Digest<Batch>) | SentControl(id: string) | SentFile(id: string)
  datatype SentValue = AckSeen(ack: Ack) | ResultSeen(result: ControlResult) | ReceiptSeen(receipt: FileReceipt)

  datatype Data = Data(
    messages: Messages, batches: map<Digest<Batch>, Receipt>, controls: map<string, ControlResult>,
    subscriptions: set<string>, files: map<string, FileRecord>, catalogs: seq<Catalog.Signed>,
    sent: map<SentKey, SentValue>, droppedAck: bool)

  const EMPTY: Data := Data(map[], map[], map[], {}, map[], [], map[], false)
  const MOST_RECORDS := 10000

  /** The records a save counts. */
  function RecordCount(d: Data): nat {
    |d.messages| + |d.batches| + |d.controls| + |d.files| + |d.sent|
  }

  predicate Fits(d: Data) {
    RecordCount(d) <= MOST_RECORDS
  }

  // ---------------------------------------------------------------------------
  // The current catalog

  predicate Offered(e: Catalog.Entry, code: string, generation: Option<string>, active: bool) {
    && e.codename == code
    && (e.status.Active? || (e.status.Deprecated? && !active))
    && (generation.None? || generation.value == e.id)
  }

  function Found(entries: seq<Catalog.Entry>, code: string, generation: Option<string>, active: bool): (r: seq<Catalog.Entry>)
    ensures forall e :: e in r <==> e in entries && Offered(e, code, generation, active)
  {
    if entries == [] then []
    else (if Offered(entries[0], code, generation, active) then [entries[0]] else [])
         + Found(entries[1..], code, generation, active)
  }

  /** The live entry for a codename in the latest revision; none is needed without an authority. */
  function EntryFor(pin: Option<Catalog.Pin>, catalogs: seq<Catalog.Signed>,
                    code: string, generation: Option<string>, active: bool): Result<Option<Catalog.Entry>>
  {
    if pin.None? then Ok(None)
    else if catalogs == [] then Err(UnauthorizedCodename)
    else
      var found := Found(catalogs[|catalogs| - 1].body.entries, code, generation, active);
      if |found| == 1 then Ok(Some(found[0])) else Err(UnauthorizedCodename)
  }

  lemma {:induction false} FoundOnce(entries: seq<Catalog.Entry>, code: string, generation: Option<string>, active: bool)
    requires forall i, j :: 0 <= i < j < |entries| ==>
               !(Offered(entries[i], code, generation, active) && Offered(entries[j], code, generation, active))
    ensures |Found(entries, code, generation, active)| <= 1
    decreases |entries|
  {
    if entries == [] {
    } else {
      FoundOnce(entries[1..], code, generation, active);
      if Offered(entries[0], code, generation, active) {
        NothingFound(entries[1..], code, generation, active);
      }
    }
  }

  lemma {:induction false} NothingFound(entries: seq<Catalog.Entry>, code: string, generation: Option<string>, active: bool)
    requires forall j :: 0 <= j < |entries| ==> !Offered(entries[j], code, generation, active)
    ensures Found(entries, code, generation, active) == []
    decreases |entries|
  {
    if entries == [] {
    } else {
      NothingFound(entries[1..], code, generation, active);
    }
  }

  lemma {:induction false} FoundAt(entries: seq<Catalog.Entry>, code: string, generation: Option<string>, active: bool, i: nat)
    requires i < |entries| && Offered(entries[i], code, generation, active)
    requires forall k, j :: 0 <= k < j < |entries| ==>
               !(Offered(entries[k], code, generation, active) && Offered(entries[j], code, generation, active))
    ensures Found(entries, code, generation, active) == [entries[i]]
    decreases |entries|
  {
    hide Offered;
    if i == 0 {
      NothingFound(entries[1..], code, generation, active);
    } else {
      FoundAt(entries[1..], code, generation, active, i - 1);
    }
  }

  /** With a catalog grown from an empty store, a codename resolves exactly to the one live
      entry that holds it in the latest revision. */
  lemma EntryIsTheLiveHolder(pin: Catalog.Pin, catalogs: seq<Catalog.Signed>, code: string, generation: Option<string>,
                             active: bool, e: Catalog.Entry)
    requires Catalog.History(pin, catalogs) && catalogs != []
    ensures EntryFor(Some(pin), catalogs, code, generation, active) == Ok(Some(e)) <==>
              && e in catalogs[|catalogs| - 1].body.entries && e.codename == code
              && (e.status == Catalog.Active || (e.status == Catalog.Deprecated && !active))
              && (generation == None || generation == Some(e.id))
  {
    var entries := catalogs[|catalogs| - 1].body.entries;
    Catalog.BodyFacts(pin, catalogs, |catalogs| - 1);
    OfferedOnce(entries, catalogs[|catalogs| - 1].body.schema, catalogs[|catalogs| - 1].body.revision, code, generation, active);
    OfferedMeaning(e, code, generation, active);
    hide Offered, Catalog.History, Catalog.EntriesAllowed;
    FoundOnce(entries, code, generation, active);
    var found := Found(entries, code, generation, active);
    hide Found;
    if e in found {
      assert found == [e];
    }
  }

  lemma OfferedOnce(entries: seq<Catalog.Entry>, schema: int, revision: int, code: string, generation: Option<string>, active: bool)
    requires Catalog.EntriesAllowed(entries, schema, revision)
    ensures forall i, j :: 0 <= i < j < |entries| ==>
              !(Offered(entries[i], code, generation, active) && Offered(entries[j], code, generation, active))
  {
    hide Catalog.EntryAllowed, Catalog.Before;
  }

  lemma OfferedMeaning(e: Catalog.Entry, code: string, generation: Option<string>, active: bool)
    ensures Offered(e, code, generation, active) <==>
              && e.codename == code
              && (e.status == Catalog.Active || (e.status == Catalog.Deprecated && !active))
              && (generation == None || generation == Some(e.id))
  {
  }

  /** Without an authority no entry is needed; with one and an empty catalog none is found. */
  lemma NoEntryNeeded(pin: Option<Catalog.Pin>, code: string, generation: Option<string>, active: bool)
    ensures EntryFor(None, [], code, generation, active) == Ok(None)
    ensures pin != None ==> EntryFor(pin, [], code, generation, active) == Err(UnauthorizedCodename)
  {
  }

  /** What a save has room for. */
  lemma FitsMeaning(d: Data)
    ensures Fits(d) <==> |d.messages| + |d.batches| + |d.controls| + |d.files| + |d.sent| <= 10000
  {
  }

  ghost predicate LiveDiffer(entries: seq<Catalog.Entry>) {
    forall i, j :: 0 <= i < j < |entries| && entries[i].codename == entries[j].codename ==>
      entries[i].status == Catalog.Retired || entries[j].status == Catalog.Retired
  }

  function Latest(catalogs: seq<Catalog.Signed>): seq<Catalog.Entry> {
    if catalogs == [] then [] else catalogs[|catalogs| - 1].body.entries
  }

  /** Any catalog the start check passes has no codename live twice in a revision. */
  lemma CheckedLiveDiffer(pin: Catalog.Pin, catalogs: seq<Catalog.Signed>)
    requires Catalog.Recheck(pin, catalogs)
    ensures LiveDiffer(Latest(catalogs))
  {
    if catalogs != [] {
      var last := catalogs[|catalogs| - 1];
      assert Catalog.Rechecked(pin, catalogs, |catalogs| - 1);
      Catalog.FormLiveCodes(last, pin);
    }
  }

  /** With an authority a codename is subscribable exactly when the latest revision has an Active
      entry under it. */
  lemma ActiveMeaning(pin: Catalog.Pin, catalogs: seq<Catalog.Signed>, code: string)
    requires LiveDiffer(Latest(catalogs))
    ensures EntryFor(Some(pin), catalogs, code, None, true).Ok? <==>
              exists i :: 0 <= i < |Latest(catalogs)| && Latest(catalogs)[i].codename == code && Latest(catalogs)[i].status == Catalog.Active
  {
    var entries := Latest(catalogs);
    var found := Found(entries, code, None, true);
    FoundOnce(entries, code, None, true);
    if i :| 0 <= i < |entries| && entries[i].codename == code && entries[i].status == Catalog.Active {
      assert Offered(entries[i], code, None, true) && entries[i] in found;
      hide Found, Offered;
    } else {
      NothingFound(entries, code, None, true);
    }
  }
}
