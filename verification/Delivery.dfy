/** Two peers exchanging batches over a link that loses what it likes: every run of
    offers, imports, acknowledgements, interruptions, restarts and retries. */
module Delivery {
  import opened Basics
  import opened Records
  import opened Replies
  import opened Custody
  import opened Imports

  datatype Frame = Offer(batch: Batch) | AckFrame(ack: Ack)

  /** Memory and disk of one peer, its configuration, the negotiated capabilities, the offer it
      waits on, and how many messages it has ever counted as imported. */
  datatype PeerState = PeerState(config: Config, caps: Caps, data: Data, disk: Data, offered: Option<Batch>,
                       dropAckOnce: bool, imported: nat)

  /** Both peers and, per side, the frames on their way to it. */
  datatype System = System(left: PeerState, right: PeerState, toLeft: seq<Frame>, toRight: seq<Frame>) {
    function At(side: Side): PeerState { if side.Left? then left else right }
    function To(side: Side): seq<Frame> { if side.Left? then toLeft else toRight }
    function With(side: Side, p: PeerState): System { if side.Left? then this.(left := p) else this.(right := p) }
    function Queue(side: Side, q: seq<Frame>): System { if side.Left? then this.(toLeft := q) else this.(toRight := q) }
  }

  /** The ends of one link. */
  predicate Facing(c: Config, d: Config) {
    c.network == d.network && c.node == d.peer && c.peer == d.node && c.nodes == d.nodes
  }

  ghost predicate Initial(s: System) {
    && Facing(s.left.config, s.right.config)
    && s.toLeft == [] && s.toRight == []
    && forall side: Side ::
         var p := s.At(side);
         p.config.Valid() && p.data == EMPTY && p.disk == EMPTY && p.offered == None && p.imported == 0
  }

  // ---------------------------------------------------------------------------
  // Steps

  /** The batch is written to the link; it may have been offered before. */
  ghost predicate OfferStep(s: System, t: System, side: Side, b: Batch) {
    var p := s.At(side);
    && NormalBatch(b) == Ok(b)
    && b.network == p.config.network && b.sender == p.config.node && b.neighbor == p.config.peer
    && t == s.With(side, p.(offered := Some(b))).Queue(side.Other(), s.To(side.Other()) + [Offer(b)])
  }

  /** The peer after an import: memory and disk move together, and only when the store changed. */
  ghost function Received(p: PeerState, next: Data, ack: Ack): PeerState
    requires ack.imported >= 0
  {
    p.(data := next, disk := if next == p.data then p.disk else next, imported := p.imported + ack.imported)
  }

  /** The peer after the configured fault: that an acknowledgement was dropped is itself saved,
      if there is room. */
  function Dropping(p: PeerState): PeerState {
    var data := p.data.(droppedAck := true);
    p.(data := data, disk := if Fits(data) then data else p.disk)
  }

  ghost predicate ImportStep(s: System, t: System, side: Side) {
    var p := s.At(side);
    && s.To(side) != [] && s.To(side)[0].Offer? && p.config.Valid()
    && var b := s.To(side)[0].batch;
       var rest := s.Queue(side, s.To(side)[1..]);
       match Import(p.config, p.caps, p.data, b)
       case None => t == rest.Queue(side, [])
       case Some((next, ack)) =>
         && ack.imported >= 0
         && var q := Received(p, next, ack);
            if p.dropAckOnce && !next.droppedAck
            then t == rest.With(side, Dropping(q)).Queue(side, [])
            else t == rest.With(side, q).Queue(side.Other(), s.To(side.Other()) + [AckFrame(ack)])
  }

  /** A valid acknowledgement is remembered, in memory first; saving may find no room. */
  ghost predicate AckStep(s: System, t: System, side: Side) {
    var p := s.At(side);
    && s.To(side) != [] && s.To(side)[0].AckFrame? && p.offered.Some?
    && var ack := s.To(side)[0].ack;
       var rest := s.Queue(side, s.To(side)[1..]);
       if AckValid(ack, p.offered.value) then
         var data := p.data.(sent := p.data.sent[SentBatch(ack.receipt.artifact) := AckSeen(ack)]);
         t == rest.With(side, p.(data := data, disk := if Fits(data) then data else p.disk, offered := None))
       else t == rest.Queue(side, [])
  }

  /** Frames on their way to one side are lost. */
  ghost predicate LossStep(s: System, t: System, side: Side) {
    t == s.Queue(side, [])
  }

  /** The process starts again from what it saved, perhaps reconfigured. */
  ghost predicate RestartStep(s: System, t: System, side: Side) {
    var p, q := s.At(side), t.At(side);
    && SameBinding(p.config, q.config) && q.config.Valid()
    && q.data == p.disk && q.disk == p.disk && q.offered == None && q.imported == p.imported
    && t == s.With(side, q).Queue(side, [])
  }

  /** Negotiation, catalogs, controls and files: anything that leaves messages, batch receipts
      and batch acknowledgements alone, saved or not. */
  ghost predicate OtherStep(s: System, t: System, side: Side) {
    var p, q := s.At(side), t.At(side);
    && q.config == p.config && q.offered == p.offered && q.dropAckOnce == p.dropAckOnce && q.imported == p.imported
    && q.data.messages == p.data.messages && q.data.batches == p.data.batches
    && (forall a :: SentBatch(a) in q.data.sent ==> SentBatch(a) in p.data.sent)
    && (q.disk == p.disk || q.disk == q.data)
    && t == s.With(side, q)
  }

  datatype Action = Offering(b: Batch) | Importing | Acknowledged | Losing | Restarting | Others

  ghost predicate Step(s: System, t: System, side: Side, action: Action) {
    match action
    case Offering(b) => OfferStep(s, t, side, b)
    case Importing => ImportStep(s, t, side)
    case Acknowledged => AckStep(s, t, side)
    case Losing => LossStep(s, t, side)
    case Restarting => RestartStep(s, t, side)
    case Others => OtherStep(s, t, side)
  }

  ghost predicate Moves(s: System, t: System) {
    exists side, action :: Step(s, t, side, action)
  }

  ghost predicate MovesAt(run: seq<System>, i: nat)
    requires i + 1 < |run|
  {
    Moves(run[i], run[i + 1])
  }

  ghost predicate Run(run: seq<System>) {
    && run != [] && Initial(run[0])
    && forall i {:trigger MovesAt(run, i)} :: 0 <= i < |run| - 1 ==> MovesAt(run, i)
  }

  // ---------------------------------------------------------------------------
  // What every step keeps

  ghost predicate PeerKept(p: PeerState) {
    && p.config.Valid() && Safe(p.config, p.data)
    && p.disk.messages == p.data.messages && p.disk.batches == p.data.batches
    && |p.data.messages| == p.imported
    && (p.offered.Some? ==> NormalBatch(p.offered.value) == Ok(p.offered.value))
  }

  ghost predicate OffersNormal(q: seq<Frame>) {
    forall i :: 0 <= i < |q| && q[i].Offer? ==> NormalBatch(q[i].batch) == Ok(q[i].batch)
  }

  /** Acknowledgements under way, in memory and on disk all name batches the other side has. */
  ghost predicate Vouched(p: PeerState, q: seq<Frame>, far: PeerState) {
    && (forall i :: 0 <= i < |q| && q[i].AckFrame? ==> q[i].ack.receipt.artifact in far.data.batches)
    && (forall a {:trigger a in far.data.batches} :: SentBatch(a) in p.data.sent ==> a in far.data.batches)
    && (forall a {:trigger a in far.data.batches} :: SentBatch(a) in p.disk.sent ==> a in far.data.batches)
  }

  ghost predicate SideKept(s: System, side: Side) {
    && PeerKept(s.At(side))
    && OffersNormal(s.To(side))
    && Vouched(s.At(side), s.To(side), s.At(side.Other()))
  }

  ghost predicate Kept(s: System) {
    && Facing(s.left.config, s.right.config) && SideKept(s, Left) && SideKept(s, Right)
  }

  /** Receipts stay and messages neither vanish nor change. */
  ghost predicate Extends(before: Data, after: Data) {
    Grown(before.messages, after.messages) && forall a :: a in before.batches ==> a in after.batches
  }

  lemma InitiallyKept(s: System)
    requires Initial(s)
    ensures Kept(s)
  {
    assert s.At(Left) == s.left && s.At(Right) == s.right;
    EmptyIsSafe(s.left.config);
    EmptyIsSafe(s.right.config);
  }

  lemma ImportedPeerKept(p: PeerState, b: Batch)
    requires PeerKept(p) && NormalBatch(b) == Ok(b) && Import(p.config, p.caps, p.data, b).Some?
    ensures var (next, ack) := Import(p.config, p.caps, p.data, b).value;
            && ack.imported >= 0
            && PeerKept(Received(p, next, ack)) && PeerKept(Dropping(Received(p, next, ack)))
            && Extends(p.data, next) && ack.receipt.artifact in next.batches
            && next.sent == p.data.sent
  {
    hide NormalBatch, Acceptable, Safe, Fits;
    var (next, ack) := Import(p.config, p.caps, p.data, b).value;
    NormalBatchIds(b);
    ImportKeeps(p.config, p.caps, p.data, b);
    ImportedIsMore(p.config, p.caps, p.data, b);
    hide Import, Dropping;
    DroppingKept(Received(p, next, ack));
  }

  lemma ImportedIsMore(c: Config, caps: Caps, d: Data, b: Batch)
    requires c.Valid() && Import(c, caps, d, b).Some?
    ensures var (next, ack) := Import(c, caps, d, b).value;
            next.sent == d.sent && forall a :: a in d.batches ==> a in next.batches
  {
    hide Acceptable;
  }

  /** The fault is remembered, on disk when 10000 records are not exceeded, and nothing else
      changes; a peer that remembers it answers every batch it takes. */
  lemma FaultHappensOnce(p: PeerState, s: System, t: System, side: Side)
    ensures var data := p.data.(droppedAck := true);
            var room := |data.messages| + |data.batches| + |data.controls| + |data.files| + |data.sent| <= 10000;
            Dropping(p) == if room then p.(data := data, disk := data) else p.(data := data)
    ensures ImportStep(s, t, side) && s.At(side).data.droppedAck && s.At(side).config.Valid()
              && Import(s.At(side).config, s.At(side).caps, s.At(side).data, s.To(side)[0].batch).Some? ==>
              t.To(side.Other()) == s.To(side.Other()) + [AckFrame(Import(s.At(side).config, s.At(side).caps, s.At(side).data, s.To(side)[0].batch).value.1)]
  {
    hide Acceptable, Config.Valid;
  }

  lemma DroppingKept(p: PeerState)
    requires PeerKept(p)
    ensures PeerKept(Dropping(p))
  {
    hide NormalBatch, Safe, Fits, Config.Valid;
    SafeDependsOnBinding(p.config, p.config, p.data, p.data.(droppedAck := true));
  }

  /** The importing side's own view: it has sent nothing new and its queue only got shorter. */
  lemma ImporterVouched(p: PeerState, q: PeerState, frames: seq<Frame>, rest: seq<Frame>, far: PeerState)
    requires Vouched(p, frames, far) && OffersNormal(frames)
    requires frames != [] && (rest == [] || rest == frames[1..])
    requires q.data.sent == p.data.sent && (q.disk.sent == p.disk.sent || q.disk.sent == p.data.sent)
    ensures Vouched(q, rest, far) && OffersNormal(rest)
  {
    hide NormalBatch;
  }

  /** The other side's view: it may now be told of a batch the importer has. */
  lemma OtherVouched(far: PeerState, frames: seq<Frame>, p: PeerState, q: PeerState, ack: Ack)
    requires Vouched(far, frames, p) && OffersNormal(frames)
    requires (forall a :: a in p.data.batches ==> a in q.data.batches) && ack.receipt.artifact in q.data.batches
    ensures Vouched(far, frames, q) && Vouched(far, frames + [AckFrame(ack)], q) && OffersNormal(frames + [AckFrame(ack)])
  {
    hide NormalBatch;
  }

  lemma ImportStepKept(s: System, t: System, side: Side)
    requires Kept(s) && ImportStep(s, t, side)
    ensures Kept(t) && Extends(s.At(side).data, t.At(side).data) && t.At(side.Other()) == s.At(side.Other())
  {
    hide NormalBatch, Import, Config.Valid, Vouched, Safe;
    var p := s.At(side);
    var b := s.To(side)[0].batch;
    assert SideKept(s, side) && SideKept(s, side.Other());
    if Import(p.config, p.caps, p.data, b).Some? {
      var (next, ack) := Import(p.config, p.caps, p.data, b).value;
      ImportedPeerKept(p, b);
      hide PeerKept, OffersNormal;
      OtherVouched(s.At(side.Other()), s.To(side.Other()), p, t.At(side), ack);
      ImporterVouched(p, t.At(side), s.To(side), t.To(side), s.At(side.Other()));
      assert SideKept(t, side) && SideKept(t, side.Other());
    } else {
      ImporterVouched(p, p, s.To(side), [], s.At(side.Other()));
      assert SideKept(t, side) && SideKept(t, side.Other());
    }
  }

  /** A peer whose messages and receipts stay is kept, whatever else it remembers. */
  lemma PeerKeptWithout(p: PeerState, q: PeerState)
    requires PeerKept(p) && SameBinding(p.config, q.config) && q.config.Valid() && q.imported == p.imported
    requires q.data.messages == p.data.messages && q.data.batches == p.data.batches
    requires q.disk.messages == p.data.messages && q.disk.batches == p.data.batches
    requires q.offered == None || q.offered == p.offered
    ensures PeerKept(q) && Extends(p.data, q.data)
  {
    hide NormalBatch, Safe, Config.Valid;
    SafeDependsOnBinding(p.config, q.config, p.data, q.data);
  }

  /** The far side still vouches when this side's receipts are the same. */
  lemma StillVouched(far: PeerState, frames: seq<Frame>, p: PeerState, q: PeerState)
    requires Vouched(far, frames, p) && q.data.batches == p.data.batches
    ensures Vouched(far, frames, q)
  {
  }

  lemma KeptFromSides(t: System, side: Side)
    requires Facing(t.left.config, t.right.config) && SideKept(t, side) && SideKept(t, side.Other())
    ensures Kept(t)
  {
    hide SideKept;
  }

  lemma AckStepKept(s: System, t: System, side: Side)
    requires Kept(s) && AckStep(s, t, side)
    ensures Kept(t) && Extends(s.At(side).data, t.At(side).data) && t.At(side.Other()) == s.At(side.Other())
  {
    hide NormalBatch, Safe, Config.Valid, AckValid, Fits;
    assert SideKept(s, side) && SideKept(s, side.Other());
    var p, q := s.At(side), t.At(side);
    AckVouched(s, t, side);
    hide AckStep;
    PeerKeptWithout(p, q);
    StillVouched(s.At(side.Other()), s.To(side.Other()), p, q);
    hide PeerKept, Vouched, OffersNormal;
    KeptFromSides(t, side);
  }

  lemma AckVouched(s: System, t: System, side: Side)
    requires SideKept(s, side) && Kept(s) && AckStep(s, t, side)
    ensures Vouched(t.At(side), t.To(side), s.At(side.Other())) && OffersNormal(t.To(side))
    ensures t.At(side.Other()) == s.At(side.Other()) && t.To(side.Other()) == s.To(side.Other())
    ensures var p, q := s.At(side), t.At(side);
            && q.config == p.config && q.imported == p.imported && (q.offered == None || q.offered == p.offered)
            && q.data.messages == p.data.messages && q.data.batches == p.data.batches
            && q.disk.messages == p.data.messages && q.disk.batches == p.data.batches
  {
    hide NormalBatch, Safe, Config.Valid, Fits, ReceiptOf;
  }

  lemma RestartStepKept(s: System, t: System, side: Side)
    requires Kept(s) && RestartStep(s, t, side)
    ensures Kept(t) && Extends(s.At(side).data, t.At(side).data) && t.At(side.Other()) == s.At(side.Other())
  {
    hide NormalBatch, Safe, Config.Valid;
    assert SideKept(s, side) && SideKept(s, side.Other());
    PeerKeptWithout(s.At(side), t.At(side));
    StillVouched(s.At(side.Other()), s.To(side.Other()), s.At(side), t.At(side));
    hide PeerKept;
    KeptFromSides(t, side);
  }

  lemma OtherStepKept(s: System, t: System, side: Side)
    requires Kept(s) && OtherStep(s, t, side)
    ensures Kept(t) && Extends(s.At(side).data, t.At(side).data) && t.At(side.Other()) == s.At(side.Other())
  {
    hide NormalBatch, Safe, Config.Valid;
    assert SideKept(s, side) && SideKept(s, side.Other());
    PeerKeptWithout(s.At(side), t.At(side));
    StillVouched(s.At(side.Other()), s.To(side.Other()), s.At(side), t.At(side));
    hide PeerKept;
    KeptFromSides(t, side);
  }

  lemma QueueStepKept(s: System, t: System, side: Side, action: Action)
    requires Kept(s) && (action.Offering? || action.Losing?) && Step(s, t, side, action)
    ensures Kept(t) && t.At(Left).data == s.At(Left).data && t.At(Right).data == s.At(Right).data
  {
    hide NormalBatch, Safe, Config.Valid;
    assert SideKept(s, side) && SideKept(s, side.Other());
    if action.Offering? {
      MoreOffers(s.At(side.Other()), s.To(side.Other()), s.At(side), action.b);
    }
    KeptFromSides(t, side);
  }

  lemma MoreOffers(far: PeerState, frames: seq<Frame>, p: PeerState, b: Batch)
    requires Vouched(far, frames, p) && OffersNormal(frames) && NormalBatch(b) == Ok(b)
    ensures Vouched(far, frames + [Offer(b)], p.(offered := Some(b))) && OffersNormal(frames + [Offer(b)])
  {
    hide NormalBatch;
  }

  lemma StepKept(s: System, t: System)
    requires Kept(s) && Moves(s, t)
    ensures Kept(t) && Extends(s.left.data, t.left.data) && Extends(s.right.data, t.right.data)
  {
    hide Kept, OfferStep, ImportStep, AckStep, RestartStep, OtherStep, LossStep;
    var side, action :| Step(s, t, side, action);
    match action
    case Importing => ImportStepKept(s, t, side);
    case Acknowledged => AckStepKept(s, t, side);
    case Restarting => RestartStepKept(s, t, side);
    case Others => OtherStepKept(s, t, side);
    case Offering(_) => QueueStepKept(s, t, side, action);
    case Losing => QueueStepKept(s, t, side, action);
  }

  lemma {:induction false} RunKept(run: seq<System>, i: nat)
    requires Run(run) && i < |run|
    ensures Kept(run[i])
    decreases i
  {
    hide Kept, Moves, Initial, Extends;
    if i == 0 {
      InitiallyKept(run[0]);
    } else {
      RunKept(run, i - 1);
      assert MovesAt(run, i - 1);
      StepKept(run[i - 1], run[i]);
    }
  }

  // ---------------------------------------------------------------------------
  // Safety over whole runs

  /** Once a peer has an acknowledgement for a batch, in memory or on disk, every message of
      the batch is on the other peer's disk exactly as it was offered, and the number of
      messages a peer ever counted as imported is the number it stores. */
  lemma AcknowledgedIsDelivered(run: seq<System>, i: nat, side: Side, b: Batch)
    requires Run(run) && i < |run|
    ensures var p, far := run[i].At(side), run[i].At(side.Other());
            && (SentBatch(Sha256(b)) in p.data.sent || SentBatch(Sha256(b)) in p.disk.sent ==>
                  forall k :: 0 <= k < |b.messages| ==> Holds(far.disk.messages, b.messages[k]))
            && |p.disk.messages| == p.imported
  {
    RunKept(run, i);
    var p, far := run[i].At(side), run[i].At(side.Other());
    assert SideKept(run[i], side) && SideKept(run[i], side.Other());
    if SentBatch(Sha256(b)) in p.data.sent || SentBatch(Sha256(b)) in p.disk.sent {
      assert Sha256(b) in far.data.batches;
      assert Backed(far.data, Sha256(b));
    }
  }

  lemma {:induction false} MemoryGrows(run: seq<System>, i: nat, j: nat, side: Side)
    requires Run(run) && i <= j < |run|
    ensures Extends(run[i].At(side).data, run[j].At(side).data)
    decreases j
  {
    hide Kept, Moves, Initial;
    if i == j {
    } else {
      RunKept(run, j - 1);
      assert MovesAt(run, j - 1);
      StepKept(run[j - 1], run[j]);
      MemoryGrows(run, i, j - 1, side);
    }
  }

  /** Stored messages are never lost or altered, in memory or on disk, and reply links of
      every reachable store are free of same-area cycles. */
  lemma StoredStays(run: seq<System>, i: nat, j: nat, side: Side)
    requires Run(run) && i <= j < |run|
    ensures Extends(run[i].At(side).disk, run[j].At(side).disk) && Extends(run[i].At(side).data, run[j].At(side).data)
    ensures Acyclic(run[j].At(side).disk.messages)
  {
    hide Run, Acyclic, WellKept, Routed, Backed;
    RunKept(run, i);
    RunKept(run, j);
    assert SideKept(run[i], side) && SideKept(run[j], side);
    MemoryGrows(run, i, j, side);
  }

  lemma GoesOn(run: seq<System>, t: System, side: Side, action: Action) returns (longer: seq<System>)
    requires Run(run) && Step(run[|run| - 1], t, side, action)
    ensures longer == run + [t] && Run(longer)
  {
    hide Step, Initial;
    longer := run + [t];
    forall k | 0 <= k < |longer| - 1
      ensures MovesAt(longer, k)
    {
      if k < |run| - 1 {
        assert MovesAt(run, k);
        assert longer[k] == run[k] && longer[k + 1] == run[k + 1];
      } else {
        assert Step(longer[k], longer[k + 1], side, action);
      }
    }
  }

  /** From any start, for any batch the receiver takes: it may be offered, imported, its
      acknowledgement lost, the sender restarted, the batch offered again, answered as all
      duplicates, and then remembered as acknowledged, on disk as well. */
  lemma LostAcknowledgementIsMadeUp(s: System, b: Batch) returns (run: seq<System>)
    requires Initial(s) && !s.right.dropAckOnce && NormalBatch(b) == Ok(b)
    requires b.network == s.left.config.network && b.sender == s.left.config.node && b.neighbor == s.left.config.peer
    requires s.right.config.Valid() && Import(s.right.config, s.right.caps, EMPTY, b).Some?
    ensures Run(run) && run[0] == s
    ensures var last := run[|run| - 1];
            && SentBatch(Sha256(b)) in last.left.disk.sent && last.left.disk.sent[SentBatch(Sha256(b))] == AckSeen(Ack(ReceiptOf(b), 0, |b.messages|))
            && (forall k :: 0 <= k < |b.messages| ==> Holds(last.right.disk.messages, b.messages[k]))
            && last.right.imported == |last.right.disk.messages| && last.toLeft == [] && last.toRight == []
  {
    assert s.At(Left) == s.left && s.At(Right) == s.right;
    var p, q := s.left, s.right;
    hide NormalBatch, Import, Config.Valid, Safe, AckValid, Initial, Step;
    assert Run([s]);
    var next, ack := TakenFirst(q.config, q.caps, b);
    var offered, imported := p.(offered := Some(b)), q.(data := next, disk := next, imported := ack.imported);
    var again := Ack(ReceiptOf(b), 0, |b.messages|);
    OfferedOnce(s, p, q, b);
    run := GoesOn([s], System(offered, q, [], [Offer(b)]), Left, Offering(b));
    ImportedOnce(run[1], next, ack, b);
    run := GoesOn(run, System(offered, imported, [AckFrame(ack)], []), Right, Importing);
    run := LostAndRestarted(run, p, imported, b, ack);
    OfferedOnce(run[|run| - 1], p, imported, b);
    run := GoesOn(run, System(offered, imported, [], [Offer(b)]), Left, Offering(b));
    ImportedOnce(run[|run| - 1], next, again, b);
    run := GoesOn(run, System(offered, imported, [AckFrame(again)], []), Right, Importing);
    var data := Remembering(run[|run| - 1], again, b);
    run := GoesOn(run, System(p.(data := data, disk := data), imported, [], []), Left, Acknowledged);
  }

  lemma TakenFirst(c: Config, caps: Caps, b: Batch) returns (next: Data, ack: Ack)
    requires c.Valid() && NormalBatch(b) == Ok(b) && Import(c, caps, EMPTY, b).Some?
    requires b.network == c.network && b.sender == c.peer && b.neighbor == c.node
    ensures (next, ack) == Import(c, caps, EMPTY, b).value && ack.imported == |next.messages| && !next.droppedAck && next != EMPTY
    ensures forall k :: 0 <= k < |b.messages| ==> Holds(next.messages, b.messages[k])
    ensures Import(c, caps, next, b) == Some((next, Ack(ReceiptOf(b), 0, |b.messages|))) && AckValid(Ack(ReceiptOf(b), 0, |b.messages|), b)
  {
    hide NormalBatch, Import, Config.Valid, Safe, AckValid;
    EmptyIsSafe(c);
    NormalBatchIds(b);
    next, ack := Import(c, caps, EMPTY, b).value.0, Import(c, caps, EMPTY, b).value.1;
    NothingDropped(c, caps, b);
    ImportKeeps(c, caps, EMPTY, b);
    ReplayIsAnswered(c, caps, next, b);
  }

  lemma OfferedOnce(s: System, p: PeerState, q: PeerState, b: Batch)
    requires s == System(p, q, [], []) && NormalBatch(b) == Ok(b)
    requires b.network == p.config.network && b.sender == p.config.node && b.neighbor == p.config.peer
    ensures Step(s, System(p.(offered := Some(b)), q, [], [Offer(b)]), Left, Offering(b))
  {
    hide NormalBatch;
  }

  lemma ImportedOnce(s: System, next: Data, ack: Ack, b: Batch)
    requires s.toRight == [Offer(b)] && s.toLeft == [] && s.right.config.Valid() && !s.right.dropAckOnce && ack.imported >= 0
    requires Import(s.right.config, s.right.caps, s.right.data, b) == Some((next, ack))
    ensures Step(s, System(s.left, Received(s.right, next, ack), [AckFrame(ack)], []), Right, Importing)
  {
    hide Import, Config.Valid;
  }

  lemma LostAndRestarted(begun: seq<System>, p: PeerState, q: PeerState, b: Batch, ack: Ack) returns (run: seq<System>)
    requires Run(begun) && begun[|begun| - 1] == System(p.(offered := Some(b)), q, [AckFrame(ack)], [])
    requires p.config.Valid() && p.data == p.disk && p.offered == None
    ensures Run(run) && begun <= run && run[|run| - 1] == System(p, q, [], [])
  {
    assert begun != [];
    hide Run, Config.Valid;
    run := GoesOn(begun, System(p.(offered := Some(b)), q, [], []), Left, Losing);
    run := GoesOn(run, System(p, q, [], []), Left, Restarting);
  }

  lemma Remembering(s: System, ack: Ack, b: Batch) returns (data: Data)
    requires s.left.offered == Some(b) && AckValid(ack, b) && s.left.data == EMPTY && s.toLeft == [AckFrame(ack)] && s.toRight == []
    ensures data == EMPTY.(sent := map[SentBatch(Sha256(b)) := AckSeen(ack)])
    ensures Step(s, System(s.left.(data := data, disk := data, offered := None), s.right, [], []), Left, Acknowledged)
  {
    data := EMPTY.(sent := map[SentBatch(Sha256(b)) := AckSeen(ack)]);
    assert |data.sent| == 1;
  }

  lemma NothingDropped(c: Config, caps: Caps, b: Batch)
    requires c.Valid() && Import(c, caps, EMPTY, b).Some?
    ensures var (next, ack) := Import(c, caps, EMPTY, b).value;
            !next.droppedAck && next != EMPTY
  {
    hide Acceptable;
  }

  /** A batch whose acknowledgement was lost is, whenever and however often it is offered
      again, acknowledged as all duplicates without touching the store. */
  lemma RetryIsAcknowledged(run: seq<System>, i: nat, j: nat, side: Side, b: Batch)
    requires Run(run) && i <= j < |run| && NormalBatch(b) == Ok(b)
    requires Sha256(b) in run[i].At(side).disk.batches
    requires var c := run[j].At(side).config; b.network == c.network && b.sender == c.peer && b.neighbor == c.node
    ensures run[j].At(side).config.Valid()
    ensures var p := run[j].At(side);
            && Import(p.config, p.caps, p.data, b) == Some((p.data, Ack(ReceiptOf(b), 0, |b.messages|)))
            && AckValid(Ack(ReceiptOf(b), 0, |b.messages|), b)
  {
    NormalBatchIds(b);
    hide NormalBatch, Import, AckValid, Run, Config.Valid;
    StoredStays(run, i, j, side);
    RunKept(run, j);
    assert SideKept(run[j], side);
    var p := run[j].At(side);
    assert Sha256(b) in p.data.batches;
    hide Safe, Kept;
    ReplayIsAnswered(p.config, p.caps, p.data, b);
  }
}
