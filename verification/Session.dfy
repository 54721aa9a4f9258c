/** The turn-taking session as two programs joined by two queues. Each program is what
    its peer writes and expects, frame by frame; contents appear only where they
    decide what comes next. */
module Session {
  import opened Basics
  import opened Negotiation
  import opened Topology
  import Tokens

  const MOST_FILES := 8

  datatype Decision = Send | Have | Complete

  /** What travels: frames by type, raw chunks, and an error frame with the length it is
      announced by. */
  datatype Item =
    | Greeting | Head | Request(enabled: bool) | Object | NoObject | CatalogAck
    | Controls | Results | Offer(batch: bool) | Ack
    | FileOffer(size: nat) | NoFile | Want(decision: Decision) | Chunk(length: nat) | ChunkEnd | FileReceipt
    | Close | ErrorFrame(length: nat)

  /** Where a program stands; counters are those of the loops it is in. */
  datatype Pc =
    | SendHello | AwaitHello
    | SendHead | AwaitRequest | SendObjects(enabled: bool, count: nat) | AwaitCatalogAck(enabled: bool, count: nat)
    | AwaitHead | SendRequest | AwaitObject(enabled: bool, count: nat) | SendCatalogAck(enabled: bool, count: nat)
    | SendControls | AwaitResults | SendOffer | AwaitAck
    | SendFileOffer(count: nat) | AwaitWant(count: nat, size: nat) | SendChunks(count: nat, size: nat, total: nat) | AwaitReceipt(count: nat)
    | AwaitControls | SendResults | AwaitOffer | SendAck
    | AwaitFileOffer(count: nat) | SendWant(count: nat, size: nat) | AwaitChunk(count: nat, size: nat, total: nat) | SendReceipt(count: nat)
    | SendClose | AwaitClose | Done | Failed

  datatype Local = Local(pc: Pc, initiator: bool, mode: Mode, caps: set<Capability>) {
    function To(next: Pc): Local { this.(pc := next) }

    function AfterHello(): Pc {
      if mode.Test? then Closing()
      else if CatalogSync in caps then (if initiator then SendHead else AwaitHead)
      else Working()
    }
    function AfterCatalogSent(): Pc { if initiator then AwaitHead else Working() }
    function AfterCatalogTaken(): Pc { if initiator then Working() else SendHead }
    function Working(): Pc { if initiator then WorkOut() else WorkIn() }
    function WorkOut(): Pc { if RemoteDossierControl in caps then SendControls else SendOffer }
    function WorkIn(): Pc { if RemoteDossierControl in caps then AwaitControls else AwaitOffer }
    function AfterOfferOut(): Pc { if FileDistribution in caps then SendFileOffer(0) else AfterWorkOut() }
    function AfterOfferIn(): Pc { if FileDistribution in caps then AwaitFileOffer(0) else AfterWorkIn() }
    function AfterWorkOut(): Pc { if initiator then WorkIn() else Closing() }
    function AfterWorkIn(): Pc { if initiator then Closing() else WorkOut() }
    function Closing(): Pc { if initiator then SendClose else AwaitClose }
  }

  // ---------------------------------------------------------------------------
  // The programs

  function When(test: bool, l: Local, next: Pc): Option<Local> {
    if test then Some(l.To(next)) else None
  }

  /** What a waiting program does with the next item; None is a refusal. */
  function Read(l: Local, item: Item): Option<Local> {
    match l.pc
    case AwaitHello => When(item.Greeting?, l, if l.initiator then l.AfterHello() else SendHello)
    case AwaitHead => When(item.Head?, l, SendRequest)
    case AwaitRequest => if item.Request? then Some(l.To(SendObjects(item.enabled, 0))) else None
    case AwaitObject(e, n) =>
      if item.NoObject? then Some(l.To(l.AfterCatalogTaken()))
      else When(item.Object? && e && n < PER_SESSION, l, SendCatalogAck(e, n))
    case AwaitCatalogAck(e, n) => When(item.CatalogAck?, l, SendObjects(e, n + 1))
    case AwaitControls => When(item.Controls?, l, SendResults)
    case AwaitResults => When(item.Results?, l, SendOffer)
    case AwaitOffer => if item.Offer? then Some(l.To(if item.batch then SendAck else l.AfterOfferIn())) else None
    case AwaitAck => When(item.Ack?, l, l.AfterOfferOut())
    case AwaitFileOffer(n) =>
      if item.NoFile? then Some(l.To(l.AfterWorkIn()))
      else if item.FileOffer? && n < MOST_FILES && item.size <= MAX_FILE then Some(l.To(SendWant(n, item.size))) else None
    case AwaitWant(n, size) =>
      if !item.Want? then None
      else if item.decision.Send? then Some(l.To(SendChunks(n, size, 0)))
      else if item.decision.Complete? then Some(l.To(SendFileOffer(n + 1)))
      else When(FileHashHave in l.caps, l, AwaitReceipt(n))
    case AwaitChunk(n, size, total) =>
      if item.ChunkEnd? then Some(l.To(SendReceipt(n)))
      else if item.Chunk? && 1 <= item.length <= MAX_CHUNK && total + item.length <= size
      then Some(l.To(AwaitChunk(n, size, total + item.length))) else None
    case AwaitReceipt(n) => When(item.FileReceipt?, l, SendFileOffer(n + 1))
    case AwaitClose => When(item.Close?, l, if l.initiator then Done else SendClose)
    case _ => None
  }

  /** What a program may write next, and where that leaves it. */
  predicate Writes(l: Local, item: Item, next: Pc) {
    match l.pc
    case SendHello => item == Greeting && next == if l.initiator then AwaitHello else l.AfterHello()
    case SendHead => item == Head && next == AwaitRequest
    case SendRequest => item.Request? && next == AwaitObject(item.enabled, 0)
    case SendObjects(e, n) =>
      || (item == NoObject && next == l.AfterCatalogSent())
      || (item == Object && e && n < PER_SESSION && next == AwaitCatalogAck(e, n))
    case SendCatalogAck(e, n) => item == CatalogAck && next == AwaitObject(e, n + 1)
    case SendControls => item == Controls && next == AwaitResults
    case SendResults => item == Results && next == AwaitOffer
    case SendOffer => item.Offer? && next == if item.batch then AwaitAck else l.AfterOfferOut()
    case SendAck => item == Ack && next == l.AfterOfferIn()
    case SendFileOffer(n) =>
      || (item == NoFile && next == l.AfterWorkOut())
      || (item.FileOffer? && n < MOST_FILES && item.size <= MAX_FILE && next == AwaitWant(n, item.size))
    case SendWant(n, size) =>
      || (item == Want(Complete) && next == AwaitFileOffer(n + 1))
      || (item == Want(Have) && FileHashHave in l.caps && next == SendReceipt(n))
      || (item == Want(Send) && next == AwaitChunk(n, size, 0))
    case SendChunks(n, size, total) =>
      || (item == ChunkEnd && total >= size && next == AwaitReceipt(n))
      || (item.Chunk? && 1 <= item.length <= MAX_CHUNK && total + item.length <= size
          && next == SendChunks(n, size, total + item.length))
    case SendReceipt(n) => item == FileReceipt && next == AwaitFileOffer(n + 1)
    case SendClose => item == Close && next == if l.initiator then AwaitClose else Done
    case _ => false
  }

  /** When each kind of frame with a bound or a choice in it is written, and what its writer
      then waits for: at most 64 objects and only to one that asked; at most 8 files of at most
      67108864 bytes; pieces of 1 to 65536 bytes up to the announced size, and the end only when
      all of it was sent; content is vouched for only with the capability. */
  lemma WriteRules(l: Local, item: Item, next: Pc)
    requires Writes(l, item, next)
    ensures item.Object? ==> exists n: nat :: n < 64 && l.pc == SendObjects(true, n) && next == AwaitCatalogAck(true, n)
    ensures item.Request? ==> next == AwaitObject(item.enabled, 0)
    ensures item.Offer? ==> (item.batch <==> next == AwaitAck)
    ensures item.FileOffer? ==> item.size <= 67108864 && exists n: nat :: n < 8 && l.pc == SendFileOffer(n) && next == AwaitWant(n, item.size)
    ensures item.Want? ==>
              exists n: nat, size: nat :: l.pc == SendWant(n, size) && (item.decision == Have ==> FileHashHave in l.caps)
                && next == match item.decision
                           case Send => AwaitChunk(n, size, 0)
                           case Have => SendReceipt(n)
                           case Complete => AwaitFileOffer(n + 1)
    ensures item.Chunk? ==>
              && 1 <= item.length <= 65536 && l.pc.SendChunks? && l.pc.total + item.length <= l.pc.size
              && next == SendChunks(l.pc.count, l.pc.size, l.pc.total + item.length)
    ensures item.ChunkEnd? ==> l.pc.SendChunks? && l.pc.total >= l.pc.size && next == AwaitReceipt(l.pc.count)
    ensures item.FileReceipt? ==> l.pc.SendReceipt? && next == AwaitFileOffer(l.pc.count + 1)
  {
    if item.Object? { assert l.pc == SendObjects(true, l.pc.count); }
    if item.FileOffer? { assert l.pc == SendFileOffer(l.pc.count); }
    if item.Want? { assert l.pc == SendWant(l.pc.count, l.pc.size); }
  }

  /** What a reader of each of these does next. */
  lemma ReadRules(l: Local, item: Item)
    requires Read(l, item).Some?
    ensures var next := Read(l, item).value.pc;
            && (item.Object? ==> exists n: nat :: n < 64 && l.pc == AwaitObject(true, n) && next == SendCatalogAck(true, n))
            && (item.CatalogAck? ==> exists e, n: nat :: l.pc == AwaitCatalogAck(e, n) && next == SendObjects(e, n + 1))
            && (item.Request? ==> next == SendObjects(item.enabled, 0))
            && (item.Offer? ==> (item.batch <==> next == SendAck))
            && (item.FileOffer? ==> item.size <= 67108864 && exists n: nat :: n < 8 && l.pc == AwaitFileOffer(n) && next == SendWant(n, item.size))
            && (item.Want? ==>
                  exists n: nat, size: nat :: l.pc == AwaitWant(n, size) && (item.decision == Have ==> FileHashHave in l.caps)
                    && next == match item.decision
                               case Send => SendChunks(n, size, 0)
                               case Have => AwaitReceipt(n)
                               case Complete => SendFileOffer(n + 1))
            && (item.Chunk? ==>
                  && 1 <= item.length <= 65536 && l.pc.AwaitChunk? && l.pc.total + item.length <= l.pc.size
                  && next == AwaitChunk(l.pc.count, l.pc.size, l.pc.total + item.length))
            && (item.ChunkEnd? ==> l.pc.AwaitChunk? && next == SendReceipt(l.pc.count))
            && (item.FileReceipt? ==> l.pc.AwaitReceipt? && next == SendFileOffer(l.pc.count + 1))
  {
    if item.Object? { assert l.pc == AwaitObject(true, l.pc.count); }
    if item.CatalogAck? { assert l.pc == AwaitCatalogAck(l.pc.enabled, l.pc.count); }
    if item.FileOffer? { assert l.pc == AwaitFileOffer(l.pc.count); }
    if item.Want? { assert l.pc == AwaitWant(l.pc.count, l.pc.size); }
  }

  predicate Waiting(pc: Pc) {
    || pc.AwaitHello? || pc.AwaitRequest? || pc.AwaitCatalogAck? || pc.AwaitHead? || pc.AwaitObject?
    || pc.AwaitResults? || pc.AwaitAck? || pc.AwaitWant? || pc.AwaitReceipt?
    || pc.AwaitControls? || pc.AwaitOffer? || pc.AwaitFileOffer? || pc.AwaitChunk? || pc.AwaitClose?
  }

  predicate Writing(pc: Pc) {
    !Waiting(pc) && !pc.Done? && !pc.Failed?
  }

  // ---------------------------------------------------------------------------
  // The pair

  datatype Pair = Pair(left: Local, right: Local, toLeft: seq<Item>, toRight: seq<Item>) {
    function At(side: Side): Local { if side.Left? then left else right }
    function To(side: Side): seq<Item> { if side.Left? then toLeft else toRight }
    function With(side: Side, l: Local): Pair { if side.Left? then this.(left := l) else this.(right := l) }
    function Queue(side: Side, q: seq<Item>): Pair { if side.Left? then this.(toLeft := q) else this.(toRight := q) }
  }

  predicate WriteStep(s: Pair, t: Pair, side: Side, item: Item, next: Pc) {
    Writes(s.At(side), item, next)
    && t == s.With(side, s.At(side).To(next)).Queue(side.Other(), s.To(side.Other()) + [item])
  }

  predicate ReadStep(s: Pair, t: Pair, side: Side) {
    && s.To(side) != [] && Read(s.At(side), s.To(side)[0]).Some?
    && t == s.With(side, Read(s.At(side), s.To(side)[0]).value).Queue(side, s.To(side)[1..])
  }

  /** A local refusal or broken connection, with or without a last error frame. */
  predicate FailStep(s: Pair, t: Pair, side: Side, told: Option<nat>) {
    && !s.At(side).pc.Done? && !s.At(side).pc.Failed?
    && t == s.With(side, s.At(side).To(Failed))
             .Queue(side.Other(), s.To(side.Other()) + (if told.Some? then [ErrorFrame(told.value)] else []))
  }

  /** Frames a failed peer had written may never arrive. */
  predicate LossStep(s: Pair, t: Pair, side: Side, kept: nat) {
    s.At(side.Other()).pc.Failed? && kept <= |s.To(side)| && t == s.Queue(side, s.To(side)[..kept])
  }

  /** Inside content a program reads lengths and bytes, not frames: an error frame that fits is
      one more chunk to it. */
  predicate Swallows(l: Local, item: Item) {
    && l.pc.AwaitChunk? && item.ErrorFrame?
    && 1 <= item.length <= MAX_CHUNK && l.pc.total + item.length <= l.pc.size
  }

  predicate SwallowStep(s: Pair, t: Pair, side: Side) {
    && s.To(side) != [] && Swallows(s.At(side), s.To(side)[0])
    && var pc := s.At(side).pc;
       t == s.With(side, s.At(side).To(AwaitChunk(pc.count, pc.size, pc.total + s.To(side)[0].length))).Queue(side, s.To(side)[1..])
  }

  /** What is read ends the program: an error frame, recognised as one or, inside content,
      refused as a chunk too long; or the end of the stream after the other program ended. */
  predicate EndStep(s: Pair, t: Pair, side: Side) {
    && Waiting(s.At(side).pc)
    && (if s.To(side) != [] then s.To(side)[0].ErrorFrame? && !Swallows(s.At(side), s.To(side)[0])
        else (s.At(side.Other()).pc.Failed? || s.At(side.Other()).pc.Done?))
    && t == s.With(side, s.At(side).To(Failed))
  }

  /** A step in which nothing fails. */
  ghost predicate Proceeds(s: Pair, t: Pair) {
    exists side :: ProceedsAt(s, t, side)
  }

  ghost predicate ProceedsAt(s: Pair, t: Pair, side: Side) {
    ReadStep(s, t, side) || exists item, next :: WriteStep(s, t, side, item, next)
  }

  ghost predicate Breaks(s: Pair, t: Pair) {
    exists side :: BreaksAt(s, t, side)
  }

  ghost predicate BreaksAt(s: Pair, t: Pair, side: Side) {
    || EndStep(s, t, side) || SwallowStep(s, t, side)
    || (exists told :: FailStep(s, t, side, told)) || (exists kept :: LossStep(s, t, side, kept))
  }

  // ---------------------------------------------------------------------------
  // Lock step

  /** One program writes what the other, at the same count, waits for. */
  predicate Serves(w: Pc, r: Pc) {
    match w
    case SendHello => r.AwaitHello?
    case SendHead => r.AwaitHead?
    case SendRequest => r.AwaitRequest?
    case SendObjects(e, n) => r == AwaitObject(e, n)
    case SendCatalogAck(e, n) => r == AwaitCatalogAck(e, n)
    case SendControls => r.AwaitControls?
    case SendResults => r.AwaitResults?
    case SendOffer => r.AwaitOffer?
    case SendAck => r.AwaitAck?
    case SendFileOffer(n) => r == AwaitFileOffer(n)
    case SendWant(n, size) => r == AwaitWant(n, size)
    case SendChunks(n, size, total) => r == AwaitChunk(n, size, total)
    case SendReceipt(n) => r == AwaitReceipt(n)
    case SendClose => r.AwaitClose?
    case Done => r.Done?
    case _ => false
  }

  predicate Agree(a: Local, b: Local) {
    a.initiator != b.initiator && a.mode == b.mode && a.caps == b.caps
  }

  predicate Matched(a: Local, b: Local) {
    && Agree(a, b)
    && (Serves(a.pc, b.pc) || Serves(b.pc, a.pc))
  }

  /** The program after taking everything in its queue. */
  function Digest(l: Local, q: seq<Item>): Option<Local>
    decreases |q|
  {
    if q == [] then Some(l)
    else
      var next := Read(l, q[0]);
      if next.None? then None else Digest(next.value, q[1..])
  }

  /** Everything in the queue will be taken, except for an error at its very end. */
  predicate Digestible(l: Local, q: seq<Item>)
    decreases |q|
  {
    q == [] || (q[0].ErrorFrame? && |q| == 1) || (Read(l, q[0]).Some? && Digestible(Read(l, q[0]).value, q[1..]))
  }

  /** The other side, once it has read what is on its way, is matched with this one. */
  predicate Ahead(s: Pair, side: Side) {
    && s.To(side) == []
    && var far := Digest(s.At(side.Other()), s.To(side.Other()));
       far.Some? && Matched(s.At(side), far.value)
  }

  predicate Bounded(pc: Pc) {
    match pc
    case SendObjects(_, n) => n <= PER_SESSION
    case AwaitObject(_, n) => n <= PER_SESSION
    case AwaitCatalogAck(_, n) => n < PER_SESSION
    case SendCatalogAck(_, n) => n < PER_SESSION
    case SendFileOffer(n) => n <= MOST_FILES
    case AwaitFileOffer(n) => n <= MOST_FILES
    case AwaitWant(n, size) => n < MOST_FILES && size <= MAX_FILE
    case SendWant(n, size) => n < MOST_FILES && size <= MAX_FILE
    case SendChunks(n, size, total) => n < MOST_FILES && total <= size <= MAX_FILE
    case AwaitChunk(n, size, total) => n < MOST_FILES && total <= size <= MAX_FILE
    case AwaitReceipt(n) => n < MOST_FILES
    case SendReceipt(n) => n < MOST_FILES
    case _ => true
  }

  /** What holds in every state two agreed programs can reach. */
  ghost predicate InStep(s: Pair) {
    && Bounded(s.left.pc) && Bounded(s.right.pc)
    && (s.left.pc.Failed? || s.right.pc.Failed? || Ahead(s, Left) || Ahead(s, Right))
    && (!s.left.pc.Failed? ==> Digestible(s.left, s.toLeft))
    && (!s.right.pc.Failed? ==> Digestible(s.right, s.toRight))
  }

  /** Two programs that negotiated the same capabilities, about to say hello. */
  predicate Opening(s: Pair) {
    && s.left.pc.SendHello? && s.left.initiator && s.right.pc.AwaitHello? && !s.right.initiator
    && s.left.mode == s.right.mode && s.left.caps == s.right.caps
    && s.toLeft == [] && s.toRight == []
  }

  lemma ReadersWait(l: Local, item: Item)
    requires Read(l, item).Some?
    ensures Waiting(l.pc) && !item.ErrorFrame?
    ensures Bounded(l.pc) ==> Bounded(Read(l, item).value.pc)
    ensures !Read(l, item).value.pc.Failed?
  {
  }

  lemma WritersWrite(l: Local, item: Item, next: Pc)
    requires Writes(l, item, next)
    ensures Writing(l.pc) && !item.ErrorFrame? && !next.Failed?
    ensures Bounded(l.pc) ==> Bounded(next)
  {
    if OnFiles(l.pc) { FileWritersWrite(l, item, next); }
    else if OnCatalog(l.pc) { CatalogWritersWrite(l, item, next); }
    else { OtherWritersWrite(l, item, next); }
    hide Writes, Writing, Bounded, OnFiles, OnCatalog;
  }

  lemma FileWritersWrite(l: Local, item: Item, next: Pc)
    requires OnFiles(l.pc) && Writes(l, item, next)
    ensures Writing(l.pc) && !item.ErrorFrame? && !next.Failed?
    ensures Bounded(l.pc) ==> Bounded(next)
  {
  }

  lemma CatalogWritersWrite(l: Local, item: Item, next: Pc)
    requires OnCatalog(l.pc) && Writes(l, item, next)
    ensures Writing(l.pc) && !item.ErrorFrame? && !next.Failed?
    ensures Bounded(l.pc) ==> Bounded(next)
  {
  }

  lemma OtherWritersWrite(l: Local, item: Item, next: Pc)
    requires !OnFiles(l.pc) && !OnCatalog(l.pc) && Writes(l, item, next)
    ensures Writing(l.pc) && !item.ErrorFrame? && !next.Failed?
    ensures Bounded(l.pc) ==> Bounded(next)
  {
  }

  predicate OnGreeting(pc: Pc) { pc.SendHello? || pc.SendClose? }
  predicate OnCatalog(pc: Pc) { pc.SendHead? || pc.SendRequest? || pc.SendObjects? || pc.SendCatalogAck? }
  predicate OnFiles(pc: Pc) { pc.SendFileOffer? || pc.SendWant? || pc.SendChunks? || pc.SendReceipt? }

  predicate Meets(r: Local, item: Item, next: Pc) {
    && Read(r, item).Some?
    && (Serves(next, Read(r, item).value.pc) || Serves(Read(r, item).value.pc, next))
  }

  lemma GreetingStep(w: Local, r: Local, item: Item, next: Pc)
    requires Agree(w, r) && OnGreeting(w.pc) && Serves(w.pc, r.pc) && Writes(w, item, next)
    ensures Meets(r, item, next)
  {
  }

  lemma CatalogStep(w: Local, r: Local, item: Item, next: Pc)
    requires Agree(w, r) && OnCatalog(w.pc) && Serves(w.pc, r.pc) && Writes(w, item, next)
    ensures Meets(r, item, next)
  {
  }

  lemma FilesStep(w: Local, r: Local, item: Item, next: Pc)
    requires Agree(w, r) && OnFiles(w.pc) && Serves(w.pc, r.pc) && Writes(w, item, next) && Bounded(w.pc)
    ensures Meets(r, item, next)
  {
    if w.pc.SendFileOffer? || w.pc.SendWant? { OfferedFileStep(w, r, item, next); } else { ChunksStep(w, r, item, next); }
    hide Read, Writes, Serves, Bounded, Meets;
  }

  lemma OfferedFileStep(w: Local, r: Local, item: Item, next: Pc)
    requires Agree(w, r) && (w.pc.SendFileOffer? || w.pc.SendWant?) && Serves(w.pc, r.pc) && Writes(w, item, next) && Bounded(w.pc)
    ensures Meets(r, item, next)
  {
  }

  lemma ChunksStep(w: Local, r: Local, item: Item, next: Pc)
    requires Agree(w, r) && (w.pc.SendChunks? || w.pc.SendReceipt?) && Serves(w.pc, r.pc) && Writes(w, item, next) && Bounded(w.pc)
    ensures Meets(r, item, next)
  {
  }

  lemma WorkStep(w: Local, r: Local, item: Item, next: Pc)
    requires Agree(w, r) && !OnGreeting(w.pc) && !OnCatalog(w.pc) && !OnFiles(w.pc)
    requires Serves(w.pc, r.pc) && Writes(w, item, next)
    ensures Meets(r, item, next)
  {
    if w.pc.SendOffer? { OfferStep(w, r, item, next); } else { AnswerStep(w, r, item, next); }
    hide Read, Writes, Serves, Meets;
  }

  lemma OfferStep(w: Local, r: Local, item: Item, next: Pc)
    requires Agree(w, r) && w.pc.SendOffer? && Serves(w.pc, r.pc) && Writes(w, item, next)
    ensures Meets(r, item, next)
  {
  }

  lemma AnswerStep(w: Local, r: Local, item: Item, next: Pc)
    requires Agree(w, r) && !OnGreeting(w.pc) && !OnCatalog(w.pc) && !OnFiles(w.pc) && !w.pc.SendOffer?
    requires Serves(w.pc, r.pc) && Writes(w, item, next)
    ensures Meets(r, item, next)
  {
  }

  lemma ReadKeepsAgreement(w: Local, r: Local, item: Item, next: Pc)
    requires Agree(w, r) && Read(r, item).Some?
    ensures Agree(w.To(next), Read(r, item).value)
  {
  }

  lemma WriterServes(w: Local, r: Local)
    requires Matched(w, r) && Writing(w.pc)
    ensures Agree(w, r) && Serves(w.pc, r.pc)
  {
  }

  /** A matched reader takes whatever the writer writes, and they stay matched. */
  lemma MatchedStep(w: Local, r: Local, item: Item, next: Pc)
    requires Matched(w, r) && Bounded(w.pc) && Writes(w, item, next)
    ensures Read(r, item).Some? && Matched(w.To(next), Read(r, item).value)
  {
    WritersWrite(w, item, next);
    WriterServes(w, r);
    hide Read, Writes, Bounded, Serves, Writing, Matched, Agree;
    if OnGreeting(w.pc) { GreetingStep(w, r, item, next); }
    else if OnCatalog(w.pc) { CatalogStep(w, r, item, next); }
    else if OnFiles(w.pc) { FilesStep(w, r, item, next); }
    else { WorkStep(w, r, item, next); }
    hide OnGreeting, OnCatalog, OnFiles;
    MeetingMatches(w, r, item, next);
    hide Meets;
  }

  lemma MeetingMatches(w: Local, r: Local, item: Item, next: Pc)
    requires Agree(w, r) && Meets(r, item, next)
    ensures Read(r, item).Some? && Matched(w.To(next), Read(r, item).value)
  {
    ReadKeepsAgreement(w, r, item, next);
    hide Read, Serves, Agree;
  }

  lemma {:induction false} DigestMore(l: Local, q: seq<Item>, item: Item)
    requires Digest(l, q).Some? && Read(Digest(l, q).value, item).Some?
    ensures Digest(l, q + [item]) == Read(Digest(l, q).value, item)
    decreases |q|
  {
    if q == [] {
      assert [item][1..] == [];
    } else {
      var rest := q[1..];
      DigestMore(Read(l, q[0]).value, rest, item);
      assert (q + [item])[1..] == rest + [item];
    }
  }

  lemma {:induction false} DigestedIsDigestible(l: Local, q: seq<Item>)
    requires Digest(l, q).Some?
    ensures Digestible(l, q)
    decreases |q|
  {
    if q == [] {
    } else {
      DigestedIsDigestible(Read(l, q[0]).value, q[1..]);
    }
  }

  /** An error may follow what will all be taken. */
  lemma {:induction false} ErrorMayFollow(l: Local, q: seq<Item>, length: nat)
    requires Digest(l, q).Some?
    ensures Digestible(l, q + [ErrorFrame(length)])
    decreases |q|
  {
    var longer := q + [ErrorFrame(length)];
    if q == [] {
    } else {
      ErrorMayFollow(Read(l, q[0]).value, q[1..], length);
      assert longer[1..] == q[1..] + [ErrorFrame(length)];
    }
  }

  lemma {:induction false} StillDigestible(l: Local, q: seq<Item>, kept: nat)
    requires Digestible(l, q) && kept <= |q|
    ensures Digestible(l, q[..kept])
    decreases |q|
  {
    if kept == 0 {
    } else if Read(l, q[0]).Some? {
      StillDigestible(Read(l, q[0]).value, q[1..], kept - 1);
      assert q[..kept][1..] == q[1..][..kept - 1];
    } else {
      assert q[..kept] == q;
    }
  }

  /** Only a program that has failed leaves an error in the queue. */
  lemma {:induction false} NoErrorDigested(l: Local, q: seq<Item>, i: nat)
    requires Digest(l, q).Some? && i < |q|
    ensures !q[i].ErrorFrame?
    decreases |q|
  {
    ReadersWait(l, q[0]);
    if i == 0 {
    } else {
      NoErrorDigested(Read(l, q[0]).value, q[1..], i - 1);
    }
  }

  // ---------------------------------------------------------------------------
  // Every step keeps the programs in step

  lemma MatchedSymmetric(a: Local, b: Local)
    requires Matched(a, b)
    ensures Matched(b, a)
  {
    hide Serves;
  }

  /** Whoever writes has nothing left to read, so it is the one ahead. */
  lemma WriterIsAhead(s: Pair, side: Side)
    requires Ahead(s, side.Other()) && Writing(s.At(side).pc)
    ensures Ahead(s, side)
  {
    hide Matched;
    if s.To(side) != [] {
      ReadersWait(s.At(side), s.To(side)[0]);
      hide Read;
    } else {
      MatchedSymmetric(s.At(side.Other()), s.At(side));
    }
  }

  lemma WriteKeeps(s: Pair, t: Pair, side: Side, item: Item, next: Pc)
    requires InStep(s) && WriteStep(s, t, side, item, next)
    ensures InStep(t)
  {
    var w, r, q := s.At(side), s.At(side.Other()), s.To(side.Other());
    WritersWrite(w, item, next);
    hide Read, Writes, Bounded, Matched;
    if s.To(side) != [] && Read(w, s.To(side)[0]).Some? {
      ReadersWait(w, s.To(side)[0]);
    }
    if !r.pc.Failed? {
      if !Ahead(s, side) { WriterIsAhead(s, side); }
      MatchedStep(w, Digest(r, q).value, item, next);
      DigestMore(r, q, item);
      DigestedIsDigestible(r, q + [item]);
      assert Ahead(t, side);
    }
  }

  lemma ReadKeeps(s: Pair, t: Pair, side: Side)
    requires InStep(s) && ReadStep(s, t, side)
    ensures InStep(t)
  {
    ReadersWait(s.At(side), s.To(side)[0]);
    hide Read, Bounded, Matched;
    assert Ahead(s, side.Other()) ==> Ahead(t, side.Other());
  }

  lemma BreakKeeps(s: Pair, t: Pair)
    requires InStep(s) && Breaks(s, t)
    ensures InStep(t)
  {
    hide Read, Bounded, Matched;
    var side :| BreaksAt(s, t, side);
    if exists told :: FailStep(s, t, side, told) {
      var told :| FailStep(s, t, side, told);
      FailKeeps(s, t, side, told);
    } else if exists kept :: LossStep(s, t, side, kept) {
      var kept :| LossStep(s, t, side, kept);
      if !s.At(side).pc.Failed? { StillDigestible(s.At(side), s.To(side), kept); }
    } else if SwallowStep(s, t, side) {
      SwallowKeeps(s, t, side);
    } else {
      NothingFailed();
    }
  }

  lemma NothingFailed()
    ensures Bounded(Failed)
  {
  }

  lemma FailKeeps(s: Pair, t: Pair, side: Side, told: Option<nat>)
    requires InStep(s) && FailStep(s, t, side, told)
    ensures InStep(t)
  {
    NothingFailed();
    hide Read, Bounded, Matched;
    var far, q := s.At(side.Other()), s.To(side.Other());
    if !far.pc.Failed? {
      assert Digest(far, q).Some?;
      if told.Some? { ErrorMayFollow(far, q, told.value); }
      assert q + [] == q;
    }
  }

  /** An error frame in the queue is its last item, and the program that wrote it has failed. */
  lemma ErrorsComeLast(s: Pair, side: Side)
    requires InStep(s) && !s.At(side).pc.Failed? && s.To(side) != [] && s.To(side)[0].ErrorFrame?
    ensures |s.To(side)| == 1 && s.At(side.Other()).pc.Failed?
  {
    if Read(s.At(side), s.To(side)[0]).Some? { ReadersWait(s.At(side), s.To(side)[0]); }
    hide Read, Bounded, Matched;
    if !s.At(side.Other()).pc.Failed? {
      NoErrorDigested(s.At(side), s.To(side), 0);
    }
  }

  lemma SwallowKeeps(s: Pair, t: Pair, side: Side)
    requires InStep(s) && SwallowStep(s, t, side)
    ensures InStep(t) && Adrift(t, side)
  {
    assert Waiting(s.At(side).pc) && !s.At(side).pc.Failed?;
    ErrorsComeLast(s, side);
    hide Read, Matched;
  }

  /** In the middle of content with nothing more to come. */
  predicate Adrift(s: Pair, side: Side) {
    s.At(side).pc.AwaitChunk? && s.To(side) == [] && s.At(side.Other()).pc.Failed?
  }

  /** A program that took an error for content never settles that content: it stays where it is
      until it fails. */
  lemma AdriftUntilFailure(s: Pair, t: Pair, side: Side)
    requires Adrift(s, side) && (Proceeds(s, t) || Breaks(s, t))
    ensures Adrift(t, side) || t.At(side).pc.Failed?
  {
    if Proceeds(s, t) {
      var a :| ProceedsAt(s, t, a);
      assert !ReadStep(s, t, a);
      var item, next :| WriteStep(s, t, a, item, next);
      WritersWrite(s.At(a), item, next);
      assert false;
    } else {
      var a :| BreaksAt(s, t, a);
    }
  }

  lemma ProceedKeeps(s: Pair, t: Pair)
    requires InStep(s) && Proceeds(s, t)
    ensures InStep(t)
  {
    hide InStep, ReadStep, WriteStep;
    var side :| ProceedsAt(s, t, side);
    if ReadStep(s, t, side) {
      ReadKeeps(s, t, side);
    } else {
      var item, next :| WriteStep(s, t, side, item, next);
      WriteKeeps(s, t, side, item, next);
    }
  }

  // ---------------------------------------------------------------------------
  // No wrong frame, no deadlock, an end

  lemma OpeningInStep(s: Pair)
    requires Opening(s)
    ensures InStep(s)
  {
    assert Ahead(s, Left);
  }

  /** A program that reads finds what it expects; or, when the other program has failed, an
      error frame with nothing behind it, which everywhere but inside content ends the program. */
  lemma ReadsFindTheirFrame(s: Pair, side: Side)
    requires InStep(s) && Waiting(s.At(side).pc) && s.To(side) != []
    ensures s.To(side)[0].ErrorFrame? || Read(s.At(side), s.To(side)[0]).Some?
    ensures s.To(side)[0].ErrorFrame? ==> |s.To(side)| == 1 && s.At(side.Other()).pc.Failed?
    ensures s.To(side)[0].ErrorFrame? && !s.At(side).pc.AwaitChunk? ==> EndStep(s, s.With(side, s.At(side).To(Failed)), side)
  {
    if s.To(side)[0].ErrorFrame? { ErrorsComeLast(s, side); }
    hide Read, Bounded;
  }

  lemma WritersCan(l: Local) returns (item: Item, next: Pc)
    requires Writing(l.pc) && Bounded(l.pc)
    ensures Writes(l, item, next)
  {
    match l.pc
    case SendHello => item, next := Greeting, if l.initiator then AwaitHello else l.AfterHello();
    case SendHead => item, next := Head, AwaitRequest;
    case SendRequest => item, next := Request(true), AwaitObject(true, 0);
    case SendObjects(_, _) => item, next := NoObject, l.AfterCatalogSent();
    case SendCatalogAck(e, n) => item, next := CatalogAck, AwaitObject(e, n + 1);
    case SendControls => item, next := Controls, AwaitResults;
    case SendResults => item, next := Results, AwaitOffer;
    case SendOffer => item, next := Offer(true), AwaitAck;
    case SendAck => item, next := Ack, l.AfterOfferIn();
    case SendFileOffer(_) => item, next := NoFile, l.AfterWorkOut();
    case SendWant(n, _) => item, next := Want(Complete), AwaitFileOffer(n + 1);
    case SendChunks(n, size, total) =>
      if total == size { item, next := ChunkEnd, AwaitReceipt(n); }
      else { item, next := Chunk(1), SendChunks(n, size, total + 1); }
    case SendReceipt(n) => item, next := FileReceipt, AwaitFileOffer(n + 1);
    case SendClose => item, next := Close, if l.initiator then AwaitClose else Done;
  }

  predicate Finished(s: Pair) {
    s.left.pc.Done? && s.right.pc.Done? && s.toLeft == [] && s.toRight == []
  }

  lemma MatchedRoles(a: Local, b: Local)
    requires Matched(a, b)
    ensures Writing(a.pc) || Writing(b.pc) || (a.pc.Done? && b.pc.Done?)
    ensures !a.pc.Failed? && !b.pc.Failed?
  {
  }

  /** While nothing failed, the two never both wait on empty queues: some step is possible
      until both programs are done and everything written has been read. */
  lemma SomeStepIsPossible(s: Pair)
    requires InStep(s) && !s.left.pc.Failed? && !s.right.pc.Failed?
    ensures Finished(s) || exists t :: Proceeds(s, t)
  {
    var side := if Ahead(s, Left) then Left else Right;
    var w, r := s.At(side), s.At(side.Other());
    assert Ahead(s, side);
    if s.To(side.Other()) != [] {
      hide Matched, Bounded;
      assert Read(r, s.To(side.Other())[0]).Some?;
      var t := s.With(side.Other(), Read(r, s.To(side.Other())[0]).value).Queue(side.Other(), s.To(side.Other())[1..]);
      hide Read;
      assert ReadStep(s, t, side.Other()) && ProceedsAt(s, t, side.Other());
      assert Proceeds(s, t);
    } else {
      hide Read;
      MatchedRoles(w, r);
      hide Matched, Bounded;
      if Writing(w.pc) {
        CanProceed(s, side);
      } else if Writing(r.pc) {
        CanProceed(s, side.Other());
      }
    }
  }

  lemma CanProceed(s: Pair, side: Side)
    requires Writing(s.At(side).pc) && Bounded(s.At(side).pc)
    ensures exists t :: Proceeds(s, t)
  {
    var item, next := WritersCan(s.At(side));
    hide Writes, Bounded, Writing;
    var t := s.With(side, s.At(side).To(next)).Queue(side.Other(), s.To(side.Other()) + [item]);
    assert WriteStep(s, t, side, item, next);
    assert ProceedsAt(s, t, side);
    assert Proceeds(s, t);
  }

  /** After one program failed the other is not stuck either: it can go on, or read what ends
      it, or swallow an error as content and then come to the end of the stream. */
  lemma SurvivorIsNotStuck(s: Pair, side: Side)
    requires InStep(s) && s.At(side.Other()).pc.Failed? && !s.At(side).pc.Failed? && !s.At(side).pc.Done?
    ensures exists t :: Proceeds(s, t) || EndStep(s, t, side) || (SwallowStep(s, t, side) && EndStep(t, t.With(side, t.At(side).To(Failed)), side))
  {
    var l := s.At(side);
    if Writing(l.pc) {
      CanProceed(s, side);
      var t :| Proceeds(s, t);
      assert Proceeds(s, t) || EndStep(s, t, side);
    } else if s.To(side) != [] && !s.To(side)[0].ErrorFrame? {
      ReadsFindTheirFrame(s, side);
      var t := s.With(side, Read(l, s.To(side)[0]).value).Queue(side, s.To(side)[1..]);
      assert ReadStep(s, t, side);
      assert ProceedsAt(s, t, side);
      assert Proceeds(s, t);
    } else if s.To(side) != [] && Swallows(l, s.To(side)[0]) {
      var pc := l.pc;
      var t := s.With(side, l.To(AwaitChunk(pc.count, pc.size, pc.total + s.To(side)[0].length))).Queue(side, s.To(side)[1..]);
      assert SwallowStep(s, t, side);
      SwallowKeeps(s, t, side);
      hide Read, Bounded;
      assert EndStep(t, t.With(side, t.At(side).To(Failed)), side);
    } else {
      hide Read, Bounded;
      assert EndStep(s, s.With(side, l.To(Failed)), side);
    }
  }

  // Each program has a bounded number of steps left, whatever the other side chooses.

  const WORK: nat := 20 * 67_108_874
  const CATALOG: nat := 1000

  /** Room for the file loop from a count on: one largest file and its frames per round. */
  function FileRounds(n: nat): nat { if n <= 9 then 67_108_874 * (9 - n) else 0 }
  function CatalogRounds(n: nat): nat { if n <= 65 then 2 * (65 - n) else 0 }

  function Either(l: Local, initiator: nat, responder: nat): nat { if l.initiator then initiator else responder }

  /** An upper bound on the steps a program still takes. */
  function Remaining(l: Local): nat {
    match l.pc
    case Done => 0
    case Failed => 0
    case SendClose => Either(l, 2, 1)
    case AwaitClose => Either(l, 1, 2)
    case SendFileOffer(n) => AfterWork(l, true) + FileRounds(n)
    case AwaitFileOffer(n) => AfterWork(l, false) + FileRounds(n)
    case AwaitWant(n, _) => AfterWork(l, true) + FileRounds(n) - 1
    case SendWant(n, _) => AfterWork(l, false) + FileRounds(n) - 1
    case SendChunks(n, _, total) => AfterWork(l, true) + FileRounds(n + 1) + (if total <= MAX_FILE then MAX_FILE - total else 0) + 3
    case AwaitChunk(n, _, total) => AfterWork(l, false) + FileRounds(n + 1) + (if total <= MAX_FILE then MAX_FILE - total else 0) + 3
    case AwaitReceipt(n) => AfterWork(l, true) + FileRounds(n + 1) + 1
    case SendReceipt(n) => AfterWork(l, false) + FileRounds(n + 1) + 1
    case AwaitAck => AfterWork(l, true) + 671_088_740
    case SendAck => AfterWork(l, false) + 671_088_740
    case SendOffer => AfterWork(l, true) + 671_088_740 + 1
    case AwaitOffer => AfterWork(l, false) + 671_088_740 + 1
    case AwaitResults => AfterWork(l, true) + 671_088_740 + 2
    case SendResults => AfterWork(l, false) + 671_088_740 + 2
    case SendControls => AfterWork(l, true) + 671_088_740 + 3
    case AwaitControls => AfterWork(l, false) + 671_088_740 + 3
    case SendObjects(_, n) => AfterCatalog(l, true) + CatalogRounds(n)
    case AwaitObject(_, n) => AfterCatalog(l, false) + CatalogRounds(n)
    case AwaitCatalogAck(_, n) => AfterCatalog(l, true) + CatalogRounds(n) - 1
    case SendCatalogAck(_, n) => AfterCatalog(l, false) + CatalogRounds(n) - 1
    case AwaitRequest => AfterCatalog(l, true) + 200
    case SendRequest => AfterCatalog(l, false) + 200
    case SendHead => AfterCatalog(l, true) + 201
    case AwaitHead => AfterCatalog(l, false) + 201
    case SendHello => 2 * WORK + 2 * CATALOG + Either(l, 2, 1)
    case AwaitHello => 2 * WORK + 2 * CATALOG + Either(l, 1, 2)
  }

  function AfterWork(l: Local, sent: bool): (n: nat)
    ensures 3 <= n <= 3 + WORK
  {
    if sent == l.initiator then 3 + WORK else 3
  }

  function AfterCatalog(l: Local, sent: bool): (n: nat)
    ensures 3 + 2 * WORK <= n <= 3 + 2 * WORK + CATALOG
  {
    if sent == l.initiator then 3 + 2 * WORK + CATALOG else 3 + 2 * WORK
  }

  predicate AwaitsGreeting(pc: Pc) { pc.AwaitHello? || pc.AwaitClose? }
  predicate AwaitsCatalog(pc: Pc) { pc.AwaitHead? || pc.AwaitRequest? || pc.AwaitObject? || pc.AwaitCatalogAck? }
  predicate AwaitsFiles(pc: Pc) { pc.AwaitFileOffer? || pc.AwaitWant? || pc.AwaitChunk? || pc.AwaitReceipt? }

  predicate Shortens(l: Local, next: Local) { Remaining(next) < Remaining(l) }

  lemma GreetingReadShortens(l: Local, item: Item)
    requires AwaitsGreeting(l.pc) && Read(l, item).Some?
    ensures Shortens(l, Read(l, item).value)
  {
  }

  lemma CatalogReadShortens(l: Local, item: Item)
    requires AwaitsCatalog(l.pc) && Bounded(l.pc) && Read(l, item).Some?
    ensures Shortens(l, Read(l, item).value)
  {
  }

  lemma FilesReadShortens(l: Local, item: Item)
    requires AwaitsFiles(l.pc) && Bounded(l.pc) && Read(l, item).Some?
    ensures Shortens(l, Read(l, item).value)
  {
  }

  lemma WorkReadShortens(l: Local, item: Item)
    requires !AwaitsGreeting(l.pc) && !AwaitsCatalog(l.pc) && !AwaitsFiles(l.pc) && Read(l, item).Some?
    ensures Shortens(l, Read(l, item).value)
  {
    match l.pc
    case AwaitControls =>
    case AwaitResults =>
    case AwaitOffer =>
    case AwaitAck =>
    case _ =>
  }

  lemma ReadShortens(l: Local, item: Item)
    requires Bounded(l.pc) && Read(l, item).Some?
    ensures Shortens(l, Read(l, item).value)
  {
    hide Read, Bounded, Shortens;
    if AwaitsGreeting(l.pc) { GreetingReadShortens(l, item); }
    else if AwaitsCatalog(l.pc) { CatalogReadShortens(l, item); }
    else if AwaitsFiles(l.pc) { FilesReadShortens(l, item); }
    else { WorkReadShortens(l, item); }
  }

  lemma GreetingWriteShortens(l: Local, item: Item, next: Pc)
    requires OnGreeting(l.pc) && Writes(l, item, next)
    ensures Shortens(l, l.To(next))
  {
  }

  lemma CatalogWriteShortens(l: Local, item: Item, next: Pc)
    requires OnCatalog(l.pc) && Bounded(l.pc) && Writes(l, item, next)
    ensures Shortens(l, l.To(next))
  {
  }

  lemma FilesWriteShortens(l: Local, item: Item, next: Pc)
    requires OnFiles(l.pc) && Bounded(l.pc) && Writes(l, item, next)
    ensures Shortens(l, l.To(next))
  {
  }

  lemma WorkWriteShortens(l: Local, item: Item, next: Pc)
    requires !OnGreeting(l.pc) && !OnCatalog(l.pc) && !OnFiles(l.pc) && Writes(l, item, next)
    ensures Shortens(l, l.To(next))
  {
  }

  lemma WriteShortens(l: Local, item: Item, next: Pc)
    requires Bounded(l.pc) && Writes(l, item, next)
    ensures Shortens(l, l.To(next))
  {
    hide Writes, Bounded, Shortens;
    if OnGreeting(l.pc) { GreetingWriteShortens(l, item, next); }
    else if OnCatalog(l.pc) { CatalogWriteShortens(l, item, next); }
    else if OnFiles(l.pc) { FilesWriteShortens(l, item, next); }
    else { WorkWriteShortens(l, item, next); }
  }

  function Steps(s: Pair): nat {
    Remaining(s.left) + Remaining(s.right)
  }

  lemma ProceedShortens(s: Pair, t: Pair)
    requires InStep(s) && Proceeds(s, t)
    ensures Steps(t) < Steps(s)
    ensures s.left.pc.Failed? == t.left.pc.Failed? && s.right.pc.Failed? == t.right.pc.Failed?
  {
    hide Read, Writes, Remaining, Ahead, Digestible, Bounded;
    var side :| ProceedsAt(s, t, side);
    if ReadStep(s, t, side) {
      ReadersWait(s.At(side), s.To(side)[0]);
      ReadShortens(s.At(side), s.To(side)[0]);
    } else {
      var item, next :| WriteStep(s, t, side, item, next);
      WritersWrite(s.At(side), item, next);
      WriteShortens(s.At(side), item, next);
    }
  }

  ghost predicate ProceedsFrom(run: seq<Pair>, i: nat)
    requires i + 1 < |run|
  {
    Proceeds(run[i], run[i + 1])
  }

  /** A run in which nothing fails. */
  ghost predicate CleanRun(run: seq<Pair>) {
    && run != [] && Opening(run[0])
    && forall i {:trigger ProceedsFrom(run, i)} :: 0 <= i < |run| - 1 ==> ProceedsFrom(run, i)
  }

  /** Every run without a failure, however reads and writes interleave, stays in step, is
      bounded in length, and can go on until both sides have closed with nothing unread. */
  lemma {:induction false} CleanRunsClose(run: seq<Pair>, i: nat)
    requires CleanRun(run) && i < |run|
    ensures InStep(run[i]) && !run[i].left.pc.Failed? && !run[i].right.pc.Failed?
    ensures i + Steps(run[i]) <= Steps(run[0])
    ensures Finished(run[i]) || exists t :: Proceeds(run[i], t)
    decreases i
  {
    hide InStep, Proceeds, Steps;
    if i == 0 {
      OpeningInStep(run[0]);
    } else {
      CleanRunsClose(run, i - 1);
      assert ProceedsFrom(run, i - 1);
      ProceedKeeps(run[i - 1], run[i]);
      ProceedShortens(run[i - 1], run[i]);
    }
    SomeStepIsPossible(run[i]);
  }

  // ---------------------------------------------------------------------------
  // What a session exchanges

  /** The frames that begin or end a part of a session. */
  datatype Mark = AHello | AHead | ARequest | LastObject | AControls | AResults | AnOffer | LastFile | AClose

  function MarkOf(item: Item): Option<Mark> {
    match item
    case Greeting => Some(AHello)
    case Head => Some(AHead)
    case Request(_) => Some(ARequest)
    case NoObject => Some(LastObject)
    case Controls => Some(AControls)
    case Results => Some(AResults)
    case Offer(_) => Some(AnOffer)
    case NoFile => Some(LastFile)
    case Close => Some(AClose)
    case _ => None
  }

  /** Marks in order, each with who wrote it: the initiator or not. */
  datatype Plan = Nothing | Then(x: bool, mark: Mark, rest: Plan)

  /** One side's catalogs: its head, the other's request, and the end of the objects. */
  function CatalogPart(x: bool, rest: Plan): Plan {
    Then(x, AHead, Then(!x, ARequest, Then(x, LastObject, rest)))
  }

  function FilesPart(x: bool, caps: set<Capability>, rest: Plan): Plan {
    if FileDistribution in caps then Then(x, LastFile, rest) else rest
  }

  /** One side's work: controls and their results, the offer, and the end of the files. */
  function WorkPart(x: bool, caps: set<Capability>, rest: Plan): Plan {
    var offer := Then(x, AnOffer, FilesPart(x, caps, rest));
    if RemoteDossierControl in caps then Then(x, AControls, Then(!x, AResults, offer)) else offer
  }

  const CLOSES: Plan := Then(true, AClose, Then(false, AClose, Nothing))

  /** In poll mode both sides' catalogs if agreed, then both sides' work, the initiator's first
      each time; in test mode nothing. */
  function Exchanges(mode: Mode, caps: set<Capability>): Plan {
    if mode == Test then CLOSES
    else
      var work := WorkPart(true, caps, WorkPart(false, caps, CLOSES));
      if CatalogSync in caps then CatalogPart(true, CatalogPart(false, work)) else work
  }

  /** The whole of a session, from the hellos to the closes. */
  function WholeSession(mode: Mode, caps: set<Capability>): Plan {
    Then(true, AHello, Then(false, AHello, Exchanges(mode, caps)))
  }

  /** What was written at a step of a run: the step that makes one of the queues longer. */
  function WrittenAt(run: seq<Pair>, i: nat): Option<(bool, Item)>
    requires i + 1 < |run|
  {
    if |run[i + 1].toRight| == |run[i].toRight| + 1 then Some((run[i].left.initiator, run[i + 1].toRight[|run[i].toRight|]))
    else if |run[i + 1].toLeft| == |run[i].toLeft| + 1 then Some((run[i].right.initiator, run[i + 1].toLeft[|run[i].toLeft|]))
    else None
  }

  /** Everything written up to a state of a run, in order. */
  function Log(run: seq<Pair>, i: nat): seq<(bool, Item)>
    requires i < |run|
  {
    if i == 0 then []
    else Log(run, i - 1) + (if WrittenAt(run, i - 1).Some? then [WrittenAt(run, i - 1).value] else [])
  }

  function MarkThen(x: bool, item: Item, rest: Plan): Plan {
    if MarkOf(item).Some? then Then(x, MarkOf(item).value, rest) else rest
  }

  /** The marks of a log, followed by others. */
  function Marks(log: seq<(bool, Item)>, rest: Plan): Plan
    decreases |log|
  {
    if log == [] then rest
    else Marks(log[..|log| - 1], MarkThen(log[|log| - 1].0, log[|log| - 1].1, rest))
  }

  // What is still to be marked, from where the program that writes next stands.

  function AfterWorkOf(x: bool, caps: set<Capability>): Plan {
    if x then WorkPart(false, caps, CLOSES) else CLOSES
  }

  function AfterCatalogOf(x: bool, caps: set<Capability>): Plan {
    var work := WorkPart(true, caps, WorkPart(false, caps, CLOSES));
    if x then CatalogPart(false, work) else work
  }

  function FilesLeft(x: bool, caps: set<Capability>): Plan {
    FilesPart(x, caps, AfterWorkOf(x, caps))
  }

  function ToMark(l: Local): Plan {
    var x := l.initiator;
    match l.pc
    case SendHello => if x then WholeSession(l.mode, l.caps) else Then(false, AHello, Exchanges(l.mode, l.caps))
    case SendHead => CatalogPart(x, AfterCatalogOf(x, l.caps))
    case SendRequest => Then(x, ARequest, Then(!x, LastObject, AfterCatalogOf(!x, l.caps)))
    case SendObjects(_, _) => Then(x, LastObject, AfterCatalogOf(x, l.caps))
    case SendCatalogAck(_, _) => Then(!x, LastObject, AfterCatalogOf(!x, l.caps))
    case SendControls => Then(x, AControls, Then(!x, AResults, Then(x, AnOffer, FilesLeft(x, l.caps))))
    case SendResults => Then(x, AResults, Then(!x, AnOffer, FilesLeft(!x, l.caps)))
    case SendOffer => Then(x, AnOffer, FilesLeft(x, l.caps))
    case SendAck => FilesLeft(!x, l.caps)
    case SendFileOffer(_) => Then(x, LastFile, AfterWorkOf(x, l.caps))
    case SendChunks(_, _, _) => Then(x, LastFile, AfterWorkOf(x, l.caps))
    case SendWant(_, _) => Then(!x, LastFile, AfterWorkOf(!x, l.caps))
    case SendReceipt(_) => Then(!x, LastFile, AfterWorkOf(!x, l.caps))
    case SendClose => if x then CLOSES else Then(false, AClose, Nothing)
    case _ => Nothing
  }

  function ToMarkOf(a: Local, b: Local): Plan {
    if Writing(a.pc) then ToMark(a) else if Writing(b.pc) then ToMark(b) else Nothing
  }

  /** The state's remaining marks: those of the side that is ahead and of the other, once it has
      read what is on its way. */
  ghost function ToMarkAt(s: Pair): Plan
    requires InStep(s) && !s.left.pc.Failed? && !s.right.pc.Failed?
  {
    if Ahead(s, Left) then ToMarkOf(s.left, Digest(s.right, s.toRight).value)
    else ToMarkOf(s.right, Digest(s.left, s.toLeft).value)
  }

  /** Files parts only run where they are agreed, catalogs only where they are, neither in a test. */
  predicate InPart(l: Local) {
    && (OnFiles(l.pc) || AwaitsFiles(l.pc) ==> FileDistribution in l.caps)
    && (l.pc.SendControls? || l.pc.AwaitResults? || l.pc.AwaitControls? || l.pc.SendResults? ==> RemoteDossierControl in l.caps)
    && (OnCatalog(l.pc) || AwaitsCatalog(l.pc) ==> CatalogSync in l.caps)
    && (l.mode.Test? ==> OnGreeting(l.pc) || AwaitsGreeting(l.pc) || l.pc.Done?)
  }

  predicate BothInPart(w: Local, r: Local) { InPart(w) && InPart(r) }

  predicate MarkedBy(w: Local, r: Local, item: Item, next: Pc)
    requires Read(r, item).Some?
  {
    && ToMark(w) == MarkThen(w.initiator, item, ToMarkOf(w.To(next), Read(r, item).value))
    && BothInPart(w.To(next), Read(r, item).value)
  }

  /** A writer and the reader that takes what it writes. */
  predicate Takes(w: Local, r: Local, item: Item, next: Pc) {
    Agree(w, r) && BothInPart(w, r) && Serves(w.pc, r.pc) && Writes(w, item, next) && Read(r, item).Some?
  }

  lemma HelloMarks(w: Local, r: Local, item: Item, next: Pc)
    requires Takes(w, r, item, next) && (w.pc.SendHello?)
    ensures MarkedBy(w, r, item, next)
  {
  }

  lemma CloseMarks(w: Local, r: Local, item: Item, next: Pc)
    requires Takes(w, r, item, next) && (w.pc.SendClose?)
    ensures MarkedBy(w, r, item, next)
  {
  }

  lemma HeadMarks(w: Local, r: Local, item: Item, next: Pc)
    requires Takes(w, r, item, next) && (w.pc.SendHead? || w.pc.SendRequest?)
    ensures MarkedBy(w, r, item, next)
  {
  }

  lemma ObjectMarks(w: Local, r: Local, item: Item, next: Pc)
    requires Takes(w, r, item, next) && w.pc.SendObjects?
    ensures MarkedBy(w, r, item, next)
  {
    hide Exchanges;
  }

  lemma CatalogAckMarks(w: Local, r: Local, item: Item, next: Pc)
    requires Takes(w, r, item, next) && w.pc.SendCatalogAck?
    ensures MarkedBy(w, r, item, next)
  {
    hide WorkPart, FilesPart, FilesLeft, AfterWorkOf, Exchanges;
  }

  lemma FileOfferMarks(w: Local, r: Local, item: Item, next: Pc)
    requires Takes(w, r, item, next) && (w.pc.SendFileOffer?)
    ensures MarkedBy(w, r, item, next)
  {
    hide CatalogPart, Exchanges, AfterCatalogOf;
  }

  lemma WantMarks(w: Local, r: Local, item: Item, next: Pc)
    requires Takes(w, r, item, next) && (w.pc.SendWant?)
    ensures MarkedBy(w, r, item, next)
  {
    hide WorkPart, CatalogPart, AfterWorkOf, Exchanges, FilesLeft;
  }

  lemma ChunkMarks(w: Local, r: Local, item: Item, next: Pc)
    requires Takes(w, r, item, next) && w.pc.SendChunks?
    ensures MarkedBy(w, r, item, next)
  {
    hide WorkPart, CatalogPart, AfterWorkOf, Exchanges, FilesLeft;
  }

  lemma ReceiptMarks(w: Local, r: Local, item: Item, next: Pc)
    requires Takes(w, r, item, next) && w.pc.SendReceipt?
    ensures MarkedBy(w, r, item, next)
  {
    hide WorkPart, CatalogPart, AfterWorkOf, Exchanges, FilesLeft;
  }

  lemma ControlMarks(w: Local, r: Local, item: Item, next: Pc)
    requires Takes(w, r, item, next) && w.pc.SendControls?
    ensures MarkedBy(w, r, item, next)
  {
    hide WorkPart, CatalogPart, AfterWorkOf, Exchanges, FilesLeft;
  }

  lemma ResultMarks(w: Local, r: Local, item: Item, next: Pc)
    requires Takes(w, r, item, next) && w.pc.SendResults?
    ensures MarkedBy(w, r, item, next)
  {
    hide WorkPart, CatalogPart, AfterWorkOf, Exchanges, FilesLeft;
  }

  lemma OfferMarks(w: Local, r: Local, item: Item, next: Pc)
    requires Takes(w, r, item, next) && (w.pc.SendOffer?)
    ensures MarkedBy(w, r, item, next)
  {
    hide CatalogPart, Exchanges, AfterCatalogOf;
  }

  lemma AckMarks(w: Local, r: Local, item: Item, next: Pc)
    requires Takes(w, r, item, next) && (w.pc.SendAck?)
    ensures MarkedBy(w, r, item, next)
  {
    hide CatalogPart, Exchanges, AfterCatalogOf;
  }

  /** What is written is the first of what was to be marked, or no mark. */
  lemma WrittenIsNext(w: Local, r: Local, item: Item, next: Pc)
    requires Takes(w, r, item, next)
    ensures MarkedBy(w, r, item, next)
  {
    WritersWrite(w, item, next);
    hide Takes, MarkedBy, Read, Writes, Agree, BothInPart, Serves;
    match w.pc
    case SendHello => HelloMarks(w, r, item, next);
    case SendClose => CloseMarks(w, r, item, next);
    case SendHead => HeadMarks(w, r, item, next);
    case SendRequest => HeadMarks(w, r, item, next);
    case SendObjects(_, _) => ObjectMarks(w, r, item, next);
    case SendCatalogAck(_, _) => CatalogAckMarks(w, r, item, next);
    case SendFileOffer(_) => FileOfferMarks(w, r, item, next);
    case SendWant(_, _) => WantMarks(w, r, item, next);
    case SendChunks(_, _, _) => ChunkMarks(w, r, item, next);
    case SendReceipt(_) => ReceiptMarks(w, r, item, next);
    case SendControls => ControlMarks(w, r, item, next);
    case SendResults => ResultMarks(w, r, item, next);
    case SendOffer => OfferMarks(w, r, item, next);
    case SendAck => AckMarks(w, r, item, next);
  }

  /** What holds along a clean run: what was marked and what is still to be marked make up the
      whole session. */
  ghost predicate OnPlan(run: seq<Pair>, i: nat, mode: Mode, caps: set<Capability>)
    requires i < |run|
  {
    var s := run[i];
    && InStep(s) && !s.left.pc.Failed? && !s.right.pc.Failed?
    && s.left.mode == mode && s.left.caps == caps
    && OnlyAgreedParts(s)
    && Marks(Log(run, i), ToMarkAt(s)) == WholeSession(mode, caps)
  }

  ghost predicate OnlyAgreedParts(s: Pair)
    requires InStep(s) && !s.left.pc.Failed? && !s.right.pc.Failed?
  {
    && (Ahead(s, Left) ==> BothInPart(s.left, Digest(s.right, s.toRight).value))
    && (!Ahead(s, Left) ==> BothInPart(s.right, Digest(s.left, s.toLeft).value))
  }

  /** The two views of a state agree when both sides have read everything. */
  lemma EitherView(s: Pair, side: Side)
    requires InStep(s) && !s.left.pc.Failed? && !s.right.pc.Failed? && Ahead(s, side)
    ensures ToMarkAt(s) == ToMarkOf(s.At(side), Digest(s.At(side.Other()), s.To(side.Other())).value)
    ensures !Ahead(s, Left) ==> side == Right
    ensures Ahead(s, Left) && side == Right ==> s.toLeft == [] && s.toRight == []
  {
    hide Read, Bounded, ToMark;
    if side == Right && Ahead(s, Left) {
      OneWrites(s.left, s.right);
    }
  }

  lemma OneWrites(a: Local, b: Local)
    requires Matched(a, b)
    ensures ToMarkOf(a, b) == ToMarkOf(b, a)
  {
    hide ToMark;
    assert !(Writing(a.pc) && Writing(b.pc));
  }

  lemma ReadStepKeepsPlan(s: Pair, t: Pair, side: Side)
    requires InStep(s) && InStep(t) && ReadStep(s, t, side)
    requires !s.left.pc.Failed? && !s.right.pc.Failed? && !t.left.pc.Failed? && !t.right.pc.Failed?
    ensures Ahead(s, side.Other()) && Ahead(t, side.Other())
    ensures Digest(s.At(side), s.To(side)) == Digest(t.At(side), t.To(side)) && t.At(side.Other()) == s.At(side.Other())
    ensures ToMarkAt(t) == ToMarkAt(s)
  {
    hide Read, Bounded, Matched, ToMark;
    assert !Ahead(s, side);
    EitherView(s, side.Other());
    EitherView(t, side.Other());
  }

  lemma WriteStepKeepsPlan(s: Pair, t: Pair, side: Side, item: Item, next: Pc)
    requires InStep(s) && InStep(t) && WriteStep(s, t, side, item, next)
    requires !s.left.pc.Failed? && !s.right.pc.Failed? && !t.left.pc.Failed? && !t.right.pc.Failed?
    requires Ahead(s, side) && Ahead(t, side)
    requires BothInPart(s.At(side), Digest(s.At(side.Other()), s.To(side.Other())).value)
    requires Digest(t.At(side.Other()), t.To(side.Other())) == Read(Digest(s.At(side.Other()), s.To(side.Other())).value, item)
    requires Takes(s.At(side), Digest(s.At(side.Other()), s.To(side.Other())).value, item, next)
    ensures ToMarkAt(s) == MarkThen(s.At(side).initiator, item, ToMarkAt(t))
    ensures BothInPart(t.At(side), Digest(t.At(side.Other()), t.To(side.Other())).value)
  {
    hide Read, Writes, Bounded, Matched, ToMark, Takes, BothInPart, Writing, InStep, Digest;
    var w, r := s.At(side), Digest(s.At(side.Other()), s.To(side.Other())).value;
    hide Ahead;
    EitherView(s, side);
    EitherView(t, side);
    WritersWrite(w, item, next);
    WrittenIsNext(w, r, item, next);
  }

  lemma LogGrows(run: seq<Pair>, i: nat, x: bool, item: Item, rest: Plan)
    requires i + 1 < |run| && WrittenAt(run, i) == Some((x, item))
    ensures Marks(Log(run, i + 1), rest) == Marks(Log(run, i), MarkThen(x, item, rest))
  {
    var log := Log(run, i);
    assert (log + [(x, item)])[..|log|] == log;
  }

  lemma PlanStep(run: seq<Pair>, i: nat, mode: Mode, caps: set<Capability>)
    requires i + 1 < |run| && OnPlan(run, i, mode, caps) && Proceeds(run[i], run[i + 1])
    ensures OnPlan(run, i + 1, mode, caps)
  {
    var s, t := run[i], run[i + 1];
    ProceedKeeps(s, t);
    ProceedShortens(s, t);
    var side :| ProceedsAt(s, t, side);
    if ReadStep(s, t, side) {
      PlanRead(run, i, mode, caps, side);
    } else {
      var item, next :| WriteStep(s, t, side, item, next);
      PlanWrite(run, i, mode, caps, side, item, next);
    }
  }

  lemma PlanRead(run: seq<Pair>, i: nat, mode: Mode, caps: set<Capability>, side: Side)
    requires i + 1 < |run| && OnPlan(run, i, mode, caps) && ReadStep(run[i], run[i + 1], side)
    requires InStep(run[i + 1]) && !run[i + 1].left.pc.Failed? && !run[i + 1].right.pc.Failed?
    ensures OnPlan(run, i + 1, mode, caps)
  {
    var s, t := run[i], run[i + 1];
    ReadStepKeepsPlan(s, t, side);
    SamePart(s, t, side.Other());
    ReadKeepsSession(s.At(side), s.To(side)[0]);
    assert Log(run, i + 1) == Log(run, i) by { hide Read, InStep, OnPlan, Digest; }
    hide Read, Marks, WholeSession, InStep, ToMarkAt, Ahead, OnlyAgreedParts, Digest, WrittenAt;
  }

  lemma ReadKeepsSession(l: Local, item: Item)
    requires Read(l, item).Some?
    ensures Read(l, item).value.mode == l.mode && Read(l, item).value.caps == l.caps && Read(l, item).value.initiator == l.initiator
  {
  }

  /** Being in the agreed parts does not depend on which side is looked from. */
  lemma SamePart(s: Pair, t: Pair, side: Side)
    requires Ahead(s, side) && Ahead(t, side)
    requires s.At(side) == t.At(side) && Digest(s.At(side.Other()), s.To(side.Other())) == Digest(t.At(side.Other()), t.To(side.Other()))
    requires InStep(s) && !s.left.pc.Failed? && !s.right.pc.Failed? && OnlyAgreedParts(s)
    requires InStep(t) && !t.left.pc.Failed? && !t.right.pc.Failed?
    ensures OnlyAgreedParts(t)
  {
    hide Read, InPart, InStep;
    PartAt(s, side);
    PartAnywhere(t, side);
  }

  lemma PartAt(s: Pair, side: Side)
    requires Ahead(s, side)
    requires InStep(s) && !s.left.pc.Failed? && !s.right.pc.Failed? && OnlyAgreedParts(s)
    ensures BothInPart(s.At(side), Digest(s.At(side.Other()), s.To(side.Other())).value)
  {
    hide Read, InPart, Matched;
  }

  lemma PartAnywhere(t: Pair, side: Side)
    requires Ahead(t, side) && BothInPart(t.At(side), Digest(t.At(side.Other()), t.To(side.Other())).value)
    requires InStep(t) && !t.left.pc.Failed? && !t.right.pc.Failed?
    ensures OnlyAgreedParts(t)
  {
    hide Read, InPart, Matched;
  }

  /** What a write needs to know of the other side. */
  lemma WriterTakes(s: Pair, t: Pair, side: Side, item: Item, next: Pc)
    requires InStep(s) && WriteStep(s, t, side, item, next) && !s.left.pc.Failed? && !s.right.pc.Failed?
    ensures Ahead(s, side)
    ensures var r := Digest(s.At(side.Other()), s.To(side.Other())).value;
            && Read(r, item).Some? && Agree(s.At(side), r) && Serves(s.At(side).pc, r.pc)
            && Digest(t.At(side.Other()), t.To(side.Other())) == Read(r, item)
            && Matched(t.At(side), Read(r, item).value)
    ensures Ahead(t, side)
  {
    var w, r, q := s.At(side), s.At(side.Other()), s.To(side.Other());
    WritersWrite(w, item, next);
    hide Read, Writes, Bounded;
    if !Ahead(s, side) { WriterIsAhead(s, side); }
    MatchedStep(w, Digest(r, q).value, item, next);
    WriterServes(w, Digest(r, q).value);
    DigestMore(r, q, item);
  }

  lemma PlanWrite(run: seq<Pair>, i: nat, mode: Mode, caps: set<Capability>, side: Side, item: Item, next: Pc)
    requires i + 1 < |run| && OnPlan(run, i, mode, caps) && WriteStep(run[i], run[i + 1], side, item, next)
    requires InStep(run[i + 1]) && !run[i + 1].left.pc.Failed? && !run[i + 1].right.pc.Failed?
    ensures OnPlan(run, i + 1, mode, caps)
  {
    var s, t := run[i], run[i + 1];
    hide Read, Bounded, ToMark, Marks, InPart, WholeSession, InStep, ToMarkAt, Matched, Serves, Digest;
    WriterTakes(s, t, side, item, next);
    PartAt(s, side);
    hide Writes;
    WriteStepKeepsPlan(s, t, side, item, next);
    PartAnywhere(t, side);
    hide Ahead, Log;
    assert WrittenAt(run, i) == Some((s.At(side).initiator, item));
    LogGrows(run, i, s.At(side).initiator, item, ToMarkAt(t));
  }

  lemma {:induction false} PlanHolds(run: seq<Pair>, i: nat)
    requires CleanRun(run) && i < |run|
    ensures OnPlan(run, i, run[0].left.mode, run[0].left.caps)
    decreases i
  {
    if i == 0 {
      OpeningInStep(run[0]);
      OpeningOnPlan(run);
    } else {
      PlanHolds(run, i - 1);
      assert ProceedsFrom(run, i - 1);
      hide OnPlan, Proceeds;
      PlanStep(run, i - 1, run[0].left.mode, run[0].left.caps);
    }
  }

  lemma OpeningOnPlan(run: seq<Pair>)
    requires run != [] && Opening(run[0]) && InStep(run[0])
    ensures OnPlan(run, 0, run[0].left.mode, run[0].left.caps)
  {
    assert Ahead(run[0], Left);
    hide WholeSession;
  }

  predicate AllMarked(log: seq<(bool, Item)>) {
    forall k :: 0 <= k < |log| ==> MarkOf(log[k].1).Some?
  }

  lemma MoreMarked(log: seq<(bool, Item)>, more: seq<(bool, Item)>)
    requires AllMarked(log) && AllMarked(more)
    ensures AllMarked(log + more)
  {
  }

  lemma CleanStep(run: seq<Pair>, i: nat)
    requires CleanRun(run) && i + 1 < |run|
    ensures Proceeds(run[i], run[i + 1])
  {
    assert ProceedsFrom(run, i);
  }

  /** Everything in a test session is marked. */
  lemma {:induction false} TestLogIsMarked(run: seq<Pair>, i: nat)
    requires CleanRun(run) && i < |run| && run[0].left.mode == Test
    ensures AllMarked(Log(run, i))
    decreases i
  {
    hide CleanRun, Proceeds, WrittenAt, OnPlan, MarkOf;
    if i > 0 {
      TestLogIsMarked(run, i - 1);
      PlanHolds(run, i - 1);
      CleanStep(run, i - 1);
      TestStepIsMarked(run, i - 1, run[0].left.caps);
      var more := if WrittenAt(run, i - 1).Some? then [WrittenAt(run, i - 1).value] else [];
      assert AllMarked(more);
      hide AllMarked;
      MoreMarked(Log(run, i - 1), more);
    }
  }

  lemma TestStepIsMarked(run: seq<Pair>, i: nat, caps: set<Capability>)
    requires i + 1 < |run| && OnPlan(run, i, Test, caps) && Proceeds(run[i], run[i + 1])
    ensures WrittenAt(run, i).Some? ==> MarkOf(WrittenAt(run, i).value.1).Some?
  {
    var s, t := run[i], run[i + 1];
    var side :| ProceedsAt(s, t, side);
    hide Read, Writes, Digest, InStep, ToMarkAt, Marks, Log, Matched, WholeSession, InPart, Bounded;
    if !ReadStep(s, t, side) {
      var item, next :| WriteStep(s, t, side, item, next);
      WriterTakes(s, t, side, item, next);
      PartAt(s, side);
      OneMode(s);
      hide Ahead, OnlyAgreedParts;
      WritersInTest(s.At(side), item, next);
    }
  }

  lemma OneMode(s: Pair)
    requires InStep(s) && !s.left.pc.Failed? && !s.right.pc.Failed?
    ensures s.left.mode == s.right.mode
  {
    var side := if Ahead(s, Left) then Left else Right;
    DigestKeepsMode(s.At(side.Other()), s.To(side.Other()));
  }

  lemma {:induction false} DigestKeepsMode(l: Local, q: seq<Item>)
    requires Digest(l, q).Some?
    ensures Digest(l, q).value.mode == l.mode
    decreases |q|
  {
    if q != [] {
      ReadKeepsSession(l, q[0]);
      DigestKeepsMode(Read(l, q[0]).value, q[1..]);
    }
    hide Read;
  }

  lemma WritersInTest(l: Local, item: Item, next: Pc)
    requires InPart(l) && Writes(l, item, next) && l.mode == Test
    ensures MarkOf(item).Some?
  {
  }

  /** In every clean run that finishes, the frames that begin and end the parts were written
      exactly as agreed: hellos; in poll mode both sides' catalogs if agreed, then both sides'
      controls, offers and files as agreed, the initiator's first; closes. In test mode nothing
      else was written at all. */
  lemma SessionsExchangeWhatIsAgreed(run: seq<Pair>, i: nat)
    requires CleanRun(run) && i < |run| && Finished(run[i])
    ensures Marks(Log(run, i), Nothing) == WholeSession(run[0].left.mode, run[0].left.caps)
    ensures run[0].left.mode == Test ==>
              forall k :: 0 <= k < |Log(run, i)| ==> Log(run, i)[k].1 in {Greeting, Close}
  {
    PlanHolds(run, i);
    NothingLeft(run[i]);
    if run[0].left.mode == Test {
      TestLogIsMarked(run, i);
      OnlyMarks(Log(run, i), WholeSession(Test, run[0].left.caps));
    }
    hide OnPlan, Log, Marks, CleanRun;
  }

  lemma NothingLeft(s: Pair)
    requires InStep(s) && Finished(s)
    ensures ToMarkAt(s) == Nothing
  {
  }

  lemma {:induction false} PlanEnds(log: seq<(bool, Item)>, rest: Plan, k: nat)
    requires k < |log| && MarkOf(log[k].1).Some?
    ensures Holds(Marks(log, rest), MarkOf(log[k].1).value)
    decreases |log|
  {
    var last := |log| - 1;
    if k == last {
      MarksKeep(log[..last], MarkThen(log[last].0, log[last].1, rest), MarkOf(log[k].1).value);
    } else {
      PlanEnds(log[..last], MarkThen(log[last].0, log[last].1, rest), k);
    }
  }

  predicate Holds(plan: Plan, m: Mark) {
    plan.Then? && (plan.mark == m || Holds(plan.rest, m))
  }

  lemma {:induction false} MarksKeep(log: seq<(bool, Item)>, rest: Plan, m: Mark)
    requires Holds(rest, m)
    ensures Holds(Marks(log, rest), m)
    decreases |log|
  {
    if log == [] {
    } else {
      MarksKeep(log[..|log| - 1], MarkThen(log[|log| - 1].0, log[|log| - 1].1, rest), m);
    }
  }

  lemma OnlyMarks(log: seq<(bool, Item)>, plan: Plan)
    requires Marks(log, Nothing) == plan && AllMarked(log)
    requires forall m :: Holds(plan, m) ==> m == AHello || m == AClose
    ensures forall k :: 0 <= k < |log| ==> log[k].1 in {Greeting, Close}
  {
    forall k | 0 <= k < |log|
      ensures log[k].1 in {Greeting, Close}
    {
      PlanEnds(log, Nothing, k);
    }
  }

  /** How often one side wrote a mark. */
  function Times(log: seq<(bool, Item)>, x: bool, m: Mark): nat
    decreases |log|
  {
    if log == [] then 0
    else
      var last := log[|log| - 1];
      Times(log[..|log| - 1], x, m) + (if last.0 == x && MarkOf(last.1) == Some(m) then 1 else 0)
  }

  function TimesIn(plan: Plan, x: bool, m: Mark): nat {
    match plan
    case Nothing => 0
    case Then(y, n, rest) => TimesIn(rest, x, m) + (if y == x && n == m then 1 else 0)
  }

  lemma {:induction false} TimesMarked(log: seq<(bool, Item)>, rest: Plan, x: bool, m: Mark)
    ensures TimesIn(Marks(log, rest), x, m) == Times(log, x, m) + TimesIn(rest, x, m)
    ensures TimesIn(Nothing, x, m) == 0
    decreases |log|
  {
    if log != [] {
      TimesMarked(log[..|log| - 1], MarkThen(log[|log| - 1].0, log[|log| - 1].1, rest), x, m);
    }
  }

  function OnceIf(b: bool): nat { if b then 1 else 0 }

  /** In every clean run that finishes each side wrote one hello and one close; in poll mode one
      offer, and one head, one request, one end of objects, one controls frame, one results frame
      and one end of files exactly when the capability for it is agreed. */
  lemma EachPartOnce(run: seq<Pair>, i: nat, x: bool)
    requires CleanRun(run) && i < |run| && Finished(run[i])
    ensures var log, caps, poll := Log(run, i), run[0].left.caps, run[0].left.mode == Poll;
            && Times(log, x, AHello) == Times(log, x, AClose) == 1
            && Times(log, x, AnOffer) == OnceIf(poll)
            && Times(log, x, AHead) == Times(log, x, ARequest) == Times(log, x, LastObject) == OnceIf(poll && CatalogSync in caps)
            && Times(log, x, AControls) == Times(log, x, AResults) == OnceIf(poll && RemoteDossierControl in caps)
            && Times(log, x, LastFile) == OnceIf(poll && FileDistribution in caps)
  {
    hide CleanRun, Finished, Log, Times;
    forall m: Mark
      ensures Times(Log(run, i), x, m) == Expected(m, run[0].left.mode == Poll, run[0].left.caps)
    {
      TimesAsExpected(run, i, x, m);
    }
  }

  lemma TimesAsExpected(run: seq<Pair>, i: nat, x: bool, m: Mark)
    requires CleanRun(run) && i < |run| && Finished(run[i])
    ensures Times(Log(run, i), x, m) == Expected(m, run[0].left.mode == Poll, run[0].left.caps)
  {
    hide CleanRun, Finished, Marks, Log, Times, TimesIn, WholeSession, Expected;
    SessionsExchangeWhatIsAgreed(run, i);
    TimesMarked(Log(run, i), Nothing, x, m);
    PartTimes(x, m, run[0].left.mode, run[0].left.caps);
  }

  function Expected(m: Mark, poll: bool, caps: set<Capability>): nat {
    match m
    case AHello => 1
    case AClose => 1
    case AnOffer => OnceIf(poll)
    case AControls => OnceIf(poll && RemoteDossierControl in caps)
    case AResults => OnceIf(poll && RemoteDossierControl in caps)
    case LastFile => OnceIf(poll && FileDistribution in caps)
    case _ => OnceIf(poll && CatalogSync in caps)
  }

  lemma PartTimes(x: bool, m: Mark, mode: Mode, caps: set<Capability>)
    ensures TimesIn(WholeSession(mode, caps), x, m) == Expected(m, mode == Poll, caps)
  {
    var work := WorkPart(false, caps, CLOSES);
    var both := WorkPart(true, caps, work);
    ClosesTimes(x, m);
    WorkTimes(false, caps, CLOSES, x, m);
    WorkTimes(true, caps, work, x, m);
    CatalogTimes(true, CatalogPart(false, both), x, m);
    CatalogTimes(false, both, x, m);
    hide WorkPart, CatalogPart, CLOSES;
    var after := Exchanges(mode, caps);
    assert TimesIn(Then(false, AHello, after), x, m) == TimesIn(after, x, m) + OnceIf(!x && m == AHello);
  }

  lemma ClosesTimes(x: bool, m: Mark)
    ensures TimesIn(CLOSES, x, m) == OnceIf(m == AClose)
  {
    assert TimesIn(Then(false, AClose, Nothing), x, m) == OnceIf(!x && m == AClose);
  }

  lemma CatalogTimes(y: bool, rest: Plan, x: bool, m: Mark)
    ensures TimesIn(CatalogPart(y, rest), x, m) == TimesIn(rest, x, m) + OnceIf((x == y && (m == AHead || m == LastObject)) || (x != y && m == ARequest))
  {
    var last := Then(y, LastObject, rest);
    assert TimesIn(last, x, m) == TimesIn(rest, x, m) + OnceIf(x == y && m == LastObject);
    var request := Then(!y, ARequest, last);
    assert TimesIn(request, x, m) == TimesIn(last, x, m) + OnceIf(x != y && m == ARequest);
  }

  lemma WorkTimes(y: bool, caps: set<Capability>, rest: Plan, x: bool, m: Mark)
    ensures TimesIn(WorkPart(y, caps, rest), x, m) == TimesIn(rest, x, m)
              + OnceIf(x == y && m == AnOffer) + OnceIf(x == y && m == LastFile && FileDistribution in caps)
              + OnceIf(x == y && m == AControls && RemoteDossierControl in caps)
              + OnceIf(x != y && m == AResults && RemoteDossierControl in caps)
  {
    var files := FilesPart(y, caps, rest);
    assert TimesIn(files, x, m) == TimesIn(rest, x, m) + OnceIf(x == y && m == LastFile && FileDistribution in caps);
    var offer := Then(y, AnOffer, files);
    assert TimesIn(offer, x, m) == TimesIn(files, x, m) + OnceIf(x == y && m == AnOffer);
    var results := Then(!y, AResults, offer);
    assert TimesIn(results, x, m) == TimesIn(offer, x, m) + OnceIf(x != y && m == AResults);
  }

  ghost predicate AnyStepFrom(run: seq<Pair>, i: nat)
    requires i + 1 < |run|
  {
    Proceeds(run[i], run[i + 1]) || Breaks(run[i], run[i + 1])
  }

  ghost predicate AnyRun(run: seq<Pair>) {
    && run != [] && Opening(run[0])
    && forall k {:trigger AnyStepFrom(run, k)} :: 0 <= k < |run| - 1 ==> AnyStepFrom(run, k)
  }

  /** In every run, failures and losses included, whatever a program finds when it reads is of
      the kind it expects, or the last error of a partner that has failed. */
  lemma {:induction false} RunsStayInStep(run: seq<Pair>, i: nat)
    requires AnyRun(run) && i < |run|
    ensures InStep(run[i])
    ensures forall side :: Waiting(run[i].At(side).pc) && run[i].To(side) != [] ==>
              || Read(run[i].At(side), run[i].To(side)[0]).Some?
              || (run[i].To(side)[0].ErrorFrame? && |run[i].To(side)| == 1 && run[i].At(side.Other()).pc.Failed?)
    decreases i
  {
    hide InStep, Proceeds, Breaks, Read;
    if i == 0 {
      OpeningInStep(run[0]);
    } else {
      RunsStayInStep(run, i - 1);
      assert AnyStepFrom(run, i - 1);
      if Proceeds(run[i - 1], run[i]) {
        ProceedKeeps(run[i - 1], run[i]);
      } else {
        BreakKeeps(run[i - 1], run[i]);
      }
    }
    forall side | Waiting(run[i].At(side).pc) && run[i].To(side) != []
      ensures || Read(run[i].At(side), run[i].To(side)[0]).Some?
              || (run[i].To(side)[0].ErrorFrame? && |run[i].To(side)| == 1 && run[i].At(side.Other()).pc.Failed?)
    {
      ReadsFindTheirFrame(run[i], side);
    }
  }

  /** Once an error was taken for content, the run never settles that content on that side. */
  lemma {:induction false} SwallowedErrorSettlesNothing(run: seq<Pair>, i: nat, j: nat, side: Side)
    requires AnyRun(run) && i < j < |run| && SwallowStep(run[i], run[i + 1], side)
    ensures Adrift(run[j], side) || run[j].At(side).pc.Failed?
    decreases j
  {
    if j == i + 1 {
      RunsStayInStep(run, i);
      SwallowKeeps(run[i], run[j], side);
    } else {
      SwallowedErrorSettlesNothing(run, i, j - 1, side);
      assert AnyStepFrom(run, j - 1);
      if Adrift(run[j - 1], side) {
        AdriftUntilFailure(run[j - 1], run[j], side);
      } else {
        FailedStays(run[j - 1], run[j], side);
      }
    }
  }

  lemma FailedStays(s: Pair, t: Pair, side: Side)
    requires s.At(side).pc.Failed? && (Proceeds(s, t) || Breaks(s, t))
    ensures t.At(side).pc.Failed?
  {
    if Proceeds(s, t) {
      var a :| ProceedsAt(s, t, a);
      if ReadStep(s, t, a) {
        ReadersWait(s.At(a), s.To(a)[0]);
      } else {
        var item, next :| WriteStep(s, t, a, item, next);
        WritersWrite(s.At(a), item, next);
      }
    }
    hide Read, Writes;
  }

  // A run in which it happens: a file of 100 bytes is offered and wanted, then its sender fails.

  lemma GoesOn(run: seq<Pair>, t: Pair)
    requires AnyRun(run) && (Proceeds(run[|run| - 1], t) || Breaks(run[|run| - 1], t))
    ensures AnyRun(run + [t])
  {
    hide Proceeds, Breaks, Opening;
    var longer := run + [t];
    forall k | 0 <= k < |longer| - 1
      ensures AnyStepFrom(longer, k)
    {
      if k < |run| - 1 { assert AnyStepFrom(run, k); }
    }
  }

  lemma WritesOn(run: seq<Pair>, side: Side, item: Item, next: Pc) returns (longer: seq<Pair>)
    requires run != [] && AnyRun(run) && Writes(run[|run| - 1].At(side), item, next)
    ensures AnyRun(longer) && |longer| == |run| + 1
    ensures var s := run[|run| - 1];
            longer[|run|] == s.With(side, s.At(side).To(next)).Queue(side.Other(), s.To(side.Other()) + [item])
  {
    hide Writes, AnyRun;
    var s := run[|run| - 1];
    var t := s.With(side, s.At(side).To(next)).Queue(side.Other(), s.To(side.Other()) + [item]);
    assert WriteStep(s, t, side, item, next) && ProceedsAt(s, t, side) && Proceeds(s, t);
    GoesOn(run, t);
    longer := run + [t];
  }

  lemma ReadsOn(run: seq<Pair>, side: Side) returns (longer: seq<Pair>)
    requires run != [] && AnyRun(run)
    requires var s := run[|run| - 1]; s.To(side) != [] && Read(s.At(side), s.To(side)[0]).Some?
    ensures AnyRun(longer) && |longer| == |run| + 1
    ensures var s := run[|run| - 1];
            longer[|run|] == s.With(side, Read(s.At(side), s.To(side)[0]).value).Queue(side, s.To(side)[1..])
  {
    hide Read, AnyRun;
    var s := run[|run| - 1];
    var t := s.With(side, Read(s.At(side), s.To(side)[0]).value).Queue(side, s.To(side)[1..]);
    assert ReadStep(s, t, side) && ProceedsAt(s, t, side) && Proceeds(s, t);
    GoesOn(run, t);
    longer := run + [t];
  }

  /** A run and its last state, written out. */
  ghost predicate EndsAt(run: seq<Pair>, left: Pc, right: Pc, toLeft: seq<Item>, toRight: seq<Item>) {
    && run != [] && AnyRun(run)
    && run[|run| - 1] == Pair(Local(left, true, Poll, {FileDistribution}), Local(right, false, Poll, {FileDistribution}), toLeft, toRight)
  }

  lemma GreetingIsReached() returns (run: seq<Pair>)
    ensures EndsAt(run, SendOffer, AwaitOffer, [], [])
  {
    hide AnyRun;
    var caps := {FileDistribution};
    var first := Pair(Local(SendHello, true, Poll, caps), Local(AwaitHello, false, Poll, caps), [], []);
    OnlyOpening(first);
    run := [first];
    run := WritesOn(run, Left, Greeting, AwaitHello);
    run := ReadsOn(run, Right);
    assert EndsAt(run, AwaitHello, SendHello, [], []);
    run := WritesOn(run, Right, Greeting, AwaitOffer);
    run := ReadsOn(run, Left);
  }

  lemma OfferIsReached() returns (run: seq<Pair>)
    ensures EndsAt(run, SendFileOffer(0), AwaitFileOffer(0), [], [])
  {
    hide AnyRun;
    run := GreetingIsReached();
    run := WritesOn(run, Left, Offer(false), SendFileOffer(0));
    run := ReadsOn(run, Right);
  }

  lemma WantIsReached() returns (run: seq<Pair>)
    ensures EndsAt(run, AwaitWant(0, 100), SendWant(0, 100), [], [])
  {
    hide AnyRun;
    run := OfferIsReached();
    run := WritesOn(run, Left, FileOffer(100), AwaitWant(0, 100));
    run := ReadsOn(run, Right);
  }

  /** Both sides stand where content is sent. */
  lemma ContentIsReached() returns (run: seq<Pair>)
    ensures EndsAt(run, SendChunks(0, 100, 0), AwaitChunk(0, 100, 0), [], [])
  {
    hide AnyRun;
    run := WantIsReached();
    run := WritesOn(run, Right, Want(Send), AwaitChunk(0, 100, 0));
    run := ReadsOn(run, Left);
  }

  lemma OnlyOpening(s: Pair)
    requires Opening(s)
    ensures AnyRun([s])
  {
  }

  /** The sender fails before its first chunk and says so in 40 bytes; the receiver takes them
      for content. */
  lemma SwallowingHappens() returns (run: seq<Pair>, i: nat)
    ensures AnyRun(run) && i + 1 < |run| && SwallowStep(run[i], run[i + 1], Right)
    ensures run[i + 1].right.pc == AwaitChunk(0, 100, 40)
  {
    hide AnyRun, Proceeds, Breaks;
    run := ContentIsReached();
    var s := run[|run| - 1];
    var t := s.With(Left, s.left.To(Failed)).Queue(Right, [ErrorFrame(40)]);
    FailureBreaks(s, t, Left, Some(40));
    GoesOn(run, t);
    run := run + [t];
    var u := t.With(Right, t.right.To(AwaitChunk(0, 100, 40))).Queue(Right, []);
    assert SwallowStep(t, u, Right);
    SwallowBreaks(t, u, Right);
    GoesOn(run, u);
    i := |run| - 1;
    run := run + [u];
  }

  lemma FailureBreaks(s: Pair, t: Pair, side: Side, told: Option<nat>)
    requires FailStep(s, t, side, told)
    ensures Breaks(s, t)
  {
    assert BreaksAt(s, t, side);
  }

  lemma SwallowBreaks(s: Pair, t: Pair, side: Side)
    requires SwallowStep(s, t, side)
    ensures Breaks(s, t)
  {
    assert BreaksAt(s, t, side);
  }

  // ---------------------------------------------------------------------------
  // From the hellos to the two programs

  /** A side that accepted the other's hello, at its place in the greeting. */
  function Greeted(accepted: Agreement, initiator: bool, mode: Mode): Local {
    Local(if initiator then SendHello else AwaitHello, initiator, mode, accepted.caps)
  }

  /** Two peers that accept each other's hellos run the two agreed programs. */
  lemma NegotiatedPairOpens(a: Hello, b: Hello, nodeA: string, roleA: Role, nodeB: string, roleB: Role)
    requires Negotiated(a, b, nodeB, roleB).Ok? && Negotiated(b, a, nodeA, roleA).Ok?
    ensures Opening(Pair(Greeted(Negotiated(a, b, nodeB, roleB).value, true, a.mode),
                         Greeted(Negotiated(b, a, nodeA, roleA).value, false, b.mode), [], []))
  {
    BothSidesAgree(a, b, nodeA, roleA, nodeB, roleB);
    SameMode(a, b, nodeB, roleB);
    hide Negotiated;
  }

  lemma SameMode(a: Hello, b: Hello, node: string, role: Role)
    requires Negotiated(a, b, node, role).Ok?
    ensures a.mode == b.mode
  {
    hide Tokens.Token;
  }
}
