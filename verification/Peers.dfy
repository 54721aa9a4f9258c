/** The peer object: a store in memory, what was saved of it, and the operations a session
    calls on them. */
module Peers {
  import opened Basics
  import opened Records
  import opened Topology
  import opened Routing
  import opened Negotiation
  import opened Custody
  import opened Imports
  import opened Files
  import Controls
  import Wire

  /** Content that can be vouched for without sending it. */
  predicate HaveContent(caps: Caps, content: Store, p: Publication) {
    FileHashHave in caps && Owned(content, p)
  }

  /** The verdict on announced content: owned, or streamed in and found to be what was announced. */
  predicate Genuine(p: Publication, have: bool, input: Wire.Bytes) {
    have || (p.size >= 0 && var s := Wire.Content(input, p.size, []); s.value.Ok? && Arrived(p, s.value.value))
  }

  /** The answer to an offered publication. */
  ghost function FileAnswer(c: Config, caps: Caps, d: Data, content: Store, obj: Publication, input: Wire.Bytes): Result<FileReceipt>
    requires c.Valid()
  {
    var p :- NormalPublication(obj);
    :- Require(p.network == c.network, WrongNetwork);
    var policy := PathPolicy(c.nodes, c.node, c.peer, p.origin, p.path, None);
    if policy.Fail? then Err(policy.code)
    else if p.id in d.files then
      if d.files[p.id].fingerprint == PublicationFingerprint(p) then Ok(d.files[p.id].receipt) else Err(ConflictingMessage)
    else if p.codename !in c.fileSubscriptions then Err(UnauthorizedCodename)
    else
      SizeIsNatural(obj);
      NewFileAnswer(c, caps, d, content, p, input)
  }

  /** The answer to a new publication that is let in. */
  function NewFileAnswer(c: Config, caps: Caps, d: Data, content: Store, p: Publication, input: Wire.Bytes): Result<FileReceipt>
    requires p.size >= 0
  {
    var have, stream := HaveContent(caps, content, p), Wire.Content(input, p.size, []).value;
    if !have && stream.Err? then Err(stream.code)
    else
      var record := Settled(c.filePolicy, p, Genuine(p, have, input));
      :- Require(Fits(d.(files := d.files[p.id := record])), Error.Custody);
      Ok(record.receipt)
  }

  predicate InStore(caps: Caps, content: Store, p: Publication) {
    FileHashHave in caps && p.sha256 in content && |content[p.sha256]| == p.size
  }

  predicate StreamedWhole(p: Publication, input: Wire.Bytes) {
    p.size >= 0 && Wire.Content(input, p.size, []).value.Ok?
  }

  predicate StreamedAsAnnounced(p: Publication, input: Wire.Bytes) {
    StreamedWhole(p, input)
    && var bytes := Wire.Content(input, p.size, []).value.value;
       |bytes| == p.size && Sha256(bytes) == p.sha256
  }

  lemma NewFileMeaning(c: Config, caps: Caps, d: Data, content: Store, p: Publication, input: Wire.Bytes)
    requires Named(content) && p.size >= 0 && p.id !in d.files
    ensures NewFileAnswer(c, caps, d, content, p, input).Ok? <==>
              && |d.messages| + |d.batches| + |d.controls| + |d.files| + 1 + |d.sent| <= 10000
              && (InStore(caps, content, p) || StreamedWhole(p, input))
    ensures NewFileAnswer(c, caps, d, content, p, input).Ok? ==>
              NewFileAnswer(c, caps, d, content, p, input).value ==
                if InStore(caps, content, p) || StreamedAsAnnounced(p, input) then FileReceipt(p.id, p.sha256, c.filePolicy, LocalPolicy)
                else FileReceipt(p.id, p.sha256, FileOutcome.Rejected, HashMismatch)
  {
    hide Wire.Content;
    OwnedMeaning(content, p);
    hide Owned, Named;
  }

  /** Exactly when an offered publication gets a receipt: it is valid, of this network and came by
      its route; and it is known with the same fingerprint, or new, subscribed, with its content
      in the store or streamed in whole, and there is room for the record. Only content in the
      store or streamed in as announced is settled by the policy. */
  lemma FileAnswerMeaning(c: Config, caps: Caps, d: Data, content: Store, obj: Publication, input: Wire.Bytes)
    requires c.Valid() && Named(content)
    ensures FileAnswer(c, caps, d, content, obj, input).Ok? <==>
              && NormalPublication(obj).Ok?
              && var p := NormalPublication(obj).value;
                 && p.network == c.network && p.origin in c.nodes && p.path != [] && p.path[|p.path| - 1] == c.peer
                 && p.path + [c.node] == Route(c.nodes, p.origin, c.node)
                 && if p.id in d.files then d.files[p.id].fingerprint == Sha256(p.(path := [p.origin]))
                    else
                      && p.codename in c.fileSubscriptions
                      && |d.messages| + |d.batches| + |d.controls| + |d.files| + 1 + |d.sent| <= 10000
                      && (InStore(caps, content, p) || StreamedWhole(p, input))
    ensures FileAnswer(c, caps, d, content, obj, input).Ok? ==>
              var p := NormalPublication(obj).value;
              FileAnswer(c, caps, d, content, obj, input).value ==
                if p.id in d.files then d.files[p.id].receipt
                else if InStore(caps, content, p) || StreamedAsAnnounced(p, input) then FileReceipt(p.id, p.sha256, c.filePolicy, LocalPolicy)
                else FileReceipt(p.id, p.sha256, FileOutcome.Rejected, HashMismatch)
  {
    hide NormalPublication, NewFileAnswer, InStore, StreamedWhole, StreamedAsAnnounced;
    if NormalPublication(obj).Ok? {
      var p := NormalPublication(obj).value;
      SizeIsNatural(obj);
      PolicyMeaning(c.nodes, c.node, c.peer, p.origin, p.path, None);
      if p.id !in d.files { NewFileMeaning(c, caps, d, content, p, input); }
      hide PathPolicy, Tree, Named;
    }
  }

  lemma SizeIsNatural(obj: Publication)
    requires NormalPublication(obj).Ok?
    ensures NormalPublication(obj).value.size >= 0
  {
  }

  class Peer {
    const config: Config
    var data: Data
    var disk: Data
    var content: Store
    var caps: Caps

    /** Memory and disk are both safe stores whose file records the content backs. */
    ghost predicate Valid()
      reads this
    {
      && config.Valid() && Safe(config, data) && FilesKept(data.files, content)
      && Safe(config, disk) && FilesKept(disk.files, content)
    }

    /** A peer started from what was saved. */
    constructor (config: Config, saved: Data, content: Store)
      requires config.Valid() && Safe(config, saved) && FilesKept(saved.files, content)
      ensures Valid() && this.config == config && data == saved && disk == saved && this.content == content && caps == {}
    {
      this.config, data, disk, this.content, caps := config, saved, saved, content, {};
    }

    /** Saving replaces the file and the memory in one step, or leaves both alone. */
    method Save(next: Data) returns (c: Check)
      modifies this`data, this`disk
      ensures c == Require(Fits(next), Error.Custody)
      ensures if c.Pass? then data == next && disk == next else data == old(data) && disk == old(disk)
    {
      if !Fits(next) {
        return Fail(Error.Custody);
      }
      data, disk := next, next;
      return Pass;
    }

    /** A received batch: all of it or none of it, on disk before the acknowledgement exists. */
    method ReceiveBatch(obj: Batch) returns (r: Result<Ack>)
      requires Valid()
      modifies this`data, this`disk
      ensures Valid()
      ensures NormalBatch(obj).Err? ==> r.Err?
      ensures r.Err? ==> data == old(data) && disk == old(disk)
      ensures NormalBatch(obj).Ok? ==>
                var b, result := NormalBatch(obj).value, Import(config, caps, old(data), NormalBatch(obj).value);
                && (r.Ok? <==> result.Some?)
                && (r.Err? ==> Refusal(config, caps, old(data), b, r.code))
                && (r.Ok? ==> && (data, r.value) == result.value && AckValid(r.value, b)
                              && (disk == data || (data == old(data) && disk == old(disk))))
    {
      var normal := NormalBatch(obj);
      if normal.Err? {
        return Err(normal.code);
      }
      var b := normal.value;
      BatchIdempotent(obj);
      SafeIsWellKept(config, data);
      hide NormalBatch, Import, Fits, Refusal, Safe, FilesKept, Config.Valid;
      var result := ImportBatch(config, caps, data, b);
      if result.Err? {
        return Err(result.code);
      }
      var (next, ack) := result.value;
      ImportedIsSafe(config, caps, data, b);
      if next != data {
        data, disk := next, next;
      }
      return Ok(ack);
    }

    static lemma SafeIsWellKept(c: Config, d: Data)
      requires c.Valid() && Safe(c, d)
      ensures WellKept(d.messages)
    {
    }

    static lemma ImportedIsSafe(c: Config, caps: Caps, d: Data, b: Batch)
      requires c.Valid() && Safe(c, d) && NormalBatch(b) == Ok(b) && Import(c, caps, d, b).Some?
      ensures var (next, ack) := Import(c, caps, d, b).value;
              Safe(c, next) && AckValid(ack, b) && next.files == d.files
    {
      NormalBatchIds(b);
      hide NormalBatch;
      ImportKeeps(c, caps, d, b);
      hide Safe, Imports.Acceptable;
    }

    /** A received control request. */
    method ReceiveControl(obj: Control) returns (r: Result<ControlResult>)
      requires Valid()
      modifies this`data, this`disk
      ensures Valid()
      ensures r.Err? ==> data == old(data) && disk == old(disk)
      ensures disk == if data == old(data) then old(disk) else data
      ensures NormalControl(obj).Err? ==> r == Err(NormalControl(obj).code)
      ensures NormalControl(obj).Ok? ==>
                var request := NormalControl(obj).value;
                r == Controls.Answer(config, old(data), request) && data == Controls.Next(config, old(data), request)
    {
      hide NormalControl, Fits;
      var answer, next := Controls.ImportControl(config, data, obj);
      if answer.Ok? && next != data {
        SafeWithoutControls(config, data, next);
        data, disk := next, next;
      }
      return answer;
    }

    static lemma SafeWithoutControls(c: Config, d: Data, next: Data)
      requires c.Valid() && Safe(c, d) && next.messages == d.messages && next.batches == d.batches
      ensures Safe(c, next)
    {
      forall a | a in next.batches
        ensures Backed(next, a)
      {
        assert Backed(d, a);
      }
    }

    /** The sender's side of an acknowledgement: checked, remembered, then saved. The memory
        keeps it even when there is no room to save it. */
    method RecordAck(ack: Ack, offered: Batch) returns (c: Check)
      requires Valid()
      modifies this`data, this`disk
      ensures Valid()
      ensures !AckValid(ack, offered) ==> c == Fail(ConflictingMessage) && data == old(data) && disk == old(disk)
      ensures AckValid(ack, offered) ==>
                && data == old(data).(sent := old(data).sent[SentBatch(Sha256(offered)) := AckSeen(ack)])
                && c == Require(Fits(data), Error.Custody)
                && disk == if c.Pass? then data else old(disk)
    {
      if !AckValid(ack, offered) {
        return Fail(ConflictingMessage);
      }
      var next := data.(sent := data.sent[SentBatch(ack.receipt.artifact) := AckSeen(ack)]);
      SafeWithoutControls(config, data, next);
      data := next;
      c := Save(data);
    }

    /** Obtains announced content: owned content is taken as it is and nothing is read, other
        content is streamed in and placed exactly when it is what was announced. */
    method Obtain(p: Publication, io: Wire.Stream) returns (r: Result<bool>)
      requires Valid() && (io as object) != this && p.size >= 0
      modifies this`content, io`incoming
      ensures Valid()
      ensures forall h :: h in old(content) ==> h in content && content[h] == old(content)[h]
      ensures HaveContent(caps, old(content), p) ==> r == Ok(true) && io.incoming == old(io.incoming) && content == old(content)
      ensures !HaveContent(caps, old(content), p) ==>
                var stream := Wire.Content(old(io.incoming), p.size, []);
                && io.incoming == stream.rest
                && (r.Ok? <==> stream.value.Ok?) && (r.Err? ==> r.code == stream.value.code)
                && (r.Ok? ==> r.value == Arrived(p, stream.value.value) && content == Placed(old(content), p, stream.value.value))
      ensures r.Ok? ==> r.value == Genuine(p, HaveContent(caps, old(content), p), old(io.incoming)) && (r.value ==> Owned(content, p))
    {
      hide Wire.Content, Safe, Config.Valid;
      if FileHashHave in caps && Owned(content, p) {
        return Ok(true);
      }
      var bytes :- io.ReceiveContent(p.size);
      PlacingKeeps(data.files, content, p, bytes);
      content := Placed(content, p, bytes);
      return Ok(Arrived(p, bytes));
    }

    /** One file publication: a known one is answered from its record and changes nothing; a new
        one is obtained and its decision recorded, in memory first. */
    method ReceiveFile(obj: Publication, io: Wire.Stream) returns (r: Result<FileReceipt>)
      requires Valid() && (io as object) != this
      modifies this`data, this`disk, this`content, io`incoming
      ensures Valid()
      ensures r == FileAnswer(config, caps, old(data), old(content), obj, old(io.incoming))
      ensures forall h :: h in old(content) ==> h in content && content[h] == old(content)[h]
      ensures data == old(data).(files := data.files)
      ensures r.Ok? ==> NormalPublication(obj).Ok?
      ensures r.Ok? ==> var p := NormalPublication(obj).value;
                        && p.id in data.files && r.value == data.files[p.id].receipt
                        && data.files[p.id].fingerprint == PublicationFingerprint(p)
                        && PathPolicy(config.nodes, config.node, config.peer, p.origin, p.path, None).Pass?
      ensures r.Ok? && NormalPublication(obj).value.id in old(data).files ==>
                data == old(data) && disk == old(disk) && content == old(content) && io.incoming == old(io.incoming)
      ensures r.Ok? && NormalPublication(obj).value.id !in old(data).files ==>
                var p := NormalPublication(obj).value;
                var valid := Genuine(p, HaveContent(caps, old(content), p), old(io.incoming));
                disk == data && data.files == old(data).files[p.id := Settled(config.filePolicy, p, valid)]
    {
      var normal := NormalPublication(obj);
      if normal.Err? {
        return Err(normal.code);
      }
      var p := normal.value;
      SizeIsNatural(obj);
      assert Tree(config.nodes) && config.peer in config.nodes;
      hide NormalPublication, Safe, Fits, Config.Valid, PathPolicy, FilesKept, Genuine, Settled, PublicationFingerprint, NewFileAnswer, HaveContent;
      if p.network != config.network {
        return Err(WrongNetwork);
      }
      var policy := CheckPath(config.nodes, config.node, config.peer, p.origin, p.path, None);
      if policy.Fail? {
        return Err(policy.code);
      }
      if p.id in data.files {
        if data.files[p.id].fingerprint != PublicationFingerprint(p) {
          return Err(ConflictingMessage);
        }
        return Ok(data.files[p.id].receipt);
      }
      if p.codename !in config.fileSubscriptions {
        return Err(UnauthorizedCodename);
      }
      r := TakeFile(p, io);
    }

    /** A new publication that is let in. */
    method TakeFile(p: Publication, io: Wire.Stream) returns (r: Result<FileReceipt>)
      requires Valid() && (io as object) != this && p.size >= 0 && p.id !in data.files
      modifies this`data, this`disk, this`content, io`incoming
      ensures Valid()
      ensures r == NewFileAnswer(config, caps, old(data), old(content), p, old(io.incoming))
      ensures forall h :: h in old(content) ==> h in content && content[h] == old(content)[h]
      ensures data == old(data).(files := data.files)
      ensures r.Ok? ==>
                var record := Settled(config.filePolicy, p, Genuine(p, HaveContent(caps, old(content), p), old(io.incoming)));
                && disk == data && data.files == old(data).files[p.id := record] && r.value == record.receipt
                && record.fingerprint == PublicationFingerprint(p)
    {
      hide Safe, Fits, Config.Valid, FilesKept, Owned, Wire.Content, Arrived, Placed;
      var valid :- Obtain(p, io);
      r := Settle(p, valid);
    }

    /** The decision is recorded in memory, then saved if there is room. */
    method Settle(p: Publication, valid: bool) returns (r: Result<FileReceipt>)
      requires Valid() && (valid ==> Owned(content, p))
      modifies this`data, this`disk
      ensures Valid()
      ensures data == old(data).(files := old(data).files[p.id := Settled(config.filePolicy, p, valid)])
      ensures r == if Fits(data) then Ok(data.files[p.id].receipt) else Err(Error.Custody)
      ensures disk == if r.Ok? then data else old(disk)
    {
      SettlingKeeps(data.files, content, config.filePolicy, p, valid);
      hide Fits, Safe, FilesKept, Config.Valid;
      var next := data.(files := data.files[p.id := Settled(config.filePolicy, p, valid)]);
      SafeWithoutControls(config, data, next);
      data := next;
      if !Fits(data) {
        return Err(Error.Custody);
      }
      disk := data;
      return Ok(data.files[p.id].receipt);
    }
  }

  /** Remembered results of so many control requests. */
  function Remembered(n: nat, result: ControlResult): (sent: map<SentKey, SentValue>)
    ensures |sent| == n
    ensures forall key :: key in sent ==> key.SentControl? && |key.id| < n
  {
    if n == 0 then map[]
    else Remembered(n - 1, result)[SentControl(seq(n - 1, i requires 0 <= i < n - 1 => 'x')) := ResultSeen(result)]
  }

  /** Memory and disk part on a full store: with 10000 records saved, a valid acknowledgement is
      remembered and cannot be saved. */
  method AcknowledgedInMemoryOnly(config: Config, b: Batch, content: Store, result: ControlResult) returns (p: Peer, c: Check)
    requires config.Valid() && Named(content) && NormalBatch(b) == Ok(b)
    ensures fresh(p) && p.Valid() && c == Fail(Error.Custody) && RecordCount(p.disk) == MOST_RECORDS
    ensures SentBatch(Sha256(b)) in p.data.sent && SentBatch(Sha256(b)) !in p.disk.sent
  {
    var full := EMPTY.(sent := Remembered(MOST_RECORDS, result));
    EmptyIsSafe(config);
    Peer.SafeWithoutControls(config, EMPTY, full);
    NormalBatchIds(b);
    hide NormalBatch, Safe, Config.Valid;
    p := new Peer(config, full, content);
    c := p.RecordAck(Ack(ReceiptOf(b), |b.messages|, 0), b);
  }
}
