/** Subscription controls: each request takes effect once, whatever is repeated. */
module Controls {
  import opened Basics
  import opened Records
  import opened Custody
  import Catalog

  predicate CodenameKnown(c: Config, d: Data, code: string) {
    code in c.receive && EntryFor(c.pin, d.catalogs, code, None, true).Ok?
  }

  /** The outcome of a request whose identity is new. */
  function Decide(c: Config, d: Data, r: Control): Outcome {
    if r.network != c.network || r.requester != c.peer || r.target != c.node || !c.IsChild() then Unauthorized
    else if r.codename.Some? && !CodenameKnown(c, d, r.codename.value) then UnknownCodename
    else if !c.autoApprove && !r.operation.QuerySubscriptions? then Denied
    else
      match r.operation
      case Subscribe => if r.codename.Some? && r.codename.value in d.subscriptions then AlreadySubscribed else Applied
      case Unsubscribe => if r.codename.Some? && r.codename.value in d.subscriptions then Applied else AlreadyUnsubscribed
      case QuerySubscriptions => Applied
  }

  function Resubscribed(subs: set<string>, r: Control, outcome: Outcome): set<string> {
    if !outcome.Applied? || r.codename.None? then subs
    else if r.operation.Subscribe? then subs + {r.codename.value} else subs - {r.codename.value}
  }

  function ResultOf(r: Control, outcome: Outcome, subscriptions: set<string>): ControlResult {
    ControlResult(r.network, r.id, Sha256(r), r.requester, r.target, outcome, subscriptions)
  }

  /** The store with a first answer recorded. */
  function Recorded(c: Config, d: Data, r: Control): Data {
    var outcome := Decide(c, d, r);
    var subs := Resubscribed(d.subscriptions, r, outcome);
    var shown := if r.operation.QuerySubscriptions? && outcome.Applied? then subs else {};
    d.(controls := d.controls[r.id := ResultOf(r, outcome, shown)], subscriptions := subs)
  }

  /** The answer to a normalised request. */
  function Answer(c: Config, d: Data, r: Control): Result<ControlResult> {
    if r.id in d.controls then
      Ok(if d.controls[r.id].fingerprint == Sha256(r) then d.controls[r.id] else ResultOf(r, ReplayConflict, {}))
    else if Fits(Recorded(c, d, r)) then Ok(Recorded(c, d, r).controls[r.id])
    else Err(Error.Custody)
  }

  /** The store afterwards; a repeat, or a request there is no room for, changes nothing. */
  function Next(c: Config, d: Data, r: Control): Data {
    if r.id !in d.controls && Fits(Recorded(c, d, r)) then Recorded(c, d, r) else d
  }

  lemma QueriesNameNothing(obj: Control)
    requires NormalControl(obj).Ok?
    ensures var r := NormalControl(obj).value; r.operation.QuerySubscriptions? <==> r.codename.None?
  {
  }

  /** The checks in order, then the operation on a copy of the subscriptions. */
  method Operate(c: Config, d: Data, r: Control) returns (outcome: Outcome, subs: set<string>)
    requires r.operation.QuerySubscriptions? <==> r.codename.None?
    ensures outcome == Decide(c, d, r) && subs == Resubscribed(d.subscriptions, r, outcome)
  {
    hide EntryFor;
    subs := d.subscriptions;
    if r.network != c.network || r.requester != c.peer || r.target != c.node || !c.IsChild() {
      return Unauthorized, subs;
    }
    if r.codename.Some? {
      if r.codename.value !in c.receive {
        return UnknownCodename, subs;
      }
      if EntryFor(c.pin, d.catalogs, r.codename.value, None, true).Err? {
        return UnknownCodename, subs;
      }
    }
    if !c.autoApprove && !r.operation.QuerySubscriptions? {
      return Denied, subs;
    }
    if r.operation.Subscribe? {
      outcome := if r.codename.value in subs then AlreadySubscribed else Applied;
      subs := subs + {r.codename.value};
    } else if r.operation.Unsubscribe? {
      outcome := if r.codename.value !in subs then AlreadyUnsubscribed else Applied;
      subs := subs - {r.codename.value};
    } else {
      outcome := Applied;
    }
  }

  /** The import as it runs on the store: answer a repeat, or decide, record on a copy and save. */
  method ImportControl(c: Config, d: Data, obj: Control) returns (answer: Result<ControlResult>, next: Data)
    ensures NormalControl(obj).Err? ==> answer == Err(NormalControl(obj).code) && next == d
    ensures NormalControl(obj).Ok? ==>
              answer == Answer(c, d, NormalControl(obj).value) && next == Next(c, d, NormalControl(obj).value)
  {
    hide NormalControl, Decide, Resubscribed, Fits;
    next := d;
    var normal := NormalControl(obj);
    if normal.Err? {
      return Err(normal.code), d;
    }
    var r := normal.value;
    if r.id in d.controls {
      answer := Ok(if d.controls[r.id].fingerprint == Sha256(r) then d.controls[r.id] else ResultOf(r, ReplayConflict, {}));
      return;
    }
    QueriesNameNothing(obj);
    var outcome, subs := Operate(c, d, r);
    var shown := if r.operation.QuerySubscriptions? && outcome.Applied? then subs else {};
    var copy := d.(controls := d.controls[r.id := ResultOf(r, outcome, shown)], subscriptions := subs);
    if !Fits(copy) {
      return Err(Error.Custody), d;
    }
    return Ok(copy.controls[r.id]), copy;
  }

  /** Only a child's own request, for a known codename and under an approving policy unless it
      merely asks, is ever applied; and every other request leaves the subscriptions alone. */
  lemma AppliedIsAuthorised(c: Config, d: Data, r: Control)
    requires r.operation.QuerySubscriptions? <==> r.codename.None?
    ensures Decide(c, d, r).Applied? <==>
              && r.network == c.network && r.requester == c.peer && r.target == c.node && c.IsChild()
              && (r.codename.Some? ==> CodenameKnown(c, d, r.codename.value) && c.autoApprove)
              && (r.operation.Subscribe? ==> r.codename.value !in d.subscriptions)
              && (r.operation.Unsubscribe? ==> r.codename.value in d.subscriptions)
    ensures !Decide(c, d, r).Applied? ==> Next(c, d, r).subscriptions == d.subscriptions
    ensures forall code :: (code in Next(c, d, r).subscriptions <==> code in d.subscriptions) || r.codename == Some(code)
  {
    hide CodenameKnown, Fits;
  }

  // What a request is answered, over the entries of the current catalog.

  ghost predicate Subscribable(c: Config, d: Data, code: string) {
    code in c.receive &&
    (c.pin == None || exists i :: 0 <= i < |Latest(d.catalogs)| && Latest(d.catalogs)[i].codename == code && Latest(d.catalogs)[i].status == Catalog.Active)
  }

  predicate OwnRequest(c: Config, r: Control) {
    && r.network == c.network && r.requester == c.peer && r.target == c.node
    && c.peer in c.nodes && c.nodes[c.peer].parent == Some(c.node)
  }

  /** Exactly when a new request gets which outcome. */
  lemma OutcomeMeaning(c: Config, d: Data, r: Control)
    requires r.operation == QuerySubscriptions <==> r.codename == None
    requires c.pin != None ==> LiveDiffer(Latest(d.catalogs))
    ensures Decide(c, d, r) == Unauthorized <==> !OwnRequest(c, r)
    ensures Decide(c, d, r) == UnknownCodename <==> OwnRequest(c, r) && r.codename != None && !Subscribable(c, d, r.codename.value)
    ensures Decide(c, d, r) == Denied <==>
              OwnRequest(c, r) && r.codename != None && Subscribable(c, d, r.codename.value) && !c.autoApprove
    ensures Decide(c, d, r) == AlreadySubscribed <==>
              OwnRequest(c, r) && r.operation == Subscribe && Subscribable(c, d, r.codename.value) && c.autoApprove
              && r.codename.value in d.subscriptions
    ensures Decide(c, d, r) == AlreadyUnsubscribed <==>
              OwnRequest(c, r) && r.operation == Unsubscribe && Subscribable(c, d, r.codename.value) && c.autoApprove
              && r.codename.value !in d.subscriptions
    ensures Decide(c, d, r) in {Unauthorized, UnknownCodename, Denied, AlreadySubscribed, AlreadyUnsubscribed, Applied}
  {
    if c.pin != None && r.codename != None {
      ActiveMeaning(c.pin.value, d.catalogs, r.codename.value);
      hide EntryFor;
    }
  }

  /** The answer to a new request and the whole store it leaves, if there is room: the record has
      the request's fields and outcome, and the subscriptions only if they were asked for; an
      applied change adds or removes its codename. */
  lemma FirstAnswerMeaning(c: Config, d: Data, r: Control)
    requires r.id !in d.controls && (r.operation == QuerySubscriptions <==> r.codename == None)
    ensures var room := |d.messages| + |d.batches| + |d.controls| + 1 + |d.files| + |d.sent| <= 10000;
            var outcome := Decide(c, d, r);
            var record := ControlResult(r.network, r.id, Sha256(r), r.requester, r.target, outcome,
                                        if r.operation == QuerySubscriptions && outcome == Applied then d.subscriptions else {});
            && Answer(c, d, r) == (if room then Ok(record) else Err(Error.Custody))
            && Next(c, d, r) ==
                 (if !room then d
                  else d.(controls := d.controls[r.id := record],
                          subscriptions := if outcome != Applied || r.operation == QuerySubscriptions then d.subscriptions
                                           else if r.operation == Subscribe then d.subscriptions + {r.codename.value}
                                           else d.subscriptions - {r.codename.value}))
  {
    hide Decide;
  }

  /** A repeat gets its record, a different request under a known identity a conflict; neither
      changes anything. */
  lemma RepeatMeaning(c: Config, d: Data, r: Control)
    requires r.id in d.controls
    ensures Next(c, d, r) == d
    ensures Answer(c, d, r) ==
              Ok(if d.controls[r.id].fingerprint == Sha256(r) then d.controls[r.id]
                 else ControlResult(r.network, r.id, Sha256(r), r.requester, r.target, ReplayConflict, {}))
  {
  }

  // ---------------------------------------------------------------------------
  // Logs of requests, each with the configuration in force when it arrives

  datatype Arrival = Arrival(config: Config, request: Control)

  function Run(d: Data, log: seq<Arrival>): Data {
    if log == [] then d
    else
      var last := log[|log| - 1];
      Next(last.config, Run(d, log[..|log| - 1]), last.request)
  }

  ghost predicate Mentions(log: seq<Arrival>, id: string) {
    exists i :: 0 <= i < |log| && log[i].request.id == id
  }

  /** The log without later repeats of an identity. */
  ghost function WithoutRepeats(log: seq<Arrival>): seq<Arrival> {
    if log == [] then []
    else
      var front, last := log[..|log| - 1], log[|log| - 1];
      WithoutRepeats(front) + (if Mentions(front, last.request.id) then [] else [last])
  }

  predicate Full(d: Data) {
    RecordCount(d) >= MOST_RECORDS
  }

  lemma OneMoreRecord(c: Config, d: Data, r: Control)
    requires r.id !in d.controls
    ensures RecordCount(Recorded(c, d, r)) == RecordCount(d) + 1
    ensures Fits(Recorded(c, d, r)) <==> !Full(d)
  {
  }

  /** A request seen before is on record, or there was and is no room for it. */
  lemma {:induction false} SeenOrFull(d: Data, log: seq<Arrival>, id: string)
    requires Mentions(log, id)
    ensures id in Run(d, log).controls || Full(Run(d, log))
    decreases |log|
  {
    var front, last := log[..|log| - 1], log[|log| - 1];
    var before := Run(d, front);
    if last.request.id !in before.controls {
      OneMoreRecord(last.config, before, last.request);
    }
    if last.request.id != id {
      var i :| 0 <= i < |log| && log[i].request.id == id;
      assert front[i].request.id == id;
      SeenOrFull(d, front, id);
    }
  }

  /** Replays, conflicting or not, have no effect: the final store is that of the log
      without them. */
  lemma {:induction false} RepeatsHaveNoEffect(d: Data, log: seq<Arrival>)
    ensures Run(d, log) == Run(d, WithoutRepeats(log))
    decreases |log|
  {
    if log == [] {
    } else {
      var front, last := log[..|log| - 1], log[|log| - 1];
      RepeatsHaveNoEffect(d, front);
      var kept := WithoutRepeats(front);
      if Mentions(front, last.request.id) {
        assert WithoutRepeats(log) == kept;
        SeenOrFull(d, front, last.request.id);
        if last.request.id !in Run(d, front).controls {
          OneMoreRecord(last.config, Run(d, front), last.request);
        }
      } else {
        assert (kept + [last])[..|kept|] == kept;
      }
    }
  }

  ghost function AnswerAt(d: Data, log: seq<Arrival>, i: nat): Result<ControlResult>
    requires i < |log|
  {
    Answer(log[i].config, Run(d, log[..i]), log[i].request)
  }

  /** Records never change and room never comes back. */
  lemma {:induction false} RecordsStand(d: Data, log: seq<Arrival>, i: nat)
    requires i <= |log|
    ensures var early, late := Run(d, log[..i]), Run(d, log);
            && (forall id :: id in early.controls ==> id in late.controls && late.controls[id] == early.controls[id])
            && (Full(early) ==> late == early)
    decreases |log|
  {
    if i == |log| {
      assert log[..i] == log;
    } else {
      var front, last := log[..|log| - 1], log[|log| - 1];
      RecordsStand(d, front, i);
      assert front[..i] == log[..i];
      if last.request.id !in Run(d, front).controls {
        OneMoreRecord(last.config, Run(d, front), last.request);
      }
    }
  }

  /** Equal requests get equal answers, whatever arrives or is reconfigured in between. */
  lemma EqualRequestsEqualAnswers(d: Data, log: seq<Arrival>, i: nat, j: nat)
    requires i <= j < |log| && log[i].request == log[j].request
    ensures AnswerAt(d, log, i) == AnswerAt(d, log, j)
  {
    hide Decide, Fits, RecordCount;
    if i < j {
      var r := log[i].request;
      var before, after := Run(d, log[..i]), Run(d, log[..i + 1]);
      assert log[..i + 1][..i] == log[..i];
      assert log[..j][..i + 1] == log[..i + 1] && log[..j][..i] == log[..i];
      RecordsStand(d, log[..j], i);
      RecordsStand(d, log[..j], i + 1);
      if r.id !in before.controls {
        OneMoreRecord(log[i].config, before, r);
        if Full(before) {
          OneMoreRecord(log[j].config, before, r);
        } else {
          assert after.controls[r.id].fingerprint == Sha256(r);
        }
      }
    }
  }

  /** The applied subscribes and unsubscribes of a codename, first answers only. */
  ghost function Changes(d: Data, log: seq<Arrival>, code: string): seq<Operation> {
    if log == [] then []
    else
      var front, last := log[..|log| - 1], log[|log| - 1];
      var before := Run(d, front);
      var r := last.request;
      Changes(d, front, code) +
      (if r.codename == Some(code) && r.id !in before.controls && !Full(before)
          && Decide(last.config, before, r).Applied? then [r.operation] else [])
  }

  /** One request: an applied change of a codename flips it, and nothing else touches it. */
  lemma ChangeFlips(c: Config, d: Data, r: Control, code: string)
    requires r.operation.QuerySubscriptions? <==> r.codename.None?
    ensures var changed := r.codename == Some(code) && r.id !in d.controls && !Full(d) && Decide(c, d, r).Applied?;
            && (changed ==> !r.operation.QuerySubscriptions? && (r.operation.Subscribe? <==> code !in d.subscriptions))
            && (code in Next(c, d, r).subscriptions <==> if changed then r.operation.Subscribe? else code in d.subscriptions)
  {
    hide CodenameKnown, Fits, RecordCount;
    if r.id !in d.controls {
      OneMoreRecord(c, d, r);
    }
  }

  /** Applied changes of a codename strictly alternate, beginning with the one that differs from
      the initial state, and the last one tells the final state. */
  lemma {:induction false} ChangesAlternate(d: Data, log: seq<Arrival>, code: string)
    requires forall i :: 0 <= i < |log| ==> (log[i].request.operation.QuerySubscriptions? <==> log[i].request.codename.None?)
    ensures var ops := Changes(d, log, code);
            && (forall k :: 0 <= k < |ops| ==> !ops[k].QuerySubscriptions?)
            && (forall k :: 0 <= k < |ops| - 1 ==> ops[k] != ops[k + 1])
            && (ops != [] ==> (ops[0].Subscribe? <==> code !in d.subscriptions))
            && (code in Run(d, log).subscriptions <==>
                if ops == [] then code in d.subscriptions else ops[|ops| - 1].Subscribe?)
    decreases |log|
  {
    hide Next, Decide;
    if log == [] {
    } else {
      var front, last := log[..|log| - 1], log[|log| - 1];
      assert forall i :: 0 <= i < |front| ==> front[i] == log[i];
      ChangesAlternate(d, front, code);
      ChangeFlips(last.config, Run(d, front), last.request, code);
    }
  }
}
