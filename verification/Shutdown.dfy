/** Shutdown admission against the event scheduler: operator commands, the draining runner
    and the scheduler interleave around one transition lock and one work counter. */
module Shutdown {
  import opened Basics

  datatype Phase = Running | Requested | Draining | Complete | Failed

  datatype Activity = Idle | Downloading | Uploading | OtherActivity(name: string)
  datatype PageState = Pending | Invited | Chatting
  type Page = Option<(nat, PageState)>

  datatype Node = Node(id: nat, session: Option<nat>, occupancy: Option<nat>, activity: Activity, file: Option<string>)

  /** A node of one snapshot with its interaction read twice: once for the counts, once for the
      consequences. Interactions change without the transition lock. */
  datatype Seen = Seen(node: Node, first: Page, second: Page)

  datatype Impact = Impact(callers: nat, transfers: nat, chats: nat, interactions: nat)
  datatype Consequence = Consequence(node: nat, session: nat, occupancy: nat, activity: Activity,
                                     file: Option<string>, interaction: Page)

  datatype Preflight = Preflight(owner: string, command: string, created: nat, impact: Impact, consequence: seq<Consequence>)

  /** What the transition lock guards. */
  datatype Control = Control(phase: Phase, origin: Option<(string, string)>, preflights: map<string, Preflight>)

  const TTL := 30
  const MOST_PREFLIGHTS := 128

  // ---------------------------------------------------------------------------
  // What a shutdown would do to the callers

  datatype Measure = Callers | Transfers | Chats | Interactions

  predicate Counted(activity: Activity, interaction: Page, m: Measure) {
    match m
    case Callers => true
    case Transfers => activity.Downloading? || activity.Uploading?
    case Chats => interaction.Some? && interaction.value.1.Chatting?
    case Interactions => interaction.Some?
  }

  /** One for a caller that counts under a measure with this reading. */
  function Share(n: Node, page: Page, m: Measure): nat {
    if n.session.Some? && Counted(n.activity, page, m) then 1 else 0
  }

  /** The count over the first readings. */
  function Count(seen: seq<Seen>, m: Measure): nat {
    if seen == [] then 0
    else
      var n := seen[|seen| - 1];
      Count(seen[..|seen| - 1], m) + Share(n.node, n.first, m)
  }

  function ImpactOf(seen: seq<Seen>): Impact {
    Impact(Count(seen, Callers), Count(seen, Transfers), Count(seen, Chats), Count(seen, Interactions))
  }

  /** The consequences with the second readings. */
  function ConsequencesOf(seen: seq<Seen>): seq<Consequence> {
    if seen == [] then []
    else
      var n := seen[|seen| - 1];
      ConsequencesOf(seen[..|seen| - 1]) + ConsequenceOf(n.node, n.second)
  }

  /** What an active node stands to lose; nothing for an idle one. */
  function ConsequenceOf(n: Node, page: Page): seq<Consequence> {
    if n.session.None? then []
    else [Consequence(n.id, n.session.value, if n.occupancy.Some? then n.occupancy.value else 0, n.activity, n.file, page)]
  }

  /** One pass over the active nodes, counting. */
  method CountImpact(seen: seq<Seen>) returns (value: Impact)
    ensures value == ImpactOf(seen)
  {
    value := Impact(0, 0, 0, 0);
    for k := 0 to |seen|
      invariant value == ImpactOf(seen[..k])
    {
      var n := seen[k];
      assert seen[..k + 1][..k] == seen[..k];
      if n.node.session.Some? {
        value := value.(callers := value.callers + 1);
        if n.node.activity.Downloading? || n.node.activity.Uploading? {
          value := value.(transfers := value.transfers + 1);
        }
        if n.first.Some? {
          value := value.(interactions := value.interactions + 1);
          if n.first.value.1.Chatting? {
            value := value.(chats := value.chats + 1);
          }
        }
      }
    }
    assert seen[..|seen|] == seen;
  }

  function Tally(cs: seq<Consequence>, m: Measure): nat {
    if cs == [] then 0
    else
      var c := cs[|cs| - 1];
      Tally(cs[..|cs| - 1], m) + (if Counted(c.activity, c.interaction, m) then 1 else 0)
  }

  /** How far the first readings of a pass count more than its second ones. */
  function Drift(seen: seq<Seen>, m: Measure): int {
    if seen == [] then 0
    else
      var n := seen[|seen| - 1];
      Drift(seen[..|seen| - 1], m) + Share(n.node, n.first, m) - Share(n.node, n.second, m)
  }

  /** The nodes of a pass that have a session and pass a test. */
  ghost function Those(seen: seq<Seen>, test: Seen -> bool): set<int> {
    set i | 0 <= i < |seen| && seen[i].node.session.Some? && test(seen[i])
  }

  lemma {:induction false} CountIsSize(seen: seq<Seen>, m: Measure)
    ensures Count(seen, m) == |Those(seen, (n: Seen) => Counted(n.node.activity, n.first, m))|
    decreases |seen|
  {
    var test := (n: Seen) => Counted(n.node.activity, n.first, m);
    if seen == [] {
      assert Those(seen, test) == {};
    } else {
      var last := |seen| - 1;
      CountIsSize(seen[..last], m);
      hide Counted;
      assert Those(seen, test) == Those(seen[..last], test) + (if Share(seen[last].node, seen[last].first, m) == 1 then {last} else {});
    }
  }

  lemma TestsAlike(seen: seq<Seen>, a: Seen -> bool, b: Seen -> bool)
    requires forall n :: a(n) == b(n)
    ensures Those(seen, a) == Those(seen, b)
  {
  }

  /** The impact counts, by each caller's first reading: callers; those down- or uploading; those
      in a chat; those with any interaction. */
  lemma ImpactMeaning(seen: seq<Seen>)
    ensures ImpactOf(seen).callers == |Those(seen, (n: Seen) => true)|
    ensures ImpactOf(seen).transfers == |Those(seen, (n: Seen) => n.node.activity == Downloading || n.node.activity == Uploading)|
    ensures ImpactOf(seen).chats == |Those(seen, (n: Seen) => n.first.Some? && n.first.value.1 == Chatting)|
    ensures ImpactOf(seen).interactions == |Those(seen, (n: Seen) => n.first.Some?)|
  {
    forall m: Measure
      ensures Count(seen, m) == |Those(seen, (n: Seen) => Counted(n.node.activity, n.first, m))|
    {
      CountIsSize(seen, m);
    }
    TestsAlike(seen, (n: Seen) => Counted(n.node.activity, n.first, Callers), (n: Seen) => true);
    TestsAlike(seen, (n: Seen) => Counted(n.node.activity, n.first, Transfers), (n: Seen) => n.node.activity == Downloading || n.node.activity == Uploading);
    TestsAlike(seen, (n: Seen) => Counted(n.node.activity, n.first, Chats), (n: Seen) => n.first.Some? && n.first.value.1 == Chatting);
    TestsAlike(seen, (n: Seen) => Counted(n.node.activity, n.first, Interactions), (n: Seen) => n.first.Some?);
  }

  /** The consequences list the nodes with a session and no others, in order, each with its
      session, its occupancy or 0, its activity and file, and its second reading. */
  lemma {:induction false} ConsequencesMeaning(seen: seq<Seen>, i: nat)
    requires i < |seen|
    ensures |ConsequencesOf(seen)| == |Those(seen, (n: Seen) => true)|
    ensures var n, before := seen[i], |Those(seen[..i], (n: Seen) => true)|;
            n.node.session.Some? ==>
              && before < |ConsequencesOf(seen)|
              && var c := ConsequencesOf(seen)[before];
                 && c.node == n.node.id && c.session == n.node.session.value
                 && (n.node.occupancy.Some? ==> c.occupancy == n.node.occupancy.value)
                 && (n.node.occupancy.None? ==> c.occupancy == 0)
                 && c.activity == n.node.activity && c.file == n.node.file && c.interaction == n.second
    decreases |seen|
  {
    var last := |seen| - 1;
    var front := seen[..last];
    ConsequencesCounted(seen);
    ConsequencesCounted(front);
    if i < last {
      ConsequencesMeaning(front, i);
      assert front[..i] == seen[..i];
    }
  }

  lemma {:induction false} ConsequencesCounted(seen: seq<Seen>)
    ensures |ConsequencesOf(seen)| == |Those(seen, (n: Seen) => true)|
    decreases |seen|
  {
    if seen == [] {
      assert Those(seen, (n: Seen) => true) == {};
    } else {
      var last := |seen| - 1;
      ConsequencesCounted(seen[..last]);
      var old_ := Those(seen[..last], (n: Seen) => true);
      assert Those(seen, (n: Seen) => true) == old_ + (if seen[last].node.session.Some? then {last} else {});
    }
  }

  /** No caller's interaction changed between the two readings of a pass. */
  predicate ReadingsAgree(seen: seq<Seen>) {
    forall i :: 0 <= i < |seen| && seen[i].node.session.Some? ==> seen[i].first == seen[i].second
  }

  lemma OneMoreTallied(cs: seq<Consequence>, n: Node, page: Page, m: Measure)
    ensures Tally(cs + ConsequenceOf(n, page), m) == Tally(cs, m) + Share(n, page, m)
  {
    if n.session.Some? {
      assert (cs + ConsequenceOf(n, page))[..|cs|] == cs;
    } else {
      assert cs + ConsequenceOf(n, page) == cs;
    }
  }

  /** A count is the number of recorded consequences of its kind, up to what changed between
      the two readings. */
  lemma {:induction false} CountIsTally(x: seq<Seen>, m: Measure)
    ensures Count(x, m) == Tally(ConsequencesOf(x), m) + Drift(x, m)
    decreases |x|
  {
    if x == [] {
    } else {
      var n := x[|x| - 1];
      CountIsTally(x[..|x| - 1], m);
      OneMoreTallied(ConsequencesOf(x[..|x| - 1]), n.node, n.second, m);
      hide Tally, Share, ConsequenceOf;
    }
  }

  /** Callers and transfers never drift, and nothing does when the readings agree. */
  lemma {:induction false} NoDrift(x: seq<Seen>, m: Measure)
    requires m.Callers? || m.Transfers? || ReadingsAgree(x)
    ensures Drift(x, m) == 0
    decreases |x|
  {
    if x == [] {
    } else {
      NoDrift(x[..|x| - 1], m);
    }
  }

  /** With equal consequences the counts differ exactly when the interactions that came or went,
      or turned into chats, between the readings of the one pass do not balance those of the
      other. */
  lemma CountsDecideExactlyByDrift(x: seq<Seen>, y: seq<Seen>)
    requires ConsequencesOf(x) == ConsequencesOf(y)
    ensures ImpactOf(x) == ImpactOf(y) <==> Drift(x, Chats) == Drift(y, Chats) && Drift(x, Interactions) == Drift(y, Interactions)
    ensures ReadingsAgree(x) && ReadingsAgree(y) ==> ImpactOf(x) == ImpactOf(y)
  {
    forall m: Measure
      ensures Count(x, m) - Drift(x, m) == Count(y, m) - Drift(y, m)
      ensures m.Callers? || m.Transfers? || ReadingsAgree(x) ==> Drift(x, m) == 0
      ensures m.Callers? || m.Transfers? || ReadingsAgree(y) ==> Drift(y, m) == 0
    {
      CountIsTally(x, m);
      CountIsTally(y, m);
      if m.Callers? || m.Transfers? || ReadingsAgree(x) { NoDrift(x, m); }
      if m.Callers? || m.Transfers? || ReadingsAgree(y) { NoDrift(y, m); }
    }
    hide Count, Drift, ReadingsAgree;
  }

  // ---------------------------------------------------------------------------
  // Operator commands

  datatype Reply = Ready(token: string) | Accepted | Rejected(reason: Reason)
  datatype Reason = StaleTarget | AlreadyRequested | PreflightRequired | PreflightStale | ControlBusy

  function Recent(preflights: map<string, Preflight>, now: nat): map<string, Preflight> {
    map t | t in preflights && now < preflights[t].created + TTL :: preflights[t]
  }

  /** A preflight records what a shutdown would do now, under a new token. */
  function Prepare(c: Control, current: bool, owner: string, command: string, token: string, now: nat, seen: seq<Seen>): (Control, Reply) {
    if !current then (c, Rejected(StaleTarget))
    else if !c.phase.Running? then (c, Rejected(AlreadyRequested))
    else
      var kept := Recent(c.preflights, now);
      if |kept| >= MOST_PREFLIGHTS then (c.(preflights := kept), Rejected(ControlBusy))
      else
        var p := Preflight(owner, command, now, ImpactOf(seen), ConsequencesOf(seen));
        (c.(preflights := kept[token := p]), Ready(token))
  }

  /** The preflight still describes this owner, this command and the present callers. */
  predicate StillHolds(p: Preflight, owner: string, command: string, now: nat, seen: seq<Seen>) {
    p.owner == owner && p.command == command && now < p.created + TTL
    && p.impact == ImpactOf(seen) && p.consequence == ConsequencesOf(seen)
  }

  /** A request takes the token out first; only then is it judged. */
  function Request(c: Control, current: bool, principal: string, owner: string, command: string, token: string,
                   now: nat, seen: seq<Seen>): (Control, Reply)
  {
    if !current then (c, Rejected(StaleTarget))
    else if !c.phase.Running? then (c, Rejected(AlreadyRequested))
    else if token !in c.preflights then (c, Rejected(PreflightRequired))
    else if !StillHolds(c.preflights[token], owner, command, now, seen) then
      (c.(preflights := c.preflights - {token}), Rejected(PreflightStale))
    else (Control(Requested, Some((principal, command)), map[]), Accepted)
  }

  /** The tokens whose preflights are less than thirty seconds old. */
  function Unexpired(preflights: map<string, Preflight>, now: nat): set<string> {
    set t | t in preflights && now < preflights[t].created + 30
  }

  /** For a current command while running, a preparation is busy exactly when at least 128
      preflights are unexpired, and otherwise ready; either way the expired ones are gone and the
      other unexpired ones are as they were. A ready one is open under the token, with its owner,
      its command, the present time and what a shutdown would do now. Everything else is refused
      without a change. */
  lemma PrepareMeaning(c: Control, current: bool, owner: string, command: string, token: string, now: nat, seen: seq<Seen>)
    ensures var (next, reply) := Prepare(c, current, owner, command, token, now, seen);
            var unexpired := Unexpired(c.preflights, now);
            && next.phase == c.phase && next.origin == c.origin
            && (!current ==> reply == Rejected(StaleTarget) && next == c)
            && (current && c.phase != Running ==> reply == Rejected(AlreadyRequested) && next == c)
            && (current && c.phase == Running ==>
                  && reply == (if |unexpired| >= 128 then Rejected(ControlBusy) else Ready(token))
                  && next.preflights.Keys == (if |unexpired| >= 128 then unexpired else unexpired + {token})
                  && (forall t :: t in unexpired && (t != token || |unexpired| >= 128) ==> next.preflights[t] == c.preflights[t])
                  && (|unexpired| < 128 ==>
                        next.preflights[token] == Preflight(owner, command, now, ImpactOf(seen), ConsequencesOf(seen))))
  {
    hide ImpactOf, ConsequencesOf;
    var unexpired := Unexpired(c.preflights, now);
    assert Recent(c.preflights, now).Keys == unexpired;
    assert |Recent(c.preflights, now)| == |unexpired|;
  }

  /** A request is accepted exactly when it is current, the daemon is running, and the token's
      preflight is open, less than thirty seconds old, of the same owner and command, and says
      what a shutdown would do now; it is then the origin, and nothing stays open. A tried token
      is used up in any case; every other refusal changes nothing. */
  lemma RequestMeaning(c: Control, current: bool, principal: string, owner: string, command: string, token: string,
                       now: nat, seen: seq<Seen>)
    ensures var (next, reply) := Request(c, current, principal, owner, command, token, now, seen);
            var running, open := current && c.phase == Running, token in c.preflights;
            && (reply == Accepted <==>
                  && running && open && now < c.preflights[token].created + 30
                  && c.preflights[token].owner == owner && c.preflights[token].command == command
                  && c.preflights[token].impact == ImpactOf(seen) && c.preflights[token].consequence == ConsequencesOf(seen))
            && (reply != Accepted ==>
                  reply == Rejected(if !current then StaleTarget else if c.phase != Running then AlreadyRequested
                                    else if !open then PreflightRequired else PreflightStale))
            && (reply == Accepted ==> next == Control(Requested, Some((principal, command)), map[]))
            && (reply == Rejected(PreflightStale) ==>
                  && next.phase == c.phase && next.origin == c.origin
                  && next.preflights.Keys == c.preflights.Keys - {token}
                  && forall t :: t in c.preflights && t != token ==> next.preflights[t] == c.preflights[t])
            && (reply != Accepted && reply != Rejected(PreflightStale) ==> next == c)
  {
    hide ImpactOf, ConsequencesOf;
  }

  /** A request in time, by the owner and for the command of the preflight, over the same
      consequences, is accepted exactly when the two passes drifted alike; otherwise the counts
      alone make it stale. */
  lemma CountsAloneMayRefuse(c: Control, principal: string, owner: string, command: string, token: string,
                             at: nat, now: nat, x: seq<Seen>, y: seq<Seen>)
    requires Prepare(c, true, owner, command, token, at, x).1 == Ready(token)
    requires now < at + TTL && ConsequencesOf(x) == ConsequencesOf(y)
    ensures Request(Prepare(c, true, owner, command, token, at, x).0, true, principal, owner, command, token, now, y).1
         == if Drift(x, Chats) == Drift(y, Chats) && Drift(x, Interactions) == Drift(y, Interactions) then Accepted
            else Rejected(PreflightStale)
  {
    CountsDecideExactlyByDrift(x, y);
    hide ImpactOf, ConsequencesOf, Drift;
  }

  /** A page is answered between the two readings of the preparation: the request that follows
      finds the recorded consequence unchanged and is refused all the same. */
  lemma AnsweredBetweenReadings(now: nat, owner: string, command: string, token: string)
    ensures var caller := Node(1, Some(1), Some(1), Idle, None);
            var x := [Seen(caller, Some((7, Pending)), Some((7, Chatting)))];
            var y := [Seen(caller, Some((7, Chatting)), Some((7, Chatting)))];
            var (c, ready) := Prepare(Control(Running, None, map[]), true, owner, command, token, now, x);
            && ready == Ready(token) && ConsequencesOf(x) == ConsequencesOf(y) && ReadingsAgree(y)
            && Request(c, true, owner, owner, command, token, now, y).1 == Rejected(PreflightStale)
  {
    var caller := Node(1, Some(1), Some(1), Idle, None);
    var x := [Seen(caller, Some((7, Pending)), Some((7, Chatting)))];
    var y := [Seen(caller, Some((7, Chatting)), Some((7, Chatting)))];
    assert x[..0] == [] && y[..0] == [];
    assert ConsequencesOf(x) == [] + ConsequenceOf(caller, Some((7, Chatting)));
    assert ConsequencesOf(y) == [] + ConsequenceOf(caller, Some((7, Chatting)));
    assert Drift(x, Chats) == -1 && Drift(y, Chats) == 0;
    assert Recent(map[], now) == map[];
    CountsAloneMayRefuse(Control(Running, None, map[]), owner, owner, command, token, now, now, x, y);
  }

  class ShutdownControl {
    var phase: Phase
    var origin: Option<(string, string)>
    var preflights: map<string, Preflight>

    ghost function Value(): Control
      reads this
    {
      Control(phase, origin, preflights)
    }

    constructor ()
      ensures Value() == Control(Running, None, map[])
    {
      phase, origin, preflights := Running, None, map[];
    }

    method PrepareShutdown(current: bool, owner: string, command: string, token: string, now: nat, seen: seq<Seen>) returns (r: Reply)
      modifies this
      ensures (Value(), r) == Prepare(old(Value()), current, owner, command, token, now, seen)
    {
      if !current { return Rejected(StaleTarget); }
      if !phase.Running? { return Rejected(AlreadyRequested); }
      var impact := CountImpact(seen);
      preflights := Recent(preflights, now);
      if |preflights| >= MOST_PREFLIGHTS { return Rejected(ControlBusy); }
      preflights := preflights[token := Preflight(owner, command, now, impact, ConsequencesOf(seen))];
      return Ready(token);
    }

    method RequestShutdown(current: bool, principal: string, owner: string, command: string, token: string,
                           now: nat, seen: seq<Seen>) returns (r: Reply)
      modifies this
      ensures (Value(), r) == Request(old(Value()), current, principal, owner, command, token, now, seen)
    {
      if !current { return Rejected(StaleTarget); }
      if !phase.Running? { return Rejected(AlreadyRequested); }
      var impact := CountImpact(seen);
      if token !in preflights { return Rejected(PreflightRequired); }
      var p := preflights[token];
      preflights := preflights - {token};
      if p.owner != owner || p.command != command || now >= p.created + TTL || p.impact != impact
         || p.consequence != ConsequencesOf(seen) {
        return Rejected(PreflightStale);
      }
      origin := Some((principal, command));
      phase := Requested;
      preflights := map[];
      return Accepted;
    }
  }

  // ---------------------------------------------------------------------------
  // The daemon: scheduler, runner, operators and other workers

  /** Where the scheduler's loop stands; from claim to completion it is busy. */
  datatype Scheduler = Between | Admitted | Claimed | Tracked | Executing | Completing | Stopped

  /** Where the runner stands; the verdict is carried from the last reads to the final lock. */
  datatype Runner = Watching | Entering | Waiting | WorkRead(clear: bool) | Verdict(success: bool) | Reporting(success: bool) | Failing | Ended

  datatype Acceptance = Acceptance(token: string, owner: string, command: string, preflight: Preflight, at: nat, seen: seq<Seen>)

  datatype Daemon = Daemon(
    control: Control, schedulerHasLock: bool, scheduler: Scheduler, runner: Runner,
    work: nat, otherWork: nat, now: nat,
    journalled: set<string>, issued: set<string>, spent: set<string>, accepted: seq<Acceptance>, claims: nat)

  datatype Act =
    | SchedulerExits | SchedulerAdmits | SchedulerDeclines | SchedulerClaims | SchedulerTracks | SchedulerReleases
    | SchedulerExecutes | SchedulerDrops
    | OperatorPrepares(current: bool, owner: string, command: string, token: string, seen: seq<Seen>)
    | OperatorRequests(current: bool, principal: string, owner: string, command: string, token: string, seen: seq<Seen>, stored: bool)
    | SignalArrives | RunnerEnters | RunnerDrains | RunnerReadsWork | RunnerConcludes(rest: bool) | RunnerFinishes
    | RunnerReports(stored: bool) | RunnerErrs | RunnerFails
    | OthersWork(work: nat) | TimePasses(now: nat)

  predicate Initial(d: Daemon) {
    && d.control == Control(Running, None, map[]) && !d.schedulerHasLock && d.scheduler.Between? && d.runner.Watching?
    && d.work == d.otherWork && d.issued == {} && d.spent == {} && d.accepted == [] && d.claims == 0
  }

  /** A preflight under a token never issued before. */
  predicate PrepareStep(d: Daemon, e: Daemon, current: bool, owner: string, command: string, token: string, seen: seq<Seen>) {
    && !d.schedulerHasLock && token !in d.issued
    && var (next, reply) := Prepare(d.control, current, owner, command, token, d.now, seen);
       e == d.(control := next, issued := if reply.Ready? then d.issued + {token} else d.issued)
  }

  /** A request; one the journal knows changes nothing, and one that passes but cannot be
      recorded has still used up its token. */
  predicate RequestStep(d: Daemon, e: Daemon, current: bool, principal: string, owner: string, command: string,
                        token: string, seen: seq<Seen>, stored: bool)
  {
    && !d.schedulerHasLock
    && if command in d.journalled then e == d
       else
         var (next, reply) := Request(d.control, current, principal, owner, command, token, d.now, seen);
         var tried := d.(journalled := d.journalled + {command},
                         spent := if token in d.control.preflights && token !in next.preflights then d.spent + {token} else d.spent);
         if reply.Accepted? && !stored then
           e == tried.(control := d.control.(preflights := d.control.preflights - {token}))
         else if reply.Accepted? then
           e == tried.(control := next, accepted := d.accepted + [Acceptance(token, owner, command, d.control.preflights[token], d.now, seen)])
         else e == tried.(control := next)
  }

  /** One step of one party; those that touch the control need the transition lock to be free. */
  predicate Step(d: Daemon, e: Daemon, a: Act) {
    match a
    // the scheduler
    case SchedulerExits => d.scheduler.Between? && !d.schedulerHasLock && !d.control.phase.Running? && e == d.(scheduler := Stopped)
    case SchedulerAdmits => d.scheduler.Between? && !d.schedulerHasLock && e == d.(scheduler := Admitted, schedulerHasLock := true)
    case SchedulerDeclines => d.scheduler.Admitted? && e == d.(scheduler := Between, schedulerHasLock := false)
    case SchedulerClaims => d.scheduler.Admitted? && d.control.phase.Running? && e == d.(scheduler := Claimed, claims := d.claims + 1)
    case SchedulerTracks => d.scheduler.Claimed? && e == d.(scheduler := Tracked, work := d.work + 1)
    case SchedulerReleases => d.scheduler.Tracked? && e == d.(scheduler := Executing, schedulerHasLock := false)
    case SchedulerExecutes => d.scheduler.Executing? && e == d.(scheduler := Completing)
    case SchedulerDrops => d.scheduler.Completing? && d.work > 0 && e == d.(scheduler := Between, work := d.work - 1)
    // operators
    case OperatorPrepares(current, owner, command, token, seen) => PrepareStep(d, e, current, owner, command, token, seen)
    case OperatorRequests(current, principal, owner, command, token, seen, stored) =>
      RequestStep(d, e, current, principal, owner, command, token, seen, stored)
    // the runner
    case SignalArrives => !d.schedulerHasLock && d.control.phase.Running? && d.runner.Watching? && e == d.(control := d.control.(phase := Requested))
    case RunnerEnters => !d.schedulerHasLock && d.control.phase.Requested? && d.runner.Watching? && e == d.(runner := Entering)
    case RunnerDrains => !d.schedulerHasLock && d.runner.Entering? && e == d.(runner := Waiting, control := d.control.(phase := Draining))
    case RunnerReadsWork => d.runner.Waiting? && e == d.(runner := WorkRead(d.work == 0))
    case RunnerConcludes(rest) => d.runner.WorkRead? && e == d.(runner := Verdict(d.runner.clear && rest))
    case RunnerFinishes =>
      && !d.schedulerHasLock && d.runner.Verdict?
      && e == d.(runner := Reporting(d.runner.success), control := d.control.(phase := if d.runner.success then Complete else Failed))
    case RunnerReports(stored) => d.runner.Reporting? && e == d.(runner := if d.runner.success && stored then Ended else Failing)
    case RunnerErrs => (d.runner.Waiting? || d.runner.WorkRead? || d.runner.Verdict?) && e == d.(runner := Failing)
    case RunnerFails => !d.schedulerHasLock && d.runner.Failing? && e == d.(runner := Watching, control := d.control.(phase := Failed))
    // everything else
    case OthersWork(work) => e == d.(otherWork := work, work := work + Busy(d.scheduler))
    case TimePasses(now) => d.now <= now && e == d.(now := now)
  }

  /** The scheduler's share of the work counter. */
  function Busy(s: Scheduler): nat {
    if s.Tracked? || s.Executing? || s.Completing? then 1 else 0
  }

  /** An event is claimed and not yet completed. */
  predicate HasEvent(s: Scheduler) {
    s.Claimed? || s.Tracked? || s.Executing? || s.Completing?
  }

  function Rank(p: Phase): nat {
    match p case Running => 0 case Requested => 1 case Draining => 2 case Complete => 3 case Failed => 4
  }

  predicate AcceptanceStands(a: Acceptance, d: Daemon) {
    && a.token in d.issued && a.token in d.spent && a.command in d.journalled
    && StillHolds(a.preflight, a.owner, a.command, a.at, a.seen)
  }

  /** The lock and the counter; a claim is only ever held open while running. */
  predicate LockKept(d: Daemon) {
    && (d.schedulerHasLock <==> d.scheduler.Admitted? || d.scheduler.Claimed? || d.scheduler.Tracked?)
    && d.work == d.otherWork + Busy(d.scheduler)
    && (d.scheduler.Claimed? || d.scheduler.Tracked? ==> d.control.phase.Running?)
  }

  /** Open preflights are issued, unspent and bounded. */
  predicate TokensKept(preflights: map<string, Preflight>, issued: set<string>, spent: set<string>) {
    |preflights| <= MOST_PREFLIGHTS && preflights.Keys <= issued && preflights.Keys !! spent && spent <= issued
  }

  predicate RequestsKept(d: Daemon) {
    && |d.accepted| <= 1 && (d.accepted != [] ==> !d.control.phase.Running?)
    && (forall i :: 0 <= i < |d.accepted| ==> AcceptanceStands(d.accepted[i], d))
  }

  /** What the runner has seen and where that leaves the phase. */
  predicate RunnerKept(phase: Phase, runner: Runner, scheduler: Scheduler) {
    && (runner.Entering? ==> phase.Requested?)
    && (runner.Waiting? || runner.WorkRead? || runner.Verdict? ==> phase.Draining?)
    && (runner.Reporting? || runner.Failing? || runner.Ended? ==> Rank(phase) >= 2)
    && (runner == WorkRead(true) || runner == Verdict(true) || phase.Complete? ==> !HasEvent(scheduler))
    && (phase.Complete? ==> runner.Reporting? || runner.Failing? || runner.Ended?)
  }

  predicate Inv(d: Daemon) {
    && LockKept(d)
    && TokensKept(d.control.preflights, d.issued, d.spent)
    && RequestsKept(d)
    && RunnerKept(d.control.phase, d.runner, d.scheduler)
  }

  lemma InitialInv(d: Daemon)
    requires Initial(d)
    ensures Inv(d)
  {
  }

  predicate OfScheduler(a: Act) {
    || a.SchedulerExits? || a.SchedulerAdmits? || a.SchedulerDeclines? || a.SchedulerClaims? || a.SchedulerTracks?
    || a.SchedulerReleases? || a.SchedulerExecutes? || a.SchedulerDrops?
  }

  lemma SchedulerKeeps(d: Daemon, e: Daemon, a: Act)
    requires Inv(d) && Step(d, e, a) && OfScheduler(a)
    ensures Inv(e) && e.control == d.control
    ensures e.claims != d.claims ==> d.control.phase.Running?
  {
    hide StillHolds;
  }

  /** Preparing adds at most its own token and never outgrows the bound. */
  lemma PrepareBounded(c: Control, current: bool, owner: string, command: string, token: string, now: nat, seen: seq<Seen>)
    requires |c.preflights| <= MOST_PREFLIGHTS
    ensures var (next, reply) := Prepare(c, current, owner, command, token, now, seen);
            && next.phase == c.phase && next.origin == c.origin
            && |next.preflights| <= MOST_PREFLIGHTS
            && next.preflights.Keys <= c.preflights.Keys + (if reply.Ready? then {token} else {})
  {
    hide ImpactOf, ConsequencesOf;
    var kept := Recent(c.preflights, now);
    SubsetSize(kept.Keys, c.preflights.Keys);
    var p := Preflight(owner, command, now, ImpactOf(seen), ConsequencesOf(seen));
    assert kept[token := p].Keys == kept.Keys + {token};
  }

  lemma PrepareKeeps(d: Daemon, e: Daemon, current: bool, owner: string, command: string, token: string, seen: seq<Seen>)
    requires Inv(d) && PrepareStep(d, e, current, owner, command, token, seen)
    ensures Inv(e) && e.control.phase == d.control.phase && e.(control := d.control, issued := d.issued) == d
  {
    hide Prepare, RunnerKept, LockKept, RequestsKept;
    assert |d.control.preflights| <= MOST_PREFLIGHTS;
    hide TokensKept;
    PrepareBounded(d.control, current, owner, command, token, d.now, seen);
    OneMoreToken(d.control.preflights, e.control.preflights, d.issued, d.spent, token, e.issued);
    hide PrepareStep;
    SamePhaseKeeps(d, e);
  }

  lemma OneMoreToken(before: map<string, Preflight>, after: map<string, Preflight>, issued: set<string>, spent: set<string>,
                     token: string, issuedNow: set<string>)
    requires TokensKept(before, issued, spent) && token !in issued && |after| <= MOST_PREFLIGHTS
    requires issuedNow == issued || issuedNow == issued + {token}
    requires after.Keys <= before.Keys + (if issuedNow == issued then {} else {token})
    ensures TokensKept(after, issuedNow, spent)
  {
  }

  /** Only open preflights and issued tokens differ. */
  lemma SamePhaseKeeps(d: Daemon, e: Daemon)
    requires Inv(d) && e == d.(control := e.control, issued := e.issued) && e.control.phase == d.control.phase
    requires d.issued <= e.issued && TokensKept(e.control.preflights, e.issued, e.spent)
    ensures Inv(e)
  {
    hide RunnerKept, TokensKept, StillHolds;
    assert LockKept(e);
    hide LockKept;
  }

  /** A request never adds a preflight; it removes the tried token, or all on acceptance. */
  lemma RequestBounded(c: Control, current: bool, principal: string, owner: string, command: string, token: string, now: nat, seen: seq<Seen>)
    requires |c.preflights| <= MOST_PREFLIGHTS
    ensures var (next, reply) := Request(c, current, principal, owner, command, token, now, seen);
            && |next.preflights| <= MOST_PREFLIGHTS && next.preflights.Keys <= c.preflights.Keys
            && |c.preflights - {token}| <= MOST_PREFLIGHTS
            && (next.preflights != c.preflights ==> token in c.preflights && token !in next.preflights)
            && (if reply.Accepted? then
                  && c.phase.Running? && next.phase.Requested? && token in c.preflights
                  && StillHolds(c.preflights[token], owner, command, now, seen)
                else next.phase == c.phase)
  {
    hide StillHolds;
    var without := c.preflights - {token};
    assert without.Keys == c.preflights.Keys - {token};
    SubsetSize(without.Keys, c.preflights.Keys);
  }

  /** What a request may change, all told. */
  ghost predicate RequestEffect(d: Daemon, e: Daemon, token: string) {
    && !d.schedulerHasLock
    && e == d.(control := e.control, journalled := e.journalled, spent := e.spent, accepted := e.accepted)
    && |e.control.preflights| <= MOST_PREFLIGHTS && e.control.preflights.Keys <= d.control.preflights.Keys
    && d.journalled <= e.journalled
    && (e.spent == d.spent || (e.spent == d.spent + {token} && token in d.control.preflights && token !in e.control.preflights))
    && (if e.accepted == d.accepted then e.control.phase == d.control.phase
        else d.control.phase.Running? && e.control.phase.Requested?
             && |e.accepted| == |d.accepted| + 1 && d.accepted <= e.accepted
             && AcceptanceStands(e.accepted[|d.accepted|], e))
  }

  lemma RequestHasEffect(d: Daemon, e: Daemon, current: bool, principal: string, owner: string, command: string,
                         token: string, seen: seq<Seen>, stored: bool)
    requires TokensKept(d.control.preflights, d.issued, d.spent)
    requires RequestStep(d, e, current, principal, owner, command, token, seen, stored)
    ensures RequestEffect(d, e, token)
  {
    RequestBounded(d.control, current, principal, owner, command, token, d.now, seen);
    hide Request, StillHolds;
    assert (d.control.preflights - {token}).Keys == d.control.preflights.Keys - {token};
  }

  lemma RequestKeeps(d: Daemon, e: Daemon, token: string)
    requires Inv(d) && RequestEffect(d, e, token)
    ensures Inv(e) && Rank(e.control.phase) >= Rank(d.control.phase)
    ensures e.scheduler == d.scheduler && e.claims == d.claims && d.accepted <= e.accepted
  {
    hide StillHolds;
    assert TokensKept(e.control.preflights, e.issued, e.spent);
    hide TokensKept;
    assert LockKept(e);
    hide LockKept;
    assert RunnerKept(e.control.phase, e.runner, e.scheduler);
    hide RunnerKept;
  }

  lemma OthersKeep(d: Daemon, e: Daemon, a: Act)
    requires Inv(d) && Step(d, e, a) && !OfScheduler(a) && !a.OperatorPrepares? && !a.OperatorRequests?
    ensures Inv(e) && Rank(e.control.phase) >= Rank(d.control.phase)
    ensures e.scheduler == d.scheduler && e.claims == d.claims
  {
    hide StillHolds;
  }

  lemma StepKeeps(d: Daemon, e: Daemon, a: Act)
    requires Inv(d) && Step(d, e, a)
    ensures Inv(e) && Rank(e.control.phase) >= Rank(d.control.phase)
    ensures !d.control.phase.Running? ==> e.claims == d.claims
    ensures d.accepted <= e.accepted
  {
    if OfScheduler(a) {
      SchedulerKeeps(d, e, a);
    } else if a.OperatorPrepares? {
      PrepareKeeps(d, e, a.current, a.owner, a.command, a.token, a.seen);
    } else if a.OperatorRequests? {
      RequestHasEffect(d, e, a.current, a.principal, a.owner, a.command, a.token, a.seen, a.stored);
      RequestKeeps(d, e, a.token);
    } else {
      OthersKeep(d, e, a);
    }
    hide Inv;
  }

  ghost predicate StepAt(run: seq<Daemon>, i: nat)
    requires i + 1 < |run|
  {
    exists a {:trigger Step(run[i], run[i + 1], a)} :: Step(run[i], run[i + 1], a)
  }

  ghost predicate Run(run: seq<Daemon>) {
    && run != [] && Initial(run[0])
    && forall i {:trigger StepAt(run, i)} :: 0 <= i < |run| - 1 ==> StepAt(run, i)
  }

  lemma {:induction false} RunKeeps(run: seq<Daemon>, i: nat, j: nat)
    requires Run(run) && i <= j < |run|
    ensures Inv(run[j])
    ensures Rank(run[j].control.phase) >= Rank(run[i].control.phase)
    ensures !run[i].control.phase.Running? ==> run[j].claims == run[i].claims
    ensures run[i].accepted <= run[j].accepted
    decreases j
  {
    hide Inv, Step, Initial;
    if j == 0 {
      InitialInv(run[0]);
    } else {
      RunKeeps(run, if i < j then i else j - 1, j - 1);
      assert StepAt(run, j - 1);
      var a :| Step(run[j - 1], run[j], a);
      StepKeeps(run[j - 1], run[j], a);
    }
  }

  // ---------------------------------------------------------------------------
  // Where an open or accepted preflight comes from

  /** This step of the run recorded the preflight under the token, which was new. */
  ghost predicate PreparedWith(run: seq<Daemon>, i: nat, token: string, p: Preflight, seen: seq<Seen>) {
    && i + 1 < |run| && token !in run[i].issued && token in run[i + 1].issued
    && Step(run[i], run[i + 1], OperatorPrepares(true, p.owner, p.command, token, seen))
    && p == Preflight(p.owner, p.command, run[i].now, ImpactOf(seen), ConsequencesOf(seen))
  }

  ghost predicate PreparedBefore(run: seq<Daemon>, j: nat, token: string, p: Preflight) {
    exists i: nat, seen {:trigger PreparedWith(run, i, token, p, seen)} :: i < j && PreparedWith(run, i, token, p, seen)
  }

  /** This step of the run accepted the request. */
  ghost predicate AcceptedWith(run: seq<Daemon>, r: nat, a: Acceptance, principal: string) {
    && r + 1 < |run| && a in run[r + 1].accepted && a.at == run[r].now
    && Step(run[r], run[r + 1], OperatorRequests(true, principal, a.owner, a.command, a.token, a.seen, true))
  }

  /** An accepted request was prepared earlier in the run, by the same owner for the same command
      and less than the preflight's lifetime before, over the very same consequences. */
  ghost predicate EarnedAt(run: seq<Daemon>, i: nat, seen: seq<Seen>, r: nat, principal: string, a: Acceptance) {
    && i < r && PreparedWith(run, i, a.token, a.preflight, seen) && AcceptedWith(run, r, a, principal)
    && a.preflight.owner == a.owner && a.preflight.command == a.command
    && run[i].now <= run[r].now < run[i].now + TTL
    && ConsequencesOf(seen) == ConsequencesOf(a.seen) && ImpactOf(seen) == ImpactOf(a.seen)
  }

  ghost predicate Earned(run: seq<Daemon>, j: nat, a: Acceptance) {
    exists i: nat, seen, r: nat, principal {:trigger EarnedAt(run, i, seen, r, principal, a)} ::
      r < j && EarnedAt(run, i, seen, r, principal, a)
  }

  lemma {:induction false} TimeMovesOn(run: seq<Daemon>, i: nat, j: nat)
    requires Run(run) && i <= j < |run|
    ensures run[i].now <= run[j].now
    decreases j
  {
    hide Initial, Prepare, Request;
    if i == j {
    } else {
      TimeMovesOn(run, i, j - 1);
      assert StepAt(run, j - 1);
    }
  }

  /** A step opens a preflight only by preparing it, and keeps or drops the others. */
  lemma OpenedByPreparing(run: seq<Daemon>, j: nat, token: string)
    requires Run(run) && j + 1 < |run| && token in run[j + 1].control.preflights
    ensures var p := run[j + 1].control.preflights[token];
            || (token in run[j].control.preflights && run[j].control.preflights[token] == p)
            || (exists seen {:trigger PreparedWith(run, j, token, p, seen)} :: PreparedWith(run, j, token, p, seen))
  {
    hide Initial, ImpactOf, ConsequencesOf, StillHolds;
    assert StepAt(run, j);
    var a :| Step(run[j], run[j + 1], a);
    if a.OperatorPrepares? && a.token == token {
      if token !in run[j].control.preflights {
        assert PreparedWith(run, j, token, run[j + 1].control.preflights[token], a.seen);
      } else {
        RunKeeps(run, j, j);
      }
    }
  }

  lemma {:induction false} OpenWasPrepared(run: seq<Daemon>, j: nat, token: string)
    requires Run(run) && j < |run| && token in run[j].control.preflights
    ensures PreparedBefore(run, j, token, run[j].control.preflights[token])
    decreases j
  {
    hide Run, Step, PreparedWith;
    if j == 0 {
      NothingOpenAtFirst(run);
    } else {
      var p := run[j].control.preflights[token];
      OpenedByPreparing(run, j - 1, token);
      if token in run[j - 1].control.preflights && run[j - 1].control.preflights[token] == p {
        OpenWasPrepared(run, j - 1, token);
        var i: nat, seen :| i < j - 1 && PreparedWith(run, i, token, p, seen);
      } else {
        var seen :| PreparedWith(run, j - 1, token, p, seen);
      }
    }
  }

  lemma NothingOpenAtFirst(run: seq<Daemon>)
    requires Run(run)
    ensures run[0].control.preflights == map[] && run[0].accepted == []
  {
  }

  /** A step accepts only by a request whose preflight is open and still holds. */
  lemma AcceptedByRequest(run: seq<Daemon>, j: nat, a: Acceptance)
    requires Run(run) && j + 1 < |run| && a in run[j + 1].accepted && a !in run[j].accepted
    ensures exists principal {:trigger AcceptedWith(run, j, a, principal)} :: AcceptedWith(run, j, a, principal)
    ensures a.token in run[j].control.preflights && run[j].control.preflights[a.token] == a.preflight
    ensures StillHolds(a.preflight, a.owner, a.command, run[j].now, a.seen)
  {
    hide Initial, Prepare, StillHolds;
    assert StepAt(run, j);
    var act :| Step(run[j], run[j + 1], act);
    assert act.OperatorRequests? && act.current && act.stored;
    assert AcceptedWith(run, j, a, act.principal);
  }

  lemma {:induction false} AcceptedWasPrepared(run: seq<Daemon>, j: nat, a: Acceptance)
    requires Run(run) && j < |run| && a in run[j].accepted
    ensures Earned(run, j, a)
    decreases j
  {
    hide Run, Step, PreparedWith, AcceptedWith, ImpactOf, ConsequencesOf;
    if j == 0 {
      NothingOpenAtFirst(run);
    } else if a in run[j - 1].accepted {
      AcceptedWasPrepared(run, j - 1, a);
      var i: nat, seen, r: nat, principal :| r < j - 1 && EarnedAt(run, i, seen, r, principal, a);
    } else {
      AcceptedByRequest(run, j - 1, a);
      var principal :| AcceptedWith(run, j - 1, a, principal);
      OpenWasPrepared(run, j - 1, a.token);
      var i: nat, seen :| i < j - 1 && PreparedWith(run, i, a.token, a.preflight, seen);
      PreparedFacts(run, i, a.token, a.preflight, seen);
      TimeMovesOn(run, i, j - 1);
      assert EarnedAt(run, i, seen, j - 1, principal, a);
    }
  }

  lemma PreparedFacts(run: seq<Daemon>, i: nat, token: string, p: Preflight, seen: seq<Seen>)
    requires PreparedWith(run, i, token, p, seen)
    ensures i < |run| && p.created == run[i].now && p.impact == ImpactOf(seen) && p.consequence == ConsequencesOf(seen)
  {
  }

  // A run to the end: a claimed event is executing when a prepared shutdown is accepted; the
  // daemon drains, waits for it and completes.

  lemma GoesOn(run: seq<Daemon>, e: Daemon, a: Act) returns (longer: seq<Daemon>)
    requires Run(run) && Step(run[|run| - 1], e, a)
    ensures longer == run + [e] && Run(longer)
  {
    hide Step, Initial;
    longer := run + [e];
    forall k | 0 <= k < |longer| - 1
      ensures StepAt(longer, k)
    {
      if k < |run| - 1 {
        assert StepAt(run, k);
        var b :| Step(run[k], run[k + 1], b);
        assert Step(longer[k], longer[k + 1], b);
      } else { assert Step(longer[k], longer[k + 1], a); }
    }
  }

  /** The run up to the request: the event is claimed and counted, the shutdown prepared. */
  lemma EventIsClaimed() returns (run: seq<Daemon>)
    ensures Run(run)
    ensures run[|run| - 1] == Daemon(Control(Running, None, map["t" := Preflight("ann", "stop", 0, Impact(0, 0, 0, 0), [])]),
                                     false, Executing, Watching, 1, 0, 0, {}, {"t"}, {}, [], 1)
  {
    var d := Daemon(Control(Running, None, map[]), false, Between, Watching, 0, 0, 0, {}, {}, {}, [], 0);
    run := [d];
    hide StepAt;
    run := GoesOn(run, d.(scheduler := Admitted, schedulerHasLock := true), SchedulerAdmits);
    d := run[|run| - 1];
    run := GoesOn(run, d.(scheduler := Claimed, claims := 1), SchedulerClaims);
    d := run[|run| - 1];
    run := GoesOn(run, d.(scheduler := Tracked, work := 1), SchedulerTracks);
    d := run[|run| - 1];
    run := GoesOn(run, d.(scheduler := Executing, schedulerHasLock := false), SchedulerReleases);
    hide Run;
    run := FirstPrepared(run);
  }

  lemma FirstPrepared(begun: seq<Daemon>) returns (run: seq<Daemon>)
    requires Run(begun) && begun[|begun| - 1] == Daemon(Control(Running, None, map[]), false, Executing, Watching, 1, 0, 0, {}, {}, {}, [], 1)
    ensures Run(run)
    ensures run[|run| - 1] == Daemon(Control(Running, None, map["t" := Preflight("ann", "stop", 0, Impact(0, 0, 0, 0), [])]),
                                     false, Executing, Watching, 1, 0, 0, {}, {"t"}, {}, [], 1)
  {
    assert begun != [];
    hide Run;
    var d := begun[|begun| - 1];
    var (next, _) := Prepare(d.control, true, "ann", "stop", "t", 0, []);
    assert Recent(map[], 0) == map[];
    run := GoesOn(begun, d.(control := next, issued := {"t"}), OperatorPrepares(true, "ann", "stop", "t", []));
  }

  lemma ShutdownHappens() returns (run: seq<Daemon>, k: nat)
    ensures Run(run) && k + 1 < |run|
    ensures run[k].scheduler == Executing && run[k].claims == 1 && |run[k + 1].accepted| == 1
    ensures var last := run[|run| - 1];
            && last.control == Control(Complete, Some(("ann", "stop")), map[]) && last.runner == Ended
            && last.scheduler == Between && last.claims == 1 && last.work == 0 && last.spent == {"t"}
  {
    run := EventIsClaimed();
    k := |run| - 1;
    var d := run[k];
    assert d.control.preflights - {"t"} == map[];
    var e := d.(control := Control(Requested, Some(("ann", "stop")), map[]), journalled := {"stop"}, spent := {"t"},
                accepted := [Acceptance("t", "ann", "stop", d.control.preflights["t"], 0, [])]);
    assert RequestStep(d, e, true, "ann", "ann", "stop", "t", [], true);
    run := GoesOn(run, e, OperatorRequests(true, "ann", "ann", "stop", "t", [], true));
    run := Drained(run);
  }

  lemma Drained(begun: seq<Daemon>) returns (run: seq<Daemon>)
    requires Run(begun)
    requires var d := begun[|begun| - 1];
             d.control.phase.Requested? && d.scheduler.Executing? && d.runner.Watching? && !d.schedulerHasLock && d.work == 1
    ensures Run(run) && begun <= run && |begun| < |run|
    ensures run[|run| - 1] == begun[|begun| - 1].(scheduler := Between, work := 0, runner := Ended, control := begun[|begun| - 1].control.(phase := Complete))
  {
    assert begun != [];
    hide Run;
    var d := begun[|begun| - 1];
    run := GoesOn(begun, d.(runner := Entering), RunnerEnters);
    var e := d.(runner := Waiting, control := d.control.(phase := Draining));
    run := GoesOn(run, e, RunnerDrains);
    run := GoesOn(run, e.(scheduler := Completing), SchedulerExecutes);
    run := GoesOn(run, e.(scheduler := Between, work := 0), SchedulerDrops);
    run := Concluded(run);
  }

  lemma Concluded(begun: seq<Daemon>) returns (run: seq<Daemon>)
    requires Run(begun)
    requires begun[|begun| - 1].runner.Waiting? && !begun[|begun| - 1].schedulerHasLock && begun[|begun| - 1].work == 0
    ensures Run(run) && begun <= run && |begun| < |run|
    ensures run[|run| - 1] == begun[|begun| - 1].(runner := Ended, control := begun[|begun| - 1].control.(phase := Complete))
  {
    assert begun != [];
    hide Run;
    var d := begun[|begun| - 1];
    run := GoesOn(begun, d.(runner := WorkRead(true)), RunnerReadsWork);
    run := GoesOn(run, d.(runner := Verdict(true)), RunnerConcludes(true));
    var e := d.(control := d.control.(phase := Complete));
    run := GoesOn(run, e.(runner := Reporting(true)), RunnerFinishes);
    run := GoesOn(run, e.(runner := Ended), RunnerReports(true));
  }

  /** In every interleaving: once the phase has left Running it never returns and no further
      event is claimed; at most one shutdown request is ever accepted, and it was prepared
      earlier in the run under its token, then new and now spent, by the same owner for the same
      command, less than the preflight's lifetime before and over the same consequences; and
      while the phase is Complete no claimed event is executing. */
  lemma ShutdownIsSafe(run: seq<Daemon>, i: nat, j: nat)
    requires Run(run) && i <= j < |run|
    ensures !run[i].control.phase.Running? ==> !run[j].control.phase.Running? && run[j].claims == run[i].claims
    ensures |run[j].accepted| <= 1 && run[i].accepted <= run[j].accepted
    ensures forall a :: a in run[j].accepted ==> AcceptanceStands(a, run[j]) && Earned(run, j, a)
    ensures run[j].control.phase.Complete? ==> !HasEvent(run[j].scheduler)
    ensures run[j].control.preflights.Keys !! run[j].spent
  {
    RunKeeps(run, i, j);
    forall a | a in run[j].accepted
      ensures AcceptanceStands(a, run[j]) && Earned(run, j, a)
    {
      AcceptedWasPrepared(run, j, a);
    }
    hide Run, Earned, StillHolds;
  }
}
