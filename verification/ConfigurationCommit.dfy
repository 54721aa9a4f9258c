/** The configuration commit protocol: a versioned file, its previous copy and a command
    journal, any two writes of which a crash may separate. Replacing the file is the commit;
    the link inside it is the evidence from which recovery finishes the journal. */
module ConfigurationCommit {
  import opened Basics

  type Settings = string

  datatype Version = Version(revision: nat, digest: Digest<(nat, Settings)>)

  datatype Candidate = Candidate(expected: Version, edits: string)

  type Fingerprint = Digest<(string, Candidate)>

  datatype Commit = Commit(commandId: string, principal: string, generation: string, fingerprint: Fingerprint,
                           digest: Digest<(nat, Settings)>, resultClass: string)

  datatype Config = Config(revision: nat, settings: Settings, commit: Option<Commit>)

  datatype Family = Configuration | OtherFamily
  datatype State = Accepted | Rejected | Completed
  datatype Entry = Entry(generation: string, operator: string, family: Family, fingerprint: Fingerprint,
                         state: State, resultClass: Option<string>, resultVersion: Option<nat>)

  type Journal = map<string, Entry>

  /** Everything durable. */
  datatype Disk = Disk(config: Config, previous: Option<Config>, journal: Journal)

  /** A request with what its environment decides: authorisation, validation, effects. */
  datatype Command = Command(id: string, principal: string, generation: string, candidate: Candidate,
                             allowed: bool, replacement: Option<Settings>, resultClass: string)

  const LAST_REVISION := 0x7fff_ffff_ffff_ffff

  /** The version ignores the commit link. */
  function VersionOf(c: Config): Version {
    Version(c.revision, Sha256((c.revision, c.settings)))
  }

  /** A link whose digest no longer fits the payload proves nothing. */
  predicate Altered(c: Config) {
    c.commit.Some? && c.commit.value.digest != VersionOf(c).digest
  }

  // ---------------------------------------------------------------------------
  // The journal's transactions

  predicate Matches(e: Entry, c: Commit) {
    e.operator == c.principal && e.generation == c.generation && e.fingerprint == c.fingerprint
  }

  function Finish(j: Journal, c: Commit, revision: nat): Journal {
    if c.commandId in j && Matches(j[c.commandId], c) && j[c.commandId].state.Accepted?
    then j[c.commandId := j[c.commandId].(state := Completed, resultClass := Some(c.resultClass), resultVersion := Some(revision))]
    else j
  }

  function Uncommitted(e: Entry): Entry {
    if e.family.Configuration? && e.state.Accepted? then e.(state := Rejected, resultClass := Some("configuration-not-committed")) else e
  }

  function RejectUncommitted(j: Journal): Journal {
    map id | id in j :: Uncommitted(j[id])
  }

  function Reject(j: Journal, id: string, class_: string): Journal {
    if id in j && j[id].state.Accepted? then j[id := j[id].(state := Rejected, resultClass := Some(class_))] else j
  }

  function FingerprintOf(c: Command): Fingerprint {
    Sha256((c.generation, c.candidate))
  }

  function NewEntry(c: Command): Entry {
    Entry(c.generation, c.principal, Configuration, FingerprintOf(c), Accepted, None, None)
  }

  // ---------------------------------------------------------------------------
  // Operations as the durable states they pass through

  /** Finish what the link proves, then reject what is left; nothing when the link is no proof. */
  function RecoverTrace(d: Disk): seq<Disk> {
    if Altered(d.config) then []
    else
      var finished := Finished(d);
      (if d.config.commit.Some? then [finished] else []) + [finished.(journal := RejectUncommitted(finished.journal))]
  }

  function Finished(d: Disk): Disk {
    if d.config.commit.None? then d else d.(journal := Finish(d.journal, d.config.commit.value, d.config.revision))
  }

  function Recovered(d: Disk): Disk {
    Finished(d).(journal := RejectUncommitted(Finished(d).journal))
  }

  predicate HexDigit(c: char) { '0' <= c <= '9' || 'a' <= c <= 'f' || 'A' <= c <= 'F' }

  predicate IdAllowed(id: string) {
    16 <= |id| <= 64 && forall i :: 0 <= i < |id| ==> HexDigit(id[i])
  }

  function Replacement(d: Disk, c: Command): Config
    requires c.replacement.Some?
  {
    var next := Config(d.config.revision + 1, c.replacement.value, None);
    next.(commit := Some(Commit(c.id, c.principal, c.generation, FingerprintOf(c), VersionOf(next).digest, c.resultClass)))
  }

  /** The candidate was made from the stored version, is valid, and a revision is left. */
  predicate Commits(d: Disk, c: Command) {
    c.allowed && IdAllowed(c.id) && c.id !in d.journal && c.candidate.expected == VersionOf(d.config)
    && c.replacement.Some? && d.config.revision + 1 <= LAST_REVISION
  }

  /** After recovery: accept, then refuse, or write the previous copy, the replacement, and recover. */
  function CommandTrace(d: Disk, c: Command): seq<Disk> {
    if !c.allowed || !IdAllowed(c.id) || c.id in d.journal then []
    else
      var accepted := d.(journal := d.journal[c.id := NewEntry(c)]);
      if c.candidate.expected != VersionOf(d.config) then
        [accepted, accepted.(journal := Reject(accepted.journal, c.id, "configuration-conflict"))]
      else if c.replacement.None? then
        [accepted, accepted.(journal := Reject(accepted.journal, c.id, "configuration-invalid"))]
      else if d.config.revision + 1 > LAST_REVISION then [accepted]
      else
        var saved := accepted.(previous := Some(d.config));
        var replaced := saved.(config := Replacement(d, c));
        [accepted, saved, replaced] + RecoverTrace(replaced)
  }

  /** Every durable state `apply` passes through; a failure or crash leaves it at any of them. */
  function ApplyTrace(d: Disk, c: Command): seq<Disk> {
    if Altered(d.config) then [d]
    else [d] + RecoverTrace(d) + CommandTrace(Recovered(d), c)
  }

  /** The older writer: previous copy, then a replacement without a link. */
  function StaticTrace(d: Disk, known: Config, settings: Settings): seq<Disk> {
    if VersionOf(d.config) != VersionOf(known) || known.revision + 1 > LAST_REVISION then [d]
    else
      var saved := d.(previous := Some(known));
      [d, saved, saved.(config := Config(known.revision + 1, settings, None))]
  }

  // ---------------------------------------------------------------------------
  // What the operations leave behind

  /** A command commits exactly when it is allowed, has a new identity of 16 to 64 hexadecimal
      digits, names the revision and the digest of what is stored, has a valid replacement, and
      a revision below the last is stored. */
  lemma CommitsMeaning(d: Disk, c: Command)
    ensures Commits(d, c) <==>
              && c.allowed && c.replacement.Some? && c.id !in d.journal
              && 16 <= |c.id| <= 64
              && (forall i :: 0 <= i < |c.id| ==> '0' <= c.id[i] <= '9' || 'a' <= c.id[i] <= 'f' || 'A' <= c.id[i] <= 'F')
              && c.candidate.expected.revision == d.config.revision
              && c.candidate.expected.digest == Sha256((d.config.revision, d.config.settings))
              && d.config.revision < 9_223_372_036_854_775_807
  {
  }

  /** The link in the file names this accepted entry's command and carries its marks. */
  predicate Proves(c: Config, id: string, e: Entry) {
    && c.commit.Some? && c.commit.value.commandId == id && c.commit.value.principal == e.operator
    && c.commit.value.generation == e.generation && c.commit.value.fingerprint == e.fingerprint
    && e.state == Accepted
  }

  /** What recovery makes of every entry: completed with the link's class and the file's
      revision where the link proves it, rejected where it is an undecided configuration
      command, and otherwise unchanged; neither file is touched. */
  lemma RecoveredMeaning(d: Disk)
    ensures Recovered(d).config == d.config && Recovered(d).previous == d.previous
    ensures Recovered(d).journal.Keys == d.journal.Keys
    ensures forall id :: id in d.journal ==>
              var e, r := d.journal[id], Recovered(d).journal[id];
              && r.generation == e.generation && r.operator == e.operator && r.family == e.family && r.fingerprint == e.fingerprint
              && (Proves(d.config, id, e) ==>
                    r.state == Completed && r.resultClass == Some(d.config.commit.value.resultClass) && r.resultVersion == Some(d.config.revision))
              && (!Proves(d.config, id, e) && e.family == Configuration && e.state == Accepted ==>
                    r.state == Rejected && r.resultClass == Some("configuration-not-committed") && r.resultVersion == e.resultVersion)
              && (!Proves(d.config, id, e) && !(e.family == Configuration && e.state == Accepted) ==> r == e)
  {
  }

  /** The command's own entry in a given state. */
  function EntryOf(c: Command, state: State, resultClass: Option<string>, resultVersion: Option<nat>): Entry {
    Entry(c.generation, c.principal, Configuration, Sha256((c.generation, c.candidate)), state, resultClass, resultVersion)
  }

  /** A command took effect: the file holds the settings it supplied under the next revision and
      names the command; the previous file is what was stored; its entry is completed, and no
      other entry changed. */
  predicate Enacted(before: Disk, after: Disk, c: Command) {
    && c.replacement.Some?
    && after.config.settings == c.replacement.value
    && after.config.revision == before.config.revision + 1
    && after.config.commit == Some(Commit(c.id, c.principal, c.generation, Sha256((c.generation, c.candidate)),
                                          Sha256((before.config.revision + 1, c.replacement.value)), c.resultClass))
    && after.previous == Some(before.config)
    && after.journal == before.journal[c.id := EntryOf(c, Completed, Some(c.resultClass), Some(before.config.revision + 1))]
  }

  /** What a refused command leaves: nothing, or its entry with the reason; the entry stays
      accepted when only the revisions are used up. */
  predicate Declined(before: Disk, after: Disk, c: Command) {
    && after.config == before.config && after.previous == before.previous
    && if !c.allowed || |c.id| < 16 || |c.id| > 64 || c.id in before.journal
          || exists i :: 0 <= i < |c.id| && !('0' <= c.id[i] <= '9' || 'a' <= c.id[i] <= 'f' || 'A' <= c.id[i] <= 'F')
       then after.journal == before.journal
       else if c.candidate.expected.revision != before.config.revision
               || c.candidate.expected.digest != Sha256((before.config.revision, before.config.settings))
       then after.journal == before.journal[c.id := EntryOf(c, Rejected, Some("configuration-conflict"), None)]
       else if c.replacement.None?
       then after.journal == before.journal[c.id := EntryOf(c, Rejected, Some("configuration-invalid"), None)]
       else before.config.revision >= 9_223_372_036_854_775_807 && after.journal == before.journal[c.id := EntryOf(c, Accepted, None, None)]
  }

  lemma RefusalDeclines(d: Disk, c: Command)
    ensures var j := d.journal[c.id := NewEntry(c)];
            if !c.allowed || !IdAllowed(c.id) || c.id in d.journal then Declined(d, d, c)
            else if c.candidate.expected != VersionOf(d.config) then Declined(d, d.(journal := Reject(j, c.id, "configuration-conflict")), c)
            else if c.replacement.None? then Declined(d, d.(journal := Reject(j, c.id, "configuration-invalid")), c)
            else d.config.revision + 1 > LAST_REVISION ==> Declined(d, d.(journal := j), c)
  {
  }

  predicate NothingUndecided(j: Journal) {
    forall id :: id in j ==> !(j[id].family.Configuration? && j[id].state.Accepted?)
  }

  lemma CommittedIsEnacted(d: Disk, c: Command)
    requires Commits(d, c) && NothingUndecided(d.journal)
    ensures Enacted(d, Recovered(Disk(Replacement(d, c), Some(d.config), d.journal[c.id := NewEntry(c)])), c)
  {
    var replaced := Disk(Replacement(d, c), Some(d.config), d.journal[c.id := NewEntry(c)]);
    var j := d.journal[c.id := EntryOf(c, Completed, Some(c.resultClass), Some(d.config.revision + 1))];
    assert Finished(replaced).journal == j;
    assert RejectUncommitted(j) == j;
  }

  // ---------------------------------------------------------------------------
  // The invariant, over the history of configurations that were ever current

  predicate CommitAt(h: seq<Config>, i: nat, id: string) {
    0 < i < |h| && h[i].commit.Some? && h[i].commit.value.commandId == id
  }

  ghost predicate Committed(h: seq<Config>, id: string) {
    exists i :: CommitAt(h, i, id)
  }

  /** Each configuration was built from the one before: one revision more, and a linked one by
      a candidate that expected exactly that version. */
  predicate Link(h: seq<Config>, i: nat)
    requires i + 1 < |h|
  {
    var next := h[i + 1];
    && next.revision == h[i].revision + 1
    && !Altered(next)
    && (next.commit.Some? ==>
          next.commit.value.fingerprint.Sha256? && next.commit.value.fingerprint.preimage.1.expected == VersionOf(h[i]))
  }

  /** The journal entry of a commit: its receipt is finished once the link was overwritten. */
  predicate Receipted(j: Journal, h: seq<Config>, i: nat, id: string)
    requires CommitAt(h, i, id)
  {
    && id in j && j[id].family.Configuration? && Matches(j[id], h[i].commit.value)
    && !j[id].state.Rejected?
    && (i < |h| - 1 ==> j[id].state.Completed?)
    && (j[id].state.Completed? ==> j[id].resultVersion == Some(h[i].revision))
  }

  ghost predicate Honest(j: Journal, h: seq<Config>) {
    forall id {:trigger Committed(h, id)} :: id in j && j[id].family.Configuration? && j[id].state.Completed? ==> Committed(h, id)
  }

  ghost predicate Inv(d: Disk, h: seq<Config>) {
    && h != [] && d.config == h[|h| - 1] && h[0].commit.None?
    && (forall i {:trigger Link(h, i)} :: 0 <= i < |h| - 1 ==> Link(h, i))
    && (forall i, j, id {:trigger CommitAt(h, i, id), CommitAt(h, j, id)} :: CommitAt(h, i, id) && CommitAt(h, j, id) ==> i == j)
    && (forall i, id {:trigger CommitAt(h, i, id)} :: CommitAt(h, i, id) ==> Receipted(d.journal, h, i, id))
    && Honest(d.journal, h)
    && (d.previous.Some? ==> d.previous.value == h[|h| - 1] || (|h| > 1 && d.previous.value == h[|h| - 2]))
  }

  /** No command is left undecided. */
  ghost predicate Decided(d: Disk) {
    forall id :: id in d.journal && d.journal[id].family.Configuration? ==> !d.journal[id].state.Accepted?
  }

  lemma CurrentIsUnaltered(d: Disk, h: seq<Config>)
    requires Inv(d, h)
    ensures h != [] && h[|h| - 1] == d.config && !Altered(d.config)
  {
    if |h| > 1 { assert Link(h, |h| - 2); }
  }

  lemma FinishedKeeps(d: Disk, h: seq<Config>)
    requires Inv(d, h)
    ensures Inv(Finished(d), h)
    ensures forall i, id {:trigger CommitAt(h, i, id)} :: CommitAt(h, i, id) ==> Finished(d).journal[id].state.Completed?
  {
    var f := Finished(d);
    if d.config.commit.Some? {
      assert |h| > 1;
      assert CommitAt(h, |h| - 1, d.config.commit.value.commandId);
    }
    forall i, id | CommitAt(h, i, id)
      ensures Receipted(f.journal, h, i, id) && f.journal[id].state.Completed?
    {
      assert Receipted(d.journal, h, i, id);
    }
  }

  lemma RecoveredKeeps(d: Disk, h: seq<Config>)
    requires Inv(d, h)
    ensures Inv(Recovered(d), h) && Decided(Recovered(d))
    ensures Recovered(d).config == d.config && Recovered(d).previous == d.previous
  {
    FinishedKeeps(d, h);
    var f, r := Finished(d), Recovered(d);
    forall i, id | CommitAt(h, i, id)
      ensures Receipted(r.journal, h, i, id)
    {
      assert Receipted(f.journal, h, i, id);
    }
    forall id | id in r.journal && r.journal[id].family.Configuration? && r.journal[id].state.Completed?
      ensures Committed(h, id)
    {
      assert f.journal[id].state.Completed?;
    }
  }

  /** Recovery decides every command: completed exactly when its replacement reached the file,
      rejected otherwise. */
  lemma RecoveryTellsTheTruth(d: Disk, h: seq<Config>, id: string)
    requires Inv(d, h) && id in d.journal && d.journal[id].family.Configuration?
    ensures id in Recovered(d).journal && Recovered(d).journal[id].state == if Committed(h, id) then Completed else Rejected
  {
    RecoveredKeeps(d, h);
    if Committed(h, id) {
      var i :| CommitAt(h, i, id);
      assert Receipted(Recovered(d).journal, h, i, id);
    } else {
      assert Recovered(d).journal[id].family.Configuration?;
    }
  }

  lemma JournalKeeps(d: Disk, h: seq<Config>, j: Journal)
    requires Inv(d, h) && Decided(d)
    requires forall id :: id in d.journal ==> id in j && j[id] == d.journal[id]
    requires forall id :: id in j && id !in d.journal && j[id].family.Configuration? ==> !j[id].state.Completed?
    ensures Inv(d.(journal := j), h)
  {
    forall i, id | CommitAt(h, i, id)
      ensures Receipted(j, h, i, id)
    {
      assert Receipted(d.journal, h, i, id);
    }
  }

  lemma CommittedIsJournalled(d: Disk, h: seq<Config>, id: string)
    requires Inv(d, h)
    ensures Committed(h, id) ==> id in d.journal
  {
    if Committed(h, id) {
      var i :| CommitAt(h, i, id);
      assert Receipted(d.journal, h, i, id);
    }
  }

  /** The commit point: a decided journal plus the one accepted command being committed. */
  lemma CommitKeeps(d: Disk, h: seq<Config>, c: Command)
    requires Inv(d, h) && Decided(d) && Commits(d, c)
    ensures var replaced := Disk(Replacement(d, c), Some(d.config), d.journal[c.id := NewEntry(c)]);
            Inv(replaced, h + [Replacement(d, c)])
  {
    var g := h + [Replacement(d, c)];
    var j := d.journal[c.id := NewEntry(c)];
    forall i | 0 <= i < |g| - 1
      ensures Link(g, i)
    {
      if i < |h| - 1 { assert Link(h, i); }
      assert g[i + 1] == if i < |h| - 1 then h[i + 1] else Replacement(d, c);
    }
    CommittedIsJournalled(d, h, c.id);
    forall i: nat, id: string | CommitAt(g, i, id)
      ensures Receipted(j, g, i, id) && (i < |h| ==> CommitAt(h, i, id) && id != c.id)
    {
      if i < |h| {
        assert CommitAt(h, i, id);
        assert Receipted(d.journal, h, i, id);
      }
    }
    HonestLonger(d, h, c, j);
  }

  lemma HonestLonger(d: Disk, h: seq<Config>, c: Command, j: Journal)
    requires Honest(d.journal, h) && c.id !in d.journal && j == d.journal[c.id := NewEntry(c)] && c.replacement.Some?
    ensures Honest(j, h + [Replacement(d, c)])
  {
    var g := h + [Replacement(d, c)];
    forall id | id in j && j[id].family.Configuration? && j[id].state.Completed?
      ensures Committed(g, id)
    {
      assert Committed(h, id);
      var i :| CommitAt(h, i, id);
      assert CommitAt(g, i, id);
    }
  }

  // ---------------------------------------------------------------------------
  // Operations interrupted anywhere

  /** The history with a state's configuration added if it is a new one. */
  function Extended(h: seq<Config>, d: Disk): seq<Config>
    requires h != []
  {
    if d.config == h[|h| - 1] then h else h + [d.config]
  }

  lemma RecoverTraceKeeps(d: Disk, h: seq<Config>, k: nat)
    requires Inv(d, h) && k < |RecoverTrace(d)|
    ensures Inv(RecoverTrace(d)[k], h)
    ensures k == |RecoverTrace(d)| - 1 ==> RecoverTrace(d)[k] == Recovered(d)
  {
    hide Inv;
    FinishedKeeps(d, h);
    RecoveredKeeps(d, h);
  }

  lemma RefusalKeeps(d: Disk, h: seq<Config>, c: Command, class_: string)
    requires Inv(d, h) && Decided(d) && c.id !in d.journal
    ensures var j := d.journal[c.id := NewEntry(c)];
            Inv(d.(journal := j), h) && Inv(d.(journal := Reject(j, c.id, class_)), h)
  {
    var j := d.journal[c.id := NewEntry(c)];
    JournalKeeps(d, h, j);
    JournalKeeps(d, h, Reject(j, c.id, class_));
  }

  lemma PreviousKeeps(d: Disk, h: seq<Config>)
    requires Inv(d, h)
    ensures Inv(d.(previous := Some(d.config)), h)
  {
    forall i, id | CommitAt(h, i, id)
      ensures Receipted(d.(previous := Some(d.config)).journal, h, i, id)
    {
      assert Receipted(d.journal, h, i, id);
    }
  }

  /** The new configuration differs from every earlier one, so a commit always extends the history. */
  lemma CommandTraceKeeps(d: Disk, h: seq<Config>, c: Command, k: nat)
    requires Inv(d, h) && Decided(d) && k < |CommandTrace(d, c)|
    ensures Inv(CommandTrace(d, c)[k], Extended(h, CommandTrace(d, c)[k]))
    ensures CommandTrace(d, c)[k].config != d.config <==> Commits(d, c) && k >= 2
  {
    assert h[|h| - 1] == d.config by { }
    hide Inv, Decided;
    if Commits(d, c) {
      RefusalKeeps(d, h, c, "configuration-conflict");
      var accepted := d.(journal := d.journal[c.id := NewEntry(c)]);
      PreviousKeeps(accepted, h);
      CommitKeeps(d, h, c);
      var replaced := accepted.(previous := Some(d.config)).(config := Replacement(d, c));
      if k >= 3 {
        RecoverTraceKeeps(replaced, h + [Replacement(d, c)], k - 3);
      }
    } else if c.candidate.expected != VersionOf(d.config) {
      RefusalKeeps(d, h, c, "configuration-conflict");
    } else {
      RefusalKeeps(d, h, c, "configuration-invalid");
    }
  }

  lemma ApplyTraceAt(d: Disk, c: Command, k: nat)
    requires !Altered(d.config) && k < |ApplyTrace(d, c)|
    ensures ApplyTrace(d, c)[k] ==
              if k == 0 then d
              else if k <= |RecoverTrace(d)| then RecoverTrace(d)[k - 1]
              else CommandTrace(Recovered(d), c)[k - 1 - |RecoverTrace(d)|]
    ensures |ApplyTrace(d, c)| == 1 + |RecoverTrace(d)| + |CommandTrace(Recovered(d), c)|
  {
    hide RecoverTrace, CommandTrace, Recovered, Altered;
  }

  /** Wherever `apply` stops, the state it leaves is consistent, and its configuration is new
      exactly when the command passed the checks and the replacement was written. */
  lemma ApplyAnywhere(d: Disk, h: seq<Config>, c: Command, k: nat)
    requires Inv(d, h) && k < |ApplyTrace(d, c)|
    ensures var s := ApplyTrace(d, c)[k];
            && Inv(s, Extended(h, s))
            && (s.config != d.config <==> Commits(Recovered(d), c) && k >= |RecoverTrace(d)| + 3)
            && (s.config != d.config ==> s.config == Replacement(d, c))
  {
    hide Inv, Recovered, ApplyTrace, CommandTrace, Commits, Decided, Altered, Replacement, RecoverTrace;
    CurrentIsUnaltered(d, h);
    RecoveredKeeps(d, h);
    ApplyTraceAt(d, c, k);
    SameReplacement(d, Recovered(d), c);
    var n := |RecoverTrace(d)|;
    if k == 0 {
    } else if k <= n {
      RecoverTraceKeeps(d, h, k - 1);
      RecoverTraceConfig(d, k - 1);
    } else {
      CommandTraceKeeps(Recovered(d), h, c, k - 1 - n);
      CommandTraceConfig(Recovered(d), c, k - 1 - n);
    }
  }

  lemma SameReplacement(d: Disk, e: Disk, c: Command)
    requires d.config == e.config
    ensures c.replacement.Some? ==> Replacement(d, c) == Replacement(e, c)
  {
  }

  lemma RecoverTraceConfig(d: Disk, k: nat)
    requires k < |RecoverTrace(d)|
    ensures RecoverTrace(d)[k].config == d.config
  {
  }

  lemma CommandTraceConfig(d: Disk, c: Command, k: nat)
    requires k < |CommandTrace(d, c)|
    ensures CommandTrace(d, c)[k].config != d.config ==> c.replacement.Some? && CommandTrace(d, c)[k].config == Replacement(d, c)
  {
    if Commits(d, c) && k >= 3 {
      var replaced := d.(journal := d.journal[c.id := NewEntry(c)]).(previous := Some(d.config)).(config := Replacement(d, c));
      RecoverTraceConfig(replaced, k - 3);
    }
  }

  /** From any crash point in `apply`, the next recovery completes the command exactly when its
      replacement had reached the file, and otherwise rejects it if it had been accepted. */
  lemma CrashThenRecover(d: Disk, h: seq<Config>, c: Command, k: nat)
    requires Inv(d, h) && k < |ApplyTrace(d, c)| && c.id !in d.journal
    ensures var s := ApplyTrace(d, c)[k];
            && (c.id in Recovered(s).journal <==> c.id in s.journal)
            && (c.id in s.journal ==>
                  Recovered(s).journal[c.id].state == if s.config != d.config then Completed else Rejected)
            && (s.config != d.config ==> c.id in s.journal && Recovered(s).journal[c.id].resultVersion == Some(d.config.revision + 1))
  {
    hide ApplyTrace, Commits, Altered, Recovered, Inv, Committed;
    var s := ApplyTrace(d, c)[k];
    CurrentIsUnaltered(d, h);
    ApplyAnywhere(d, h, c, k);
    if c.id in s.journal {
      OnlyConfigurationEntries(d, c, k);
    }
    CommittedIsJournalled(d, h, c.id);
    RecoveryAddsNothing(s, c.id);
    if s.config != d.config {
      ReplacedIsCompleted(s, h, c.id);
    } else if c.id in s.journal {
      RecoveryTellsTheTruth(s, h, c.id);
    }
  }

  /** A current configuration that carries the command's link is its commit, finished by recovery. */
  lemma ReplacedIsCompleted(s: Disk, h: seq<Config>, id: string)
    requires h != [] && s.config != h[|h| - 1] && Inv(s, h + [s.config])
    requires s.config.commit.Some? && s.config.commit.value.commandId == id
    ensures id in s.journal && id in Recovered(s).journal && Recovered(s).journal[id].state.Completed?
    ensures Recovered(s).journal[id].resultVersion == Some(s.config.revision)
  {
    var g := h + [s.config];
    RecoveredKeeps(s, g);
    assert CommitAt(g, |h|, id);
    assert Receipted(s.journal, g, |h|, id);
    RecoveryTellsTheTruth(s, g, id);
    assert Receipted(Recovered(s).journal, g, |h|, id);
  }

  lemma OnlyConfigurationEntries(d: Disk, c: Command, k: nat)
    requires k < |ApplyTrace(d, c)| && c.id !in d.journal && c.id in ApplyTrace(d, c)[k].journal
    ensures ApplyTrace(d, c)[k].journal[c.id].family.Configuration?
  {
    RecoveryAddsNothing(d, c.id);
    var n := |RecoverTrace(d)|;
    if k > n {
      CommandEntries(Recovered(d), c, k - 1 - n);
    }
    hide CommandTrace, Recovered, Finished;
  }

  lemma RecoveryAddsNothing(d: Disk, id: string)
    ensures id in Recovered(d).journal <==> id in d.journal
    ensures id in d.journal ==> Recovered(d).journal[id].family == d.journal[id].family
    ensures forall k :: 0 <= k < |RecoverTrace(d)| ==> (id in RecoverTrace(d)[k].journal <==> id in d.journal)
    ensures forall k :: 0 <= k < |RecoverTrace(d)| && id in d.journal ==> RecoverTrace(d)[k].journal[id].family == d.journal[id].family
  {
  }

  lemma CommandEntries(d: Disk, c: Command, k: nat)
    requires k < |CommandTrace(d, c)| && c.id !in d.journal
    ensures c.id in CommandTrace(d, c)[k].journal && CommandTrace(d, c)[k].journal[c.id].family.Configuration?
  {
    var replaced := if c.replacement.Some? then
      d.(journal := d.journal[c.id := NewEntry(c)]).(previous := Some(d.config)).(config := Replacement(d, c)) else d;
    RecoveryAddsNothing(replaced, c.id);
    hide RecoverTrace, Recovered;
  }

  lemma StaticAnywhere(d: Disk, h: seq<Config>, settings: Settings, k: nat)
    requires Inv(d, h) && Decided(d) && k < |StaticTrace(d, d.config, settings)|
    ensures var s := StaticTrace(d, d.config, settings)[k];
            Inv(s, Extended(h, s)) && Decided(s) && (s.config != d.config <==> k == 2)
  {
    PreviousKeeps(d, h);
    if k == 2 {
      var s := StaticTrace(d, d.config, settings)[k];
      var g := h + [s.config];
      forall i | 0 <= i < |g| - 1
        ensures Link(g, i)
      {
        if i < |h| - 1 { assert Link(h, i); }
        assert g[i + 1] == if i < |h| - 1 then h[i + 1] else s.config;
      }
      forall i, id | CommitAt(g, i, id)
        ensures CommitAt(h, i, id) && Receipted(s.journal, g, i, id)
      {
        assert CommitAt(h, i, id);
        assert Receipted(d.journal, h, i, id);
      }
      forall id | id in s.journal && s.journal[id].family.Configuration? && s.journal[id].state.Completed?
        ensures Committed(g, id)
      {
        assert Committed(h, id);
        var i :| CommitAt(h, i, id);
        assert CommitAt(g, i, id);
      }
    }
  }

  // ---------------------------------------------------------------------------
  // The writers themselves, on a board that may stop before any write

  datatype Outcome = Saved | Refused | Unusable | Stopped

  /** The state after some of the writes. */
  function After(trace: seq<Disk>, writes: nat): Disk
    requires trace != []
  {
    if writes < |trace| then trace[writes] else trace[|trace| - 1]
  }

  class Authority {
    var disk: Disk
    var writes: nat  // how many more writes will succeed

    constructor (disk: Disk, writes: nat)
      ensures this.disk == disk && this.writes == writes
    {
      this.disk, this.writes := disk, writes;
    }

    method Write(next: Disk) returns (ok: bool)
      modifies this
      ensures ok <==> old(writes) > 0
      ensures if ok then disk == next && writes == old(writes) - 1 else disk == old(disk) && writes == old(writes)
    {
      if writes == 0 {
        return false;
      }
      writes := writes - 1;
      disk := next;
      return true;
    }

    method Recover() returns (r: Outcome)
      modifies this
      ensures disk == After([old(disk)] + RecoverTrace(old(disk)), old(writes))
      ensures r.Unusable? <==> Altered(old(disk).config)
      ensures r.Saved? <==> !Altered(old(disk).config) && old(writes) >= |RecoverTrace(old(disk))|
      ensures r.Saved? ==> writes == old(writes) - |RecoverTrace(old(disk))|
      ensures r in {Saved, Unusable, Stopped}
    {
      var config := disk.config;
      if config.commit.Some? {
        if config.commit.value.digest != VersionOf(config).digest {
          return Unusable;
        }
        var ok := Write(disk.(journal := Finish(disk.journal, config.commit.value, config.revision)));
        if !ok { return Stopped; }
      }
      var ok := Write(disk.(journal := RejectUncommitted(disk.journal)));
      return if ok then Saved else Stopped;
    }

    /** Applies a command: recover, accept, compare, write the previous copy, replace, recover. */
    method Apply(c: Command) returns (r: Outcome)
      modifies this
      ensures disk == After(ApplyTrace(old(disk), c), old(writes))
      ensures r.Saved? ==> Commits(Recovered(old(disk)), c) && Enacted(Recovered(old(disk)), disk, c)
      ensures r.Refused? ==> !Commits(Recovered(old(disk)), c) && Declined(Recovered(old(disk)), disk, c)
      ensures r.Unusable? <==> Altered(old(disk).config)
      ensures !Altered(old(disk).config) && old(writes) >= |ApplyTrace(old(disk), c)| ==>
                r == if Commits(Recovered(old(disk)), c) then Saved else Refused
    {
      ghost var start, budget := disk, writes;
      var recovered := Recover();
      if !recovered.Saved? {
        return recovered;
      }
      assert disk == Recovered(start) && NothingUndecided(disk.journal);
      r := Execute(c);
      hide CommandTrace, RecoverTrace, Recovered;
      AfterSplit(start, RecoverTrace(start), CommandTrace(Recovered(start), c), budget);
    }

    /** The part of the application after its first recovery. */
    method Execute(c: Command) returns (r: Outcome)
      modifies this
      ensures disk == After([old(disk)] + CommandTrace(old(disk), c), old(writes))
      ensures r.Saved? ==> Commits(old(disk), c)
      ensures r.Saved? && NothingUndecided(old(disk).journal) ==> Enacted(old(disk), disk, c)
      ensures r.Refused? ==> !Commits(old(disk), c) && Declined(old(disk), disk, c)
      ensures old(writes) >= |CommandTrace(old(disk), c)| ==> r == if Commits(old(disk), c) then Saved else Refused
      ensures !r.Unusable?
    {
      hide RecoverTrace, Enacted, Declined, NothingUndecided, IdAllowed;
      ghost var start := disk;
      RefusalDeclines(start, c);
      var stored := disk.config;
      if !c.allowed || !IdAllowed(c.id) || c.id in disk.journal {
        return Refused;
      }
      var ok := Write(disk.(journal := disk.journal[c.id := NewEntry(c)]));
      if !ok { return Stopped; }
      if c.candidate.expected != VersionOf(stored) {
        ok := Write(disk.(journal := Reject(disk.journal, c.id, "configuration-conflict")));
        return if ok then Refused else Stopped;
      }
      if c.replacement.None? {
        ok := Write(disk.(journal := Reject(disk.journal, c.id, "configuration-invalid")));
        return if ok then Refused else Stopped;
      }
      if stored.revision + 1 > LAST_REVISION {
        return Refused;
      }
      ok := Write(disk.(previous := Some(stored)));
      if !ok { return Stopped; }
      ok := Write(disk.(config := Replacement(disk, c)));
      if !ok { return Stopped; }
      ghost var replaced, budget := disk, writes;
      var finished := Recover();
      ReplacedRecovers(replaced, budget);
      if NothingUndecided(start.journal) { CommittedIsEnacted(start, c); }
      return if finished.Saved? then Saved else Stopped;
    }

    /** The older writer, for an administrator who loaded `known` and holds the board's lock. It
        is refused when the file's version is another one or the last; the outcome is saved
        exactly when both of its writes were done. */
    method SaveStatic(known: Config, settings: Settings) returns (r: Outcome, current: Config)
      modifies this
      ensures disk == After(StaticTrace(old(disk), known, settings), old(writes))
      ensures r.Refused? <==>
                || old(disk).config.revision != known.revision || old(disk).config.settings != known.settings
                || known.revision >= 9_223_372_036_854_775_807
      ensures r.Refused? ==> disk == old(disk) && current == known
      ensures r.Saved? <==> !r.Refused? && old(writes) >= 2
      ensures r.Saved? ==>
                disk == Disk(Config(known.revision + 1, settings, None), Some(known), old(disk).journal) && current == disk.config
      ensures r.Stopped? ==> disk.config == old(disk).config && disk.journal == old(disk).journal && current == known
      ensures !r.Unusable?
    {
      if VersionOf(disk.config) != VersionOf(known) || known.revision + 1 > LAST_REVISION {
        return Refused, known;
      }
      var ok := Write(disk.(previous := Some(known)));
      if !ok { return Stopped, known; }
      var replacement := Config(known.revision + 1, settings, None);
      ok := Write(disk.(config := replacement));
      if !ok { return Stopped, known; }
      return Saved, replacement;
    }
  }

  /** Recovery never changes which configuration is current. */
  lemma ReplacedRecovers(d: Disk, writes: nat)
    ensures After([d] + RecoverTrace(d), writes).config == d.config
    ensures writes >= |RecoverTrace(d)| && !Altered(d.config) ==> After([d] + RecoverTrace(d), writes) == Recovered(d)
  {
  }

  lemma AfterSplit(d: Disk, first: seq<Disk>, second: seq<Disk>, writes: nat)
    requires writes >= |first| && first != []
    ensures After([d] + first + second, writes) == After([first[|first| - 1]] + second, writes - |first|)
  {
  }

  // ---------------------------------------------------------------------------
  // Whole runs

  /** A board between operations; an administrator who loaded it holds the board's lock. */
  datatype Board = Board(disk: Disk, admin: Option<Config>)

  datatype Act = Apply(c: Command, k: nat) | Load(k: nat) | SaveStatic(settings: Settings, k: nat) | Close | OtherCommands

  ghost predicate Step(s: Board, t: Board, a: Act) {
    match a
    case Apply(c, k) => s.admin.None? && t.admin.None? && k < |ApplyTrace(s.disk, c)| && t.disk == ApplyTrace(s.disk, c)[k]
    case Load(k) =>
      && s.admin.None? && k <= |RecoverTrace(s.disk)| && t.disk == ([s.disk] + RecoverTrace(s.disk))[k]
      && (t.admin.Some? ==> !Altered(s.disk.config) && k == |RecoverTrace(s.disk)| && t.admin == Some(s.disk.config))
    case SaveStatic(settings, k) =>
      && s.admin.Some? && k < |StaticTrace(s.disk, s.admin.value, settings)|
      && t.disk == StaticTrace(s.disk, s.admin.value, settings)[k]
      && (t.admin.Some? ==> t.admin.value == if k == 2 then t.disk.config else s.admin.value)
    case Close => t == s.(admin := None)
    case OtherCommands =>
      && t == s.(disk := s.disk.(journal := t.disk.journal))
      && (forall id :: id in s.disk.journal && s.disk.journal[id].family.Configuration? ==>
            id in t.disk.journal && t.disk.journal[id] == s.disk.journal[id])
      && (forall id :: id in t.disk.journal && t.disk.journal[id].family.Configuration? ==>
            id in s.disk.journal && s.disk.journal[id] == t.disk.journal[id])
  }

  ghost predicate Kept(b: Board, h: seq<Config>) {
    Inv(b.disk, h) && (b.admin.Some? ==> b.admin.value == b.disk.config && Decided(b.disk))
  }

  ghost predicate Fresh(b: Board) {
    b.admin.None? && b.disk.config.commit.None? && b.disk.previous.None?
    && forall id :: id in b.disk.journal ==> b.disk.journal[id].family.OtherFamily?
  }

  ghost predicate StepAt(run: seq<Board>, i: nat)
    requires i + 1 < |run|
  {
    exists a {:trigger Step(run[i], run[i + 1], a)} :: Step(run[i], run[i + 1], a)
  }

  ghost predicate Run(run: seq<Board>) {
    && run != [] && Fresh(run[0])
    && forall i {:trigger StepAt(run, i)} :: 0 <= i < |run| - 1 ==> StepAt(run, i)
  }

  /** The configurations that were current up to a point of a run. */
  function HistoryAt(run: seq<Board>, i: nat): (h: seq<Config>)
    requires i < |run|
    ensures h != []
  {
    if i == 0 then [run[0].disk.config] else Extended(HistoryAt(run, i - 1), run[i].disk)
  }

  lemma OtherCommandsKeep(d: Disk, h: seq<Config>, j: Journal)
    requires Inv(d, h)
    requires forall id :: id in d.journal && d.journal[id].family.Configuration? ==> id in j && j[id] == d.journal[id]
    requires forall id :: id in j && j[id].family.Configuration? ==> id in d.journal && d.journal[id] == j[id]
    ensures Inv(d.(journal := j), h) && (Decided(d) ==> Decided(d.(journal := j)))
  {
    forall i, id | CommitAt(h, i, id)
      ensures Receipted(j, h, i, id)
    {
      assert Receipted(d.journal, h, i, id);
    }
  }

  lemma StepKeeps(s: Board, t: Board, h: seq<Config>, a: Act)
    requires Kept(s, h) && Step(s, t, a)
    ensures h != [] && Kept(t, Extended(h, t.disk))
  {
    assert h != [] && h[|h| - 1] == s.disk.config;
    hide Inv, Decided, ApplyTrace, RecoverTrace, StaticTrace, Recovered;
    match a
    case Apply(c, k) =>
      ApplyAnywhere(s.disk, h, c, k);
    case Load(k) =>
      if k > 0 {
        RecoverTraceKeeps(s.disk, h, k - 1);
        RecoverTraceConfig(s.disk, k - 1);
        RecoveredKeeps(s.disk, h);
      }
      LoadedMeansRecovered(s.disk);
    case SaveStatic(settings, k) =>
      StaticAnywhere(s.disk, h, settings, k);
    case Close =>
    case OtherCommands =>
      OtherCommandsKeep(s.disk, h, t.disk.journal);
  }

  lemma LoadedMeansRecovered(d: Disk)
    ensures !Altered(d.config) ==> |RecoverTrace(d)| > 0
  {
  }

  lemma {:induction false} RunKeeps(run: seq<Board>, i: nat)
    requires Run(run) && i < |run|
    ensures Kept(run[i], HistoryAt(run, i))
    decreases i
  {
    if i == 0 {
    } else {
      RunKeeps(run, i - 1);
      assert StepAt(run, i - 1);
      hide Kept, Step, Fresh;
      var a :| Step(run[i - 1], run[i], a);
      StepKeeps(run[i - 1], run[i], HistoryAt(run, i - 1), a);
    }
  }

  lemma {:induction false} RevisionsCount(d: Disk, h: seq<Config>, i: nat)
    requires Inv(d, h) && i < |h|
    ensures h[i].revision == h[0].revision + i
    decreases i
  {
    if i == 0 {
    } else {
      assert Link(h, i - 1);
      RevisionsCount(d, h, i - 1);
    }
  }

  /** A step of a run by which a configuration's settings were supplied: an allowed command
      with them as its replacement, whose names the file then carries, or a static save of them. */
  ghost predicate SuppliedAt(run: seq<Board>, m: nat, config: Config, a: Act)
    requires m + 1 < |run|
  {
    && Step(run[m], run[m + 1], a) && run[m + 1].disk.config == config
    && config.revision == run[m].disk.config.revision + 1
    && match a
       case Apply(c, _) =>
         && c.allowed && c.replacement == Some(config.settings) && c.candidate.expected.revision == run[m].disk.config.revision
         && config.commit.Some? && config.commit.value.commandId == c.id
         && config.commit.value.principal == c.principal && config.commit.value.generation == c.generation
         && config.commit.value.fingerprint == Sha256((c.generation, c.candidate))
         && config.commit.value.digest == Sha256((config.revision, config.settings)) && config.commit.value.resultClass == c.resultClass
       case SaveStatic(settings, _) => settings == config.settings && config.commit.None?
       case _ => false
  }

  ghost predicate Supplied(run: seq<Board>, n: nat, config: Config) {
    exists m: nat, a: Act {:trigger SuppliedAt(run, m, config, a)} :: m < n && m + 1 < |run| && SuppliedAt(run, m, config, a)
  }

  lemma ChangeIsSupplied(s: Board, t: Board, h: seq<Config>, a: Act, run: seq<Board>, m: nat)
    requires Kept(s, h) && Step(s, t, a) && t.disk.config != s.disk.config
    requires m + 1 < |run| && run[m] == s && run[m + 1] == t
    ensures SuppliedAt(run, m, t.disk.config, a)
  {
    hide Inv, Decided, ApplyTrace, RecoverTrace, Recovered;
    match a
    case Apply(c, k) =>
      ApplyAnywhere(s.disk, h, c, k);
      RecoveredMeaning(s.disk);
      CommitsMeaning(Recovered(s.disk), c);
    case Load(k) =>
      if k > 0 { RecoverTraceConfig(s.disk, k - 1); }
    case SaveStatic(settings, k) =>
    case Close =>
    case OtherCommands =>
  }

  /** In every run, every configuration that was ever current after the first holds the settings
      some earlier step supplied, and names that step's command or none. */
  lemma {:induction false} EveryConfigurationWasSupplied(run: seq<Board>, n: nat, i: nat)
    requires Run(run) && n < |run| && 0 < i < |HistoryAt(run, n)|
    ensures Supplied(run, n, HistoryAt(run, n)[i])
    decreases n
  {
    if n > 0 {
      hide Kept, Step, Fresh, SuppliedAt;
      var h := HistoryAt(run, n - 1);
      RunKeeps(run, n - 1);
      if i < |h| {
        EveryConfigurationWasSupplied(run, n - 1, i);
        var m: nat, a: Act :| m < n - 1 && m + 1 < |run| && SuppliedAt(run, m, h[i], a);
        assert SuppliedAt(run, m, HistoryAt(run, n)[i], a);
      } else {
        assert StepAt(run, n - 1);
        var a :| Step(run[n - 1], run[n], a);
        LastIsCurrent(run[n - 1], h);
        ChangeIsSupplied(run[n - 1], run[n], h, a, run, n - 1);
        assert SuppliedAt(run, n - 1, HistoryAt(run, n)[i], a);
      }
    }
  }

  lemma LastIsCurrent(b: Board, h: seq<Config>)
    requires Kept(b, h)
    ensures h != [] && h[|h| - 1] == b.disk.config
  {
  }

  /** The committed candidate was made from this version. */
  predicate Expected(c: Config, v: Version) {
    c.commit.Some? && c.commit.value.fingerprint.Sha256? && c.commit.value.fingerprint.preimage.1.expected == v
  }

  /** In every run, with a crash possible before any write of either writer: revisions count up
      by one; of all candidates that expected the same version at most one was ever committed;
      no command was committed twice; a link that was overwritten has its receipt finished; and
      the previous copy is the current configuration or the one immediately before it. */
  lemma CommittedConfigurationsFormAChain(run: seq<Board>, n: nat, i: nat, j: nat, id: string, other: string)
    requires Run(run) && n < |run|
    ensures HistoryAt(run, n)[|HistoryAt(run, n)| - 1] == run[n].disk.config
    ensures i < |HistoryAt(run, n)| ==> HistoryAt(run, n)[i].revision == HistoryAt(run, n)[0].revision + i
    ensures CommitAt(HistoryAt(run, n), i, id) ==>
              && Expected(HistoryAt(run, n)[i], VersionOf(HistoryAt(run, n)[i - 1]))
              && id in run[n].disk.journal
              && (i < |HistoryAt(run, n)| - 1 ==> run[n].disk.journal[id].state.Completed?)
    ensures CommitAt(HistoryAt(run, n), i, id) && CommitAt(HistoryAt(run, n), j, id) ==> i == j
    ensures CommitAt(HistoryAt(run, n), i, id) && CommitAt(HistoryAt(run, n), j, other) && i != j ==>
              forall v :: !(Expected(HistoryAt(run, n)[i], v) && Expected(HistoryAt(run, n)[j], v))
    ensures run[n].disk.previous.Some? ==>
              || run[n].disk.previous.value == run[n].disk.config
              || (|HistoryAt(run, n)| > 1 && run[n].disk.previous.value == HistoryAt(run, n)[|HistoryAt(run, n)| - 2])
  {
    RunKeeps(run, n);
    var h, d := HistoryAt(run, n), run[n].disk;
    if i < |h| { RevisionsCount(d, h, i); }
    if CommitAt(h, i, id) {
      assert Link(h, i - 1);
      assert Receipted(d.journal, h, i, id);
      RevisionsCount(d, h, i - 1);
    }
    if CommitAt(h, j, other) {
      assert Link(h, j - 1);
      RevisionsCount(d, h, j - 1);
    }
  }

  /** Whatever happened before, the next complete recovery tells every command the truth. */
  lemma RecoveryAfterAnyRun(run: seq<Board>, n: nat, id: string)
    requires Run(run) && n < |run|
    requires id in run[n].disk.journal && run[n].disk.journal[id].family.Configuration?
    ensures id in Recovered(run[n].disk).journal
    ensures Recovered(run[n].disk).journal[id].state == if Committed(HistoryAt(run, n), id) then Completed else Rejected
  {
    RunKeeps(run, n);
    RecoveryTellsTheTruth(run[n].disk, HistoryAt(run, n), id);
  }
}
