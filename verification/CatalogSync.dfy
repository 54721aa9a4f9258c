/** Catalog exchange between a parent and a child: what the parent serves, what the
    child appends, and why repeated sessions converge. */
module CatalogSync {
  import opened Basics
  import opened Catalog

  const MOST_REVISIONS := 4096

  datatype Head = Head(revision: int, hash: Option<Digest<Body>>)

  function HeadOf(objects: seq<Signed>): Head {
    if objects == [] then Head(0, None)
    else var last := objects[|objects| - 1]; Head(last.body.revision, Some(last.hash))
  }

  /** What may be shown to a neighbour: without catalog-access, only schema 1. */
  function Available(objects: seq<Signed>, access: bool): seq<Signed> {
    if access || objects == [] then objects
    else (if objects[0].body.schema == 1 then [objects[0]] else []) + Available(objects[1..], access)
  }

  /** The parent's answer to a request: the next objects, or the refusal. */
  function Serve(objects: seq<Signed>, request: Head, enabled: bool, child: bool): Result<seq<Signed>> {
    var revision := HeadOf(objects).revision;
    if enabled && child && revision != 0 then
      :- Require(0 <= request.revision <= revision, ConflictingMessage);
      :- Require(request.revision == 0 ||
                 (request.revision <= |objects| && Some(objects[request.revision - 1].hash) == request.hash), ConflictingMessage);
      var n := request.revision;
      Ok(if n >= |objects| then [] else objects[n..if n + PER_SESSION < |objects| then n + PER_SESSION else |objects|])
    else Ok([])
  }

  /** The child's request, or its refusal of the announced head. */
  function Answer(chain: seq<Signed>, head: Head, parent: bool, pinned: bool): Result<Head> {
    var own := HeadOf(chain);
    :- Require(parent || head.revision == 0, AuthFailed);
    :- Require(parent && pinned ==> head.revision >= own.revision, CatalogRollback);
    :- Require(parent && pinned && head.revision == own.revision ==> head.hash == own.hash, CatalogFork);
    Ok(own)
  }

  datatype Taken = Taken(chain: seq<Signed>, complete: bool)

  function Last(chain: seq<Signed>): Option<Signed> {
    if chain == [] then None else Some(chain[|chain| - 1])
  }

  /** The chain after one object, or None for a refusal. */
  function TakeOne(chain: seq<Signed>, obj: Signed, head: Head, access: bool, pin: Pin): Option<seq<Signed>> {
    var form := VerifiedForm(obj, pin);
    if form.None? then None
    else
      var signed := form.value;
      var follows := Follows(signed, Last(chain));
      if signed.body.revision > head.revision || !(signed.body.schema == 1 || access) || follows.Err?
         || (follows.value && |chain| >= MOST_REVISIONS) then None
      else Some(if follows.value then chain + [signed] else chain)
  }

  /** How many objects a child takes in one session: none unless it asked for them. */
  function Room(enabled: bool): nat {
    if enabled then PER_SESSION else 0
  }

  /** What the store holds after objects arrived one by one, with room for so many; a refusal
      keeps what came before it. */
  function TakeAll(chain: seq<Signed>, objects: seq<Signed>, room: nat, head: Head, access: bool, pin: Pin): Taken
    decreases |objects|
  {
    if objects == [] then Taken(chain, true)
    else if room == 0 then Taken(chain, false)
    else
      var next := TakeOne(chain, objects[0], head, access, pin);
      if next.None? then Taken(chain, false) else TakeAll(next.value, objects[1..], room - 1, head, access, pin)
  }

  /** The chain after one object of a seed file, or None for a refusal; there is no bound. */
  function SeedOne(chain: seq<Signed>, obj: Signed, pin: Pin): Option<seq<Signed>> {
    var form := VerifiedForm(obj, pin);
    if form.None? then None
    else
      var follows := Follows(form.value, Last(chain));
      if follows.Err? then None else Some(if follows.value then chain + [form.value] else chain)
  }

  function SeedAll(chain: seq<Signed>, objects: seq<Signed>, pin: Pin): Taken
    decreases |objects|
  {
    if objects == [] then Taken(chain, true)
    else
      var next := SeedOne(chain, objects[0], pin);
      if next.None? then Taken(chain, false) else SeedAll(next.value, objects[1..], pin)
  }

  lemma {:induction false} TakingGrows(chain: seq<Signed>, objects: seq<Signed>, room: nat, head: Head, access: bool, pin: Pin)
    ensures chain <= TakeAll(chain, objects, room, head, access, pin).chain
    decreases |objects|
  {
    hide Follows, VerifiedForm;
    if objects == [] || room == 0 || TakeOne(chain, objects[0], head, access, pin).None? {
    } else {
      TakingGrows(TakeOne(chain, objects[0], head, access, pin).value, objects[1..], room - 1, head, access, pin);
    }
  }

  lemma {:induction false} SeedingGrows(chain: seq<Signed>, objects: seq<Signed>, pin: Pin)
    ensures chain <= SeedAll(chain, objects, pin).chain
    decreases |objects|
  {
    hide Follows, VerifiedForm;
    if objects == [] || SeedOne(chain, objects[0], pin).None? {
    } else {
      SeedingGrows(SeedOne(chain, objects[0], pin).value, objects[1..], pin);
    }
  }

  /** A store's memory and disk, how many more saves succeed, and whether the loop ran to its end. */
  datatype Kept = Kept(catalogs: seq<Signed>, disk: seq<Signed>, saves: nat, complete: bool)

  /** Every appended revision is saved at once; a save that fails ends the loop with that
      revision in memory only. */
  function Saved(was: seq<Signed>, disk: seq<Signed>, saves: nat, t: Taken): Kept
    requires was <= t.chain
  {
    var grown := |t.chain| - |was|;
    if grown == 0 then Kept(was, disk, saves, t.complete)
    else if grown <= saves then Kept(t.chain, t.chain, saves - grown, t.complete)
    else Kept(t.chain[..|was| + saves + 1], if saves == 0 then disk else t.chain[..|was| + saves], 0, false)
  }

  /** Every save so far succeeded. */
  predicate AllSaved(was: Kept, now: Kept) {
    && was.catalogs <= now.catalogs && |now.catalogs| - |was.catalogs| <= was.saves
    && now.saves == was.saves - (|now.catalogs| - |was.catalogs|)
    && now.disk == if now.catalogs == was.catalogs then was.disk else now.catalogs
  }

  lemma NothingUnsaved(was: Kept)
    ensures AllSaved(was, was)
  {
  }

  lemma NothingMoreUnsaved(was: Kept, now: Kept, same: Kept)
    requires AllSaved(was, now) && same == now.(complete := same.complete)
    ensures AllSaved(was, same)
  {
  }

  lemma OneMoreSaved(was: Kept, before: Kept, now: Kept)
    requires AllSaved(was, before) && before.saves > 0
    requires before.catalogs <= now.catalogs && |now.catalogs| == |before.catalogs| + 1
    requires now.disk == now.catalogs && now.saves == before.saves - 1
    ensures AllSaved(was, now)
  {
    assert now.catalogs != was.catalogs;
  }

  lemma StoppedAllSaved(was: Kept, now: Kept, t: Taken)
    requires AllSaved(was, now) && t == Taken(now.catalogs, now.complete)
    ensures Saved(was.catalogs, was.disk, was.saves, t) == now
  {
    assert now.catalogs == was.catalogs <==> |now.catalogs| == |was.catalogs|;
  }

  lemma StoppedUnsaved(was: Kept, before: Kept, now: Kept, t: Taken)
    requires AllSaved(was, before) && before.saves == 0
    requires |now.catalogs| == |before.catalogs| + 1 && before.catalogs <= now.catalogs <= t.chain
    requires now.disk == before.disk && now.saves == 0 && !now.complete
    ensures was.catalogs <= t.chain && Saved(was.catalogs, was.disk, was.saves, t) == now
  {
    assert before.catalogs == was.catalogs <==> |before.catalogs| == |was.catalogs|;
  }

  /** The catalog part of a peer's store. */
  class CatalogStore {
    var catalogs: seq<Signed>
    var disk: seq<Signed>
    var saves: nat  // how many more saves will succeed

    constructor (saved: seq<Signed>, saves: nat)
      ensures catalogs == saved && disk == saved && this.saves == saves
    {
      catalogs, disk, this.saves := saved, saved, saves;
    }

    ghost function Value(complete: bool): Kept
      reads this
    {
      Kept(catalogs, disk, saves, complete)
    }

    method Append(signed: Signed) returns (ok: bool)
      modifies this
      ensures catalogs == old(catalogs) + [signed] && (ok <==> old(saves) > 0)
      ensures if ok then disk == catalogs && saves == old(saves) - 1 else disk == old(disk) && saves == old(saves)
    {
      catalogs := catalogs + [signed];
      if saves == 0 {
        return false;
      }
      saves := saves - 1;
      disk := catalogs;
      return true;
    }

    /** One received object: verified, within the announced head, permitted and compared with
        the current head; with a verdict on whether it is new. */
    method Judge(obj: Signed, current: Option<Signed>, head: Head, access: bool, pin: Pin) returns (r: Option<(Signed, bool)>)
      requires current == Last(catalogs)
      ensures TakeOne(catalogs, obj, head, access, pin) ==
              if r.None? then None else Some(if r.value.1 then catalogs + [r.value.0] else catalogs)
      ensures r.Some? && !r.value.1 ==> Last(catalogs) == Some(r.value.0)
    {
      hide Follows, VerifiedForm, Verified, BodyAllowed, SpelledBody;
      var signed := Verify(obj, pin);
      if signed.Err? || signed.value.body.revision > head.revision || !(signed.value.body.schema == 1 || access) {
        return None;
      }
      var follows := Follows(signed.value, current);
      if follows.Err? || (follows.value && |catalogs| >= MOST_REVISIONS) {
        return None;
      }
      OnlyTheSameAgain(signed.value, current);
      return Some((signed.value, follows.value));
    }

    /** The receiving loop: judge, append what is new, save. */
    method Receive(objects: seq<Signed>, enabled: bool, head: Head, access: bool, pin: Pin) returns (complete: bool)
      modifies this
      ensures var t := TakeAll(old(catalogs), objects, Room(enabled), head, access, pin);
              && old(catalogs) <= t.chain
              && Value(complete) == Saved(old(catalogs), old(disk), old(saves), t)
    {
      hide TakeOne, Saved, AllSaved;
      var current := Last(catalogs);
      ghost var was, t := Value(true), TakeAll(catalogs, objects, Room(enabled), head, access, pin);
      TakingGrows(catalogs, objects, Room(enabled), head, access, pin);
      NothingUnsaved(was);
      for n := 0 to |objects|
        invariant current == Last(catalogs)
        invariant n <= Room(enabled) && AllSaved(was, Value(true))
        invariant t == TakeAll(catalogs, objects[n..], Room(enabled) - n, head, access, pin)
      {
        assert objects[n..][0] == objects[n] && objects[n..][1..] == objects[n + 1..];
        NothingMoreUnsaved(was, Value(true), Value(false));
        if !enabled || n >= PER_SESSION {
          StoppedAllSaved(was, Value(false), t);
          return false;
        }
        var judged := Judge(objects[n], current, head, access, pin);
        if judged.None? {
          StoppedAllSaved(was, Value(false), t);
          return false;
        }
        var (signed, novel) := judged.value;
        if novel {
          TakingGrows(catalogs + [signed], objects[n + 1..], Room(enabled) - n - 1, head, access, pin);
          ghost var before := Value(true);
          var ok := Append(signed);
          if !ok {
            StoppedUnsaved(was, before, Value(false), t);
            return false;
          }
          OneMoreSaved(was, before, Value(true));
        }
        current := Some(signed);
      }
      StoppedAllSaved(was, Value(true), t);
      return true;
    }

    /** The seeding loop of the command line. */
    method Seed(objects: seq<Signed>, pin: Pin) returns (complete: bool)
      modifies this
      ensures var t := SeedAll(old(catalogs), objects, pin);
              && old(catalogs) <= t.chain
              && Value(complete) == Saved(old(catalogs), old(disk), old(saves), t)
    {
      hide Follows, VerifiedForm, Verified, BodyAllowed, SpelledBody, Saved, AllSaved;
      ghost var was, t := Value(true), SeedAll(catalogs, objects, pin);
      SeedingGrows(catalogs, objects, pin);
      NothingUnsaved(was);
      for n := 0 to |objects|
        invariant AllSaved(was, Value(true))
        invariant t == SeedAll(catalogs, objects[n..], pin)
      {
        assert objects[n..][0] == objects[n] && objects[n..][1..] == objects[n + 1..];
        NothingMoreUnsaved(was, Value(true), Value(false));
        var signed := Verify(objects[n], pin);
        if signed.Err? {
          StoppedAllSaved(was, Value(false), t);
          return false;
        }
        var follows := Follows(signed.value, Last(catalogs));
        if follows.Err? {
          StoppedAllSaved(was, Value(false), t);
          return false;
        }
        if follows.value {
          SeedingGrows(catalogs + [signed.value], objects[n + 1..], pin);
          ghost var before := Value(true);
          var ok := Append(signed.value);
          if !ok {
            StoppedUnsaved(was, before, Value(false), t);
            return false;
          }
          OneMoreSaved(was, before, Value(true));
        }
      }
      StoppedAllSaved(was, Value(true), t);
      return true;
    }
  }

  // ---------------------------------------------------------------------------
  // What is answered, served and taken

  /** The head a child answers with is its own last; it refuses a stranger that announces one, an
      older head, and another head of the same number. */
  lemma AnswerMeaning(chain: seq<Signed>, head: Head, parent: bool, pinned: bool)
    ensures var revision := if chain == [] then 0 else chain[|chain| - 1].body.revision;
            var hash := if chain == [] then None else Some(chain[|chain| - 1].hash);
            Answer(chain, head, parent, pinned) ==
              if !parent && head.revision != 0 then Err(AuthFailed)
              else if parent && pinned && head.revision < revision then Err(CatalogRollback)
              else if parent && pinned && head.revision == revision && head.hash != hash then Err(CatalogFork)
              else Ok(Head(revision, hash))
  {
  }

  /** What is served: nothing to one that asks for nothing or is no child; else the at most 64
      objects after the one the request names, which must be there under its digest. */
  lemma ServeMeaning(objects: seq<Signed>, request: Head, enabled: bool, child: bool)
    requires request.revision >= 0 && (objects != [] ==> objects[|objects| - 1].body.revision == |objects|)
    ensures !enabled || !child || objects == [] ==> Serve(objects, request, enabled, child) == Ok([])
    ensures enabled && child && objects != [] ==>
              var n := request.revision;
              Serve(objects, request, enabled, child) ==
                if n > |objects| || (n > 0 && request.hash != Some(objects[n - 1].hash)) then Err(ConflictingMessage)
                else if n + 64 < |objects| then Ok(objects[n..n + 64]) else Ok(objects[n..])
  {
    assert objects[|objects|..] == [];
    if request.revision <= |objects| { assert objects[request.revision..|objects|] == objects[request.revision..]; }
  }

  /** What is taken: only what verifies, lies within the announced head and may be shown to this
      peer; then the head again changes nothing, and its successor is appended while there are
      fewer than 4096. */
  lemma TakeOneMeaning(chain: seq<Signed>, obj: Signed, head: Head, access: bool, pin: Pin)
    ensures TakeOne(chain, obj, head, access, pin).Some? <==>
              && VerifiedForm(obj, pin).Some?
              && var x := VerifiedForm(obj, pin).value;
                 && x.body.revision <= head.revision && (x.body.schema == 1 || access)
                 && (|| (chain != [] && x == chain[|chain| - 1])
                     || (Follows(x, if chain == [] then None else Some(chain[|chain| - 1])) == Ok(true) && |chain| < 4096))
    ensures TakeOne(chain, obj, head, access, pin).Some? ==>
              var x := VerifiedForm(obj, pin).value;
              TakeOne(chain, obj, head, access, pin).value == if chain != [] && x == chain[|chain| - 1] then chain else chain + [x]
  {
    if VerifiedForm(obj, pin).Some? {
      FollowsMeaning(VerifiedForm(obj, pin).value, Last(chain));
    }
    hide Follows, VerifiedForm;
  }

  /** At most 64 objects are taken in a session, none unasked. */
  lemma RoomMeaning(enabled: bool)
    ensures Room(enabled) == if enabled then 64 else 0
  {
  }

  // ---------------------------------------------------------------------------
  // What a child may grow into

  lemma {:induction false} OnlyLaterSchema(objects: seq<Signed>)
    requires forall i :: 0 <= i < |objects| ==> objects[i].body.schema != 1
    ensures Available(objects, false) == []
    decreases |objects|
  {
    if objects == [] {
    } else {
      OnlyLaterSchema(objects[1..]);
    }
  }

  /** The schema-1 filter of a history is one of its prefixes. */
  lemma {:induction false} AvailableIsPrefix(pin: Pin, all: seq<Signed>, from: nat, access: bool)
    requires History(pin, all) && from <= |all|
    ensures Available(all[from..], access) <= all[from..]
    decreases |all| - from
  {
    var objects := all[from..];
    if access || objects == [] {
    } else {
      assert objects[1..] == all[from + 1..];
      if objects[0].body.schema == 1 {
        AvailableIsPrefix(pin, all, from + 1, access);
        assert objects == [objects[0]] + objects[1..];
      } else {
        forall i | 0 <= i < |objects|
          ensures objects[i].body.schema != 1
        {
          BodyFacts(pin, all, from);
          SchemaGrows(pin, all, from, from + i);
          assert objects[i] == all[from + i];
        }
        OnlyLaterSchema(objects);
      }
    }
  }

  /** Nothing of schema 1 is withheld. */
  lemma {:induction false} AvailableIsAll(objects: seq<Signed>)
    ensures forall x :: x in objects && x.body.schema == 1 ==> x in Available(objects, false)
    decreases |objects|
  {
    if objects == [] {
    } else {
      AvailableIsAll(objects[1..]);
      assert objects == [objects[0]] + objects[1..];
    }
  }

  lemma AvailableHistory(pin: Pin, all: seq<Signed>, access: bool)
    requires History(pin, all)
    ensures History(pin, Available(all, access)) && Available(all, access) <= all
    ensures !access ==> forall i :: 0 <= i < |Available(all, access)| ==> Available(all, access)[i].body.schema == 1
    ensures if access then Available(all, access) == all
            else forall i :: 0 <= i < |all| ==> (all[i].body.schema == 1 <==> i < |Available(all, access)|)
  {
    assert all[0..] == all;
    AvailableIsPrefix(pin, all, 0, access);
    if !access {
      AvailableIsAll(all);
      forall i | 0 <= i < |all|
        ensures all[i].body.schema == 1 ==> i < |Available(all, access)|
      {
        if all[i].body.schema == 1 {
          var k :| 0 <= k < |Available(all, false)| && Available(all, false)[k] == all[i];
          assert all[k] == all[i];
          RevisionIsIndex(pin, all, i);
          RevisionIsIndex(pin, all, k);
        }
      }
    }
    HistoryPrefix(pin, all, |Available(all, access)|);
    assert all[..|Available(all, access)|] == Available(all, access);
    OnlyFirstSchema(all, access);
  }

  lemma {:induction false} OnlyFirstSchema(objects: seq<Signed>, access: bool)
    ensures !access ==> forall i :: 0 <= i < |Available(objects, access)| ==> Available(objects, access)[i].body.schema == 1
    decreases |objects|
  {
    if objects == [] {
    } else {
      OnlyFirstSchema(objects[1..], access);
    }
  }

  /** The same revisions, signatures aside. */
  ghost predicate Begins(chain: seq<Signed>, whole: seq<Signed>) {
    |chain| <= |whole| && forall i :: 0 <= i < |chain| ==> chain[i].body == whole[i].body
  }

  /** Two histories under one authority agree throughout exactly when the shorter one's head says so. */
  lemma HeadDecides(pin: Pin, chain: seq<Signed>, whole: seq<Signed>)
    requires History(pin, chain) && History(pin, whole) && 0 < |chain| <= |whole|
    ensures chain[|chain| - 1].hash == whole[|chain| - 1].hash <==> Begins(chain, whole)
  {
    var n := |chain| - 1;
    BodyFacts(pin, chain, n);
    BodyFacts(pin, whole, n);
    if chain[n].hash == whole[n].hash {
      forall i | 0 <= i < |chain|
        ensures chain[i].body == whole[i].body
      {
        HashLinks(pin, chain, whole, n, i);
      }
    }
  }

  lemma HeadRevision(pin: Pin, s: seq<Signed>)
    requires History(pin, s)
    ensures HeadOf(s).revision == |s|
  {
    if s != [] { RevisionIsIndex(pin, s, |s| - 1); }
  }

  /** How far a chain of some length gets towards another length under the bound. */
  function Within(have: nat, wanted: nat): (n: nat)
    requires have <= wanted
    ensures have <= n <= wanted
  {
    if wanted <= MOST_REVISIONS then wanted else if have <= MOST_REVISIONS then MOST_REVISIONS else have
  }

  /** Taking the next revisions of a history one's own history begins, up to the bound. */
  lemma {:induction false} TakesNext(pin: Pin, chain: seq<Signed>, whole: seq<Signed>, n: nat, room: nat, access: bool)
    requires History(pin, chain) && History(pin, whole) && Begins(chain, whole)
    requires |chain| <= n <= |whole| && n - |chain| <= room
    requires access || forall i :: 0 <= i < |whole| ==> whole[i].body.schema == 1
    ensures var m := Within(|chain|, n);
            && TakeAll(chain, whole[|chain|..n], room, HeadOf(whole), access, pin) == Taken(chain + whole[|chain|..m], m == n)
            && History(pin, chain + whole[|chain|..m]) && Begins(chain + whole[|chain|..m], whole)
    decreases n - |chain|
  {
    hide TakeOne, History, HeadOf;
    var k, m := |chain|, Within(|chain|, n);
    var objects := whole[k..n];
    if objects == [] {
      assert chain + objects == chain;
    } else if k >= MOST_REVISIONS {
      BoundRefuses(pin, chain, whole, access);
      assert objects[0] == whole[k] && chain + whole[k..m] == chain;
    } else {
      assert objects[0] == whole[k] && objects[1..] == whole[k + 1..n];
      NextIsTaken(pin, chain, whole, access);
      TakesNext(pin, chain + [whole[k]], whole, n, room - 1, access);
      assert chain + [whole[k]] + whole[k + 1..m] == chain + whole[k..m];
    }
  }

  /** At the bound the next revision is refused. */
  lemma BoundRefuses(pin: Pin, chain: seq<Signed>, whole: seq<Signed>, access: bool)
    requires History(pin, chain) && History(pin, whole) && Begins(chain, whole) && MOST_REVISIONS <= |chain| < |whole|
    ensures TakeOne(chain, whole[|chain|], HeadOf(whole), access, pin) == None
  {
    hide VerifiedForm, Follows, BodyAllowed, SpelledBody, EntriesAllowed;
    assert Accepted(pin, whole, |chain|);
    NextFollows(pin, chain, whole);
  }

  lemma NextIsTaken(pin: Pin, chain: seq<Signed>, whole: seq<Signed>, access: bool)
    requires History(pin, chain) && History(pin, whole) && Begins(chain, whole) && |chain| < |whole| && |chain| < MOST_REVISIONS
    requires access || whole[|chain|].body.schema == 1
    ensures TakeOne(chain, whole[|chain|], HeadOf(whole), access, pin) == Some(chain + [whole[|chain|]])
    ensures History(pin, chain + [whole[|chain|]])
  {
    hide VerifiedForm, Follows, BodyAllowed, SpelledBody, EntriesAllowed;
    var k := |chain|;
    assert Accepted(pin, whole, k);
    HeadRevision(pin, whole);
    RevisionIsIndex(pin, whole, k);
    NextFollows(pin, chain, whole);
    HistoryGrows(pin, chain, whole[k]);
  }

  lemma NextFollows(pin: Pin, chain: seq<Signed>, whole: seq<Signed>)
    requires History(pin, chain) && History(pin, whole) && Begins(chain, whole) && |chain| < |whole|
    ensures Follows(whole[|chain|], Last(chain)) == Ok(true)
  {
    hide SpelledBody, EntriesAllowed;
    var k := |chain|;
    assert Accepted(pin, whole, k);
    if k > 0 {
      BodyFacts(pin, chain, k - 1);
      BodyFacts(pin, whole, k - 1);
    }
  }

  /** Whatever arrives, a store grown from an empty one stays a history: it only grows at its
      end, by no more than there was room for and never beyond the bound. */
  lemma {:induction false} TakingKeepsHistory(pin: Pin, chain: seq<Signed>, objects: seq<Signed>, room: nat, head: Head, access: bool)
    requires History(pin, chain)
    ensures var after := TakeAll(chain, objects, room, head, access, pin).chain;
            && History(pin, after) && chain <= after && |after| <= |chain| + room
            && (|after| <= MOST_REVISIONS || after == chain)
    decreases |objects|
  {
    hide TakeOne, History;
    if objects == [] || room == 0 {
    } else {
      var next := TakeOne(chain, objects[0], head, access, pin);
      if next.Some? {
        TakingOneKeepsHistory(pin, chain, objects[0], head, access);
        TakingKeepsHistory(pin, next.value, objects[1..], room - 1, head, access);
      }
    }
  }

  lemma TakingOneKeepsHistory(pin: Pin, chain: seq<Signed>, obj: Signed, head: Head, access: bool)
    requires History(pin, chain) && TakeOne(chain, obj, head, access, pin).Some?
    ensures var after := TakeOne(chain, obj, head, access, pin).value;
            History(pin, after) && (after == chain || (|after| == |chain| + 1 <= MOST_REVISIONS && chain <= after))
  {
    hide Follows, History, Verified, VerifiedForm;
    FormIsVerified(obj, pin);
    if Follows(VerifiedForm(obj, pin).value, Last(chain)).value {
      HistoryGrows(pin, chain, VerifiedForm(obj, pin).value);
    }
  }

  lemma FormIsVerified(obj: Signed, pin: Pin)
    requires VerifiedForm(obj, pin).Some?
    ensures Verified(VerifiedForm(obj, pin).value, pin)
  {
  }

  // ---------------------------------------------------------------------------
  // One exchange, and many

  /** A whole exchange: announced head, request, objects served, objects taken. */
  function Exchange(parentChain: seq<Signed>, childChain: seq<Signed>, access: bool, pin: Pin): (t: Taken)
    ensures childChain <= t.chain
  {
    var shown := Available(parentChain, access);
    var objects := Transfer(shown, childChain);
    if objects.None? then Taken(childChain, false)
    else
      TakingGrows(childChain, objects.value, Room(true), HeadOf(shown), access, pin);
      TakeAll(childChain, objects.value, Room(true), HeadOf(shown), access, pin)
  }

  function Reach(have: nat, available: nat, sessions: nat): nat {
    if have + PER_SESSION * sessions < available then have + PER_SESSION * sessions else available
  }

  /** What is served to a child, and whether it is: the next objects, when the child's head is the parent's. */
  function Transfer(shown: seq<Signed>, childChain: seq<Signed>): Option<seq<Signed>> {
    var request := Answer(childChain, HeadOf(shown), true, true);
    if request.Err? then None
    else
      var served := Serve(shown, request.value, true, true);
      if served.Err? then None else Some(served.value)
  }

  lemma TransferOutcome(pin: Pin, shown: seq<Signed>, childChain: seq<Signed>)
    requires History(pin, shown) && History(pin, childChain)
    ensures Transfer(shown, childChain).Some? <==> Begins(childChain, shown)
    ensures Begins(childChain, shown) ==>
              Transfer(shown, childChain) == Some(shown[|childChain|..Reach(|childChain|, |shown|, 1)])
  {
    HeadRevision(pin, shown);
    HeadRevision(pin, childChain);
    if childChain != [] && |childChain| <= |shown| {
      HeadDecides(pin, childChain, shown);
    }
    if Begins(childChain, shown) {
      assert shown[|childChain|..|childChain|] == [];
    }
  }

  /** An exchange is begun exactly when the child's history begins what the parent may show;
      then it appends the next 64 revisions, or all that remain, as far as the bound lets it,
      and it is complete exactly when the bound did not stop it. */
  lemma ExchangeOutcome(pin: Pin, parentChain: seq<Signed>, childChain: seq<Signed>, access: bool)
    requires History(pin, parentChain) && History(pin, childChain)
    ensures var shown := Available(parentChain, access);
            var t := Exchange(parentChain, childChain, access, pin);
            && (!Begins(childChain, shown) ==> t == Taken(childChain, false))
            && (Begins(childChain, shown) ==>
                  var n := Reach(|childChain|, |shown|, 1);
                  var m := Within(|childChain|, n);
                  t == Taken(childChain + shown[|childChain|..m], m == n) && Begins(t.chain, shown))
            && History(pin, t.chain)
  {
    hide TakeAll, Answer, Serve, Accepted, Transfer;
    AvailableHistory(pin, parentChain, access);
    var shown := Available(parentChain, access);
    TransferOutcome(pin, shown, childChain);
    hide History;
    if Begins(childChain, shown) {
      TakesNext(pin, childChain, shown, Reach(|childChain|, |shown|, 1), Room(true), access);
    }
  }

  /** The child's history after some sessions with an unchanging parent, every save succeeding. */
  function After(parentChain: seq<Signed>, childChain: seq<Signed>, access: bool, pin: Pin, sessions: nat): seq<Signed> {
    if sessions == 0 then childChain
    else Exchange(parentChain, After(parentChain, childChain, access, pin, sessions - 1), access, pin).chain
  }

  lemma OneMoreSession(have: nat, available: nat, sessions: nat)
    requires have <= available
    ensures var goal := Within(have, available);
            var n := Reach(have, goal, sessions);
            && have <= n <= goal && (sessions >= (goal - have + 63) / 64 ==> n == goal)
            && (if sessions == 0 then n == have
                else var m := Reach(have, goal, sessions - 1);
                     have <= m <= n && m <= Reach(m, available, 1) && Within(m, Reach(m, available, 1)) == n)
  {
  }

  /** Each session closes up to 64 of the gap to what may be shown, or to the bound if that
      comes first, so a gap of G is closed after ceil(G / 64). */
  lemma {:induction false} Converges(pin: Pin, parentChain: seq<Signed>, childChain: seq<Signed>, access: bool, sessions: nat)
    requires History(pin, parentChain) && History(pin, childChain)
    requires Begins(childChain, Available(parentChain, access))
    ensures var shown := Available(parentChain, access);
            var now, goal := After(parentChain, childChain, access, pin, sessions), Within(|childChain|, |shown|);
            && History(pin, now) && Begins(now, shown)
            && now == childChain + shown[|childChain|..Reach(|childChain|, goal, sessions)]
            && (sessions >= (goal - |childChain| + 63) / 64 ==> |now| == goal)
    decreases sessions
  {
    hide Exchange, TakeAll, History, Available, Within, Reach;
    var shown := Available(parentChain, access);
    var goal := Within(|childChain|, |shown|);
    OneMoreSession(|childChain|, |shown|, sessions);
    if sessions == 0 {
      assert childChain + shown[|childChain|..|childChain|] == childChain;
    } else {
      Converges(pin, parentChain, childChain, access, sessions - 1);
      var before := After(parentChain, childChain, access, pin, sessions - 1);
      ExchangeOutcome(pin, parentChain, before, access);
      var m, n := Reach(|childChain|, goal, sessions - 1), Reach(|childChain|, goal, sessions);
      hide After, Begins;
      assert |before| == m;
      assert shown[|childChain|..m] + shown[m..n] == shown[|childChain|..n];
    }
  }

  ghost predicate ReachesAll(pin: Pin, parentChain: seq<Signed>, childChain: seq<Signed>, access: bool, sessions: nat) {
    |After(parentChain, childChain, access, pin, sessions)| == |Available(parentChain, access)|
  }

  /** While every save succeeds, the child ever has all its parent may show exactly when that is
      within the retention bound, unless it already had all of it. */
  lemma ConvergesExactlyWithinTheBound(pin: Pin, parentChain: seq<Signed>, childChain: seq<Signed>, access: bool)
    requires History(pin, parentChain) && History(pin, childChain)
    requires Begins(childChain, Available(parentChain, access))
    ensures (exists sessions :: ReachesAll(pin, parentChain, childChain, access, sessions)) <==>
            |Available(parentChain, access)| <= MOST_REVISIONS || |childChain| == |Available(parentChain, access)|
  {
    hide After, Available, History;
    var shown := |Available(parentChain, access)|;
    var enough := (shown - |childChain| + 63) / 64;
    Converges(pin, parentChain, childChain, access, enough);
    if shown <= MOST_REVISIONS || |childChain| == shown {
      assert ReachesAll(pin, parentChain, childChain, access, enough);
    }
    forall sessions | ReachesAll(pin, parentChain, childChain, access, sessions)
      ensures shown <= MOST_REVISIONS || |childChain| == shown
    {
      Converges(pin, parentChain, childChain, access, sessions);
    }
  }

  /** Beyond the bound the child stops at it, and from then on every session fails in its
      catalog part. */
  lemma StallsAtTheBound(pin: Pin, parentChain: seq<Signed>, childChain: seq<Signed>, access: bool, sessions: nat)
    requires History(pin, parentChain) && History(pin, childChain)
    requires Begins(childChain, Available(parentChain, access))
    requires |childChain| <= MOST_REVISIONS < |Available(parentChain, access)|
    requires sessions >= (MOST_REVISIONS - |childChain| + 63) / 64
    ensures var now := After(parentChain, childChain, access, pin, sessions);
            && |now| == MOST_REVISIONS
            && Exchange(parentChain, now, access, pin) == Taken(now, false)
  {
    hide Exchange, TakeAll, History, Available;
    Converges(pin, parentChain, childChain, access, sessions);
    var now := After(parentChain, childChain, access, pin, sessions);
    ExchangeOutcome(pin, parentChain, now, access);
    assert now + Available(parentChain, access)[|now|..|now|] == now;
  }

  /** What a child has on disk after some sessions, each by a new process that starts from its
      disk, and how many more saves succeed. */
  function OnDiskAfter(parentChain: seq<Signed>, disk: seq<Signed>, saves: nat, access: bool, pin: Pin, sessions: nat): (seq<Signed>, nat) {
    if sessions == 0 then (disk, saves)
    else
      var (now, left) := OnDiskAfter(parentChain, disk, saves, access, pin, sessions - 1);
      var kept := Saved(now, now, left, Exchange(parentChain, now, access, pin));
      (kept.disk, kept.saves)
  }

  function Least(a: nat, b: nat): nat { if a <= b then a else b }

  /** With so many saves left, the disk follows the sessions until the saves are used up. */
  lemma {:induction false} DiskConverges(pin: Pin, parentChain: seq<Signed>, disk: seq<Signed>, saves: nat, access: bool, sessions: nat)
    requires History(pin, parentChain) && History(pin, disk) && Begins(disk, Available(parentChain, access))
    ensures var shown := Available(parentChain, access);
            var n := Least(Reach(|disk|, Within(|disk|, |shown|), sessions), |disk| + saves);
            && |disk| <= n <= |shown|
            && OnDiskAfter(parentChain, disk, saves, access, pin, sessions) == (disk + shown[|disk|..n], |disk| + saves - n)
            && History(pin, disk + shown[|disk|..n]) && Begins(disk + shown[|disk|..n], shown)
    decreases sessions
  {
    hide Exchange, History, Available, Within, Reach;
    var shown := Available(parentChain, access);
    var goal := Within(|disk|, |shown|);
    OneMoreSession(|disk|, |shown|, sessions);
    if sessions == 0 {
      assert disk + shown[|disk|..|disk|] == disk;
    } else {
      DiskConverges(pin, parentChain, disk, saves, access, sessions - 1);
      OneMoreSession(|disk|, |shown|, sessions - 1);
      var (now, left) := OnDiskAfter(parentChain, disk, saves, access, pin, sessions - 1);
      ExchangeOutcome(pin, parentChain, now, access);
      AvailableHistory(pin, parentChain, access);
      hide OnDiskAfter, Begins;
      OneMoreProcess(pin, shown, disk, saves, sessions, now, left, Exchange(parentChain, now, access, pin));
    }
  }

  /** One process: it saves what it took until the saves are used up. */
  lemma OneMoreProcess(pin: Pin, shown: seq<Signed>, disk: seq<Signed>, saves: nat, sessions: nat, now: seq<Signed>, left: nat, t: Taken)
    requires History(pin, shown) && Begins(now, shown) && History(pin, now) && sessions > 0 && |disk| <= |shown|
    requires var goal := Within(|disk|, |shown|);
             var m := Least(Reach(|disk|, goal, sessions - 1), |disk| + saves);
             |disk| <= m <= |shown| && now == disk + shown[|disk|..m] && left == |disk| + saves - m
    requires t == Taken(now + shown[|now|..Within(|now|, Reach(|now|, |shown|, 1))], t.complete) && now <= t.chain
    requires History(pin, t.chain) && Begins(t.chain, shown)
    ensures var n := Least(Reach(|disk|, Within(|disk|, |shown|), sessions), |disk| + saves);
            var kept := Saved(now, now, left, t);
            && |disk| <= n <= |shown| && kept.disk == disk + shown[|disk|..n] && kept.saves == |disk| + saves - n
            && History(pin, kept.disk) && Begins(kept.disk, shown)
  {
    hide Within, Reach, History, Least, Saved, Begins;
    var n := Least(Reach(|disk|, Within(|disk|, |shown|), sessions), |disk| + saves);
    OneMoreSession(|disk|, |shown|, sessions);
    OneMoreSession(|disk|, |shown|, sessions - 1);
    var m, w := |now|, Within(|now|, Reach(|now|, |shown|, 1));
    WithinAfter(|disk|, |shown|, saves, sessions, m, w, n);
    assert shown[|disk|..m] + shown[m..w] == shown[|disk|..w];
    assert t.chain == disk + shown[|disk|..w];
    SavedDisk(now, left, t);
    LeastIsOne(w, |disk| + saves);
    assert t.chain[..n] == disk + shown[|disk|..n];
    HistoryPrefix(pin, t.chain, n);
    BeginsPrefix(t.chain, shown, n);
  }

  lemma LeastIsOne(a: nat, b: nat)
    ensures Least(a, b) <= a && Least(a, b) <= b
  {
  }

  lemma BeginsPrefix(chain: seq<Signed>, whole: seq<Signed>, n: nat)
    requires Begins(chain, whole) && n <= |chain|
    ensures Begins(chain[..n], whole)
  {
  }

  /** The disk has what was taken, as far as the saves went. */
  lemma SavedDisk(now: seq<Signed>, left: nat, t: Taken)
    requires now <= t.chain
    ensures var n := Least(|t.chain|, |now| + left);
            |now| <= n <= |t.chain| && Saved(now, now, left, t).disk == t.chain[..n] && Saved(now, now, left, t).saves == |now| + left - n
  {
    assert t.chain[..|t.chain|] == t.chain;
    assert t.chain[..|now|] == now;
  }

  lemma WithinAfter(have: nat, available: nat, saves: nat, sessions: nat, m: nat, w: nat, n: nat)
    requires have <= available && sessions > 0
    requires var goal := Within(have, available);
             && m == Least(Reach(have, goal, sessions - 1), have + saves)
             && have <= m <= available && w == Within(m, Reach(m, available, 1))
             && n == Least(Reach(have, goal, sessions), have + saves)
    ensures n == Least(w, have + saves) && m <= n <= w <= available
  {
  }

  ghost predicate DiskReachesAll(pin: Pin, parentChain: seq<Signed>, disk: seq<Signed>, saves: nat, access: bool, sessions: nat) {
    |OnDiskAfter(parentChain, disk, saves, access, pin, sessions).0| == |Available(parentChain, access)|
  }

  /** The child ever has on disk all its parent may show exactly when enough saves succeed and,
      unless nothing was missing, all of it is within the retention bound. */
  lemma DiskConvergesExactly(pin: Pin, parentChain: seq<Signed>, disk: seq<Signed>, saves: nat, access: bool)
    requires History(pin, parentChain) && History(pin, disk) && Begins(disk, Available(parentChain, access))
    ensures (exists sessions :: DiskReachesAll(pin, parentChain, disk, saves, access, sessions)) <==>
            var shown := |Available(parentChain, access)|;
            shown == |disk| || (shown <= MOST_REVISIONS && shown - |disk| <= saves)
  {
    hide OnDiskAfter, Available, History;
    var shown := |Available(parentChain, access)|;
    var enough := (shown - |disk| + 63) / 64;
    DiskConverges(pin, parentChain, disk, saves, access, enough);
    OneMoreSession(|disk|, shown, enough);
    if shown == |disk| || (shown <= MOST_REVISIONS && shown - |disk| <= saves) {
      assert DiskReachesAll(pin, parentChain, disk, saves, access, enough);
    }
    forall sessions | DiskReachesAll(pin, parentChain, disk, saves, access, sessions)
      ensures shown == |disk| || (shown <= MOST_REVISIONS && shown - |disk| <= saves)
    {
      DiskConverges(pin, parentChain, disk, saves, access, sessions);
      OneMoreSession(|disk|, shown, sessions);
    }
  }

  /** Seeding an empty store with a history of any length stores all of it. */
  lemma {:induction false} SeedingRebuilds(pin: Pin, s: seq<Signed>, n: nat)
    requires History(pin, s) && n <= |s|
    ensures SeedAll(s[..n], s[n..], pin) == Taken(s, true)
    decreases |s| - n
  {
    hide VerifiedForm, Follows, Verified;
    if n == |s| {
      assert s[..n] == s;
    } else {
      assert Accepted(pin, s, n);
      NormalIsVerified(s[n], pin);
      assert Last(s[..n]) == if n == 0 then None else Some(s[n - 1]);
      assert s[n..][0] == s[n] && s[n..][1..] == s[n + 1..] && s[..n] + [s[n]] == s[..n + 1];
      SeedingRebuilds(pin, s, n + 1);
    }
  }
}
