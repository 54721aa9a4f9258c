/** Histories of every length exist, so the retention bound and the spelling of stored bodies
    can both be met by inputs one can name. */
module CatalogBound {
  import opened Basics
  import opened Tokens
  import opened Catalog
  import opened CatalogSync

  /** An authority in normal form. */
  predicate NormalPin(pin: Pin) {
    && Token(pin.network, NetworkName) == Ok(pin.network) && Token(pin.publisher, NodeId) == Ok(pin.publisher)
    && HexStr(pin.catalogId, 16).Ok? && HexStr(pin.publicKey, 32).Ok?
  }

  function Zeros(n: nat): (z: string)
    ensures |z| == n && forall i :: 0 <= i < n ==> z[i] == '0'
  {
    seq(n, i requires 0 <= i < n => '0')
  }

  const PLAIN_PIN: Pin := Pin("n", Zeros(32), "R", Zeros(64))

  /** A revision without entries. */
  function BareBody(pin: Pin, n: nat, before: Option<Digest<Body>>): Body {
    Body(1, pin.network, pin.catalogId, n + 1, n, before, 0, pin.publisher, "g", "r", Ordinary, [])
  }

  function Sign(pin: Pin, b: Body): Signed {
    Signed(b, Sha256(b), SignedBy(pin.publicKey, b, 0))
  }

  /** A history of n revisions, none with entries. */
  function BareHistory(pin: Pin, n: nat): (s: seq<Signed>)
    ensures |s| == n
  {
    if n == 0 then []
    else
      var front := BareHistory(pin, n - 1);
      front + [Sign(pin, BareBody(pin, n - 1, if n == 1 then None else Some(front[n - 2].hash)))]
  }

  lemma ShortTextAllowed()
    ensures TextAllowed("g", 160, false, false) && TextAllowed("r", 1024, false, false)
  {
    assert Utf8Length("g"[1..]) == 0 && Utf8Length("r"[1..]) == 0;
  }

  lemma BareIsVerified(pin: Pin, n: nat, before: Option<Digest<Body>>)
    requires NormalPin(pin) && n < LAST_REVISION && (n == 0 <==> before.None?) && (before.Some? ==> before.value.Sha256?)
    ensures Verified(Sign(pin, BareBody(pin, n, before)), pin)
  {
    hide Token, TextAllowed, HexStr;
    ShortTextAllowed();
  }

  lemma {:induction false} BareHistoryIsHistory(pin: Pin, n: nat)
    requires NormalPin(pin) && n <= LAST_REVISION
    ensures History(pin, BareHistory(pin, n))
    ensures n > 0 ==> BareHistory(pin, n)[n - 1].body.entries == [] && BareHistory(pin, n)[n - 1].body.publishedAt == 0
                      && BareHistory(pin, n)[n - 1].hash.Sha256? && BareHistory(pin, n)[n - 1].body.schema == 1
    decreases n
  {
    if n == 0 {
    } else {
      hide Verified, NormalPin;
      var front := BareHistory(pin, n - 1);
      BareHistoryIsHistory(pin, n - 1);
      if n > 1 { RevisionIsIndex(pin, front, n - 2); }
      var next := Sign(pin, BareBody(pin, n - 1, if n == 1 then None else Some(front[n - 2].hash)));
      BareIsVerified(pin, n - 1, next.body.previousHash);
      HistoryGrows(pin, front, next);
    }
  }

  lemma BareIsPublic(pin: Pin, n: nat)
    ensures Available(BareHistory(pin, n), false) == BareHistory(pin, n)
  {
    assert forall i :: 0 <= i < n ==> BareHistory(pin, n)[i].body.schema == 1 by { BareSchema(pin, n); }
    AllShown(BareHistory(pin, n));
  }

  lemma {:induction false} BareSchema(pin: Pin, n: nat)
    ensures forall i :: 0 <= i < n ==> BareHistory(pin, n)[i].body.schema == 1
    decreases n
  {
    if n == 0 {
    } else {
      BareSchema(pin, n - 1);
    }
  }

  lemma {:induction false} AllShown(s: seq<Signed>)
    requires forall i :: 0 <= i < |s| ==> s[i].body.schema == 1
    ensures Available(s, false) == s
    decreases |s|
  {
    if s == [] {
    } else {
      AllShown(s[1..]);
      assert s == [s[0]] + s[1..];
    }
  }

  /** A parent seeded with one revision more than a child may keep: the seed file is stored
      whole, a new child stops at the bound after 64 sessions, and every session after that
      fails there. */
  lemma SeededParentStallsItsChild(pin: Pin, access: bool, sessions: nat)
    requires NormalPin(pin) && sessions >= 64
    ensures var s := BareHistory(pin, MOST_REVISIONS + 1);
            var now := After(s, [], access, pin, sessions);
            && SeedAll([], s, pin) == Taken(s, true)
            && |now| == MOST_REVISIONS
            && Exchange(s, now, access, pin) == Taken(now, false)
  {
    var s := BareHistory(pin, MOST_REVISIONS + 1);
    BareHistoryIsHistory(pin, MOST_REVISIONS + 1);
    hide Exchange, After, Available, SeedAll, BareHistory, NormalPin;
    SeedingRebuilds(pin, s, 0);
    assert s[..0] == [] && s[0..] == s;
    BareIsPublic(pin, MOST_REVISIONS + 1);
    WithAccess(s);
    assert History(pin, []);
    StallsAtTheBound(pin, s, [], access, sessions);
  }

  lemma WithAccess(s: seq<Signed>)
    ensures Available(s, true) == s
  {
  }

  /** One stored object whose network is written in capitals: it passes the check at start and
      is no history. */
  lemma RespelledExample()
    ensures var s := [WithNetwork(BareHistory(PLAIN_PIN, 1)[0], "N")];
            Recheck(PLAIN_PIN, s) && NoNeighboursEqual(s) && !History(PLAIN_PIN, s)
  {
    PlainPinIsNormal();
    BareHistoryIsHistory(PLAIN_PIN, 1);
    var t := BareHistory(PLAIN_PIN, 1);
    assert LowerCase("N") == "n";
    RespelledChainPasses(PLAIN_PIN, t, "N");
    assert seq(|t|, i requires 0 <= i < |t| => WithNetwork(t[i], "N")) == [WithNetwork(t[0], "N")];
  }

  lemma PlainPinIsNormal()
    ensures NormalPin(PLAIN_PIN)
  {
    assert LowerCase("n") == "n" && UpperCase("R") == "R";
  }

  /** An entry that arrives retired in the second revision and says it retired in the first. */
  const LATE_ENTRY: Entry := Entry(Zeros(32), "C", "g", "g", "g", false, Retired, 2, Some(1), "", "g", Public)

  function LateHistory(pin: Pin): seq<Signed> {
    var first := BareHistory(pin, 1);
    first + [Sign(pin, BareBody(pin, 1, Some(Sha256(BareBody(pin, 0, None)))).(entries := [LATE_ENTRY]))]
  }

  lemma LateEntryAllowed()
    ensures EntriesAllowed([LATE_ENTRY], 1, 2) && SpelledEntries([LATE_ENTRY]) == Ok([LATE_ENTRY])
  {
    assert Utf8Length("g"[1..]) == 0;
    assert UpperCase("C") == "C";
    assert Token("C", Codename) == Ok("C");
    var entries := [LATE_ENTRY];
    assert entries[1..] == [];
    var rest := SpelledEntries(entries[1..]);
    assert rest == Ok([]);
    assert entries[0].(codename := "C") == LATE_ENTRY;
    assert SpelledEntries(entries) == Ok([LATE_ENTRY] + rest.value);
    assert [LATE_ENTRY] + rest.value == entries;
  }

  /** It is accepted, and the revision it records did not list it. */
  lemma ArrivesRetired(pin: Pin)
    requires NormalPin(pin)
    ensures var s := LateHistory(pin);
            && History(pin, s) && |s| == 2 && Holds(s, 1, LATE_ENTRY)
            && !HasId(s[LATE_ENTRY.retired.value - 1].body.entries, LATE_ENTRY.id)
            && !DatedByRetirement(s, 1, LATE_ENTRY)
  {
    var first, s := BareHistory(pin, 1), LateHistory(pin);
    BareHistoryIsHistory(pin, 1);
    assert BareHistory(pin, 0) == [];
    assert first == [Sign(pin, BareBody(pin, 0, None))];
    LateEntryAllowed();
    ShortTextAllowed();
    hide Token, TextAllowed, HexStr, EntriesAllowed, SpelledEntries;
    assert Verified(s[1], pin);
    assert Follows(s[1], Some(first[0])) == Ok(true);
    HistoryGrows(pin, first, s[1]);
  }
}
