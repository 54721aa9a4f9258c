/** Signed conference catalogs: validation of one revision, the rule by which a
    revision follows another, and what that rule keeps along a whole history. */
module Catalog {
  import opened Basics
  import opened Tokens

  datatype Status = Proposed | Active | Deprecated | Retired
  datatype Access = Public | Sysops
  datatype Intent = Ordinary | Reactivate | Reuse

  datatype Entry = Entry(
    id: string, codename: string, displayName: string, description: string, category: string,
    required: bool, status: Status, effective: int, retired: Option<int>,
    historicalReference: string, moderatorRole: string, access: Access)

  datatype Body = Body(
    schema: int, network: string, catalogId: string, revision: int, previousRevision: int,
    previousHash: Option<Digest<Body>>, publishedAt: int, publisher: string,
    governanceReference: string, rationale: string, intent: Intent, entries: seq<Entry>)

  /** A signature that checks names its key and the body it covers; one body may have several. */
  datatype Signature = SignedBy(key: string, body: Body, nonce: int) | Unsigned(hex: string)

  datatype Signed = Signed(body: Body, hash: Digest<Body>, signature: Signature)

  datatype Pin = Pin(network: string, catalogId: string, publisher: string, publicKey: string)

  const LAST_REVISION := 0x7fff_ffff_ffff_ffff

  // ---------------------------------------------------------------------------
  // One revision

  /** String order, as used on entry identities. */
  predicate Before(a: string, b: string)
    decreases |b|
  {
    b != [] && (a == [] || a[0] < b[0] || (a[0] == b[0] && Before(a[1..], b[1..])))
  }

  lemma {:induction false} BeforeTransitive(a: string, b: string, c: string)
    requires Before(a, b) && Before(b, c)
    ensures Before(a, c)
    decreases |c|
  {
    if a == [] || !(a[0] == b[0] == c[0]) {
    } else {
      BeforeTransitive(a[1..], b[1..], c[1..]);
    }
  }

  lemma {:induction false} BeforeIrreflexive(a: string)
    ensures !Before(a, a)
    decreases |a|
  {
    if a == [] {
    } else {
      BeforeIrreflexive(a[1..]);
    }
  }

  predicate EntryTextsAllowed(e: Entry) {
    && TextAllowed(e.displayName, 80, false, false) && TextAllowed(e.description, 1024, false, false)
    && TextAllowed(e.category, 60, false, false) && TextAllowed(e.historicalReference, 160, false, true)
    && TextAllowed(e.moderatorRole, 80, false, false)
  }

  predicate EntryAllowed(e: Entry, schema: int, revision: int) {
    && HexStr(e.id, 16).Ok?
    && (schema == 2 || e.access.Public?)
    && EntryTextsAllowed(e)
    && 1 <= e.effective <= revision
    && (e.status.Retired? <==> e.retired.Some?)
    && (e.retired.Some? ==> 1 <= e.retired.value <= revision)
  }

  /** Identities strictly increase and live codenames do not repeat. */
  predicate EntriesAllowed(entries: seq<Entry>, schema: int, revision: int) {
    && (forall i :: 0 <= i < |entries| ==> EntryAllowed(entries[i], schema, revision))
    && (forall i, j :: 0 <= i < j < |entries| ==> Before(entries[i].id, entries[j].id))
    && (forall i, j :: 0 <= i < j < |entries| && !entries[i].status.Retired? && !entries[j].status.Retired? ==>
          entries[i].codename != entries[j].codename)
  }

  function SpelledEntries(entries: seq<Entry>): (r: Result<seq<Entry>>)
    ensures r.Ok? ==> |r.value| == |entries|
  {
    if entries == [] then Ok([])
    else
      var codename :- Token(entries[0].codename, Codename);
      var rest :- SpelledEntries(entries[1..]);
      Ok([entries[0].(codename := codename)] + rest)
  }

  predicate BodyAllowed(b: Body) {
    && HexStr(b.catalogId, 16).Ok?
    && b.schema in {1, 2}
    && 1 <= b.revision <= LAST_REVISION
    && b.previousRevision == b.revision - 1
    && (b.revision == 1 <==> b.previousHash.None?)
    && (b.previousHash.Some? && b.previousHash.value.Unrelated? ==> HexStr(b.previousHash.value.hex, 32).Ok?)
    && 0 <= b.publishedAt <= LAST_TIMESTAMP
    && TextAllowed(b.governanceReference, 160, false, false) && TextAllowed(b.rationale, 1024, false, false)
    && |b.entries| <= 256
    && EntriesAllowed(b.entries, b.schema, b.revision)
  }

  function SpelledBody(b: Body): Result<Body> {
    var network :- Token(b.network, NetworkName);
    var publisher :- Token(b.publisher, NodeId);
    var entries :- SpelledEntries(b.entries);
    Ok(b.(network := network, publisher := publisher, entries := entries))
  }

  // The checks in the order in which they refuse.

  function Unless(test: bool, code: Error): Option<Error> {
    if test then None else Some(code)
  }

  function OrElse(first: Option<Error>, second: Option<Error>): Option<Error> {
    if first.Some? then first else second
  }

  /** Why an entry is refused after the identity and the live codenames so far. */
  function EntryRefusal(e: Entry, schema: int, revision: int, last: string, codes: set<string>): Option<Error> {
    var name := Token(e.codename, Codename);
    OrElse(Unless(schema == 2 || e.access.Public?, InvalidCatalog),
    OrElse(Unless(HexStr(e.id, 16).Ok?, MalformedFrame),
    OrElse(Unless(Before(last, e.id), InvalidCatalog),
    OrElse(Unless(name.Ok? && EntryTextsAllowed(e) && 1 <= e.effective <= revision, MalformedFrame),
    OrElse(Unless(e.status.Retired? <==> e.retired.Some?, InvalidCatalog),
    OrElse(Unless(e.retired.Some? ==> 1 <= e.retired.value <= revision, MalformedFrame),
           Unless(e.status.Retired? || name.Err? || name.value !in codes, CatalogLifecycle)))))))
  }

  /** Why a body is refused before its entries are looked at. */
  function HeadRefusal(b: Body): Option<Error> {
    OrElse(Unless(Token(b.network, NetworkName).Ok? && Token(b.publisher, NodeId).Ok? && HexStr(b.catalogId, 16).Ok?
                  && 0 <= b.schema <= 65535, MalformedFrame),
    OrElse(Unless(b.schema in {1, 2}, InvalidCatalog),
    OrElse(Unless(1 <= b.revision <= LAST_REVISION && 0 <= b.previousRevision <= 0xffff_ffff_ffff_ffff, MalformedFrame),
    OrElse(Unless(b.previousRevision == b.revision - 1 && (b.revision == 1 <==> b.previousHash.None?), InvalidCatalog),
    OrElse(Unless((b.previousHash.Some? && b.previousHash.value.Unrelated? ==> HexStr(b.previousHash.value.hex, 32).Ok?)
                  && 0 <= b.publishedAt <= LAST_TIMESTAMP
                  && TextAllowed(b.governanceReference, 160, false, false) && TextAllowed(b.rationale, 1024, false, false), MalformedFrame),
           Unless(|b.entries| <= 256, InvalidCatalog))))))
  }

  function LastId(entries: seq<Entry>): string {
    if entries == [] then "" else entries[|entries| - 1].id
  }

  function LiveCodes(entries: seq<Entry>): set<string> {
    set i | 0 <= i < |entries| && !entries[i].status.Retired? :: entries[i].codename
  }

  predicate EntriesStand(entries: seq<Entry>, schema: int, revision: int) {
    SpelledEntries(entries).Ok? && EntriesAllowed(SpelledEntries(entries).value, schema, revision)
  }

  /** All entries before this one stand, and it is refused. */
  predicate FirstRefused(entries: seq<Entry>, schema: int, revision: int, n: nat, code: Error) {
    && n < |entries| && EntriesStand(entries[..n], schema, revision)
    && EntryRefusal(entries[n], schema, revision, LastId(entries[..n]), LiveCodes(SpelledEntries(entries[..n]).value)) == Some(code)
  }

  ghost predicate BodyRefusedWith(b: Body, code: Error) {
    if HeadRefusal(b).Some? then HeadRefusal(b) == Some(code)
    else exists n :: FirstRefused(b.entries, b.schema, b.revision, n, code)
  }

  lemma {:induction false} SpelledInParts(a: seq<Entry>, b: seq<Entry>)
    ensures SpelledEntries(a + b).Ok? <==> SpelledEntries(a).Ok? && SpelledEntries(b).Ok?
    ensures SpelledEntries(a + b).Ok? ==> SpelledEntries(a + b).value == SpelledEntries(a).value + SpelledEntries(b).value
    decreases |a|
  {
    hide Token;
    if a == [] {
      assert a + b == b;
    } else {
      SpelledInParts(a[1..], b);
      assert (a + b)[1..] == a[1..] + b;
    }
  }

  lemma OneSpelled(e: Entry)
    ensures SpelledEntries([e]).Ok? <==> Token(e.codename, Codename).Ok?
    ensures SpelledEntries([e]).Ok? ==> SpelledEntries([e]).value == [Spelled(e)]
  {
    hide Token;
    assert [e][1..] == [];
  }

  function Spelled(e: Entry): Entry
    requires Token(e.codename, Codename).Ok?
  {
    e.(codename := Token(e.codename, Codename).value)
  }

  lemma SpelledOneMore(entries: seq<Entry>, n: nat)
    requires n < |entries|
    ensures SpelledEntries(entries[..n + 1]).Ok? <==> SpelledEntries(entries[..n]).Ok? && Token(entries[n].codename, Codename).Ok?
    ensures SpelledEntries(entries[..n + 1]).Ok? ==>
              SpelledEntries(entries[..n + 1]).value == SpelledEntries(entries[..n]).value + [Spelled(entries[n])]
  {
    OneSpelled(entries[n]);
    SpelledInParts(entries[..n], [entries[n]]);
    hide Token, SpelledEntries;
    assert entries[..n] + [entries[n]] == entries[..n + 1];
  }

  /** The normal forms of a prefix are a prefix of the normal forms. */
  lemma SpelledPrefix(entries: seq<Entry>, n: nat)
    requires n <= |entries| && SpelledEntries(entries).Ok?
    ensures SpelledEntries(entries[..n]) == Ok(SpelledEntries(entries).value[..n])
  {
    SpelledInParts(entries[..n], entries[n..]);
    hide Token, SpelledEntries;
    assert entries[..n] + entries[n..] == entries;
    assert (SpelledEntries(entries[..n]).value + SpelledEntries(entries[n..]).value)[..n] == SpelledEntries(entries[..n]).value;
  }

  lemma SpelledAt(entries: seq<Entry>, n: nat)
    requires n < |entries| && SpelledEntries(entries).Ok?
    ensures Token(entries[n].codename, Codename).Ok? && SpelledEntries(entries).value[n] == Spelled(entries[n])
  {
    SpelledPrefix(entries, n);
    SpelledPrefix(entries, n + 1);
    SpelledOneMore(entries, n);
    hide Token, SpelledEntries, Spelled;
    var all := SpelledEntries(entries).value;
    assert all[..n + 1][n] == all[n];
  }

  /** An entry that is not refused extends a list that stands. */
  lemma AppendAllowed(normal: seq<Entry>, e: Entry, schema: int, revision: int)
    requires EntriesAllowed(normal, schema, revision) && EntryAllowed(e, schema, revision)
    requires Before(LastId(normal), e.id) && (e.status.Retired? || e.codename !in LiveCodes(normal))
    ensures EntriesAllowed(normal + [e], schema, revision)
  {
    hide EntryAllowed;
    forall i | 0 <= i < |normal|
      ensures Before(normal[i].id, e.id)
    {
      if i < |normal| - 1 { BeforeTransitive(normal[i].id, LastId(normal), e.id); }
    }
    hide Before;
  }

  /** And one that is refused stands in no list that begins like this. */
  lemma RefusedNeverStands(normal: seq<Entry>, n: nat, schema: int, revision: int)
    requires n < |normal| && EntriesAllowed(normal, schema, revision)
    ensures EntryAllowed(normal[n], schema, revision) && Before(LastId(normal[..n]), normal[n].id)
    ensures normal[n].status.Retired? || normal[n].codename !in LiveCodes(normal[..n])
  {
    if n > 0 { assert normal[..n][n - 1] == normal[n - 1]; }
    if normal[n].codename in LiveCodes(normal[..n]) {
      var i :| 0 <= i < n && !normal[..n][i].status.Retired? && normal[..n][i].codename == normal[n].codename;
      assert normal[..n][i] == normal[i];
    }
    hide Before;
  }

  lemma EntryDecides(entries: seq<Entry>, schema: int, revision: int, n: nat)
    requires n < |entries| && EntriesStand(entries[..n], schema, revision) && schema in {1, 2}
    ensures var normal := SpelledEntries(entries[..n]).value;
            var refusal := EntryRefusal(entries[n], schema, revision, LastId(normal), LiveCodes(normal));
            && LastId(normal) == LastId(entries[..n])
            && (refusal.None? ==>
                  && Token(entries[n].codename, Codename).Ok? && EntriesStand(entries[..n + 1], schema, revision)
                  && SpelledEntries(entries[..n + 1]) == Ok(normal + [Spelled(entries[n])]))
            && (refusal.Some? ==> !EntriesStand(entries, schema, revision))
  {
    hide EntriesAllowed, Token, TextAllowed, HexStr, Before, SpelledEntries;
    SpelledOneMore(entries, n);
    var normal := SpelledEntries(entries[..n]).value;
    SameLastId(entries[..n]);
    var refusal := EntryRefusal(entries[n], schema, revision, LastId(normal), LiveCodes(normal));
    if refusal.None? {
      AppendAllowed(normal, Spelled(entries[n]), schema, revision);
    } else if EntriesStand(entries, schema, revision) {
      SpelledPrefix(entries, n);
      SpelledAt(entries, n);
      RefusedNeverStands(SpelledEntries(entries).value, n, schema, revision);
      assert false;
    }
  }

  lemma SameLastId(entries: seq<Entry>)
    requires SpelledEntries(entries).Ok?
    ensures LastId(SpelledEntries(entries).value) == LastId(entries)
  {
    if entries == [] {
    } else {
      SpelledAt(entries, |entries| - 1);
    }
    hide Token, SpelledEntries;
  }

  /** The entry loop, remembering only the last identity and the live codenames so far. */
  method CheckEntries(entries: seq<Entry>, schema: int, revision: int) returns (r: Result<seq<Entry>>)
    requires schema in {1, 2}
    ensures r.Ok? <==> EntriesStand(entries, schema, revision)
    ensures r.Ok? ==> r == SpelledEntries(entries)
    ensures r.Err? ==> exists n :: FirstRefused(entries, schema, revision, n, r.code)
  {
    hide EntryRefusal, EntriesAllowed, SpelledEntries, Token;
    var normal: seq<Entry> := [];
    var codes: set<string> := {};
    var last := "";
    NoEntriesStand(schema, revision);
    for n := 0 to |entries|
      invariant EntriesStand(entries[..n], schema, revision) && SpelledEntries(entries[..n]) == Ok(normal)
      invariant last == LastId(entries[..n]) && codes == LiveCodes(normal)
    {
      var e := entries[n];
      var refusal := EntryRefusal(e, schema, revision, last, codes);
      EntryDecides(entries, schema, revision, n);
      if refusal.Some? {
        assert FirstRefused(entries, schema, revision, n, refusal.value);
        return Err(refusal.value);
      }
      var named := Spelled(e);
      OneMoreCode(normal, named);
      if !e.status.Retired? {
        codes := codes + {named.codename};
      }
      normal := normal + [named];
      last := e.id;
    }
    assert entries[..|entries|] == entries;
    return Ok(normal);
  }

  lemma NoEntriesStand(schema: int, revision: int)
    ensures EntriesStand([], schema, revision) && SpelledEntries([]) == Ok([]) && LiveCodes([]) == {} && LastId([]) == ""
  {
  }

  lemma OneMoreCode(normal: seq<Entry>, e: Entry)
    ensures LiveCodes(normal + [e]) == LiveCodes(normal) + (if e.status.Retired? then {} else {e.codename})
  {
    var longer := normal + [e];
    assert forall i :: 0 <= i < |normal| ==> longer[i] == normal[i];
    if !e.status.Retired? { assert longer[|normal|] == e; }
  }

  /** The received object's body in normal form, when it is a valid revision; otherwise the code
      of the first check that fails. */
  method CheckBody(b: Body) returns (r: Result<Body>)
    ensures r.Ok? <==> SpelledBody(b).Ok? && BodyAllowed(SpelledBody(b).value)
    ensures r.Ok? ==> r == SpelledBody(b)
    ensures r.Err? ==> BodyRefusedWith(b, r.code)
  {
    HeadDecides(b);
    hide HeadRefusal, BodyAllowed, FirstRefused, EntriesStand;
    var refusal := HeadRefusal(b);
    if refusal.Some? {
      return Err(refusal.value);
    }
    var entries := CheckEntries(b.entries, b.schema, b.revision);
    if entries.Err? {
      return Err(entries.code);
    }
    return SpelledBody(b);
  }

  /** A body is a valid revision exactly when neither its head nor its entries are refused. */
  lemma HeadDecides(b: Body)
    ensures SpelledBody(b).Ok? && BodyAllowed(SpelledBody(b).value) <==>
            HeadRefusal(b).None? && EntriesStand(b.entries, b.schema, b.revision)
    ensures HeadRefusal(b).None? ==> b.schema in {1, 2} && Token(b.network, NetworkName).Ok? && Token(b.publisher, NodeId).Ok?
  {
    hide Token, TextAllowed, HexStr, EntriesAllowed, SpelledEntries;
  }

  predicate OfAuthority(b: Body, pin: Pin) {
    b.network == pin.network && b.catalogId == pin.catalogId && b.publisher == pin.publisher
  }

  /** What a verified catalog object is: a valid body for the pinned authority, its own
      digest, and the authority's signature over it. */
  predicate Verified(s: Signed, pin: Pin) {
    && SpelledBody(s.body) == Ok(s.body) && BodyAllowed(s.body)
    && OfAuthority(s.body, pin)
    && s.hash == Sha256(s.body)
    && s.signature.SignedBy? && s.signature.key == pin.publicKey && s.signature.body == s.body
  }

  lemma {:induction false} EntriesIdempotent(entries: seq<Entry>)
    requires SpelledEntries(entries).Ok?
    ensures SpelledEntries(SpelledEntries(entries).value) == SpelledEntries(entries)
    decreases |entries|
  {
    if entries == [] {
    } else {
      TokenIdempotent(entries[0].codename, Codename);
      EntriesIdempotent(entries[1..]);
      assert SpelledEntries(entries).value[1..] == SpelledEntries(entries[1..]).value;
    }
  }

  lemma BodyIdempotent(b: Body)
    requires SpelledBody(b).Ok?
    ensures SpelledBody(SpelledBody(b).value) == SpelledBody(b)
  {
    TokenIdempotent(b.network, NetworkName);
    TokenIdempotent(b.publisher, NodeId);
    EntriesIdempotent(b.entries);
  }

  /** The verified form of a received object, if it has one. */
  function VerifiedForm(obj: Signed, pin: Pin): (r: Option<Signed>)
    ensures r.Some? ==> r.value.hash == obj.hash && r.value.signature == obj.signature
    ensures Verified(obj, pin) ==> r == Some(obj)
  {
    var body := SpelledBody(obj.body);
    if body.Ok? && Verified(obj.(body := body.value), pin) then Some(obj.(body := body.value)) else None
  }

  /** Why an object with a valid body is refused. */
  function SealRefusal(obj: Signed, b: Body, pin: Pin): Option<Error> {
    OrElse(Unless(OfAuthority(b, pin), InvalidPublisher),
    OrElse(Unless(obj.hash.Unrelated? ==> HexStr(obj.hash.hex, 32).Ok?, MalformedFrame),
    OrElse(Unless(obj.hash == Sha256(b), InvalidSignature),
    OrElse(Unless(obj.signature.Unsigned? ==> HexStr(obj.signature.hex, 64).Ok?, MalformedFrame),
           Unless(obj.signature.SignedBy? && obj.signature.key == pin.publicKey && obj.signature.body == b, InvalidSignature)))))
  }

  ghost predicate VerifyRefusedWith(obj: Signed, pin: Pin, code: Error) {
    if SpelledBody(obj.body).Ok? && BodyAllowed(SpelledBody(obj.body).value)
    then SealRefusal(obj, SpelledBody(obj.body).value, pin) == Some(code)
    else BodyRefusedWith(obj.body, code)
  }

  method Verify(obj: Signed, pin: Pin) returns (r: Result<Signed>)
    ensures r.Ok? <==> VerifiedForm(obj, pin).Some?
    ensures r.Ok? ==> r.value == VerifiedForm(obj, pin).value
    ensures r.Err? ==> VerifyRefusedWith(obj, pin, r.code)
  {
    hide BodyAllowed, HexStr, BodyRefusedWith;
    var body := CheckBody(obj.body);
    if body.Err? {
      return Err(body.code);
    }
    BodyIdempotent(obj.body);
    hide SpelledBody;
    var b := body.value;
    var refusal := SealRefusal(obj, b, pin);
    if refusal.Some? {
      return Err(refusal.value);
    }
    return Ok(obj.(body := b));
  }

  /** The entries of a verified form have the identities of the object's own, in strict order. */
  lemma FormEntries(obj: Signed, pin: Pin)
    requires VerifiedForm(obj, pin).Some?
    ensures var form := VerifiedForm(obj, pin).value;
            && |form.body.entries| == |obj.body.entries|
            && (forall i :: 0 <= i < |obj.body.entries| ==> form.body.entries[i].id == obj.body.entries[i].id)
            && (forall i, j :: 0 <= i < j < |form.body.entries| ==> Before(form.body.entries[i].id, form.body.entries[j].id))
  {
    hide Token;
    forall i | 0 <= i < |obj.body.entries|
      ensures SpelledEntries(obj.body.entries).value[i].id == obj.body.entries[i].id
    {
      SpelledAt(obj.body.entries, i);
    }
  }

  /** And no codename of the object's own entries is live twice. */
  lemma FormLiveCodes(obj: Signed, pin: Pin)
    requires VerifiedForm(obj, pin).Some?
    ensures var own := obj.body.entries;
            forall i, j :: 0 <= i < j < |own| && own[i].codename == own[j].codename ==> own[i].status == Retired || own[j].status == Retired
  {
    hide Token, EntryAllowed;
    var own, form := obj.body.entries, VerifiedForm(obj, pin).value.body.entries;
    forall i | 0 <= i < |own|
      ensures Token(own[i].codename, Codename).Ok? && form[i] == Spelled(own[i])
    {
      SpelledAt(own, i);
    }
    forall i, j | 0 <= i < j < |own| && own[i].codename == own[j].codename
      ensures own[i].status == Retired || own[j].status == Retired
    {
      assert form[i].codename == form[j].codename;
    }
  }

  lemma SameIdSameEntry(entries: seq<Entry>, schema: int, revision: int, e: Entry, f: Entry)
    requires EntriesAllowed(entries, schema, revision) && e in entries && f in entries
    ensures e.id == f.id ==> e == f
    ensures e.codename == f.codename && !e.status.Retired? && !f.status.Retired? ==> e == f
  {
    var i :| 0 <= i < |entries| && entries[i] == e;
    var j :| 0 <= j < |entries| && entries[j] == f;
    BeforeIrreflexive(e.id);
  }

  // ---------------------------------------------------------------------------
  // Following a revision

  predicate StatusMayBecome(x: Status, y: Status, intent: Intent) {
    || x == y
    || (x.Proposed? && (y.Active? || y.Retired?))
    || (x.Active? && (y.Deprecated? || y.Retired?))
    || (x.Deprecated? && y.Retired?)
    || ((x.Deprecated? || x.Retired?) && y.Active? && intent.Reactivate?)
  }

  /** What an entry may become in the next revision. */
  predicate Succeeds(before: Entry, after: Entry, b: Body) {
    && before.codename == after.codename
    && (before == after || after.effective == b.revision)
    && StatusMayBecome(before.status, after.status, b.intent)
    && (after.status.Retired? ==>
          after.retired == if before.status.Retired? then before.retired else Some(b.revision))
  }

  predicate HasId(entries: seq<Entry>, id: string) {
    exists i :: 0 <= i < |entries| && entries[i].id == id
  }

  predicate Kept(before: Entry, b: Body) {
    && HasId(b.entries, before.id)
    && forall i :: 0 <= i < |b.entries| && b.entries[i].id == before.id ==> Succeeds(before, b.entries[i], b)
  }

  predicate Added(a: Body, e: Entry, b: Body) {
    && e.effective == b.revision
    && ((exists i :: 0 <= i < |a.entries| && a.entries[i].codename == e.codename) ==>
          && b.intent.Reuse?
          && forall i :: 0 <= i < |b.entries| && b.entries[i].codename == e.codename && b.entries[i].id != e.id ==>
               b.entries[i].status.Retired?)
  }

  predicate LifecycleKept(a: Body, b: Body) {
    && (forall i :: 0 <= i < |a.entries| ==> Kept(a.entries[i], b))
    && (forall i :: 0 <= i < |b.entries| && !HasId(a.entries, b.entries[i].id) ==> Added(a, b.entries[i], b))
  }

  predicate FirstAllowed(b: Body) {
    && b.intent.Ordinary?
    && (forall i :: 0 <= i < |b.entries| ==> b.entries[i].effective == 1)
    && (forall i, j :: 0 <= i < j < |b.entries| ==> b.entries[i].codename != b.entries[j].codename)
  }

  /** True for the next revision, false for the same one again, otherwise the refusal. */
  function Follows(next: Signed, last: Option<Signed>): Result<bool> {
    var b := next.body;
    if last.None? then
      :- Require(b.revision == 1, CatalogMissingRevision);
      :- Require(FirstAllowed(b), CatalogLifecycle);
      Ok(true)
    else
      var a := last.value.body;
      :- Require(b.revision >= a.revision, CatalogRollback);
      if b.revision == a.revision then
        :- Require(next == last.value, CatalogFork);
        Ok(false)
      else
        :- Require(b.revision == a.revision + 1, CatalogMissingRevision);
        :- Require(b.previousHash == Some(last.value.hash), CatalogFork);
        :- Require(b.schema >= a.schema && b.publishedAt >= a.publishedAt, InvalidCatalog);
        :- Require(LifecycleKept(a, b), CatalogLifecycle);
        Ok(true)
  }

  lemma OnlyTheSameAgain(next: Signed, last: Option<Signed>)
    ensures Follows(next, last) == Ok(false) ==> last == Some(next)
  {
  }

  /** One text comes before another when it is a proper beginning of it or smaller where they
      first differ. */
  lemma {:induction false} BeforeMeaning(a: string, b: string)
    ensures Before(a, b) <==>
              || (|a| < |b| && a == b[..|a|])
              || exists k :: 0 <= k < |a| && k < |b| && a[..k] == b[..k] && a[k] < b[k]
    decreases |b|
  {
    if b == [] || a == [] || a[0] < b[0] {
      if a != [] && b != [] { assert a[..0] == b[..0]; }
    } else if a[0] == b[0] {
      BeforeMeaning(a[1..], b[1..]);
      SharedStart(a, b);
    } else {
      forall k | 0 < k < |a| && k < |b|
        ensures a[..k] != b[..k]
      {
        assert a[..k][0] != b[..k][0];
      }
      if |a| < |b| { assert b[..|a|][0] != a[0]; }
    }
  }

  lemma SharedStart(a: string, b: string)
    requires a != [] && b != [] && a[0] == b[0]
    ensures |a| < |b| && a == b[..|a|] <==> |a[1..]| < |b[1..]| && a[1..] == b[1..][..|a| - 1]
    ensures (exists k :: 0 <= k < |a| && k < |b| && a[..k] == b[..k] && a[k] < b[k]) <==>
            (exists k :: 0 <= k < |a[1..]| && k < |b[1..]| && a[1..][..k] == b[1..][..k] && a[1..][k] < b[1..][k])
  {
    assert a == [a[0]] + a[1..] && b == [b[0]] + b[1..];
    if |a| < |b| {
      assert b[..|a|] == [b[0]] + b[1..][..|a| - 1];
    }
    if k :| 0 <= k < |a| && k < |b| && a[..k] == b[..k] && a[k] < b[k] {
      assert k > 0 && a[..k][1..] == a[1..][..k - 1] && b[..k][1..] == b[1..][..k - 1];
      assert a[1..][k - 1] < b[1..][k - 1];
    }
    if k :| 0 <= k < |a[1..]| && k < |b[1..]| && a[1..][..k] == b[1..][..k] && a[1..][k] < b[1..][k] {
      assert a[..k + 1] == [a[0]] + a[1..][..k] && b[..k + 1] == [b[0]] + b[1..][..k];
      assert a[k + 1] < b[k + 1];
    }
  }

  /** Exactly which bodies, once respelled, are valid revisions. */
  lemma BodyMeaning(b: Body)
    ensures BodyAllowed(b) <==>
              && HexStr(b.catalogId, 16).Ok? && (b.schema == 1 || b.schema == 2)
              && 1 <= b.revision <= 9223372036854775807 && b.revision == b.previousRevision + 1
              && (b.previousHash == None <==> b.revision == 1)
              && (b.previousHash != None && b.previousHash.value.Unrelated? ==> HexStr(b.previousHash.value.hex, 32).Ok?)
              && 0 <= b.publishedAt <= 253402300799
              && TextAllowed(b.governanceReference, 160, false, false) && TextAllowed(b.rationale, 1024, false, false)
              && |b.entries| <= 256
              && (forall i, j :: 0 <= i < j < |b.entries| ==> Before(b.entries[i].id, b.entries[j].id))
              && (forall i, j :: 0 <= i < j < |b.entries| && b.entries[i].codename == b.entries[j].codename ==>
                    b.entries[i].status == Retired || b.entries[j].status == Retired)
              && forall i {:trigger b.entries[i]} :: 0 <= i < |b.entries| ==>
                   var e := b.entries[i];
                   && HexStr(e.id, 16).Ok? && (b.schema == 1 ==> e.access == Public)
                   && TextAllowed(e.displayName, 80, false, false) && TextAllowed(e.description, 1024, false, false)
                   && TextAllowed(e.category, 60, false, false) && TextAllowed(e.historicalReference, 160, false, true)
                   && TextAllowed(e.moderatorRole, 80, false, false)
                   && 1 <= e.effective <= b.revision
                   && (e.retired == None <==> e.status != Retired)
                   && (e.retired != None ==> 1 <= e.retired.value <= b.revision)
  {
    hide HexStr, TextAllowed, Before;
  }

  // Which code a refused revision gets.

  /** The first thing wrong with an entry, after the identity and the live codenames before it:
      restricted access in schema 1; a malformed identity; an identity not after the one before;
      malformed texts or an effective revision not yet reached; a retirement not recorded exactly
      when retired; one dated outside 1 to this revision; a live codename taken before. */
  lemma EntryRefusalMeaning(e: Entry, schema: int, revision: int, last: string, codes: set<string>)
    ensures EntryRefusal(e, schema, revision, last, codes) ==
              if schema != 2 && e.access != Public then Some(InvalidCatalog)
              else if HexStr(e.id, 16).Err? then Some(MalformedFrame)
              else if !Before(last, e.id) then Some(InvalidCatalog)
              else if Token(e.codename, Codename).Err? || !TextAllowed(e.displayName, 80, false, false)
                      || !TextAllowed(e.description, 1024, false, false) || !TextAllowed(e.category, 60, false, false)
                      || !TextAllowed(e.historicalReference, 160, false, true) || !TextAllowed(e.moderatorRole, 80, false, false)
                      || e.effective < 1 || e.effective > revision
              then Some(MalformedFrame)
              else if (e.status == Retired) != (e.retired != None) then Some(InvalidCatalog)
              else if e.retired != None && (e.retired.value < 1 || e.retired.value > revision) then Some(MalformedFrame)
              else if e.status != Retired && Token(e.codename, Codename).value in codes then Some(CatalogLifecycle)
              else None
  {
    hide HexStr, Token, TextAllowed, Before;
  }

  /** The first thing wrong with a revision before its entries: misspelled names or a schema that
      is no 16-bit number; an unknown schema; revision numbers that do not fit their widths; a
      revision that is not one more than the previous, or a previous digest missing or out of
      place; a malformed digest, time or text; more than 256 entries. */
  lemma HeadRefusalMeaning(b: Body)
    ensures HeadRefusal(b) ==
              if Token(b.network, NetworkName).Err? || Token(b.publisher, NodeId).Err? || HexStr(b.catalogId, 16).Err?
                 || b.schema < 0 || b.schema > 65535
              then Some(MalformedFrame)
              else if b.schema != 1 && b.schema != 2 then Some(InvalidCatalog)
              else if b.revision < 1 || b.revision > 9223372036854775807
                      || b.previousRevision < 0 || b.previousRevision > 18446744073709551615
              then Some(MalformedFrame)
              else if b.revision != b.previousRevision + 1 || (b.revision == 1) != (b.previousHash == None) then Some(InvalidCatalog)
              else if (b.previousHash.Some? && b.previousHash.value.Unrelated? && HexStr(b.previousHash.value.hex, 32).Err?)
                      || b.publishedAt < 0 || b.publishedAt > 253402300799
                      || !TextAllowed(b.governanceReference, 160, false, false) || !TextAllowed(b.rationale, 1024, false, false)
              then Some(MalformedFrame)
              else if |b.entries| > 256 then Some(InvalidCatalog)
              else None
  {
    hide HexStr, Token, TextAllowed;
  }

  /** The first thing wrong with the seal on a valid body: another authority; a malformed digest
      or one of something else; a malformed signature or one that is not the pinned key's over
      this body. */
  lemma SealRefusalMeaning(obj: Signed, b: Body, pin: Pin)
    ensures SealRefusal(obj, b, pin) ==
              if b.network != pin.network || b.catalogId != pin.catalogId || b.publisher != pin.publisher then Some(InvalidPublisher)
              else if obj.hash.Unrelated? && HexStr(obj.hash.hex, 32).Err? then Some(MalformedFrame)
              else if obj.hash != Sha256(b) then Some(InvalidSignature)
              else if obj.signature.Unsigned? && HexStr(obj.signature.hex, 64).Err? then Some(MalformedFrame)
              else if forall nonce :: obj.signature != SignedBy(pin.publicKey, b, nonce) then Some(InvalidSignature)
              else None
  {
    hide HexStr;
    if obj.signature.SignedBy? { assert obj.signature == SignedBy(obj.signature.key, obj.signature.body, obj.signature.nonce); }
  }

  // What the rule means, entry by entry.

  /** The moves of a life, and those that only a reactivating revision may make. */
  predicate Moves(x: Status, y: Status, reactivating: bool) {
    || x == y
    || (x, y) in {(Proposed, Active), (Proposed, Retired), (Active, Deprecated), (Active, Retired), (Deprecated, Retired)}
    || (reactivating && (x, y) in {(Deprecated, Active), (Retired, Active)})
  }

  /** An identity listed before is listed again under its codename; a changed entry takes effect
      now and moves as lives do; one retired now says so, one retired before says what it said. */
  ghost predicate LivesOn(a: Body, b: Body, p: Entry) {
    && (exists q :: q in b.entries && q.id == p.id)
    && forall q :: q in b.entries && q.id == p.id ==>
         && q.codename == p.codename
         && (q != p ==> q.effective == b.revision)
         && Moves(p.status, q.status, b.intent == Reactivate)
         && (q.status == Retired && p.status != Retired ==> q.retired == Some(b.revision))
         && (q.status == Retired && p.status == Retired ==> q.retired == p.retired)
  }

  /** A new identity takes effect now; a codename listed before it takes only in a reusing
      revision in which all others that have it are retired. */
  ghost predicate Enters(a: Body, b: Body, q: Entry) {
    && q.effective == b.revision
    && forall p :: p in a.entries && p.codename == q.codename ==>
         && b.intent == Reuse
         && forall r :: r in b.entries && r.codename == q.codename && r.id != q.id ==> r.status == Retired
  }

  lemma LifecycleMeaning(a: Body, b: Body)
    ensures LifecycleKept(a, b) <==>
              && (forall p :: p in a.entries ==> LivesOn(a, b, p))
              && (forall q :: q in b.entries && (forall p :: p in a.entries ==> p.id != q.id) ==> Enters(a, b, q))
  {
    hide Succeeds, StatusMayBecome;
    forall p
      ensures Kept(p, b) <==> LivesOn(a, b, p)
    {
      KeptMeaning(a, b, p);
    }
    forall q
      ensures Added(a, q, b) <==> Enters(a, b, q)
    {
      AddedMeaning(a, b, q);
    }
    forall q: Entry
      ensures HasId(a.entries, q.id) <==> exists p :: p in a.entries && p.id == q.id
    {
      HasIdMeaning(a.entries, q.id);
    }
    hide Kept, Added, HasId, LivesOn, Enters;
  }

  lemma HasIdMeaning(entries: seq<Entry>, id: string)
    ensures HasId(entries, id) <==> exists p :: p in entries && p.id == id
  {
    if p :| p in entries && p.id == id {
      var i :| 0 <= i < |entries| && entries[i] == p;
    }
  }

  lemma SucceedsMeaning(p: Entry, q: Entry, b: Body)
    ensures Succeeds(p, q, b) <==>
              && q.codename == p.codename
              && (q != p ==> q.effective == b.revision)
              && Moves(p.status, q.status, b.intent == Reactivate)
              && (q.status == Retired && p.status != Retired ==> q.retired == Some(b.revision))
              && (q.status == Retired && p.status == Retired ==> q.retired == p.retired)
  {
  }

  lemma KeptMeaning(a: Body, b: Body, p: Entry)
    ensures Kept(p, b) <==> LivesOn(a, b, p)
  {
    HasIdMeaning(b.entries, p.id);
    forall q
      ensures Succeeds(p, q, b) <==>
              && q.codename == p.codename
              && (q != p ==> q.effective == b.revision)
              && Moves(p.status, q.status, b.intent == Reactivate)
              && (q.status == Retired && p.status != Retired ==> q.retired == Some(b.revision))
              && (q.status == Retired && p.status == Retired ==> q.retired == p.retired)
    {
      SucceedsMeaning(p, q, b);
    }
    hide Succeeds, Moves, HasId;
    assert (forall i :: 0 <= i < |b.entries| && b.entries[i].id == p.id ==> Succeeds(p, b.entries[i], b))
      <==> (forall q :: q in b.entries && q.id == p.id ==> Succeeds(p, q, b));
  }

  lemma AddedMeaning(a: Body, b: Body, q: Entry)
    ensures Added(a, q, b) <==> Enters(a, b, q)
  {
    if p :| p in a.entries && p.codename == q.codename {
      var i :| 0 <= i < |a.entries| && a.entries[i] == p;
      assert a.entries[i].codename == q.codename;
    }
    assert (forall i :: 0 <= i < |b.entries| && b.entries[i].codename == q.codename && b.entries[i].id != q.id ==> b.entries[i].status.Retired?)
      <==> (forall r :: r in b.entries && r.codename == q.codename && r.id != q.id ==> r.status == Retired);
  }

  /** Exactly what a store accepts next: first a plain revision 1 that is new throughout, then the
      successor of its head in number, digest, schema, time and every entry's life; and its head
      again, which is no news. */
  lemma FollowsMeaning(next: Signed, last: Option<Signed>)
    ensures last == None ==>
              (Follows(next, last) == Ok(true) <==>
                && next.body.revision == 1 && next.body.intent == Ordinary
                && (forall i :: 0 <= i < |next.body.entries| ==> next.body.entries[i].effective == 1)
                && (forall i, j :: 0 <= i < j < |next.body.entries| ==> next.body.entries[i].codename != next.body.entries[j].codename))
    ensures last != None ==>
              var a, b := last.value.body, next.body;
              (Follows(next, last) == Ok(true) <==>
                && b.revision == a.revision + 1 && b.previousHash == Some(last.value.hash)
                && b.schema >= a.schema && b.publishedAt >= a.publishedAt
                && (forall p :: p in a.entries ==> LivesOn(a, b, p))
                && (forall q :: q in b.entries && (forall p :: p in a.entries ==> p.id != q.id) ==> Enters(a, b, q)))
    ensures Follows(next, last) == Ok(false) <==> last == Some(next)
  {
    if last.Some? { LifecycleMeaning(last.value.body, next.body); }
    hide LifecycleKept, LivesOn, Enters;
  }

  /** Why anything else is refused: by the first of the tests that fails. */
  lemma FollowsRefusals(next: Signed, last: Option<Signed>)
    requires Follows(next, last).Err?
    ensures Follows(next, last).code ==
              if last == None then (if next.body.revision != 1 then CatalogMissingRevision else CatalogLifecycle)
              else
                var a, b := last.value.body, next.body;
                if b.revision < a.revision then CatalogRollback
                else if b.revision == a.revision then CatalogFork
                else if b.revision > a.revision + 1 then CatalogMissingRevision
                else if b.previousHash != Some(last.value.hash) then CatalogFork
                else if b.schema < a.schema || b.publishedAt < a.publishedAt then InvalidCatalog
                else CatalogLifecycle
  {
    hide LifecycleKept, FirstAllowed;
  }

  /** A verified object: in normal form, a valid revision of the pinned authority, under its own
      digest and the authority's signature of exactly this body. */
  lemma VerifiedMeaning(s: Signed, pin: Pin)
    ensures Verified(s, pin) <==>
              && SpelledBody(s.body) == Ok(s.body) && BodyAllowed(s.body)
              && s.body.network == pin.network && s.body.catalogId == pin.catalogId && s.body.publisher == pin.publisher
              && s.hash == Sha256(s.body)
              && exists nonce :: s.signature == SignedBy(pin.publicKey, s.body, nonce)
  {
    hide SpelledBody, BodyAllowed;
    if s.signature.SignedBy? { assert s.signature == SignedBy(s.signature.key, s.signature.body, s.signature.nonce); }
  }

  // ---------------------------------------------------------------------------
  // Histories

  predicate Accepted(pin: Pin, s: seq<Signed>, i: nat)
    requires i < |s|
  {
    Verified(s[i], pin) && Follows(s[i], if i == 0 then None else Some(s[i - 1])) == Ok(true)
  }

  /** A history grown from an empty store by accepting one revision after another. */
  ghost predicate History(pin: Pin, s: seq<Signed>) {
    forall i {:trigger Accepted(pin, s, i)} :: 0 <= i < |s| ==> Accepted(pin, s, i)
  }

  lemma HistoryGrows(pin: Pin, s: seq<Signed>, next: Signed)
    requires History(pin, s) && Verified(next, pin)
    requires Follows(next, if s == [] then None else Some(s[|s| - 1])) == Ok(true)
    ensures History(pin, s + [next])
  {
    hide Verified, Follows;
    var t := s + [next];
    forall i | 0 <= i < |t|
      ensures Accepted(pin, t, i)
    {
      if i < |s| { assert Accepted(pin, s, i); }
    }
  }

  lemma HistoryPrefix(pin: Pin, s: seq<Signed>, n: nat)
    requires History(pin, s) && n <= |s|
    ensures History(pin, s[..n])
  {
    forall i | 0 <= i < n
      ensures Accepted(pin, s[..n], i)
    {
      assert Accepted(pin, s, i);
    }
  }

  /** The check of one stored object: it verifies, once respelled, and then its raw form is
      compared with the raw form before it. */
  predicate Rechecked(pin: Pin, s: seq<Signed>, i: nat)
    requires i < |s|
  {
    VerifiedForm(s[i], pin).Some? && Follows(s[i], if i == 0 then None else Some(s[i - 1])).Ok?
  }

  /** What a starting peer checks of the catalogs it finds in its store. */
  ghost predicate Recheck(pin: Pin, s: seq<Signed>) {
    forall i {:trigger Rechecked(pin, s, i)} :: 0 <= i < |s| ==> Rechecked(pin, s, i)
  }

  /** No object is a respelling of what it verifies as. */
  ghost predicate AllNormal(pin: Pin, s: seq<Signed>) {
    forall i {:trigger s[i]} :: 0 <= i < |s| ==> VerifiedForm(s[i], pin) == Some(s[i])
  }

  ghost predicate NoNeighboursEqual(s: seq<Signed>) {
    forall i :: 0 < i < |s| ==> s[i] != s[i - 1]
  }

  lemma NormalIsVerified(obj: Signed, pin: Pin)
    ensures VerifiedForm(obj, pin) == Some(obj) <==> Verified(obj, pin)
  {
  }

  /** The check at start does not establish a history: it also lets a repeated neighbour and
      a respelled body through. It does so for nothing else. */
  lemma RecheckAllowsOnlyRepeatsAndRespellings(pin: Pin, s: seq<Signed>)
    ensures History(pin, s) <==> Recheck(pin, s) && AllNormal(pin, s) && NoNeighboursEqual(s)
  {
    hide Verified, VerifiedForm, LifecycleKept, FirstAllowed;
    forall i | 0 <= i < |s|
      ensures VerifiedForm(s[i], pin) == Some(s[i]) <==> Verified(s[i], pin)
    {
      NormalIsVerified(s[i], pin);
    }
    if History(pin, s) {
      forall i | 0 <= i < |s|
        ensures Rechecked(pin, s, i) && VerifiedForm(s[i], pin) == Some(s[i]) && (i > 0 ==> s[i] != s[i - 1])
      {
        assert Accepted(pin, s, i);
      }
    }
    if Recheck(pin, s) && AllNormal(pin, s) && NoNeighboursEqual(s) {
      forall i | 0 <= i < |s|
        ensures Accepted(pin, s, i)
      {
        assert Rechecked(pin, s, i);
        if i > 0 { OnlyTheSameAgain(s[i], Some(s[i - 1])); }
      }
    }
  }

  /** A history with its head repeated passes the check at start, and its last index is then
      no longer its last revision less one. */
  lemma RepeatedHeadPasses(pin: Pin, s: seq<Signed>)
    requires History(pin, s) && s != []
    ensures var t := s + [s[|s| - 1]]; Recheck(pin, t) && t[|t| - 1].body.revision != |t|
  {
    hide Verified, VerifiedForm, LifecycleKept, FirstAllowed;
    var t := s + [s[|s| - 1]];
    forall i | 0 <= i < |t|
      ensures Rechecked(pin, t, i)
    {
      assert Accepted(pin, s, if i < |s| then i else |s| - 1);
      NormalIsVerified(t[i], pin);
    }
    RevisionIsIndex(pin, s, |s| - 1);
  }

  function WithNetwork(x: Signed, network: string): Signed {
    x.(body := x.body.(network := network))
  }

  /** A history whose network name is written in another way passes the check at start as
      well, has no equal neighbours, and is no history. */
  lemma RespelledChainPasses(pin: Pin, s: seq<Signed>, name: string)
    requires History(pin, s) && s != []
    requires Token(name, NetworkName) == Ok(pin.network) && name != pin.network
    ensures var t := seq(|s|, i requires 0 <= i < |s| => WithNetwork(s[i], name));
            Recheck(pin, t) && NoNeighboursEqual(t) && !History(pin, t)
  {
    hide LifecycleKept, FirstAllowed, Verified, VerifiedForm;
    var t := seq(|s|, i requires 0 <= i < |s| => WithNetwork(s[i], name));
    forall i | 0 <= i < |t|
      ensures Rechecked(pin, t, i)
    {
      assert Accepted(pin, s, i);
      RespelledVerifies(pin, s[i], name);
      RespelledFollows(s[i], if i == 0 then None else Some(s[i - 1]), name);
    }
    forall i | 0 < i < |t|
      ensures t[i] != t[i - 1]
    {
      assert Accepted(pin, s, i);
    }
    RespelledIsNotNormal(pin, s[0], name);
    assert t[0] == WithNetwork(s[0], name);
    assert !Accepted(pin, t, 0);
  }

  lemma RespelledVerifies(pin: Pin, x: Signed, name: string)
    requires Verified(x, pin) && Token(name, NetworkName) == Ok(pin.network)
    ensures VerifiedForm(WithNetwork(x, name), pin) == Some(x)
  {
    hide Token, BodyAllowed;
    var y := WithNetwork(x, name);
    assert SpelledBody(y.body) == Ok(x.body);
    assert y.(body := x.body) == x;
  }

  lemma RespelledFollows(next: Signed, last: Option<Signed>, name: string)
    requires Follows(next, last) == Ok(true)
    ensures Follows(WithNetwork(next, name), if last.None? then None else Some(WithNetwork(last.value, name))) == Ok(true)
  {
    if last.Some? {
      RespelledLifecycle(last.value.body, next.body, name);
    }
    hide LifecycleKept;
  }

  lemma RespelledLifecycle(a: Body, b: Body, name: string)
    requires LifecycleKept(a, b)
    ensures LifecycleKept(a.(network := name), b.(network := name))
  {
    hide Succeeds, StatusMayBecome;
    var c := b.(network := name);
    forall e, f
      ensures Succeeds(e, f, b) == Succeeds(e, f, c)
    {
      SucceedsByRevision(e, f, b, c);
    }
    forall i | 0 <= i < |a.entries|
      ensures Kept(a.entries[i], c)
    {
      assert Kept(a.entries[i], b);
    }
    forall i | 0 <= i < |c.entries| && !HasId(a.entries, c.entries[i].id)
      ensures Added(a.(network := name), c.entries[i], c)
    {
      assert Added(a, b.entries[i], b);
    }
  }

  lemma SucceedsByRevision(e: Entry, f: Entry, b: Body, c: Body)
    requires b.revision == c.revision && b.intent == c.intent
    ensures Succeeds(e, f, b) == Succeeds(e, f, c)
  {
  }

  lemma RespelledIsNotNormal(pin: Pin, x: Signed, name: string)
    requires name != pin.network
    ensures !Verified(WithNetwork(x, name), pin)
  {
  }

  lemma StepFacts(pin: Pin, s: seq<Signed>, k: nat)
    requires History(pin, s) && 0 < k < |s|
    ensures LifecycleKept(s[k - 1].body, s[k].body)
    ensures s[k].body.revision == s[k - 1].body.revision + 1 && s[k].body.schema >= s[k - 1].body.schema
    ensures s[k].body.previousHash == Some(s[k - 1].hash)
  {
    assert Accepted(pin, s, k);
  }

  lemma FirstFacts(pin: Pin, s: seq<Signed>)
    requires History(pin, s) && s != []
    ensures s[0].body.revision == 1 && FirstAllowed(s[0].body)
  {
    assert Accepted(pin, s, 0);
  }

  lemma BodyFacts(pin: Pin, s: seq<Signed>, k: nat)
    requires History(pin, s) && k < |s|
    ensures EntriesAllowed(s[k].body.entries, s[k].body.schema, s[k].body.revision)
    ensures s[k].hash == Sha256(s[k].body) && s[k].body.schema in {1, 2}
  {
    assert Accepted(pin, s, k);
  }

  lemma {:induction false} RevisionIsIndex(pin: Pin, s: seq<Signed>, i: nat)
    requires History(pin, s) && i < |s|
    ensures s[i].body.revision == i + 1
    decreases i
  {
    if i == 0 {
      FirstFacts(pin, s);
    } else {
      StepFacts(pin, s, i);
      RevisionIsIndex(pin, s, i - 1);
    }
  }

  lemma {:induction false} SchemaGrows(pin: Pin, s: seq<Signed>, i: nat, j: nat)
    requires History(pin, s) && i <= j < |s|
    ensures s[i].body.schema <= s[j].body.schema
    decreases j
  {
    if i == j {
    } else {
      StepFacts(pin, s, j);
      SchemaGrows(pin, s, i, j - 1);
    }
  }

  /** Equal digests at the same place mean equal histories up to there, signatures aside. */
  lemma {:induction false} HashLinks(pin: Pin, s: seq<Signed>, t: seq<Signed>, i: nat, j: nat)
    requires History(pin, s) && History(pin, t) && j <= i && i < |s| && i < |t|
    requires s[i].hash == t[i].hash
    ensures s[j].body == t[j].body
    decreases i
  {
    BodyFacts(pin, s, i);
    BodyFacts(pin, t, i);
    if j == i {
    } else {
      StepFacts(pin, s, i);
      StepFacts(pin, t, i);
      HashLinks(pin, s, t, i - 1, j);
    }
  }

  lemma EntryKept(pin: Pin, s: seq<Signed>, k: nat, before: Entry, after: Entry)
    requires History(pin, s) && 0 < k < |s|
    requires before in s[k - 1].body.entries && after in s[k].body.entries && before.id == after.id
    ensures Succeeds(before, after, s[k].body)
  {
    StepFacts(pin, s, k);
    assert Kept(before, s[k].body);
  }

  /** The entry with this identity, if the revision has one. */
  ghost predicate Holds(s: seq<Signed>, k: nat, e: Entry)
    requires k < |s|
  {
    e in s[k].body.entries
  }

  lemma EffectiveBounded(pin: Pin, s: seq<Signed>, k: nat, e: Entry)
    requires History(pin, s) && k < |s| && Holds(s, k, e)
    ensures 1 <= e.effective <= k + 1
  {
    BodyFacts(pin, s, k);
    RevisionIsIndex(pin, s, k);
  }

  /** An entry's effective revision is exactly the last one that added or changed it: it
      stands unchanged from there to here, and the revision before did not have it so. */
  lemma {:induction false} EffectiveIsLastChange(pin: Pin, s: seq<Signed>, k: nat, e: Entry)
    requires History(pin, s) && k < |s| && Holds(s, k, e)
    ensures 1 <= e.effective <= k + 1
    ensures forall j :: e.effective - 1 <= j <= k ==> Holds(s, j, e)
    ensures e.effective > 1 ==> !Holds(s, e.effective - 2, e)
    decreases k
  {
    EffectiveBounded(pin, s, k, e);
    if k == 0 {
    } else {
      StepFacts(pin, s, k);
      RevisionIsIndex(pin, s, k);
      if Holds(s, k - 1, e) {
        EffectiveIsLastChange(pin, s, k - 1, e);
      } else {
        if HasId(s[k - 1].body.entries, e.id) {
          var i :| 0 <= i < |s[k - 1].body.entries| && s[k - 1].body.entries[i].id == e.id;
          EntryKept(pin, s, k, s[k - 1].body.entries[i], e);
        }
        assert e.effective == k + 1;
      }
    }
  }

  /** Identities are never lost and keep their codename. */
  lemma {:induction false} IdentityLasts(pin: Pin, s: seq<Signed>, i: nat, k: nat, e: Entry) returns (now: Entry)
    requires History(pin, s) && i <= k < |s| && Holds(s, i, e)
    ensures Holds(s, k, now) && now.id == e.id && now.codename == e.codename
    decreases k
  {
    if i == k {
      now := e;
    } else {
      var before := IdentityLasts(pin, s, i, k - 1, e);
      StepFacts(pin, s, k);
      assert Kept(before, s[k].body);
      var n :| 0 <= n < |s[k].body.entries| && s[k].body.entries[n].id == before.id;
      now := s[k].body.entries[n];
    }
  }

  /** A codename ever used before goes to a new identity only in a reuse revision, and then
      every identity that ever held it is still listed, retired. */
  lemma CodenameReuse(pin: Pin, s: seq<Signed>, k: nat, e: Entry, j: nat, p: Entry)
    requires History(pin, s) && j < k < |s| && Holds(s, k, e) && Holds(s, j, p)
    requires p.codename == e.codename && !HasId(s[k - 1].body.entries, e.id)
    ensures s[k].body.intent.Reuse?
    ensures exists now :: Holds(s, k, now) && now.id == p.id && now.codename == p.codename && now.status.Retired?
    ensures p.id != e.id
  {
    var before := IdentityLasts(pin, s, j, k - 1, p);
    var now := IdentityLasts(pin, s, j, k, p);
    StepFacts(pin, s, k);
    assert Added(s[k - 1].body, e, s[k].body);
    assert Holds(s, k, now);
  }

  /** At most one entry that is not retired holds a codename. */
  lemma OneLiveHolder(pin: Pin, s: seq<Signed>, k: nat, e: Entry, f: Entry)
    requires History(pin, s) && k < |s| && Holds(s, k, e) && Holds(s, k, f)
    ensures e.codename == f.codename && !e.status.Retired? && !f.status.Retired? ==> e == f
    ensures e.id == f.id ==> e == f
  {
    BodyFacts(pin, s, k);
    SameIdSameEntry(s[k].body.entries, s[k].body.schema, s[k].body.revision, e, f);
  }

  function Rank(x: Status): nat {
    match x case Proposed => 0 case Active => 1 case Deprecated => 2 case Retired => 3
  }

  /** Without a reactivation in between, a life only moves forward. */
  lemma {:induction false} RankGrows(pin: Pin, s: seq<Signed>, i: nat, k: nat, e: Entry, f: Entry)
    requires History(pin, s) && i <= k < |s| && Holds(s, i, e) && Holds(s, k, f) && e.id == f.id
    requires forall j :: i < j <= k ==> !s[j].body.intent.Reactivate?
    ensures Rank(e.status) <= Rank(f.status)
    decreases k
  {
    if i == k {
      OneLiveHolder(pin, s, k, e, f);
    } else {
      var before := IdentityLasts(pin, s, i, k - 1, e);
      RankGrows(pin, s, i, k - 1, e, before);
      EntryKept(pin, s, k, before, f);
    }
  }

  ghost predicate RetiredAt(s: seq<Signed>, j: nat, id: string) {
    j < |s| && exists h :: Holds(s, j, h) && h.id == id && h.status.Retired?
  }

  /** An entry seen live earlier and retired now records the revision that retired it: it was
      live just before that revision and has been retired ever since. */
  lemma {:induction false} RetirementIsDated(pin: Pin, s: seq<Signed>, i: nat, k: nat, e: Entry, f: Entry)
    returns (t: nat, g: Entry)
    requires History(pin, s) && i <= k < |s| && Holds(s, i, e) && Holds(s, k, f) && e.id == f.id
    requires !e.status.Retired? && f.status.Retired?
    ensures i < t <= k && f.retired == Some(t + 1) && Holds(s, t - 1, g) && g.id == e.id && !g.status.Retired?
    ensures forall j :: t <= j <= k ==> RetiredAt(s, j, e.id)
    decreases k
  {
    t, g := k, e;
    assert RetiredAt(s, k, e.id);
    if i == k {
      OneLiveHolder(pin, s, k, e, f);
      assert false;
    } else {
      var before := IdentityLasts(pin, s, i, k - 1, e);
      EntryKept(pin, s, k, before, f);
      if before.status.Retired? {
        t, g := RetirementIsDated(pin, s, i, k - 1, e, before);
      } else {
        RevisionIsIndex(pin, s, k);
        g := before;
      }
    }
  }

  ghost predicate LiveAt(s: seq<Signed>, j: nat, id: string) {
    j < |s| && exists h :: Holds(s, j, h) && h.id == id && !h.status.Retired?
  }

  /** The recorded revision took the entry from live to retired, where it has stayed. */
  ghost predicate DatedByRetirement(s: seq<Signed>, k: nat, f: Entry) {
    && f.retired.Some? && 2 <= f.retired.value <= k + 1
    && LiveAt(s, f.retired.value - 2, f.id)
    && forall j: nat :: f.retired.value - 1 <= j <= k ==> RetiredAt(s, j, f.id)
  }

  /** A retired entry records the revision that retired it exactly when it was ever listed live;
      otherwise it arrived retired, with whatever revision it said. */
  lemma RetirementIsDatedExactly(pin: Pin, s: seq<Signed>, k: nat, f: Entry)
    requires History(pin, s) && k < |s| && Holds(s, k, f) && f.status.Retired?
    ensures DatedByRetirement(s, k, f) <==> exists i :: 0 <= i <= k && LiveAt(s, i, f.id)
  {
    if DatedByRetirement(s, k, f) {
      assert LiveAt(s, f.retired.value - 2, f.id);
    }
    if i: nat :| i <= k && LiveAt(s, i, f.id) {
      var e :| Holds(s, i, e) && e.id == f.id && !e.status.Retired?;
      var t, g := RetirementIsDated(pin, s, i, k, e, f);
      assert LiveAt(s, t - 1, f.id);
    }
  }
}
