/** Node addresses: a region table, a reservation list that never forgets, and the least
    free address of a range. */
module Addressing {
  import opened Basics
  import opened Tokens
  import opened Topology

  datatype Row = Row(country: string, countryName: string, region: string, regionName: string, subdivision: string)

  datatype Book = Book(regions: map<string, Row>, countries: map<string, string>)

  datatype Status = Reserved | Active | Retired
  datatype Reservation = Reservation(node: string, role: Role, status: Status, legacy: bool)

  datatype AssignmentKind = EndNode | PrimaryHost | AdditionalHost | RootNode

  datatype Suggestion = Given(address: string) | Exhausted | RootExists | Refused

  const MOST_ROWS := 4096
  const MOST_RESERVATIONS := 10000
  const ROOT_ADDRESS := "CNETROOT"

  // ---------------------------------------------------------------------------
  // The region table

  predicate IsDigit(c: char) { '0' <= c <= '9' }
  predicate UpperOrDigit(c: char) { IsUpper(c) || IsDigit(c) }

  predicate NameAllowed(s: string) {
    1 <= |s| <= 120 && forall i :: 0 <= i < |s| ==> s[i] >= 32 as char
  }

  predicate RowAllowed(r: Row) {
    && |r.country| == 2 && (forall i :: 0 <= i < 2 ==> IsUpper(r.country[i]))
    && |r.region| == 2 && (forall i :: 0 <= i < 2 ==> UpperOrDigit(r.region[i]))
    && 4 <= |r.subdivision| <= 6 && r.subdivision[..2] == r.country && r.subdivision[2] == '-'
    && (forall i :: 3 <= i < |r.subdivision| ==> UpperOrDigit(r.subdivision[i]))
    && NameAllowed(r.countryName) && NameAllowed(r.regionName)
  }

  function Prefix(r: Row): string { r.country + r.region }

  function PrefixesOf(rows: seq<Row>, n: nat): set<string>
    requires n <= |rows|
  {
    set i | 0 <= i < n :: Prefix(rows[i])
  }

  /** Every region is filed under its own prefix. */
  predicate Filed(regions: map<string, Row>) {
    forall p :: p in regions ==> RowAllowed(regions[p]) && Prefix(regions[p]) == p
  }

  /** Two rows do not conflict: their regions differ in every spelling, and a country name
      and a country code stand for each other. */
  predicate Compatible(r: Row, s: Row) {
    && Prefix(r) != Prefix(s)
    && !(r.country == s.country && LowerCase(r.regionName) == LowerCase(s.regionName))
    && r.subdivision != s.subdivision
    && (LowerCase(r.countryName) == LowerCase(s.countryName) <==> r.country == s.country)
  }

  predicate TableAllowed(rows: seq<Row>) {
    && 1 <= |rows| <= MOST_ROWS
    && (forall i :: 0 <= i < |rows| ==> RowAllowed(rows[i]))
    && (forall i, j :: 0 <= i < j < |rows| ==> Compatible(rows[i], rows[j]))
  }

  /** Each of the first n rows is what its prefix leads to. */
  ghost predicate FiledUnder(regions: map<string, Row>, rows: seq<Row>, n: nat)
    requires n <= |rows|
  {
    forall i :: 0 <= i < n ==> Prefix(rows[i]) in regions && regions[Prefix(rows[i])] == rows[i]
  }

  /** What the constructor remembers of the rows so far. */
  datatype Memory = Memory(regions: map<string, Row>, countries: map<string, string>,
                           names: set<(string, string)>, subdivisions: set<string>)
  {
    predicate Clashes(row: Row) {
      var name := LowerCase(row.countryName);
      || Prefix(row) in regions || (row.country, LowerCase(row.regionName)) in names || row.subdivision in subdivisions
      || (name in countries && countries[name] != row.country)
      || (exists k :: k in countries && k != name && countries[k] == row.country)
    }

    function With(row: Row): Memory {
      Memory(regions[Prefix(row) := row], countries[LowerCase(row.countryName) := row.country],
             names + {(row.country, LowerCase(row.regionName))}, subdivisions + {row.subdivision})
    }

    ghost predicate Holds(rows: seq<Row>, n: nat)
      requires n <= |rows|
    {
      HoldsRegions(rows, n) && HoldsNames(rows, n) && HoldsCountries(rows, n)
    }

    ghost predicate HoldsRegions(rows: seq<Row>, n: nat)
      requires n <= |rows|
    {
      Filed(regions) && regions.Keys == PrefixesOf(rows, n) && FiledUnder(regions, rows, n)
    }

    ghost predicate HoldsNames(rows: seq<Row>, n: nat)
      requires n <= |rows|
    {
      && (forall x :: x in names <==> exists i :: 0 <= i < n && x == (rows[i].country, LowerCase(rows[i].regionName)))
      && (forall x :: x in subdivisions <==> exists i :: 0 <= i < n && x == rows[i].subdivision)
    }

    ghost predicate HoldsCountries(rows: seq<Row>, n: nat)
      requires n <= |rows|
    {
      && (forall i :: 0 <= i < n ==> LowerCase(rows[i].countryName) in countries && countries[LowerCase(rows[i].countryName)] == rows[i].country)
      && (forall x :: x in countries ==> exists i :: 0 <= i < n && x == LowerCase(rows[i].countryName))
    }
  }

  predicate AllAllowed(rows: seq<Row>, n: nat)
    requires n <= |rows|
  {
    && (forall i :: 0 <= i < n ==> RowAllowed(rows[i]))
    && (forall i, j :: 0 <= i < j < n ==> Compatible(rows[i], rows[j]))
  }

  /** Every row is filed under its prefix and its country's name stands for its code; nothing
      else is. */
  ghost predicate BookOf(book: Book, rows: seq<Row>) {
    && book.regions.Keys == PrefixesOf(rows, |rows|)
    && FiledUnder(book.regions, rows, |rows|)
    && (forall i :: 0 <= i < |rows| ==>
          LowerCase(rows[i].countryName) in book.countries && book.countries[LowerCase(rows[i].countryName)] == rows[i].country)
    && (forall x :: x in book.countries ==> exists i :: 0 <= i < |rows| && x == LowerCase(rows[i].countryName))
  }

  /** The constructor's loop over the rows. */
  method Build(rows: seq<Row>) returns (r: Result<Book>)
    ensures r.Ok? <==> TableAllowed(rows)
    ensures r.Ok? ==> BookOf(r.value, rows) && Filed(r.value.regions)
  {
    hide RowAllowed, AllAllowed, Memory.Holds, Memory.Clashes, Memory.With, TableAllowed, PrefixesOf, Filed, BookOf;
    TableStarts(rows);
    if !(1 <= |rows| <= MOST_ROWS) {
      return Err(MalformedFrame);
    }
    var m := Memory(map[], map[], {}, {});
    for n := 0 to |rows|
      invariant AllAllowed(rows, n) && m.Holds(rows, n)
    {
      RowDecides(rows, n, m);
      if !RowAllowed(rows[n]) || m.Clashes(rows[n]) {
        return Err(MalformedFrame);
      }
      m := m.With(rows[n]);
    }
    TableEnds(rows, m);
    return Ok(Book(m.regions, m.countries));
  }

  lemma TableStarts(rows: seq<Row>)
    ensures AllAllowed(rows, 0) && Memory(map[], map[], {}, {}).Holds(rows, 0)
    ensures !(1 <= |rows| <= MOST_ROWS) ==> !TableAllowed(rows)
  {
  }

  lemma TableEnds(rows: seq<Row>, m: Memory)
    requires 1 <= |rows| <= MOST_ROWS && AllAllowed(rows, |rows|) && m.Holds(rows, |rows|)
    ensures TableAllowed(rows) && Filed(m.regions) && BookOf(Book(m.regions, m.countries), rows)
  {
    hide RowAllowed, Compatible;
  }

  /** One more row is refused exactly when the table is not allowed because of it. */
  lemma RowDecides(rows: seq<Row>, n: nat, m: Memory)
    requires n < |rows| && AllAllowed(rows, n) && m.Holds(rows, n)
    ensures !RowAllowed(rows[n]) || m.Clashes(rows[n]) ==> !TableAllowed(rows)
    ensures RowAllowed(rows[n]) && !m.Clashes(rows[n]) ==> AllAllowed(rows, n + 1) && m.With(rows[n]).Holds(rows, n + 1)
  {
    hide RowAllowed, Compatible, Memory.Holds, Memory.Clashes, Memory.With;
    if RowAllowed(rows[n]) {
      if m.Clashes(rows[n]) {
        ClashMeansConflict(rows, n, m);
      } else {
        NoClashMeansNoConflict(rows, n, m);
        RememberMore(rows, n, m);
      }
    }
  }

  lemma ClashMeansConflict(rows: seq<Row>, n: nat, m: Memory)
    requires n < |rows| && m.Holds(rows, n) && m.Clashes(rows[n])
    ensures exists i :: 0 <= i < n && !Compatible(rows[i], rows[n])
  {
    hide RowAllowed, Filed;
  }

  lemma NoClashMeansNoConflict(rows: seq<Row>, n: nat, m: Memory)
    requires n < |rows| && m.Holds(rows, n) && !m.Clashes(rows[n])
    ensures forall i :: 0 <= i < n ==> Compatible(rows[i], rows[n])
  {
    hide RowAllowed, Filed;
  }

  lemma RememberMore(rows: seq<Row>, n: nat, m: Memory)
    requires n < |rows| && m.Holds(rows, n) && !m.Clashes(rows[n]) && RowAllowed(rows[n])
    ensures m.With(rows[n]).Holds(rows, n + 1)
  {
    RememberRegion(rows, n, m);
    RememberNames(rows, n, m);
    RememberCountry(rows, n, m);
    hide Memory.HoldsRegions, Memory.HoldsNames, Memory.HoldsCountries, Memory.With, Memory.Clashes;
  }

  lemma RememberRegion(rows: seq<Row>, n: nat, m: Memory)
    requires n < |rows| && m.HoldsRegions(rows, n) && !m.Clashes(rows[n]) && RowAllowed(rows[n])
    ensures m.With(rows[n]).HoldsRegions(rows, n + 1)
  {
    hide Prefix, LowerCase, RowAllowed;
    assert m.With(rows[n]).regions.Keys == m.regions.Keys + {Prefix(rows[n])};
  }

  lemma RememberNames(rows: seq<Row>, n: nat, m: Memory)
    requires n < |rows| && m.HoldsNames(rows, n)
    ensures m.With(rows[n]).HoldsNames(rows, n + 1)
  {
    hide Prefix, LowerCase;
  }

  lemma RememberCountry(rows: seq<Row>, n: nat, m: Memory)
    requires n < |rows| && m.HoldsCountries(rows, n) && !m.Clashes(rows[n])
    ensures m.With(rows[n]).HoldsCountries(rows, n + 1)
  {
    hide Prefix, LowerCase;
  }

  // ---------------------------------------------------------------------------
  // Addresses and roles

  function Digit(n: nat): char
    requires n < 10
  {
    ['0', '1', '2', '3', '4', '5', '6', '7', '8', '9'][n]
  }

  function Value(c: char): nat
    requires IsDigit(c)
  {
    (c as int - '0' as int) as nat
  }

  /** Prefix and three digits. */
  function Address(prefix: string, n: nat): string
    requires n < 1000
  {
    prefix + [Digit(Hundreds(n)), Digit(Tens(n)), Digit(Ones(n))]
  }

  function Hundreds(n: nat): (d: nat)
    requires n < 1000
    ensures d < 10
  {
    n / 100
  }

  function Tens(n: nat): (d: nat)
    ensures d < 10
  {
    n / 10 % 10
  }

  function Ones(n: nat): (d: nat)
    ensures d < 10
  {
    n % 10
  }

  lemma DigitsMake(n: nat)
    requires n < 1000
    ensures n == Hundreds(n) * 100 + Tens(n) * 10 + Ones(n)
  {
  }

  predicate AddressShaped(a: string) {
    && |a| == 7 && IsUpper(a[0]) && IsUpper(a[1]) && UpperOrDigit(a[2]) && UpperOrDigit(a[3])
    && IsDigit(a[4]) && IsDigit(a[5]) && IsDigit(a[6])
  }

  function NumberOf(a: string): (n: nat)
    requires AddressShaped(a)
    ensures n < 1000
  {
    Value(a[4]) * 100 + Value(a[5]) * 10 + Value(a[6])
  }

  /** The normal form of an assignment, or None when it is not a valid one. */
  function Validated(book: Book, value: string, role: Role, legacy: bool): Option<string> {
    var t := Token(value, NodeId);
    if t.Err? then None
    else if t.value == ROOT_ADDRESS then (if role.Root? then Some(t.value) else None)
    else if legacy then Some(t.value)
    else if !AddressShaped(t.value) || t.value[..4] !in book.regions then None
    else
      var expected := if NumberOf(t.value) == 0 || NumberOf(t.value) >= 900 then Host else End;
      if role == expected then Some(t.value) else None
  }

  /** The numbers an assignment kind may use. */
  function First(kind: AssignmentKind): nat {
    match kind case EndNode => 1 case PrimaryHost => 0 case AdditionalHost => 900 case RootNode => 0
  }

  function Beyond(kind: AssignmentKind): (n: nat)
    ensures n <= 1000
  {
    match kind case EndNode => 900 case PrimaryHost => 1 case AdditionalHost => 1000 case RootNode => 0
  }

  function RoleOf(kind: AssignmentKind): Role {
    match kind case EndNode => End case PrimaryHost => Host case AdditionalHost => Host case RootNode => Root
  }

  predicate PrefixShaped(prefix: string) {
    |prefix| == 4 && IsUpper(prefix[0]) && IsUpper(prefix[1]) && UpperOrDigit(prefix[2]) && UpperOrDigit(prefix[3])
  }

  lemma DigitValue(n: nat)
    requires n < 10
    ensures IsDigit(Digit(n)) && Value(Digit(n)) == n
  {
  }

  lemma AddressIsShaped(prefix: string, n: nat)
    requires PrefixShaped(prefix) && n < 1000
    ensures var a := Address(prefix, n); AddressShaped(a) && NumberOf(a) == n && a[..4] == prefix
  {
    DigitsMake(n);
    DigitValue(Hundreds(n));
    DigitValue(Tens(n));
    DigitValue(Ones(n));
    hide Digit, Value, Hundreds, Tens, Ones, IsUpper, UpperOrDigit, IsDigit;
    var a := Address(prefix, n);
    assert a[..4] == prefix;
    assert a[4] == Digit(Hundreds(n)) && a[5] == Digit(Tens(n)) && a[6] == Digit(Ones(n));
  }

  lemma ShapedIsToken(a: string)
    requires AddressShaped(a)
    ensures Token(a, NodeId) == Ok(a) && a != ROOT_ADDRESS
  {
    assert forall i :: 0 <= i < 7 ==> IsAlnum(a[i]) && Upper(a[i]) == a[i];
    assert UpperCase(a) == a;
    assert |ROOT_ADDRESS| == 8;
  }

  lemma RegionPrefix(book: Book, prefix: string)
    requires Filed(book.regions) && prefix in book.regions
    ensures PrefixShaped(prefix)
  {
    var r := book.regions[prefix];
    assert prefix == r.country + r.region;
  }

  /** Every address of a range, in an approved region, is valid for the range's role and only for it. */
  lemma RangeAddressIsValid(book: Book, prefix: string, kind: AssignmentKind, n: nat, role: Role)
    requires Filed(book.regions) && prefix in book.regions && First(kind) <= n < Beyond(kind)
    ensures Validated(book, Address(prefix, n), role, false) == if role == RoleOf(kind) then Some(Address(prefix, n)) else None
  {
    RegionPrefix(book, prefix);
    AddressIsShaped(prefix, n);
    ShapedIsToken(Address(prefix, n));
    hide Token, AddressShaped, Address, NumberOf;
  }

  /** Addresses of different regions or numbers never collide. */
  lemma AddressesAreDistinct(p: string, q: string, m: nat, n: nat)
    requires |p| == |q| == 4 && m < 1000 && n < 1000
    ensures Address(p, m) == Address(q, n) ==> p == q && m == n
  {
    hide Digit, Hundreds, Tens, Ones;
    var a, b := Address(p, m), Address(q, n);
    assert a[..4] == p && b[..4] == q;
    assert a[4] == Digit(Hundreds(m)) && a[5] == Digit(Tens(m)) && a[6] == Digit(Ones(m));
    assert b[4] == Digit(Hundreds(n)) && b[5] == Digit(Tens(n)) && b[6] == Digit(Ones(n));
    if a == b {
      hide Address;
      SameDigits(Hundreds(m), Hundreds(n));
      SameDigits(Tens(m), Tens(n));
      SameDigits(Ones(m), Ones(n));
      DigitsMake(m);
      DigitsMake(n);
    }
  }

  lemma SameDigits(m: nat, n: nat)
    requires m < 10 && n < 10 && Digit(m) == Digit(n)
    ensures m == n
  {
    DigitValue(m);
    DigitValue(n);
  }

  // ---------------------------------------------------------------------------
  // Reservations and suggestions

  /** The address a row reserves, if it is a valid row. */
  function AddressOf(book: Book, row: Reservation): Option<string> {
    Validated(book, row.node, row.role, row.legacy)
  }

  /** The reserved addresses, retired ones included; None for a list with an invalid or
      repeated row. */
  function Used(book: Book, list: seq<Reservation>): Option<set<string>> {
    if list == [] then Some({})
    else
      var front, last := Used(book, list[..|list| - 1]), list[|list| - 1];
      if front.None? then None
      else
        var v := AddressOf(book, last);
        if v.None? || v.value in front.value then None else Some(front.value + {v.value})
  }

  /** All rows are valid and no two reserve the same address. */
  ghost predicate RowsStand(book: Book, list: seq<Reservation>) {
    && (forall i {:trigger list[i]} :: 0 <= i < |list| ==> AddressOf(book, list[i]).Some?)
    && (forall i, j {:trigger list[i], list[j]} :: 0 <= i < j < |list| ==> AddressOf(book, list[i]) != AddressOf(book, list[j]))
  }

  ghost predicate ReservedBy(book: Book, list: seq<Reservation>, a: string) {
    exists i {:trigger list[i]} :: 0 <= i < |list| && AddressOf(book, list[i]) == Some(a)
  }

  lemma OneMoreRow(book: Book, front: seq<Reservation>, last: Reservation)
    ensures RowsStand(book, front + [last]) <==>
            RowsStand(book, front) && AddressOf(book, last).Some? && !ReservedBy(book, front, AddressOf(book, last).value)
    ensures forall a :: ReservedBy(book, front + [last], a) <==> ReservedBy(book, front, a) || AddressOf(book, last) == Some(a)
  {
    hide AddressOf;
    var list := front + [last];
    assert forall i :: 0 <= i < |front| ==> list[i] == front[i];
    assert list[|front|] == last;
    forall a | ReservedBy(book, front, a)
      ensures ReservedBy(book, list, a)
    {
      var i :| 0 <= i < |front| && AddressOf(book, front[i]) == Some(a);
      assert AddressOf(book, list[i]) == Some(a);
    }
    if RowsStand(book, list) {
      assert forall i :: 0 <= i < |front| ==> AddressOf(book, list[i]) != AddressOf(book, list[|front|]);
    }
  }

  /** The list stands exactly when its rows do, and its addresses are those of its rows. */
  lemma {:induction false} UsedMeaning(book: Book, list: seq<Reservation>)
    ensures Used(book, list).Some? <==> RowsStand(book, list)
    ensures Used(book, list).Some? ==> forall a :: a in Used(book, list).value <==> ReservedBy(book, list, a)
    decreases |list|
  {
    hide AddressOf;
    if list == [] {
    } else {
      var front, last := list[..|list| - 1], list[|list| - 1];
      UsedMeaning(book, front);
      OneMoreRow(book, front, last);
      assert front + [last] == list;
      hide RowsStand, ReservedBy;
    }
  }

  /** A list the tool takes: within its bound, with rows that stand. */
  ghost predicate ListValid(book: Book, list: seq<Reservation>) {
    |list| <= MOST_RESERVATIONS && RowsStand(book, list)
  }

  method CheckReservations(book: Book, list: seq<Reservation>) returns (seen: Option<set<string>>)
    ensures seen == if |list| > MOST_RESERVATIONS then None else Used(book, list)
    ensures seen.Some? <==> ListValid(book, list)
    ensures seen.Some? ==> forall a :: a in seen.value <==> ReservedBy(book, list, a)
  {
    UsedMeaning(book, list);
    hide RowsStand, ReservedBy;
    if |list| > MOST_RESERVATIONS {
      return None;
    }
    var values: set<string> := {};
    for n := 0 to |list|
      invariant Used(book, list[..n]) == Some(values)
    {
      var row := list[n];
      assert list[..n + 1][..n] == list[..n];
      var v := AddressOf(book, row);
      if v.None? || v.value in values {
        UsedFails(book, list, n + 1);
        return None;
      }
      values := values + {v.value};
    }
    assert list[..|list|] == list;
    return Some(values);
  }

  lemma {:induction false} UsedFails(book: Book, list: seq<Reservation>, n: nat)
    requires n <= |list| && Used(book, list[..n]).None?
    ensures Used(book, list).None?
    decreases |list| - n
  {
    if n < |list| {
      assert list[..n + 1][..n] == list[..n];
      UsedFails(book, list, n + 1);
    } else {
      assert list[..n] == list;
    }
  }

  /** The region a country and region spelling name, when exactly one does. */
  ghost function RegionOf(book: Book, country: string, region: string): Option<string> {
    var found := NamedRegions(book, country, region);
    if |found| == 1 then var p :| p in found; Some(p) else None
  }

  function NamedRegions(book: Book, country: string, region: string): set<string> {
    set p | p in book.regions && Named(book.regions[p], CodeOf(book, country), region)
  }

  /** The code a country's spelling stands for: a listed name's, or the spelling itself. */
  function CodeOf(book: Book, country: string): string {
    if LowerCase(country) in book.countries then book.countries[LowerCase(country)] else UpperCase(country)
  }

  /** The region is named by these spellings and no other region is. */
  ghost predicate OnlyNamed(book: Book, country: string, region: string, p: string) {
    && p in book.regions && Named(book.regions[p], CodeOf(book, country), region)
    && forall q :: q in book.regions && Named(book.regions[q], CodeOf(book, country), region) ==> q == p
  }

  lemma RegionMeaning(book: Book, country: string, region: string, p: string)
    ensures RegionOf(book, country, region) == Some(p) <==> OnlyNamed(book, country, region, p)
  {
    hide Named, CodeOf;
    var found := NamedRegions(book, country, region);
    assert forall q :: q in found <==> q in book.regions && Named(book.regions[q], CodeOf(book, country), region);
    if RegionOf(book, country, region) == Some(p) {
      assert |found| == 1 && p in found;
      forall q | q in found
        ensures q == p
      {
        OneElement(found, p, q);
      }
      assert OnlyNamed(book, country, region, p);
    }
    if OnlyNamed(book, country, region, p) {
      assert found == {p} && |found| == 1;
      OneElement(found, p, RegionOf(book, country, region).value);
    }
  }

  method FindRegion(book: Book, country: string, region: string) returns (r: Option<string>)
    ensures r == RegionOf(book, country, region)
    ensures forall p :: r == Some(p) <==> OnlyNamed(book, country, region, p)
  {
    forall p
      ensures RegionOf(book, country, region) == Some(p) <==> OnlyNamed(book, country, region, p)
    {
      RegionMeaning(book, country, region, p);
    }
    hide NamedRegions, OnlyNamed;
    var found := NamedRegions(book, country, region);
    if |found| != 1 {
      return None;
    }
    var p :| p in found;
    OneElement(found, p, RegionOf(book, country, region).value);
    return Some(p);
  }

  lemma OneElement(s: set<string>, p: string, q: string)
    requires |s| == 1 && p in s && q in s
    ensures p == q
  {
    assert |s - {p}| == 0;
    assert s - {p} == {};
  }

  predicate Named(r: Row, code: string, region: string) {
    r.country == code && (LowerCase(region) == LowerCase(r.region) || LowerCase(region) == LowerCase(r.regionName))
  }

  predicate ActiveRoot(list: seq<Reservation>) {
    exists i :: 0 <= i < |list| && list[i].role.Root? && list[i].status.Active?
  }

  /** The first free number of a range from a point on. */
  function Free(used: set<string>, prefix: string, n: nat, beyond: nat): Option<nat>
    requires beyond <= 1000
    decreases beyond - n
  {
    if n >= beyond then None
    else if Address(prefix, n) !in used then Some(n)
    else Free(used, prefix, n + 1, beyond)
  }

  ghost function Suggested(book: Book, country: string, region: string, kind: AssignmentKind, list: seq<Reservation>): Suggestion {
    if |list| > MOST_RESERVATIONS || Used(book, list).None? then Refused
    else if kind.RootNode? then
      if ActiveRoot(list) then RootExists
      else if ROOT_ADDRESS in Used(book, list).value then Exhausted else Given(ROOT_ADDRESS)
    else
      var prefix := RegionOf(book, country, region);
      if prefix.None? then Refused
      else
        var n := Free(Used(book, list).value, prefix.value, First(kind), Beyond(kind));
        if n.None? || n.value >= 1000 then Exhausted else Given(Address(prefix.value, n.value))
  }

  /** The scan over the candidates of one range. */
  method Scan(used: set<string>, prefix: string, first: nat, beyond: nat) returns (n: Option<nat>)
    requires beyond <= 1000
    ensures n == Free(used, prefix, first, beyond)
  {
    var k := first;
    while k < beyond
      invariant Free(used, prefix, first, beyond) == Free(used, prefix, k, beyond)
      decreases beyond - k
    {
      if Address(prefix, k) !in used {
        return Some(k);
      }
      k := k + 1;
    }
    return None;
  }

  method Suggest(book: Book, country: string, region: string, kind: AssignmentKind, list: seq<Reservation>) returns (r: Suggestion)
    ensures r == Suggested(book, country, region, kind, list)
  {
    var used := CheckReservations(book, list);
    if used.None? {
      return Refused;
    }
    if kind.RootNode? {
      if ActiveRoot(list) {
        return RootExists;
      }
      return if ROOT_ADDRESS in used.value then Exhausted else Given(ROOT_ADDRESS);
    }
    var prefix := FindRegion(book, country, region);
    if prefix.None? {
      return Refused;
    }
    var n := Scan(used.value, prefix.value, First(kind), Beyond(kind));
    if n.None? || n.value >= 1000 {
      return Exhausted;
    }
    return Given(Address(prefix.value, n.value));
  }

  /** The number found is free, in its range, and the least such; none is found exactly when
      the range is full. */
  lemma {:induction false} FreeIsLeast(used: set<string>, prefix: string, first: nat, beyond: nat)
    requires beyond <= 1000
    ensures var n := Free(used, prefix, first, beyond);
            && (n.None? <==> forall k :: first <= k < beyond ==> Address(prefix, k) in used)
            && (n.Some? ==> first <= n.value < beyond && Address(prefix, n.value) !in used)
            && (n.Some? ==> forall k :: first <= k < n.value ==> Address(prefix, k) in used)
    decreases beyond - first
  {
    hide Address;
    if first >= beyond || Address(prefix, first) !in used {
    } else {
      FreeIsLeast(used, prefix, first + 1, beyond);
    }
  }

  /** The address of the range's least number whose address is unused. */
  ghost predicate LeastFree(used: set<string>, prefix: string, kind: AssignmentKind, address: string) {
    exists n :: LeastNumber(used, prefix, kind, n) && address == Address(prefix, n)
  }

  ghost predicate LeastNumber(used: set<string>, prefix: string, kind: AssignmentKind, n: nat) {
    && First(kind) <= n < Beyond(kind) && Address(prefix, n) !in used
    && forall k :: First(kind) <= k < n ==> Address(prefix, k) in used
  }

  /** A suggestion in a region: valid for the kind's role, unused, the least of its range; and
      exhaustion is reported exactly when the range is full. */
  lemma SuggestionIsLeastValid(book: Book, country: string, region: string, kind: AssignmentKind, list: seq<Reservation>)
    requires Filed(book.regions) && |list| <= MOST_RESERVATIONS && Used(book, list).Some?
    requires !kind.RootNode? && RegionOf(book, country, region).Some?
    ensures var used, prefix, r := Used(book, list).value, RegionOf(book, country, region).value, Suggested(book, country, region, kind, list);
            && (r.Given? ==> r.address !in used && Validated(book, r.address, RoleOf(kind), false) == Some(r.address)
                             && LeastFree(used, prefix, kind, r.address))
            && (r.Exhausted? <==> forall k :: First(kind) <= k < Beyond(kind) ==> Address(prefix, k) in used)
            && (r.Given? || r.Exhausted?)
  {
    hide Validated, Address, Used, RegionOf, Free;
    var used, prefix := Used(book, list).value, RegionOf(book, country, region).value;
    FreeIsLeast(used, prefix, First(kind), Beyond(kind));
    RegionMeaning(book, country, region, prefix);
    var n := Free(used, prefix, First(kind), Beyond(kind));
    hide Filed, Named;
    if n.Some? {
      RangeAddressIsValid(book, prefix, kind, n.value, RoleOf(kind));
      assert LeastNumber(used, prefix, kind, n.value);
    }
  }

  // ---------------------------------------------------------------------------
  // The rules, spelled out

  predicate Letter(c: char) { 'A' <= c <= 'Z' }
  predicate LetterDigit(c: char) { 'A' <= c <= 'Z' || '0' <= c <= '9' }

  /** A table is one to 4096 rows. In each the country is two capital letters, the region two
      capital letters or digits, the subdivision the country, a hyphen and one to three capital
      letters or digits, and both names have 1 to 120 characters, none of them a control
      character. No two rows share country and region, or country and region name, or subdivision;
      and two share the country exactly when they share its name. */
  lemma TableMeaning(rows: seq<Row>)
    ensures TableAllowed(rows) <==>
              && 1 <= |rows| <= 4096
              && (forall i :: 0 <= i < |rows| ==>
                    var r := rows[i];
                    && |r.country| == 2 && Letter(r.country[0]) && Letter(r.country[1])
                    && |r.region| == 2 && LetterDigit(r.region[0]) && LetterDigit(r.region[1])
                    && 4 <= |r.subdivision| <= 6 && r.subdivision[..3] == r.country + "-"
                    && (forall k :: 3 <= k < |r.subdivision| ==> LetterDigit(r.subdivision[k]))
                    && 1 <= |r.countryName| <= 120 && (forall k :: 0 <= k < |r.countryName| ==> r.countryName[k] as int >= 32)
                    && 1 <= |r.regionName| <= 120 && (forall k :: 0 <= k < |r.regionName| ==> r.regionName[k] as int >= 32))
              && (forall i, j :: 0 <= i < j < |rows| ==>
                    var r, s := rows[i], rows[j];
                    && !(r.country == s.country && r.region == s.region)
                    && !(r.country == s.country && LowerCase(r.regionName) == LowerCase(s.regionName))
                    && r.subdivision != s.subdivision
                    && (r.country == s.country <==> LowerCase(r.countryName) == LowerCase(s.countryName)))
  {
    hide LowerCase, RowAllowed, Compatible;
    forall i | 0 <= i < |rows|
      ensures RowAllowed(rows[i]) <==>
                var r := rows[i];
                && |r.country| == 2 && Letter(r.country[0]) && Letter(r.country[1])
                && |r.region| == 2 && LetterDigit(r.region[0]) && LetterDigit(r.region[1])
                && 4 <= |r.subdivision| <= 6 && r.subdivision[..3] == r.country + "-"
                && (forall k :: 3 <= k < |r.subdivision| ==> LetterDigit(r.subdivision[k]))
                && 1 <= |r.countryName| <= 120 && (forall k :: 0 <= k < |r.countryName| ==> r.countryName[k] as int >= 32)
                && 1 <= |r.regionName| <= 120 && (forall k :: 0 <= k < |r.regionName| ==> r.regionName[k] as int >= 32)
    {
      RowMeaning(rows[i]);
    }
    forall i, j | 0 <= i < j < |rows| && RowAllowed(rows[i]) && RowAllowed(rows[j])
      ensures Compatible(rows[i], rows[j]) <==>
                var r, s := rows[i], rows[j];
                && !(r.country == s.country && r.region == s.region)
                && !(r.country == s.country && LowerCase(r.regionName) == LowerCase(s.regionName))
                && r.subdivision != s.subdivision
                && (r.country == s.country <==> LowerCase(r.countryName) == LowerCase(s.countryName))
    {
      PairMeaning(rows[i], rows[j]);
    }
  }

  lemma RowMeaning(r: Row)
    ensures RowAllowed(r) <==>
              && |r.country| == 2 && Letter(r.country[0]) && Letter(r.country[1])
              && |r.region| == 2 && LetterDigit(r.region[0]) && LetterDigit(r.region[1])
              && 4 <= |r.subdivision| <= 6 && r.subdivision[..3] == r.country + "-"
              && (forall k :: 3 <= k < |r.subdivision| ==> LetterDigit(r.subdivision[k]))
              && 1 <= |r.countryName| <= 120 && (forall k :: 0 <= k < |r.countryName| ==> r.countryName[k] as int >= 32)
              && 1 <= |r.regionName| <= 120 && (forall k :: 0 <= k < |r.regionName| ==> r.regionName[k] as int >= 32)
  {
    if |r.country| == 2 && 4 <= |r.subdivision| <= 6 {
      assert r.subdivision[..3] == r.subdivision[..2] + [r.subdivision[2]];
      assert (r.country + "-")[..2] == r.country && r.subdivision[..3][..2] == r.subdivision[..2];
      assert (r.country + "-")[2] == '-' && r.subdivision[..3][2] == r.subdivision[2];
    }
  }

  lemma PairMeaning(r: Row, s: Row)
    requires RowAllowed(r) && RowAllowed(s)
    ensures Compatible(r, s) <==>
              && !(r.country == s.country && r.region == s.region)
              && !(r.country == s.country && LowerCase(r.regionName) == LowerCase(s.regionName))
              && r.subdivision != s.subdivision
              && (r.country == s.country <==> LowerCase(r.countryName) == LowerCase(s.countryName))
  {
    hide LowerCase;
    assert Prefix(r)[..2] == r.country && Prefix(s)[..2] == s.country;
    assert Prefix(r)[2..] == r.region && Prefix(s)[2..] == s.region;
  }

  /** An assignment is valid exactly when it is a node token and: CNETROOT for the role ROOT;
      or, for another token, a declared old assignment, or two capital letters, two capital
      letters or digits and three digits, the first four an approved region, with the role HOST
      for 000 and 900 to 999 and END for the rest. It stands for its upper-case form. */
  lemma AssignmentMeaning(book: Book, value: string, role: Role, legacy: bool, t: string)
    ensures Validated(book, value, role, legacy) == Some(t) <==>
              && Token(value, NodeId) == Ok(t)
              && if t == "CNETROOT" then role == Root
                 else
                   || legacy
                   || (&& |t| == 7 && Letter(t[0]) && Letter(t[1]) && LetterDigit(t[2]) && LetterDigit(t[3])
                       && (forall k :: 4 <= k < 7 ==> '0' <= t[k] <= '9')
                       && t[..4] in book.regions
                       && role == if t[4..] == "000" || t[4] == '9' then Host else End)
  {
    hide Token;
    if AddressShaped(t) {
      assert t[4..] == "000" <==> NumberOf(t) == 0 by {
        assert t[4..] == [t[4], t[5], t[6]];
      }
      assert t[4] == '9' <==> NumberOf(t) >= 900;
    }
  }

  /** An address is the region's prefix and the number in three decimal digits. */
  lemma AddressMeaning(prefix: string, n: nat)
    requires n < 1000
    ensures var a := Address(prefix, n);
            && |a| == |prefix| + 3 && a[..|prefix|] == prefix
            && (forall k :: |prefix| <= k < |a| ==> '0' <= a[k] <= '9')
            && n == 100 * (a[|prefix|] as int - '0' as int) + 10 * (a[|prefix| + 1] as int - '0' as int) + (a[|prefix| + 2] as int - '0' as int)
  {
    DigitsMake(n);
    DigitValue(Hundreds(n));
    DigitValue(Tens(n));
    DigitValue(Ones(n));
    hide Digit, Hundreds, Tens, Ones;
    var a, k := Address(prefix, n), |prefix|;
    assert a[k] == Digit(Hundreds(n)) && a[k + 1] == Digit(Tens(n)) && a[k + 2] == Digit(Ones(n));
  }

  /** The spellings name this region: the country by its listed name in any case or, when no
      listed name is spelled so, by its code in any case; the region by code or name in any case. */
  predicate Spells(book: Book, country: string, region: string, p: string) {
    && p in book.regions
    && book.regions[p].country == (if LowerCase(country) in book.countries then book.countries[LowerCase(country)] else UpperCase(country))
    && (LowerCase(region) == LowerCase(book.regions[p].region) || LowerCase(region) == LowerCase(book.regions[p].regionName))
  }

  lemma SpellingMeaning(book: Book, country: string, region: string, p: string)
    ensures OnlyNamed(book, country, region, p) <==> forall q :: Spells(book, country, region, q) <==> q == p
  {
    hide LowerCase, UpperCase;
    forall q
      ensures Spells(book, country, region, q) <==> q in book.regions && Named(book.regions[q], CodeOf(book, country), region)
    {
    }
    hide Named, CodeOf, Spells;
  }

  /** The numbers of a kind: 1 to 899 for END, 0 for a primary, 900 to 999 for an additional HOST. */
  predicate InRange(kind: AssignmentKind, n: int) {
    (kind.EndNode? && 1 <= n <= 899) || (kind.PrimaryHost? && n == 0) || (kind.AdditionalHost? && 900 <= n <= 999)
  }

  ghost predicate IsReserved(book: Book, list: seq<Reservation>, prefix: string, n: int) {
    0 <= n < 1000 && ReservedBy(book, list, Address(prefix, n))
  }

  /** What is answered. A list of more than 10000 rows, or with an invalid or repeated one, is
      refused. For ROOT: an active ROOT is reported; else CNETROOT is given unless some row, in
      whatever status, reserves it. For the other kinds: without exactly one region of these
      spellings refused; else the address of the least number of the kind's range that no row
      reserves, and exhaustion exactly when there is none. */
  lemma SuggestMeaning(book: Book, country: string, region: string, kind: AssignmentKind, list: seq<Reservation>)
    ensures var r, stands := Suggested(book, country, region, kind, list), |list| <= 10000 && RowsStand(book, list);
            && (!stands ==> r == Refused)
            && (stands && kind == RootNode ==>
                  r == if exists i :: 0 <= i < |list| && list[i].role == Root && list[i].status == Active then RootExists
                       else if ReservedBy(book, list, "CNETROOT") then Exhausted else Given("CNETROOT"))
            && (stands && kind != RootNode ==>
                  && (r == Refused <==> forall p :: !OnlyNamed(book, country, region, p))
                  && (forall p :: OnlyNamed(book, country, region, p) ==>
                        && (r == Exhausted <==> forall n :: InRange(kind, n) ==> IsReserved(book, list, p, n))
                        && (forall n :: InRange(kind, n) && r == Given(Address(p, n)) ==>
                              !IsReserved(book, list, p, n) && forall k :: InRange(kind, k) && k < n ==> IsReserved(book, list, p, k))
                        && (r.Given? ==> exists n :: InRange(kind, n) && r == Given(Address(p, n)))))
  {
    UsedMeaning(book, list);
    hide Address, Used, RegionOf, Free, RowsStand, OnlyNamed, ReservedBy;
    if kind != RootNode && |list| <= MOST_RESERVATIONS && RowsStand(book, list) {
      forall p
        ensures RegionOf(book, country, region) == Some(p) <==> OnlyNamed(book, country, region, p)
      {
        RegionMeaning(book, country, region, p);
      }
      if RegionOf(book, country, region).Some? {
        var p := RegionOf(book, country, region).value;
        assert forall q :: OnlyNamed(book, country, region, q) ==> q == p;
        SuggestedInRegion(book, country, region, kind, list, p);
      }
    }
  }

  lemma SuggestedInRegion(book: Book, country: string, region: string, kind: AssignmentKind, list: seq<Reservation>, p: string)
    requires |list| <= MOST_RESERVATIONS && Used(book, list).Some? && kind != RootNode && RegionOf(book, country, region) == Some(p)
    ensures var r := Suggested(book, country, region, kind, list);
            && (r == Exhausted <==> forall n :: InRange(kind, n) ==> IsReserved(book, list, p, n))
            && (forall n :: InRange(kind, n) && r == Given(Address(p, n)) ==>
                  !IsReserved(book, list, p, n) && forall k :: InRange(kind, k) && k < n ==> IsReserved(book, list, p, k))
            && (r.Given? ==> exists n :: InRange(kind, n) && r == Given(Address(p, n)))
            && r != Refused
  {
    UsedMeaning(book, list);
    var used := Used(book, list).value;
    hide Address, Used, RegionOf, Free, RowsStand, ReservedBy;
    FreeIsLeast(used, p, First(kind), Beyond(kind));
    forall n | InRange(kind, n)
      ensures First(kind) <= n < Beyond(kind) && (IsReserved(book, list, p, n) <==> Address(p, n) in used)
    {
    }
    var free := Free(used, p, First(kind), Beyond(kind));
    if free.Some? {
      forall n | InRange(kind, n) && Address(p, n) == Address(p, free.value)
        ensures n == free.value
      {
        SameNumber(p, n, free.value);
      }
    }
  }

  lemma SameNumber(p: string, m: nat, n: nat)
    requires m < 1000 && n < 1000 && Address(p, m) == Address(p, n)
    ensures m == n
  {
    AddressMeaning(p, m);
    AddressMeaning(p, n);
    hide Address;
  }

  // ---------------------------------------------------------------------------
  // Reserving what was suggested, again and again

  function Reserve(list: seq<Reservation>, kind: AssignmentKind, address: string): seq<Reservation> {
    list + [Reservation(address, RoleOf(kind), Reserved, false)]
  }

  /** Reserving a suggestion adds exactly that address, and the list stays one the tool takes
      exactly when there was room for a row. */
  lemma ReservingKeepsTheList(book: Book, country: string, region: string, kind: AssignmentKind, list: seq<Reservation>, a: string)
    requires Filed(book.regions) && Suggested(book, country, region, kind, list) == Given(a)
    ensures ListValid(book, list) && !ReservedBy(book, list, a)
    ensures ListValid(book, Reserve(list, kind, a)) <==> |list| < MOST_RESERVATIONS
    ensures Used(book, list).Some? && Used(book, Reserve(list, kind, a)) == Some(Used(book, list).value + {a})
  {
    var longer := Reserve(list, kind, a);
    assert longer[..|list|] == list;
    UsedMeaning(book, list);
    UsedMeaning(book, longer);
    SuggestedIsFree(book, country, region, kind, list, a);
    hide Validated, Suggested, RowsStand, ReservedBy;
  }

  /** Whatever is suggested is unused and a valid new address of the kind's role. */
  lemma SuggestedIsFree(book: Book, country: string, region: string, kind: AssignmentKind, list: seq<Reservation>, a: string)
    requires Filed(book.regions) && Suggested(book, country, region, kind, list) == Given(a)
    ensures |list| <= MOST_RESERVATIONS && Used(book, list).Some? && a !in Used(book, list).value
    ensures Validated(book, a, RoleOf(kind), false) == Some(a)
  {
    if kind.RootNode? {
      RootIsValid(book);
    } else {
      SuggestionIsLeastValid(book, country, region, kind, list);
    }
    hide Validated;
  }

  lemma RootIsValid(book: Book)
    ensures Validated(book, ROOT_ADDRESS, Root, false) == Some(ROOT_ADDRESS)
  {
    assert UpperCase(ROOT_ADDRESS) == ROOT_ADDRESS;
  }

  /** At the bound a suggestion is still given, but with it reserved the list is refused by
      whatever is asked next. */
  lemma FullListStillSuggests(book: Book, country: string, region: string, kind: AssignmentKind, list: seq<Reservation>, a: string)
    requires Filed(book.regions) && |list| == MOST_RESERVATIONS
    requires Suggested(book, country, region, kind, list) == Given(a)
    ensures !ListValid(book, Reserve(list, kind, a))
    ensures forall c, r, k :: Suggested(book, c, r, k, Reserve(list, kind, a)) == Refused
  {
  }

  /** L and four digits: old addresses, all different. */
  function OldAddress(n: nat): string
    requires n < MOST_RESERVATIONS
  {
    Address(['L', Digit(n / 1000)], n % 1000)
  }

  function OldRows(n: nat): (rows: seq<Reservation>)
    requires n <= MOST_RESERVATIONS
    ensures |rows| == n
  {
    if n == 0 then [] else OldRows(n - 1) + [Reservation(OldAddress(n - 1), End, Reserved, true)]
  }

  lemma OldAddressIsToken(book: Book, n: nat)
    requires n < MOST_RESERVATIONS
    ensures Validated(book, OldAddress(n), End, true) == Some(OldAddress(n)) && OldAddress(n) != ROOT_ADDRESS
  {
    var k := n % 1000;
    DigitValue(n / 1000);
    DigitValue(Hundreds(k));
    DigitValue(Tens(k));
    DigitValue(Ones(k));
    hide Digit, Value, Hundreds, Tens, Ones;
    var a := OldAddress(n);
    assert |a| == 5 && |ROOT_ADDRESS| == 8;
    assert forall i :: 0 <= i < 5 ==> IsAlnum(a[i]) && Upper(a[i]) == a[i];
    assert UpperCase(a) == a;
  }

  lemma OldAddressesDiffer(m: nat, n: nat)
    requires m < MOST_RESERVATIONS && n < MOST_RESERVATIONS && OldAddress(m) == OldAddress(n)
    ensures m == n
  {
    var p, q := ['L', Digit(m / 1000)], ['L', Digit(n / 1000)];
    hide Digit, Hundreds, Tens, Ones;
    var a, b := OldAddress(m), OldAddress(n);
    assert a[1] == Digit(m / 1000) && b[1] == Digit(n / 1000);
    assert a[2] == Digit(Hundreds(m % 1000)) && a[3] == Digit(Tens(m % 1000)) && a[4] == Digit(Ones(m % 1000));
    assert b[2] == Digit(Hundreds(n % 1000)) && b[3] == Digit(Tens(n % 1000)) && b[4] == Digit(Ones(n % 1000));
    hide Address, OldAddress;
    SameDigits(m / 1000, n / 1000);
    SameDigits(Hundreds(m % 1000), Hundreds(n % 1000));
    SameDigits(Tens(m % 1000), Tens(n % 1000));
    SameDigits(Ones(m % 1000), Ones(n % 1000));
    DigitsMake(m % 1000);
    DigitsMake(n % 1000);
  }

  ghost predicate OldAmong(n: nat, a: string)
    requires n <= MOST_RESERVATIONS
  {
    exists k :: 0 <= k < n && a == OldAddress(k)
  }

  lemma {:induction false} OldRowsAreUsed(book: Book, n: nat)
    requires n <= MOST_RESERVATIONS
    ensures Used(book, OldRows(n)).Some?
    ensures forall a :: a in Used(book, OldRows(n)).value <==> OldAmong(n, a)
    decreases n
  {
    if n == 0 {
      assert forall a :: !OldAmong(0, a);
    } else {
      hide Used, OldAddress, Validated, OldAmong;
      OldRowsAreUsed(book, n - 1);
      OldAddressIsToken(book, n - 1);
      OldAddressIsNew(n - 1);
      OneMoreUsed(book, OldRows(n - 1), Reservation(OldAddress(n - 1), End, Reserved, true));
    }
  }

  lemma OldAddressIsNew(n: nat)
    requires n < MOST_RESERVATIONS
    ensures !OldAmong(n, OldAddress(n))
    ensures forall a :: OldAmong(n + 1, a) <==> OldAmong(n, a) || a == OldAddress(n)
  {
    hide OldAddress;
    forall k | 0 <= k < n
      ensures OldAddress(k) != OldAddress(n)
    {
      if OldAddress(k) == OldAddress(n) { OldAddressesDiffer(k, n); }
    }
  }

  lemma OneMoreUsed(book: Book, front: seq<Reservation>, last: Reservation)
    requires Used(book, front).Some? && AddressOf(book, last).Some? && AddressOf(book, last).value !in Used(book, front).value
    ensures Used(book, front + [last]) == Some(Used(book, front).value + {AddressOf(book, last).value})
  {
    hide AddressOf;
    assert (front + [last])[..|front|] == front;
  }

  lemma {:induction false} OldRowsHaveNoRoot(n: nat)
    requires n <= MOST_RESERVATIONS
    ensures !ActiveRoot(OldRows(n))
    decreases n
  {
    hide OldAddress;
    if n == 0 {
    } else {
      OldRowsHaveNoRoot(n - 1);
      var rows := OldRows(n);
      forall i | 0 <= i < |rows|
        ensures !(rows[i].role.Root? && rows[i].status.Active?)
      {
        if i < n - 1 { assert rows[i] == OldRows(n - 1)[i]; }
      }
    }
  }

  /** A list of 10000 old addresses is taken and CNETROOT suggested; with it reserved the list
      is refused. */
  lemma FullListExample(book: Book)
    requires Filed(book.regions)
    ensures var list := OldRows(MOST_RESERVATIONS);
            && ListValid(book, list)
            && Suggested(book, "", "", RootNode, list) == Given(ROOT_ADDRESS)
            && !ListValid(book, Reserve(list, RootNode, ROOT_ADDRESS))
            && Suggested(book, "", "", RootNode, Reserve(list, RootNode, ROOT_ADDRESS)) == Refused
  {
    hide OldRows, OldAddress, ActiveRoot;
    var list := OldRows(MOST_RESERVATIONS);
    OldRowsAreUsed(book, MOST_RESERVATIONS);
    OldRowsHaveNoRoot(MOST_RESERVATIONS);
    UsedMeaning(book, list);
    if ROOT_ADDRESS in Used(book, list).value {
      assert OldAmong(MOST_RESERVATIONS, ROOT_ADDRESS);
      var k :| 0 <= k < MOST_RESERVATIONS && ROOT_ADDRESS == OldAddress(k);
      OldAddressIsToken(book, k);
      assert false;
    }
    FullListStillSuggests(book, "", "", RootNode, list, ROOT_ADDRESS);
  }

  // ---------------------------------------------------------------------------
  // Runs of requests, each suggestion reserved before the next request

  datatype Ask = Ask(country: string, region: string, kind: AssignmentKind)

  /** What a request was given: an address and, outside the root, its region and number. */
  datatype Grant = Grant(kind: AssignmentKind, prefix: string, number: nat, address: string)

  ghost function GrantOf(book: Book, list: seq<Reservation>, ask: Ask): Option<Grant> {
    match Suggested(book, ask.country, ask.region, ask.kind, list)
    case Given(a) =>
      if ask.kind.RootNode? then Some(Grant(ask.kind, "", 0, a))
      else
        var prefix := RegionOf(book, ask.country, ask.region).value;
        Some(Grant(ask.kind, prefix, Free(Used(book, list).value, prefix, First(ask.kind), Beyond(ask.kind)).value, a))
    case _ => None
  }

  /** The list after some requests; one that is refused changes nothing. */
  ghost function ReserveAll(book: Book, list: seq<Reservation>, asks: seq<Ask>): seq<Reservation> {
    if asks == [] then list
    else
      var before, ask := ReserveAll(book, list, asks[..|asks| - 1]), asks[|asks| - 1];
      var grant := GrantOf(book, before, ask);
      if grant.None? then before else Reserve(before, ask.kind, grant.value.address)
  }

  ghost function Granted(book: Book, list: seq<Reservation>, asks: seq<Ask>): seq<Grant> {
    if asks == [] then []
    else
      var front := asks[..|asks| - 1];
      var grant := GrantOf(book, ReserveAll(book, list, front), asks[|asks| - 1]);
      Granted(book, list, front) + (if grant.None? then [] else [grant.value])
  }

  /** All numbers of the range up to this one are used. */
  ghost predicate UsedUpTo(used: set<string>, prefix: string, kind: AssignmentKind, n: nat)
    requires n < 1000
  {
    forall k {:trigger Address(prefix, k)} :: First(kind) <= k <= n ==> Address(prefix, k) in used
  }

  /** A grant is a new valid address of its kind's range, and everything below it was used. */
  ghost predicate GrantStands(book: Book, before: set<string>, after: set<string>, g: Grant) {
    && g.address !in before && g.address in after
    && Validated(book, g.address, RoleOf(g.kind), false) == Some(g.address)
    && if g.kind.RootNode? then g.address == ROOT_ADDRESS
       else First(g.kind) <= g.number < Beyond(g.kind) && g.prefix in book.regions
            && g.address == Address(g.prefix, g.number) && UsedUpTo(after, g.prefix, g.kind, g.number)
  }

  /** Two grants in this order never share an address, and numbers of one range increase. */
  ghost predicate InOrder(g: Grant, h: Grant) {
    g.address != h.address && (g.kind == h.kind && g.prefix == h.prefix && !g.kind.RootNode? ==> g.number < h.number)
  }

  ghost predicate GrantsKept(book: Book, before: set<string>, after: set<string>, grants: seq<Grant>) {
    && (forall a {:trigger a in after} :: a in after <==> a in before || exists i :: 0 <= i < |grants| && grants[i].address == a)
    && (forall i {:trigger grants[i]} :: 0 <= i < |grants| ==> GrantStands(book, before, after, grants[i]))
    && (forall i, j {:trigger grants[i], grants[j]} :: 0 <= i < j < |grants| ==> InOrder(grants[i], grants[j]))
  }

  lemma NewGrantStands(book: Book, list: seq<Reservation>, ask: Ask)
    requires Filed(book.regions) && GrantOf(book, list, ask).Some?
    ensures |list| <= MOST_RESERVATIONS && Used(book, list).Some?
    ensures var used, g := Used(book, list).value, GrantOf(book, list, ask).value;
            && g.kind == ask.kind && GrantStands(book, used, used + {g.address}, g)
            && Suggested(book, ask.country, ask.region, ask.kind, list) == Given(g.address)
  {
    hide Validated, Address, Free, Used, RowsStand;
    GrantShape(book, list, ask);
    var g := GrantOf(book, list, ask).value;
    SuggestedIsFree(book, ask.country, ask.region, ask.kind, list, g.address);
    hide Suggested, RegionOf, GrantOf;
    var used := Used(book, list).value;
    if ask.kind.RootNode? {
    } else {
      FreeIsLeast(used, g.prefix, First(ask.kind), Beyond(ask.kind));
      RegionMeaning(book, ask.country, ask.region, g.prefix);
    }
  }

  /** What a grant is made of. */
  lemma GrantShape(book: Book, list: seq<Reservation>, ask: Ask)
    requires GrantOf(book, list, ask).Some?
    ensures |list| <= MOST_RESERVATIONS && Used(book, list).Some?
    ensures var g := GrantOf(book, list, ask).value;
            && g.kind == ask.kind && Suggested(book, ask.country, ask.region, ask.kind, list) == Given(g.address)
            && if ask.kind.RootNode? then g.address == ROOT_ADDRESS
               else RegionOf(book, ask.country, ask.region) == Some(g.prefix) && g.number < 1000
                    && Free(Used(book, list).value, g.prefix, First(g.kind), Beyond(g.kind)) == Some(g.number)
                    && g.address == Address(g.prefix, g.number)
  {
    hide Address, Free, Used, RegionOf;
  }

  lemma GrantsGrow(book: Book, before: set<string>, used: set<string>, grants: seq<Grant>, g: Grant)
    requires GrantsKept(book, before, used, grants) && GrantStands(book, used, used + {g.address}, g)
    ensures GrantsKept(book, before, used + {g.address}, grants + [g])
  {
    hide Validated, Address;
    var after, longer := used + {g.address}, grants + [g];
    assert longer[|grants|] == g && forall i :: 0 <= i < |grants| ==> longer[i] == grants[i];
    forall i | 0 <= i < |longer|
      ensures GrantStands(book, before, after, longer[i])
    {
      if i < |grants| { assert GrantStands(book, before, used, grants[i]); }
    }
    forall i, j | 0 <= i < j < |longer|
      ensures InOrder(longer[i], longer[j])
    {
      if j < |grants| { assert InOrder(grants[i], grants[j]); }
      else { LaterIsHigher(book, before, used, grants[i], g); }
    }
  }

  lemma LaterIsHigher(book: Book, before: set<string>, used: set<string>, g: Grant, h: Grant)
    requires GrantStands(book, before, used, g) && GrantStands(book, used, used + {h.address}, h)
    ensures InOrder(g, h)
  {
    hide Validated, Address;
  }

  ghost predicate RunKept(book: Book, list: seq<Reservation>, final: seq<Reservation>, grants: seq<Grant>) {
    && |final| == |list| + |grants| <= MOST_RESERVATIONS + 1
    && Used(book, list).Some? && Used(book, final).Some?
    && (ListValid(book, final) <==> |final| <= MOST_RESERVATIONS)
    && GrantsKept(book, Used(book, list).value, Used(book, final).value, grants)
  }

  lemma OneMoreAsk(book: Book, list: seq<Reservation>, before: seq<Reservation>, grants: seq<Grant>, ask: Ask)
    requires Filed(book.regions) && RunKept(book, list, before, grants) && GrantOf(book, before, ask).Some?
    ensures var g := GrantOf(book, before, ask).value;
            RunKept(book, list, Reserve(before, ask.kind, g.address), grants + [g])
  {
    hide Used, GrantsKept, Suggested, GrantOf, GrantStands, ListValid, Filed;
    var g := GrantOf(book, before, ask).value;
    NewGrantStands(book, before, ask);
    GrantsGrow(book, Used(book, list).value, Used(book, before).value, grants, g);
    ReservingKeepsTheList(book, ask.country, ask.region, ask.kind, before, g.address);
  }

  /** In every run of requests, for any kinds in any regions, each reserved as it is given: the
      list grows by one row a grant and stays one the tool takes exactly while it is within its
      bound; every grant is a valid address that was not reserved before; no two grants share
      an address; and within a range the numbers strictly increase. */
  lemma {:induction false} RunOfSuggestions(book: Book, list: seq<Reservation>, asks: seq<Ask>)
    requires Filed(book.regions) && ListValid(book, list)
    ensures RunKept(book, list, ReserveAll(book, list, asks), Granted(book, list, asks))
    decreases |asks|
  {
    if asks == [] {
      UsedMeaning(book, list);
      hide Used, RowsStand;
    } else {
      var front, ask := asks[..|asks| - 1], asks[|asks| - 1];
      RunOfSuggestions(book, list, front);
      hide RunKept, GrantOf, ListValid;
      var before, grants := ReserveAll(book, list, front), Granted(book, list, front);
      if GrantOf(book, before, ask).Some? {
        OneMoreAsk(book, list, before, grants, ask);
      } else {
        assert Granted(book, list, asks) == grants;
      }
    }
  }

  predicate OfRange(g: Grant, prefix: string, kind: AssignmentKind) {
    g.kind == kind && g.prefix == prefix
  }

  /** The numbers granted in one range, in order. */
  function Numbers(grants: seq<Grant>, prefix: string, kind: AssignmentKind): seq<nat> {
    if grants == [] then []
    else
      var g := grants[|grants| - 1];
      Numbers(grants[..|grants| - 1], prefix, kind) + (if OfRange(g, prefix, kind) then [g.number] else [])
  }

  ghost predicate AllBetween(ns: seq<nat>, low: nat, beyond: nat) {
    forall i :: 0 <= i < |ns| ==> low <= ns[i] < beyond
  }

  ghost predicate Increasing(ns: seq<nat>) {
    forall i, j :: 0 <= i < j < |ns| ==> ns[i] < ns[j]
  }

  lemma {:induction false} NumbersBetween(grants: seq<Grant>, prefix: string, kind: AssignmentKind, low: nat, beyond: nat)
    requires forall i :: 0 <= i < |grants| && OfRange(grants[i], prefix, kind) ==> low <= grants[i].number < beyond
    ensures AllBetween(Numbers(grants, prefix, kind), low, beyond)
    decreases |grants|
  {
    if grants == [] {
    } else {
      var front, g := grants[..|grants| - 1], grants[|grants| - 1];
      NumbersBetween(front, prefix, kind, low, beyond);
      assert OfRange(g, prefix, kind) ==> low <= g.number < beyond;
    }
  }

  ghost predicate RangesIncrease(grants: seq<Grant>, prefix: string, kind: AssignmentKind) {
    forall i, j :: 0 <= i < j < |grants| && OfRange(grants[i], prefix, kind) && OfRange(grants[j], prefix, kind) ==>
      grants[i].number < grants[j].number
  }

  lemma {:induction false} NumbersIncrease(grants: seq<Grant>, prefix: string, kind: AssignmentKind)
    requires RangesIncrease(grants, prefix, kind)
    ensures Increasing(Numbers(grants, prefix, kind))
    decreases |grants|
  {
    if grants == [] {
    } else {
      var front, g := grants[..|grants| - 1], grants[|grants| - 1];
      NumbersIncrease(front, prefix, kind);
      if OfRange(g, prefix, kind) {
        forall i | 0 <= i < |front| && OfRange(front[i], prefix, kind)
          ensures 0 <= front[i].number < g.number
        {
          assert OfRange(grants[i], prefix, kind) && OfRange(grants[|grants| - 1], prefix, kind);
        }
        NumbersBetween(front, prefix, kind, 0, g.number);
      }
    }
  }

  /** However often a region is asked, whatever else is asked in between: at most 899 END, one
      primary and 100 additional HOST addresses; and CNETROOT is given at most once. */
  lemma GrantsAreBounded(book: Book, list: seq<Reservation>, asks: seq<Ask>, prefix: string, kind: AssignmentKind)
    requires Filed(book.regions) && ListValid(book, list)
    ensures var ns := Numbers(Granted(book, list, asks), prefix, kind);
            && (!kind.RootNode? ==> Increasing(ns) && AllBetween(ns, First(kind), Beyond(kind)))
            && (kind.EndNode? ==> |ns| <= 899) && (kind.PrimaryHost? ==> |ns| <= 1) && (kind.AdditionalHost? ==> |ns| <= 100)
    ensures var grants := Granted(book, list, asks);
            forall i, j :: 0 <= i < |grants| && 0 <= j < |grants| && grants[i].kind.RootNode? && grants[j].kind.RootNode? ==> i == j
  {
    RunOfSuggestions(book, list, asks);
    hide ReserveAll, Granted, Used;
    var before, after, grants := Used(book, list).value, Used(book, ReserveAll(book, list, asks)).value, Granted(book, list, asks);
    forall i, j | 0 <= i < j < |grants|
      ensures !(grants[i].kind.RootNode? && grants[j].kind.RootNode?)
    {
      assert InOrder(grants[i], grants[j]) && GrantStands(book, before, after, grants[i]) && GrantStands(book, before, after, grants[j]);
    }
    if !kind.RootNode? {
      forall i, j | 0 <= i < j < |grants| && OfRange(grants[i], prefix, kind) && OfRange(grants[j], prefix, kind)
        ensures grants[i].number < grants[j].number
      {
        assert InOrder(grants[i], grants[j]);
      }
      forall i | 0 <= i < |grants| && OfRange(grants[i], prefix, kind)
        ensures First(kind) <= grants[i].number < Beyond(kind)
      {
        assert GrantStands(book, before, after, grants[i]);
      }
      NumbersIncrease(grants, prefix, kind);
      NumbersBetween(grants, prefix, kind, First(kind), Beyond(kind));
      var ns := Numbers(grants, prefix, kind);
      hide GrantsKept, Numbers;
      if ns != [] { Spread(ns, First(kind), |ns| - 1); }
    }
  }

  /** Strictly increasing numbers are at least their position above the first. */
  lemma {:induction false} Spread(ns: seq<nat>, first: nat, i: nat)
    requires i < |ns| && ns[0] >= first && Increasing(ns)
    ensures ns[i] >= first + i
    decreases i
  {
    if i == 0 {
    } else {
      Spread(ns, first, i - 1);
    }
  }
}
