/** Tokens, identities and text fields of the wire format. */
module Tokens {
  import opened Basics

  datatype Kind = NodeId | Codename | NetworkName

  predicate IsUpper(c: char) { 'A' <= c <= 'Z' }
  predicate IsLower(c: char) { 'a' <= c <= 'z' }
  predicate IsAlnum(c: char) { IsUpper(c) || IsLower(c) || '0' <= c <= '9' }
  predicate IsHex(c: char) { '0' <= c <= '9' || 'a' <= c <= 'f' }

  function Upper(c: char): char {
    if IsLower(c) then (c as int - 32) as char else c
  }

  function Lower(c: char): char {
    if IsUpper(c) then (c as int + 32) as char else c
  }

  function UpperCase(s: string): (r: string)
    ensures |r| == |s|
  {
    seq(|s|, i requires 0 <= i < |s| => Upper(s[i]))
  }

  function LowerCase(s: string): (r: string)
    ensures |r| == |s|
  {
    seq(|s|, i requires 0 <= i < |s| => Lower(s[i]))
  }

  function MaximumLength(kind: Kind): nat {
    if kind.NetworkName? then 32 else 8
  }

  /** Letters and digits; codenames and networks also allow inner hyphens. */
  predicate WellSpelled(s: string, kind: Kind) {
    && 1 <= |s| <= MaximumLength(kind)
    && IsAlnum(s[0]) && IsAlnum(s[|s| - 1])
    && (forall i :: 0 <= i < |s| ==> IsAlnum(s[i]) || (s[i] == '-' && !kind.NodeId?))
  }

  function Token(value: string, kind: Kind): Result<string> {
    if !WellSpelled(value, kind) then Err(MalformedFrame)
    else Ok(if kind.NetworkName? then LowerCase(value) else UpperCase(value))
  }

  function HexStr(value: string, size: nat): Result<string> {
    if |value| == size * 2 && forall i :: 0 <= i < |value| ==> IsHex(value[i]) then Ok(value) else Err(MalformedFrame)
  }

  /** Position of the first colon, or the length when there is none. */
  function Colon(s: string): (i: nat)
    ensures i <= |s|
    ensures i < |s| ==> s[i] == ':'
    ensures forall j :: 0 <= j < i ==> s[j] != ':'
  {
    if s == [] || s[0] == ':' then 0 else 1 + Colon(s[1..])
  }

  /** The node part of `NODE:hex`. */
  function NodeOf(id: string): string {
    id[..Colon(id)]
  }

  function Identity(value: string): Result<string> {
    var i := Colon(value);
    :- Require(i < |value| && ':' !in value[i + 1..], MalformedFrame);
    var node :- Token(value[..i], NodeId);
    var hex :- HexStr(LowerCase(value[i + 1..]), 16);
    Ok(node + ":" + hex)
  }

  lemma TokenIdempotent(value: string, kind: Kind)
    requires Token(value, kind).Ok?
    ensures Token(Token(value, kind).value, kind) == Token(value, kind)
    ensures kind.NodeId? ==> ':' !in Token(value, kind).value
  {
    var t := Token(value, kind).value;
    assert if kind.NetworkName? then LowerCase(t) == t else UpperCase(t) == t;
    assert forall i :: 0 <= i < |t| ==> (t[i] == '-' <==> value[i] == '-') && (IsAlnum(t[i]) <==> IsAlnum(value[i]));
  }

  /** A normal identity has the node's token before its only colon. */
  lemma IdentityIdempotent(value: string)
    requires Identity(value).Ok?
    ensures Identity(Identity(value).value) == Identity(value)
    ensures Token(NodeOf(Identity(value).value), NodeId) == Ok(NodeOf(Identity(value).value))
  {
    var i := Colon(value);
    TokenIdempotent(value[..i], NodeId);
    var node := Token(value[..i], NodeId).value;
    var hex := LowerCase(value[i + 1..]);
    var id := node + ":" + hex;
    assert id[|node|] == ':' && forall j :: 0 <= j < |node| ==> id[j] != ':';
    assert Colon(id) == |node|;
    assert id[..|node|] == node;
    assert id[|node| + 1..] == hex;
    assert forall j :: 0 <= j < |hex| ==> IsHex(hex[j]) && Lower(hex[j]) == hex[j];
    assert LowerCase(hex) == hex;
  }

  // Text. Category Cc is exactly the 65 code points below 0x20 and 0x7f-0x9f.

  function Utf8Width(c: char): nat {
    if c < 0x80 as char then 1 else if c < 0x800 as char then 2
    else if c < 0x10000 as char then 3 else 4
  }

  function Utf8Length(s: string): nat {
    if s == [] then 0 else Utf8Width(s[0]) + Utf8Length(s[1..])
  }

  predicate IsControl(c: char) {
    c < 0x20 as char || 0x7f as char <= c <= 0x9f as char
  }

  predicate IsLayoutOverride(c: char) {
    || c == 0x2028 as char || c == 0x2029 as char
    || 0x202a as char <= c <= 0x202e as char
    || 0x2066 as char <= c <= 0x2069 as char
  }

  predicate TextAllowed(s: string, size: nat, body: bool, empty: bool) {
    && (empty || s != [])
    && Utf8Length(s) <= size
    && (forall i :: 0 <= i < |s| ==>
          !(IsControl(s[i]) && !(body && s[i] in "\r\n\t")) && !IsLayoutOverride(s[i]))
  }

  // ---------------------------------------------------------------------------
  // What is accepted, character by character

  predicate LetterOrDigit(c: char) {
    48 <= c as int <= 57 || 65 <= c as int <= 90 || 97 <= c as int <= 122
  }

  predicate HexInAnyCase(c: char) {
    48 <= c as int <= 57 || 65 <= c as int <= 70 || 97 <= c as int <= 102
  }

  /** The token of a value differs from it only in case: lower for a network's name, else upper. */
  predicate SameButCase(value: string, t: string, lower: bool) {
    && |t| == |value|
    && forall i :: 0 <= i < |t| ==>
         if 'a' <= value[i] <= 'z' then t[i] as int == value[i] as int - (if lower then 0 else 32)
         else if 'A' <= value[i] <= 'Z' then t[i] as int == value[i] as int + (if lower then 32 else 0)
         else t[i] == value[i]
  }

  /** A node token is 1 to 8 letters and digits; a codename, and a network's name of up to 32,
      may also have hyphens inside. */
  lemma TokenMeaning(value: string, kind: Kind)
    ensures Token(value, kind).Ok? <==>
              && 1 <= |value| <= (if kind == NetworkName then 32 else 8)
              && (forall i :: 0 <= i < |value| ==>
                    LetterOrDigit(value[i]) || (value[i] == '-' && kind != NodeId && 0 < i < |value| - 1))
    ensures Token(value, kind).Ok? ==> SameButCase(value, Token(value, kind).value, kind == NetworkName)
    ensures Token(value, kind).Err? ==> Token(value, kind).code == MalformedFrame
  {
    assert forall i :: 0 <= i < |value| ==> (IsAlnum(value[i]) <==> LetterOrDigit(value[i]));
  }

  /** An identity is a node token, one colon and 32 hexadecimal digits, in any case. */
  lemma IdentityMeaning(value: string, node: string, hex: string)
    requires value == node + ":" + hex && ':' !in node
    ensures Identity(value).Ok? <==> Token(node, NodeId).Ok? && |hex| == 32 && forall i :: 0 <= i < 32 ==> HexInAnyCase(hex[i])
    ensures Identity(value).Ok? ==> Identity(value).value == Token(node, NodeId).value + ":" + LowerCase(hex)
  {
    hide Token;
    assert value[|node|] == ':' && forall j :: 0 <= j < |node| ==> value[j] == node[j];
    assert Colon(value) == |node| && value[..|node|] == node && value[|node| + 1..] == hex;
    assert forall i :: 0 <= i < |hex| ==> (IsHex(LowerCase(hex)[i]) <==> HexInAnyCase(hex[i]));
    if ':' in hex {
      var i :| 0 <= i < |hex| && hex[i] == ':';
      assert !HexInAnyCase(hex[i]);
    }
  }

  lemma NoColonNoIdentity(value: string)
    requires ':' !in value
    ensures Identity(value) == Err(MalformedFrame)
  {
  }

  /** Text is refused for what it holds exactly if some character is a control character other
      than, in a body, return, newline or tab; or a line, paragraph or direction override. */
  lemma TextMeaning(s: string, size: nat, body: bool, empty: bool)
    ensures TextAllowed(s, size, body, empty) <==>
              && (empty || |s| > 0) && Utf8Length(s) <= size
              && forall i {:trigger s[i]} :: 0 <= i < |s| ==>
                   var n := s[i] as int;
                   && (n < 32 || 127 <= n <= 159 ==> body && n in {9, 10, 13})
                   && n !in {0x2028, 0x2029, 0x202a, 0x202b, 0x202c, 0x202d, 0x202e, 0x2066, 0x2067, 0x2068, 0x2069}
  {
    forall i | 0 <= i < |s|
      ensures s[i] in "\r\n\t" <==> s[i] as int in {9, 10, 13}
    {
      var breaks := "\r\n\t";
      if s[i] as int == 13 { assert breaks[0] == s[i]; }
      if s[i] as int == 10 { assert breaks[1] == s[i]; }
      if s[i] as int == 9 { assert breaks[2] == s[i]; }
    }
  }

  /** Twice as many lower-case hexadecimal digits as bytes, and nothing is changed. */
  lemma HexStrMeaning(value: string, size: nat)
    ensures HexStr(value, size) ==
              if |value| == 2 * size && forall i :: 0 <= i < |value| ==> 48 <= value[i] as int <= 57 || 97 <= value[i] as int <= 102
              then Ok(value) else Err(MalformedFrame)
  {
  }
}
