/** The records that travel between peers and their normal forms. A raw record
    has the same fields as a normal one with the spelling still unchecked. */
module Records {
  import opened Basics
  import opened Tokens

  datatype Message = Message(
    id: string, origin: string, codename: string, author: string, subject: string, body: string,
    timestamp: int, reply: Option<string>, path: seq<string>,
    conference: Option<string>, destination: Option<string>)

  datatype Batch = Batch(network: string, sender: string, neighbor: string, messages: seq<Message>)

  datatype Receipt = Receipt(network: string, sender: string, neighbor: string,
                             artifact: Digest<Batch>, accepted: seq<string>)

  datatype Ack = Ack(receipt: Receipt, imported: int, duplicates: int)

  datatype Operation = Subscribe | Unsubscribe | QuerySubscriptions

  datatype Control = Control(network: string, id: string, requester: string, target: string,
                             operation: Operation, codename: Option<string>)

  type Content = seq<byte>

  datatype Publication = Publication(
    network: string, id: string, origin: string, codename: string, sha256: Digest<Content>, size: int,
    filename: string, description: string, timestamp: int, path: seq<string>)

  // ---------------------------------------------------------------------------
  // Normal forms

  function OptionalToken(value: Option<string>, kind: Kind): Result<Option<string>> {
    if value.None? then Ok(None) else var t :- Token(value.value, kind); Ok(Some(t))
  }

  function OptionalIdentity(value: Option<string>): Result<Option<string>> {
    if value.None? then Ok(None) else var id :- Identity(value.value); Ok(Some(id))
  }

  predicate HexAllowed(value: Option<string>, size: nat) {
    value.Some? ==> HexStr(value.value, size).Ok?
  }

  function NodeTokens(values: seq<string>): (r: Result<seq<string>>)
    ensures r.Ok? ==> |r.value| == |values|
  {
    if values == [] then Ok([])
    else
      var first :- Token(values[0], NodeId);
      var rest :- NodeTokens(values[1..]);
      Ok([first] + rest)
  }

  function NormalPath(value: seq<string>): Result<seq<string>> {
    var path :- NodeTokens(value);
    :- Require(1 <= |path| <= 128 && Unrepeated(path), MalformedFrame);
    Ok(path)
  }

  predicate TextFieldsAllowed(author: string, subject: string, body: string) {
    && TextAllowed(author, 120, false, false) && |author| <= 60
    && TextAllowed(subject, 72, false, true)
    && TextAllowed(body, 65536, true, true)
  }

  /** The respelled fields of a message. */
  function SpelledMessage(m: Message): (r: Result<Message>)
    ensures r.Ok? ==> r.value.path != []
  {
    var id :- Identity(m.id);
    var origin :- Token(m.origin, NodeId);
    var codename :- Token(m.codename, Codename);
    var reply :- OptionalIdentity(m.reply);
    var path :- NormalPath(m.path);
    var destination :- OptionalToken(m.destination, NodeId);
    Ok(m.(id := id, origin := origin, codename := codename, reply := reply, path := path, destination := destination))
  }

  predicate MessageAllowed(m: Message) {
    && HexAllowed(m.conference, 16)
    && TextFieldsAllowed(m.author, m.subject, m.body)
    && 0 <= m.timestamp <= LAST_TIMESTAMP
    && NodeOf(m.id) == m.origin && m.reply != Some(m.id)
    && m.path != [] && m.path[0] == m.origin
  }

  function NormalMessage(m: Message): Result<Message> {
    var spelled :- SpelledMessage(m);
    :- Require(MessageAllowed(spelled), MalformedFrame);
    Ok(spelled)
  }

  function NormalMessages(messages: seq<Message>): (r: Result<seq<Message>>)
    ensures r.Ok? ==> |r.value| == |messages|
  {
    if messages == [] then Ok([])
    else
      var first :- NormalMessage(messages[0]);
      var rest :- NormalMessages(messages[1..]);
      Ok([first] + rest)
  }

  predicate IdsUnrepeated(messages: seq<Message>) {
    forall i, j :: 0 <= i < j < |messages| ==> messages[i].id != messages[j].id
  }

  predicate PathsFrom(messages: seq<Message>, sender: string, neighbor: string) {
    forall i :: 0 <= i < |messages| ==>
      var p := messages[i].path; p != [] && p[|p| - 1] == sender && neighbor !in p
  }

  function NormalBatch(b: Batch): Result<Batch> {
    var network :- Token(b.network, NetworkName);
    var sender :- Token(b.sender, NodeId);
    var neighbor :- Token(b.neighbor, NodeId);
    var messages :- NormalMessages(b.messages);
    :- Require(1 <= |messages| <= 32 && sender != neighbor && IdsUnrepeated(messages) && PathsFrom(messages, sender, neighbor), MalformedFrame);
    Ok(Batch(network, sender, neighbor, messages))
  }

  function NormalControl(c: Control): Result<Control> {
    var network :- Token(c.network, NetworkName);
    var id :- Identity(c.id);
    var requester :- Token(c.requester, NodeId);
    var target :- Token(c.target, NodeId);
    var codename :- OptionalToken(c.codename, Codename);
    :- Require((c.operation.QuerySubscriptions? <==> codename.None?) && NodeOf(id) == requester
               && requester != target, MalformedFrame);
    Ok(Control(network, id, requester, target, c.operation, codename))
  }

  predicate FilenameAllowed(name: string) {
    && 1 <= |name| <= 64 && name[0] != '.'
    && forall i :: 0 <= i < |name| ==> IsAlnum(name[i]) || name[i] in "._+-"
  }

  /** Line separators left once control characters other than newline and tab are refused. */
  function LineBreaks(s: string): nat {
    if s == [] then 0
    else (if s[0] == '\n' || s[0] == 0x2028 as char || s[0] == 0x2029 as char then 1 else 0) + LineBreaks(s[1..])
  }

  function Lines(s: string): nat {
    if s == [] then 0
    else LineBreaks(s) + (if LineBreaks(s[|s| - 1..]) == 1 then 0 else 1)
  }

  predicate DescriptionAllowed(d: string) {
    && Utf8Length(d) <= 4096
    && Lines(d) <= 20
    && forall i :: 0 <= i < |d| ==> IsControl(d[i]) ==> d[i] in "\n\t"
  }

  function SpelledPublication(p: Publication): Result<Publication> {
    var network :- Token(p.network, NetworkName);
    var id :- Identity(p.id);
    var origin :- Token(p.origin, NodeId);
    var codename :- Token(p.codename, Codename);
    var path :- NormalPath(p.path);
    Ok(p.(network := network, id := id, origin := origin, codename := codename, path := path))
  }

  predicate PublicationAllowed(p: Publication) {
    && FilenameAllowed(p.filename) && DescriptionAllowed(p.description)
    && (p.sha256.Unrelated? ==> HexStr(p.sha256.hex, 32).Ok?)
    && 0 <= p.size <= MAX_FILE
    && -0x8000_0000_0000_0000 <= p.timestamp < 0x8000_0000_0000_0000
    && NodeOf(p.id) == p.origin && p.path != [] && p.path[0] == p.origin
  }

  function NormalPublication(p: Publication): Result<Publication> {
    var spelled :- SpelledPublication(p);
    :- Require(PublicationAllowed(spelled), MalformedFrame);
    Ok(spelled)
  }

  // ---------------------------------------------------------------------------
  // Normalising twice changes nothing

  lemma {:induction false} NodeTokensIdempotent(values: seq<string>)
    requires NodeTokens(values).Ok?
    ensures NodeTokens(NodeTokens(values).value) == NodeTokens(values)
    decreases |values|
  {
    if values == [] {
    } else {
      TokenIdempotent(values[0], NodeId);
      NodeTokensIdempotent(values[1..]);
      assert NodeTokens(values).value[1..] == NodeTokens(values[1..]).value;
    }
  }

  lemma PathIdempotent(p: seq<string>)
    requires NormalPath(p).Ok?
    ensures NormalPath(NormalPath(p).value) == NormalPath(p)
  {
    NodeTokensIdempotent(p);
  }

  lemma SpelledMessageIdempotent(m: Message)
    requires SpelledMessage(m).Ok?
    ensures SpelledMessage(SpelledMessage(m).value) == SpelledMessage(m)
  {
    IdentityIdempotent(m.id);
    TokenIdempotent(m.origin, NodeId);
    TokenIdempotent(m.codename, Codename);
    PathIdempotent(m.path);
    if m.reply.Some? { IdentityIdempotent(m.reply.value); }
    if m.destination.Some? { TokenIdempotent(m.destination.value, NodeId); }
  }

  lemma MessageIdempotent(m: Message)
    requires NormalMessage(m).Ok?
    ensures NormalMessage(NormalMessage(m).value) == NormalMessage(m)
  {
    SpelledMessageIdempotent(m);
  }

  lemma {:induction false} MessagesIdempotent(messages: seq<Message>)
    requires NormalMessages(messages).Ok?
    ensures NormalMessages(NormalMessages(messages).value) == NormalMessages(messages)
    decreases |messages|
  {
    if messages == [] {
    } else {
      MessageIdempotent(messages[0]);
      MessagesIdempotent(messages[1..]);
      assert NormalMessages(messages).value[1..] == NormalMessages(messages[1..]).value;
    }
  }

  /** So the receiver, normalising what it was sent, recomputes the sender's artifact. */
  lemma BatchIdempotent(b: Batch)
    requires NormalBatch(b).Ok?
    ensures NormalBatch(NormalBatch(b).value) == NormalBatch(b)
  {
    TokenIdempotent(b.network, NetworkName);
    TokenIdempotent(b.sender, NodeId);
    TokenIdempotent(b.neighbor, NodeId);
    MessagesIdempotent(b.messages);
  }

  lemma ControlIdempotent(c: Control)
    requires NormalControl(c).Ok?
    ensures NormalControl(NormalControl(c).value) == NormalControl(c)
  {
    TokenIdempotent(c.network, NetworkName);
    IdentityIdempotent(c.id);
    TokenIdempotent(c.requester, NodeId);
    TokenIdempotent(c.target, NodeId);
    if c.codename.Some? { TokenIdempotent(c.codename.value, Codename); }
  }

  lemma SpelledPublicationIdempotent(p: Publication)
    requires SpelledPublication(p).Ok?
    ensures SpelledPublication(SpelledPublication(p).value) == SpelledPublication(p)
  {
    TokenIdempotent(p.network, NetworkName);
    IdentityIdempotent(p.id);
    TokenIdempotent(p.origin, NodeId);
    TokenIdempotent(p.codename, Codename);
    PathIdempotent(p.path);
  }

  lemma PublicationIdempotent(p: Publication)
    requires NormalPublication(p).Ok?
    ensures NormalPublication(NormalPublication(p).value) == NormalPublication(p)
  {
    SpelledPublicationIdempotent(p);
  }

  // ---------------------------------------------------------------------------
  // Fingerprints, receipts, acknowledgements

  /** The path is not part of what a message says. */
  function Fingerprint(m: Message): Digest<Message> {
    Sha256(m.(path := []))
  }

  function PublicationFingerprint(p: Publication): Digest<Publication> {
    Sha256(p.(path := [p.origin]))
  }

  function Ids(messages: seq<Message>): (r: seq<string>)
    ensures |r| == |messages|
  {
    seq(|messages|, i requires 0 <= i < |messages| => messages[i].id)
  }

  function ReceiptOf(b: Batch): Receipt {
    Receipt(b.network, b.neighbor, b.sender, Sha256(b), Ids(b.messages))
  }

  predicate AckValid(a: Ack, offered: Batch) {
    && a.receipt == ReceiptOf(offered)
    && 0 <= a.imported <= 0xffff_ffff && 0 <= a.duplicates <= 0xffff_ffff
    && a.imported + a.duplicates == |offered.messages|
  }

  // ---------------------------------------------------------------------------
  // What is accepted, field by field

  lemma {:induction false} NodeTokensMeaning(values: seq<string>)
    ensures NodeTokens(values).Ok? <==> forall i :: 0 <= i < |values| ==> Token(values[i], NodeId).Ok?
    ensures NodeTokens(values).Ok? ==> forall i :: 0 <= i < |values| ==> NodeTokens(values).value[i] == Token(values[i], NodeId).value
    decreases |values|
  {
    hide Token;
    if values == [] {
    } else {
      NodeTokensMeaning(values[1..]);
      assert forall i :: 0 < i < |values| ==> values[i] == values[1..][i - 1];
      assert forall i :: 0 <= i < |values[1..]| ==> values[1..][i] == values[i + 1];
    }
  }

  /** A path is 1 to 128 node tokens, all different. */
  lemma PathMeaning(p: seq<string>)
    ensures NormalPath(p).Ok? <==>
              && 1 <= |p| <= 128 && (forall i :: 0 <= i < |p| ==> Token(p[i], NodeId).Ok?)
              && (forall i, j :: 0 <= i < j < |p| ==> Token(p[i], NodeId) != Token(p[j], NodeId))
    ensures NormalPath(p).Ok? ==>
              |NormalPath(p).value| == |p| && forall i :: 0 <= i < |p| ==> Ok(NormalPath(p).value[i]) == Token(p[i], NodeId)
  {
    hide Token;
    NodeTokensMeaning(p);
  }

  predicate ConferenceIsHex(conference: Option<string>) {
    conference == None ||
    (|conference.value| == 32 && forall i :: 0 <= i < 32 ==>
       48 <= conference.value[i] as int <= 57 || 97 <= conference.value[i] as int <= 102)
  }

  /** Exactly which messages are accepted, and the form they get: names and path respelled, all
      else as it came. */
  lemma MessageMeaning(m: Message)
    ensures NormalMessage(m).Ok? <==>
              && Identity(m.id).Ok? && Token(m.origin, NodeId).Ok? && Token(m.codename, Codename).Ok?
              && NormalPath(m.path).Ok?
              && (m.reply == None || Identity(m.reply.value).Ok?)
              && (m.destination == None || Token(m.destination.value, NodeId).Ok?)
              && ConferenceIsHex(m.conference)
              && TextAllowed(m.author, 120, false, false) && |m.author| <= 60
              && TextAllowed(m.subject, 72, false, true) && TextAllowed(m.body, 65536, true, true)
              && 0 <= m.timestamp <= 253402300799
              && NodeOf(Identity(m.id).value) == Token(m.origin, NodeId).value
              && (m.reply == None || Identity(m.reply.value) != Identity(m.id))
              && NormalPath(m.path).value[0] == Token(m.origin, NodeId).value
    ensures NormalMessage(m).Ok? ==>
              NormalMessage(m).value == Message(
                Identity(m.id).value, Token(m.origin, NodeId).value, Token(m.codename, Codename).value, m.author, m.subject, m.body,
                m.timestamp, if m.reply == None then None else Some(Identity(m.reply.value).value), NormalPath(m.path).value,
                m.conference, if m.destination == None then None else Some(Token(m.destination.value, NodeId).value))
  {
    hide Token, Identity, TextAllowed, NormalPath;
    PathMeaning(m.path);
  }

  lemma {:induction false} MessagesMeaning(ms: seq<Message>)
    ensures NormalMessages(ms).Ok? <==> forall i :: 0 <= i < |ms| ==> NormalMessage(ms[i]).Ok?
    ensures NormalMessages(ms).Ok? ==> forall i :: 0 <= i < |ms| ==> NormalMessages(ms).value[i] == NormalMessage(ms[i]).value
    decreases |ms|
  {
    hide NormalMessage;
    if ms == [] {
    } else {
      MessagesMeaning(ms[1..]);
      assert forall i :: 0 < i < |ms| ==> ms[i] == ms[1..][i - 1];
      assert forall i :: 0 <= i < |ms[1..]| ==> ms[1..][i] == ms[i + 1];
    }
  }

  /** Exactly which batches are accepted: 1 to 32 valid messages with different identities, all
      last relayed by the sender and never seen by the neighbour. */
  lemma BatchMeaning(b: Batch)
    ensures NormalBatch(b).Ok? <==>
              && Token(b.network, NetworkName).Ok? && Token(b.sender, NodeId).Ok? && Token(b.neighbor, NodeId).Ok?
              && Token(b.sender, NodeId) != Token(b.neighbor, NodeId)
              && 1 <= |b.messages| <= 32 && (forall i :: 0 <= i < |b.messages| ==> NormalMessage(b.messages[i]).Ok?)
              && (forall i, j :: 0 <= i < j < |b.messages| ==>
                    NormalMessage(b.messages[i]).value.id != NormalMessage(b.messages[j]).value.id)
              && (forall i {:trigger b.messages[i]} :: 0 <= i < |b.messages| ==>
                    var path := NormalMessage(b.messages[i]).value.path;
                    path != [] && path[|path| - 1] == Token(b.sender, NodeId).value
                    && forall k :: 0 <= k < |path| ==> path[k] != Token(b.neighbor, NodeId).value)
    ensures NormalBatch(b).Ok? ==>
              var n := NormalBatch(b).value;
              && n.network == Token(b.network, NetworkName).value && n.sender == Token(b.sender, NodeId).value
              && n.neighbor == Token(b.neighbor, NodeId).value && |n.messages| == |b.messages|
              && forall i :: 0 <= i < |b.messages| ==> n.messages[i] == NormalMessage(b.messages[i]).value
  {
    hide Token, NormalMessage;
    MessagesMeaning(b.messages);
    if NormalMessages(b.messages).Ok? {
      var ms := NormalMessages(b.messages).value;
      forall i | 0 <= i < |ms|
        ensures ms[i] == NormalMessage(b.messages[i]).value
      {
      }
      hide NormalMessages;
    }
  }

  /** Exactly which control requests are accepted: by their own requester, for another node, with a
      codename unless they only ask. */
  lemma ControlMeaning(c: Control)
    ensures NormalControl(c).Ok? <==>
              && Token(c.network, NetworkName).Ok? && Identity(c.id).Ok? && Token(c.requester, NodeId).Ok? && Token(c.target, NodeId).Ok?
              && (c.operation == QuerySubscriptions <==> c.codename == None)
              && (c.codename == None || Token(c.codename.value, Codename).Ok?)
              && NodeOf(Identity(c.id).value) == Token(c.requester, NodeId).value
              && Token(c.requester, NodeId) != Token(c.target, NodeId)
    ensures NormalControl(c).Ok? ==>
              NormalControl(c).value == Control(
                Token(c.network, NetworkName).value, Identity(c.id).value, Token(c.requester, NodeId).value,
                Token(c.target, NodeId).value, c.operation, if c.codename == None then None else Some(Token(c.codename.value, Codename).value))
  {
    hide Token, Identity;
  }

  /** Exactly which publications are accepted. */
  lemma PublicationMeaning(p: Publication)
    ensures NormalPublication(p).Ok? <==>
              && Token(p.network, NetworkName).Ok? && Identity(p.id).Ok? && Token(p.origin, NodeId).Ok? && Token(p.codename, Codename).Ok?
              && NormalPath(p.path).Ok?
              && 1 <= |p.filename| <= 64 && p.filename[0] as int != 46
              && (forall i :: 0 <= i < |p.filename| ==> LetterOrDigit(p.filename[i]) || p.filename[i] as int in {43, 45, 46, 95})
              && Utf8Length(p.description) <= 4096 && Lines(p.description) <= 20
              && (forall i {:trigger p.description[i]} :: 0 <= i < |p.description| ==>
                    var n := p.description[i] as int; n < 32 || 127 <= n <= 159 ==> n in {9, 10})
              && (p.sha256.Unrelated? ==> HexStr(p.sha256.hex, 32).Ok?)
              && 0 <= p.size <= 67108864 && -0x8000_0000_0000_0000 <= p.timestamp <= 0x7fff_ffff_ffff_ffff
              && NodeOf(Identity(p.id).value) == Token(p.origin, NodeId).value
              && NormalPath(p.path).value[0] == Token(p.origin, NodeId).value
    ensures NormalPublication(p).Ok? ==>
              NormalPublication(p).value == Publication(
                Token(p.network, NetworkName).value, Identity(p.id).value, Token(p.origin, NodeId).value, Token(p.codename, Codename).value,
                p.sha256, p.size, p.filename, p.description, p.timestamp, NormalPath(p.path).value)
  {
    hide Token, Identity, NormalPath, Lines, Utf8Length, HexStr;
    PathMeaning(p.path);
    FilenameMeaning(p.filename);
    DescriptionMeaning(p.description);
    hide FilenameAllowed, DescriptionAllowed;
  }

  lemma FilenameMeaning(name: string)
    ensures FilenameAllowed(name) <==>
              && 1 <= |name| <= 64 && name[0] as int != 46
              && forall i :: 0 <= i < |name| ==> LetterOrDigit(name[i]) || name[i] as int in {43, 45, 46, 95}
  {
    forall i | 0 <= i < |name|
      ensures name[i] in "._+-" <==> name[i] as int in {43, 45, 46, 95}
    {
      var marks := "._+-";
      if name[i] as int == 46 { assert marks[0] == name[i]; }
      if name[i] as int == 95 { assert marks[1] == name[i]; }
      if name[i] as int == 43 { assert marks[2] == name[i]; }
      if name[i] as int == 45 { assert marks[3] == name[i]; }
    }
  }

  lemma DescriptionMeaning(d: string)
    ensures DescriptionAllowed(d) <==>
              && Utf8Length(d) <= 4096 && Lines(d) <= 20
              && forall i {:trigger d[i]} :: 0 <= i < |d| ==> var n := d[i] as int; n < 32 || 127 <= n <= 159 ==> n in {9, 10}
  {
    hide Lines, Utf8Length;
    forall i | 0 <= i < |d|
      ensures d[i] in "\n\t" <==> d[i] as int in {9, 10}
    {
      var breaks := "\n\t";
      if d[i] as int == 10 { assert breaks[0] == d[i]; }
      if d[i] as int == 9 { assert breaks[1] == d[i]; }
    }
  }

  /** Two messages have one fingerprint exactly when they differ at most in their paths. */
  lemma FingerprintMeaning(m: Message, n: Message)
    ensures Fingerprint(m) == Fingerprint(n) <==>
              && m.id == n.id && m.origin == n.origin && m.codename == n.codename && m.author == n.author
              && m.subject == n.subject && m.body == n.body && m.timestamp == n.timestamp && m.reply == n.reply
              && m.conference == n.conference && m.destination == n.destination
  {
  }

  /** Two publications have one fingerprint exactly when they differ at most in what their paths
      hold beyond the origin. */
  lemma PublicationFingerprintMeaning(p: Publication, q: Publication)
    ensures PublicationFingerprint(p) == PublicationFingerprint(q) <==> p.(path := []) == q.(path := [])
  {
    assert p.(path := []).(path := [p.origin]) == p.(path := [p.origin]);
    assert q.(path := []).(path := [q.origin]) == q.(path := [q.origin]);
  }

  /** An acknowledgement is valid exactly when its receipt is the receiver's for this very batch and
      its two counts, none negative or wide, add up to the batch. */
  lemma AckMeaning(a: Ack, offered: Batch)
    ensures AckValid(a, offered) <==>
              && a.receipt.network == offered.network && a.receipt.sender == offered.neighbor && a.receipt.neighbor == offered.sender
              && a.receipt.artifact == Sha256(offered)
              && |a.receipt.accepted| == |offered.messages|
              && (forall i :: 0 <= i < |offered.messages| ==> a.receipt.accepted[i] == offered.messages[i].id)
              && 0 <= a.imported <= 4294967295 && 0 <= a.duplicates <= 4294967295
              && a.imported + a.duplicates == |offered.messages|
  {
    if a.receipt == ReceiptOf(offered) {
      assert forall i :: 0 <= i < |offered.messages| ==> a.receipt.accepted[i] == Ids(offered.messages)[i];
    }
    if |a.receipt.accepted| == |offered.messages| && forall i :: 0 <= i < |offered.messages| ==> a.receipt.accepted[i] == offered.messages[i].id {
      assert a.receipt.accepted == Ids(offered.messages);
    }
  }
}
