# SPITFIRE NG: four protocols and their proofs

This project models four parts of SPITFIRE NG and proves what each of them is for.

* **The CIRCUITNET-NG peer** (`peer.py`, `protocol.py`, `catalog.py`): nodes in an enrolled tree
  exchange message batches, subscription controls, signed conference catalogs and files over
  a session in which the two sides take turns.
* **The configuration commit** (`configuration.rs`, with the older writer in `admin.rs` and the
  journal in `operator_control.rs`): compare-and-swap on a versioned file whose replacement is
  the commit point and whose embedded link lets recovery finish the command journal.
* **Shutdown admission** (`shutdown.rs`, `events.rs`, `live_control.rs`, the runner loop in
  `runtime.rs`): operators, the event scheduler and the draining runner interleave around one
  transition lock and one work counter.
* **The Node ID allocator** (`circuitnet-addressing.py`): the least free address of a range.

Loops and objects of the source are methods and classes here (`CatalogStore`, `Stream`, `Peer`,
`Authority`, `ShutdownControl`). Each method is tied to a function of its inputs or of the old
state, and the theorems are about those functions and about whole runs built from them. A peer is
started by `Startup.Start`, which makes every check of its settings against the store it finds.

SHA-256 and Ed25519 are symbolic: a digest is the term `Sha256(preimage)` or some other
hexadecimal string, so equal digests have equal preimages; a signature that checks names its
key and the body it covers, and one body may have several. Saving a peer's state, replacing a
configuration file and a journal transaction are each one atomic durable step.

## Where to start

* `Delivery.AcknowledgedIsDelivered`: in every run with losses, restarts, retries and dropped
  acknowledgements, what a sender believes delivered is on the other side's disk, unaltered, once.
* `Imports.ImportsCommute`: the order of two accepted batches does not matter.
* `Routing.RouteIsTheOnlyPath`, `Routing.FindRoute`, `Routing.PolicyMeaning`: the stack search
  returns the one simple path of the tree, and the path policy means exactly that path.
* `Catalog.EffectiveIsLastChange`, `Catalog.CodenameReuse`, `CatalogSync.Converges`,
  `CatalogSync.ConvergesExactlyWithinTheBound`: what a rule about one predecessor implies for a
  whole chain, and exactly when two peers' chains meet.
* `Session.CleanRunsClose`, `Session.RunsStayInStep`, `Session.SessionsExchangeWhatIsAgreed`: two agreed
  programs never both wait, what one reads is the frame it expects or the last error of a partner
  that has failed, and a finished session exchanged exactly what was agreed, in order.
* `ConfigurationCommit.CommittedConfigurationsFormAChain`, `ConfigurationCommit.CrashThenRecover`,
  `ConfigurationCommit.EveryConfigurationWasSupplied`.
* `Shutdown.ShutdownIsSafe`, `Shutdown.PrepareMeaning`, `Shutdown.RequestMeaning`.
* `Addressing.SuggestMeaning`, `Addressing.RunOfSuggestions`.

A method is tied to a function; what that function means is a lemma of its own, spelled out with
the source's numbers and conditions and without the function's helpers: `Imports.AdmitMeaning` says
exactly which message is stored, `Negotiation.GreatestMinor` what is agreed, and so on down the table.

## What the code does not give

Each of these is code behaviour that a reader might expect to be stronger.

* The check of the stored catalogs when a peer starts (`peer.py:127-131`) discards the answers of
  `verify`, which normalises the body before it compares digest and signature, and of `follows`,
  which is false rather than a refusal on an identical head. So it also passes bodies that are
  respelled and neighbours that are repeated. `Catalog.RecheckAllowsOnlyRepeatsAndRespellings` says
  that it passes nothing else: a stored chain is a grown history exactly when it passes, every
  object is its own verified form, and no two neighbours are equal.
  `Catalog.RepeatedHeadPasses`, `Catalog.RespelledChainPasses` and `CatalogBound.RespelledExample`
  give chains that pass and are none. Facts about indices are therefore stated for histories
  grown from an empty store.
* A catalog entry may arrive already retired, with an earlier `retired_revision`
  (`CatalogBound.ArrivesRetired` writes one out). A retired entry records the revision that retired it
  exactly when it was ever listed live (`Catalog.RetirementIsDatedExactly`).
* Batches and controls are imported on a copy; catalogs, files and acknowledgements change the
  memory before the save. So a full store refuses to save an acknowledgement that the memory
  keeps (`Peers.Peer.RecordAck`, with such a store in `Peers.AcknowledgedInMemoryOnly`), and `Delivery`
  lets memory and disk differ in just that.
* `tools/circuitnet-conformance/README.md:120` says that catalogs retain at most 4096 revisions.
  `receive_catalog` enforces it (`peer.py:273`), the `--seed` path (`peer.py:594-600`) does not. A parent
  seeded with 4097 revisions stalls its child at 4096, and every later session of the two fails
  in its catalog part, before any work (`CatalogBound.SeededParentStallsItsChild`). While every save
  succeeds, a child gets all its parent may show exactly when that is within the bound
  (`CatalogSync.ConvergesExactlyWithinTheBound`). A save also fails when the state would pass 16 MiB
  (`peer.py:57`), so a child with much stored can stall below the bound; on disk it gets all exactly
  when, besides, a save succeeds for every revision it lacks (`CatalogSync.DiskConvergesExactly`).
* A peer that fails while it sends content writes an error frame (`peer.py:554-557`) where its partner
  reads chunk lengths (`peer.py:435-443`). The partner takes the error for one more chunk if it fits,
  or refuses it as oversized, and never learns the code (`Wire.ErrorInsideContent`, and a run in which
  it happens in `Session.SwallowingHappens`). Everywhere else an error frame is
  recognised (`Session.ReadsFindTheirFrame`); content into which one was swallowed is never settled
  (`Session.SwallowedErrorSettlesNothing`).
* `suggest` accepts a list of 10000 rows and still hands out an address; with that address reserved
  the list is refused (`circuitnet-addressing.py:82`). Reserving keeps a list valid exactly while there is
  room for a row (`Addressing.ReservingKeepsTheList`, with inputs in `Addressing.FullListExample`).
* A shutdown preflight and the request for it read every caller's interaction twice, for the counts
  and for the consequences (`shutdown.rs:78-110`, `shutdown.rs:220-234`), and the interactions change
  without the transition lock. Between two passes with equal consequences the counts differ, and
  alone refuse the request as stale, exactly when what changed between the readings of the one
  pass does not balance what changed in the other; never when the readings of each pass agree
  (`Shutdown.CountsDecideExactlyByDrift`, `Shutdown.CountsAloneMayRefuse`). A page answered between the
  two readings is an input (`Shutdown.AnsweredBetweenReadings`).
* The prefix test on a directed message (`peer.py:151-152`) never refuses a message addressed to this
  node that passed the path test (`Routing.PolicyMeaning`).

## Model

| member | source | states |
|---|---|---|
| `Tokens.TokenIdempotent` | tools/circuitnet-conformance/protocol.py:48-54 | a normalised token normalises to itself, and a node token has no colon |
| `Tokens.IdentityIdempotent` | tools/circuitnet-conformance/protocol.py:64-67 | a normalised identity normalises to itself, and the part before its only colon is a normal node token |
| `Tokens.TokenMeaning` | tools/circuitnet-conformance/protocol.py:48-54 | a name is a token exactly when it has 1 to 32 characters for a network, else 1 to 8, all ASCII letters or digits, or a hyphen inside other than a node's; its normal form differs only in case, lower for a network and upper otherwise |
| `Tokens.IdentityMeaning` | tools/circuitnet-conformance/protocol.py:64-67 | an identity is a node token, one colon and 32 hexadecimal digits in any case; its normal form has them lower |
| `Tokens.TextMeaning` | tools/circuitnet-conformance/protocol.py:69-75 | exactly which texts are allowed: by length in UTF-8 bytes, emptiness, control characters and direction overrides |
| `Records.PathIdempotent` | tools/circuitnet-conformance/protocol.py:129-133 | a normalised path normalises to itself |
| `Records.PathMeaning` | tools/circuitnet-conformance/protocol.py:129-133 | a path is 1 to 128 node tokens whose normal forms all differ |
| `Records.MessageIdempotent` | tools/circuitnet-conformance/protocol.py:112-127 | a message in normal form is accepted again and unchanged |
| `Records.MessageMeaning` | tools/circuitnet-conformance/protocol.py:112-127 | exactly which messages are accepted, field by field, and what their normal form is |
| `Records.BatchIdempotent` | tools/circuitnet-conformance/protocol.py:135-147 | a batch in normal form is accepted again and unchanged, so the receiver recomputes the artifact the sender computed |
| `Records.BatchMeaning` | tools/circuitnet-conformance/protocol.py:135-147 | exactly which batches are accepted: between two different nodes, 1 to 32 valid messages with different identities, all last relayed by the sender and never seen by the neighbour |
| `Records.ControlIdempotent` | tools/circuitnet-conformance/protocol.py:165-173 | a control request in normal form is accepted again and unchanged, so both sides compute one fingerprint |
| `Records.ControlMeaning` | tools/circuitnet-conformance/protocol.py:165-173 | exactly which requests are accepted: by their own requester, for another node, with a codename unless they only ask |
| `Records.PublicationIdempotent` | tools/circuitnet-conformance/protocol.py:175-189 | a publication in normal form is accepted again and unchanged |
| `Records.PublicationMeaning` | tools/circuitnet-conformance/protocol.py:175-189 | exactly which publications are accepted, field by field |
| `Records.AckMeaning` | tools/circuitnet-conformance/protocol.py:159-163 | an acknowledgement is valid exactly when its receipt is the receiver's for this very batch and its two 32-bit counts add up to it |
| `Topology.Rows` | tools/circuitnet-conformance/peer.py:99-100 | the node table exists exactly when every row has a valid node token, names every row's node, and never has more nodes than rows |
| `Topology.ClimbFrom` | tools/circuitnet-conformance/peer.py:106-112 | an accepted chase of parent links ends at a node without a parent; in a table that is a rooted forest with admissible parents every chase is accepted |
| `Topology.RepeatRefutesRank` | tools/circuitnet-conformance/peer.py:107-108 | a chain of parents that repeats a node or leaves the table proves that no depth function exists |
| `Topology.ClimbsGiveRank` | tools/circuitnet-conformance/peer.py:102-112 | when every chase ends there is one depth function for the whole table, so the parent links have no cycle |
| `Topology.ChainsEndMeaning` | tools/circuitnet-conformance/peer.py:102-112 | every chase of parents ends exactly when a depth function exists |
| `Topology.Validate` | tools/circuitnet-conformance/peer.py:99-113 | accepts exactly the tables of 1 to 128 distinct nodes whose parent links form one tree under the role rules, and refuses everything else as malformed |
| `Topology.AcceptableMeaning` | tools/circuitnet-conformance/peer.py:99-113 | acceptable means: 1 to 128 rows with valid different names, roles and parents that stand, every chase of parents ends, and exactly one node has no parent |
| `Routing.UniquePath` | tools/circuitnet-conformance/peer.py:134-145 | in an acyclic table two adjacent repeat-free paths with the same ends are equal |
| `Routing.TreePathIsSimple` | tools/circuitnet-conformance/peer.py:134-145 | climbing from the deeper end gives an adjacent repeat-free path between any two nodes of a tree |
| `Routing.Route` | tools/circuitnet-conformance/peer.py:134-145 | between any two known nodes there is an adjacent repeat-free path |
| `Routing.RouteIsTheOnlyPath` | tools/circuitnet-conformance/peer.py:134-145 | a path is the route exactly when it is adjacent and repeat-free with those ends, and the way back is the reverse |
| `Routing.Extend` | tools/circuitnet-conformance/peer.py:141-144 | pushing the extensions of a path keeps every pending path simple, keeps one of them a beginning of the route, and leaves less work than before |
| `Routing.FindRoute` | tools/circuitnet-conformance/peer.py:134-145 | the stack search ends and returns the route, or topology-mismatch exactly when an end is unknown |
| `Routing.RouteThroughPeer` | tools/circuitnet-conformance/peer.py:147-149 | for an adjacent peer, a path is the route to the peer avoiding this node exactly when it ends at the peer and one more hop makes it the route to this node |
| `Routing.CheckPath` | tools/circuitnet-conformance/peer.py:147-154 | decides the path policy with the searched routes, with the refusal codes of the source; the next row says what passes |
| `Routing.PolicyMeaning` | tools/circuitnet-conformance/peer.py:147-154 | the policy passes exactly for the route from the origin to this node cut before its last hop and a destination that is absent or this node; nothing this node originated or relayed passes |
| `Routing.PolicyRefusal` | tools/circuitnet-conformance/peer.py:147-154 | what fails the policy is unauthorized when it came by its route and goes on through this node to another, and a topology mismatch otherwise |
| `Replies.AcyclicSubset` | tools/circuitnet-conformance/peer.py:195-205 | a store contained in one without same-area reply cycles has none |
| `Replies.EndingIsOffCycle` | tools/circuitnet-conformance/peer.py:198-205 | a message from which following parents ends lies on no cycle |
| `Replies.WalkFrom` | tools/circuitnet-conformance/peer.py:196-205 | the walk from one message ends; it passes only if following same-area parents ends, and refuses only if the store has a cycle |
| `Replies.CheckReplies` | tools/circuitnet-conformance/peer.py:195-205 | the whole check passes exactly when no ring of same-area replies exists |
| `Replies.CycleMeaning` | tools/circuitnet-conformance/peer.py:195-205 | a cycle is a ring of stored messages of one area, each of which names the next as its parent |
| `Catalog.CheckEntries` | tools/circuitnet-conformance/catalog.py:44-67 | the loop that remembers only the last identity and the live codenames accepts exactly the lists in which all identities increase, all live codenames differ and every entry is allowed; otherwise it gives the code of the first check that fails on the first entry refused |
| `Catalog.EntryRefusalMeaning` | tools/circuitnet-conformance/catalog.py:47-66 | the code of the first thing wrong with an entry, spelled out |
| `Catalog.CheckBody` | tools/circuitnet-conformance/catalog.py:28-69 | returns the body in normal form exactly when it is a valid revision, otherwise the code of the first check that fails |
| `Catalog.BodyMeaning` | tools/circuitnet-conformance/catalog.py:28-69 | exactly which revisions are valid, field by field with the source's bounds |
| `Catalog.HeadRefusalMeaning` | tools/circuitnet-conformance/catalog.py:28-43 | the code of the first thing wrong with a revision before its entries, spelled out |
| `Catalog.BodyIdempotent` | tools/circuitnet-conformance/catalog.py:28-69 | a normalised body normalises to itself |
| `Catalog.Verify` | tools/circuitnet-conformance/catalog.py:71-83 | accepts exactly the objects whose normalised body belongs to the pinned authority and has that digest and that key's signature, otherwise with the code of the first check that fails |
| `Catalog.VerifiedMeaning` | tools/circuitnet-conformance/catalog.py:71-83 | verified means: in normal form, valid, of the pinned network, identity and publisher, under its own digest and with the pinned key's signature on it |
| `Catalog.SealRefusalMeaning` | tools/circuitnet-conformance/catalog.py:71-83 | the code of the first thing wrong with authority, digest or signature, spelled out |
| `Catalog.FollowsMeaning` | tools/circuitnet-conformance/catalog.py:85-121 | exactly which revision follows another: the next number, digest-linked, schema and time not less, every listed identity lives on and every new one may enter; and that only the same object is a repeat |
| `Catalog.FollowsRefusals` | tools/circuitnet-conformance/catalog.py:85-121 | which code any other revision gets: rollback, fork, missing revision, invalid or lifecycle |
| `Catalog.RecheckAllowsOnlyRepeatsAndRespellings` | tools/circuitnet-conformance/peer.py:127-131 | a stored chain is a grown history exactly when it passes the check at start, every object is its own verified form and no two neighbours are equal |
| `Catalog.RepeatedHeadPasses` | tools/circuitnet-conformance/peer.py:130-131 | any history with its head repeated passes the check at start, and its last revision is then not its length |
| `Catalog.RespelledChainPasses` | tools/circuitnet-conformance/catalog.py:71-83 | any history whose network name is spelled otherwise passes the check at start, has no equal neighbours and is no history |
| `CatalogBound.RespelledExample` | tools/circuitnet-conformance/peer.py:127-131 | one such stored object written out, with the network in capitals, under an authority the peer accepts |
| `Startup.NormalPinIsAuthority` | tools/circuitnet-conformance/catalog.py:23-26 | an authority in normal form is accepted as it is |
| `Catalog.RevisionIsIndex` | tools/circuitnet-conformance/catalog.py:88-97 | along a history the revision is the index plus one |
| `Catalog.SchemaGrows` | tools/circuitnet-conformance/catalog.py:99 | along a history the schema never decreases |
| `Catalog.HashLinks` | tools/circuitnet-conformance/catalog.py:98 | two histories with equal digests at one revision have equal bodies at every revision up to it |
| `Catalog.EffectiveIsLastChange` | tools/circuitnet-conformance/catalog.py:85-117 | an entry's effective revision is the last one that added or changed it: the entry is identical from there to the head and was not so in the revision before |
| `Catalog.IdentityLasts` | tools/circuitnet-conformance/catalog.py:100-105 | an identity listed once is listed in every later revision with the same codename |
| `Catalog.CodenameReuse` | tools/circuitnet-conformance/catalog.py:114-120 | a codename used anywhere earlier in the history goes to a new identity only in a reuse revision, and every earlier holder is then listed as retired |
| `Catalog.OneLiveHolder` | tools/circuitnet-conformance/catalog.py:63-65 | in any revision of a history at most one entry that is not retired holds a codename, and at most one entry has an identity |
| `Catalog.RankGrows` | tools/circuitnet-conformance/catalog.py:106-110 | over a stretch without a reactivate revision no entry moves back from retired, deprecated or active |
| `Catalog.RetirementIsDated` | tools/circuitnet-conformance/catalog.py:111-113 | an entry seen live earlier and retired now records exactly the revision in which it went from live to retired, and it is retired in every revision since |
| `Catalog.RetirementIsDatedExactly` | tools/circuitnet-conformance/catalog.py:111-113 | a retired entry records the revision that took it from live to retired, where it has stayed, exactly when its identity was listed live in some earlier revision |
| `CatalogBound.ArrivesRetired` | tools/circuitnet-conformance/catalog.py:114-120 | for every authority in normal form a two-revision history whose second revision adds an entry that says it retired in the first, which did not list it |
| `CatalogSync.CatalogStore.Receive` | tools/circuitnet-conformance/peer.py:252-278 | with any number of saves succeeding, memory, disk and verdict are those of taking the objects one after another, each against the head as it then stands and saved at once; a refusal keeps what came before, a failed save keeps its revision in memory only |
| `CatalogSync.CatalogStore.Seed` | tools/circuitnet-conformance/peer.py:594-600 | the seeding loop, in the same terms; what it stores is the next row |
| `CatalogSync.SeedingRebuilds` | tools/circuitnet-conformance/peer.py:594-600 | seeding an empty store with a history stores all of it, whatever its length |
| `CatalogBound.BareHistoryIsHistory` | tools/circuitnet-conformance/catalog.py:28-121 | for every authority in normal form there is a history of every length up to the last revision number |
| `CatalogSync.TakingKeepsHistory` | tools/circuitnet-conformance/peer.py:263-278 | whatever objects arrive, a history stays a history and only grows at its end, by at most 64 a session and never past 4096 |
| `CatalogSync.AvailableHistory` | tools/circuitnet-conformance/peer.py:288-290 | what a peer without catalog-access may be shown is exactly the revisions of schema 1, a prefix of the chain and itself a history; with it, all |
| `CatalogSync.AnswerMeaning` | tools/circuitnet-conformance/peer.py:252-262 | which announced heads are refused, with which code, and the request an accepted one gets |
| `CatalogSync.ServeMeaning` | tools/circuitnet-conformance/peer.py:287-306 | which requests are refused, and that the others get exactly the next 64 objects or all that remain |
| `CatalogSync.TakeOneMeaning` | tools/circuitnet-conformance/peer.py:263-277 | exactly which object is taken: it verifies, is within the announced head, may be shown, and is the head again or its successor while there are fewer than 4096 |
| `CatalogSync.HeadDecides` | tools/circuitnet-conformance/peer.py:299-300 | comparing one digest decides whether the whole shorter history begins the longer one |
| `CatalogSync.TakesNext` | tools/circuitnet-conformance/peer.py:263-277 | a child whose chain begins the parent's takes the parent's next revisions unchanged, completely unless the bound of 4096 stops it, and then exactly up to the bound |
| `CatalogSync.TransferOutcome` | tools/circuitnet-conformance/peer.py:258-306 | the head and the request are accepted exactly when the child's chain begins what may be shown; then the next 64 revisions, or all that remain, are served |
| `CatalogSync.ExchangeOutcome` | tools/circuitnet-conformance/peer.py:252-306 | an exchange is refused and changes nothing when the child's chain does not begin what may be shown; otherwise the next 64 revisions are appended as far as the bound allows, and it is complete exactly when the bound did not stop it |
| `CatalogSync.Converges` | tools/circuitnet-conformance/peer.py:252-306 | while every save succeeds, after n sessions the child has min(old + 64 n, goal) revisions of the parent's history, where the goal is all that may be shown or the bound if that comes first, so a gap of G to it is closed after ceil(G / 64) |
| `CatalogSync.ConvergesExactlyWithinTheBound` | tools/circuitnet-conformance/peer.py:273 | while every save succeeds, the child ever has all that may be shown exactly when that is at most 4096 revisions or it had all of it before |
| `CatalogSync.DiskConverges` | tools/circuitnet-conformance/peer.py:52-69 | with so many saves left, and every session a new process over its disk, the disk has min(old + 64 n, goal, old + saves) revisions of the parent's history after n sessions |
| `CatalogSync.DiskConvergesExactly` | tools/circuitnet-conformance/peer.py:52-69 | the disk ever has all that may be shown exactly when it had all of it before, or all of it is within 4096 revisions and a save succeeds for every one that was missing |
| `CatalogSync.StallsAtTheBound` | tools/circuitnet-conformance/peer.py:273 | beyond the bound the child stops at 4096 revisions and every session after that is refused without a change |
| `CatalogBound.SeededParentStallsItsChild` | tools/circuitnet-conformance/peer.py:594-600 | a seed file of 4097 revisions is stored whole, and a new child of that parent has 4096 after 64 sessions and fails in every one that follows |
| `Negotiation.Shrink` | tools/circuitnet-conformance/protocol.py:219-229 | the capabilities left are exactly those offered that the minor allows and whose dependency is itself left |
| `Negotiation.Negotiate` | tools/circuitnet-conformance/protocol.py:208-230 | the agreement of two hellos, or the first refusal in the source's order; the next rows say which hellos are accepted and what is agreed |
| `Negotiation.NormalFormsDecide` | tools/circuitnet-conformance/protocol.py:208-210 | hellos count by their normal forms, and one without is refused |
| `Negotiation.HelloMeaning` | tools/circuitnet-conformance/protocol.py:196-206 | exactly which hellos are well-formed, and their normal form |
| `Negotiation.NegotiateMeaning` | tools/circuitnet-conformance/protocol.py:208-218 | a hello is accepted exactly when it speaks this protocol with the baseline, some minor lies in both ranges, and network, mode, node and role are as expected |
| `Negotiation.NegotiateRefusals` | tools/circuitnet-conformance/protocol.py:208-217 | the code of every refusal, by the first condition that fails |
| `Negotiation.GreatestMinor` | tools/circuitnet-conformance/protocol.py:218 | the agreed minor lies in both ranges and no number in both ranges is greater |
| `Negotiation.AgreedCapabilities` | tools/circuitnet-conformance/protocol.py:219-230 | agreed is exactly every known capability both offer whose threshold (2, 3 or 4) the minor reaches and whose dependency both offer |
| `Negotiation.BothSidesAgree` | tools/circuitnet-conformance/protocol.py:208-230 | two accepting sides hold the same minor and capabilities: the baseline is in, nothing either did not offer is, dependencies are closed |
| `Negotiation.AcceptanceIsMutual` | tools/circuitnet-conformance/protocol.py:208-230 | a peer that itself speaks the protocol is accepted, under its own name and role, by any peer it accepts |
| `Custody.EntryIsTheLiveHolder` | tools/circuitnet-conformance/peer.py:156-165 | with a grown catalog the lookup returns an entry exactly when it is in the latest revision and live for the codename, so it never fails for being ambiguous |
| `Custody.ActiveMeaning` | tools/circuitnet-conformance/peer.py:156-165 | for subscriptions a codename is known exactly when the latest revision has an active entry under it |
| `Imports.AdmitMessage` | tools/circuitnet-conformance/peer.py:178-194 | whether one message is new, already held or refused; the next two rows say exactly when, over the entries of the latest catalog |
| `Imports.AdmitMeaning` | tools/circuitnet-conformance/peer.py:147-194 | a message is new exactly when it came by its route for everyone or this node, under a received codename (and an inbound one unless directed), with the capabilities it needs and, under an authority, names a listed active or deprecated entry of its codename that is public unless catalog-access is held; it is held exactly when it has the stored fingerprint |
| `Imports.AdmitRefusals` | tools/circuitnet-conformance/peer.py:147-194 | the code of every refusal, in the same terms |
| `Imports.CheckedIdsDiffer` | tools/circuitnet-conformance/peer.py:127-131 | in any catalogs the check at start passes no two entries of the latest revision share an identity, which the two rows above ask for |
| `Imports.Gather` | tools/circuitnet-conformance/peer.py:176-194 | the loop over a growing copy succeeds exactly when every message is admitted against the store as it was, ends with the merge and counts that add up, and otherwise gives the code of the first message refused |
| `Imports.MergeContents` | tools/circuitnet-conformance/peer.py:193 | after a merge every message that was new is stored exactly as it came |
| `Imports.ImportBatch` | tools/circuitnet-conformance/peer.py:167-210 | all or nothing: the state and the acknowledgement of the batch, or the code of the first check that fails; the next row says exactly when and what |
| `Imports.ImportMeaning` | tools/circuitnet-conformance/peer.py:167-210 | taken exactly when addressed along this link and either known, or all messages admitted, the merged replies acyclic and at most 10000 records; the whole next store and acknowledgement, message by message |
| `Imports.ImportKeeps` | tools/circuitnet-conformance/peer.py:167-210 | an accepted batch leaves a safe store that lost and altered nothing and holds every message of the batch; the acknowledgement passes the sender's check and the new count is the store's growth |
| `Imports.ReplayIsAnswered` | tools/circuitnet-conformance/peer.py:173-175 | a batch accepted before is answered as all duplicates by an acknowledgement its sender accepts, and changes nothing |
| `Imports.FingerprintDecides` | tools/circuitnet-conformance/protocol.py:149-152 | two messages with policy paths and equal path-free fingerprints are equal, path included |
| `Imports.MergeCommutes` | tools/circuitnet-conformance/peer.py:177-194 | merging two lists in either order gives one store when their shared new messages are equal |
| `Imports.NewBatchesCommute` | tools/circuitnet-conformance/peer.py:167-210 | two new batches acceptable one after the other are acceptable in the other order with the same result |
| `Imports.ImportsCommute` | tools/circuitnet-conformance/peer.py:167-210 | with configuration, capabilities and catalog fixed, two batches accepted in one order, replays included, are accepted in the other and leave the same store |
| `Controls.Operate` | tools/circuitnet-conformance/peer.py:221-241 | the outcome and the subscriptions of a request whose identity is new, by the checks in order |
| `Controls.OutcomeMeaning` | tools/circuitnet-conformance/peer.py:221-241 | exactly which request gets which outcome, over the tree, the received codenames and the entries of the latest catalog |
| `Custody.CheckedLiveDiffer` | tools/circuitnet-conformance/peer.py:127-131 | in any catalogs the check at start passes no two live entries of the latest revision share a codename, which the row above asks for |
| `Controls.ImportControl` | tools/circuitnet-conformance/peer.py:212-250 | the answer and the next store of any request: a malformed one changes nothing, a repeat is answered from its record, a new one is decided and recorded or refused for lack of room |
| `Controls.FirstAnswerMeaning` | tools/circuitnet-conformance/peer.py:242-250 | the whole record, answer and next store of a new request, subscriptions shown only to a query, or custody when there is no room |
| `Controls.RepeatMeaning` | tools/circuitnet-conformance/peer.py:215-220 | a repeat gets its record, another request under a known identity a conflict, and neither changes anything |
| `Controls.AppliedIsAuthorised` | tools/circuitnet-conformance/peer.py:221-241 | a request is applied exactly if it is the child's own, for a known codename, approved unless it only asks, and would change something; any other leaves the subscriptions alone, and no codename but the named one is touched |
| `Controls.RepeatsHaveNoEffect` | tools/circuitnet-conformance/peer.py:215-220 | for every log of requests under any configurations, the final store is that of the log without later repeats of an identity |
| `Controls.RecordsStand` | tools/circuitnet-conformance/peer.py:245-249 | a recorded answer never changes and a full store stays as it is |
| `Controls.EqualRequestsEqualAnswers` | tools/circuitnet-conformance/peer.py:215-219 | equal requests anywhere in a log get the same answer, whatever arrives or is reconfigured in between |
| `Controls.ChangeFlips` | tools/circuitnet-conformance/peer.py:234-239 | an applied change of a codename flips whether it is subscribed, and nothing else does |
| `Controls.ChangesAlternate` | tools/circuitnet-conformance/peer.py:212-250 | over every log the applied subscribes and unsubscribes of a codename strictly alternate, start with the one that differs from the initial state, and end in the final state |
| `Files.PlacingKeeps` | tools/circuitnet-conformance/peer.py:444-450 | placing arrived content keeps every item under its own digest, alters none, keeps every record backed, and afterwards the announced content is owned |
| `Files.SettlingKeeps` | tools/circuitnet-conformance/peer.py:454-460 | recording a decision keeps all receipts true: local-policy is said only of owned content and hash-mismatch only with a rejection |
| `Files.SettledMeaning` | tools/circuitnet-conformance/peer.py:454-459 | the record of a decision: the configured outcome for genuine content, else a rejection for a hash mismatch |
| `Files.PlacedMeaning` | tools/circuitnet-conformance/peer.py:444-450 | content is genuine exactly with the announced size and digest; only then is it stored, under its digest |
| `Peers.Peer.constructor` | tools/circuitnet-conformance/peer.py:93-94 | a peer over a safe store has it in memory and on disk, and no capabilities until it negotiates; its requires are what Startup.Start establishes |
| `Startup.Start` | tools/circuitnet-conformance/peer.py:93-132 | a peer starts exactly when its names are valid, the topology is a tree in which node and peer are neighbours with the stated roles, the authority belongs to the network and its ROOT, the binding is the store's and the stored catalogs pass; otherwise with the code of the first check that fails, stored catalogs included; and it is then valid, over the store it found |
| `Startup.ConfiguredMeaning` | tools/circuitnet-conformance/peer.py:93-126 | exactly which settings give which configuration over which store |
| `Startup.ConfiguredRefusals` | tools/circuitnet-conformance/peer.py:93-126 | the code of the first thing wrong with settings |
| `Startup.CheckCatalogs` | tools/circuitnet-conformance/peer.py:127-131 | the two loops pass exactly when there are no stored catalogs or an authority under which all verify and each follows the one before; otherwise the code is that of the first object that does not verify, or else of the first that does not follow |
| `Startup.StoppedStoreIsKept` | tools/circuitnet-conformance/peer.py:123-126 | whatever a peer did, its disk is a store a peer with the same binding may take up: safe, with every local-policy receipt backed by content |
| `Startup.Restart` | tools/circuitnet-conformance/peer.py:123-132 | a stopped peer starts again exactly when the new settings fit its binding and its stored catalogs pass; the new one then has the same binding and the old disk, and is valid again |
| `Startup.SameSettingsStartAgain` | tools/circuitnet-conformance/peer.py:123-131 | with the settings it was first started with, a peer whose catalogs grew one by one always starts again |
| `Peers.Peer.Save` | tools/circuitnet-conformance/peer.py:52-69 | memory and disk take the new state together, or neither changes when there are more than 10000 records |
| `Peers.Peer.ReceiveBatch` | tools/circuitnet-conformance/peer.py:358-365 | a malformed or refused batch changes neither memory nor disk and carries its reason; a replay changes nothing, a new one is on disk before its acknowledgement, and either acknowledgement is valid for the batch in normal form |
| `Peers.Peer.ReceiveControl` | tools/circuitnet-conformance/peer.py:353-357 | a request gets the answer and the store the control rules give; a failure changes nothing |
| `Peers.Peer.RecordAck` | tools/circuitnet-conformance/peer.py:344-348 | only an acknowledgement valid for the offered batch is remembered; memory keeps it even when the save finds no room, disk only when it does |
| `Peers.AcknowledgedInMemoryOnly` | tools/circuitnet-conformance/peer.py:344-348 | a full store written out: a valid acknowledgement is refused for lack of room and is then in memory and not on disk |
| `Peers.Peer.Obtain` | tools/circuitnet-conformance/peer.py:425-453 | content already owned is taken without reading a byte; other content is read to its end mark, placed exactly if it is what was announced, and the verdict true means it is now owned |
| `Peers.Peer.Settle` | tools/circuitnet-conformance/peer.py:454-460 | the decision is in memory whatever happens and on disk exactly when there is room for the record, which is when its receipt is given |
| `Peers.Peer.ReceiveFile` | tools/circuitnet-conformance/peer.py:411-461 | the receipt or refusal of any publication; a known one is answered from its record with nothing read or changed; a new one gets its record, in memory and on disk; no stored content is ever lost or altered |
| `Peers.FileAnswerMeaning` | tools/circuitnet-conformance/peer.py:411-461 | exactly which publications get a receipt and which: valid, of this network, by its route, and known with the same fingerprint, or new, subscribed, with content owned or streamed in whole, and room for the record; the configured outcome only for content owned or streamed in as announced |
| `Delivery.ImportStepKept` | tools/circuitnet-conformance/peer.py:358-365 | receiving an offer, with or without the configured dropped acknowledgement, keeps both peers safe and vouched for |
| `Delivery.AckStepKept` | tools/circuitnet-conformance/peer.py:344-348 | receiving an acknowledgement keeps that every remembered one names a batch the other side has |
| `Delivery.RestartStepKept` | tools/circuitnet-conformance/peer.py:123-126 | restarting from disk, reconfigured within the same binding, loses no message and no receipt |
| `Delivery.StepKept` | tools/circuitnet-conformance/peer.py:167-210 | every step of either peer or the link keeps the invariant, and neither memory loses or alters a message |
| `Delivery.RunKept` | tools/circuitnet-conformance/peer.py:314-367 | the invariant holds in every state of every run |
| `Delivery.AcknowledgedIsDelivered` | tools/circuitnet-conformance/peer.py:333-348 | in every run, once a peer has an acknowledgement for a batch, every message of it is on the other's disk as offered, and each peer stores exactly as many messages as it ever counted as imported |
| `Delivery.StoredStays` | tools/circuitnet-conformance/peer.py:172-210 | along every run stored messages and receipts are never lost or altered, in memory or on disk, and the replies on disk have no same-area cycle |
| `Delivery.RetryIsAcknowledged` | tools/circuitnet-conformance/peer.py:173-175 | a batch once stored is, at any later point of the run, acknowledged as all duplicates by an acknowledgement its sender accepts, without touching the store |
| `Delivery.LostAcknowledgementIsMadeUp` | tools/circuitnet-conformance/peer.py:314-367 | for any batch the receiver takes, a run from any start in which its acknowledgement is lost, the sender restarted, the batch offered again, answered as all duplicates, and then on the sender's disk as acknowledged |
| `Delivery.FaultHappensOnce` | tools/circuitnet-conformance/peer.py:358-365 | a dropped acknowledgement is remembered, and a peer that remembers one answers every batch it takes |
| `Session.MatchedStep` | tools/circuitnet-conformance/peer.py:464-496 | a reader matched with a writer takes whatever the writer may write, and the two stay matched |
| `Session.ProceedKeeps` | tools/circuitnet-conformance/peer.py:464-496 | every read and write, in any interleaving, keeps the two programs in step |
| `Session.BreakKeeps` | tools/circuitnet-conformance/peer.py:464-496 | failures, lost frames, recognised errors and errors swallowed as content keep what is still unread digestible for a program that has not failed |
| `Session.ReadsFindTheirFrame` | tools/circuitnet-conformance/peer.py:308-312 | a waiting program finds a frame of the kind it expects, or the last item of a partner that has failed, an error, which ends it everywhere but inside content |
| `Session.SwallowedErrorSettlesNothing` | tools/circuitnet-conformance/peer.py:434-453 | in every run, once a receiver took an error frame for a chunk it stays inside that content until it fails, and never settles it |
| `Session.SwallowingHappens` | tools/circuitnet-conformance/peer.py:554-557 | a run written out in which the sender fails before its first chunk and the receiver takes its error frame for content |
| `Session.SomeStepIsPossible` | tools/circuitnet-conformance/peer.py:464-496 | while nothing failed, some read or write is possible until both are done and nothing is unread: the two never both wait on empty queues |
| `Session.SurvivorIsNotStuck` | tools/circuitnet-conformance/protocol.py:251-267 | after one program failed the other can go on, or read what ends it, or swallow an error and then come to the end of the stream |
| `Session.ProceedShortens` | tools/circuitnet-conformance/peer.py:252-462 | every step of a session without failures uses up some of a bounded number of steps, whatever catalogs and files are chosen within the bounds |
| `Session.CleanRunsClose` | tools/circuitnet-conformance/peer.py:464-496 | every run without a failure is in step, bounded in length, and can go on until both sides have closed with nothing unread |
| `Session.SessionsExchangeWhatIsAgreed` | tools/circuitnet-conformance/peer.py:464-496 | in every clean run that finishes, the frames that begin and end the parts were written in exactly the agreed order: hellos; in poll mode both sides' catalogs if agreed, then each side's controls if agreed, offer, and files if agreed, the initiator's first each time; closes; in test mode nothing but hellos and closes was written |
| `Session.EachPartOnce` | tools/circuitnet-conformance/peer.py:464-496 | in the same runs each side wrote one hello, one close, in poll mode one offer, and one head, one request, one controls, one results and one end of files exactly when their capability is agreed |
| `Session.WriteRules` | tools/circuitnet-conformance/peer.py:252-462 | when a program writes an object, an offer, a file, a decision or a piece of content, with the bounds of 64, 8, 67108864 and 65536, and what it then waits for |
| `Session.ReadRules` | tools/circuitnet-conformance/peer.py:252-462 | what a program does after each frame it reads, with the same bounds |
| `Session.RunsStayInStep` | tools/circuitnet-conformance/peer.py:464-496 | in every run, failures and losses included, what a program finds when it reads is what it expects or the last error of a failed partner |
| `Session.NegotiatedPairOpens` | tools/circuitnet-conformance/peer.py:464-476 | two peers that accept each other's hellos hold the same mode and capabilities, which is where the runs of the two programs begin |
| `Wire.LengthRoundTrip` | tools/circuitnet-conformance/protocol.py:260-272 | a four-byte length reads back as the number written |
| `Wire.NumberMeaning` | tools/circuitnet-conformance/protocol.py:260-272 | the first of the four bytes counts most, and each length has one spelling |
| `Wire.Stream.ReadExact` | tools/circuitnet-conformance/protocol.py:251-257 | however the stream splits its bytes, exactly the next count bytes are returned, or interrupted when there are fewer |
| `Wire.Stream.ReadFrame` | tools/circuitnet-conformance/protocol.py:259-267 | the next frame's payload, with the source's refusals for an empty, an oversized and a cut-off frame, and exactly its bytes consumed |
| `Wire.FrameMeaning` | tools/circuitnet-conformance/protocol.py:259-267 | every way a frame can be read, byte by byte, with the bound of 4198400 |
| `Wire.Stream.WriteFrame` | tools/circuitnet-conformance/protocol.py:269-273 | a payload within the bound is appended behind its length, a longer one is refused and nothing is written |
| `Wire.FrameRoundTrip` | tools/circuitnet-conformance/protocol.py:251-273 | a written frame is read back unchanged and nothing after it is touched |
| `Wire.StreamsRoundTrip` | tools/circuitnet-conformance/protocol.py:251-273 | cut anywhere, a written stream reads back as exactly the frames that arrived whole, in order and unchanged, then interrupted; uncut, as all of them |
| `Wire.Stream.ReceiveContent` | tools/circuitnet-conformance/peer.py:434-443 | the chunk loop returns what the remaining bytes say, or oversized or interrupted, and consumes exactly that |
| `Wire.SendContent` | tools/circuitnet-conformance/peer.py:381-391 | the sending loop over a source with short reads succeeds exactly if the source has enough, and has then written its first bytes as chunks and an end mark |
| `Wire.ContentRoundTrip` | tools/circuitnet-conformance/peer.py:381-443 | content sent in chunks of any sizes is reassembled exactly, and nothing after it is touched |
| `Wire.ContentMeaning` | tools/circuitnet-conformance/peer.py:434-443 | content is only ever accepted as pieces of 1 to 65536 bytes within the announced size and an end mark, and is these pieces joined |
| `Wire.ContentRefusals` | tools/circuitnet-conformance/peer.py:434-443 | after any pieces a length that is too large or beyond the size is refused as oversized, and a cut-off one ends interrupted |
| `Wire.ErrorInsideContent` | tools/circuitnet-conformance/peer.py:434-443 | an error frame after some pieces is never recognised: reading ends interrupted exactly when its payload fits as one more chunk, oversized otherwise |
| `ConfigurationCommit.Authority.Recover` | crates/sf-bbs/src/configuration.rs:113-129 | with any number of writes succeeding, the state is the one after so many of recovery's writes; an altered link is refused before the first |
| `ConfigurationCommit.RecoveredMeaning` | crates/sf-bbs/src/configuration.rs:113-129 | what recovery makes of every journal entry: completed with the link's class and the file's revision where the link proves it, rejected where it is an undecided configuration command, otherwise unchanged; neither file is touched |
| `ConfigurationCommit.Authority.Execute` | crates/sf-bbs/src/configuration.rs:235-447 | with any number of writes succeeding, the state is the one after so many of the command's writes; given enough of them it is saved exactly when the command commits; saved, the file holds the settings the command supplied under the next revision and names the command, the previous file is what was stored and only the command's entry changed; refused, its entry says why |
| `ConfigurationCommit.Authority.Apply` | crates/sf-bbs/src/configuration.rs:225-447 | the same from before the first recovery, over what that recovery leaves: unusable exactly for an altered link, and given enough writes saved, with the settings supplied, exactly when the command commits |
| `ConfigurationCommit.CommitsMeaning` | crates/sf-bbs/src/configuration.rs:225-319 | a command commits exactly when it is allowed, has a new identity of 16 to 64 hexadecimal digits, names the stored revision and digest, has a valid replacement, and a revision below the last is stored |
| `ConfigurationCommit.Authority.SaveStatic` | crates/sf-bbs/src/admin.rs:65-106 | with any number of writes succeeding: refused exactly when the file's version is not the administrator's or the last; saved exactly when both writes were done, with the settings supplied, no link and the old configuration as previous file |
| `ConfigurationCommit.RecoveredKeeps` | crates/sf-bbs/src/configuration.rs:113-129 | recovery keeps the invariant, leaves no command undecided and touches neither file |
| `ConfigurationCommit.RecoveryTellsTheTruth` | crates/sf-core/src/operator_control.rs:163-200 | recovery marks a configuration command completed exactly when its replacement was once current, and rejected otherwise |
| `ConfigurationCommit.CommitKeeps` | crates/sf-bbs/src/configuration.rs:434-435 | replacing the file under a decided journal keeps the invariant over the longer history |
| `ConfigurationCommit.ApplyAnywhere` | crates/sf-bbs/src/configuration.rs:225-447 | wherever the command stops the state is consistent, and the configuration is new exactly when the command passed every check and the third write of its own was done |
| `ConfigurationCommit.CrashThenRecover` | crates/sf-bbs/src/configuration.rs:437-441 | from any stop in a command, the next recovery leaves it completed with its revision exactly if its replacement reached the file, and rejected if it was only accepted |
| `ConfigurationCommit.StaticAnywhere` | crates/sf-bbs/src/admin.rs:65-106 | wherever the older writer stops the state is consistent and no command is left undecided |
| `ConfigurationCommit.StepKeeps` | crates/sf-bbs/src/admin.rs:34-59 | applying, loading, static saving, closing and other commands each keep the invariant, and a loaded administrator's copy is the file's |
| `ConfigurationCommit.CommittedConfigurationsFormAChain` | crates/sf-bbs/src/configuration.rs:296-308 | in every run with stops before any write: revisions count up by one, each commit was made from exactly the version before it, of candidates expecting one version at most one commits, no command commits twice, an overwritten link has its receipt finished, and the previous file is the current configuration or the one before |
| `ConfigurationCommit.EveryConfigurationWasSupplied` | crates/sf-bbs/src/configuration.rs:296-435 | in every run, every configuration that was ever current after the first holds the settings an earlier step supplied: an allowed command's replacement, whose identity, principal, generation and digests the file then names, or a static save |
| `ConfigurationCommit.RecoveryAfterAnyRun` | crates/sf-bbs/src/configuration.rs:113-129 | after any run the next complete recovery decides every command in the journal truthfully |
| `Shutdown.CountImpact` | crates/sf-bbs/src/shutdown.rs:78-110 | one pass counts the active callers, transfers, chats and interactions by the first reading of each; the next row relates the counts to the recorded consequences |
| `Shutdown.ImpactMeaning` | crates/sf-bbs/src/shutdown.rs:78-110 | the counts are the numbers of nodes with a session, of those down- or uploading, of those in a chat and of those with any interaction, by the first readings |
| `Shutdown.ConsequencesMeaning` | crates/sf-bbs/src/shutdown.rs:220-234 | the consequences list the nodes with a session and no others, in order, each with its session, occupancy, activity, file and second reading |
| `Shutdown.CountIsTally` | crates/sf-bbs/src/shutdown.rs:220-234 | each count is the number of recorded consequences of that kind, up to what changed between the two readings of the interactions |
| `Shutdown.CountsDecideExactlyByDrift` | crates/sf-bbs/src/shutdown.rs:240-245 | two passes with equal consequences have equal counts exactly when their chats and interactions drifted alike between the readings, and always when the readings of each agree |
| `Shutdown.CountsAloneMayRefuse` | crates/sf-bbs/src/shutdown.rs:235-271 | a request in time, by the owner, for the command and over the same consequences as its preparation is accepted exactly when the two passes drifted alike, and otherwise stale |
| `Shutdown.AnsweredBetweenReadings` | crates/sf-bbs/src/shutdown.rs:240-247 | a page answered between the readings of the preparation, written out: nothing changes afterwards and the request is refused as stale |
| `Shutdown.ShutdownControl.PrepareShutdown` | crates/sf-bbs/src/shutdown.rs:213-304 | a preparation, in place: phase, origin, preflights and answer; the next row says when it must succeed and what it leaves |
| `Shutdown.PrepareMeaning` | crates/sf-bbs/src/shutdown.rs:213-304 | a current preparation while running is busy exactly when at least 128 open preflights are less than thirty seconds old, and ready otherwise; either way the older ones are gone and the others unchanged, and a ready one is open with its owner, command, time, counts and consequences |
| `Shutdown.ShutdownControl.RequestShutdown` | crates/sf-bbs/src/shutdown.rs:213-271 | a request, in place: its token is gone whatever the verdict on owner, command, age, counts and consequences; acceptance moves the phase, records the origin and clears all preflights |
| `Shutdown.RequestMeaning` | crates/sf-bbs/src/shutdown.rs:213-271 | a request is accepted exactly when current, running, and its preflight is open, less than thirty seconds old, of the same owner and command, with the present counts and consequences; the answer and the whole next state otherwise |
| `Shutdown.PrepareBounded` | crates/sf-bbs/src/shutdown.rs:273-289 | preparing never changes phase or origin, adds at most its own token and never holds more than 128 |
| `Shutdown.SchedulerKeeps` | crates/sf-bbs/src/events.rs:239-290 | the scheduler's steps keep the invariant, and it claims an event only while the phase is Running |
| `Shutdown.StepKeeps` | crates/sf-bbs/src/shutdown.rs:308-376 | every step of every party keeps the invariant, never moves the phase back and claims nothing once it left Running |
| `Shutdown.OpenWasPrepared` | crates/sf-bbs/src/shutdown.rs:272-289 | in every run an open preflight was recorded by an earlier preparation under its token, then new, with the owner, command, time, counts and consequences of that step |
| `Shutdown.AcceptedWasPrepared` | crates/sf-bbs/src/shutdown.rs:235-271 | in every run an accepted request follows such a preparation by the same owner for the same command, less than the preflight's lifetime before, over the same counts and consequences |
| `Shutdown.ShutdownIsSafe` | crates/sf-bbs/src/events.rs:246-280 | in every interleaving: after Running the phase never returns and no event is claimed; at most one request is ever accepted, under a spent token, and it was prepared earlier in the run by the same owner for the same command, in time and over the same consequences; while Complete no claimed event is executing; no spent token is open again |
| `Shutdown.ShutdownHappens` | crates/sf-bbs/src/shutdown.rs:250-376 | a run written out in which an event is claimed, a prepared request is accepted while it executes, the daemon drains, waits for it and completes |
| `Addressing.Build` | tools/circuitnet-addressing.py:27-54 | the loop with its four dictionaries and sets accepts exactly the tables of 1 to 4096 allowed rows that are pairwise compatible; every row is then what its prefix leads to, and its country's name leads to its code |
| `Addressing.TableMeaning` | tools/circuitnet-addressing.py:27-54 | exactly which tables are allowed, field by field, and which rows conflict |
| `Addressing.FindRegion` | tools/circuitnet-addressing.py:56-62 | a prefix exactly when its region is named by the two spellings, as code or as name, and no other region is |
| `Addressing.SpellingMeaning` | tools/circuitnet-addressing.py:56-62 | a region is found exactly when it alone is spelled: the country by its listed name or else its code, the region by code or name, in any case |
| `Addressing.RangeAddressIsValid` | tools/circuitnet-addressing.py:64-79 | every address of a range in an approved region is valid for the range's role and for no other |
| `Addressing.AssignmentMeaning` | tools/circuitnet-addressing.py:64-79 | exactly which assignments are valid, with CNETROOT, declared old ones, the shape CCRRNNN and the role each number needs |
| `Addressing.AddressMeaning` | tools/circuitnet-addressing.py:106 | an address is the region's prefix and the number in three decimal digits |
| `Addressing.AddressesAreDistinct` | tools/circuitnet-addressing.py:106-107 | addresses of different regions or different numbers never collide |
| `Addressing.CheckReservations` | tools/circuitnet-addressing.py:81-94 | accepts exactly the lists of at most 10000 rows that are all valid and reserve pairwise different addresses, and yields the addresses of their rows, retired ones included |
| `Addressing.UsedMeaning` | tools/circuitnet-addressing.py:84-94 | the row-by-row accumulation stands exactly when all rows are valid and differ, and holds exactly their addresses |
| `Addressing.Scan` | tools/circuitnet-addressing.py:107-111 | the scan of a range finds its first free number, which the next row says is the least and missing only from a full range |
| `Addressing.FreeIsLeast` | tools/circuitnet-addressing.py:106-111 | the number found is free and the least free of its range, and none is found exactly when all are used |
| `Addressing.Suggest` | tools/circuitnet-addressing.py:96-111 | the suggestion or the refusal for a kind; the next row says exactly which |
| `Addressing.SuggestMeaning` | tools/circuitnet-addressing.py:96-111 | refused for a list that does not stand or spellings of no single region; for ROOT an active one reported, else CNETROOT unless reserved; else the least number of 1 to 899, 0 or 900 to 999 that no row reserves, and exhaustion exactly when there is none |
| `Addressing.SuggestionIsLeastValid` | tools/circuitnet-addressing.py:96-111 | a suggestion in a region is unused, valid for the kind's role and the least of its range; exhaustion is reported exactly when the range is full |
| `Addressing.ReservingKeepsTheList` | tools/circuitnet-addressing.py:81-111 | reserving what was suggested, CNETROOT included, adds exactly that address, and the list stays valid exactly when it had fewer than 10000 rows |
| `Addressing.FullListStillSuggests` | tools/circuitnet-addressing.py:82 | at 10000 rows a suggestion may still be given, and with it reserved every request is refused |
| `Addressing.FullListExample` | tools/circuitnet-addressing.py:82 | 10000 old assignments written out: CNETROOT is suggested, and reserving it makes the list invalid |
| `Addressing.RunOfSuggestions` | tools/circuitnet-addressing.py:96-111 | over any run of requests for any kinds in any regions, each suggestion reserved before the next: the list grows by one row a grant and is valid exactly while within 10000 rows, every grant is a valid address not reserved before, no two grants share an address, and numbers of one region and kind strictly increase |
| `Addressing.GrantsAreBounded` | tools/circuitnet-addressing.py:106 | in every such run a region yields at most 899 END, one primary and 100 additional HOST addresses, in increasing order, and CNETROOT is given at most once |

## Left out

- TLS, sockets, timeouts, fsync and temporary files: a link is a first-in first-out queue that may lose what it holds; a save is one atomic step.
- SHA-256, Ed25519 and the JSON encoding: symbolic digests and signatures; object shapes, type checks, format and version constants and the `frame` field table are not modelled.
- Byte-size bounds on canonical JSON (4 MiB batches, 512 KiB catalogs, 16 MiB states): only the bound of 10000 records is.
- Case folding of geographic names outside ASCII.
- Catalog.CheckBody: the byte-size bound on the whole body is not modelled, and intents, states and access levels are enumerations.
- Negotiation.Negotiate: role and mode are enumerations, so their spelling checks are not modelled.
- Imports.ImportBatch: requires the batch in normal form and a well-kept store; Peers.Peer.ReceiveBatch normalises first and keeps the store so.
- Peers.Peer.constructor: negotiated capabilities are a field the session sets; the file the store is loaded from and its lock are not modelled.
- Peers.Peer.ReceiveFile: the frames around the content are part of Session, not of this method.
- Peers.Peer.RecordAck: control results and file receipts on the sender's side, and work withheld for missing capabilities, are not modelled.
- Subscription lists are sets; their sorting is not modelled.
- Session.CleanRunsClose: frames carry only what decides the next step (enabled, batch present, sizes, decisions); all other refusals are failures a program may have at any point.
- Session.RunsStayInStep: both sides run this code; a peer that writes anything else is not modelled.
- Delivery.StepKept: catalogs, controls and files are one step that leaves messages, batch receipts and batch acknowledgements alone.
- CatalogSync.Converges: the parent's chain stays the same during the sessions; failing saves are in CatalogSync.DiskConverges.
- CatalogSync.SeedingRebuilds: the 16 MiB bound of the seed file is not modelled.
- ConfigurationCommit.Authority.Apply: authorisation, candidate validation and result class are inputs; audits, effects, the published copy in memory and the answer given to a replayed or conflicting command are not modelled.
- ConfigurationCommit.Authority.SaveStatic: the board identity rewrite in the database and the path checks are not modelled.
- ConfigurationCommit.CommittedConfigurationsFormAChain: the board's operation lock excludes the two writers from each other; manual edits of the file are refused by recovery and are not steps of a run, and the journal's cleanup, which production code never calls, is not one either.
- Shutdown.ShutdownControl.RequestShutdown: the journal's acceptance, audits and events around the transition are steps of the run model; a token is assumed never to be issued twice, and a command reads the clock once.
- Shutdown.ShutdownIsSafe: drain tickets, grace periods and the other conditions of success are one arbitrary verdict; disconnect preflights, the preparation thread and poisoned locks are not modelled.
- Addressing.Suggest: the command line and the check of a requested address are not modelled; an unknown kind or status is not expressible.
- `backup.rs`, `presentation.rs`, `fixture.rs`, `operator.rs`, the packaging tools and the statistics counters: display, dispatch, packaging or code that rests on services outside this model.
