/** The reply graph of stored messages: links inside one area must not form a cycle,
    whatever the order in which parents and replies arrive. */
module Replies {
  import opened Basics
  import opened Chains
  import opened Records

  datatype Stored = Stored(fingerprint: Digest<Message>, message: Message)
  type Messages = map<string, Stored>

  /** Every message is filed under its own identity. */
  ghost predicate Keyed(msgs: Messages) {
    forall k :: k in msgs ==> msgs[k].message.id == k
  }

  function Area(m: Message): (string, Option<string>) {
    (m.codename, m.conference)
  }

  /** The stored parent in the same area, if there is one. */
  function Parent(msgs: Messages, k: string): Option<string>
    requires k in msgs
  {
    var reply := msgs[k].message.reply;
    if reply.Some? && reply.value in msgs && Area(msgs[reply.value].message) == Area(msgs[k].message)
    then reply else None
  }

  ghost predicate Linked(msgs: Messages, ring: seq<string>, i: nat)
    requires i < |ring|
  {
    && ring[i] in msgs
    && Parent(msgs, ring[i]) == Some(ring[if i + 1 < |ring| then i + 1 else 0])
  }

  /** A ring of messages, each the reply to the next and the last to the first. */
  ghost predicate Cycle(msgs: Messages, ring: seq<string>) {
    |ring| > 0 && forall i {:trigger Linked(msgs, ring, i)} :: 0 <= i < |ring| ==> Linked(msgs, ring, i)
  }

  ghost predicate Acyclic(msgs: Messages) {
    forall ring :: !Cycle(msgs, ring)
  }

  /** A subset of an acyclic store is acyclic. */
  lemma AcyclicSubset(small: Messages, large: Messages)
    requires forall k :: k in small ==> k in large && small[k] == large[k]
    requires Acyclic(large)
    ensures Acyclic(small)
  {
    forall ring | Cycle(small, ring)
      ensures Cycle(large, ring)
    {
      forall i | 0 <= i < |ring|
        ensures Linked(large, ring, i)
      {
        assert Linked(small, ring, i);
      }
    }
  }

  /** The reply links inside one area. */
  ghost function ParentsOf(msgs: Messages): (links: Links)
    ensures links.Keys == msgs.Keys
    ensures forall k :: k in msgs ==> links[k] == Parent(msgs, k)
  {
    map k | k in msgs :: Parent(msgs, k)
  }

  lemma {:induction false} EndingIsOffCycle(msgs: Messages, ring: seq<string>, i: nat, n: nat)
    requires Cycle(msgs, ring) && i < |ring|
    ensures !Climbs(ParentsOf(msgs), ring[i], n)
    decreases n
  {
    assert Linked(msgs, ring, i);
    if n == 0 {
    } else {
      EndingIsOffCycle(msgs, ring, if i + 1 < |ring| then i + 1 else 0, n - 1);
    }
  }

  lemma ChainCloses(msgs: Messages, trail: seq<string>, j: nat)
    requires Upward(ParentsOf(msgs), trail) && j < |trail| && Parent(msgs, trail[|trail| - 1]) == Some(trail[j])
    ensures Cycle(msgs, trail[j..])
  {
    var ring := trail[j..];
    forall i | 0 <= i < |ring|
      ensures Linked(msgs, ring, i)
    {
      if i + 1 < |ring| {
        assert UpLink(ParentsOf(msgs), trail, j + i);
      }
    }
  }

  /** The walk from one stored message; it finds a repeat exactly when it runs into a cycle. */
  method WalkFrom(msgs: Messages, start: string) returns (ok: bool)
    requires Keyed(msgs) && start in msgs
    ensures ok ==> exists n: nat :: Climbs(ParentsOf(msgs), start, n)
    ensures !ok ==> !Acyclic(msgs)
  {
    var area := Area(msgs[start].message);
    var seen := {start};
    var cursor := msgs[start].message;
    ghost var trail := [start];
    while cursor.reply.Some? && cursor.reply.value in msgs
      invariant Upward(ParentsOf(msgs), trail) && trail[0] == start
      invariant cursor.id == trail[|trail| - 1] && msgs[cursor.id].message == cursor
      invariant Area(cursor) == area
      invariant seen <= msgs.Keys && forall k :: k in seen <==> k in trail
      decreases msgs.Keys - seen
    {
      var other := msgs[cursor.reply.value].message;
      if Area(other) != area {
        break;
      }
      if other.id in seen {
        ghost var j :| 0 <= j < |trail| && trail[j] == other.id;
        ChainCloses(msgs, trail, j);
        return false;
      }
      ExtendUp(ParentsOf(msgs), trail, other.id);
      seen := seen + {other.id};
      trail := trail + [other.id];
      cursor := other;
    }
    TrailClimbs(ParentsOf(msgs), trail, 0);
    return true;
  }

  /** The complete check over every stored message. */
  method CheckReplies(msgs: Messages) returns (ok: bool)
    requires Keyed(msgs)
    ensures ok <==> Acyclic(msgs)
  {
    var rest := msgs.Keys;
    while rest != {}
      invariant rest <= msgs.Keys
      invariant forall k :: k in msgs && k !in rest ==> exists n: nat :: Climbs(ParentsOf(msgs), k, n)
      decreases rest
    {
      var k :| k in rest;
      ok := WalkFrom(msgs, k);
      if !ok {
        return;
      }
      rest := rest - {k};
    }
    forall ring | Cycle(msgs, ring)
      ensures false
    {
      assert Linked(msgs, ring, 0);
      var n: nat :| Climbs(ParentsOf(msgs), ring[0], n);
      EndingIsOffCycle(msgs, ring, 0, n);
    }
    return true;
  }

  /** A cycle, over the stored messages themselves: each names the next as the message it replies
      to, all stored and all in one area, under one codename and conference. */
  lemma CycleMeaning(msgs: Messages, ring: seq<string>)
    ensures Cycle(msgs, ring) <==>
              && ring != []
              && (forall i :: 0 <= i < |ring| ==> ring[i] in msgs)
              && (forall i {:trigger ring[i]} :: 0 <= i < |ring| ==>
                    msgs[ring[i]].message.reply == Some(ring[if i == |ring| - 1 then 0 else i + 1]))
              && (forall i :: 0 <= i < |ring| ==> msgs[ring[i]].message.codename == msgs[ring[0]].message.codename)
              && (forall i :: 0 <= i < |ring| ==> msgs[ring[i]].message.conference == msgs[ring[0]].message.conference)
  {
    if Cycle(msgs, ring) {
      assert Linked(msgs, ring, 0);
      forall i: nat | i < |ring|
        ensures ring[i] in msgs && Area(msgs[ring[i]].message) == Area(msgs[ring[0]].message)
        ensures msgs[ring[i]].message.reply == Some(ring[if i == |ring| - 1 then 0 else i + 1])
      {
        assert Linked(msgs, ring, i);
        assert Linked(msgs, ring, 0);
        OneArea(msgs, ring, i);
      }
    } else if ring != [] && forall i :: 0 <= i < |ring| ==> ring[i] in msgs {
      var i: nat :| i < |ring| && !Linked(msgs, ring, i);
    }
  }

  lemma {:induction false} OneArea(msgs: Messages, ring: seq<string>, i: nat)
    requires Cycle(msgs, ring) && i < |ring|
    ensures ring[i] in msgs && ring[0] in msgs && Area(msgs[ring[i]].message) == Area(msgs[ring[0]].message)
    decreases i
  {
    if i == 0 {
      assert Linked(msgs, ring, 0);
    } else {
      OneArea(msgs, ring, i - 1);
      assert Linked(msgs, ring, i) && Linked(msgs, ring, i - 1);
    }
  }
}
