/** Chains of links from a name to its parent, as the topology and the reply graph follow them. */
module Chains {
  import opened Basics

  /** Every name's parent, which need not itself be listed. */
  type Links = map<string, Option<string>>

  /** Each element of the trail is the parent of the one before it. */
  ghost predicate Upward(links: Links, trail: seq<string>) {
    && |trail| > 0
    && (forall i :: 0 <= i < |trail| ==> trail[i] in links)
    && (forall i {:trigger UpLink(links, trail, i)} :: 0 <= i < |trail| - 1 ==> UpLink(links, trail, i))
  }

  ghost predicate UpLink(links: Links, trail: seq<string>, i: nat)
    requires i < |trail| - 1 && trail[i] in links
  {
    links[trail[i]] == Some(trail[i + 1])
  }

  /** Climbing from n stops within k steps. */
  ghost predicate Climbs(links: Links, n: string, k: nat)
    decreases k
  {
    && n in links
    && (links[n].Some? ==> k > 0 && Climbs(links, links[n].value, k - 1))
  }

  lemma ExtendUp(links: Links, trail: seq<string>, p: string)
    requires Upward(links, trail) && p in links && links[trail[|trail| - 1]] == Some(p)
    ensures Upward(links, trail + [p])
  {
    var longer := trail + [p];
    forall i | 0 <= i < |longer| - 1
      ensures UpLink(links, longer, i)
    {
      if i < |trail| - 1 {
        assert UpLink(links, trail, i);
      }
    }
  }

  /** A trail that ends without a parent is climbed within its length. */
  lemma {:induction false} TrailClimbs(links: Links, trail: seq<string>, i: nat)
    requires Upward(links, trail) && i < |trail| && links[trail[|trail| - 1]].None?
    ensures Climbs(links, trail[i], |trail| - 1 - i)
    decreases |trail| - i
  {
    if i == |trail| - 1 {
    } else {
      assert UpLink(links, trail, i);
      TrailClimbs(links, trail, i + 1);
    }
  }
}
