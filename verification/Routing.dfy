/** Routes in an accepted topology: there is one repeat-free path between any
    two nodes, and the stack search finds it. */
module Routing {
  import opened Basics
  import opened Topology

  predicate Adjacent(nodes: Nodes, x: string, y: string)
    requires x in nodes && y in nodes
  {
    nodes[x].parent == Some(y) || nodes[y].parent == Some(x)
  }

  ghost predicate Hop(nodes: Nodes, p: seq<string>, i: nat)
    requires i + 1 < |p| && p[i] in nodes && p[i + 1] in nodes
  {
    Adjacent(nodes, p[i], p[i + 1])
  }

  ghost predicate Walk(nodes: Nodes, p: seq<string>) {
    && |p| > 0
    && (forall i :: 0 <= i < |p| ==> p[i] in nodes)
    && (forall i {:trigger Hop(nodes, p, i)} :: 0 <= i < |p| - 1 ==> Hop(nodes, p, i))
  }

  /** An adjacent, repeat-free path from a to b. */
  ghost predicate SimplePath(nodes: Nodes, p: seq<string>, a: string, b: string) {
    Walk(nodes, p) && Unrepeated(p) && p[0] == a && p[|p| - 1] == b
  }

  function Reverse(p: seq<string>): (r: seq<string>)
    ensures |r| == |p|
    ensures forall i :: 0 <= i < |p| ==> r[i] == p[|p| - 1 - i]
  {
    seq(|p|, i requires 0 <= i < |p| => p[|p| - 1 - i])
  }

  lemma ReverseSimple(nodes: Nodes, p: seq<string>, a: string, b: string)
    requires SimplePath(nodes, p, a, b)
    ensures SimplePath(nodes, Reverse(p), b, a)
  {
    var r := Reverse(p);
    forall i | 0 <= i < |r| - 1
      ensures Hop(nodes, r, i)
    {
      assert Hop(nodes, p, |p| - 2 - i);
    }
  }

  lemma TailWalk(nodes: Nodes, p: seq<string>)
    requires Walk(nodes, p) && |p| > 1
    ensures Walk(nodes, p[1..])
  {
    forall i | 0 <= i < |p[1..]| - 1
      ensures Hop(nodes, p[1..], i)
    {
      assert Hop(nodes, p, i + 1);
    }
  }

  lemma PrependWalk(nodes: Nodes, a: string, p: seq<string>)
    requires Walk(nodes, p) && a in nodes && Adjacent(nodes, a, p[0])
    ensures Walk(nodes, [a] + p)
  {
    var q := [a] + p;
    forall i | 0 <= i < |q| - 1
      ensures Hop(nodes, q, i)
    {
      if i > 0 {
        assert Hop(nodes, p, i - 1);
      }
    }
  }

  lemma AppendWalk(nodes: Nodes, p: seq<string>, b: string)
    requires Walk(nodes, p) && b in nodes && Adjacent(nodes, p[|p| - 1], b)
    ensures Walk(nodes, p + [b])
  {
    var q := p + [b];
    forall i | 0 <= i < |q| - 1
      ensures Hop(nodes, q, i)
    {
      if i < |p| - 1 {
        assert Hop(nodes, p, i);
      }
    }
  }

  // ---------------------------------------------------------------------------
  // Subtrees

  /** a is b or an ancestor of b. */
  ghost predicate Above(nodes: Nodes, depth: map<string, nat>, a: string, b: string)
    requires Ranked(nodes, depth) && b in nodes
    decreases depth[b]
  {
    assert RankedAt(nodes, depth, b);
    a == b || (nodes[b].parent.Some? && Above(nodes, depth, a, nodes[b].parent.value))
  }

  lemma {:induction false} AboveDepth(nodes: Nodes, depth: map<string, nat>, a: string, b: string)
    requires Ranked(nodes, depth) && b in nodes && Above(nodes, depth, a, b)
    ensures a in nodes && depth[a] <= depth[b] && (depth[a] == depth[b] ==> a == b)
    decreases depth[b]
  {
    if a == b {
    } else {
      assert RankedAt(nodes, depth, b);
      AboveDepth(nodes, depth, a, nodes[b].parent.value);
    }
  }

  lemma {:induction false} AboveParent(nodes: Nodes, depth: map<string, nat>, c: string, b: string)
    requires Ranked(nodes, depth) && b in nodes && c in nodes && nodes[c].parent.Some?
    requires Above(nodes, depth, c, b)
    ensures Above(nodes, depth, nodes[c].parent.value, b)
    decreases depth[b]
  {
    assert RankedAt(nodes, depth, b);
    if c == b {
    } else {
      AboveParent(nodes, depth, c, nodes[b].parent.value);
    }
  }

  /** Two siblings are not both above the same node. */
  lemma {:induction false} OneChildAbove(nodes: Nodes, depth: map<string, nat>, c: string, d: string, b: string)
    requires Ranked(nodes, depth) && b in nodes && c in nodes && d in nodes
    requires nodes[c].parent.Some? && nodes[c].parent == nodes[d].parent
    requires Above(nodes, depth, c, b) && Above(nodes, depth, d, b)
    ensures c == d
    decreases depth[b]
  {
    assert RankedAt(nodes, depth, c) && RankedAt(nodes, depth, d) && RankedAt(nodes, depth, b);
    if c == b || d == b {
      AboveDepth(nodes, depth, c, b);
      AboveDepth(nodes, depth, d, b);
    } else {
      OneChildAbove(nodes, depth, c, d, nodes[b].parent.value);
    }
  }

  /** A walk that starts under c and avoids c's parent stays under c. */
  lemma {:induction false} StaysBelow(nodes: Nodes, depth: map<string, nat>, p: seq<string>, c: string)
    requires Ranked(nodes, depth) && Walk(nodes, p) && c in nodes && nodes[c].parent.Some?
    requires Above(nodes, depth, c, p[0]) && nodes[c].parent.value !in p
    ensures Above(nodes, depth, c, p[|p| - 1])
    decreases |p|
  {
    if |p| == 1 {
    } else {
      assert Hop(nodes, p, 0) && RankedAt(nodes, depth, p[0]) && RankedAt(nodes, depth, p[1]);
      TailWalk(nodes, p);
      StaysBelow(nodes, depth, p[1..], c);
    }
  }

  /** A walk that starts outside the subtree of a and avoids a stays outside. */
  lemma {:induction false} StaysOutside(nodes: Nodes, depth: map<string, nat>, p: seq<string>, a: string)
    requires Ranked(nodes, depth) && Walk(nodes, p)
    requires !Above(nodes, depth, a, p[0]) && a !in p
    ensures !Above(nodes, depth, a, p[|p| - 1])
    decreases |p|
  {
    if |p| == 1 {
    } else {
      assert Hop(nodes, p, 0) && RankedAt(nodes, depth, p[0]) && RankedAt(nodes, depth, p[1]);
      TailWalk(nodes, p);
      StaysOutside(nodes, depth, p[1..], a);
    }
  }

  /** The first hop goes down exactly when the target lies below. */
  lemma FirstHop(nodes: Nodes, depth: map<string, nat>, p: seq<string>, a: string, b: string)
    requires Ranked(nodes, depth) && SimplePath(nodes, p, a, b) && |p| > 1
    ensures nodes[p[1]].parent == Some(a) ==> Above(nodes, depth, p[1], b) && Above(nodes, depth, a, b)
    ensures nodes[p[1]].parent != Some(a) ==> nodes[a].parent == Some(p[1]) && !Above(nodes, depth, a, b)
  {
    TailWalk(nodes, p);
    assert Hop(nodes, p, 0) && RankedAt(nodes, depth, a) && RankedAt(nodes, depth, p[1]);
    assert a !in p[1..];
    if nodes[p[1]].parent == Some(a) {
      StaysBelow(nodes, depth, p[1..], p[1]);
      AboveParent(nodes, depth, p[1], b);
    } else {
      if Above(nodes, depth, a, p[1]) {
        AboveDepth(nodes, depth, a, p[1]);
      }
      StaysOutside(nodes, depth, p[1..], a);
    }
  }

  lemma {:induction false} UniquePath(nodes: Nodes, p: seq<string>, q: seq<string>, a: string, b: string)
    requires exists depth :: Ranked(nodes, depth)
    requires SimplePath(nodes, p, a, b) && SimplePath(nodes, q, a, b)
    ensures p == q
    decreases |p|
  {
    var depth :| Ranked(nodes, depth);
    if |p| == 1 || |q| == 1 {
      assert |p| == 1 && |q| == 1;
      assert p == [a] && q == [a];
    } else {
      FirstHop(nodes, depth, p, a, b);
      FirstHop(nodes, depth, q, a, b);
      if nodes[p[1]].parent == Some(a) {
        OneChildAbove(nodes, depth, p[1], q[1], b);
      }
      TailWalk(nodes, p);
      TailWalk(nodes, q);
      UniquePath(nodes, p[1..], q[1..], p[1], b);
      assert p == [a] + p[1..] && q == [a] + q[1..];
    }
  }

  // ---------------------------------------------------------------------------
  // The route, by climbing from the deeper end

  ghost function TreePath(nodes: Nodes, depth: map<string, nat>, a: string, b: string): seq<string>
    requires Ranked(nodes, depth) && a in nodes && b in nodes
    decreases depth[a] + depth[b]
  {
    assert RankedAt(nodes, depth, a) && RankedAt(nodes, depth, b);
    if a == b || depth[a] + depth[b] == 0 then [a]
    else if depth[a] >= depth[b] then [a] + TreePath(nodes, depth, nodes[a].parent.value, b)
    else TreePath(nodes, depth, a, nodes[b].parent.value) + [b]
  }

  lemma TopIsUnique(nodes: Nodes, a: string, b: string)
    requires OneTop(nodes) && a in nodes && b in nodes && nodes[a].parent.None? && nodes[b].parent.None?
    ensures a == b
  {
    var tops := set n | n in nodes && nodes[n].parent.None?;
    assert a in tops && b in tops;
    assert |tops - {a}| == 0;
    assert tops - {a} == {};
  }

  lemma {:induction false} TreePathIsSimple(nodes: Nodes, depth: map<string, nat>, a: string, b: string)
    requires Ranked(nodes, depth) && OneTop(nodes) && a in nodes && b in nodes
    ensures SimplePath(nodes, TreePath(nodes, depth, a, b), a, b)
    ensures forall x :: x in TreePath(nodes, depth, a, b) ==> Above(nodes, depth, x, a) || Above(nodes, depth, x, b)
    decreases depth[a] + depth[b]
  {
    assert RankedAt(nodes, depth, a) && RankedAt(nodes, depth, b);
    if a == b {
    } else if depth[a] + depth[b] == 0 {
      TopIsUnique(nodes, a, b);
    } else if depth[a] >= depth[b] {
      var up := nodes[a].parent.value;
      var p := TreePath(nodes, depth, up, b);
      TreePathIsSimple(nodes, depth, up, b);
      if a in p {
        if Above(nodes, depth, a, up) { AboveDepth(nodes, depth, a, up); }
        if Above(nodes, depth, a, b) { AboveDepth(nodes, depth, a, b); }
      }
      PrependWalk(nodes, a, p);
      assert TreePath(nodes, depth, a, b) == [a] + p;
    } else {
      var up := nodes[b].parent.value;
      var p := TreePath(nodes, depth, a, up);
      TreePathIsSimple(nodes, depth, a, up);
      if b in p {
        if Above(nodes, depth, b, up) { AboveDepth(nodes, depth, b, up); }
        if Above(nodes, depth, b, a) { AboveDepth(nodes, depth, b, a); }
      }
      AppendWalk(nodes, p, b);
      assert TreePath(nodes, depth, a, b) == p + [b];
    }
  }

  /** The route between two known nodes. */
  ghost function Route(nodes: Nodes, a: string, b: string): (p: seq<string>)
    requires Tree(nodes) && a in nodes && b in nodes
    ensures SimplePath(nodes, p, a, b)
  {
    var depth :| Ranked(nodes, depth);
    TreePathIsSimple(nodes, depth, a, b);
    TreePath(nodes, depth, a, b)
  }

  /** Any repeat-free adjacent path is the route; the way back is its reverse. */
  lemma RouteIsTheOnlyPath(nodes: Nodes, a: string, b: string)
    requires Tree(nodes) && a in nodes && b in nodes
    ensures forall p :: SimplePath(nodes, p, a, b) <==> p == Route(nodes, a, b)
    ensures Route(nodes, b, a) == Reverse(Route(nodes, a, b))
  {
    forall p | SimplePath(nodes, p, a, b)
      ensures p == Route(nodes, a, b)
    {
      UniquePath(nodes, p, Route(nodes, a, b), a, b);
    }
    ReverseSimple(nodes, Route(nodes, a, b), a, b);
    UniquePath(nodes, Reverse(Route(nodes, a, b)), Route(nodes, b, a), b, a);
  }

  // ---------------------------------------------------------------------------
  // The stack search

  function Neighbors(nodes: Nodes, n: string): set<string>
    requires n in nodes
  {
    (set x | x in nodes && nodes[x].parent == Some(n))
    + (if nodes[n].parent.Some? then {nodes[n].parent.value} else {})
  }

  ghost function Elements(p: seq<string>): set<string> {
    set x | x in p
  }

  lemma {:induction false} UnrepeatedSize(p: seq<string>)
    requires Unrepeated(p)
    ensures |Elements(p)| == |p|
    decreases |p|
  {
    if p == [] {
    } else {
      var q := p[..|p| - 1];
      UnrepeatedSize(q);
      assert p == q + [p[|p| - 1]];
      assert Elements(p) == Elements(q) + {p[|p| - 1]};
    }
  }

  lemma UnrepeatedBounded(nodes: Nodes, p: seq<string>)
    requires Unrepeated(p) && forall i :: 0 <= i < |p| ==> p[i] in nodes
    ensures |p| <= |nodes|
  {
    UnrepeatedSize(p);
    SubsetSize(Elements(p), nodes.Keys);
  }

  /** A bound on the work left below a path that may still grow by k nodes. */
  ghost function Weight(n: nat, k: nat): nat {
    if k == 0 then 1 else 1 + Times(n, Weight(n, k - 1))
  }

  ghost function Times(n: nat, w: nat): (t: nat)
    ensures w == 0 ==> t == 0
  {
    if n == 0 then 0 else w + Times(n - 1, w)
  }

  lemma {:induction false} TimesGrows(m: nat, n: nat, w: nat)
    requires m <= n
    ensures Times(m, w) <= Times(n, w)
    decreases n
  {
    if m == n {
    } else {
      TimesGrows(m, n - 1, w);
    }
  }

  ghost function Load(n: nat, pending: seq<seq<string>>): nat {
    if pending == [] then 0
    else Load(n, pending[..|pending| - 1]) +
         (var k := |pending[|pending| - 1]|; if k <= n then Weight(n, n - k) else 0)
  }

  ghost predicate Trail(nodes: Nodes, p: seq<string>, origin: string) {
    |p| > 0 && SimplePath(nodes, p, origin, p[|p| - 1])
  }

  ghost predicate Trails(nodes: Nodes, pending: seq<seq<string>>, origin: string) {
    forall i :: 0 <= i < |pending| ==> Trail(nodes, pending[i], origin)
  }

  /** Some pending path is the beginning of the goal. */
  ghost predicate Leads(pending: seq<seq<string>>, goal: seq<string>) {
    exists i :: 0 <= i < |pending| && pending[i] <= goal
  }

  /** The goal goes on from path through n. */
  ghost predicate Through(path: seq<string>, goal: seq<string>, n: string) {
    |path| < |goal| && goal[|path|] == n && path + [n] <= goal
  }

  /** Depth-first search over repeat-free paths, as a stack. */
  method FindRoute(nodes: Nodes, origin: string, target: string) returns (r: Result<seq<string>>)
    requires Tree(nodes)
    ensures r == if origin in nodes && target in nodes then Ok(Route(nodes, origin, target)) else Err(TopologyMismatch)
  {
    if origin !in nodes || target !in nodes {
      return Err(TopologyMismatch);
    }
    ghost var goal := Route(nodes, origin, target);
    var pending := [[origin]];
    assert pending[0] <= goal;
    while pending != []
      invariant Trails(nodes, pending, origin)
      invariant Leads(pending, goal)
      decreases Load(|nodes|, pending)
    {
      var path := pending[|pending| - 1];
      var rest := pending[..|pending| - 1];
      assert pending == rest + [path];
      assert Trail(nodes, path, origin);
      if path[|path| - 1] == target {
        UniquePath(nodes, path, goal, origin, target);
        return Ok(path);
      }
      assert ParentAdmits(nodes, nodes[path[|path| - 1]]);
      if path <= goal {
        NextIsNeighbor(nodes, path, goal);
      } else {
        LeadsElsewhere(rest, path, goal);
      }
      pending := Extend(nodes, origin, rest, path, goal);
    }
    r := Err(TopologyMismatch);
    assert false;
  }

  lemma LeadsElsewhere(rest: seq<seq<string>>, path: seq<string>, goal: seq<string>)
    requires Leads(rest + [path], goal) && !(path <= goal)
    ensures Leads(rest, goal)
  {
    var i :| 0 <= i < |rest + [path]| && (rest + [path])[i] <= goal;
    assert rest[i] <= goal;
  }

  lemma NextIsNeighbor(nodes: Nodes, path: seq<string>, goal: seq<string>)
    requires |path| > 0 && path <= goal && Walk(nodes, goal) && Unrepeated(goal)
    requires path[|path| - 1] != goal[|goal| - 1]
    ensures |path| < |goal| && goal[|path|] in Neighbors(nodes, path[|path| - 1]) && goal[|path|] !in path
    ensures Through(path, goal, goal[|path|])
  {
    assert path[|path| - 1] == goal[|path| - 1];
    assert Hop(nodes, goal, |path| - 1);
  }

  lemma Push(nodes: Nodes, origin: string, pending: seq<seq<string>>, path: seq<string>, n: string, goal: seq<string>)
    requires Trails(nodes, pending, origin) && Trail(nodes, path, origin)
    requires n in nodes && Adjacent(nodes, path[|path| - 1], n) && n !in path
    ensures Trails(nodes, pending + [path + [n]], origin)
    ensures |path| < |nodes|
    ensures Load(|nodes|, pending + [path + [n]]) == Load(|nodes|, pending) + Weight(|nodes|, |nodes| - |path| - 1)
    ensures Leads(pending, goal) || Through(path, goal, n) ==> Leads(pending + [path + [n]], goal)
  {
    var longer := path + [n];
    AppendWalk(nodes, path, n);
    UnrepeatedBounded(nodes, longer);
    var after := pending + [longer];
    assert after[..|pending|] == pending && after[|pending|] == longer;
    if Leads(pending, goal) {
      var i :| 0 <= i < |pending| && pending[i] <= goal;
      assert after[i] <= goal;
    }
  }

  /** Pushes every extension of a path by a neighbour it does not hold yet. */
  method Extend(nodes: Nodes, origin: string, rest: seq<seq<string>>, path: seq<string>, ghost goal: seq<string>)
    returns (pending: seq<seq<string>>)
    requires Trail(nodes, path, origin) && Trails(nodes, rest, origin)
    requires Neighbors(nodes, path[|path| - 1]) <= nodes.Keys
    requires Leads(rest, goal) ||
             exists n :: n in Neighbors(nodes, path[|path| - 1]) && n !in path && Through(path, goal, n)
    ensures Trails(nodes, pending, origin) && Leads(pending, goal)
    ensures Load(|nodes|, pending) < Load(|nodes|, rest + [path])
  {
    var node := path[|path| - 1];
    var todo := Neighbors(nodes, node);
    pending := rest;
    ghost var w := Budget(nodes, rest, path, todo);
    while todo != {}
      invariant todo <= Neighbors(nodes, node) && todo <= nodes.Keys
      invariant Trails(nodes, pending, origin)
      invariant Leads(pending, goal) || exists n :: n in todo && n !in path && Through(path, goal, n)
      invariant Load(|nodes|, pending) + Times(|todo|, w) < Load(|nodes|, rest + [path])
      decreases todo
    {
      var n :| n in todo;
      assert |todo - {n}| == |todo| - 1;
      if n !in path {
        Push(nodes, origin, pending, path, n, goal);
        pending := pending + [path + [n]];
      }
      todo := todo - {n};
    }
  }

  /** The weight of one extension; all of them together weigh less than the path they replace. */
  lemma Budget(nodes: Nodes, rest: seq<seq<string>>, path: seq<string>, todo: set<string>) returns (w: nat)
    requires Unrepeated(path) && (forall i :: 0 <= i < |path| ==> path[i] in nodes)
    requires todo <= nodes.Keys
    ensures |path| < |nodes| ==> w == Weight(|nodes|, |nodes| - |path| - 1)
    ensures Load(|nodes|, rest) + Times(|todo|, w) < Load(|nodes|, rest + [path])
  {
    UnrepeatedBounded(nodes, path);
    SubsetSize(todo, nodes.Keys);
    assert (rest + [path])[..|rest|] == rest;
    w := if |path| < |nodes| then Weight(|nodes|, |nodes| - |path| - 1) else 0;
    TimesGrows(|todo|, |nodes|, w);
  }

  // ---------------------------------------------------------------------------
  // The path policy

  /** What a node accepts from its peer: the path so far, and the destination if directed. */
  ghost function PathPolicy(nodes: Nodes, node: string, peer: string,
                            origin: string, path: seq<string>, destination: Option<string>): Check
    requires Tree(nodes) && peer in nodes
  {
    if origin !in nodes || path != Route(nodes, origin, peer) || node in path then Fail(TopologyMismatch)
    else if destination.None? then Pass
    else if destination.value !in nodes then Fail(TopologyMismatch)
    else
      var full := Route(nodes, origin, destination.value);
      if !(path + [node] <= full) then Fail(TopologyMismatch)
      else if destination.value != node then Fail(UnauthorizedCodename)
      else Pass
  }

  method CheckPath(nodes: Nodes, node: string, peer: string,
                   origin: string, path: seq<string>, destination: Option<string>) returns (c: Check)
    requires Tree(nodes) && peer in nodes
    ensures c == PathPolicy(nodes, node, peer, origin, path, destination)
  {
    var soFar := FindRoute(nodes, origin, peer);
    if soFar.Err? || path != soFar.value || node in path {
      return Fail(TopologyMismatch);
    }
    if destination.None? {
      return Pass;
    }
    var full := FindRoute(nodes, origin, destination.value);
    if full.Err? {
      return Fail(TopologyMismatch);
    }
    var shown := if |full.value| <= |path| + 1 then full.value else full.value[..|path| + 1];
    if shown != path + [node] {
      return Fail(TopologyMismatch);
    }
    return Require(destination.value == node, UnauthorizedCodename);
  }

  /** A route through an adjacent peer is the peer's route and one more hop. */
  lemma RouteThroughPeer(nodes: Nodes, node: string, peer: string, origin: string, path: seq<string>)
    requires Tree(nodes) && origin in nodes && node in nodes && peer in nodes && Adjacent(nodes, node, peer)
    ensures path == Route(nodes, origin, peer) && node !in path <==>
            path != [] && path[|path| - 1] == peer && path + [node] == Route(nodes, origin, node)
  {
    if path == Route(nodes, origin, peer) && node !in path {
      AppendWalk(nodes, path, node);
      RouteIsTheOnlyPath(nodes, origin, node);
      assert SimplePath(nodes, path + [node], origin, node);
    }
    if path != [] && path[|path| - 1] == peer && path + [node] == Route(nodes, origin, node) {
      WithoutLast(nodes, path, origin, node);
      RouteIsTheOnlyPath(nodes, origin, peer);
    }
  }

  lemma WithoutLast(nodes: Nodes, p: seq<string>, a: string, b: string)
    requires p != [] && SimplePath(nodes, p + [b], a, b)
    ensures SimplePath(nodes, p, a, p[|p| - 1]) && b !in p
  {
    var q := p + [b];
    assert forall i :: 0 <= i < |p| ==> p[i] == q[i] && q[i] != q[|p|];
    forall i | 0 <= i < |p| - 1
      ensures Hop(nodes, p, i)
    {
      assert Hop(nodes, q, i);
    }
  }

  /** The policy passes exactly when the path, ending at the peer, continues to this node
      as the route from the origin, and a directed object is meant for this node. In
      particular this node is neither the origin nor an earlier relay, and the prefix
      test on a directed object addressed here never decides. */
  lemma PolicyMeaning(nodes: Nodes, node: string, peer: string,
                      origin: string, path: seq<string>, destination: Option<string>)
    requires Tree(nodes) && node in nodes && peer in nodes && Adjacent(nodes, node, peer)
    ensures PathPolicy(nodes, node, peer, origin, path, destination).Pass? <==>
            && origin in nodes && path != [] && path[|path| - 1] == peer
            && path + [node] == Route(nodes, origin, node)
            && (destination.None? || destination.value == node)
    ensures PathPolicy(nodes, node, peer, origin, path, destination).Pass? ==> origin != node && node !in path
    ensures destination == Some(node) ==>
            PathPolicy(nodes, node, peer, origin, path, destination) == PathPolicy(nodes, node, peer, origin, path, None)
  {
    if origin in nodes {
      RouteThroughPeer(nodes, node, peer, origin, path);
    }
  }

  /** What fails the policy: an object that came by its route and goes on through this node to
      another is not for this node; anything else is out of place. */
  lemma PolicyRefusal(nodes: Nodes, node: string, peer: string,
                      origin: string, path: seq<string>, destination: Option<string>)
    requires Tree(nodes) && node in nodes && peer in nodes && Adjacent(nodes, node, peer)
    ensures PathPolicy(nodes, node, peer, origin, path, destination).Fail? ==>
              PathPolicy(nodes, node, peer, origin, path, destination).code ==
                if && origin in nodes && path != [] && path[|path| - 1] == peer && path + [node] == Route(nodes, origin, node)
                   && destination.Some? && destination.value in nodes && destination.value != node
                   && path + [node] <= Route(nodes, origin, destination.value)
                then UnauthorizedCodename else TopologyMismatch
  {
    if origin in nodes {
      RouteThroughPeer(nodes, node, peer, origin, path);
    }
  }
}
