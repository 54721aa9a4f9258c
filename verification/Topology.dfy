/** The enrolled topology: the constructor's tree check, the route search and
    what the path policy admits. */
module Topology {
  import opened Basics
  import opened Chains
  import opened Tokens

  datatype Role = End | Host | Root
  datatype Node = Node(id: string, role: Role, parent: Option<string>)
  type Nodes = map<string, Node>

  // ---------------------------------------------------------------------------
  // Trees

  /** `depth` witnesses that climbing parent links from any node stops at a node without one. */
  ghost predicate Ranked(nodes: Nodes, depth: map<string, nat>) {
    && depth.Keys == nodes.Keys
    && forall n {:trigger RankedAt(nodes, depth, n)} :: n in nodes ==> RankedAt(nodes, depth, n)
  }

  ghost predicate RankedAt(nodes: Nodes, depth: map<string, nat>, n: string)
    requires n in nodes && depth.Keys == nodes.Keys
  {
    match nodes[n].parent
    case None => depth[n] == 0
    case Some(p) => p in nodes && depth[n] == depth[p] + 1
  }

  predicate RoleAgrees(n: Node) {
    && (n.role.Root? ==> n.parent.None?)
    && (n.role.End? ==> n.parent.Some?)
  }

  predicate ParentAdmits(nodes: Nodes, n: Node) {
    n.parent.Some? ==> n.parent.value in nodes && !nodes[n.parent.value].role.End?
  }

  predicate OneTop(nodes: Nodes) {
    |set n | n in nodes && nodes[n].parent.None?| == 1
  }

  /** A rooted tree: every chain of parents ends, and all end at the same node. */
  ghost predicate Tree(nodes: Nodes) {
    && (forall n :: n in nodes ==> RoleAgrees(nodes[n]) && ParentAdmits(nodes, nodes[n]))
    && OneTop(nodes)
    && exists depth :: Ranked(nodes, depth)
  }

  /** The dictionary built from the configured rows, later rows winning. */
  function Rows(topology: seq<Node>): (r: Result<Nodes>)
    ensures r.Ok? <==> forall i :: 0 <= i < |topology| ==> Token(topology[i].id, NodeId).Ok?
    ensures r.Ok? ==> |r.value| <= |topology|
    ensures r.Ok? ==> forall i :: 0 <= i < |topology| ==> Token(topology[i].id, NodeId).value in r.value
  {
    if topology == [] then Ok(map[])
    else
      var last := |topology| - 1;
      assert topology == topology[..last] + [topology[last]];
      var rest :- Rows(topology[..last]);
      var name :- Token(topology[last].id, NodeId);
      Ok(rest[name := topology[last]])
  }

  /** Exactly the configurations the constructor lets through its tree check. */
  ghost predicate Acceptable(topology: seq<Node>) {
    && Rows(topology).Ok?
    && 1 <= |Rows(topology).value| <= 128
    && |Rows(topology).value| == |topology|
    && Tree(Rows(topology).value)
  }

  /** The parent links of a table. */
  ghost function ParentsOf(nodes: Nodes): (links: Links)
    ensures links.Keys == nodes.Keys
    ensures forall n :: n in nodes ==> links[n] == nodes[n].parent
  {
    map n | n in nodes :: nodes[n].parent
  }

  /** Climbing from n ends. */
  ghost predicate ChainEnds(nodes: Nodes, n: string) {
    exists k: nat :: Climbs(ParentsOf(nodes), n, k)
  }

  ghost predicate ChainsEnd(nodes: Nodes) {
    forall n {:trigger ChainEnds(nodes, n)} :: n in nodes ==> ChainEnds(nodes, n)
  }

  ghost function Steps(nodes: Nodes, n: string, k: nat): nat
    requires Climbs(ParentsOf(nodes), n, k)
    decreases k
  {
    if nodes[n].parent.None? then 0 else 1 + Steps(nodes, nodes[n].parent.value, k - 1)
  }

  lemma {:induction false} StepsAgree(nodes: Nodes, n: string, j: nat, k: nat)
    requires Climbs(ParentsOf(nodes), n, j) && Climbs(ParentsOf(nodes), n, k)
    ensures Steps(nodes, n, j) == Steps(nodes, n, k)
    decreases k
  {
    if nodes[n].parent.None? {
    } else {
      StepsAgree(nodes, nodes[n].parent.value, j - 1, k - 1);
    }
  }

  lemma ClimbsGiveRank(nodes: Nodes)
    requires ChainsEnd(nodes)
    ensures exists depth :: Ranked(nodes, depth)
  {
    var fuel := map n | n in nodes ::
      assert ChainEnds(nodes, n);
      var k: nat :| Climbs(ParentsOf(nodes), n, k); k;
    var depth := map n | n in nodes :: Steps(nodes, n, fuel[n]);
    forall n | n in nodes
      ensures RankedAt(nodes, depth, n)
    {
      if nodes[n].parent.Some? {
        var p := nodes[n].parent.value;
        assert Climbs(ParentsOf(nodes), p, fuel[n] - 1);
        StepsAgree(nodes, p, fuel[n] - 1, fuel[p]);
      }
    }
    assert Ranked(nodes, depth);
  }

  /** The chase of parent links from one node: refuses a repeat, an unknown or an END parent. */
  method ClimbFrom(nodes: Nodes, start: string) returns (ok: bool)
    requires start in nodes
    ensures ok ==> ChainEnds(nodes, start)
    ensures (forall n :: n in nodes ==> ParentAdmits(nodes, nodes[n])) && (exists depth :: Ranked(nodes, depth)) ==> ok
    ensures ok ==> ParentAdmits(nodes, nodes[start])
  {
    var name := start;
    var seen: set<string> := {};
    ghost var trail: seq<string> := [start];
    while nodes[name].parent.Some?
      invariant name in nodes && seen <= nodes.Keys
      invariant Upward(ParentsOf(nodes), trail) && trail[0] == start && trail[|trail| - 1] == name
      invariant forall x :: x in seen ==> x in trail[..|trail| - 1]
      invariant |trail| > 1 ==> ParentAdmits(nodes, nodes[start])
      decreases nodes.Keys - seen
    {
      var p := nodes[name].parent.value;
      if name in seen || p !in nodes {
        RepeatRefutesRank(nodes, trail);
        return false;
      }
      ExtendUp(ParentsOf(nodes), trail, p);
      assert (trail + [p])[..|trail|] == trail[..|trail| - 1] + [name];
      seen := seen + {name};
      name := p;
      trail := trail + [p];
      if nodes[name].role.End? {
        assert UpLink(ParentsOf(nodes), trail, |trail| - 2);
        assert !ParentAdmits(nodes, nodes[trail[|trail| - 2]]);
        return false;
      }
    }
    TrailClimbs(ParentsOf(nodes), trail, 0);
    return true;
  }

  lemma {:induction false} DepthFalls(nodes: Nodes, depth: map<string, nat>, trail: seq<string>, i: nat, j: nat)
    requires Ranked(nodes, depth) && Upward(ParentsOf(nodes), trail) && i <= j < |trail|
    ensures depth[trail[j]] + (j - i) == depth[trail[i]]
    decreases j - i
  {
    if i == j {
    } else {
      DepthFalls(nodes, depth, trail, i + 1, j);
      assert UpLink(ParentsOf(nodes), trail, i) && RankedAt(nodes, depth, trail[i]);
    }
  }

  lemma RepeatRefutesRank(nodes: Nodes, trail: seq<string>)
    requires Upward(ParentsOf(nodes), trail)
    requires nodes[trail[|trail| - 1]].parent.Some?
    requires trail[|trail| - 1] in trail[..|trail| - 1] || nodes[trail[|trail| - 1]].parent.value !in nodes
    ensures !exists depth :: Ranked(nodes, depth)
  {
    var last := |trail| - 1;
    forall depth | Ranked(nodes, depth)
      ensures false
    {
      assert RankedAt(nodes, depth, trail[last]);
      if trail[last] in trail[..last] {
        var i :| 0 <= i < last && trail[i] == trail[last];
        DepthFalls(nodes, depth, trail, i, last);
      }
    }
  }

  /** The constructor's check, row by row. */
  method Validate(topology: seq<Node>) returns (r: Result<Nodes>)
    ensures r == if Acceptable(topology) then Rows(topology) else Err(MalformedFrame)
  {
    var rows := Rows(topology);
    if rows.Err? || !(1 <= |rows.value| <= 128 && |rows.value| == |topology|) {
      return Err(MalformedFrame);
    }
    var nodes := rows.value;
    var rest := nodes.Keys;
    while rest != {}
      invariant rest <= nodes.Keys
      invariant forall n :: n in nodes && n !in rest ==>
                  RoleAgrees(nodes[n]) && ParentAdmits(nodes, nodes[n]) && ChainEnds(nodes, n)
      decreases rest
    {
      var name :| name in rest;
      if !RoleAgrees(nodes[name]) {
        return Err(MalformedFrame);
      }
      var ok := ClimbFrom(nodes, name);
      if !ok {
        return Err(MalformedFrame);
      }
      rest := rest - {name};
    }
    ClimbsGiveRank(nodes);
    if !OneTop(nodes) {
      return Err(MalformedFrame);
    }
    return Ok(nodes);
  }

  // ---------------------------------------------------------------------------
  // What is accepted, row by row

  ghost predicate NamesDiffer(topology: seq<Node>) {
    forall i, j {:trigger topology[i], topology[j]} :: 0 <= i < j < |topology| ==> Token(topology[i].id, NodeId) != Token(topology[j].id, NodeId)
  }

  ghost predicate NamesValid(topology: seq<Node>) {
    forall i {:trigger topology[i]} :: 0 <= i < |topology| ==> Token(topology[i].id, NodeId).Ok?
  }

  ghost predicate Listed(topology: seq<Node>, n: string) {
    exists i {:trigger topology[i]} :: 0 <= i < |topology| && Token(topology[i].id, NodeId) == Ok(n)
  }

  lemma OneMoreName(front: seq<Node>, last: Node)
    ensures NamesDiffer(front + [last]) && NamesValid(front + [last]) <==>
            NamesDiffer(front) && NamesValid(front) && Token(last.id, NodeId).Ok? && !Listed(front, Token(last.id, NodeId).value)
    ensures forall n :: Listed(front + [last], n) <==> Listed(front, n) || Token(last.id, NodeId) == Ok(n)
  {
    hide Token;
    var all := front + [last];
    assert all[|front|] == last && forall i :: 0 <= i < |front| ==> all[i] == front[i];
    forall n | Listed(front, n)
      ensures Listed(all, n)
    {
      var i :| 0 <= i < |front| && Token(front[i].id, NodeId) == Ok(n);
      assert Token(all[i].id, NodeId) == Ok(n);
    }
    if NamesDiffer(all) && NamesValid(all) {
      assert forall i :: 0 <= i < |front| ==> Token(all[i].id, NodeId) != Token(all[|front|].id, NodeId);
    }
  }

  /** The table has exactly the names of its rows, and exactly as many entries as there are rows
      when no name repeats; then each name has its row. */
  lemma {:induction false} RowsMeaning(topology: seq<Node>)
    requires NamesValid(topology)
    ensures Rows(topology).Ok?
    ensures forall n :: n in Rows(topology).value <==> Listed(topology, n)
    ensures |Rows(topology).value| == |topology| <==> NamesDiffer(topology)
    ensures NamesDiffer(topology) ==> forall i {:trigger topology[i]} :: 0 <= i < |topology| ==>
              Rows(topology).value[Token(topology[i].id, NodeId).value] == topology[i]
    decreases |topology|
  {
    hide Token;
    if topology == [] {
    } else {
      var front, last := topology[..|topology| - 1], topology[|topology| - 1];
      assert front + [last] == topology;
      assert NamesValid(front) && Token(last.id, NodeId).Ok?;
      RowsMeaning(front);
      OneMoreName(front, last);
      var name := Token(last.id, NodeId).value;
      assert Rows(topology).value == Rows(front).value[name := last];
      assert Rows(topology).value.Keys == Rows(front).value.Keys + {name};
      hide NamesDiffer, NamesValid, Rows;
      if NamesDiffer(topology) {
        forall i | 0 <= i < |topology|
          ensures Rows(topology).value[Token(topology[i].id, NodeId).value] == topology[i]
        {
          if i < |front| {
            assert front[i] == topology[i] && Token(front[i].id, NodeId).Ok?;
            assert Listed(front, Token(front[i].id, NodeId).value);
          }
        }
      }
    }
  }

  ghost predicate OnlyTop(nodes: Nodes, top: string) {
    top in nodes && nodes[top].parent == None && forall n :: n in nodes && nodes[n].parent == None ==> n == top
  }

  ghost predicate RolesStand(nodes: Nodes) {
    forall n :: n in nodes ==>
      && (nodes[n].role == Root ==> nodes[n].parent == None)
      && (nodes[n].role == End ==> nodes[n].parent != None)
      && (nodes[n].parent != None ==> nodes[n].parent.value in nodes && nodes[nodes[n].parent.value].role != End)
  }

  /** Exactly which tables are accepted: 1 to 128 rows of different valid names; one of them, and
      only one, without a parent; a ROOT without and an END with a parent; every parent listed
      and no END; and every chain of parents ends. */
  lemma AcceptableMeaning(topology: seq<Node>)
    ensures Acceptable(topology) <==>
              && 1 <= |topology| <= 128 && NamesValid(topology) && NamesDiffer(topology)
              && RolesStand(Rows(topology).value) && ChainsEnd(Rows(topology).value)
              && exists top :: OnlyTop(Rows(topology).value, top)
  {
    if NamesValid(topology) {
      RowsMeaning(topology);
      TreeMeaning(Rows(topology).value);
    }
    hide Rows, NamesDiffer, Tree, RolesStand, ChainsEnd, OnlyTop, Token;
  }

  lemma TreeMeaning(nodes: Nodes)
    ensures Tree(nodes) <==> RolesStand(nodes) && ChainsEnd(nodes) && exists top :: OnlyTop(nodes, top)
  {
    OneTopMeaning(nodes);
    ChainsEndMeaning(nodes);
    hide OneTop, OnlyTop, ChainsEnd, Ranked;
    assert RolesStand(nodes) <==> forall n :: n in nodes ==> RoleAgrees(nodes[n]) && ParentAdmits(nodes, nodes[n]);
  }

  lemma ChainsEndMeaning(nodes: Nodes)
    ensures ChainsEnd(nodes) <==> exists depth :: Ranked(nodes, depth)
  {
    if depth :| Ranked(nodes, depth) {
      forall n | n in nodes
        ensures ChainEnds(nodes, n)
      {
        RankClimbs(nodes, depth, n);
      }
    }
    if ChainsEnd(nodes) {
      ClimbsGiveRank(nodes);
    }
  }

  lemma OneTopMeaning(nodes: Nodes)
    ensures OneTop(nodes) <==> exists top :: OnlyTop(nodes, top)
  {
    var tops := set n | n in nodes && nodes[n].parent.None?;
    if OneTop(nodes) {
      var top :| top in tops;
      assert |tops - {top}| == 0;
      assert tops - {top} == {};
      forall n | n in nodes && nodes[n].parent == None
        ensures n == top
      {
        assert n in tops && n !in tops - {top};
      }
      assert OnlyTop(nodes, top);
    }
    if top :| OnlyTop(nodes, top) {
      assert tops == {top};
    }
  }

  lemma {:induction false} RankClimbs(nodes: Nodes, depth: map<string, nat>, n: string)
    requires Ranked(nodes, depth) && n in nodes
    ensures Climbs(ParentsOf(nodes), n, depth[n])
    decreases depth[n]
  {
    assert RankedAt(nodes, depth, n);
    if nodes[n].parent.None? {
    } else {
      RankClimbs(nodes, depth, nodes[n].parent.value);
    }
  }
}
