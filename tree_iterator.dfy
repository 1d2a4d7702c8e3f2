/**
 * The two cycle-safe walks over a dialogue graph: ancestor reconstruction
 * over parent links and breadth-first traversal over child links. Both keep
 * a visited set, so back-edges neither loop forever nor produce duplicates.
 */
module TreeIterator {
  import opened Wrappers
  import opened Seqs
  import opened Dicts
  import opened Dialog

  type Nodes = map<string, DialogNode>

  /** Which links a walk follows. */
  datatype Direction = Up | Down

  function Links(n: DialogNode, dir: Direction): seq<string> {
    match dir
    case Up => n.parentNodeIds
    case Down => n.childNodeIds
  }

  /** The links of the entries of `s` that are nodes, in order. */
  function AllLinks(m: Nodes, dir: Direction, s: seq<string>): seq<string>
    decreases |s|
  {
    if s == [] then []
    else AllLinks(m, dir, s[..|s| - 1]) + (if s[|s| - 1] in m then Links(m[s[|s| - 1]], dir) else [])
  }

  /** One more entry of `s`. */
  lemma AllLinksStep(m: Nodes, dir: Direction, s: seq<string>, h: nat)
    requires h < |s|
    ensures AllLinks(m, dir, s[..h + 1]) == AllLinks(m, dir, s[..h]) + (if s[h] in m then Links(m[s[h]], dir) else [])
  {
    assert s[..h + 1][..h] == s[..h];
  }

  /** Every link of an entry of `s` that is a node is among `AllLinks(m, dir, s)`. */
  lemma {:induction false} AllLinksCover(m: Nodes, dir: Direction, s: seq<string>, j: nat)
    requires j < |s| && s[j] in m
    ensures Elems(Links(m[s[j]], dir)) <= Elems(AllLinks(m, dir, s))
    decreases |s|
  {
    var k := |s| - 1;
    if j < k {
      AllLinksCover(m, dir, s[..k], j);
    }
  }

  /**
   * The entry `q[j]` was found at position `p` among the links of `q[d]`, an
   * earlier entry that is a node: it is the first occurrence there, and no
   * node listed before `q[d]` links to it.
   */
  ghost predicate FoundAt(m: Nodes, dir: Direction, q: seq<string>, j: nat, d: nat, p: nat) {
    && d < j < |q| && q[d] in m
    && p < |Links(m[q[d]], dir)| && Links(m[q[d]], dir)[p] == q[j]
    && q[j] !in Links(m[q[d]], dir)[..p]
    && q[j] !in AllLinks(m, dir, q[..d])
  }

  /** Appending to `q` keeps what `FoundAt` says of an entry already there. */
  lemma FoundAtExtend(m: Nodes, dir: Direction, q: seq<string>, c: string, j: nat, d: nat, p: nat)
    requires FoundAt(m, dir, q, j, d, p)
    ensures FoundAt(m, dir, q + [c], j, d, p)
  {
    assert (q + [c])[..d] == q[..d];
  }

  /** Discoverer `d` at position `p` comes before discoverer `d'` at position `p'`. */
  predicate Before(d: nat, p: nat, d': nat, p': nat) {
    d < d' || (d == d' && p < p')
  }

  /**
   * `q` is in breadth-first discovery order from its first `s` entries: every
   * later entry `q[j]` was found at `pos[j]` among the links of `q[disc[j]]`
   * (as `FoundAt` says), and the pairs
   * (discoverer, position) strictly increase along `q`, so entries found from
   * one node keep the order of its links.
   */
  ghost predicate DiscoveryOrder(m: Nodes, dir: Direction, q: seq<string>, disc: seq<nat>, pos: seq<nat>, s: nat) {
    && |disc| == |q| && |pos| == |q| && s <= |q|
    && (forall j {:trigger FoundAt(m, dir, q, j, disc[j], pos[j])} :: s <= j < |q| ==> FoundAt(m, dir, q, j, disc[j], pos[j]))
    && Increasing(disc, pos, s)
  }

  /** The pairs (discoverer, position) strictly increase from index `s` on. */
  ghost predicate Increasing(disc: seq<nat>, pos: seq<nat>, s: nat) {
    forall j, k {:trigger Before(disc[j], pos[j], disc[k], pos[k])} :: s <= j < k < |disc| && k < |pos| ==> Before(disc[j], pos[j], disc[k], pos[k])
  }

  /** A pair after the last one keeps the pairs increasing. */
  lemma IncreasingAppend(disc: seq<nat>, pos: seq<nat>, s: nat, h: nat, i: nat)
    requires Increasing(disc, pos, s) && |disc| == |pos|
    requires s < |disc| ==> Before(disc[|disc| - 1], pos[|pos| - 1], h, i)
    ensures Increasing(disc + [h], pos + [i], s)
  {
    var disc', pos' := disc + [h], pos + [i];
    forall j, k | s <= j < k < |disc'| && k < |pos'| ensures Before(disc'[j], pos'[j], disc'[k], pos'[k]) {
      if k < |disc| {
        assert Before(disc[j], pos[j], disc[k], pos[k]);
      } else if j < |disc| - 1 {
        assert Before(disc[j], pos[j], disc[|disc| - 1], pos[|disc| - 1]);
      }
    }
  }

  /** Appending `c`, the first occurrence at position `i` of the links of `q[h]`, keeps the order. */
  lemma DiscoverStep(m: Nodes, dir: Direction, q: seq<string>, disc: seq<nat>, pos: seq<nat>, s: nat, h: nat, i: nat, c: string)
    requires DiscoveryOrder(m, dir, q, disc, pos, s)
    requires h < |q| && q[h] in m && i < |Links(m[q[h]], dir)| && Links(m[q[h]], dir)[i] == c
    requires c !in Links(m[q[h]], dir)[..i]
    requires s < |q| ==> Before(disc[|q| - 1], pos[|q| - 1], h, i)
    requires c !in AllLinks(m, dir, q[..h])
    ensures DiscoveryOrder(m, dir, q + [c], disc + [h], pos + [i], s)
  {
    var q', disc', pos' := q + [c], disc + [h], pos + [i];
    forall j | s <= j < |q'| ensures FoundAt(m, dir, q', j, disc'[j], pos'[j]) {
      if j < |q| {
        assert disc'[j] == disc[j] && pos'[j] == pos[j];
        FoundAtExtend(m, dir, q, c, j, disc[j], pos[j]);
      } else {
        FoundAppended(m, dir, q, h, i, c);
      }
    }
    IncreasingAppend(disc, pos, s, h, i);
  }

  /** The id `c` appended to `q` as `DiscoverStep` says was found at position `i` among the links of `q[h]`. */
  lemma FoundAppended(m: Nodes, dir: Direction, q: seq<string>, h: nat, i: nat, c: string)
    requires h < |q| && q[h] in m && i < |Links(m[q[h]], dir)| && Links(m[q[h]], dir)[i] == c
    requires c !in Links(m[q[h]], dir)[..i]
    requires c !in AllLinks(m, dir, q[..h])
    ensures FoundAt(m, dir, q + [c], |q|, h, i)
  {
    assert (q + [c])[..h] == q[..h];
  }

  // ---------------------------------------------------------------------------
  // Ancestors

  /** A walk of one or more parent hops; every node it leaves from is in the map. */
  ghost predicate ParentWalk(m: Nodes, w: seq<string>) {
    |w| >= 2 && forall i :: 0 <= i < |w| - 1 ==> w[i] in m && w[i + 1] in m[w[i]].parentNodeIds
  }

  /** `x` is reached from `start` disc one or more parent hops expanding only ids of the map. */
  ghost predicate IsAncestor(m: Nodes, start: string, x: string) {
    exists w :: ParentWalk(m, w) && w[0] == start && w[|w| - 1] == x
  }

  /** Every id some node of `d` lists as a parent. */
  ghost function ParentIds(d: Dict<DialogNode>): set<string> {
    Elems(AllLinks(d.entries, Up, d.keys))
  }

  lemma AncestorStep(m: Nodes, start: string, cur: string, p: string)
    requires cur == start || IsAncestor(m, start, cur)
    requires cur in m && p in m[cur].parentNodeIds
    ensures IsAncestor(m, start, p)
  {
    if cur == start {
      var w := [start, p];
      assert ParentWalk(m, w);
    } else {
      var w :| ParentWalk(m, w) && w[0] == start && w[|w| - 1] == cur;
      var w' := w + [p];
      assert ParentWalk(m, w');
      assert w'[0] == start && w'[|w'| - 1] == p;
    }
  }

  /** Everything discovered upwards from `q[0]` is an ancestor of it. */
  lemma DiscoveredAreAncestors(m: Nodes, q: seq<string>, disc: seq<nat>, pos: seq<nat>)
    requires DiscoveryOrder(m, Up, q, disc, pos, 1)
    ensures forall j :: 1 <= j < |q| ==> IsAncestor(m, q[0], q[j])
  {
    forall j | 1 <= j < |q| ensures IsAncestor(m, q[0], q[j]) {
      DiscoveredIsAncestor(m, q, disc, pos, j);
    }
  }

  lemma {:induction false} DiscoveredIsAncestor(m: Nodes, q: seq<string>, disc: seq<nat>, pos: seq<nat>, j: nat)
    requires DiscoveryOrder(m, Up, q, disc, pos, 1)
    requires 1 <= j < |q|
    ensures IsAncestor(m, q[0], q[j])
    decreases j
  {
    var d := disc[j];
    assert FoundAt(m, Up, q, j, d, pos[j]);
    if d >= 1 {
      DiscoveredIsAncestor(m, q, disc, pos, d);
    }
    AncestorStep(m, q[0], q[d], q[j]);
  }

  /** A set holding the parents of `start` and of each of its own members that is a node holds every ancestor. */
  lemma {:induction false} AncestorsInClosedSet(m: Nodes, start: string, S: set<string>)
    requires start in m ==> forall p :: p in m[start].parentNodeIds ==> p in S
    requires forall x :: x in S && x in m ==> forall p :: p in m[x].parentNodeIds ==> p in S
    ensures forall x :: IsAncestor(m, start, x) ==> x in S
  {
    forall x | IsAncestor(m, start, x) ensures x in S {
      var w :| ParentWalk(m, w) && w[0] == start && w[|w| - 1] == x;
      var i := 1;
      while i < |w|
        invariant 1 <= i <= |w|
        invariant forall j :: 1 <= j < i ==> w[j] in S
      {
        assert w[i - 1] in m && w[i] in m[w[i - 1]].parentNodeIds;
        i := i + 1;
      }
    }
  }

  /**
   * The loop over the parents `ps` of the node being expanded: each parent not
   * yet visited is marked visited, recorded and queued, in the order of `ps`.
   */
  method VisitParents(ps: seq<string>, visited: set<string>, ancestors: seq<string>, queue: seq<string>)
    returns (visited': set<string>, ancestors': seq<string>, queue': seq<string>)
    ensures visited' == visited + Elems(Unseen(ps, visited))
    ensures ancestors' == ancestors + Unseen(ps, visited)
    ensures queue' == queue + Unseen(ps, visited)
  {
    visited', ancestors', queue' := visited, ancestors, queue;
    for i := 0 to |ps|
      invariant visited' == visited + Elems(Unseen(ps[..i], visited))
      invariant ancestors' == ancestors + Unseen(ps[..i], visited)
      invariant queue' == queue + Unseen(ps[..i], visited)
    {
      UnseenStep(ps, i, visited);
      var parentId := ps[i];
      if parentId !in visited' {
        visited' := visited' + {parentId};
        ancestors' := ancestors' + [parentId];
        queue' := queue' + [parentId];
      }
    }
    assert ps[..|ps|] == ps;
  }

  /**
   * The ids that expanding `q[h]` appends are discovered in order: each one at
   * the position of its first occurrence among the links of `q[h]`.
   */
  lemma {:induction false} BatchDiscovery(m: Nodes, dir: Direction, q: seq<string>, disc: seq<nat>, pos: seq<nat>, s: nat,
                                          h: nat, ps: seq<string>, visited: set<string>, i: nat)
    returns (q': seq<string>, disc': seq<nat>, pos': seq<nat>)
    requires h < |q| && q[h] in m && ps == Links(m[q[h]], dir) && i <= |ps|
    requires DiscoveryOrder(m, dir, q, disc, pos, s) && (s < |q| ==> disc[|q| - 1] < h)
    requires LinksSeen(m, dir, q, h, visited)
    ensures q' == q + Unseen(ps[..i], visited)
    ensures DiscoveryOrder(m, dir, q', disc', pos', s)
    ensures s < |q'| ==> Before(disc'[|q'| - 1], pos'[|q'| - 1], h, i)
    decreases i
  {
    if i == 0 {
      assert q + Unseen(ps[..0], visited) == q;
      q', disc', pos' := q, disc, pos;
    } else {
      var q0, d0, p0 := BatchDiscovery(m, dir, q, disc, pos, s, h, ps, visited, i - 1);
      q', disc', pos' := BatchStep(m, dir, q, s, h, ps, visited, i, q0, d0, p0);
    }
  }

  /** One step of `BatchDiscovery`: the link at position `i - 1` is skipped or appended. */
  lemma BatchStep(m: Nodes, dir: Direction, q: seq<string>, s: nat, h: nat, ps: seq<string>, visited: set<string>, i: nat,
                  q0: seq<string>, d0: seq<nat>, p0: seq<nat>)
    returns (q': seq<string>, disc': seq<nat>, pos': seq<nat>)
    requires h < |q| && q[h] in m && ps == Links(m[q[h]], dir) && 0 < i <= |ps|
    requires LinksSeen(m, dir, q, h, visited)
    requires q0 == q + Unseen(ps[..i - 1], visited)
    requires DiscoveryOrder(m, dir, q0, d0, p0, s)
    requires s < |q0| ==> Before(d0[|q0| - 1], p0[|q0| - 1], h, i - 1)
    ensures q' == q + Unseen(ps[..i], visited)
    ensures DiscoveryOrder(m, dir, q', disc', pos', s)
    ensures s < |q'| ==> Before(disc'[|q'| - 1], pos'[|q'| - 1], h, i)
  {
    var k := i - 1;
    if ps[k] in visited || ps[k] in Unseen(ps[..k], visited) {
      UnseenSkip(ps, k, visited);
      q', disc', pos' := q0, d0, p0;
    } else {
      q', disc', pos' := DiscoverFresh(m, dir, q, s, h, ps, visited, k, q0, d0, p0);
    }
  }

  /** The step of `BatchDiscovery` that appends the fresh id at position `i`. */
  lemma DiscoverFresh(m: Nodes, dir: Direction, q: seq<string>, s: nat, h: nat, ps: seq<string>, visited: set<string>, i: nat,
                      q0: seq<string>, d0: seq<nat>, p0: seq<nat>)
    returns (q': seq<string>, disc': seq<nat>, pos': seq<nat>)
    requires h < |q| && q[h] in m && ps == Links(m[q[h]], dir) && i < |ps|
    requires LinksSeen(m, dir, q, h, visited)
    requires q0 == q + Unseen(ps[..i], visited)
    requires DiscoveryOrder(m, dir, q0, d0, p0, s)
    requires s < |q0| ==> Before(d0[|q0| - 1], p0[|q0| - 1], h, i)
    requires ps[i] !in visited && ps[i] !in Unseen(ps[..i], visited)
    ensures q' == q + Unseen(ps[..i + 1], visited)
    ensures DiscoveryOrder(m, dir, q', disc', pos', s)
    ensures s < |q'| ==> Before(disc'[|q'| - 1], pos'[|q'| - 1], h, i + 1)
  {
    var c := ps[i];
    UnseenKeep(ps, i, visited);
    AppendAssoc(q, Unseen(ps[..i], visited), [c]);
    assert q0[h] == q[h] && q0[..h] == q[..h];
    assert c in Elems(ps);
    DiscoverStep(m, dir, q0, d0, p0, s, h, i, c);
    q', disc', pos' := q0 + [c], d0 + [h], p0 + [i];
  }

  /** Every link of `q[h]` that a node listed before `q[h]` also links to is in `visited`. */
  ghost predicate LinksSeen(m: Nodes, dir: Direction, q: seq<string>, h: nat, visited: set<string>)
    requires h < |q| && q[h] in m
  {
    Elems(AllLinks(m, dir, q[..h])) * Elems(Links(m[q[h]], dir)) <= visited
  }

  /** Expanding `q[h]` extends the closed prefix of `q` by one entry. */
  lemma ClosureStep(m: Nodes, dir: Direction, q: seq<string>, u: seq<string>, h: nat, visited: set<string>)
    requires h < |q| && Elems(AllLinks(m, dir, q[..h])) <= visited
    requires q[h] in m ==> Elems(Links(m[q[h]], dir)) <= visited
    ensures Elems(AllLinks(m, dir, (q + u)[..h + 1])) <= visited
  {
    assert (q + u)[..h + 1] == q[..h + 1];
    AllLinksStep(m, dir, q, h);
  }

  /**
   * The state of `get_ancestors` before each turn of its loop: `q` lists the
   * start and then every id recorded, in the order recorded; the first `h`
   * entries have been taken off the queue, and the rest are the queue; the
   * visited set is exactly the recorded ids; every link of an expanded node is
   * visited; the recording is in discovery order; and once the start has been
   * expanded, its own parents open the recording.
   */
  ghost predicate AncestorsState(d: Dict<DialogNode>, nodeId: string, visited: set<string>, ancestors: seq<string>, queue: seq<string>,
                                 q: seq<string>, h: nat, disc: seq<nat>, pos: seq<nat>) {
    var m := d.entries;
    && nodeId in m
    && q == [nodeId] + ancestors && h <= |q| && queue == q[h..]
    && Distinct(ancestors) && visited == Elems(ancestors) && visited <= ParentIds(d)
    && Elems(AllLinks(m, Up, q[..h])) <= visited
    && DiscoveryOrder(m, Up, q, disc, pos, 1) && (1 < |q| ==> disc[|q| - 1] < h)
    && (h == 0 ==> ancestors == [])
    && (h >= 1 ==> |Dedup(m[nodeId].parentNodeIds)| <= |ancestors|
                   && ancestors[..|Dedup(m[nodeId].parentNodeIds)|] == Dedup(m[nodeId].parentNodeIds))
  }

  /**
   * `get_ancestors(tree, node_id)`: fails when `node_id` is not a node; otherwise
   * every id reachable by one or more parent hops, once each, most distant first.
   * The ids are discovered breadth-first from `node_id` (which is not marked
   * visited, so on a cycle it is its own ancestor); ids missing from the map are
   * recorded but not expanded; the discovery order is then reversed, so the
   * node's own parents come last.
   */
  method GetAncestors(tree: DialogTree, nodeId: string) returns (r: Result<seq<string>>, ghost disc: seq<nat>, ghost pos: seq<nat>)
    ensures r.Err? <==> nodeId !in tree.nodes.entries
    ensures r.Err? ==> r.error == ValueError("Node " + nodeId + " is not found")
    ensures r.Ok? ==> Distinct(r.value)
    ensures r.Ok? ==> forall x :: x in r.value <==> IsAncestor(tree.nodes.entries, nodeId, x)
    ensures r.Ok? ==> var ps := Dedup(tree.nodes.entries[nodeId].parentNodeIds);
                      |ps| <= |r.value| && r.value[|r.value| - |ps|..] == Reverse(ps)
    ensures r.Ok? ==> DiscoveryOrder(tree.nodes.entries, Up, [nodeId] + Reverse(r.value), disc, pos, 1)
  {
    var m := tree.nodes.entries;
    if nodeId !in m {
      return Err(ValueError("Node " + nodeId + " is not found")), [], [];
    }
    var rv;
    rv, disc, pos := Ancestors(tree.nodes, nodeId);
    r := Ok(rv);
  }

  /** The ancestors of a node of the map, as `get_ancestors` lists them. */
  method Ancestors(d: Dict<DialogNode>, nodeId: string) returns (rv: seq<string>, ghost disc: seq<nat>, ghost pos: seq<nat>)
    requires nodeId in d.entries
    ensures Distinct(rv)
    ensures forall x :: x in rv <==> IsAncestor(d.entries, nodeId, x)
    ensures var ps := Dedup(d.entries[nodeId].parentNodeIds);
            |ps| <= |rv| && rv[|rv| - |ps|..] == Reverse(ps)
    ensures DiscoveryOrder(d.entries, Up, [nodeId] + Reverse(rv), disc, pos, 1)
  {
    var ancestors;
    ghost var visited, q, h;
    ancestors, visited, q, h, disc, pos := AncestorsLoop(d, nodeId);
    rv := Reverse(ancestors);
    AncestorsDone(d, nodeId, visited, ancestors, q, h, disc, pos, rv);
  }

  /** The loop of `get_ancestors`, from a queue holding only `nodeId`, returning the bookkeeping it ends with. */
  method AncestorsLoop(d: Dict<DialogNode>, nodeId: string)
    returns (ancestors: seq<string>, ghost visited: set<string>, ghost q: seq<string>, ghost h: nat,
             ghost disc: seq<nat>, ghost pos: seq<nat>)
    requires nodeId in d.entries
    ensures AncestorsState(d, nodeId, visited, ancestors, [], q, h, disc, pos)
  {
    var visited': set<string> := {};
    var queue: seq<string> := [nodeId];
    ancestors := [];
    q, h := [nodeId], 0;
    disc, pos := [0], [0];
    assert q[..0] == [];
    while queue != []
      invariant AncestorsState(d, nodeId, visited', ancestors, queue, q, h, disc, pos)
      decreases |ParentIds(d) - visited'|, |queue|
    {
      visited', ancestors, queue, q, disc, pos := TakeNext(d, nodeId, visited', ancestors, queue, q, h, disc, pos);
      h := h + 1;
    }
    visited := visited';
  }

  /**
   * One turn of the loop of `get_ancestors`: take the head of the queue and,
   * when it is a node, record and queue each of its parents not yet visited.
   */
  method TakeNext(d: Dict<DialogNode>, nodeId: string, visited: set<string>, ancestors: seq<string>, queue: seq<string>,
                  ghost q: seq<string>, ghost h: nat, ghost disc: seq<nat>, ghost pos: seq<nat>)
    returns (visited': set<string>, ancestors': seq<string>, queue': seq<string>,
             ghost q': seq<string>, ghost disc': seq<nat>, ghost pos': seq<nat>)
    requires AncestorsState(d, nodeId, visited, ancestors, queue, q, h, disc, pos) && queue != []
    ensures queue[0] in d.entries ==>
              var u := Unseen(d.entries[queue[0]].parentNodeIds, visited);
              visited' == visited + Elems(u) && ancestors' == ancestors + u && queue' == queue[1..] + u
    ensures queue[0] !in d.entries ==> visited' == visited && ancestors' == ancestors && queue' == queue[1..]
    ensures AncestorsState(d, nodeId, visited', ancestors', queue', q', h + 1, disc', pos')
    ensures if visited' == visited then |queue'| < |queue| else |ParentIds(d) - visited'| < |ParentIds(d) - visited|
  {
    var currentId := queue[0];
    var rest := queue[1..];
    if currentId in d.entries {
      var ps := d.entries[currentId].parentNodeIds;
      visited', ancestors', queue' := VisitParents(ps, visited, ancestors, rest);
      q', disc', pos' := ExpandStep(d, nodeId, visited, ancestors, queue, q, h, disc, pos);
    } else {
      visited', ancestors', queue' := visited, ancestors, rest;
      SkipStep(d, nodeId, visited, ancestors, queue, q, h, disc, pos);
      q', disc', pos' := q, disc, pos;
    }
  }

  /** Expanding the head of the queue, a node, keeps `AncestorsState` and the loop's measure decreasing. */
  lemma ExpandStep(d: Dict<DialogNode>, nodeId: string, visited: set<string>, ancestors: seq<string>, queue: seq<string>,
                   q: seq<string>, h: nat, disc: seq<nat>, pos: seq<nat>)
    returns (q': seq<string>, disc': seq<nat>, pos': seq<nat>)
    requires AncestorsState(d, nodeId, visited, ancestors, queue, q, h, disc, pos)
    requires queue != [] && queue[0] in d.entries
    ensures var u := Unseen(d.entries[queue[0]].parentNodeIds, visited);
            AncestorsState(d, nodeId, visited + Elems(u), ancestors + u, queue[1..] + u, q', h + 1, disc', pos')
    ensures var u := Unseen(d.entries[queue[0]].parentNodeIds, visited);
            if u == [] then visited + Elems(u) == visited && |queue[1..] + u| < |queue|
            else |ParentIds(d) - (visited + Elems(u))| < |ParentIds(d) - visited|
  {
    var m := d.entries;
    var ps := m[queue[0]].parentNodeIds;
    var u := Unseen(ps, visited);
    assert q[h] == queue[0];
    assert ps[..|ps|] == ps;
    q', disc', pos' := BatchDiscovery(m, Up, q, disc, pos, 1, h, ps, visited, |ps|);
    AncestorBatch(d, ps, visited, ancestors, ParentIds(d), queue[0]);
    ClosureStep(m, Up, q, u, h, visited + Elems(u));
    ExpandQueue(nodeId, ancestors, queue, q, h, u);
    ExpandPrefix(m, nodeId, visited, ancestors, queue, q, h);
    ExpandMeasure(ParentIds(d), visited, queue, u);
  }

  /** The queue and the recording both grow by the ids the expansion keeps. */
  lemma ExpandQueue(nodeId: string, ancestors: seq<string>, queue: seq<string>, q: seq<string>, h: nat, u: seq<string>)
    requires q == [nodeId] + ancestors && h < |q| && queue == q[h..]
    ensures q + u == [nodeId] + (ancestors + u) && h + 1 <= |q + u| && queue[1..] + u == (q + u)[h + 1..]
  {
    assert queue[1..] == q[h + 1..];
    assert (q + u)[h + 1..] == q[h + 1..] + u;
  }

  /** Expanding the start records its distinct parents first; later expansions only append. */
  lemma ExpandPrefix(m: Nodes, nodeId: string, visited: set<string>, ancestors: seq<string>, queue: seq<string>,
                     q: seq<string>, h: nat)
    requires nodeId in m && q == [nodeId] + ancestors && h < |q| && queue == q[h..]
    requires visited == Elems(ancestors) && queue[0] in m
    requires h == 0 ==> ancestors == []
    requires h >= 1 ==> |Dedup(m[nodeId].parentNodeIds)| <= |ancestors|
                        && ancestors[..|Dedup(m[nodeId].parentNodeIds)|] == Dedup(m[nodeId].parentNodeIds)
    ensures var A := ancestors + Unseen(m[queue[0]].parentNodeIds, visited);
            var D0 := Dedup(m[nodeId].parentNodeIds);
            |D0| <= |A| && A[..|D0|] == D0
  {
    var u := Unseen(m[queue[0]].parentNodeIds, visited);
    var D0 := Dedup(m[nodeId].parentNodeIds);
    if h == 0 {
      assert visited == {} && queue[0] == nodeId;
      UnseenNothing(m[nodeId].parentNodeIds);
      assert ancestors + u == D0;
    } else {
      assert (ancestors + u)[..|D0|] == ancestors[..|D0|];
    }
  }

  /** A walk's measure goes down after an expansion: `U` bounds the visited set. */
  lemma ExpandMeasure(U: set<string>, visited: set<string>, queue: seq<string>, u: seq<string>)
    requires queue != [] && visited + Elems(u) <= U
    requires u != [] ==> U - (visited + Elems(u)) < U - visited
    ensures if u == [] then visited + Elems(u) == visited && |queue[1..] + u| < |queue|
            else |U - (visited + Elems(u))| < |U - visited|
  {
    if u == [] {
      assert visited + Elems(u) == visited;
    } else {
      SubsetSmaller(U - (visited + Elems(u)), U - visited);
    }
  }

  /** Taking an id that is not a node off the queue keeps `AncestorsState`. */
  lemma SkipStep(d: Dict<DialogNode>, nodeId: string, visited: set<string>, ancestors: seq<string>, queue: seq<string>,
                 q: seq<string>, h: nat, disc: seq<nat>, pos: seq<nat>)
    requires AncestorsState(d, nodeId, visited, ancestors, queue, q, h, disc, pos)
    requires queue != [] && queue[0] !in d.entries
    ensures AncestorsState(d, nodeId, visited, ancestors, queue[1..], q, h + 1, disc, pos)
  {
    var m := d.entries;
    assert q[h] == queue[0];
    ClosureStep(m, Up, q, [], h, visited);
    assert q + [] == q;
  }

  /** When the queue is empty, the reversed recording has every promised property. */
  lemma AncestorsDone(d: Dict<DialogNode>, nodeId: string, visited: set<string>, ancestors: seq<string>,
                      q: seq<string>, h: nat, disc: seq<nat>, pos: seq<nat>, rv: seq<string>)
    requires AncestorsState(d, nodeId, visited, ancestors, [], q, h, disc, pos)
    requires rv == Reverse(ancestors)
    ensures Distinct(rv)
    ensures forall x :: x in rv <==> IsAncestor(d.entries, nodeId, x)
    ensures var ps := Dedup(d.entries[nodeId].parentNodeIds);
            |ps| <= |rv| && rv[|rv| - |ps|..] == Reverse(ps)
    ensures DiscoveryOrder(d.entries, Up, [nodeId] + Reverse(rv), disc, pos, 1)
  {
    assert h == |q| && q[..h] == q;
    AncestorsComplete(d.entries, nodeId, visited, ancestors, q, disc, pos);
    ReverseReverse(ancestors);
    ReverseElems(ancestors);
    ReversePrefix(ancestors, Dedup(d.entries[nodeId].parentNodeIds));
  }

  /** When every link of a recorded node is recorded, the recorded ids are exactly the ancestors. */
  lemma AncestorsComplete(m: Nodes, nodeId: string, visited: set<string>, ancestors: seq<string>,
                          q: seq<string>, disc: seq<nat>, pos: seq<nat>)
    requires q == [nodeId] + ancestors && visited == Elems(ancestors)
    requires Elems(AllLinks(m, Up, q)) <= visited
    requires DiscoveryOrder(m, Up, q, disc, pos, 1)
    ensures forall x :: x in ancestors <==> IsAncestor(m, nodeId, x)
  {
    ClosedUnderParents(m, nodeId, visited, ancestors, q);
    AncestorsInClosedSet(m, nodeId, visited);
    DiscoveredAreAncestors(m, q, disc, pos);
    forall x | x in ancestors ensures IsAncestor(m, nodeId, x) {
      var j :| 0 <= j < |ancestors| && ancestors[j] == x;
      assert q[j + 1] == x;
    }
  }

  /** The recorded ids hold the parents of the start and of each recorded node. */
  lemma ClosedUnderParents(m: Nodes, nodeId: string, visited: set<string>, ancestors: seq<string>, q: seq<string>)
    requires q == [nodeId] + ancestors && visited == Elems(ancestors)
    requires Elems(AllLinks(m, Up, q)) <= visited
    ensures nodeId in m ==> forall p :: p in m[nodeId].parentNodeIds ==> p in visited
    ensures forall x :: x in visited && x in m ==> forall p :: p in m[x].parentNodeIds ==> p in visited
  {
    if nodeId in m {
      AllLinksCover(m, Up, q, 0);
    }
    forall x | x in visited && x in m ensures forall p :: p in m[x].parentNodeIds ==> p in visited {
      var j :| 0 <= j < |ancestors| && ancestors[j] == x;
      assert q[j + 1] == x;
      AllLinksCover(m, Up, q, j + 1);
    }
  }

  /** What one batch of `VisitParents` does to the bookkeeping of `GetAncestors`. */
  lemma AncestorBatch(d: Dict<DialogNode>, ps: seq<string>, visited: set<string>, ancestors: seq<string>, U: set<string>, cur: string)
    requires Distinct(ancestors) && visited == Elems(ancestors) && visited <= U
    requires U == ParentIds(d) && cur in d.entries && ps == d.entries[cur].parentNodeIds
    ensures Distinct(ancestors + Unseen(ps, visited))
    ensures visited + Elems(Unseen(ps, visited)) == Elems(ancestors + Unseen(ps, visited))
    ensures visited + Elems(Unseen(ps, visited)) <= U
    ensures Elems(ps) <= visited + Elems(Unseen(ps, visited))
    ensures Unseen(ps, visited) != [] ==> U - (visited + Elems(Unseen(ps, visited))) < U - visited
  {
    var u := Unseen(ps, visited);
    UnseenMembers(ps, visited);
    DistinctConcat(ancestors, u);
    ElemsConcat(ancestors, u);
    ParentsBounded(d, cur);
    if u != [] {
      assert u[0] in U - visited;
    }
  }

  /** The parents of a node are among the parent ids of the map. */
  lemma ParentsBounded(d: Dict<DialogNode>, cur: string)
    requires cur in d.entries
    ensures Elems(d.entries[cur].parentNodeIds) <= ParentIds(d)
  {
    var j :| 0 <= j < |d.keys| && d.keys[j] == cur;
    AllLinksCover(d.entries, Up, d.keys, j);
  }

  /** A node without parents has no ancestors, so `get_ancestors` returns `[]` for it. */
  lemma NoParentsNoAncestors(m: Nodes, nodeId: string)
    requires nodeId in m && m[nodeId].parentNodeIds == []
    ensures forall x :: !IsAncestor(m, nodeId, x)
  {
    forall w | ParentWalk(m, w) ensures w[0] != nodeId {
      assert w[1] in m[w[0]].parentNodeIds;
    }
  }

  /** Two nodes `"a"` and `"b"`, each the parent of the other. */
  function TwoCycle(): Nodes {
    var meta := NodeMetadata(MainPath, None, None, [], []);
    map["a" := DialogNode("a", "", [], meta, ["b"], ["b"], None, None),
        "b" := DialogNode("b", "", [], meta, ["a"], ["a"], None, None)]
  }

  /**
   * The start is not marked visited, so on a cycle of parent links it is an
   * ancestor of itself and `get_ancestors` lists it.
   */
  lemma StartOnCycleIsOwnAncestor()
    ensures IsAncestor(TwoCycle(), "a", "a") && IsAncestor(TwoCycle(), "a", "b")
  {
    var m := TwoCycle();
    var w := ["a", "b", "a"];
    assert ParentWalk(m, w);
    assert ParentWalk(m, w[..2]);
  }

  /**
   * `get_ancestors(tree, node_id, return_objects=True)`: the same walk, then
   * each recorded id looked up in the map. An id some node lists as a parent
   * but which is not itself a node is recorded, so the lookup fails with a
   * `KeyError` exactly when some ancestor is missing from the map.
   */
  method GetAncestorNodes(tree: DialogTree, nodeId: string) returns (r: Result<seq<DialogNode>>, ghost ids: seq<string>)
    ensures r.Err? && r.error.ValueError? <==> nodeId !in tree.nodes.entries
    ensures r.Ok? <==> nodeId in tree.nodes.entries
                       && forall x :: IsAncestor(tree.nodes.entries, nodeId, x) ==> x in tree.nodes.entries
    ensures r.Err? && !r.error.ValueError? ==>
              r.error.KeyError? && r.error.key !in tree.nodes.entries && IsAncestor(tree.nodes.entries, nodeId, r.error.key)
    ensures r.Ok? ==> |r.value| == |ids| && Distinct(ids)
                      && (forall x :: x in ids <==> IsAncestor(tree.nodes.entries, nodeId, x))
                      && forall i :: 0 <= i < |ids| ==> ids[i] in tree.nodes.entries && r.value[i] == tree.nodes.entries[ids[i]]
  {
    var a, _, _ := GetAncestors(tree, nodeId);
    if a.Err? {
      return Err(a.error), [];
    }
    ids := a.value;
    r := NodesOf(tree.nodes.entries, a.value);
  }

  /** `[nodes[id_] for id_ in ids]`: a `KeyError` for the first id that is not a node. */
  function NodesOf(m: Nodes, ids: seq<string>): (r: Result<seq<DialogNode>>)
    ensures r.Ok? <==> forall x :: x in ids ==> x in m
    ensures r.Ok? ==> |r.value| == |ids| && forall i :: 0 <= i < |ids| ==> ids[i] in m && r.value[i] == m[ids[i]]
    ensures r.Err? ==> r.error.KeyError? && r.error.key in ids && r.error.key !in m
    ensures r.Err? ==> exists i :: 0 <= i < |ids| && ids[i] !in m && r.error == KeyError(ids[i]) && forall j :: 0 <= j < i ==> ids[j] in m
  {
    if ids == [] then Ok([])
    else if ids[0] !in m then Err(KeyError(ids[0]))
    else
      match NodesOf(m, ids[1..])
      case Ok(rest) => Ok([m[ids[0]]] + rest)
      case Err(e) =>
        assert forall j :: 1 <= j < |ids| ==> ids[j] == ids[1..][j - 1];
        Err(e)
  }

  /** Looking up one more id that is a node appends its node. */
  lemma {:induction false} NodesOfAppend(m: Nodes, ids: seq<string>, ns: seq<DialogNode>, x: string)
    requires NodesOf(m, ids) == Ok(ns) && x in m
    ensures NodesOf(m, ids + [x]) == Ok(ns + [m[x]])
    decreases |ids|
  {
    if ids == [] {
      var none: seq<DialogNode> := [];
      assert ns == none && ids + [x] == [x] && [x][1..] == [];
      assert NodesOf(m, [x][1..]) == Ok(none);
      assert [m[x]] + none == ns + [m[x]];
    } else {
      var rest := NodesOf(m, ids[1..]);
      assert rest.Ok? && ns == [m[ids[0]]] + rest.value;
      NodesOfAppend(m, ids[1..], rest.value, x);
      assert (ids + [x])[0] == ids[0] && (ids + [x])[1..] == ids[1..] + [x];
      assert [m[ids[0]]] + (rest.value + [m[x]]) == ns + [m[x]];
    }
  }

  // ---------------------------------------------------------------------------
  // Breadth-first traversal

  /** The nodes listed in `keys` that have no parents and are not `root`, in order. */
  function Orphans(m: Nodes, keys: seq<string>, root: string): seq<string>
    decreases |keys|
  {
    if keys == [] then []
    else
      var o := Orphans(m, keys[..|keys| - 1], root);
      var k := keys[|keys| - 1];
      if k in m && m[k].parentNodeIds == [] && k != root then o + [k] else o
  }

  /** One more key. */
  lemma OrphansStep(m: Nodes, keys: seq<string>, root: string, i: nat)
    requires i < |keys|
    ensures Orphans(m, keys[..i + 1], root) ==
            Orphans(m, keys[..i], root) + (if keys[i] in m && m[keys[i]].parentNodeIds == [] && keys[i] != root then [keys[i]] else [])
  {
    assert keys[..i + 1][..i] == keys[..i];
  }

  lemma {:induction false} OrphansMembers(m: Nodes, keys: seq<string>, root: string)
    ensures forall x :: x in Orphans(m, keys, root) <==> x in keys && x in m && m[x].parentNodeIds == [] && x != root
    ensures Distinct(keys) ==> Distinct(Orphans(m, keys, root))
    decreases |keys|
  {
    if keys != [] {
      var k := keys[|keys| - 1];
      var pre := keys[..|keys| - 1];
      OrphansMembers(m, pre, root);
      assert keys == pre + [k];
      assert forall x :: x in keys <==> x in pre || x == k;
      DistinctSnoc(pre, k);
      DistinctSnoc(Orphans(m, pre, root), k);
    }
  }

  /**
   * The ids `bfs` queues before its loop: the start when it is a node, and
   * nothing when it is not (the error is built but never raised); with no
   * start, the root when it is a node, then every other node without parents,
   * in key order.
   */
  function Seeds(tree: DialogTree, start: Option<string>): seq<string> {
    var m := tree.nodes.entries;
    match start
    case Some(s) => if s in m then [s] else []
    case None => (if tree.rootNodeId in m then [tree.rootNodeId] else []) + Orphans(m, tree.nodes.keys, tree.rootNodeId)
  }

  /** The seeds are distinct nodes; with no start they are the root and the parentless nodes. */
  lemma SeedsSound(tree: DialogTree, start: Option<string>)
    ensures Distinct(Seeds(tree, start))
    ensures forall x :: x in Seeds(tree, start) ==> x in tree.nodes.entries
    ensures start.Some? ==> Seeds(tree, start) == if start.value in tree.nodes.entries then [start.value] else []
    ensures start.None? ==> forall x :: x in Seeds(tree, start) <==>
              x in tree.nodes.entries && (x == tree.rootNodeId || tree.nodes.entries[x].parentNodeIds == [])
  {
    var m := tree.nodes.entries;
    var root := tree.rootNodeId;
    OrphansMembers(m, tree.nodes.keys, root);
    if start.Some? {
      assert Elems([start.value]) == {start.value};
    } else {
      var R := if root in m then [root] else [];
      assert Elems(R) == if root in m then {root} else {};
      DistinctConcat(R, Orphans(m, tree.nodes.keys, root));
    }
  }

  /** The set-up of `bfs` before its loop: the seeds queued and marked visited. */
  method SeedQueue(tree: DialogTree, start: Option<string>) returns (visited: set<string>, queue: seq<string>)
    ensures queue == Seeds(tree, start) && visited == Elems(queue)
  {
    var m := tree.nodes.entries;
    visited, queue := {}, [];
    if start.Some? {
      if start.value in m {
        queue := queue + [start.value];
        visited := visited + {start.value};
      }
    } else {
      var root := tree.rootNodeId;
      if root in m {
        queue := queue + [root];
        visited := visited + {root};
      }
      visited, queue := QueueOrphans(tree.nodes, root, visited, queue);
    }
  }

  /** The loop over `tree.nodes.items()` that queues and visits each parentless node other than the root. */
  method QueueOrphans(nodes: Dict<DialogNode>, root: string, visited: set<string>, queue: seq<string>)
    returns (visited': set<string>, queue': seq<string>)
    requires visited == Elems(queue)
    ensures queue' == queue + Orphans(nodes.entries, nodes.keys, root) && visited' == Elems(queue')
  {
    var m := nodes.entries;
    var keys := nodes.keys;
    visited', queue' := visited, queue;
    for i := 0 to |keys|
      invariant queue' == queue + Orphans(m, keys[..i], root)
      invariant visited' == Elems(queue')
    {
      OrphansStep(m, keys, root, i);
      var nodeId := keys[i];
      if m[nodeId].parentNodeIds == [] && nodeId != root {
        queue' := queue' + [nodeId];
        visited' := visited' + {nodeId};
      }
    }
    assert keys[..|keys|] == keys;
  }

  /** A walk of child hops through nodes of the map. */
  ghost predicate ChildWalk(m: Nodes, w: seq<string>) {
    && |w| >= 1
    && (forall i :: 0 <= i < |w| ==> w[i] in m)
    && (forall i :: 0 <= i < |w| - 1 ==> w[i + 1] in m[w[i]].childNodeIds)
  }

  /** `x` is a node reached from one of `seeds` by zero or more child hops through nodes. */
  ghost predicate Reachable(m: Nodes, seeds: seq<string>, x: string) {
    exists w :: ChildWalk(m, w) && w[0] in seeds && w[|w| - 1] == x
  }

  /** The ids of `cs` that are not nodes: `bfs` never queues them. */
  function Absent(m: Nodes, cs: seq<string>): set<string> {
    set x | x in cs && x !in m
  }

  /**
   * The loop over the children `cs` of the node just yielded: each child that
   * is a node and not yet visited is marked visited and queued, in the order
   * of `cs`.
   */
  method VisitChildren(m: Nodes, cs: seq<string>, visited: set<string>, queue: seq<string>)
    returns (visited': set<string>, queue': seq<string>)
    ensures visited' == visited + Elems(Unseen(cs, visited + Absent(m, cs)))
    ensures queue' == queue + Unseen(cs, visited + Absent(m, cs))
  {
    ghost var S := visited + Absent(m, cs);
    visited', queue' := visited, queue;
    for i := 0 to |cs|
      invariant visited' == visited + Elems(Unseen(cs[..i], S))
      invariant queue' == queue + Unseen(cs[..i], S)
    {
      UnseenStep(cs, i, S);
      var childId := cs[i];
      assert childId in S <==> childId in visited || childId !in m;
      if childId in m && childId !in visited' {
        visited' := visited' + {childId};
        queue' := queue' + [childId];
      }
    }
    assert cs[..|cs|] == cs;
  }

  /**
   * The state of `bfs` before each turn of its loop: `q` lists every id queued,
   * seeds first, in the order queued; the first `h` have been yielded and the
   * rest are the queue; the visited set is exactly the queued ids, all of them
   * nodes; every child of a yielded node that is a node is visited; and the
   * ids after the seeds are in discovery order.
   */
  ghost predicate BfsState(m: Nodes, seeds: seq<string>, visited: set<string>, out: seq<string>, queue: seq<string>,
                           q: seq<string>, h: nat, disc: seq<nat>, pos: seq<nat>) {
    && |seeds| <= |q| && q[..|seeds|] == seeds
    && h <= |q| && out == q[..h] && queue == q[h..]
    && Distinct(q) && visited == Elems(q) && visited <= m.Keys
    && Elems(AllLinks(m, Down, q[..h])) * m.Keys <= visited
    && DiscoveryOrder(m, Down, q, disc, pos, |seeds|) && (|seeds| < |q| ==> disc[|q| - 1] < h)
  }

  /**
   * `bfs(tree, start_node_id)`: yields (here: returns, in order) the seeds and
   * then every node reachable from them by child hops, once each, in
   * first-in-first-out order. Child ids that are not nodes are skipped. With
   * `yield_objects` the nodes themselves are yielded: `objects`.
   */
  method Bfs(tree: DialogTree, start: Option<string>) returns (r: seq<string>, objects: seq<DialogNode>, ghost disc: seq<nat>, ghost pos: seq<nat>)
    ensures |Seeds(tree, start)| <= |r| && r[..|Seeds(tree, start)|] == Seeds(tree, start)
    ensures Distinct(r)
    ensures forall x :: x in r <==> Reachable(tree.nodes.entries, Seeds(tree, start), x)
    ensures DiscoveryOrder(tree.nodes.entries, Down, r, disc, pos, |Seeds(tree, start)|)
    ensures start.Some? && start.value !in tree.nodes.entries ==> r == []
    ensures NodesOf(tree.nodes.entries, r) == Ok(objects)
  {
    var visited, queue := SeedQueue(tree, start);
    SeedsSound(tree, start);
    r, objects, disc, pos := Drain(tree.nodes.entries, visited, queue);
    if start.Some? && start.value !in tree.nodes.entries {
      AbsentStartYieldsNothing(tree, start.value, r);
    }
  }

  /**
   * `bfs` as evidently intended: a start that is not a node is reported as an
   * error instead of ending the traversal before it begins; a start that is a
   * node is yielded first.
   */
  method BfsChecked(tree: DialogTree, start: Option<string>) returns (r: Result<seq<string>>, ghost disc: seq<nat>, ghost pos: seq<nat>)
    ensures r.Err? <==> start.Some? && start.value !in tree.nodes.entries
    ensures r.Err? ==> r.error == ValueError("Node " + start.value + " is not found")
    ensures r.Ok? ==> Distinct(r.value) && forall x :: x in r.value <==> Reachable(tree.nodes.entries, Seeds(tree, start), x)
    ensures r.Ok? && start.Some? ==> |r.value| >= 1 && r.value[0] == start.value
  {
    if start.Some? && start.value !in tree.nodes.entries {
      return Err(ValueError("Node " + start.value + " is not found")), [], [];
    }
    var ids, objects;
    ids, objects, disc, pos := Bfs(tree, start);
    SeedsSound(tree, start);
    r := Ok(ids);
  }

  /**
   * The loop of `bfs`: from the queued, visited `seeds`, yield the head of the
   * queue and queue its children that are nodes and not yet visited, until
   * the queue is empty.
   */
  method Drain(m: Nodes, visited0: set<string>, seeds: seq<string>)
    returns (r: seq<string>, objects: seq<DialogNode>, ghost disc: seq<nat>, ghost pos: seq<nat>)
    requires Distinct(seeds) && visited0 == Elems(seeds) && visited0 <= m.Keys
    ensures |seeds| <= |r| && r[..|seeds|] == seeds
    ensures Distinct(r)
    ensures forall x :: x in r <==> Reachable(m, seeds, x)
    ensures DiscoveryOrder(m, Down, r, disc, pos, |seeds|)
    ensures NodesOf(m, r) == Ok(objects)
  {
    ghost var visited, q, h;
    r, objects, visited, q, h, disc, pos := DrainLoop(m, visited0, seeds);
    BfsDone(m, seeds, visited, r, q, h, disc, pos);
  }

  /** The loop of `bfs` itself, returning the bookkeeping it ends with. */
  method DrainLoop(m: Nodes, visited0: set<string>, seeds: seq<string>)
    returns (r: seq<string>, objects: seq<DialogNode>, ghost visited: set<string>, ghost q: seq<string>, ghost h: nat,
             ghost disc: seq<nat>, ghost pos: seq<nat>)
    requires Distinct(seeds) && visited0 == Elems(seeds) && visited0 <= m.Keys
    ensures BfsState(m, seeds, visited, r, [], q, h, disc, pos)
    ensures NodesOf(m, r) == Ok(objects)
  {
    var visited', queue := visited0, seeds;
    q := queue;
    h := 0;
    disc, pos := BfsStart(m, seeds, visited');
    r, objects := [], [];
    while queue != []
      invariant BfsState(m, seeds, visited', r, queue, q, h, disc, pos)
      invariant NodesOf(m, r) == Ok(objects) && |visited'| <= |m.Keys|
      decreases |m.Keys| - |visited'|, |queue|
    {
      visited', r, objects, queue, q, disc, pos := YieldNext(m, seeds, visited', r, objects, queue, q, h, disc, pos);
      h := h + 1;
    }
    visited := visited';
  }

  /** Before the loop of `bfs`: the seeds are queued and visited, and nothing is yielded yet. */
  lemma BfsStart(m: Nodes, seeds: seq<string>, visited: set<string>) returns (disc: seq<nat>, pos: seq<nat>)
    requires Distinct(seeds) && visited == Elems(seeds) && visited <= m.Keys
    ensures BfsState(m, seeds, visited, [], seeds, seeds, 0, disc, pos) && |visited| <= |m.Keys|
  {
    disc, pos := seq(|seeds|, _ => 0), seq(|seeds|, _ => 0);
    assert seeds[..0] == [] && seeds[..|seeds|] == seeds;
    BfsStateIntro(m, seeds, visited, [], seeds, seeds, 0, disc, pos);
    SubsetNoLarger(visited, m.Keys);
  }

  /**
   * One turn of the loop of `bfs`: yield the head of the queue, then queue
   * each of its children that is a node and not yet visited.
   */
  method YieldNext(m: Nodes, seeds: seq<string>, visited: set<string>, r: seq<string>, objects: seq<DialogNode>, queue: seq<string>,
                   ghost q: seq<string>, ghost h: nat, ghost disc: seq<nat>, ghost pos: seq<nat>)
    returns (visited': set<string>, r': seq<string>, objects': seq<DialogNode>, queue': seq<string>,
             ghost q': seq<string>, ghost disc': seq<nat>, ghost pos': seq<nat>)
    requires BfsState(m, seeds, visited, r, queue, q, h, disc, pos) && NodesOf(m, r) == Ok(objects)
    requires queue != []
    ensures r' == r + [queue[0]] && queue[0] in m && objects' == objects + [m[queue[0]]]
    ensures var u := Unseen(m[queue[0]].childNodeIds, visited + Absent(m, m[queue[0]].childNodeIds));
            visited' == visited + Elems(u) && queue' == queue[1..] + u
    ensures BfsState(m, seeds, visited', r', queue', q', h + 1, disc', pos') && NodesOf(m, r') == Ok(objects')
    ensures |visited'| <= |m.Keys|
    ensures if visited' == visited then |queue'| < |queue| else |visited| < |visited'|
  {
    q', disc', pos' := BfsExpand(m, seeds, visited, r, queue, q, h, disc, pos);
    var currentId := queue[0];
    var rest := queue[1..];
    var currentNode := m[currentId];
    NodesOfAppend(m, r, objects, currentId);
    r', objects' := r + [currentId], objects + [currentNode];
    visited', queue' := VisitChildren(m, currentNode.childNodeIds, visited, rest);
    SubsetNoLarger(visited', m.Keys);
    if visited' != visited {
      SubsetSmaller(visited, visited');
    }
  }

  /**
   * With a start that is not a node, nothing is reachable, so `bfs` yields
   * nothing instead of failing.
   */
  lemma AbsentStartYieldsNothing(tree: DialogTree, s: string, r: seq<string>)
    requires s !in tree.nodes.entries
    requires forall x :: x in r <==> Reachable(tree.nodes.entries, Seeds(tree, Some(s)), x)
    ensures Seeds(tree, Some(s)) == [] && r == []
  {
    if r != [] {
      assert r[0] in r;
    }
  }

  /** Yielding the head of the queue and queueing its fresh children keeps `BfsState`. */
  lemma BfsExpand(m: Nodes, seeds: seq<string>, visited: set<string>, out: seq<string>, queue: seq<string>,
                  q: seq<string>, h: nat, disc: seq<nat>, pos: seq<nat>)
    returns (q': seq<string>, disc': seq<nat>, pos': seq<nat>)
    requires BfsState(m, seeds, visited, out, queue, q, h, disc, pos)
    requires queue != []
    ensures queue[0] in m
    ensures var cs := m[queue[0]].childNodeIds;
            var u := Unseen(cs, visited + Absent(m, cs));
            && BfsState(m, seeds, visited + Elems(u), out + [queue[0]], queue[1..] + u, q', h + 1, disc', pos')
            && if u == [] then visited + Elems(u) == visited && |queue[1..] + u| < |queue|
               else |m.Keys - (visited + Elems(u))| < |m.Keys - visited|
  {
    assert q[h] == queue[0] && q[h] in visited;
    var cs := m[queue[0]].childNodeIds;
    var S := visited + Absent(m, cs);
    var u := Unseen(cs, S);
    BfsLinksSeen(m, q, h, visited, S);
    assert cs[..|cs|] == cs;
    q', disc', pos' := BatchDiscovery(m, Down, q, disc, pos, |seeds|, h, cs, S, |cs|);
    BfsNext(m, seeds, visited, out, queue, q, h, S, u, q', disc', pos');
    BfsMeasure(m, cs, q, visited, S, queue);
  }

  /** The bookkeeping of `Bfs` after yielding `q[h]` and recording the fresh children `u`. */
  lemma BfsNext(m: Nodes, seeds: seq<string>, visited: set<string>, out: seq<string>, queue: seq<string>,
                q: seq<string>, h: nat, S: set<string>, u: seq<string>, q': seq<string>, disc': seq<nat>, pos': seq<nat>)
    requires |seeds| <= |q| && q[..|seeds|] == seeds
    requires h < |q| && out == q[..h] && queue == q[h..] && q[h] in m
    requires Distinct(q) && visited == Elems(q) && visited <= m.Keys
    requires Elems(AllLinks(m, Down, q[..h])) * m.Keys <= visited
    requires S == visited + Absent(m, m[q[h]].childNodeIds) && u == Unseen(m[q[h]].childNodeIds, S)
    requires q' == q + u
    requires DiscoveryOrder(m, Down, q', disc', pos', |seeds|)
    requires |seeds| < |q'| ==> Before(disc'[|q'| - 1], pos'[|q'| - 1], h, |m[q[h]].childNodeIds|)
    ensures BfsState(m, seeds, visited + Elems(u), out + [queue[0]], queue[1..] + u, q', h + 1, disc', pos')
  {
    var cs := m[q[h]].childNodeIds;
    BfsBatch(m, cs, q, visited, S);
    BfsClosure(m, q, u, h, visited, S);
    QueueStep(q, h, queue, u);
    assert (q + u)[..|seeds|] == q[..|seeds|];
    TakeOneMore(q, u, h);
    assert queue[0] == q[h];
    BfsStateIntro(m, seeds, visited + Elems(u), out + [queue[0]], queue[1..] + u, q', h + 1, disc', pos');
  }

  /** The measure of the loop of `Bfs` goes down after each turn. */
  lemma BfsMeasure(m: Nodes, cs: seq<string>, q: seq<string>, visited: set<string>, S: set<string>, queue: seq<string>)
    requires Distinct(q) && visited == Elems(q) && visited <= m.Keys
    requires S == visited + Absent(m, cs) && queue != []
    ensures var u := Unseen(cs, S);
            if u == [] then visited + Elems(u) == visited && |queue[1..] + u| < |queue|
            else |m.Keys - (visited + Elems(u))| < |m.Keys - visited|
  {
    BfsBatch(m, cs, q, visited, S);
    ExpandMeasure(m.Keys, visited, queue, Unseen(cs, S));
  }

  /** `BfsState`, conjunct by conjunct. */
  lemma BfsStateIntro(m: Nodes, seeds: seq<string>, visited: set<string>, out: seq<string>, queue: seq<string>,
                      q: seq<string>, h: nat, disc: seq<nat>, pos: seq<nat>)
    requires |seeds| <= |q| && q[..|seeds|] == seeds
    requires h <= |q| && out == q[..h] && queue == q[h..]
    requires Distinct(q) && visited == Elems(q) && visited <= m.Keys
    requires Elems(AllLinks(m, Down, q[..h])) * m.Keys <= visited
    requires DiscoveryOrder(m, Down, q, disc, pos, |seeds|) && (|seeds| < |q| ==> disc[|q| - 1] < h)
    ensures BfsState(m, seeds, visited, out, queue, q, h, disc, pos)
  {
  }

  /** The closure of the yielded prefix, restated for the links of the next node. */
  lemma BfsLinksSeen(m: Nodes, q: seq<string>, h: nat, visited: set<string>, S: set<string>)
    requires h < |q| && q[h] in m
    requires Elems(AllLinks(m, Down, q[..h])) * m.Keys <= visited
    requires S == visited + Absent(m, m[q[h]].childNodeIds)
    ensures LinksSeen(m, Down, q, h, S)
  {
  }

  /** What one batch of `VisitChildren` does to the bookkeeping of `Bfs`. */
  lemma BfsBatch(m: Nodes, cs: seq<string>, q: seq<string>, visited: set<string>, S: set<string>)
    requires Distinct(q) && visited == Elems(q) && visited <= m.Keys
    requires S == visited + Absent(m, cs)
    ensures Distinct(q + Unseen(cs, S))
    ensures visited + Elems(Unseen(cs, S)) == Elems(q + Unseen(cs, S))
    ensures visited + Elems(Unseen(cs, S)) <= m.Keys
    ensures Elems(cs) * m.Keys <= visited + Elems(Unseen(cs, S))
    ensures Unseen(cs, S) != [] ==> m.Keys - (visited + Elems(Unseen(cs, S))) < m.Keys - visited
  {
    var u := Unseen(cs, S);
    UnseenMembers(cs, S);
    DistinctConcat(q, u);
    ElemsConcat(q, u);
    forall x | x in Elems(u) ensures x in m.Keys {
      assert x !in Absent(m, cs);
    }
    forall x | x in Elems(cs) * m.Keys ensures x in visited + Elems(u) {
      assert x !in Absent(m, cs);
    }
    if u != [] {
      assert u[0] in m.Keys - visited;
    }
  }

  /** Yielding `q[h]` extends the closed prefix by one entry. */
  lemma BfsClosure(m: Nodes, q: seq<string>, u: seq<string>, h: nat, visited: set<string>, S: set<string>)
    requires h < |q| && q[h] in m && Elems(AllLinks(m, Down, q[..h])) * m.Keys <= visited
    requires S == visited + Absent(m, m[q[h]].childNodeIds) && u == Unseen(m[q[h]].childNodeIds, S)
    ensures Elems(AllLinks(m, Down, (q + u)[..h + 1])) * m.Keys <= visited + Elems(u)
  {
    UnseenMembers(m[q[h]].childNodeIds, S);
    assert (q + u)[..h + 1] == q[..h + 1];
    AllLinksStep(m, Down, q, h);
  }

  /** The first `h + 1` entries of `q + u`, when `q` has that many. */
  lemma TakeOneMore(q: seq<string>, u: seq<string>, h: nat)
    requires h < |q|
    ensures (q + u)[..h + 1] == q[..h] + [q[h]]
  {
    assert (q + u)[..h + 1] == q[..h + 1];
  }

  /** Taking the head off the queue and appending `u` to both the queue and the recording. */
  lemma QueueStep(q: seq<string>, h: nat, queue: seq<string>, u: seq<string>)
    requires h < |q| && queue == q[h..]
    ensures h + 1 <= |q + u| && queue[1..] + u == (q + u)[h + 1..]
  {
    assert queue[1..] == q[h + 1..];
    assert (q + u)[h + 1..] == q[h + 1..] + u;
  }

  /** When the queue is empty, the yielded ids have every promised property. */
  lemma BfsDone(m: Nodes, seeds: seq<string>, visited: set<string>, r: seq<string>,
                q: seq<string>, h: nat, disc: seq<nat>, pos: seq<nat>)
    requires BfsState(m, seeds, visited, r, [], q, h, disc, pos)
    ensures |seeds| <= |r| && r[..|seeds|] == seeds
    ensures Distinct(r)
    ensures forall x :: x in r <==> Reachable(m, seeds, x)
    ensures DiscoveryOrder(m, Down, r, disc, pos, |seeds|)
  {
    assert h == |q| && q[..h] == q && r == q;
    forall x | Reachable(m, seeds, x) ensures x in q {
      var w :| ChildWalk(m, w) && w[0] in seeds && w[|w| - 1] == x;
      WalkStaysInClosed(m, seeds, q, w);
    }
    forall j | 0 <= j < |q| ensures Reachable(m, seeds, q[j]) {
      DiscoveredIsReachable(m, seeds, q, disc, pos, j);
    }
  }

  /** A child walk that starts among the seeds never leaves a closed recording. */
  lemma WalkStaysInClosed(m: Nodes, seeds: seq<string>, q: seq<string>, w: seq<string>)
    requires |seeds| <= |q| && q[..|seeds|] == seeds
    requires Elems(AllLinks(m, Down, q)) * m.Keys <= Elems(q)
    requires ChildWalk(m, w) && w[0] in seeds
    ensures w[|w| - 1] in q
  {
    var k := 0;
    var j0 :| 0 <= j0 < |seeds| && seeds[j0] == w[0];
    assert q[j0] == w[0];
    while k < |w| - 1
      invariant 0 <= k < |w| && w[k] in q
    {
      var j :| 0 <= j < |q| && q[j] == w[k];
      AllLinksCover(m, Down, q, j);
      var c := w[k + 1];
      assert c in Elems(Links(m[q[j]], Down)) && c in m;
      assert c in Elems(AllLinks(m, Down, q)) * m.Keys;
      assert c in Elems(q);
      k := k + 1;
    }
  }

  /** Every recorded id is reached from a seed. */
  lemma {:induction false} DiscoveredIsReachable(m: Nodes, seeds: seq<string>, q: seq<string>, disc: seq<nat>, pos: seq<nat>, j: nat)
    requires |seeds| <= |q| && q[..|seeds|] == seeds && Elems(q) <= m.Keys
    requires DiscoveryOrder(m, Down, q, disc, pos, |seeds|)
    requires j < |q|
    ensures Reachable(m, seeds, q[j])
    decreases j
  {
    if j < |seeds| {
      var w := [q[j]];
      assert q[j] == seeds[j];
      assert ChildWalk(m, w);
    } else {
      var d := disc[j];
      assert FoundAt(m, Down, q, j, d, pos[j]);
      assert q[j] in m[q[d]].childNodeIds && q[j] in Elems(q);
      DiscoveredIsReachable(m, seeds, q, disc, pos, d);
      ReachableStep(m, seeds, q[d], q[j]);
    }
  }

  /** One more child hop to a node. */
  lemma ReachableStep(m: Nodes, seeds: seq<string>, p: string, c: string)
    requires Reachable(m, seeds, p) && p in m && c in m && c in m[p].childNodeIds
    ensures Reachable(m, seeds, c)
  {
    var w :| ChildWalk(m, w) && w[0] in seeds && w[|w| - 1] == p;
    var w' := w + [c];
    assert ChildWalk(m, w');
    assert w'[0] in seeds && w'[|w'| - 1] == c;
  }
}
