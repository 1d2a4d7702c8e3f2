/**
 * Structure generation: one language-model call returns a decoded JSON
 * document describing the graph, and `_structure_tree` turns it into a
 * `DialogTree`, applying the record defaults and checking nothing about how
 * the nodes refer to each other. Along the way it overwrites the "metadata"
 * slot of every entry it visits with the constructed `NodeMetadata`, so the
 * document it was handed is changed in place.
 */
module TreeGenerator {
  import opened Wrappers
  import opened Seqs
  import opened Dicts
  import opened Dialog
  import opened Llm

  /** What an entry holds under "metadata": a JSON object, or a record a previous pass stored there. */
  datatype MetaValue = RawMeta(fields: MetadataFields) | BuiltMeta(meta: NodeMetadata)

  /**
   * One entry of the document's "nodes" object. Only its "metadata" slot is
   * ever written; the other keys are the keyword arguments of the node constructor.
   */
  datatype NodeInfo = NodeInfo(
    nodeId: Option<string>,
    npcText: Option<string>,
    choices: Option<seq<Choice>>,
    parentNodeIds: Option<seq<string>>,
    childNodeIds: Option<seq<string>>,
    narrativeSummary: Option<string>,
    playerGoalHint: Option<string>,
    metadata: Option<MetaValue>)

  /** The decoded document: "nodes", "root_node_id" and "goal_achievement_paths", each possibly absent. */
  datatype Payload = Payload(
    nodes: Option<Dict<NodeInfo>>,
    rootNodeId: Option<string>,
    goalAchievementPaths: Option<seq<seq<string>>>)

  /** The decoded document as the structuring step holds it: its "nodes" object is updated in place. */
  class GeneratedTree {
    var nodes: Option<Dict<NodeInfo>>
    const rootNodeId: Option<string>
    const goalAchievementPaths: Option<seq<seq<string>>>

    constructor (p: Payload)
      ensures nodes == p.nodes && rootNodeId == p.rootNodeId && goalAchievementPaths == p.goalAchievementPaths
    {
      nodes := p.nodes;
      rootNodeId := p.rootNodeId;
      goalAchievementPaths := p.goalAchievementPaths;
    }
  }

  /**
   * `NodeMetadata(**node_info.get("metadata", {}))`: an absent slot gives the
   * default record; a JSON object is validated; a record stored by an earlier
   * pass is not a mapping, so unpacking it is a `TypeError`.
   */
  function ConvertMetadata(meta: Option<MetaValue>): (r: Result<NodeMetadata>)
    ensures meta.None? ==> r == Ok(NodeMetadata(MainPath, None, None, [], []))
    ensures meta.Some? && meta.value.BuiltMeta? ==> r.Err? && r.error.TypeError?
    ensures meta.Some? && meta.value.RawMeta? ==> r == NewNodeMetadata(meta.value.fields)
  {
    match meta
    case None => NewNodeMetadata(NoMetadataFields)
    case Some(RawMeta(f)) => NewNodeMetadata(f)
    case Some(BuiltMeta(_)) => Err(TypeError("argument after ** must be a mapping"))
  }

  /** The keyword arguments of `DialogNode(**node_info)` once "metadata" holds `md`. */
  function FieldsOf(info: NodeInfo, md: NodeMetadata): NodeFields {
    NodeFields(info.nodeId, info.npcText, info.choices, Some(md), info.parentNodeIds, info.childNodeIds,
               info.narrativeSummary, info.playerGoalHint)
  }

  /** The node an entry becomes, or the error it raises. */
  function EntryNode(info: NodeInfo): Result<DialogNode> {
    match ConvertMetadata(info.metadata)
    case Err(e) => Err(e)
    case Ok(md) => NewDialogNode(FieldsOf(info, md))
  }

  /** The entry once visited: "metadata" holds the record when conversion succeeded, and is untouched otherwise. */
  function Visit(info: NodeInfo): NodeInfo {
    match ConvertMetadata(info.metadata)
    case Ok(md) => info.(metadata := Some(BuiltMeta(md)))
    case Err(_) => info
  }

  /** What each entry becomes, in key order. */
  function Outcomes(d: Dict<NodeInfo>): (rs: seq<Result<DialogNode>>)
    ensures |rs| == |d.keys|
  {
    seq(|d.keys|, j requires 0 <= j < |d.keys| => EntryNode(d.entries[d.keys[j]]))
  }

  /** Outcome `j` is what the entry under the `j`-th key becomes. */
  lemma OutcomeAt(d: Dict<NodeInfo>, j: nat)
    requires j < |d.keys|
    ensures Outcomes(d)[j] == EntryNode(d.entries[d.keys[j]])
  {
  }

  /** The first outcome from `j` on that is an error, or the number of outcomes when none is. */
  function FirstFailure<V>(rs: seq<Result<V>>, j: nat): (s: nat)
    requires j <= |rs|
    ensures j <= s <= |rs|
    ensures forall k :: j <= k < s ==> rs[k].Ok?
    ensures s < |rs| ==> rs[s].Err?
    decreases |rs| - j
  {
    if j == |rs| then j
    else if rs[j].Err? then j
    else FirstFailure(rs, j + 1)
  }

  /**
   * The loop of `_structure_tree` over the first `n` keys: the dictionary of
   * the values built so far, or the first error.
   */
  function BuildNodes<V>(keys: seq<string>, rs: seq<Result<V>>, n: nat): Result<Dict<V>>
    requires n <= |keys| == |rs|
  {
    if n == 0 then Ok(Empty())
    else
      match BuildNodes(keys, rs, n - 1)
      case Err(e) => Err(e)
      case Ok(nodes) =>
        match rs[n - 1]
        case Err(e) => Err(e)
        case Ok(node) => Ok(Assign(nodes, keys[n - 1], node))
  }

  /** The entries of the "nodes" object once its first `n` entries have been visited. */
  function Visited(d: Dict<NodeInfo>, n: nat): (v: map<string, NodeInfo>)
    requires n <= |d.keys|
    ensures v.Keys == d.entries.Keys
  {
    if n == 0 then d.entries
    else
      var k := d.keys[n - 1];
      Visited(d, n - 1)[k := Visit(d.entries[k])]
  }

  /** The "nodes" object after `_structure_tree`: every entry up to and including the first failing one was visited. */
  function Converted(d: Dict<NodeInfo>): (c: Dict<NodeInfo>)
    ensures c.keys == d.keys
  {
    var s := FirstFailure(Outcomes(d), 0);
    DictRep(d.keys, Visited(d, if s < |d.keys| then s + 1 else s))
  }

  /** What `_structure_tree` returns for the document `p`. */
  function Structure(p: Payload): Result<DialogTree> {
    var d := p.nodes.GetOr(Empty());
    match BuildNodes(d.keys, Outcomes(d), |d.keys|)
    case Err(e) => Err(e)
    case Ok(nodes) =>
      if p.rootNodeId.None? then Err(KeyError("root_node_id"))
      else Ok(DialogTree(p.rootNodeId.value, nodes, Some(p.goalAchievementPaths.GetOr([]))))
  }

  /** The document's "nodes" slot after `_structure_tree`; an absent one stays absent. */
  function ConvertedNodes(nodes: Option<Dict<NodeInfo>>): Option<Dict<NodeInfo>> {
    match nodes
    case None => None
    case Some(d) => Some(Converted(d))
  }

  /** `_structure_tree(generated_tree)`. */
  method StructureTree(g: GeneratedTree) returns (r: Result<DialogTree>)
    modifies g
    ensures r == Structure(Payload(old(g.nodes), g.rootNodeId, g.goalAchievementPaths))
    ensures g.nodes == ConvertedNodes(old(g.nodes))
  {
    var nodes: Result<Dict<DialogNode>>;
    if g.nodes.None? {
      nodes := Ok(Empty());
    } else {
      nodes := StructureNodes(g);
    }
    if nodes.Err? {
      return Err(nodes.error);
    }
    if g.rootNodeId.None? {
      return Err(KeyError("root_node_id"));
    }
    r := Ok(DialogTree(g.rootNodeId.value, nodes.value, Some(g.goalAchievementPaths.GetOr([]))));
  }

  /** The loop of `_structure_tree` over the entries of the "nodes" object, in key order. */
  method StructureNodes(g: GeneratedTree) returns (r: Result<Dict<DialogNode>>)
    requires g.nodes.Some?
    modifies g
    ensures r == BuildNodes(old(g.nodes.value).keys, Outcomes(old(g.nodes.value)), |old(g.nodes.value).keys|)
    ensures g.nodes == Some(Converted(old(g.nodes.value)))
  {
    ghost var d := g.nodes.value;
    ghost var rs := Outcomes(d);
    var keys := g.nodes.value.keys;
    var nodes := Empty<DialogNode>();
    for i := 0 to |keys|
      invariant keys == d.keys
      invariant g.nodes == Some(DictRep(d.keys, Visited(d, i)))
      invariant BuildNodes(keys, rs, i) == Ok(nodes)
    {
      var key := keys[i];
      var info := g.nodes.value.entries[key];
      VisitedAt(d, i, i);
      OutcomeAt(d, i);
      var md := ConvertMetadata(info.metadata);
      if md.Err? {
        FailAt(keys, rs, i);
        SkipStep(d, i, g.nodes.value);
        ConvertedAfter(d, i + 1);
        return Err(md.error);
      }
      VisitStep(d, i, g.nodes.value, md.value);
      g.nodes := Some(Assign(g.nodes.value, key, info.(metadata := Some(BuiltMeta(md.value)))));
      var node := NewDialogNode(FieldsOf(info, md.value));
      if node.Err? {
        FailAt(keys, rs, i);
        ConvertedAfter(d, i + 1);
        return Err(node.error);
      }
      nodes := Assign(nodes, key, node.value);
    }
    DoneAt(keys, rs);
    ConvertedAfter(d, |keys|);
    r := Ok(nodes);
  }

  /** Visiting entry `i` stores its record: the object is then the one with `i + 1` entries visited. */
  lemma VisitStep(d: Dict<NodeInfo>, i: nat, cur: Dict<NodeInfo>, md: NodeMetadata)
    requires i < |d.keys| && cur == DictRep(d.keys, Visited(d, i))
    requires ConvertMetadata(cur.entries[d.keys[i]].metadata) == Ok(md)
    ensures Assign(cur, d.keys[i], cur.entries[d.keys[i]].(metadata := Some(BuiltMeta(md)))) == DictRep(d.keys, Visited(d, i + 1))
  {
    VisitedAt(d, i, i);
  }

  /** Entry `i` whose metadata does not convert is left as it is. */
  lemma SkipStep(d: Dict<NodeInfo>, i: nat, cur: Dict<NodeInfo>)
    requires i < |d.keys| && cur == DictRep(d.keys, Visited(d, i))
    requires ConvertMetadata(cur.entries[d.keys[i]].metadata).Err?
    ensures cur == DictRep(d.keys, Visited(d, i + 1))
  {
    VisitedAt(d, i, i);
    var m := Visited(d, i);
    assert m[d.keys[i] := m[d.keys[i]]] == m;
  }

  /** The loop stops after `n` entries: the object is the one with `n` entries visited. */
  lemma ConvertedAfter(d: Dict<NodeInfo>, n: nat)
    requires n <= |d.keys|
    requires var s := FirstFailure(Outcomes(d), 0); (s < |d.keys| && n == s + 1) || (s == |d.keys| && n == s)
    ensures Converted(d) == DictRep(d.keys, Visited(d, n))
  {
  }

  /** Outcome `i` is the first error: the whole build fails with it, and `FirstFailure` finds it. */
  lemma FailAt<V>(keys: seq<string>, rs: seq<Result<V>>, i: nat)
    requires i < |keys| == |rs| && Distinct(keys) && BuildNodes(keys, rs, i).Ok? && rs[i].Err?
    ensures BuildNodes(keys, rs, |keys|) == Err(rs[i].error)
    ensures FirstFailure(rs, 0) == i
  {
    BuildNodesSticky(keys, rs, i, |keys|);
    BuildNodesValues(keys, rs, i);
    FirstFailureAt(rs, 0, i);
  }

  /** Every outcome built: `FirstFailure` finds none. */
  lemma DoneAt<V>(keys: seq<string>, rs: seq<Result<V>>)
    requires |keys| == |rs| && Distinct(keys) && BuildNodes(keys, rs, |keys|).Ok?
    ensures FirstFailure(rs, 0) == |rs|
  {
    BuildNodesValues(keys, rs, |keys|);
    FirstFailureNone(rs, 0);
  }

  /** Once `n` entries are visited, exactly the entries before `n` are replaced by their visited form. */
  lemma {:induction false} VisitedAt(d: Dict<NodeInfo>, n: nat, j: nat)
    requires n <= |d.keys| && j < |d.keys|
    ensures Visited(d, n)[d.keys[j]] == if j < n then Visit(d.entries[d.keys[j]]) else d.entries[d.keys[j]]
  {
    if n > 0 {
      VisitedAt(d, n - 1, j);
      if j != n - 1 {
        DistinctAt(d.keys, j, n - 1);
      }
    }
  }

  /** A prefix whose outcomes are all values builds. */
  lemma {:induction false} AllBuild<V>(keys: seq<string>, rs: seq<Result<V>>, n: nat)
    requires n <= |keys| == |rs|
    requires forall j :: 0 <= j < n ==> rs[j].Ok?
    ensures BuildNodes(keys, rs, n).Ok?
  {
    if n > 0 {
      AllBuild(keys, rs, n - 1);
      BuildsExtend(keys, rs, n);
    }
  }

  /** A prefix builds exactly when the shorter one does and its last outcome is a value. */
  lemma BuildsExtend<V>(keys: seq<string>, rs: seq<Result<V>>, n: nat)
    requires 0 < n <= |keys| == |rs|
    ensures BuildNodes(keys, rs, n).Ok? <==> BuildNodes(keys, rs, n - 1).Ok? && rs[n - 1].Ok?
  {
  }

  /** With no error from `j` on, `FirstFailure` reaches the end. */
  lemma {:induction false} FirstFailureNone<V>(rs: seq<Result<V>>, j: nat)
    requires j <= |rs|
    requires forall k :: j <= k < |rs| ==> rs[k].Ok?
    ensures FirstFailure(rs, j) == |rs|
    decreases |rs| - j
  {
    if j < |rs| {
      FirstFailureNone(rs, j + 1);
    }
  }

  /** With the first error at `i`, `FirstFailure` finds it. */
  lemma {:induction false} FirstFailureAt<V>(rs: seq<Result<V>>, j: nat, i: nat)
    requires j <= i < |rs|
    requires forall k :: j <= k < i ==> rs[k].Ok?
    requires rs[i].Err?
    ensures FirstFailure(rs, j) == i
    decreases i - j
  {
    if j < i {
      FirstFailureAt(rs, j + 1, i);
    }
  }

  /** Once an outcome is an error, every longer prefix fails with it. */
  lemma {:induction false} BuildNodesSticky<V>(keys: seq<string>, rs: seq<Result<V>>, i: nat, n: nat)
    requires i < n <= |keys| == |rs|
    requires BuildNodes(keys, rs, i).Ok? && rs[i].Err?
    ensures BuildNodes(keys, rs, n) == Err(rs[i].error)
    decreases n
  {
    if n > i + 1 {
      BuildNodesSticky(keys, rs, i, n - 1);
      StickyStep(keys, rs, n, rs[i].error);
    } else {
      FailsNext(keys, rs, i);
    }
  }

  /** A prefix that fails with `e` makes the next longer prefix fail with `e`. */
  lemma StickyStep<V>(keys: seq<string>, rs: seq<Result<V>>, n: nat, e: Error)
    requires 0 < n <= |keys| == |rs| && BuildNodes(keys, rs, n - 1) == Err(e)
    ensures BuildNodes(keys, rs, n) == Err(e)
  {
  }

  /** A failing outcome after a prefix that builds makes the next prefix fail with it. */
  lemma FailsNext<V>(keys: seq<string>, rs: seq<Result<V>>, i: nat)
    requires i < |keys| == |rs| && BuildNodes(keys, rs, i).Ok? && rs[i].Err?
    ensures BuildNodes(keys, rs, i + 1) == Err(rs[i].error)
  {
  }

  /** A prefix that builds is the shorter prefix with one more key stored. */
  lemma BuildNodesLast<V>(keys: seq<string>, rs: seq<Result<V>>, n: nat)
    requires 0 < n <= |keys| == |rs| && BuildNodes(keys, rs, n).Ok?
    ensures BuildNodes(keys, rs, n - 1).Ok? && rs[n - 1].Ok?
    ensures BuildNodes(keys, rs, n).value == Assign(BuildNodes(keys, rs, n - 1).value, keys[n - 1], rs[n - 1].value)
  {
  }

  /** A prefix that builds has its keys in key order. */
  lemma {:induction false} BuildNodesKeys<V>(keys: seq<string>, rs: seq<Result<V>>, n: nat)
    requires n <= |keys| == |rs| && Distinct(keys) && BuildNodes(keys, rs, n).Ok?
    ensures BuildNodes(keys, rs, n).value.keys == keys[..n]
  {
    if n > 0 {
      BuildNodesLast(keys, rs, n);
      BuildNodesKeys(keys, rs, n - 1);
      DistinctLast(keys, n);
      StoreNewKey(BuildNodes(keys, rs, n - 1).value, keys, n, rs[n - 1].value);
    }
  }

  /** Storing the next key of `keys` after the first `n - 1` extends them to the first `n`. */
  lemma StoreNewKey<V>(prev: Dict<V>, keys: seq<string>, n: nat, v: V)
    requires 0 < n <= |keys| && prev.keys == keys[..n - 1] && keys[n - 1] !in keys[..n - 1]
    ensures Assign(prev, keys[n - 1], v).keys == keys[..n]
  {
    assert keys[..n] == keys[..n - 1] + [keys[n - 1]];
  }

  /** A prefix that builds maps each of its keys to that key's value. */
  lemma {:induction false} BuildNodesValues<V>(keys: seq<string>, rs: seq<Result<V>>, n: nat)
    requires n <= |keys| == |rs| && Distinct(keys) && BuildNodes(keys, rs, n).Ok?
    ensures forall j :: 0 <= j < n ==>
      rs[j].Ok? && keys[j] in BuildNodes(keys, rs, n).value.entries && BuildNodes(keys, rs, n).value.entries[keys[j]] == rs[j].value
  {
    if n > 0 {
      BuildNodesLast(keys, rs, n);
      BuildNodesValues(keys, rs, n - 1);
      StoreKeepsValues(BuildNodes(keys, rs, n - 1).value, keys, rs, n);
    }
  }

  /** Storing the value of the `n`-th key keeps the values stored for the keys before it. */
  lemma StoreKeepsValues<V>(prev: Dict<V>, keys: seq<string>, rs: seq<Result<V>>, n: nat)
    requires 0 < n <= |keys| == |rs| && Distinct(keys) && rs[n - 1].Ok?
    requires forall j :: 0 <= j < n - 1 ==> rs[j].Ok? && keys[j] in prev.entries && prev.entries[keys[j]] == rs[j].value
    ensures var cur := Assign(prev, keys[n - 1], rs[n - 1].value);
      forall j :: 0 <= j < n ==> rs[j].Ok? && keys[j] in cur.entries && cur.entries[keys[j]] == rs[j].value
  {
    var cur := Assign(prev, keys[n - 1], rs[n - 1].value);
    forall j | 0 <= j < n
      ensures rs[j].Ok? && keys[j] in cur.entries && cur.entries[keys[j]] == rs[j].value
    {
      if j < n - 1 {
        DistinctAt(keys, j, n - 1);
      }
    }
  }

  /**
   * What `_structure_tree` promises: it fails exactly when some entry fails
   * (the first one's error wins) or, every entry having built, the root id is
   * absent; otherwise the graph has the document's root, one node per key in
   * key order, each node the one its entry builds, and the goal paths
   * defaulting to none.
   */
  lemma StructureSpec(p: Payload)
    ensures var d := p.nodes.GetOr(Empty()); var s := FirstFailure(Outcomes(d), 0);
      && (Structure(p).Ok? <==> s == |d.keys| && p.rootNodeId.Some?)
      && (s < |d.keys| ==> Structure(p) == Err(EntryNode(d.entries[d.keys[s]]).error))
      && (s == |d.keys| && p.rootNodeId.None? ==> Structure(p) == Err(KeyError("root_node_id")))
  {
    var d := p.nodes.GetOr(Empty());
    var rs := Outcomes(d);
    var s := FirstFailure(rs, 0);
    if s < |d.keys| {
      AllBuild(d.keys, rs, s);
      FailAt(d.keys, rs, s);
      OutcomeAt(d, s);
    } else {
      AllBuild(d.keys, rs, |d.keys|);
    }
  }

  /** Where `_structure_tree` succeeds, each key's node is the one its entry builds. */
  lemma StructureNodesSpec(p: Payload)
    requires Structure(p).Ok?
    ensures var d := p.nodes.GetOr(Empty()); var t := Structure(p).value;
      && t.rootNodeId == p.rootNodeId.value
      && t.goalAchievementPaths == Some(p.goalAchievementPaths.GetOr([]))
      && t.nodes.keys == d.keys
      && forall k :: k in d.entries ==> EntryNode(d.entries[k]).Ok? && t.nodes.entries[k] == EntryNode(d.entries[k]).value
  {
    var d := p.nodes.GetOr(Empty());
    var rs := Outcomes(d);
    BuildNodesKeys(d.keys, rs, |d.keys|);
    BuildNodesValues(d.keys, rs, |d.keys|);
    assert d.keys[..|d.keys|] == d.keys;
    ByKey(d, BuildNodes(d.keys, rs, |d.keys|).value);
  }

  /** Node values stored position by position are the ones the entries build, key by key. */
  lemma ByKey(d: Dict<NodeInfo>, nodes: Dict<DialogNode>)
    requires forall j :: 0 <= j < |d.keys| ==>
      Outcomes(d)[j].Ok? && d.keys[j] in nodes.entries && nodes.entries[d.keys[j]] == Outcomes(d)[j].value
    ensures forall k :: k in d.entries ==> EntryNode(d.entries[k]).Ok? && nodes.entries[k] == EntryNode(d.entries[k]).value
  {
    forall k | k in d.entries
      ensures EntryNode(d.entries[k]).Ok? && nodes.entries[k] == EntryNode(d.entries[k]).value
    {
      var j := KeyIndex(d, k);
      OutcomeAt(d, j);
    }
  }


  /**
   * What `_structure_tree` leaves in the document: the same keys, every entry
   * up to and including the first failing one visited, the later ones untouched.
   */
  lemma ConvertedSpec(d: Dict<NodeInfo>)
    ensures var s := FirstFailure(Outcomes(d), 0);
      && Converted(d).keys == d.keys
      && forall j :: 0 <= j < |d.keys| ==>
           Converted(d).entries[d.keys[j]] == if j <= s then Visit(d.entries[d.keys[j]]) else d.entries[d.keys[j]]
  {
    var s := FirstFailure(Outcomes(d), 0);
    var n := if s < |d.keys| then s + 1 else s;
    ConvertedAfter(d, n);
    forall j | 0 <= j < |d.keys|
      ensures Converted(d).entries[d.keys[j]] == if j <= s then Visit(d.entries[d.keys[j]]) else d.entries[d.keys[j]]
    {
      VisitedAt(d, n, j);
    }
  }

  /** After a successful pass, each entry's "metadata" slot holds exactly the record of the node built from it. */
  lemma RecordsStored(d: Dict<NodeInfo>, nodes: Dict<DialogNode>)
    requires BuildNodes(d.keys, Outcomes(d), |d.keys|) == Ok(nodes)
    ensures forall k :: k in d.entries ==>
      k in nodes.entries && Converted(d).entries[k] == d.entries[k].(metadata := Some(BuiltMeta(nodes.entries[k].metadata)))
  {
    var rs := Outcomes(d);
    BuildNodesValues(d.keys, rs, |d.keys|);
    FirstFailureNone(rs, 0);
    ConvertedSpec(d);
    forall k | k in d.entries
      ensures k in nodes.entries && Converted(d).entries[k] == d.entries[k].(metadata := Some(BuiltMeta(nodes.entries[k].metadata)))
    {
      var j := KeyIndex(d, k);
      OutcomeAt(d, j);
      RecordOf(d.entries[k], nodes.entries[k]);
    }
  }

  /** An entry that builds a node is visited into one holding that node's record. */
  lemma RecordOf(info: NodeInfo, node: DialogNode)
    requires EntryNode(info) == Ok(node)
    ensures Visit(info) == info.(metadata := Some(BuiltMeta(node.metadata)))
  {
  }

  /**
   * Structuring the same document twice fails: the first pass stored records
   * in the "metadata" slots, and the second cannot unpack them.
   */
  lemma SecondPassFails(p: Payload)
    requires p.nodes.Some? && |p.nodes.value.keys| > 0 && Structure(p).Ok?
    ensures Structure(p.(nodes := ConvertedNodes(p.nodes))) == Err(TypeError("argument after ** must be a mapping"))
  {
    var d := p.nodes.value;
    var p' := p.(nodes := ConvertedNodes(p.nodes));
    var d' := Converted(d);
    var rs := Outcomes(d);
    RecordsStored(d, BuildNodes(d.keys, rs, |d.keys|).value);
    ConvertedSpec(d);
    assert d'.entries[d'.keys[0]].metadata.value.BuiltMeta?;
    OutcomeAt(d', 0);
    StructureSpec(p');
  }

  /**
   * An entry fails on its "metadata" slot first, then on a missing "node_id";
   * without a "metadata" key it gets the default record, and the other fields
   * take the node defaults.
   */
  lemma EntryNodeSpec(info: NodeInfo)
    ensures EntryNode(info).Ok? <==> ConvertMetadata(info.metadata).Ok? && info.nodeId.Some?
    ensures ConvertMetadata(info.metadata).Err? ==> EntryNode(info) == Err(ConvertMetadata(info.metadata).error)
    ensures ConvertMetadata(info.metadata).Ok? && info.nodeId.None? ==> EntryNode(info) == Err(ValidationError("node_id"))
    ensures info.metadata.None? && info.nodeId.Some? ==>
      EntryNode(info) == Ok(DialogNode(info.nodeId.value, info.npcText.GetOr(""), info.choices.GetOr([]),
                                       NodeMetadata(MainPath, None, None, [], []),
                                       info.parentNodeIds.GetOr([]), info.childNodeIds.GetOr([]),
                                       info.narrativeSummary, info.playerGoalHint))
  {
  }

  /** A document whose entry under "a" names itself "b", links to a missing child, and names a missing root. */
  function MismatchedDocument(): Payload {
    var info := NodeInfo(Some("b"), None, None, None, Some(["ghost"]), None, None, None);
    assert Elems(["a"]) == {"a"};
    Payload(Some(DictRep(["a"], map["a" := info])), Some("r"), None)
  }

  /** `_structure_tree` accepts a node filed under another id, a dangling child and a missing root. */
  lemma StructuringChecksNoInvariant()
    ensures Structure(MismatchedDocument()).Ok?
    ensures !IdsMatchKeys(Structure(MismatchedDocument()).value)
    ensures !RootPresent(Structure(MismatchedDocument()).value)
    ensures !NoDanglingChildren(Structure(MismatchedDocument()).value)
  {
    var p := MismatchedDocument();
    var d := p.nodes.value;
    assert Structure(p).Ok? by {
      assert d.keys == ["a"];
      OutcomeAt(d, 0);
      assert EntryNode(d.entries["a"]).Ok?;
      FirstFailureNone(Outcomes(d), 0);
      StructureSpec(p);
    }
    StructureNodesSpec(p);
    var t := Structure(p).value;
    assert t.nodes.entries.Keys == {"a"};
    assert t.nodes.entries["a"].nodeId == "b";
    assert "ghost" in t.nodes.entries["a"].childNodeIds && "ghost" !in t.nodes.entries;
  }

  /** The structure generator: it owns the language-model client for structure generation. */
  class TreeGenerator {
    const llm: Oracle<TreeGenerationRequest, Payload>

    constructor (llm: Oracle<TreeGenerationRequest, Payload>)
      ensures this.llm == llm
    {
      this.llm := llm;
    }

    /**
     * `generate_structure_tree(request)`: one call of the model, whose failure
     * passes through; the decoded document is then structured, and the graph
     * wrapped in a response with no logs and no recommendations.
     */
    method GenerateStructureTree(request: TreeGenerationRequest) returns (r: Result<TreeGenerationResponse>)
      modifies llm
      ensures llm.log == old(llm.log) + [request]
      ensures var answer := llm.answer(|old(llm.log)|, request);
        && (answer.Err? ==> r == Err(answer.error))
        && (answer.Ok? && Structure(answer.value).Err? ==> r == Err(Structure(answer.value).error))
        && (answer.Ok? && Structure(answer.value).Ok? ==> r == Ok(TreeGenerationResponse(Structure(answer.value).value, None, None)))
    {
      var answer := llm.Generate(request);
      if answer.Err? {
        return Err(answer.error);
      }
      var g := new GeneratedTree(answer.value);
      var t := StructureTree(g);
      if t.Err? {
        return Err(t.error);
      }
      r := Ok(TreeGenerationResponse(t.value, None, None));
    }
  }
}
