/**
 * Content filling: every node of the graph, in key order, gets its NPC line
 * and its player choices from one language-model call. The call sees the node,
 * the nodes of its parents as the graph holds them at that moment, and the
 * character. Only the text and the choices of a node change; nothing checks
 * what the new choices point at.
 */
module ContentWriter {
  import opened Wrappers
  import opened Seqs
  import opened Dicts
  import opened Dialog
  import opened Llm

  /** What the prompt for one node is built from. */
  datatype NodeQuery = NodeQuery(node: DialogNode, previousNodes: seq<DialogNode>, character: Character)

  /** One element of the decoded "choices" list: "text" and "next_node_id", each possibly absent. */
  datatype ChoiceReply = ChoiceReply(text: Option<string>, nextNodeId: Option<string>)

  /** The decoded answer for one node: "npc_text" and "choices", each possibly absent. */
  datatype ContentReply = ContentReply(npcText: Option<string>, choices: Option<seq<ChoiceReply>>)

  /** `[tree.nodes[nid] for nid in parent_ids if nid in tree.nodes]` */
  function History(nodes: map<string, DialogNode>, parentIds: seq<string>): seq<DialogNode> {
    if parentIds == [] then []
    else
      var last := parentIds[|parentIds| - 1];
      History(nodes, parentIds[..|parentIds| - 1]) + (if last in nodes then [nodes[last]] else [])
  }

  /** One parent id contributes its node to the history when the graph has it, and nothing otherwise. */
  lemma HistoryOne(nodes: map<string, DialogNode>, p: string)
    ensures History(nodes, [p]) == if p in nodes then [nodes[p]] else []
  {
    assert [p][..0] == [];
  }

  /** The history of a list of parent ids is the histories of its parts, one after the other. */
  lemma {:induction false} HistoryAppend(nodes: map<string, DialogNode>, ps: seq<string>, qs: seq<string>)
    ensures History(nodes, ps + qs) == History(nodes, ps) + History(nodes, qs)
    decreases |qs|
  {
    if qs == [] {
      assert ps + qs == ps;
    } else {
      var init := qs[..|qs| - 1];
      var last := qs[|qs| - 1];
      var tail := if last in nodes then [nodes[last]] else [];
      var all := ps + qs;
      assert all[..|all| - 1] == ps + init && all[|all| - 1] == last;
      assert History(nodes, all) == History(nodes, ps + init) + tail;
      HistoryAppend(nodes, ps, init);
      AppendAssoc(History(nodes, ps), History(nodes, init), tail);
    }
  }

  /** A node is in the history exactly when it is the node of one of the parent ids the graph has. */
  lemma {:induction false} HistoryMembers(nodes: map<string, DialogNode>, ps: seq<string>)
    ensures forall x :: x in History(nodes, ps) <==> exists p :: p in ps && p in nodes && nodes[p] == x
    decreases |ps|
  {
    if ps != [] {
      var init := ps[..|ps| - 1];
      var last := ps[|ps| - 1];
      HistoryMembers(nodes, init);
      assert ps == init + [last];
      forall x | x in History(nodes, ps) ensures exists p :: p in ps && p in nodes && nodes[p] == x {
        if x in History(nodes, init) {
          var p :| p in init && p in nodes && nodes[p] == x;
          assert p in ps;
        } else {
          assert last in ps;
        }
      }
      forall x | exists p :: p in ps && p in nodes && nodes[p] == x ensures x in History(nodes, ps) {
        var p :| p in ps && p in nodes && nodes[p] == x;
        if p != last {
          assert p in init;
        }
      }
    }
  }

  /** The history is no longer than the parent list, and when the graph has every parent it is their nodes, in parent order. */
  lemma {:induction false} HistoryAllPresent(nodes: map<string, DialogNode>, ps: seq<string>)
    ensures |History(nodes, ps)| <= |ps|
    ensures (forall i :: 0 <= i < |ps| ==> ps[i] in nodes) ==>
      |History(nodes, ps)| == |ps| && forall i :: 0 <= i < |ps| ==> History(nodes, ps)[i] == nodes[ps[i]]
    decreases |ps|
  {
    if ps != [] {
      var init := ps[..|ps| - 1];
      HistoryAllPresent(nodes, init);
    }
  }

  /** The query for `node` against the nodes `nodes` of the graph. */
  function Query(nodes: map<string, DialogNode>, node: DialogNode, character: Character): NodeQuery {
    NodeQuery(node, History(nodes, node.parentNodeIds), character)
  }

  /** The choices listed in a reply, each field defaulting to "". */
  function ChoicesOf(replies: seq<ChoiceReply>): (cs: seq<Choice>)
    ensures |cs| == |replies|
    ensures forall i :: 0 <= i < |replies| ==>
      cs[i] == Choice(replies[i].text.GetOr(""), replies[i].nextNodeId.GetOr(""), [])
  {
    seq(|replies|, i requires 0 <= i < |replies| => NewChoice(replies[i].text.GetOr(""), replies[i].nextNodeId.GetOr("")))
  }

  /** Two nodes agree on everything `_generate_node` leaves alone. */
  predicate SameSkeleton(a: DialogNode, b: DialogNode) {
    && a.nodeId == b.nodeId && a.metadata == b.metadata
    && a.parentNodeIds == b.parentNodeIds && a.childNodeIds == b.childNodeIds
    && a.narrativeSummary == b.narrativeSummary && a.playerGoalHint == b.playerGoalHint
  }

  /** `node` once `_generate_node` has stored the reply's text and choices in it. */
  function Filled(node: DialogNode, reply: ContentReply): (n: DialogNode)
    ensures SameSkeleton(n, node)
    ensures n.npcText == reply.npcText.GetOr("")
    ensures |n.choices| == |reply.choices.GetOr([])|
    ensures forall i :: 0 <= i < |n.choices| ==>
      var r := reply.choices.GetOr([])[i];
      n.choices[i].text == r.text.GetOr("") && n.choices[i].nextNodeId == r.nextNodeId.GetOr("") && n.choices[i].effects == []
  {
    node.(npcText := reply.npcText.GetOr(""), choices := ChoicesOf(reply.choices.GetOr([])))
  }

  /** One turn of `fill_dialog_tree`'s loop: the nodes after it, the query it made, and the error of a failed call. */
  datatype Step = Step(nodes: map<string, DialogNode>, query: NodeQuery, error: Option<Error>)

  /**
   * The turn on the node under `key` whose call, call number `index`, gets
   * `answer(index, query)`: a failed call leaves the nodes as they were.
   */
  function Turn(nodes: map<string, DialogNode>, key: string, c: Character,
                answer: (nat, NodeQuery) -> Result<ContentReply>, index: nat): (st: Step)
    requires key in nodes
    ensures st.nodes.Keys == nodes.Keys
  {
    var q := Query(nodes, nodes[key], c);
    match answer(index, q)
    case Err(e) => Step(nodes, q, Some(e))
    case Ok(reply) => Step(nodes[key := Filled(nodes[key], reply)], q, None)
  }

  /** Where `fill_dialog_tree` ends: the nodes, every call of the model so far, and the error of a failed call. */
  datatype FillState = FillState(nodes: map<string, DialogNode>, log: seq<NodeQuery>, error: Option<Error>)

  /**
   * `fill_dialog_tree` from the `i`-th key of `d` on, with the nodes `nodes`
   * and the calls `log` made so far: call number `|log|` gets
   * `answer(|log|, query)`, and the first failed call ends the run.
   */
  function RunFrom(d: Dict<DialogNode>, c: Character, answer: (nat, NodeQuery) -> Result<ContentReply>,
                   i: nat, nodes: map<string, DialogNode>, log: seq<NodeQuery>): (s: FillState)
    requires i <= |d.keys| && nodes.Keys == d.entries.Keys
    ensures s.nodes.Keys == d.entries.Keys
    decreases |d.keys| - i
  {
    if i == |d.keys| then FillState(nodes, log, None)
    else
      assert d.keys[i] in d.keys;
      var st := Turn(nodes, d.keys[i], c, answer, |log|);
      if st.error.Some? then FillState(nodes, log + [st.query], st.error)
      else RunFrom(d, c, answer, i + 1, st.nodes, log + [st.query])
  }

  /** `fill_dialog_tree` on the graph `t`, after the calls `log`. */
  function Fill(t: DialogTree, c: Character, answer: (nat, NodeQuery) -> Result<ContentReply>, log: seq<NodeQuery>): (s: FillState)
    ensures s.nodes.Keys == t.nodes.entries.Keys
  {
    RunFrom(t.nodes, c, answer, 0, t.nodes.entries, log)
  }

  /** A run extends the log by at most one call per remaining key, and by exactly one per key when no call fails. */
  lemma {:induction false} RunFromLength(d: Dict<DialogNode>, c: Character, answer: (nat, NodeQuery) -> Result<ContentReply>,
                                         i: nat, nodes: map<string, DialogNode>, log: seq<NodeQuery>)
    requires i <= |d.keys| && nodes.Keys == d.entries.Keys
    ensures var s := RunFrom(d, c, answer, i, nodes, log);
      && |log| <= |s.log| <= |log| + |d.keys| - i
      && (s.error.None? ==> |s.log| == |log| + |d.keys| - i)
      && (s.error.Some? ==> |log| < |s.log|)
    decreases |d.keys| - i
  {
    if i < |d.keys| {
      RunFromFirst(d, c, answer, i, nodes, log);
      var key := d.keys[i];
      var q := Query(nodes, nodes[key], c);
      if answer(|log|, q).Ok? {
        RunFromLength(d, c, answer, i + 1, nodes[key := Filled(nodes[key], answer(|log|, q).value)], log + [q]);
      }
    }
  }

  /** A run only appends to the log it is given. */
  lemma {:induction false} RunFromPrefix(d: Dict<DialogNode>, c: Character, answer: (nat, NodeQuery) -> Result<ContentReply>,
                                         i: nat, nodes: map<string, DialogNode>, log: seq<NodeQuery>)
    requires i <= |d.keys| && nodes.Keys == d.entries.Keys
    ensures var s := RunFrom(d, c, answer, i, nodes, log);
      |log| <= |s.log| && s.log[..|log|] == log
    decreases |d.keys| - i
  {
    if i < |d.keys| {
      assert d.keys[i] in d.keys;
      var st := Turn(nodes, d.keys[i], c, answer, |log|);
      var log' := log + [st.query];
      if st.error.None? {
        RunFromPrefix(d, c, answer, i + 1, st.nodes, log');
        var s := RunFrom(d, c, answer, i + 1, st.nodes, log');
        assert s.log[..|log|] == s.log[..|log'|][..|log|];
      } else {
        assert log'[..|log|] == log;
      }
    }
  }

  /** The first call of a run from key `i` on is the query for that key's node, and the run goes on exactly when it is answered. */
  lemma RunFromFirst(d: Dict<DialogNode>, c: Character, answer: (nat, NodeQuery) -> Result<ContentReply>,
                     i: nat, nodes: map<string, DialogNode>, log: seq<NodeQuery>)
    requires i < |d.keys| && nodes.Keys == d.entries.Keys
    ensures d.keys[i] in nodes
    ensures var s := RunFrom(d, c, answer, i, nodes, log);
      var key := d.keys[i];
      var q := Query(nodes, nodes[key], c);
      && |log| < |s.log| && s.log[|log|] == q
      && (answer(|log|, q).Err? ==> s == FillState(nodes, log + [q], Some(answer(|log|, q).error)))
      && (answer(|log|, q).Ok? ==>
            s == RunFrom(d, c, answer, i + 1, nodes[key := Filled(nodes[key], answer(|log|, q).value)], log + [q]))
  {
    assert d.keys[i] in d.keys;
    var st := Turn(nodes, d.keys[i], c, answer, |log|);
    if st.error.None? {
      RunFromPrefix(d, c, answer, i + 1, st.nodes, log + [st.query]);
      var s := RunFrom(d, c, answer, i + 1, st.nodes, log + [st.query]);
      assert s.log[|log|] == (s.log[..|log| + 1])[|log|];
    }
  }

  /** Call number `k` of a run is answered, unless it is the last call of a stopped run, which fails with the run's error. */
  lemma {:induction false} RunFromAnswer(d: Dict<DialogNode>, c: Character, answer: (nat, NodeQuery) -> Result<ContentReply>,
                                         i: nat, nodes: map<string, DialogNode>, log: seq<NodeQuery>, k: nat)
    requires i <= |d.keys| && nodes.Keys == d.entries.Keys
    requires |log| <= k < |RunFrom(d, c, answer, i, nodes, log).log|
    ensures var s := RunFrom(d, c, answer, i, nodes, log);
      && (k < |s.log| - 1 || s.error.None? ==> answer(k, s.log[k]).Ok?)
      && (k == |s.log| - 1 && s.error.Some? ==> answer(k, s.log[k]) == Err(s.error.value))
    decreases |d.keys| - i
  {
    RunFromFirst(d, c, answer, i, nodes, log);
    var key := d.keys[i];
    var q := Query(nodes, nodes[key], c);
    if answer(|log|, q).Ok? {
      var nodes' := nodes[key := Filled(nodes[key], answer(|log|, q).value)];
      if k == |log| {
        RunFromLength(d, c, answer, i + 1, nodes', log + [q]);
      } else {
        RunFromAnswer(d, c, answer, i + 1, nodes', log + [q], k);
      }
    }
  }

  /** The step of `RunFromOutside`: when the first call is answered, what holds of the rest of the run holds of the whole run. */
  lemma RunFromOutsideStep(d: Dict<DialogNode>, c: Character, answer: (nat, NodeQuery) -> Result<ContentReply>,
                           i: nat, nodes: map<string, DialogNode>, log: seq<NodeQuery>, m: nat)
    requires m < i <= |d.keys| && nodes.Keys == d.entries.Keys && d.keys[m] in nodes
    requires i < |d.keys| ==>
      && d.keys[i] in nodes
      && var q := Query(nodes, nodes[d.keys[i]], c);
         answer(|log|, q).Ok? ==>
           var nodes' := nodes[d.keys[i] := Filled(nodes[d.keys[i]], answer(|log|, q).value)];
           RunFrom(d, c, answer, i + 1, nodes', log + [q]).nodes[d.keys[m]] == nodes'[d.keys[m]]
    ensures RunFrom(d, c, answer, i, nodes, log).nodes[d.keys[m]] == nodes[d.keys[m]]
  {
    if i < |d.keys| {
      RunFromFirst(d, c, answer, i, nodes, log);
      DistinctAt(d.keys, m, i);
    }
  }

  /** A run from key `i` on leaves alone the node under every earlier key. */
  lemma {:induction false} RunFromOutside(d: Dict<DialogNode>, c: Character, answer: (nat, NodeQuery) -> Result<ContentReply>,
                                          i: nat, nodes: map<string, DialogNode>, log: seq<NodeQuery>, m: nat)
    requires m < i <= |d.keys| && nodes.Keys == d.entries.Keys && d.keys[m] in nodes
    ensures RunFrom(d, c, answer, i, nodes, log).nodes[d.keys[m]] == nodes[d.keys[m]]
    decreases |d.keys| - i
  {
    if i < |d.keys| {
      assert d.keys[i] in d.keys;
      var k := d.keys[i];
      var q := Query(nodes, nodes[k], c);
      if answer(|log|, q).Ok? {
        RunFromOutside(d, c, answer, i + 1, nodes[k := Filled(nodes[k], answer(|log|, q).value)], log + [q], m);
      }
    }
    RunFromOutsideStep(d, c, answer, i, nodes, log, m);
  }

  /** Call number `k` of a run, when made, is the query for the node under the key it reaches, for the character. */
  lemma {:induction false} RunFromQuery(d: Dict<DialogNode>, c: Character, answer: (nat, NodeQuery) -> Result<ContentReply>,
                                        i: nat, nodes: map<string, DialogNode>, log: seq<NodeQuery>, j: nat, k: nat)
    requires i <= j < |d.keys| && nodes.Keys == d.entries.Keys && k == |log| + j - i
    requires k < |RunFrom(d, c, answer, i, nodes, log).log|
    ensures d.keys[j] in nodes
    ensures var s := RunFrom(d, c, answer, i, nodes, log);
      s.log[k].node == nodes[d.keys[j]] && s.log[k].character == c
    decreases |d.keys| - i
  {
    RunFromFirst(d, c, answer, i, nodes, log);
    var key := d.keys[i];
    var q := Query(nodes, nodes[key], c);
    if j > i && answer(|log|, q).Ok? {
      DistinctAt(d.keys, i, j);
      RunFromQuery(d, c, answer, i + 1, nodes[key := Filled(nodes[key], answer(|log|, q).value)], log + [q], j, k);
    }
  }

  /**
   * The node `original` once call number `k` of `log` was meant for it:
   * filled with that call's answer when the call was made and answered, and
   * as it was otherwise.
   */
  ghost function NodeAfter(original: DialogNode, answer: (nat, NodeQuery) -> Result<ContentReply>,
                           log: seq<NodeQuery>, k: nat): DialogNode
  {
    if k < |log| && answer(k, log[k]).Ok? then Filled(original, answer(k, log[k]).value) else original
  }

  /** The node under the first key a run reaches is `NodeAfter` its call. */
  lemma RunFromNodeFirst(d: Dict<DialogNode>, c: Character, answer: (nat, NodeQuery) -> Result<ContentReply>,
                         i: nat, nodes: map<string, DialogNode>, log: seq<NodeQuery>)
    requires i < |d.keys| && nodes.Keys == d.entries.Keys
    ensures d.keys[i] in nodes
    ensures var s := RunFrom(d, c, answer, i, nodes, log);
      s.nodes[d.keys[i]] == NodeAfter(nodes[d.keys[i]], answer, s.log, |log|)
  {
    RunFromFirst(d, c, answer, i, nodes, log);
    var key := d.keys[i];
    var q := Query(nodes, nodes[key], c);
    if answer(|log|, q).Ok? {
      RunFromOutside(d, c, answer, i + 1, nodes[key := Filled(nodes[key], answer(|log|, q).value)], log + [q], i);
    }
  }

  /**
   * The step of `RunFromNode`: for a later key, when the first call is
   * answered, what holds of the rest of the run holds of the whole run.
   */
  lemma RunFromNodeStep(d: Dict<DialogNode>, c: Character, answer: (nat, NodeQuery) -> Result<ContentReply>,
                        i: nat, nodes: map<string, DialogNode>, log: seq<NodeQuery>, j: nat, k: nat)
    requires i <= j < |d.keys| && nodes.Keys == d.entries.Keys && k == |log| + j - i
    requires d.keys[i] in nodes && d.keys[j] in nodes
    requires var q := Query(nodes, nodes[d.keys[i]], c);
      i < j && answer(|log|, q).Ok? ==>
        var nodes' := nodes[d.keys[i] := Filled(nodes[d.keys[i]], answer(|log|, q).value)];
        var s' := RunFrom(d, c, answer, i + 1, nodes', log + [q]);
        d.keys[j] in nodes' && s'.nodes[d.keys[j]] == NodeAfter(nodes'[d.keys[j]], answer, s'.log, k)
    ensures var s := RunFrom(d, c, answer, i, nodes, log);
      s.nodes[d.keys[j]] == NodeAfter(nodes[d.keys[j]], answer, s.log, k)
  {
    if j == i {
      RunFromNodeFirst(d, c, answer, i, nodes, log);
    } else {
      RunFromFirst(d, c, answer, i, nodes, log);
      DistinctAt(d.keys, i, j);
    }
  }

  /** After a run, the node under each key it reaches is `NodeAfter` that key's call. */
  lemma {:induction false} RunFromNode(d: Dict<DialogNode>, c: Character, answer: (nat, NodeQuery) -> Result<ContentReply>,
                                       i: nat, nodes: map<string, DialogNode>, log: seq<NodeQuery>, j: nat, k: nat)
    requires i <= j < |d.keys| && nodes.Keys == d.entries.Keys && k == |log| + j - i
    ensures d.keys[j] in nodes
    ensures var s := RunFrom(d, c, answer, i, nodes, log);
      s.nodes[d.keys[j]] == NodeAfter(nodes[d.keys[j]], answer, s.log, k)
    decreases |d.keys| - i
  {
    assert d.keys[i] in d.keys && d.keys[j] in d.keys;
    var key := d.keys[i];
    var q := Query(nodes, nodes[key], c);
    if i < j && answer(|log|, q).Ok? {
      RunFromNode(d, c, answer, i + 1, nodes[key := Filled(nodes[key], answer(|log|, q).value)], log + [q], j, k);
    }
    RunFromNodeStep(d, c, answer, i, nodes, log, j, k);
  }

  /**
   * The nodes of `d` once the turns of its first `j` keys are over, their
   * calls being numbered from `base` in `log`: each of those nodes is
   * `NodeAfter` its own call, and every later node is as it was.
   */
  ghost function NodesBefore(d: Dict<DialogNode>, answer: (nat, NodeQuery) -> Result<ContentReply>,
                             log: seq<NodeQuery>, base: nat, j: nat): (m: map<string, DialogNode>)
    requires j <= |d.keys|
    ensures m.Keys == d.entries.Keys
    decreases j
  {
    if j == 0 then d.entries
    else
      assert d.keys[j - 1] in d.keys;
      NodesBefore(d, answer, log, base, j - 1)[d.keys[j - 1] := NodeAfter(d.entries[d.keys[j - 1]], answer, log, base + j - 1)]
  }

  /** Before the turn of key `j`, the nodes under key `j` and every later key are untouched. */
  lemma {:induction false} NodesBeforeUntouched(d: Dict<DialogNode>, answer: (nat, NodeQuery) -> Result<ContentReply>,
                                                log: seq<NodeQuery>, base: nat, j: nat, m: nat)
    requires j <= m < |d.keys|
    ensures d.keys[m] in d.entries && NodesBefore(d, answer, log, base, j)[d.keys[m]] == d.entries[d.keys[m]]
    decreases j
  {
    assert d.keys[m] in d.keys;
    if j > 0 {
      NodesBeforeUntouched(d, answer, log, base, j - 1, m);
      DistinctAt(d.keys, j - 1, m);
    }
  }

  /** An answered turn of key `i` takes the nodes before it to the nodes before key `i + 1`. */
  lemma NodesBeforeAdvance(d: Dict<DialogNode>, c: Character, answer: (nat, NodeQuery) -> Result<ContentReply>,
                           i: nat, nodes: map<string, DialogNode>, log: seq<NodeQuery>, base: nat)
    requires i < |d.keys| && nodes.Keys == d.entries.Keys && base + i == |log|
    requires nodes == NodesBefore(d, answer, RunFrom(d, c, answer, i, nodes, log).log, base, i)
    requires d.keys[i] in nodes && answer(|log|, Query(nodes, nodes[d.keys[i]], c)).Ok?
    ensures var q := Query(nodes, nodes[d.keys[i]], c);
      var nodes' := nodes[d.keys[i] := Filled(nodes[d.keys[i]], answer(|log|, q).value)];
      nodes' == NodesBefore(d, answer, RunFrom(d, c, answer, i + 1, nodes', log + [q]).log, base, i + 1)
  {
    RunFromFirst(d, c, answer, i, nodes, log);
    NodesBeforeUntouched(d, answer, RunFrom(d, c, answer, i, nodes, log).log, base, i, i);
  }

  /**
   * Call number `k` of a run, when made, is the query for the node under key
   * `j` against the nodes as they stand before that key's turn: the parents
   * it shows the model are the ones already filled by their own calls.
   */
  lemma {:induction false} RunFromHistory(d: Dict<DialogNode>, c: Character, answer: (nat, NodeQuery) -> Result<ContentReply>,
                                          i: nat, nodes: map<string, DialogNode>, log: seq<NodeQuery>, base: nat, j: nat, k: nat)
    requires i <= j < |d.keys| && nodes.Keys == d.entries.Keys && base + i == |log| && k == |log| + j - i
    requires k < |RunFrom(d, c, answer, i, nodes, log).log|
    requires nodes == NodesBefore(d, answer, RunFrom(d, c, answer, i, nodes, log).log, base, i)
    ensures d.keys[j] in d.entries
    ensures var s := RunFrom(d, c, answer, i, nodes, log);
      s.log[k] == Query(NodesBefore(d, answer, s.log, base, j), d.entries[d.keys[j]], c)
    decreases |d.keys| - i
  {
    RunFromFirst(d, c, answer, i, nodes, log);
    assert d.keys[j] in d.keys;
    var key := d.keys[i];
    var q := Query(nodes, nodes[key], c);
    if i < j && answer(|log|, q).Ok? {
      NodesBeforeAdvance(d, c, answer, i, nodes, log, base);
      RunFromHistory(d, c, answer, i + 1, nodes[key := Filled(nodes[key], answer(|log|, q).value)], log + [q], base, j, k);
    }
    RunFromHistoryStep(d, c, answer, i, nodes, log, base, j, k);
  }

  /** The step of `RunFromHistory`: the first call is the one meant, or the rest of the run makes it. */
  lemma RunFromHistoryStep(d: Dict<DialogNode>, c: Character, answer: (nat, NodeQuery) -> Result<ContentReply>,
                           i: nat, nodes: map<string, DialogNode>, log: seq<NodeQuery>, base: nat, j: nat, k: nat)
    requires i <= j < |d.keys| && nodes.Keys == d.entries.Keys && base + i == |log| && k == |log| + j - i
    requires k < |RunFrom(d, c, answer, i, nodes, log).log|
    requires nodes == NodesBefore(d, answer, RunFrom(d, c, answer, i, nodes, log).log, base, i)
    requires d.keys[i] in nodes && d.keys[j] in d.entries
    requires var q := Query(nodes, nodes[d.keys[i]], c);
      i < j && answer(|log|, q).Ok? ==>
        var s' := RunFrom(d, c, answer, i + 1, nodes[d.keys[i] := Filled(nodes[d.keys[i]], answer(|log|, q).value)], log + [q]);
        s'.log[k] == Query(NodesBefore(d, answer, s'.log, base, j), d.entries[d.keys[j]], c)
    ensures var s := RunFrom(d, c, answer, i, nodes, log);
      s.log[k] == Query(NodesBefore(d, answer, s.log, base, j), d.entries[d.keys[j]], c)
  {
    if i == j {
      RunFromHistoryFirst(d, c, answer, i, nodes, log, base);
    } else {
      RunFromHistoryLater(d, c, answer, i, nodes, log, base, j, k);
    }
  }

  /** The step of `RunFromHistory` for a later key: what holds of the rest of the run holds of the whole run. */
  lemma RunFromHistoryLater(d: Dict<DialogNode>, c: Character, answer: (nat, NodeQuery) -> Result<ContentReply>,
                            i: nat, nodes: map<string, DialogNode>, log: seq<NodeQuery>, base: nat, j: nat, k: nat)
    requires i < j < |d.keys| && nodes.Keys == d.entries.Keys && k == |log| + j - i
    requires k < |RunFrom(d, c, answer, i, nodes, log).log|
    requires d.keys[i] in nodes && d.keys[j] in d.entries
    requires var q := Query(nodes, nodes[d.keys[i]], c);
      answer(|log|, q).Ok? ==>
        var s' := RunFrom(d, c, answer, i + 1, nodes[d.keys[i] := Filled(nodes[d.keys[i]], answer(|log|, q).value)], log + [q]);
        s'.log[k] == Query(NodesBefore(d, answer, s'.log, base, j), d.entries[d.keys[j]], c)
    ensures var s := RunFrom(d, c, answer, i, nodes, log);
      s.log[k] == Query(NodesBefore(d, answer, s.log, base, j), d.entries[d.keys[j]], c)
  {
  }

  /** The first call of a run is the query for its first key's node against the nodes before that key's turn. */
  lemma RunFromHistoryFirst(d: Dict<DialogNode>, c: Character, answer: (nat, NodeQuery) -> Result<ContentReply>,
                            i: nat, nodes: map<string, DialogNode>, log: seq<NodeQuery>, base: nat)
    requires i < |d.keys| && nodes.Keys == d.entries.Keys && base + i == |log|
    requires nodes == NodesBefore(d, answer, RunFrom(d, c, answer, i, nodes, log).log, base, i)
    ensures d.keys[i] in d.entries
    ensures var s := RunFrom(d, c, answer, i, nodes, log);
      |log| < |s.log| && s.log[|log|] == Query(NodesBefore(d, answer, s.log, base, i), d.entries[d.keys[i]], c)
  {
    RunFromFirst(d, c, answer, i, nodes, log);
    NodesBeforeUntouched(d, answer, RunFrom(d, c, answer, i, nodes, log).log, base, i, i);
  }

  /**
   * `fill_dialog_tree` appends to the log one call per entry of
   * `tree.nodes.items()` it reaches, and reaches them all unless a call fails.
   */
  lemma FillCallCount(t: DialogTree, c: Character, answer: (nat, NodeQuery) -> Result<ContentReply>, log: seq<NodeQuery>)
    ensures var s := Fill(t, c, answer, log);
      && |log| <= |s.log| <= |log| + |t.nodes.keys| && s.log[..|log|] == log
      && (s.error.None? ==> |s.log| == |log| + |t.nodes.keys|)
      && (s.error.Some? ==> |log| < |s.log|)
  {
    RunFromLength(t.nodes, c, answer, 0, t.nodes.entries, log);
    RunFromPrefix(t.nodes, c, answer, 0, t.nodes.entries, log);
  }

  /**
   * The calls of `fill_dialog_tree` follow `tree.nodes.items()`: call number
   * `|log| + j` is for the `j`-th node and the request's character, so no
   * node is asked for twice.
   */
  lemma FillCallOrder(t: DialogTree, c: Character, answer: (nat, NodeQuery) -> Result<ContentReply>, log: seq<NodeQuery>)
    ensures var s := Fill(t, c, answer, log);
      forall k :: |log| <= k < |s.log| ==>
        k - |log| < |t.nodes.keys| && s.log[k].node == Values(t.nodes)[k - |log|] && s.log[k].character == c
  {
    var d := t.nodes;
    RunFromLength(d, c, answer, 0, d.entries, log);
    var s := Fill(t, c, answer, log);
    var vs := Values(d);
    forall k | |log| <= k < |s.log|
      ensures k - |log| < |d.keys| && s.log[k].node == vs[k - |log|] && s.log[k].character == c
    {
      RunFromQuery(d, c, answer, 0, d.entries, log, k - |log|, k);
    }
  }

  /**
   * The history shown with each call of `fill_dialog_tree` is taken from the
   * graph as the loop has left it so far: the `j`-th new call lists the
   * parents of the `j`-th node as they stand after the turns of the first `j`
   * keys, so a parent earlier in key order is shown already filled.
   */
  lemma FillHistory(t: DialogTree, c: Character, answer: (nat, NodeQuery) -> Result<ContentReply>, log: seq<NodeQuery>)
    ensures |log| <= |Fill(t, c, answer, log).log|
    ensures var s := Fill(t, c, answer, log); var calls := s.log[|log|..];
      forall j :: 0 <= j < |calls| ==>
        j < |t.nodes.keys|
        && calls[j].previousNodes == History(NodesBefore(t.nodes, answer, s.log, |log|, j), Values(t.nodes)[j].parentNodeIds)
  {
    RunFromLength(t.nodes, c, answer, 0, t.nodes.entries, log);
    var calls := Fill(t, c, answer, log).log[|log|..];
    forall j | 0 <= j < |calls|
      ensures j < |t.nodes.keys|
        && calls[j].previousNodes == History(NodesBefore(t.nodes, answer, Fill(t, c, answer, log).log, |log|, j), Values(t.nodes)[j].parentNodeIds)
    {
      FillHistoryAt(t, c, answer, log, j);
    }
  }

  /** `FillHistory` for one call. */
  lemma FillHistoryAt(t: DialogTree, c: Character, answer: (nat, NodeQuery) -> Result<ContentReply>, log: seq<NodeQuery>, j: nat)
    requires |log| <= |Fill(t, c, answer, log).log| && j < |Fill(t, c, answer, log).log[|log|..]|
    ensures var s := Fill(t, c, answer, log); var calls := s.log[|log|..];
      j < |t.nodes.keys|
      && calls[j].previousNodes == History(NodesBefore(t.nodes, answer, s.log, |log|, j), Values(t.nodes)[j].parentNodeIds)
  {
    var d, base := t.nodes, |log|;
    var n := base + j;
    var s := RunFrom(d, c, answer, 0, d.entries, log);
    assert Fill(t, c, answer, log) == s;
    RunFromLength(d, c, answer, 0, d.entries, log);
    RunFromHistory(d, c, answer, 0, d.entries, log, base, j, n);
    var m := NodesBefore(d, answer, s.log, base, j);
    var node := d.entries[d.keys[j]];
    assert s.log[n] == Query(m, node, c);
    assert s.log[base..][j] == s.log[n];
    assert Values(d)[j] == node;
  }

  /** Every call `fill_dialog_tree` makes is answered, except the last call of a failed run, which fails with the run's error. */
  lemma FillAnswers(t: DialogTree, c: Character, answer: (nat, NodeQuery) -> Result<ContentReply>, log: seq<NodeQuery>)
    ensures var s := Fill(t, c, answer, log);
      && (forall k :: |log| <= k < |s.log| && (k < |s.log| - 1 || s.error.None?) ==> answer(k, s.log[k]).Ok?)
      && (s.error.Some? ==> |s.log| > |log| && answer(|s.log| - 1, s.log[|s.log| - 1]) == Err(s.error.value))
  {
    var d := t.nodes;
    var s := Fill(t, c, answer, log);
    RunFromLength(d, c, answer, 0, d.entries, log);
    forall k | |log| <= k < |s.log|
      ensures (k < |s.log| - 1 || s.error.None?) ==> answer(k, s.log[k]).Ok?
      ensures (k == |s.log| - 1 && s.error.Some?) ==> answer(k, s.log[k]) == Err(s.error.value)
    {
      RunFromAnswer(d, c, answer, 0, d.entries, log, k);
    }
  }

  /** After `fill_dialog_tree`, the `j`-th node is `NodeAfter` call number `|log| + j`. */
  lemma FillNodes(t: DialogTree, c: Character, answer: (nat, NodeQuery) -> Result<ContentReply>, log: seq<NodeQuery>)
    ensures var s := Fill(t, c, answer, log);
      forall j :: 0 <= j < |t.nodes.keys| ==>
        t.nodes.keys[j] in s.nodes && s.nodes[t.nodes.keys[j]] == NodeAfter(Values(t.nodes)[j], answer, s.log, |log| + j)
  {
    var d := t.nodes;
    var s := Fill(t, c, answer, log);
    var vs := Values(d);
    forall j | 0 <= j < |d.keys|
      ensures d.keys[j] in s.nodes && s.nodes[d.keys[j]] == NodeAfter(vs[j], answer, s.log, |log| + j)
    {
      assert vs[j] == d.entries[d.keys[j]];
      RunFromNode(d, c, answer, 0, d.entries, log, j, |log| + j);
    }
  }

  /** `fill_dialog_tree` changes no node's id, metadata, links, summary or goal hint. */
  lemma FillKeepsSkeleton(t: DialogTree, c: Character, answer: (nat, NodeQuery) -> Result<ContentReply>, log: seq<NodeQuery>)
    ensures var s := Fill(t, c, answer, log);
      forall key :: key in t.nodes.entries ==> key in s.nodes && SameSkeleton(s.nodes[key], t.nodes.entries[key])
  {
    var s := Fill(t, c, answer, log);
    FillNodes(t, c, answer, log);
    forall key | key in t.nodes.entries
      ensures key in s.nodes && SameSkeleton(s.nodes[key], t.nodes.entries[key])
    {
      var j := KeyIndex(t.nodes, key);
    }
  }

  /**
   * When no call fails, there is one call per node, every answer is a reply,
   * and every node ends up filled with the answer to its own call.
   */
  lemma FillComplete(t: DialogTree, c: Character, answer: (nat, NodeQuery) -> Result<ContentReply>, log: seq<NodeQuery>)
    ensures var s := Fill(t, c, answer, log);
      s.error.None? ==>
        forall j :: 0 <= j < |t.nodes.keys| ==>
          && |log| + j < |s.log| && answer(|log| + j, s.log[|log| + j]).Ok?
          && t.nodes.keys[j] in s.nodes
          && s.nodes[t.nodes.keys[j]] == Filled(Values(t.nodes)[j], answer(|log| + j, s.log[|log| + j]).value)
  {
    FillCallCount(t, c, answer, log);
    FillAnswers(t, c, answer, log);
    FillNodes(t, c, answer, log);
  }

  /** The graph `t0` with its nodes replaced by `nodes`, in the same key order. */
  function WithNodes(t0: DialogTree, nodes: map<string, DialogNode>): (t: DialogTree)
    requires nodes.Keys == t0.nodes.entries.Keys
    ensures t.nodes.keys == t0.nodes.keys && t.nodes.entries == nodes
    ensures t.rootNodeId == t0.rootNodeId && t.goalAchievementPaths == t0.goalAchievementPaths
  {
    t0.(nodes := DictRep(t0.nodes.keys, nodes))
  }

  /** The content writer: it owns the language-model client for content. */
  class ContentWriter {
    const llm: Oracle<NodeQuery, ContentReply>

    constructor (llm: Oracle<NodeQuery, ContentReply>)
      ensures this.llm == llm
    {
      this.llm := llm;
    }

    /**
     * `_generate_node(node, request)`: one call of the model with the node and
     * its parents present in the graph; its failure passes through.
     */
    method GenerateNode(node: DialogNode, request: ContentGenerationRequest) returns (r: Result<DialogNode>)
      modifies llm
      ensures var q := Query(request.dialogTree.nodes.entries, node, request.character);
        && llm.log == old(llm.log) + [q]
        && (llm.answer(|old(llm.log)|, q).Err? ==> r == Err(llm.answer(|old(llm.log)|, q).error))
        && (llm.answer(|old(llm.log)|, q).Ok? ==> r == Ok(Filled(node, llm.answer(|old(llm.log)|, q).value)))
    {
      var previousNodes := History(request.dialogTree.nodes.entries, node.parentNodeIds);
      var response := llm.Generate(NodeQuery(node, previousNodes, request.character));
      if response.Err? {
        return Err(response.error);
      }
      var npcText := response.value.npcText.GetOr("");
      var choices := ChoicesOf(response.value.choices.GetOr([]));
      r := Ok(node.(npcText := npcText, choices := choices));
    }

    /** One turn of `fill_dialog_tree`'s loop: the node under `key` is generated and stored back. */
    method FillEntry(request: ContentGenerationRequest, key: string) returns (failure: Option<Error>)
      modifies request, llm
      requires key in request.dialogTree.nodes.entries
      ensures var st := Turn(old(request.dialogTree).nodes.entries, key, request.character, llm.answer, |old(llm.log)|);
        && request.dialogTree == WithNodes(old(request.dialogTree), st.nodes)
        && llm.log == old(llm.log) + [st.query]
        && failure == st.error
    {
      var node := request.dialogTree.nodes.entries[key];
      var filled := GenerateNode(node, request);
      if filled.Err? {
        return Some(filled.error);
      }
      request.dialogTree := request.dialogTree.(nodes := Assign(request.dialogTree.nodes, key, filled.value));
      failure := None;
    }

    /**
     * `fill_dialog_tree(request)`: the request's graph is filled in place and
     * is itself the graph of the response.
     */
    method FillDialogTree(request: ContentGenerationRequest) returns (r: Result<ContentGenerationResponse>)
      modifies request, llm
      ensures var s := Fill(old(request.dialogTree), request.character, llm.answer, old(llm.log));
        && request.dialogTree == WithNodes(old(request.dialogTree), s.nodes)
        && llm.log == s.log
        && (s.error.Some? ==> r == Err(s.error.value))
        && (s.error.None? ==> r == Ok(ContentGenerationResponse(request.dialogTree, None)))
    {
      ghost var t0 := request.dialogTree;
      ghost var s := Fill(t0, request.character, llm.answer, llm.log);
      var keys := request.dialogTree.nodes.keys;
      for i := 0 to |keys|
        invariant keys == t0.nodes.keys && request.dialogTree.nodes.keys == keys
        invariant request.dialogTree.nodes.entries.Keys == t0.nodes.entries.Keys
        invariant request.dialogTree.rootNodeId == t0.rootNodeId && request.dialogTree.goalAchievementPaths == t0.goalAchievementPaths
        invariant s == RunFrom(t0.nodes, request.character, llm.answer, i, request.dialogTree.nodes.entries, llm.log)
      {
        var failure := FillEntry(request, keys[i]);
        if failure.Some? {
          return Err(failure.value);
        }
      }
      r := Ok(ContentGenerationResponse(request.dialogTree, None));
    }
  }
}
