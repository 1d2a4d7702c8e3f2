/**
 * The dialogue-graph records: branch types, goals, generation constraints,
 * player choices, node metadata, nodes and the graph, with the defaults and
 * range bounds their pydantic declarations impose. A `NewX` function models
 * the constructor call `X(**fields)`: a field left out of `fields` gets its
 * declared default, a field outside its bounds is a validation error.
 */
module Dialog {
  import opened Wrappers
  import opened Seqs
  import opened Dicts

  /** The narrative role of a node. */
  datatype BranchType = MainPath | Exploration | DeadEnd | LoopBack | SideQuest

  const AllBranchTypes: seq<BranchType> := [MainPath, Exploration, DeadEnd, LoopBack, SideQuest]

  /** The JSON string of each tag. */
  function Wire(b: BranchType): string {
    match b
    case MainPath => "main"
    case Exploration => "exploration"
    case DeadEnd => "dead_end"
    case LoopBack => "loop"
    case SideQuest => "side_quest"
  }

  /** String-to-enum coercion: only the five wire strings are accepted. */
  function ParseBranchType(s: string): (r: Option<BranchType>)
    ensures r.Some? ==> Wire(r.value) == s
    ensures r.None? ==> forall b :: Wire(b) != s
  {
    if s == "main" then Some(MainPath)
    else if s == "exploration" then Some(Exploration)
    else if s == "dead_end" then Some(DeadEnd)
    else if s == "loop" then Some(LoopBack)
    else if s == "side_quest" then Some(SideQuest)
    else None
  }

  /** There are exactly five tags, with five different wire strings, and parsing inverts `Wire`. */
  lemma BranchTypesExactlyFive()
    ensures |AllBranchTypes| == 5 && Distinct(AllBranchTypes)
    ensures forall b :: b in AllBranchTypes
    ensures forall b, c :: Wire(b) == Wire(c) ==> b == c
    ensures forall b :: ParseBranchType(Wire(b)) == Some(b)
  {
    forall b: BranchType ensures b in AllBranchTypes {
      match b
      case MainPath => assert AllBranchTypes[0] == b;
      case Exploration => assert AllBranchTypes[1] == b;
      case DeadEnd => assert AllBranchTypes[2] == b;
      case LoopBack => assert AllBranchTypes[3] == b;
      case SideQuest => assert AllBranchTypes[4] == b;
    }
    DistinctPairwise(AllBranchTypes);
  }

  /** A condition under which the dialogue goal is reached. */
  datatype GoalCondition = GoalCondition(description: string, condType: Option<string>, value: Option<string>)

  /** The goal the player pursues in the conversation. */
  datatype Goal = Goal(
    goalType: string,
    target: string,
    conditions: seq<GoalCondition>,
    successCriteria: seq<string>,
    difficulty: int)

  /** `Goal(type=..., target=..., ...)`: lists default to empty, difficulty to 1, and difficulty must lie in 1..5. */
  function NewGoal(
    goalType: string, target: string,
    conditions: Option<seq<GoalCondition>>, successCriteria: Option<seq<string>>,
    difficulty: Option<int>): (r: Result<Goal>)
    ensures r.Ok? <==> difficulty.None? || 1 <= difficulty.value <= 5
    ensures r.Err? ==> r.error == ValidationError("difficulty")
    ensures r.Ok? ==> 1 <= r.value.difficulty <= 5
    ensures r.Ok? && difficulty.None? ==> r.value.difficulty == 1
    ensures r.Ok? && difficulty.Some? ==> r.value.difficulty == difficulty.value
    ensures r.Ok? ==> r.value.goalType == goalType && r.value.target == target
    ensures r.Ok? ==> r.value.conditions == conditions.GetOr([]) && r.value.successCriteria == successCriteria.GetOr([])
  {
    var d := difficulty.GetOr(1);
    if 1 <= d <= 5 then Ok(Goal(goalType, target, conditions.GetOr([]), successCriteria.GetOr([]), d))
    else Err(ValidationError("difficulty"))
  }

  /** Structural limits asked of the generated graph. */
  datatype Constraints = Constraints(
    maxTurns: int,
    minTurns: int,
    nStorylines: int,
    minStorylines: int,
    contentRating: Option<string>,
    style: Option<string>)

  /** `Constraints(...)`: no bounds are declared; absent counts default to 5, 3, 1, 3. */
  function NewConstraints(
    maxTurns: Option<int>, minTurns: Option<int>, nStorylines: Option<int>, minStorylines: Option<int>,
    contentRating: Option<string>, style: Option<string>): (c: Constraints)
    ensures maxTurns.None? ==> c.maxTurns == 5
    ensures minTurns.None? ==> c.minTurns == 3
    ensures nStorylines.None? ==> c.nStorylines == 1
    ensures minStorylines.None? ==> c.minStorylines == 3
    ensures maxTurns.Some? ==> c.maxTurns == maxTurns.value
    ensures minTurns.Some? ==> c.minTurns == minTurns.value
    ensures nStorylines.Some? ==> c.nStorylines == nStorylines.value
    ensures minStorylines.Some? ==> c.minStorylines == minStorylines.value
    ensures c.contentRating == contentRating && c.style == style
  {
    Constraints(maxTurns.GetOr(5), minTurns.GetOr(3), nStorylines.GetOr(1), minStorylines.GetOr(3), contentRating, style)
  }

  /** A gameplay effect of a choice; the core never interprets it. */
  datatype ChoiceEffect = ChoiceEffect(effType: Option<string>, target: Option<string>, value: Option<string>)

  /** A player choice and the node it leads to. */
  datatype Choice = Choice(text: string, nextNodeId: string, effects: seq<ChoiceEffect>)

  /** `Choice(text=..., next_node_id=...)`: both are required, effects default to none. */
  function NewChoice(text: string, nextNodeId: string): (c: Choice)
    ensures c.text == text && c.nextNodeId == nextNodeId && c.effects == []
  {
    Choice(text, nextNodeId, [])
  }

  /** Per-node state; the float-valued goal progress and relationship impact are not modelled. */
  datatype NodeMetadata = NodeMetadata(
    branchType: BranchType,
    difficulty: Option<int>,
    emotionalState: Option<string>,
    requiredItems: seq<string>,
    unlockedInfo: seq<string>)

  /** The keyword arguments of a `NodeMetadata(**meta)` call; `branchType` carries the wire string. */
  datatype MetadataFields = MetadataFields(
    branchType: Option<string>,
    difficulty: Option<int>,
    emotionalState: Option<string>,
    requiredItems: Option<seq<string>>,
    unlockedInfo: Option<seq<string>>)

  const NoMetadataFields := MetadataFields(None, None, None, None, None)

  /** The valid values of a metadata difficulty. */
  predicate DifficultyInRange(d: Option<int>) {
    d.None? || 1 <= d.value <= 5
  }

  /**
   * `NodeMetadata(**meta)`: branch type defaults to the main path and must be one
   * of the five wire strings; difficulty defaults to none and must lie in 1..5.
   */
  function NewNodeMetadata(f: MetadataFields): (r: Result<NodeMetadata>)
    ensures r.Ok? <==> (f.branchType.None? || ParseBranchType(f.branchType.value).Some?) && DifficultyInRange(f.difficulty)
    ensures r.Err? ==> r.error == ValidationError(if f.branchType.Some? && ParseBranchType(f.branchType.value).None? then "branch_type" else "difficulty")
    ensures r.Ok? ==> DifficultyInRange(r.value.difficulty) && r.value.difficulty == f.difficulty
    ensures r.Ok? && f.branchType.None? ==> r.value.branchType == MainPath
    ensures r.Ok? && f.branchType.Some? ==> Wire(r.value.branchType) == f.branchType.value
    ensures r.Ok? ==> r.value.emotionalState == f.emotionalState
    ensures r.Ok? ==> r.value.requiredItems == f.requiredItems.GetOr([]) && r.value.unlockedInfo == f.unlockedInfo.GetOr([])
  {
    var bt := if f.branchType.None? then Some(MainPath) else ParseBranchType(f.branchType.value);
    if bt.None? then Err(ValidationError("branch_type"))
    else if !DifficultyInRange(f.difficulty) then Err(ValidationError("difficulty"))
    else Ok(NodeMetadata(bt.value, f.difficulty, f.emotionalState, f.requiredItems.GetOr([]), f.unlockedInfo.GetOr([])))
  }

  /** `NodeMetadata()` with no arguments: a main-path node without difficulty. */
  lemma DefaultMetadata()
    ensures NewNodeMetadata(NoMetadataFields) == Ok(NodeMetadata(MainPath, None, None, [], []))
  {
  }

  /** One beat of the conversation. */
  datatype DialogNode = DialogNode(
    nodeId: string,
    npcText: string,
    choices: seq<Choice>,
    metadata: NodeMetadata,
    parentNodeIds: seq<string>,
    childNodeIds: seq<string>,
    narrativeSummary: Option<string>,
    playerGoalHint: Option<string>)

  /** The keyword arguments of a `DialogNode(**fields)` call. */
  datatype NodeFields = NodeFields(
    nodeId: Option<string>,
    npcText: Option<string>,
    choices: Option<seq<Choice>>,
    metadata: Option<NodeMetadata>,
    parentNodeIds: Option<seq<string>>,
    childNodeIds: Option<seq<string>>,
    narrativeSummary: Option<string>,
    playerGoalHint: Option<string>)

  /**
   * `DialogNode(**fields)`: `node_id` and `metadata` are required; text defaults to
   * "", choices and links to empty lists, summary and hint to none. The links are
   * taken as given: nothing relates them to other nodes.
   */
  function NewDialogNode(f: NodeFields): (r: Result<DialogNode>)
    ensures r.Ok? <==> f.nodeId.Some? && f.metadata.Some?
    ensures r.Err? ==> r.error == ValidationError(if f.nodeId.None? then "node_id" else "metadata")
    ensures r.Ok? ==> r.value.nodeId == f.nodeId.value && r.value.metadata == f.metadata.value
    ensures r.Ok? ==> r.value.npcText == f.npcText.GetOr("") && r.value.choices == f.choices.GetOr([])
    ensures r.Ok? ==> r.value.parentNodeIds == f.parentNodeIds.GetOr([]) && r.value.childNodeIds == f.childNodeIds.GetOr([])
    ensures r.Ok? ==> r.value.narrativeSummary == f.narrativeSummary && r.value.playerGoalHint == f.playerGoalHint
  {
    if f.nodeId.None? then Err(ValidationError("node_id"))
    else if f.metadata.None? then Err(ValidationError("metadata"))
    else Ok(DialogNode(f.nodeId.value, f.npcText.GetOr(""), f.choices.GetOr([]), f.metadata.value,
                       f.parentNodeIds.GetOr([]), f.childNodeIds.GetOr([]), f.narrativeSummary, f.playerGoalHint))
  }

  /** A node built from its id and metadata alone has no text, no choices and no links. */
  lemma MinimalNodeDefaults(nodeId: string, metadata: NodeMetadata)
    ensures NewDialogNode(NodeFields(Some(nodeId), None, None, Some(metadata), None, None, None, None))
         == Ok(DialogNode(nodeId, "", [], metadata, [], [], None, None))
  {
  }

  /**
   * The conversation graph (a directed graph despite the name). The validation
   * score (a float) and the free-form metadata mapping (never set by the core)
   * are not modelled.
   */
  datatype DialogTree = DialogTree(
    rootNodeId: string,
    nodes: Dict<DialogNode>,
    goalAchievementPaths: Option<seq<seq<string>>>)

  /** `DialogTree(root_node_id=..., nodes=...)`: any root and any nodes are accepted; no paths. */
  function NewDialogTree(rootNodeId: string, nodes: Dict<DialogNode>): (t: DialogTree)
    ensures t.rootNodeId == rootNodeId && t.nodes == nodes && t.goalAchievementPaths == None
  {
    DialogTree(rootNodeId, nodes, None)
  }

  // Invariants a well-formed dialogue graph would satisfy; no constructor checks them.

  /** The root is a node and has no parents. */
  ghost predicate RootPresent(t: DialogTree) {
    t.rootNodeId in t.nodes.entries && t.nodes.entries[t.rootNodeId].parentNodeIds == []
  }

  /** Every listed child is a node. */
  ghost predicate NoDanglingChildren(t: DialogTree) {
    forall k, c :: k in t.nodes.entries && c in t.nodes.entries[k].childNodeIds ==> c in t.nodes.entries
  }

  /** Every child link has the matching parent link. */
  ghost predicate LinksSymmetric(t: DialogTree) {
    forall k, c :: k in t.nodes.entries && c in t.nodes.entries[k].childNodeIds && c in t.nodes.entries ==>
      k in t.nodes.entries[c].parentNodeIds
  }

  /** Every node is filed under its own id. */
  ghost predicate IdsMatchKeys(t: DialogTree) {
    forall k :: k in t.nodes.entries ==> t.nodes.entries[k].nodeId == k
  }

  ghost predicate StructurallySound(t: DialogTree) {
    RootPresent(t) && NoDanglingChildren(t) && LinksSymmetric(t) && IdsMatchKeys(t)
  }

  /** A node links to `"ghost"` which does not exist, and the root `"r"` is missing. */
  function UnsoundExample(): DialogTree {
    var n := DialogNode("a", "", [], NodeMetadata(MainPath, None, None, [], []), [], ["ghost"], None, None);
    assert Elems(["a"]) == {"a"};
    NewDialogTree("r", DictRep(["a"], map["a" := n]))
  }

  /** `DialogTree(...)` accepts a graph that breaks the root and dangling-child invariants. */
  lemma ConstructionChecksNoInvariant()
    ensures !RootPresent(UnsoundExample()) && !NoDanglingChildren(UnsoundExample())
    ensures !StructurallySound(UnsoundExample())
  {
    var t := UnsoundExample();
    assert "a" in t.nodes.entries && "ghost" in t.nodes.entries["a"].childNodeIds;
    assert t.nodes.entries.Keys == {"a"} && "ghost" != "a";
    assert "ghost" !in t.nodes.entries;
  }

  /** The non-player character; only its identity matters to the core. */
  datatype Character = Character(name: string, goals: seq<string>)

  /** The input of structure generation; the example dialogues are not modelled. */
  datatype TreeGenerationRequest = TreeGenerationRequest(character: Character, goal: Goal, constraints: Option<Constraints>)

  /** The output of structure generation; the float generation time is not modelled. */
  datatype TreeGenerationResponse = TreeGenerationResponse(
    dialogTree: DialogTree, logs: Option<seq<string>>, recommendations: Option<seq<string>>)

  /** The input of content filling: the graph it fills in place, and the character. */
  class ContentGenerationRequest {
    var dialogTree: DialogTree
    const character: Character

    constructor (dialogTree: DialogTree, character: Character)
      ensures this.dialogTree == dialogTree && this.character == character
    {
      this.dialogTree := dialogTree;
      this.character := character;
    }
  }

  /** The output of content filling; the float generation time is not modelled. */
  datatype ContentGenerationResponse = ContentGenerationResponse(dialogTree: DialogTree, logs: Option<seq<string>>)
}
