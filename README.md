# NPCDialogueGen core, modelled in Dafny

NPCDialogueGen produces branching dialogues for non-player characters in
three model-driven stages.

1. **Structure generation.** A language model proposes the shape of a dialogue graph as a
   JSON document. `TreeGenerator._structure_tree` turns that document into a
   `DialogTree` of `DialogNode`s keyed by id, and fills in the record defaults.
2. **Content writing.** `ContentWriter.fill_dialog_tree` visits every node in the
   dictionary's order. For each node it asks the model for the character's line and the
   player's choices, and it shows the model the node's parents that are in the graph.
   It writes the answer into the node in place.
3. **Validation.** `TreeValidator.validate` asks the model to score the graph against
   a checklist. It declares the graph invalid when any score is 2 or lower.

Two cycle-safe walks serve the prompts. `get_ancestors` follows parent links
breadth-first and returns the discovery order reversed. `bfs` follows child links
first-in-first-out from the root and the other parentless nodes, or from a chosen start.

## How the model is organised

- `Wrappers`: `Option`, `Result` and the kinds of Python exception the core can raise.
- `Seqs`: distinctness, reversal, deduplication and the `Unseen` filter that both
  walks use for their inner loops.
- `Dicts`: a Python `dict` with string keys. It is a map plus the insertion order of
  its keys, which a subset type keeps consistent.
- `Dialog`: the pydantic records of `app/schemas/dialog.py`. Each record is a datatype
  plus a constructor function that applies the field defaults and the `ge`/`le`
  bounds, and that fails with a validation error where pydantic would.
- `Llm`: the language-model client as an `Oracle` class. Its fixed `answer` function
  maps the call number and the query to a decoded reply or an error. Its `log` field
  records every query, so the number and order of calls can be stated. The shared
  registry `llm_clients` is a map from attribute names to clients.
- `TreeIterator`: `get_ancestors` and `bfs` as methods with the source's `while`
  loops. They are proved against reachability predicates and a discovery-order
  predicate.
- `TreeGenerator`: `_structure_tree` as a method over a `GeneratedTree` object. The
  method overwrites the object's entries in place. It is proved against the
  functions `Structure` and `Converted`.
- `ContentWriter`: `_generate_node` and `fill_dialog_tree` as methods that change
  the request's graph and the oracle's log. They are proved against the function
  `Fill`, and `Fill`'s properties are proved as lemmas.
- `TreeValidator`: `validate` as one oracle call followed by the function `Verdict`.

Facts about the code that the model keeps:

- No stage checks the structural invariants of a graph: that the root is present,
  that children exist, that parent and child links mirror each other, or that ids
  match their keys. `Dialog.ConstructionChecksNoInvariant` and
  `TreeGenerator.StructuringChecksNoInvariant` exhibit graphs that are accepted.
- Content is filled in dictionary order, not in breadth-first order.
- No error is ever raised for a choice that routes to a missing node.
- `bfs` takes no depth limit and has no option to exclude the start.
- The other schema modules of the package refer to node and tree record names that
  are not defined in `app/schemas/dialog.py`. The model uses `DialogNode` and
  `DialogTree` of that file throughout.

## Model

| member | source | states |
|---|---|---|
| Dialog.ParseBranchType | app/schemas/dialog.py:12-18 | a string parses to a branch type exactly when it is that type's wire value, and otherwise to nothing |
| Dialog.BranchTypesExactlyFive | app/schemas/dialog.py:12-18 | there are exactly five branch types; their wire values are distinct and each one parses back to its own type |
| Dialog.NewGoal | app/schemas/dialog.py:28-34 | a goal is built exactly when the difficulty is absent or within 1..5; the difficulty defaults to 1, and missing conditions and criteria become empty lists |
| Dialog.NewConstraints | app/schemas/dialog.py:51-58 | absent turn and storyline limits default to 5, 3, 1 and 3; given values are kept |
| Dialog.NewChoice | app/schemas/dialog.py:69-74 | a choice keeps its text and target and has no effects |
| Dialog.NewNodeMetadata | app/schemas/dialog.py:77-85 | metadata is built exactly when the branch type parses and the difficulty is absent or within 1..5; the branch type defaults to main, the lists default to empty, and the failing field is named |
| Dialog.DefaultMetadata | app/schemas/dialog.py:79-84 | metadata built from no fields is main, with no difficulty and empty lists |
| Dialog.NewDialogNode | app/schemas/dialog.py:88-99 | a node is built exactly when the id and the metadata are given; the text defaults to "", and the choices and links default to empty lists |
| Dialog.MinimalNodeDefaults | app/schemas/dialog.py:88-99 | a node built from an id and metadata alone has empty text, no choices and no links |
| Dialog.NewDialogTree | app/schemas/dialog.py:102-108 | a graph keeps its root id and nodes, and its goal paths default to none |
| Dialog.ConstructionChecksNoInvariant | app/schemas/dialog.py:102-108 | a graph whose root is missing and whose child links dangle is still a graph |
| Dialog.ContentGenerationRequest.constructor | app/schemas/dialog.py:128-132 | the request holds the graph and the character it was given |
| Llm.Oracle.Generate | app/services/llm_client.py:112-119 | one call appends its query to the log and returns the answer for that call number |
| Llm.Attribute | app/services/tree_validator.py:11 | looking a client up on the registry succeeds exactly when the registry has that attribute, gives the client under it, and otherwise is an attribute error naming the attribute |
| Llm.ValidatorClientMissing | app/services/llm_client.py:154-158 | the registry as written has no "tree_validator", so the validator's lookup is an attribute error |
| Llm.RegistryServesValidator | app/services/llm_client.py:154-158 | a registry that also holds a validation client serves every client the core asks for, the validator's included |
| TreeIterator.GetAncestors | app/utils/tree_iterator.py:9-40 | fails with "not found" exactly when the id is not a node; otherwise it returns distinct ids that are exactly the ids reachable by one or more parent hops through nodes, in reversed breadth-first discovery order with the start's own distinct parents last |
| TreeIterator.Ancestors | app/utils/tree_iterator.py:18-35 | the loop and the reversal give distinct ids, exactly the ancestors, in reversed discovery order |
| TreeIterator.AncestorsLoop | app/utils/tree_iterator.py:18-33 | the loop of `get_ancestors` ends with an empty queue and the loop invariant: the recorded ids are distinct, visited exactly when recorded, every parent of an expanded node is recorded, and the recording is in discovery order; `AncestorsComplete` turns this into "exactly the ancestors" |
| TreeIterator.VisitParents | app/utils/tree_iterator.py:29-33 | the inner loop marks, records and queues exactly the parents not yet visited, in order |
| TreeIterator.TakeNext | app/utils/tree_iterator.py:22-33 | one turn of the loop keeps the loop invariant and decreases the loop measure |
| TreeIterator.AncestorsComplete | app/utils/tree_iterator.py:22-35 | once every recorded node's parents are recorded, the recorded ids are exactly the ancestors |
| TreeIterator.DiscoveredIsAncestor | app/utils/tree_iterator.py:29-33 | every id discovered upwards from the start is one of its ancestors |
| TreeIterator.AncestorsInClosedSet | app/utils/tree_iterator.py:22-33 | a set closed under parents of nodes, and holding the start's parents, holds every ancestor |
| TreeIterator.NoParentsNoAncestors | app/utils/tree_iterator.py:24-35 | a node without parents has no ancestors |
| TreeIterator.StartOnCycleIsOwnAncestor | app/utils/tree_iterator.py:18-32 | on a two-node cycle the start is among its own ancestors |
| TreeIterator.GetAncestorNodes | app/utils/tree_iterator.py:37-38 | with nodes requested, the call succeeds exactly when the id is a node and every ancestor is a node; otherwise it fails with a key error naming an ancestor that is not a node |
| TreeIterator.NodesOf | app/utils/tree_iterator.py:38 | the lookup succeeds exactly when every id is a node, gives their nodes in order, and otherwise names a missing id |
| TreeIterator.OrphansMembers | app/utils/tree_iterator.py:63-66 | the orphans are exactly the keys whose nodes have no parents and that are not the root; they are distinct |
| TreeIterator.Orphans | app/utils/tree_iterator.py:63-66 | specification of the orphan loop; `OrphansMembers` proves its result is exactly the parentless non-root nodes, distinct and in key order, and `QueueOrphans` proves the loop over the items computes it |
| TreeIterator.Seeds | app/utils/tree_iterator.py:52-66 | specification of what `bfs` queues before its loop; `SeedsSound` proves the seeds are distinct nodes, and `SeedQueue` proves the set-up queues and visits exactly them |
| TreeIterator.SeedsSound | app/utils/tree_iterator.py:52-66 | the seeds are distinct nodes: the start alone when it is a node, nothing when it is not, and otherwise the root if present plus the orphans |
| TreeIterator.SeedQueue | app/utils/tree_iterator.py:49-66 | the set-up queues exactly the seeds and marks them visited |
| TreeIterator.QueueOrphans | app/utils/tree_iterator.py:63-66 | the loop over the items queues and visits the orphans in key order |
| TreeIterator.VisitChildren | app/utils/tree_iterator.py:73-76 | the inner loop queues exactly the children that are nodes and not yet visited, in order |
| TreeIterator.YieldNext | app/utils/tree_iterator.py:68-76 | one turn of the loop yields the head of the queue and its node, visits and queues exactly its unseen children that are nodes, and keeps the loop invariant |
| TreeIterator.DrainLoop | app/utils/tree_iterator.py:68-76 | the loop ends with an empty queue and the loop invariant, and the yielded nodes are the nodes of the yielded ids |
| TreeIterator.Drain | app/utils/tree_iterator.py:68-76 | from queued, visited seeds the loop yields the seeds first, then distinct ids that are exactly the nodes reachable from the seeds, in discovery order, with their nodes |
| TreeIterator.Bfs | app/utils/tree_iterator.py:43-76 | the seeds are yielded first; the ids are distinct and are exactly the nodes reachable from the seeds by child hops through nodes, in first-in-first-out discovery order; an absent start yields nothing; the objects are the nodes of the ids |
| TreeIterator.AbsentStartYieldsNothing | app/utils/tree_iterator.py:52-57 | a start that is not a node gives no seeds, so nothing is yielded |
| TreeIterator.DiscoveredIsReachable | app/utils/tree_iterator.py:68-76 | every discovered id is reachable from the seeds |
| TreeIterator.BfsChecked | app/utils/tree_iterator.py:52-57 | the corrected traversal fails with "not found" exactly when the start is given and is not a node; otherwise it yields the reachable nodes, start first |
| TreeGenerator.ConvertMetadata | app/services/tree_generator.py:34-37 | absent metadata becomes the defaults, a JSON object goes through the metadata constructor, and an already-built record is a type error |
| TreeGenerator.EntryNode | app/services/tree_generator.py:34-41 | specification of building one node from its entry; `EntryNodeSpec` proves when it succeeds and which error comes first |
| TreeGenerator.EntryNodeSpec | app/services/tree_generator.py:34-41 | an entry becomes a node exactly when its metadata converts and it has an id; the metadata error comes first; an entry without metadata gets the default metadata |
| TreeGenerator.FirstFailure | app/services/tree_generator.py:33-41 | the position found is the first failing outcome from the given one on, or the end when none fails |
| TreeGenerator.BuildNodes | app/services/tree_generator.py:33-41 | specification of the loop over the entries; `BuildNodesSticky` proves the first failure is final, and `StructureNodes` proves the loop computes it |
| TreeGenerator.StructureTree | app/services/tree_generator.py:30-47 | the result is the structured document, and the document's "nodes" slot afterwards holds every entry visited up to and including the first failing one |
| TreeGenerator.Structure | app/services/tree_generator.py:30-47 | specification of structuring a decoded reply; `StructureSpec` proves when it fails and with which error, and `StructureNodesSpec` what graph it builds |
| TreeGenerator.StructureNodes | app/services/tree_generator.py:32-41 | the loop builds the nodes key by key and stops at the first error, having rewritten the visited entries |
| TreeGenerator.StructureSpec | app/services/tree_generator.py:30-47 | structuring fails exactly when an entry fails, with the first failing entry's error, or, every entry having built, when the root id is absent; that case is a key error on "root_node_id" |
| TreeGenerator.StructureNodesSpec | app/services/tree_generator.py:32-47 | a structured graph has the document's root, the document's keys in their order, each key's node the one its entry builds, and goal paths defaulting to empty |
| TreeGenerator.BuildNodesSticky | app/services/tree_generator.py:33-41 | once an entry fails, the loop fails with that entry's error |
| TreeGenerator.ConvertedSpec | app/services/tree_generator.py:33-37 | after the pass, the entries up to and including the first failing one are visited and the others are untouched |
| TreeGenerator.RecordsStored | app/services/tree_generator.py:35-41 | after a successful pass, each entry's metadata slot holds exactly the metadata of the node built from it |
| TreeGenerator.SecondPassFails | app/services/tree_generator.py:35-37 | structuring a document a second time fails with a type error, because its metadata slots now hold records |
| TreeGenerator.StructuringChecksNoInvariant | app/services/tree_generator.py:30-47 | a node filed under another id, a dangling child and a missing root are all accepted |
| TreeGenerator.GeneratedTree.constructor | app/services/tree_generator.py:19-28 | the held document is the decoded reply |
| TreeGenerator.TreeGenerator.GenerateStructureTree | app/services/tree_generator.py:49-58 | exactly one model call; its failure and a structuring failure pass through; otherwise the response holds the structured graph with no logs and no recommendations |
| ContentWriter.HistoryOne | app/services/content_writer.py:25-29 | the history of one parent is its node when it is in the graph, and nothing otherwise |
| ContentWriter.HistoryAppend | app/services/content_writer.py:25-29 | the history of two parent lists in a row is their histories in a row |
| ContentWriter.HistoryMembers | app/services/content_writer.py:25-29 | a node is in the history exactly when one of the parent ids is in the graph and names it |
| ContentWriter.HistoryAllPresent | app/services/content_writer.py:25-29 | the history is no longer than the parent list, and when every parent is in the graph it lists their nodes in the order of the parents |
| ContentWriter.History | app/services/content_writer.py:25-29 | specification of the parent history; `HistoryOne`, `HistoryAppend`, `HistoryMembers` and `HistoryAllPresent` prove what it holds and in what order |
| ContentWriter.Query | app/services/content_writer.py:24-35 | specification of one call: the node, its history and the character; `RunFromQuery` and `FillHistory` prove which node and which history each call carries |
| ContentWriter.ChoicesOf | app/services/content_writer.py:40-46 | one choice per reply, in order, with the text and the target defaulting to "" and no effects |
| ContentWriter.Filled | app/services/content_writer.py:39-48 | a filled node keeps its id, metadata, links, summary and hint; its text is the reply's text or "", and its choices are the reply's choices |
| ContentWriter.Turn | app/services/content_writer.py:55-60 | one turn of the loop keeps the key set of the graph; `FillNodes` and `FillAnswers` prove what the turns leave behind |
| ContentWriter.RunFrom | app/services/content_writer.py:55-60 | the rest of the loop from a given key keeps the key set; `RunFromLength`, `RunFromOutside`, `RunFromQuery` and `RunFromHistory` prove its calls and its nodes |
| ContentWriter.RunFromLength | app/services/content_writer.py:55-60 | the rest of the loop makes at most one call per remaining key, exactly one per key when no call fails, and at least one when it fails |
| ContentWriter.Fill | app/services/content_writer.py:50-60 | the whole loop keeps the key set; the `Fill` lemmas below prove its calls, answers and nodes, and `ContentWriter.FillDialogTree` is proved against it |
| ContentWriter.FillCallCount | app/services/content_writer.py:55-60 | filling extends the call log; with no error it makes exactly one call per node, and an error comes from a call |
| ContentWriter.FillCallOrder | app/services/content_writer.py:25-60 | the k-th call of the pass is about the k-th node in dictionary order and carries the request's character |
| ContentWriter.FillAnswers | app/services/content_writer.py:37-60 | every call except an erring last one is answered, and the error of the pass is that last answer's error |
| ContentWriter.FillNodes | app/services/content_writer.py:39-60 | every node afterwards is the original node filled with the answer to its own call, when that call was made and answered, and is untouched otherwise |
| ContentWriter.FillKeepsSkeleton | app/services/content_writer.py:39-60 | filling keeps the key set, and every node keeps its id, metadata, links, summary and hint |
| ContentWriter.FillComplete | app/services/content_writer.py:55-60 | with no error there is one answered call per node, and each node is filled with the answer to its own call |
| ContentWriter.RunFromOutside | app/services/content_writer.py:55-60 | the pass never changes a node it has already passed |
| ContentWriter.RunFromQuery | app/services/content_writer.py:24-60 | the call for a node, when made, carries that node as it was before the pass and the request's character |
| ContentWriter.RunFromHistory | app/services/content_writer.py:24-60 | the call for a key lists its parents as they stand after the turns of the keys before it |
| ContentWriter.FillHistory | app/services/content_writer.py:24-60 | the j-th call of the pass lists the j-th node's parents from the graph as the first j turns have left it, so a parent earlier in key order is shown filled |
| ContentWriter.WithNodes | app/services/content_writer.py:60 | writing the nodes back keeps the key order, the root and the goal paths |
| ContentWriter.ContentWriter.GenerateNode | app/services/content_writer.py:18-48 | exactly one call with the node and its present parents; its failure passes through; otherwise the node is filled with the reply |
| ContentWriter.ContentWriter.FillEntry | app/services/content_writer.py:55-60 | one turn of the loop: one call, and the node under the key is replaced by its filled form or the error is returned |
| ContentWriter.ContentWriter.FillDialogTree | app/services/content_writer.py:50-64 | the request's graph becomes the filled graph and the log becomes the pass's calls; an error passes through; otherwise the response holds the request's own graph and no logs |
| TreeValidator.Min | app/services/tree_validator.py:23 | the minimum is one of the values and is at most each of them |
| TreeValidator.Judge | app/services/tree_validator.py:23 | no scores is an error; otherwise the verdict is valid exactly when every score exceeds 2 |
| TreeValidator.JudgeSpec | app/services/tree_validator.py:22-23 | an empty score map is a "min of an empty sequence" error; the verdict is invalid exactly when some score is 2 or lower, and valid exactly when there are scores and all exceed 2 |
| TreeValidator.JudgeExamples | app/services/tree_validator.py:23 | scores 3, 2 and 5 give invalid; scores 3 and 4 give valid |
| TreeValidator.Verdict | app/services/tree_validator.py:22-28 | a successful verdict requires scores, comments and no "is_valid" of the reply's own, and passes the scores and comments through unchanged; `VerdictSpec` proves each error case |
| TreeValidator.VerdictSpec | app/services/tree_validator.py:22-28 | a verdict comes out exactly when the reply has non-empty scores, comments and no "is_valid" key of its own; each other case is the error it raises, in order; scores and comments pass through unchanged |
| TreeValidator.TreeValidator.GenEval | app/services/tree_validator.py:13-17 | exactly one model call with the request, whose answer is returned |
| TreeValidator.TreeValidator.constructor | app/services/tree_validator.py:10-11 | the validator holds the validation client it is given |
| TreeValidator.TreeValidator.Validate | app/services/tree_validator.py:19-28 | exactly one model call; its failure passes through; otherwise the result is the verdict on its reply; the request is a value and cannot change |

## Left out

- Prompt building (`app/utils/prompts.py`, `as_prompt` in `app/schemas/schema.py`) is not part of this model. The oracle receives the structured query instead of the prompt text.
- The network client, `async`/`await` and the decoding of JSON from reply text are not modelled. The oracle is a parameter, a fixed function of the call number and the query, and its errors stand for every failure of a call.
- Configuration loading (`app/utils/config.py`) is not part of this model.
- Floating-point fields are not modelled: `goal_progress`, `relationship_impact`, `validation_score`, `generation_time` and the sampling temperatures.
- `ChoiceEffect` contents are never interpreted, so they are opaque.
- `Character` is opaque apart from its name and goals.
- JSON `null` values and keys of the wrong type are not modelled. An optional field is present with its declared type, or absent.
- Reply keys the code does not read are not modelled. The only exception is "is_valid" in a validation reply, which matters there.
- TreeValidator.Verdict: scores that are not integers are not modelled. Pydantic would reject them only after `min` has run.
- ContentWriter.ContentWriter.FillDialogTree: the node objects are values. The in-place mutation of a node object is modelled as storing its filled copy under its key, which is what the loop does next. Aliasing of one node object under two keys is not captured.
- ContentWriter.ContentWriter.FillDialogTree: "the same tree instance" is modelled as the response holding the request's graph value after the call.
- TreeGenerator.TreeGenerator.GenerateStructureTree: the response record's `generation_time` is not modelled, because it is a float that is never set.
- TreeIterator.Bfs: the generator is modelled as returning the whole sequence it would yield. Suspending between yields is not captured.
- TreeIterator.GetAncestors: the "not found" message leaves out the rendering of the graph that the source appends, because that rendering is pydantic's `repr`.
- The client registry is modelled as a map from attribute names to clients of one type. The clients' own classes and their configuration are not modelled.
- `tests/test_diag_gen.py` drives a live end-to-end run and is not part of this model.

## Findings

| source | as written | input that shows it | evidently intended | confidence | as-written member | corrected member |
|---|---|---|---|---|---|---|
| app/utils/tree_iterator.py:56-57 | when the start is not a node, the `ValueError` is constructed but never raised, so the traversal silently yields nothing | a graph without a node "x", traversed with start "x" | raise `ValueError` for a start that is not a node, as `get_ancestors` does | not executed | TreeIterator.AbsentStartYieldsNothing | TreeIterator.BfsChecked |
| app/services/tree_validator.py:11 | the validator asks the shared registry for `tree_validator`, but `LLMClients.__init__` (app/services/llm_client.py:154-158) sets only `base_client`, `tree` and `content`, so constructing a `TreeValidator` is an `AttributeError` | `TreeValidator()` with the registry as shipped | a registry that also holds a validation client; the model's `TreeValidator` constructor takes that client directly | not executed | Llm.ValidatorClientMissing | Llm.RegistryServesValidator |
