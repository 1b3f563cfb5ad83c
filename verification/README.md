# ControlFlowBuilderUtil, modelled in Dafny

A model of the graph and dataflow helpers of the Groovy plugin's
`ControlFlowBuilderUtil`. The plugin's flow builder turns a Groovy method or closure
into an array of instructions. Each instruction knows its successors, and some of
them read or write a local variable. The model covers:

- `postorder`: an iterative depth-first search over the instruction graph. It uses an
  explicit stack and a `visited` array, and a labelled `continue dfs` resumes the
  search from a newly discovered successor. It restarts from every unvisited
  instruction, because a flow may have several entry points; the graph may also have
  cycles.
- `reversePostorder`: the postorder reversed.
- `buildNamesIndex`: numbers the variable names densely, in the order of their first
  access.
- The extraction loop of `getReadsWithoutPriorWrites`: it walks the set bits of the
  read-before-write analysis' final state and casts the instructions at those
  positions.
- `isLastStatementInCaseSection`: asks whether control falling out of a case section
  leaves the switch.
- The case-section branch of `isCertainlyReturnStatement` that calls
  `isLastStatementInCaseSection`.

Files:

- `flow.dfy` (module `Flow`): the instruction graph, walks and reachability, and the
  first access to a name.
- `seqs.dfy` (module `Seqs`): distinctness, permutations of `0..N-1`, and reversal
  (`ArrayUtil.reverseArray`).
- `depth_first.dfy` (module `DepthFirst`): the invariant of the depth-first search, and
  one lemma per step of the search.
- `names_index.dfy` (module `NamesIndex`): what a correct name numbering is, and how
  each instruction extends it.
- `bit_sets.dfy` (module `BitSets`): `java.util.BitSet.nextSetBit` over bit sets
  indexed by Java ints.
- `control_flow_builder_util.dfy` (module `ControlFlowBuilderUtil`): the operations
  themselves, written as methods with the source's loops.

Instruction numbers are array indices, so `flow[i]` is the instruction whose `num()`
is `i`.

## Model

| member | source | states |
|---|---|---|
| `ControlFlowBuilderUtil.SearchFrom` | plugins/groovy/groovy-psi/src/org/jetbrains/plugins/groovy/lang/psi/controlFlow/ControlFlowBuilderUtil.java:84-101 | The search from an unvisited root keeps the search invariant. It appends at least one node to the order, the root last, and leaves the earlier order as a prefix. Every node it appends is reachable from the root. |
| `ControlFlowBuilderUtil.Postorder` | plugins/groovy/groovy-psi/src/org/jetbrains/plugins/groovy/lang/psi/controlFlow/ControlFlowBuilderUtil.java:74-106 | The result holds every instruction number `0..N-1` exactly once, which is the length-N assertion. Every successor of a node is emitted before it unless it reaches back to the node. The result is a sequence of search trees: each tree ends with its root, and the roots are exactly the nodes that no smaller node reaches, in increasing order. Each root comes after everything reachable from it, and each node belongs to the first root at or after it, which reaches it. In particular node 0 comes after every node reachable from 0. |
| `ControlFlowBuilderUtil.ReversedPostorderIsTopological` | plugins/groovy/groovy-psi/src/org/jetbrains/plugins/groovy/lang/psi/controlFlow/ControlFlowBuilderUtil.java:66-72 | In an acyclic graph, reversing an order that finishes successors first lists every node before all of its successors. This is the "topological order" the doc comment promises. |
| `ControlFlowBuilderUtil.ReversePostorder` | plugins/groovy/groovy-psi/src/org/jetbrains/plugins/groovy/lang/psi/controlFlow/ControlFlowBuilderUtil.java:70-72 | The result is exactly the reverse of a postorder that has all four of Postorder's guarantees: a permutation of `0..N-1`, successors finished first except along a cycle, a search forest with increasing roots, and node 0 after everything reachable from it. The result is itself a permutation of `0..N-1`, and it is topological whenever the graph is acyclic. |
| `DepthFirst.DiscoverRoot` | plugins/groovy/groovy-psi/src/org/jetbrains/plugins/groovy/lang/psi/controlFlow/ControlFlowBuilderUtil.java:82-85 | Pushing and marking an unvisited root on the empty stack keeps the search invariant. It also leaves room for the root among the N nodes. |
| `DepthFirst.PushKeepsInv` | plugins/groovy/groovy-psi/src/org/jetbrains/plugins/groovy/lang/psi/controlFlow/ControlFlowBuilderUtil.java:91-96 | Pushing and marking an unvisited successor of the top keeps the invariant. The stack stays a walk, and nothing is pushed twice or both pushed and finished. |
| `DepthFirst.PopStackIsPath` | plugins/groovy/groovy-psi/src/org/jetbrains/plugins/groovy/lang/psi/controlFlow/ControlFlowBuilderUtil.java:100 | Popping the stack leaves a walk of the graph. |
| `DepthFirst.StackReachesTop` | plugins/groovy/groovy-psi/src/org/jetbrains/plugins/groovy/lang/psi/controlFlow/ControlFlowBuilderUtil.java:87-96 | Every node on the stack reaches the node on top of it. |
| `DepthFirst.FinishKeepsOrder` | plugins/groovy/groovy-psi/src/org/jetbrains/plugins/groovy/lang/psi/controlFlow/ControlFlowBuilderUtil.java:99 | Emitting the top keeps "successors finish first, except along a cycle" when each of its successors is finished or on the stack. |
| `DepthFirst.PopKeepsInv` | plugins/groovy/groovy-psi/src/org/jetbrains/plugins/groovy/lang/psi/controlFlow/ControlFlowBuilderUtil.java:99-100 | Emitting and popping the top keeps the invariant, provided every one of its successors is visited. Only then does the source append a node. |
| `DepthFirst.VisitedGrows` | plugins/groovy/groovy-psi/src/org/jetbrains/plugins/groovy/lang/psi/controlFlow/ControlFlowBuilderUtil.java:82-83 | A search never unmarks a node, so the outer loop skips every node finished earlier. |
| `DepthFirst.FinishReachableFromRoot` | plugins/groovy/groovy-psi/src/org/jetbrains/plugins/groovy/lang/psi/controlFlow/ControlFlowBuilderUtil.java:87-100 | In a search from a root, the node emitted next, the top of the stack, is reachable from the root, as are all nodes emitted earlier in that search. |
| `DepthFirst.StartSearch` | plugins/groovy/groovy-psi/src/org/jetbrains/plugins/groovy/lang/psi/controlFlow/ControlFlowBuilderUtil.java:84-85 | Pushing and marking an unvisited root starts a search from it in the search-from-root invariant. |
| `DepthFirst.PushStep` | plugins/groovy/groovy-psi/src/org/jetbrains/plugins/groovy/lang/psi/controlFlow/ControlFlowBuilderUtil.java:91-96 | Discovering an unvisited successor keeps the search-from-root invariant, and there was room for one more visited node. |
| `DepthFirst.PopStep` | plugins/groovy/groovy-psi/src/org/jetbrains/plugins/groovy/lang/psi/controlFlow/ControlFlowBuilderUtil.java:99-100 | Emitting and popping the top, once all its successors are visited, keeps the search-from-root invariant. When the stack becomes empty, the node emitted last is the root. |
| `DepthFirst.FinishedIsClosed` | plugins/groovy/groovy-psi/src/org/jetbrains/plugins/groovy/lang/psi/controlFlow/ControlFlowBuilderUtil.java:82-101 | Between two searches, everything reachable from an emitted node is emitted. |
| `DepthFirst.ReachedFromSmallerIsVisited` | plugins/groovy/groovy-psi/src/org/jetbrains/plugins/groovy/lang/psi/controlFlow/ControlFlowBuilderUtil.java:82-83 | When the outer loop reaches `i`, a node that some smaller node reaches is visited already, so an unvisited `i` starts a search tree. |
| `DepthFirst.UnvisitedIsRoot` | plugins/groovy/groovy-psi/src/org/jetbrains/plugins/groovy/lang/psi/controlFlow/ControlFlowBuilderUtil.java:82-83 | A node the outer loop finds unvisited is reached from no smaller node. |
| `DepthFirst.NewNodesAreNotRoots` | plugins/groovy/groovy-psi/src/org/jetbrains/plugins/groovy/lang/psi/controlFlow/ControlFlowBuilderUtil.java:84-101 | The nodes a search from `i` emits before `i` are reached from `i`, so they are not roots of a search of their own. |
| `DepthFirst.NewTreeBelowRoot` | plugins/groovy/groovy-psi/src/org/jetbrains/plugins/groovy/lang/psi/controlFlow/ControlFlowBuilderUtil.java:84-101 | After the search from `i`, its nodes belong to the tree of `i`, and earlier nodes keep their trees. |
| `DepthFirst.NewRootIncreases` | plugins/groovy/groovy-psi/src/org/jetbrains/plugins/groovy/lang/psi/controlFlow/ControlFlowBuilderUtil.java:82-101 | The new root `i` is above every earlier root. |
| `DepthFirst.NewRootFinishesLast` | plugins/groovy/groovy-psi/src/org/jetbrains/plugins/groovy/lang/psi/controlFlow/ControlFlowBuilderUtil.java:84-101 | The new root `i` comes after everything reachable from it, and earlier roots keep that property. |
| `DepthFirst.SearchExtendsForest` | plugins/groovy/groovy-psi/src/org/jetbrains/plugins/groovy/lang/psi/controlFlow/ControlFlowBuilderUtil.java:84-101 | A completed search from the root `i` extends the forest of search trees by one tree. |
| `DepthFirst.SkipVisited` | plugins/groovy/groovy-psi/src/org/jetbrains/plugins/groovy/lang/psi/controlFlow/ControlFlowBuilderUtil.java:83 | Skipping a visited node keeps the outer loop's invariant for one more node. |
| `DepthFirst.VisitedUpTo` | plugins/groovy/groovy-psi/src/org/jetbrains/plugins/groovy/lang/psi/controlFlow/ControlFlowBuilderUtil.java:82-101 | After the search from `i`, every node up to `i` is visited. |
| `DepthFirst.SearchFromUnvisited` | plugins/groovy/groovy-psi/src/org/jetbrains/plugins/groovy/lang/psi/controlFlow/ControlFlowBuilderUtil.java:82-101 | A search from the unvisited node `i` keeps the outer loop's invariant for one more node, with one more tree. |
| `DepthFirst.NodeZeroFinishesLast` | plugins/groovy/groovy-psi/src/org/jetbrains/plugins/groovy/lang/psi/controlFlow/ControlFlowBuilderUtil.java:82-101 | Node 0 is always a root, so it comes after every node reachable from it. |
| `DepthFirst.SearchComplete` | plugins/groovy/groovy-psi/src/org/jetbrains/plugins/groovy/lang/psi/controlFlow/ControlFlowBuilderUtil.java:104 | Once every node is visited and the stack is empty, the order is a permutation of `0..N-1`, so it has length N. |
| `Flow.ReachableStaysInClosed` | plugins/groovy/groovy-psi/src/org/jetbrains/plugins/groovy/lang/psi/controlFlow/ControlFlowBuilderUtil.java:91-96 | A set of nodes closed under successors contains everything reachable from its members. |
| `Seqs.Reversed` | plugins/groovy/groovy-psi/src/org/jetbrains/plugins/groovy/lang/psi/controlFlow/ControlFlowBuilderUtil.java:71 | `ArrayUtil.reverseArray` keeps the length and puts element `k` at position `N-1-k`. |
| `Seqs.ReversedIsPermutation` | plugins/groovy/groovy-psi/src/org/jetbrains/plugins/groovy/lang/psi/controlFlow/ControlFlowBuilderUtil.java:71 | Reversing a permutation of `0..N-1` gives one. |
| `Flow.FirstUse` | plugins/groovy/groovy-psi/src/org/jetbrains/plugins/groovy/lang/psi/controlFlow/ControlFlowBuilderUtil.java:130-133 | Gives the position of the first instruction that reads or writes a name. No earlier instruction accesses it. |
| `NamesIndex.SkipKeepsNumbering` | plugins/groovy/groovy-psi/src/org/jetbrains/plugins/groovy/lang/psi/controlFlow/ControlFlowBuilderUtil.java:130-133 | An instruction that accesses no variable, or one already numbered, leaves the numbering correct for one more instruction. |
| `NamesIndex.FirstAccessExtendsNumbering` | plugins/groovy/groovy-psi/src/org/jetbrains/plugins/groovy/lang/psi/controlFlow/ControlFlowBuilderUtil.java:131-135 | The first access to a name that is not yet numbered gives it the next number, `idx++`. |
| `NamesIndex.NumberingIsInjective` | plugins/groovy/groovy-psi/src/org/jetbrains/plugins/groovy/lang/psi/controlFlow/ControlFlowBuilderUtil.java:134 | A numbering in order of first access never gives two names one number. |
| `ControlFlowBuilderUtil.BuildNamesIndex` | plugins/groovy/groovy-psi/src/org/jetbrains/plugins/groovy/lang/psi/controlFlow/ControlFlowBuilderUtil.java:127-139 | The keys are exactly the names some instruction accesses. The numbers are distinct and lie in `0..k-1` for k names. One name's number is below another's exactly when it is first accessed earlier. |
| `BitSets.NextSetBit` | plugins/groovy/groovy-psi/src/org/jetbrains/plugins/groovy/lang/psi/controlFlow/ControlFlowBuilderUtil.java:120 | `nextSetBit(from)` is the first set bit at or after `from`. It is -1 exactly when there is none. |
| `BitSets.SetBitsFromMeaning` | plugins/groovy/groovy-psi/src/org/jetbrains/plugins/groovy/lang/psi/controlFlow/ControlFlowBuilderUtil.java:120-121 | About `SetBitsFrom`, the positions the loop visits: they are exactly the set bits from `from` up to, but not including, `Integer.MAX_VALUE`, in strictly increasing order. |
| `BitSets.NextSetBitEnumerates` | plugins/groovy/groovy-psi/src/org/jetbrains/plugins/groovy/lang/psi/controlFlow/ControlFlowBuilderUtil.java:120-121 | Stepping with `nextSetBit(i + 1)` visits those positions one by one. A result of -1 ends the walk, and so does a bit at `Integer.MAX_VALUE`. |
| `ControlFlowBuilderUtil.ReadInstructionsMeaning` | plugins/groovy/groovy-psi/src/org/jetbrains/plugins/groovy/lang/psi/controlFlow/ControlFlowBuilderUtil.java:122 | About `ReadInstructions`, the cast of the instructions at given positions: it succeeds exactly when each position holds a read/write instruction, and it then lists those instructions. Otherwise it fails at the first bad position: IndexOutOfBounds past the flow, ClassCast inside it. |
| `ControlFlowBuilderUtil.ReadInstructionsAppend` | plugins/groovy/groovy-psi/src/org/jetbrains/plugins/groovy/lang/psi/controlFlow/ControlFlowBuilderUtil.java:119-123 | Accumulating the result one instruction at a time gives the result of casting all the positions at once. |
| `ControlFlowBuilderUtil.ReadNextPosition` | plugins/groovy/groovy-psi/src/org/jetbrains/plugins/groovy/lang/psi/controlFlow/ControlFlowBuilderUtil.java:120-123 | One loop step: the next set bit is the next position to read. Reading it either extends the result or decides the whole extraction's failure. |
| `ControlFlowBuilderUtil.GetReadsWithoutPriorWrites` | plugins/groovy/groovy-psi/src/org/jetbrains/plugins/groovy/lang/psi/controlFlow/ControlFlowBuilderUtil.java:108-125 | A timed-out analysis gives no reads. An empty state list fails as `get(-1)` does. Otherwise the result is the cast of the instructions at the last state's set read bits, in increasing order. |
| `ControlFlowBuilderUtil.ExtractionSucceedsIff` | plugins/groovy/groovy-psi/src/org/jetbrains/plugins/groovy/lang/psi/controlFlow/ControlFlowBuilderUtil.java:118-124 | The extraction succeeds exactly when every set read bit below `Integer.MAX_VALUE` marks a read/write instruction. It then returns one instruction per set bit, in increasing order of their numbers. |
| `ControlFlowBuilderUtil.Find` | plugins/groovy/groovy-psi/src/org/jetbrains/plugins/groovy/lang/psi/controlFlow/ControlFlowBuilderUtil.java:232 | `ArrayUtilRt.find` gives the first position of the section, or -1 exactly when the section is absent. |
| `ControlFlowBuilderUtil.IsLastStatementInCaseSection` | plugins/groovy/groovy-psi/src/org/jetbrains/plugins/groovy/lang/psi/controlFlow/ControlFlowBuilderUtil.java:230-246 | True exactly when every statement of every section after the found position is a break. This includes the last section, which has none after it, and a section that is not found, for which every section is checked. |
| `ControlFlowBuilderUtil.UpToBreak` | plugins/groovy/groovy-psi/src/org/jetbrains/plugins/groovy/lang/psi/controlFlow/ControlFlowBuilderUtil.java:213-246 | What runs of a statement sequence before a break leaves the switch: a prefix with no break before its last element, ending with a break unless it is the whole sequence. |
| `ControlFlowBuilderUtil.FlattenOnlyBreaks` | plugins/groovy/groovy-psi/src/org/jetbrains/plugins/groovy/lang/psi/controlFlow/ControlFlowBuilderUtil.java:237-244 | Falling through sections that hold only breaks runs only breaks. |
| `ControlFlowBuilderUtil.CaseSectionRuleIsSound` | plugins/groovy/groovy-psi/src/org/jetbrains/plugins/groovy/lang/psi/controlFlow/ControlFlowBuilderUtil.java:213-246 | Whenever a statement ends the switch's flow by the source's rule, every statement in `RunAfter`, the statements that run after it until control leaves the switch, is a break. |
| `ControlFlowBuilderUtil.IsCertainlyReturnInCaseSection` | plugins/groovy/groovy-psi/src/org/jetbrains/plugins/groovy/lang/psi/controlFlow/ControlFlowBuilderUtil.java:213-227 | A statement of a case section provides the return value exactly when the switch does and the statement ends the switch's flow: it is directly followed by its section's closing break, or it ends its section and is a break or is followed only by breaks. A statement outside the section never does. The rule is sound: when it answers true for a statement of a section without repeated statements, every statement that runs after it before control leaves the switch (`RunAfter`) is a break. |

## Left out

- The read-before-write analysis itself (`DFAEngine`, `ReadBeforeWriteInstance`, `ReadBeforeWriteSemilattice`) and its wall-clock timeout are not part of this model. Its result is an input: `None` for a timeout, or else the list of states. Only the read bit set of a state is modelled.
- `onlyFirstRead` only configures that analysis, so it is not a parameter of `GetReadsWithoutPriorWrites`. `buildNamesIndex` also only feeds that analysis.
- `isInstanceOfBinary` and `findClassByText` are not part of this model. They depend on the project's short-names cache, the resolve scope and import lookup.
- `resolveNonQualifiedRefWithoutFlow` is not part of this model. It is a resolve-processor walk over the PSI tree.
- `isCertainlyReturnStatement` is modelled only in its case-section branch. The recursive answer for the enclosing switch statement is an input, `switchIsCertainlyReturn`, and the other branches are PSI parent navigation.
- `LOG.assertTrue(result.size() == N)` appears as Postorder's permutation postcondition. The logging itself is not modelled.
- Instructions are identified by their numbers. `allSuccessors()` is a sequence of successor numbers, and `WellFormed` requires each of them to lie below N, as the flow builder guarantees. The returned read instructions are instruction values, not object identities.
- IsCertainlyReturnInCaseSection: its soundness clause holds only for sections whose statements are distinct, as PSI elements are. The rule is also conservative, and the model does not claim the converse: a statement followed by a break and then by further statements of its section has only a break after it, yet the source answers false.
- Fall-through is modelled only through breaks. Other statements that leave a switch, such as `return`, `continue` or `throw`, are treated like any non-break statement.
- PSI statements and case sections are compared by identity. In the model, each carries an `id` standing for its identity.
- `SearchFrom` is the body of the source's outer loop, from pushing a root to the emptying of the stack, made a method of its own. It takes the same steps, in the same order.
- ReversePostorder: its contract says the result is the reverse of a postorder that has all of Postorder's guarantees. It does not say that this is the result of a separate call of `Postorder`, because a method cannot appear in a contract. The body does call `Postorder`.
- `IntStack` and `IntArrayList` are sequences. The `visited` array is an `array<bool>`.
- Java's `int` width matters only for the bit index `Integer.MAX_VALUE`, which is modelled explicitly. Name numbers cannot overflow, because there are no more names than instructions.
