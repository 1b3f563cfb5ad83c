/**
  The invariant of the iterative depth-first search behind ControlFlowBuilderUtil.postorder,
  and the lemmas that each step of the search (discover an entry point, discover a
  successor, finish a node) keeps it; then the shape of the whole postorder, a forest of
  search trees in increasing order of their roots, and the lemmas that each search from
  an entry point adds one tree to it.
 */
module DepthFirst {
  import opened Seqs
  import opened Flow

  /** Consecutive entries of the DFS stack are edges of the graph. */
  ghost predicate StackIsPath(flow: seq<Instruction>, stack: seq<nat>) {
    stack == [] || IsPath(flow, stack)
  }

  /** Each finished node's successors were finished before it, except a successor that
      reaches back to the node, i.e. one closing a cycle through it. */
  ghost predicate SuccessorsFinishFirst(flow: seq<Instruction>, order: seq<nat>) {
    forall k, v :: 0 <= k < |order| && order[k] < |flow| && v in flow[order[k]].successors ==>
      v in order[..k] || Reaches(flow, v, order[k])
  }

  /** Each node's successors come after it: `order` is a topological order. */
  ghost predicate IsTopologicalOrder(flow: seq<Instruction>, order: seq<nat>) {
    forall k, v :: 0 <= k < |order| && order[k] < |flow| && v in flow[order[k]].successors ==>
      v in order[k + 1..]
  }

  /** The state of the search between two steps: a node is visited exactly when it is on
      the stack (discovered, not finished) or in `order` (finished), never both and never
      twice; the stack is a walk in the graph; a finished node's successors are all
      visited, and finished before it unless they close a cycle through it. */
  ghost predicate DfsInv(flow: seq<Instruction>, visited: seq<bool>, stack: seq<nat>, order: seq<nat>)
  {
    && WellFormed(flow)
    && |visited| == |flow|
    && Below(stack, |flow|) && Below(order, |flow|)
    && Distinct(stack) && Distinct(order)
    && (forall x :: x in stack ==> x !in order)
    && (forall x :: 0 <= x < |flow| ==> (visited[x] <==> x in stack || x in order))
    && StackIsPath(flow, stack)
    && (forall k, v :: 0 <= k < |order| && v in flow[order[k]].successors ==> v < |flow| && visited[v])
    && SuccessorsFinishFirst(flow, order)
  }

  /** Starting a new search from the unvisited node `root` when the stack is empty. */
  lemma DiscoverRoot(flow: seq<Instruction>, visited: seq<bool>, order: seq<nat>, root: nat)
    requires DfsInv(flow, visited, [], order)
    requires root < |flow| && !visited[root]
    ensures DfsInv(flow, visited[root := true], [root], order)
    ensures |order| + 1 <= |flow|
  {
    assert IsPath(flow, [root]);
    DistinctAppend(order, root);
    DistinctBounded(order + [root], |flow|);
  }

  /** Discovering the `i`-th successor of the node on top of the stack: the new stack is
      still a walk, and there was room for one more visited node. */
  lemma PushKeepsInv(flow: seq<Instruction>, visited: seq<bool>, stack: seq<nat>,
                     order: seq<nat>, top: nat, i: nat)
    requires DfsInv(flow, visited, stack, order)
    requires |stack| > 0 && stack[|stack| - 1] == top && top < |flow|
    requires i < |flow[top].successors| && !visited[flow[top].successors[i]]
    ensures var s := flow[top].successors[i];
      && DfsInv(flow, visited[s := true], stack + [s], order)
      && |stack| + |order| < |flow|
  {
    var s := flow[top].successors[i];
    ExtendPath(flow, stack, s);
    DistinctAppend(stack, s);
    var all := stack + [s] + order;
    assert Distinct(all) by {
      forall a, b | 0 <= a < b < |all| ensures all[a] != all[b] {
        if b < |stack| + 1 {
          assert all[a] == (stack + [s])[a] && all[b] == (stack + [s])[b];
        } else if a >= |stack| + 1 {
          assert all[a] == order[a - |stack| - 1] && all[b] == order[b - |stack| - 1];
        } else {
          assert all[a] in stack + [s] && all[b] == order[b - |stack| - 1];
        }
      }
    }
    DistinctBounded(all, |flow|);
  }

  /** Dropping the top of a walk leaves a walk. */
  lemma PopStackIsPath(flow: seq<Instruction>, stack: seq<nat>)
    requires StackIsPath(flow, stack) && |stack| > 0
    ensures StackIsPath(flow, stack[..|stack| - 1])
  {
    var stack' := stack[..|stack| - 1];
    if stack' != [] {
      forall j | 0 < j < |stack'| ensures stack'[j] in flow[stack'[j - 1]].successors {
        assert stack'[j] == stack[j] && stack'[j - 1] == stack[j - 1];
      }
    }
  }

  /** Every node on the stack reaches the top of the stack. */
  lemma StackReachesTop(flow: seq<Instruction>, stack: seq<nat>, m: nat)
    requires StackIsPath(flow, stack) && m < |stack|
    ensures Reaches(flow, stack[m], stack[|stack| - 1])
  {
    var p := stack[m..];
    forall j | 0 < j < |p| ensures p[j] in flow[p[j - 1]].successors {
      assert p[j] == stack[m + j] && p[j - 1] == stack[m + j - 1];
    }
    assert IsPath(flow, p) && p[0] == stack[m] && p[|p| - 1] == stack[|stack| - 1];
  }

  /** The nodes finished from position `start` on are all reachable from `root`. */
  ghost predicate FinishedFrom(flow: seq<Instruction>, root: nat, order: seq<nat>, start: nat) {
    forall k :: start <= k < |order| ==> Reaches(flow, root, order[k])
  }

  /** In a search from `root` (the bottom of the stack), the top of the stack, which is
      finished next, is reachable from `root`. */
  lemma FinishReachableFromRoot(flow: seq<Instruction>, stack: seq<nat>, order: seq<nat>, start: nat)
    requires StackIsPath(flow, stack) && stack != []
    requires FinishedFrom(flow, stack[0], order, start)
    ensures FinishedFrom(flow, stack[0], order + [stack[|stack| - 1]], start)
  {
    StackReachesTop(flow, stack, 0);
    var order' := order + [stack[|stack| - 1]];
    forall k | start <= k < |order'| ensures Reaches(flow, stack[0], order'[k]) {
      if k < |order| {
        assert order'[k] == order[k];
      }
    }
  }

  /** The state of the search from `root` that started when `order0` was finished: the
      stack is a walk from `root`, and the nodes finished since are reachable from `root`,
      with `root` itself last once the stack is empty. */
  ghost predicate SearchingFrom(flow: seq<Instruction>, visited: seq<bool>, stack: seq<nat>,
                                order: seq<nat>, root: nat, order0: seq<nat>)
  {
    && DfsInv(flow, visited, stack, order)
    && (stack != [] ==> stack[0] == root)
    && (stack == [] ==> |order0| < |order| && order[|order| - 1] == root)
    && |order0| <= |order| && order[..|order0|] == order0
    && FinishedFrom(flow, root, order, |order0|)
  }

  /** The search from the unvisited node `root` starts with `root` alone on the stack. */
  lemma StartSearch(flow: seq<Instruction>, visited: seq<bool>, order0: seq<nat>, root: nat)
    requires DfsInv(flow, visited, [], order0) && root < |flow| && !visited[root]
    ensures SearchingFrom(flow, visited[root := true], [root], order0, root, order0)
  {
    DiscoverRoot(flow, visited, order0, root);
  }

  /** The search discovers the `i`-th successor of the node on top of the stack, and there
      was room for one more visited node. */
  lemma PushStep(flow: seq<Instruction>, visited: seq<bool>, stack: seq<nat>, order: seq<nat>,
                 root: nat, order0: seq<nat>, top: nat, i: nat)
    requires SearchingFrom(flow, visited, stack, order, root, order0)
    requires |stack| > 0 && stack[|stack| - 1] == top && top < |flow|
    requires i < |flow[top].successors| && !visited[flow[top].successors[i]]
    ensures var s := flow[top].successors[i];
      && SearchingFrom(flow, visited[s := true], stack + [s], order, root, order0)
      && |stack| + |order| < |flow|
  {
    PushKeepsInv(flow, visited, stack, order, top, i);
  }

  /** The search finishes the node on top of the stack once all its successors are
      visited; when it was the last one on the stack, it is `root`. */
  lemma PopStep(flow: seq<Instruction>, visited: seq<bool>, stack: seq<nat>, order: seq<nat>,
                root: nat, order0: seq<nat>, top: nat)
    requires SearchingFrom(flow, visited, stack, order, root, order0)
    requires |stack| > 0 && stack[|stack| - 1] == top
    requires forall j :: 0 <= j < |flow[top].successors| ==> visited[flow[top].successors[j]]
    ensures SearchingFrom(flow, visited, stack[..|stack| - 1], order + [top], root, order0)
  {
    PopKeepsInv(flow, visited, stack, order, top);
    FinishReachableFromRoot(flow, stack, order, |order0|);
    assert (order + [top])[..|order0|] == order[..|order0|];
  }

  /** Finishing `top` keeps SuccessorsFinishFirst when each successor of `top` is either
      finished or on the stack below it. */
  lemma FinishKeepsOrder(flow: seq<Instruction>, stack: seq<nat>, order: seq<nat>, top: nat)
    requires SuccessorsFinishFirst(flow, order) && StackIsPath(flow, stack)
    requires |stack| > 0 && stack[|stack| - 1] == top && top < |flow|
    requires forall v :: v in flow[top].successors ==> v in order || v in stack
    ensures SuccessorsFinishFirst(flow, order + [top])
  {
    var order' := order + [top];
    forall k, v | 0 <= k < |order'| && order'[k] < |flow| && v in flow[order'[k]].successors
      ensures v in order'[..k] || Reaches(flow, v, order'[k])
    {
      if k < |order| {
        assert order'[..k] == order[..k];
      } else if v in order {
        assert order'[..k] == order;
      } else {
        var m :| 0 <= m < |stack| && stack[m] == v;
        StackReachesTop(flow, stack, m);
      }
    }
  }

  /** Finishing the node `top` on top of the stack once all its successors are visited. */
  lemma PopKeepsInv(flow: seq<Instruction>, visited: seq<bool>, stack: seq<nat>,
                    order: seq<nat>, top: nat)
    requires DfsInv(flow, visited, stack, order)
    requires |stack| > 0 && stack[|stack| - 1] == top
    requires forall j :: 0 <= j < |flow[top].successors| ==> visited[flow[top].successors[j]]
    ensures DfsInv(flow, visited, stack[..|stack| - 1], order + [top])
  {
    var stack', order' := stack[..|stack| - 1], order + [top];
    assert forall x :: x in stack <==> x in stack' || x == top;
    PopStackIsPath(flow, stack);
    FinishKeepsOrder(flow, stack, order, top);
    DistinctAppend(order, top);
    assert forall k, v :: 0 <= k < |order'| && v in flow[order'[k]].successors ==> v < |flow| && visited[v];
  }

  /** A search only finishes more nodes, so no node becomes unvisited. */
  lemma VisitedGrows(flow: seq<Instruction>, visited0: seq<bool>, order0: seq<nat>,
                     visited: seq<bool>, order: seq<nat>)
    requires DfsInv(flow, visited0, [], order0) && DfsInv(flow, visited, [], order)
    requires |order0| <= |order| && order[..|order0|] == order0
    ensures forall x :: 0 <= x < |flow| && visited0[x] ==> visited[x]
  {
    forall x | 0 <= x < |flow| && visited0[x] ensures visited[x] {
      var j :| 0 <= j < |order0| && order0[j] == x;
      assert order[j] == x;
    }
  }

  /** Node `x` starts a search of its own: no smaller node reaches it, so the outer loop
      finds it unvisited when it gets there. */
  ghost predicate IsSearchRoot(flow: seq<Instruction>, x: nat) {
    x < |flow| && forall j :: 0 <= j < x ==> !Reaches(flow, j, x)
  }

  /** `order` is a sequence of search trees, each ending with its root: the roots come in
      increasing order and are all below `bound`, each root comes after everything
      reachable from it, and the node at position `j` belongs to the tree whose root is
      at position `tree[j]`, the first root at or after `j`, which reaches it. */
  ghost predicate IsSearchForest(flow: seq<Instruction>, order: seq<nat>, tree: seq<nat>, bound: nat) {
    && RootsIncreasingBelow(flow, order, bound)
    && RootsFinishLast(flow, order)
    && TreesEndAtRoots(flow, order, tree)
  }

  /** The roots in `order` are below `bound` and come in increasing order. */
  ghost predicate RootsIncreasingBelow(flow: seq<Instruction>, order: seq<nat>, bound: nat) {
    && (forall k {:trigger IsSearchRoot(flow, order[k])} ::
          0 <= k < |order| && IsSearchRoot(flow, order[k]) ==> order[k] < bound)
    && (forall a, b {:trigger IsSearchRoot(flow, order[a]), IsSearchRoot(flow, order[b])} ::
          0 <= a < b < |order| && IsSearchRoot(flow, order[a]) && IsSearchRoot(flow, order[b]) ==>
          order[a] < order[b])
  }

  /** Each root comes after everything reachable from it. */
  ghost predicate RootsFinishLast(flow: seq<Instruction>, order: seq<nat>) {
    forall k, v :: 0 <= k < |order| && IsSearchRoot(flow, order[k]) && Reaches(flow, order[k], v) ==>
      v in order[..k + 1]
  }

  /** A bound on the roots stays a bound when it grows. */
  lemma ForestBoundGrows(flow: seq<Instruction>, order: seq<nat>, tree: seq<nat>, bound: nat, bound': nat)
    requires IsSearchForest(flow, order, tree, bound) && bound <= bound'
    ensures IsSearchForest(flow, order, tree, bound')
  {
  }

  /** `tree[j]` is the position of the first root at or after position `j`, and that
      root reaches the node at `j`. */
  ghost predicate TreesEndAtRoots(flow: seq<Instruction>, order: seq<nat>, tree: seq<nat>) {
    && |tree| == |order|
    && (forall j :: 0 <= j < |order| ==>
          && j <= tree[j] < |order|
          && IsSearchRoot(flow, order[tree[j]])
          && Reaches(flow, order[tree[j]], order[j]))
    && (forall j, m :: 0 <= j <= m < |order| && m < tree[j] ==> !IsSearchRoot(flow, order[m]))
  }

  /** Between two searches the finished nodes are closed under successors, so everything
      reachable from a finished node is finished. */
  lemma FinishedIsClosed(flow: seq<Instruction>, visited: seq<bool>, order: seq<nat>)
    requires DfsInv(flow, visited, [], order)
    ensures forall a, b :: a in order && Reaches(flow, a, b) ==> b in order
  {
    assert ClosedUnderSuccessors(flow, order) by {
      forall k, v | 0 <= k < |order| && order[k] < |flow| && v in flow[order[k]].successors
        ensures v in order
      {
        assert visited[v];
      }
    }
    forall a, b | a in order && Reaches(flow, a, b) ensures b in order {
      ReachableStaysInClosed(flow, order, a, b);
    }
  }

  /** When the outer loop reaches node `i` with every smaller node visited, a node that a
      smaller node reaches is visited already, so an unvisited `i` is a search root. */
  lemma ReachedFromSmallerIsVisited(flow: seq<Instruction>, visited: seq<bool>, order: seq<nat>, i: nat)
    requires DfsInv(flow, visited, [], order)
    requires i < |flow| && forall x :: 0 <= x < i ==> visited[x]
    ensures (exists j :: 0 <= j < i && Reaches(flow, j, i)) ==> visited[i]
  {
    FinishedIsClosed(flow, visited, order);
  }

  /** The nodes a search from the root `i` adds before `i` itself are reachable from `i`
      and were unvisited, so they are above `i` and no search roots. */
  lemma NewNodesAreNotRoots(flow: seq<Instruction>, visited0: seq<bool>, order0: seq<nat>,
                            order: seq<nat>, i: nat)
    requires DfsInv(flow, visited0, [], order0) && Distinct(order) && i < |flow|
    requires forall x :: 0 <= x < i ==> visited0[x]
    requires |order0| < |order| && order[..|order0|] == order0 && order[|order| - 1] == i
    requires FinishedFrom(flow, i, order, |order0|)
    ensures forall k :: |order0| <= k < |order| - 1 ==> !IsSearchRoot(flow, order[k])
  {
    var n0, last := |order0|, |order| - 1;
    forall k | n0 <= k < last ensures !IsSearchRoot(flow, order[k]) {
      assert order[k] != order[last];
      assert order[k] !in order0 by {
        forall a | 0 <= a < n0 ensures order0[a] != order[k] {
          assert order0[a] == order[a];
        }
      }
      assert i < order[k];
      assert Reaches(flow, i, order[k]);
    }
  }

  /** The tree positions after a search that grew the order to `n` nodes: the new nodes
      all belong to the tree of the last one, its root. */
  ghost function GrowTree(tree0: seq<nat>, n: nat): (tree: seq<nat>)
    ensures |tree0| < n ==> |tree| == n
    ensures |tree0| < n ==> forall j :: 0 <= j < |tree0| ==> tree[j] == tree0[j]
    ensures |tree0| < n ==> forall j :: |tree0| <= j < n ==> tree[j] == n - 1
  {
    if |tree0| < n then tree0 + seq(n - |tree0|, _ => n - 1) else tree0
  }

  /** After the search from `i`, the nodes of the new tree belong to the tree of `i`,
      and the old nodes keep their trees. */
  lemma NewTreeBelowRoot(flow: seq<Instruction>, order0: seq<nat>, tree0: seq<nat>, order: seq<nat>, i: nat)
    requires TreesEndAtRoots(flow, order0, tree0) && IsSearchRoot(flow, i)
    requires |order0| < |order| && order[..|order0|] == order0 && order[|order| - 1] == i
    requires FinishedFrom(flow, i, order, |order0|)
    requires forall k :: |order0| <= k < |order| - 1 ==> !IsSearchRoot(flow, order[k])
    ensures TreesEndAtRoots(flow, order, GrowTree(tree0, |order|))
  {
    var n0, last := |order0|, |order| - 1;
    var tree := GrowTree(tree0, |order|);
    forall j | 0 <= j < |order|
      ensures j <= tree[j] < |order|
      ensures IsSearchRoot(flow, order[tree[j]]) && Reaches(flow, order[tree[j]], order[j])
    {
      if j < n0 {
        assert order[j] == order0[j] && order[tree0[j]] == order0[tree0[j]];
      } else {
        assert tree[j] == last && order[last] == i;
      }
    }
    forall j, m | 0 <= j <= m < |order| && m < tree[j] ensures !IsSearchRoot(flow, order[m]) {
      if j < n0 {
        assert order[m] == order0[m];
      }
    }
  }

  /** The new root `i` is above every old root, which are all below `i`. */
  lemma NewRootIncreases(flow: seq<Instruction>, order0: seq<nat>, order: seq<nat>, i: nat)
    requires RootsIncreasingBelow(flow, order0, i)
    requires |order0| < |order| && order[..|order0|] == order0 && order[|order| - 1] == i
    requires forall k :: |order0| <= k < |order| - 1 ==> !IsSearchRoot(flow, order[k])
    ensures RootsIncreasingBelow(flow, order, i + 1)
  {
    assert forall k :: 0 <= k < |order0| ==> order[k] == order0[k];
  }

  /** The new root `i` comes after everything reachable from it, since the finished nodes
      are closed under successors, and the old roots keep their trees in front of them. */
  lemma NewRootFinishesLast(flow: seq<Instruction>, visited: seq<bool>, order0: seq<nat>, order: seq<nat>)
    requires RootsFinishLast(flow, order0) && DfsInv(flow, visited, [], order)
    requires |order0| < |order| && order[..|order0|] == order0
    requires forall k :: |order0| <= k < |order| - 1 ==> !IsSearchRoot(flow, order[k])
    ensures RootsFinishLast(flow, order)
  {
    var n0, last := |order0|, |order| - 1;
    forall k | 0 <= k < n0 ensures order[k] == order0[k] && order[..k + 1] == order0[..k + 1] {
      assert order[..k + 1] == order[..n0][..k + 1];
    }
    FinishedIsClosed(flow, visited, order);
    assert order[..last + 1] == order;
  }

  /** A completed search from the root `i` extends the forest by one tree. */
  lemma SearchExtendsForest(flow: seq<Instruction>, visited0: seq<bool>, order0: seq<nat>, tree0: seq<nat>,
                            visited: seq<bool>, order: seq<nat>, i: nat)
    requires DfsInv(flow, visited0, [], order0) && DfsInv(flow, visited, [], order)
    requires IsSearchForest(flow, order0, tree0, i) && IsSearchRoot(flow, i)
    requires forall x :: 0 <= x < i ==> visited0[x]
    requires |order0| < |order| && order[..|order0|] == order0 && order[|order| - 1] == i
    requires FinishedFrom(flow, i, order, |order0|)
    ensures IsSearchForest(flow, order, GrowTree(tree0, |order|), i + 1)
  {
    NewNodesAreNotRoots(flow, visited0, order0, order, i);
    NewTreeBelowRoot(flow, order0, tree0, order, i);
    NewRootIncreases(flow, order0, order, i);
    NewRootFinishesLast(flow, visited, order0, order);
  }

  /** The state of the outer loop of the postorder when it reaches node `i`: no search
      is under way, every node below `i` is visited, and the finished nodes form a
      search forest whose roots are below `i`. */
  ghost predicate SearchedBelow(flow: seq<Instruction>, visited: seq<bool>, order: seq<nat>,
                                tree: seq<nat>, i: nat)
  {
    && DfsInv(flow, visited, [], order)
    && i <= |flow|
    && (forall x :: 0 <= x < i ==> visited[x])
    && IsSearchForest(flow, order, tree, i)
  }

  /** The outer loop passes over a node that an earlier search has visited. */
  lemma SkipVisited(flow: seq<Instruction>, visited: seq<bool>, order: seq<nat>, tree: seq<nat>, i: nat)
    requires SearchedBelow(flow, visited, order, tree, i) && i < |flow| && visited[i]
    ensures SearchedBelow(flow, visited, order, tree, i + 1)
  {
    ForestBoundGrows(flow, order, tree, i, i + 1);
  }

  /** The outer loop finds node `i` unvisited: no smaller node reaches it. */
  lemma UnvisitedIsRoot(flow: seq<Instruction>, visited: seq<bool>, order: seq<nat>, tree: seq<nat>, i: nat)
    requires SearchedBelow(flow, visited, order, tree, i) && i < |flow| && !visited[i]
    ensures IsSearchRoot(flow, i)
  {
    ReachedFromSmallerIsVisited(flow, visited, order, i);
  }

  /** The outer loop finds node `i` unvisited and searches from it: the search marks
      `i` and adds one tree, rooted at `i`, to the forest. */
  lemma SearchFromUnvisited(flow: seq<Instruction>, visited0: seq<bool>, order0: seq<nat>, tree0: seq<nat>,
                            visited: seq<bool>, order: seq<nat>, i: nat)
    requires SearchedBelow(flow, visited0, order0, tree0, i) && i < |flow| && !visited0[i]
    requires DfsInv(flow, visited, [], order)
    requires |order0| < |order| && order[..|order0|] == order0 && order[|order| - 1] == i
    requires FinishedFrom(flow, i, order, |order0|)
    ensures SearchedBelow(flow, visited, order, GrowTree(tree0, |order|), i + 1)
  {
    UnvisitedIsRoot(flow, visited0, order0, tree0, i);
    VisitedUpTo(flow, visited0, order0, visited, order, i);
    SearchExtendsForest(flow, visited0, order0, tree0, visited, order, i);
  }

  /** After the search from `i`, every node up to `i` is visited. */
  lemma VisitedUpTo(flow: seq<Instruction>, visited0: seq<bool>, order0: seq<nat>,
                    visited: seq<bool>, order: seq<nat>, i: nat)
    requires DfsInv(flow, visited0, [], order0) && DfsInv(flow, visited, [], order)
    requires i < |flow| && forall x :: 0 <= x < i ==> visited0[x]
    requires |order0| < |order| && order[..|order0|] == order0 && order[|order| - 1] == i
    ensures forall x :: 0 <= x < i + 1 ==> visited[x]
  {
    VisitedGrows(flow, visited0, order0, visited, order);
    assert visited[i] by {
      assert order[|order| - 1] == i;
    }
  }

  /** Node 0 is a search root, so it comes after every node reachable from it. */
  lemma NodeZeroFinishesLast(flow: seq<Instruction>, order: seq<nat>)
    requires RootsFinishLast(flow, order) && Distinct(order)
    ensures forall j, k :: 0 <= j < |order| && 0 <= k < |order| && order[k] == 0 && Reaches(flow, 0, order[j]) ==> j <= k
  {
    forall j, k | 0 <= j < |order| && 0 <= k < |order| && order[k] == 0 && Reaches(flow, 0, order[j])
      ensures j <= k
    {
      assert IsSearchRoot(flow, order[k]);
      var j' :| 0 <= j' <= k && order[j'] == order[j];
    }
  }

  /** Once every node has been visited and the stack is empty, the order is a permutation
      of the node numbers. */
  lemma SearchComplete(flow: seq<Instruction>, visited: seq<bool>, order: seq<nat>)
    requires DfsInv(flow, visited, [], order)
    requires forall x :: 0 <= x < |flow| ==> visited[x]
    ensures IsPermutationOfRange(order, |flow|)
  {
    assert forall x :: 0 <= x < |flow| ==> x in order;
    CoversRange(order, |flow|);
  }
}
