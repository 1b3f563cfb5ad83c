/**
  ControlFlowBuilderUtil: orderings of the instruction graph (postorder, reverse
  postorder), the dense numbering of variable names handed to the read-before-write
  analysis, the extraction of that analysis' reads, and the switch-statement rule of
  the return-statement classifier.
 */
module ControlFlowBuilderUtil {
  import opened Seqs
  import opened Flow
  import opened DepthFirst
  import opened NamesIndex
  import opened BitSets

  // ---------------------------------------------------------------------------
  // postorder / reversePostorder
  // ---------------------------------------------------------------------------

  /** The depth-first search from the unvisited entry point `root`: pushes and marks
      `root`, then repeatedly looks at the top of the stack and either pushes and marks
      its first unvisited successor or, when there is none, emits it and pops it.
      Returns the order extended by the nodes finished in this search, `root` last. */
  method SearchFrom(flow: seq<Instruction>, visited: array<bool>, root: nat, order0: seq<nat>)
    returns (order: seq<nat>)
    requires DfsInv(flow, visited[..], [], order0)
    requires root < visited.Length && !visited[root]
    modifies visited
    ensures DfsInv(flow, visited[..], [], order)
    ensures |order0| < |order| && order[..|order0|] == order0 && order[|order| - 1] == root
    ensures forall k :: |order0| <= k < |order| ==> Reaches(flow, root, order[k])
  {
    var stack: seq<nat> := [];
    order := order0;
    ghost var visitedAtRoot := visited[..];
    StartSearch(flow, visitedAtRoot, order, root);
    stack := stack + [root];
    visited[root] := true;
    assert visited[..] == visitedAtRoot[root := true];

    label Dfs:
    while stack != []
      invariant SearchingFrom(flow, visited[..], stack, order, root, order0)
      decreases |flow| - |stack| - |order|, |stack|
    {
      var current := stack[|stack| - 1];
      ghost var visitedAtPeek, stackAtPeek := visited[..], stack;
      var successors := flow[current].successors;
      for k := 0 to |successors|
        invariant visited[..] == visitedAtPeek && stack == stackAtPeek
        invariant forall j :: 0 <= j < k ==> visited[successors[j]]
      {
        var successor := successors[k];
        if visited[successor] {
          continue;
        }
        PushStep(flow, visitedAtPeek, stack, order, root, order0, current, k);
        stack := stack + [successor];
        visited[successor] := true;  // discover successor
        assert visited[..] == visitedAtPeek[successor := true];
        continue Dfs;  // go on from the newly discovered successor
      }
      PopStep(flow, visited[..], stack, order, root, order0, current);
      order := order + [current];  // all successors are visited: finish current
      stack := stack[..|stack| - 1];
    }
  }

  /** The node numbers of `flow` in depth-first postorder: the search restarts from each
      node not yet visited, in increasing order (the graph may have several entry points
      and cycles), and a node is emitted once all its successors have been visited. */
  method Postorder(flow: seq<Instruction>) returns (order: seq<nat>)
    requires WellFormed(flow)
    ensures IsPermutationOfRange(order, |flow|)
    ensures SuccessorsFinishFirst(flow, order)
    ensures exists tree :: IsSearchForest(flow, order, tree, |flow|)
    ensures forall j, k :: 0 <= j < |order| && 0 <= k < |order| && order[k] == 0 && Reaches(flow, 0, order[j]) ==> j <= k
  {
    var n := |flow|;
    var visited := new bool[n](_ => false);
    order := [];
    ghost var tree: seq<nat> := [];

    for i := 0 to n  // the graph might have several entry points
      invariant SearchedBelow(flow, visited[..], order, tree, i)
    {
      if visited[i] {
        SkipVisited(flow, visited[..], order, tree, i);
        continue;
      }
      ghost var orderAtRoot, visitedAtRoot := order, visited[..];
      UnvisitedIsRoot(flow, visitedAtRoot, orderAtRoot, tree, i);
      order := SearchFrom(flow, visited, i, order);
      SearchFromUnvisited(flow, visitedAtRoot, orderAtRoot, tree, visited[..], order, i);
      tree := GrowTree(tree, |order|);
    }
    SearchComplete(flow, visited[..], order);
    NodeZeroFinishesLast(flow, order);
  }

  /** In an acyclic graph every successor of a node is finished before it, so the reverse
      of the postorder lists every node before its successors. */
  lemma {:induction false} ReversedPostorderIsTopological(flow: seq<Instruction>, post: seq<nat>)
    requires Acyclic(flow) && SuccessorsFinishFirst(flow, post)
    ensures IsTopologicalOrder(flow, Reversed(post))
  {
    var n, order := |post|, Reversed(post);
    forall k, v | 0 <= k < n && order[k] < |flow| && v in flow[order[k]].successors
      ensures v in order[k + 1..]
    {
      var i := n - 1 - k;
      var u := post[i];
      assert order[k] == u;
      assert !Reaches(flow, v, u);
      assert v in post[..i];
      ReversedPrefix(post, i, v);
    }
  }

  /** The node numbers in reverse postorder: the reverse of Postorder(flow), which for an
      acyclic graph is a topological order. `post` is the postorder it reverses. */
  method ReversePostorder(flow: seq<Instruction>) returns (order: seq<nat>, ghost post: seq<nat>)
    requires WellFormed(flow)
    ensures order == Reversed(post)
    ensures IsPermutationOfRange(post, |flow|) && SuccessorsFinishFirst(flow, post)
    ensures exists tree :: IsSearchForest(flow, post, tree, |flow|)
    ensures forall j, k :: 0 <= j < |post| && 0 <= k < |post| && post[k] == 0 && Reaches(flow, 0, post[j]) ==> j <= k
    ensures IsPermutationOfRange(order, |flow|)
    ensures Acyclic(flow) ==> IsTopologicalOrder(flow, order)
  {
    var postorder := Postorder(flow);
    order := Reversed(postorder);
    post := postorder;
    ReversedIsPermutation(post, |flow|);
    if Acyclic(flow) {
      ReversedPostorderIsTopological(flow, post);
    }
  }

  // ---------------------------------------------------------------------------
  // buildNamesIndex
  // ---------------------------------------------------------------------------

  /** Numbers the variables read or written in `flow` densely, 0, 1, 2, ..., in the order
      of their first access; instructions that access no variable are skipped and a name
      seen before keeps its number. */
  method BuildNamesIndex(flow: seq<Instruction>) returns (namesIndex: map<string, int>)
    ensures forall name :: name in namesIndex <==> NameUsed(flow, name)
    ensures forall name :: name in namesIndex ==> 0 <= namesIndex[name] < |namesIndex|
    ensures forall a, b :: a in namesIndex && b in namesIndex && a != b ==> namesIndex[a] != namesIndex[b]
    ensures forall a, b :: a in namesIndex && b in namesIndex ==>
      (namesIndex[a] < namesIndex[b] <==> FirstUse(flow, a) < FirstUse(flow, b))
  {
    namesIndex := map[];
    var idx := 0;
    for j := 0 to |flow|
      invariant idx == |namesIndex|
      invariant NumbersFirstUses(flow, j, namesIndex)
    {
      var instruction := flow[j];
      if instruction.access.ReadWrite? && instruction.access.name !in namesIndex {
        FirstAccessExtendsNumbering(flow, j, namesIndex);
        namesIndex := namesIndex[instruction.access.name := idx];
        idx := idx + 1;
      } else {
        SkipKeepsNumbering(flow, j, namesIndex);
      }
    }
    NumberingIsInjective(flow, |flow|, namesIndex);
    assert forall name :: NameUsed(flow, name) ==> FirstUse(flow, name) < |flow|;
  }

  // ---------------------------------------------------------------------------
  // getReadsWithoutPriorWrites: reading the analysis result
  // ---------------------------------------------------------------------------

  datatype Option<T> = None | Some(value: T)

  /** The runtime exceptions the extraction can throw: List.get(-1) or an array index
      past the flow (IndexOutOfBoundsException), and a cast of an instruction that is not
      a ReadWriteVariableInstruction (ClassCastException). */
  datatype Failure = IndexOutOfBounds | ClassCast

  datatype Result<T> = Ok(value: T) | Err(failure: Failure)

  /** The part of the read-before-write analysis' state at an instruction that the
      extraction looks at: the set of instruction numbers of reads not preceded by a write. */
  datatype ReadBeforeWriteState = ReadBeforeWriteState(readBits: BitSet)

  /** Casting the instructions at `positions`, in order, to read/write instructions. */
  function ReadInstructions(flow: seq<Instruction>, positions: seq<nat>): Result<seq<Instruction>> {
    if positions == [] then Ok([])
    else if positions[0] >= |flow| then Err(IndexOutOfBounds)
    else if !flow[positions[0]].access.ReadWrite? then Err(ClassCast)
    else
      match ReadInstructions(flow, positions[1..])
      case Ok(rest) => Ok([flow[positions[0]]] + rest)
      case Err(failure) => Err(failure)
  }

  /** Position `p` holds a read/write instruction of `flow`. */
  predicate IsReadWriteAt(flow: seq<Instruction>, p: nat) {
    p < |flow| && flow[p].access.ReadWrite?
  }

  /** The cast succeeds exactly when every position holds a read/write instruction, and
      then lists those instructions; otherwise it fails at the first other position, with
      IndexOutOfBounds past the flow and ClassCast inside it. */
  lemma {:induction false} ReadInstructionsMeaning(flow: seq<Instruction>, positions: seq<nat>)
    ensures var r := ReadInstructions(flow, positions);
      && (r.Ok? <==> forall k :: 0 <= k < |positions| ==> IsReadWriteAt(flow, positions[k]))
      && (r.Ok? ==> |r.value| == |positions| && forall k :: 0 <= k < |positions| ==> r.value[k] == flow[positions[k]])
      && (r.Err? ==> exists k :: && 0 <= k < |positions|
                                 && (forall m :: 0 <= m < k ==> IsReadWriteAt(flow, positions[m]))
                                 && !IsReadWriteAt(flow, positions[k])
                                 && r.failure == (if positions[k] < |flow| then ClassCast else IndexOutOfBounds))
  {
    if positions != [] && IsReadWriteAt(flow, positions[0]) {
      var tail := positions[1..];
      ReadInstructionsMeaning(flow, tail);
      assert forall k :: 0 < k < |positions| ==> positions[k] == tail[k - 1];
      if ReadInstructions(flow, tail).Err? {
        var k :| && 0 <= k < |tail|
                 && (forall m :: 0 <= m < k ==> IsReadWriteAt(flow, tail[m]))
                 && !IsReadWriteAt(flow, tail[k])
                 && ReadInstructions(flow, tail).failure == (if tail[k] < |flow| then ClassCast else IndexOutOfBounds);
        assert positions[k + 1] == tail[k];
      }
    }
  }

  /** Reading `front` successfully and then `back` is reading `front + back`. */
  lemma {:induction false} ReadInstructionsAppend(flow: seq<Instruction>, front: seq<nat>, back: seq<nat>)
    requires ReadInstructions(flow, front).Ok?
    ensures ReadInstructions(flow, front + back) ==
      match ReadInstructions(flow, back)
      case Ok(rest) => Ok(ReadInstructions(flow, front).value + rest)
      case Err(failure) => Err(failure)
  {
    if front == [] {
      assert front + back == back;
      match ReadInstructions(flow, back)
      case Ok(rest) => assert [] + rest == rest;
      case Err(_) =>
    } else {
      var tail := front[1..];
      assert (front + back)[0] == front[0];
      assert (front + back)[1..] == tail + back;
      ReadInstructionsAppend(flow, tail, back);
      var head := [flow[front[0]]];
      assert ReadInstructions(flow, front).value == head + ReadInstructions(flow, tail).value;
      match ReadInstructions(flow, back)
      case Ok(rest) =>
        assert head + (ReadInstructions(flow, tail).value + rest) == (head + ReadInstructions(flow, tail).value) + rest;
      case Err(_) =>
    }
  }

  /** One step of the extraction loop: the next set bit `i` below Integer.MAX_VALUE is
      the next position to read, and reading it either fails the whole extraction or
      extends the instructions read so far by the one at `i`. */
  lemma ReadNextPosition(flow: seq<Instruction>, readBits: BitSet, seen: seq<nat>, from: nat,
                         result: seq<Instruction>, i: nat)
    requires i == NextSetBit(readBits, from) && i < MaxInt
    requires SetBitsFrom(readBits, 0) == seen + SetBitsFrom(readBits, from)
    requires ReadInstructions(flow, seen) == Ok(result)
    ensures SetBitsFrom(readBits, 0) == (seen + [i]) + SetBitsFrom(readBits, i + 1)
    ensures !IsReadWriteAt(flow, i) ==>
      ReadInstructions(flow, SetBitsFrom(readBits, 0)) == Err(if i < |flow| then ClassCast else IndexOutOfBounds)
    ensures IsReadWriteAt(flow, i) ==> ReadInstructions(flow, seen + [i]) == Ok(result + [flow[i]])
  {
    NextSetBitEnumerates(readBits, from);
    var rest := SetBitsFrom(readBits, from);
    assert rest == [i] + SetBitsFrom(readBits, i + 1);
    assert rest[0] == i;
    ReadInstructionsAppend(flow, seen, rest);
    if IsReadWriteAt(flow, i) {
      assert [i][0] == i && [i][1..] == [];
      assert ReadInstructions(flow, []) == Ok([]);
      assert [flow[i]] + [] == [flow[i]];
      ReadInstructionsAppend(flow, seen, [i]);
    }
  }

  /** The read/write instructions whose numbers are set in the reads of the analysis'
      state at the last instruction, in increasing order: none when the analysis timed
      out (dfaResult is None), and the bit Integer.MAX_VALUE is never read. */
  method GetReadsWithoutPriorWrites(flow: seq<Instruction>, dfaResult: Option<seq<ReadBeforeWriteState>>)
    returns (r: Result<seq<Instruction>>)
    ensures dfaResult.None? ==> r == Ok([])
    ensures dfaResult.Some? && dfaResult.value == [] ==> r == Err(IndexOutOfBounds)
    ensures dfaResult.Some? && dfaResult.value != [] ==>
      r == ReadInstructions(flow, SetBitsFrom(dfaResult.value[|dfaResult.value| - 1].readBits, 0))
  {
    if dfaResult.None? {
      return Ok([]);
    }
    var states := dfaResult.value;
    if |states| == 0 {
      return Err(IndexOutOfBounds);  // get(size() - 1) on an empty list
    }
    var readBits := states[|states| - 1].readBits;
    var result: seq<Instruction> := [];
    ghost var seen: seq<nat>, from: nat := [], 0;
    var i := NextSetBit(readBits, 0);
    while i >= 0
      invariant i == NextSetBit(readBits, from)
      invariant SetBitsFrom(readBits, 0) == seen + SetBitsFrom(readBits, from)
      invariant ReadInstructions(flow, seen) == Ok(result)
      decreases |readBits| - from
    {
      if i == MaxInt {
        break;
      }
      ReadNextPosition(flow, readBits, seen, from, result, i);
      if i >= |flow| {
        return Err(IndexOutOfBounds);
      }
      if !flow[i].access.ReadWrite? {
        return Err(ClassCast);
      }
      result := result + [flow[i]];
      seen, from := seen + [i], i + 1;
      i := NextSetBit(readBits, i + 1);
    }
    NextSetBitEnumerates(readBits, from);
    assert seen + [] == seen;
    r := Ok(result);
  }

  /** Reading the last state's set bits succeeds exactly when each of them below
      Integer.MAX_VALUE marks a read/write instruction of the flow; the instructions then
      come in increasing order of their numbers, one per set bit. */
  lemma ExtractionSucceedsIff(flow: seq<Instruction>, readBits: BitSet)
    ensures var r := ReadInstructions(flow, SetBitsFrom(readBits, 0));
      && (r.Ok? <==> forall x :: 0 <= x < |readBits| && x < MaxInt && readBits[x] ==> IsReadWriteAt(flow, x))
      && (r.Ok? ==> (&& |r.value| == |SetBitsFrom(readBits, 0)|
                     && forall k :: 0 <= k < |r.value| ==>
                          SetBitsFrom(readBits, 0)[k] < |flow| && r.value[k] == flow[SetBitsFrom(readBits, 0)[k]]))
  {
    var positions := SetBitsFrom(readBits, 0);
    SetBitsFromMeaning(readBits, 0);
    ReadInstructionsMeaning(flow, positions);
    if forall x :: 0 <= x < |readBits| && x < MaxInt && readBits[x] ==> IsReadWriteAt(flow, x) {
      forall k | 0 <= k < |positions| ensures IsReadWriteAt(flow, positions[k]) {
        assert positions[k] in positions;
      }
    }
  }

  // ---------------------------------------------------------------------------
  // isLastStatementInCaseSection and the switch rule of isCertainlyReturnStatement
  // ---------------------------------------------------------------------------

  /** A statement of a switch. PSI statements are compared by identity; `id` stands for
      that identity, so two statements are equal exactly when they are the same one. */
  datatype Statement = Statement(id: nat, isBreak: bool)

  /** A case section of a switch (its labels and the statements under them), with `id`
      standing for its identity. */
  datatype CaseSection = CaseSection(id: nat, statements: seq<Statement>)

  /** ArrayUtilRt.find: the first position of `target` in `sections`, or -1. */
  function Find(sections: seq<CaseSection>, target: CaseSection): (r: int)
    ensures -1 <= r < |sections|
    ensures r == -1 <==> target !in sections
    ensures r >= 0 ==> sections[r] == target && target !in sections[..r]
  {
    if sections == [] then -1
    else if sections[0] == target then 0
    else
      var r := Find(sections[1..], target);
      assert sections[1..] == sections[1..][..|sections| - 1];
      if r == -1 then -1
      else
        assert sections[..r + 1] == [sections[0]] + sections[1..][..r];
        r + 1
  }

  /** Every statement of every section after position `i` is a break: control that falls
      out of section `i` leaves the switch without running anything else. */
  predicate OnlyBreaksAfter(sections: seq<CaseSection>, i: int) {
    forall j, k :: 0 <= j < |sections| && i < j && 0 <= k < |sections[j].statements| ==>
      sections[j].statements[k].isBreak
  }

  /** Whether falling out of `caseSection` leaves the switch: true when it is the last
      section or when every later section holds only breaks. A section that is not among
      the switch's sections is found at -1, so then every section is checked. */
  method IsLastStatementInCaseSection(caseSection: CaseSection, sections: seq<CaseSection>) returns (r: bool)
    ensures r <==> OnlyBreaksAfter(sections, Find(sections, caseSection))
  {
    var i := Find(sections, caseSection);
    if i == |sections| - 1 {
      return true;
    }
    for j := i + 1 to |sections|
      invariant forall j', k :: i < j' < j && 0 <= k < |sections[j'].statements| ==>
        sections[j'].statements[k].isBreak
    {
      var section := sections[j];
      for k := 0 to |section.statements|
        invariant forall k' :: 0 <= k' < k ==> section.statements[k'].isBreak
      {
        if !section.statements[k].isBreak {
          return false;
        }
      }
    }
    return true;
  }

  /** The statement runs last before control leaves the switch: it is directly followed by
      its section's closing break, or it ends its section and is itself a break or is
      followed only by breaks in the later sections. */
  predicate EndsSwitchFlow(st: Statement, section: CaseSection, sections: seq<CaseSection>) {
    var statements := section.statements;
    || (|statements| > 1 && statements[|statements| - 1].isBreak && statements[|statements| - 2] == st)
    || (statements != [] && statements[|statements| - 1] == st &&
        (st.isBreak || OnlyBreaksAfter(sections, Find(sections, section))))
  }

  /** The statements of `sections` one after another, in the order in which control
      falls through them. */
  function Flatten(sections: seq<CaseSection>): seq<Statement> {
    if sections == [] then [] else sections[0].statements + Flatten(sections[1..])
  }

  /** The statements of `s` that run before control leaves the switch: all of them up to
      and including the first break. */
  function UpToBreak(s: seq<Statement>): (r: seq<Statement>)
    ensures |r| <= |s| && r == s[..|r|]
    ensures forall k :: 0 <= k < |r| - 1 ==> !r[k].isBreak
    ensures |r| < |s| ==> r != [] && r[|r| - 1].isBreak
  {
    if s == [] then []
    else if s[0].isBreak then [s[0]]
    else [s[0]] + UpToBreak(s[1..])
  }

  /** The statements that run after the statement at position `p` of `section` until
      control leaves the switch: none after a break; otherwise the rest of the section
      and then, falling through, the later sections, up to the first break. */
  function RunAfter(section: CaseSection, sections: seq<CaseSection>, p: nat): seq<Statement>
    requires p < |section.statements|
  {
    if section.statements[p].isBreak then []
    else UpToBreak(section.statements[p + 1..] + Flatten(sections[Find(sections, section) + 1..]))
  }

  /** Sections holding only breaks fall through only breaks. */
  lemma {:induction false} FlattenOnlyBreaks(sections: seq<CaseSection>)
    requires forall j, k :: 0 <= j < |sections| && 0 <= k < |sections[j].statements| ==>
      sections[j].statements[k].isBreak
    ensures forall x :: x in Flatten(sections) ==> x.isBreak
  {
    if sections != [] {
      FlattenOnlyBreaks(sections[1..]);
      assert forall x :: x in sections[0].statements ==> x.isBreak;
    }
  }

  /** The switch rule is sound: when a statement ends the switch's flow, nothing but a
      break runs after it before control leaves the switch, so its value is the value of
      the switch. The statements of a section are distinct elements, which fixes the
      position `p` of `st`. */
  lemma CaseSectionRuleIsSound(st: Statement, section: CaseSection, sections: seq<CaseSection>, p: nat)
    requires Distinct(section.statements) && p < |section.statements| && section.statements[p] == st
    requires EndsSwitchFlow(st, section, sections)
    ensures forall x :: x in RunAfter(section, sections, p) ==> x.isBreak
  {
    var statements, n := section.statements, |section.statements|;
    if !st.isBreak {
      var i := Find(sections, section);
      var later := sections[i + 1..];
      var rest := statements[p + 1..] + Flatten(later);
      var run := UpToBreak(rest);
      assert RunAfter(section, sections, p) == run;
      if n > 1 && statements[n - 1].isBreak && statements[n - 2] == st {
        assert p == n - 2 by {
          assert statements[p] == statements[n - 2];
        }
        assert rest[0] == statements[n - 1];
        assert run == [rest[0]];
      } else {
        assert p == n - 1 by {
          assert statements[p] == statements[n - 1];
        }
        assert rest == Flatten(later);
        forall j, k | 0 <= j < |later| && 0 <= k < |later[j].statements|
          ensures later[j].statements[k].isBreak
        {
          assert later[j] == sections[i + 1 + j];
        }
        FlattenOnlyBreaks(later);
        forall x | x in run ensures x.isBreak {
          assert x in rest;
        }
      }
    }
  }

  /** The GrCaseSection branch of isCertainlyReturnStatement for the statement `st` of
      `section` in a switch with `sections`: `st` provides the return value exactly when
      it ends the switch's flow and the switch statement itself provides the return value
      (`switchIsCertainlyReturn`, the recursive answer for the switch). */
  method IsCertainlyReturnInCaseSection(st: Statement, section: CaseSection, sections: seq<CaseSection>,
                                        switchIsCertainlyReturn: bool) returns (r: bool)
    ensures r <==> switchIsCertainlyReturn && EndsSwitchFlow(st, section, sections)
    ensures st !in section.statements ==> !r
    ensures r && Distinct(section.statements) ==>
      forall p :: 0 <= p < |section.statements| && section.statements[p] == st ==>
        forall x :: x in RunAfter(section, sections, p) ==> x.isBreak
  {
    var statements := section.statements;
    var last := if statements == [] then None else Some(statements[|statements| - 1]);
    r := false;
    if last.Some? && last.value.isBreak && |statements| > 1 && statements[|statements| - 2] == st {
      r := switchIsCertainlyReturn;
    } else if last == Some(st) {
      var lastInSection := IsLastStatementInCaseSection(section, sections);
      if st.isBreak || lastInSection {
        r := switchIsCertainlyReturn;
      }
    }
    if r && Distinct(statements) {
      forall p | 0 <= p < |statements| && statements[p] == st
        ensures forall x :: x in RunAfter(section, sections, p) ==> x.isBreak
      {
        CaseSectionRuleIsSound(st, section, sections, p);
      }
    }
  }
}
