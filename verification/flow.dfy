/**
  The control-flow graph of a Groovy method or closure, as the plugin's flow builder
  hands it to ControlFlowBuilderUtil: an array of instructions, each knowing its
  successors by instruction number, some of them reads or writes of a local variable.
  An instruction's number is its index in the array.
 */
module Flow {

  /** What an instruction does to a variable: a ReadWriteVariableInstruction names the
      variable and says whether it writes it; every other instruction has no access. */
  datatype Access = NoAccess | ReadWrite(name: string, isWrite: bool)

  /** One node of the graph: the numbers of its successors (allSuccessors) and its access. */
  datatype Instruction = Instruction(successors: seq<nat>, access: Access)

  /** The instruction is a ReadWriteVariableInstruction on the variable `name`. */
  predicate UsesName(ins: Instruction, name: string) {
    ins.access.ReadWrite? && ins.access.name == name
  }

  /** Some instruction of the flow reads or writes the variable `name`. */
  predicate NameUsed(flow: seq<Instruction>, name: string) {
    exists j :: 0 <= j < |flow| && UsesName(flow[j], name)
  }

  /** The position of the first instruction that reads or writes `name`. */
  function FirstUse(flow: seq<Instruction>, name: string): (r: nat)
    requires NameUsed(flow, name)
    ensures r < |flow| && UsesName(flow[r], name)
    ensures forall j :: 0 <= j < r ==> !UsesName(flow[j], name)
  {
    if UsesName(flow[0], name) then 0
    else
      assert NameUsed(flow[1..], name) by {
        var j :| 0 <= j < |flow| && UsesName(flow[j], name);
        assert flow[1..][j - 1] == flow[j];
      }
      FirstUse(flow[1..], name) + 1
  }

  /** Every successor number names an instruction of the flow. */
  predicate WellFormed(flow: seq<Instruction>) {
    forall u, k :: 0 <= u < |flow| && 0 <= k < |flow[u].successors| ==> flow[u].successors[k] < |flow|
  }

  /** `p` is a walk along the edges of the graph (a single node is a walk of length 0). */
  ghost predicate IsPath(flow: seq<Instruction>, p: seq<nat>) {
    && |p| > 0
    && (forall j :: 0 <= j < |p| ==> p[j] < |flow|)
    && (forall j :: 0 < j < |p| ==> p[j] in flow[p[j - 1]].successors)
  }

  /** Some walk leads from `a` to `b`; every node reaches itself. */
  ghost predicate Reaches(flow: seq<Instruction>, a: nat, b: nat) {
    exists p :: IsPath(flow, p) && p[0] == a && p[|p| - 1] == b
  }

  /** No edge closes a cycle: the target of an edge never reaches back to its source. */
  ghost predicate Acyclic(flow: seq<Instruction>) {
    forall u, v :: 0 <= u < |flow| && v in flow[u].successors ==> !Reaches(flow, v, u)
  }

  /** Every node of `s` has all its successors in `s`. */
  ghost predicate ClosedUnderSuccessors(flow: seq<Instruction>, s: seq<nat>) {
    forall k, v :: 0 <= k < |s| && s[k] < |flow| && v in flow[s[k]].successors ==> v in s
  }

  /** Everything reachable from a member of a closed set lies in the set. */
  lemma ReachableStaysInClosed(flow: seq<Instruction>, s: seq<nat>, a: nat, b: nat)
    requires ClosedUnderSuccessors(flow, s)
    requires a in s && Reaches(flow, a, b)
    ensures b in s
  {
    var p :| IsPath(flow, p) && p[0] == a && p[|p| - 1] == b;
    var j := 0;
    while j < |p| - 1
      invariant 0 <= j < |p|
      invariant p[j] in s
    {
      var k :| 0 <= k < |s| && s[k] == p[j];
      assert p[j + 1] in flow[s[k]].successors;
      j := j + 1;
    }
  }

  /** A walk followed by one more edge is a walk. */
  lemma ExtendPath(flow: seq<Instruction>, p: seq<nat>, v: nat)
    requires IsPath(flow, p) && v < |flow| && v in flow[p[|p| - 1]].successors
    ensures IsPath(flow, p + [v])
  {
    var q := p + [v];
    forall j | 0 < j < |q| ensures q[j] in flow[q[j - 1]].successors {
      if j < |p| {
        assert q[j] == p[j] && q[j - 1] == p[j - 1];
      }
    }
  }
}
