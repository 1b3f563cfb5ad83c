/**
  The numbering of variable names that ControlFlowBuilderUtil.buildNamesIndex hands to
  the read-before-write analysis: each name accessed in the flow gets a distinct number
  below the number of names, in the order of the names' first accesses.
 */
module NamesIndex {
  import opened Flow

  /** `m` numbers exactly the names first accessed before position `j`, densely and in
      the order of their first accesses. */
  ghost predicate NumbersFirstUses(flow: seq<Instruction>, j: nat, m: map<string, int>) {
    && j <= |flow|
    && (forall name :: name in m <==> NameUsed(flow, name) && FirstUse(flow, name) < j)
    && (forall name :: name in m ==> 0 <= m[name] < |m|)
    && (forall a, b :: a in m && b in m ==> (m[a] < m[b] <==> FirstUse(flow, a) < FirstUse(flow, b)))
  }

  /** Two names with the same first access are the same name, so an order-preserving
      numbering never gives two names one number. */
  lemma NumberingIsInjective(flow: seq<Instruction>, j: nat, m: map<string, int>)
    requires NumbersFirstUses(flow, j, m)
    ensures forall a, b :: a in m && b in m && a != b ==> m[a] != m[b]
  {
    forall a, b | a in m && b in m && a != b ensures m[a] != m[b] {
      assert FirstUse(flow, a) != FirstUse(flow, b) by {
        assert UsesName(flow[FirstUse(flow, a)], a) && UsesName(flow[FirstUse(flow, b)], b);
      }
    }
  }

  /** An instruction that accesses no name, or one already numbered, changes nothing. */
  lemma SkipKeepsNumbering(flow: seq<Instruction>, j: nat, m: map<string, int>)
    requires j < |flow| && NumbersFirstUses(flow, j, m)
    requires flow[j].access.ReadWrite? ==> flow[j].access.name in m
    ensures NumbersFirstUses(flow, j + 1, m)
  {
    forall name | NameUsed(flow, name) && FirstUse(flow, name) < j + 1
      ensures FirstUse(flow, name) < j
    {
      assert UsesName(flow[FirstUse(flow, name)], name);
    }
  }

  /** The first access to a name not yet numbered gives it the next number. */
  lemma FirstAccessExtendsNumbering(flow: seq<Instruction>, j: nat, m: map<string, int>)
    requires j < |flow| && NumbersFirstUses(flow, j, m)
    requires flow[j].access.ReadWrite? && flow[j].access.name !in m
    ensures NumbersFirstUses(flow, j + 1, m[flow[j].access.name := |m|])
  {
    var name := flow[j].access.name;
    assert UsesName(flow[j], name);
    assert FirstUse(flow, name) == j;
    var m' := m[name := |m|];
    assert m'.Keys == m.Keys + {name};
    assert |m'| == |m| + 1;
    forall other | NameUsed(flow, other) && FirstUse(flow, other) == j
      ensures other == name
    {
      assert UsesName(flow[j], other);
    }
  }
}
