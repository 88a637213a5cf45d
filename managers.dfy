/**
 * `sdd::manager` (sdd.cpp, lines 38-103): the owner of the variables.
 *
 * Variable insertion is not modelled, so nothing the model does changes a
 * manager: it is the value of its variable count.
 */
module Managers {
  import opened Outcomes
  import opened Literals
  import opened Semantics

  datatype Manager = Manager(varCount: nat)

  /** Why a literal has no node. */
  datatype Error =
    | InvalidArgument  // the wrapper's "literal too large"
    | ZeroLiteral      // libsdd's refusal of the literal 0

  /** `manager::variables()`: the variables 1..varCount in ascending order. */
  method Variables(m: Manager) returns (vars: seq<Variable>)
    ensures |vars| == m.varCount
    ensures forall k :: 0 <= k < |vars| ==> vars[k] == Variable(k + 1)
    ensures forall v: nat :: Variable(v) in vars <==> 1 <= v <= m.varCount
  {
    vars := [];
    var i := 1;
    while i <= m.varCount
      invariant 1 <= i <= m.varCount + 1
      invariant |vars| == i - 1
      invariant forall k :: 0 <= k < |vars| ==> vars[k] == Variable(k + 1)
    {
      vars := vars + [Variable(i)];
      i := i + 1;
    }
    forall v: nat | 1 <= v <= m.varCount
      ensures Variable(v) in vars
    {
      assert vars[v - 1] == Variable(v);
    }
  }

  /**
   * `manager::literal(lit)`: the node of a literal, or `invalid_argument`
   * when its variable exceeds the variable count.
   */
  function LiteralNode(m: Manager, lit: Literal): (r: Result<Node, Error>)
    ensures r.Success? <==> InRange(lit, m.varCount)
    ensures r == Failure(InvalidArgument) <==> lit.Var().index > m.varCount
    ensures r.Success? ==> WellFormed(r.value) && r.value.varCount == m.varCount
    ensures r.Success? ==>
      forall a {:trigger a in r.value.models} :: a in r.value.models <==> |a| == m.varCount && Satisfies(a, lit)
  {
    if lit.Var().index > m.varCount then Failure(InvalidArgument)
    else if lit.value == 0 then Failure(ZeroLiteral)
    else Success(LiteralFunction(m.varCount, lit))
  }

  /** `manager::top()`: the valid function. */
  function Top(m: Manager): (r: Node)
    ensures WellFormed(r) && r.varCount == m.varCount && IsValid(r)
  {
    Semantics.Top(m.varCount)
  }

  /** `manager::bottom()`: the unsatisfiable function. */
  function Bottom(m: Manager): (r: Node)
    ensures WellFormed(r) && r.varCount == m.varCount && IsUnsat(r)
  {
    Semantics.Bottom(m.varCount)
  }
}
