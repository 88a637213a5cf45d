/**
 * `sdd::node` (sdd.cpp, lines 105-342): the wrapper's own logic around the
 * libsdd calls. Each libsdd call is the function of module Semantics that
 * models it; what the wrapper adds (loops over the support flags, the
 * indicator and renaming arrays, the short-circuit fold of conditionings,
 * the three-way value, the model search and the unflattening of elements)
 * is written out here.
 */
module Nodes {
  import opened Outcomes
  import opened Literals
  import opened Semantics
  import Managers

  /** The manager a node belongs to (`node::manager()`). */
  function ManagerOf(f: Node): Managers.Manager {
    Managers.Manager(f.varCount)
  }

  /** `node::is_sat()`. */
  predicate IsSat(f: Node) {
    !IsUnsat(f)
  }

  // ---------------------------------------------------------------------
  // node::variables
  // ---------------------------------------------------------------------

  /** The variables among 1..k-1 whose flag is nonzero, in ascending order. */
  function Collect(flags: seq<int>, k: nat): seq<Variable>
    requires 1 <= k <= |flags|
    decreases k
  {
    if k == 1 then []
    else Collect(flags, k - 1) + (if flags[k - 1] != 0 then [Variable(k - 1)] else [])
  }

  predicate StrictlyAscending(vars: seq<Variable>) {
    forall i, j :: 0 <= i < j < |vars| ==> vars[i].index < vars[j].index
  }

  /** Collecting the flags gives exactly the flagged variables, ascending. */
  lemma {:induction false} CollectFlagged(flags: seq<int>, k: nat)
    requires 1 <= k <= |flags|
    ensures forall j :: 0 <= j < |Collect(flags, k)| ==> 1 <= Collect(flags, k)[j].index < k
    ensures StrictlyAscending(Collect(flags, k))
    ensures forall v: nat :: Variable(v) in Collect(flags, k) <==> 1 <= v < k && flags[v] != 0
  {
    if k > 1 {
      CollectFlagged(flags, k - 1);
    }
  }

  /** The support of a node in ascending order, as `node::variables()` lists it. */
  function Support(f: Node): seq<Variable> {
    Collect(SupportFlags(f), f.varCount + 1)
  }

  /** `node::variables()`: the variables the node depends on, in ascending order. */
  method Variables(f: Node) returns (vars: seq<Variable>)
    ensures vars == Support(f)
    ensures StrictlyAscending(vars)
    ensures forall v: nat :: Variable(v) in vars <==> 1 <= v <= f.varCount && DependsOn(f, v)
  {
    var flags := SupportFlags(f);
    vars := [];
    var i := 1;
    while i <= f.varCount
      invariant 1 <= i <= f.varCount + 1
      invariant vars == Collect(flags, i)
    {
      if flags[i] != 0 {
        vars := vars + [Variable(i)];
      }
      i := i + 1;
    }
    CollectFlagged(flags, f.varCount + 1);
  }

  // ---------------------------------------------------------------------
  // Operators with a literal operand (the manager builds the literal node)
  // ---------------------------------------------------------------------

  /** `n && l`. */
  function AndLiteral(f: Node, lit: Literal): (r: Result<Node, Managers.Error>)
    requires WellFormed(f)
    ensures r.Success? <==> InRange(lit, f.varCount)
    ensures r.Success? ==> r.value.varCount == f.varCount
    ensures r.Success? ==>
      forall a {:trigger a in r.value.models} ::
        a in r.value.models <==> |a| == f.varCount && a in f.models && Satisfies(a, lit)
  {
    match Managers.LiteralNode(ManagerOf(f), lit)
    case Success(l) => Success(Conjoin(f, l))
    case Failure(e) => Failure(e)
  }

  /** `l && n`. */
  function LiteralAnd(lit: Literal, f: Node): (r: Result<Node, Managers.Error>)
    requires WellFormed(f)
    ensures r.Success? <==> InRange(lit, f.varCount)
    ensures r.Success? ==> r.value.varCount == f.varCount
    ensures r.Success? ==>
      forall a {:trigger a in r.value.models} ::
        a in r.value.models <==> |a| == f.varCount && Satisfies(a, lit) && a in f.models
  {
    match Managers.LiteralNode(ManagerOf(f), lit)
    case Success(l) => Success(Conjoin(l, f))
    case Failure(e) => Failure(e)
  }

  /** `n || l`. */
  function OrLiteral(f: Node, lit: Literal): (r: Result<Node, Managers.Error>)
    requires WellFormed(f)
    ensures r.Success? <==> InRange(lit, f.varCount)
    ensures r.Success? ==> r.value.varCount == f.varCount
    ensures r.Success? ==>
      forall a {:trigger a in r.value.models} ::
        a in r.value.models <==> |a| == f.varCount && (a in f.models || Satisfies(a, lit))
  {
    match Managers.LiteralNode(ManagerOf(f), lit)
    case Success(l) => Success(Disjoin(f, l))
    case Failure(e) => Failure(e)
  }

  /** `l || n`. */
  function LiteralOr(lit: Literal, f: Node): (r: Result<Node, Managers.Error>)
    requires WellFormed(f)
    ensures r.Success? <==> InRange(lit, f.varCount)
    ensures r.Success? ==> r.value.varCount == f.varCount
    ensures r.Success? ==>
      forall a {:trigger a in r.value.models} ::
        a in r.value.models <==> |a| == f.varCount && (Satisfies(a, lit) || a in f.models)
  {
    match Managers.LiteralNode(ManagerOf(f), lit)
    case Success(l) => Success(Disjoin(l, f))
    case Failure(e) => Failure(e)
  }

  // ---------------------------------------------------------------------
  // Derived connectives
  // ---------------------------------------------------------------------

  /** `implies(n1, n2) = !n1 || n2`. */
  function Implies(f: Node, g: Node): (r: Node)
    requires WellFormed(f) && WellFormed(g) && f.varCount == g.varCount
    ensures WellFormed(r) && r.varCount == f.varCount
    ensures forall a {:trigger a in r.models} ::
      a in r.models <==> |a| == f.varCount && (a in f.models ==> a in g.models)
  {
    Disjoin(Negate(f), g)
  }

  /** `iff(n1, n2) = implies(n1, n2) && implies(n2, n1)`. */
  function Iff(f: Node, g: Node): (r: Node)
    requires WellFormed(f) && WellFormed(g) && f.varCount == g.varCount
    ensures WellFormed(r) && r.varCount == f.varCount
    ensures forall a {:trigger a in r.models} ::
      a in r.models <==> |a| == f.varCount && (a in f.models <==> a in g.models)
  {
    Conjoin(Implies(f, g), Implies(g, f))
  }

  /** `implies(n, l)`. */
  function ImpliesLiteral(f: Node, lit: Literal): (r: Result<Node, Managers.Error>)
    requires WellFormed(f)
    ensures r.Success? <==> InRange(lit, f.varCount)
    ensures r.Success? ==> r.value.varCount == f.varCount
    ensures r.Success? ==>
      forall a {:trigger a in r.value.models} ::
        a in r.value.models <==> |a| == f.varCount && (a in f.models ==> Satisfies(a, lit))
  {
    match Managers.LiteralNode(ManagerOf(f), lit)
    case Success(l) => Success(Implies(f, l))
    case Failure(e) => Failure(e)
  }

  /** `implies(l, n)`. */
  function LiteralImplies(lit: Literal, f: Node): (r: Result<Node, Managers.Error>)
    requires WellFormed(f)
    ensures r.Success? <==> InRange(lit, f.varCount)
    ensures r.Success? ==> r.value.varCount == f.varCount
    ensures r.Success? ==>
      forall a {:trigger a in r.value.models} ::
        a in r.value.models <==> |a| == f.varCount && (Satisfies(a, lit) ==> a in f.models)
  {
    match Managers.LiteralNode(ManagerOf(f), lit)
    case Success(l) => Success(Implies(l, f))
    case Failure(e) => Failure(e)
  }

  /** `iff(n, l)`. */
  function IffLiteral(f: Node, lit: Literal): (r: Result<Node, Managers.Error>)
    requires WellFormed(f)
    ensures r.Success? <==> InRange(lit, f.varCount)
    ensures r.Success? ==> r.value.varCount == f.varCount
    ensures r.Success? ==>
      forall a {:trigger a in r.value.models} ::
        a in r.value.models <==> |a| == f.varCount && (a in f.models <==> Satisfies(a, lit))
  {
    match Managers.LiteralNode(ManagerOf(f), lit)
    case Success(l) => Success(Iff(f, l))
    case Failure(e) => Failure(e)
  }

  /** `iff(l, n)`. */
  function LiteralIff(lit: Literal, f: Node): (r: Result<Node, Managers.Error>)
    requires WellFormed(f)
    ensures r.Success? <==> InRange(lit, f.varCount)
    ensures r.Success? ==> r.value.varCount == f.varCount
    ensures r.Success? ==>
      forall a {:trigger a in r.value.models} ::
        a in r.value.models <==> |a| == f.varCount && (Satisfies(a, lit) <==> a in f.models)
  {
    match Managers.LiteralNode(ManagerOf(f), lit)
    case Success(l) => Success(Iff(l, f))
    case Failure(e) => Failure(e)
  }

  // ---------------------------------------------------------------------
  // exists(vector) and forall(vector)
  // ---------------------------------------------------------------------

  /** The variables of a list, as a set of indices. */
  function VarSet(vars: seq<Variable>): set<nat> {
    set k | 0 <= k < |vars| :: vars[k].index
  }

  /** The indicator array `exists(vector)` hands to libsdd: 1 at each listed variable, 0 elsewhere. */
  method ExistsIndicator(vars: seq<Variable>, n: nat) returns (indicator: seq<int>)
    requires forall k :: 0 <= k < |vars| ==> vars[k].index <= n
    ensures |indicator| == n + 1
    ensures forall i: nat :: i <= n ==> indicator[i] == (if Variable(i) in vars then 1 else 0)
  {
    var marks := new int[n + 1](_ => 0);
    for k := 0 to |vars|
      invariant forall i: nat :: i <= n ==> marks[i] == (if Variable(i) in vars[..k] then 1 else 0)
    {
      assert vars[..k + 1] == vars[..k] + [vars[k]];
      marks[vars[k].index] := 1;
    }
    assert vars[..|vars|] == vars;
    indicator := marks[..];
  }

  /** `exists(vars, n)`: quantify all listed variables in one libsdd call. */
  method ExistsMany(vars: seq<Variable>, f: Node) returns (r: Node)
    requires WellFormed(f)
    requires forall k :: 0 <= k < |vars| ==> vars[k].index <= f.varCount
    ensures r == Exists(f, VarSet(vars))
  {
    var indicator := ExistsIndicator(vars, f.varCount);
    var marked := set v: nat | 1 <= v <= f.varCount && indicator[v] == 1;
    var listed := set v | v in VarSet(vars) && 1 <= v <= f.varCount;
    forall v: nat
      ensures v in marked <==> v in listed
    {
      if v in VarSet(vars) {
        var k :| 0 <= k < |vars| && vars[k].index == v;
        assert Variable(v) == vars[k];
      }
      if v in marked {
        var k :| 0 <= k < |vars| && vars[k] == Variable(v);
      }
    }
    assert marked == listed;
    ExistsInRange(f, VarSet(vars));
    r := ExistsMultiple(f, indicator);
  }

  /** `forall(vars, n) = !exists(vars, !n)`. */
  method ForallMany(vars: seq<Variable>, f: Node) returns (r: Node)
    requires WellFormed(f)
    requires forall k :: 0 <= k < |vars| ==> vars[k].index <= f.varCount
    ensures r == Forall(f, VarSet(vars))
  {
    var e := ExistsMany(vars, Negate(f));
    r := Negate(e);
    ForallDuality(f, VarSet(vars));
  }

  // ---------------------------------------------------------------------
  // node::condition(vector) and node::value
  // ---------------------------------------------------------------------

  /** Conditioning on every literal of the list, one after the other. */
  function ConditionSeq(f: Node, lits: seq<Literal>): (r: Node)
    requires WellFormed(f) && AllInRange(lits, f.varCount)
    ensures WellFormed(r) && r.varCount == f.varCount
    decreases |lits|
  {
    if lits == [] then f else ConditionSeq(Condition(f, lits[0]), lits[1..])
  }

  /**
   * What `node::condition(vector)` computes: condition on the literals in
   * order, stopping at the first result that is valid or unsat.
   */
  function ConditionFold(f: Node, lits: seq<Literal>): (r: Node)
    requires WellFormed(f) && AllInRange(lits, f.varCount)
    ensures WellFormed(r) && r.varCount == f.varCount
    decreases |lits|
  {
    if lits == [] then f
    else
      var g := Condition(f, lits[0]);
      if IsValid(g) || IsUnsat(g) then g else ConditionFold(g, lits[1..])
  }

  /** A valid or unsat function stays as it is under any further conditioning. */
  lemma {:induction false} ConditionSeqConstant(f: Node, lits: seq<Literal>)
    requires WellFormed(f) && AllInRange(lits, f.varCount)
    requires IsValid(f) || IsUnsat(f)
    ensures ConditionSeq(f, lits) == f
    decreases |lits|
  {
    if lits != [] {
      ConditionConstant(f, lits[0]);
      ConditionSeqConstant(f, lits[1..]);
    }
  }

  /** The short-circuit is only an optimisation: it gives the full conditioning. */
  lemma {:induction false} ConditionFoldIsSeq(f: Node, lits: seq<Literal>)
    requires WellFormed(f) && AllInRange(lits, f.varCount)
    ensures ConditionFold(f, lits) == ConditionSeq(f, lits)
    decreases |lits|
  {
    if lits != [] {
      var g := Condition(f, lits[0]);
      if IsValid(g) || IsUnsat(g) {
        ConditionSeqConstant(g, lits[1..]);
      } else {
        ConditionFoldIsSeq(g, lits[1..]);
      }
    }
  }

  /** Conditioning on one more literal at the end. */
  lemma {:induction false} ConditionSeqSnoc(f: Node, lits: seq<Literal>, lit: Literal)
    requires WellFormed(f) && AllInRange(lits, f.varCount) && InRange(lit, f.varCount)
    ensures AllInRange(lits + [lit], f.varCount)
    ensures ConditionSeq(f, lits + [lit]) == Condition(ConditionSeq(f, lits), lit)
    decreases |lits|
  {
    if lits == [] {
      assert [] + [lit] == [lit];
    } else {
      assert (lits + [lit])[1..] == lits[1..] + [lit];
      ConditionSeqSnoc(Condition(f, lits[0]), lits[1..], lit);
    }
  }

  /** On assignments that make every literal true, conditioning on them changes nothing. */
  lemma {:induction false} ConditionSeqAgrees(f: Node, lits: seq<Literal>, a: Assignment)
    requires WellFormed(f) && AllInRange(lits, f.varCount) && |a| == f.varCount
    requires forall k :: 0 <= k < |lits| ==> Satisfies(a, lits[k])
    ensures a in ConditionSeq(f, lits).models <==> a in f.models
    decreases |lits|
  {
    if lits != [] {
      ConditionAgrees(f, lits[0], a);
      ConditionSeqAgrees(Condition(f, lits[0]), lits[1..], a);
    }
  }

  /**
   * Literals whose conditioning is valid form an implicant: every assignment
   * that makes them all true is a model.
   */
  lemma ValidConditionImplicant(f: Node, lits: seq<Literal>)
    requires WellFormed(f) && AllInRange(lits, f.varCount)
    requires IsValid(ConditionSeq(f, lits))
    ensures forall a :: |a| == f.varCount && (forall k :: 0 <= k < |lits| ==> Satisfies(a, lits[k])) ==>
      a in f.models
  {
    forall a | |a| == f.varCount && (forall k :: 0 <= k < |lits| ==> Satisfies(a, lits[k]))
      ensures a in f.models
    {
      ConditionSeqAgrees(f, lits, a);
    }
  }

  /** `node::condition(vector)`. */
  method ConditionAll(f: Node, lits: seq<Literal>) returns (n: Node)
    requires WellFormed(f) && AllInRange(lits, f.varCount)
    ensures n == ConditionFold(f, lits)
    ensures n == ConditionSeq(f, lits)
  {
    n := f;
    var i := 0;
    while i < |lits|
      invariant 0 <= i <= |lits|
      invariant WellFormed(n) && n.varCount == f.varCount
      invariant ConditionFold(n, lits[i..]) == ConditionFold(f, lits)
    {
      var rest := lits[i..];
      assert rest[0] == lits[i] && rest[1..] == lits[i + 1..];
      n := Condition(n, lits[i]);
      if IsValid(n) || IsUnsat(n) {
        break;
      }
      i := i + 1;
    }
    ConditionFoldIsSeq(f, lits);
  }

  /**
   * `node::value(lit)`: false when the literal is false in every model, true
   * when it is true in every model (and there is one), none otherwise.
   */
  function Value(f: Node, lit: Literal): (r: Option<bool>)
    requires WellFormed(f) && InRange(lit, f.varCount)
    ensures r == Some(false) <==> forall a :: a in f.models ==> !Satisfies(a, lit)
    ensures r == Some(true) <==>
      (exists a :: a in f.models && Satisfies(a, lit)) && forall a :: a in f.models ==> Satisfies(a, lit)
    ensures r == None <==>
      (exists a :: a in f.models && Satisfies(a, lit)) && (exists a :: a in f.models && !Satisfies(a, lit))
  {
    ConditionUnsat(f, lit);
    ConditionUnsat(f, lit.Negate());
    if IsUnsat(Condition(f, lit)) then Some(false)
    else if IsUnsat(Condition(f, lit.Negate())) then Some(true)
    else None
  }

  // ---------------------------------------------------------------------
  // node::rename
  // ---------------------------------------------------------------------

  /** The renaming table libsdd receives: entry 0 unused (0), entry i the new name of i. */
  function Table(renaming: nat -> nat, n: nat): (table: seq<int>)
    ensures |table| == n + 1 && table[0] == 0
    ensures forall i: nat :: 1 <= i <= n ==> table[i] == renaming(i)
  {
    seq(n + 1, i requires 0 <= i <= n => if i == 0 then 0 else renaming(i))
  }

  /** `node::rename(function)`: fill the table from the callback, then rename. */
  method RenameWith(f: Node, renaming: nat -> nat) returns (r: Node)
    requires WellFormed(f)
    requires forall v: nat :: 1 <= v <= f.varCount ==> 1 <= renaming(v) <= f.varCount
    ensures IsRenaming(Table(renaming, f.varCount), f.varCount)
    ensures r == Rename(f, Table(renaming, f.varCount))
  {
    var n := f.varCount;
    var table := new int[n + 1](_ => 0);
    var i := 1;
    while i <= n
      invariant 1 <= i <= n + 1
      invariant table[0] == 0
      invariant forall j: nat :: 1 <= j < i ==> table[j] == renaming(j)
    {
      table[i] := renaming(i);
      i := i + 1;
    }
    assert table[..] == Table(renaming, n);
    r := Rename(f, table[..]);
  }

  /** The callback `node::rename(map)` builds: the map's value for a key, the variable itself otherwise. */
  function IdentityDefault(m: map<nat, nat>): nat -> nat {
    v => if v in m then m[v] else v
  }

  /** `node::rename(map)`. */
  method RenameMap(f: Node, m: map<nat, nat>) returns (r: Node)
    requires WellFormed(f)
    requires forall v: nat :: v in m && 1 <= v <= f.varCount ==> 1 <= m[v] <= f.varCount
    ensures forall i: nat :: 1 <= i <= f.varCount ==>
      Table(IdentityDefault(m), f.varCount)[i] == (if i in m then m[i] else i)
    ensures r == Rename(f, Table(IdentityDefault(m), f.varCount))
    ensures (forall v: nat :: v in m && 1 <= v <= f.varCount ==> m[v] == v) ==> r == f
  {
    r := RenameWith(f, IdentityDefault(m));
    if forall v: nat :: v in m && 1 <= v <= f.varCount ==> m[v] == v {
      RenameIdentity(f, Table(IdentityDefault(m), f.varCount));
    }
  }

  // ---------------------------------------------------------------------
  // node::model
  // ---------------------------------------------------------------------

  /** The variables of a sequence of literals, in order. */
  function VarsOf(lits: seq<Literal>): (vars: seq<Variable>)
    ensures |vars| == |lits|
    ensures forall k :: 0 <= k < |lits| ==> vars[k] == lits[k].Var()
  {
    if lits == [] then [] else VarsOf(lits[..|lits| - 1]) + [lits[|lits| - 1].Var()]
  }

  /**
   * What the model search knows about the support of the function left
   * after fixing the first `i` variables of `vars`: it is part of the
   * support of `f` and lies above `vars[i - 1]`.
   */
  predicate SupportAbove(f: Node, n: Node, vars: seq<Variable>, i: nat)
    requires n.varCount == f.varCount && i <= |vars|
  {
    forall v: nat :: 1 <= v <= f.varCount && DependsOn(n, v) ==>
      DependsOn(f, v) && (i > 0 ==> vars[i - 1].index < v)
  }

  /** Where a variable of the support of `f` sits in `vars` relative to position `i`. */
  lemma PositionAbove(f: Node, vars: seq<Variable>, i: nat, v: nat) returns (k: nat)
    requires vars == Support(f) && i <= |vars|
    requires 1 <= v <= f.varCount && DependsOn(f, v)
    requires i > 0 ==> vars[i - 1].index < v
    ensures i <= k < |vars| && vars[k] == Variable(v)
  {
    CollectFlagged(SupportFlags(f), f.varCount + 1);
    assert Variable(v) in vars;
    k :| 0 <= k < |vars| && vars[k] == Variable(v);
  }

  /** A function that is neither valid nor unsat still depends on an unvisited variable. */
  lemma RemainingSupport(f: Node, n: Node, vars: seq<Variable>, i: nat)
    requires WellFormed(n) && n.varCount == f.varCount && i <= |vars| && vars == Support(f)
    requires !IsValid(n) && !IsUnsat(n) && SupportAbove(f, n, vars, i)
    ensures i < |vars|
  {
    ConstantOrDepends(n);
    var v: nat :| 1 <= v <= f.varCount && DependsOn(n, v);
    var k := PositionAbove(f, vars, i, v);
  }

  /** Conditioning on the literal of `vars[i]` leaves a support above `vars[i]`. */
  lemma SupportAfterCondition(f: Node, n: Node, lit: Literal, vars: seq<Variable>, i: nat)
    requires WellFormed(n) && n.varCount == f.varCount && InRange(lit, n.varCount)
    requires i < |vars| && vars == Support(f) && lit.Var() == vars[i]
    requires SupportAbove(f, n, vars, i)
    ensures SupportAbove(f, Condition(n, lit), vars, i + 1)
  {
    forall w: nat | 1 <= w <= f.varCount && DependsOn(Condition(n, lit), w)
      ensures DependsOn(f, w) && vars[i].index < w
    {
      ConditionSupport(n, lit, w);
      var k := PositionAbove(f, vars, i, w);
      CollectFlagged(SupportFlags(f), f.varCount + 1);
      assert k != i;
    }
  }

  /** One round of the model search keeps its invariant: fixing `vars[i]` extends the model by one literal. */
  lemma ModelStep(f: Node, vars: seq<Variable>, model: seq<Literal>, n: Node, lit: Literal)
    requires WellFormed(f) && vars == Support(f)
    requires |model| < |vars| && VarsOf(model) == vars[..|model|] && AllInRange(model, f.varCount)
    requires n == ConditionSeq(f, model) && SupportAbove(f, n, vars, |model|)
    requires lit.Var() == vars[|model|] && InRange(lit, f.varCount)
    ensures VarsOf(model + [lit]) == vars[..|model| + 1]
    ensures AllInRange(model + [lit], f.varCount)
    ensures Condition(n, lit) == ConditionSeq(f, model + [lit])
    ensures SupportAbove(f, Condition(n, lit), vars, |model| + 1)
  {
    var i := |model|;
    SupportAfterCondition(f, n, lit, vars, i);
    ConditionSeqSnoc(f, model, lit);
    assert (model + [lit])[..i] == model;
    assert vars[..i + 1] == vars[..i] + [vars[i]];
  }

  /** When the search stops on a valid function, its literals are what `model()` promises. */
  lemma ModelFound(f: Node, model: seq<Literal>)
    requires WellFormed(f) && AllInRange(model, f.varCount)
    requires IsValid(ConditionSeq(f, model))
    ensures IsValid(ConditionFold(f, model))
    ensures forall a :: |a| == f.varCount && (forall k :: 0 <= k < |model| ==> Satisfies(a, model[k])) ==>
      a in f.models
  {
    ConditionFoldIsSeq(f, model);
    ValidConditionImplicant(f, model);
  }

  /**
   * `node::model()`: walk the support in ascending order, fixing each
   * variable positively unless that makes the function unsat, until the
   * function is valid. None exactly when the node is unsat.
   */
  method Model(f: Node) returns (r: Option<seq<Literal>>)
    requires WellFormed(f)
    ensures r.None? <==> IsUnsat(f)
    ensures r.Some? ==> |r.value| <= |Support(f)|
    ensures r.Some? ==> VarsOf(r.value) == Support(f)[..|r.value|]
    ensures r.Some? ==> AllInRange(r.value, f.varCount) && IsValid(ConditionFold(f, r.value))
    ensures r.Some? ==> IsValid(ConditionSeq(f, r.value))
    ensures r.Some? ==> forall a :: |a| == f.varCount && (forall k :: 0 <= k < |r.value| ==> Satisfies(a, r.value[k])) ==>
      a in f.models
  {
    var model: seq<Literal> := [];
    var vars := Variables(f);
    var n := f;
    var i := 0;
    while true
      invariant 0 <= i <= |vars| && |model| == i
      invariant VarsOf(model) == vars[..i]
      invariant AllInRange(model, f.varCount)
      invariant n == ConditionSeq(f, model)
      invariant i > 0 ==> IsSat(n) && IsSat(f)
      invariant SupportAbove(f, n, vars, i)
      decreases |vars| - i
    {
      if IsUnsat(n) {
        return None;
      }
      if IsValid(n) {
        ValidIsSat(f);
        ModelFound(f, model);
        return Some(model);
      }
      RemainingSupport(f, n, vars, i);
      var x := vars[i];
      assert 1 <= x.index <= f.varCount by {
        CollectFlagged(SupportFlags(f), f.varCount + 1);
      }
      var lit := FromVariable(x);
      var choice := Condition(n, lit);
      if IsUnsat(choice) {
        ConditionSplit(n, lit);
        lit := lit.Negate();
        choice := Condition(n, lit);
      }
      ModelStep(f, vars, model, n, lit);
      model := model + [lit];
      n := choice;
      i := i + 1;
    }
  }

  // ---------------------------------------------------------------------
  // node::literal and node::elements
  // ---------------------------------------------------------------------

  /** `node::literal()`: the literal of a literal node, 0 for any other node. */
  function LiteralOf(f: Node): (r: Literal)
    ensures r.value != 0 ==> InRange(r, f.varCount) && f == LiteralFunction(f.varCount, r)
    ensures r.value == 0 <==> forall lit :: InRange(lit, f.varCount) ==> f != LiteralFunction(f.varCount, lit)
  {
    if !IsLiteral(f) then NoLiteral else FindLiteral(f, 1)
  }

  /** One (prime, sub) pair of a decision node. */
  datatype Element = Element(prime: Node, sub: Node)

  /** The flat layout libsdd uses: prime, sub, prime, sub, ... */
  function Flatten(es: seq<Element>): (flat: seq<Node>)
    ensures |flat| == 2 * |es|
    ensures forall i :: 0 <= i < |es| ==> flat[2 * i] == es[i].prime && flat[2 * i + 1] == es[i].sub
  {
    if es == [] then []
    else
      var rest := Flatten(es[1..]);
      assert forall i :: 1 <= i < |es| ==> rest[2 * (i - 1)] == es[i].prime && rest[2 * (i - 1) + 1] == es[i].sub;
      [es[0].prime, es[0].sub] + rest
  }

  /**
   * `node::elements()`: for a decision node, the `size` pairs of libsdd's
   * flat element array `elems`; for any other node, nothing.
   */
  method Elements(f: Node, elems: seq<Node>, size: nat) returns (result: seq<Element>)
    requires IsDecision(f) ==> 2 * size <= |elems|
    ensures !IsDecision(f) ==> result == []
    ensures IsDecision(f) ==> |result| == size
    ensures IsDecision(f) ==> forall i :: 0 <= i < size ==> result[i] == Element(elems[2 * i], elems[2 * i + 1])
    ensures IsDecision(f) ==> Flatten(result) == elems[..2 * size]
  {
    if !IsDecision(f) {
      return [];
    }
    result := [];
    var i := 0;
    while i < size
      invariant 0 <= i <= size
      invariant |result| == i
      invariant forall j :: 0 <= j < i ==> result[j] == Element(elems[2 * j], elems[2 * j + 1])
    {
      result := result + [Element(elems[2 * i], elems[2 * i + 1])];
      i := i + 1;
    }
    var flat := Flatten(result);
    assert forall k :: 0 <= k < 2 * size ==> flat[k] == elems[k] by {
      forall k | 0 <= k < 2 * size
        ensures flat[k] == elems[k]
      {
        var j := k / 2;
        assert j < size && (k == 2 * j || k == 2 * j + 1);
        assert flat[2 * j] == result[j].prime == elems[2 * j];
        assert flat[2 * j + 1] == result[j].sub == elems[2 * j + 1];
      }
    }
  }
}
