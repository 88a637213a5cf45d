/**
 * The libsdd primitives the wrapper calls, stated on the Boolean functions
 * that SDD nodes denote.
 *
 * A node of a manager with `varCount` variables is the set of its models:
 * assignments of length `varCount`, where `a[v - 1]` is the value of
 * variable `v`. libsdd keeps nodes canonical (two nodes are the same object
 * exactly when they denote the same function), so equality of these values
 * stands for the pointer equality `node::operator==`. The vtree, the unique
 * node table and the SDD decomposition are not modelled.
 */
module Semantics {
  import opened Literals

  type Assignment = seq<bool>

  /** Every assignment to `n` variables. */
  function Assignments(n: nat): (r: set<Assignment>)
    ensures forall a {:trigger a in r} :: a in r <==> |a| == n
  {
    if n == 0 then
      assert forall a: Assignment :: |a| == 0 ==> a == [];
      {[]}
    else
      var shorter := Assignments(n - 1);
      var r := (set a | a in shorter :: a + [false]) + (set a | a in shorter :: a + [true]);
      assert forall a: Assignment :: |a| == n ==> a in r by {
        forall a: Assignment | |a| == n
          ensures a in r
        {
          var prefix := a[..n - 1];
          assert prefix in shorter;
          if a[n - 1] {
            assert a == prefix + [true];
          } else {
            assert a == prefix + [false];
          }
        }
      }
      r
  }

  /** A Boolean function over variables 1..varCount, given by its models. */
  datatype Node = Node(varCount: nat, models: set<Assignment>)

  predicate WellFormed(f: Node) {
    f.models <= Assignments(f.varCount)
  }

  /** A literal of one of the variables 1..n. */
  predicate InRange(lit: Literal, n: nat) {
    1 <= lit.Var().index <= n
  }

  predicate AllInRange(lits: seq<Literal>, n: nat) {
    forall k :: 0 <= k < |lits| ==> InRange(lits[k], n)
  }

  /** The assignment `a` makes the literal true. */
  predicate Satisfies(a: Assignment, lit: Literal)
    requires InRange(lit, |a|)
  {
    a[lit.Var().index - 1] == lit.IsPositive()
  }

  /** `a` with the literal's variable set so that the literal holds. */
  function Assign(a: Assignment, lit: Literal): Assignment
    requires InRange(lit, |a|)
  {
    a[lit.Var().index - 1 := lit.IsPositive()]
  }

  /** `a` with variable `v` flipped. */
  function Flip(a: Assignment, v: nat): Assignment
    requires 1 <= v <= |a|
  {
    a[v - 1 := !a[v - 1]]
  }

  // ---------------------------------------------------------------------
  // Terminals and literal nodes (sdd_manager_true/false/literal)
  // ---------------------------------------------------------------------

  function Top(n: nat): (r: Node)
    ensures WellFormed(r) && IsValid(r)
  {
    Node(n, Assignments(n))
  }

  function Bottom(n: nat): (r: Node)
    ensures WellFormed(r) && IsUnsat(r)
  {
    Node(n, {})
  }

  /** The function of a single literal. */
  function LiteralFunction(n: nat, lit: Literal): (r: Node)
    requires InRange(lit, n)
    ensures WellFormed(r) && r.varCount == n
    ensures forall a {:trigger a in r.models} :: a in r.models <==> |a| == n && Satisfies(a, lit)
  {
    Node(n, set a | a in Assignments(n) && Satisfies(a, lit))
  }

  // ---------------------------------------------------------------------
  // Queries (sdd_node_is_true, sdd_node_is_false)
  // ---------------------------------------------------------------------

  predicate IsValid(f: Node) {
    f.models == Assignments(f.varCount)
  }

  predicate IsUnsat(f: Node) {
    f.models == {}
  }

  /** A valid function has a model: `top` and `bottom` are different nodes. */
  lemma ValidIsSat(f: Node)
    ensures IsValid(f) ==> !IsUnsat(f)
  {
    var a := seq(f.varCount, i => false);
    assert a in Assignments(f.varCount);
  }

  // ---------------------------------------------------------------------
  // Boolean combination (sdd_negate, sdd_conjoin, sdd_disjoin)
  // ---------------------------------------------------------------------

  function Negate(f: Node): (r: Node)
    ensures WellFormed(r) && r.varCount == f.varCount
    ensures f.models !! r.models
  {
    Node(f.varCount, Assignments(f.varCount) - f.models)
  }

  function Conjoin(f: Node, g: Node): (r: Node)
    requires f.varCount == g.varCount
    requires WellFormed(f)
    ensures WellFormed(r) && r.varCount == f.varCount
    ensures r.models <= f.models && r.models <= g.models
  {
    Node(f.varCount, f.models * g.models)
  }

  function Disjoin(f: Node, g: Node): (r: Node)
    requires f.varCount == g.varCount
    requires WellFormed(f) && WellFormed(g)
    ensures WellFormed(r) && r.varCount == f.varCount
    ensures f.models <= r.models && g.models <= r.models
  {
    Node(f.varCount, f.models + g.models)
  }

  /** De Morgan: `!(n1 && n2) == !n1 || !n2`. */
  lemma NegateConjoin(f: Node, g: Node)
    requires WellFormed(f) && WellFormed(g) && f.varCount == g.varCount
    ensures Negate(Conjoin(f, g)) == Disjoin(Negate(f), Negate(g))
  {
    assert Negate(Conjoin(f, g)).models == Disjoin(Negate(f), Negate(g)).models;
  }

  /** De Morgan: `!(n1 || n2) == !n1 && !n2`. */
  lemma NegateDisjoin(f: Node, g: Node)
    requires WellFormed(f) && WellFormed(g) && f.varCount == g.varCount
    ensures Negate(Disjoin(f, g)) == Conjoin(Negate(f), Negate(g))
  {
    assert Negate(Disjoin(f, g)).models == Conjoin(Negate(f), Negate(g)).models;
  }

  /** A node and its negation: `n && !n` is unsat and `n || !n` is valid. */
  lemma Complement(f: Node)
    requires WellFormed(f)
    ensures IsUnsat(Conjoin(f, Negate(f)))
    ensures IsValid(Disjoin(f, Negate(f)))
  {
    assert Disjoin(f, Negate(f)).models == Assignments(f.varCount);
  }

  /** Negation is an involution on nodes: `!!n == n`. */
  lemma NegateInvolution(f: Node)
    requires WellFormed(f)
    ensures Negate(Negate(f)) == f
  {
  }

  // ---------------------------------------------------------------------
  // Conditioning (sdd_condition)
  // ---------------------------------------------------------------------

  /** The function with the literal's variable fixed so that the literal holds. */
  function Condition(f: Node, lit: Literal): (r: Node)
    requires WellFormed(f) && InRange(lit, f.varCount)
    ensures WellFormed(r) && r.varCount == f.varCount
    ensures forall a {:trigger a in r.models} :: a in f.models && Satisfies(a, lit) ==> a in r.models
  {
    var r := Node(f.varCount, set a | a in Assignments(f.varCount) && Assign(a, lit) in f.models);
    assert forall a :: a in f.models && Satisfies(a, lit) ==> Assign(a, lit) == a;
    r
  }

  /** Conditioning on a literal is unsat exactly when no model makes the literal true. */
  lemma ConditionUnsat(f: Node, lit: Literal)
    requires WellFormed(f) && InRange(lit, f.varCount)
    ensures IsUnsat(Condition(f, lit)) <==> forall a :: a in f.models ==> !Satisfies(a, lit)
  {
    var g := Condition(f, lit);
    if !IsUnsat(g) {
      var b :| b in g.models;
      assert Assign(b, lit) in f.models && Satisfies(Assign(b, lit), lit);
    } else {
      forall a | a in f.models
        ensures !Satisfies(a, lit)
      {
        assert a !in g.models;
      }
    }
  }

  /** On assignments that make the literal true, conditioning changes nothing. */
  lemma ConditionAgrees(f: Node, lit: Literal, a: Assignment)
    requires WellFormed(f) && InRange(lit, f.varCount)
    requires |a| == f.varCount && Satisfies(a, lit)
    ensures a in Condition(f, lit).models <==> a in f.models
  {
    assert Assign(a, lit) == a;
  }

  /** Conditioning twice on the same literal is conditioning once. */
  lemma ConditionIdempotent(f: Node, lit: Literal)
    requires WellFormed(f) && InRange(lit, f.varCount)
    ensures Condition(Condition(f, lit), lit) == Condition(f, lit)
  {
    var n := f.varCount;
    forall a | a in Assignments(n)
      ensures Assign(Assign(a, lit), lit) == Assign(a, lit)
    {
    }
  }

  /** Valid and unsat functions do not change under conditioning. */
  lemma ConditionConstant(f: Node, lit: Literal)
    requires WellFormed(f) && InRange(lit, f.varCount)
    requires IsValid(f) || IsUnsat(f)
    ensures Condition(f, lit) == f
  {
    var n := f.varCount;
    forall a | a in Assignments(n)
      ensures Assign(a, lit) in Assignments(n)
    {
    }
  }

  /** A satisfiable function keeps a model under at least one polarity of any literal. */
  lemma ConditionSplit(f: Node, lit: Literal)
    requires WellFormed(f) && InRange(lit, f.varCount)
    requires !IsUnsat(f)
    ensures !IsUnsat(Condition(f, lit)) || !IsUnsat(Condition(f, lit.Negate()))
  {
    var a :| a in f.models;
    if Satisfies(a, lit) {
      assert a in Condition(f, lit).models;
    } else {
      assert Satisfies(a, lit.Negate());
      assert a in Condition(f, lit.Negate()).models;
    }
  }

  // ---------------------------------------------------------------------
  // Support (sdd_variables)
  // ---------------------------------------------------------------------

  /** The function depends on variable `v`: flipping `v` changes its value somewhere. */
  predicate DependsOn(f: Node, v: nat)
    requires 1 <= v <= f.varCount
  {
    exists a {:trigger Flip(a, v)} :: a in Assignments(f.varCount) && (a in f.models) != (Flip(a, v) in f.models)
  }

  /**
   * The support flags libsdd reports: an array indexed 0..varCount, nonzero
   * exactly at the variables the function depends on. A canonical (trimmed,
   * compressed) SDD mentions exactly those variables.
   */
  function SupportFlags(f: Node): (flags: seq<int>)
    ensures |flags| == f.varCount + 1 && flags[0] == 0
    ensures forall v :: 1 <= v <= f.varCount ==> (flags[v] != 0 <==> DependsOn(f, v))
  {
    seq(f.varCount + 1, i => if 1 <= i <= f.varCount && DependsOn(f, i) then 1 else 0)
  }

  /** Moving from `a` to `b` one position at a time never changes membership. */
  lemma {:induction false} MixMembership(f: Node, a: Assignment, b: Assignment, k: nat)
    requires WellFormed(f) && |a| == f.varCount && |b| == f.varCount && k <= f.varCount
    requires forall v :: 1 <= v <= f.varCount ==> !DependsOn(f, v)
    ensures (b[..k] + a[k..] in f.models) == (a in f.models)
  {
    if k == 0 {
      assert b[..0] + a[0..] == a;
    } else {
      MixMembership(f, a, b, k - 1);
      var c := b[..k - 1] + a[k - 1..];
      var d := b[..k] + a[k..];
      assert c in Assignments(f.varCount);
      if a[k - 1] == b[k - 1] {
        assert c == d;
      } else {
        assert d == Flip(c, k);
        assert !DependsOn(f, k);
      }
    }
  }

  /** A function is valid, unsat, or depends on some variable. */
  lemma ConstantOrDepends(f: Node)
    requires WellFormed(f)
    ensures IsValid(f) || IsUnsat(f) || exists v :: 1 <= v <= f.varCount && DependsOn(f, v)
  {
    if forall v :: 1 <= v <= f.varCount ==> !DependsOn(f, v) {
      if !IsUnsat(f) {
        var a :| a in f.models;
        forall b | b in Assignments(f.varCount)
          ensures b in f.models
        {
          MixMembership(f, a, b, f.varCount);
          assert b[..f.varCount] + a[f.varCount..] == b;
        }
      }
    }
  }

  /** Conditioning removes the literal's variable from the support and adds none. */
  lemma ConditionSupport(f: Node, lit: Literal, v: nat)
    requires WellFormed(f) && InRange(lit, f.varCount) && 1 <= v <= f.varCount
    requires DependsOn(Condition(f, lit), v)
    ensures v != lit.Var().index && DependsOn(f, v)
  {
    var n := f.varCount;
    var g := Condition(f, lit);
    var x := lit.Var().index;
    var a :| a in Assignments(n) && (a in g.models) != (Flip(a, v) in g.models);
    assert Assign(Flip(a, x), lit) == Assign(a, lit);
    assert v != x;
    var c := Assign(a, lit);
    assert Assign(Flip(a, v), lit) == Flip(c, v);
    assert c in Assignments(n);
  }

  // ---------------------------------------------------------------------
  // Quantification (sdd_exists, sdd_forall, sdd_exists_multiple)
  // ---------------------------------------------------------------------

  /** `a` and `b` agree on every variable outside `q`. */
  predicate AgreeOutside(a: Assignment, b: Assignment, q: set<nat>)
    requires |a| == |b|
  {
    forall i :: 0 <= i < |a| && i + 1 !in q ==> a[i] == b[i]
  }

  /** Some model of `f` agrees with `a` outside `q`. */
  predicate ExtendsTo(f: Node, q: set<nat>, a: Assignment)
    requires WellFormed(f) && |a| == f.varCount
  {
    exists b :: b in f.models && AgreeOutside(a, b, q)
  }

  /** Existential quantification of the variables in `q`. */
  function Exists(f: Node, q: set<nat>): (r: Node)
    requires WellFormed(f)
    ensures WellFormed(r) && r.varCount == f.varCount
  {
    Node(f.varCount, set a | a in Assignments(f.varCount) && ExtendsTo(f, q, a))
  }

  /** Quantification only adds models: `f` implies `Exists(f, q)`. */
  lemma ExistsWeakens(f: Node, q: set<nat>)
    requires WellFormed(f)
    ensures f.models <= Exists(f, q).models
  {
    forall a | a in f.models
      ensures a in Exists(f, q).models
    {
      ExistsIntro(f, q, a, a);
    }
  }

  /** Universal quantification of the variables in `q`. */
  function Forall(f: Node, q: set<nat>): (r: Node)
    requires WellFormed(f)
    ensures WellFormed(r) && r.varCount == f.varCount
    ensures r.models <= f.models
  {
    var r := Node(f.varCount, set a | a in Assignments(f.varCount) &&
                                      forall b :: b in Assignments(f.varCount) && AgreeOutside(a, b, q) ==> b in f.models);
    assert forall a :: a in r.models ==> AgreeOutside(a, a, q);
    r
  }

  /** `sdd_exists_multiple`: quantify every variable whose entry in the indicator array is 1. */
  function ExistsMultiple(f: Node, indicator: seq<int>): Node
    requires WellFormed(f) && |indicator| == f.varCount + 1
  {
    Exists(f, set v: nat | 1 <= v <= f.varCount && indicator[v] == 1)
  }

  /** Quantifying a name that is no variable of the manager (0, or above `varCount`) changes nothing. */
  lemma ExistsInRange(f: Node, q: set<nat>)
    requires WellFormed(f)
    ensures Exists(f, q) == Exists(f, set v | v in q && 1 <= v <= f.varCount)
  {
    var q' := set v | v in q && 1 <= v <= f.varCount;
    forall a | a in Assignments(f.varCount)
      ensures ExtendsTo(f, q, a) <==> ExtendsTo(f, q', a)
    {
      if ExtendsTo(f, q, a) {
        var b :| b in f.models && AgreeOutside(a, b, q);
        assert AgreeOutside(a, b, q');
      }
      if ExtendsTo(f, q', a) {
        var b :| b in f.models && AgreeOutside(a, b, q');
        assert AgreeOutside(a, b, q);
      }
    }
  }

  /**
   * `sdd_exists_multiple` reads an indicator array only at the variables
   * `1..varCount`, and only asks whether the entry is 1: entry 0 and any
   * other value are ignored.
   */
  lemma ExistsMultipleMarks(f: Node, indicator1: seq<int>, indicator2: seq<int>)
    requires WellFormed(f) && |indicator1| == f.varCount + 1 && |indicator2| == f.varCount + 1
    requires forall v :: 1 <= v <= f.varCount ==> (indicator1[v] == 1 <==> indicator2[v] == 1)
    ensures ExistsMultiple(f, indicator1) == ExistsMultiple(f, indicator2)
  {
    var q1 := set v: nat | 1 <= v <= f.varCount && indicator1[v] == 1;
    var q2 := set v: nat | 1 <= v <= f.varCount && indicator2[v] == 1;
    assert q1 == q2;
  }

  /** Quantifier duality: `forall(q, n) == !exists(q, !n)`. */
  lemma ForallDuality(f: Node, q: set<nat>)
    requires WellFormed(f)
    ensures Forall(f, q) == Negate(Exists(Negate(f), q))
  {
    var n := f.varCount;
    var lhs := Forall(f, q);
    var rhs := Negate(Exists(Negate(f), q));
    forall a | a in Assignments(n)
      ensures a in lhs.models <==> a in rhs.models
    {
      if a !in lhs.models {
        var b :| b in Assignments(n) && AgreeOutside(a, b, q) && b !in f.models;
        assert b in Negate(f).models;
      }
    }
  }

  /** A model of `Exists(f, q)` comes with a model of `f` that agrees with it outside `q`. */
  lemma ExistsWitness(f: Node, q: set<nat>, a: Assignment) returns (b: Assignment)
    requires WellFormed(f) && a in Exists(f, q).models
    ensures b in f.models && AgreeOutside(a, b, q)
  {
    assert ExtendsTo(f, q, a);
    b :| b in f.models && AgreeOutside(a, b, q);
  }

  /** Agreeing outside `q` with a model of `f` makes a model of `Exists(f, q)`. */
  lemma ExistsIntro(f: Node, q: set<nat>, a: Assignment, b: Assignment)
    requires WellFormed(f) && |a| == f.varCount
    requires b in f.models && AgreeOutside(a, b, q)
    ensures a in Exists(f, q).models
  {
  }

  /** A model of the union quantification is a model of the two-step one. */
  lemma ExistsComposeIn(f: Node, q1: set<nat>, q2: set<nat>, a: Assignment)
    requires WellFormed(f)
    requires a in Exists(f, q1 + q2).models
    ensures a in Exists(Exists(f, q1), q2).models
  {
    var n := f.varCount;
    var b := ExistsWitness(f, q1 + q2, a);
    var c := seq(n, i requires 0 <= i < n => if i + 1 in q1 then a[i] else b[i]);
    ExistsIntro(f, q1, c, b);
    ExistsIntro(Exists(f, q1), q2, a, c);
  }

  /** A model of the two-step quantification is a model of the union one. */
  lemma ExistsComposeOut(f: Node, q1: set<nat>, q2: set<nat>, a: Assignment)
    requires WellFormed(f)
    requires a in Exists(Exists(f, q1), q2).models
    ensures a in Exists(f, q1 + q2).models
  {
    var c := ExistsWitness(Exists(f, q1), q2, a);
    var b := ExistsWitness(f, q1, c);
    ExistsIntro(f, q1 + q2, a, b);
  }

  /** Quantifying in two steps is quantifying the union at once. */
  lemma ExistsCompose(f: Node, q1: set<nat>, q2: set<nat>)
    requires WellFormed(f)
    ensures Exists(Exists(f, q1), q2) == Exists(f, q1 + q2)
  {
    var lhs := Exists(Exists(f, q1), q2);
    var rhs := Exists(f, q1 + q2);
    forall a | a in rhs.models
      ensures a in lhs.models
    {
      ExistsComposeIn(f, q1, q2, a);
    }
    forall a | a in lhs.models
      ensures a in rhs.models
    {
      ExistsComposeOut(f, q1, q2, a);
    }
  }

  // ---------------------------------------------------------------------
  // Renaming (sdd_rename_variables)
  // ---------------------------------------------------------------------

  /** A renaming table as libsdd takes it: entry `i` is the new name of variable `i`. */
  predicate IsRenaming(table: seq<int>, n: nat) {
    |table| == n + 1 && forall i :: 1 <= i <= n ==> 1 <= table[i] <= n
  }

  /** The assignment seen by the original function when the renamed one is given `a`. */
  function Pull(a: Assignment, table: seq<int>): (b: Assignment)
    requires IsRenaming(table, |a|)
    ensures |b| == |a|
  {
    seq(|a|, i requires 0 <= i < |a| => a[table[i + 1] - 1])
  }

  /** Every variable `i` of the function is replaced by variable `table[i]`. */
  function Rename(f: Node, table: seq<int>): (r: Node)
    requires IsRenaming(table, f.varCount)
    ensures WellFormed(r) && r.varCount == f.varCount
  {
    Node(f.varCount, set a | a in Assignments(f.varCount) && Pull(a, table) in f.models)
  }

  /** Renaming by the identity table gives back the function. */
  lemma RenameIdentity(f: Node, table: seq<int>)
    requires WellFormed(f) && IsRenaming(table, f.varCount)
    requires forall i :: 1 <= i <= f.varCount ==> table[i] == i
    ensures Rename(f, table) == f
  {
    forall a | a in Assignments(f.varCount)
      ensures Pull(a, table) == a
    {
    }
  }

  /** Renaming sends the literal of variable `v` to the literal of variable `table[v]`. */
  lemma RenameLiteral(n: nat, v: nat, table: seq<int>)
    requires IsRenaming(table, n) && 1 <= v <= n
    ensures Rename(LiteralFunction(n, Literal(v)), table) == LiteralFunction(n, Literal(table[v]))
  {
    var lhs := Rename(LiteralFunction(n, Literal(v)), table);
    var rhs := LiteralFunction(n, Literal(table[v]));
    forall a | a in Assignments(n)
      ensures a in lhs.models <==> a in rhs.models
    {
      assert Pull(a, table)[v - 1] == a[table[v] - 1];
    }
  }

  // ---------------------------------------------------------------------
  // Literal nodes (sdd_node_is_literal, sdd_node_literal, sdd_node_is_decision)
  // ---------------------------------------------------------------------

  /**
   * The literal whose node is `f`, searching the variables `v..varCount`,
   * or 0 when there is none.
   */
  function FindLiteral(f: Node, v: nat): (r: Literal)
    requires 1 <= v <= f.varCount + 1
    ensures r.value != 0 ==> InRange(r, f.varCount) && f == LiteralFunction(f.varCount, r)
    ensures r.value == 0 ==>
      forall lit :: InRange(lit, f.varCount) && v <= lit.Var().index ==> f != LiteralFunction(f.varCount, lit)
    decreases f.varCount + 1 - v
  {
    if v > f.varCount then NoLiteral
    else if f == LiteralFunction(f.varCount, Literal(v)) then Literal(v)
    else if f == LiteralFunction(f.varCount, Literal(-(v as int))) then Literal(-(v as int))
    else FindLiteral(f, v + 1)
  }

  /** `f` is the node of a literal. */
  predicate IsLiteral(f: Node) {
    FindLiteral(f, 1).value != 0
  }

  /** Every other node is a decision node. */
  predicate IsDecision(f: Node) {
    !IsValid(f) && !IsUnsat(f) && !IsLiteral(f)
  }
}
