/**
 * The value types `sdd::variable` and `sdd::literal` of sdd++.hpp.
 *
 * A variable is an unsigned index; a literal is a signed integer whose
 * magnitude is its variable and whose sign is its polarity. Zero is the
 * "no variable" / "no literal" sentinel that default construction yields.
 */
module Literals {

  /** `sdd::variable`: an unsigned index (0 when default-constructed). */
  datatype Variable = Variable(index: nat) {

    /** `!v`: the negative literal of this variable. */
    function Negate(): (r: Literal)
      ensures r.Var() == this
      ensures index > 0 ==> !r.IsPositive()
    {
      FromVariable(this).Negate()
    }
  }

  /** `sdd::literal`: a signed integer (0 when default-constructed). */
  datatype Literal = Literal(value: int) {

    /** `!l`: the literal of the same variable with the opposite sign. */
    function Negate(): (r: Literal)
      ensures r.Var() == Var()
      ensures value != 0 ==> r.IsPositive() == !IsPositive()
      ensures value == 0 ==> r == this
    {
      Literal(-value)
    }

    /** `bool(l)`: the polarity test. */
    predicate IsPositive() {
      value > 0
    }

    /** `l.variable()`: the magnitude of the literal. */
    function Var(): (v: Variable)
      ensures v.index as int == value || v.index as int == -value
      ensures v.index == 0 <==> value == 0
    {
      if value > 0 then Variable(value) else Variable(-value)
    }
  }

  /** The default-constructed variable. */
  const NoVariable: Variable := Variable(0)

  /** The default-constructed literal. */
  const NoLiteral: Literal := Literal(0)

  /** `literal(variable)`: the positive literal of a variable. */
  function FromVariable(v: Variable): (r: Literal)
    ensures r.Var() == v
    ensures v.index > 0 ==> r.IsPositive()
    ensures v.index == 0 ==> r == NoLiteral
  {
    Literal(v.index)
  }

  /** Negation is an involution: `!!l == l`. */
  lemma DoubleNegation(l: Literal)
    ensures l.Negate().Negate() == l
  {
  }

  /** The variable of a literal is its absolute value. */
  lemma VariableIsMagnitude(l: Literal)
    ensures l.value > 0 ==> l.Var().index as int == l.value
    ensures l.value <= 0 ==> l.Var().index as int == -l.value
  {
  }

  /** Negating a variable gives the literal with the negated index: `!v == literal(-v)`. */
  lemma VariableNegation(v: Variable)
    ensures v.Negate() == Literal(-(v.index as int))
  {
    assert FromVariable(v) == Literal(v.index);
  }

  /** The sentinels: the default literal has the default variable and is not positive. */
  lemma Sentinels()
    ensures NoLiteral.Var() == NoVariable
    ensures !NoLiteral.IsPositive()
    ensures NoVariable.Negate() == NoLiteral
  {
  }
}
