/**
 * CValue, the dynamic value of a cell: nothing (std::monostate), a number (double,
 * modelled as a real) or a string; and what each formula operator computes from the values
 * of its operands.
 */
module Values {
  import opened Strings

  datatype CValue = Empty | Number(n: real) | Text(s: string)

  /**
   * The two library calls of the operators that the model leaves uninterpreted:
   * std::to_string(double) and pow.
   */
  datatype Numerics = Numerics(toText: real -> string, pow: (real, real) -> real)

  /** 1.0 for true, 0.0 for false: how the comparison operators report their answer. */
  function Truth(b: bool): (v: CValue)
    ensures v.Number? && (v.n == 1.0 <==> b) && (v.n == 0.0 <==> !b)
  {
    if b then Number(1.0) else Number(0.0)
  }

  /** How Sum renders one non-empty operand when the other one is text. */
  function Render(num: Numerics, v: CValue): string
    requires !v.Empty?
  {
    if v.Number? then num.toText(v.n) else v.s
  }

  /**
   * Sum: empty if either side is empty; the sum of two numbers; otherwise the two operands
   * as text, concatenated in operand order.
   */
  function Add(num: Numerics, l: CValue, r: CValue): (v: CValue)
    ensures v.Empty? <==> l.Empty? || r.Empty?
    ensures v.Number? <==> l.Number? && r.Number?
  {
    if l.Empty? || r.Empty? then Empty
    else if l.Number? && r.Number? then Number(l.n + r.n)
    else if l.Number? && r.Text? then Text(num.toText(l.n) + r.s)
    else if l.Text? && r.Number? then Text(l.s + num.toText(r.n))
    else Text(l.s + r.s)
  }

  /** The arithmetic operators other than Sum accept two numbers only. */
  predicate BothNumbers(l: CValue, r: CValue) {
    l.Number? && r.Number?
  }

  /** Subtraction. */
  function Sub(l: CValue, r: CValue): (v: CValue)
    ensures v.Empty? <==> !BothNumbers(l, r)
  {
    if !BothNumbers(l, r) then Empty else Number(l.n - r.n)
  }

  /** Multiplication. */
  function Mul(l: CValue, r: CValue): (v: CValue)
    ensures v.Empty? <==> !BothNumbers(l, r)
  {
    if !BothNumbers(l, r) then Empty else Number(l.n * r.n)
  }

  /** Division: also empty when the divisor is zero. */
  function Div(l: CValue, r: CValue): (v: CValue)
    ensures v.Empty? <==> !BothNumbers(l, r) || r.n == 0.0
  {
    if !BothNumbers(l, r) || r.n == 0.0 then Empty else Number(l.n / r.n)
  }

  /** Power, through the uninterpreted pow. */
  function Pow(num: Numerics, l: CValue, r: CValue): (v: CValue)
    ensures v.Empty? <==> !BothNumbers(l, r)
  {
    if !BothNumbers(l, r) then Empty else Number(num.pow(l.n, r.n))
  }

  /** Negative. */
  function Neg(x: CValue): (v: CValue)
    ensures v.Empty? <==> !x.Number?
  {
    if !x.Number? then Empty else Number(-x.n)
  }

  /** The six comparison operators. */
  datatype Relation = Eq | Ne | Lt | Le | Gt | Ge

  /** Two values a comparison can compare: two strings or two numbers. */
  predicate Comparable(l: CValue, r: CValue) {
    (l.Text? && r.Text?) || (l.Number? && r.Number?)
  }

  /** std::string's relational operators, in terms of its lexicographic operator<. */
  predicate TextHolds(rel: Relation, a: string, b: string) {
    match rel
    case Eq => a == b
    case Ne => a != b
    case Lt => StrLess(a, b)
    case Le => !StrLess(b, a)
    case Gt => StrLess(b, a)
    case Ge => !StrLess(a, b)
  }

  predicate NumberHolds(rel: Relation, a: real, b: real) {
    match rel
    case Eq => a == b
    case Ne => a != b
    case Lt => a < b
    case Le => a <= b
    case Gt => a > b
    case Ge => a >= b
  }

  /**
   * A comparison: two strings compare lexicographically, two numbers numerically, and the
   * answer is 1.0 or 0.0; any other mix of operands gives Empty.
   */
  function Compare(rel: Relation, l: CValue, r: CValue): (v: CValue)
    ensures v.Empty? <==> !Comparable(l, r)
    ensures !v.Empty? ==> v == Number(1.0) || v == Number(0.0)
  {
    if l.Text? && r.Text? then Truth(TextHolds(rel, l.s, r.s))
    else if !BothNumbers(l, r) then Empty
    else Truth(NumberHolds(rel, l.n, r.n))
  }

  /** The relation with its operands swapped: a < b is b > a. */
  function Converse(rel: Relation): Relation {
    match rel
    case Eq => Eq
    case Ne => Ne
    case Lt => Gt
    case Le => Ge
    case Gt => Lt
    case Ge => Le
  }

  /** The relation that holds exactly when rel does not. */
  function Negation(rel: Relation): Relation {
    match rel
    case Eq => Ne
    case Ne => Eq
    case Lt => Ge
    case Le => Gt
    case Gt => Le
    case Ge => Lt
  }

  // ---------------------------------------------------------------- properties

  /** An empty operand on either side makes the sum empty. */
  lemma AddEmpty(num: Numerics, x: CValue)
    ensures Add(num, Empty, x) == Empty && Add(num, x, Empty) == Empty
  {
  }

  /**
   * When at least one operand is text and neither is empty, Sum is the concatenation of the
   * two operands' renderings in operand order.
   */
  lemma AddConcatenates(num: Numerics, l: CValue, r: CValue)
    requires !l.Empty? && !r.Empty? && (l.Text? || r.Text?)
    ensures Add(num, l, r) == Text(Render(num, l) + Render(num, r))
  {
  }

  /** Subtraction undoes a numeric sum. */
  lemma SubUndoesAdd(num: Numerics, a: real, b: real)
    ensures Sub(Add(num, Number(a), Number(b)), Number(b)) == Number(a)
  {
  }

  /** Multiplying a quotient by its non-zero divisor gives the dividend back. */
  lemma DivUndoneByMul(a: real, b: real)
    requires b != 0.0
    ensures Mul(Div(Number(a), Number(b)), Number(b)) == Number(a)
  {
    assert a / b * b == a;
  }

  /** Negative is an involution on numbers and agrees with subtraction from zero. */
  lemma NegInvolution(a: real)
    ensures Neg(Neg(Number(a))) == Number(a)
    ensures Neg(Number(a)) == Sub(Number(0.0), Number(a))
  {
  }

  /** Swapping the operands of a comparison and taking its converse changes nothing. */
  lemma CompareConverse(rel: Relation, l: CValue, r: CValue)
    ensures Compare(Converse(rel), r, l) == Compare(rel, l, r)
  {
  }

  /** On comparable operands the negated relation gives the opposite answer. */
  lemma CompareNegation(rel: Relation, l: CValue, r: CValue)
    requires Comparable(l, r)
    ensures Compare(Negation(rel), l, r) == Truth(Compare(rel, l, r) == Number(0.0))
  {
    if l.Text? {
      if rel == Eq || rel == Ne {
      } else {
        StrLessAsymmetricBoth(l.s, r.s);
      }
    }
  }

  /** Exactly one of <, == and > holds between comparable operands. */
  lemma CompareTrichotomy(l: CValue, r: CValue)
    requires Comparable(l, r)
    ensures Compare(Lt, l, r) == Number(1.0) || Compare(Eq, l, r) == Number(1.0) || Compare(Gt, l, r) == Number(1.0)
    ensures Compare(Lt, l, r) == Number(1.0) ==> Compare(Eq, l, r) == Number(0.0) && Compare(Gt, l, r) == Number(0.0)
    ensures Compare(Gt, l, r) == Number(1.0) ==> Compare(Eq, l, r) == Number(0.0)
  {
    if l.Text? {
      if l.s != r.s {
        StrLessTotal(l.s, r.s);
      } else {
        StrLessIrreflexive(l.s);
      }
      StrLessAsymmetricBoth(l.s, r.s);
    }
  }

  /** <= holds exactly when < or == does. */
  lemma LeIsLtOrEq(l: CValue, r: CValue)
    requires Comparable(l, r)
    ensures Compare(Le, l, r) == Truth(Compare(Lt, l, r) == Number(1.0) || Compare(Eq, l, r) == Number(1.0))
  {
    if l.Text? {
      if l.s != r.s {
        StrLessTotal(l.s, r.s);
      } else {
        StrLessIrreflexive(l.s);
      }
      StrLessAsymmetricBoth(l.s, r.s);
    }
  }

  lemma StrLessAsymmetricBoth(a: string, b: string)
    ensures !(StrLess(a, b) && StrLess(b, a))
  {
    if StrLess(a, b) {
      StrLessAsymmetric(a, b);
    }
  }
}
