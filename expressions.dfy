/**
 * The formula tree a cell keeps: one node per Expr subclass (Numeric, Text, Reference,
 * Negative and the eleven binary operators).
 */
module Expressions {
  import opened Address
  import opened Values

  /** The binary node classes: Sum, Subtraction, Multiplication, Division, Power, comparisons. */
  datatype BinOp = Plus | Minus | Times | Divide | Power | Compare(rel: Relation)

  datatype Expr =
    | NumberLeaf(value: real)
    | TextLeaf(text: string)
    | Reference(pos: Pos)
    | Negative(arg: Expr)
    | Binary(op: BinOp, left: Expr, right: Expr)

  /** Number of nodes; the measure of evaluation within one cell. */
  function Size(e: Expr): (n: nat)
    ensures n >= 1
  {
    match e
    case Negative(a) => 1 + Size(a)
    case Binary(_, l, r) => 1 + Size(l) + Size(r)
    case _ => 1
  }

  /**
   * What a binary node makes of its two operand values. Division's second evaluation of
   * its right operand is handled where evaluation happens.
   */
  function Apply(num: Numerics, op: BinOp, l: CValue, r: CValue): CValue {
    match op
    case Plus => Add(num, l, r)
    case Minus => Sub(l, r)
    case Times => Mul(l, r)
    case Divide => Div(l, r)
    case Power => Pow(num, l, r)
    case Compare(rel) => Values.Compare(rel, l, r)
  }

  /** Every reference node holds the address its own text decodes to. */
  predicate WellFormed(e: Expr) {
    match e
    case Reference(p) => Decode(p.code) == Ok(p)
    case Negative(a) => WellFormed(a)
    case Binary(_, l, r) => WellFormed(l) && WellFormed(r)
    case _ => true
  }
}
