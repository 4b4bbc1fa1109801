/**
 * expBuilder: the stack machine the formula parser drives. Every operator callback pops its
 * right operand, then its left one, and pushes the composed node; every value callback pushes
 * a leaf; ranges and function calls are ignored. getResult hands back the top of the stack.
 */
module Builder {
  import opened Address
  import opened Values
  import opened Expressions

  datatype Option<T> = None | Some(value: T)

  /** The CExprBuilder callbacks; BinaryOp(op) stands for opAdd, opSub, … opGe. */
  datatype Callback =
    | BinaryOp(op: BinOp)
    | NegOp
    | NumberValue(value: real)
    | TextValue(text: string)
    | ReferenceValue(text: string)
    | RangeValue(text: string)
    | FunctionCall(name: string, paramCount: int)

  /** The stack after some callbacks, or an aborted parse. */
  datatype Built = Stack(exprs: seq<Expr>) | Aborted

  /** How many operands a callback pops. */
  function Arity(cb: Callback): nat {
    match cb
    case BinaryOp(_) => 2
    case NegOp => 1
    case _ => 0
  }

  /**
   * One callback. A reference whose text is not an address makes CPos throw out of the
   * parse; an operator with too few operands on the stack is undefined behaviour in the
   * source and aborts here.
   */
  function Step(stack: seq<Expr>, cb: Callback): Built {
    if |stack| < Arity(cb) then Aborted
    else
      match cb
      case BinaryOp(op) => Stack(stack[..|stack| - 2] + [Binary(op, stack[|stack| - 2], stack[|stack| - 1])])
      case NegOp => Stack(stack[..|stack| - 1] + [Negative(stack[|stack| - 1])])
      case NumberValue(v) => Stack(stack + [NumberLeaf(v)])
      case TextValue(t) => Stack(stack + [TextLeaf(t)])
      case ReferenceValue(t) =>
        (match Decode(t)
         case Ok(p) => Stack(stack + [Reference(p)])
         case Err(_) => Aborted)
      case RangeValue(_) => Stack(stack)
      case FunctionCall(_, _) => Stack(stack)
  }

  /** A run of callbacks, from the first to the last. */
  function Replay(stack: seq<Expr>, cbs: seq<Callback>): Built
    decreases |cbs|
  {
    if cbs == [] then Stack(stack)
    else
      match Step(stack, cbs[0])
      case Aborted => Aborted
      case Stack(s) => Replay(s, cbs[1..])
  }

  /** getResult: the top of the stack; an empty stack throws (None). */
  function Top(stack: seq<Expr>): (r: Option<Expr>)
    ensures r.None? <==> stack == []
    ensures r.Some? ==> r.value == stack[|stack| - 1]
  {
    if stack == [] then None else Some(stack[|stack| - 1])
  }

  /** The callbacks a parser issues for a tree: operands first, in postfix order. */
  function Postfix(e: Expr): seq<Callback> {
    match e
    case NumberLeaf(v) => [NumberValue(v)]
    case TextLeaf(t) => [TextValue(t)]
    case Reference(p) => [ReferenceValue(p.code)]
    case Negative(a) => Postfix(a) + [NegOp]
    case Binary(op, l, r) => Postfix(l) + Postfix(r) + [BinaryOp(op)]
  }

  class ExprBuilder {
    /** The expression stack; its top is the last element. */
    var exprStack: seq<Expr>

    constructor()
      ensures exprStack == []
    {
      exprStack := [];
    }

    /** opAdd … opGe: pop the right operand, pop the left one, push the node. */
    method OpBinary(op: BinOp)
      requires |exprStack| >= 2
      modifies this
      ensures exprStack == old(exprStack)[..|old(exprStack)| - 2]
                           + [Binary(op, old(exprStack)[|old(exprStack)| - 2], old(exprStack)[|old(exprStack)| - 1])]
    {
      var right := exprStack[|exprStack| - 1];
      exprStack := exprStack[..|exprStack| - 1];
      var left := exprStack[|exprStack| - 1];
      exprStack := exprStack[..|exprStack| - 1];
      exprStack := exprStack + [Binary(op, left, right)];
    }

    /** opNeg: pop the operand, push its negation. */
    method OpNeg()
      requires |exprStack| >= 1
      modifies this
      ensures exprStack == old(exprStack)[..|old(exprStack)| - 1] + [Negative(old(exprStack)[|old(exprStack)| - 1])]
    {
      var left := exprStack[|exprStack| - 1];
      exprStack := exprStack[..|exprStack| - 1];
      exprStack := exprStack + [Negative(left)];
    }

    method ValNumber(value: real)
      modifies this
      ensures exprStack == old(exprStack) + [NumberLeaf(value)]
    {
      exprStack := exprStack + [NumberLeaf(value)];
    }

    method ValString(text: string)
      modifies this
      ensures exprStack == old(exprStack) + [TextLeaf(text)]
    {
      exprStack := exprStack + [TextLeaf(text)];
    }

    /** valReference: the text becomes a CPos, which may throw (an Err result). */
    method ValReference(text: string) returns (r: Result<Pos>)
      modifies this
      ensures r == Decode(text)
      ensures r.Ok? ==> exprStack == old(exprStack) + [Reference(r.value)]
      ensures r.Err? ==> exprStack == old(exprStack)
    {
      r := Parse(text);
      if r.Ok? {
        exprStack := exprStack + [Reference(r.value)];
      }
    }

    /** valRange and funcCall do nothing. */
    method Ignore()
    {
    }

    /** getResult: the top of the stack, however many entries lie below it. */
    method GetResult() returns (r: Option<Expr>)
      ensures r == Top(exprStack)
    {
      if exprStack == [] {
        return None;
      }
      r := Some(exprStack[|exprStack| - 1]);
    }

    /** One callback from the parser. */
    method Feed(cb: Callback) returns (ok: bool)
      modifies this
      ensures ok <==> Step(old(exprStack), cb).Stack?
      ensures ok ==> Step(old(exprStack), cb) == Stack(exprStack)
      ensures !ok ==> exprStack == old(exprStack)
    {
      if |exprStack| < Arity(cb) {
        return false;
      }
      match cb {
        case BinaryOp(op) => OpBinary(op);
        case NegOp => OpNeg();
        case NumberValue(v) => ValNumber(v);
        case TextValue(t) => ValString(t);
        case ReferenceValue(t) =>
          var r := ValReference(t);
          if r.Err? {
            return false;
          }
        case RangeValue(_) => Ignore();
        case FunctionCall(_, _) => Ignore();
      }
      ok := true;
    }

    /** parseExpression: the parser's callbacks, in order, until one throws. */
    method Run(cbs: seq<Callback>) returns (ok: bool)
      modifies this
      ensures ok <==> Replay(old(exprStack), cbs).Stack?
      ensures ok ==> Replay(old(exprStack), cbs) == Stack(exprStack)
    {
      var i := 0;
      while i < |cbs|
        invariant 0 <= i <= |cbs|
        invariant Replay(old(exprStack), cbs) == Replay(exprStack, cbs[i..])
      {
        assert cbs[i..][1..] == cbs[i + 1..];
        ok := Feed(cbs[i]);
        if !ok {
          return false;
        }
        i := i + 1;
      }
      ok := true;
    }
  }

  // ---------------------------------------------------------------- properties

  lemma ReplayAppend(stack: seq<Expr>, a: seq<Callback>, b: seq<Callback>)
    requires Replay(stack, a).Stack?
    ensures Replay(stack, a + b) == Replay(Replay(stack, a).exprs, b)
    decreases |a|
  {
    if a != [] {
      assert (a + b)[1..] == a[1..] + b;
      ReplayAppend(Step(stack, a[0]).exprs, a[1..], b);
    } else {
      assert a + b == b;
    }
  }

  lemma ReplayOne(stack: seq<Expr>, cb: Callback)
    ensures Replay(stack, [cb]) == Step(stack, cb)
  {
    assert [cb][1..] == [];
  }

  /** Replaying a tree's postfix callbacks pushes exactly that tree. */
  lemma {:induction false} ReplayPostfix(e: Expr, stack: seq<Expr>)
    requires WellFormed(e)
    ensures Replay(stack, Postfix(e)) == Stack(stack + [e])
  {
    match e
    case NumberLeaf(v) =>
      ReplayOne(stack, NumberValue(v));
    case TextLeaf(t) =>
      ReplayOne(stack, TextValue(t));
    case Reference(p) =>
      ReplayReference(p, stack);
    case Negative(a) =>
      ReplayPostfix(a, stack);
      ReplayNegative(a, stack);
    case Binary(op, l, r) =>
      ReplayPostfix(l, stack);
      ReplayPostfix(r, stack + [l]);
      ReplayBinary(op, l, r, stack);
  }

  lemma ReplayReference(p: Pos, stack: seq<Expr>)
    requires Decode(p.code) == Ok(p)
    ensures Replay(stack, Postfix(Reference(p))) == Stack(stack + [Reference(p)])
  {
    ReplayOne(stack, ReferenceValue(p.code));
    StepReference(stack, p.code);
  }

  lemma StepReference(stack: seq<Expr>, t: string)
    requires Decode(t).Ok?
    ensures Step(stack, ReferenceValue(t)) == Stack(stack + [Reference(Decode(t).value)])
  {
  }

  lemma ReplayNegative(a: Expr, stack: seq<Expr>)
    requires Replay(stack, Postfix(a)) == Stack(stack + [a])
    ensures Replay(stack, Postfix(Negative(a))) == Stack(stack + [Negative(a)])
  {
    ReplayAppend(stack, Postfix(a), [NegOp]);
    ReplayOne(stack + [a], NegOp);
    assert (stack + [a])[..|stack|] == stack;
  }

  lemma {:induction false} ReplayBinary(op: BinOp, l: Expr, r: Expr, stack: seq<Expr>)
    requires WellFormed(l) && WellFormed(r)
    requires Replay(stack, Postfix(l)) == Stack(stack + [l])
    requires Replay(stack + [l], Postfix(r)) == Stack(stack + [l] + [r])
    ensures Replay(stack, Postfix(l) + Postfix(r) + [BinaryOp(op)]) == Stack(stack + [Binary(op, l, r)])
  {
    ReplayAppend(stack, Postfix(l), Postfix(r));
    ReplayAppend(stack, Postfix(l) + Postfix(r), [BinaryOp(op)]);
    ReplayOne(stack + [l] + [r], BinaryOp(op));
    assert (stack + [l] + [r])[..|stack|] == stack;
  }

  /** A parser that issues a tree's postfix callbacks leaves that tree for getResult. */
  lemma BuildsTree(e: Expr)
    requires WellFormed(e)
    ensures Replay([], Postfix(e)) == Stack([e])
    ensures Top([e]) == Some(e)
  {
    ReplayPostfix(e, []);
  }

  /**
   * getResult does not reject a stack with more than one entry: two complete trees in a
   * row leave both, and the second is taken as the formula.
   */
  lemma LeftoverIgnored(a: Expr, b: Expr)
    requires WellFormed(a) && WellFormed(b)
    ensures Replay([], Postfix(a) + Postfix(b)) == Stack([a, b])
    ensures Top([a, b]) == Some(b)
  {
    ReplayPostfix(a, []);
    assert [] + [a] == [a];
    ReplayAppend([], Postfix(a), Postfix(b));
    ReplayPostfix(b, [a]);
    assert [a] + [b] == [a, b];
  }

  /** An operator with nothing to pop aborts the parse. */
  lemma UnderflowAborts(op: BinOp, e: Expr)
    ensures Replay([], [BinaryOp(op)]) == Aborted
    ensures Replay([e], [BinaryOp(op)]) == Aborted
    ensures Replay([], [NegOp]) == Aborted
  {
  }
}
