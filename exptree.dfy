/** The generic expression tree of the older library, at the only type it
    is used with, `bool`. Each constructor stores the operator's closure;
    the model stores the operator's tag in the shared `Node` type and
    proves that evaluating the tag gives what the closure computes. */
module ExpTree {
  import opened Formula

  /** `ExpNode::new` and `From<T>`: the same leaf as the newer library's
      `Node::new`, so it is built by that one. */
  function New(t: bool): (n: Node)
    ensures n.Value() == t
  {
    Node.New(t)
  }

  /** `neg`: the closure `|l| !l`. */
  function Neg(left: Node): (n: Node)
    ensures n.Value() == !left.Value()
  {
    OneOp(Op.Neg, left)
  }

  /** `and`: the closure `|l, r| l & r`. */
  function And(left: Node, right: Node): (n: Node)
    ensures n.Value() <==> left.Value() && right.Value()
  {
    TwoOp(Op.And, left, right)
  }

  /** `or`: the closure `|l, r| l | r`. */
  function Or(left: Node, right: Node): (n: Node)
    ensures n.Value() <==> left.Value() || right.Value()
  {
    TwoOp(Op.Or, left, right)
  }

  /** `xor`: the closure `|l, r| l ^ r`. */
  function Xor(left: Node, right: Node): (n: Node)
    ensures n.Value() <==> left.Value() != right.Value()
  {
    TwoOp(Op.Xor, left, right)
  }

  /** `mat_condition`: the closure `|l, r| !(l & !r)`, which is false
      exactly when the premise holds and the conclusion does not. */
  function MatCondition(left: Node, right: Node): (n: Node)
    ensures n.Value() == !(left.Value() && !right.Value())
    ensures !n.Value() <==> left.Value() && !right.Value()
  {
    TwoOp(Op.Cond, left, right)
  }

  /** `eq`: the closure `|l, r| (l == r).into()`. */
  function Eq(left: Node, right: Node): (n: Node)
    ensures n.Value() <==> left.Value() == right.Value()
  {
    TwoOp(Op.Eq, left, right)
  }
}
