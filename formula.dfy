/** The boolean expression tree shared by the three tree builders. Every
    operator node of the source stores a closure; here it stores a tag
    from a closed set of operators, and `Apply` gives each tag its
    meaning. */
module Formula {

  datatype Op = Neg | And | Or | Xor | Cond | Eq

  /** The meaning of each operator. The unary `Neg` reads only `l`. */
  function Apply(op: Op, l: bool, r: bool): bool
  {
    match op
    case Neg => !l
    case And => l && r
    case Or => l || r
    case Xor => l != r
    case Cond => !l || r
    case Eq => l == r
  }

  datatype Node =
    | Leaf(b: bool)
    | OneOp(op: Op, left: Node)
    | TwoOp(op: Op, left: Node, right: Node)
  {
    /** `value`: a post-order fold, children first, then the operator. */
    function Value(): bool
    {
      match this
      case Leaf(b) => b
      case OneOp(op, left) => Apply(op, left.Value(), false)
      case TwoOp(op, left, right) => Apply(op, left.Value(), right.Value())
    }

    /** `Node::new` and `From<bool>`. */
    static function New(value: bool): (n: Node)
      ensures n.Value() == value
    {
      Leaf(value)
    }

    static function Negation(left: Node): (n: Node)
      ensures n.Value() == !left.Value()
    {
      OneOp(Op.Neg, left)
    }

    static function Conjunction(left: Node, right: Node): (n: Node)
      ensures n.Value() == (left.Value() && right.Value())
    {
      TwoOp(Op.And, left, right)
    }

    static function Disjunction(left: Node, right: Node): (n: Node)
      ensures n.Value() == (left.Value() || right.Value())
    {
      TwoOp(Op.Or, left, right)
    }

    static function ExclusiveDisjunction(left: Node, right: Node): (n: Node)
      ensures n.Value() == (left.Value() != right.Value())
    {
      TwoOp(Op.Xor, left, right)
    }

    static function Condition(left: Node, right: Node): (n: Node)
      ensures n.Value() == (!left.Value() || right.Value())
    {
      TwoOp(Op.Cond, left, right)
    }

    static function Equivalence(left: Node, right: Node): (n: Node)
      ensures n.Value() == (left.Value() == right.Value())
    {
      TwoOp(Op.Eq, left, right)
    }
  }
}
