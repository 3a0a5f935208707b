/** The circuit the solver evaluates: an immutable, finite tree of gates over boolean
    leaves, and its reference meaning, a plain sequential recursive evaluation. */
module Circuit {
  import opened Counting

  /** One node of a circuit. Every gate keeps its children in order; `Gt` and `Lt` also
      carry an integer threshold and `Leaf` a fixed value. */
  datatype Node =
    | Leaf(value: bool)
    | Not(args: seq<Node>)
    | And(args: seq<Node>)
    | Or(args: seq<Node>)
    | Gt(threshold: int, args: seq<Node>)
    | Lt(threshold: int, args: seq<Node>)
    | If(args: seq<Node>)

  /** The arity the solver relies on: NOT reads its first child and IF its first three.
      Extra children are allowed and never looked at. */
  predicate WellFormed(n: Node)
    decreases n
  {
    match n
    case Leaf(_) => true
    case Not(args) => |args| >= 1 && forall j :: 0 <= j < |args| ==> WellFormed(args[j])
    case If(args) => |args| >= 3 && forall j :: 0 <= j < |args| ==> WellFormed(args[j])
    case And(args) => forall j :: 0 <= j < |args| ==> WellFormed(args[j])
    case Or(args) => forall j :: 0 <= j < |args| ==> WellFormed(args[j])
    case Gt(_, args) => forall j :: 0 <= j < |args| ==> WellFormed(args[j])
    case Lt(_, args) => forall j :: 0 <= j < |args| ==> WellFormed(args[j])
  }

  /** Reference semantics, gate by gate, with no counting encoding: AND is "every child",
      OR is "some child", GT/LT compare the number of true children with the threshold,
      IF chooses a branch by its condition. */
  function Eval(n: Node): bool
    requires WellFormed(n)
    decreases n, 1
  {
    match n
    case Leaf(v) => v
    case Not(args) => !Eval(args[0])
    case And(args) => AllTrue(Evals(args))
    case Or(args) => AnyTrue(Evals(args))
    case Gt(k, args) => Count(Evals(args)) > k
    case Lt(k, args) => Count(Evals(args)) < k
    case If(args) => if Eval(args[0]) then Eval(args[1]) else Eval(args[2])
  }

  /** The reference values of `args`, in submission order. */
  function Evals(args: seq<Node>): (vs: seq<bool>)
    requires forall j :: 0 <= j < |args| ==> WellFormed(args[j])
    ensures |vs| == |args|
    ensures forall j :: 0 <= j < |args| ==> vs[j] == Eval(args[j])
    decreases args, 0
  {
    seq(|args|, j requires 0 <= j < |args| => Eval(args[j]))
  }
}
