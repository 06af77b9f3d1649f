/**
 * The expressions the compiler composes. The model never looks inside a piece of
 * model source (a literal, a transformation's expression, a distribution): it is
 * an opaque `Code`. A node's expression generator applied to its operands is the
 * uninterpreted constructor `Call`.
 */
module Syntax {

  /** An opaque fragment of the model's source text. */
  datatype Code = Code(text: string)

  /** A reference to a bound name, or a node's generator applied to positional and keyword operands. */
  datatype Expr =
    | Name(id: string)
    | Call(gen: Code, args: seq<Expr>, kwargs: map<string, Expr>)

  /** `e` refers to the name `x` somewhere: it is that name, or one of its
      positional or keyword operands refers to it. */
  predicate Mentions(e: Expr, x: string) {
    match e
    case Name(id) => id == x
    case Call(_, args, kwargs) =>
      (exists a :: a in args && Mentions(a, x)) || (exists k :: k in kwargs && Mentions(kwargs[k], x))
  }
}
