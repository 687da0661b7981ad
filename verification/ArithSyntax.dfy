/** Words of the image-arithmetic language and the reference meaning of an expression. */
module ArithSyntax {

  datatype Operator = Plus | Minus | Times | Divide {
    /** `*` and `/` bind tighter than `+` and `-`. */
    predicate Multiplicative() {
      Times? || Divide?
    }
  }

  /** One entry of the word array together with its type.  An operand carries a value of type V:
      a table name while the interpreter runs, or the value behind that name when reasoning about it.
      `Undefined` is the word left by an operation whose operands were not operands: it names nothing. */
  datatype Token<+V> =
    | Val(v: V)
    | Open
    | Close
    | Op(o: Operator)
    | Fn(f: string)
    | Lhs(name: string)
    | Equal
    | Undefined
  {
    /** Operators and functions take part in the choice of the next operation. */
    predicate Acts() {
      Op? || Fn?
    }

    /** The intrinsic priority: 0 for + and -, 1 for * and /, 2 for functions. */
    function Priority(): int
      requires Acts()
    {
      if Fn? then 2 else if o.Multiplicative() then 1 else 0
    }
  }

  /** What the operators and functions compute; nothing is assumed about them. */
  datatype Algebra<!V> = Algebra(binary: (Operator, V, V) -> V, unary: (string, V) -> V)

  /** Expressions, stratified so that + and - are left-associative and bind less tightly than
      the left-associative * and /. */
  datatype Expr<+V> =
    | Single(t: Term<V>)
    | Sum(e: Expr<V>, op: Operator, t: Term<V>)

  datatype Term<+V> =
    | Unit(a: Atom<V>)
    | Product(p: Term<V>, op: Operator, a: Atom<V>)

  datatype Atom<+V> =
    | Leaf(v: V)
    | Group(e: Expr<V>)
    | Call(f: string, e: Expr<V>)

  /** Each level of the grammar uses its own operators. */
  ghost predicate WellFormed<V>(e: Expr<V>) {
    match e
    case Single(t) => WellFormedTerm(t)
    case Sum(e1, op, t) => WellFormed(e1) && !op.Multiplicative() && WellFormedTerm(t)
  }

  ghost predicate WellFormedTerm<V>(t: Term<V>) {
    match t
    case Unit(a) => WellFormedAtom(a)
    case Product(p, op, a) => WellFormedTerm(p) && op.Multiplicative() && WellFormedAtom(a)
  }

  ghost predicate WellFormedAtom<V>(a: Atom<V>) {
    match a
    case Leaf(_) => true
    case Group(e) => WellFormed(e)
    case Call(_, e) => WellFormed(e)
  }

  /** The expression is one parenthesised group and nothing else. */
  ghost predicate IsGroup<V>(e: Expr<V>) {
    e.Single? && e.t.Unit? && e.t.a.Group?
  }

  /** No group, and no function argument, consists of just another group: `((e))` does not occur. */
  ghost predicate NoDoubled<V>(e: Expr<V>) {
    match e
    case Single(t) => NoDoubledTerm(t)
    case Sum(e1, _, t) => NoDoubled(e1) && NoDoubledTerm(t)
  }

  ghost predicate NoDoubledTerm<V>(t: Term<V>) {
    match t
    case Unit(a) => NoDoubledAtom(a)
    case Product(p, _, a) => NoDoubledTerm(p) && NoDoubledAtom(a)
  }

  ghost predicate NoDoubledAtom<V>(a: Atom<V>) {
    match a
    case Leaf(_) => true
    case Group(e) => !IsGroup(e) && NoDoubled(e)
    case Call(_, e) => !IsGroup(e) && NoDoubled(e)
  }

  /** The value of an expression. */
  ghost function Eval<V>(alg: Algebra<V>, e: Expr<V>): V {
    match e
    case Single(t) => EvalTerm(alg, t)
    case Sum(e1, op, t) => alg.binary(op, Eval(alg, e1), EvalTerm(alg, t))
  }

  ghost function EvalTerm<V>(alg: Algebra<V>, t: Term<V>): V {
    match t
    case Unit(a) => EvalAtom(alg, a)
    case Product(p, op, a) => alg.binary(op, EvalTerm(alg, p), EvalAtom(alg, a))
  }

  ghost function EvalAtom<V>(alg: Algebra<V>, a: Atom<V>): V {
    match a
    case Leaf(v) => v
    case Group(e) => Eval(alg, e)
    case Call(f, e) => alg.unary(f, Eval(alg, e))
  }

  /** The words of an expression. */
  ghost function Print<V>(e: Expr<V>): seq<Token<V>> {
    match e
    case Single(t) => PrintTerm(t)
    case Sum(e1, op, t) => Print(e1) + [Op(op)] + PrintTerm(t)
  }

  ghost function PrintTerm<V>(t: Term<V>): seq<Token<V>> {
    match t
    case Unit(a) => PrintAtom(a)
    case Product(p, op, a) => PrintTerm(p) + [Op(op)] + PrintAtom(a)
  }

  ghost function PrintAtom<V>(a: Atom<V>): seq<Token<V>> {
    match a
    case Leaf(v) => [Val(v)]
    case Group(e) => [Open] + Print(e) + [Close]
    case Call(f, e) => [Fn(f), Open] + Print(e) + [Close]
  }
}
