/** Two readings of the value a typed command gives. */
module ArithTextValue {
  import opened ArithSyntax
  import opened ArithInterpreter
  import opened ArithCommand
  import opened ArithText
  import opened ArithTextCommand
  import Lexer = ArithLexer

  // ----- numbers and variables only

  ghost predicate Numeric<S, M>(isNumber: string -> bool, tb: Tables<S, M>, e: Expr<string>) {
    match e
    case Single(t) => TermNumeric(isNumber, tb, t)
    case Sum(e1, _, t) => Numeric(isNumber, tb, e1) && TermNumeric(isNumber, tb, t)
  }

  ghost predicate TermNumeric<S, M>(isNumber: string -> bool, tb: Tables<S, M>, t: Term<string>) {
    match t
    case Unit(a) => AtomNumeric(isNumber, tb, a)
    case Product(p, _, a) => TermNumeric(isNumber, tb, p) && AtomNumeric(isNumber, tb, a)
  }

  ghost predicate AtomNumeric<S, M>(isNumber: string -> bool, tb: Tables<S, M>, a: Atom<string>) {
    match a
    case Leaf(w) => isNumber(w) || w in tb.vars
    case Group(e) => Numeric(isNumber, tb, e)
    case Call(_, e) => Numeric(isNumber, tb, e)
  }

  /** The value of an expression without images: the operations for numbers, left operand first. */
  ghost function Number<S, M>(isNumber: string -> bool, ops: Ops<S, M>, tb: Tables<S, M>, e: Expr<string>): S
    requires Numeric(isNumber, tb, e)
  {
    match e
    case Single(t) => TermNumber(isNumber, ops, tb, t)
    case Sum(e1, o, t) => ops.ss(o, Number(isNumber, ops, tb, e1), TermNumber(isNumber, ops, tb, t))
  }

  ghost function TermNumber<S, M>(isNumber: string -> bool, ops: Ops<S, M>, tb: Tables<S, M>, t: Term<string>): S
    requires TermNumeric(isNumber, tb, t)
  {
    match t
    case Unit(a) => AtomNumber(isNumber, ops, tb, a)
    case Product(p, o, a) => ops.ss(o, TermNumber(isNumber, ops, tb, p), AtomNumber(isNumber, ops, tb, a))
  }

  ghost function AtomNumber<S, M>(isNumber: string -> bool, ops: Ops<S, M>, tb: Tables<S, M>, a: Atom<string>): S
    requires AtomNumeric(isNumber, tb, a)
  {
    match a
    case Leaf(w) => if isNumber(w) then ops.number(w) else tb.vars[w]
    case Group(e) => Number(isNumber, ops, tb, e)
    case Call(f, e) => ops.fs(f, Number(isNumber, ops, tb, e))
  }

  lemma {:induction false} ValueIsNumber<S, M>(isNumber: string -> bool, ops: Ops<S, M>, tb: Tables<S, M>, e: Expr<string>)
    requires Numeric(isNumber, tb, e)
    ensures ValueOf(isNumber, ops, tb, e) == Scalar(Number(isNumber, ops, tb, e))
  {
    match e
    case Single(t) => TermIsNumber(isNumber, ops, tb, t);
    case Sum(e1, _, t) =>
      ValueIsNumber(isNumber, ops, tb, e1);
      TermIsNumber(isNumber, ops, tb, t);
  }

  lemma {:induction false} TermIsNumber<S, M>(isNumber: string -> bool, ops: Ops<S, M>, tb: Tables<S, M>, t: Term<string>)
    requires TermNumeric(isNumber, tb, t)
    ensures TermValue(isNumber, ops, tb, t) == Scalar(TermNumber(isNumber, ops, tb, t))
  {
    match t
    case Unit(a) => AtomIsNumber(isNumber, ops, tb, a);
    case Product(p, _, a) =>
      TermIsNumber(isNumber, ops, tb, p);
      AtomIsNumber(isNumber, ops, tb, a);
  }

  lemma {:induction false} AtomIsNumber<S, M>(isNumber: string -> bool, ops: Ops<S, M>, tb: Tables<S, M>, a: Atom<string>)
    requires AtomNumeric(isNumber, tb, a)
    ensures AtomValue(isNumber, ops, tb, a) == Scalar(AtomNumber(isNumber, ops, tb, a))
  {
    match a
    case Leaf(_) =>
    case Group(e) => ValueIsNumber(isNumber, ops, tb, e);
    case Call(_, e) => ValueIsNumber(isNumber, ops, tb, e);
  }

  /** On numbers and variables, a command typed as `name = e` gives name the number that is written. */
  lemma {:induction false} TypedNumber<S, M>(isNumber: string -> bool, ops: Ops<S, M>, pid: nat, cmd: string, tb: Tables<S, M>,
                                             name: string, e: Expr<string>)
    requires Lexer.Unspaced(cmd) == name + "=" + Text(e) && Numeric(isNumber, tb, e)
    requires Command(isNumber, tb, e) && Computes(e) && Nameable(isNumber, name, pid) && NoTemporaries(tb, pid)
    ensures var s := Number(isNumber, ops, tb, e);
            Interpret(isNumber, ops, pid, cmd, tb) == Ran(Done(Tables(tb.vars[name := s], tb.imgs - {name}), Prints(s)))
  {
    ValueIsNumber(isNumber, ops, tb, e);
    TypedAssignment(isNumber, ops, pid, cmd, tb, name, e);
  }

  // ----- every operand in its place

  /** Operations, one for each combination of operand types, that write down what they do, operands in reading order. */
  ghost const WRITER: Ops<string, string> := Ops(
    w => w, x => x,
    (o, x, y) => x + Sign(o) + y, (o, x, y) => x + Sign(o) + y, (o, x, y) => x + Sign(o) + y, (o, x, y) => x + Sign(o) + y,
    (f, x) => f + x, (f, x) => f + x)

  /** Every name stands for itself. */
  ghost predicate StandsForItself(tb: Tables<string, string>) {
    (forall x :: x in tb.vars ==> tb.vars[x] == x) && (forall x :: x in tb.imgs ==> tb.imgs[x] == x)
  }

  /** The characters that are no parentheses. */
  ghost function Unwrapped(s: string): string {
    if s == [] then [] else Unwrapped(s[..|s| - 1]) + if s[|s| - 1] == '(' || s[|s| - 1] == ')' then [] else [s[|s| - 1]]
  }

  lemma {:induction false} UnwrappedConcat(a: string, b: string)
    ensures Unwrapped(a + b) == Unwrapped(a) + Unwrapped(b)
    decreases |b|
  {
    if b == [] {
      assert a + b == a;
    } else {
      var b' := b[..|b| - 1];
      assert (a + b)[..|a + b| - 1] == a + b';
      UnwrappedConcat(a, b');
    }
  }

  lemma {:induction false} UnwrappedWord(w: string)
    requires '(' !in w && ')' !in w
    ensures Unwrapped(w) == w
  {
    if w != [] { UnwrappedWord(w[..|w| - 1]); }
  }

  lemma {:induction false} UnwrappedUnbroken(w: string)
    requires Unbroken(w)
    ensures Unwrapped(w) == w
  {
    forall i | 0 <= i < |w| ensures w[i] != '(' && w[i] != ')' {}
    UnwrappedWord(w);
  }

  lemma {:induction false} UnwrappedPair(a: string, o: Operator, b: string)
    ensures Unwrapped(a + Sign(o) + b) == Unwrapped(a) + Sign(o) + Unwrapped(b)
  {
    UnwrappedConcat(a + Sign(o), b);
    UnwrappedConcat(a, Sign(o));
    UnwrappedWord(Sign(o));
  }

  lemma {:induction false} UnwrappedGroup(a: string, b: string)
    ensures Unwrapped(a + "(" + b + ")") == Unwrapped(a) + Unwrapped(b)
  {
    UnwrappedConcat(a + "(" + b, ")");
    UnwrappedConcat(a + "(", b);
    UnwrappedConcat(a, "(");
    assert Unwrapped("(") == [] && Unwrapped(")") == [];
  }

  lemma {:induction false} UnwrappedParentheses(b: string)
    ensures Unwrapped("(" + b + ")") == Unwrapped(b)
  {
    UnwrappedGroup("", b);
    assert "" + "(" + b + ")" == "(" + b + ")";
  }

  ghost function WrittenBy(v: Value<string, string>): string {
    if v.Scalar? then v.s else v.m
  }

  lemma {:induction false} ValueIsText(isNumber: string -> bool, tb: Tables<string, string>, e: Expr<string>)
    requires Written(isNumber, tb, e) && StandsForItself(tb)
    ensures WrittenBy(ValueOf(isNumber, WRITER, tb, e)) == Unwrapped(Text(e))
  {
    match e
    case Single(t) => TermIsText(isNumber, tb, t);
    case Sum(e1, o, t) =>
      ValueIsText(isNumber, tb, e1);
      TermIsText(isNumber, tb, t);
      UnwrappedPair(Text(e1), o, TermText(t));
  }

  lemma {:induction false} TermIsText(isNumber: string -> bool, tb: Tables<string, string>, t: Term<string>)
    requires TermWritten(isNumber, tb, t) && StandsForItself(tb)
    ensures WrittenBy(TermValue(isNumber, WRITER, tb, t)) == Unwrapped(TermText(t))
  {
    match t
    case Unit(a) => AtomIsText(isNumber, tb, a);
    case Product(p, o, a) =>
      TermIsText(isNumber, tb, p);
      AtomIsText(isNumber, tb, a);
      UnwrappedPair(TermText(p), o, AtomText(a));
  }

  lemma {:induction false} AtomIsText(isNumber: string -> bool, tb: Tables<string, string>, a: Atom<string>)
    requires AtomWritten(isNumber, tb, a) && StandsForItself(tb)
    ensures WrittenBy(AtomValue(isNumber, WRITER, tb, a)) == Unwrapped(AtomText(a))
  {
    match a
    case Leaf(w) => UnwrappedUnbroken(w);
    case Group(e) =>
      ValueIsText(isNumber, tb, e);
      UnwrappedParentheses(Text(e));
    case Call(f, e) =>
      ValueIsText(isNumber, tb, e);
      FunctionIsUnbroken(f);
      UnwrappedUnbroken(f);
      UnwrappedGroup(f, Text(e));
  }

  /** With operations that write down what they do, a command gives back its own text without the parentheses: every
      operation, on numbers, on images and on both, gets its operands in reading order. */
  lemma {:induction false} TypedTextComesBack(isNumber: string -> bool, pid: nat, cmd: string, tb: Tables<string, string>, name: string, e: Expr<string>)
    requires Lexer.Unspaced(cmd) == name + "=" + Text(e) && StandsForItself(tb)
    requires Command(isNumber, tb, e) && Computes(e) && Nameable(isNumber, name, pid) && NoTemporaries(tb, pid)
    ensures var r := Interpret(isNumber, WRITER, pid, cmd, tb);
            && r.Ran? && r.r.Done?
            && (name in r.r.tb.vars ==> r.r.tb.vars[name] == Unwrapped(Text(e)))
            && (name in r.r.tb.imgs ==> r.r.tb.imgs[name] == Unwrapped(Text(e)))
            && (name in r.r.tb.vars || name in r.r.tb.imgs)
  {
    ValueIsText(isNumber, tb, e);
    TypedAssignment(isNumber, WRITER, pid, cmd, tb, name, e);
  }
}
