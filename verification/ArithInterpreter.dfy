/** The interpreter as it runs: a word array rewritten in place, and the variable and image tables. */
module ArithInterpreter {
  import opened ArithSyntax
  import opened ArithPass
  import opened Decimals
  import opened Wrappers

  /** An operand word: a number as written, or the name of a variable or of an image. */
  datatype Operand = Number(text: string) | Variable(name: string) | Image(name: string)

  datatype Value<+S, +M> = Scalar(s: S) | Picture(m: M)

  /** The scalar and image operations, one for each combination of operand types, and the reading of numbers. */
  datatype Ops<!S, !M> = Ops(
    number: string -> S,
    negate: S -> S,
    ss: (Operator, S, S) -> S,
    sm: (Operator, S, M) -> M,
    ms: (Operator, M, S) -> M,
    mm: (Operator, M, M) -> M,
    fs: (string, S) -> S,
    fm: (string, M) -> M)

  function Binary<S, M>(ops: Ops<S, M>, o: Operator, a: Value<S, M>, b: Value<S, M>): Value<S, M> {
    match (a, b)
    case (Scalar(x), Scalar(y)) => Scalar(ops.ss(o, x, y))
    case (Scalar(x), Picture(y)) => Picture(ops.sm(o, x, y))
    case (Picture(x), Scalar(y)) => Picture(ops.ms(o, x, y))
    case (Picture(x), Picture(y)) => Picture(ops.mm(o, x, y))
  }

  function Unary<S, M>(ops: Ops<S, M>, f: string, a: Value<S, M>): Value<S, M> {
    match a
    case Scalar(x) => Scalar(ops.fs(f, x))
    case Picture(x) => Picture(ops.fm(f, x))
  }

  function Alg<S, M>(ops: Ops<S, M>): Algebra<Value<S, M>> {
    Algebra((o, a, b) => Binary(ops, o, a, b), (f, a) => Unary(ops, f, a))
  }

  /** The two tables. */
  datatype Tables<+S, +M> = Tables(vars: map<string, S>, imgs: map<string, M>)

  /** Sets a variable, or does nothing when an image has that name. */
  function CreateVariable<S, M>(tb: Tables<S, M>, name: string, value: S): Tables<S, M> {
    if name in tb.imgs then tb else tb.(vars := tb.vars[name := value])
  }

  function Store<S, M>(tb: Tables<S, M>, name: string, v: Value<S, M>): Tables<S, M> {
    match v
    case Scalar(s) => CreateVariable(tb, name, s)
    case Picture(m) => tb.(imgs := tb.imgs[name := m])
  }

  function NameOf<S, M>(name: string, v: Value<S, M>): Operand {
    if v.Scalar? then Variable(name) else Image(name)
  }

  function DeleteName<S, M>(tb: Tables<S, M>, name: string): Tables<S, M> {
    Tables(tb.vars - {name}, tb.imgs - {name})
  }

  /** A word names something that is in the tables. */
  predicate Readable<S, M>(tb: Tables<S, M>, t: Token<Operand>) {
    t.Val? && (t.v.Number? || (t.v.Variable? && t.v.name in tb.vars) || (t.v.Image? && t.v.name in tb.imgs))
  }

  function Read<S, M>(ops: Ops<S, M>, tb: Tables<S, M>, t: Token<Operand>): Value<S, M>
    requires Readable(tb, t)
  {
    match t.v
    case Number(text) => Scalar(ops.number(text))
    case Variable(name) => Scalar(tb.vars[name])
    case Image(name) => Picture(tb.imgs[name])
  }

  /** The name of the k-th temporary of a process. */
  function TmpName(k: nat, pid: nat): string {
    "_tmp" + Decimal(k) + "_" + Decimal(pid)
  }

  /** All temporary names of a process. */
  function TmpNames(pid: nat): nat -> string {
    (k: nat) => TmpName(k, pid)
  }

  /** Everything the reduction loop works on. */
  datatype State<+S, +M> = State(ws: seq<Token<Operand>>, tb: Tables<S, M>, tmp: nat)

  // ----- the steps, as functions of the state

  /** A number at index i becomes a temporary. */
  function SaveOne<S, M>(ops: Ops<S, M>, names: nat -> string, st: State<S, M>, i: nat): State<S, M>
    requires i < |st.ws|
  {
    if st.ws[i].Val? && st.ws[i].v.Number? then
      var name := names(st.tmp);
      State(st.ws[i := Val(Variable(name))], CreateVariable(st.tb, name, ops.number(st.ws[i].v.text)), st.tmp + 1)
    else st
  }

  function SaveNumbers<S, M>(ops: Ops<S, M>, names: nat -> string, st: State<S, M>, i: nat): State<S, M>
    requires i <= |st.ws|
    decreases |st.ws| - i
  {
    if i == |st.ws| then st else SaveNumbers(ops, names, SaveOne(ops, names, st, i), i + 1)
  }

  predicate IsNegation(ws: seq<Token<Operand>>, i: nat) {
    i + 3 < |ws| && ws[i].Open? && ws[i + 3].Close? && ws[i + 1] == Op(Minus)
  }

  /** The rule for `( - x )`: the variable is negated in its table, its name replaces the opening
      parenthesis, and three words are dropped from index i + 2 on. */
  function NegateOne<S, M>(ops: Ops<S, M>, st: State<S, M>, i: nat): State<S, M>
    requires i + 3 < |st.ws|
  {
    var x := st.ws[i + 2];
    var vars := if x.Val? && x.v.Variable? && x.v.name in st.tb.vars
                then st.tb.vars[x.v.name := ops.negate(st.tb.vars[x.v.name])] else st.tb.vars;
    State(Shifted(st.ws[i := x], i + 2, 3), st.tb.(vars := vars), st.tmp)
  }

  /** The rule applied wherever it fits, from left to right. */
  function NegateBraces<S, M>(ops: Ops<S, M>, st: State<S, M>, i: nat): State<S, M>
    decreases |st.ws| - i
  {
    if i + 3 >= |st.ws| then st
    else if IsNegation(st.ws, i) then NegateBraces(ops, NegateOne(ops, st, i), i + 1)
    else NegateBraces(ops, st, i + 1)
  }

  /** Executes the operation at index k. */
  function ExecuteWords<S, M>(ops: Ops<S, M>, names: nat -> string, st: State<S, M>, k: nat): State<S, M>
    requires k < |st.ws| && st.ws[k].Acts()
  {
    var ws, name := st.ws, names(st.tmp);
    if ws[k].Op? then
      if 1 <= k && k + 1 < |ws| && Readable(st.tb, ws[k - 1]) && Readable(st.tb, ws[k + 1]) then
        var v := Binary(ops, ws[k].o, Read(ops, st.tb, ws[k - 1]), Read(ops, st.tb, ws[k + 1]));
        State(WithBinary(ws, k, Val(NameOf(name, v))), Store(st.tb, name, v), st.tmp + 1)
      else
        State(WithBinary(ws, k, Undefined), st.tb, st.tmp)
    else
      if k + 1 < |ws| && Readable(st.tb, ws[k + 1]) then
        var v := Unary(ops, ws[k].f, Read(ops, st.tb, ws[k + 1]));
        State(WithUnary(ws, k, Val(NameOf(name, v))), Store(st.tb, name, v), st.tmp + 1)
      else
        State(WithUnary(ws, k, Undefined), st.tb, st.tmp)
  }

  function PassWords<S, M>(ops: Ops<S, M>, names: nat -> string, st: State<S, M>): State<S, M> {
    var st1 := NegateBraces(ops, st.(ws := StripFrom(st.ws, 0)), 0);
    var k := Pick(st1.ws);
    PickInRange(st1.ws, |st1.ws|);
    if k == -1 then st1 else ExecuteWords(ops, names, st1, k)
  }

  /** The number of words after the last `=`. */
  function ToBeProcessed<V>(ws: seq<Token<V>>): nat {
    if |ws| == 0 || ws[|ws| - 1].Equal? then 0 else 1 + ToBeProcessed(ws[..|ws| - 1])
  }

  datatype Reduced<+S, +M> = Ended(st: State<S, M>) | Repeats

  function ReduceWords<S, M>(ops: Ops<S, M>, names: nat -> string, st: State<S, M>): Reduced<S, M>
    decreases |st.ws|
  {
    if ToBeProcessed(st.ws) <= 1 then Ended(st)
    else
      var st1 := PassWords(ops, names, st);
      if |st1.ws| < |st.ws| then ReduceWords(ops, names, st1) else Repeats
  }

  /** How a command ends: with new tables and possibly a printed value; by reading an entry
      that is not in a table; or never. */
  datatype Result<+S, +M> =
    | Done(tb: Tables<S, M>, printed: Printed<S>)
    | Fault
    | Never

  datatype Printed<+S> = Silent | Prints(s: S)

  /** Deletes the temporaries numbered below n. */
  function DeleteTemporaries<S, M>(tb: Tables<S, M>, names: nat -> string, n: nat): Tables<S, M> {
    if n == 0 then tb else DeleteName(DeleteTemporaries(tb, names, n - 1), names(n - 1))
  }

  function Symbol(o: Operator): string {
    match o
    case Plus => "+"
    case Minus => "-"
    case Times => "*"
    case Divide => "/"
  }

  /** The text of a word; a word left by an operation whose operands were not operands has none. */
  function WordOf(t: Token<Operand>): Option<string> {
    match t
    case Val(Number(text)) => Some(text)
    case Val(Variable(name)) => Some(name)
    case Val(Image(name)) => Some(name)
    case Open => Some("(")
    case Close => Some(")")
    case Op(o) => Some(Symbol(o))
    case Fn(f) => Some(f)
    case Lhs(name) => Some(name)
    case Equal => Some("=")
    case Undefined => None
  }

  /** The assignment or print at the end of a command, then the removal of the temporaries.  Whatever stands
      before `=` is assigned to; it is deleted first, also when there is nothing to assign. */
  function Finish<S, M>(st: State<S, M>, names: nat -> string): Result<S, M> {
    var ws, tb := st.ws, st.tb;
    if |ws| > 2 then
      if ws[1].Equal? && WordOf(ws[0]).Some? then
        var name := WordOf(ws[0]).value;
        var tb1 := DeleteName(tb, name);
        match ws[2]
        case Val(Variable(x)) =>
          if x !in tb1.vars then Fault
          else Done(DeleteTemporaries(CreateVariable(tb1, name, tb1.vars[x]), names, st.tmp), Prints(tb1.vars[x]))
        case Val(Image(x)) =>
          if x !in tb1.imgs then Fault
          else Done(DeleteTemporaries(Tables(tb1.vars, (tb1.imgs - {x})[name := tb1.imgs[x]]), names, st.tmp), Silent)
        case _ => Done(DeleteTemporaries(tb1, names, st.tmp), Silent)
      else Done(DeleteTemporaries(tb, names, st.tmp), Silent)
    else
      if |ws| > 0 && WordOf(ws[0]).Some? && WordOf(ws[0]).value in tb.vars then
        Done(DeleteTemporaries(tb, names, st.tmp), Prints(tb.vars[WordOf(ws[0]).value]))
      else Fault
  }

  function RunCommand<S, M>(ops: Ops<S, M>, names: nat -> string, ws: seq<Token<Operand>>, tb: Tables<S, M>): Result<S, M> {
    match ReduceWords(ops, names, SaveNumbers(ops, names, State(ws, tb, 0), 0))
    case Ended(st) => Finish(st, names)
    case Repeats => Never
  }
}
