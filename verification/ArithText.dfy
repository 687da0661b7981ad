/** Commands as they are written: from the characters of an expression to what the command does. */
module ArithText {
  import opened ArithSyntax
  import opened ArithInterpreter
  import opened ArithAssignment
  import opened ArithCommand
  import Lexer = ArithLexer

  // ----- the characters

  ghost function Sign(o: Operator): string {
    match o
    case Plus => "+"
    case Minus => "-"
    case Times => "*"
    case Divide => "/"
  }

  /** An expression over words, written down. */
  ghost function Text(e: Expr<string>): string {
    match e
    case Single(t) => TermText(t)
    case Sum(e1, o, t) => Text(e1) + Sign(o) + TermText(t)
  }

  ghost function TermText(t: Term<string>): string {
    match t
    case Unit(a) => AtomText(a)
    case Product(p, o, a) => TermText(p) + Sign(o) + AtomText(a)
  }

  ghost function AtomText(a: Atom<string>): string {
    match a
    case Leaf(w) => w
    case Group(e) => "(" + Text(e) + ")"
    case Call(f, e) => f + "(" + Text(e) + ")"
  }

  /** A sign at index i of w belongs to an exponent: a digit and e or E before it, a digit behind. */
  predicate ExponentSign(w: string, i: nat) {
    1 < i < |w| - 1 && (w[i - 1] == 'e' || w[i - 1] == 'E') && '0' <= w[i - 2] <= '9' && '0' <= w[i + 1] <= '9'
  }

  /** A character of a name, or of a number without its exponent. */
  predicate Plain(c: char) {
    c != ' ' && c != '+' && c != '-' && c != '*' && c != '/' && c != '^' && c != '(' && c != ')' && c != '=' && c != ','
  }

  /** A word without separators; signs occur only in exponents. */
  ghost predicate Unbroken(w: string) {
    w != "" && forall i :: 0 <= i < |w| ==> Plain(w[i]) || ((w[i] == '+' || w[i] == '-') && ExponentSign(w, i))
  }

  /** A word that can stand for a value. */
  ghost predicate Stands<S, M>(isNumber: string -> bool, tb: Tables<S, M>, w: string) {
    Unbroken(w) && (isNumber(w) || (w !in FUNCTIONS && w !in RESERVED && (w in tb.vars || w in tb.imgs)))
  }

  /** + and - between terms, * and / between factors, known functions, and operands that stand for values. */
  ghost predicate Written<S, M>(isNumber: string -> bool, tb: Tables<S, M>, e: Expr<string>) {
    match e
    case Single(t) => TermWritten(isNumber, tb, t)
    case Sum(e1, o, t) => Written(isNumber, tb, e1) && (o == Plus || o == Minus) && TermWritten(isNumber, tb, t)
  }

  ghost predicate TermWritten<S, M>(isNumber: string -> bool, tb: Tables<S, M>, t: Term<string>) {
    match t
    case Unit(a) => AtomWritten(isNumber, tb, a)
    case Product(p, o, a) => TermWritten(isNumber, tb, p) && (o == Times || o == Divide) && AtomWritten(isNumber, tb, a)
  }

  ghost predicate AtomWritten<S, M>(isNumber: string -> bool, tb: Tables<S, M>, a: Atom<string>) {
    match a
    case Leaf(w) => Stands(isNumber, tb, w)
    case Group(e) => Written(isNumber, tb, e)
    case Call(f, e) => f in FUNCTIONS && !isNumber(f) && Written(isNumber, tb, e)
  }

  // ----- the value

  ghost function WordValue<S, M>(isNumber: string -> bool, ops: Ops<S, M>, tb: Tables<S, M>, w: string): Value<S, M> {
    if !isNumber(w) && w in tb.vars then Scalar(tb.vars[w])
    else if !isNumber(w) && w in tb.imgs then Picture(tb.imgs[w])
    else Scalar(ops.number(w))
  }

  /** The operation for two operands, the left one first. */
  ghost function Combined<S, M>(ops: Ops<S, M>, o: Operator, left: Value<S, M>, right: Value<S, M>): Value<S, M> {
    if left.Scalar? && right.Scalar? then Scalar(ops.ss(o, left.s, right.s))
    else if left.Scalar? then Picture(ops.sm(o, left.s, right.m))
    else if right.Scalar? then Picture(ops.ms(o, left.m, right.s))
    else Picture(ops.mm(o, left.m, right.m))
  }

  /** The value of an expression, by recursion over what is written. */
  ghost function ValueOf<S, M>(isNumber: string -> bool, ops: Ops<S, M>, tb: Tables<S, M>, e: Expr<string>): Value<S, M> {
    match e
    case Single(t) => TermValue(isNumber, ops, tb, t)
    case Sum(e1, o, t) => Combined(ops, o, ValueOf(isNumber, ops, tb, e1), TermValue(isNumber, ops, tb, t))
  }

  ghost function TermValue<S, M>(isNumber: string -> bool, ops: Ops<S, M>, tb: Tables<S, M>, t: Term<string>): Value<S, M> {
    match t
    case Unit(a) => AtomValue(isNumber, ops, tb, a)
    case Product(p, o, a) => Combined(ops, o, TermValue(isNumber, ops, tb, p), AtomValue(isNumber, ops, tb, a))
  }

  ghost function AtomValue<S, M>(isNumber: string -> bool, ops: Ops<S, M>, tb: Tables<S, M>, a: Atom<string>): Value<S, M> {
    match a
    case Leaf(w) => WordValue(isNumber, ops, tb, w)
    case Group(e) => ValueOf(isNumber, ops, tb, e)
    case Call(f, e) =>
      match ValueOf(isNumber, ops, tb, e)
      case Scalar(x) => Scalar(ops.fs(f, x))
      case Picture(x) => Picture(ops.fm(f, x))
  }

  // ----- the words of the text

  ghost function Words(e: Expr<string>): seq<string> {
    match e
    case Single(t) => TermWords(t)
    case Sum(e1, o, t) => Words(e1) + [Sign(o)] + TermWords(t)
  }

  ghost function TermWords(t: Term<string>): seq<string> {
    match t
    case Unit(a) => AtomWords(a)
    case Product(p, o, a) => TermWords(p) + [Sign(o)] + AtomWords(a)
  }

  ghost function AtomWords(a: Atom<string>): seq<string> {
    match a
    case Leaf(w) => [w]
    case Group(e) => ["("] + Words(e) + [")"]
    case Call(f, e) => [f, "("] + Words(e) + [")"]
  }

  lemma {:induction false} ConcatOne(w: string)
    ensures Lexer.Concat([w]) == w
  {
    assert [w][..0] == [];
  }

  lemma {:induction false} ConcatThree(a: seq<string>, w: string, b: seq<string>)
    ensures Lexer.Concat(a + [w] + b) == Lexer.Concat(a) + w + Lexer.Concat(b)
  {
    Lexer.ConcatSplit(a + [w], b);
    Lexer.ConcatSplit(a, [w]);
    ConcatOne(w);
  }

  lemma {:induction false} ConcatWrapped(a: seq<string>, ws: seq<string>)
    ensures Lexer.Concat(a + ["("] + ws + [")"]) == Lexer.Concat(a) + "(" + Lexer.Concat(ws) + ")"
  {
    Lexer.ConcatSplit(a + ["("] + ws, [")"]);
    ConcatOne(")");
    ConcatThree(a, "(", ws);
  }

  /** The text is its words, one behind the other. */
  lemma {:induction false} TextIsWords(e: Expr<string>)
    ensures Lexer.Concat(Words(e)) == Text(e)
  {
    match e
    case Single(t) => TermIsWords(t);
    case Sum(e1, o, t) =>
      TextIsWords(e1);
      TermIsWords(t);
      ConcatThree(Words(e1), Sign(o), TermWords(t));
  }

  lemma {:induction false} TermIsWords(t: Term<string>)
    ensures Lexer.Concat(TermWords(t)) == TermText(t)
  {
    match t
    case Unit(a) => AtomIsWords(a);
    case Product(p, o, a) =>
      TermIsWords(p);
      AtomIsWords(a);
      ConcatThree(TermWords(p), Sign(o), AtomWords(a));
  }

  lemma {:induction false} AtomIsWords(a: Atom<string>)
    ensures Lexer.Concat(AtomWords(a)) == AtomText(a)
  {
    match a
    case Leaf(w) => ConcatOne(w);
    case Group(e) =>
      TextIsWords(e);
      ConcatWrapped([], Words(e));
      assert [] + ["("] + Words(e) + [")"] == AtomWords(a);
      assert Lexer.Concat([]) + "(" + Text(e) + ")" == AtomText(a);
    case Call(f, e) =>
      TextIsWords(e);
      ConcatWrapped([f], Words(e));
      ConcatOne(f);
      assert [f] + ["("] + Words(e) + [")"] == AtomWords(a);
  }

  // ----- the splitter finds the words

  /** Words in which operands are unbroken and follow a separator. */
  ghost predicate Fits(ws: seq<string>) {
    forall j :: 0 <= j < |ws| ==> Lexer.WordFits(ws, j)
  }

  lemma {:induction false} UnbrokenIsOperand(w: string)
    requires Unbroken(w)
    ensures Lexer.Operand(w)
  {
    forall i | 0 <= i < |w| ensures w[i] != ' ' && !Lexer.IsPunctuation(w[i]) && (Lexer.IsSign(w[i]) ==> Lexer.InExponent(w, i)) {
      assert Plain(w[i]) || ((w[i] == '+' || w[i] == '-') && ExponentSign(w, i));
    }
  }

  lemma {:induction false} SingleFits(w: string)
    requires Unbroken(w)
    ensures Fits([w])
  {
    UnbrokenIsOperand(w);
  }

  /** Words behind a separator. */
  lemma {:induction false} FitsBehind(a: seq<string>, sep: string, b: seq<string>)
    requires Fits(a) && Fits(b) && Lexer.Separator(sep)
    ensures Fits(a + [sep] + b)
  {
    var ws := a + [sep] + b;
    forall j | 0 <= j < |ws| ensures Lexer.WordFits(ws, j) {
      if j < |a| {
        assert Lexer.WordFits(a, j) && ws[j] == a[j] && (j > 0 ==> ws[j - 1] == a[j - 1]);
      } else if j > |a| {
        var i := j - |a| - 1;
        assert Lexer.WordFits(b, i) && ws[j] == b[i] && ws[j - 1] == if i == 0 then sep else b[i - 1];
      }
    }
  }

  lemma {:induction false} FitsWrapped(a: seq<string>, ws: seq<string>)
    requires Fits(a) && Fits(ws)
    ensures Fits(a + ["("] + ws + [")"])
  {
    FitsBehind(a, "(", ws);
    FitsBehind(a + ["("] + ws, ")", []);
    assert a + ["("] + ws + [")"] + [] == a + ["("] + ws + [")"];
  }

  lemma {:induction false} WordsFit<S, M>(isNumber: string -> bool, tb: Tables<S, M>, e: Expr<string>)
    requires Written(isNumber, tb, e)
    ensures Fits(Words(e))
  {
    match e
    case Single(t) => TermFits(isNumber, tb, t);
    case Sum(e1, o, t) =>
      WordsFit(isNumber, tb, e1);
      TermFits(isNumber, tb, t);
      FitsBehind(Words(e1), Sign(o), TermWords(t));
  }

  lemma {:induction false} TermFits<S, M>(isNumber: string -> bool, tb: Tables<S, M>, t: Term<string>)
    requires TermWritten(isNumber, tb, t)
    ensures Fits(TermWords(t))
  {
    match t
    case Unit(a) => AtomFits(isNumber, tb, a);
    case Product(p, o, a) =>
      TermFits(isNumber, tb, p);
      AtomFits(isNumber, tb, a);
      FitsBehind(TermWords(p), Sign(o), AtomWords(a));
  }

  lemma {:induction false} AtomFits<S, M>(isNumber: string -> bool, tb: Tables<S, M>, a: Atom<string>)
    requires AtomWritten(isNumber, tb, a)
    ensures Fits(AtomWords(a))
  {
    match a
    case Leaf(w) => SingleFits(w);
    case Group(e) =>
      WordsFit(isNumber, tb, e);
      GroupFits(Words(e));
    case Call(f, e) =>
      WordsFit(isNumber, tb, e);
      CallFits(f, Words(e));
  }

  lemma {:induction false} GroupFits(ws: seq<string>)
    requires Fits(ws)
    ensures Fits(["("] + ws + [")"])
  {
    FitsWrapped([], ws);
    assert [] + ["("] + ws + [")"] == ["("] + ws + [")"];
  }

  lemma {:induction false} CallFits(f: string, ws: seq<string>)
    requires Fits(ws) && f in FUNCTIONS
    ensures Fits([f, "("] + ws + [")"])
  {
    FunctionIsUnbroken(f);
    SingleFits(f);
    FitsWrapped([f], ws);
    assert [f] + ["("] + ws + [")"] == [f, "("] + ws + [")"];
  }

  lemma {:induction false} FunctionIsUnbroken(f: string)
    requires f in FUNCTIONS
    ensures Unbroken(f)
  {
    FunctionIsPlain(f);
    forall g | g in FUNCTIONS ensures |g| >= 2 {}
  }

  lemma {:induction false} FunctionIsPlain(f: string)
    requires f in FUNCTIONS
    ensures AllPlain(f)
  {
  }

  ghost predicate AllPlain(w: string) {
    forall i :: 0 <= i < |w| ==> Plain(w[i])
  }

  /** A sign between u and x would be read as that of an exponent: u ends in a digit and e or E, x begins with a digit. */
  predicate Clashes(u: string, x: string) {
    && |u| >= 2 && (u[|u| - 1] == 'e' || u[|u| - 1] == 'E') && '0' <= u[|u| - 2] <= '9'
    && |x| >= 1 && '0' <= x[0] <= '9'
  }

  /** No sign among the words stands where an exponent would swallow it. */
  ghost predicate NoClash(ws: seq<string>) {
    forall j :: 0 < j < |ws| - 1 && (ws[j] == "+" || ws[j] == "-") ==> !Clashes(ws[j - 1], ws[j + 1])
  }

  lemma {:induction false} TextSeparable(ws: seq<string>)
    requires Fits(ws) && NoClash(ws)
    ensures Lexer.Separable(ws)
  {
    forall j | 0 <= j < |ws| ensures Lexer.SignFits(ws, j) {
      if 0 < j < |ws| - 1 && Lexer.Separator(ws[j]) && Lexer.IsSign(ws[j][0]) {
        assert ws[j] == [ws[j][0]];
        assert ws[j] == "+" || ws[j] == "-";
      }
    }
  }

  /** The words of a whole command `name = e`. */
  lemma {:induction false} CommandSeparable(name: string, ws: seq<string>)
    requires Unbroken(name) && Fits(ws) && NoClash(ws)
    ensures Lexer.Separable([name, "="] + ws)
  {
    SingleFits(name);
    FitsBehind([name], "=", ws);
    var all := [name, "="] + ws;
    assert [name] + ["="] + ws == all;
    forall j | 0 < j < |all| - 1 && (all[j] == "+" || all[j] == "-") ensures !Clashes(all[j - 1], all[j + 1]) {
      assert j >= 2 && ws[j - 2] == all[j];
      if j > 2 {
        assert all[j - 1] == ws[j - 3] && all[j + 1] == ws[j - 1];
      } else {
        assert Lexer.WordFits(ws, 0);
      }
    }
    TextSeparable(all);
  }

  // ----- the words stand for the expression

  /** Separators are no numbers. */
  predicate Sane(isNumber: string -> bool) {
    && !isNumber("+") && !isNumber("-") && !isNumber("*") && !isNumber("/") && !isNumber("(") && !isNumber(")")
    && !isNumber("=")
  }

  /** The expression with its words replaced by what they stand for. */
  ghost function Valued<S, M>(isNumber: string -> bool, ops: Ops<S, M>, tb: Tables<S, M>, e: Expr<string>): Expr<Value<S, M>> {
    match e
    case Single(t) => Single(TermValued(isNumber, ops, tb, t))
    case Sum(e1, o, t) => Sum(Valued(isNumber, ops, tb, e1), o, TermValued(isNumber, ops, tb, t))
  }

  ghost function TermValued<S, M>(isNumber: string -> bool, ops: Ops<S, M>, tb: Tables<S, M>, t: Term<string>): Term<Value<S, M>> {
    match t
    case Unit(a) => Unit(AtomValued(isNumber, ops, tb, a))
    case Product(p, o, a) => Product(TermValued(isNumber, ops, tb, p), o, AtomValued(isNumber, ops, tb, a))
  }

  ghost function AtomValued<S, M>(isNumber: string -> bool, ops: Ops<S, M>, tb: Tables<S, M>, a: Atom<string>): Atom<Value<S, M>> {
    match a
    case Leaf(w) => Leaf(WordValue(isNumber, ops, tb, w))
    case Group(e) => Group(Valued(isNumber, ops, tb, e))
    case Call(f, e) => Call(f, Valued(isNumber, ops, tb, e))
  }

  ghost function Sense<S, M>(isNumber: string -> bool, ops: Ops<S, M>, tb: Tables<S, M>, ws: seq<string>): seq<Token<Value<S, M>>> {
    Meanings(ops, tb, ClassifyEach(isNumber, tb, ws))
  }

  lemma {:induction false} SenseOne<S, M>(isNumber: string -> bool, ops: Ops<S, M>, tb: Tables<S, M>, w: string)
    ensures Sense(isNumber, ops, tb, [w]) == [Meaning(ops, tb, Classify(isNumber, tb, w))]
  {
    assert ClassifyEach(isNumber, tb, [w]) == [Classify(isNumber, tb, w)];
    MeaningsOne(ops, tb, Classify(isNumber, tb, w));
  }

  lemma {:induction false} ClassifyConcat<S, M>(isNumber: string -> bool, tb: Tables<S, M>, a: seq<string>, b: seq<string>)
    ensures ClassifyEach(isNumber, tb, a + b) == ClassifyEach(isNumber, tb, a) + ClassifyEach(isNumber, tb, b)
  {
  }

  lemma {:induction false} SenseConcat<S, M>(isNumber: string -> bool, ops: Ops<S, M>, tb: Tables<S, M>, a: seq<string>, b: seq<string>)
    ensures Sense(isNumber, ops, tb, a + b) == Sense(isNumber, ops, tb, a) + Sense(isNumber, ops, tb, b)
  {
    ClassifyConcat(isNumber, tb, a, b);
    MeaningsConcat(ops, tb, ClassifyEach(isNumber, tb, a), ClassifyEach(isNumber, tb, b));
  }

  lemma {:induction false} SenseThree<S, M>(isNumber: string -> bool, ops: Ops<S, M>, tb: Tables<S, M>, a: seq<string>, w: string, b: seq<string>)
    ensures Sense(isNumber, ops, tb, a + [w] + b) ==
            Sense(isNumber, ops, tb, a) + [Meaning(ops, tb, Classify(isNumber, tb, w))] + Sense(isNumber, ops, tb, b)
  {
    SenseConcat(isNumber, ops, tb, a + [w], b);
    SenseConcat(isNumber, ops, tb, a, [w]);
    SenseOne(isNumber, ops, tb, w);
  }

  lemma {:induction false} SignMeans<S, M>(isNumber: string -> bool, ops: Ops<S, M>, tb: Tables<S, M>, o: Operator)
    requires Sane(isNumber)
    ensures Meaning(ops, tb, Classify(isNumber, tb, Sign(o))) == Op(o)
  {
    SeparatorsHaveNoOtherRole();
  }

  lemma {:induction false} SeparatorsHaveNoOtherRole()
    ensures forall s :: s in {"+", "-", "*", "/", "(", ")", "="} ==> s !in FUNCTIONS && s !in RESERVED
  {
    forall f | f in FUNCTIONS ensures |f| >= 2 {}
    forall f | f in RESERVED && |f| == 1 ensures f == "," || f == "^" {}
  }

  lemma {:induction false} ParenthesesMean<S, M>(isNumber: string -> bool, ops: Ops<S, M>, tb: Tables<S, M>)
    requires Sane(isNumber)
    ensures Meaning(ops, tb, Classify(isNumber, tb, "(")) == Open && Meaning(ops, tb, Classify(isNumber, tb, ")")) == Close
  {
    SeparatorsHaveNoOtherRole();
  }

  lemma {:induction false} UnbrokenIsNoSeparator(w: string)
    requires Unbroken(w)
    ensures w !in {"+", "-", "*", "/", "(", ")", "="}
  {
    var c := w[0];
    assert Plain(c);
  }

  lemma {:induction false} WordMeans<S, M>(isNumber: string -> bool, ops: Ops<S, M>, tb: Tables<S, M>, w: string)
    requires Stands(isNumber, tb, w)
    ensures Meaning(ops, tb, Classify(isNumber, tb, w)) == Val(WordValue(isNumber, ops, tb, w))
  {
    UnbrokenIsNoSeparator(w);
  }

  lemma {:induction false} WrappedSense<S, M>(isNumber: string -> bool, ops: Ops<S, M>, tb: Tables<S, M>, a: seq<string>, ws: seq<string>)
    requires Sane(isNumber)
    ensures Sense(isNumber, ops, tb, a + ["("] + ws + [")"]) ==
            Sense(isNumber, ops, tb, a) + [Open] + Sense(isNumber, ops, tb, ws) + [Close]
  {
    ParenthesesMean(isNumber, ops, tb);
    SenseConcat(isNumber, ops, tb, a + ["("] + ws, [")"]);
    SenseOne(isNumber, ops, tb, ")");
    SenseThree(isNumber, ops, tb, a, "(", ws);
  }

  lemma {:induction false} GroupSense<S, M>(isNumber: string -> bool, ops: Ops<S, M>, tb: Tables<S, M>, ws: seq<string>)
    requires Sane(isNumber)
    ensures Sense(isNumber, ops, tb, ["("] + ws + [")"]) == [Open] + Sense(isNumber, ops, tb, ws) + [Close]
  {
    WrappedSense(isNumber, ops, tb, [], ws);
    assert [] + ["("] + ws + [")"] == ["("] + ws + [")"];
  }

  lemma {:induction false} CallSense<S, M>(isNumber: string -> bool, ops: Ops<S, M>, tb: Tables<S, M>, f: string, ws: seq<string>)
    requires Sane(isNumber) && f in FUNCTIONS && !isNumber(f)
    ensures Sense(isNumber, ops, tb, [f, "("] + ws + [")"]) == [Fn(f), Open] + Sense(isNumber, ops, tb, ws) + [Close]
  {
    WrappedSense(isNumber, ops, tb, [f], ws);
    SenseOne(isNumber, ops, tb, f);
    assert [f] + ["("] + ws + [")"] == [f, "("] + ws + [")"];
  }

  /** The words mean the expression over values. */
  lemma {:induction false} WordsMean<S, M>(isNumber: string -> bool, ops: Ops<S, M>, tb: Tables<S, M>, e: Expr<string>)
    requires Sane(isNumber) && Written(isNumber, tb, e)
    ensures Sense(isNumber, ops, tb, Words(e)) == Print(Valued(isNumber, ops, tb, e))
  {
    match e
    case Single(t) => TermMeans(isNumber, ops, tb, t);
    case Sum(e1, o, t) =>
      WordsMean(isNumber, ops, tb, e1);
      TermMeans(isNumber, ops, tb, t);
      SignMeans(isNumber, ops, tb, o);
      SenseThree(isNumber, ops, tb, Words(e1), Sign(o), TermWords(t));
  }

  lemma {:induction false} TermMeans<S, M>(isNumber: string -> bool, ops: Ops<S, M>, tb: Tables<S, M>, t: Term<string>)
    requires Sane(isNumber) && TermWritten(isNumber, tb, t)
    ensures Sense(isNumber, ops, tb, TermWords(t)) == PrintTerm(TermValued(isNumber, ops, tb, t))
  {
    match t
    case Unit(a) => AtomMeans(isNumber, ops, tb, a);
    case Product(p, o, a) =>
      TermMeans(isNumber, ops, tb, p);
      AtomMeans(isNumber, ops, tb, a);
      SignMeans(isNumber, ops, tb, o);
      SenseThree(isNumber, ops, tb, TermWords(p), Sign(o), AtomWords(a));
  }

  lemma {:induction false} AtomMeans<S, M>(isNumber: string -> bool, ops: Ops<S, M>, tb: Tables<S, M>, a: Atom<string>)
    requires Sane(isNumber) && AtomWritten(isNumber, tb, a)
    ensures Sense(isNumber, ops, tb, AtomWords(a)) == PrintAtom(AtomValued(isNumber, ops, tb, a))
  {
    match a
    case Leaf(w) =>
      WordMeans(isNumber, ops, tb, w);
      SenseOne(isNumber, ops, tb, w);
    case Group(e) =>
      WordsMean(isNumber, ops, tb, e);
      GroupSense(isNumber, ops, tb, Words(e));
    case Call(f, e) =>
      WordsMean(isNumber, ops, tb, e);
      CallSense(isNumber, ops, tb, f, Words(e));
  }

  // ----- the value and the shape carry over

  lemma {:induction false} SameValue<S, M>(isNumber: string -> bool, ops: Ops<S, M>, tb: Tables<S, M>, e: Expr<string>)
    ensures Eval(Alg(ops), Valued(isNumber, ops, tb, e)) == ValueOf(isNumber, ops, tb, e)
  {
    match e
    case Single(t) => TermSameValue(isNumber, ops, tb, t);
    case Sum(e1, _, t) =>
      SameValue(isNumber, ops, tb, e1);
      TermSameValue(isNumber, ops, tb, t);
  }

  lemma {:induction false} TermSameValue<S, M>(isNumber: string -> bool, ops: Ops<S, M>, tb: Tables<S, M>, t: Term<string>)
    ensures EvalTerm(Alg(ops), TermValued(isNumber, ops, tb, t)) == TermValue(isNumber, ops, tb, t)
  {
    match t
    case Unit(a) => AtomSameValue(isNumber, ops, tb, a);
    case Product(p, _, a) =>
      TermSameValue(isNumber, ops, tb, p);
      AtomSameValue(isNumber, ops, tb, a);
  }

  lemma {:induction false} AtomSameValue<S, M>(isNumber: string -> bool, ops: Ops<S, M>, tb: Tables<S, M>, a: Atom<string>)
    ensures EvalAtom(Alg(ops), AtomValued(isNumber, ops, tb, a)) == AtomValue(isNumber, ops, tb, a)
  {
    match a
    case Leaf(_) =>
    case Group(e) => SameValue(isNumber, ops, tb, e);
    case Call(_, e) => SameValue(isNumber, ops, tb, e);
  }

  lemma {:induction false} SameForm<S, M>(isNumber: string -> bool, ops: Ops<S, M>, tb: Tables<S, M>, e: Expr<string>)
    requires Written(isNumber, tb, e)
    ensures var v := Valued(isNumber, ops, tb, e); WellFormed(v) && (NoDoubled(e) ==> NoDoubled(v)) && (IsGroup(v) <==> IsGroup(e))
  {
    match e
    case Single(t) => TermSameForm(isNumber, ops, tb, t);
    case Sum(e1, _, t) =>
      SameForm(isNumber, ops, tb, e1);
      TermSameForm(isNumber, ops, tb, t);
  }

  lemma {:induction false} TermSameForm<S, M>(isNumber: string -> bool, ops: Ops<S, M>, tb: Tables<S, M>, t: Term<string>)
    requires TermWritten(isNumber, tb, t)
    ensures var v := TermValued(isNumber, ops, tb, t); WellFormedTerm(v) && (NoDoubledTerm(t) ==> NoDoubledTerm(v))
  {
    match t
    case Unit(a) => AtomSameForm(isNumber, ops, tb, a);
    case Product(p, _, a) =>
      TermSameForm(isNumber, ops, tb, p);
      AtomSameForm(isNumber, ops, tb, a);
  }

  lemma {:induction false} AtomSameForm<S, M>(isNumber: string -> bool, ops: Ops<S, M>, tb: Tables<S, M>, a: Atom<string>)
    requires AtomWritten(isNumber, tb, a)
    ensures var v := AtomValued(isNumber, ops, tb, a); WellFormedAtom(v) && (NoDoubledAtom(a) ==> NoDoubledAtom(v))
  {
    match a
    case Leaf(_) =>
    case Group(e) => SameForm(isNumber, ops, tb, e);
    case Call(_, e) => SameForm(isNumber, ops, tb, e);
  }
}
