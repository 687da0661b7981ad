/** What a command does, from the characters typed to the tables, in terms of nothing but what is written. */
module ArithTextCommand {
  import opened ArithSyntax
  import opened ArithOrder
  import opened ArithPass
  import opened ArithTheorem
  import opened ArithInterpreter
  import opened ArithAssignment
  import opened ArithCommand
  import opened ArithTargets
  import opened ArithText
  import opened Decimals
  import Lexer = ArithLexer

  // ----- operands do not matter for the order

  /** The same words, with other values. */
  predicate SameWord<A, B>(t: Token<A>, u: Token<B>) {
    match t
    case Val(_) => u.Val?
    case Open => u.Open?
    case Close => u.Close?
    case Op(o) => u == Op(o)
    case Fn(f) => u == Fn(f)
    case Lhs(name) => u == Lhs(name)
    case Equal => u.Equal?
    case Undefined => u.Undefined?
  }

  ghost predicate SameWords<A, B>(ts: seq<Token<A>>, us: seq<Token<B>>) {
    |ts| == |us| && forall i :: 0 <= i < |ts| ==> SameWord(ts[i], us[i])
  }

  lemma {:induction false} SameJoin<A, B>(ts: seq<Token<A>>, us: seq<Token<B>>, ts': seq<Token<A>>, us': seq<Token<B>>)
    requires SameWords(ts, us) && SameWords(ts', us')
    ensures SameWords(ts + ts', us + us')
  {
  }

  lemma {:induction false} SameWatch<A, B>(d: int, ts: seq<Token<A>>, us: seq<Token<B>>)
    requires SameWords(ts, us)
    ensures WatchRun(d, UNREAD, ts) == WatchRun(d, UNREAD, us)
  {
    if |ts| > 0 {
      SameWatch(d, ts[..|ts| - 1], us[..|us| - 1]);
      assert SameWord(ts[|ts| - 1], us[|us| - 1]);
    }
  }

  lemma {:induction false} SameOrder<A, B>(ts: seq<Token<A>>, us: seq<Token<B>>)
    requires SameWords(ts, us) && Ordered(ts)
    ensures Ordered(us)
  {
    forall d: int | d >= 1 ensures !SpoiledAt(d, us) {
      SameWatch(d, ts, us);
      assert !SpoiledAt(d, ts);
    }
  }

  lemma {:induction false} PrintSame<S, M>(isNumber: string -> bool, ops: Ops<S, M>, tb: Tables<S, M>, e: Expr<string>)
    ensures SameWords(Print(e), Print(Valued(isNumber, ops, tb, e)))
  {
    match e
    case Single(t) => TermSame(isNumber, ops, tb, t);
    case Sum(e1, o, t) =>
      PrintSame(isNumber, ops, tb, e1);
      TermSame(isNumber, ops, tb, t);
      SameSign(Print(e1), Print(Valued(isNumber, ops, tb, e1)), o, PrintTerm(t), PrintTerm(TermValued(isNumber, ops, tb, t)));
  }

  lemma {:induction false} SameSign<A, B>(ts: seq<Token<A>>, us: seq<Token<B>>, o: Operator, ts': seq<Token<A>>, us': seq<Token<B>>)
    requires SameWords(ts, us) && SameWords(ts', us')
    ensures SameWords(ts + [Op(o)] + ts', us + [Op(o)] + us')
  {
    SameJoin(ts, us, [Op(o)], [Op(o)]);
    SameJoin(ts + [Op(o)], us + [Op(o)], ts', us');
  }

  lemma {:induction false} TermSame<S, M>(isNumber: string -> bool, ops: Ops<S, M>, tb: Tables<S, M>, t: Term<string>)
    ensures SameWords(PrintTerm(t), PrintTerm(TermValued(isNumber, ops, tb, t)))
  {
    match t
    case Unit(a) => AtomSame(isNumber, ops, tb, a);
    case Product(p, o, a) =>
      TermSame(isNumber, ops, tb, p);
      AtomSame(isNumber, ops, tb, a);
      SameSign(PrintTerm(p), PrintTerm(TermValued(isNumber, ops, tb, p)), o, PrintAtom(a), PrintAtom(AtomValued(isNumber, ops, tb, a)));
  }

  lemma {:induction false} AtomSame<S, M>(isNumber: string -> bool, ops: Ops<S, M>, tb: Tables<S, M>, a: Atom<string>)
    ensures SameWords(PrintAtom(a), PrintAtom(AtomValued(isNumber, ops, tb, a)))
  {
    match a
    case Leaf(_) =>
    case Group(e) =>
      PrintSame(isNumber, ops, tb, e);
    case Call(f, e) =>
      PrintSame(isNumber, ops, tb, e);
  }

  // ----- expressions that compute something

  /** There is an operator or a function in the expression. */
  ghost predicate Computes<V>(e: Expr<V>) {
    e.Sum? || e.t.Product? || e.t.a.Call? || (e.t.a.Group? && Computes(e.t.a.e))
  }

  lemma {:induction false} GroupActs<V>(ts: seq<Token<V>>)
    requires HasAction(ts)
    ensures HasAction([Open] + ts + [Close])
  {
    var i :| 0 <= i < |ts| && ts[i].Acts();
    assert ([Open] + ts + [Close])[i + 1] == ts[i];
  }

  lemma {:induction false} ComputesActs<V>(e: Expr<V>)
    requires Computes(e)
    ensures HasAction(Print(e))
  {
    match e
    case Sum(e1, o, t) => assert Print(e)[|Print(e1)|] == Op(o);
    case Single(t) =>
      assert Print(e) == PrintTerm(t);
      match t
      case Product(p, o, a) => assert PrintTerm(t)[|PrintTerm(p)|] == Op(o);
      case Unit(a) =>
        assert PrintTerm(t) == PrintAtom(a);
        if a.Call? {
          assert PrintAtom(a)[0] == Fn(a.f);
        } else {
          ComputesActs(a.e);
          GroupActs(Print(a.e));
        }
  }

  lemma {:induction false} SameComputes<S, M>(isNumber: string -> bool, ops: Ops<S, M>, tb: Tables<S, M>, e: Expr<string>)
    ensures Computes(Valued(isNumber, ops, tb, e)) <==> Computes(e)
  {
    match e
    case Sum(_, _, _) =>
    case Single(t) =>
      var t' := TermValued(isNumber, ops, tb, t);
      assert Valued(isNumber, ops, tb, e) == Single(t');
      match t
      case Product(_, _, _) =>
      case Unit(a) =>
        assert t' == Unit(AtomValued(isNumber, ops, tb, a));
        if a.Group? { SameComputes(isNumber, ops, tb, a.e); }
  }

  lemma {:induction false} MeaningsAct<S, M>(ops: Ops<S, M>, tb: Tables<S, M>, ws: seq<Token<Operand>>)
    ensures HasAction(Meanings(ops, tb, ws)) ==> HasAction(ws)
  {
    EachMeaning(ops, tb, ws);
    if i :| 0 <= i < |Meanings(ops, tb, ws)| && Meanings(ops, tb, ws)[i].Acts() {
      assert Meanings(ops, tb, ws)[i] == Meaning(ops, tb, ws[i]);
      assert ws[i].Acts();
    }
  }

  // ----- whole commands

  /** No table entry is called like a temporary of this process. */
  ghost predicate NoTemporaries<S, M>(tb: Tables<S, M>, pid: nat) {
    forall k: nat :: "_tmp" + Decimal(k) + "_" + Decimal(pid) !in tb.vars && "_tmp" + Decimal(k) + "_" + Decimal(pid) !in tb.imgs
  }

  /** A name that can be given a value. */
  ghost predicate Nameable(isNumber: string -> bool, name: string, pid: nat) {
    && Unbroken(name) && !isNumber(name) && name !in FUNCTIONS && name !in RESERVED
    && forall k: nat :: name != "_tmp" + Decimal(k) + "_" + Decimal(pid)
  }

  /** An expression without a doubled group, of 98 words at most, that the splitter takes apart. */
  ghost predicate Typed<S, M>(isNumber: string -> bool, tb: Tables<S, M>, e: Expr<string>) {
    Sane(isNumber) && Written(isNumber, tb, e) && NoDoubled(e) && NoClash(Words(e)) && |Words(e)| <= 98
  }

  /** ... in which every operation is executed in turn. */
  ghost predicate Command<S, M>(isNumber: string -> bool, tb: Tables<S, M>, e: Expr<string>) {
    Typed(isNumber, tb, e) && Ordered(Print(e))
  }

  lemma {:induction false} TemporariesAre<S, M>(tb: Tables<S, M>, pid: nat)
    requires NoTemporaries(tb, pid)
    ensures NoTmp(tb, TmpNames(pid))
  {
    TmpNamesDistinct(pid);
    forall k: nat ensures TmpNames(pid)(k) !in tb.vars && TmpNames(pid)(k) !in tb.imgs {
      assert TmpNames(pid)(k) == "_tmp" + Decimal(k) + "_" + Decimal(pid);
    }
  }

  lemma {:induction false} NameableIsName(isNumber: string -> bool, name: string, pid: nat)
    requires Nameable(isNumber, name, pid)
    ensures IsName(isNumber, name) && !IsTmp(name, TmpNames(pid))
  {
    UnbrokenIsNoSeparator(name);
    forall k: nat ensures name != TmpNames(pid)(k) {
      assert TmpNames(pid)(k) == "_tmp" + Decimal(k) + "_" + Decimal(pid);
    }
  }

  /** The words of the expression, typed and looked up, are those of an expression with the value that is written. */
  lemma {:induction false} Understood<S, M>(isNumber: string -> bool, ops: Ops<S, M>, tb: Tables<S, M>, e: Expr<string>)
    returns (v: Expr<Value<S, M>>)
    requires Typed(isNumber, tb, e)
    ensures WellFormed(v) && NoDoubled(v) && (Ordered(Print(e)) ==> Ordered(Print(v))) && Eval(Alg(ops), v) == ValueOf(isNumber, ops, tb, e)
    ensures Meanings(ops, tb, ClassifyEach(isNumber, tb, Words(e))) == Print(v)
    ensures Computes(e) ==> HasAction(ClassifyEach(isNumber, tb, Words(e)))
  {
    v := Valued(isNumber, ops, tb, e);
    WordsMean(isNumber, ops, tb, e);
    SameForm(isNumber, ops, tb, e);
    SameValue(isNumber, ops, tb, e);
    PrintSame(isNumber, ops, tb, e);
    if Ordered(Print(e)) { SameOrder(Print(e), Print(v)); }
    if Computes(e) {
      SameComputes(isNumber, ops, tb, e);
      ComputesActs(v);
      MeaningsAct(ops, tb, ClassifyEach(isNumber, tb, Words(e)));
    }
  }

  /** Text without `=` that begins with no sign. */
  predicate Starts(s: string) {
    s != "" && s[0] != '+' && s[0] != '-' && '=' !in s
  }

  lemma {:induction false} UnbrokenStarts(w: string)
    requires Unbroken(w)
    ensures Starts(w)
  {
    var c := w[0];
    assert Plain(c);
    forall i | 0 <= i < |w| ensures w[i] != '=' {}
  }

  lemma {:induction false} TextStarts<S, M>(isNumber: string -> bool, tb: Tables<S, M>, e: Expr<string>)
    requires Written(isNumber, tb, e)
    ensures Starts(Text(e))
  {
    match e
    case Single(t) => TermStarts(isNumber, tb, t);
    case Sum(e1, o, t) =>
      TextStarts(isNumber, tb, e1);
      TermStarts(isNumber, tb, t);
  }

  lemma {:induction false} TermStarts<S, M>(isNumber: string -> bool, tb: Tables<S, M>, t: Term<string>)
    requires TermWritten(isNumber, tb, t)
    ensures Starts(TermText(t))
  {
    match t
    case Unit(a) => AtomStarts(isNumber, tb, a);
    case Product(p, o, a) =>
      TermStarts(isNumber, tb, p);
      AtomStarts(isNumber, tb, a);
  }

  lemma {:induction false} AtomStarts<S, M>(isNumber: string -> bool, tb: Tables<S, M>, a: Atom<string>)
    requires AtomWritten(isNumber, tb, a)
    ensures Starts(AtomText(a))
  {
    match a
    case Leaf(w) => UnbrokenStarts(w);
    case Group(e) => TextStarts(isNumber, tb, e);
    case Call(f, e) =>
      FunctionIsUnbroken(f);
      UnbrokenStarts(f);
      TextStarts(isNumber, tb, e);
  }

  /** Cleaning a command `name = e` leaves the words of it. */
  lemma {:induction false} AssignmentCleaned(cmd: string, name: string, e: Expr<string>)
    requires Lexer.Unspaced(cmd) == name + "=" + Text(e) && Unbroken(name) && Starts(Text(e))
    ensures Lexer.Clean(cmd) == Lexer.Concat([name, "="] + Words(e))
  {
    UnbrokenStarts(name);
    Lexer.CleanIsUnspaced(cmd);
    TextIsWords(e);
    ConcatOne(name);
    ConcatThree([name], "=", Words(e));
    assert [name] + ["="] + Words(e) == [name, "="] + Words(e);
  }

  lemma {:induction false} ExpressionCleaned(cmd: string, e: Expr<string>)
    requires Lexer.Unspaced(cmd) == Text(e) && Starts(Text(e))
    ensures Lexer.Clean(cmd) == Lexer.Concat(Words(e))
  {
    Lexer.CleanIsUnspaced(cmd);
    TextIsWords(e);
  }

  /** Main result: a command typed as `name = e`, with spaces anywhere, gives name the value that is written, changes nothing
      else, and prints the value if it is a number. */
  lemma {:induction false} TypedAssignment<S, M>(isNumber: string -> bool, ops: Ops<S, M>, pid: nat, cmd: string, tb: Tables<S, M>,
                                                 name: string, e: Expr<string>)
    requires Lexer.Unspaced(cmd) == name + "=" + Text(e)
    requires Command(isNumber, tb, e) && Computes(e) && Nameable(isNumber, name, pid) && NoTemporaries(tb, pid)
    ensures Interpret(isNumber, ops, pid, cmd, tb) ==
            match ValueOf(isNumber, ops, tb, e)
            case Scalar(s) => Ran(Done(Tables(tb.vars[name := s], tb.imgs - {name}), Prints(s)))
            case Picture(m) => Ran(Done(Tables(tb.vars - {name}, tb.imgs[name := m]), Silent))
  {
    var v := Understood(isNumber, ops, tb, e);
    TextStarts(isNumber, tb, e);
    AssignmentCleaned(cmd, name, e);
    WordsFit(isNumber, tb, e);
    CommandSeparable(name, Words(e));
    TemporariesAre(tb, pid);
    NameableIsName(isNumber, name, pid);
    CommandCorrect(isNumber, ops, pid, cmd, tb, name, Words(e), v);
  }

  lemma {:induction false} SomeWord(e: Expr<string>)
    ensures |Words(e)| > 0
  {
    match e
    case Single(t) => SomeTermWord(t);
    case Sum(_, _, _) =>
  }

  lemma {:induction false} SomeTermWord(t: Term<string>)
    ensures |TermWords(t)| > 0
  {
    match t
    case Unit(_) =>
    case Product(_, _, _) =>
  }

  /** A command that is an expression prints its value when that is a number, and changes nothing. */
  lemma {:induction false} TypedExpression<S, M>(isNumber: string -> bool, ops: Ops<S, M>, pid: nat, cmd: string, tb: Tables<S, M>, e: Expr<string>)
    requires Lexer.Unspaced(cmd) == Text(e) && Command(isNumber, tb, e) && NoTemporaries(tb, pid)
    ensures Interpret(isNumber, ops, pid, cmd, tb) ==
            match ValueOf(isNumber, ops, tb, e)
            case Scalar(s) => Ran(Done(tb, Prints(s)))
            case Picture(_) => Ran(Fault)
  {
    var v := Understood(isNumber, ops, tb, e);
    TextStarts(isNumber, tb, e);
    ExpressionCleaned(cmd, e);
    WordsFit(isNumber, tb, e);
    TextSeparable(Words(e));
    TemporariesAre(tb, pid);
    SomeWord(e);
    PrintCorrect(isNumber, ops, pid, cmd, tb, Words(e), v);
  }

  /** `name = w` with a single operand w.  A name assigned to itself is deleted before it is read; an image is not copied but
      moved to its new name. */
  lemma {:induction false} TypedCopy<S, M>(isNumber: string -> bool, ops: Ops<S, M>, pid: nat, cmd: string, tb: Tables<S, M>,
                                           name: string, w: string)
    requires Lexer.Unspaced(cmd) == name + "=" + w
    requires Sane(isNumber) && Stands(isNumber, tb, w) && Nameable(isNumber, name, pid) && NoTemporaries(tb, pid)
    ensures Interpret(isNumber, ops, pid, cmd, tb) ==
            if isNumber(w) then Ran(Done(Tables(tb.vars[name := ops.number(w)], tb.imgs - {name}), Prints(ops.number(w))))
            else if w == name then Ran(Fault)
            else if w in tb.vars then Ran(Done(Tables(tb.vars[name := tb.vars[w]], tb.imgs - {name}), Prints(tb.vars[w])))
            else Ran(Done(Tables(tb.vars - {name}, (tb.imgs - {w})[name := tb.imgs[w]]), Silent))
  {
    var e := Expr<string>.Single(Unit(Leaf(w)));
    LeafText(e, w);
    UnbrokenStarts(w);
    AssignmentCleaned(cmd, name, e);
    UnbrokenIsOperand(w);
    SingleFits(w);
    CommandSeparable(name, [w]);
    CommandWords(cmd, [name, "="] + [w]);
    TemporariesAre(tb, pid);
    NameableIsName(isNumber, name, pid);
    UnbrokenIsNoSeparator(w);
    ClassifyAssignment(isNumber, tb, name, [w]);
    SingleWord(isNumber, ops, tb, name, w, pid);
  }

  /** `name =` with nothing behind prints the variable. */
  lemma {:induction false} TypedNothing<S, M>(isNumber: string -> bool, ops: Ops<S, M>, pid: nat, cmd: string, tb: Tables<S, M>, name: string)
    requires Lexer.Unspaced(cmd) == name + "=" && Sane(isNumber) && Nameable(isNumber, name, pid) && NoTemporaries(tb, pid)
    ensures Interpret(isNumber, ops, pid, cmd, tb) == Ran(if name in tb.vars then Done(tb, Prints(tb.vars[name])) else Fault)
  {
    var words := [name, "="];
    UnbrokenStarts(name);
    Lexer.CleanIsUnspaced(cmd);
    ConcatOne(name);
    ConcatThree([name], "=", []);
    assert [name] + ["="] + [] == words && [name, "="] + [] == words;
    CommandSeparable(name, []);
    CommandWords(cmd, words);
    NameableIsName(isNumber, name, pid);
    ClassifyAssignment(isNumber, tb, name, []);
    assert ClassifyAll(isNumber, tb, words) == [Lhs(name), Equal];
    AssignmentInLanguage(isNumber, name, []);
    DanglingEqual(ops, TmpNames(pid), tb, name);
  }

  lemma {:induction false} DanglingEqual<S, M>(ops: Ops<S, M>, names: nat -> string, tb: Tables<S, M>, name: string)
    ensures ChecksPass<Operand>([Lhs(name), Equal])
    ensures RunCommand(ops, names, [Lhs(name), Equal], tb) == if name in tb.vars then Done(tb, Prints(tb.vars[name])) else Fault
  {
    var ws: seq<Token<Operand>> := [Lhs(name), Equal];
    SavesNoMore(ops, names, State(ws, tb, 0), 0);
    assert ToBeProcessed(ws) == 0;
    assert SidesOk(ws, 1, true) && SidesOk(ws, 0, true);
    assert Level(ws, 0) == 0 && Level(ws, 1) == 0 && Level(ws, 2) == 0;
  }

  lemma {:induction false} LeafText(e: Expr<string>, w: string)
    requires e == Single(Unit(Leaf(w)))
    ensures Words(e) == [w] && Text(e) == w
  {
    assert TermWords(e.t) == AtomWords(e.t.a) && TermText(e.t) == AtomText(e.t.a);
  }

  lemma {:induction false} SingleWord<S, M>(isNumber: string -> bool, ops: Ops<S, M>, tb: Tables<S, M>, name: string, w: string, pid: nat)
    requires Sane(isNumber) && Stands(isNumber, tb, w) && IsName(isNumber, name) && NoTmp(tb, TmpNames(pid)) && !IsTmp(name, TmpNames(pid))
    ensures AllInLanguage(isNumber, [name, "="] + [w]) && ChecksPass([Lhs(name), Equal] + ClassifyEach(isNumber, tb, [w]))
    ensures var t := Classify(isNumber, tb, w);
            && Readable(tb, t) && Read(ops, tb, t) == WordValue(isNumber, ops, tb, w)
            && RunCommand(ops, TmpNames(pid), [Lhs(name), Equal] + ClassifyEach(isNumber, tb, [w]), tb) ==
               SingleEffect(tb, name, t.v, WordValue(isNumber, ops, tb, w))
  {
    var v := Expr<Value<S, M>>.Single(Unit(Leaf(WordValue(isNumber, ops, tb, w))));
    UnbrokenIsNoSeparator(w);
    WordMeans(isNumber, ops, tb, w);
    SenseOne(isNumber, ops, tb, w);
    LeafPrint(v, WordValue(isNumber, ops, tb, w));
    PrintAccepted(v);
    ExpressionInLanguage(isNumber, ops, tb, [w]);
    AssignmentInLanguage(isNumber, name, [w]);
    ExpressionPasses(ops, tb, [Lhs(name), Equal], ClassifyEach(isNumber, tb, [w]));
    AssignmentEffect(ops, TmpNames(pid), tb, name, ClassifyEach(isNumber, tb, [w]), v);
    ReductionCorrect(Alg(ops), v);
    assert ClassifyEach(isNumber, tb, [w]) == [Classify(isNumber, tb, w)];
  }

  lemma {:induction false} LeafPrint<V>(e: Expr<V>, v: V)
    requires e == Single(Unit(Leaf(v)))
    ensures Print(e) == [Val(v)] && WellFormed(e) && NoDoubled(e)
  {
    assert Print(e) == PrintTerm(e.t) == PrintAtom(e.t.a);
  }

  /** A function word before `=` and more than one word behind it: the command never ends, whatever the order of the operations. */
  lemma {:induction false} TypedFunctionTarget<S, M>(isNumber: string -> bool, ops: Ops<S, M>, pid: nat, cmd: string, tb: Tables<S, M>,
                                                     f: string, e: Expr<string>)
    requires Lexer.Unspaced(cmd) == f + "=" + Text(e) && f in FUNCTIONS && !isNumber(f)
    requires Typed(isNumber, tb, e) && |Words(e)| > 1 && NoTemporaries(tb, pid)
    ensures Interpret(isNumber, ops, pid, cmd, tb) == Ran(Never)
  {
    var v := Understood(isNumber, ops, tb, e);
    PrintAccepted(v);
    FunctionIsUnbroken(f);
    TextStarts(isNumber, tb, e);
    AssignmentCleaned(cmd, f, e);
    WordsFit(isNumber, tb, e);
    CommandSeparable(f, Words(e));
    TemporariesAre(tb, pid);
    FunctionCommand(isNumber, ops, pid, cmd, tb, f, Words(e));
  }

  /** `name = -rest` is read as `name = 0-rest`. */
  lemma {:induction false} TypedMinus<S, M>(isNumber: string -> bool, ops: Ops<S, M>, pid: nat, tb: Tables<S, M>, name: string, rest: string)
    ensures Interpret(isNumber, ops, pid, name + (['='] + (['-'] + rest)), tb) ==
            Interpret(isNumber, ops, pid, name + (['='] + (['0'] + (['-'] + rest))), tb)
  {
    Lexer.CleanSign(name, '-', rest);
    Lexer.CleanBefore(name, ['='] + (['0'] + (['-'] + rest)));
    ZeroCleaned(rest);
  }

  lemma {:induction false} ZeroCleaned(rest: string)
    ensures Lexer.Clean(['='] + (['0'] + (['-'] + rest))) == "=0-" + Lexer.Clean(rest)
  {
    Lexer.CleanParts('=', ['0'] + (['-'] + rest));
    Lexer.CleanParts('0', ['-'] + rest);
    Lexer.CleanParts('-', rest);
    ZeroJoined(Lexer.Clean(rest));
  }

  lemma {:induction false} ZeroJoined(s: string)
    ensures "=" + ("0" + ("-" + s)) == "=0-" + s
  {
  }

  /** `name = +rest` is read as `name = rest`. */
  lemma {:induction false} TypedPlus<S, M>(isNumber: string -> bool, ops: Ops<S, M>, pid: nat, tb: Tables<S, M>, name: string, rest: string)
    requires rest != "" ==> rest[0] != '+' && rest[0] != '-'
    ensures Interpret(isNumber, ops, pid, name + (['='] + (['+'] + rest)), tb) == Interpret(isNumber, ops, pid, name + (['='] + rest), tb)
  {
    Lexer.CleanSign(name, '+', rest);
    Lexer.CleanBefore(name, ['='] + rest);
    Lexer.CleanParts('=', rest);
  }
}
