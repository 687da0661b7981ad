/** A command from its text to its effect. */
module ArithCommand {
  import opened ArithSyntax
  import opened ArithPass
  import opened ArithShape
  import opened ArithOrder
  import opened ArithTheorem
  import opened ArithInterpreter
  import opened ArithAssignment
  import opened ArithMachine
  import opened ArithTargets
  import opened Wrappers
  import Lexer = ArithLexer

  /** The functions of one argument defined for numbers and for images. */
  const FUNCTIONS: set<string> := {
    "acos", "asin", "atan", "ceil", "cos", "cosh", "exp", "fabs", "floor",
    "ln", "log", "sqrt", "sin", "sinh", "tan", "tanh", "posi"
  }

  /** Words the source gives a role of their own that is not modelled: functions of images alone, functions
      of several arguments, the comma between arguments, and `^`. */
  const RESERVED: set<string> := {
    "imedian", "itot", "imean", "imin", "imax", "imdx", "imdy",
    "fmod", "trunc", "perc", "min", "max", "testlt", "testmt", ",", "^"
  }

  /** A word whose role is modelled. */
  predicate InLanguage(isNumber: string -> bool, word: string) {
    isNumber(word) || word !in RESERVED
  }

  predicate AllInLanguage(isNumber: string -> bool, words: seq<string>) {
    forall i :: 0 <= i < |words| ==> InLanguage(isNumber, words[i])
  }

  /** The type of a word.  Reserved words, and names in no table, are Undefined. */
  function Classify<S, M>(isNumber: string -> bool, tb: Tables<S, M>, word: string): Token<Operand> {
    if isNumber(word) then Val(Number(word))
    else if word in FUNCTIONS then Fn(word)
    else if word in RESERVED then Undefined
    else if word == "+" then Op(Plus)
    else if word == "-" then Op(Minus)
    else if word == "*" then Op(Times)
    else if word == "/" then Op(Divide)
    else if word == "=" then Equal
    else if word == "(" then Open
    else if word == ")" then Close
    else if word in tb.vars then Val(Variable(word))
    else if word in tb.imgs then Val(Image(word))
    else Undefined
  }

  /** A word that can be assigned to: not a number, function, operator or other separator. */
  predicate IsName(isNumber: string -> bool, word: string) {
    !isNumber(word) && word !in FUNCTIONS && word !in RESERVED && word !in {"+", "-", "*", "/", "=", "(", ")"}
  }

  function ClassifyEach<S, M>(isNumber: string -> bool, tb: Tables<S, M>, words: seq<string>): seq<Token<Operand>> {
    seq(|words|, i requires 0 <= i < |words| => Classify(isNumber, tb, words[i]))
  }

  /** The word types of a command; the name before `=` is the target, whether it exists or not. */
  function ClassifyAll<S, M>(isNumber: string -> bool, tb: Tables<S, M>, words: seq<string>): seq<Token<Operand>> {
    var ts := ClassifyEach(isNumber, tb, words);
    if |words| > 1 && words[1] == "=" && IsName(isNumber, words[0]) then ts[0 := Lhs(words[0])] else ts
  }

  // ----- the checks for obvious errors

  /** No second `=`, operator or parenthesis left of the last `=`, and nothing undefined right of it. */
  predicate SidesOk<V>(ts: seq<Token<V>>, i: nat, passed: bool)
    requires i <= |ts|
    decreases i
  {
    if i == 0 then true
    else
      var t := ts[i - 1];
      && (passed ==> !t.Equal? && !t.Op? && !t.Open? && !t.Close?)
      && (!passed && !t.Equal? ==> !t.Undefined? && !t.Lhs?)
      && SidesOk(ts, i - 1, passed || t.Equal?)
  }

  /** No two operators in a row, and `(` only after `=`, `(`, an operator or a function. */
  predicate PairOk<V>(a: Token<V>, b: Token<V>) {
    && !(a.Op? && b.Op?)
    && (b.Open? ==> a.Open? || a.Fn? || a.Equal? || a.Op?)
  }

  predicate PairsOk<V>(ts: seq<Token<V>>) {
    forall i :: 0 < i < |ts| ==> PairOk(ts[i - 1], ts[i])
  }

  /** Parentheses never close too early among the first n words. */
  predicate NeverNegative<V>(ts: seq<Token<V>>, n: nat)
    requires n <= |ts|
  {
    forall i :: 0 <= i <= n ==> Level(ts, i) >= 0
  }

  /** Parentheses balance and never close too early. */
  predicate ParenthesesOk<V>(ts: seq<Token<V>>) {
    NeverNegative(ts, |ts|) && Level(ts, |ts|) == 0
  }

  predicate ChecksPass<V>(ts: seq<Token<V>>) {
    SidesOk(ts, |ts|, false) && PairsOk(ts) && ParenthesesOk(ts)
  }

  /** A command is refused, or runs, or has a word of which the model says nothing. */
  datatype Effect<+S, +M> = Rejected | Ran(r: Result<S, M>) | Outside

  /** The whole interpreter, as a function of the command and the tables. */
  function Interpret<S, M>(isNumber: string -> bool, ops: Ops<S, M>, pid: nat, cmd: string, tb: Tables<S, M>): Effect<S, M> {
    var text := Lexer.Clean(cmd);
    var words := Lexer.Lex(text);
    var ts := ClassifyAll(isNumber, tb, words);
    if text == "" then Ran(Fault)
    else if !AllInLanguage(isNumber, words) then Outside
    else if !ChecksPass(ts) then Rejected
    else Ran(RunCommand(ops, TmpNames(pid), ts, tb))
  }

  // ----- the loops

  /** The word types, and whether every word is one whose role is modelled. */
  method ClassifyWords<S, M>(isNumber: string -> bool, tb: Tables<S, M>, word: array<string>, nbword: nat)
    returns (ts: seq<Token<Operand>>, known: bool)
    requires nbword <= word.Length
    ensures ts == ClassifyAll(isNumber, tb, word[..nbword])
    ensures known == AllInLanguage(isNumber, word[..nbword])
  {
    ts, known := [], true;
    for i := 0 to nbword
      invariant |ts| == i && forall k :: 0 <= k < i ==> ts[k] == Classify(isNumber, tb, word[k])
      invariant known == AllInLanguage(isNumber, word[..i])
    {
      ts := ts + [Classify(isNumber, tb, word[i])];
      if !InLanguage(isNumber, word[i]) { known := false; }
      assert word[..i + 1] == word[..i] + [word[i]];
    }
    if nbword > 1 && word[1] == "=" && IsName(isNumber, word[0]) { ts := ts[0 := Lhs(word[0])]; }
  }

  method CheckSides<V>(ts: seq<Token<V>>) returns (ok: bool)
    ensures ok == SidesOk(ts, |ts|, false)
  {
    ok := true;
    var passedequ := false;
    var i := |ts|;
    while i > 0
      invariant 0 <= i <= |ts|
      invariant SidesOk(ts, |ts|, false) == (ok && SidesOk(ts, i, passedequ))
    {
      i := i - 1;
      if passedequ && (ts[i].Equal? || ts[i].Op? || ts[i].Open? || ts[i].Close?) { ok := false; }
      if !passedequ && (ts[i].Undefined? || ts[i].Lhs?) { ok := false; }
      if ts[i].Equal? { passedequ := true; }
    }
  }

  method CheckPairs<V>(ts: seq<Token<V>>) returns (ok: bool)
    ensures ok == PairsOk(ts)
  {
    ok := true;
    var i := 0;
    while i < |ts| - 1
      invariant 0 <= i <= |ts|
      invariant ok <==> forall k :: 0 < k <= i && k < |ts| ==> PairOk(ts[k - 1], ts[k])
    {
      if ts[i].Op? && ts[i + 1].Op? { ok := false; }
      if ts[i + 1].Open? && !(ts[i].Open? || ts[i].Fn? || ts[i].Equal? || ts[i].Op?) { ok := false; }
      i := i + 1;
    }
  }

  method CheckParentheses<V>(ts: seq<Token<V>>) returns (ok: bool)
    ensures ok == ParenthesesOk(ts)
  {
    ok := true;
    var cntP := 0;
    for i := 0 to |ts|
      invariant cntP == Level(ts, i) && ok == NeverNegative(ts, i)
    {
      if ts[i].Open? { cntP := cntP + 1; }
      if ts[i].Close? { cntP := cntP - 1; }
      if cntP < 0 { ok := false; }
    }
    if cntP != 0 { ok := false; }
  }

  /** The interpreter.  Its word array holds 100 words. */
  method ExecuteArith<S, M>(isNumber: string -> bool, ops: Ops<S, M>, pid: nat, cmd1: string, tb: Tables<S, M>) returns (r: Effect<S, M>)
    requires |Lexer.Lex(Lexer.Clean(cmd1))| <= 100
    ensures r == Interpret(isNumber, ops, pid, cmd1, tb)
  {
    var cmd := Lexer.CleanCommand(cmd1);
    if cmd == "" { return Ran(Fault); }
    var word := new string[100](_ => "");
    Lexer.CleanHasNoSpaces(cmd1);
    var nbword := Lexer.SplitWords(cmd, word);
    var ts, known := ClassifyWords(isNumber, tb, word, nbword);
    if !known { return Outside; }
    var sides := CheckSides(ts);
    var pairs := CheckPairs(ts);
    var parentheses := CheckParentheses(ts);
    if !(sides && pairs && parentheses) { return Rejected; }
    var machine := new Machine(ops, TmpNames(pid), 100, ts, tb);
    var result := machine.Run();
    r := Ran(result);
  }

  // ----- commands that are written expressions

  /** Nothing, or `=` behind one word that is neither an operator nor a parenthesis. */
  ghost predicate SimpleTarget<V>(p: seq<Token<V>>) {
    p == [] || (|p| == 2 && (p[0].Lhs? || p[0].Fn? || p[0].Val?) && p[1].Equal?)
  }

  lemma {:induction false} SidesOfExpression<V>(p: seq<Token<V>>, ws: seq<Token<V>>, i: nat)
    requires SimpleTarget(p) && i <= |ws|
    requires forall k :: 0 <= k < |ws| ==> ws[k].Val? || ws[k].Open? || ws[k].Close? || ws[k].Acts()
    ensures SidesOk(p + ws, |p| + i, false)
  {
    if i > 0 {
      SidesOfExpression(p, ws, i - 1);
    } else if |p| == 2 {
      assert SidesOk(p + ws, 0, true);
      assert SidesOk(p + ws, 1, true);
    }
  }

  lemma {:induction false} PairsOfExpression<S, M>(ops: Ops<S, M>, tb: Tables<S, M>, p: seq<Token<Operand>>, ws: seq<Token<Operand>>)
    requires SimpleTarget(p) && Accepted(Meanings(ops, tb, ws))
    ensures PairsOk(p + ws)
  {
    var ms := Meanings(ops, tb, ws);
    EachMeaning(ops, tb, ws);
    AcceptedIsReadable(ops, tb, ws);
    var ts := p + ws;
    forall i | 0 < i < |ts| ensures PairOk(ts[i - 1], ts[i]) {
      if i > |p| { Neighbours(ms, i - |p| - 1); }
    }
  }

  lemma {:induction false} ParenthesesOfExpression<S, M>(ops: Ops<S, M>, tb: Tables<S, M>, p: seq<Token<Operand>>, ws: seq<Token<Operand>>)
    requires SimpleTarget(p) && Accepted(Meanings(ops, tb, ws))
    ensures ParenthesesOk(p + ws)
  {
    var ms := Meanings(ops, tb, ws);
    forall i | 0 <= i <= |p + ws| ensures Level(p + ws, i) >= 0 {
      if i >= |p| {
        LevelHead(p, ws, i - |p|);
        LevelMeanings(ops, tb, ws, i - |p|);
        LevelOfShape(ms, i - |p|);
      } else {
        FlatLevel(p + ws, 0, i);
      }
    }
    LevelHead(p, ws, |ws|);
    LevelMeanings(ops, tb, ws, |ws|);
    LevelOfShape(ms, |ms|);
    assert ms[..|ms|] == ms;
  }

  /** A written expression passes every check. */
  lemma {:induction false} ExpressionPasses<S, M>(ops: Ops<S, M>, tb: Tables<S, M>, p: seq<Token<Operand>>, ws: seq<Token<Operand>>)
    requires SimpleTarget(p) && Accepted(Meanings(ops, tb, ws))
    ensures ChecksPass(p + ws)
  {
    AcceptedIsReadable(ops, tb, ws);
    SidesOfExpression(p, ws, |ws|);
    PairsOfExpression(ops, tb, p, ws);
    ParenthesesOfExpression(ops, tb, p, ws);
  }

  /** A word with a role keeps its text, and the four operators are read as what they are. */
  lemma {:induction false} ClassifyKeepsText<S, M>(isNumber: string -> bool, tb: Tables<S, M>, word: string)
    ensures var t := Classify(isNumber, tb, word);
            && (!t.Undefined? ==> WordOf(t) == Some(word))
            && (t == Op(Plus) ==> word == "+") && (t == Op(Minus) ==> word == "-")
            && (t == Op(Times) ==> word == "*") && (t == Op(Divide) ==> word == "/")
  {
  }

  /** The words of an assignment, and what they are classified as. */
  lemma {:induction false} ClassifyAssignment<S, M>(isNumber: string -> bool, tb: Tables<S, M>, name: string, words: seq<string>)
    requires IsName(isNumber, name) && !isNumber("=")
    ensures ClassifyAll(isNumber, tb, [name, "="] + words) == [Lhs(name), Equal] + ClassifyEach(isNumber, tb, words)
  {
    EqualHasNoOtherRole();
    assert Classify(isNumber, tb, "=") == Equal;
  }

  lemma {:induction false} EqualHasNoOtherRole()
    ensures "=" !in FUNCTIONS && "=" !in RESERVED
  {
    forall f | f in FUNCTIONS ensures |f| >= 2 {}
    forall f | f in RESERVED && |f| == 1 ensures f[0] != '=' {}
  }

  lemma {:induction false} RoleIsKnown<S, M>(isNumber: string -> bool, tb: Tables<S, M>, word: string)
    requires !Classify(isNumber, tb, word).Undefined?
    ensures InLanguage(isNumber, word)
  {
  }

  /** The words of an expression are in the modelled language. */
  lemma {:induction false} ExpressionInLanguage<S, M>(isNumber: string -> bool, ops: Ops<S, M>, tb: Tables<S, M>, words: seq<string>)
    requires Accepted(Meanings(ops, tb, ClassifyEach(isNumber, tb, words)))
    ensures AllInLanguage(isNumber, words)
  {
    var ws := ClassifyEach(isNumber, tb, words);
    AcceptedIsReadable(ops, tb, ws);
    forall i | 0 <= i < |words| ensures InLanguage(isNumber, words[i]) {
      assert !ws[i].Undefined?;
      RoleIsKnown(isNumber, tb, words[i]);
    }
  }

  /** An assignment with such an expression is, too. */
  lemma {:induction false} AssignmentInLanguage(isNumber: string -> bool, name: string, words: seq<string>)
    requires IsName(isNumber, name) && AllInLanguage(isNumber, words)
    ensures AllInLanguage(isNumber, [name, "="] + words)
  {
    EqualHasNoOtherRole();
  }

  /** From text to tables: if cleaning a command leaves the words `name`, `=` and the words of an
      expression e with an operation in it, 100 words at most, the command is accepted, name gets the value
      of e, nothing else changes and no temporary is left, provided no depth of e is spoiled. */
  lemma {:induction false} CommandCorrect<S, M>(isNumber: string -> bool, ops: Ops<S, M>, pid: nat, cmd: string, tb: Tables<S, M>,
                                                name: string, words: seq<string>, e: Expr<Value<S, M>>)
    requires Lexer.Clean(cmd) == Lexer.Concat([name, "="] + words) && Lexer.Separable([name, "="] + words) && |words| <= 98
    requires IsName(isNumber, name) && !isNumber("=") && NoTmp(tb, TmpNames(pid)) && !IsTmp(name, TmpNames(pid))
    requires WellFormed(e) && NoDoubled(e) && Ordered(Print(e))
    requires var ws := ClassifyEach(isNumber, tb, words); Meanings(ops, tb, ws) == Print(e) && HasAction(ws)
    ensures var r := Eval(Alg(ops), e);
            Interpret(isNumber, ops, pid, cmd, tb) == Ran(Done(Assigned(tb, name, r), Show(r)))
  {
    var ws := ClassifyEach(isNumber, tb, words);
    CommandWords(cmd, [name, "="] + words);
    ClassifyAssignment(isNumber, tb, name, words);
    PrintAccepted(e);
    ExpressionInLanguage(isNumber, ops, tb, words);
    AssignmentInLanguage(isNumber, name, words);
    ExpressionPasses(ops, tb, [Lhs(name), Equal], ws);
    AssignmentEffect(ops, TmpNames(pid), tb, name, ws, e);
  }

  lemma {:induction false} FunctionsAreNoTmps(f: string, pid: nat)
    requires f in FUNCTIONS
    ensures !IsTmp(f, TmpNames(pid))
  {
    forall g | g in FUNCTIONS ensures |g| > 0 && g[0] != '_' {}
    forall k: nat ensures f != TmpNames(pid)(k) { assert TmpNames(pid)(k)[0] == '_'; }
  }

  /** The words of a command with a function word before `=`. */
  lemma {:induction false} ClassifyFunctionTarget<S, M>(isNumber: string -> bool, tb: Tables<S, M>, f: string, words: seq<string>)
    requires f in FUNCTIONS && !isNumber(f) && !isNumber("=")
    ensures ClassifyAll(isNumber, tb, [f, "="] + words) == [Fn(f), Equal] + ClassifyEach(isNumber, tb, words)
  {
    EqualHasNoOtherRole();
  }

  lemma {:induction false} FunctionsInLanguage(isNumber: string -> bool, f: string, words: seq<string>)
    requires f in FUNCTIONS && AllInLanguage(isNumber, words)
    ensures AllInLanguage(isNumber, [f, "="] + words)
  {
    EqualHasNoOtherRole();
    forall g | g in FUNCTIONS ensures g !in RESERVED {}
  }

  /** From text to tables with a function word before `=`: a single word behind it is assigned to a variable or image of that
      name; an expression of more than one word is accepted, and the command never ends. */
  lemma {:induction false} FunctionCommand<S, M>(isNumber: string -> bool, ops: Ops<S, M>, pid: nat, cmd: string, tb: Tables<S, M>,
                                                 f: string, words: seq<string>)
    requires Lexer.Clean(cmd) == Lexer.Concat([f, "="] + words) && Lexer.Separable([f, "="] + words) && |words| <= 98
    requires f in FUNCTIONS && !isNumber(f) && !isNumber("=") && NoTmp(tb, TmpNames(pid))
    requires Accepted(Meanings(ops, tb, ClassifyEach(isNumber, tb, words)))
    ensures var ws := ClassifyEach(isNumber, tb, words);
            && (|ws| == 1 ==> Readable(tb, ws[0]))
            && Interpret(isNumber, ops, pid, cmd, tb) == Ran(if |ws| > 1 then Never else SingleEffect(tb, f, ws[0].v, Read(ops, tb, ws[0])))
  {
    var ws := ClassifyEach(isNumber, tb, words);
    CommandWords(cmd, [f, "="] + words);
    ClassifyFunctionTarget(isNumber, tb, f, words);
    ExpressionInLanguage(isNumber, ops, tb, words);
    FunctionsInLanguage(isNumber, f, words);
    FunctionsAreNoTmps(f, pid);
    ExpressionPasses(ops, tb, [Fn(f), Equal], ws);
    FunctionTarget(ops, TmpNames(pid), tb, f, ws);
  }

  /** Without `=`: if cleaning a command leaves the words of an expression e, 100 at most, and no depth of e
      is spoiled, a number is printed, which is the value of e, and the tables are as before.  The name of an
      image cannot be printed: it is looked up as a variable. */
  lemma {:induction false} PrintCorrect<S, M>(isNumber: string -> bool, ops: Ops<S, M>, pid: nat, cmd: string, tb: Tables<S, M>,
                                              words: seq<string>, e: Expr<Value<S, M>>)
    requires Lexer.Clean(cmd) == Lexer.Concat(words) && Lexer.Separable(words) && 0 < |words| <= 100
    requires !isNumber("=") && NoTmp(tb, TmpNames(pid)) && WellFormed(e) && NoDoubled(e) && Ordered(Print(e))
    requires Meanings(ops, tb, ClassifyEach(isNumber, tb, words)) == Print(e)
    ensures var r := Eval(Alg(ops), e);
            Interpret(isNumber, ops, pid, cmd, tb) == Ran(if r.Scalar? then Done(tb, Prints(r.s)) else Fault)
  {
    var ws := ClassifyEach(isNumber, tb, words);
    CommandWords(cmd, words);
    PrintAccepted(e);
    ExpressionInLanguage(isNumber, ops, tb, words);
    ExpressionHasNoEqual(isNumber, ops, tb, words);
    ExpressionPasses(ops, tb, [], ws);
    assert [] + ws == ws;
    PrintEffect(ops, TmpNames(pid), tb, ws, e);
    ReductionCorrect(Alg(ops), e);
    ImagesAreNoVariables(isNumber, tb, words);
  }

  /** A name that is a variable is taken for the variable. */
  lemma {:induction false} ImagesAreNoVariables<S, M>(isNumber: string -> bool, tb: Tables<S, M>, words: seq<string>)
    ensures NamesNoVariable(tb, ClassifyEach(isNumber, tb, words))
  {
    var ws := ClassifyEach(isNumber, tb, words);
    forall i | 0 <= i < |ws| && ws[i].Val? && ws[i].v.Image? ensures ws[i].v.name !in tb.vars {
      assert ws[i] == Classify(isNumber, tb, words[i]);
    }
  }

  lemma {:induction false} ExpressionHasNoEqual<S, M>(isNumber: string -> bool, ops: Ops<S, M>, tb: Tables<S, M>, words: seq<string>)
    requires Accepted(Meanings(ops, tb, ClassifyEach(isNumber, tb, words))) && !isNumber("=")
    ensures "=" !in words
  {
    var ws := ClassifyEach(isNumber, tb, words);
    EqualHasNoOtherRole();
    AcceptedIsReadable(ops, tb, ws);
    forall i | 0 <= i < |words| ensures words[i] != "=" {
      assert ws[i] == Classify(isNumber, tb, words[i]);
    }
  }

  lemma {:induction false} CommandWords(cmd: string, words: seq<string>)
    requires Lexer.Clean(cmd) == Lexer.Concat(words) && Lexer.Separable(words) && |words| > 0
    ensures Lexer.Lex(Lexer.Clean(cmd)) == words && Lexer.Clean(cmd) != ""
  {
    Lexer.SeparableSurvives(words);
  }
}
