/** Which commands are refused: exactly those whose words show one of five errors. */
module ArithErrors {
  import opened ArithSyntax
  import opened ArithPass
  import opened ArithInterpreter
  import opened ArithCommand
  import opened ArithText
  import Lexer = ArithLexer

  // ----- the errors, in terms of the words

  predicate IsOperator(word: string) {
    word == "+" || word == "-" || word == "*" || word == "/"
  }

  /** A word that is no number, function, separator, variable or image. */
  predicate Unknown<S, M>(isNumber: string -> bool, tb: Tables<S, M>, word: string) {
    && !isNumber(word) && word !in FUNCTIONS && !IsOperator(word) && word != "=" && word != "(" && word != ")"
    && word !in tb.vars && word !in tb.imgs
  }

  /** Word i is left of an `=`. */
  ghost predicate LeftOfEqual(words: seq<string>, i: nat) {
    exists j :: i < j < |words| && words[j] == "="
  }

  /** A second `=`, an operator or a parenthesis left of `=`. */
  ghost predicate WrongOnTheLeft(words: seq<string>) {
    exists i :: 0 <= i < |words| && LeftOfEqual(words, i) && (words[i] == "=" || IsOperator(words[i]) || words[i] == "(" || words[i] == ")")
  }

  /** An unknown word that is not left of `=`. */
  ghost predicate UnknownOnTheRight<S, M>(isNumber: string -> bool, tb: Tables<S, M>, words: seq<string>) {
    exists i :: 0 <= i < |words| && !LeftOfEqual(words, i) && Unknown(isNumber, tb, words[i])
  }

  ghost predicate TwoOperators(words: seq<string>) {
    exists i :: 0 < i < |words| && IsOperator(words[i - 1]) && IsOperator(words[i])
  }

  /** `(` behind something else than `=`, `(`, an operator or a function. */
  ghost predicate StrayParenthesis(isNumber: string -> bool, words: seq<string>) {
    exists i :: 0 < i < |words| && words[i] == "(" && MayNotOpen(isNumber, words[i - 1])
  }

  predicate MayNotOpen(isNumber: string -> bool, word: string) {
    word != "=" && word != "(" && !IsOperator(word) && (word !in FUNCTIONS || isNumber(word))
  }

  /** Opening minus closing parentheses among the first n words. */
  function Depth(words: seq<string>, n: nat): int
    requires n <= |words|
  {
    if n == 0 then 0 else Depth(words, n - 1) + (if words[n - 1] == "(" then 1 else if words[n - 1] == ")" then -1 else 0)
  }

  ghost predicate Unbalanced(words: seq<string>) {
    Depth(words, |words|) != 0 || exists n :: 0 <= n <= |words| && Depth(words, n) < 0
  }

  // ----- what the checks look at

  /** The types of the words. */
  ghost predicate TypesOf<S, M>(isNumber: string -> bool, tb: Tables<S, M>, words: seq<string>, ts: seq<Token<Operand>>) {
    |ts| == |words| && forall i :: 0 <= i < |ts| ==> TypeOf(isNumber, tb, words, ts, i)
  }

  ghost predicate TypeOf<S, M>(isNumber: string -> bool, tb: Tables<S, M>, words: seq<string>, ts: seq<Token<Operand>>, i: nat)
    requires i < |ts| == |words|
  {
    && (ts[i].Equal? <==> words[i] == "=") && (ts[i].Open? <==> words[i] == "(") && (ts[i].Close? <==> words[i] == ")")
    && (ts[i].Op? <==> IsOperator(words[i])) && (ts[i].Fn? <==> words[i] in FUNCTIONS && !isNumber(words[i]))
    && (ts[i].Lhs? ==> LeftOfEqual(words, i))
    && (!LeftOfEqual(words, i) ==> (ts[i].Undefined? <==> Unknown(isNumber, tb, words[i])))
  }

  lemma {:induction false} ClassifyTypes<S, M>(isNumber: string -> bool, tb: Tables<S, M>, words: seq<string>)
    requires Sane(isNumber) && AllInLanguage(isNumber, words)
    ensures TypesOf(isNumber, tb, words, ClassifyAll(isNumber, tb, words))
  {
    var ts := ClassifyAll(isNumber, tb, words);
    forall i | 0 <= i < |ts| ensures TypeOf(isNumber, tb, words, ts, i) {
      SeparatorsHaveNoOtherRole();
      assert InLanguage(isNumber, words[i]);
      if ts[i].Lhs? { assert i == 0 && words[1] == "="; }
    }
  }

  /** What may stand at index k, when an `=` among the words behind it, up to n, has been passed or not. */
  ghost predicate SideOk<V>(ts: seq<Token<V>>, k: nat, n: nat, passed: bool)
    requires k < n <= |ts|
  {
    if passed || EqualBetween(ts, k, n) then !ts[k].Equal? && !ts[k].Op? && !ts[k].Open? && !ts[k].Close?
    else !ts[k].Undefined? && !ts[k].Lhs?
  }

  ghost predicate AllSidesOk<V>(ts: seq<Token<V>>, n: nat, passed: bool)
    requires n <= |ts|
  {
    forall k :: 0 <= k < n ==> SideOk(ts, k, n, passed)
  }

  ghost predicate EqualBetween<V>(ts: seq<Token<V>>, k: nat, n: nat)
    requires n <= |ts|
  {
    exists j :: k < j < n && ts[j].Equal?
  }

  lemma {:induction false} LastBetween<V>(ts: seq<Token<V>>, k: nat, n: nat)
    requires k < n - 1 < n <= |ts|
    ensures EqualBetween(ts, k, n) <==> EqualBetween(ts, k, n - 1) || ts[n - 1].Equal?
  {
    if j :| k < j < n && ts[j].Equal? { assert j == n - 1 || j < n - 1; }
  }

  lemma {:induction false} SidesOkEach<V>(ts: seq<Token<V>>, n: nat, passed: bool)
    requires n <= |ts|
    ensures SidesOk(ts, n, passed) <==> AllSidesOk(ts, n, passed)
  {
    if n > 0 {
      var last := ts[n - 1];
      SidesOkEach(ts, n - 1, passed || last.Equal?);
      forall k | 0 <= k < n - 1 ensures SideOk(ts, k, n, passed) <==> SideOk(ts, k, n - 1, passed || last.Equal?) {
        LastBetween(ts, k, n);
      }
      assert !EqualBetween(ts, n - 1, n);
      assert SidesOk(ts, n, passed) <==> SideOk(ts, n - 1, n, passed) && SidesOk(ts, n - 1, passed || last.Equal?);
      if SidesOk(ts, n, passed) {
        forall k | 0 <= k < n ensures SideOk(ts, k, n, passed) {
          if k < n - 1 { assert SideOk(ts, k, n - 1, passed || last.Equal?); }
        }
      } else if AllSidesOk(ts, n, passed) {
        var m, p := n - 1, passed || last.Equal?;
        assert SideOk(ts, m, n, passed);
        forall k | 0 <= k < m ensures SideOk(ts, k, m, p) { assert SideOk(ts, k, n, passed); }
      }
    }
  }

  lemma {:induction false} SidesExactly<S, M>(isNumber: string -> bool, tb: Tables<S, M>, words: seq<string>, ts: seq<Token<Operand>>)
    requires TypesOf(isNumber, tb, words, ts)
    ensures SidesOk(ts, |ts|, false) <==> !WrongOnTheLeft(words) && !UnknownOnTheRight(isNumber, tb, words)
  {
    SidesOkEach(ts, |ts|, false);
    forall k | 0 <= k < |ts|
      ensures SideOk(ts, k, |ts|, false) <==>
              if LeftOfEqual(words, k) then !(words[k] == "=" || IsOperator(words[k]) || words[k] == "(" || words[k] == ")")
              else !Unknown(isNumber, tb, words[k])
    {
      SameLeft(isNumber, tb, words, ts, k);
      assert TypeOf(isNumber, tb, words, ts, k);
    }
  }

  lemma {:induction false} SameLeft<S, M>(isNumber: string -> bool, tb: Tables<S, M>, words: seq<string>, ts: seq<Token<Operand>>, k: nat)
    requires TypesOf(isNumber, tb, words, ts)
    ensures EqualBetween(ts, k, |ts|) <==> LeftOfEqual(words, k)
  {
    if j :| k < j < |ts| && ts[j].Equal? { assert TypeOf(isNumber, tb, words, ts, j); }
    if j :| k < j < |words| && words[j] == "=" { assert TypeOf(isNumber, tb, words, ts, j); }
  }

  lemma {:induction false} PairsExactly<S, M>(isNumber: string -> bool, tb: Tables<S, M>, words: seq<string>, ts: seq<Token<Operand>>)
    requires TypesOf(isNumber, tb, words, ts)
    ensures PairsOk(ts) <==> !TwoOperators(words) && !StrayParenthesis(isNumber, words)
  {
    forall i | 0 < i < |ts|
      ensures PairOk(ts[i - 1], ts[i]) <==>
              !(IsOperator(words[i - 1]) && IsOperator(words[i])) && !(words[i] == "(" && MayNotOpen(isNumber, words[i - 1]))
    {
      assert TypeOf(isNumber, tb, words, ts, i - 1) && TypeOf(isNumber, tb, words, ts, i);
    }
  }

  lemma {:induction false} LevelIsDepth<S, M>(isNumber: string -> bool, tb: Tables<S, M>, words: seq<string>, ts: seq<Token<Operand>>, n: nat)
    requires TypesOf(isNumber, tb, words, ts) && n <= |ts|
    ensures Level(ts, n) == Depth(words, n)
  {
    if n > 0 {
      LevelIsDepth(isNumber, tb, words, ts, n - 1);
      assert TypeOf(isNumber, tb, words, ts, n - 1);
    }
  }

  lemma {:induction false} ParenthesesExactly<S, M>(isNumber: string -> bool, tb: Tables<S, M>, words: seq<string>, ts: seq<Token<Operand>>)
    requires TypesOf(isNumber, tb, words, ts)
    ensures ParenthesesOk(ts) <==> !Unbalanced(words)
  {
    forall n | 0 <= n <= |ts| ensures Level(ts, n) == Depth(words, n) { LevelIsDepth(isNumber, tb, words, ts, n); }
  }

  /** A command with `^` or a comma in it is outside the model, wherever it stands. */
  lemma {:induction false} OutsideTheModel<S, M>(isNumber: string -> bool, ops: Ops<S, M>, pid: nat, cmd: string, tb: Tables<S, M>, c: char)
    requires (c == '^' || c == ',') && c in Lexer.Clean(cmd) && !isNumber([c])
    ensures Interpret(isNumber, ops, pid, cmd, tb) == Outside
  {
    var words := Lexer.Lex(Lexer.Clean(cmd));
    Lexer.CleanHasNoSpaces(cmd);
    Lexer.SeparatorIsWord(Lexer.Clean(cmd), c);
    var i :| 0 <= i < |words| && words[i] == [c];
    assert [c] == "^" || [c] == ",";
    assert !InLanguage(isNumber, words[i]);
  }

  /** Main result: a command of known words is refused if and only if there is a second `=`, an operator or a parenthesis
      left of `=`, an unknown word that is not left of `=`, two operators in a row, a parenthesis opened behind an operand or
      a closing parenthesis, or a parenthesis without its partner. */
  lemma {:induction false} RefusedExactly<S, M>(isNumber: string -> bool, ops: Ops<S, M>, pid: nat, cmd: string, tb: Tables<S, M>, words: seq<string>)
    requires Sane(isNumber) && words == Lexer.Lex(Lexer.Clean(cmd)) && Lexer.Clean(cmd) != "" && AllInLanguage(isNumber, words)
    ensures Interpret(isNumber, ops, pid, cmd, tb) == Rejected <==>
            || WrongOnTheLeft(words) || UnknownOnTheRight(isNumber, tb, words) || TwoOperators(words)
            || StrayParenthesis(isNumber, words) || Unbalanced(words)
  {
    var ts := ClassifyAll(isNumber, tb, words);
    ClassifyTypes(isNumber, tb, words);
    SidesExactly(isNumber, tb, words, ts);
    PairsExactly(isNumber, tb, words, ts);
    ParenthesesExactly(isNumber, tb, words, ts);
  }
}
