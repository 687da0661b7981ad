/** What may stand before `=`: the source assigns to whatever word is there, once the loop has ended. */
module ArithTargets {
  import opened ArithSyntax
  import opened ArithPass
  import opened ArithShape
  import opened ArithInterpreter
  import opened ArithAssignment

  // ----- words in front do not change how numbers are saved

  lemma {:induction false} SaveBehind<S, M>(ops: Ops<S, M>, names: nat -> string, u: seq<Token<Operand>>, st: State<S, M>, i: nat)
    requires i <= |st.ws|
    ensures var q := SaveNumbers(ops, names, st, i);
            SaveNumbers(ops, names, st.(ws := u + st.ws), |u| + i) == q.(ws := u + q.ws)
    decreases |st.ws| - i
  {
    if i < |st.ws| {
      var st1 := SaveOne(ops, names, st, i);
      SaveOneBehind(ops, names, u, st, i);
      SaveBehind(ops, names, u, st1, i + 1);
    }
  }

  lemma {:induction false} SaveOneBehind<S, M>(ops: Ops<S, M>, names: nat -> string, u: seq<Token<Operand>>, st: State<S, M>, i: nat)
    requires i < |st.ws|
    ensures var q := SaveOne(ops, names, st, i);
            |q.ws| == |st.ws| && SaveOne(ops, names, st.(ws := u + st.ws), |u| + i) == q.(ws := u + q.ws)
  {
    var w := SaveOne(ops, names, st, i).ws[i];
    UpdateAfter(u, st.ws, i, w);
  }

  // ----- a word that stands for nothing, before an expression

  lemma {:induction false} CountFirst<V>(t: Token<V>, ws: seq<Token<V>>)
    requires !t.Equal? && ToBeProcessed(ws) == |ws|
    ensures ToBeProcessed([t] + ws) == 1 + |ws|
  {
    if |ws| > 0 {
      var ws' := ws[..|ws| - 1];
      assert ([t] + ws)[..|ws|] == [t] + ws';
      CountFirst(t, ws');
    } else {
      assert ([t] + ws)[..0] == [];
    }
  }

  lemma {:induction false} ReduceStep<S, M>(ops: Ops<S, M>, names: nat -> string, st: State<S, M>, st1: State<S, M>)
    requires ToBeProcessed(st.ws) > 1 && st1 == PassWords(ops, names, st)
    ensures ReduceWords(ops, names, st) == if |st1.ws| < |st.ws| then ReduceWords(ops, names, st1) else Repeats
  {
  }

  lemma {:induction false} JunkCount<S, M>(ops: Ops<S, M>, tb: Tables<S, M>, ws: seq<Token<Operand>>)
    requires Accepted(Meanings(ops, tb, ws))
    ensures |ws| > 0 && ToBeProcessed([Undefined] + ws) == 1 + |ws| && (|ws| == 1 ==> !HasAction(ws))
  {
    ExpressionLength(ops, tb, [], ws);
    assert [] + ws == ws;
    CountFirst(Undefined, ws);
  }

  /** Two words that are no operations stay. */
  lemma {:induction false} TwoWordsStay<S, M>(ops: Ops<S, M>, names: nat -> string, st: State<S, M>)
    requires |st.ws| == 2 && !st.ws[0].Acts() && !st.ws[1].Acts()
    ensures PassWords(ops, names, st) == st
  {
    QuietScan(st.ws, 0, 2);
    PassOfRest(ops, names, st, st, -1);
  }

  /** The expression is worked off, and two words are left for ever. */
  lemma {:induction false} JunkNeverEnds<S, M>(ops: Ops<S, M>, names: nat -> string, base: Tables<S, M>, ws: seq<Token<Operand>>, st: State<S, M>)
    requires Running(ops, names, base, [Undefined], ws, st)
    ensures ReduceWords(ops, names, st) == Repeats
    decreases |ws|
  {
    JunkCount(ops, st.tb, ws);
    if |ws| > 1 {
      var st1, ws1, w1 := PassMeanings(ops, names, base, [Undefined], ws, st);
      ReduceStep(ops, names, st, st1);
      JunkNeverEnds(ops, names, base, ws1, st1);
    } else {
      assert st.ws == [Undefined, ws[0]] && !ws[0].Acts();
      TwoWordsStay(ops, names, st);
      ReduceStep(ops, names, st, st);
    }
  }

  // ----- a function word before `=`

  /** The choice is the function word, unless there is an operation between parentheses. */
  lemma {:induction false} ScanTarget<V>(f: string, ws: seq<Token<V>>, n: nat)
    requires n <= |ws|
    ensures var c, d := Scan(ws, n), Scan([Fn(f), Equal] + ws, 2 + n);
            && c.level >= 0 && (c.level > 0 ==> 0 <= c.index < n && c.level == Level(ws, c.index))
            && d == if c.level > 0 then Choice(c.level, c.priority, 2 + c.index) else Choice(0, 2, 0)
  {
    var p := [Fn(f), Equal];
    if n > 0 {
      ScanTarget(f, ws, n - 1);
      LevelHead(p, ws, n - 1);
    } else {
      assert Scan(p + ws, 0) == Choice(0, -1, -1);
      assert Level(p + ws, 0) == 0;
      assert Scan(p + ws, 1) == Choice(0, 2, 0);
    }
  }

  /** st is `f =` and the expression ws. */
  ghost predicate Targeting<S, M>(ops: Ops<S, M>, names: nat -> string, base: Tables<S, M>, f: string, ws: seq<Token<Operand>>, st: State<S, M>) {
    st.ws == [Fn(f), Equal] + ws && Running(ops, names, base, [], ws, st.(ws := ws))
  }

  lemma {:induction false} TargetStripped<S, M>(ops: Ops<S, M>, names: nat -> string, base: Tables<S, M>, f: string, ws: seq<Token<Operand>>, st: State<S, M>)
    returns (s: seq<Token<Operand>>, st1: State<S, M>)
    requires Targeting(ops, names, base, f, ws, st)
    ensures s == StripFrom(ws, 0) && st1 == st.(ws := [Fn(f), Equal] + s) && Targeting(ops, names, base, f, s, st1)
    ensures Stripped(Meanings(ops, st.tb, s)) && Pick(Meanings(ops, st.tb, s)) == Pick(s)
  {
    var st0, k;
    s, st0, k := StrippedPass(ops, names, base, [], ws, st.(ws := ws));
    assert [] + s == s;
    st1 := st.(ws := [Fn(f), Equal] + s);
    assert st1.(ws := s) == st0;
  }

  lemma {:induction false} TargetNegated<S, M>(ops: Ops<S, M>, f: string, ws: seq<Token<Operand>>, st: State<S, M>, s: seq<Token<Operand>>, st1: State<S, M>)
    requires st.ws == [Fn(f), Equal] + ws && s == StripFrom(ws, 0) && st1 == st.(ws := [Fn(f), Equal] + s) && Accepted(Meanings(ops, st.tb, s))
    ensures st1 == NegateBraces(ops, st.(ws := StripFrom(st.ws, 0)), 0)
  {
    StripHead([Fn(f), Equal], ws, 0);
    NothingToNegate(ops, [Fn(f), Equal], s, st1, 0);
  }

  lemma {:induction false} TargetPassIs<S, M>(ops: Ops<S, M>, names: nat -> string, f: string, ws: seq<Token<Operand>>, st: State<S, M>,
                                              s: seq<Token<Operand>>, st1: State<S, M>, k: nat, st': State<S, M>)
    requires st.ws == [Fn(f), Equal] + ws && s == StripFrom(ws, 0) && st1 == st.(ws := [Fn(f), Equal] + s) && Accepted(Meanings(ops, st.tb, s))
    requires k == Pick(st1.ws) && k < |st1.ws| && st1.ws[k].Acts() && st' == ExecuteWords(ops, names, st1, k)
    ensures st' == PassWords(ops, names, st)
  {
    TargetNegated(ops, f, ws, st, s, st1);
    PassOfRest(ops, names, st, st1, k);
  }

  /** An expression keeps its tables behind other words. */
  lemma {:induction false} RunningBehind<S, M>(ops: Ops<S, M>, names: nat -> string, base: Tables<S, M>, p: seq<Token<Operand>>, ws: seq<Token<Operand>>,
                                               st: State<S, M>)
    requires Running(ops, names, base, [], ws, st) && Head(p)
    ensures Running(ops, names, base, p, ws, st.(ws := p + ws))
  {
  }

  lemma {:induction false} TargetingBehind<S, M>(ops: Ops<S, M>, names: nat -> string, base: Tables<S, M>, f: string, ws: seq<Token<Operand>>, st: State<S, M>)
    requires Running(ops, names, base, [], ws, st)
    ensures Targeting(ops, names, base, f, ws, st.(ws := [Fn(f), Equal] + ws))
  {
    assert [] + ws == ws;
    assert st.(ws := [Fn(f), Equal] + ws).(ws := ws) == st;
  }

  lemma {:induction false} FunctionTakesEqual<S, M>(ops: Ops<S, M>, names: nat -> string, f: string, s: seq<Token<Operand>>, st1: State<S, M>)
    requires st1.ws == [Fn(f), Equal] + s
    ensures ExecuteWords(ops, names, st1, 0) == st1.(ws := [Undefined] + s)
  {
    assert Shifted(st1.ws[0 := Undefined], 1, 1) == [Undefined] + s;
  }

  lemma {:induction false} FunctionLost<S, M>(ops: Ops<S, M>, names: nat -> string, base: Tables<S, M>, f: string, s: seq<Token<Operand>>, st1: State<S, M>)
    returns (st': State<S, M>)
    requires Targeting(ops, names, base, f, s, st1)
    ensures st1.ws[0].Acts() && st' == ExecuteWords(ops, names, st1, 0) && |st'.ws| < |st1.ws|
    ensures Running(ops, names, base, [Undefined], s, st')
  {
    st' := st1.(ws := [Undefined] + s);
    FunctionTakesEqual(ops, names, f, s, st1);
    RunningBehind(ops, names, base, [Undefined], s, st1.(ws := s));
  }

  /** What the chosen operation leaves of the expression. */
  lemma {:induction false} ExpressionOperation<S, M>(ops: Ops<S, M>, names: nat -> string, base: Tables<S, M>, s: seq<Token<Operand>>, st0: State<S, M>, k: nat)
    returns (st2: State<S, M>, ws': seq<Token<Operand>>)
    requires Running(ops, names, base, [], s, st0) && Stripped(Meanings(ops, st0.tb, s)) && Pick(Meanings(ops, st0.tb, s)) == k
    ensures k + 1 < |s| && s[k].Acts() && Readable(st0.tb, s[k + 1]) && (s[k].Op? ==> k > 0 && Readable(st0.tb, s[k - 1]))
    ensures st0.ws == s && st2 == ExecuteWords(ops, names, st0, k) && st2.ws == ws' && Running(ops, names, base, [], ws', st2)
  {
    assert [] + s == s;
    PickedOperation(ops, st0.tb, s, k);
    var w;
    st2, ws', w := OperationMeanings(ops, names, base, [], s, st0, k);
    assert [] + ws' == ws';
  }

  lemma {:induction false} TargetOperation<S, M>(ops: Ops<S, M>, names: nat -> string, base: Tables<S, M>, f: string, s: seq<Token<Operand>>,
                                                 st1: State<S, M>, k: nat)
    returns (st': State<S, M>, ws': seq<Token<Operand>>)
    requires Targeting(ops, names, base, f, s, st1) && Stripped(Meanings(ops, st1.tb, s)) && Pick(Meanings(ops, st1.tb, s)) == k
    requires k < |s| && Level(s, k) > 0
    ensures 2 + k < |st1.ws| && st1.ws[2 + k].Acts() && st' == ExecuteWords(ops, names, st1, 2 + k)
    ensures Targeting(ops, names, base, f, ws', st') && 1 < |ws'| < |s|
  {
    var st2;
    st2, ws' := ExpressionOperation(ops, names, base, s, st1.(ws := s), k);
    st' := st2.(ws := [Fn(f), Equal] + ws');
    TargetingBehind(ops, names, base, f, ws', st2);
    ExecuteBehind(ops, names, [Fn(f), Equal], s, st1, k, st2, ws');
    InsideParentheses(s, k);
    ReplacedLength(ops, names, s, st1.(ws := s), k, st2);
  }

  /** Words in front do not change what an operation does. */
  lemma {:induction false} ExecuteBehind<S, M>(ops: Ops<S, M>, names: nat -> string, p: seq<Token<Operand>>, s: seq<Token<Operand>>, st1: State<S, M>, k: nat,
                                               st2: State<S, M>, ws': seq<Token<Operand>>)
    requires st1.ws == p + s && k + 1 < |s| && s[k].Acts() && Readable(st1.tb, s[k + 1]) && (s[k].Op? ==> k > 0 && Readable(st1.tb, s[k - 1]))
    requires st2 == ExecuteWords(ops, names, st1.(ws := s), k) && st2.ws == ws'
    ensures ExecuteWords(ops, names, st1, |p| + k) == st2.(ws := p + ws')
  {
    assert [] + s == s;
    ExecuteAfter(ops, names, [], s, st1.(ws := s), k);
    ExecuteAfter(ops, names, p, s, st1, k);
    var v := Computed(ops, st1.tb, s, k);
    var r := s[..if s[k].Op? then k - 1 else k] + [Val(NameOf(names(st1.tmp), v))] + s[k + 2..];
    assert [] + r == r;
  }

  lemma {:induction false} ReplacedLength<S, M>(ops: Ops<S, M>, names: nat -> string, s: seq<Token<Operand>>, st0: State<S, M>, k: nat, st2: State<S, M>)
    requires st0.ws == s && k + 1 < |s| && s[k].Acts() && Readable(st0.tb, s[k + 1]) && (s[k].Op? ==> k > 0 && Readable(st0.tb, s[k - 1]))
    requires st2 == ExecuteWords(ops, names, st0, k)
    ensures |st2.ws| == |s| - (if s[k].Op? then 2 else 1)
  {
    assert [] + s == s;
    ExecuteAfter(ops, names, [], s, st0, k);
  }

  /** An operation between parentheses is not among the first words. */
  lemma {:induction false} InsideParentheses<V>(s: seq<Token<V>>, k: nat)
    requires k < |s| && Level(s, k) > 0
    ensures k > 0 && (s[k - 1].Val? ==> k > 1)
  {
    assert Level(s, 0) == 0;
  }

  lemma {:induction false} TargetCount<S, M>(ops: Ops<S, M>, tb: Tables<S, M>, f: string, ws: seq<Token<Operand>>)
    requires Accepted(Meanings(ops, tb, ws))
    ensures ToBeProcessed([Fn(f), Equal] + ws) == |ws|
  {
    AcceptedIsReadable(ops, tb, ws);
    CountHead([Fn(f), Equal], ws);
  }

  /** Without an operation between parentheses the function takes `=` for its argument. */
  lemma {:induction false} TargetLost<S, M>(ops: Ops<S, M>, names: nat -> string, base: Tables<S, M>, f: string, ws: seq<Token<Operand>>, st: State<S, M>,
                                            s: seq<Token<Operand>>, st1: State<S, M>)
    requires Targeting(ops, names, base, f, ws, st) && |ws| > 1
    requires s == StripFrom(ws, 0) && st1 == st.(ws := [Fn(f), Equal] + s) && Targeting(ops, names, base, f, s, st1)
    requires Pick(st1.ws) == 0
    ensures ReduceWords(ops, names, st) == Repeats
  {
    StripShortens(ws, 0);
    var st' := FunctionLost(ops, names, base, f, s, st1);
    TargetPassIs(ops, names, f, ws, st, s, st1, 0, st');
    TargetCount(ops, st.tb, f, ws);
    ReduceStep(ops, names, st, st');
    JunkNeverEnds(ops, names, base, s, st');
  }

  /** An operation between parentheses is executed. */
  lemma {:induction false} TargetGoesOn<S, M>(ops: Ops<S, M>, names: nat -> string, base: Tables<S, M>, f: string, ws: seq<Token<Operand>>, st: State<S, M>,
                                              s: seq<Token<Operand>>, st1: State<S, M>, k: nat)
    returns (st': State<S, M>, ws': seq<Token<Operand>>)
    requires Targeting(ops, names, base, f, ws, st) && |ws| > 1
    requires s == StripFrom(ws, 0) && st1 == st.(ws := [Fn(f), Equal] + s) && Targeting(ops, names, base, f, s, st1)
    requires Stripped(Meanings(ops, st1.tb, s)) && Pick(Meanings(ops, st1.tb, s)) == k && k < |s| && Level(s, k) > 0 && Pick(st1.ws) == 2 + k
    ensures Targeting(ops, names, base, f, ws', st') && 1 < |ws'| < |ws|
    ensures ReduceWords(ops, names, st) == ReduceWords(ops, names, st')
  {
    StripShortens(ws, 0);
    st', ws' := TargetOperation(ops, names, base, f, s, st1, k);
    TargetPassIs(ops, names, f, ws, st, s, st1, 2 + k, st');
    TargetCount(ops, st.tb, f, ws);
    ReduceStep(ops, names, st, st');
  }

  lemma {:induction false} TargetNeverEnds<S, M>(ops: Ops<S, M>, names: nat -> string, base: Tables<S, M>, f: string, ws: seq<Token<Operand>>, st: State<S, M>)
    requires Targeting(ops, names, base, f, ws, st) && |ws| > 1
    ensures ReduceWords(ops, names, st) == Repeats
    decreases |ws|
  {
    var s, st1 := TargetStripped(ops, names, base, f, ws, st);
    ScanTarget(f, s, |s|);
    if Scan(s, |s|).level == 0 {
      TargetLost(ops, names, base, f, ws, st, s, st1);
    } else {
      var st', ws' := TargetGoesOn(ops, names, base, f, ws, st, s, st1, Pick(s));
      TargetNeverEnds(ops, names, base, f, ws', st');
    }
  }

  lemma {:induction false} TargetSaved<S, M>(ops: Ops<S, M>, names: nat -> string, tb: Tables<S, M>, f: string, ws: seq<Token<Operand>>)
    returns (ws1: seq<Token<Operand>>, st: State<S, M>)
    requires NoTmp(tb, names) && Accepted(Meanings(ops, tb, ws))
    ensures st == SaveNumbers(ops, names, State([Fn(f), Equal] + ws, tb, 0), 0)
    ensures Targeting(ops, names, tb, f, ws1, st) && Meanings(ops, st.tb, ws1) == Meanings(ops, tb, ws)
    ensures Saved(ws, ws1, st.tmp, names) && NoNumbers(ws1, |ws1|)
  {
    var p: seq<Token<Operand>> := [Fn(f), Equal];
    var st1;
    st1, ws1 := CommandSaved(ops, names, tb, [], ws);
    assert [] + ws == ws && [] + ws1 == ws1;
    st := st1.(ws := p + ws1);
    SaveSkipsHead(ops, names, State(p + ws, tb, 0), 2);
    SaveBehind(ops, names, p, State(ws, tb, 0), 0);
    assert st.(ws := ws1) == st1;
  }

  /** Main result: with a function word before `=` the command never ends, unless a single word stands behind `=`;
      then it is assigned to a variable or image with the name of the function. */
  lemma {:induction false} FunctionTarget<S, M>(ops: Ops<S, M>, names: nat -> string, tb: Tables<S, M>, f: string, ws: seq<Token<Operand>>)
    requires NoTmp(tb, names) && !IsTmp(f, names) && Accepted(Meanings(ops, tb, ws))
    ensures |ws| == 1 ==> Readable(tb, ws[0])
    ensures RunCommand(ops, names, [Fn(f), Equal] + ws, tb) ==
            if |ws| > 1 then Never else SingleEffect(tb, f, ws[0].v, Read(ops, tb, ws[0]))
  {
    ExpressionLength(ops, tb, [], ws);
    var ws1, st := TargetSaved(ops, names, tb, f, ws);
    if |ws| > 1 {
      TargetNeverEnds(ops, names, tb, f, ws1, st);
    } else {
      SingleTarget(ops, names, tb, f, ws, ws1, st);
    }
  }

  lemma {:induction false} SingleTarget<S, M>(ops: Ops<S, M>, names: nat -> string, tb: Tables<S, M>, f: string, ws: seq<Token<Operand>>,
                                              ws1: seq<Token<Operand>>, st: State<S, M>)
    requires NoTmp(tb, names) && !IsTmp(f, names) && |ws| == 1 && Readable(tb, ws[0])
    requires Targeting(ops, names, tb, f, ws1, st) && Meanings(ops, st.tb, ws1) == Meanings(ops, tb, ws)
    requires Saved(ws, ws1, st.tmp, names) && NoNumbers(ws1, |ws1|)
    ensures ReduceWords(ops, names, st) == Ended(st)
    ensures Finish(st, names) == SingleEffect(tb, f, ws[0].v, Read(ops, tb, ws[0]))
  {
    AcceptedIsReadable(ops, st.tb, ws1);
    CountHead([Fn(f), Equal], ws1);
    EachMeaning(ops, tb, ws);
    EachMeaning(ops, st.tb, ws1);
    var w := ws1[0];
    assert st.ws == [Fn(f), Equal, w];
    FinishAssignment(ops, names, tb, f, st, Fn(f), w);
    NoTmpBelow(tb, names, st.tmp);
  }

  // ----- a number before `=`, and nothing to assign

  /** `3=a` prints a: the number is a temporary, which is assigned to and deleted. */
  lemma {:induction false} NumberTarget<S, M>(ops: Ops<S, M>, names: nat -> string, tb: Tables<S, M>, n: string, a: string)
    requires NoTmp(tb, names) && a in tb.vars
    ensures RunCommand(ops, names, [Val(Number(n)), Equal, Val(Variable(a))], tb) == Done(tb, Prints(tb.vars[a]))
  {
    var ws: seq<Token<Operand>> := [Val(Number(n)), Equal, Val(Variable(a))];
    var x := names(0);
    var tb1 := tb.(vars := tb.vars[x := ops.number(n)]);
    var us: seq<Token<Operand>> := [Val(Variable(x)), Equal, Val(Variable(a))];
    assert SaveOne(ops, names, State(ws, tb, 0), 0) == State(us, tb1, 1);
    SavesNoMore(ops, names, State(us, tb1, 1), 1);
    assert us[..2][..1] == us[..1] && ToBeProcessed(us[..2]) == 0;
    assert ToBeProcessed(us) == 1;
    var tb2 := Tables((tb1.vars - {x})[x := tb.vars[a]], tb1.imgs - {x});
    assert DeleteTemporaries(tb2, names, 0) == tb2;
    assert DeleteTemporaries(tb2, names, 1) == DeleteName(tb2, x);
    assert DeleteName(tb2, x).vars == tb.vars && DeleteName(tb2, x).imgs == tb.imgs;
  }

  lemma {:induction false} SavesNoMore<S, M>(ops: Ops<S, M>, names: nat -> string, st: State<S, M>, i: nat)
    requires i <= |st.ws| && forall k :: i <= k < |st.ws| && st.ws[k].Val? ==> !st.ws[k].v.Number?
    ensures SaveNumbers(ops, names, st, i) == st
    decreases |st.ws| - i
  {
    if i < |st.ws| { SavesNoMore(ops, names, st, i + 1); }
  }

  /** No variable is created under the name of an image: a number whose temporary would have that name is not saved, and the
      command reads an entry that is not there. */
  lemma {:induction false} NumberNotSaved<S, M>(ops: Ops<S, M>, names: nat -> string, tb: Tables<S, M>, n: string)
    requires names(0) in tb.imgs && names(0) !in tb.vars
    ensures RunCommand(ops, names, [Val(Number(n))], tb) == Fault
  {
    var ws: seq<Token<Operand>> := [Val(Number(n))];
    var us: seq<Token<Operand>> := [Val(Variable(names(0)))];
    assert SaveOne(ops, names, State(ws, tb, 0), 0) == State(us, tb, 1);
    SavesNoMore(ops, names, State(us, tb, 1), 1);
    assert ToBeProcessed(us[..0]) == 0;
  }

  /** `a=sin` passes the checks, deletes a, and assigns nothing. */
  lemma {:induction false} NothingToAssign<S, M>(ops: Ops<S, M>, names: nat -> string, tb: Tables<S, M>, name: string, f: string)
    ensures RunCommand(ops, names, [Lhs(name), Equal, Fn(f)], tb) == Done(DeleteName(tb, name), Silent)
  {
    var ws: seq<Token<Operand>> := [Lhs(name), Equal, Fn(f)];
    SavesNoMore(ops, names, State(ws, tb, 0), 0);
    assert ws[..2][..1] == ws[..1] && ToBeProcessed(ws[..2]) == 0;
    assert ToBeProcessed(ws) == 1;
    assert DeleteTemporaries(DeleteName(tb, name), names, 0) == DeleteName(tb, name);
  }
}
