/** Whole commands with one `(-x)`, from the saving of numbers on. */
module ArithNegationCommand {
  import opened ArithSyntax
  import opened ArithPass
  import opened ArithShape
  import opened ArithOrder
  import opened ArithTheorem
  import opened ArithWeights
  import opened ArithInterpreter
  import opened ArithAssignment
  import opened ArithTargets
  import opened ArithNegation

  // ----- saving numbers, piece by piece

  function Save<S, M>(ops: Ops<S, M>, names: nat -> string, ws: seq<Token<Operand>>, tb: Tables<S, M>, tmp: nat): State<S, M> {
    SaveNumbers(ops, names, State(ws, tb, tmp), 0)
  }

  lemma {:induction false} SaveLength<S, M>(ops: Ops<S, M>, names: nat -> string, st: State<S, M>, i: nat)
    requires i <= |st.ws|
    ensures |SaveNumbers(ops, names, st, i).ws| == |st.ws|
    decreases |st.ws| - i
  {
    if i < |st.ws| { SaveLength(ops, names, SaveOne(ops, names, st, i), i + 1); }
  }

  /** Words behind wait for their turn. */
  lemma {:induction false} SaveBefore<S, M>(ops: Ops<S, M>, names: nat -> string, st: State<S, M>, b: seq<Token<Operand>>, i: nat)
    requires i <= |st.ws|
    ensures var q := SaveNumbers(ops, names, st, i);
            |q.ws| == |st.ws| && SaveNumbers(ops, names, st.(ws := st.ws + b), i) == SaveNumbers(ops, names, q.(ws := q.ws + b), |st.ws|)
    decreases |st.ws| - i
  {
    SaveLength(ops, names, st, i);
    if i < |st.ws| {
      var st1 := SaveOne(ops, names, st, i);
      SaveOneBefore(ops, names, st, b, i);
      SaveBefore(ops, names, st1, b, i + 1);
    }
  }

  lemma {:induction false} SaveOneBefore<S, M>(ops: Ops<S, M>, names: nat -> string, st: State<S, M>, b: seq<Token<Operand>>, i: nat)
    requires i < |st.ws|
    ensures var q := SaveOne(ops, names, st, i);
            |q.ws| == |st.ws| && SaveOne(ops, names, st.(ws := st.ws + b), i) == q.(ws := q.ws + b)
  {
    var w := SaveOne(ops, names, st, i).ws[i];
    assert (st.ws + b)[i := w] == st.ws[i := w] + b;
    assert (st.ws + b)[i] == st.ws[i];
  }

  lemma {:induction false} SaveConcat<S, M>(ops: Ops<S, M>, names: nat -> string, a: seq<Token<Operand>>, b: seq<Token<Operand>>, tb: Tables<S, M>, tmp: nat)
    ensures var q := Save(ops, names, a, tb, tmp);
            var q2 := Save(ops, names, b, q.tb, q.tmp);
            Save(ops, names, a + b, tb, tmp) == State(q.ws + q2.ws, q2.tb, q2.tmp)
  {
    var q := Save(ops, names, a, tb, tmp);
    SaveBefore(ops, names, State(a, tb, tmp), b, 0);
    SaveBehind(ops, names, q.ws, State(b, q.tb, q.tmp), 0);
  }

  /** A command in pieces, the words before the expression holding no number. */
  lemma {:induction false} SavePieces<S, M>(ops: Ops<S, M>, names: nat -> string, p: seq<Token<Operand>>, l: seq<Token<Operand>>, mid: seq<Token<Operand>>,
                                            r: seq<Token<Operand>>, tb: Tables<S, M>)
    returns (q1: State<S, M>, q2: State<S, M>, q3: State<S, M>)
    requires NoNumbers(p, |p|)
    ensures q1 == Save(ops, names, l, tb, 0) && q2 == Save(ops, names, mid, q1.tb, q1.tmp) && q3 == Save(ops, names, r, q2.tb, q2.tmp)
    ensures Save(ops, names, p + (l + mid + r), tb, 0) == State(p + (q1.ws + q2.ws + q3.ws), q3.tb, q3.tmp)
  {
    q1 := Save(ops, names, l, tb, 0);
    q2 := Save(ops, names, mid, q1.tb, q1.tmp);
    q3 := Save(ops, names, r, q2.tb, q2.tmp);
    SavesNoMore(ops, names, State(p, tb, 0), 0);
    SaveConcat(ops, names, p, l + mid + r, tb, 0);
    SaveConcat(ops, names, l + mid, r, tb, 0);
    SaveConcat(ops, names, l, mid, tb, 0);
  }

  /** Saved words are like the words they were. */
  ghost predicate Like(ws: seq<Token<Operand>>, ws': seq<Token<Operand>>) {
    |ws'| == |ws| && forall i :: 0 <= i < |ws| ==> LikeAt(ws, ws', i)
  }

  predicate LikeAt(ws: seq<Token<Operand>>, ws': seq<Token<Operand>>, i: nat)
    requires i < |ws| == |ws'|
  {
    ws'[i] == ws[i] || (ws[i].Val? && ws'[i].Val?)
  }

  lemma {:induction false} SaveLike<S, M>(ops: Ops<S, M>, names: nat -> string, st: State<S, M>, i: nat)
    requires i <= |st.ws|
    ensures Like(st.ws, SaveNumbers(ops, names, st, i).ws)
    decreases |st.ws| - i
  {
    if i < |st.ws| {
      var st1 := SaveOne(ops, names, st, i);
      var ws := SaveNumbers(ops, names, st, i).ws;
      SaveLike(ops, names, st1, i + 1);
      forall k | 0 <= k < |st.ws| ensures LikeAt(st.ws, ws, k) { assert LikeAt(st1.ws, ws, k); }
    } else {
      forall k | 0 <= k < |st.ws| ensures LikeAt(st.ws, st.ws, k) {}
    }
  }

  lemma {:induction false} LikeFollows(ws: seq<Token<Operand>>, ws': seq<Token<Operand>>)
    requires Like(ws, ws') && Follows(ws)
    ensures Follows(ws')
  {
    forall i | 0 <= i < |ws'| && (ws'[i].Op? || ws'[i].Close?) ensures FollowsAt(ws', i) {
      assert LikeAt(ws, ws', i) && FollowsAt(ws, i) && LikeAt(ws, ws', i - 1);
    }
  }

  lemma {:induction false} LikeConcat(a: seq<Token<Operand>>, a': seq<Token<Operand>>, b: seq<Token<Operand>>, b': seq<Token<Operand>>)
    requires Like(a, a') && Like(b, b')
    ensures Like(a + b, a' + b')
  {
    forall i | 0 <= i < |a + b| ensures LikeAt(a + b, a' + b', i) {
      if i < |a| { assert LikeAt(a, a', i); } else { assert LikeAt(b, b', i - |a|); }
    }
  }

  lemma {:induction false} LikeAround(l: seq<Token<Operand>>, l': seq<Token<Operand>>, x: string, x': string, r: seq<Token<Operand>>, r': seq<Token<Operand>>)
    requires Like(l, l') && Like(r, r') && Around(l, x, r)
    ensures Around(l', x', r')
  {
    var v, v' := Val(Variable(x)), Val(Variable(x'));
    assert LikeAt([v], [v'], 0);
    LikeConcat(l, l', [v], [v']);
    LikeConcat(l + [v], l' + [v'], r, r');
    LikeFollows(l + [v] + r, l' + [v'] + r');
    if |r| > 0 { assert LikeAt(r, r', 0); }
    LikeConcat(l, l', r, r');
    forall t | t in l' + r' ensures !t.Equal? {
      var i :| 0 <= i < |l' + r'| && (l' + r')[i] == t;
      assert LikeAt(l + r, l' + r', i) && (l + r)[i] in l + r;
    }
  }

  /** The first word of a tail is no number. */
  lemma {:induction false} SaveTail<S, M>(ops: Ops<S, M>, names: nat -> string, r: seq<Token<Operand>>, tb: Tables<S, M>, tmp: nat)
    requires Behind(r)
    ensures var q := Save(ops, names, r, tb, tmp); Save(ops, names, Tail(r), tb, tmp) == q.(ws := Tail(q.ws))
  {
    if |r| > 0 {
      SaveConcat(ops, names, [r[0]], r[1..], tb, tmp);
      SaveConcat(ops, names, [Op(Minus)], r[1..], tb, tmp);
      SavesNoMore(ops, names, State([r[0]], tb, tmp), 0);
      SavesNoMore(ops, names, State([Op(Minus)], tb, tmp), 0);
      assert [r[0]] + r[1..] == r;
      var q := Save(ops, names, r[1..], tb, tmp);
      assert ([r[0]] + q.ws)[1..] == q.ws;
    }
  }

  // ----- a variable changed beforehand

  /** The tables with the value of variable x replaced. */
  function With<S, M>(tb: Tables<S, M>, x: string, v: S): Tables<S, M> {
    tb.(vars := tb.vars[x := v])
  }

  /** x is none of the temporaries still to come. */
  ghost predicate Apart(names: nat -> string, x: string, tmp: nat) {
    forall k: nat :: k >= tmp ==> names(k) != x
  }

  lemma {:induction false} SaveOneWith<S, M>(ops: Ops<S, M>, names: nat -> string, st: State<S, M>, i: nat, x: string, v: S)
    requires i < |st.ws| && Apart(names, x, st.tmp) && x in st.tb.vars
    ensures var q := SaveOne(ops, names, st, i);
            && |q.ws| == |st.ws| && q.tmp >= st.tmp && q.tb.imgs == st.tb.imgs && x in q.tb.vars && q.tb.vars[x] == st.tb.vars[x]
            && SaveOne(ops, names, st.(tb := With(st.tb, x, v)), i) == q.(tb := With(q.tb, x, v))
  {
    assert names(st.tmp) != x;
    assert SaveOne(ops, names, st.(tb := With(st.tb, x, v)), i).tb.vars == With(SaveOne(ops, names, st, i).tb, x, v).vars;
  }

  /** Saving numbers leaves x alone. */
  lemma {:induction false} SaveWith<S, M>(ops: Ops<S, M>, names: nat -> string, st: State<S, M>, i: nat, x: string, v: S)
    requires i <= |st.ws| && Apart(names, x, st.tmp) && x in st.tb.vars
    ensures var q := SaveNumbers(ops, names, st, i);
            && q.tmp >= st.tmp && q.tb.imgs == st.tb.imgs && x in q.tb.vars && q.tb.vars[x] == st.tb.vars[x]
            && SaveNumbers(ops, names, st.(tb := With(st.tb, x, v)), i) == q.(tb := With(q.tb, x, v))
    decreases |st.ws| - i
  {
    if i < |st.ws| {
      SaveOneWith(ops, names, st, i, x, v);
      SaveWith(ops, names, SaveOne(ops, names, st, i), i + 1, x, v);
    }
  }

  /** Main result on whole commands, x a variable: the command does what it would do with x instead of the group, a minus
      sign behind, and x negated beforehand.  The variable stays negated. */
  lemma {:induction false} NegatedVariable<S, M>(ops: Ops<S, M>, names: nat -> string, p: seq<Token<Operand>>, l: seq<Token<Operand>>, x: string,
                                                 r: seq<Token<Operand>>, tb: Tables<S, M>)
    requires Head(p) && Target(p) && NoNumbers(p, |p|) && x in tb.vars && !IsTmp(x, names) && Around(l, x, r)
    ensures var v := Val(Variable(x));
            RunCommand(ops, names, p + (l + Negation(v) + r), tb) == RunCommand(ops, names, p + (l + [v] + Tail(r)), Negated(ops, tb, x))
  {
    var v := Val(Variable(x));
    var s := ops.negate(tb.vars[x]);
    var q1, qa, q3 := SavePieces(ops, names, p, l, Negation(v), r, tb);
    var q1', qb, q3' := SavePieces(ops, names, p, l, [v], Tail(r), Negated(ops, tb, x));
    SavesNoMore(ops, names, State(Negation(v), q1.tb, q1.tmp), 0);
    SavesNoMore(ops, names, State([v], q1'.tb, q1'.tmp), 0);
    SaveWith(ops, names, State(l, tb, 0), 0, x, s);
    SaveWith(ops, names, State(r, q1.tb, q1.tmp), 0, x, s);
    SaveTail(ops, names, r, q1'.tb, q1'.tmp);
    SaveLike(ops, names, State(l, tb, 0), 0);
    SaveLike(ops, names, State(r, q1.tb, q1.tmp), 0);
    LikeAround(l, q1.ws, x, x, r, q3.ws);
    NegatedLoop(ops, names, p, q1.ws, x, q3.ws, q3.tb, q3.tmp);
    assert q3'.tb == Negated(ops, q3.tb, x);
  }

  /** So `x+(-x)` is computed as (-x)+(-x). */
  lemma {:induction false} NegatedThroughout<S, M>(ops: Ops<S, M>, names: nat -> string, name: string, x: string, o: Operator, tb: Tables<S, M>)
    requires x in tb.vars && !IsTmp(x, names)
    ensures var v := Val(Variable(x));
            RunCommand(ops, names, [Lhs(name), Equal, v, Op(o), Open, Op(Minus), v, Close], tb) ==
            RunCommand(ops, names, [Lhs(name), Equal, v, Op(o), v], Negated(ops, tb, x))
  {
    var v := Val(Variable(x));
    var p, l: seq<Token<Operand>> := [Lhs(name), Equal], [v, Op(o)];
    assert l + [v] + [] == [v, Op(o), v];
    assert FollowsAt([v, Op(o), v], 1);
    NegatedVariable(ops, names, p, l, x, [], tb);
    assert p + (l + Negation(v) + []) == [Lhs(name), Equal, v, Op(o), Open, Op(Minus), v, Close];
    assert p + (l + [v] + Tail([])) == [Lhs(name), Equal, v, Op(o), v];
  }

  // ----- a number

  lemma {:induction false} SaveNegation<S, M>(ops: Ops<S, M>, names: nat -> string, n: string, tb: Tables<S, M>, tmp: nat)
    ensures Save(ops, names, Negation(Val(Number(n))), tb, tmp) ==
            State(Negation(Val(Variable(names(tmp)))), CreateVariable(tb, names(tmp), ops.number(n)), tmp + 1)
  {
    var ws := Negation(Val(Number(n)));
    var us := Negation(Val(Variable(names(tmp))));
    var st1 := State(us, CreateVariable(tb, names(tmp), ops.number(n)), tmp + 1);
    SaveSkipsHead(ops, names, State(ws, tb, tmp), 2);
    assert ws[2 := Val(Variable(names(tmp)))] == us;
    assert SaveOne(ops, names, State(ws, tb, tmp), 2) == st1;
    SavesNoMore(ops, names, st1, 3);
  }

  lemma {:induction false} SaveSingle<S, M>(ops: Ops<S, M>, names: nat -> string, n: string, tb: Tables<S, M>, tmp: nat)
    ensures Save(ops, names, [Val(Number(n))], tb, tmp) ==
            State([Val(Variable(names(tmp)))], CreateVariable(tb, names(tmp), ops.number(n)), tmp + 1)
  {
    var st1 := State([Val(Variable(names(tmp)))], CreateVariable(tb, names(tmp), ops.number(n)), tmp + 1);
    assert SaveOne(ops, names, State([Val(Number(n))], tb, tmp), 0) == st1;
    SavesNoMore(ops, names, st1, 1);
  }

  /** Saving numbers creates no image. */
  lemma {:induction false} SaveImages<S, M>(ops: Ops<S, M>, names: nat -> string, st: State<S, M>, i: nat)
    requires i <= |st.ws|
    ensures SaveNumbers(ops, names, st, i).tb.imgs == st.tb.imgs
    decreases |st.ws| - i
  {
    if i < |st.ws| { SaveImages(ops, names, SaveOne(ops, names, st, i), i + 1); }
  }

  /** Main result on whole commands, a number n: the command does what it would do with the number that is n negated
      instead of the group, and a minus sign behind.  Only a temporary is negated. */
  lemma {:induction false} NegatedNumber<S, M>(ops: Ops<S, M>, names: nat -> string, p: seq<Token<Operand>>, l: seq<Token<Operand>>, n: string, m: string,
                                               r: seq<Token<Operand>>, tb: Tables<S, M>)
    requires Head(p) && Target(p) && NoNumbers(p, |p|) && NoTmp(tb, names) && Around(l, n, r)
    requires ops.number(m) == ops.negate(ops.number(n))
    ensures RunCommand(ops, names, p + (l + Negation(Val(Number(n))) + r), tb) ==
            RunCommand(ops, names, p + (l + [Val(Number(m))] + Tail(r)), tb)
  {
    var q1, qa, q3 := SavePieces(ops, names, p, l, Negation(Val(Number(n))), r, tb);
    var q1', qb, q3' := SavePieces(ops, names, p, l, [Val(Number(m))], Tail(r), tb);
    var x, s := names(q1.tmp), ops.number(m);
    SaveNegation(ops, names, n, q1.tb, q1.tmp);
    SaveSingle(ops, names, m, q1.tb, q1.tmp);
    SaveImages(ops, names, State(l, tb, 0), 0);
    assert qb.tb == With(qa.tb, x, s);
    SaveWith(ops, names, State(r, qa.tb, qa.tmp), 0, x, s);
    SaveTail(ops, names, r, qb.tb, qb.tmp);
    SaveLike(ops, names, State(l, tb, 0), 0);
    SaveLike(ops, names, State(r, qa.tb, qa.tmp), 0);
    LikeAround(l, q1.ws, n, x, r, q3.ws);
    NegatedLoop(ops, names, p, q1.ws, x, q3.ws, q3.tb, q3.tmp);
    assert q3'.tb == Negated(ops, q3.tb, x);
  }

  // ----- assignments

  /** Behind the group comes nothing or a minus sign. */
  predicate MinusBehind(r: seq<Token<Operand>>) {
    |r| == 0 || r[0] == Op(Minus)
  }

  lemma {:induction false} AcceptedAround<S, M>(ops: Ops<S, M>, tb: Tables<S, M>, l: seq<Token<Operand>>, v: Token<Operand>, r: seq<Token<Operand>>, x: string)
    requires Accepted(Meanings(ops, tb, l + [v] + r)) && v.Val?
    ensures Around(l, x, r)
  {
    var ws := l + [v] + r;
    var ms := Meanings(ops, tb, ws);
    EachMeaning(ops, tb, ws);
    AcceptedFollows(ms);
    AcceptedIsReadable(ops, tb, ws);
    var us := l + [Val(Variable(x))] + r;
    assert us == ws[|l| := Val(Variable(x))];
    forall i | 0 <= i < |us| && (us[i].Op? || us[i].Close?) ensures FollowsAt(us, i) {
      assert ms[i].Op? || ms[i].Close?;
      assert FollowsAt(ms, i);
    }
    Neighbours(ms, |l|);
    assert |r| > 0 ==> r[0] == ws[|l| + 1];
    forall t | t in l + r ensures !t.Equal? {
      var i :| 0 <= i < |l + r| && (l + r)[i] == t;
      assert t == ws[if i < |l| then i else i + 1];
    }
  }

  lemma {:induction false} NegatedLast<S, M>(ops: Ops<S, M>, names: nat -> string, tb: Tables<S, M>, name: string, l: seq<Token<Operand>>, x: string,
                                             r: seq<Token<Operand>>)
    requires NoTmp(tb, names) && x in tb.vars && MinusBehind(r)
    requires Accepted(Meanings(ops, Negated(ops, tb, x), l + [Val(Variable(x))] + r))
    ensures RunCommand(ops, names, [Lhs(name), Equal] + (l + Negation(Val(Variable(x))) + r), tb) ==
            RunCommand(ops, names, [Lhs(name), Equal] + (l + [Val(Variable(x))] + r), Negated(ops, tb, x))
  {
    AcceptedAround(ops, Negated(ops, tb, x), l, Val(Variable(x)), r, x);
    assert Tail(r) == r;
    NegatedVariable(ops, names, [Lhs(name), Equal], l, x, r, tb);
  }

  /** `name = l (-x) r` with x a variable, when the group is last or before `-`: name gets the value of the expression with x
      negated throughout, and x stays negated. */
  lemma {:induction false} NegatedAssignment<S, M>(ops: Ops<S, M>, names: nat -> string, tb: Tables<S, M>, name: string, l: seq<Token<Operand>>, x: string,
                                                   r: seq<Token<Operand>>, e: Expr<Value<S, M>>)
    requires NoTmp(tb, names) && !IsTmp(name, names) && x in tb.vars && MinusBehind(r) && WellFormed(e) && NoDoubled(e)
    requires Meanings(ops, Negated(ops, tb, x), l + [Val(Variable(x))] + r) == Print(e) && HasAction(l + [Val(Variable(x))] + r)
    ensures var v := LoopValue(Alg(ops), e);
            RunCommand(ops, names, [Lhs(name), Equal] + (l + Negation(Val(Variable(x))) + r), tb) ==
            Done(Assigned(Negated(ops, tb, x), name, v), Show(v))
    ensures Ordered(Print(e)) ==> LoopValue(Alg(ops), e) == Eval(Alg(ops), e)
  {
    var tb' := Negated(ops, tb, x);
    PrintAccepted(e);
    NegatedLast(ops, names, tb, name, l, x, r);
    AssignmentEffect(ops, names, tb', name, l + [Val(Variable(x))] + r, e);
  }

  /** The same with a number n: name gets the value of the expression with n negated there, and nothing else changes. */
  lemma {:induction false} NegatedNumberAssignment<S, M>(ops: Ops<S, M>, names: nat -> string, tb: Tables<S, M>, name: string, l: seq<Token<Operand>>,
                                                         n: string, m: string, r: seq<Token<Operand>>, e: Expr<Value<S, M>>)
    requires NoTmp(tb, names) && !IsTmp(name, names) && MinusBehind(r) && WellFormed(e) && NoDoubled(e)
    requires ops.number(m) == ops.negate(ops.number(n))
    requires Meanings(ops, tb, l + [Val(Number(m))] + r) == Print(e) && HasAction(l + [Val(Number(m))] + r)
    ensures var v := LoopValue(Alg(ops), e);
            RunCommand(ops, names, [Lhs(name), Equal] + (l + Negation(Val(Number(n))) + r), tb) == Done(Assigned(tb, name, v), Show(v))
    ensures Ordered(Print(e)) ==> LoopValue(Alg(ops), e) == Eval(Alg(ops), e)
  {
    PrintAccepted(e);
    AcceptedAround(ops, tb, l, Val(Number(m)), r, n);
    NegatedNumber(ops, names, [Lhs(name), Equal], l, n, m, r, tb);
    assert Tail(r) == r;
    AssignmentEffect(ops, names, tb, name, l + [Val(Number(m))] + r, e);
  }
}
