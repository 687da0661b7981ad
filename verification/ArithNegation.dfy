/** Unary minus in a group, `(-x)`: what the rule for it makes of a command, and exactly when that is right. */
module ArithNegation {
  import opened ArithSyntax
  import opened ArithPass
  import opened ArithShape
  import opened ArithWeights
  import opened ArithInterpreter
  import opened ArithAssignment
  import opened ArithTargets

  /** The words `( - x )`. */
  function Negation(x: Token<Operand>): seq<Token<Operand>> {
    [Open, Op(Minus), x, Close]
  }

  /** The rule leaves x, and makes the word after the group a minus sign.  That is right if and only if there is
      no such word or it is a minus sign. */
  lemma {:induction false} NegationStep(ws: seq<Token<Operand>>, i: nat)
    requires IsNegation(ws, i)
    ensures var us := Shifted(ws[i := ws[i + 2]], i + 2, 3);
            && us == ws[..i] + [ws[i + 2]] + Tail(ws[i + 4..])
            && (us == ws[..i] + [ws[i + 2]] + ws[i + 4..] <==> i + 4 == |ws| || ws[i + 4] == Op(Minus))
  {
    var us, rest := Shifted(ws[i := ws[i + 2]], i + 2, 3), ws[i + 4..];
    if i + 4 == |ws| {
      assert us == ws[..i] + [ws[i + 2]];
    } else {
      assert us == ws[..i] + [ws[i + 2]] + ([ws[i + 1]] + ws[i + 5..]);
      assert rest[1..] == ws[i + 5..];
      assert us[i + 1] == Op(Minus) && (ws[..i] + [ws[i + 2]] + rest)[i + 1] == ws[i + 4];
      if ws[i + 4] == Op(Minus) { assert rest == [Op(Minus)] + ws[i + 5..]; }
    }
  }

  // ----- brace removal around the group

  /** A list that begins with no `)`, nor has one behind its first word, is stripped on its own. */
  lemma {:induction false} StripJoin<V>(a: seq<Token<V>>, c: seq<Token<V>>, i: nat)
    requires i <= |a| && |c| > 0 && !c[0].Close? && (|c| > 1 ==> !c[1].Close?)
    ensures StripFrom(a + c, i) == StripFrom(a, i) + StripFrom(c, 0)
    decreases |a| - i
  {
    if i == |a| {
      StripAfter(a, c, 0);
    } else if i + 2 < |a| && a[i].Open? && a[i + 2].Close? {
      assert Unwrap(a + c, i) == Unwrap(a, i) + c;
      StripJoin(Unwrap(a, i), c, i + 1);
    } else {
      StripJoin(a, c, i + 1);
    }
  }

  lemma {:induction false} StripFirst<V>(t: Token<V>, ws: seq<Token<V>>)
    requires !t.Open?
    ensures StripFrom([t] + ws, 0) == [t] + StripFrom(ws, 0)
  {
    StripAfter([t], ws, 0);
  }

  lemma {:induction false} StripSkips<V>(ts: seq<Token<V>>, i: nat)
    requires i < |ts| && (ts[i].Open? && i + 2 < |ts| ==> !ts[i + 2].Close?)
    ensures StripFrom(ts, i) == StripFrom(ts, i + 1)
  {
  }

  lemma {:induction false} StripNegation(x: Token<Operand>, r: seq<Token<Operand>>)
    requires x.Val?
    ensures StripFrom(Negation(x) + r, 0) == Negation(x) + StripFrom(r, 0)
  {
    var ws := Negation(x) + r;
    StripSkips(ws, 0);
    StripSkips(ws, 1);
    StripSkips(ws, 2);
    StripSkips(ws, 3);
    StripAfter(Negation(x), r, 0);
  }

  /** What may stand behind x. */
  predicate Behind<V>(r: seq<Token<V>>) {
    |r| > 0 ==> r[0].Op? || r[0].Close?
  }

  lemma {:induction false} StripTail<V>(r: seq<Token<V>>)
    requires Behind(r)
    ensures StripFrom(Tail(r), 0) == Tail(StripFrom(r, 0)) && Behind(StripFrom(r, 0))
  {
    if |r| > 0 {
      assert r == [r[0]] + r[1..];
      StripFirst(r[0], r[1..]);
      StripFirst(Op(Minus), r[1..]);
      assert StripFrom(r, 0)[1..] == StripFrom(r[1..], 0);
    }
  }

  lemma {:induction false} StripWithNegation(p: seq<Token<Operand>>, l: seq<Token<Operand>>, x: Token<Operand>, r: seq<Token<Operand>>)
    requires Flat(p) && x.Val?
    ensures StripFrom(p + (l + Negation(x) + r), 0) == p + (StripFrom(l, 0) + Negation(x) + StripFrom(r, 0))
  {
    StripHead(p, l + Negation(x) + r, 0);
    assert l + Negation(x) + r == l + (Negation(x) + r);
    StripJoin(l, Negation(x) + r, 0);
    StripNegation(x, r);
  }

  lemma {:induction false} StripValue(l: seq<Token<Operand>>, x: Token<Operand>, t: seq<Token<Operand>>)
    requires x.Val? && (|t| > 0 ==> !t[0].Close?)
    ensures StripFrom(l + [x] + t, 0) == StripFrom(l, 0) + [x] + StripFrom(t, 0)
  {
    assert l + [x] + t == l + ([x] + t);
    StripJoin(l, [x] + t, 0);
    StripFirst(x, t);
  }

  lemma {:induction false} StripWithout(p: seq<Token<Operand>>, l: seq<Token<Operand>>, x: Token<Operand>, r: seq<Token<Operand>>)
    requires Flat(p) && x.Val? && Behind(r)
    ensures StripFrom(p + (l + [x] + Tail(r)), 0) == p + (StripFrom(l, 0) + [x] + Tail(StripFrom(r, 0)))
  {
    var t := Tail(r);
    var ws := l + [x] + t;
    StripTail(r);
    StripValue(l, x, t);
    StripHead(p, ws, 0);
  }

  // ----- the rule in a pass

  /** Where no operator follows an opening parenthesis the rule does nothing. */
  lemma {:induction false} NothingNegated<S, M>(ops: Ops<S, M>, st: State<S, M>, i: nat)
    requires Follows(st.ws)
    ensures NegateBraces(ops, st, i) == st
    decreases |st.ws| - i
  {
    if i + 3 < |st.ws| {
      assert st.ws[i + 1].Op? ==> FollowsAt(st.ws, i + 1);
      NothingNegated(ops, st, i + 1);
    }
  }

  /** The rule gets to the group. */
  lemma {:induction false} NegateReaches<S, M>(ops: Ops<S, M>, st: State<S, M>, a: seq<Token<Operand>>, x: Token<Operand>, b: seq<Token<Operand>>, i: nat)
    requires st.ws == a + Negation(x) + b && Follows(a) && i <= |a|
    ensures NegateBraces(ops, st, i) == NegateBraces(ops, st, |a|)
    decreases |a| - i
  {
    if i < |a| {
      assert st.ws[i + 1] == if i + 1 < |a| then a[i + 1] else Open;
      assert i + 1 < |a| && a[i + 1].Op? ==> FollowsAt(a, i + 1);
      NegateReaches(ops, st, a, x, b, i + 1);
    }
  }

  /** The tables with variable x negated. */
  function Negated<S, M>(ops: Ops<S, M>, tb: Tables<S, M>, x: string): Tables<S, M>
    requires x in tb.vars
  {
    tb.(vars := tb.vars[x := ops.negate(tb.vars[x])])
  }

  lemma {:induction false} NegateGroup<S, M>(ops: Ops<S, M>, st: State<S, M>, a: seq<Token<Operand>>, x: string, b: seq<Token<Operand>>)
    requires st.ws == a + Negation(Val(Variable(x))) + b && x in st.tb.vars
    requires Follows(a) && Follows(a + [Val(Variable(x))] + Tail(b))
    ensures NegateBraces(ops, st, 0) == State(a + [Val(Variable(x))] + Tail(b), Negated(ops, st.tb, x), st.tmp)
  {
    var i := |a|;
    NegateReaches(ops, st, a, Val(Variable(x)), b, 0);
    NegationStep(st.ws, i);
    assert st.ws[..i] == a && st.ws[i + 4..] == b;
    NothingNegated(ops, State(a + [Val(Variable(x))] + Tail(b), Negated(ops, st.tb, x), st.tmp), i + 1);
  }

  lemma {:induction false} FollowsBehind<V>(p: seq<Token<V>>, ws: seq<Token<V>>)
    requires Head(p) && Follows(ws)
    ensures Follows(p + ws)
  {
    forall i | 0 <= i < |p + ws| && ((p + ws)[i].Op? || (p + ws)[i].Close?) ensures FollowsAt(p + ws, i) {
      assert i >= |p| && FollowsAt(ws, i - |p|);
    }
  }

  lemma {:induction false} FollowsPrefix<V>(ws: seq<Token<V>>, n: nat)
    requires Follows(ws) && n <= |ws|
    ensures Follows(ws[..n])
  {
    forall i | 0 <= i < n && (ws[i].Op? || ws[i].Close?) ensures FollowsAt(ws[..n], i) { assert FollowsAt(ws, i); }
  }

  /** Words around x that are like those of an expression. */
  ghost predicate Around(l: seq<Token<Operand>>, x: string, r: seq<Token<Operand>>) {
    Follows(l + [Val(Variable(x))] + r) && Behind(r) && forall t :: t in l + r ==> !t.Equal?
  }

  /** The pass that applies the rule is the pass on the words with x and a minus sign, x being negated. */
  lemma {:induction false} NegatedPass<S, M>(ops: Ops<S, M>, names: nat -> string, p: seq<Token<Operand>>, l: seq<Token<Operand>>, x: string,
                                             r: seq<Token<Operand>>, tb: Tables<S, M>, tmp: nat)
    requires Head(p) && x in tb.vars && Around(l, x, r)
    ensures var v := Val(Variable(x));
            PassWords(ops, names, State(p + (l + Negation(v) + r), tb, tmp)) ==
            PassWords(ops, names, State(p + (l + [v] + Tail(r)), Negated(ops, tb, x), tmp))
  {
    var v := Val(Variable(x));
    var sl, sr := StripFrom(l, 0), StripFrom(r, 0);
    StripWithNegation(p, l, v, r);
    StripWithout(p, l, v, r);
    TailFollows(l, Variable(x), r);
    FollowsBehind(p, l + [v] + Tail(r));
    StripFollows(p + (l + [v] + Tail(r)), 0);
    var after := p + (sl + [v] + Tail(sr));
    assert after == (p + sl) + [v] + Tail(sr);
    FollowsPrefix(after, |p + sl|);
    assert after[..|p + sl|] == p + sl;
    assert p + (sl + Negation(v) + sr) == (p + sl) + Negation(v) + sr;
    NegateGroup(ops, State(p + (sl + Negation(v) + sr), tb, tmp), p + sl, x, sr);
    NothingNegated(ops, State(after, Negated(ops, tb, x), tmp), 0);
  }

  // ----- the loop

  /** No pass changes the number of words without changing them. */
  lemma {:induction false} PassOrRest<S, M>(ops: Ops<S, M>, names: nat -> string, st: State<S, M>)
    requires Follows(st.ws)
    ensures |PassWords(ops, names, st).ws| < |st.ws| || PassWords(ops, names, st) == st
  {
    var s := StripFrom(st.ws, 0);
    StripFollows(st.ws, 0);
    StripShortens(st.ws, 0);
    NothingNegated(ops, st.(ws := s), 0);
    PickInRange(s, |s|);
    PassOfRest(ops, names, st, st.(ws := s), Pick(s));
    if Pick(s) >= 0 { ExecuteShortens(ops, names, st.(ws := s), Pick(s)); }
  }

  lemma {:induction false} ExecuteShortens<S, M>(ops: Ops<S, M>, names: nat -> string, st: State<S, M>, k: nat)
    requires k < |st.ws| && st.ws[k].Acts()
    ensures |ExecuteWords(ops, names, st, k).ws| < |st.ws|
  {
  }

  lemma {:induction false} ReducePass<S, M>(ops: Ops<S, M>, names: nat -> string, st: State<S, M>)
    requires Follows(st.ws) && ToBeProcessed(st.ws) > 1
    ensures ReduceWords(ops, names, st) == ReduceWords(ops, names, PassWords(ops, names, st))
  {
    PassOrRest(ops, names, st);
    ReduceStep(ops, names, st, PassWords(ops, names, st));
  }

  /** A pass does not lengthen the list. */
  lemma {:induction false} PassNoLonger<S, M>(ops: Ops<S, M>, names: nat -> string, st: State<S, M>)
    requires Follows(st.ws)
    ensures |PassWords(ops, names, st).ws| <= |st.ws|
  {
    PassOrRest(ops, names, st);
  }

  lemma {:induction false} AroundCounts(p: seq<Token<Operand>>, l: seq<Token<Operand>>, x: string, r: seq<Token<Operand>>)
    requires Target(p) && Around(l, x, r)
    ensures var v := Val(Variable(x));
            && ToBeProcessed(p + (l + Negation(v) + r)) == |l| + 4 + |r|
            && ToBeProcessed(p + (l + [v] + Tail(r))) == |l| + 1 + |r|
  {
    var v := Val(Variable(x));
    forall t | t in Tail(r) ensures t in r || t == Op(Minus) {}
    forall t | t in l ensures t in l + r {}
    forall t | t in r ensures t in l + r {}
    CountHead(p, l + Negation(v) + r);
    CountHead(p, l + [v] + Tail(r));
  }

  /** A single word behind `=` is left alone by a pass. */
  lemma {:induction false} SingleStays<S, M>(ops: Ops<S, M>, names: nat -> string, p: seq<Token<Operand>>, v: Token<Operand>, tb: Tables<S, M>, tmp: nat)
    requires Head(p) && v.Val?
    ensures PassWords(ops, names, State(p + [v], tb, tmp)) == State(p + [v], tb, tmp)
  {
    var ws := p + [v];
    StripHead(p, [v], 0);
    FollowsBehind(p, [v]);
    NothingNegated(ops, State(ws, tb, tmp), 0);
    QuietScan(ws, 0, |ws|);
    PassOfRest(ops, names, State(ws, tb, tmp), State(ws, tb, tmp), -1);
  }

  /** Two lists that agree after a pass. */
  lemma {:induction false} SameLoop<S, M>(ops: Ops<S, M>, names: nat -> string, st: State<S, M>, st': State<S, M>)
    requires PassWords(ops, names, st) == PassWords(ops, names, st') && Follows(st'.ws) && |st'.ws| < |st.ws|
    requires ToBeProcessed(st.ws) > 1 && (ToBeProcessed(st'.ws) > 1 || PassWords(ops, names, st') == st')
    ensures ReduceWords(ops, names, st) == ReduceWords(ops, names, st')
  {
    var st1 := PassWords(ops, names, st);
    PassNoLonger(ops, names, st');
    ReduceStep(ops, names, st, st1);
    if ToBeProcessed(st'.ws) > 1 { ReducePass(ops, names, st'); }
  }

  lemma {:induction false} TailFollowsBehind(p: seq<Token<Operand>>, l: seq<Token<Operand>>, x: string, r: seq<Token<Operand>>)
    requires Head(p) && Around(l, x, r)
    ensures Follows(p + (l + [Val(Variable(x))] + Tail(r)))
  {
    TailFollows(l, Variable(x), r);
    FollowsBehind(p, l + [Val(Variable(x))] + Tail(r));
  }

  /** Main result for any operations: a command with one `(-x)` is worked off like the command in which x stands for the
      group, the word behind it is a minus sign, and the variable x has been negated, wherever it occurs. */
  lemma {:induction false} NegatedLoop<S, M>(ops: Ops<S, M>, names: nat -> string, p: seq<Token<Operand>>, l: seq<Token<Operand>>, x: string,
                                             r: seq<Token<Operand>>, tb: Tables<S, M>, tmp: nat)
    requires Head(p) && Target(p) && x in tb.vars && Around(l, x, r)
    ensures var v := Val(Variable(x));
            ReduceWords(ops, names, State(p + (l + Negation(v) + r), tb, tmp)) ==
            ReduceWords(ops, names, State(p + (l + [v] + Tail(r)), Negated(ops, tb, x), tmp))
  {
    var v := Val(Variable(x));
    var st, st' := State(p + (l + Negation(v) + r), tb, tmp), State(p + (l + [v] + Tail(r)), Negated(ops, tb, x), tmp);
    AroundCounts(p, l, x, r);
    NegatedPass(ops, names, p, l, x, r, tb, tmp);
    TailFollowsBehind(p, l, x, r);
    if |l| + |r| == 0 {
      assert l + [v] + Tail(r) == [v];
      SingleStays(ops, names, p, v, Negated(ops, tb, x), tmp);
    }
    SameLoop(ops, names, st, st');
  }
}
