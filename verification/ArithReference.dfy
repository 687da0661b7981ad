/** A one-pass evaluator of word lists.  It needs no tree and no rewriting, and it gives every
    printed expression its value; the reduction loop is compared with it. */
module ArithReference {
  import opened ArithSyntax
  import opened Wrappers

  /** One open group: the sum so far with its operator, the product so far with its operator,
      a function waiting for its argument, and the operand just read. */
  datatype Frame<+V> = Frame(sum: Option<(V, Operator)>, product: Option<(V, Operator)>,
                             call: Option<string>, operand: Option<V>)

  /** The open groups, innermost last; None when the words make no expression. */
  type Machine<V> = Option<seq<Frame<V>>>

  function Blank<V>(): Frame<V> {
    Frame(None, None, None, None)
  }

  function Feed<V>(alg: Algebra<V>, f: Frame<V>, v: V): Frame<V> {
    var w := if f.call.Some? then alg.unary(f.call.value, v) else v;
    var x := if f.product.Some? then alg.binary(f.product.value.1, f.product.value.0, w) else w;
    Frame(f.sum, None, None, Some(x))
  }

  /** The value of a frame holding an operand. */
  function Total<V>(alg: Algebra<V>, f: Frame<V>): V
    requires f.operand.Some?
  {
    if f.sum.Some? then alg.binary(f.sum.value.1, f.sum.value.0, f.operand.value) else f.operand.value
  }

  ghost function Step<V>(alg: Algebra<V>, m: Machine<V>, t: Token<V>): Machine<V> {
    if m.None? || |m.value| == 0 then None
    else
      var n := |m.value| - 1;
      var top := m.value[n];
      match t
      case Val(v) => if top.operand.Some? then None else Some(m.value[..n] + [Feed(alg, top, v)])
      case Open => if top.operand.Some? then None else Some(m.value + [Blank()])
      case Fn(f) => if top.operand.Some? || top.call.Some? then None else Some(m.value[..n] + [top.(call := Some(f))])
      case Op(o) =>
        if top.operand.None? then None
        else if o.Multiplicative() then
          Some(m.value[..n] + [Frame(top.sum, Some((top.operand.value, o)), None, None)])
        else
          Some(m.value[..n] + [Frame(Some((Total(alg, top), o)), None, None, None)])
      case Close =>
        if top.operand.None? || n == 0 || m.value[n - 1].operand.Some? then None
        else Some(m.value[..n - 1] + [Feed(alg, m.value[n - 1], Total(alg, top))])
      case _ => None
  }

  ghost function Run<V>(alg: Algebra<V>, m: Machine<V>, ts: seq<Token<V>>): Machine<V> {
    if |ts| == 0 then m
    else Step(alg, Run(alg, m, ts[..|ts| - 1]), ts[|ts| - 1])
  }

  ghost function Result<V>(alg: Algebra<V>, m: Machine<V>): Option<V> {
    if m.Some? && |m.value| == 1 && m.value[0].operand.Some? then Some(Total(alg, m.value[0])) else None
  }

  /** The value of a word list. */
  ghost function Value<V>(alg: Algebra<V>, ts: seq<Token<V>>): Option<V> {
    Result(alg, Run(alg, Some([Blank()]), ts))
  }

  lemma {:induction false} RunConcat<V>(alg: Algebra<V>, m: Machine<V>, a: seq<Token<V>>, b: seq<Token<V>>)
    ensures Run(alg, m, a + b) == Run(alg, Run(alg, m, a), b)
    decreases |b|
  {
    if |b| == 0 {
      assert a + b == a;
    } else {
      var b' := b[..|b| - 1];
      assert (a + b)[..|a + b| - 1] == a + b';
      RunConcat(alg, m, a, b');
    }
  }

  lemma {:induction false} RunOne<V>(alg: Algebra<V>, m: Machine<V>, t: Token<V>)
    ensures Run(alg, m, [t]) == Step(alg, m, t)
  {
    assert [t][..0] == [];
    assert Run(alg, m, [t]) == Step(alg, Run(alg, m, []), t);
  }

  lemma {:induction false} RunSplice<V>(alg: Algebra<V>, m: Machine<V>, a: seq<Token<V>>, t: Token<V>, b: seq<Token<V>>)
    ensures Run(alg, m, a + [t] + b) == Run(alg, Step(alg, Run(alg, m, a), t), b)
  {
    RunConcat(alg, m, a + [t], b);
    RunConcat(alg, m, a, [t]);
    RunOne(alg, Run(alg, m, a), t);
  }

  lemma {:induction false} RunThree<V>(alg: Algebra<V>, m: Machine<V>, a: Token<V>, b: Token<V>, c: Token<V>)
    ensures Run(alg, m, [a, b, c]) == Step(alg, Step(alg, Step(alg, m, a), b), c)
    ensures Run(alg, m, [a, b]) == Step(alg, Step(alg, m, a), b)
  {
    assert [a] + [b] == [a, b] && [a, b] + [c] == [a, b, c];
    RunConcat(alg, m, [a], [b]);
    RunConcat(alg, m, [a, b], [c]);
    RunOne(alg, m, a);
    RunOne(alg, Step(alg, m, a), b);
    RunOne(alg, Step(alg, Step(alg, m, a), b), c);
  }

  /** If mid and mid' lead every rest to the same machine, they may be exchanged. */
  lemma {:induction false} Exchange<V>(alg: Algebra<V>, pre: seq<Token<V>>, mid: seq<Token<V>>, mid': seq<Token<V>>, post: seq<Token<V>>)
    requires var m := Run(alg, Some([Blank()]), pre); Result(alg, Run(alg, Run(alg, m, mid), post)) == Result(alg, Run(alg, Run(alg, m, mid'), post))
    ensures Value(alg, pre + mid + post) == Value(alg, pre + mid' + post)
  {
    var b: Machine<V> := Some([Blank()]);
    RunConcat(alg, b, pre + mid, post);
    RunConcat(alg, b, pre, mid);
    RunConcat(alg, b, pre + mid', post);
    RunConcat(alg, b, pre, mid');
  }

  /** How each kind of word acts on the innermost frame g above the frames s. */
  lemma {:induction false} StepTop<V>(alg: Algebra<V>, s: seq<Frame<V>>, g: Frame<V>, t: Token<V>)
    requires !t.Close?
    ensures var m := Step(alg, Some(s + [g]), t);
            match t
            case Val(v) => m == (if g.operand.Some? then None else Some(s + [Feed(alg, g, v)]))
            case Open => m == (if g.operand.Some? then None else Some(s + [g] + [Blank()]))
            case Fn(f) => m == (if g.operand.Some? || g.call.Some? then None else Some(s + [g.(call := Some(f))]))
            case Op(o) =>
              m == (if g.operand.None? then None
                    else if o.Multiplicative() then Some(s + [Frame(g.sum, Some((g.operand.value, o)), None, None)])
                    else Some(s + [Frame(Some((Total(alg, g), o)), None, None, None)]))
            case _ => m == None
  {
    assert (s + [g])[..|s|] == s;
  }

  lemma {:induction false} StepClose<V>(alg: Algebra<V>, s: seq<Frame<V>>, g: Frame<V>, h: Frame<V>)
    requires g.operand.None? && h.operand.Some?
    ensures Step(alg, Some(s + [g] + [h]), Close) == Some(s + [Feed(alg, g, Total(alg, h))])
  {
    assert (s + [g] + [h])[..|s|] == s;
  }

  lemma {:induction false} UnwrapValue<V>(alg: Algebra<V>, pre: seq<Token<V>>, v: V, post: seq<Token<V>>)
    ensures Value(alg, pre + [Open, Val(v), Close] + post) == Value(alg, pre + [Val(v)] + post)
  {
    var m := Run(alg, Some([Blank()]), pre);
    RunThree(alg, m, Open, Val(v), Close);
    RunOne(alg, m, Val(v));
    if m.Some? && |m.value| > 0 {
      var s, g := m.value[..|m.value| - 1], Top(m);
      assert m.value == s + [g];
      StepTop(alg, s, g, Open);
      StepTop(alg, s, g, Val(v));
      StepTop(alg, s + [g], Blank(), Val(v));
      if g.operand.None? {
        StepClose(alg, s, g, Feed(alg, Blank(), v));
      }
    }
    Exchange(alg, pre, [Open, Val(v), Close], [Val(v)], post);
  }

  lemma {:induction false} CallValue<V>(alg: Algebra<V>, pre: seq<Token<V>>, f: string, v: V, post: seq<Token<V>>)
    requires |pre| > 0 ==> !pre[|pre| - 1].Fn?
    ensures Value(alg, pre + [Fn(f), Val(v)] + post) == Value(alg, pre + [Val(alg.unary(f, v))] + post)
  {
    var m := Run(alg, Some([Blank()]), pre);
    RunThree(alg, m, Fn(f), Val(v), Val(v));
    RunOne(alg, m, Val(alg.unary(f, v)));
    NoCallPending(alg, pre);
    if m.Some? && |m.value| > 0 {
      var s, g := m.value[..|m.value| - 1], Top(m);
      assert m.value == s + [g];
      StepTop(alg, s, g, Fn(f));
      StepTop(alg, s, g.(call := Some(f)), Val(v));
      StepTop(alg, s, g, Val(alg.unary(f, v)));
    }
    Exchange(alg, pre, [Fn(f), Val(v)], [Val(alg.unary(f, v))], post);
  }

  /** The innermost frame of a machine that has read something. */
  ghost function Top<V>(m: Machine<V>): Frame<V>
    requires m.Some? && |m.value| > 0
  {
    m.value[|m.value| - 1]
  }

  /** What the last word says about the innermost frame. */
  lemma {:induction false} LastWord<V>(alg: Algebra<V>, pre: seq<Token<V>>)
    requires |pre| > 0
    ensures var m := Run(alg, Some([Blank()]), pre);
            var t := pre[|pre| - 1];
            m.Some? && |m.value| > 0 ==>
              && (Top(m).call.Some? ==> t.Fn?)
              && (Top(m).operand.Some? <==> t.Val? || t.Close?)
              && (t.Open? ==> Top(m) == Blank())
              && (t.Op? && !t.o.Multiplicative() ==> Top(m).product.None?)
              && (t.Val? || t.Close? ==> Top(m).product.None?)
              && (t.Op? || t.Open? ==> Top(m).call.None?)
              && !t.Lhs? && !t.Equal? && !t.Undefined?
  {
    CallsPend(alg, pre[..|pre| - 1]);
  }

  /** A waiting function was the last word read; nothing is both waiting and holding an operand. */
  lemma {:induction false} CallsPend<V>(alg: Algebra<V>, pre: seq<Token<V>>)
    ensures var m := Run(alg, Some([Blank()]), pre);
            m.Some? && |m.value| > 0 ==>
              && (Top(m).call.Some? ==> |pre| > 0 && pre[|pre| - 1].Fn?)
              && (Top(m).operand.Some? ==> Top(m).call.None? && Top(m).product.None?)
  {
    if |pre| > 0 { CallsPend(alg, pre[..|pre| - 1]); }
  }

  lemma {:induction false} NoCallPending<V>(alg: Algebra<V>, pre: seq<Token<V>>)
    requires |pre| > 0 ==> !pre[|pre| - 1].Fn?
    ensures var m := Run(alg, Some([Blank()]), pre); m.Some? && |m.value| > 0 ==> Top(m).call.None?
  {
    CallsPend(alg, pre);
  }

  /** A product may be formed where no product and no function is waiting for its left operand. */
  lemma {:induction false} ProductValue<V>(alg: Algebra<V>, pre: seq<Token<V>>, a: V, o: Operator, b: V, post: seq<Token<V>>)
    requires o.Multiplicative()
    requires |pre| > 0 ==> pre[|pre| - 1].Open? || (pre[|pre| - 1].Op? && !pre[|pre| - 1].o.Multiplicative())
    ensures Value(alg, pre + [Val(a), Op(o), Val(b)] + post) == Value(alg, pre + [Val(alg.binary(o, a, b))] + post)
  {
    var m := Run(alg, Some([Blank()]), pre);
    RunThree(alg, m, Val(a), Op(o), Val(b));
    RunOne(alg, m, Val(alg.binary(o, a, b)));
    if |pre| > 0 { LastWord(alg, pre); }
    if m.Some? && |m.value| > 0 {
      var s := m.value;
      var n := |s| - 1;
      var s1 := s[..n] + [Feed(alg, s[n], a)];
      var s2 := s[..n] + [Frame(s[n].sum, Some((a, o)), None, None)];
      assert s1[..n] == s[..n] && s2[..n] == s[..n];
      assert Step(alg, m, Val(a)) == Some(s1);
      assert Step(alg, Some(s1), Op(o)) == Some(s2);
    }
    Exchange(alg, pre, [Val(a), Op(o), Val(b)], [Val(alg.binary(o, a, b))], post);
  }

  /** A sum may be formed at the start of a group when no product follows. */
  lemma {:induction false} SumValue<V>(alg: Algebra<V>, pre: seq<Token<V>>, a: V, o: Operator, b: V, post: seq<Token<V>>)
    requires !o.Multiplicative()
    requires |pre| > 0 ==> pre[|pre| - 1].Open?
    requires |post| > 0 ==> !(post[0].Op? && post[0].o.Multiplicative())
    ensures Value(alg, pre + [Val(a), Op(o), Val(b)] + post) == Value(alg, pre + [Val(alg.binary(o, a, b))] + post)
  {
    var c := alg.binary(o, a, b);
    var m := Run(alg, Some([Blank()]), pre);
    RunThree(alg, m, Val(a), Op(o), Val(b));
    RunOne(alg, m, Val(c));
    if |pre| > 0 { LastWord(alg, pre); }
    if m.Some? && |m.value| > 0 {
      var s := m.value[..|m.value| - 1];
      assert m.value == s + [Blank()];
      StepTop(alg, s, Blank(), Val(a));
      StepTop(alg, s, Feed(alg, Blank(), a), Op(o));
      StepTop(alg, s, Frame(Some((a, o)), None, None, None), Val(b));
      StepTop(alg, s, Blank(), Val(c));
      SumTail(alg, s, a, o, b, post);
    }
    Exchange(alg, pre, [Val(a), Op(o), Val(b)], [Val(c)], post);
  }

  lemma {:induction false} SumTail<V>(alg: Algebra<V>, s: seq<Frame<V>>, a: V, o: Operator, b: V, post: seq<Token<V>>)
    requires |post| > 0 ==> !(post[0].Op? && post[0].o.Multiplicative())
    ensures Result(alg, Run(alg, Some(s + [Frame(Some((a, o)), None, None, Some(b))]), post))
         == Result(alg, Run(alg, Some(s + [Frame(None, None, None, Some(alg.binary(o, a, b)))]), post))
  {
    var x := Some(s + [Frame(Some((a, o)), None, None, Some(b))]);
    var y := Some(s + [Frame(None, None, None, Some(alg.binary(o, a, b)))]);
    if |post| > 0 {
      SumStep(alg, s, a, o, b, post[0]);
      assert post == [post[0]] + post[1..];
      RunConcat(alg, x, [post[0]], post[1..]);
      RunConcat(alg, y, [post[0]], post[1..]);
      RunOne(alg, x, post[0]);
      RunOne(alg, y, post[0]);
    }
  }

  lemma {:induction false} SumStep<V>(alg: Algebra<V>, s: seq<Frame<V>>, a: V, o: Operator, b: V, t: Token<V>)
    requires !(t.Op? && t.o.Multiplicative())
    ensures Step(alg, Some(s + [Frame(Some((a, o)), None, None, Some(b))]), t)
         == Step(alg, Some(s + [Frame(None, None, None, Some(alg.binary(o, a, b)))]), t)
  {
    var x := s + [Frame(Some((a, o)), None, None, Some(b))];
    var y := s + [Frame(None, None, None, Some(alg.binary(o, a, b)))];
    assert x[..|s|] == s && y[..|s|] == s;
    if |s| > 0 {
      assert x[..|s| - 1] == s[..|s| - 1] == y[..|s| - 1];
    }
  }

  // ----- printed expressions

  /** Reading e where an operand is wanted and nothing is pending but `sum`. */
  lemma {:induction false} RunExpr<V>(alg: Algebra<V>, s: seq<Frame<V>>, e: Expr<V>) returns (f: Frame<V>)
    requires WellFormed(e)
    ensures f.operand.Some? && Total(alg, f) == Eval(alg, e)
    ensures Run(alg, Some(s + [Blank()]), Print(e)) == Some(s + [f])
    decreases e, 1
  {
    match e
    case Single(t) =>
      RunTerm(alg, s, Blank(), t);
      f := Blank().(operand := Some(EvalTerm(alg, t)));
    case Sum(e1, op, t) =>
      var f1 := RunExpr(alg, s, e1);
      var g := Frame(Some((Eval(alg, e1), op)), None, None, None);
      RunSplice(alg, Some(s + [Blank()]), Print(e1), Op(op), PrintTerm(t));
      StepTop(alg, s, f1, Op(op));
      RunTerm(alg, s, g, t);
      f := g.(operand := Some(EvalTerm(alg, t)));
  }

  lemma {:induction false} RunTerm<V>(alg: Algebra<V>, s: seq<Frame<V>>, g: Frame<V>, t: Term<V>)
    requires WellFormedTerm(t)
    requires g.product.None? && g.call.None? && g.operand.None?
    ensures Run(alg, Some(s + [g]), PrintTerm(t)) == Some(s + [g.(operand := Some(EvalTerm(alg, t)))])
    decreases t, 1
  {
    match t
    case Unit(a) => RunAtom(alg, s, g, a);
    case Product(p, op, a) =>
      RunTerm(alg, s, g, p);
      var f := g.(operand := Some(EvalTerm(alg, p)));
      var h := Frame(g.sum, Some((EvalTerm(alg, p), op)), None, None);
      RunSplice(alg, Some(s + [g]), PrintTerm(p), Op(op), PrintAtom(a));
      StepTop(alg, s, f, Op(op));
      RunAtom(alg, s, h, a);
  }

  lemma {:induction false} RunAtom<V>(alg: Algebra<V>, s: seq<Frame<V>>, g: Frame<V>, a: Atom<V>)
    requires WellFormedAtom(a)
    requires g.call.None? && g.operand.None?
    ensures Run(alg, Some(s + [g]), PrintAtom(a)) == Some(s + [Feed(alg, g, EvalAtom(alg, a))])
    decreases a, 1
  {
    match a
    case Leaf(v) =>
      RunOne(alg, Some(s + [g]), Val(v));
      StepTop(alg, s, g, Val(v));
    case Group(e) =>
      RunGroup(alg, s, g, e);
    case Call(f, e) =>
      RunCall(alg, s, g, f, e);
  }

  lemma {:induction false} RunCall<V>(alg: Algebra<V>, s: seq<Frame<V>>, g: Frame<V>, f: string, e: Expr<V>)
    requires WellFormed(e)
    requires g.call.None? && g.operand.None?
    ensures Run(alg, Some(s + [g]), [Fn(f), Open] + Print(e) + [Close]) == Some(s + [Feed(alg, g, alg.unary(f, Eval(alg, e)))])
    decreases e, 3
  {
    var h, body := g.(call := Some(f)), [Open] + Print(e) + [Close];
    assert [Fn(f), Open] + Print(e) + [Close] == [] + [Fn(f)] + body;
    RunSplice(alg, Some(s + [g]), [], Fn(f), body);
    StepTop(alg, s, g, Fn(f));
    RunGroup(alg, s, h, e);
  }

  lemma {:induction false} RunGroup<V>(alg: Algebra<V>, s: seq<Frame<V>>, g: Frame<V>, e: Expr<V>)
    requires WellFormed(e)
    requires g.operand.None?
    ensures Run(alg, Some(s + [g]), [Open] + Print(e) + [Close]) == Some(s + [Feed(alg, g, Eval(alg, e))])
    decreases e, 2
  {
    var m := Some(s + [g]);
    RunConcat(alg, m, [Open] + Print(e), [Close]);
    RunConcat(alg, m, [Open], Print(e));
    RunOne(alg, m, Open);
    StepTop(alg, s, g, Open);
    var f := RunExpr(alg, s + [g], e);
    RunOne(alg, Some(s + [g] + [f]), Close);
    StepClose(alg, s, g, f);
  }

  /** The evaluator gives every printed expression its value. */
  lemma {:induction false} ValueOfPrint<V>(alg: Algebra<V>, e: Expr<V>)
    requires WellFormed(e)
    ensures Value(alg, Print(e)) == Some(Eval(alg, e))
  {
    var f := RunExpr(alg, [], e);
    assert [] + [Blank<V>()] == [Blank<V>()];
    assert [] + [f] == [f];
  }
}
