/** With symbolic results the loop returns the reference value exactly when no depth is spoiled. */
module ArithExact {
  import opened ArithSyntax
  import opened ArithPass
  import opened ArithShape
  import opened ArithOrder
  import opened ArithTheorem
  import opened Wrappers
  import Ref = ArithReference

  /** Results that record how they were computed. */
  datatype Tree =
    | Input(name: string)
    | Node(op: Operator, left: Tree, right: Tree)
    | Apply(f: string, arg: Tree)

  ghost const FREE: Algebra<Tree> := Algebra((o, a, b) => Node(o, a, b), (f, a) => Apply(f, a))

  /** The number of words a tree was computed from, parentheses apart. */
  ghost function Width(t: Tree): nat {
    match t
    case Input(_) => 1
    case Node(_, l, r) => Width(l) + 1 + Width(r)
    case Apply(_, a) => 1 + Width(a)
  }

  datatype Place = Nowhere | At(start: int)

  function Shift(n: int, x: Place): Place {
    if x.At? then At(n + x.start) else Nowhere
  }

  /** If position p of the words behind t holds an executed operator: where its left operand starts. */
  ghost function TreeEdge(t: Tree, p: int): Place {
    match t
    case Input(_) => Nowhere
    case Node(_, l, r) =>
      if p < Width(l) then TreeEdge(l, p)
      else if p == Width(l) then At(0)
      else Shift(Width(l) + 1, TreeEdge(r, p - Width(l) - 1))
    case Apply(_, a) => Shift(1, TreeEdge(a, p - 1))
  }

  ghost function WordWidth(t: Token<Tree>): nat {
    if t.Val? then Width(t.v) else if t.Acts() then 1 else 0
  }

  ghost function Span(ts: seq<Token<Tree>>): nat {
    if |ts| == 0 then 0 else Span(ts[..|ts| - 1]) + WordWidth(ts[|ts| - 1])
  }

  /** The same for a whole word list: operators already executed inside operands have a place. */
  ghost function Edge(ts: seq<Token<Tree>>, p: int): Place {
    if |ts| == 0 then Nowhere
    else
      var n := |ts| - 1;
      if p < Span(ts[..n]) then Edge(ts[..n], p)
      else if ts[n].Val? then Shift(Span(ts[..n]), TreeEdge(ts[n].v, p - Span(ts[..n])))
      else Nowhere
  }

  lemma {:induction false} EdgeConcat(a: seq<Token<Tree>>, b: seq<Token<Tree>>)
    ensures Span(a + b) == Span(a) + Span(b)
    ensures forall p: int :: Edge(a + b, p) == if p < Span(a) then Edge(a, p) else Shift(Span(a), Edge(b, p - Span(a)))
    decreases |b|
  {
    if |b| == 0 {
      assert a + b == a;
      forall p: int | p >= Span(a) ensures Edge(a, p) == Nowhere { EdgeOutside(a, p); }
    } else {
      var b' := b[..|b| - 1];
      assert (a + b)[..|a + b| - 1] == a + b';
      EdgeConcat(a, b');
    }
  }

  lemma {:induction false} TreeEdgeInside(t: Tree, p: int)
    ensures TreeEdge(t, p).At? ==> 0 <= TreeEdge(t, p).start <= p < Width(t)
  {
    match t
    case Input(_) =>
    case Node(_, l, r) =>
      TreeEdgeInside(l, p);
      TreeEdgeInside(r, p - Width(l) - 1);
    case Apply(_, a) =>
      TreeEdgeInside(a, p - 1);
  }

  lemma {:induction false} EdgeOutside(ts: seq<Token<Tree>>, p: int)
    requires p >= Span(ts)
    ensures Edge(ts, p) == Nowhere
  {
    if |ts| > 0 {
      var n := |ts| - 1;
      if ts[n].Val? { TreeEdgeInside(ts[n].v, p - Span(ts[..n])); }
    }
  }

  /** b keeps every executed operator of a in its place. */
  ghost predicate Keeps(a: seq<Token<Tree>>, b: seq<Token<Tree>>) {
    && Span(a) == Span(b)
    && forall p: int :: Edge(a, p).At? ==> Edge(b, p) == Edge(a, p)
  }

  lemma {:induction false} KeepsInContext(pre: seq<Token<Tree>>, a: seq<Token<Tree>>, b: seq<Token<Tree>>, post: seq<Token<Tree>>)
    requires Keeps(a, b)
    ensures Keeps(pre + a + post, pre + b + post)
  {
    EdgeConcat(pre, a);
    EdgeConcat(pre, b);
    EdgeConcat(pre + a, post);
    EdgeConcat(pre + b, post);
  }

  lemma {:induction false} SingleEdge(t: Token<Tree>)
    ensures Span([t]) == WordWidth(t)
    ensures forall p: int :: Edge([t], p) == if p >= 0 && t.Val? then TreeEdge(t.v, p) else Nowhere
  {
    assert [t][..0] == [];
    forall p: int ensures Shift(0, if t.Val? then TreeEdge(t.v, p) else Nowhere) == if t.Val? then TreeEdge(t.v, p) else Nowhere {}
  }

  lemma {:induction false} BinaryWords(a: Tree, o: Operator, b: Tree, p: int)
    ensures Span([Val(a), Op(o), Val(b)]) == Width(a) + 1 + Width(b)
    ensures Edge([Val(a), Op(o), Val(b)], p) ==
            if p < Width(a) then Edge([Val(a)], p) else Shift(Width(a) + 1, Edge([Val(b)], p - Width(a) - 1))
  {
    assert [Val(a), Op(o), Val(b)] == [Val(a), Op(o)] + [Val(b)] && [Val(a), Op(o)] == [Val(a)] + [Op(o)];
    EdgeConcat([Val(a), Op(o)], [Val(b)]);
    EdgeConcat([Val(a)], [Op(o)]);
    SingleEdge(Val(a));
    SingleEdge(Op(o));
    SingleEdge(Val(b));
  }

  lemma {:induction false} BinaryKeeps(a: Tree, o: Operator, b: Tree)
    ensures Keeps([Val(a), Op(o), Val(b)], [Val(Node(o, a, b))])
    ensures Edge([Val(Node(o, a, b))], Width(a)) == At(0)
  {
    SingleEdge(Val(Node(o, a, b)));
    BinaryWords(a, o, b, 0);
    forall p: int | Edge([Val(a), Op(o), Val(b)], p).At?
      ensures Edge([Val(Node(o, a, b))], p) == Edge([Val(a), Op(o), Val(b)], p)
    {
      BinaryWords(a, o, b, p);
      SingleEdge(Val(a));
      SingleEdge(Val(b));
    }
  }

  lemma {:induction false} UnaryKeeps(f: string, a: Tree)
    ensures Keeps([Fn(f), Val(a)], [Val(Apply(f, a))])
  {
    assert [Fn(f), Val(a)] == [Fn(f)] + [Val(a)];
    EdgeConcat([Fn(f)], [Val(a)]);
    SingleEdge(Fn(f));
    SingleEdge(Val(a));
    SingleEdge(Val(Apply(f, a)));
    forall p: int ensures TreeEdge(a, p).At? ==> p >= 0 { TreeEdgeInside(a, p); }
  }

  lemma {:induction false} WrappedKeeps(a: Tree)
    ensures Keeps([Open, Val(a), Close], [Val(a)])
  {
    assert [Open, Val(a), Close] == [Open] + [Val(a)] + [Close];
    EdgeConcat([Open] + [Val(a)], [Close]);
    EdgeConcat([Open], [Val(a)]);
    SingleEdge(Open);
    SingleEdge(Close);
    SingleEdge(Val(a));
  }

  // ----- the loop

  lemma {:induction false} StripKeepsEdges(ts: seq<Token<Tree>>, i: nat)
    requires Accepted(ts) && StrippedBefore(ts, i)
    ensures Keeps(ts, StripFrom(ts, i))
    decreases |ts| - i
  {
    if i + 2 < |ts| {
      if ts[i].Open? && ts[i + 2].Close? {
        UnwrapKeepsStripped(ts, i);
        WrappedOperand(ts, i);
        WrappedKeeps(ts[i + 1].v);
        KeepsInContext(ts[..i], [Open, Val(ts[i + 1].v), Close], [Val(ts[i + 1].v)], ts[i + 3..]);
        StripKeepsEdges(Unwrap(ts, i), i + 1);
      } else {
        StripKeepsEdges(ts, i + 1);
      }
    }
  }

  lemma {:induction false} ExecuteKeepsEdges(ts: seq<Token<Tree>>, k: nat)
    requires Accepted(ts) && Stripped(ts) && Pick(ts) == k
    ensures k < |ts| && ts[k].Acts() && Keeps(ts, Execute(FREE, ts, k))
  {
    ExecuteSplits(FREE, ts, k);
    if ts[k].Op? {
      var a, o, b := ts[k - 1].v, ts[k].o, ts[k + 1].v;
      BinaryKeeps(a, o, b);
      KeepsInContext(ts[..k - 1], [Val(a), Op(o), Val(b)], [Val(Node(o, a, b))], ts[k + 2..]);
    } else {
      UnaryKeeps(ts[k].f, ts[k + 1].v);
      KeepsInContext(ts[..k], [Fn(ts[k].f), Val(ts[k + 1].v)], [Val(Apply(ts[k].f, ts[k + 1].v))], ts[k + 2..]);
    }
  }

  lemma {:induction false} LoopKeepsEdges(ts: seq<Token<Tree>>)
    requires Accepted(ts)
    ensures Loop(FREE, ts).Ends? && Keeps(ts, Loop(FREE, ts).ts)
    decreases |ts|
  {
    if |ts| > 1 {
      PassShortens(FREE, ts);
      StripKeepsEdges(ts, 0);
      StripKeeps(FREE, ts, 0);
      var s := StripFrom(ts, 0);
      PickSurroundings(s);
      if Pick(s) >= 0 { ExecuteKeepsEdges(s, Pick(s)); }
      LoopKeepsEdges(Pass(FREE, ts));
    }
  }

  // ----- the reference evaluator

  /** The words a frame, or a stack of frames, stands for. */
  ghost function FrameWords(f: Ref.Frame<Tree>): seq<Token<Tree>> {
    Pending(f.sum) + Pending(f.product)
    + (if f.call.Some? then [Fn(f.call.value)] else [])
    + (if f.operand.Some? then [Val(f.operand.value)] else [])
  }

  ghost function Pending(x: Option<(Tree, Operator)>): seq<Token<Tree>> {
    if x.Some? then [Val(x.value.0), Op(x.value.1)] else []
  }

  ghost function Words(s: seq<Ref.Frame<Tree>>): seq<Token<Tree>> {
    if |s| == 0 then [] else Words(s[..|s| - 1]) + FrameWords(s[|s| - 1])
  }

  lemma {:induction false} WordsTop(s: seq<Ref.Frame<Tree>>, f: Ref.Frame<Tree>)
    ensures Words(s + [f]) == Words(s) + FrameWords(f)
  {
    assert (s + [f])[..|s|] == s;
  }

  lemma {:induction false} KeepsAfter(pre: seq<Token<Tree>>, a: seq<Token<Tree>>, b: seq<Token<Tree>>)
    requires Keeps(a, b)
    ensures Keeps(pre + a, pre + b)
  {
    KeepsInContext(pre, a, b, []);
    assert pre + a + [] == pre + a && pre + b + [] == pre + b;
  }

  lemma {:induction false} KeepsBefore(a: seq<Token<Tree>>, b: seq<Token<Tree>>, t: Token<Tree>)
    requires Keeps(a, b)
    ensures Keeps(a + [t], b + [t])
  {
    KeepsInContext([], a, b, [t]);
    assert [] + a + [t] == a + [t] && [] + b + [t] == b + [t];
  }

  lemma {:induction false} FeedKeeps(f: Ref.Frame<Tree>, v: Tree)
    requires f.operand.None?
    ensures Keeps(FrameWords(f) + [Val(v)], FrameWords(Ref.Feed(FREE, f, v)))
  {
    var w := if f.call.Some? then Apply(f.call.value, v) else v;
    var pre := Pending(f.sum) + Pending(f.product);
    FeedCallKeeps(f, v, w, pre);
    FeedProductKeeps(f, v, w, pre);
    KeepsTrans(FrameWords(f) + [Val(v)], pre + [Val(w)], FrameWords(Ref.Feed(FREE, f, v)));
  }

  lemma {:induction false} FeedCallKeeps(f: Ref.Frame<Tree>, v: Tree, w: Tree, pre: seq<Token<Tree>>)
    requires f.operand.None? && w == if f.call.Some? then Apply(f.call.value, v) else v
    requires pre == Pending(f.sum) + Pending(f.product)
    ensures Keeps(FrameWords(f) + [Val(v)], pre + [Val(w)])
  {
    if f.call.Some? {
      UnaryKeeps(f.call.value, v);
      KeepsAfter(pre, [Fn(f.call.value), Val(v)], [Val(w)]);
      assert FrameWords(f) + [Val(v)] == pre + [Fn(f.call.value), Val(v)];
    } else {
      assert FrameWords(f) + [Val(v)] == pre + [Val(w)];
    }
  }

  lemma {:induction false} FeedProductKeeps(f: Ref.Frame<Tree>, v: Tree, w: Tree, pre: seq<Token<Tree>>)
    requires f.operand.None? && w == if f.call.Some? then Apply(f.call.value, v) else v
    requires pre == Pending(f.sum) + Pending(f.product)
    ensures Keeps(pre + [Val(w)], FrameWords(Ref.Feed(FREE, f, v)))
  {
    if f.product.Some? {
      var (a, o) := f.product.value;
      BinaryKeeps(a, o, w);
      KeepsAfter(Pending(f.sum), [Val(a), Op(o), Val(w)], [Val(Node(o, a, w))]);
      assert pre + [Val(w)] == Pending(f.sum) + [Val(a), Op(o), Val(w)];
      assert FrameWords(Ref.Feed(FREE, f, v)) == Pending(f.sum) + [Val(Node(o, a, w))];
    } else {
      assert FrameWords(Ref.Feed(FREE, f, v)) == pre + [Val(w)];
    }
  }

  lemma {:induction false} TotalKeeps(f: Ref.Frame<Tree>)
    requires f.operand.Some? && f.product.None? && f.call.None?
    ensures Keeps(FrameWords(f), [Val(Ref.Total(FREE, f))])
  {
    if f.sum.Some? {
      var (a, o) := f.sum.value;
      BinaryKeeps(a, o, f.operand.value);
      assert FrameWords(f) == [Val(a), Op(o), Val(f.operand.value)];
    } else {
      assert FrameWords(f) == [Val(f.operand.value)];
    }
  }

  lemma {:induction false} ZeroWidth(ts: seq<Token<Tree>>, t: Token<Tree>)
    requires t.Open? || t.Close?
    ensures Keeps(ts + [t], ts)
  {
    EdgeConcat(ts, [t]);
    SingleEdge(t);
  }

  lemma {:induction false} StepKeeps(s: seq<Ref.Frame<Tree>>, f: Ref.Frame<Tree>, t: Token<Tree>)
    requires f.operand.Some? ==> f.product.None? && f.call.None?
    ensures var m := Ref.Step(FREE, Some(s + [f]), t);
            m.Some? ==> Keeps(Words(s + [f]) + [t], Words(m.value))
  {
    var m := Ref.Step(FREE, Some(s + [f]), t);
    if m.Some? {
      if t.Close? {
        CloseKeeps(s, f);
      } else {
        Ref.StepTop(FREE, s, f, t);
        WordsTop(s, f);
        assert Words(s) + FrameWords(f) + [t] == Words(s) + (FrameWords(f) + [t]);
        match t
        case Val(v) =>
          FeedAfter(s, f, v);
          WordsTop(s, Ref.Feed(FREE, f, v));
        case Open =>
          OpenKeeps(s + [f]);
        case Fn(g) =>
          WordsTop(s, f.(call := Some(g)));
          assert FrameWords(f) + [t] == FrameWords(f.(call := Some(g)));
        case Op(o) =>
          OperatorKeeps(s, f, o);
        case _ =>
      }
    }
  }

  lemma {:induction false} OpenKeeps(s: seq<Ref.Frame<Tree>>)
    ensures Keeps(Words(s) + [Open], Words(s + [Ref.Blank()]))
  {
    WordsTop(s, Ref.Blank());
    ZeroWidth(Words(s), Open);
    assert Words(s) + FrameWords(Ref.Blank()) == Words(s);
  }

  lemma {:induction false} OperatorKeeps(s: seq<Ref.Frame<Tree>>, f: Ref.Frame<Tree>, o: Operator)
    requires f.operand.Some? && f.product.None? && f.call.None?
    ensures var m := Ref.Step(FREE, Some(s + [f]), Op(o));
            m.Some? ==> Keeps(Words(s + [f]) + [Op(o)], Words(m.value))
  {
    Ref.StepTop(FREE, s, f, Op(o));
    WordsTop(s, f);
    if o.Multiplicative() {
      ProductKeeps(s, f, o);
    } else {
      SumKeeps(s, f, o);
    }
  }

  lemma {:induction false} ProductKeeps(s: seq<Ref.Frame<Tree>>, f: Ref.Frame<Tree>, o: Operator)
    requires f.operand.Some? && f.product.None? && f.call.None?
    ensures Keeps(Words(s) + FrameWords(f) + [Op(o)], Words(s + [Ref.Frame(f.sum, Some((f.operand.value, o)), None, None)]))
  {
    var g := Ref.Frame(f.sum, Some((f.operand.value, o)), None, None);
    WordsTop(s, g);
    assert FrameWords(f) + [Op(o)] == FrameWords(g);
    assert Words(s) + FrameWords(f) + [Op(o)] == Words(s) + (FrameWords(f) + [Op(o)]);
  }

  lemma {:induction false} SumKeeps(s: seq<Ref.Frame<Tree>>, f: Ref.Frame<Tree>, o: Operator)
    requires f.operand.Some? && f.product.None? && f.call.None?
    ensures Keeps(Words(s) + FrameWords(f) + [Op(o)], Words(s + [Ref.Frame(Some((Ref.Total(FREE, f), o)), None, None, None)]))
  {
    var v := Ref.Total(FREE, f);
    var g: Ref.Frame<Tree> := Ref.Frame(Some((v, o)), None, None, None);
    WordsTop(s, g);
    TotalKeeps(f);
    KeepsInContext(Words(s), FrameWords(f), [Val(v)], [Op(o)]);
    assert FrameWords(g) == [Val(v)] + [Op(o)];
    assert Words(s) + [Val(v)] + [Op(o)] == Words(s) + FrameWords(g);
  }

  lemma {:induction false} CloseKeeps(s: seq<Ref.Frame<Tree>>, f: Ref.Frame<Tree>)
    requires f.operand.Some? ==> f.product.None? && f.call.None?
    ensures var m := Ref.Step(FREE, Some(s + [f]), Close);
            m.Some? ==> Keeps(Words(s + [f]) + [Close], Words(m.value))
  {
    var m := Ref.Step(FREE, Some(s + [f]), Close);
    if m.Some? {
      var s', g := s[..|s| - 1], s[|s| - 1];
      assert s == s' + [g];
      Ref.StepClose(FREE, s', g, f);
      PopKeeps(s', g, f);
    }
  }

  lemma {:induction false} PopKeeps(s: seq<Ref.Frame<Tree>>, g: Ref.Frame<Tree>, f: Ref.Frame<Tree>)
    requires g.operand.None? && f.operand.Some? && f.product.None? && f.call.None?
    ensures Keeps(Words(s + [g] + [f]) + [Close], Words(s + [Ref.Feed(FREE, g, Ref.Total(FREE, f))]))
  {
    var v := Ref.Total(FREE, f);
    var fed := Ref.Feed(FREE, g, v);
    var open, fw := Words(s + [g]), FrameWords(f);
    ZeroWidth(Words(s + [g] + [f]), Close);
    WordsTop(s + [g], f);
    TotalKeeps(f);
    KeepsAfter(open, fw, [Val(v)]);
    KeepsTrans(open + fw + [Close], open + fw, open + [Val(v)]);
    WordsTop(s, g);
    FeedAfter(s, g, v);
    WordsTop(s, fed);
    KeepsTrans(open + fw + [Close], open + [Val(v)], Words(s + [fed]));
  }

  lemma {:induction false} FeedAfter(s: seq<Ref.Frame<Tree>>, g: Ref.Frame<Tree>, v: Tree)
    requires g.operand.None?
    ensures Keeps(Words(s) + FrameWords(g) + [Val(v)], Words(s) + FrameWords(Ref.Feed(FREE, g, v)))
  {
    FeedKeeps(g, v);
    KeepsAfter(Words(s), FrameWords(g) + [Val(v)], FrameWords(Ref.Feed(FREE, g, v)));
    assert Words(s) + FrameWords(g) + [Val(v)] == Words(s) + (FrameWords(g) + [Val(v)]);
  }

  lemma {:induction false} KeepsTrans(a: seq<Token<Tree>>, b: seq<Token<Tree>>, c: seq<Token<Tree>>)
    requires Keeps(a, b) && Keeps(b, c)
    ensures Keeps(a, c)
  {
  }

  /** The machine after ts, when it has frames. */
  lemma {:induction false} RunKeeps(ts: seq<Token<Tree>>)
    ensures var m := Ref.Run(FREE, Some([Ref.Blank()]), ts); m.Some? && |m.value| > 0 ==> Keeps(ts, Words(m.value))
  {
    if |ts| == 0 {
      BlankWords();
    } else {
      var ts', t := ts[..|ts| - 1], ts[|ts| - 1];
      RunKeeps(ts');
      RunOneMore(ts', t);
      assert ts == ts' + [t];
    }
  }

  lemma {:induction false} RunOneMore(ts: seq<Token<Tree>>, t: Token<Tree>)
    requires var m := Ref.Run(FREE, Some([Ref.Blank()]), ts); m.Some? && |m.value| > 0 ==> Keeps(ts, Words(m.value))
    ensures var m := Ref.Run(FREE, Some([Ref.Blank()]), ts + [t]); m.Some? && |m.value| > 0 ==> Keeps(ts + [t], Words(m.value))
  {
    var m := Ref.Run(FREE, Some([Ref.Blank()]), ts);
    Ref.RunConcat(FREE, Some([Ref.Blank()]), ts, [t]);
    Ref.RunOne(FREE, m, t);
    Ref.CallsPend(FREE, ts);
    if m.Some? && |m.value| > 0 {
      RunStepKeeps(ts, m.value, t);
    }
  }

  lemma {:induction false} BlankWords()
    ensures Words([Ref.Blank<Tree>()]) == []
  {
    WordsTop([], Ref.Blank());
    assert [] + [Ref.Blank<Tree>()] == [Ref.Blank<Tree>()];
  }

  lemma {:induction false} RunStepKeeps(ts: seq<Token<Tree>>, s: seq<Ref.Frame<Tree>>, t: Token<Tree>)
    requires |s| > 0 && Keeps(ts, Words(s))
    requires var f := s[|s| - 1]; f.operand.Some? ==> f.product.None? && f.call.None?
    ensures var m := Ref.Step(FREE, Some(s), t); m.Some? ==> Keeps(ts + [t], Words(m.value))
  {
    assert s == s[..|s| - 1] + [s[|s| - 1]];
    StepKeeps(s[..|s| - 1], s[|s| - 1], t);
    KeepsBefore(ts, Words(s), t);
  }

  /** The reference value keeps every operator already executed in its place. */
  lemma {:induction false} ValueKeeps(ts: seq<Token<Tree>>)
    ensures Ref.Value(FREE, ts).Some? ==> Keeps(ts, [Val(Ref.Value(FREE, ts).value)])
  {
    var m := Ref.Run(FREE, Some([Ref.Blank()]), ts);
    RunKeeps(ts);
    Ref.CallsPend(FREE, ts);
    if Ref.Result(FREE, m).Some? {
      var f := m.value[0];
      assert m.value == [] + [f];
      WordsTop([], f);
      assert Words([]) + FrameWords(f) == FrameWords(f);
      TotalKeeps(f);
    }
  }

  // ----- an operation out of turn

  /** Where the operator at k ends up when it is executed between the operands a and b after pre. */
  lemma {:induction false} ExecutedPlace(pre: seq<Token<Tree>>, a: Tree, o: Operator, b: Tree, post: seq<Token<Tree>>)
    ensures Edge(pre + [Val(Node(o, a, b))] + post, Span(pre) + Width(a)) == At(Span(pre))
  {
    BinaryKeeps(a, o, b);
    EdgeConcat(pre, [Val(Node(o, a, b))]);
    EdgeConcat(pre + [Val(Node(o, a, b))], post);
    SingleEdge(Val(Node(o, a, b)));
  }

  /** p is where s' and the reference value of s disagree. */
  ghost predicate Disagree(s: seq<Token<Tree>>, s': seq<Token<Tree>>, p: int) {
    && Edge(s', p).At?
    && (Ref.Value(FREE, s).Some? ==> TreeEdge(Ref.Value(FREE, s).value, p) != Edge(s', p))
  }

  /** Executed out of turn, the operator takes a later left operand than in the reference value. */
  lemma {:induction false} OutOfTurnIsWrong(ts: seq<Token<Tree>>, k: nat) returns (p: int)
    requires Accepted(ts) && Stripped(ts) && Pick(ts) == k && k < |ts| && !InTurn(ts, k)
    ensures ts[k].Acts() && Disagree(ts, Execute(FREE, ts, k), p)
  {
    ExecuteSplits(FREE, ts, k);
    OutOfTurnSurroundings(ts, k);
    var a, o, b := ts[k - 1].v, ts[k].o, ts[k + 1].v;
    var post := ts[k + 2..];
    if ts[k - 2].Fn? {
      p := CallThenProductWrong(ts[..k - 2], ts[k - 2].f, a, o, b, post);
      SplitFour(ts, k - 2);
    } else {
      p := ProductThenProductWrong(ts[..k - 3], ts[k - 3].v, ts[k - 2].o, a, o, b, post);
      SplitFive(ts, k - 3);
    }
  }

  lemma {:induction false} SplitFour(ts: seq<Token<Tree>>, i: nat)
    requires i + 4 <= |ts|
    ensures ts == ts[..i] + [ts[i], ts[i + 1], ts[i + 2], ts[i + 3]] + ts[i + 4..]
    ensures ts[..i + 1] == ts[..i] + [ts[i]]
  {
  }

  lemma {:induction false} SplitFive(ts: seq<Token<Tree>>, i: nat)
    requires i + 5 <= |ts|
    ensures ts == ts[..i] + [ts[i], ts[i + 1], ts[i + 2], ts[i + 3], ts[i + 4]] + ts[i + 5..]
    ensures ts[..i + 2] == ts[..i] + [ts[i], ts[i + 1]]
  {
  }

  lemma {:induction false} CallThenProductWrong(pre: seq<Token<Tree>>, f: string, a: Tree, o: Operator, b: Tree, post: seq<Token<Tree>>)
    returns (p: int)
    requires |pre| > 0 && pre[|pre| - 1].Open? && o.Multiplicative()
    ensures Disagree(pre + [Fn(f), Val(a), Op(o), Val(b)] + post, pre + [Fn(f)] + [Val(Node(o, a, b))] + post, p)
  {
    p := Span(pre + [Fn(f)]) + Width(a);
    ExecutedPlace(pre + [Fn(f)], a, o, b, post);
    CallThenProduct(pre, f, a, o, b, post);
  }

  lemma {:induction false} ProductThenProductWrong(pre: seq<Token<Tree>>, x: Tree, o1: Operator, a: Tree, o: Operator, b: Tree,
                                                   post: seq<Token<Tree>>)
    returns (p: int)
    requires |pre| > 0 && pre[|pre| - 1].Open? && o.Multiplicative() && o1.Multiplicative()
    ensures Disagree(pre + [Val(x), Op(o1), Val(a), Op(o), Val(b)] + post, pre + [Val(x), Op(o1)] + [Val(Node(o, a, b))] + post, p)
  {
    p := Span(pre + [Val(x), Op(o1)]) + Width(a);
    ExecutedPlace(pre + [Val(x), Op(o1)], a, o, b, post);
    ProductThenProduct(pre, x, o1, a, o, b, post);
  }

  lemma {:induction false} CallThenProduct(pre: seq<Token<Tree>>, f: string, a: Tree, o: Operator, b: Tree, post: seq<Token<Tree>>)
    requires |pre| > 0 && pre[|pre| - 1].Open? && o.Multiplicative()
    ensures var ts := pre + [Fn(f), Val(a), Op(o), Val(b)] + post;
            Ref.Value(FREE, ts).Some? ==>
              TreeEdge(Ref.Value(FREE, ts).value, Span(pre + [Fn(f)]) + Width(a)) == At(Span(pre + [Fn(f)]) - 1)
  {
    var ts := pre + [Fn(f), Val(a), Op(o), Val(b)] + post;
    var w := Apply(f, a);
    var tail := [Op(o), Val(b)] + post;
    assert ts == pre + [Fn(f), Val(a)] + tail;
    Ref.CallValue(FREE, pre, f, a, tail);
    assert pre + [Val(w)] + tail == pre + [Val(w), Op(o), Val(b)] + post;
    EdgeConcat(pre, [Fn(f)]);
    SingleEdge(Fn(f));
    ProductPlace(pre, w, o, b, post);
  }

  lemma {:induction false} ProductThenProduct(pre: seq<Token<Tree>>, x: Tree, o1: Operator, a: Tree, o: Operator, b: Tree, post: seq<Token<Tree>>)
    requires |pre| > 0 && pre[|pre| - 1].Open? && o.Multiplicative() && o1.Multiplicative()
    ensures var ts := pre + [Val(x), Op(o1), Val(a), Op(o), Val(b)] + post;
            Ref.Value(FREE, ts).Some? ==>
              TreeEdge(Ref.Value(FREE, ts).value, Span(pre + [Val(x), Op(o1)]) + Width(a)) == At(Span(pre + [Val(x), Op(o1)]) - Width(x) - 1)
  {
    var ts := pre + [Val(x), Op(o1), Val(a), Op(o), Val(b)] + post;
    var w := Node(o1, x, a);
    var tail := [Op(o), Val(b)] + post;
    assert ts == pre + [Val(x), Op(o1), Val(a)] + tail;
    Ref.ProductValue(FREE, pre, x, o1, a, tail);
    assert pre + [Val(w)] + tail == pre + [Val(w), Op(o), Val(b)] + post;
    SpanTwo(pre, x, o1);
    ProductPlace(pre, w, o, b, post);
  }

  lemma {:induction false} SpanTwo(pre: seq<Token<Tree>>, x: Tree, o: Operator)
    ensures Span(pre + [Val(x), Op(o)]) == Span(pre) + Width(x) + 1
  {
    assert pre + [Val(x), Op(o)] == pre + [Val(x)] + [Op(o)];
    EdgeConcat(pre + [Val(x)], [Op(o)]);
    EdgeConcat(pre, [Val(x)]);
    SingleEdge(Op(o));
    SingleEdge(Val(x));
  }

  /** Where the reference value puts a product at the start of a group. */
  lemma {:induction false} ProductPlace(pre: seq<Token<Tree>>, w: Tree, o: Operator, b: Tree, post: seq<Token<Tree>>)
    requires |pre| > 0 && pre[|pre| - 1].Open? && o.Multiplicative()
    ensures var ts := pre + [Val(w), Op(o), Val(b)] + post;
            Ref.Value(FREE, ts).Some? ==> TreeEdge(Ref.Value(FREE, ts).value, Span(pre) + Width(w)) == At(Span(pre))
  {
    Ref.ProductValue(FREE, pre, w, o, b, post);
    ExecutedPlace(pre, w, o, b, post);
    var vs := pre + [Val(Node(o, w, b))] + post;
    if Ref.Value(FREE, vs).Some? { FinalPlace(vs, Span(pre) + Width(w)); }
  }

  lemma {:induction false} FinalPlace(ts: seq<Token<Tree>>, p: int)
    requires Edge(ts, p).At? && Ref.Value(FREE, ts).Some? && p >= 0
    ensures TreeEdge(Ref.Value(FREE, ts).value, p) == Edge(ts, p)
  {
    ValueKeeps(ts);
    SingleEdge(Val(Ref.Value(FREE, ts).value));
  }

  // ----- main result

  lemma {:induction false} WrongForGood(ts: seq<Token<Tree>>)
    requires Accepted(ts) && |ts| > 1 && !PassInTurn(ts)
    ensures Loop(FREE, ts).Ends? && |Loop(FREE, ts).ts| == 1 && Loop(FREE, ts).ts[0].Val?
    ensures Ref.Value(FREE, ts) != Some(Loop(FREE, ts).ts[0].v)
  {
    LoopEnds(FREE, ts);
    var s := StripFrom(ts, 0);
    StripKeeps(FREE, ts, 0);
    PickSurroundings(s);
    var k := Pick(s);
    var p := OutOfTurnIsWrong(s, k);
    var s' := Execute(FREE, s, k);
    assert Pass(FREE, ts) == s';
    PassShortens(FREE, ts);
    LoopKeepsEdges(s');
    LoopEnds(FREE, s');
    var r := Loop(FREE, s').ts;
    assert r == [r[0]];
    SingleEdge(r[0]);
  }

  lemma {:induction false} LoopExact(ts: seq<Token<Tree>>)
    requires Accepted(ts)
    ensures Loop(FREE, ts).Ends? && |Loop(FREE, ts).ts| == 1 && Loop(FREE, ts).ts[0].Val?
    ensures Ordered(ts) <==> Ref.Value(FREE, ts) == Some(Loop(FREE, ts).ts[0].v)
    decreases |ts|
  {
    LoopEnds(FREE, ts);
    if Ordered(ts) {
      LoopComputesValue(FREE, ts);
    } else if |ts| <= 1 {
      assert ts == [ts[0]];
      forall d: int ensures !SpoiledAt(d, ts) { WatchThree(d, UNREAD, ts[0], ts[0], ts[0]); }
    } else if PassInTurn(ts) {
      PassShortens(FREE, ts);
      PassKeeps(FREE, ts);
      var d: int :| d >= 1 && SpoiledAt(d, ts);
      assert SpoiledAt(d, Pass(FREE, ts));
      LoopExact(Pass(FREE, ts));
    } else {
      WrongForGood(ts);
    }
  }

  /** Main result: for every expression without doubled groups the loop ends in one operand; it is the
      value of the expression if and only if no depth of the word list is spoiled. */
  lemma {:induction false} ReductionExact(e: Expr<Tree>)
    requires WellFormed(e) && NoDoubled(e)
    ensures Loop(FREE, Print(e)).Ends? && |Loop(FREE, Print(e)).ts| == 1 && Loop(FREE, Print(e)).ts[0].Val?
    ensures Loop(FREE, Print(e)).ts[0].v == Eval(FREE, e) <==> Ordered(Print(e))
  {
    PrintAccepted(e);
    Ref.ValueOfPrint(FREE, e);
    LoopExact(Print(e));
  }
}
