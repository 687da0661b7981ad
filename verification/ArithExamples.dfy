/** Inputs on which the reduction loop departs from the value of the expression. */
module ArithExamples {
  import opened ArithSyntax
  import opened ArithPass
  import opened ArithShape
  import opened ArithExact
  import opened ArithInterpreter

  // ----- computing with short lists

  lemma {:induction false} StripNothing<V>(ts: seq<Token<V>>, i: nat)
    requires Stripped(ts)
    ensures StripFrom(ts, i) == ts
    decreases |ts| - i
  {
    if i + 2 < |ts| { StripNothing(ts, i + 1); }
  }

  /** Inside a group that starts a list, the first operation found is recorded with priority 0. */
  lemma {:induction false} FirstInGroup<V>(ts: seq<Token<V>>, k: nat)
    requires 0 < k < |ts| && ts[0].Open? && ts[k].Acts()
    requires forall i :: 0 < i < k ==> !ts[i].Open? && !ts[i].Close? && !ts[i].Acts()
    ensures Level(ts, k) == 1 && Scan(ts, k + 1) == Choice(1, 0, k)
  {
    assert Level(ts, 0) == 0 && Level(ts, 1) == 1;
    FlatLevel(ts, 1, k);
    QuietScan(ts, 0, k);
  }

  /** The braces around one word go. */
  lemma {:induction false} UnwrapSingle<V>(alg: Algebra<V>, v: V)
    ensures Pass(alg, [Open, Val(v), Close]) == [Val(v)]
  {
    var us, vs := [Open, Val(v), Close], [Val(v)];
    assert Unwrap(us, 0) == vs;
    assert StripFrom(us, 0) == StripFrom(vs, 1) == vs;
    QuietScan(vs, 0, 1);
  }

  /** A group that holds one operation. */
  lemma {:induction false} LastInGroup(ts: seq<Token<Tree>>, k: nat, v: Tree)
    requires Stripped(ts) && 0 < k < |ts| && ts[0].Open? && ts[k].Acts()
    requires forall i :: 0 < i < |ts| - 1 ==> !ts[i].Open? && !ts[i].Close? && (i != k ==> !ts[i].Acts())
    requires ts[|ts| - 1].Close? && Execute(FREE, ts, k) == [Open, Val(v), Close] && |ts| > 3
    ensures Loop(FREE, ts) == Ends([Val(v)])
  {
    FirstInGroup(ts, k);
    QuietScan(ts, k + 1, |ts|);
    StripNothing(ts, 0);
    var us := [Open, Val(v), Close];
    UnwrapSingle(FREE, v);
    assert Pass(FREE, ts) == us;
    assert Loop(FREE, us) == Loop(FREE, [Val(v)]);
  }

  /** The simplest expression, at each level of the grammar. */
  lemma {:induction false} LeafFacts<V>(alg: Algebra<V>, v: V)
    ensures WellFormedAtom(Leaf(v)) && NoDoubledAtom(Leaf(v)) && PrintAtom(Leaf(v)) == [Val(v)] && EvalAtom(alg, Leaf(v)) == v
    ensures var t := Unit(Leaf(v)); WellFormedTerm(t) && NoDoubledTerm(t) && PrintTerm(t) == [Val(v)] && EvalTerm(alg, t) == v
    ensures var e := Single(Unit(Leaf(v))); WellFormed(e) && NoDoubled(e) && Print(e) == [Val(v)] && Eval(alg, e) == v
  {
    var a := Leaf(v);
    assert WellFormedAtom(a) && NoDoubledAtom(a) && PrintAtom(a) == [Val(v)] && EvalAtom(alg, a) == v;
    var t := Unit(a);
    assert WellFormedTerm(t) && NoDoubledTerm(t) && PrintTerm(t) == [Val(v)] && EvalTerm(alg, t) == v;
  }

  /** A product at the start of an expression. */
  lemma {:induction false} ProductFacts<V>(alg: Algebra<V>, p: Term<V>, o: Operator, v: V)
    requires WellFormedTerm(p) && NoDoubledTerm(p) && o.Multiplicative()
    ensures var t := Product(p, o, Leaf(v));
            && WellFormedTerm(t) && NoDoubledTerm(t) && PrintTerm(t) == PrintTerm(p) + [Op(o)] + [Val(v)]
            && EvalTerm(alg, t) == alg.binary(o, EvalTerm(alg, p), v)
    ensures var e := Single(Product(p, o, Leaf(v)));
            && WellFormed(e) && NoDoubled(e) && !IsGroup(e) && Print(e) == PrintTerm(p) + [Op(o)] + [Val(v)]
            && Eval(alg, e) == alg.binary(o, EvalTerm(alg, p), v)
  {
    LeafFacts(alg, v);
    var t := Product(p, o, Leaf(v));
    assert WellFormedTerm(t) && NoDoubledTerm(t) && PrintTerm(t) == PrintTerm(p) + [Op(o)] + [Val(v)];
  }

  /** A group around an expression. */
  lemma {:induction false} GroupFacts<V>(alg: Algebra<V>, e: Expr<V>)
    requires WellFormed(e)
    ensures var t := Unit(Group(e));
            && WellFormedTerm(t) && (NoDoubledTerm(t) <==> !IsGroup(e) && NoDoubled(e))
            && PrintTerm(t) == [Open] + Print(e) + [Close] && EvalTerm(alg, t) == Eval(alg, e)
    ensures var g := Single(Unit(Group(e)));
            && WellFormed(g) && (NoDoubled(g) <==> !IsGroup(e) && NoDoubled(e)) && IsGroup(g)
            && Print(g) == [Open] + Print(e) + [Close] && Eval(alg, g) == Eval(alg, e)
  {
    var a := Group(e);
    assert WellFormedAtom(a) && (NoDoubledAtom(a) <==> !IsGroup(e) && NoDoubled(e)) && EvalAtom(alg, a) == Eval(alg, e);
    assert PrintAtom(a) == [Open] + Print(e) + [Close];
    var t := Unit(a);
    assert WellFormedTerm(t) && (NoDoubledTerm(t) <==> !IsGroup(e) && NoDoubled(e)) && EvalTerm(alg, t) == Eval(alg, e);
    assert PrintTerm(t) == [Open] + Print(e) + [Close];
  }

  // ----- the examples

  /** `(a/b/c)` is computed as a/(b/c). */
  lemma {:induction false} ChainedDivision(a: Tree, b: Tree, c: Tree)
    ensures var e := Single(Unit(Group(Single(Product(Product(Unit(Leaf(a)), Divide, Leaf(b)), Divide, Leaf(c))))));
            && WellFormed(e) && NoDoubled(e)
            && Loop(FREE, Print(e)) == Ends([Val(Node(Divide, a, Node(Divide, b, c)))])
            && Eval(FREE, e) == Node(Divide, Node(Divide, a, b), c)
  {
    var ab := Product(Unit(Leaf(a)), Divide, Leaf(b));
    var abc := Single(Product(ab, Divide, Leaf(c)));
    var e := Single(Unit(Group(abc)));
    LeafFacts(FREE, a);
    ProductFacts(FREE, Unit(Leaf(a)), Divide, b);
    ProductFacts(FREE, ab, Divide, c);
    GroupFacts(FREE, abc);
    assert Print(abc) == [Val(a), Op(Divide), Val(b), Op(Divide), Val(c)];
    var ts := [Open, Val(a), Op(Divide), Val(b), Op(Divide), Val(c), Close];
    assert Print(e) == ts;
    FirstInGroup(ts, 2);
    FlatLevel(ts, 1, 4);
    assert Level(ts, 1) == 1;
    QuietScan(ts, 3, 4);
    assert Scan(ts, 5) == Choice(1, 1, 4);
    QuietScan(ts, 5, 7);
    StripNothing(ts, 0);
    var us := [Open, Val(a), Op(Divide), Val(Node(Divide, b, c)), Close];
    assert Pass(FREE, ts) == us;
    LastInGroup(us, 2, Node(Divide, a, Node(Divide, b, c)));
  }

  /** `(f(a)*b)` is computed as f(a*b). */
  lemma {:induction false} FunctionTakesProduct(f: string, a: Tree, b: Tree)
    ensures var e := Single(Unit(Group(Single(Product(Unit(Call(f, Single(Unit(Leaf(a))))), Times, Leaf(b))))));
            && WellFormed(e) && NoDoubled(e)
            && Loop(FREE, Print(e)) == Ends([Val(Apply(f, Node(Times, a, b)))])
            && Eval(FREE, e) == Node(Times, Apply(f, a), b)
  {
    var la := Single(Unit(Leaf(a)));
    var fa := Unit(Call(f, la));
    var fab := Single(Product(fa, Times, Leaf(b)));
    var e := Single(Unit(Group(fab)));
    LeafFacts(FREE, a);
    var ca := Call(f, la);
    assert WellFormedAtom(ca) && NoDoubledAtom(ca) && PrintAtom(ca) == [Fn(f), Open, Val(a), Close];
    assert EvalAtom(FREE, ca) == Apply(f, a);
    assert WellFormedTerm(fa) && NoDoubledTerm(fa) && PrintTerm(fa) == [Fn(f), Open, Val(a), Close];
    assert EvalTerm(FREE, fa) == Apply(f, a);
    ProductFacts(FREE, fa, Times, b);
    GroupFacts(FREE, fab);
    assert Print(fab) == [Fn(f), Open, Val(a), Close, Op(Times), Val(b)];
    assert Print(e) == [Open, Fn(f), Open, Val(a), Close, Op(Times), Val(b), Close];
    FunctionRun(f, a, b);
  }

  lemma {:induction false} FunctionRun(f: string, a: Tree, b: Tree)
    ensures Loop(FREE, [Open, Fn(f), Open, Val(a), Close, Op(Times), Val(b), Close]) == Ends([Val(Apply(f, Node(Times, a, b)))])
  {
    var ts := [Open, Fn(f), Open, Val(a), Close, Op(Times), Val(b), Close];
    var s := [Open, Fn(f), Val(a), Op(Times), Val(b), Close];
    assert Unwrap(ts, 2) == s;
    assert StripFrom(ts, 0) == StripFrom(ts, 1) == StripFrom(ts, 2);
    assert StripFrom(ts, 2) == StripFrom(s, 3);
    StripNothing(s, 3);
    FirstInGroup(s, 1);
    FlatLevel(s, 1, 3);
    QuietScan(s, 2, 3);
    assert Scan(s, 4) == Choice(1, 1, 3);
    QuietScan(s, 4, 6);
    var us := [Open, Fn(f), Val(Node(Times, a, b)), Close];
    assert Pass(FREE, ts) == us;
    LastInGroup(us, 1, Apply(f, Node(Times, a, b)));
  }

  /** `((a))*b`, a doubled group: the first pass multiplies a parenthesis, and the loop never ends. */
  lemma {:induction false} DoubledGroupNeverEnds<V>(alg: Algebra<V>, a: V, b: V)
    ensures var e := Single(Product(Unit(Group(Single(Unit(Group(Single(Unit(Leaf(a)))))))), Times, Leaf(b)));
            WellFormed(e) && !NoDoubled(e) && Loop(alg, Print(e)) == Diverges
  {
    var la := Single(Unit(Leaf(a)));
    var ga := Single(Unit(Group(la)));
    var gga := Unit(Group(ga));
    var e := Single(Product(gga, Times, Leaf(b)));
    LeafFacts(alg, a);
    LeafFacts(alg, b);
    GroupFacts(alg, la);
    GroupFacts(alg, ga);
    var t := Product(gga, Times, Leaf(b));
    assert WellFormedTerm(t) && !NoDoubledTerm(t) && PrintTerm(t) == PrintTerm(gga) + [Op(Times)] + [Val(b)];
    var ts := [Open, Open, Val(a), Close, Close, Op(Times), Val(b)];
    assert Print(e) == ts;
    var s := [Open, Val(a), Close, Op(Times), Val(b)];
    assert Unwrap(ts, 1) == s;
    assert StripFrom(ts, 0) == StripFrom(ts, 1);
    assert StripFrom(ts, 1) == StripFrom(s, 2) == s;
    assert Level(s, 1) == 1;
    FlatLevel(s, 1, 2);
    assert Level(s, 3) == 0;
    QuietScan(s, 0, 3);
    assert Scan(s, 4) == Choice(0, 1, 3);
    QuietScan(s, 4, 5);
    var us := [Open, Val(a), Undefined];
    assert Pass(alg, ts) == us;
    StripNothing(us, 0);
    QuietScan(us, 0, 3);
    assert Pass(alg, us) == us;
  }

  /** `((a))*(b+c)` ends all the same: the sum is executed first, and the next pass removes the braces left. */
  lemma {:induction false} DoubledGroupMayEnd<V>(alg: Algebra<V>, a: V, b: V, c: V)
    ensures Loop(alg, [Open, Open, Val(a), Close, Close, Op(Times), Open, Val(b), Op(Plus), Val(c), Close]) ==
            Ends([Val(alg.binary(Times, a, alg.binary(Plus, b, c)))])
  {
    var ts := [Open, Open, Val(a), Close, Close, Op(Times), Open, Val(b), Op(Plus), Val(c), Close];
    var s := [Open, Val(a), Close, Op(Times), Open, Val(b), Op(Plus), Val(c), Close];
    assert Unwrap(ts, 1) == s;
    assert StripFrom(ts, 0) == StripFrom(ts, 1) == StripFrom(s, 2);
    SumFirst(alg, a, b, c);
    var v := alg.binary(Plus, b, c);
    assert Pass(alg, ts) == [Open, Val(a), Close, Op(Times), Open, Val(v), Close];
    SingleGroups(alg, a, v);
  }

  /** In `(a)*(b+c)` no braces are removed behind the first group, and the sum is chosen. */
  lemma {:induction false} SumFirst<V>(alg: Algebra<V>, a: V, b: V, c: V)
    ensures var s := [Open, Val(a), Close, Op(Times), Open, Val(b), Op(Plus), Val(c), Close];
            && StripFrom(s, 2) == s && Pick(s) == 6
            && Execute(alg, s, 6) == [Open, Val(a), Close, Op(Times), Open, Val(alg.binary(Plus, b, c)), Close]
  {
    var s := [Open, Val(a), Close, Op(Times), Open, Val(b), Op(Plus), Val(c), Close];
    assert StripFrom(s, 2) == StripFrom(s, 3) == StripFrom(s, 4) == StripFrom(s, 5) == StripFrom(s, 6) == StripFrom(s, 7) == s;
    assert Level(s, 1) == 1;
    FlatLevel(s, 1, 2);
    assert Level(s, 3) == 0 && Level(s, 4) == 0 && Level(s, 5) == 1;
    FlatLevel(s, 5, 6);
    QuietScan(s, 0, 3);
    assert Scan(s, 4) == Choice(0, 1, 3);
    QuietScan(s, 4, 6);
    assert Scan(s, 7) == Choice(1, 0, 6);
    QuietScan(s, 7, 9);
  }

  lemma {:induction false} SingleGroups<V>(alg: Algebra<V>, a: V, v: V)
    ensures Loop(alg, [Open, Val(a), Close, Op(Times), Open, Val(v), Close]) == Ends([Val(alg.binary(Times, a, v))])
  {
    var us := [Open, Val(a), Close, Op(Times), Open, Val(v), Close];
    var vs, ws := [Val(a), Op(Times), Open, Val(v), Close], [Val(a), Op(Times), Val(v)];
    assert Unwrap(us, 0) == vs && Unwrap(vs, 2) == ws;
    assert StripFrom(us, 0) == StripFrom(vs, 1) == StripFrom(vs, 2) == StripFrom(ws, 3) == ws;
    FlatLevel(ws, 0, 1);
    QuietScan(ws, 0, 1);
    assert Scan(ws, 2) == Choice(0, 1, 1);
    QuietScan(ws, 2, 3);
    assert Pass(alg, us) == [Val(alg.binary(Times, a, v))];
  }

  /** A function word that comes before every parenthesis is chosen whatever follows it outside parentheses.
      The selection treats functions of several arguments the same. */
  lemma {:induction false} LeadingFunctionIsChosen<V>(ts: seq<Token<V>>, n: nat)
    requires 0 < n <= |ts| && ts[0].Fn? && forall i :: 0 <= i < |ts| ==> !ts[i].Open? && !ts[i].Close?
    ensures Scan(ts, n) == Choice(0, 2, 0)
  {
    if n > 1 {
      LeadingFunctionIsChosen(ts, n - 1);
      FlatLevel(ts, 0, n - 1);
    } else {
      assert Scan(ts, 0) == Choice(0, -1, -1);
    }
  }
}
