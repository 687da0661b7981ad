/** The reduction loop computes the reference value of every expression whose depths are ordered. */
module ArithTheorem {
  import opened ArithSyntax
  import opened ArithPass
  import opened ArithShape
  import opened ArithOrder
  import opened Wrappers
  import Ref = ArithReference

  // ----- brace removal

  /** An opening parenthesis two words before a closing one encloses an operand. */
  lemma {:induction false} WrappedOperand<V>(ts: seq<Token<V>>, i: nat)
    requires Accepted(ts) && i + 2 < |ts| && ts[i].Open? && ts[i + 2].Close?
    ensures ts[i + 1].Val?
    ensures ts == ts[..i] + [Open, Val(ts[i + 1].v), Close] + ts[i + 3..]
    ensures Unwrap(ts, i) == ts[..i] + [Val(ts[i + 1].v)] + ts[i + 3..]
  {
    Neighbours(ts, i);
    Neighbours(ts, i + 1);
  }

  /** The words before i enclose nothing. */
  ghost predicate StrippedBefore<V>(ts: seq<Token<V>>, i: nat) {
    forall j :: 0 <= j < i && j < |ts| - 2 && ts[j].Open? ==> !ts[j + 2].Close?
  }

  lemma {:induction false} UnwrapKeepsStripped<V>(ts: seq<Token<V>>, i: nat)
    requires Accepted(ts) && i + 2 < |ts| && ts[i].Open? && ts[i + 2].Close? && StrippedBefore(ts, i)
    ensures Accepted(Unwrap(ts, i)) && StrippedBefore(Unwrap(ts, i), i + 1)
  {
    WrappedOperand(ts, i);
    ReplaceWrapped(ts[..i], ts[i + 1].v, ts[i + 3..]);
    var us := Unwrap(ts, i);
    forall j | 0 <= j < i + 1 && j < |us| - 2 && us[j].Open? ensures !us[j + 2].Close? {
      if j == i - 1 {
        assert ts[..i][|ts[..i]| - 1] == us[j] && ts[i + 3..][0] == us[j + 2];
      } else if j < i - 2 {
        assert us[j] == ts[j] && us[j + 2] == ts[j + 2];
      }
    }
  }

  /** One scan removes every brace around a single operand, and changes neither the value nor the order. */
  lemma {:induction false} StripKeeps<V>(alg: Algebra<V>, ts: seq<Token<V>>, i: nat)
    requires Accepted(ts) && StrippedBefore(ts, i)
    ensures var s := StripFrom(ts, i);
            && Accepted(s) && Stripped(s)
            && Ref.Value(alg, s) == Ref.Value(alg, ts)
            && (forall d: int :: SpoiledAt(d, s) == SpoiledAt(d, ts))
    decreases |ts| - i
  {
    if i + 2 < |ts| {
      if ts[i].Open? && ts[i + 2].Close? {
        UnwrapKeepsStripped(ts, i);
        WrappedOperand(ts, i);
        Ref.UnwrapValue(alg, ts[..i], ts[i + 1].v, ts[i + 3..]);
        forall d: int ensures SpoiledAt(d, Unwrap(ts, i)) == SpoiledAt(d, ts) {
          UnwrapKeepsMark(d, ts[..i], ts[i + 1].v, ts[i + 3..]);
        }
        StripKeeps(alg, Unwrap(ts, i), i + 1);
      } else {
        StripKeeps(alg, ts, i + 1);
      }
    }
  }

  // ----- one operation

  lemma {:induction false} ExecuteSplits<V>(alg: Algebra<V>, ts: seq<Token<V>>, k: nat)
    requires Accepted(ts) && Stripped(ts) && Pick(ts) == k
    ensures k + 1 < |ts| && ts[k].Acts() && ts[k + 1].Val?
    ensures ts[k].Op? ==> Between(ts, k)
    ensures ts[k].Op? ==>
              && ts == ts[..k - 1] + [Val(ts[k - 1].v), Op(ts[k].o), Val(ts[k + 1].v)] + ts[k + 2..]
              && Execute(alg, ts, k) == ts[..k - 1] + [Val(alg.binary(ts[k].o, ts[k - 1].v, ts[k + 1].v))] + ts[k + 2..]
    ensures ts[k].Fn? ==>
              && ts == ts[..k] + [Fn(ts[k].f), Val(ts[k + 1].v)] + ts[k + 2..]
              && Execute(alg, ts, k) == ts[..k] + [Val(alg.unary(ts[k].f, ts[k + 1].v))] + ts[k + 2..]
  {
    PickSurroundings(ts);
  }

  /** Any executed operation leaves a shorter accepted list. */
  lemma {:induction false} ExecuteKeepsShape<V>(alg: Algebra<V>, ts: seq<Token<V>>, k: nat)
    requires Accepted(ts) && Stripped(ts) && Pick(ts) == k
    ensures k < |ts| && ts[k].Acts() && Accepted(Execute(alg, ts, k)) && |Execute(alg, ts, k)| < |ts|
  {
    ExecuteSplits(alg, ts, k);
    if ts[k].Op? {
      ReplaceBinary(ts[..k - 1], ts[k - 1].v, ts[k].o, ts[k + 1].v, alg.binary(ts[k].o, ts[k - 1].v, ts[k + 1].v), ts[k + 2..]);
    } else {
      ReplaceUnary(ts[..k], ts[k].f, ts[k + 1].v, alg.unary(ts[k].f, ts[k + 1].v), ts[k + 2..]);
    }
  }

  /** The chosen sum is the first operation of its depth and no product follows its operands. */
  lemma {:induction false} SumSurroundings<V>(ts: seq<Token<V>>, k: nat)
    requires Accepted(ts) && Stripped(ts) && Pick(ts) == k && Between(ts, k) && !ts[k].o.Multiplicative()
    ensures k >= 2 ==> ts[k - 2].Open?
    ensures k + 2 < |ts| ==> !(ts[k + 2].Op? && ts[k + 2].o.Multiplicative())
  {
    if k >= 2 {
      Neighbours(ts, k - 2);
      assert Level(ts, k - 1) == Level(ts, k);
      if ts[k - 2].Acts() { LighterBefore(ts, k, k - 2); }
    }
    if k + 2 < |ts| && ts[k + 2].Op? {
      assert Level(ts, k + 2) == Level(ts, k + 1) == Level(ts, k);
      NoHeavierAfter(ts, k, k + 2);
    }
  }

  lemma {:induction false} ExecuteKeepsValue<V>(alg: Algebra<V>, ts: seq<Token<V>>, k: nat)
    requires Accepted(ts) && Stripped(ts) && Pick(ts) == k
    requires k < |ts| && InTurn(ts, k)
    ensures ts[k].Acts() && Ref.Value(alg, Execute(alg, ts, k)) == Ref.Value(alg, ts)
  {
    ExecuteSplits(alg, ts, k);
    if ts[k].Fn? {
      if k > 0 { Neighbours(ts, k - 1); }
      Ref.CallValue(alg, ts[..k], ts[k].f, ts[k + 1].v, ts[k + 2..]);
    } else {
      if k >= 2 { Neighbours(ts, k - 2); }
      if ts[k].o.Multiplicative() {
        Ref.ProductValue(alg, ts[..k - 1], ts[k - 1].v, ts[k].o, ts[k + 1].v, ts[k + 2..]);
      } else {
        SumSurroundings(ts, k);
        Ref.SumValue(alg, ts[..k - 1], ts[k - 1].v, ts[k].o, ts[k + 1].v, ts[k + 2..]);
      }
    }
  }

  lemma {:induction false} ExecuteKeepsMarks<V>(alg: Algebra<V>, ts: seq<Token<V>>, k: nat)
    requires Accepted(ts) && Stripped(ts) && Pick(ts) == k
    requires k < |ts| && InTurn(ts, k)
    ensures ts[k].Acts() && forall d: int :: d >= 1 ==> SpoiledAt(d, Execute(alg, ts, k)) == SpoiledAt(d, ts)
  {
    ExecuteSplits(alg, ts, k);
    forall d: int | d >= 1 ensures SpoiledAt(d, Execute(alg, ts, k)) == SpoiledAt(d, ts) {
      if ts[k].Op? {
        BinaryKeepsMark(d, ts, k, alg.binary(ts[k].o, ts[k - 1].v, ts[k + 1].v));
      } else {
        UnaryKeepsMark(d, ts, k, alg.unary(ts[k].f, ts[k + 1].v));
      }
    }
  }

  /** In an ordered list every chosen operation is in turn. */
  lemma {:induction false} OrderedMeansInTurn<V>(ts: seq<Token<V>>, k: nat)
    requires Accepted(ts) && Stripped(ts) && Pick(ts) == k && Ordered(ts)
    ensures k < |ts| && InTurn(ts, k)
  {
    PickSurroundings(ts);
    if ts[k].Op? && ts[k].o.Multiplicative() && k >= 2 && Claims(ts[k - 2]) {
      OutOfTurnSpoils(ts, k);
    }
  }

  lemma {:induction false} OutOfTurnSpoils<V>(ts: seq<Token<V>>, k: nat)
    requires Accepted(ts) && Stripped(ts) && Pick(ts) == k && k < |ts| && !InTurn(ts, k)
    ensures Level(ts, k) >= 1 && SpoiledAt(Level(ts, k), ts)
  {
    PickSurroundings(ts);
    var d := Level(ts, k);
    OutOfTurnIsPrimed(ts, k);
    var pre, mid, post := ts[..k - 1], [ts[k - 1], ts[k]], ts[k + 1..];
    assert ts == pre + mid + post;
    WatchConcat(d, UNREAD, pre + mid, post);
    WatchConcat(d, UNREAD, pre, mid);
    var q := WatchRun(d, UNREAD, pre);
    WatchThree(d, q, ts[k - 1], ts[k], ts[k]);
    WatchLevel(d, ts, k - 1);
    assert Level(ts, k) == Level(ts, k - 1);
    SpoiledStays(d, WatchRun(d, q, mid), post);
  }

  lemma {:induction false} SpoiledStays<V>(d: int, q: Watch, ts: seq<Token<V>>)
    requires q.mark.Spoiled?
    ensures WatchRun(d, q, ts).mark.Spoiled?
  {
    if |ts| > 0 { SpoiledStays(d, q, ts[..|ts| - 1]); }
  }

  /** An operation out of turn follows the first operation of its depth. */
  lemma {:induction false} OutOfTurnFollowsFirst<V>(ts: seq<Token<V>>, k: nat)
    requires Accepted(ts) && Stripped(ts) && Pick(ts) == k && k < |ts| && !InTurn(ts, k)
    ensures Between(ts, k) && k >= 2 && Claims(ts[k - 2])
    ensures Level(ts, k - 2) == Level(ts, k) >= 1 && FirstAtLevel(ts, k - 2)
  {
    PickSurroundings(ts);
    assert Level(ts, k - 1) == Level(ts, k);
    LighterBefore(ts, k, k - 2);
  }

  /** The operand of the first operation of a depth comes right after an opening parenthesis. */
  lemma {:induction false} FirstAfterOpen<V>(ts: seq<Token<V>>, i: nat, j: nat)
    requires Accepted(ts) && j < |ts| && ts[j].Acts() && FirstAtLevel(ts, j) && Level(ts, j) >= 1
    requires i == j || (i + 1 == j && ts[i].Val?)
    requires ts[i].Val? || ts[i].Fn?
    ensures i > 0 && ts[i - 1].Open?
  {
    assert Level(ts, i) == Level(ts, j);
    assert Level(ts, 0) == 0;
    Neighbours(ts, i - 1);
  }

  /** What precedes an operation out of turn. */
  lemma {:induction false} OutOfTurnSurroundings<V>(ts: seq<Token<V>>, k: nat)
    requires Accepted(ts) && Stripped(ts) && Pick(ts) == k && k < |ts| && !InTurn(ts, k)
    ensures Between(ts, k) && k >= 2 && Claims(ts[k - 2])
    ensures ts[k - 2].Fn? ==> k >= 3 && ts[k - 3].Open?
    ensures ts[k - 2].Op? ==> k >= 4 && ts[k - 3].Val? && ts[k - 4].Open?
  {
    OutOfTurnFollowsFirst(ts, k);
    if ts[k - 2].Op? {
      PickChooses(ts);
      OperandOnLeft(ts, k - 2);
      FirstAfterOpen(ts, k - 3, k - 2);
    } else {
      FirstAfterOpen(ts, k - 2, k - 2);
    }
  }

  // ----- passes and the loop

  /** Every pass over a list of more than one word shortens it and leaves it well formed. */
  lemma {:induction false} PassShortens<V>(alg: Algebra<V>, ts: seq<Token<V>>)
    requires Accepted(ts) && |ts| > 1
    ensures Accepted(Pass(alg, ts)) && |Pass(alg, ts)| < |ts|
  {
    var s := StripFrom(ts, 0);
    StripKeeps(alg, ts, 0);
    StripShortens(ts, 0);
    PickSurroundings(s);
    if Pick(s) >= 0 { ExecuteKeepsShape(alg, s, Pick(s)); }
  }

  /** The operation of this pass, if any, is in turn. */
  ghost predicate PassInTurn<V>(ts: seq<Token<V>>) {
    var s := StripFrom(ts, 0);
    var k := Pick(s);
    0 <= k < |s| ==> InTurn(s, k)
  }

  lemma {:induction false} PassKeeps<V>(alg: Algebra<V>, ts: seq<Token<V>>)
    requires Accepted(ts) && PassInTurn(ts)
    ensures Ref.Value(alg, Pass(alg, ts)) == Ref.Value(alg, ts)
    ensures forall d: int :: d >= 1 ==> SpoiledAt(d, Pass(alg, ts)) == SpoiledAt(d, ts)
  {
    var s := StripFrom(ts, 0);
    StripKeeps(alg, ts, 0);
    PickSurroundings(s);
    if Pick(s) >= 0 {
      ExecuteKeepsValue(alg, s, Pick(s));
      ExecuteKeepsMarks(alg, s, Pick(s));
    }
  }

  /** The loop ends in one operand on every accepted list. */
  lemma {:induction false} LoopEnds<V>(alg: Algebra<V>, ts: seq<Token<V>>)
    requires Accepted(ts)
    ensures Loop(alg, ts).Ends? && |Loop(alg, ts).ts| == 1 && Loop(alg, ts).ts[0].Val?
    decreases |ts|
  {
    if |ts| <= 1 {
      NotEmpty(ts);
      Neighbours(ts, 0);
    } else {
      PassShortens(alg, ts);
      LoopEnds(alg, Pass(alg, ts));
    }
  }

  lemma {:induction false} LoopComputesValue<V>(alg: Algebra<V>, ts: seq<Token<V>>)
    requires Accepted(ts) && Ordered(ts)
    ensures Loop(alg, ts).Ends? && |Loop(alg, ts).ts| == 1 && Loop(alg, ts).ts[0].Val?
    ensures Ref.Value(alg, ts) == Some(Loop(alg, ts).ts[0].v)
    decreases |ts|
  {
    LoopEnds(alg, ts);
    if |ts| <= 1 {
      SingleValue(alg, ts[0].v);
      assert ts == [Val(ts[0].v)];
    } else {
      var s := StripFrom(ts, 0);
      StripKeeps(alg, ts, 0);
      PickSurroundings(s);
      if Pick(s) >= 0 { OrderedMeansInTurn(s, Pick(s)); }
      PassShortens(alg, ts);
      PassKeeps(alg, ts);
      LoopComputesValue(alg, Pass(alg, ts));
    }
  }

  lemma {:induction false} SingleValue<V>(alg: Algebra<V>, v: V)
    ensures Ref.Value(alg, [Val(v)]) == Some(v)
  {
    Ref.RunOne(alg, Some([Ref.Blank()]), Val(v));
  }

  // ----- printed expressions

  /** Reading a printed expression where an operand is wanted: b tells whether something acted in its
      group, g whether it ended with a group; both only for an expression that is one group. */
  lemma {:induction false} ExprShape<V>(s: seq<bool>, e: Expr<V>) returns (b: bool, g: bool)
    requires WellFormed(e) && NoDoubled(e)
    ensures ShapeRun(Shape(s + [false], Want), Print(e)) == Shape(s + [b], Have(g))
    ensures g && !b ==> IsGroup(e)
    decreases e, 1
  {
    match e
    case Single(t) =>
      b, g := TermShape(s, false, t);
    case Sum(e1, op, t) =>
      var b1, g1 := ExprShape(s, e1);
      ShapeSplice(Shape(s + [false], Want), Print(e1), Op(op), PrintTerm(t));
      StepTop<V>(s, b1, g1, op, "");
      b, g := TermShape(s, true, t);
  }

  lemma {:induction false} TermShape<V>(s: seq<bool>, b: bool, t: Term<V>) returns (b': bool, g: bool)
    requires WellFormedTerm(t) && NoDoubledTerm(t)
    ensures ShapeRun(Shape(s + [b], Want), PrintTerm(t)) == Shape(s + [b'], Have(g))
    ensures b ==> b'
    ensures g && !b' ==> t.Unit? && t.a.Group?
    decreases t, 1
  {
    match t
    case Unit(a) =>
      b', g := AtomShape(s, b, a);
    case Product(p, op, a) =>
      var b1, g1 := TermShape(s, b, p);
      ShapeSplice(Shape(s + [b], Want), PrintTerm(p), Op(op), PrintAtom(a));
      StepTop<V>(s, b1, g1, op, "");
      b', g := AtomShape(s, true, a);
  }

  lemma {:induction false} AtomShape<V>(s: seq<bool>, b: bool, a: Atom<V>) returns (b': bool, g: bool)
    requires WellFormedAtom(a) && NoDoubledAtom(a)
    ensures ShapeRun(Shape(s + [b], Want), PrintAtom(a)) == Shape(s + [b'], Have(g))
    ensures b ==> b'
    ensures g && !b' ==> a.Group?
    decreases a, 1
  {
    match a
    case Leaf(v) =>
      RunOne(Shape(s + [b], Want), Val(v));
      b', g := b, false;
    case Group(e) =>
      GroupShape(s + [b], Want, e);
      b', g := b, true;
    case Call(f, e) =>
      CallShape(s, b, f, e);
      b', g := true, true;
  }

  lemma {:induction false} CallShape<V>(s: seq<bool>, b: bool, f: string, e: Expr<V>)
    requires WellFormed(e) && NoDoubled(e) && !IsGroup(e)
    ensures ShapeRun(Shape(s + [b], Want), [Fn(f), Open] + Print(e) + [Close]) == Shape(s + [true], Have(true))
    decreases e, 3
  {
    var q, body := Shape(s + [b], Want), [Open] + Print(e) + [Close];
    assert [Fn(f), Open] + Print(e) + [Close] == [] + [Fn(f)] + body;
    ShapeSplice(q, [], Fn(f), body);
    StepTop<V>(s, b, false, Plus, f);
    GroupShape(s + [true], WantArgument, e);
  }

  lemma {:induction false} GroupShape<V>(s: seq<bool>, p: Phase, e: Expr<V>)
    requires WellFormed(e) && NoDoubled(e) && !IsGroup(e) && !p.Have? && |s| > 0
    ensures ShapeRun(Shape(s, p), [Open] + Print(e) + [Close]) == Shape(s, Have(true))
    decreases e, 2
  {
    ShapeConcat(Shape(s, p), [Open] + Print(e), [Close]);
    ShapeConcat(Shape(s, p), [Open], Print(e));
    RunOne(Shape(s, p), Token<V>.Open);
    var b, g := ExprShape(s, e);
    RunOne(Shape(s + [b], Have(g)), Token<V>.Close);
    StepTop<V>(s, b, g, Plus, "");
  }

  lemma {:induction false} PrintAccepted<V>(e: Expr<V>)
    requires WellFormed(e) && NoDoubled(e)
    ensures Accepted(Print(e))
  {
    var b, g := ExprShape([], e);
    assert [] + [false] == [false] && [] + [b] == [b];
  }

  /** Main result: on every expression without doubled groups the loop ends in one operand, and when
      no depth is spoiled that operand is the value of the expression, whatever the operations compute. */
  lemma {:induction false} ReductionCorrect<V>(alg: Algebra<V>, e: Expr<V>)
    requires WellFormed(e) && NoDoubled(e)
    ensures Loop(alg, Print(e)).Ends? && |Loop(alg, Print(e)).ts| == 1 && Loop(alg, Print(e)).ts[0].Val?
    ensures Ordered(Print(e)) ==> Loop(alg, Print(e)) == Ends([Val(Eval(alg, e))])
  {
    PrintAccepted(e);
    LoopEnds(alg, Print(e));
    if Ordered(Print(e)) {
      LoopComputesValue(alg, Print(e));
      Ref.ValueOfPrint(alg, e);
    }
  }
}
