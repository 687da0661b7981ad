/** The word lists the reduction loop handles, as a left-to-right acceptor, and what acceptance says
    about the words next to the chosen operation. */
module ArithShape {
  import opened ArithSyntax
  import opened ArithPass

  /** Where the acceptor stands: an operand is wanted, a function argument is wanted, or an operand
      has just been completed (`group` when it was a whole group). */
  datatype Phase = Want | WantArgument | Have(group: bool)

  /** `acted` holds one entry per open parenthesis plus one for the outside: whether an operator or
      function occurred at that level of the innermost open group. */
  datatype Shape = Shape(acted: seq<bool>, phase: Phase) | Refused

  ghost const START := Shape([false], Want)

  /** The acceptor refuses a group that consists of another group. */
  ghost function ShapeStep<V>(q: Shape, t: Token<V>): Shape {
    if q.Refused? || |q.acted| == 0 then Refused
    else
      var top := |q.acted| - 1;
      match t
      case Val(_) => if q.phase.Have? then Refused else Shape(q.acted, Have(false))
      case Open => if q.phase.Have? then Refused else Shape(q.acted + [false], Want)
      case Fn(_) => if q.phase.Want? then Shape(q.acted[top := true], WantArgument) else Refused
      case Op(_) => if q.phase.Have? then Shape(q.acted[top := true], Want) else Refused
      case Close =>
        if q.phase.Have? && top > 0 && (q.phase.group ==> q.acted[top])
        then Shape(q.acted[..top], Have(true)) else Refused
      case _ => Refused
  }

  ghost function ShapeRun<V>(q: Shape, ts: seq<Token<V>>): Shape {
    if |ts| == 0 then q
    else ShapeStep(ShapeRun(q, ts[..|ts| - 1]), ts[|ts| - 1])
  }

  ghost predicate Final(q: Shape) {
    q.Shape? && |q.acted| == 1 && q.phase.Have?
  }

  /** ts is a complete expression without doubled groups. */
  ghost predicate Accepted<V>(ts: seq<Token<V>>) {
    Final(ShapeRun(START, ts))
  }

  lemma {:induction false} ShapeConcat<V>(q: Shape, a: seq<Token<V>>, b: seq<Token<V>>)
    ensures ShapeRun(q, a + b) == ShapeRun(ShapeRun(q, a), b)
    decreases |b|
  {
    if |b| == 0 {
      assert a + b == a;
    } else {
      var b' := b[..|b| - 1];
      assert (a + b)[..|a + b| - 1] == a + b';
      ShapeConcat(q, a, b');
    }
  }

  lemma {:induction false} RunOne<V>(q: Shape, t: Token<V>)
    ensures ShapeRun(q, [t]) == ShapeStep(q, t)
  {
    assert [t][..0] == [];
  }

  lemma {:induction false} ShapeSplice<V>(q: Shape, a: seq<Token<V>>, t: Token<V>, b: seq<Token<V>>)
    ensures ShapeRun(q, a + [t] + b) == ShapeRun(ShapeStep(ShapeRun(q, a), t), b)
  {
    ShapeConcat(q, a + [t], b);
    ShapeConcat(q, a, [t]);
    RunOne(ShapeRun(q, a), t);
  }

  /** How the words act on the innermost group. */
  lemma {:induction false} StepTop<V>(s: seq<bool>, b: bool, g: bool, o: Operator, f: string)
    ensures ShapeStep(Shape(s + [b], Have(g)), Token<V>.Op(o)) == Shape(s + [true], Want)
    ensures ShapeStep(Shape(s + [b], Want), Token<V>.Fn(f)) == Shape(s + [true], WantArgument)
    ensures |s| > 0 && (g ==> b) ==> ShapeStep(Shape(s + [b], Have(g)), Token<V>.Close) == Shape(s, Have(true))
  {
    assert (s + [b])[|s| := true] == s + [true];
    assert (s + [b])[..|s|] == s;
  }

  lemma {:induction false} RefusedStays<V>(ts: seq<Token<V>>)
    ensures ShapeRun(Refused, ts) == Refused
  {
    if |ts| > 0 { RefusedStays(ts[..|ts| - 1]); }
  }

  /** The state before word i is not Refused, and it determines, and is determined by, its neighbours. */
  lemma {:induction false} PrefixLives<V>(ts: seq<Token<V>>, i: nat)
    requires Accepted(ts) && i <= |ts|
    ensures ShapeRun(START, ts[..i]).Shape?
    ensures i < |ts| ==> ShapeRun(START, ts[..i + 1]) == ShapeStep(ShapeRun(START, ts[..i]), ts[i])
  {
    assert ts[..i] + ts[i..] == ts;
    ShapeConcat(START, ts[..i], ts[i..]);
    RefusedStays(ts[i..]);
    if i < |ts| {
      assert ts[..i + 1][..i] == ts[..i];
    }
  }

  /** A word that completes an operand. */
  ghost predicate Completes<V>(t: Token<V>) {
    t.Val? || t.Close?
  }

  /** Which words may follow each other. */
  ghost predicate Adjacent<V>(a: Token<V>, b: Token<V>) {
    match a
    case Val(_) => b.Op? || b.Close?
    case Close => b.Op? || b.Close?
    case Op(_) => b.Val? || b.Open? || b.Fn?
    case Open => b.Val? || b.Open? || b.Fn?
    case Fn(_) => b.Val? || b.Open?
    case _ => false
  }

  lemma {:induction false} Neighbours<V>(ts: seq<Token<V>>, i: nat)
    requires Accepted(ts) && i < |ts|
    ensures i + 1 < |ts| ==> Adjacent(ts[i], ts[i + 1])
    ensures i == 0 ==> ts[i].Val? || ts[i].Open? || ts[i].Fn?
    ensures i == |ts| - 1 ==> Completes(ts[i])
    ensures ts[i].Val? || ts[i].Open? || ts[i].Close? || ts[i].Acts()
  {
    PrefixLives(ts, i);
    PrefixLives(ts, i + 1);
    if i + 1 < |ts| {
      PrefixLives(ts, i + 2);
    } else {
      assert ts[..i + 1] == ts;
    }
    assert ts[..0] == [];
  }

  lemma {:induction false} NotEmpty<V>(ts: seq<Token<V>>)
    requires Accepted(ts)
    ensures |ts| > 0
  {
  }

  /** No word is alone between parentheses. */
  ghost predicate Stripped<V>(ts: seq<Token<V>>) {
    forall i :: 0 <= i < |ts| - 2 && ts[i].Open? ==> !ts[i + 2].Close?
  }

  lemma {:induction false} LevelConcat<V>(a: seq<Token<V>>, b: seq<Token<V>>, n: nat)
    requires n <= |b|
    ensures Level(a + b, |a| + n) == Level(a, |a|) + Level(b, n)
  {
    if n == 0 {
      LevelPrefix(a, b, |a|);
    } else {
      LevelConcat(a, b, n - 1);
    }
  }

  lemma {:induction false} LevelPrefix<V>(a: seq<Token<V>>, b: seq<Token<V>>, n: nat)
    requires n <= |a|
    ensures Level(a + b, n) == Level(a, n)
  {
    if n > 0 { LevelPrefix(a, b, n - 1); }
  }

  /** Words that are no operations do not change the choice. */
  lemma {:induction false} QuietScan<V>(ts: seq<Token<V>>, m: nat, n: nat)
    requires m <= n <= |ts| && forall i :: m <= i < n ==> !ts[i].Acts()
    ensures Scan(ts, n) == Scan(ts, m)
  {
    if m < n { QuietScan(ts, m, n - 1); }
  }

  /** Words that are no parentheses do not change the level. */
  lemma {:induction false} FlatLevel<V>(ts: seq<Token<V>>, m: nat, n: nat)
    requires m <= n <= |ts| && forall i :: m <= i < n ==> !ts[i].Open? && !ts[i].Close?
    ensures Level(ts, n) == Level(ts, m)
  {
    if m < n { FlatLevel(ts, m, n - 1); }
  }

  /** The level counts the open parentheses of the acceptor. */
  lemma {:induction false} LevelOfShape<V>(ts: seq<Token<V>>, i: nat)
    requires Accepted(ts) && i <= |ts|
    ensures var q := ShapeRun(START, ts[..i]); q.Shape? && Level(ts, i) == |q.acted| - 1 >= 0
  {
    PrefixLives(ts, i);
    if i > 0 {
      LevelOfShape(ts, i - 1);
      PrefixLives(ts, i - 1);
    } else {
      assert ts[..0] == [];
    }
  }

  /** No operation at a level above l. */
  ghost predicate Below<V>(ts: seq<Token<V>>, l: int) {
    forall i :: 0 <= i < |ts| && ts[i].Acts() ==> Level(ts, i) <= l
  }

  /** At the deepest operation level no parenthesis opens: inside it one would find a word alone. */
  lemma {:induction false} OpensNothing<V>(ts: seq<Token<V>>, l: int, i: nat)
    requires Accepted(ts) && Stripped(ts) && Below(ts, l)
    requires i < |ts|
    ensures ts[i].Open? ==> Level(ts, i) < l
    decreases |ts| - i
  {
    if ts[i].Open? {
      Neighbours(ts, i);
      Neighbours(ts, i + 1);
      LevelOfShape(ts, i);
      LevelOfShape(ts, |ts|);
      assert ts[..|ts|] == ts;
      if i + 2 < |ts| {
        Neighbours(ts, i + 2);
      }
      OpensNothing(ts, l, i + 1);
    }
  }

  /** Nor does one close: inside it one would find a word alone. */
  lemma {:induction false} ClosesNothing<V>(ts: seq<Token<V>>, l: int, i: nat)
    requires Accepted(ts) && Stripped(ts) && Below(ts, l)
    requires i < |ts|
    ensures ts[i].Close? ==> Level(ts, i + 1) < l
    decreases i
  {
    if ts[i].Close? {
      Neighbours(ts, i);
      Neighbours(ts, 0);
      Neighbours(ts, i - 1);
      LevelOfShape(ts, i + 1);
      if i >= 2 {
        Neighbours(ts, i - 2);
      }
      ClosesNothing(ts, l, i - 1);
    }
  }

  /** The priority the scan works with: at any level but 0, the first operation met counts as 0. */
  ghost function Weight<V>(ts: seq<Token<V>>, i: nat): int
    requires i < |ts| && ts[i].Acts()
  {
    if Level(ts, i) > 0 && FirstAtLevel(ts, i) then 0 else ts[i].Priority()
  }

  ghost predicate FirstAtLevel<V>(ts: seq<Token<V>>, i: nat)
    requires i < |ts|
  {
    forall j :: 0 <= j < i && ts[j].Acts() ==> Level(ts, j) != Level(ts, i)
  }

  /** What the scan has chosen among the first n words. */
  ghost predicate Chosen<V>(ts: seq<Token<V>>, n: nat, c: Choice)
    requires n <= |ts|
  {
    && (c.index == -1 ==> c.level == 0 && c.priority == -1 && forall i :: 0 <= i < n ==> !ts[i].Acts())
    && (c.index != -1 ==>
          && 0 <= c.index < n && ts[c.index].Acts()
          && Level(ts, c.index) == c.level >= 0
          && Weight(ts, c.index) == c.priority
          && (forall i :: 0 <= i < n && ts[i].Acts() ==> Level(ts, i) <= c.level)
          && (forall i :: 0 <= i < c.index && ts[i].Acts() && Level(ts, i) == c.level ==> Weight(ts, i) < c.priority)
          && (forall i :: c.index < i < n && ts[i].Acts() && Level(ts, i) == c.level ==> Weight(ts, i) <= c.priority))
  }

  lemma {:induction false} ScanChooses<V>(ts: seq<Token<V>>, n: nat)
    requires n <= |ts|
    requires forall i :: 0 <= i < |ts| ==> Level(ts, i) >= 0
    ensures Chosen(ts, n, Scan(ts, n))
  {
    if n > 0 {
      ScanChooses(ts, n - 1);
      if ts[n - 1].Acts() { ScanStep(ts, n - 1, Scan(ts, n - 1)); }
    }
  }

  /** One more operation, at index n. */
  lemma {:induction false} ScanStep<V>(ts: seq<Token<V>>, n: nat, c: Choice)
    requires n < |ts| && ts[n].Acts() && Level(ts, n) >= 0 && Chosen(ts, n, c)
    ensures var l, p := Level(ts, n), ts[n].Priority();
            Chosen(ts, n + 1, if l > c.level then Choice(l, 0, n) else if l == c.level && p > c.priority then Choice(l, p, n) else c)
  {
    var l := Level(ts, n);
    if l > c.level {
      assert FirstAtLevel(ts, n);
    } else if l == c.level {
      if l > 0 {
        assert ts[c.index].Acts();
        assert !FirstAtLevel(ts, n);
      }
      assert Weight(ts, n) == ts[n].Priority();
    }
  }

  lemma {:induction false} PickChooses<V>(ts: seq<Token<V>>)
    requires Accepted(ts)
    ensures Chosen(ts, |ts|, Scan(ts, |ts|))
    ensures Pick(ts) >= 0 ==> Below(ts, Level(ts, Pick(ts)))
  {
    forall i | 0 <= i < |ts| ensures Level(ts, i) >= 0 { LevelOfShape(ts, i); }
    ScanChooses(ts, |ts|);
  }

  /** At the chosen level everything before the chosen operation weighs less than it ... */
  lemma {:induction false} LighterBefore<V>(ts: seq<Token<V>>, k: nat, j: nat)
    requires Accepted(ts) && Pick(ts) == k && j < k < |ts| && ts[j].Acts() && Level(ts, j) == Level(ts, k)
    ensures ts[k].Acts() && Weight(ts, j) < Weight(ts, k)
  {
    PickChooses(ts);
  }

  /** ... and nothing after it weighs more. */
  lemma {:induction false} NoHeavierAfter<V>(ts: seq<Token<V>>, k: nat, j: nat)
    requires Accepted(ts) && Pick(ts) == k && k < j < |ts| && ts[j].Acts() && Level(ts, j) == Level(ts, k)
    ensures ts[k].Acts() && ts[j].Priority() <= Weight(ts, k)
  {
    PickChooses(ts);
    assert !FirstAtLevel(ts, j);
  }

  /** An operator at the deepest level has an operand on its left ... */
  lemma {:induction false} OperandOnLeft<V>(ts: seq<Token<V>>, k: nat)
    requires Accepted(ts) && Stripped(ts)
    requires k < |ts| && ts[k].Op? && Below(ts, Level(ts, k))
    ensures k > 0 && ts[k - 1].Val?
  {
    Neighbours(ts, k);
    Neighbours(ts, k - 1);
    ClosesNothing(ts, Level(ts, k), k - 1);
  }

  /** ... and any operation there has an operand, or a function, on its right. */
  lemma {:induction false} OperandOnRight<V>(ts: seq<Token<V>>, k: nat)
    requires Accepted(ts) && Stripped(ts)
    requires k < |ts| && ts[k].Acts() && Below(ts, Level(ts, k))
    ensures k + 1 < |ts| && (ts[k + 1].Val? || (ts[k].Op? && ts[k + 1].Fn?))
  {
    Neighbours(ts, k);
    Neighbours(ts, k + 1);
    OpensNothing(ts, Level(ts, k), k + 1);
  }

  /** An operator is not chosen while its right operand is still a function call. */
  lemma {:induction false} ArgumentsFirst<V>(ts: seq<Token<V>>, k: nat)
    requires Accepted(ts) && Pick(ts) == k && k + 1 < |ts| && ts[k].Acts()
    ensures ts[k].Op? ==> !ts[k + 1].Fn?
  {
    if ts[k].Op? && ts[k + 1].Fn? { NoHeavierAfter(ts, k, k + 1); }
  }

  /** The chosen operation of a stripped, accepted list stands between operands. */
  lemma {:induction false} PickSurroundings<V>(ts: seq<Token<V>>)
    requires Accepted(ts) && Stripped(ts)
    ensures var k := Pick(ts); -1 <= k < |ts|
    ensures var k := Pick(ts); k == -1 ==> |ts| == 1 && ts[0].Val?
    ensures var k := Pick(ts); k >= 0 ==> ts[k].Acts() && k + 1 < |ts| && ts[k + 1].Val?
    ensures var k := Pick(ts); k >= 0 && ts[k].Op? ==> k > 0 && ts[k - 1].Val?
  {
    PickChooses(ts);
    var k := Pick(ts);
    if k == -1 {
      NoOperationLeft(ts);
    } else {
      OperandOnRight(ts, k);
      ArgumentsFirst(ts, k);
      if ts[k].Op? {
        OperandOnLeft(ts, k);
      }
    }
  }

  lemma {:induction false} NoOperationLeft<V>(ts: seq<Token<V>>)
    requires Accepted(ts) && Stripped(ts)
    requires forall i :: 0 <= i < |ts| ==> !ts[i].Acts()
    ensures |ts| == 1 && ts[0].Val?
  {
    NotEmpty(ts);
    Neighbours(ts, 0);
    assert Below(ts, 0);
    assert ts[..0] == [];
    if ts[0].Open? { OpensNothing(ts, 0, 0); }
    if |ts| > 1 {
      Neighbours(ts, 1);
      LevelOfShape(ts, 2);
      LevelOfShape(ts, 1);
    }
  }

  /** q and q' agree up to what the innermost group has seen and up to the last operand being a group. */
  ghost predicate Alike(q: Shape, q': Shape) {
    && q.Shape? && q'.Shape? && q.phase.Have? && q'.phase == Have(false)
    && |q.acted| == |q'.acted| > 0
    && q.acted[..|q.acted| - 1] == q'.acted[..|q.acted| - 1]
  }

  lemma {:induction false} AlikeStep<V>(q: Shape, q': Shape, t: Token<V>)
    requires Alike(q, q')
    ensures ShapeStep(q, t) == Refused || ShapeStep(q', t) == ShapeStep(q, t)
  {
    if t.Op? {
      var top := |q.acted| - 1;
      assert q.acted[top := true] == q.acted[..top] + [true];
      assert q'.acted[top := true] == q'.acted[..top] + [true];
    }
  }

  /** Replacing a completed piece by one operand keeps the list accepted. */
  lemma {:induction false} SwapTail<V>(q: Shape, q': Shape, post: seq<Token<V>>)
    requires Final(ShapeRun(q, post))
    requires Alike(q, q')
    ensures Final(ShapeRun(q', post))
  {
    if |post| > 0 {
      assert post == [post[0]] + post[1..];
      ShapeConcat(q, [post[0]], post[1..]);
      ShapeConcat(q', [post[0]], post[1..]);
      RunOne(q, post[0]);
      RunOne(q', post[0]);
      RefusedStays(post[1..]);
      AlikeStep(q, q', post[0]);
    }
  }

  /** mid reads as one operand from any state that wants an operand. */
  ghost predicate ReadsAsOperand<V>(q: Shape, mid: seq<Token<V>>) {
    var r := ShapeRun(q, mid);
    r.Shape? ==> q.Shape? && !q.phase.Have? && Alike(r, Shape(q.acted, Have(false)))
  }

  lemma {:induction false} ReplaceOperand<V>(pre: seq<Token<V>>, mid: seq<Token<V>>, v: V, post: seq<Token<V>>)
    requires Accepted(pre + mid + post)
    requires ReadsAsOperand(ShapeRun(START, pre), mid)
    ensures Accepted(pre + [Val(v)] + post)
  {
    var q := ShapeRun(START, pre);
    ShapeConcat(START, pre + mid, post);
    ShapeConcat(START, pre, mid);
    var r := ShapeRun(q, mid);
    RefusedStays(post);
    ShapeConcat(START, pre + [Val(v)], post);
    ShapeConcat(START, pre, [Val(v)]);
    RunOne(q, Val(v));
    SwapTail(r, ShapeStep(q, Val(v)), post);
  }

  lemma {:induction false} RunThree<V>(q: Shape, a: Token<V>, b: Token<V>, c: Token<V>)
    ensures ShapeRun(q, [a, b, c]) == ShapeStep(ShapeStep(ShapeStep(q, a), b), c)
    ensures ShapeRun(q, [a, b]) == ShapeStep(ShapeStep(q, a), b)
  {
    assert [a, b, c][..2] == [a, b] && [a, b][..1] == [a] && [a][..0] == [];
    assert ShapeRun(q, [a]) == ShapeStep(q, a);
    assert ShapeRun(q, [a, b]) == ShapeStep(ShapeRun(q, [a]), b);
    assert ShapeRun(q, [a, b, c]) == ShapeStep(ShapeRun(q, [a, b]), c);
  }

  lemma {:induction false} ReplaceBinary<V>(pre: seq<Token<V>>, a: V, o: Operator, b: V, v: V, post: seq<Token<V>>)
    requires Accepted(pre + [Val(a), Op(o), Val(b)] + post)
    ensures Accepted(pre + [Val(v)] + post)
  {
    RunThree(ShapeRun(START, pre), Val(a), Op(o), Val(b));
    ReplaceOperand(pre, [Val(a), Op(o), Val(b)], v, post);
  }

  lemma {:induction false} ReplaceUnary<V>(pre: seq<Token<V>>, f: string, a: V, v: V, post: seq<Token<V>>)
    requires Accepted(pre + [Fn(f), Val(a)] + post)
    ensures Accepted(pre + [Val(v)] + post)
  {
    RunThree(ShapeRun(START, pre), Fn(f), Val(a), Val(a));
    ReplaceOperand(pre, [Fn(f), Val(a)], v, post);
  }

  lemma {:induction false} ReplaceWrapped<V>(pre: seq<Token<V>>, v: V, post: seq<Token<V>>)
    requires Accepted(pre + [Open, Val(v), Close] + post)
    ensures Accepted(pre + [Val(v)] + post)
    ensures !(|pre| > 0 && pre[|pre| - 1].Open? && |post| > 0 && post[0].Close?)
  {
    var q := ShapeRun(START, pre);
    RunThree(q, Open, Val(v), Close);
    ReplaceOperand(pre, [Open, Val(v), Close], v, post);
    if |pre| > 0 && pre[|pre| - 1].Open? && |post| > 0 && post[0].Close? {
      ShapeConcat(START, pre + [Open, Val(v), Close], post);
      ShapeConcat(START, pre, [Open, Val(v), Close]);
      assert post == [post[0]] + post[1..];
      ShapeConcat(ShapeRun(q, [Open, Val(v), Close]), [post[0]], post[1..]);
      assert ShapeRun(ShapeRun(q, [Open, Val(v), Close]), [post[0]]) == ShapeStep(ShapeRun(q, [Open, Val(v), Close]), post[0]);
      RefusedStays(post[1..]);
    }
  }
}
