/** When the choice of the next operation respects left associativity.
    Entering a deeper level records the first operation found there with priority 0, whatever it is.
    So at each depth the first operation is at risk: if it is `*`, `/` or a function and the next
    operator of the same group is `*` or `/`, the second one is executed before the first. */
module ArithOrder {
  import opened ArithSyntax
  import opened ArithPass
  import opened ArithShape

  /** What a reader watching depth d knows: no operation met there yet; the first one is `*`, `/` or
      a function and its group goes on; it was followed by `*` or `/`; or nothing can go wrong. */
  datatype Mark = Fresh | Primed | Spoiled | Safe

  datatype Watch = Watch(level: int, mark: Mark)

  const UNREAD := Watch(0, Fresh)

  function WatchStep<V>(d: int, q: Watch, t: Token<V>): Watch {
    match t
    case Open => q.(level := q.level + 1)
    case Close => Watch(q.level - 1, if q.mark.Primed? && q.level - 1 < d then Safe else q.mark)
    case Fn(_) => if q.level == d && q.mark.Fresh? then q.(mark := Primed) else q
    case Op(o) =>
      if q.level != d || q.mark.Spoiled? || q.mark.Safe? then q
      else if !o.Multiplicative() then q.(mark := Safe)
      else if q.mark.Fresh? then q.(mark := Primed)
      else q.(mark := Spoiled)
    case _ => q
  }

  function WatchRun<V>(d: int, q: Watch, ts: seq<Token<V>>): Watch {
    if |ts| == 0 then q
    else WatchStep(d, WatchRun(d, q, ts[..|ts| - 1]), ts[|ts| - 1])
  }

  /** At depth d the first group with an operation opens with an operation of priority 1 or 2
      followed by `*` or `/`. */
  predicate SpoiledAt<V>(d: int, ts: seq<Token<V>>) {
    WatchRun(d, UNREAD, ts).mark.Spoiled?
  }

  /** No depth is spoiled. */
  ghost predicate Ordered<V>(ts: seq<Token<V>>) {
    forall d: int :: d >= 1 ==> !SpoiledAt(d, ts)
  }

  lemma {:induction false} WatchConcat<V>(d: int, q: Watch, a: seq<Token<V>>, b: seq<Token<V>>)
    ensures WatchRun(d, q, a + b) == WatchRun(d, WatchRun(d, q, a), b)
    decreases |b|
  {
    if |b| == 0 {
      assert a + b == a;
    } else {
      var b' := b[..|b| - 1];
      assert (a + b)[..|a + b| - 1] == a + b';
      WatchConcat(d, q, a, b');
    }
  }

  lemma {:induction false} WatchThree<V>(d: int, q: Watch, a: Token<V>, b: Token<V>, c: Token<V>)
    ensures WatchRun(d, q, [a]) == WatchStep(d, q, a)
    ensures WatchRun(d, q, [a, b]) == WatchStep(d, WatchStep(d, q, a), b)
    ensures WatchRun(d, q, [a, b, c]) == WatchStep(d, WatchStep(d, WatchStep(d, q, a), b), c)
  {
    assert [a, b, c][..2] == [a, b] && [a, b][..1] == [a] && [a][..0] == [];
    assert WatchRun(d, q, [a]) == WatchStep(d, q, a);
    assert WatchRun(d, q, [a, b]) == WatchStep(d, WatchRun(d, q, [a]), b);
    assert WatchRun(d, q, [a, b, c]) == WatchStep(d, WatchRun(d, q, [a, b]), c);
  }

  lemma {:induction false} WatchLevel<V>(d: int, ts: seq<Token<V>>, n: nat)
    requires n <= |ts|
    ensures var q := WatchRun(d, UNREAD, ts[..n]); q.level == Level(ts, n) && (q.mark.Primed? ==> q.level >= d)
  {
    if n > 0 {
      WatchLevel(d, ts, n - 1);
      assert ts[..n][..n - 1] == ts[..n - 1];
    }
  }

  /** The mark is Fresh exactly as long as no operation has been read at depth d. */
  lemma {:induction false} FreshMeansNone<V>(d: int, ts: seq<Token<V>>, n: nat)
    requires n <= |ts|
    ensures WatchRun(d, UNREAD, ts[..n]).mark.Fresh? <==> forall i :: 0 <= i < n && ts[i].Acts() ==> Level(ts, i) != d
  {
    if n > 0 {
      FreshMeansNone(d, ts, n - 1);
      WatchLevel(d, ts, n - 1);
      assert ts[..n][..n - 1] == ts[..n - 1];
    }
  }

  /** If only + and - are left at depth d, nothing is spoiled any more. */
  lemma {:induction false} OnlySumsLeft<V>(d: int, q: Watch, ts: seq<Token<V>>, n: nat)
    requires n <= |ts| && !q.mark.Spoiled?
    requires forall i :: 0 <= i < n && ts[i].Acts() && q.level + Level(ts, i) == d ==> ts[i].Priority() == 0
    ensures var r := WatchRun(d, q, ts[..n]); !r.mark.Spoiled? && r.level == q.level + Level(ts, n)
  {
    if n > 0 {
      OnlySumsLeft(d, q, ts, n - 1);
      assert ts[..n][..n - 1] == ts[..n - 1];
    }
  }

  /** The chosen operation is in turn: it does not take its left operand from a waiting
      product or function. */
  ghost predicate InTurn<V>(ts: seq<Token<V>>, k: nat)
    requires k < |ts|
  {
    ts[k].Op? && ts[k].o.Multiplicative() && k >= 2 ==> !Claims(ts[k - 2])
  }

  /** A word that binds the operand after it at least as tightly as a following `*` or `/`. */
  ghost predicate Claims<V>(t: Token<V>) {
    t.Fn? || (t.Op? && t.o.Multiplicative())
  }

  /** The words around an operator standing between operands. */
  ghost predicate Between<V>(ts: seq<Token<V>>, k: nat) {
    1 <= k && k + 1 < |ts| && ts[k].Op? && ts[k - 1].Val? && ts[k + 1].Val?
  }

  /** An operation out of turn is the second at its depth, and that depth is being spoiled. */
  lemma {:induction false} OutOfTurnIsPrimed<V>(ts: seq<Token<V>>, k: nat)
    requires Accepted(ts) && Stripped(ts) && Pick(ts) == k && Between(ts, k)
    requires ts[k].o.Multiplicative()
    ensures k >= 2 && Claims(ts[k - 2]) ==> Level(ts, k) >= 1 && WatchRun(Level(ts, k), UNREAD, ts[..k - 1]).mark.Primed?
  {
    if k >= 2 && Claims(ts[k - 2]) {
      var d := Level(ts, k);
      assert Level(ts, k - 1) == d;
      LighterBefore(ts, k, k - 2);
      FreshMeansNone(d, ts, k - 2);
      WatchLevel(d, ts, k - 2);
      assert ts[..k - 1][..k - 2] == ts[..k - 2];
    }
  }

  lemma {:induction false} PrimedIsOutOfTurn<V>(ts: seq<Token<V>>, k: nat)
    requires Accepted(ts) && Stripped(ts) && Pick(ts) == k && Between(ts, k)
    requires WatchRun(Level(ts, k), UNREAD, ts[..k - 1]).mark.Primed?
    ensures k >= 2 && Claims(ts[k - 2])
  {
    var d := Level(ts, k);
    assert ts[..0] == [];
    assert k >= 2;
    assert Level(ts, k - 1) == d;
    Neighbours(ts, k - 2);
    WatchLevel(d, ts, k - 2);
    assert ts[..k - 1][..k - 2] == ts[..k - 2];
  }

  /** Executing an operation in turn leaves every depth as it was. */
  lemma {:induction false} BinaryKeepsMark<V>(d: int, ts: seq<Token<V>>, k: nat, v: V)
    requires Accepted(ts) && Stripped(ts) && Pick(ts) == k && Between(ts, k) && InTurn(ts, k) && d >= 1
    ensures SpoiledAt(d, ts[..k - 1] + [Val(v)] + ts[k + 2..]) == SpoiledAt(d, ts)
  {
    var pre, post := ts[..k - 1], ts[k + 2..];
    var mid := [ts[k - 1], ts[k], ts[k + 1]];
    assert ts == pre + mid + post;
    var q := WatchRun(d, UNREAD, pre);
    WatchConcat(d, UNREAD, pre + mid, post);
    WatchConcat(d, UNREAD, pre, mid);
    WatchConcat(d, UNREAD, pre + [Val(v)], post);
    WatchConcat(d, UNREAD, pre, [Val(v)]);
    WatchThree(d, q, ts[k - 1], ts[k], ts[k + 1]);
    WatchThree(d, q, Val(v), Val(v), Val(v));
    WatchLevel(d, ts, k - 1);
    assert Level(ts, k) == q.level;
    if q.level == d {
      if q.mark.Fresh? {
        FreshMeansNone(d, ts, k - 1);
        RestHasSums(ts, k, k + 2, post);
        OnlySumsLeft(d, WatchStep(d, q, ts[k]), post, |post|);
        OnlySumsLeft(d, q, post, |post|);
        assert post[..|post|] == post;
      } else if q.mark.Primed? {
        PrimedIsOutOfTurn(ts, k);
        assert Level(ts, k - 2) == d;
        LighterBefore(ts, k, k - 2);
      }
    }
  }

  /** When the first operation of a depth is chosen, only + and - come after it. */
  lemma {:induction false} FirstPickLeavesSums<V>(ts: seq<Token<V>>, k: nat)
    requires Accepted(ts) && k < |ts| && Pick(ts) == k && Level(ts, k) >= 1 && FirstAtLevel(ts, k) && ts[k].Acts()
    ensures forall i :: k < i < |ts| && ts[i].Acts() && Level(ts, i) == Level(ts, k) ==> ts[i].Priority() == 0
  {
    forall i | k < i < |ts| && ts[i].Acts() && Level(ts, i) == Level(ts, k) ensures ts[i].Priority() == 0 {
      NoHeavierAfter(ts, k, i);
    }
  }

  lemma {:induction false} RestHasSums<V>(ts: seq<Token<V>>, k: nat, n: nat, post: seq<Token<V>>)
    requires Accepted(ts) && k < n <= |ts| && post == ts[n..]
    requires Pick(ts) == k && Level(ts, k) >= 1 && FirstAtLevel(ts, k) && ts[k].Acts() && Level(ts, n) == Level(ts, k)
    ensures forall i :: 0 <= i < |post| && post[i].Acts() && Level(ts, k) + Level(post, i) == Level(ts, k) ==> post[i].Priority() == 0
  {
    FirstPickLeavesSums(ts, k);
    forall i | 0 <= i < |post| && post[i].Acts() && Level(ts, k) + Level(post, i) == Level(ts, k)
      ensures post[i].Priority() == 0
    {
      LevelTail(ts, n, i);
      assert ts[n + i] == post[i];
    }
  }

  lemma {:induction false} LevelTail<V>(ts: seq<Token<V>>, n: nat, i: nat)
    requires n <= |ts| && i <= |ts| - n
    ensures Level(ts, n + i) == Level(ts, n) + Level(ts[n..], i)
  {
    assert ts == ts[..n] + ts[n..];
    LevelConcat(ts[..n], ts[n..], i);
    LevelPrefix(ts[..n], ts[n..], n);
  }

  lemma {:induction false} UnaryKeepsMark<V>(d: int, ts: seq<Token<V>>, k: nat, v: V)
    requires Accepted(ts) && Stripped(ts) && Pick(ts) == k && k + 1 < |ts| && ts[k].Fn? && ts[k + 1].Val? && d >= 1
    ensures SpoiledAt(d, ts[..k] + [Val(v)] + ts[k + 2..]) == SpoiledAt(d, ts)
  {
    var pre, post := ts[..k], ts[k + 2..];
    var mid := [ts[k], ts[k + 1]];
    assert ts == pre + mid + post;
    var q := WatchRun(d, UNREAD, pre);
    WatchConcat(d, UNREAD, pre + mid, post);
    WatchConcat(d, UNREAD, pre, mid);
    WatchConcat(d, UNREAD, pre + [Val(v)], post);
    WatchConcat(d, UNREAD, pre, [Val(v)]);
    WatchThree(d, q, ts[k], ts[k + 1], ts[k + 1]);
    WatchThree(d, q, Val(v), Val(v), Val(v));
    WatchLevel(d, ts, k);
    FreshMeansNone(d, ts, k);
    if q.level == d && q.mark.Fresh? {
      RestHasSums(ts, k, k + 2, post);
      OnlySumsLeft(d, WatchStep(d, q, ts[k]), post, |post|);
      OnlySumsLeft(d, q, post, |post|);
      assert post[..|post|] == post;
    }
  }

  lemma {:induction false} UnwrapKeepsMark<V>(d: int, pre: seq<Token<V>>, v: V, post: seq<Token<V>>)
    ensures SpoiledAt(d, pre + [Open, Val(v), Close] + post) == SpoiledAt(d, pre + [Val(v)] + post)
  {
    var q := WatchRun(d, UNREAD, pre);
    WatchConcat(d, UNREAD, pre + [Open, Val(v), Close], post);
    WatchConcat(d, UNREAD, pre, [Open, Val(v), Close]);
    WatchConcat(d, UNREAD, pre + [Val(v)], post);
    WatchConcat(d, UNREAD, pre, [Val(v)]);
    WatchThree(d, q, Open, Val(v), Close);
    WatchThree(d, q, Val(v), Val(v), Val(v));
    WatchLevel(d, pre, |pre|);
    assert pre[..|pre|] == pre;
  }
}
