/** What can be counted in a word list while the reduction loop runs, for operations whose results tell what went into
    them.  A list in which a `)` has been replaced by an operator never reduces to the value it should have. */
module ArithWeights {
  import opened ArithSyntax
  import opened ArithPass
  import opened ArithShape
  import opened ArithTheorem

  // ----- sums over the words

  ghost function Total<V>(f: Token<V> -> int, ts: seq<Token<V>>): int {
    if |ts| == 0 then 0 else Total(f, ts[..|ts| - 1]) + f(ts[|ts| - 1])
  }

  lemma {:induction false} TotalOne<V>(f: Token<V> -> int, t: Token<V>)
    ensures Total(f, [t]) == f(t)
  {
    assert [t][..0] == [];
  }

  lemma {:induction false} TotalConcat<V>(f: Token<V> -> int, a: seq<Token<V>>, b: seq<Token<V>>)
    ensures Total(f, a + b) == Total(f, a) + Total(f, b)
    decreases |b|
  {
    if |b| == 0 {
      assert a + b == a;
    } else {
      var b' := b[..|b| - 1];
      assert (a + b)[..|a + b| - 1] == a + b';
      TotalConcat(f, a, b');
    }
  }

  lemma {:induction false} TotalSplice<V>(f: Token<V> -> int, a: seq<Token<V>>, t: Token<V>, b: seq<Token<V>>)
    ensures Total(f, a + [t] + b) == Total(f, a) + f(t) + Total(f, b)
  {
    TotalConcat(f, a + [t], b);
    TotalConcat(f, a, [t]);
    TotalOne(f, t);
  }

  /** A stretch of the words taken out. */
  lemma {:induction false} TotalCut<V>(f: Token<V> -> int, ts: seq<Token<V>>, i: nat, j: nat)
    requires i <= j <= |ts|
    ensures Total(f, ts) == Total(f, ts[..i]) + Total(f, ts[i..j]) + Total(f, ts[j..])
  {
    TotalConcat(f, ts[..i], ts[i..j]);
    TotalConcat(f, ts[..j], ts[j..]);
    assert ts[..i] + ts[i..j] == ts[..j] && ts[..j] + ts[j..] == ts;
  }

  lemma {:induction false} TotalTwo<V>(f: Token<V> -> int, a: Token<V>, b: Token<V>)
    ensures Total(f, [a, b]) == f(a) + f(b)
  {
    TotalOne(f, a);
    assert [a, b][..1] == [a];
  }

  lemma {:induction false} TotalThree<V>(f: Token<V> -> int, a: Token<V>, b: Token<V>, c: Token<V>)
    ensures Total(f, [a, b, c]) == f(a) + f(b) + f(c)
  {
    TotalTwo(f, a, b);
    assert [a, b, c][..2] == [a, b];
  }

  // ----- how sums change in a pass

  lemma {:induction false} StripTotal<V>(f: Token<V> -> int, ts: seq<Token<V>>, i: nat)
    requires f(Open) == 0 && f(Close) == 0
    ensures Total(f, StripFrom(ts, i)) == Total(f, ts)
    decreases |ts| - i
  {
    if i + 2 < |ts| {
      if ts[i].Open? && ts[i + 2].Close? {
        TotalCut(f, ts, i, i + 3);
        assert ts[i..i + 3] == [Open, ts[i + 1], Close];
        TotalThree(f, Open, ts[i + 1], Close);
        TotalSplice(f, ts[..i], ts[i + 1], ts[i + 3..]);
        StripTotal(f, Unwrap(ts, i), i + 1);
      } else {
        StripTotal(f, ts, i + 1);
      }
    }
  }

  /** Both operands of the operation at index k are operands. */
  predicate Fed<V>(ts: seq<Token<V>>, k: nat)
    requires k < |ts|
  {
    k + 1 < |ts| && ts[k + 1].Val? && (ts[k].Op? ==> k > 0 && ts[k - 1].Val?)
  }

  /** The word an operation leaves. */
  function Result<V>(alg: Algebra<V>, ts: seq<Token<V>>, k: nat): Token<V>
    requires k < |ts| && ts[k].Acts()
  {
    if !Fed(ts, k) then Undefined
    else if ts[k].Op? then Val(alg.binary(ts[k].o, ts[k - 1].v, ts[k + 1].v))
    else Val(alg.unary(ts[k].f, ts[k + 1].v))
  }

  /** Where the words begin that an operation replaces, and where they end. */
  function From<V>(ts: seq<Token<V>>, k: nat): nat
    requires k < |ts| && (ts[k].Op? ==> k > 0)
  {
    if ts[k].Op? then k - 1 else k
  }

  function To<V>(ts: seq<Token<V>>, k: nat): nat
    requires k < |ts|
  {
    if k + 1 < |ts| then k + 2 else k + 1
  }

  /** An operation replaces its words by its result; one that stands last leaves nothing. */
  lemma {:induction false} ExecuteIs<V>(alg: Algebra<V>, ts: seq<Token<V>>, k: nat)
    requires k < |ts| && ts[k].Acts() && (ts[k].Op? ==> k > 0)
    ensures Execute(alg, ts, k) ==
            if k + 1 < |ts| then ts[..From(ts, k)] + [Result(alg, ts, k)] + ts[k + 2..] else ts[..From(ts, k)]
  {
    if ts[k].Op? {
      assert k + 1 < |ts| ==> Shifted(ts[k - 1 := Undefined], k, 2) == ts[..k - 1] + [Undefined] + ts[k + 2..];
      assert k + 1 == |ts| ==> Shifted(ts[k - 1 := Undefined], k, 2) == ts[..k - 1];
    } else {
      assert k + 1 < |ts| ==> Shifted(ts[k := Undefined], k + 1, 1) == ts[..k] + [Undefined] + ts[k + 2..];
      assert k + 1 == |ts| ==> Shifted(ts[k := Undefined], k + 1, 1) == ts[..k];
    }
  }

  /** The sum over the words an operation replaces. */
  ghost function Spent<V>(f: Token<V> -> int, ts: seq<Token<V>>, k: nat): int
    requires k < |ts| && (ts[k].Op? ==> k > 0)
  {
    f(ts[k]) + (if ts[k].Op? then f(ts[k - 1]) else 0) + (if k + 1 < |ts| then f(ts[k + 1]) else 0)
  }

  lemma {:induction false} SpentIs<V>(f: Token<V> -> int, ts: seq<Token<V>>, k: nat)
    requires k < |ts| && (ts[k].Op? ==> k > 0)
    ensures Total(f, ts[From(ts, k)..To(ts, k)]) == Spent(f, ts, k)
  {
    var mid := ts[From(ts, k)..To(ts, k)];
    if ts[k].Op? && k + 1 < |ts| {
      assert mid == [ts[k - 1], ts[k], ts[k + 1]];
      TotalThree(f, ts[k - 1], ts[k], ts[k + 1]);
    } else if ts[k].Op? {
      assert mid == [ts[k - 1], ts[k]];
      TotalTwo(f, ts[k - 1], ts[k]);
    } else if k + 1 < |ts| {
      assert mid == [ts[k], ts[k + 1]];
      TotalTwo(f, ts[k], ts[k + 1]);
    } else {
      assert mid == [ts[k]];
      TotalOne(f, ts[k]);
    }
  }

  lemma {:induction false} ExecuteTotal<V>(f: Token<V> -> int, alg: Algebra<V>, ts: seq<Token<V>>, k: nat)
    requires k < |ts| && ts[k].Acts() && (ts[k].Op? ==> k > 0)
    ensures Total(f, Execute(alg, ts, k)) == Total(f, ts) - Spent(f, ts, k) + if k + 1 < |ts| then f(Result(alg, ts, k)) else 0
  {
    ExecuteIs(alg, ts, k);
    SpentIs(f, ts, k);
    TotalCut(f, ts, From(ts, k), To(ts, k));
    if k + 1 < |ts| {
      TotalSplice(f, ts[..From(ts, k)], Result(alg, ts, k), ts[k + 2..]);
    } else {
      assert ts[|ts|..] == [];
    }
  }

  // ----- operations whose results can be weighed

  /** A weight that counts the operands and functions that went into a value, and the number of its minus signs. */
  datatype Scales<!V> = Scales(weight: V -> nat, minuses: V -> nat)

  ghost predicate Weighs<V(!new)>(sc: Scales<V>, alg: Algebra<V>) {
    && (forall v: V :: sc.weight(v) >= 1)
    && (forall o: Operator, a: V, b: V {:trigger alg.binary(o, a, b)} ::
          && sc.weight(alg.binary(o, a, b)) == sc.weight(a) + sc.weight(b)
          && sc.minuses(alg.binary(o, a, b)) == sc.minuses(a) + sc.minuses(b) + (if o.Minus? then 1 else 0))
    && (forall f: string, a: V {:trigger alg.unary(f, a)} ::
          sc.weight(alg.unary(f, a)) == sc.weight(a) + 1 && sc.minuses(alg.unary(f, a)) == sc.minuses(a))
  }

  ghost function Weight<V>(sc: Scales<V>): Token<V> -> int {
    (t: Token<V>) => if t.Val? then sc.weight(t.v) else if t.Fn? then 1 else 0
  }

  ghost function Minuses<V>(sc: Scales<V>): Token<V> -> int {
    (t: Token<V>) => if t.Val? then sc.minuses(t.v) else if t == Op(Minus) then 1 else 0
  }

  /** Operators minus operands. */
  ghost function Excess<V>(): Token<V> -> int {
    (t: Token<V>) => if t.Op? then 1 else if t.Val? then -1 else 0
  }

  lemma {:induction false} FedKeepsTotals<V(!new)>(sc: Scales<V>, alg: Algebra<V>, ts: seq<Token<V>>, k: nat)
    requires Weighs(sc, alg) && k < |ts| && ts[k].Acts() && Fed(ts, k)
    ensures Total(Weight(sc), Execute(alg, ts, k)) == Total(Weight(sc), ts)
    ensures Total(Minuses(sc), Execute(alg, ts, k)) == Total(Minuses(sc), ts)
    ensures Total(Excess(), Execute(alg, ts, k)) == Total(Excess(), ts)
  {
    ExecuteTotal(Weight(sc), alg, ts, k);
    ExecuteTotal(Minuses(sc), alg, ts, k);
    ExecuteTotal(Excess(), alg, ts, k);
  }

  /** On an accepted list the loop ends in a value with the weight and the minus signs of the words. */
  lemma {:induction false} LoopKeepsTotals<V(!new)>(sc: Scales<V>, alg: Algebra<V>, ts: seq<Token<V>>) returns (v: V)
    requires Weighs(sc, alg) && Accepted(ts)
    ensures Loop(alg, ts) == Ends([Val(v)])
    ensures sc.weight(v) == Total(Weight(sc), ts) && sc.minuses(v) == Total(Minuses(sc), ts) && Total(Excess<V>(), ts) == -1
    decreases |ts|
  {
    NotEmpty(ts);
    if |ts| <= 1 {
      LoopEnds(alg, ts);
      v := ts[0].v;
      assert ts == [Val(v)];
      TotalOne(Weight(sc), Val(v));
      TotalOne(Minuses(sc), Val(v));
      TotalOne(Excess<V>(), Val(v));
    } else {
      PassShortens(alg, ts);
      PassKeepsTotals(sc, alg, ts);
      v := LoopKeepsTotals(sc, alg, Pass(alg, ts));
    }
  }

  lemma {:induction false} PassKeepsTotals<V(!new)>(sc: Scales<V>, alg: Algebra<V>, ts: seq<Token<V>>)
    requires Weighs(sc, alg) && Accepted(ts)
    ensures Total(Weight(sc), Pass(alg, ts)) == Total(Weight(sc), ts)
    ensures Total(Minuses(sc), Pass(alg, ts)) == Total(Minuses(sc), ts)
    ensures Total(Excess(), Pass(alg, ts)) == Total(Excess(), ts)
  {
    var s := StripFrom(ts, 0);
    StripKeeps(alg, ts, 0);
    StripTotal(Weight(sc), ts, 0);
    StripTotal(Minuses(sc), ts, 0);
    StripTotal(Excess(), ts, 0);
    PickInRange(s, |s|);
    if Pick(s) >= 0 {
      ExecuteSplits(alg, s, Pick(s));
      FedKeepsTotals(sc, alg, s, Pick(s));
    }
  }

  // ----- a list with one parenthesis too few

  /** Operators and closing parentheses follow something, but not an opening one. */
  ghost predicate Follows<V>(ts: seq<Token<V>>) {
    forall i :: 0 <= i < |ts| && (ts[i].Op? || ts[i].Close?) ==> FollowsAt(ts, i)
  }

  predicate FollowsAt<V>(ts: seq<Token<V>>, i: nat)
    requires i < |ts|
  {
    i > 0 && !ts[i - 1].Open?
  }

  lemma {:induction false} FollowsHere<V>(ts: seq<Token<V>>, i: nat)
    requires Follows(ts) && i < |ts| && (ts[i].Op? || ts[i].Close?)
    ensures i > 0 && !ts[i - 1].Open?
  {
    assert FollowsAt(ts, i);
  }

  /** A word alone between parentheses is none of them, and no operator. */
  lemma {:induction false} AloneInside<V>(ts: seq<Token<V>>, i: nat)
    requires Follows(ts) && i + 2 < |ts| && ts[i].Open? && ts[i + 2].Close?
    ensures !ts[i + 1].Op? && !ts[i + 1].Close? && !ts[i + 1].Open?
  {
    FollowsHere(ts, i + 2);
  }

  lemma {:induction false} UnwrapFollows<V>(ts: seq<Token<V>>, i: nat)
    requires Follows(ts) && i + 2 < |ts| && ts[i].Open? && ts[i + 2].Close?
    ensures Follows(Unwrap(ts, i))
  {
    var us := Unwrap(ts, i);
    AloneInside(ts, i);
    forall j | 0 <= j < |us| && (us[j].Op? || us[j].Close?) ensures FollowsAt(us, j) {
      if j < i {
        assert FollowsAt(ts, j);
      } else if j > i + 1 {
        assert FollowsAt(ts, j + 2);
      }
    }
  }

  lemma {:induction false} StripFollows<V>(ts: seq<Token<V>>, i: nat)
    requires Follows(ts)
    ensures Follows(StripFrom(ts, i))
    decreases |ts| - i
  {
    if i + 2 < |ts| {
      if ts[i].Open? && ts[i + 2].Close? {
        UnwrapFollows(ts, i);
        StripFollows(Unwrap(ts, i), i + 1);
      } else {
        StripFollows(ts, i + 1);
      }
    }
  }

  lemma {:induction false} ReplaceFollows<V>(ts: seq<Token<V>>, i: nat, w: Token<V>, j: nat)
    requires Follows(ts) && i <= j <= |ts| && (w.Val? || w.Undefined?)
    ensures Follows(ts[..i] + [w] + ts[j..]) && Follows(ts[..i])
  {
    var us := ts[..i] + [w] + ts[j..];
    forall k | 0 <= k < |us| && (us[k].Op? || us[k].Close?) ensures FollowsAt(us, k) {
      if k < i {
        assert FollowsAt(ts, k);
      } else if k > i + 1 {
        assert FollowsAt(ts, j + (k - i - 1));
      }
    }
    forall k | 0 <= k < i && (ts[k].Op? || ts[k].Close?) ensures FollowsAt(ts[..i], k) { assert FollowsAt(ts, k); }
  }

  lemma {:induction false} ExecuteFollows<V>(alg: Algebra<V>, ts: seq<Token<V>>, k: nat)
    requires Follows(ts) && k < |ts| && ts[k].Acts()
    ensures ts[k].Op? ==> k > 0
    ensures Follows(Execute(alg, ts, k)) && |Execute(alg, ts, k)| < |ts|
  {
    if ts[k].Op? { assert FollowsAt(ts, k); }
    ExecuteIs(alg, ts, k);
    ReplaceFollows(ts, From(ts, k), Result(alg, ts, k), To(ts, k));
  }

  /** A last operator has a value before it. */
  ghost predicate EndsWell<V>(ts: seq<Token<V>>) {
    |ts| > 0 && ts[|ts| - 1].Op? ==> |ts| > 1 && ts[|ts| - 2].Val?
  }

  /** Too many operators for the values, and from the first failed operation on too few words that mean something. */
  ghost predicate Broken<V>(ts: seq<Token<V>>) {
    var e := Total(Excess<V>(), ts);
    Follows(ts) && (e < -1 || (Undefined in ts && e == -1) || (Undefined !in ts && e == 0 && EndsWell(ts)))
  }

  lemma {:induction false} UnwrapKeepsEnd<V>(ts: seq<Token<V>>, i: nat)
    requires Follows(ts) && i + 2 < |ts| && ts[i].Open? && ts[i + 2].Close?
    ensures Undefined in Unwrap(ts, i) <==> Undefined in ts
    ensures EndsWell(ts) ==> EndsWell(Unwrap(ts, i))
  {
    var us := Unwrap(ts, i);
    AloneInside(ts, i);
    if Undefined in ts {
      var j :| 0 <= j < |ts| && ts[j] == Undefined;
      assert us[if j < i then j else if j == i + 1 then i else j - 2] == Undefined;
    }
  }

  lemma {:induction false} StripBroken<V>(ts: seq<Token<V>>, i: nat)
    requires Follows(ts)
    ensures Undefined in StripFrom(ts, i) <==> Undefined in ts
    ensures EndsWell(ts) ==> EndsWell(StripFrom(ts, i))
    decreases |ts| - i
  {
    if i + 2 < |ts| {
      if ts[i].Open? && ts[i + 2].Close? {
        UnwrapKeepsEnd(ts, i);
        UnwrapFollows(ts, i);
        StripBroken(Unwrap(ts, i), i + 1);
      } else {
        StripBroken(ts, i + 1);
      }
    }
  }

  /** A stretch of words without a failed operation, replaced by a value. */
  lemma {:induction false} SpliceKeepsUndefined<V>(a: seq<Token<V>>, mid: seq<Token<V>>, v: V, b: seq<Token<V>>)
    requires Undefined !in mid
    ensures Undefined in a + [Val(v)] + b <==> Undefined in a + mid + b
  {
  }

  lemma {:induction false} FedKeepsUndefined<V>(alg: Algebra<V>, ts: seq<Token<V>>, k: nat)
    requires k < |ts| && ts[k].Acts() && Fed(ts, k)
    ensures Undefined in Execute(alg, ts, k) <==> Undefined in ts
  {
    var a, mid, b := ts[..From(ts, k)], ts[From(ts, k)..k + 2], ts[k + 2..];
    ExecuteIs(alg, ts, k);
    assert ts == a + mid + b;
    assert mid == if ts[k].Op? then [ts[k - 1], ts[k], ts[k + 1]] else [ts[k], ts[k + 1]];
    SpliceKeepsUndefined(a, mid, Result(alg, ts, k).v, b);
  }

  lemma {:induction false} FedKeepsEnd<V>(alg: Algebra<V>, ts: seq<Token<V>>, k: nat)
    requires k < |ts| && ts[k].Acts() && Fed(ts, k) && EndsWell(ts)
    ensures EndsWell(Execute(alg, ts, k))
  {
    ExecuteIs(alg, ts, k);
  }

  /** An operation whose operands are operands. */
  lemma {:induction false} FedBroken<V(!new)>(sc: Scales<V>, alg: Algebra<V>, ts: seq<Token<V>>, k: nat)
    requires Weighs(sc, alg) && Broken(ts) && k < |ts| && ts[k].Acts() && Fed(ts, k)
    ensures Broken(Execute(alg, ts, k)) && Total(Weight(sc), Execute(alg, ts, k)) == Total(Weight(sc), ts)
  {
    FedKeepsTotals(sc, alg, ts, k);
    ExecuteFollows(alg, ts, k);
    FedKeepsUndefined(alg, ts, k);
    if EndsWell(ts) { FedKeepsEnd(alg, ts, k); }
  }

  /** An operation that fails takes weight away, or operators that were missing already. */
  lemma {:induction false} FailedBroken<V(!new)>(sc: Scales<V>, alg: Algebra<V>, ts: seq<Token<V>>, k: nat)
    requires Weighs(sc, alg) && Broken(ts) && k < |ts| && ts[k].Acts() && !Fed(ts, k)
    ensures Total(Weight(sc), Execute(alg, ts, k)) < Total(Weight(sc), ts)
         || (Total(Weight(sc), Execute(alg, ts, k)) == Total(Weight(sc), ts) && Broken(Execute(alg, ts, k)))
  {
    ExecuteFollows(alg, ts, k);
    ExecuteTotal(Weight(sc), alg, ts, k);
    ExecuteTotal(Excess(), alg, ts, k);
    ExecuteIs(alg, ts, k);
    if k + 1 < |ts| {
      assert Execute(alg, ts, k)[From(ts, k)] == Undefined;
    }
  }

  lemma {:induction false} PassBroken<V(!new)>(sc: Scales<V>, alg: Algebra<V>, ts: seq<Token<V>>)
    requires Weighs(sc, alg) && Broken(ts)
    ensures Total(Weight(sc), Pass(alg, ts)) < Total(Weight(sc), ts)
         || (Total(Weight(sc), Pass(alg, ts)) == Total(Weight(sc), ts) && Broken(Pass(alg, ts)))
  {
    var s := StripFrom(ts, 0);
    StripFollows(ts, 0);
    StripBroken(ts, 0);
    StripTotal(Weight(sc), ts, 0);
    StripTotal(Excess(), ts, 0);
    PickInRange(s, |s|);
    if Pick(s) >= 0 {
      if Fed(s, Pick(s)) {
        FedBroken(sc, alg, s, Pick(s));
      } else {
        FailedBroken(sc, alg, s, Pick(s));
      }
    }
  }

  /** Operations never add weight. */
  lemma {:induction false} PassLighter<V(!new)>(sc: Scales<V>, alg: Algebra<V>, ts: seq<Token<V>>)
    requires Weighs(sc, alg) && Follows(ts)
    ensures Follows(Pass(alg, ts)) && Total(Weight(sc), Pass(alg, ts)) <= Total(Weight(sc), ts)
  {
    var s := StripFrom(ts, 0);
    StripFollows(ts, 0);
    StripTotal(Weight(sc), ts, 0);
    PickInRange(s, |s|);
    if Pick(s) >= 0 {
      ExecuteFollows(alg, s, Pick(s));
      ExecuteTotal(Weight(sc), alg, s, Pick(s));
    }
  }

  lemma {:induction false} LoopLighter<V(!new)>(sc: Scales<V>, alg: Algebra<V>, ts: seq<Token<V>>)
    requires Weighs(sc, alg) && Follows(ts)
    ensures Loop(alg, ts).Ends? ==> Total(Weight(sc), Loop(alg, ts).ts) <= Total(Weight(sc), ts)
    decreases |ts|
  {
    if |ts| > 1 {
      PassLighter(sc, alg, ts);
      if |Pass(alg, ts)| < |ts| { LoopLighter(sc, alg, Pass(alg, ts)); }
    }
  }

  /** A broken list never reduces to one value with the weight of its words. */
  lemma {:induction false} BrokenStays<V(!new)>(sc: Scales<V>, alg: Algebra<V>, ts: seq<Token<V>>, v: V)
    requires Weighs(sc, alg) && Broken(ts) && sc.weight(v) == Total(Weight(sc), ts)
    ensures Loop(alg, ts) != Ends([Val(v)])
    decreases |ts|
  {
    if |ts| <= 1 {
      if ts == [Val(v)] { TotalOne(Excess<V>(), Val(v)); }
    } else {
      var s := Pass(alg, ts);
      PassBroken(sc, alg, ts);
      PassLighter(sc, alg, ts);
      if |s| < |ts| {
        if Total(Weight(sc), s) < Total(Weight(sc), ts) {
          LoopLighter(sc, alg, s);
          TotalOne(Weight(sc), Val(v));
        } else {
          BrokenStays(sc, alg, s, v);
        }
      }
    }
  }

  // ----- the word after a value, made a minus sign

  /** The words b with the first of them replaced by `-`. */
  function Tail<V>(b: seq<Token<V>>): seq<Token<V>> {
    if |b| == 0 then [] else [Op(Minus)] + b[1..]
  }

  lemma {:induction false} TailTotal<V>(f: Token<V> -> int, b: seq<Token<V>>)
    requires |b| > 0
    ensures Total(f, Tail(b)) == Total(f, b) - f(b[0]) + f(Op(Minus))
  {
    assert b == [b[0]] + b[1..];
    TotalConcat(f, [b[0]], b[1..]);
    TotalConcat(f, [Op(Minus)], b[1..]);
    TotalOne(f, b[0]);
    TotalOne(f, Op(Minus));
  }

  lemma {:induction false} SplicedTotal<V>(f: Token<V> -> int, a: seq<Token<V>>, v: V, b: seq<Token<V>>)
    requires |b| > 0
    ensures Total(f, a + [Val(v)] + Tail(b)) == Total(f, a + [Val(v)] + b) - f(b[0]) + f(Op(Minus))
  {
    TotalSplice(f, a, Val(v), b);
    TotalSplice(f, a, Val(v), Tail(b));
    TailTotal(f, b);
  }

  /** What follows a value. */
  lemma {:induction false} AfterValue<V>(a: seq<Token<V>>, v: V, b: seq<Token<V>>)
    requires Accepted(a + [Val(v)] + b)
    ensures |b| > 0 ==> b[0].Op? || b[0].Close?
  {
    var ts := a + [Val(v)] + b;
    Neighbours(ts, |a|);
    assert |b| > 0 ==> ts[|a| + 1] == b[0];
  }

  /** Another operator there keeps the shape. */
  lemma {:induction false} OperatorTailAccepted<V>(a: seq<Token<V>>, v: V, b: seq<Token<V>>)
    requires Accepted(a + [Val(v)] + b) && |b| > 0 && b[0].Op?
    ensures Accepted(a + [Val(v)] + Tail(b))
  {
    var q := ShapeRun(START, a + [Val(v)]);
    assert a + [Val(v)] + b == (a + [Val(v)]) + [b[0]] + b[1..];
    assert a + [Val(v)] + Tail(b) == (a + [Val(v)]) + [Op(Minus)] + b[1..];
    ShapeSplice(START, a + [Val(v)], b[0], b[1..]);
    ShapeSplice(START, a + [Val(v)], Op(Minus), b[1..]);
    assert ShapeStep(q, b[0]) == ShapeStep(q, Token<V>.Op(Minus));
  }

  /** Without its `)` the list is broken. */
  lemma {:induction false} CloseTailBroken<V(!new)>(sc: Scales<V>, alg: Algebra<V>, a: seq<Token<V>>, v: V, b: seq<Token<V>>)
    requires Weighs(sc, alg) && Accepted(a + [Val(v)] + b) && |b| > 0 && b[0].Close?
    ensures Broken(a + [Val(v)] + Tail(b))
  {
    var ts, us := a + [Val(v)] + b, a + [Val(v)] + Tail(b);
    var w := LoopKeepsTotals(sc, alg, ts);
    SplicedTotal(Excess<V>(), a, v, b);
    AcceptedFollows(ts);
    TailFollows(a, v, b);
    forall i | 0 <= i < |us| ensures us[i] != Undefined { Neighbours(ts, i); }
    Neighbours(ts, |ts| - 1);
    assert us[|us| - 1] == if |b| == 1 then Op(Minus) else ts[|ts| - 1];
  }

  lemma {:induction false} AcceptedFollows<V>(ts: seq<Token<V>>)
    requires Accepted(ts)
    ensures Follows(ts)
  {
    forall i | 0 <= i < |ts| && (ts[i].Op? || ts[i].Close?) ensures FollowsAt(ts, i) {
      Neighbours(ts, i);
      if i > 0 { Neighbours(ts, i - 1); }
    }
  }

  lemma {:induction false} TailFollows<V>(a: seq<Token<V>>, v: V, b: seq<Token<V>>)
    requires Follows(a + [Val(v)] + b)
    ensures Follows(a + [Val(v)] + Tail(b))
  {
    var ts, us := a + [Val(v)] + b, a + [Val(v)] + Tail(b);
    forall i | 0 <= i < |us| && (us[i].Op? || us[i].Close?) ensures FollowsAt(us, i) {
      if i > 0 && i != |a| + 1 { assert us[i - 1].Open? ==> ts[i - 1].Open?; }
      if i != |a| + 1 { assert FollowsAt(ts, i); }
    }
  }

  /** Main result on values: replacing the word after a value by `-` leaves the result of the loop what it was if and
      only if there was no such word, or it was `-`. */
  lemma {:induction false} TailExact<V(!new)>(sc: Scales<V>, alg: Algebra<V>, a: seq<Token<V>>, v: V, b: seq<Token<V>>)
    requires Weighs(sc, alg) && Accepted(a + [Val(v)] + b)
    ensures Loop(alg, a + [Val(v)] + Tail(b)) == Loop(alg, a + [Val(v)] + b) <==> |b| == 0 || b[0] == Op(Minus)
  {
    AfterValue(a, v, b);
    if |b| == 0 || b[0] == Op(Minus) {
      assert Tail(b) == b;
    } else {
      var w := LoopKeepsTotals(sc, alg, a + [Val(v)] + b);
      if b[0].Op? {
        OperatorTailAccepted(a, v, b);
        var x := LoopKeepsTotals(sc, alg, a + [Val(v)] + Tail(b));
        SplicedTotal(Minuses(sc), a, v, b);
      } else {
        CloseTailBroken(sc, alg, a, v, b);
        SplicedTotal(Weight(sc), a, v, b);
        BrokenStays(sc, alg, a + [Val(v)] + Tail(b), w);
      }
    }
  }
}
