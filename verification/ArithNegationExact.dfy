/** When a command with one `(-x)` gets the value it should have: the loop on words, whatever they are, followed on values. */
module ArithNegationExact {
  import opened ArithSyntax
  import opened ArithPass
  import opened ArithShape
  import opened ArithWeights
  import opened ArithInterpreter
  import opened ArithAssignment
  import opened ArithTargets
  import opened ArithNegation
  import opened ArithNegationCommand

  // ----- the loop on words as the loop on their meanings, expression or not

  /** A word that stands for something, or for nothing at all. */
  predicate Plain<S, M>(tb: Tables<S, M>, t: Token<Operand>) {
    !t.Equal? && !t.Lhs? && (t.Val? ==> Readable(tb, t))
  }

  ghost predicate AllPlain<S, M>(tb: Tables<S, M>, ws: seq<Token<Operand>>) {
    forall t :: t in ws ==> Plain(tb, t)
  }

  /** st is p and the words ws, over tables that extend base. */
  ghost predicate Going<S, M>(ops: Ops<S, M>, names: nat -> string, base: Tables<S, M>, p: seq<Token<Operand>>, ws: seq<Token<Operand>>, st: State<S, M>) {
    && Head(p) && st.ws == p + ws && Follows(ws) && AllPlain(st.tb, ws)
    && NoTmp(base, names) && Extends(base, st.tb, st.tmp, names)
  }

  lemma {:induction false} PlainReadable<S, M>(tb: Tables<S, M>, ws: seq<Token<Operand>>)
    requires AllPlain(tb, ws)
    ensures AllReadable(tb, ws)
  {
    forall i | 0 <= i < |ws| && ws[i].Val? ensures Readable(tb, ws[i]) { assert ws[i] in ws; }
  }

  lemma {:induction false} SameFed<S, M>(ops: Ops<S, M>, tb: Tables<S, M>, ws: seq<Token<Operand>>, k: nat)
    requires AllPlain(tb, ws) && Follows(ws) && k < |ws| && ws[k].Acts()
    ensures ws[k].Op? ==> k > 0
    ensures var ms := Meanings(ops, tb, ws);
            && ms[k].Acts() && ms[k].Op? == ws[k].Op? && (Fed(ms, k) <==> Fed(ws, k))
    ensures Fed(ws, k) ==> Readable(tb, ws[k + 1]) && (ws[k].Op? ==> Readable(tb, ws[k - 1]))
  {
    PlainReadable(tb, ws);
    EachMeaning(ops, tb, ws);
    if ws[k].Op? { assert FollowsAt(ws, k); }
  }

  /** An operation on operands. */
  lemma {:induction false} FedMeanings<S, M>(ops: Ops<S, M>, names: nat -> string, base: Tables<S, M>, p: seq<Token<Operand>>, ws: seq<Token<Operand>>,
                                             st: State<S, M>, k: nat)
    returns (st': State<S, M>, ws': seq<Token<Operand>>)
    requires Going(ops, names, base, p, ws, st) && k < |ws| && ws[k].Acts() && Fed(ws, k)
    ensures st' == ExecuteWords(ops, names, st, |p| + k) && st'.ws == p + ws' && st'.tmp == st.tmp + 1
    ensures Extends(base, st'.tb, st'.tmp, names) && AllPlain(st'.tb, ws')
    ensures Meanings(ops, st.tb, ws)[k].Acts() && Meanings(ops, st'.tb, ws') == Execute(Alg(ops), Meanings(ops, st.tb, ws), k)
  {
    SameFed(ops, st.tb, ws, k);
    PlainReadable(st.tb, ws);
    var v := Computed(ops, st.tb, ws, k);
    var w := Val(NameOf(names(st.tmp), v));
    ws' := Replaced(ws, k, w);
    st' := State(p + ws', Store(st.tb, names(st.tmp), v), st.tmp + 1);
    StoreTmp(ops, base, st.tb, st.tmp, names, v);
    ExecuteAfter(ops, names, p, ws, st, k);
    MeaningsReplace(ops, st.tb, st'.tb, ws, Place(ws, k), w, k + 2);
    FedResult(ops, st.tb, ws, k);
    ReplacedWords(ws, k, w);
    forall t | t in ws' ensures Plain(st'.tb, t) { assert t == w || Plain(st.tb, t); }
  }

  lemma {:induction false} FedResult<S, M>(ops: Ops<S, M>, tb: Tables<S, M>, ws: seq<Token<Operand>>, k: nat)
    requires AllPlain(tb, ws) && Follows(ws) && k < |ws| && ws[k].Acts() && Fed(ws, k)
    ensures Readable(tb, ws[k + 1]) && (ws[k].Op? ==> k > 0 && Readable(tb, ws[k - 1])) && Meanings(ops, tb, ws)[k].Acts()
    ensures var ms := Meanings(ops, tb, ws);
            Execute(Alg(ops), ms, k) == ms[..Place(ws, k)] + [Val(Computed(ops, tb, ws, k))] + ms[k + 2..]
  {
    SameFed(ops, tb, ws, k);
    EachMeaning(ops, tb, ws);
    ExecuteIs(Alg(ops), Meanings(ops, tb, ws), k);
  }

  /** The words an operation leaves that has not got its operands. */
  function Failed(ws: seq<Token<Operand>>, k: nat): seq<Token<Operand>>
    requires k < |ws| && (ws[k].Op? ==> k > 0)
  {
    if k + 1 < |ws| then ws[..From(ws, k)] + [Undefined] + ws[k + 2..] else ws[..From(ws, k)]
  }

  lemma {:induction false} FailedBinary(p: seq<Token<Operand>>, ws: seq<Token<Operand>>, k: nat)
    requires 0 < k < |ws| && ws[k].Op?
    ensures WithBinary(p + ws, |p| + k, Undefined) == p + Failed(ws, k)
  {
    UpdateAfter(p, ws, k - 1, Undefined);
    ShiftedBehind(p, ws[k - 1 := Undefined], k, 2);
    UpdatedParts(ws, k - 1, Undefined, To(ws, k));
  }

  lemma {:induction false} UpdatedParts(ws: seq<Token<Operand>>, i: nat, w: Token<Operand>, j: nat)
    requires i < j <= |ws|
    ensures var us := ws[i := w]; us[..i + 1] == ws[..i] + [w] && us[..i] == ws[..i] && us[j..] == ws[j..]
  {
  }

  lemma {:induction false} FailedUnary(p: seq<Token<Operand>>, ws: seq<Token<Operand>>, k: nat)
    requires k < |ws| && !ws[k].Op?
    ensures WithUnary(p + ws, |p| + k, Undefined) == p + Failed(ws, k)
  {
    UpdateAfter(p, ws, k, Undefined);
    ShiftedBehind(p, ws[k := Undefined], k + 1, 1);
    UpdatedParts(ws, k, Undefined, To(ws, k));
  }

  /** Words in front stay in front, the stretch to be removed having one word before it. */
  lemma {:induction false} ShiftedBehind(p: seq<Token<Operand>>, us: seq<Token<Operand>>, from: nat, width: nat)
    requires 0 < from <= |us| && 0 < width && from + width <= |us| + 1
    ensures Shifted(p + us, |p| + from, width) == p + if from + width <= |us| then us[..from] + us[from + width..] else us[..from - 1]
  {
  }

  lemma {:induction false} FailedWords<S, M>(ops: Ops<S, M>, names: nat -> string, p: seq<Token<Operand>>, ws: seq<Token<Operand>>, st: State<S, M>, k: nat)
    requires st.ws == p + ws && k < |ws| && ws[k].Acts() && (ws[k].Op? ==> k > 0) && !Fed(ws, k)
    ensures ExecuteWords(ops, names, st, |p| + k) == st.(ws := p + Failed(ws, k))
  {
    if ws[k].Op? { FailedBinary(p, ws, k); } else { FailedUnary(p, ws, k); }
    var us, i := st.ws, |p| + k;
    assert us[i] == ws[k] && (k + 1 < |ws| ==> us[i + 1] == ws[k + 1]) && (k > 0 ==> us[i - 1] == ws[k - 1]);
  }

  lemma {:induction false} MeaningsOfFailed<S, M>(ops: Ops<S, M>, tb: Tables<S, M>, ws: seq<Token<Operand>>, k: nat)
    requires k < |ws| && (ws[k].Op? ==> k > 0)
    ensures var ms, f := Meanings(ops, tb, ws), From(ws, k);
            Meanings(ops, tb, Failed(ws, k)) == if k + 1 < |ws| then ms[..f] + [Undefined] + ms[k + 2..] else ms[..f]
  {
    var f := From(ws, k);
    MeaningsCut(ops, tb, ws, f);
    if k + 1 < |ws| { MeaningsSpliced(ops, tb, ws, f, k + 2); }
  }

  lemma {:induction false} MeaningsSpliced<S, M>(ops: Ops<S, M>, tb: Tables<S, M>, ws: seq<Token<Operand>>, i: nat, j: nat)
    requires i <= |ws| && j <= |ws|
    ensures var ms := Meanings(ops, tb, ws); Meanings(ops, tb, ws[..i] + [Undefined] + ws[j..]) == ms[..i] + [Undefined] + ms[j..]
  {
    MeaningsCut(ops, tb, ws, i);
    MeaningsCut(ops, tb, ws, j);
    MeaningsConcat(ops, tb, ws[..i] + [Undefined], ws[j..]);
    MeaningsConcat(ops, tb, ws[..i], [Undefined]);
    MeaningsOne(ops, tb, Undefined);
  }

  lemma {:induction false} MeaningsCut<S, M>(ops: Ops<S, M>, tb: Tables<S, M>, ws: seq<Token<Operand>>, i: nat)
    requires i <= |ws|
    ensures var ms := Meanings(ops, tb, ws); Meanings(ops, tb, ws[..i]) == ms[..i] && Meanings(ops, tb, ws[i..]) == ms[i..]
  {
    assert ws[..i] + ws[i..] == ws;
    MeaningsConcat(ops, tb, ws[..i], ws[i..]);
  }

  lemma {:induction false} FailedPlain<S, M>(tb: Tables<S, M>, ws: seq<Token<Operand>>, k: nat)
    requires AllPlain(tb, ws) && k < |ws| && (ws[k].Op? ==> k > 0)
    ensures AllPlain(tb, Failed(ws, k))
  {
    forall t | t in Failed(ws, k) ensures Plain(tb, t) { assert t == Undefined || t in ws; }
  }

  lemma {:induction false} FailedMeanings<S, M>(ops: Ops<S, M>, tb: Tables<S, M>, ws: seq<Token<Operand>>, k: nat)
    requires AllPlain(tb, ws) && Follows(ws) && k < |ws| && ws[k].Acts() && (ws[k].Op? ==> k > 0) && !Fed(ws, k)
    ensures Meanings(ops, tb, ws)[k].Acts()
    ensures Meanings(ops, tb, Failed(ws, k)) == Execute(Alg(ops), Meanings(ops, tb, ws), k)
  {
    SameFed(ops, tb, ws, k);
    MeaningsOfFailed(ops, tb, ws, k);
    ExecuteIs(Alg(ops), Meanings(ops, tb, ws), k);
  }

  /** The operation chosen. */
  lemma {:induction false} AnyMeanings<S, M>(ops: Ops<S, M>, names: nat -> string, base: Tables<S, M>, p: seq<Token<Operand>>, ws: seq<Token<Operand>>,
                                             st: State<S, M>, k: nat)
    returns (st': State<S, M>, ws': seq<Token<Operand>>)
    requires Going(ops, names, base, p, ws, st) && k < |ws| && ws[k].Acts()
    ensures |p| + k < |st.ws| && st.ws[|p| + k].Acts() && st' == ExecuteWords(ops, names, st, |p| + k)
    ensures st'.ws == p + ws' && AllPlain(st'.tb, ws') && Extends(base, st'.tb, st'.tmp, names)
    ensures Meanings(ops, st.tb, ws)[k].Acts() && Meanings(ops, st'.tb, ws') == Execute(Alg(ops), Meanings(ops, st.tb, ws), k)
  {
    if Fed(ws, k) {
      st', ws' := FedMeanings(ops, names, base, p, ws, st, k);
    } else {
      if ws[k].Op? { assert FollowsAt(ws, k); }
      FailedWords(ops, names, p, ws, st, k);
      FailedPlain(st.tb, ws, k);
      FailedMeanings(ops, st.tb, ws, k);
      ws' := Failed(ws, k);
      st' := st.(ws := p + ws');
    }
  }

  /** Words follow each other as their meanings do. */
  lemma {:induction false} FollowsMeanings<S, M>(ops: Ops<S, M>, tb: Tables<S, M>, ws: seq<Token<Operand>>)
    ensures Follows(Meanings(ops, tb, ws)) <==> Follows(ws)
  {
    var ms := Meanings(ops, tb, ws);
    EachMeaning(ops, tb, ws);
    assert forall i :: 0 <= i < |ws| ==> (ms[i].Op? <==> ws[i].Op?) && (ms[i].Close? <==> ws[i].Close?) && (ms[i].Open? <==> ws[i].Open?);
    assert forall i :: 0 <= i < |ws| ==> (FollowsAt(ms, i) <==> FollowsAt(ws, i));
  }

  lemma {:induction false} GoingExecutes<S, M>(ops: Ops<S, M>, names: nat -> string, base: Tables<S, M>, p: seq<Token<Operand>>, ws: seq<Token<Operand>>,
                                               st: State<S, M>, k: nat)
    returns (st': State<S, M>, ws': seq<Token<Operand>>)
    requires Going(ops, names, base, p, ws, st) && k < |ws| && ws[k].Acts()
    ensures |p| + k < |st.ws| && st.ws[|p| + k].Acts() && st' == ExecuteWords(ops, names, st, |p| + k) && Going(ops, names, base, p, ws', st')
    ensures Meanings(ops, st.tb, ws)[k].Acts() && Meanings(ops, st'.tb, ws') == Execute(Alg(ops), Meanings(ops, st.tb, ws), k)
  {
    st', ws' := AnyMeanings(ops, names, base, p, ws, st, k);
    FollowsMeanings(ops, st.tb, ws);
    ExecuteFollows(Alg(ops), Meanings(ops, st.tb, ws), k);
    FollowsMeanings(ops, st'.tb, ws');
  }

  lemma {:induction false} GoingMeans<S, M>(ops: Ops<S, M>, tb: Tables<S, M>, ws: seq<Token<Operand>>, s: seq<Token<Operand>>, k: nat,
                                            ms': seq<Token<Value<S, M>>>)
    requires s == StripFrom(ws, 0) && k == Pick(s) && k < |s| && Meanings(ops, tb, s)[k].Acts()
    requires ms' == Execute(Alg(ops), Meanings(ops, tb, s), k)
    ensures ms' == Pass(Alg(ops), Meanings(ops, tb, ws))
  {
    GoingMeaning(ops, tb, ws, s);
  }

  lemma {:induction false} GoingPassIs<S, M>(ops: Ops<S, M>, names: nat -> string, st: State<S, M>, st1: State<S, M>, k: int, st': State<S, M>)
    requires NegateBraces(ops, st.(ws := StripFrom(st.ws, 0)), 0) == st1 && k == Pick(st1.ws)
    requires k >= 0 ==> k < |st1.ws| && st1.ws[k].Acts()
    requires st' == if k < 0 then st1 else ExecuteWords(ops, names, st1, k)
    ensures st' == PassWords(ops, names, st)
  {
    PassOfRest(ops, names, st, st1, k);
  }

  lemma {:induction false} GoingMeaning<S, M>(ops: Ops<S, M>, tb: Tables<S, M>, ws: seq<Token<Operand>>, s: seq<Token<Operand>>)
    requires s == StripFrom(ws, 0)
    ensures var ms := Meanings(ops, tb, s);
            && -1 <= Pick(s) < |s| && (Pick(s) >= 0 ==> ms[Pick(s)].Acts())
            && Pass(Alg(ops), Meanings(ops, tb, ws)) == if Pick(s) == -1 then ms else Execute(Alg(ops), ms, Pick(s))
  {
    ScanMeanings(ops, tb, s, |s|);
    StripMeanings(ops, tb, ws, 0);
    PassOfStripped(Alg(ops), Meanings(ops, tb, ws), Meanings(ops, tb, s));
  }

  lemma {:induction false} GoingStripped<S, M>(ops: Ops<S, M>, names: nat -> string, base: Tables<S, M>, p: seq<Token<Operand>>, ws: seq<Token<Operand>>,
                                               st: State<S, M>)
    requires Going(ops, names, base, p, ws, st)
    ensures var s := StripFrom(ws, 0);
            && Going(ops, names, base, p, s, st.(ws := p + s))
            && NegateBraces(ops, st.(ws := StripFrom(st.ws, 0)), 0) == st.(ws := p + s)
  {
    var s := StripFrom(ws, 0);
    StripHead(p, ws, 0);
    StripFollows(ws, 0);
    StripKeepsWords(ws, 0);
    FollowsBehind(p, s);
    NothingNegated(ops, st.(ws := p + s), 0);
  }

  lemma {:induction false} GoingCount<S, M>(tb: Tables<S, M>, p: seq<Token<Operand>>, ws: seq<Token<Operand>>)
    requires Target(p) && AllPlain(tb, ws)
    ensures ToBeProcessed(p + ws) == |ws|
  {
    forall i | 0 <= i < |ws| ensures !ws[i].Equal? { assert ws[i] in ws; }
    CountHead(p, ws);
  }

  /** How the loop on words ends, when the loop on their meanings ends in ts. */
  ghost predicate EndsIn<S, M>(ops: Ops<S, M>, p: seq<Token<Operand>>, q: State<S, M>, ts: seq<Token<Value<S, M>>>) {
    |q.ws| == |p| + |ts| && q.ws[..|p|] == p && Meanings(ops, q.tb, q.ws[|p|..]) == ts
  }

  /** What one pass, ending in st' with the words ws' behind p, means for both loops. */
  lemma {:induction false} LoopStep<S, M>(ops: Ops<S, M>, names: nat -> string, p: seq<Token<Operand>>, ws: seq<Token<Operand>>, st: State<S, M>,
                                          st': State<S, M>, ws': seq<Token<Operand>>)
    requires st.ws == p + ws && ToBeProcessed(st.ws) == |ws| > 1 && st'.ws == p + ws'
    requires st' == PassWords(ops, names, st) && Meanings(ops, st'.tb, ws') == Pass(Alg(ops), Meanings(ops, st.tb, ws))
    ensures ReduceWords(ops, names, st) == if |ws'| < |ws| then ReduceWords(ops, names, st') else Repeats
    ensures Loop(Alg(ops), Meanings(ops, st.tb, ws)) ==
            if |ws'| < |ws| then Loop(Alg(ops), Meanings(ops, st'.tb, ws')) else Diverges
  {
    ReduceStep(ops, names, st, st');
  }

  /** The operation at index k of the stripped words s. */
  lemma {:induction false} ExecuteLoopStep<S, M>(ops: Ops<S, M>, names: nat -> string, p: seq<Token<Operand>>, ws: seq<Token<Operand>>, st: State<S, M>,
                                                 s: seq<Token<Operand>>, st1: State<S, M>, k: nat, st': State<S, M>, ws': seq<Token<Operand>>)
    requires Head(p) && st.ws == p + ws && ToBeProcessed(st.ws) == |ws| > 1 && st'.ws == p + ws'
    requires s == StripFrom(ws, 0) && st1 == st.(ws := p + s) && NegateBraces(ops, st.(ws := StripFrom(st.ws, 0)), 0) == st1
    requires k == Pick(s) && k < |s| && Meanings(ops, st.tb, s)[k].Acts() && |p| + k < |st1.ws| && st1.ws[|p| + k].Acts()
    requires st' == ExecuteWords(ops, names, st1, |p| + k) && Meanings(ops, st'.tb, ws') == Execute(Alg(ops), Meanings(ops, st.tb, s), k)
    ensures ReduceWords(ops, names, st) == if |ws'| < |ws| then ReduceWords(ops, names, st') else Repeats
    ensures Loop(Alg(ops), Meanings(ops, st.tb, ws)) ==
            if |ws'| < |ws| then Loop(Alg(ops), Meanings(ops, st'.tb, ws')) else Diverges
  {
    ExecutePassIs(ops, names, p, st, s, st1, k, st');
    GoingMeans(ops, st.tb, ws, s, k, Meanings(ops, st'.tb, ws'));
    LoopStep(ops, names, p, ws, st, st', ws');
  }

  lemma {:induction false} ExecutePassIs<S, M>(ops: Ops<S, M>, names: nat -> string, p: seq<Token<Operand>>, st: State<S, M>,
                                               s: seq<Token<Operand>>, st1: State<S, M>, k: nat, st': State<S, M>)
    requires Head(p) && st1.ws == p + s && NegateBraces(ops, st.(ws := StripFrom(st.ws, 0)), 0) == st1
    requires k == Pick(s) && |p| + k < |st1.ws| && st1.ws[|p| + k].Acts() && st' == ExecuteWords(ops, names, st1, |p| + k)
    ensures st' == PassWords(ops, names, st)
  {
    PickHead(p, s);
    GoingPassIs(ops, names, st, st1, |p| + k, st');
  }

  lemma {:induction false} RestLoopStep<S, M>(ops: Ops<S, M>, names: nat -> string, p: seq<Token<Operand>>, ws: seq<Token<Operand>>, st: State<S, M>,
                                              s: seq<Token<Operand>>, st1: State<S, M>)
    requires Head(p) && st.ws == p + ws && ToBeProcessed(st.ws) == |ws| > 1 && Pick(s) < 0
    requires s == StripFrom(ws, 0) && st1 == st.(ws := p + s) && NegateBraces(ops, st.(ws := StripFrom(st.ws, 0)), 0) == st1
    ensures ReduceWords(ops, names, st) == if |s| < |ws| then ReduceWords(ops, names, st1) else Repeats
    ensures Loop(Alg(ops), Meanings(ops, st.tb, ws)) == if |s| < |ws| then Loop(Alg(ops), Meanings(ops, st.tb, s)) else Diverges
  {
    PickHead(p, s);
    GoingPassIs(ops, names, st, st1, -1, st1);
    GoingMeaning(ops, st.tb, ws, s);
    LoopStep(ops, names, p, ws, st, st1, s);
  }

  lemma {:induction false} LoopFollowed<S, M>(ops: Ops<S, M>, names: nat -> string, base: Tables<S, M>, p: seq<Token<Operand>>, ws: seq<Token<Operand>>,
                                              st: State<S, M>)
    requires Going(ops, names, base, p, ws, st) && Target(p)
    ensures var r, o := ReduceWords(ops, names, st), Loop(Alg(ops), Meanings(ops, st.tb, ws));
            && (r.Ended? <==> o.Ends?) && (r.Ended? ==> EndsIn(ops, p, r.st, o.ts))
    decreases |ws|
  {
    GoingCount(st.tb, p, ws);
    if |ws| > 1 {
      var s := StripFrom(ws, 0);
      var st1, k := st.(ws := p + s), Pick(s);
      GoingStripped(ops, names, base, p, ws, st);
      PickInRange(s, |s|);
      if k >= 0 {
        var st', ws' := GoingExecutes(ops, names, base, p, s, st1, k);
        ExecuteLoopStep(ops, names, p, ws, st, s, st1, k, st', ws');
        if |ws'| < |ws| { LoopFollowed(ops, names, base, p, ws', st'); }
      } else {
        RestLoopStep(ops, names, p, ws, st, s, st1);
        if |s| < |ws| { LoopFollowed(ops, names, base, p, s, st1); }
      }
    } else {
      assert (p + ws)[..|p|] == p && (p + ws)[|p|..] == ws;
    }
  }

  // ----- exactly when the value is right

  /** The loop leaves p and one word that stands for v. */
  ghost predicate Yields<S, M>(ops: Ops<S, M>, names: nat -> string, p: seq<Token<Operand>>, st: State<S, M>, v: Value<S, M>) {
    var r := ReduceWords(ops, names, st);
    r.Ended? && EndsIn(ops, p, r.st, [Val(v)])
  }

  lemma {:induction false} MeaningsTail<S, M>(ops: Ops<S, M>, tb: Tables<S, M>, r: seq<Token<Operand>>)
    ensures Meanings(ops, tb, Tail(r)) == Tail(Meanings(ops, tb, r))
  {
    if |r| > 0 {
      assert r == [r[0]] + r[1..];
      MeaningsConcat(ops, tb, [r[0]], r[1..]);
      MeaningsConcat(ops, tb, [Op(Minus)], r[1..]);
      MeaningsOne(ops, tb, r[0]);
      MeaningsOne(ops, tb, Op(Minus));
    }
  }

  lemma {:induction false} MeaningsAround<S, M>(ops: Ops<S, M>, tb: Tables<S, M>, l: seq<Token<Operand>>, x: string, r: seq<Token<Operand>>)
    requires x in tb.vars
    ensures Meanings(ops, tb, l + [Val(Variable(x))] + r) == Meanings(ops, tb, l) + [Val(Scalar(tb.vars[x]))] + Meanings(ops, tb, r)
  {
    MeaningsConcat(ops, tb, l + [Val(Variable(x))], r);
    MeaningsConcat(ops, tb, l, [Val(Variable(x))]);
    MeaningsOne(ops, tb, Val(Variable(x)));
  }

  lemma {:induction false} TailPlain<S, M>(ops: Ops<S, M>, tb: Tables<S, M>, l: seq<Token<Operand>>, x: string, r: seq<Token<Operand>>)
    requires x in tb.vars && Accepted(Meanings(ops, tb, l + [Val(Variable(x))] + r))
    ensures AllPlain(tb, l + [Val(Variable(x))] + Tail(r))
  {
    var ws, us := l + [Val(Variable(x))] + r, l + [Val(Variable(x))] + Tail(r);
    AcceptedIsReadable(ops, tb, ws);
    forall t | t in us ensures Plain(tb, t) {
      if t != Op(Minus) {
        assert t in ws;
        var i :| 0 <= i < |ws| && ws[i] == t;
      }
    }
  }

  lemma {:induction false} YieldsFollowed<S, M>(ops: Ops<S, M>, names: nat -> string, base: Tables<S, M>, p: seq<Token<Operand>>, ws: seq<Token<Operand>>,
                                                st: State<S, M>, v: Value<S, M>)
    requires Going(ops, names, base, p, ws, st) && Target(p)
    ensures Yields(ops, names, p, st, v) <==> Loop(Alg(ops), Meanings(ops, st.tb, ws)) == Ends([Val(v)])
  {
    LoopFollowed(ops, names, base, p, ws, st);
  }

  /** On values: the word behind x made a minus sign. */
  lemma {:induction false} MinusMeans<S, M>(ops: Ops<S, M>, tb: Tables<S, M>, r: seq<Token<Operand>>)
    ensures var mr := Meanings(ops, tb, r); MinusBehind(r) <==> |mr| == 0 || mr[0] == Op(Minus)
  {
    EachMeaning(ops, tb, r);
  }

  lemma {:induction false} TailValues<S(!new), M(!new)>(sc: Scales<Value<S, M>>, ops: Ops<S, M>, tb: Tables<S, M>, l: seq<Token<Operand>>, x: string,
                                                       r: seq<Token<Operand>>)
    returns (v: Value<S, M>)
    requires Weighs(sc, Alg(ops)) && x in tb.vars && Accepted(Meanings(ops, tb, l + [Val(Variable(x))] + r))
    ensures Loop(Alg(ops), Meanings(ops, tb, l + [Val(Variable(x))] + r)) == Ends([Val(v)])
    ensures Loop(Alg(ops), Meanings(ops, tb, l + [Val(Variable(x))] + Tail(r))) == Ends([Val(v)]) <==> MinusBehind(r)
  {
    MeaningsAround(ops, tb, l, x, r);
    MeaningsAround(ops, tb, l, x, Tail(r));
    MeaningsTail(ops, tb, r);
    var ml, mr := Meanings(ops, tb, l), Meanings(ops, tb, r);
    v := LoopKeepsTotals(sc, Alg(ops), ml + [Val(Scalar(tb.vars[x]))] + mr);
    TailExact(sc, Alg(ops), ml, Scalar(tb.vars[x]), mr);
    MinusMeans(ops, tb, r);
  }

  /** Main result: for operations whose results can be weighed, such as those that record what they computed, the loop on
      a command with one `(-x)` leaves the value of the expression with x negated if and only if the group is last or
      stands before a minus sign. */
  lemma {:induction false} NegationExact<S(!new), M(!new)>(sc: Scales<Value<S, M>>, ops: Ops<S, M>, names: nat -> string, base: Tables<S, M>,
                                                          p: seq<Token<Operand>>, l: seq<Token<Operand>>, x: string, r: seq<Token<Operand>>,
                                                          tb: Tables<S, M>, tmp: nat)
    returns (v: Value<S, M>)
    requires Weighs(sc, Alg(ops)) && Head(p) && Target(p) && x in tb.vars
    requires NoTmp(base, names) && Extends(base, Negated(ops, tb, x), tmp, names)
    requires Accepted(Meanings(ops, Negated(ops, tb, x), l + [Val(Variable(x))] + r))
    ensures Loop(Alg(ops), Meanings(ops, Negated(ops, tb, x), l + [Val(Variable(x))] + r)) == Ends([Val(v)])
    ensures Yields(ops, names, p, State(p + (l + Negation(Val(Variable(x))) + r), tb, tmp), v) <==> MinusBehind(r)
  {
    var tb' := Negated(ops, tb, x);
    var us := l + [Val(Variable(x))] + Tail(r);
    v := TailValues(sc, ops, tb', l, x, r);
    AcceptedAround(ops, tb', l, Val(Variable(x)), r, x);
    NegatedLoop(ops, names, p, l, x, r, tb, tmp);
    TailFollows(l, Variable(x), r);
    TailPlain(ops, tb', l, x, r);
    YieldsFollowed(ops, names, base, p, us, State(p + us, tb', tmp), v);
  }

  // ----- operations that record what they computed

  datatype Record =
    | Given(name: string)
    | Less(of: Record)
    | Pair(op: Operator, left: Record, right: Record)
    | Applied(f: string, arg: Record)

  ghost function Heft(t: Record): nat {
    match t
    case Given(_) => 1
    case Less(_) => 1
    case Pair(_, a, b) => Heft(a) + Heft(b)
    case Applied(_, a) => Heft(a) + 1
  }

  ghost function MinusesOf(t: Record): nat {
    match t
    case Given(_) => 0
    case Less(_) => 0
    case Pair(o, a, b) => MinusesOf(a) + MinusesOf(b) + if o.Minus? then 1 else 0
    case Applied(_, a) => MinusesOf(a)
  }

  ghost const RECORDING: Ops<Record, Record> := Ops(
    text => Given(text), a => Less(a),
    (o, a, b) => Pair(o, a, b), (o, a, b) => Pair(o, a, b), (o, a, b) => Pair(o, a, b), (o, a, b) => Pair(o, a, b),
    (f, a) => Applied(f, a), (f, a) => Applied(f, a))

  ghost function RecordOf(v: Value<Record, Record>): Record {
    match v
    case Scalar(s) => s
    case Picture(m) => m
  }

  ghost const RECORDSCALES: Scales<Value<Record, Record>> := Scales(v => Heft(RecordOf(v)), v => MinusesOf(RecordOf(v)))

  lemma {:induction false} HeftPositive(t: Record)
    ensures Heft(t) >= 1
  {
    match t
    case Given(_) =>
    case Less(_) =>
    case Pair(_, a, b) => HeftPositive(a);
    case Applied(_, _) =>
  }

  /** They can be weighed. */
  lemma {:induction false} RecordsWeigh()
    ensures Weighs(RECORDSCALES, Alg(RECORDING))
  {
    forall v: Value<Record, Record> ensures RECORDSCALES.weight(v) >= 1 { HeftPositive(RecordOf(v)); }
  }
}
