/** What a command does to the tables. */
module ArithAssignment {
  import opened ArithSyntax
  import opened ArithPass
  import opened ArithShape
  import opened ArithOrder
  import opened ArithTheorem
  import opened ArithInterpreter
  import opened Decimals
  import opened Wrappers

  // ----- temporary names

  lemma {:induction false} TmpInjective(j: nat, k: nat, pid: nat)
    ensures TmpName(j, pid) == TmpName(k, pid) ==> j == k
  {
    var x, y := TmpName(j, pid), TmpName(k, pid);
    if x == y {
      assert x[4..4 + |Decimal(j)|] == Decimal(j);
      assert y[4..4 + |Decimal(k)|] == Decimal(k);
      DecimalInjective(j, k);
    }
  }

  /** One of the first n temporary names. */
  ghost predicate TmpBelow(name: string, n: nat, names: nat -> string) {
    exists k: nat :: k < n && name == names(k)
  }

  ghost predicate IsTmp(name: string, names: nat -> string) {
    exists k: nat :: name == names(k)
  }

  /** Different temporaries have different names. */
  ghost predicate Distinct(names: nat -> string) {
    forall j: nat, k: nat :: names(j) == names(k) ==> j == k
  }

  /** The names of a process are distinct. */
  lemma {:induction false} TmpNamesDistinct(pid: nat)
    ensures Distinct(TmpNames(pid))
  {
    forall j: nat, k: nat | TmpNames(pid)(j) == TmpNames(pid)(k) ensures j == k { TmpInjective(j, k, pid); }
  }

  /** The temporary names are distinct and no table entry has one. */
  ghost predicate NoTmp<S, M>(tb: Tables<S, M>, names: nat -> string) {
    Distinct(names) && forall k: nat :: names(k) !in tb.vars && names(k) !in tb.imgs
  }

  /** tb is base plus temporaries numbered below n. */
  ghost predicate Extends<S, M>(base: Tables<S, M>, tb: Tables<S, M>, n: nat, names: nat -> string) {
    && SharesNoMore(base, tb)
    && forall x: string :: !TmpBelow(x, n, names) ==>
         && (x in tb.vars <==> x in base.vars) && (x in base.vars ==> tb.vars[x] == base.vars[x])
         && (x in tb.imgs <==> x in base.imgs) && (x in base.imgs ==> tb.imgs[x] == base.imgs[x])
  }

  /** A variable and an image of tb share a name only if they did in base. */
  ghost predicate SharesNoMore<S, M>(base: Tables<S, M>, tb: Tables<S, M>) {
    forall x: string :: x in tb.vars && x in tb.imgs ==> x in base.vars && x in base.imgs
  }

  lemma {:induction false} NextTmpIsNew<S, M>(base: Tables<S, M>, tb: Tables<S, M>, n: nat, names: nat -> string)
    requires NoTmp(base, names) && Extends(base, tb, n, names)
    ensures names(n) !in tb.vars && names(n) !in tb.imgs
  {
    assert forall k: nat :: k < n ==> names(n) != names(k);
  }

  /** Everything in tb is also in tb', with the same value. */
  ghost predicate Grows<S, M>(tb: Tables<S, M>, tb': Tables<S, M>) {
    && (forall x: string :: x in tb.vars ==> x in tb'.vars && tb'.vars[x] == tb.vars[x])
    && (forall x: string :: x in tb.imgs ==> x in tb'.imgs && tb'.imgs[x] == tb.imgs[x])
  }

  lemma {:induction false} StoreTmp<S, M>(ops: Ops<S, M>, base: Tables<S, M>, tb: Tables<S, M>, n: nat, names: nat -> string, v: Value<S, M>)
    requires NoTmp(base, names) && Extends(base, tb, n, names)
    ensures var tb', w := Store(tb, names(n), v), Val(NameOf(names(n), v));
            Extends(base, tb', n + 1, names) && Grows(tb, tb') && Readable(tb', w) && Read(ops, tb', w) == v
  {
    NextTmpIsNew(base, tb, n, names);
    StoreExtends(base, tb, n, names, v);
  }

  lemma {:induction false} StoreExtends<S, M>(base: Tables<S, M>, tb: Tables<S, M>, n: nat, names: nat -> string, v: Value<S, M>)
    requires Extends(base, tb, n, names) && names(n) !in tb.vars && names(n) !in tb.imgs
    ensures Extends(base, Store(tb, names(n), v), n + 1, names)
  {
    var tb' := Store(tb, names(n), v);
    forall x: string | !TmpBelow(x, n + 1, names)
      ensures && (x in tb'.vars <==> x in base.vars) && (x in base.vars ==> tb'.vars[x] == base.vars[x])
              && (x in tb'.imgs <==> x in base.imgs) && (x in base.imgs ==> tb'.imgs[x] == base.imgs[x])
    {
      assert !TmpBelow(x, n, names);
    }
  }

  /** Removing the temporaries leaves exactly the entries without a temporary name. */
  lemma {:induction false} DeletedNames<S, M>(tb: Tables<S, M>, names: nat -> string, n: nat)
    ensures var d := DeleteTemporaries(tb, names, n);
            && (forall x: string :: x in d.vars <==> x in tb.vars && !TmpBelow(x, n, names))
            && (forall x: string :: x in d.vars ==> d.vars[x] == tb.vars[x])
            && (forall x: string :: x in d.imgs <==> x in tb.imgs && !TmpBelow(x, n, names))
            && (forall x: string :: x in d.imgs ==> d.imgs[x] == tb.imgs[x])
  {
    if n > 0 {
      DeletedNames(tb, names, n - 1);
      forall x: string ensures TmpBelow(x, n, names) <==> TmpBelow(x, n - 1, names) || x == names(n - 1) {
        if TmpBelow(x, n, names) {
          var k: nat :| k < n && x == names(k);
        }
      }
    }
  }

  // ----- the meaning of words

  /** A word with the value it stands for; a name that is in no table stands for nothing. */
  function Meaning<S, M>(ops: Ops<S, M>, tb: Tables<S, M>, t: Token<Operand>): Token<Value<S, M>> {
    match t
    case Val(_) => if Readable(tb, t) then Val(Read(ops, tb, t)) else Undefined
    case Open => Open
    case Close => Close
    case Op(o) => Op(o)
    case Fn(f) => Fn(f)
    case Lhs(name) => Lhs(name)
    case Equal => Equal
    case Undefined => Undefined
  }

  function Meanings<S, M>(ops: Ops<S, M>, tb: Tables<S, M>, ws: seq<Token<Operand>>): (r: seq<Token<Value<S, M>>>)
    ensures |r| == |ws|
  {
    if |ws| == 0 then [] else Meanings(ops, tb, ws[..|ws| - 1]) + [Meaning(ops, tb, ws[|ws| - 1])]
  }

  lemma {:induction false} EachMeaning<S, M>(ops: Ops<S, M>, tb: Tables<S, M>, ws: seq<Token<Operand>>)
    ensures forall i :: 0 <= i < |ws| ==> Meanings(ops, tb, ws)[i] == Meaning(ops, tb, ws[i])
  {
    if |ws| > 0 { EachMeaning(ops, tb, ws[..|ws| - 1]); }
  }

  lemma {:induction false} MeaningAt<S, M>(ops: Ops<S, M>, tb: Tables<S, M>, ws: seq<Token<Operand>>, i: nat)
    requires i < |ws|
    ensures Meanings(ops, tb, ws)[i] == Meaning(ops, tb, ws[i])
  {
    EachMeaning(ops, tb, ws);
  }

  lemma {:induction false} MeaningsConcat<S, M>(ops: Ops<S, M>, tb: Tables<S, M>, a: seq<Token<Operand>>, b: seq<Token<Operand>>)
    ensures Meanings(ops, tb, a + b) == Meanings(ops, tb, a) + Meanings(ops, tb, b)
    decreases |b|
  {
    if |b| == 0 {
      assert a + b == a;
    } else {
      var b' := b[..|b| - 1];
      assert (a + b)[..|a + b| - 1] == a + b';
      MeaningsConcat(ops, tb, a, b');
    }
  }

  lemma {:induction false} MeaningsOne<S, M>(ops: Ops<S, M>, tb: Tables<S, M>, t: Token<Operand>)
    ensures Meanings(ops, tb, [t]) == [Meaning(ops, tb, t)]
  {
    assert [t][..0] == [];
  }

  ghost predicate AllReadable<S, M>(tb: Tables<S, M>, ws: seq<Token<Operand>>) {
    forall i :: 0 <= i < |ws| && ws[i].Val? ==> Readable(tb, ws[i])
  }

  lemma {:induction false} AcceptedIsReadable<S, M>(ops: Ops<S, M>, tb: Tables<S, M>, ws: seq<Token<Operand>>)
    requires Accepted(Meanings(ops, tb, ws))
    ensures AllReadable(tb, ws)
    ensures forall i :: 0 <= i < |ws| ==> ws[i].Val? || ws[i].Open? || ws[i].Close? || ws[i].Acts()
  {
    EachMeaning(ops, tb, ws);
    var ms := Meanings(ops, tb, ws);
    forall i | 0 <= i < |ws| ensures (ws[i].Val? ==> Readable(tb, ws[i])) && (ws[i].Val? || ws[i].Open? || ws[i].Close? || ws[i].Acts()) {
      Neighbours(ms, i);
    }
  }

  lemma {:induction false} MeaningsGrow<S, M>(ops: Ops<S, M>, tb: Tables<S, M>, tb': Tables<S, M>, ws: seq<Token<Operand>>)
    requires Grows(tb, tb') && AllReadable(tb, ws)
    ensures Meanings(ops, tb', ws) == Meanings(ops, tb, ws) && AllReadable(tb', ws)
  {
    EachMeaning(ops, tb, ws);
    EachMeaning(ops, tb', ws);
  }

  // ----- each step acts on words as it acts on their meanings

  lemma {:induction false} StripMeanings<S, M>(ops: Ops<S, M>, tb: Tables<S, M>, ws: seq<Token<Operand>>, i: nat)
    ensures Meanings(ops, tb, StripFrom(ws, i)) == StripFrom(Meanings(ops, tb, ws), i)
    decreases |ws| - i
  {
    if i + 2 < |ws| {
      MeaningAt(ops, tb, ws, i);
      MeaningAt(ops, tb, ws, i + 2);
      if ws[i].Open? && ws[i + 2].Close? {
        UnwrapMeanings(ops, tb, ws, i);
        StripMeanings(ops, tb, Unwrap(ws, i), i + 1);
      } else {
        StripMeanings(ops, tb, ws, i + 1);
      }
    }
  }

  lemma {:induction false} UnwrapMeanings<S, M>(ops: Ops<S, M>, tb: Tables<S, M>, ws: seq<Token<Operand>>, i: nat)
    requires i + 2 < |ws|
    ensures Meanings(ops, tb, Unwrap(ws, i)) == Unwrap(Meanings(ops, tb, ws), i)
  {
    EachMeaning(ops, tb, ws);
    EachMeaning(ops, tb, Unwrap(ws, i));
  }

  ghost predicate HasAction<V>(ws: seq<Token<V>>) {
    exists i :: 0 <= i < |ws| && ws[i].Acts()
  }

  lemma {:induction false} StripKeepsWords<V>(ws: seq<Token<V>>, i: nat)
    ensures forall t :: t in StripFrom(ws, i) ==> t in ws
    ensures HasAction(ws) ==> HasAction(StripFrom(ws, i))
    decreases |ws| - i
  {
    if i + 2 < |ws| {
      if ws[i].Open? && ws[i + 2].Close? {
        var us := Unwrap(ws, i);
        if k :| 0 <= k < |ws| && ws[k].Acts() {
          assert us[if k < i then k else if k == i + 1 then i else k - 2].Acts();
        }
        StripKeepsWords(us, i + 1);
      } else {
        StripKeepsWords(ws, i + 1);
      }
    }
  }

  lemma {:induction false} LevelMeanings<S, M>(ops: Ops<S, M>, tb: Tables<S, M>, ws: seq<Token<Operand>>, n: nat)
    requires n <= |ws|
    ensures Level(Meanings(ops, tb, ws), n) == Level(ws, n)
  {
    EachMeaning(ops, tb, ws);
    if n > 0 { LevelMeanings(ops, tb, ws, n - 1); }
  }

  lemma {:induction false} ScanMeanings<S, M>(ops: Ops<S, M>, tb: Tables<S, M>, ws: seq<Token<Operand>>, n: nat)
    requires n <= |ws|
    ensures Scan(Meanings(ops, tb, ws), n) == Scan(ws, n)
  {
    EachMeaning(ops, tb, ws);
    if n > 0 {
      ScanMeanings(ops, tb, ws, n - 1);
      LevelMeanings(ops, tb, ws, n - 1);
    }
  }

  // ----- the words before the expression

  /** No parentheses. */
  ghost predicate Flat<V>(p: seq<Token<V>>) {
    forall i :: 0 <= i < |p| ==> !p[i].Open? && !p[i].Close?
  }

  /** Neither parentheses nor operations, as in `name =`. */
  ghost predicate Head<V>(p: seq<Token<V>>) {
    Flat(p) && forall i :: 0 <= i < |p| ==> !p[i].Acts()
  }

  /** Nothing at all, or words up to `=`. */
  ghost predicate Target<V>(p: seq<Token<V>>) {
    p == [] || p[|p| - 1].Equal?
  }

  lemma {:induction false} StripAfter<V>(p: seq<Token<V>>, ws: seq<Token<V>>, i: nat)
    ensures StripFrom(p + ws, |p| + i) == p + StripFrom(ws, i)
    decreases |ws| - i
  {
    if i + 2 < |ws| {
      assert (p + ws)[|p| + i] == ws[i] && (p + ws)[|p| + i + 2] == ws[i + 2];
      if ws[i].Open? && ws[i + 2].Close? {
        UnwrapAfter(p, ws, i);
        StripAfter(p, Unwrap(ws, i), i + 1);
      } else {
        StripAfter(p, ws, i + 1);
      }
    }
  }

  lemma {:induction false} UnwrapAfter<V>(p: seq<Token<V>>, ws: seq<Token<V>>, i: nat)
    requires i + 2 < |ws|
    ensures Unwrap(p + ws, |p| + i) == p + Unwrap(ws, i)
  {
  }

  lemma {:induction false} StripHead<V>(p: seq<Token<V>>, ws: seq<Token<V>>, i: nat)
    requires Flat(p) && i <= |p|
    ensures StripFrom(p + ws, i) == p + StripFrom(ws, 0)
    decreases |p| - i
  {
    if i == |p| {
      StripAfter(p, ws, 0);
    } else {
      StripHead(p, ws, i + 1);
    }
  }

  lemma {:induction false} LevelHead<V>(p: seq<Token<V>>, ws: seq<Token<V>>, n: nat)
    requires Flat(p) && n <= |ws|
    ensures Level(p + ws, |p| + n) == Level(ws, n)
  {
    LevelConcat(p, ws, n);
    FlatLevel(p, 0, |p|);
  }

  lemma {:induction false} ScanHead<V>(p: seq<Token<V>>, ws: seq<Token<V>>, n: nat)
    requires Head(p) && n <= |ws|
    ensures var c := Scan(ws, n); Scan(p + ws, |p| + n) == Choice(c.level, c.priority, if c.index == -1 then -1 else |p| + c.index)
  {
    if n > 0 {
      ScanHead(p, ws, n - 1);
      LevelHead(p, ws, n - 1);
      PickInRange(ws, n - 1);
    } else {
      QuietScan(p + ws, 0, |p|);
      assert Scan(p + ws, 0) == Choice(0, -1, -1);
    }
  }

  lemma {:induction false} CountHead<V>(p: seq<Token<V>>, ws: seq<Token<V>>)
    requires Target(p) && forall i :: 0 <= i < |ws| ==> !ws[i].Equal?
    ensures ToBeProcessed(p + ws) == |ws|
  {
    if |ws| > 0 {
      var ws' := ws[..|ws| - 1];
      assert (p + ws)[..|p + ws| - 1] == p + ws';
      CountHead(p, ws');
    } else {
      assert p + ws == p;
    }
  }

  /** The rule for `( - x )` never applies to an expression of the grammar. */
  lemma {:induction false} NothingToNegate<S, M>(ops: Ops<S, M>, p: seq<Token<Operand>>, ws: seq<Token<Operand>>, st: State<S, M>, i: nat)
    requires Flat(p) && st.ws == p + ws && Accepted(Meanings(ops, st.tb, ws))
    ensures NegateBraces(ops, st, i) == st
    decreases |st.ws| - i
  {
    if i + 3 < |st.ws| {
      NoNegation(ops, st.tb, p, ws, i);
      NothingToNegate(ops, p, ws, st, i + 1);
    }
  }

  lemma {:induction false} NoNegation<S, M>(ops: Ops<S, M>, tb: Tables<S, M>, p: seq<Token<Operand>>, ws: seq<Token<Operand>>, i: nat)
    requires Flat(p) && Accepted(Meanings(ops, tb, ws)) && i + 3 < |p + ws|
    ensures !IsNegation(p + ws, i)
  {
    if IsNegation(p + ws, i) {
      EachMeaning(ops, tb, ws);
      Neighbours(Meanings(ops, tb, ws), i - |p|);
    }
  }

  // ----- a pass, and the loop

  /** A word that names one of the first n temporaries. */
  ghost predicate TmpWord(t: Token<Operand>, n: nat, names: nat -> string) {
    t.Val? && !t.v.Number? && TmpBelow(t.v.name, n, names)
  }

  /** The state is `p ws` over tables that extend base. */
  ghost predicate Running<S, M>(ops: Ops<S, M>, names: nat -> string, base: Tables<S, M>, p: seq<Token<Operand>>, ws: seq<Token<Operand>>, st: State<S, M>) {
    && Head(p) && st.ws == p + ws
    && NoTmp(base, names) && Extends(base, st.tb, st.tmp, names)
    && Accepted(Meanings(ops, st.tb, ws))
  }

  lemma {:induction false} SliceAfter<V>(p: seq<V>, ws: seq<V>, i: nat, w: V, j: nat)
    requires i <= |ws| && j <= |ws|
    ensures (p + ws)[..|p| + i] + [w] + (p + ws)[|p| + j..] == p + (ws[..i] + [w] + ws[j..])
  {
  }

  /** One word in place of a stretch, over grown tables. */
  lemma {:induction false} MeaningsReplace<S, M>(ops: Ops<S, M>, tb: Tables<S, M>, tb': Tables<S, M>, ws: seq<Token<Operand>>,
                                                 i: nat, w: Token<Operand>, j: nat)
    requires Grows(tb, tb') && AllReadable(tb, ws) && Readable(tb', w) && i <= |ws| && j <= |ws|
    ensures var ms := Meanings(ops, tb, ws);
            Meanings(ops, tb', ws[..i] + [w] + ws[j..]) == ms[..i] + [Val(Read(ops, tb', w))] + ms[j..]
  {
    var us := ws[..i] + [w] + ws[j..];
    MeaningsGrow(ops, tb, tb', ws);
    EachMeaning(ops, tb, ws);
    EachMeaning(ops, tb', us);
    var ms := Meanings(ops, tb, ws);
    var ns := ms[..i] + [Val(Read(ops, tb', w))] + ms[j..];
    var r := Meanings(ops, tb', us);
    assert |r| == |ns|;
    forall k | 0 <= k < |us| ensures r[k] == ns[k] {
    }
  }

  /** The value the operation at index k computes. */
  function Computed<S, M>(ops: Ops<S, M>, tb: Tables<S, M>, ws: seq<Token<Operand>>, k: nat): Value<S, M>
    requires k + 1 < |ws| && ws[k].Acts() && Readable(tb, ws[k + 1])
    requires ws[k].Op? ==> k > 0 && Readable(tb, ws[k - 1])
  {
    if ws[k].Op? then Binary(ops, ws[k].o, Read(ops, tb, ws[k - 1]), Read(ops, tb, ws[k + 1]))
    else Unary(ops, ws[k].f, Read(ops, tb, ws[k + 1]))
  }

  lemma {:induction false} ExecuteAfter<S, M>(ops: Ops<S, M>, names: nat -> string, p: seq<Token<Operand>>, ws: seq<Token<Operand>>, st: State<S, M>, k: nat)
    requires st.ws == p + ws
    requires k + 1 < |ws| && ws[k].Acts() && Readable(st.tb, ws[k + 1])
    requires ws[k].Op? ==> k > 0 && Readable(st.tb, ws[k - 1])
    ensures var v, name := Computed(ops, st.tb, ws, k), names(st.tmp);
            ExecuteWords(ops, names, st, |p| + k) ==
            State(p + (ws[..if ws[k].Op? then k - 1 else k] + [Val(NameOf(name, v))] + ws[k + 2..]), Store(st.tb, name, v), st.tmp + 1)
  {
    var w := Val(NameOf(names(st.tmp), Computed(ops, st.tb, ws, k)));
    if ws[k].Op? {
      BinaryAfter(p, ws, k, w);
      assert (p + ws)[|p| + k - 1] == ws[k - 1];
    } else {
      UnaryAfter(p, ws, k, w);
    }
  }

  lemma {:induction false} BinaryAfter<V>(p: seq<Token<V>>, ws: seq<Token<V>>, k: nat, w: Token<V>)
    requires 0 < k && k + 1 < |ws|
    ensures WithBinary(p + ws, |p| + k, w) == p + (ws[..k - 1] + [w] + ws[k + 2..])
  {
    SliceAfter(p, ws, k - 1, w, k + 2);
  }

  lemma {:induction false} UnaryAfter<V>(p: seq<Token<V>>, ws: seq<Token<V>>, k: nat, w: Token<V>)
    requires k + 1 < |ws|
    ensures WithUnary(p + ws, |p| + k, w) == p + (ws[..k] + [w] + ws[k + 2..])
  {
    SliceAfter(p, ws, k, w, k + 2);
  }

  /** Where the chosen operation puts its result. */
  function Place<V>(ws: seq<Token<V>>, k: nat): nat
    requires 0 < k < |ws| || (k < |ws| && !ws[k].Op?)
  {
    if ws[k].Op? then k - 1 else k
  }

  lemma {:induction false} PickedOperation<S, M>(ops: Ops<S, M>, tb: Tables<S, M>, ws: seq<Token<Operand>>, k: nat)
    requires Accepted(Meanings(ops, tb, ws)) && Stripped(Meanings(ops, tb, ws)) && Pick(Meanings(ops, tb, ws)) == k
    ensures k + 1 < |ws| && ws[k].Acts() && Meanings(ops, tb, ws)[k].Acts() && Readable(tb, ws[k + 1])
    ensures ws[k].Op? ==> k > 0 && Readable(tb, ws[k - 1])
    ensures var ms := Meanings(ops, tb, ws);
            && Execute(Alg(ops), ms, k) == ms[..Place(ws, k)] + [Val(Computed(ops, tb, ws, k))] + ms[k + 2..]
            && Accepted(Execute(Alg(ops), ms, k))
  {
    var ms := Meanings(ops, tb, ws);
    PickSurroundings(ms);
    MeaningAt(ops, tb, ws, k);
    MeaningAt(ops, tb, ws, k + 1);
    if ws[k].Op? { MeaningAt(ops, tb, ws, k - 1); }
    ExecuteKeepsShape(Alg(ops), ms, k);
  }

  /** The words after the chosen operation: its result in place of its words. */
  function Replaced(ws: seq<Token<Operand>>, k: nat, w: Token<Operand>): seq<Token<Operand>>
    requires k + 1 < |ws| && (ws[k].Op? ==> k > 0)
  {
    ws[..Place(ws, k)] + [w] + ws[k + 2..]
  }

  /** Executing the chosen operation on words is executing it on their meanings. */
  lemma {:induction false} ExecuteMeanings<S, M>(ops: Ops<S, M>, names: nat -> string, p: seq<Token<Operand>>, ws: seq<Token<Operand>>, st: State<S, M>, k: nat)
    requires st.ws == p + ws && Accepted(Meanings(ops, st.tb, ws)) && Stripped(Meanings(ops, st.tb, ws))
    requires Pick(Meanings(ops, st.tb, ws)) == k && k + 1 < |ws| && ws[k].Acts() && Readable(st.tb, ws[k + 1])
    requires ws[k].Op? ==> k > 0 && Readable(st.tb, ws[k - 1])
    requires var v, name := Computed(ops, st.tb, ws, k), names(st.tmp);
             var tb', w := Store(st.tb, name, v), Val(NameOf(name, v));
             Grows(st.tb, tb') && Readable(tb', w) && Read(ops, tb', w) == v
    ensures var v, name := Computed(ops, st.tb, ws, k), names(st.tmp);
            var tb', ws' := Store(st.tb, name, v), Replaced(ws, k, Val(NameOf(name, v)));
            && ExecuteWords(ops, names, st, |p| + k) == State(p + ws', tb', st.tmp + 1)
            && Meanings(ops, st.tb, ws)[k].Acts() && Meanings(ops, tb', ws') == Execute(Alg(ops), Meanings(ops, st.tb, ws), k)
            && Accepted(Meanings(ops, tb', ws'))
  {
    PickedOperation(ops, st.tb, ws, k);
    AcceptedIsReadable(ops, st.tb, ws);
    var v, name := Computed(ops, st.tb, ws, k), names(st.tmp);
    ExecuteAfter(ops, names, p, ws, st, k);
    MeaningsReplace(ops, st.tb, Store(st.tb, name, v), ws, Place(ws, k), Val(NameOf(name, v)), k + 2);
  }

  lemma {:induction false} ReplacedWords(ws: seq<Token<Operand>>, k: nat, w: Token<Operand>)
    requires k + 1 < |ws| && (ws[k].Op? ==> k > 0)
    ensures w in Replaced(ws, k, w) && forall t :: t in Replaced(ws, k, w) ==> t in ws || t == w
    ensures |Replaced(ws, k, w)| < |ws|
  {
    assert Replaced(ws, k, w)[Place(ws, k)] == w;
  }

  lemma {:induction false} PickHead<V>(p: seq<Token<V>>, s: seq<Token<V>>)
    requires Head(p)
    ensures -1 <= Pick(s) < |s| && Pick(p + s) == if Pick(s) == -1 then -1 else |p| + Pick(s)
    ensures Pick(s) >= 0 ==> s[Pick(s)].Acts()
  {
    ScanHead(p, s, |s|);
    PickInRange(s, |s|);
    assert |p + s| == |p| + |s|;
  }

  /** The pass once braces have been removed and negated. */
  lemma {:induction false} PassOfRest<S, M>(ops: Ops<S, M>, names: nat -> string, st: State<S, M>, st1: State<S, M>, k: int)
    requires st1 == NegateBraces(ops, st.(ws := StripFrom(st.ws, 0)), 0) && k == Pick(st1.ws)
    ensures -1 <= k < |st1.ws| && (k >= 0 ==> st1.ws[k].Acts())
    ensures PassWords(ops, names, st) == if k == -1 then st1 else ExecuteWords(ops, names, st1, k)
  {
    PickInRange(st1.ws, |st1.ws|);
  }

  /** After brace removal: the list the pass works on. */
  lemma {:induction false} StripRunning<S, M>(ops: Ops<S, M>, tb: Tables<S, M>, ws: seq<Token<Operand>>)
    requires Accepted(Meanings(ops, tb, ws))
    ensures var s := StripFrom(ws, 0);
            var ms := Meanings(ops, tb, s);
            && Accepted(ms) && Stripped(ms) && ms == StripFrom(Meanings(ops, tb, ws), 0)
            && Pick(ms) == Pick(s) && (Pick(s) == -1 ==> !HasAction(s))
  {
    var s := StripFrom(ws, 0);
    StripMeanings(ops, tb, ws, 0);
    StripKeeps(Alg(ops), Meanings(ops, tb, ws), 0);
    ScanMeanings(ops, tb, s, |s|);
    NothingPicked(Meanings(ops, tb, s));
    SameActions(ops, tb, s);
  }

  lemma {:induction false} SameActions<S, M>(ops: Ops<S, M>, tb: Tables<S, M>, ws: seq<Token<Operand>>)
    ensures HasAction(Meanings(ops, tb, ws)) <==> HasAction(ws)
  {
    EachMeaning(ops, tb, ws);
    if i :| 0 <= i < |ws| && ws[i].Acts() { assert Meanings(ops, tb, ws)[i].Acts(); }
    if i :| 0 <= i < |ws| && Meanings(ops, tb, ws)[i].Acts() { assert ws[i].Acts(); }
  }

  lemma {:induction false} NothingPicked<V>(ts: seq<Token<V>>)
    ensures Pick(ts) == -1 && Accepted(ts) ==> !HasAction(ts)
  {
    if Accepted(ts) { PickChooses(ts); }
  }

  /** The pass up to the choice of the operation. */
  lemma {:induction false} StrippedPass<S, M>(ops: Ops<S, M>, names: nat -> string, base: Tables<S, M>, p: seq<Token<Operand>>, ws: seq<Token<Operand>>,
                                              st: State<S, M>)
    returns (s: seq<Token<Operand>>, st1: State<S, M>, k: int)
    requires Running(ops, names, base, p, ws, st)
    ensures s == StripFrom(ws, 0) && st1 == st.(ws := p + s) && Running(ops, names, base, p, s, st1) && Stripped(Meanings(ops, st.tb, s))
    ensures -1 <= k < |s| && k == Pick(s) == Pick(Meanings(ops, st.tb, s))
    ensures k == -1 ==> !HasAction(s)
    ensures k >= 0 ==> s[k].Acts()
    ensures Meanings(ops, st.tb, s) == StripFrom(Meanings(ops, st.tb, ws), 0)
  {
    StripRunning(ops, st.tb, ws);
    s := StripFrom(ws, 0);
    st1 := st.(ws := p + s);
    k := Pick(s);
    PickInRange(s, |s|);
  }

  lemma {:induction false} PassIs<S, M>(ops: Ops<S, M>, names: nat -> string, p: seq<Token<Operand>>, ws: seq<Token<Operand>>, st: State<S, M>,
                                        s: seq<Token<Operand>>, st1: State<S, M>, k: int, st': State<S, M>)
    requires Head(p) && st.ws == p + ws && s == StripFrom(ws, 0) && Accepted(Meanings(ops, st.tb, s))
    requires st1 == st.(ws := p + s) && k == Pick(s) && (k >= 0 ==> |p| + k < |st1.ws| && st1.ws[|p| + k].Acts())
    requires st' == if k < 0 then st1 else ExecuteWords(ops, names, st1, |p| + k)
    ensures st' == PassWords(ops, names, st)
  {
    StripHead(p, ws, 0);
    NothingToNegate(ops, p, s, st1, 0);
    PickHead(p, s);
    PassOfRest(ops, names, st, st1, if k < 0 then -1 else |p| + k);
  }

  lemma {:induction false} PassMeanings<S, M>(ops: Ops<S, M>, names: nat -> string, base: Tables<S, M>, p: seq<Token<Operand>>, ws: seq<Token<Operand>>,
                                              st: State<S, M>)
    returns (st': State<S, M>, ws': seq<Token<Operand>>, w: Token<Operand>)
    requires Running(ops, names, base, p, ws, st) && |ws| > 1
    ensures st' == PassWords(ops, names, st)
    ensures Running(ops, names, base, p, ws', st') && st'.tmp >= st.tmp
    ensures Meanings(ops, st'.tb, ws') == Pass(Alg(ops), Meanings(ops, st.tb, ws))
    ensures Leaves(ws, ws', w, st'.tmp, names) && |ws'| < |ws|
  {
    PassShortens(Alg(ops), Meanings(ops, st.tb, ws));
    var s, st1, k := StrippedPass(ops, names, base, p, ws, st);
    PassOfStripped(Alg(ops), Meanings(ops, st.tb, ws), Meanings(ops, st.tb, s));
    if k == -1 {
      st', ws', w := st1, s, Undefined;
      PassIs(ops, names, p, ws, st, s, st1, k, st');
      StrippedLeaves(ws, w, st.tmp, names);
    } else {
      st', ws', w := OperationMeanings(ops, names, base, p, s, st1, k);
      PassIs(ops, names, p, ws, st, s, st1, k, st');
      StripKeepsWords(ws, 0);
      NoActionStripped(ws, k);
      OperationLeaves(ws, s, ws', w, st.tmp + 1, names);
    }
  }

  lemma {:induction false} StrippedLeaves(ws: seq<Token<Operand>>, w: Token<Operand>, n: nat, names: nat -> string)
    requires !HasAction(StripFrom(ws, 0))
    ensures Leaves(ws, StripFrom(ws, 0), w, n, names)
  {
    StripKeepsWords(ws, 0);
  }

  lemma {:induction false} PassOfStripped<V>(alg: Algebra<V>, ts: seq<Token<V>>, s: seq<Token<V>>)
    requires s == StripFrom(ts, 0)
    ensures -1 <= Pick(s) < |s| && (Pick(s) >= 0 ==> s[Pick(s)].Acts())
    ensures Pass(alg, ts) == if Pick(s) == -1 then s else Execute(alg, s, Pick(s))
  {
    PickInRange(s, |s|);
  }

  lemma {:induction false} OperationLeaves(ws: seq<Token<Operand>>, s: seq<Token<Operand>>, ws': seq<Token<Operand>>,
                                           w: Token<Operand>, n: nat, names: nat -> string)
    requires HasAction(ws) && w in ws' && TmpWord(w, n, names)
    requires forall t :: t in s ==> t in ws
    requires forall t :: t in ws' ==> t in s || t == w
    ensures Leaves(ws, ws', w, n, names)
  {
  }

  lemma {:induction false} OperationMeanings<S, M>(ops: Ops<S, M>, names: nat -> string, base: Tables<S, M>, p: seq<Token<Operand>>, ws: seq<Token<Operand>>,
                                                   st: State<S, M>, k: nat)
    returns (st': State<S, M>, ws': seq<Token<Operand>>, w: Token<Operand>)
    requires Running(ops, names, base, p, ws, st) && Stripped(Meanings(ops, st.tb, ws)) && Pick(Meanings(ops, st.tb, ws)) == k
    ensures k < |ws| && |p| + k < |st.ws| && st.ws[|p| + k].Acts() && Meanings(ops, st.tb, ws)[k].Acts()
    ensures st' == ExecuteWords(ops, names, st, |p| + k)
    ensures Running(ops, names, base, p, ws', st') && st'.tmp == st.tmp + 1
    ensures Meanings(ops, st'.tb, ws') == Execute(Alg(ops), Meanings(ops, st.tb, ws), k)
    ensures TmpWord(w, st'.tmp, names)
    ensures w in ws' && forall t :: t in ws' ==> t in ws || t == w
  {
    PickedOperation(ops, st.tb, ws, k);
    var v := Computed(ops, st.tb, ws, k);
    w := Val(NameOf(names(st.tmp), v));
    ws' := Replaced(ws, k, w);
    st' := State(p + ws', Store(st.tb, names(st.tmp), v), st.tmp + 1);
    StoreTmp(ops, base, st.tb, st.tmp, names, v);
    ExecuteMeanings(ops, names, p, ws, st, k);
    ReplacedWords(ws, k, w);
  }

  lemma {:induction false} NoActionStripped<V>(ws: seq<Token<V>>, k: nat)
    requires k < |StripFrom(ws, 0)| && StripFrom(ws, 0)[k].Acts()
    ensures HasAction(ws)
  {
    StripKeepsWords(ws, 0);
    assert StripFrom(ws, 0)[k] in ws;
  }

  /** The words a pass leaves: words that were there, and w, a temporary, if an operation was executed. */
  ghost predicate Leaves(ws: seq<Token<Operand>>, ws': seq<Token<Operand>>, w: Token<Operand>, n: nat, names: nat -> string) {
    && (HasAction(ws) ==> w in ws' && TmpWord(w, n, names))
    && (forall t :: t in ws' ==> t in ws || TmpWord(t, n, names))
    && (!HasAction(ws) ==> !HasAction(ws') && forall t :: t in ws' ==> t in ws)
  }

  /** Without an operator there is only one operand. */
  lemma {:induction false} OnlyOneOperand<V>(ts: seq<Token<V>>, i: nat, j: nat)
    requires Accepted(ts) && !HasAction(ts) && i < j < |ts| && Completes(ts[i])
    ensures ts[j].Close?
  {
    Neighbours(ts, j - 1);
    if i < j - 1 {
      OnlyOneOperand(ts, i, j - 1);
    }
  }

  lemma {:induction false} SameOperand<V>(ts: seq<Token<V>>, i: nat, j: nat)
    requires Accepted(ts) && !HasAction(ts) && i < |ts| && j < |ts| && ts[i].Val? && ts[j].Val?
    ensures i == j
  {
    if i < j { OnlyOneOperand(ts, i, j); } else if j < i { OnlyOneOperand(ts, j, i); }
  }

  /** w is what is left of ws: a temporary if there was anything to do, a word of ws otherwise. */
  ghost predicate Remains(ws: seq<Token<Operand>>, w: Token<Operand>, n: nat, names: nat -> string) {
    if HasAction(ws) then TmpWord(w, n, names) else w in ws
  }

  lemma {:induction false} ExpressionLength<S, M>(ops: Ops<S, M>, tb: Tables<S, M>, p: seq<Token<Operand>>, ws: seq<Token<Operand>>)
    requires Target(p) && Accepted(Meanings(ops, tb, ws))
    ensures ToBeProcessed(p + ws) == |ws| > 0
    ensures |ws| == 1 ==> Readable(tb, ws[0]) && !ws[0].Acts() && Meanings(ops, tb, ws) == [Val(Read(ops, tb, ws[0]))]
  {
    AcceptedIsReadable(ops, tb, ws);
    CountHead(p, ws);
    NotEmpty(Meanings(ops, tb, ws));
    Neighbours(Meanings(ops, tb, ws), 0);
    EachMeaning(ops, tb, ws);
  }

  /** The loop ends with one word that stands for the result of the loop on values. */
  lemma {:induction false} LoopMeanings<S, M>(ops: Ops<S, M>, names: nat -> string, base: Tables<S, M>, p: seq<Token<Operand>>, ws: seq<Token<Operand>>,
                                              st: State<S, M>)
    returns (st': State<S, M>, w: Token<Operand>)
    requires Running(ops, names, base, p, ws, st) && Target(p)
    ensures ReduceWords(ops, names, st) == Ended(st') && st'.ws == p + [w] && Readable(st'.tb, w)
    ensures Loop(Alg(ops), Meanings(ops, st.tb, ws)) == Ends([Val(Read(ops, st'.tb, w))])
    ensures Extends(base, st'.tb, st'.tmp, names) && st'.tmp >= st.tmp && Remains(ws, w, st'.tmp, names)
    decreases |ws|
  {
    ExpressionLength(ops, st.tb, p, ws);
    if |ws| <= 1 {
      st', w := st, ws[0];
      assert ws == [w];
    } else {
      var st1, ws1, w1 := PassMeanings(ops, names, base, p, ws, st);
      st', w := LoopMeanings(ops, names, base, p, ws1, st1);
      LoopRemains(ops, names, ws, ws1, w1, w, st1, st'.tmp);
    }
  }

  /** Which word is left after the remaining passes. */
  lemma {:induction false} LoopRemains<S, M>(ops: Ops<S, M>, names: nat -> string, ws: seq<Token<Operand>>, ws1: seq<Token<Operand>>,
                                             w1: Token<Operand>, w: Token<Operand>, st1: State<S, M>, n: nat)
    requires st1.tmp <= n && Accepted(Meanings(ops, st1.tb, ws1)) && w.Val?
    requires Remains(ws1, w, n, names) && Leaves(ws, ws1, w1, st1.tmp, names)
    ensures Remains(ws, w, n, names)
  {
    if HasAction(ws) && !HasAction(ws1) {
      var i :| 0 <= i < |ws1| && ws1[i] == w;
      var j :| 0 <= j < |ws1| && ws1[j] == w1;
      var ms1 := Meanings(ops, st1.tb, ws1);
      AcceptedIsReadable(ops, st1.tb, ws1);
      EachMeaning(ops, st1.tb, ws1);
      forall k | 0 <= k < |ms1| ensures !ms1[k].Acts() { assert !ws1[k].Acts(); }
      SameOperand(ms1, i, j);
    }
  }

  // ----- numbers

  /** ws' is ws with its numbers replaced by temporaries. */
  ghost predicate Saved(ws: seq<Token<Operand>>, ws': seq<Token<Operand>>, n: nat, names: nat -> string) {
    && |ws'| == |ws|
    && forall i :: 0 <= i < |ws| ==>
         if ws[i].Val? && ws[i].v.Number? then ws'[i] == ws[i] || TmpWord(ws'[i], n, names) else ws'[i] == ws[i]
  }

  /** None of the first n words is a number. */
  ghost predicate NoNumbers(ws: seq<Token<Operand>>, n: nat) {
    forall i :: 0 <= i < |ws| && i < n && ws[i].Val? ==> !ws[i].v.Number?
  }

  lemma {:induction false} SaveOneMeanings<S, M>(ops: Ops<S, M>, names: nat -> string, base: Tables<S, M>, p: seq<Token<Operand>>, ws: seq<Token<Operand>>,
                                                 st: State<S, M>, i: nat)
    returns (st': State<S, M>, ws': seq<Token<Operand>>)
    requires Running(ops, names, base, p, ws, st) && i < |ws| && NoNumbers(ws, i)
    ensures st' == SaveOne(ops, names, st, |p| + i)
    ensures Running(ops, names, base, p, ws', st') && st'.tmp >= st.tmp
    ensures Meanings(ops, st'.tb, ws') == Meanings(ops, st.tb, ws)
    ensures Saved(ws, ws', st'.tmp, names) && NoNumbers(ws', i + 1)
  {
    st', ws' := st, ws;
    if ws[i].Val? && ws[i].v.Number? {
      var v: Value<S, M> := Scalar(ops.number(ws[i].v.text));
      var w := Val(Variable(names(st.tmp)));
      StoreTmp(ops, base, st.tb, st.tmp, names, v);
      ws' := ws[i := w];
      UpdateAfter(p, ws, i, w);
      st' := State(p + ws', Store(st.tb, names(st.tmp), v), st.tmp + 1);
      SameMeaning(ops, st.tb, st'.tb, ws, i, w);
      assert TmpBelow(names(st.tmp), st'.tmp, names);
    }
  }

  lemma {:induction false} UpdateAfter<V>(p: seq<V>, ws: seq<V>, i: nat, w: V)
    requires i < |ws|
    ensures (p + ws)[|p| + i := w] == p + ws[i := w]
  {
  }

  /** A word may be replaced by one with the same value. */
  lemma {:induction false} SameMeaning<S, M>(ops: Ops<S, M>, tb: Tables<S, M>, tb': Tables<S, M>, ws: seq<Token<Operand>>, i: nat, w: Token<Operand>)
    requires Accepted(Meanings(ops, tb, ws)) && Grows(tb, tb') && i < |ws|
    requires Readable(tb, ws[i]) && Readable(tb', w) && Read(ops, tb', w) == Read(ops, tb, ws[i])
    ensures Meanings(ops, tb', ws[i := w]) == Meanings(ops, tb, ws)
  {
    var us := ws[i := w];
    AcceptedIsReadable(ops, tb, ws);
    forall j | 0 <= j < |ws| ensures Meanings(ops, tb', us)[j] == Meanings(ops, tb, ws)[j] {
      MeaningAt(ops, tb', us, j);
      MeaningAt(ops, tb, ws, j);
    }
  }

  lemma {:induction false} SaveMeanings<S, M>(ops: Ops<S, M>, names: nat -> string, base: Tables<S, M>, p: seq<Token<Operand>>, ws: seq<Token<Operand>>,
                                              st: State<S, M>, i: nat)
    returns (st': State<S, M>, ws': seq<Token<Operand>>)
    requires Running(ops, names, base, p, ws, st) && i <= |ws| && NoNumbers(ws, i)
    ensures st' == SaveNumbers(ops, names, st, |p| + i)
    ensures Running(ops, names, base, p, ws', st') && st'.tmp >= st.tmp
    ensures Meanings(ops, st'.tb, ws') == Meanings(ops, st.tb, ws) && Saved(ws, ws', st'.tmp, names)
    ensures NoNumbers(ws', |ws'|)
    decreases |ws| - i
  {
    if i == |ws| {
      st', ws' := st, ws;
      SaveEnds(ops, names, st, |p| + i);
    } else {
      var st1, ws1 := SaveOneMeanings(ops, names, base, p, ws, st, i);
      st', ws' := SaveMeanings(ops, names, base, p, ws1, st1, i + 1);
      SaveNext(ops, names, st, st1, st', |p| + i);
      SavedTrans(ws, ws1, ws', st1.tmp, st'.tmp, names);
    }
  }

  lemma {:induction false} SaveEnds<S, M>(ops: Ops<S, M>, names: nat -> string, st: State<S, M>, i: nat)
    requires i == |st.ws|
    ensures SaveNumbers(ops, names, st, i) == st
  {
  }

  lemma {:induction false} SaveNext<S, M>(ops: Ops<S, M>, names: nat -> string, st: State<S, M>, st1: State<S, M>, st2: State<S, M>, i: nat)
    requires i < |st.ws| == |st1.ws| && st1 == SaveOne(ops, names, st, i) && st2 == SaveNumbers(ops, names, st1, i + 1)
    ensures SaveNumbers(ops, names, st, i) == st2
  {
  }

  lemma {:induction false} SavedTrans(ws: seq<Token<Operand>>, ws1: seq<Token<Operand>>, ws2: seq<Token<Operand>>, m: nat, n: nat, names: nat -> string)
    requires Saved(ws, ws1, m, names) && Saved(ws1, ws2, n, names) && m <= n
    ensures Saved(ws, ws2, n, names)
  {
    forall t: Token<Operand> ensures TmpWord(t, m, names) ==> TmpWord(t, n, names) {
    }
  }

  lemma {:induction false} SaveSkipsHead<S, M>(ops: Ops<S, M>, names: nat -> string, st: State<S, M>, i: nat)
    requires i <= |st.ws| && NoNumbers(st.ws, i)
    ensures SaveNumbers(ops, names, st, 0) == SaveNumbers(ops, names, st, i)
  {
    if i > 0 {
      SaveSkipsHead(ops, names, st, i - 1);
      assert SaveOne(ops, names, st, i - 1) == st;
    }
  }

  // ----- whole commands

  /** What the loop makes of an expression. */
  ghost function LoopValue<V>(alg: Algebra<V>, e: Expr<V>): V
    requires WellFormed(e) && NoDoubled(e)
  {
    ReductionCorrect(alg, e);
    Loop(alg, Print(e)).ts[0].v
  }

  /** The word left before the end of the command: a temporary, unless the expression is a single name. */
  ghost predicate Left(ws: seq<Token<Operand>>, w: Token<Operand>, n: nat, names: nat -> string) {
    if HasAction(ws) then TmpWord(w, n, names)
    else exists i :: 0 <= i < |ws| && ws[i].Val? && if ws[i].v.Number? then TmpWord(w, n, names) else w == ws[i]
  }

  lemma {:induction false} SavedLeft(ws: seq<Token<Operand>>, ws1: seq<Token<Operand>>, w: Token<Operand>, m: nat, n: nat, names: nat -> string)
    requires Saved(ws, ws1, m, names) && Remains(ws1, w, n, names) && m <= n && w.Val?
    requires NoNumbers(ws1, |ws1|)
    ensures Left(ws, w, n, names)
  {
    SavedActions(ws, ws1, m, names);
    if !HasAction(ws1) {
      var i :| 0 <= i < |ws1| && ws1[i] == w;
      assert ws[i].Val?;
    }
  }

  /** The words of a command once its numbers have been saved. */
  lemma {:induction false} CommandSaved<S, M>(ops: Ops<S, M>, names: nat -> string, tb: Tables<S, M>, p: seq<Token<Operand>>, ws: seq<Token<Operand>>)
    returns (st1: State<S, M>, ws1: seq<Token<Operand>>)
    requires Head(p) && NoNumbers(p, |p|) && NoTmp(tb, names) && Accepted(Meanings(ops, tb, ws))
    ensures st1 == SaveNumbers(ops, names, State(p + ws, tb, 0), 0)
    ensures Running(ops, names, tb, p, ws1, st1) && Meanings(ops, st1.tb, ws1) == Meanings(ops, tb, ws)
    ensures Saved(ws, ws1, st1.tmp, names) && NoNumbers(ws1, |ws1|)
  {
    var st0 := State(p + ws, tb, 0);
    SaveSkipsHead(ops, names, st0, |p|);
    st1, ws1 := SaveMeanings(ops, names, tb, p, ws, st0, 0);
  }

  /** Everything up to the end of a command. */
  lemma {:induction false} CommandReduces<S, M>(ops: Ops<S, M>, names: nat -> string, tb: Tables<S, M>, p: seq<Token<Operand>>,
                                                ws: seq<Token<Operand>>, e: Expr<Value<S, M>>)
    returns (st: State<S, M>, w: Token<Operand>)
    requires Head(p) && Target(p) && NoNumbers(p, |p|) && NoTmp(tb, names) && WellFormed(e) && NoDoubled(e) && Meanings(ops, tb, ws) == Print(e)
    ensures RunCommand(ops, names, p + ws, tb) == Finish(st, names)
    ensures st.ws == p + [w] && Extends(tb, st.tb, st.tmp, names) && Left(ws, w, st.tmp, names)
    ensures Readable(st.tb, w) && Read(ops, st.tb, w) == LoopValue(Alg(ops), e)
  {
    PrintAccepted(e);
    var st1, ws1 := CommandSaved(ops, names, tb, p, ws);
    st, w := LoopMeanings(ops, names, tb, p, ws1, st1);
    SavedLeft(ws, ws1, w, st1.tmp, st.tmp, names);
    RunFinishes(ops, names, State(p + ws, tb, 0), st1, st);
  }

  lemma {:induction false} RunFinishes<S, M>(ops: Ops<S, M>, names: nat -> string, st0: State<S, M>, st1: State<S, M>, st: State<S, M>)
    requires st0.tmp == 0 && SaveNumbers(ops, names, st0, 0) == st1 && ReduceWords(ops, names, st1) == Ended(st)
    ensures RunCommand(ops, names, st0.ws, st0.tb) == Finish(st, names)
  {
    assert st0 == State(st0.ws, st0.tb, 0);
  }

  lemma {:induction false} SavedActions(ws: seq<Token<Operand>>, ws': seq<Token<Operand>>, n: nat, names: nat -> string)
    requires Saved(ws, ws', n, names)
    ensures HasAction(ws) <==> HasAction(ws')
  {
    if i :| 0 <= i < |ws| && ws[i].Acts() { assert ws'[i].Acts(); }
    if i :| 0 <= i < |ws'| && ws'[i].Acts() { assert ws[i].Acts(); }
  }

  /** The tables after name has been given the value r. */
  function Assigned<S, M>(tb: Tables<S, M>, name: string, r: Value<S, M>): Tables<S, M> {
    match r
    case Scalar(s) => Tables(tb.vars[name := s], tb.imgs - {name})
    case Picture(m) => Tables(tb.vars - {name}, tb.imgs[name := m])
  }

  lemma {:induction false} NoTmpBelow<S, M>(tb: Tables<S, M>, names: nat -> string, n: nat)
    requires NoTmp(tb, names)
    ensures forall x: string :: TmpBelow(x, n, names) ==> x !in tb.vars && x !in tb.imgs
  {
    forall x: string | TmpBelow(x, n, names) ensures x !in tb.vars && x !in tb.imgs {
      var k: nat :| k < n && x == names(k);
    }
  }

  /** Removing the temporaries of tb' gives tb back. */
  lemma {:induction false} CleanUpRestores<S, M>(tb: Tables<S, M>, tb': Tables<S, M>, n: nat, names: nat -> string)
    requires NoTmp(tb, names) && Extends(tb, tb', n, names)
    ensures DeleteTemporaries(tb', names, n) == tb
  {
    DeletedNames(tb', names, n);
    NoTmpBelow(tb, names, n);
    var d := DeleteTemporaries(tb', names, n);
    assert d.vars == tb.vars;
    assert d.imgs == tb.imgs;
  }

  /** Giving a name a scalar, with temporaries around. */
  lemma {:induction false} AssignScalar<S, M>(tb: Tables<S, M>, tb': Tables<S, M>, n: nat, names: nat -> string, name: string, s: S)
    requires NoTmp(tb, names) && Extends(tb, tb', n, names) && !IsTmp(name, names)
    ensures DeleteTemporaries(CreateVariable(DeleteName(tb', name), name, s), names, n) == Assigned(tb, name, Scalar(s))
  {
    var goal := Assigned(tb, name, Scalar(s));
    var tb1 := CreateVariable(DeleteName(tb', name), name, s);
    assert !TmpBelow(name, n, names);
    CleanUpRestores(goal, tb1, n, names);
  }

  /** Moving an image to a name, with temporaries around; x itself is a temporary or an entry of tb. */
  lemma {:induction false} MoveImage<S, M>(tb: Tables<S, M>, tb': Tables<S, M>, n: nat, names: nat -> string, name: string, x: string, m: M)
    requires NoTmp(tb, names) && Extends(tb, tb', n, names) && !IsTmp(name, names) && x != name
    ensures DeleteTemporaries(Tables(tb'.vars - {name}, (tb'.imgs - {name} - {x})[name := m]), names, n)
         == Tables(tb.vars - {name}, (tb.imgs - {x})[name := m])
  {
    var goal := Tables(tb.vars - {name}, (tb.imgs - {x})[name := m]);
    var tb1 := Tables(tb'.vars - {name}, (tb'.imgs - {name} - {x})[name := m]);
    assert !TmpBelow(name, n, names);
    CleanUpRestores(goal, tb1, n, names);
  }

  /** What the command `name = w` does when w is a single word with value r.  A name assigned to itself
      is deleted before it is read; an image is not copied but moved to its new name. */
  function SingleEffect<S, M>(tb: Tables<S, M>, name: string, w: Operand, r: Value<S, M>): Result<S, M> {
    match w
    case Number(_) => Done(Assigned(tb, name, r), Show(r))
    case Variable(x) => if x == name then Fault else Done(Assigned(tb, name, r), Show(r))
    case Image(x) => if x == name then Fault else Done(Assigned(tb.(imgs := tb.imgs - {x}), name, r), Show(r))
  }

  function Show<S, M>(r: Value<S, M>): Printed<S> {
    if r.Scalar? then Prints(r.s) else Silent
  }

  /** The end of a command `t = e` once e has become one word; name is the text of t. */
  lemma {:induction false} FinishAssignment<S, M>(ops: Ops<S, M>, names: nat -> string, tb: Tables<S, M>, name: string, st: State<S, M>,
                                                  t: Token<Operand>, w: Token<Operand>)
    requires NoTmp(tb, names) && Extends(tb, st.tb, st.tmp, names) && !IsTmp(name, names)
    requires st.ws == [t, Equal, w] && WordOf(t) == Some(name) && Readable(st.tb, w)
    ensures TmpWord(w, st.tmp, names) ==>
              Finish(st, names) == Done(Assigned(tb, name, Read(ops, st.tb, w)), Show(Read(ops, st.tb, w)))
    ensures !w.v.Number? ==> TmpWord(w, st.tmp, names) || Finish(st, names) == SingleEffect(tb, name, w.v, Read(ops, st.tb, w))
  {
    if !w.v.Number? {
      var x := w.v.name;
      if x != name {
        match Read(ops, st.tb, w)
        case Scalar(s) =>
          FinishScalar(names, tb, name, st, t, x);
        case Picture(m) =>
          FinishPicture(names, tb, name, st, t, x);
          NoTmpBelow(tb, names, st.tmp);
          if TmpWord(w, st.tmp, names) {
            assert tb.imgs - {x} == tb.imgs;
          }
      }
    }
  }

  lemma {:induction false} FinishScalar<S, M>(names: nat -> string, tb: Tables<S, M>, name: string, st: State<S, M>, t: Token<Operand>, x: string)
    requires NoTmp(tb, names) && Extends(tb, st.tb, st.tmp, names) && !IsTmp(name, names)
    requires st.ws == [t, Equal, Val(Variable(x))] && WordOf(t) == Some(name) && x in st.tb.vars && x != name
    ensures Finish(st, names) == Done(Assigned(tb, name, Scalar(st.tb.vars[x])), Prints(st.tb.vars[x]))
  {
    AssignScalar(tb, st.tb, st.tmp, names, name, st.tb.vars[x]);
  }

  lemma {:induction false} FinishPicture<S, M>(names: nat -> string, tb: Tables<S, M>, name: string, st: State<S, M>, t: Token<Operand>, x: string)
    requires NoTmp(tb, names) && Extends(tb, st.tb, st.tmp, names) && !IsTmp(name, names)
    requires st.ws == [t, Equal, Val(Image(x))] && WordOf(t) == Some(name) && x in st.tb.imgs && x != name
    ensures Finish(st, names) == Done(Tables(tb.vars - {name}, (tb.imgs - {x})[name := st.tb.imgs[x]]), Silent)
  {
    MoveImage(tb, st.tb, st.tmp, names, name, x, st.tb.imgs[x]);
  }

  /** Main result on commands `name = e`: when e contains an operation, name gets the value of the loop,
      every other entry keeps its own and no temporary is left; a single word has its own effect.
      The value is that of the expression when no depth is spoiled. */
  lemma {:induction false} AssignmentEffect<S, M>(ops: Ops<S, M>, names: nat -> string, tb: Tables<S, M>, name: string, ws: seq<Token<Operand>>,
                                                  e: Expr<Value<S, M>>)
    requires NoTmp(tb, names) && !IsTmp(name, names) && WellFormed(e) && NoDoubled(e) && Meanings(ops, tb, ws) == Print(e)
    ensures var r := LoopValue(Alg(ops), e);
            HasAction(ws) ==> RunCommand(ops, names, [Lhs(name), Equal] + ws, tb) == Done(Assigned(tb, name, r), Show(r))
    ensures var r := LoopValue(Alg(ops), e);
            forall w: Operand :: !HasAction(ws) && Val(w) in ws ==>
              RunCommand(ops, names, [Lhs(name), Equal] + ws, tb) == SingleEffect(tb, name, w, r)
    ensures Ordered(Print(e)) ==> LoopValue(Alg(ops), e) == Eval(Alg(ops), e)
  {
    ReductionCorrect(Alg(ops), e);
    var p := [Lhs(name), Equal];
    var st, w := CommandReduces(ops, names, tb, p, ws, e);
    assert p + [w] == [Lhs(name), Equal, w];
    FinishAssignment(ops, names, tb, name, st, Lhs(name), w);
    if !HasAction(ws) {
      var i :| 0 <= i < |ws| && ws[i].Val? && if ws[i].v.Number? then TmpWord(w, st.tmp, names) else w == ws[i];
      forall w0: Operand | Val(w0) in ws ensures w0 == ws[i].v { OnlyOperand(ops, tb, ws, e, i, w0); }
      if !ws[i].v.Number? { NameIsNoTmp(ops, tb, ws, e, i, st.tmp, names); }
    }
  }

  lemma {:induction false} OnlyOperand<S, M>(ops: Ops<S, M>, tb: Tables<S, M>, ws: seq<Token<Operand>>, e: Expr<Value<S, M>>, i: nat, w: Operand)
    requires WellFormed(e) && NoDoubled(e) && Meanings(ops, tb, ws) == Print(e) && !HasAction(ws)
    requires i < |ws| && ws[i].Val? && Val(w) in ws
    ensures w == ws[i].v
  {
    PrintAccepted(e);
    var j :| 0 <= j < |ws| && ws[j] == Val(w);
    EachMeaning(ops, tb, ws);
    AcceptedIsReadable(ops, tb, ws);
    SameActions(ops, tb, ws);
    SameOperand(Meanings(ops, tb, ws), i, j);
  }

  /** A name in an expression is in the tables, so it is no temporary. */
  lemma {:induction false} NameIsNoTmp<S, M>(ops: Ops<S, M>, tb: Tables<S, M>, ws: seq<Token<Operand>>, e: Expr<Value<S, M>>, i: nat,
                                             n: nat, names: nat -> string)
    requires NoTmp(tb, names) && WellFormed(e) && NoDoubled(e) && Meanings(ops, tb, ws) == Print(e) && i < |ws| && ws[i].Val?
    ensures !TmpWord(ws[i], n, names)
  {
    PrintAccepted(e);
    AcceptedIsReadable(ops, tb, ws);
    NoTmpBelow(tb, names, n);
  }

  /** A command without `=` prints its value and changes nothing; an image is looked up as a variable, and not found
      unless it shares its name with one. */
  lemma {:induction false} PrintEffect<S, M>(ops: Ops<S, M>, names: nat -> string, tb: Tables<S, M>, ws: seq<Token<Operand>>, e: Expr<Value<S, M>>)
    requires NoTmp(tb, names) && WellFormed(e) && NoDoubled(e) && Meanings(ops, tb, ws) == Print(e)
    ensures var r := LoopValue(Alg(ops), e);
            && (r.Scalar? ==> RunCommand(ops, names, ws, tb) == Done(tb, Prints(r.s)))
            && (r.Picture? && NamesNoVariable(tb, ws) ==> RunCommand(ops, names, ws, tb) == Fault)
    ensures Ordered(Print(e)) ==> LoopValue(Alg(ops), e) == Eval(Alg(ops), e)
  {
    ReductionCorrect(Alg(ops), e);
    var st, w := CommandReduces(ops, names, tb, [], ws, e);
    assert [] + ws == ws && [] + [w] == [w];
    FinishPrint(ops, names, tb, ws, st, w);
  }

  /** No image among the words has the name of a variable. */
  ghost predicate NamesNoVariable<S, M>(tb: Tables<S, M>, ws: seq<Token<Operand>>) {
    forall i :: 0 <= i < |ws| && ws[i].Val? && ws[i].v.Image? ==> ws[i].v.name !in tb.vars
  }

  /** The end of a command without `=`. */
  lemma {:induction false} FinishPrint<S, M>(ops: Ops<S, M>, names: nat -> string, tb: Tables<S, M>, ws: seq<Token<Operand>>, st: State<S, M>,
                                             w: Token<Operand>)
    requires NoTmp(tb, names) && Extends(tb, st.tb, st.tmp, names) && st.ws == [w] && Readable(st.tb, w) && Left(ws, w, st.tmp, names)
    ensures var r := Read(ops, st.tb, w);
            && (r.Scalar? ==> Finish(st, names) == Done(tb, Prints(r.s)))
            && (r.Picture? && NamesNoVariable(tb, ws) ==> Finish(st, names) == Fault)
  {
    CleanUpRestores(tb, st.tb, st.tmp, names);
    LeftIsNoNumber(ws, w, st.tmp, names);
    if w.v.Image? {
      NoTmpBelow(tb, names, st.tmp);
      if w.v.name in tb.vars { assert !TmpBelow(w.v.name, st.tmp, names); }
    }
  }

  lemma {:induction false} LeftIsNoNumber(ws: seq<Token<Operand>>, w: Token<Operand>, n: nat, names: nat -> string)
    requires Left(ws, w, n, names) && w.Val?
    ensures !w.v.Number? && (TmpWord(w, n, names) || w in ws)
  {
    if !HasAction(ws) {
      var i :| 0 <= i < |ws| && ws[i].Val? && if ws[i].v.Number? then TmpWord(w, n, names) else w == ws[i];
    }
  }
}
