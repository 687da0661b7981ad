/** One pass of the reduction loop, and the loop itself, on a word list of operand values. */
module ArithPass {
  import opened ArithSyntax

  /** Removal of braces around one word, scanning once from left to right from index i.
      The scan continues after the word it uncovered and never looks back. */
  function StripFrom<V>(ts: seq<Token<V>>, i: nat): seq<Token<V>>
    decreases |ts| - i
  {
    if i + 2 < |ts| then
      if ts[i].Open? && ts[i + 2].Close? then
        StripFrom(Unwrap(ts, i), i + 1)
      else
        StripFrom(ts, i + 1)
    else
      ts
  }

  /** ts without the words i and i + 2. */
  function Unwrap<V>(ts: seq<Token<V>>, i: nat): seq<Token<V>>
    requires i + 2 < |ts|
  {
    ts[..i] + [ts[i + 1]] + ts[i + 3..]
  }

  /** The parenthesis level before word n. */
  function Level<V>(ts: seq<Token<V>>, n: nat): int
    requires n <= |ts|
  {
    if n == 0 then 0
    else Level(ts, n - 1) + (if ts[n - 1].Open? then 1 else if ts[n - 1].Close? then -1 else 0)
  }

  /** State of the scan for the operation to execute: highest level seen, priority recorded for
      the chosen word, and the index of that word (-1 when there is none). */
  datatype Choice = Choice(level: int, priority: int, index: int)

  function Scan<V>(ts: seq<Token<V>>, n: nat): Choice
    requires n <= |ts|
  {
    if n == 0 then Choice(0, -1, -1)
    else
      var c := Scan(ts, n - 1);
      var t := ts[n - 1];
      if !t.Acts() then c
      else
        var l := Level(ts, n - 1);
        if l > c.level then Choice(l, 0, n - 1)
        else if l == c.level && t.Priority() > c.priority then Choice(c.level, t.Priority(), n - 1)
        else c
  }

  function Pick<V>(ts: seq<Token<V>>): int {
    Scan(ts, |ts|).index
  }

  /** The words from index `from + width` on are moved down to `from`; width words go. */
  function Shifted<T>(ws: seq<T>, from: nat, width: nat): seq<T>
    requires width <= |ws|
  {
    if from + width <= |ws| then ws[..from] + ws[from + width..] else ws[..|ws| - width]
  }

  /** The words once `result` has replaced the left operand of the operator at index k and two words have been
      dropped.  An operator without a right operand takes its result along; the result of one without a left
      operand goes before the first word, where nothing is modelled. */
  function WithBinary<T>(ws: seq<T>, k: nat, result: T): seq<T>
    requires k < |ws|
  {
    if k > 0 then Shifted(ws[k - 1 := result], k, 2) else if |ws| >= 2 then ws[2..] else []
  }

  /** The words once `result` has replaced the function at index k and one word has been dropped. */
  function WithUnary<T>(ws: seq<T>, k: nat, result: T): seq<T>
    requires k < |ws|
  {
    Shifted(ws[k := result], k + 1, 1)
  }

  /** Executes the operation at index k: the operands and the operator become one word. */
  function Execute<V>(alg: Algebra<V>, ts: seq<Token<V>>, k: nat): seq<Token<V>>
    requires k < |ts| && ts[k].Acts()
  {
    if ts[k].Op? then
      if 1 <= k && k + 1 < |ts| && ts[k - 1].Val? && ts[k + 1].Val? then
        ts[..k - 1] + [Val(alg.binary(ts[k].o, ts[k - 1].v, ts[k + 1].v))] + ts[k + 2..]
      else
        WithBinary(ts, k, Undefined)
    else
      if k + 1 < |ts| && ts[k + 1].Val? then
        ts[..k] + [Val(alg.unary(ts[k].f, ts[k + 1].v))] + ts[k + 2..]
      else
        WithUnary(ts, k, Undefined)
  }

  lemma {:induction false} PickInRange<V>(ts: seq<Token<V>>, n: nat)
    requires n <= |ts|
    ensures var c := Scan(ts, n); -1 <= c.index < n && (c.index >= 0 ==> ts[c.index].Acts())
  {
    if n > 0 { PickInRange(ts, n - 1); }
  }

  lemma {:induction false} StripShortens<V>(ts: seq<Token<V>>, i: nat)
    ensures |StripFrom(ts, i)| <= |ts|
    ensures |StripFrom(ts, i)| == |ts| ==> StripFrom(ts, i) == ts
    decreases |ts| - i
  {
    if i + 2 < |ts| {
      if ts[i].Open? && ts[i + 2].Close? {
        StripShortens(Unwrap(ts, i), i + 1);
      } else {
        StripShortens(ts, i + 1);
      }
    }
  }

  function Pass<V>(alg: Algebra<V>, ts: seq<Token<V>>): seq<Token<V>> {
    var s := StripFrom(ts, 0);
    var k := Pick(s);
    PickInRange(s, |s|);
    if k == -1 then s else Execute(alg, s, k)
  }

  /** The loop either ends with the remaining words or repeats one list for ever. */
  datatype Outcome<+V> = Ends(ts: seq<Token<V>>) | Diverges

  function Loop<V>(alg: Algebra<V>, ts: seq<Token<V>>): Outcome<V>
    decreases |ts|
  {
    if |ts| <= 1 then Ends(ts)
    else
      var s := Pass(alg, ts);
      if |s| < |ts| then Loop(alg, s) else Diverges
  }
}
