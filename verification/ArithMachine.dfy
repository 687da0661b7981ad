/** The interpreter's loops over the word array. */
module ArithMachine {
  import opened ArithSyntax
  import opened ArithPass
  import opened ArithInterpreter
  import opened Wrappers

  class Machine<S, M> {
    const ops: Ops<S, M>
    const names: nat -> string
    var word: array<Token<Operand>>
    var nbword: nat
    var parLevel: array<int>
    var intrPriority: array<int>
    var tb: Tables<S, M>
    var tmpNameIndex: nat

    ghost predicate Valid()
      reads this
    {
      nbword <= word.Length == parLevel.Length == intrPriority.Length && parLevel != intrPriority
    }

    ghost function Words(): seq<Token<Operand>>
      requires Valid()
      reads this, word
    {
      word[..nbword]
    }

    ghost function Abstract(): State<S, M>
      requires Valid()
      reads this, word
    {
      State(Words(), tb, tmpNameIndex)
    }

    constructor (ops: Ops<S, M>, names: nat -> string, capacity: nat, words: seq<Token<Operand>>, tables: Tables<S, M>)
      requires |words| <= capacity
      ensures Valid() && fresh(word) && fresh(parLevel) && fresh(intrPriority)
      ensures this.ops == ops && this.names == names && Abstract() == State(words, tables, 0)
    {
      this.ops := ops;
      this.names := names;
      nbword := |words|;
      tb := tables;
      tmpNameIndex := 0;
      parLevel := new int[capacity];
      intrPriority := new int[capacity];
      word := new Token<Operand>[capacity](i => if 0 <= i < |words| then words[i] else Undefined);
      new;
      assert word[..nbword] == words;
    }

    /** Moves the words after a removed stretch down. */
    method ShiftLeft(from: nat, width: nat)
      requires Valid() && width <= nbword && 0 < width
      modifies this`nbword, word
      ensures Valid() && Words() == Shifted(old(Words()), from, width)
    {
      ghost var ws := word[..nbword];
      var j := from;
      while j < nbword - width
        invariant nbword == |ws| && from <= j && (from <= nbword - width ==> j <= nbword - width)
        invariant forall i :: 0 <= i < nbword && (i < from || i >= j) ==> word[i] == ws[i]
        invariant forall i :: from <= i < j && i < nbword - width ==> word[i] == ws[i + width]
      {
        word[j] := word[j + width];
        j := j + 1;
      }
      nbword := nbword - width;
      assert Words() == Shifted(ws, from, width);
    }

    /** Removal of braces around single words. */
    method StripBraces()
      requires Valid()
      modifies this`nbword, word
      ensures Valid() && Words() == StripFrom(old(Words()), 0)
    {
      var i := 0;
      while i + 2 < nbword
        invariant Valid()
        invariant StripFrom(Words(), i) == StripFrom(old(Words()), 0)
        decreases nbword - i
      {
        if word[i].Open? && word[i + 2].Close? {
          ghost var ws := Words();
          word[i] := word[i + 1];
          assert Words() == ws[i := ws[i + 1]];
          ShiftLeft(i + 1, 2);
          assert Words() == Unwrap(ws, i);
        }
        i := i + 1;
      }
    }

    /** The rule for `( - x )` at index i. */
    method NegateAt(i: nat)
      requires Valid() && i + 3 < nbword
      modifies this`nbword, this`tb, word
      ensures Valid() && Abstract() == NegateOne(ops, old(Abstract()), i)
    {
      ghost var ws := Words();
      var x := word[i + 2];
      if x.Val? && x.v.Variable? && x.v.name in tb.vars {
        tb := tb.(vars := tb.vars[x.v.name := ops.negate(tb.vars[x.v.name])]);
      }
      word[i] := x;
      assert Words() == ws[i := x];
      ShiftLeft(i + 2, 3);
    }

    /** The rule for `( - x )` wherever it applies. */
    method NegateAll()
      requires Valid()
      modifies this`nbword, this`tb, word
      ensures Valid() && Abstract() == NegateBraces(ops, old(Abstract()), 0)
    {
      var i := 0;
      while i + 3 < nbword
        invariant Valid() && tmpNameIndex == old(tmpNameIndex)
        invariant NegateBraces(ops, Abstract(), i) == NegateBraces(ops, old(Abstract()), 0)
        decreases nbword - i
      {
        if word[i].Open? && word[i + 3].Close? && word[i + 1] == Op(Minus) {
          NegateAt(i);
        }
        i := i + 1;
      }
    }

    /** The parenthesis level and the intrinsic priority of every operation. */
    method GivePriorities()
      requires Valid()
      modifies parLevel, intrPriority
      ensures forall i :: 0 <= i < nbword && word[i].Acts() ==> parLevel[i] == Level(Words(), i) && intrPriority[i] == word[i].Priority()
    {
      var parlevel := 0;
      for i := 0 to nbword
        invariant parlevel == Level(Words(), i)
        invariant forall k :: 0 <= k < i && word[k].Acts() ==> parLevel[k] == Level(Words(), k) && intrPriority[k] == word[k].Priority()
      {
        if word[i].Open? { parlevel := parlevel + 1; }
        if word[i].Close? { parlevel := parlevel - 1; }
        if word[i].Acts() {
          parLevel[i] := parlevel;
          if word[i].Fn? { intrPriority[i] := 2; }
          if word[i].Op? {
            if word[i].o == Plus || word[i].o == Minus { intrPriority[i] := 0; }
            if word[i].o == Times || word[i].o == Divide { intrPriority[i] := 1; }
          }
        }
      }
    }

    /** The operation to execute, or -1. */
    method Choose() returns (index: int)
      requires Valid()
      modifies parLevel, intrPriority
      ensures index == Pick(Words())
    {
      GivePriorities();
      var level, priority := 0, -1;
      index := -1;
      for i := 0 to nbword
        invariant Scan(Words(), i) == Choice(level, priority, index)
      {
        if word[i].Acts() {
          if parLevel[i] > level {
            index, level, priority := i, parLevel[i], 0;
          } else if parLevel[i] == level && intrPriority[i] > priority {
            index, priority := i, intrPriority[i];
          }
        }
      }
    }

    /** Executes the operation at index k and drops its words. */
    method ExecuteAt(k: nat)
      requires Valid() && k < nbword && word[k].Acts()
      modifies this`nbword, this`tb, this`tmpNameIndex, word
      ensures Valid() && Abstract() == ExecuteWords(ops, names, old(Abstract()), k)
    {
      if word[k].Op? { ExecuteBinary(k); } else { ExecuteUnary(k); }
    }

    method ExecuteBinary(k: nat)
      requires Valid() && k < nbword && word[k].Op?
      modifies this`nbword, this`tb, this`tmpNameIndex, word
      ensures Valid() && Abstract() == ExecuteWords(ops, names, old(Abstract()), k)
    {
      var result := Undefined;
      if 1 <= k && k + 1 < nbword && Readable(tb, word[k - 1]) && Readable(tb, word[k + 1]) {
        var name := names(tmpNameIndex);
        var v := Binary(ops, word[k].o, Read(ops, tb, word[k - 1]), Read(ops, tb, word[k + 1]));
        tb := Store(tb, name, v);
        tmpNameIndex := tmpNameIndex + 1;
        result := Val(NameOf(name, v));
      }
      PutBinary(k, result);
    }

    method ExecuteUnary(k: nat)
      requires Valid() && k < nbword && word[k].Fn?
      modifies this`nbword, this`tb, this`tmpNameIndex, word
      ensures Valid() && Abstract() == ExecuteWords(ops, names, old(Abstract()), k)
    {
      var result := Undefined;
      if k + 1 < nbword && Readable(tb, word[k + 1]) {
        var name := names(tmpNameIndex);
        var v := Unary(ops, word[k].f, Read(ops, tb, word[k + 1]));
        tb := Store(tb, name, v);
        tmpNameIndex := tmpNameIndex + 1;
        result := Val(NameOf(name, v));
      }
      PutUnary(k, result);
    }

    /** The result takes the place of the left operand, and the operator and the right operand go. */
    method PutBinary(k: nat, result: Token<Operand>)
      requires Valid() && k < nbword
      modifies this`nbword, word
      ensures Valid()
      ensures Words() == WithBinary(old(Words()), k, result)
    {
      ghost var ws := Words();
      if k > 0 {
        word[k - 1] := result;
        assert Words() == ws[k - 1 := result];
      }
      if nbword >= 2 {
        ShiftLeft(k, 2);
      } else {
        nbword := 0;
      }
    }

    /** The result takes the place of the function, and its argument goes. */
    method PutUnary(k: nat, result: Token<Operand>)
      requires Valid() && k < nbword
      modifies this`nbword, word
      ensures Valid()
      ensures Words() == WithUnary(old(Words()), k, result)
    {
      ghost var ws := Words();
      word[k] := result;
      assert Words() == ws[k := result];
      ShiftLeft(k + 1, 1);
    }

    /** One pass of the main loop. */
    method Pass()
      requires Valid()
      modifies this`nbword, this`tb, this`tmpNameIndex, word, parLevel, intrPriority
      ensures Valid() && Abstract() == PassWords(ops, names, old(Abstract()))
    {
      StripBraces();
      NegateAll();
      var k := Choose();
      PickInRange(Words(), |Words()|);
      if k >= 0 { ExecuteAt(k); }
    }

    /** Counts the words after the last `=`. */
    method CountToBeProcessed() returns (n: nat)
      requires Valid()
      ensures n == ToBeProcessed(Words())
    {
      var passedequ := false;
      n := 0;
      var i := nbword;
      while i > 0
        invariant 0 <= i <= nbword
        invariant !passedequ ==> ToBeProcessed(Words()) == n + ToBeProcessed(word[..i])
        invariant passedequ ==> ToBeProcessed(Words()) == n
      {
        i := i - 1;
        assert word[..i + 1][..i] == word[..i];
        if word[i].Equal? { passedequ := true; }
        if !passedequ { n := n + 1; }
      }
    }

    /** The main loop.  A pass that removes no word changes nothing, so the loop would repeat it for ever. */
    method Reduce() returns (ended: bool)
      requires Valid()
      modifies this`nbword, this`tb, this`tmpNameIndex, word, parLevel, intrPriority
      ensures Valid()
      ensures ended ==> ReduceWords(ops, names, old(Abstract())) == Ended(Abstract())
      ensures !ended ==> ReduceWords(ops, names, old(Abstract())) == Repeats
    {
      var n := CountToBeProcessed();
      ended := true;
      while n > 1
        invariant Valid() && n == ToBeProcessed(Words()) && ended
        invariant ReduceWords(ops, names, Abstract()) == ReduceWords(ops, names, old(Abstract()))
        decreases nbword
      {
        var before := nbword;
        Pass();
        if nbword >= before {
          return false;
        }
        n := CountToBeProcessed();
      }
    }

    method SaveNumberAt(i: nat)
      requires Valid() && i < nbword
      modifies this`tb, this`tmpNameIndex, word
      ensures Valid() && Abstract() == SaveOne(ops, names, old(Abstract()), i)
    {
      if word[i].Val? && word[i].v.Number? {
        ghost var ws := Words();
        var name := names(tmpNameIndex);
        tb := CreateVariable(tb, name, ops.number(word[i].v.text));
        word[i] := Val(Variable(name));
        assert Words() == ws[i := Val(Variable(name))];
        tmpNameIndex := tmpNameIndex + 1;
      }
    }

    /** Numbers are saved into variables. */
    method SaveAllNumbers()
      requires Valid()
      modifies this`tb, this`tmpNameIndex, word
      ensures Valid() && Abstract() == SaveNumbers(ops, names, old(Abstract()), 0)
    {
      var i := 0;
      while i < nbword
        invariant Valid() && i <= nbword
        invariant SaveNumbers(ops, names, Abstract(), i) == SaveNumbers(ops, names, old(Abstract()), 0)
      {
        SaveNumberAt(i);
        i := i + 1;
      }
    }

    /** Removal of the temporaries. */
    method CleanUp()
      requires Valid()
      modifies this`tb
      ensures tb == DeleteTemporaries(old(tb), names, tmpNameIndex)
    {
      for i := 0 to tmpNameIndex
        invariant tb == DeleteTemporaries(old(tb), names, i)
      {
        tb := DeleteName(tb, names(i));
      }
    }

    /** The whole command. */
    method Run() returns (r: Result<S, M>)
      requires Valid() && tmpNameIndex == 0
      modifies this, word, parLevel, intrPriority
      ensures r == RunCommand(ops, names, old(Words()), old(tb))
      ensures r.Done? ==> tb == r.tb
    {
      SaveAllNumbers();
      var ended := Reduce();
      if !ended { return Never; }
      r := Conclude();
    }

    /** The assignment or print at the end, and the removal of the temporaries. */
    method Conclude() returns (r: Result<S, M>)
      requires Valid()
      modifies this`tb
      ensures r == Finish(old(Abstract()), names)
      ensures r.Done? ==> tb == r.tb
    {
      var printed := Silent;
      if nbword > 2 {
        var target := WordOf(word[0]);
        if word[1].Equal? && target.Some? {
          tb := DeleteName(tb, target.value);
          match word[2]
          case Val(Variable(x)) =>
            if x !in tb.vars { return Fault; }
            printed := Prints(tb.vars[x]);
            tb := CreateVariable(tb, target.value, tb.vars[x]);
          case Val(Image(x)) =>
            if x !in tb.imgs { return Fault; }
            tb := Tables(tb.vars, (tb.imgs - {x})[target.value := tb.imgs[x]]);
          case _ =>
        }
      } else if nbword > 0 && WordOf(word[0]).Some? && WordOf(word[0]).value in tb.vars {
        printed := Prints(tb.vars[WordOf(word[0]).value]);
      } else {
        return Fault;
      }
      CleanUp();
      r := Done(tb, printed);
    }
  }
}
