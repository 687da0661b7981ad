/** From the command string to words: the clean-up pass and the word splitter. */
module ArithLexer {

  /** Spaces disappear, `=-` becomes `=0-` and `=+` becomes `=`. */
  function Clean(cmd: string): string {
    if cmd == [] then []
    else if |cmd| >= 2 && cmd[0] == '=' && cmd[1] == '-' then "=0" + Clean(cmd[1..])
    else if |cmd| >= 2 && cmd[0] == '=' && cmd[1] == '+' then "=" + Clean(cmd[2..])
    else if cmd[0] == ' ' then Clean(cmd[1..])
    else [cmd[0]] + Clean(cmd[1..])
  }

  /** The characters of the command that are no spaces. */
  ghost function Unspaced(cmd: string): string {
    if cmd == [] then [] else (if cmd[0] == ' ' then [] else [cmd[0]]) + Unspaced(cmd[1..])
  }

  ghost predicate NoSignAfterEqual(cmd: string) {
    forall i :: 0 <= i < |cmd| - 1 && cmd[i] == '=' ==> cmd[i + 1] != '-' && cmd[i + 1] != '+'
  }

  lemma {:induction false} NoSignInTail(c: char, rest: string)
    requires NoSignAfterEqual([c] + rest)
    ensures NoSignAfterEqual(rest)
  {
    forall i | 0 <= i < |rest| - 1 && rest[i] == '=' ensures rest[i + 1] != '-' && rest[i + 1] != '+' {
      assert ([c] + rest)[i + 1] == rest[i];
      assert ([c] + rest)[i + 2] == rest[i + 1];
    }
  }

  /** Where no sign follows `=` cleaning only removes the spaces. */
  lemma {:induction false} CleanIsUnspaced(cmd: string)
    requires NoSignAfterEqual(Unspaced(cmd))
    ensures Clean(cmd) == Unspaced(cmd)
  {
    if cmd != [] {
      var rest := Unspaced(cmd[1..]);
      if cmd[0] == ' ' {
        assert Unspaced(cmd) == rest;
      } else {
        assert Unspaced(cmd) == [cmd[0]] + rest;
        NoSignInTail(cmd[0], rest);
        if |cmd| >= 2 && cmd[0] == '=' && cmd[1] != ' ' {
          assert cmd[1..][0] == cmd[1] && rest[0] == cmd[1];
          assert Unspaced(cmd)[0] == '=' && Unspaced(cmd)[1] == cmd[1];
        }
      }
      CleanIsUnspaced(cmd[1..]);
    }
  }

  lemma {:induction false} CleanFirst(c: char, rest: string)
    ensures Clean([c] + rest) ==
            if c == '=' && rest != "" && rest[0] == '-' then "=0" + Clean(rest)
            else if c == '=' && rest != "" && rest[0] == '+' then "=" + Clean(rest[1..])
            else if c == ' ' then Clean(rest)
            else [c] + Clean(rest)
  {
    var cmd := [c] + rest;
    assert cmd[1..] == rest;
    if rest != "" { assert cmd[2..] == rest[1..] && cmd[1] == rest[0]; }
  }

  /** What is left of a command after its first character, and what that character contributes. */
  ghost function CleanPiece(c: char, next: string): string {
    if c == '=' && next != "" && next[0] == '-' then "=0"
    else if c == '=' && next != "" && next[0] == '+' then "="
    else if c == ' ' then "" else [c]
  }

  ghost function CleanRest(c: char, rest: string): string {
    if c == '=' && rest != "" && rest[0] == '+' then rest[1..] else rest
  }

  lemma {:induction false} CleanParts(c: char, rest: string)
    ensures Clean([c] + rest) == CleanPiece(c, rest) + Clean(CleanRest(c, rest))
  {
    CleanFirst(c, rest);
  }

  /** What stands before `=` is cleaned by itself. */
  lemma {:induction false} CleanBefore(a: string, tail: string)
    requires tail != "" && tail[0] == '='
    ensures Clean(a + tail) == Clean(a) + Clean(tail)
    decreases |a|
  {
    if a == "" {
      assert a + tail == tail;
    } else {
      var c, a' := a[0], a[1..];
      var r, r' := CleanRest(c, a'), CleanRest(c, a' + tail);
      CleanParts(c, a');
      CleanParts(c, a' + tail);
      RestBefore(c, a', tail);
      CleanBefore(r, tail);
      HeadBefore(a, tail);
      Append(CleanPiece(c, a'), Clean(r), Clean(tail));
    }
  }

  lemma {:induction false} HeadBefore(a: string, tail: string)
    requires a != ""
    ensures a + tail == [a[0]] + (a[1..] + tail) && a == [a[0]] + a[1..]
  {
  }

  lemma {:induction false} RestBefore(c: char, a: string, tail: string)
    requires tail != "" && tail[0] == '='
    ensures CleanRest(c, a + tail) == CleanRest(c, a) + tail && CleanPiece(c, a + tail) == CleanPiece(c, a)
    ensures |CleanRest(c, a)| <= |a|
  {
    if a != "" { assert (a + tail)[0] == a[0] && (a + tail)[1..] == a[1..] + tail; } else { assert (a + tail)[0] == '='; }
  }

  lemma {:induction false} CleanSignFirst(sign: char, b: string)
    requires sign == '-' || sign == '+'
    ensures Clean(['='] + ([sign] + b)) == (if sign == '-' then "=0-" else "=") + Clean(b)
  {
    CleanParts('=', [sign] + b);
    if sign == '-' {
      CleanParts('-', b);
      assert "=0" + ("-" + Clean(b)) == "=0-" + Clean(b);
    } else {
      assert ([sign] + b)[1..] == b;
    }
  }

  /** A minus sign behind `=` gets a zero before it; a plus sign there is dropped. */
  lemma {:induction false} CleanSign(a: string, sign: char, b: string)
    requires sign == '-' || sign == '+'
    ensures Clean(a + (['='] + ([sign] + b))) == Clean(a) + ((if sign == '-' then "=0-" else "=") + Clean(b))
  {
    CleanSignFirst(sign, b);
    CleanBefore(a, ['='] + ([sign] + b));
  }

  lemma {:induction false} CleanStep(cmd: string, i: nat)
    requires i < |cmd|
    ensures Clean(cmd[i..]) ==
            if cmd[i] == '=' && i + 1 < |cmd| && cmd[i + 1] == '-' then "=0" + Clean(cmd[i + 1..])
            else if cmd[i] == '=' && i + 1 < |cmd| && cmd[i + 1] == '+' then "=" + Clean(cmd[i + 2..])
            else if cmd[i] == ' ' then Clean(cmd[i + 1..])
            else [cmd[i]] + Clean(cmd[i + 1..])
  {
    var c := cmd[i..];
    assert c[1..] == cmd[i + 1..];
    if |c| >= 2 {
      assert c[2..] == cmd[i + 2..];
    }
  }

  lemma {:induction false} Append(a: string, b: string, c: string)
    ensures a + b + c == a + (b + c)
  {
  }

  /** The clean-up loop: what each character contributes, and where to go on. */
  method CleanCommand(cmd1: string) returns (cmd: string)
    ensures cmd == Clean(cmd1)
  {
    cmd := [];
    var i := 0;
    assert cmd1[0..] == cmd1;
    while i < |cmd1|
      invariant 0 <= i <= |cmd1|
      invariant cmd + Clean(cmd1[i..]) == Clean(cmd1)
    {
      CleanStep(cmd1, i);
      var piece, next := "", i + 1;
      if cmd1[i] == '=' && i + 1 < |cmd1| && cmd1[i + 1] == '-' {
        piece := "=0";
      } else if cmd1[i] == '=' && i + 1 < |cmd1| && cmd1[i + 1] == '+' {
        piece, next := "=", i + 2;
      } else if cmd1[i] != ' ' {
        piece := [cmd1[i]];
      }
      assert Clean(cmd1[i..]) == piece + Clean(cmd1[next..]);
      Append(cmd, piece, Clean(cmd1[next..]));
      cmd, i := cmd + piece, next;
    }
  }

  predicate IsDigit(c: char) {
    '0' <= c <= '9'
  }

  predicate IsSign(c: char) {
    c == '+' || c == '-'
  }

  predicate IsPunctuation(c: char) {
    c == '*' || c == '/' || c == '^' || c == '(' || c == ')' || c == '=' || c == ','
  }

  /** The sign at index i continues a number: digit, e or E, sign, digit. */
  predicate InExponent(cmd: string, i: nat)
    requires i < |cmd|
  {
    i > 1 && (cmd[i - 1] == 'e' || cmd[i - 1] == 'E') && IsDigit(cmd[i - 2]) && i + 1 < |cmd| && IsDigit(cmd[i + 1])
  }

  /** The character at index i is a word of its own. */
  predicate Splits(cmd: string, i: nat)
    requires i < |cmd|
  {
    IsPunctuation(cmd[i]) || (IsSign(cmd[i]) && !InExponent(cmd, i))
  }

  /** Finished words, and the characters of the word being read. */
  datatype Lexed = Lexed(words: seq<string>, current: string)

  function Close(q: Lexed): seq<string> {
    if q.current == "" then q.words else q.words + [q.current]
  }

  /** One character: a word of its own, or one more of the current word. */
  function LexNext(q: Lexed, c: char, split: bool): Lexed {
    if split then Lexed(Close(q) + [[c]], "") else Lexed(q.words, q.current + [c])
  }

  /** The splitter after n characters. */
  function LexTo(cmd: string, n: nat): Lexed
    requires n <= |cmd|
  {
    if n == 0 then Lexed([], "") else LexNext(LexTo(cmd, n - 1), cmd[n - 1], Splits(cmd, n - 1))
  }

  function Lex(cmd: string): seq<string> {
    Close(LexTo(cmd, |cmd|))
  }

  /** One character of the splitter. */
  lemma {:induction false} LexStep(cmd: string, n: nat)
    requires n < |cmd|
    ensures var q := LexTo(cmd, n);
            LexTo(cmd, n + 1) == LexNext(q, cmd[n], Splits(cmd, n))
  {
  }

  lemma {:induction false} WordsGrow(cmd: string, m: nat, n: nat)
    requires m <= n <= |cmd|
    ensures |Close(LexTo(cmd, m))| <= |Close(LexTo(cmd, n))|
  {
    if m < n { WordsGrow(cmd, m, n - 1); }
  }

  /** Ends the word being read, if any, and writes c as a word; a new word begins unless c was the last character. */
  method PutSeparator(word: array<string>, w0: nat, c: char, last: bool, ghost q: Lexed) returns (w: nat)
    requires w0 < word.Length && word[..w0] == q.words && word[w0] == q.current
    requires |Close(q)| + (if last then 1 else 2) <= word.Length
    modifies word
    ensures w < word.Length
    ensures last ==> word[..w + 1] == Close(q) + [[c]]
    ensures !last ==> word[..w] == Close(q) + [[c]] && word[w] == ""
  {
    w := w0;
    if word[w] != "" {
      assert word[..w + 1] == word[..w] + [word[w]];
      w := w + 1;
    }
    assert word[..w] == Close(q);
    word[w] := [c];
    assert word[..w + 1] == Close(q) + [[c]];
    if !last {
      w := w + 1;
      word[w] := "";
    }
  }

  /** The word array holds the finished words and, at w, the word being read. */
  ghost predicate Holds(word: seq<string>, w: nat, q: Lexed) {
    w < |word| && word[..w] == q.words && word[w] == q.current
  }

  lemma {:induction false} Room(cmd: string, i: nat)
    requires i < |cmd| && Splits(cmd, i)
    ensures |Close(LexTo(cmd, i))| + (if i == |cmd| - 1 then 1 else 2) <= |Lex(cmd)|
  {
    if i + 1 < |cmd| {
      LexStep(cmd, i + 1);
      WordsGrow(cmd, i + 2, |cmd|);
    }
  }

  /** The splitting loop over the word array, which has to be large enough for the words. */
  method SplitWords(cmd: string, word: array<string>) returns (nbword: nat)
    requires cmd != "" && ' ' !in cmd
    requires |Lex(cmd)| <= word.Length
    modifies word
    ensures nbword <= word.Length && word[..nbword] == Lex(cmd)
  {
    var w := 0;
    FirstWord(cmd);
    word[0] := "";
    var i := 0;
    ghost var q := Lexed([], "");
    while i < |cmd|
      invariant 0 <= i <= |cmd| && w < word.Length && q == LexTo(cmd, i)
      invariant i < |cmd| ==> Holds(word[..], w, q)
      invariant i == |cmd| ==> word[..w + 1] == Close(q)
    {
      assert word[..][..w] == word[..w];
      LexStep(cmd, i);
      var c := cmd[i];
      if Splits(cmd, i) {
        Room(cmd, i);
        w := PutSeparator(word, w, c, i == |cmd| - 1, q);
        q := LexNext(q, c, true);
      } else {
        word[w] := word[w] + [c];
        q := LexNext(q, c, false);
        assert word[..w + 1] == q.words + [q.current];
      }
      assert word[..][..w] == word[..w];
      i := i + 1;
    }
    nbword := w + 1;
  }

  lemma {:induction false} FirstWord(cmd: string)
    requires cmd != ""
    ensures |Lex(cmd)| >= 1
  {
    WordsGrow(cmd, 1, |cmd|);
    assert LexTo(cmd, 0) == Lexed([], "");
  }

  // ----- nothing is lost

  function Concat(ws: seq<string>): string {
    if |ws| == 0 then "" else Concat(ws[..|ws| - 1]) + ws[|ws| - 1]
  }

  lemma {:induction false} ConcatSnoc(ws: seq<string>, w: string)
    ensures Concat(ws + [w]) == Concat(ws) + w
  {
    assert (ws + [w])[..|ws|] == ws;
  }

  lemma {:induction false} ConcatClose(q: Lexed)
    ensures Concat(Close(q)) == Concat(q.words) + q.current
  {
    if q.current != "" { ConcatSnoc(q.words, q.current); }
  }

  /** The text read so far. */
  ghost function Text(q: Lexed): string {
    Concat(q.words) + q.current
  }

  lemma {:induction false} LexNextKeeps(q: Lexed, c: char, split: bool, r: Lexed, text: string)
    requires Text(q) == text && r == LexNext(q, c, split)
    ensures Text(r) == text + [c]
  {
    ConcatClose(q);
    ConcatSnoc(Close(q), [c]);
  }

  lemma {:induction false} LexToKeeps(cmd: string, n: nat)
    requires n <= |cmd|
    ensures Text(LexTo(cmd, n)) == cmd[..n]
  {
    if n > 0 {
      LexToKeeps(cmd, n - 1);
      LexStep(cmd, n - 1);
      LexNextKeeps(LexTo(cmd, n - 1), cmd[n - 1], Splits(cmd, n - 1), LexTo(cmd, n), cmd[..n - 1]);
      assert cmd[..n] == cmd[..n - 1] + [cmd[n - 1]];
    }
  }

  /** The words concatenate back to the command. */
  lemma {:induction false} LexKeeps(cmd: string)
    ensures Concat(Lex(cmd)) == cmd
  {
    LexToKeeps(cmd, |cmd|);
    ConcatClose(LexTo(cmd, |cmd|));
    assert cmd[..|cmd|] == cmd;
  }

  // ----- which lists of words survive being written down and split again

  predicate Separator(w: string) {
    |w| == 1 && (IsPunctuation(w[0]) || IsSign(w[0]))
  }

  /** A name or a number; signs occur only inside exponents. */
  ghost predicate Operand(w: string) {
    w != "" && forall i :: 0 <= i < |w| ==> w[i] != ' ' && !IsPunctuation(w[i]) && (IsSign(w[i]) ==> InExponent(w, i))
  }

  /** Between u and x a sign would be read as part of an exponent. */
  predicate Glues(u: string, x: string) {
    && |u| >= 2 && (u[|u| - 1] == 'e' || u[|u| - 1] == 'E') && IsDigit(u[|u| - 2])
    && x != "" && IsDigit(x[0])
  }

  /** Word j is a separator, or an operand that follows no operand. */
  ghost predicate WordFits(ws: seq<string>, j: nat)
    requires j < |ws|
  {
    Separator(ws[j]) || (Operand(ws[j]) && (j > 0 ==> Separator(ws[j - 1])))
  }

  /** Word j is not a sign between words that would make an exponent of it. */
  ghost predicate SignFits(ws: seq<string>, j: nat)
    requires j < |ws|
  {
    0 < j < |ws| - 1 && Separator(ws[j]) && IsSign(ws[j][0]) ==> !Glues(ws[j - 1], ws[j + 1])
  }

  /** Words that are separators or operands, with no two operands in a row and no sign between
      words that would make an exponent of it. */
  ghost predicate Separable(ws: seq<string>) {
    && (forall j :: 0 <= j < |ws| ==> WordFits(ws, j))
    && (forall j :: 0 <= j < |ws| ==> SignFits(ws, j))
  }

  function Start(ws: seq<string>, j: nat): nat
    requires j <= |ws|
  {
    |Concat(ws[..j])|
  }

  lemma {:induction false} ConcatSplit(a: seq<string>, b: seq<string>)
    ensures Concat(a + b) == Concat(a) + Concat(b)
    decreases |b|
  {
    if |b| == 0 {
      assert a + b == a;
    } else {
      var b' := b[..|b| - 1];
      assert (a + b)[..|a + b| - 1] == a + b';
      ConcatSplit(a, b');
    }
  }

  /** Character m of word j sits at Start(j) + m of the command. */
  lemma {:induction false} CharacterAt(ws: seq<string>, j: nat, m: nat)
    requires j < |ws| && m < |ws[j]|
    ensures Start(ws, j) + m < |Concat(ws)| && Concat(ws)[Start(ws, j) + m] == ws[j][m]
    ensures Start(ws, j + 1) == Start(ws, j) + |ws[j]|
  {
    ConcatSnoc(ws[..j], ws[j]);
    assert ws[..j + 1] == ws[..j] + [ws[j]];
    ConcatSplit(ws[..j + 1], ws[j + 1..]);
    assert ws == ws[..j + 1] + ws[j + 1..];
  }

  /** A word that is one sign is not read as part of an exponent. */
  lemma {:induction false} SignStandsAlone(ws: seq<string>, j: nat)
    requires Separable(ws) && j < |ws| && Separator(ws[j])
    ensures Start(ws, j) < |Concat(ws)| && Splits(Concat(ws), Start(ws, j))
  {
    CharacterAt(ws, j, 0);
    if IsSign(ws[j][0]) && InExponent(Concat(ws), Start(ws, j)) {
      assert ws[..0] == [];
      BeforeExponentSign(ws, j);
      NextWord(ws, j);
      assert WordFits(ws, j + 1) && SignFits(ws, j);
      CharacterAt(ws, j + 1, 0);
    }
  }

  /** If the sign that is word j sat in an exponent, the word before it would end in digit, e. */
  lemma {:induction false} BeforeExponentSign(ws: seq<string>, j: nat)
    requires Separable(ws) && 0 < j < |ws|
    requires Start(ws, j) < |Concat(ws)| && InExponent(Concat(ws), Start(ws, j))
    ensures var u := ws[j - 1]; |u| >= 2 && (u[|u| - 1] == 'e' || u[|u| - 1] == 'E') && IsDigit(u[|u| - 2])
  {
    var u := ws[j - 1];
    assert WordFits(ws, j - 1);
    CharacterAt(ws, j - 1, |u| - 1);
    if |u| >= 2 {
      CharacterAt(ws, j - 1, |u| - 2);
    } else {
      SeparatorBefore(ws, j - 1);
    }
  }

  /** A word of one letter has no digit before it. */
  lemma {:induction false} SeparatorBefore(ws: seq<string>, j: nat)
    requires Separable(ws) && j < |ws| && Start(ws, j) <= |Concat(ws)| && !Separator(ws[j])
    ensures 0 < Start(ws, j) ==> !IsDigit(Concat(ws)[Start(ws, j) - 1])
  {
    assert ws[..0] == [];
    assert WordFits(ws, j);
    if j > 0 { CharacterAt(ws, j - 1, 0); }
  }

  lemma {:induction false} NextWord(ws: seq<string>, j: nat)
    requires j < |ws| && |ws[j]| == 1 && Start(ws, j) + 1 < |Concat(ws)|
    ensures j + 1 < |ws|
  {
    CharacterAt(ws, j, 0);
    assert ws[..|ws|] == ws;
  }

  /** Inside an operand nothing splits. */
  lemma {:induction false} OperandStaysWhole(ws: seq<string>, j: nat, m: nat)
    requires Separable(ws) && j < |ws| && Operand(ws[j]) && m < |ws[j]|
    ensures Start(ws, j) + m < |Concat(ws)| && !Splits(Concat(ws), Start(ws, j) + m) && Concat(ws)[Start(ws, j) + m] == ws[j][m]
  {
    CharacterAt(ws, j, m);
    if IsSign(ws[j][m]) {
      CharacterAt(ws, j, m - 1);
      CharacterAt(ws, j, m - 2);
      CharacterAt(ws, j, m + 1);
    }
  }

  /** A stretch without splits is read as one piece. */
  lemma {:induction false} LexPiece(cmd: string, s: nat, n: nat)
    requires s <= n <= |cmd| && LexTo(cmd, s).current == ""
    requires forall i :: s <= i < n ==> !Splits(cmd, i)
    ensures LexTo(cmd, n) == Lexed(LexTo(cmd, s).words, cmd[s..n])
  {
    if s < n {
      LexPiece(cmd, s, n - 1);
      LexStep(cmd, n - 1);
      SliceGrows(cmd, s, n - 1);
      assert LexTo(cmd, n) == LexNext(LexTo(cmd, n - 1), cmd[n - 1], false);
    }
  }

  lemma {:induction false} LexOperand(ws: seq<string>, j: nat)
    requires Separable(ws) && j < |ws| && Operand(ws[j])
    requires Start(ws, j) <= |Concat(ws)| && LexTo(Concat(ws), Start(ws, j)).current == ""
    ensures Start(ws, j + 1) <= |Concat(ws)|
    ensures LexTo(Concat(ws), Start(ws, j + 1)) == Lexed(LexTo(Concat(ws), Start(ws, j)).words, ws[j])
  {
    var cmd, s, w := Concat(ws), Start(ws, j), ws[j];
    CharacterAt(ws, j, |w| - 1);
    forall i | s <= i < s + |w| ensures !Splits(cmd, i) && cmd[i] == w[i - s] {
      OperandStaysWhole(ws, j, i - s);
    }
    LexPiece(cmd, s, s + |w|);
    assert cmd[s..s + |w|] == w;
  }

  lemma {:induction false} LexSeparator(ws: seq<string>, j: nat)
    requires Separable(ws) && j < |ws| && Separator(ws[j])
    ensures Start(ws, j) <= Start(ws, j + 1) <= |Concat(ws)|
    ensures LexTo(Concat(ws), Start(ws, j + 1)) == Lexed(Close(LexTo(Concat(ws), Start(ws, j))) + [ws[j]], "")
  {
    CharacterAt(ws, j, 0);
    SignStandsAlone(ws, j);
    LexStep(Concat(ws), Start(ws, j));
    assert ws[j] == [ws[j][0]];
  }

  /** The splitter stops between words with the words so far. */
  ghost predicate StopsAt(ws: seq<string>, j: nat)
    requires j <= |ws|
  {
    && Start(ws, j) <= |Concat(ws)|
    && Close(LexTo(Concat(ws), Start(ws, j))) == ws[..j]
    && (j == 0 || Separator(ws[j - 1]) ==> LexTo(Concat(ws), Start(ws, j)).current == "")
  }

  lemma {:induction false} TakeNext(ws: seq<string>, j: nat)
    requires j < |ws|
    ensures ws[..j + 1] == ws[..j] + [ws[j]]
  {
  }

  lemma {:induction false} StopsAfterSeparator(ws: seq<string>, j: nat)
    requires Separable(ws) && j < |ws| && Separator(ws[j]) && StopsAt(ws, j)
    ensures StopsAt(ws, j + 1)
  {
    TakeNext(ws, j);
    LexSeparator(ws, j);
  }

  lemma {:induction false} StopsAfterOperand(ws: seq<string>, j: nat)
    requires Separable(ws) && j < |ws| && !Separator(ws[j]) && StopsAt(ws, j)
    ensures StopsAt(ws, j + 1)
  {
    assert WordFits(ws, j);
    TakeNext(ws, j);
    LexOperand(ws, j);
  }

  lemma {:induction false} LexWords(ws: seq<string>, j: nat)
    requires Separable(ws) && j <= |ws|
    ensures StopsAt(ws, j)
  {
    if j > 0 {
      LexWords(ws, j - 1);
      if Separator(ws[j - 1]) {
        StopsAfterSeparator(ws, j - 1);
      } else {
        StopsAfterOperand(ws, j - 1);
      }
    }
  }

  /** Writing separable words down and splitting the text gives the words back. */
  lemma {:induction false} SeparableSurvives(ws: seq<string>)
    requires Separable(ws)
    ensures Lex(Concat(ws)) == ws
  {
    LexWords(ws, |ws|);
    assert ws[..|ws|] == ws;
  }

  // ----- the splitter produces separable words only

  /** The word being read: a piece of the command that started after a split. */
  ghost predicate Reading(cmd: string, n: nat, current: string)
    requires n <= |cmd|
  {
    && |current| <= n && current == cmd[n - |current|..n]
    && (forall i :: n - |current| <= i < n ==> !Splits(cmd, i))
    && (n > |current| ==> Splits(cmd, n - |current| - 1))
  }

  lemma {:induction false} LexReads(cmd: string, n: nat)
    requires n <= |cmd|
    ensures Reading(cmd, n, LexTo(cmd, n).current)
  {
    if n > 0 {
      LexReads(cmd, n - 1);
      LexStep(cmd, n - 1);
      ReadingNext(cmd, n, LexTo(cmd, n - 1), LexTo(cmd, n));
    }
  }

  lemma {:induction false} ReadingNext(cmd: string, n: nat, q: Lexed, r: Lexed)
    requires 0 < n <= |cmd| && Reading(cmd, n - 1, q.current) && r == LexNext(q, cmd[n - 1], Splits(cmd, n - 1))
    ensures Reading(cmd, n, r.current)
  {
    if !Splits(cmd, n - 1) { ReadingGrows(cmd, n - 1, q.current); }
  }

  lemma {:induction false} ReadingGrows(cmd: string, n: nat, current: string)
    requires n < |cmd| && Reading(cmd, n, current) && !Splits(cmd, n)
    ensures Reading(cmd, n + 1, current + [cmd[n]])
  {
    var s, longer := n - |current|, current + [cmd[n]];
    assert |longer| == |current| + 1 && n + 1 - |longer| == s;
    SliceGrows(cmd, s, n);
    forall i | s <= i < n + 1 ensures !Splits(cmd, i) {
    }
  }

  lemma {:induction false} SliceGrows(cmd: string, s: nat, n: nat)
    requires s <= n < |cmd|
    ensures cmd[s..n + 1] == cmd[s..n] + [cmd[n]]
  {
  }

  /** A word that is complete, because the command ends or splits after it, is an operand. */
  lemma {:induction false} ReadingIsOperand(cmd: string, n: nat, current: string)
    requires ' ' !in cmd && n <= |cmd| && Reading(cmd, n, current) && current != ""
    requires n == |cmd| || Splits(cmd, n)
    ensures Operand(current)
  {
    var s := n - |current|;
    forall i | 0 <= i < |current|
      ensures current[i] != ' ' && !IsPunctuation(current[i]) && (IsSign(current[i]) ==> InExponent(current, i))
    {
      assert current[i] == cmd[s + i] && cmd[s + i] in cmd;
      assert !Splits(cmd, s + i);
      if IsSign(current[i]) {
        assert InExponent(cmd, s + i);
        assert !Splits(cmd, s + i - 1) && !Splits(cmd, s + i - 2);
        assert i >= 2;
        assert !Splits(cmd, s + i + 1);
      }
    }
  }

  /** Separable so far: each sign that is a word is where the command splits. */
  ghost predicate Produced(cmd: string, ws: seq<string>) {
    && (forall j :: 0 <= j < |ws| ==> WordFits(ws, j))
    && (forall j :: 0 <= j < |ws| && Separator(ws[j]) ==> Start(ws, j) < |cmd| && Splits(cmd, Start(ws, j)))
  }

  lemma {:induction false} ProducedSnoc(cmd: string, ws: seq<string>, w: string)
    requires Produced(cmd, ws)
    requires Separator(w) || (Operand(w) && (|ws| > 0 ==> Separator(ws[|ws| - 1])))
    requires Separator(w) ==> |Concat(ws)| < |cmd| && Splits(cmd, |Concat(ws)|)
    ensures Produced(cmd, ws + [w])
  {
    var us := ws + [w];
    forall j | 0 <= j < |us| ensures WordFits(us, j) {
      if j < |ws| {
        assert WordFits(ws, j);
      }
    }
    forall j | 0 <= j < |us| && Separator(us[j]) ensures Start(us, j) < |cmd| && Splits(cmd, Start(us, j)) {
      assert us[..j] == ws[..j];
      assert ws[..|ws|] == ws;
      if j < |ws| {
        assert us[j] == ws[j];
      }
    }
  }

  /** A word about to be read can only follow a separator. */
  ghost predicate MayRead(q: Lexed) {
    q.current != "" && |q.words| > 0 ==> Separator(q.words[|q.words| - 1])
  }

  lemma {:induction false} CloseProduces(cmd: string, n: nat)
    requires ' ' !in cmd && n <= |cmd| && (n == |cmd| || Splits(cmd, n))
    requires Produced(cmd, LexTo(cmd, n).words) && MayRead(LexTo(cmd, n))
    ensures Produced(cmd, Close(LexTo(cmd, n)))
  {
    var q := LexTo(cmd, n);
    if q.current != "" {
      LexReads(cmd, n);
      ReadingIsOperand(cmd, n, q.current);
      ProducedSnoc(cmd, q.words, q.current);
    }
  }

  lemma {:induction false} LexProduces(cmd: string, n: nat)
    requires ' ' !in cmd && n <= |cmd|
    ensures Produced(cmd, LexTo(cmd, n).words) && MayRead(LexTo(cmd, n))
  {
    if n > 0 {
      LexProduces(cmd, n - 1);
      if Splits(cmd, n - 1) {
        SplitProduces(cmd, n - 1);
        MayReadWhenEmpty(LexTo(cmd, n));
      } else {
        ReadingProduces(cmd, n - 1);
      }
    }
  }

  lemma {:induction false} MayReadWhenEmpty(q: Lexed)
    requires q.current == ""
    ensures MayRead(q)
  {
  }

  /** One more character of the word being read. */
  lemma {:induction false} ReadingProduces(cmd: string, n: nat)
    requires n < |cmd| && !Splits(cmd, n) && Produced(cmd, LexTo(cmd, n).words) && MayRead(LexTo(cmd, n))
    ensures Produced(cmd, LexTo(cmd, n + 1).words) && MayRead(LexTo(cmd, n + 1))
  {
    LexStep(cmd, n);
    LastIsSeparator(cmd, n);
    assert LexTo(cmd, n + 1).words == LexTo(cmd, n).words;
  }

  lemma {:induction false} SplitProduces(cmd: string, n: nat)
    requires ' ' !in cmd && n < |cmd| && Splits(cmd, n)
    requires Produced(cmd, LexTo(cmd, n).words) && MayRead(LexTo(cmd, n))
    ensures Produced(cmd, LexTo(cmd, n + 1).words) && LexTo(cmd, n + 1).current == ""
  {
    var q := LexTo(cmd, n);
    CloseProduces(cmd, n);
    LexToKeeps(cmd, n);
    ConcatClose(q);
    assert |Concat(Close(q))| == n;
    ProducedSnoc(cmd, Close(q), [cmd[n]]);
    assert LexTo(cmd, n + 1) == Lexed(Close(q) + [[cmd[n]]], "");
  }

  lemma {:induction false} LastIsSeparator(cmd: string, n: nat)
    requires n <= |cmd|
    ensures var q := LexTo(cmd, n); q.current == "" && |q.words| > 0 ==> Separator(q.words[|q.words| - 1])
  {
  }

  lemma {:induction false} ProducedIsSeparable(ws: seq<string>)
    requires Produced(Concat(ws), ws)
    ensures Separable(ws)
  {
    forall j | 0 <= j < |ws| ensures SignFits(ws, j) {
      if !SignFits(ws, j) { GluedSignDoesNotSplit(ws, j); }
    }
  }

  lemma {:induction false} GluedSignDoesNotSplit(ws: seq<string>, j: nat)
    requires 0 < j < |ws| - 1 && Separator(ws[j]) && IsSign(ws[j][0]) && Glues(ws[j - 1], ws[j + 1])
    ensures Start(ws, j) < |Concat(ws)| && !Splits(Concat(ws), Start(ws, j))
  {
    var u := ws[j - 1];
    CharacterAt(ws, j, 0);
    CharacterAt(ws, j - 1, |u| - 1);
    CharacterAt(ws, j - 1, |u| - 2);
    CharacterAt(ws, j + 1, 0);
  }

  /** Every command without spaces splits into separable words. */
  lemma {:induction false} LexIsSeparable(cmd: string)
    requires ' ' !in cmd
    ensures Separable(Lex(cmd))
  {
    LexProduces(cmd, |cmd|);
    CloseProduces(cmd, |cmd|);
    LexKeeps(cmd);
    ProducedIsSeparable(Lex(cmd));
  }

  /** Main result: a list of words without spaces survives being written down and split again
      if and only if it is separable. */
  lemma {:induction false} SplittingExact(ws: seq<string>)
    requires ' ' !in Concat(ws)
    ensures Lex(Concat(ws)) == ws <==> Separable(ws)
  {
    if Separable(ws) {
      SeparableSurvives(ws);
    } else {
      LexIsSeparable(Concat(ws));
    }
  }

  /** A character of the text is in one of the words. */
  lemma {:induction false} InSomeWord(ws: seq<string>, c: char) returns (j: nat)
    requires c in Concat(ws)
    ensures j < |ws| && c in ws[j]
  {
    j := |ws| - 1;
    if c !in ws[j] { j := InSomeWord(ws[..j], c); }
  }

  /** Each of * / ^ ( ) = , in a command is a word of its own. */
  lemma {:induction false} SeparatorIsWord(cmd: string, c: char)
    requires ' ' !in cmd && c in cmd && (c == '*' || c == '/' || c == '^' || c == '(' || c == ')' || c == '=' || c == ',')
    ensures [c] in Lex(cmd)
  {
    var ws := Lex(cmd);
    LexKeeps(cmd);
    LexIsSeparable(cmd);
    var j := InSomeWord(ws, c);
    assert WordFits(ws, j);
    var i :| 0 <= i < |ws[j]| && ws[j][i] == c;
    assert Separator(ws[j]) && ws[j] == [c];
  }

  /** Cleaning removes every space. */
  lemma {:induction false} CleanHasNoSpaces(cmd: string)
    ensures ' ' !in Clean(cmd)
    decreases |cmd|
  {
    if cmd != [] {
      CleanHasNoSpaces(cmd[1..]);
      if |cmd| >= 2 { CleanHasNoSpaces(cmd[2..]); }
    }
  }
}
