/** Arithmetic of row-major indices. */
module Index {

  lemma {:induction false} Successor(a: int, n: int)
    ensures (a + 1) * n == a * n + n
  {
  }

  /** Where row a begins: a * n, by adding up. */
  function Rows(a: nat, n: nat): nat {
    if a == 0 then 0 else Rows(a - 1, n) + n
  }

  lemma {:induction false} RowsProduct(a: nat, n: nat)
    ensures Rows(a, n) == a * n
  {
    if a > 0 {
      RowsProduct(a - 1, n);
      Successor(a - 1, n);
    }
  }

  lemma {:induction false} RowsGrow(a: nat, b: nat, n: nat)
    requires a < b
    ensures Rows(a, n) + n <= Rows(b, n)
  {
    if a < b - 1 { RowsGrow(a, b - 1, n); }
  }

  /** Rows do not overlap. */
  lemma {:induction false} RowsApart(a: nat, b: nat, n: nat)
    requires a < b
    ensures a * n + n <= b * n
    decreases b
  {
    Successor(b - 1, n);
    if a < b - 1 { RowsApart(a, b - 1, n); }
  }

  /** Row a, column r of rows of length n. */
  lemma {:induction false} InRow(a: nat, r: nat, rows: nat, n: nat)
    requires a < rows && r < n
    ensures 0 <= a * n && a * n + r < rows * n
  {
    RowsApart(a, rows, n);
  }

  /** An index determines its row and column. */
  lemma {:induction false} RowColumn(a: nat, r: nat, b: nat, s: nat, n: nat)
    requires r < n && s < n && a * n + r == b * n + s
    ensures a == b && r == s
  {
    if a < b {
      RowsApart(a, b, n);
    } else if b < a {
      RowsApart(b, a, n);
    }
  }

  lemma {:induction false} DivMod(x: nat, n: nat)
    requires n > 0
    ensures x == (x / n) * n + x % n && 0 <= x / n && 0 <= x % n < n
  {
  }

  lemma {:induction false} DivModOf(q: nat, r: nat, n: nat)
    requires r < n
    ensures (q * n + r) / n == q && (q * n + r) % n == r
  {
    var x := q * n + r;
    DivMod(x, n);
    RowColumn(x / n, x % n, q, r, n);
  }
}
