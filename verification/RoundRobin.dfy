/** Taking turns: call `k` of a round robin over `n` slots uses slot `k % n`. */
module RoundRobin {

  /** How often slot `i` is used by the first `k` calls. */
  function Uses(k: nat, n: nat, i: nat): (c: nat)
    requires n > 0
  {
    if k == 0 then 0 else Uses(k - 1, n, i) + if (k - 1) % n == i then 1 else 0
  }

  lemma NextTurn(k: nat, n: nat)
    requires n > 0
    ensures (k + 1) % n == if k % n == n - 1 then 0 else k % n + 1
    ensures (k + 1) / n == if k % n == n - 1 then k / n + 1 else k / n
  {
    var q, r := k / n, k % n;
    assert k == q * n + r;
    if r == n - 1 {
      assert k + 1 == (q + 1) * n;
      DivMod(q + 1, n, 0);
    } else {
      DivMod(q, n, r + 1);
    }
  }

  lemma QuotientUnique(q: int, r: int, d: int, m: int, n: nat)
    requires 0 <= r < n && 0 <= m < n && q * n + r == d * n + m
    ensures q == d && r == m
  {
    assert (q - d) * n == m - r;
    assert q - d >= 1 ==> (q - d) * n >= n;
    assert d - q >= 1 ==> (d - q) * n >= n;
  }

  lemma DivMod(q: nat, n: nat, r: nat)
    requires r < n
    ensures (q * n + r) / n == q && (q * n + r) % n == r
  {
    QuotientUnique(q, r, (q * n + r) / n, (q * n + r) % n, n);
  }

  lemma {:induction false} UsesExactly(k: nat, n: nat, i: nat)
    requires i < n
    ensures Uses(k, n, i) == k / n + if i < k % n then 1 else 0
  {
    if k == 0 {
      DivMod(0, n, 0);
    } else {
      UsesExactly(k - 1, n, i);
      NextTurn(k - 1, n);
    }
  }

  /** After any number of calls, two slots have been used equally often or differ by one. */
  lemma Fair(k: nat, n: nat, i: nat, j: nat)
    requires i < n && j < n
    ensures -1 <= Uses(k, n, i) - Uses(k, n, j) <= 1
  {
    UsesExactly(k, n, i);
    UsesExactly(k, n, j);
  }

  lemma AddPeriod(k: nat, n: nat)
    requires 0 < n
    ensures (k + n) % n == k % n
  {
    var q, r := k / n, k % n;
    assert k == q * n + r;
    assert (q + 1) * n == q * n + n;
    DivMod(q + 1, n, r);
  }

  lemma FirstWindow(n: nat, i: nat)
    requires i < n
    ensures Uses(n, n, i) == 1
  {
    DivMod(1, n, 0);
    UsesExactly(n, n, i);
  }

  /** Any `n` calls in a row use each slot exactly once. */
  lemma {:induction false} EveryWindow(k: nat, n: nat, i: nat)
    requires i < n
    ensures Uses(k + n, n, i) == Uses(k, n, i) + 1
  {
    if k == 0 {
      FirstWindow(n, i);
    } else {
      EveryWindow(k - 1, n, i);
      AddPeriod(k - 1, n);
      assert k - 1 + n == k + n - 1;
    }
  }

  /** A slot that was used in a window has a call there that used it. */
  lemma {:induction false} UsedBy(k: nat, m: nat, n: nat, i: nat) returns (j: nat)
    requires n > 0 && k <= m && Uses(m, n, i) > Uses(k, n, i)
    ensures k <= j < m && j % n == i
    decreases m - k
  {
    if (m - 1) % n == i {
      j := m - 1;
    } else {
      j := UsedBy(k, m - 1, n, i);
    }
  }
}
