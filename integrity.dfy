/**
 * The "system integrity" percentage both simulators report after an
 * infection: round((1 - infected / total) * 100), evaluated exactly on
 * rationals. script.js rounds with Math.round (a half goes up), main.py
 * with Python's round (a half goes to the even neighbour).
 */
module Integrity {

  /** The integer nearest to p / q; a half is rounded up, as Math.round does. */
  function RoundHalfUp(p: int, q: int): (r: int)
    requires q > 0
    ensures 2 * (q * r) - q <= 2 * p < 2 * (q * r) + q
  {
    var r := (2 * p + q) / (2 * q);
    assert 2 * p + q == 2 * (q * r) + (2 * p + q) % (2 * q);
    r
  }

  /** The integer nearest to p / q; a half is rounded to the even neighbour, as Python's round does. */
  function RoundHalfEven(p: int, q: int): (r: int)
    requires q > 0
    ensures 2 * (q * r) - q <= 2 * p <= 2 * (q * r) + q
    ensures 2 * p == 2 * (q * r) - q || 2 * p == 2 * (q * r) + q ==> r % 2 == 0
  {
    var up := RoundHalfUp(p, q);
    if 2 * p == 2 * (q * up) - q && up % 2 != 0 then up - 1 else up
  }

  /** Integrity once k of n nodes are infected, as script.js rounds it. */
  function Percent(k: int, n: int): (r: int)
    requires n > 0
  {
    RoundHalfUp(100 * (n - k), n)
  }

  /** Integrity once k of n nodes are infected, as main.py rounds it. */
  function PercentEven(k: int, n: int): (r: int)
    requires n > 0
  {
    RoundHalfEven(100 * (n - k), n)
  }

  /** Multiplying by a positive q keeps two integers at least q apart. */
  lemma MulStep(q: int, a: int, b: int)
    requires q > 0 && a < b
    ensures q * a + q <= q * b
  {
    assert q * b - q * a == q * (b - a);
    assert q * (b - a) == q * (b - a - 1) + q;
    assert q * (b - a - 1) >= 0;
  }

  /** Rounding half up picks the one integer r with r - 1/2 <= p/q < r + 1/2. */
  lemma RoundUnique(p: int, q: int, r: int, s: int)
    requires q > 0
    requires 2 * (q * r) - q <= 2 * p < 2 * (q * r) + q
    requires 2 * (q * s) - q <= 2 * p < 2 * (q * s) + q
    ensures r == s
  {
    if r < s {
      MulStep(q, r, s);
    } else if s < r {
      MulStep(q, s, r);
    }
  }

  /** Rounding either way keeps a value in [0, 100] inside [0, 100]. */
  lemma RoundBounds(p: int, q: int, r: int)
    requires q > 0 && 0 <= p <= 100 * q
    requires 2 * (q * r) - q <= 2 * p <= 2 * (q * r) + q
    ensures 0 <= r <= 100
  {
    if r < 0 {
      MulStep(q, r, 0);
    }
    if r > 100 {
      MulStep(q, 100, r);
    }
  }

  /** The reported integrity is a percentage while the count stays within the node count. */
  lemma PercentBounds(k: int, n: int)
    requires n > 0 && 0 <= k <= n
    ensures 0 <= Percent(k, n) <= 100
    ensures 0 <= PercentEven(k, n) <= 100
  {
    RoundBounds(100 * (n - k), n, Percent(k, n));
    RoundBounds(100 * (n - k), n, PercentEven(k, n));
  }

  /** No infection reads 100%, a fully infected network reads 0%, in both roundings. */
  lemma PercentEnds(n: int)
    requires n > 0
    ensures Percent(0, n) == 100 && PercentEven(0, n) == 100
    ensures Percent(n, n) == 0 && PercentEven(n, n) == 0
  {
    RoundUnique(100 * n, n, Percent(0, n), 100);
    RoundUnique(0, n, Percent(n, n), 0);
  }

  /** When the percentage is a whole number both roundings report it exactly. */
  lemma PercentExact(k: int, n: int)
    requires n > 0 && (100 * (n - k)) % n == 0
    ensures Percent(k, n) == (100 * (n - k)) / n
    ensures PercentEven(k, n) == (100 * (n - k)) / n
  {
    var p := 100 * (n - k);
    var e := p / n;
    assert p == n * e;
    RoundUnique(p, n, Percent(k, n), e);
  }

  /** One more infected node never raises the reported integrity. */
  lemma PercentAntitone(k: int, j: int, n: int)
    requires n > 0 && k <= j
    ensures Percent(j, n) <= Percent(k, n)
    ensures PercentEven(j, n) <= PercentEven(k, n)
  {
    var a, b := Percent(k, n), Percent(j, n);
    if b > a {
      MulStep(n, a, b);
    }
    var c, d := PercentEven(k, n), PercentEven(j, n);
    if d > c {
      MulStep(n, c, d);
    }
  }

  /** With script.js's 20 nodes the k-th infection reports 100 - 5k: the first one 95. */
  lemma TwentyNodes(k: int)
    requires 0 <= k <= 20
    ensures Percent(k, 20) == 100 - 5 * k
    ensures Percent(1, 20) == 95
  {
    PercentExact(k, 20);
    PercentExact(1, 20);
  }

  /** With main.py's default 10 nodes the k-th infected node reports 100 - 10k. */
  lemma TenNodes(k: int)
    requires 0 <= k <= 10
    ensures PercentEven(k, 10) == 100 - 10 * k
  {
    PercentExact(k, 10);
  }

  /** The two roundings differ on a tie: 3 of 8 infected is 62.5%, which script.js shows as 63 and main.py as 62. */
  lemma RoundingsDifferOnTies()
    ensures Percent(3, 8) == 63
    ensures PercentEven(3, 8) == 62
  {
    RoundUnique(500, 8, Percent(3, 8), 63);
    assert RoundHalfUp(500, 8) == 63;
  }
}
