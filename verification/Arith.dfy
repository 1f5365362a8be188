/** Division and remainder by a variable divisor. Div and Mod are written by repeated subtraction so that
    proofs about page numbers and page offsets need no multiplication; DivModAgree says that they are
    the language's own / and %. */
module Arith {
  function Div(x: nat, p: nat): (q: nat)
    requires p > 0
  {
    if x < p then 0 else 1 + Div(x - p, p)
  }

  function Mod(x: nat, p: nat): (r: nat)
    requires p > 0
    ensures r < p && r <= x
  {
    if x < p then x else Mod(x - p, p)
  }

  lemma {:induction false} DivModAgree(x: nat, p: nat)
    requires p > 0
    ensures Div(x, p) == x / p && Mod(x, p) == x % p
    ensures x == Div(x, p) * p + Mod(x, p)
  {
    if x >= p {
      DivModAgree(x - p, p);
      DivModIs(x, Div(x - p, p) + 1, Mod(x - p, p), p);
    }
  }

  lemma {:induction false} DivMonotone(x: nat, y: nat, p: nat)
    requires p > 0 && x <= y
    ensures Div(x, p) <= Div(y, p)
  {
    if x >= p {
      DivMonotone(x - p, y - p, p);
    }
  }

  /** Adding to a multiple of p: the page numbers add up and the page offset is that of the addend. */
  lemma {:induction false} AddToMultiple(x: nat, y: nat, p: nat)
    requires p > 0 && Mod(x, p) == 0
    ensures Div(x + y, p) == Div(x, p) + Div(y, p)
    ensures Mod(x + y, p) == Mod(y, p)
  {
    if x >= p {
      AddToMultiple(x - p, y, p);
      assert (x + y) - p == (x - p) + y;
    }
  }

  /** x without its remainder is a multiple of p. */
  lemma {:induction false} RoundDown(x: nat, p: nat)
    requires p > 0
    ensures Mod(x - Mod(x, p), p) == 0
  {
    if x >= p {
      RoundDown(x - p, p);
      assert x - Mod(x, p) >= p && x - Mod(x, p) - p == (x - p) - Mod(x - p, p);
    }
  }

  /** Quotient and remainder determine the number. */
  lemma {:induction false} DivModDetermine(x: nat, y: nat, p: nat)
    requires p > 0 && Div(x, p) == Div(y, p) && Mod(x, p) == Mod(y, p)
    ensures x == y
  {
    if x >= p {
      DivModDetermine(x - p, y - p, p);
    }
  }

  /** The numbers below n. */
  function Below(n: nat): (s: set<nat>)
    ensures |s| == n && forall x: nat :: x in s <==> x < n
  {
    if n == 0 then {} else Below(n - 1) + {n - 1}
  }

  lemma MulLe(a: int, b: int, p: int)
    requires a <= b && 0 <= p
    ensures a * p <= b * p
  {
    assert b * p == a * p + (b - a) * p;
  }

  lemma DivModIs(x: int, k: int, r: int, p: int)
    requires 0 < p && 0 <= r < p && x == k * p + r
    ensures x / p == k && x % p == r
  {
    var q := x / p;
    assert x == q * p + x % p;
    if q < k {
      MulLe(q + 1, k, p);
    } else if k < q {
      MulLe(k + 1, q, p);
    }
  }

  lemma DivAdd(x: int, k: int, p: int)
    requires 0 < p
    ensures (x + k * p) / p == x / p + k
    ensures (x + k * p) % p == x % p
  {
    DivModIs(x + k * p, x / p + k, x % p, p);
  }

  /** The flat index of (i, j) in a row-major matrix with w columns. */
  lemma FlatIndex(i: nat, j: nat, h: nat, w: nat)
    requires i < h && j < w
    ensures 0 <= i * w + j < h * w
    ensures (i * w + j) / w == i && (i * w + j) % w == j
  {
    MulLe(i + 1, h, w);
    DivModIs(i * w + j, i, j, w);
  }

  lemma FlatSplit(g: nat, h: nat, w: nat)
    requires g < h * w && 0 < w
    ensures g / w < h && g % w < w && g == (g / w) * w + g % w
  {
    if h <= g / w {
      MulLe(h, g / w, w);
    }
  }
}
