/** Bytes, and integers as little-endian byte strings: the form in which both ends put an int, a
    ProxyRequest or a dma_size_t on the socket. */
module Bytes {
  import opened Arith

  type byte = b: int | 0 <= b < 256

  function Pow256(n: nat): (p: nat)
    ensures p > 0
  {
    if n == 0 then 1 else 256 * Pow256(n - 1)
  }

  /** The low n bytes of x, least significant first. */
  function Le(x: nat, n: nat): (s: seq<byte>)
    ensures |s| == n
  {
    if n == 0 then [] else [x % 256] + Le(x / 256, n - 1)
  }

  function FromLe(s: seq<byte>): (x: nat)
    ensures x < Pow256(|s|)
  {
    if s == [] then 0 else s[0] + 256 * FromLe(s[1..])
  }

  lemma {:induction false} LeRoundTrip(x: nat, n: nat)
    requires x < Pow256(n)
    ensures FromLe(Le(x, n)) == x
  {
    if n > 0 {
      LeRoundTrip(x / 256, n - 1);
      assert Le(x, n)[1..] == Le(x / 256, n - 1);
    }
  }

  lemma DivDiv(x: nat, p: nat)
    requires p > 0
    ensures (x / 256) / p == x / (256 * p)
  {
    var q, r := x / 256, x % 256;
    var u, v := q / p, q % p;
    assert q == u * p + v && x == 256 * q + r;
    assert x == u * (256 * p) + (256 * v + r);
    DivModIs(x, u, 256 * v + r, 256 * p);
  }

  /** The least significant byte comes first: byte k is worth 256^k. */
  lemma {:induction false} LeByte(x: nat, n: nat, k: nat)
    requires k < n
    ensures Le(x, n)[k] == (x / Pow256(k)) % 256
  {
    if k > 0 {
      LeByte(x / 256, n - 1, k - 1);
      DivDiv(x, Pow256(k - 1));
    }
  }

  lemma Associative(a: seq<byte>, b: seq<byte>, c: seq<byte>)
    ensures (a + b) + c == a + (b + c)
  {
  }

  /** When a stream that starts with w has reached us at least as far as w, what we read is w. */
  lemma SplitPrefix(arrived: seq<byte>, coming: seq<byte>, w: seq<byte>, rest: seq<byte>)
    requires arrived + coming == w + rest
    requires |w| <= |arrived|
    ensures arrived[..|w|] == w
    ensures arrived[|w|..] + coming == rest
  {
    assert (arrived + coming)[..|w|] == arrived[..|w|];
    assert (arrived + coming)[|w|..] == arrived[|w|..] + coming;
    assert (w + rest)[..|w|] == w && (w + rest)[|w|..] == rest;
  }
}
