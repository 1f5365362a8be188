/** End to end: a buffer in one machine's memory arrives in another's. */
module Copy {
  import opened Arith
  import opened Bytes
  import opened Device
  import opened Driver
  import opened Options
  import opened PageWalk
  import opened Wire

  /** The physical place of byte b of the user's buffer at va. */
  function UserAddr(pt: PageTable, p: nat, va: nat, b: nat): nat
    requires p > 0
  {
    Translate(pt, p, va + b)
  }

  /** A page table that gives the pages of a buffer distinct places. */
  ghost predicate DistinctFrames(pt: PageTable, p: nat, va: nat, len: nat)
    requires p > 0 && len > 0
  {
    forall v, w | Div(va, p) <= v < w <= Div(va + len - 1, p) :: pt(v) != pt(w)
  }

  /** The destination's user buffer holds the source's, and no other byte of the destination changed. */
  ghost predicate BufferCopied(src: Memory, ptS: PageTable, vaS: nat,
                               dst: Memory, dst': Memory, ptD: PageTable, vaD: nat, len: nat, p: nat)
    requires p > 0
  {
    && (forall b: nat | b < len :: dst'(UserAddr(ptD, p, vaD, b)) == src(UserAddr(ptS, p, vaS, b)))
    && (forall x: nat | (forall b: nat | b < len :: UserAddr(ptD, p, vaD, b) != x) :: dst'(x) == dst(x))
  }

  // ---- what one copy does, at the level of handle lists ----

  /** The destination list's bytes are the source list's, and no byte outside the destination list changed. */
  ghost predicate ListCopied(cS: Config, cD: Config, src: Memory, dst: Memory, dst': Memory)
    requires WellFormed(cS) && WellFormed(cD) && cS.len == cD.len
  {
    && (forall b | 0 <= b < cD.len :: dst'(Listed(cD, b)) == src(Listed(cS, b)))
    && (forall x: nat | (forall b | 0 <= b < cD.len :: Listed(cD, b) != x) :: dst'(x) == dst(x))
  }

  /** For all contents of both memories, gathering at one end and scattering at the other copies list to
      list. */
  ghost predicate CopyCorrect(cS: Config, cD: Config)
    requires WellFormed(cS) && WellFormed(cD) && cS.len == cD.len
  {
    forall src: Memory, dst: Memory, dst': Memory |
      Scattered(cD, dst, dst', Gathered(cS, src), cD.len) :: ListCopied(cS, cD, src, dst, dst')
  }

  /** m after the first n bytes of data were stored along the walk, one after the other. */
  ghost function Scatter(c: Config, m: Memory, data: seq<byte>, n: nat): Memory
    requires WellFormed(c) && n <= c.len == |data|
  {
    if n == 0 then m
    else Poke(Scatter(c, m, data, n - 1), Walk(c, n - 1), [data[n - 1]])
  }

  lemma ScatteredNothing(c: Config, m: Memory, data: seq<byte>)
    requires WellFormed(c)
    ensures Scattered(c, m, m, data, 0)
  {
  }

  lemma PokeAt(m: Memory, a: nat, v: byte)
    ensures forall x: nat :: Poke(m, a, [v])(x) == if x == a then v else m(x)
  {
  }

  /** One byte more. */
  lemma ScatteredByte(c: Config, m: Memory, m0: Memory, m': Memory, data: seq<byte>, n: nat)
    requires WellFormed(c) && 0 < n <= c.len == |data| && Scattered(c, m, m0, data, n - 1)
    requires forall x: nat :: m'(x) == if x == Walk(c, n - 1) then data[n - 1] else m0(x)
    ensures Scattered(c, m, m', data, n)
  {
    hide WellFormed, Walk;
    forall b | 0 <= b < n && (forall a | b < a < n :: Walk(c, a) != Walk(c, b))
      ensures m'(Walk(c, b)) == data[b]
    {
      if b < n - 1 {
        assert forall a | b < a < n - 1 :: Walk(c, a) != Walk(c, b);
        assert Walk(c, n - 1) != Walk(c, b);
      }
    }
    forall x: nat | forall b | 0 <= b < n :: Walk(c, b) != x
      ensures m'(x) == m(x)
    {
      assert Walk(c, n - 1) != x;
    }
  }

  /** Scattered is no more than that: it always has a solution, and only this one. */
  lemma {:induction false} ScatterIsScattered(c: Config, m: Memory, data: seq<byte>, n: nat)
    requires WellFormed(c) && n <= c.len == |data|
    ensures Scattered(c, m, Scatter(c, m, data, n), data, n)
  {
    hide WellFormed, Walk, Scattered, Poke;
    if n == 0 {
      ScatteredNothing(c, m, data);
    } else {
      ScatterIsScattered(c, m, data, n - 1);
      PokeAt(Scatter(c, m, data, n - 1), Walk(c, n - 1), data[n - 1]);
      ScatteredByte(c, m, Scatter(c, m, data, n - 1), Scatter(c, m, data, n), data, n);
    }
  }

  lemma ScatteredIsScatter(c: Config, m: Memory, m': Memory, data: seq<byte>, x: nat)
    requires WellFormed(c) && |data| == c.len && Scattered(c, m, m', data, c.len)
    ensures m'(x) == Scatter(c, m, data, c.len)(x)
  {
    hide WellFormed, Walk, Poke, Scattered;
    var o := LastOrNone(c, x);
    if o.Some? {
      ScatteredAt(c, m, m', data, o.value, x);
      PokeAt(Scatter(c, m, data, o.value), Walk(c, o.value), data[o.value]);
      ScatterSkips(c, m, data, o.value + 1, c.len, x);
    } else {
      ScatteredElsewhere(c, m, m', data, x);
      ScatterSkips(c, m, data, 0, c.len, x);
    }
  }

  lemma ScatteredElsewhere(c: Config, m: Memory, m': Memory, data: seq<byte>, x: nat)
    requires WellFormed(c) && |data| == c.len && Scattered(c, m, m', data, c.len)
    requires forall a | 0 <= a < c.len :: Walk(c, a) != x
    ensures m'(x) == m(x)
  {
    hide WellFormed, Walk;
  }

  lemma {:induction false} ScatterSkips(c: Config, m: Memory, data: seq<byte>, n: nat, k: nat, x: nat)
    requires WellFormed(c) && n <= k <= c.len == |data|
    requires forall a | n <= a < k :: Walk(c, a) != x
    ensures Scatter(c, m, data, k)(x) == Scatter(c, m, data, n)(x)
  {
    if n < k {
      ScatterSkips(c, m, data, n, k - 1, x);
    }
  }

  // ---- when exactly the copy is right ----

  /** Byte d is the last one that a run moves through address x. */
  ghost predicate LastAt(c: Config, d: nat, x: nat)
    requires WellFormed(c)
  {
    d < c.len && Walk(c, d) == x && forall a | d < a < c.len :: Walk(c, a) != x
  }

  lemma LastOrNone(c: Config, x: nat) returns (o: Option<nat>)
    requires WellFormed(c)
    ensures o.Some? ==> LastAt(c, o.value, x)
    ensures o.None? ==> forall a | 0 <= a < c.len :: Walk(c, a) != x
  {
    hide WellFormed, Walk;
    var n: nat := c.len;
    while n > 0 && Walk(c, n - 1) != x
      invariant n <= c.len
      invariant forall a | n <= a < c.len :: Walk(c, a) != x
    {
      n := n - 1;
    }
    o := if n > 0 then Some(n - 1) else None;
  }

  /** A scattering run leaves at x the last byte it writes there. */
  lemma ScatteredAt(c: Config, m: Memory, m': Memory, data: seq<byte>, d: nat, x: nat)
    requires WellFormed(c) && |data| == c.len && Scattered(c, m, m', data, c.len) && LastAt(c, d, x)
    ensures m'(x) == data[d]
  {
    hide WellFormed, Walk;
  }

  /** What ends up at the place of byte b in the destination list comes from its place in the source's. */
  ghost predicate Served(cS: Config, cD: Config, b: nat)
    requires WellFormed(cS) && WellFormed(cD) && cS.len == cD.len && b < cD.len
  {
    exists d: nat :: LastAt(cD, d, Listed(cD, b)) && Walk(cS, d) == Listed(cS, b)
  }

  ghost predicate InList(c: Config, x: nat)
    requires WellFormed(c)
  {
    exists b | 0 <= b < c.len :: Listed(c, b) == x
  }

  ghost predicate Matched(cS: Config, cD: Config)
    requires WellFormed(cS) && WellFormed(cD) && cS.len == cD.len
  {
    && (forall b | 0 <= b < cD.len :: Served(cS, cD, b))
    && (forall d | 0 <= d < cD.len :: InList(cD, Walk(cD, d)))
  }

  lemma MatchedCopies(cS: Config, cD: Config, src: Memory, dst: Memory, dst': Memory)
    requires WellFormed(cS) && WellFormed(cD) && cS.len == cD.len && Matched(cS, cD)
    requires Scattered(cD, dst, dst', Gathered(cS, src), cD.len)
    ensures ListCopied(cS, cD, src, dst, dst')
  {
    hide WellFormed, Walk, Listed;
    forall b | 0 <= b < cD.len
      ensures dst'(Listed(cD, b)) == src(Listed(cS, b))
    {
      assert Served(cS, cD, b);
      var d: nat :| LastAt(cD, d, Listed(cD, b)) && Walk(cS, d) == Listed(cS, b);
      ScatteredAt(cD, dst, dst', Gathered(cS, src), d, Listed(cD, b));
    }
    forall x: nat | forall b | 0 <= b < cD.len :: Listed(cD, b) != x
      ensures dst'(x) == dst(x)
    {
      forall d | 0 <= d < cD.len
        ensures Walk(cD, d) != x
      {
        assert InList(cD, Walk(cD, d));
      }
    }
  }

  /** Contents that show a byte which is not served: it alone is marked in the source. */
  lemma UnservedMisses(cS: Config, cD: Config, b: nat) returns (src: Memory, dst: Memory, dst': Memory)
    requires WellFormed(cS) && WellFormed(cD) && cS.len == cD.len && b < cD.len && !Served(cS, cD, b)
    ensures Scattered(cD, dst, dst', Gathered(cS, src), cD.len)
    ensures dst'(Listed(cD, b)) != src(Listed(cS, b))
  {
    hide WellFormed, Walk, Listed, Scatter;
    var marked := Listed(cS, b);
    src, dst := (x: nat) => if x == marked then 1 else 0, (x: nat) => 0;
    var data := Gathered(cS, src);
    dst' := Scatter(cD, dst, data, cD.len);
    ScatterIsScattered(cD, dst, data, cD.len);
    var o := LastOrNone(cD, Listed(cD, b));
    if o.Some? {
      ScatteredAt(cD, dst, dst', data, o.value, Listed(cD, b));
      assert Walk(cS, o.value) != marked;
    }
  }

  /** Contents that show a write outside the destination list: everything is marked in the source. */
  lemma StrayMisses(cS: Config, cD: Config, d: nat) returns (src: Memory, dst: Memory, dst': Memory)
    requires WellFormed(cS) && WellFormed(cD) && cS.len == cD.len && d < cD.len
    ensures Scattered(cD, dst, dst', Gathered(cS, src), cD.len) && dst'(Walk(cD, d)) != dst(Walk(cD, d))
  {
    hide WellFormed, Walk, Scatter;
    src, dst := (x: nat) => 1, (x: nat) => 0;
    var data := Gathered(cS, src);
    dst' := Scatter(cD, dst, data, cD.len);
    ScatterIsScattered(cD, dst, data, cD.len);
    var o := LastOrNone(cD, Walk(cD, d));
    ScatteredAt(cD, dst, dst', data, o.value, Walk(cD, d));
  }

  /** For any two lists whatever: the copy is right for all contents exactly when the two walks permute
      the bytes of their lists in the same way. */
  lemma CopyCorrectIffMatched(cS: Config, cD: Config)
    requires WellFormed(cS) && WellFormed(cD) && cS.len == cD.len
    ensures CopyCorrect(cS, cD) <==> Matched(cS, cD)
  {
    hide WellFormed, Walk, Listed, Scattered, Gathered, Served;
    if Matched(cS, cD) {
      forall src: Memory, dst: Memory, dst': Memory | Scattered(cD, dst, dst', Gathered(cS, src), cD.len)
        ensures ListCopied(cS, cD, src, dst, dst')
      {
        MatchedCopies(cS, cD, src, dst, dst');
      }
    } else if b :| 0 <= b < cD.len && !Served(cS, cD, b) {
      var src, dst, dst' := UnservedMisses(cS, cD, b);
      assert !ListCopied(cS, cD, src, dst, dst');
    } else {
      var d :| 0 <= d < cD.len && !InList(cD, Walk(cD, d));
      var src, dst, dst' := StrayMisses(cS, cD, d);
      assert !ListCopied(cS, cD, src, dst, dst');
    }
  }

  /** Two runs that follow their lists match. */
  lemma FollowingMatches(cS: Config, cD: Config)
    requires WellFormed(cS) && WellFormed(cD) && cS.len == cD.len
    requires FollowsList(cS) && FollowsList(cD) && Injective(cD)
    ensures Matched(cS, cD)
  {
    WalkIsListed(cS);
    WalkIsListed(cD);
    hide WellFormed, FollowsList, Walk, Listed;
    forall b | 0 <= b < cD.len
      ensures Served(cS, cD, b) && InList(cD, Walk(cD, b))
    {
      assert LastAt(cD, b, Listed(cD, b)) && Walk(cS, b) == Listed(cS, b);
    }
  }

  /** With a destination that follows its list, the copy is right for all contents exactly when the
      source follows its own. */
  lemma CopyCorrectIffSourceFollows(cS: Config, cD: Config)
    requires WellFormed(cS) && WellFormed(cD) && cS.len == cD.len
    requires FollowsList(cD) && Injective(cD)
    ensures CopyCorrect(cS, cD) <==> FollowsList(cS)
  {
    CopyCorrectIffMatched(cS, cD);
    WalkIsListed(cS);
    WalkIsListed(cD);
    hide WellFormed, FollowsList, Walk, Listed, CopyCorrect;
    if FollowsList(cS) {
      FollowingMatches(cS, cD);
    } else {
      var b :| 0 <= b < cS.len && Walk(cS, b) != Listed(cS, b);
      assert !Served(cS, cD, b);
    }
  }

  /** And with a source that follows a list of distinct places, exactly when the destination does. */
  lemma CopyCorrectIffDestinationFollows(cS: Config, cD: Config)
    requires WellFormed(cS) && WellFormed(cD) && cS.len == cD.len
    requires FollowsList(cS) && Injective(cS) && Injective(cD)
    ensures CopyCorrect(cS, cD) <==> FollowsList(cD)
  {
    CopyCorrectIffMatched(cS, cD);
    WalkIsListed(cS);
    WalkIsListed(cD);
    hide WellFormed, FollowsList, Walk, Listed, CopyCorrect;
    if FollowsList(cD) {
      FollowingMatches(cS, cD);
    } else {
      var b :| 0 <= b < cD.len && Walk(cD, b) != Listed(cD, b);
      assert !Served(cS, cD, b);
    }
  }

  // ---- two linear runs ----

  /** How much of a buffer that starts on a page boundary lies in its i-th page. */
  ghost function BytesIn(c: Config, i: nat): nat
    requires WellFormed(c) && i < c.npages
  {
    if i == c.npages - 1 then Mod(c.len - 1, c.pageSize) + 1 else c.pageSize
  }

  /** Page i lies equally far behind the first page at both ends, and no farther than the runs reach. */
  ghost predicate SameShift(cS: Config, cD: Config, i: nat)
    requires WellFormed(cS) && WellFormed(cD) && i < cS.npages && i < cD.npages
  {
    var shift := PageBase(cD, i) - cD.handles[0];
    PageBase(cS, i) - cS.handles[0] == shift && 0 <= shift && shift + BytesIn(cD, i) <= cD.len
  }

  /** Both buffers start on a page boundary and their pages lie in the same pattern. */
  ghost predicate SameLayout(cS: Config, cD: Config)
    requires WellFormed(cS) && WellFormed(cD) && cS.len == cD.len && cS.pageSize == cD.pageSize
  {
    Offset(cS) == 0 == Offset(cD) && forall i | 0 <= i < cD.npages :: SameShift(cS, cD, i)
  }

  /** The bytes of one page. */
  lemma PageSpan(c: Config, i: nat) returns (a: nat)
    requires WellFormed(c) && Offset(c) == 0 && i < c.npages
    ensures Mod(a, c.pageSize) == 0 && Div(a, c.pageSize) == i
    ensures a + BytesIn(c, i) <= c.len && 0 < BytesIn(c, i) <= c.pageSize
    ensures i == c.npages - 1 ==> a + BytesIn(c, i) == c.len
  {
    a := PageStart(c, i);
    AddToMultiple(a, c.len - 1 - a, c.pageSize);
    assert a + (c.len - 1 - a) == c.len - 1;
  }

  /** A byte sits as far into its page as its number says, and its page has room for it. */
  lemma ByteInPage(c: Config, b: nat)
    requires WellFormed(c) && Offset(c) == 0 && b < c.len
    ensures Mod(b, c.pageSize) < BytesIn(c, PageIndex(c, b))
  {
    var i, r := PageIndex(c, b), Mod(b, c.pageSize);
    var a := PageSpan(c, i);
    AddToMultiple(a, r, c.pageSize);
    DivModDetermine(b, a + r, c.pageSize);
  }

  /** Byte b lies equally far behind the first handle at both ends, within the runs' reach. */
  ghost predicate ByteShift(cS: Config, cD: Config, b: nat)
    requires WellFormed(cS) && WellFormed(cD) && cS.len == cD.len && b < cD.len
  {
    var shift := Listed(cD, b) - cD.handles[0];
    Listed(cS, b) - cS.handles[0] == shift && 0 <= shift < cD.len
  }

  lemma LayoutByByte(cS: Config, cD: Config)
    requires WellFormed(cS) && WellFormed(cD) && cS.len == cD.len && cS.pageSize == cD.pageSize
    requires Offset(cS) == 0 == Offset(cD)
    ensures SameLayout(cS, cD) <==> forall b | 0 <= b < cD.len :: ByteShift(cS, cD, b)
  {
    if SameLayout(cS, cD) {
      forall b | 0 <= b < cD.len
        ensures ByteShift(cS, cD, b)
      {
        ByteInPage(cD, b);
        assert SameShift(cS, cD, PageIndex(cD, b));
      }
    }
    if forall b | 0 <= b < cD.len :: ByteShift(cS, cD, b) {
      forall i | 0 <= i < cD.npages
        ensures SameShift(cS, cD, i)
      {
        var a := PageSpan(cD, i);
        ShiftOfPage(cS, cD, i, a);
      }
    }
  }

  lemma ShiftOfPage(cS: Config, cD: Config, i: nat, a: nat)
    requires WellFormed(cS) && WellFormed(cD) && cS.len == cD.len && cS.pageSize == cD.pageSize
    requires Offset(cS) == 0 == Offset(cD) && i < cD.npages
    requires Mod(a, cD.pageSize) == 0 && Div(a, cD.pageSize) == i
    requires a + BytesIn(cD, i) <= cD.len && 0 < BytesIn(cD, i) <= cD.pageSize
    requires forall b | 0 <= b < cD.len :: ByteShift(cS, cD, b)
    ensures SameShift(cS, cD, i)
  {
    var last := BytesIn(cD, i) - 1;
    AddToMultiple(a, last, cD.pageSize);
    assert ByteShift(cS, cD, a) && ByteShift(cS, cD, a + last);
  }

  function Elements(s: seq<nat>): (t: set<nat>)
    ensures forall x :: x in t <==> x in s
  {
    set x | x in s
  }

  lemma {:induction false} DistinctCount(s: seq<nat>)
    requires forall i, j | 0 <= i < j < |s| :: s[i] != s[j]
    ensures |Elements(s)| == |s|
  {
    if s != [] {
      var n := |s| - 1;
      DistinctCount(s[..n]);
      assert s == s[..n] + [s[n]];
      assert Elements(s) == Elements(s[..n]) + {s[n]};
    }
  }

  /** n different numbers below n are all the numbers below n. */
  lemma Onto(s: seq<nat>, y: nat)
    requires forall i, j | 0 <= i < j < |s| :: s[i] != s[j]
    requires (forall x | x in s :: x < |s|) && y < |s|
    ensures y in s
  {
    DistinctCount(s);
    var have, all := Elements(s), Below(|s|);
    assert have <= all;
    assert |all - have| == |all| - |have|;
    assert y !in all - have;
  }

  /** A linear run over distinct pages that all lie within its reach strays nowhere. */
  lemma ReachIsListed(cS: Config, cD: Config, d: nat)
    requires WellFormed(cS) && WellFormed(cD) && cS.len == cD.len && d < cD.len
    requires Offset(cD) == 0 && DistinctPages(cD)
    requires forall b | 0 <= b < cD.len :: ByteShift(cS, cD, b)
    ensures InList(cD, Walk(cD, d))
  {
    hide DistinctPages;
    assert Walk(cD, d) == cD.handles[0] + d;
    forall i, j | 0 <= i < j < cD.len
      ensures Listed(cD, i) != Listed(cD, j)
    {
      SamePlace(cD, i, j);
    }
    hide WellFormed, Walk, Listed;
    assert forall b | 0 <= b < cD.len :: ByteShift(cS, cD, b) ==> Listed(cD, b) >= cD.handles[0];
    var shifts := seq<nat>(cD.len, b requires 0 <= b < cD.len => Listed(cD, b) - cD.handles[0]);
    forall x | x in shifts
      ensures x < cD.len
    {
      var b :| 0 <= b < |shifts| && shifts[b] == x;
      assert ByteShift(cS, cD, b);
    }
    Onto(shifts, d);
    var b :| 0 <= b < |shifts| && shifts[b] == d;
    assert Listed(cD, b) == Walk(cD, d);
  }

  lemma LinearMatches(cS: Config, cD: Config)
    requires WellFormed(cS) && WellFormed(cD) && cS.len == cD.len && cS.pageSize == cD.pageSize
    requires Offset(cS) == 0 == Offset(cD) && DistinctPages(cD)
    ensures Matched(cS, cD) <==> SameLayout(cS, cD)
  {
    LayoutByByte(cS, cD);
    hide WellFormed, Walk, Listed, SameLayout, DistinctPages, InList, Served, ByteShift;
    forall b | 0 <= b < cD.len
      ensures Served(cS, cD, b) <==> ByteShift(cS, cD, b)
    {
      ServedIsShifted(cS, cD, b);
    }
    if SameLayout(cS, cD) {
      forall d | 0 <= d < cD.len
        ensures InList(cD, Walk(cD, d))
      {
        ReachIsListed(cS, cD, d);
      }
    }
  }

  lemma ServedIsShifted(cS: Config, cD: Config, b: nat)
    requires WellFormed(cS) && WellFormed(cD) && cS.len == cD.len && Offset(cS) == 0 == Offset(cD) && b < cD.len
    ensures Served(cS, cD, b) <==> ByteShift(cS, cD, b)
  {
    assert forall d | 0 <= d < cD.len :: Walk(cD, d) == cD.handles[0] + d && Walk(cS, d) == cS.handles[0] + d;
    hide WellFormed, Walk, Listed;
    if ByteShift(cS, cD, b) {
      assert LastAt(cD, Listed(cD, b) - cD.handles[0], Listed(cD, b));
    }
  }

  /** When the copy is right: both runs follow their lists, or both are linear over pages in the same
      pattern, so that they go astray together. */
  ghost predicate RunsAgree(cS: Config, cD: Config)
    requires WellFormed(cS) && WellFormed(cD) && cS.len == cD.len && cS.pageSize == cD.pageSize
  {
    (FollowsList(cS) && FollowsList(cD)) || SameLayout(cS, cD)
  }

  lemma AgreeingMatches(cS: Config, cD: Config)
    requires WellFormed(cS) && WellFormed(cD) && cS.len == cD.len && cS.pageSize == cD.pageSize
    requires DistinctPages(cD) && RunsAgree(cS, cD)
    ensures Matched(cS, cD)
  {
    hide WellFormed, DistinctPages, FollowsList, Matched;
    if SameLayout(cS, cD) {
      LinearMatches(cS, cD);
    } else {
      DistinctPagesInjective(cD);
      FollowingMatches(cS, cD);
    }
  }

  /** Exactly then, over every pair of lists of distinct pages. */
  lemma CopyCorrectIff(cS: Config, cD: Config)
    requires WellFormed(cS) && WellFormed(cD) && cS.len == cD.len && cS.pageSize == cD.pageSize
    requires DistinctPages(cS) && DistinctPages(cD)
    ensures CopyCorrect(cS, cD) <==> RunsAgree(cS, cD)
  {
    CopyCorrectIffMatched(cS, cD);
    DistinctPagesInjective(cS);
    DistinctPagesInjective(cD);
    if Offset(cS) == 0 == Offset(cD) {
      LinearMatches(cS, cD);
    } else if Offset(cS) != 0 {
      CopyCorrectIffDestinationFollows(cS, cD);
    } else {
      CopyCorrectIffSourceFollows(cS, cD);
    }
    hide WellFormed, DistinctPages, Matched, CopyCorrect, Consecutive, Injective;
    if RunsAgree(cS, cD) {
      AgreeingMatches(cS, cD);
    }
  }

  /** Three pages, the last two in the wrong order. */
  function Swapped(p: nat, h: nat): Config {
    Config(3, p + p + p, p, [h, h + p + p, h + p])
  }

  lemma SwappedPages(p: nat, h: nat)
    requires 0 < p <= AREA_SIZE && Mod(h, p) == 0
    ensures WellFormed(Swapped(p, h)) && Offset(Swapped(p, h)) == 0
    ensures DistinctPages(Swapped(p, h)) && !FollowsList(Swapped(p, h))
    ensures PageBase(Swapped(p, h), 1) == h + p + p && PageBase(Swapped(p, h), 2) == h + p
  {
    AddToMultiple(h, p, p);
    AddToMultiple(h + p, p, p);
    var c := Swapped(p, h);
    assert Div(p + p + p - 1, p) == 1 + Div(p + p - 1, p);
    hide Div, Mod;
    assert c.handles[0] == h && c.handles[1] == h + p + p && c.handles[2] == h + p;
    assert PageBase(c, 1) != PageBase(c, 0) + c.pageSize;
  }

  /** The copy can be right although neither run follows its list: both go astray alike. */
  lemma AstrayTogetherExample(p: nat, h: nat, k: nat)
    requires 0 < p <= AREA_SIZE && Mod(h, p) == 0 == Mod(k, p)
    ensures var cS, cD := Swapped(p, h), Swapped(p, k);
            WellFormed(cS) && !FollowsList(cS) && WellFormed(cD) && !FollowsList(cD) && CopyCorrect(cS, cD)
  {
    SwappedPages(p, h);
    SwappedPages(p, k);
    var cS, cD := Swapped(p, h), Swapped(p, k);
    hide WellFormed, DistinctPages, CopyCorrect, FollowsList;
    assert SameShift(cS, cD, 0) && SameShift(cS, cD, 1);
    assert SameShift(cS, cD, 2);
    assert SameLayout(cS, cD);
    CopyCorrectIff(cS, cD);
  }

  // ---- the same in terms of the two users' buffers ----

  ghost predicate UserShift(ptS: PageTable, vS: nat, ptD: PageTable, vD: nat, p: nat, len: nat, i: nat)
    requires p > 0 && len > 0
  {
    var shift := ptD(vD + i) - ptD(vD);
    && ptS(vS + i) - ptS(vS) == shift
    && 0 <= shift && shift + (if i == Div(len - 1, p) then Mod(len - 1, p) + 1 else p) <= len
  }

  /** Both buffers start on a page boundary, and each page lies physically as far behind the first at one
      end as at the other, within the length of the buffer. */
  ghost predicate AlikePlaced(ptS: PageTable, vaS: nat, ptD: PageTable, vaD: nat, p: nat, len: nat)
    requires p > 0 && len > 0
  {
    && Mod(vaS, p) == 0 == Mod(vaD, p)
    && forall i | 0 <= i <= Div(len - 1, p) :: UserShift(ptS, Div(vaS, p), ptD, Div(vaD, p), p, len, i)
  }

  /** What the two users can check. */
  ghost predicate BuffersAgree(ptS: PageTable, vaS: nat, ptD: PageTable, vaD: nat, p: nat, len: nat)
    requires p > 0 && len > 0
  {
    (CopySafe(ptS, p, vaS, len) && CopySafe(ptD, p, vaD, len)) || AlikePlaced(ptS, vaS, ptD, vaD, p, len)
  }

  /** The registers of one end of a copy. */
  ghost predicate Describes(c: Config, pt: PageTable, va: nat, len: nat) {
    && 0 < c.pageSize <= AREA_SIZE && 0 < len && WellFormed(c)
    && Programmed(c, pt, va, len) && Mapped(pt, c.pageSize, va, len)
  }

  lemma DescribedBases(c: Config, pt: PageTable, va: nat, len: nat)
    requires Describes(c, pt, va, len)
    ensures WellFormed(c) && c.len == len && Offset(c) == Mod(va, c.pageSize)
    ensures c.npages == Div(va + len - 1, c.pageSize) - Div(va, c.pageSize) + 1
    ensures forall i | 0 <= i < c.npages :: PageBase(c, i) == pt(Div(va, c.pageSize) + i)
  {
    hide Mapped, Segments, Programmed, PageBase, WellFormed;
    ProgrammedWellFormed(c, pt, va, len);
    ProgrammedOffset(c, pt, va, len);
    ProgrammedHandle(c, pt, va, len, 0);
    forall i | 0 <= i < c.npages
      ensures PageBase(c, i) == pt(Div(va, c.pageSize) + i)
    {
      ProgrammedBase(c, pt, va, len, i);
    }
  }

  /** The pages are distinct in the list when they are in the table. */
  lemma SameDistinct(c: Config, pt: PageTable, va: nat, len: nat)
    requires WellFormed(c) && c.pageSize > 0 && len > 0
    requires c.npages == Div(va + len - 1, c.pageSize) - Div(va, c.pageSize) + 1
    requires forall i | 0 <= i < c.npages :: PageBase(c, i) == pt(Div(va, c.pageSize) + i)
    ensures DistinctFrames(pt, c.pageSize, va, len) <==> DistinctPages(c)
  {
    var first := Div(va, c.pageSize);
    assert c.npages <= |c.handles|;
    hide PageBase, WellFormed, Div;
    if DistinctPages(c) {
      forall v, w | first <= v < w <= Div(va + len - 1, c.pageSize)
        ensures pt(v) != pt(w)
      {
        assert PageBase(c, v - first) != PageBase(c, w - first);
      }
    }
  }

  lemma DescribedPages(c: Config, pt: PageTable, va: nat, len: nat)
    requires Describes(c, pt, va, len)
    ensures WellFormed(c) && c.len == len && Offset(c) == Mod(va, c.pageSize)
    ensures forall i | 0 <= i < c.npages :: PageBase(c, i) == pt(Div(va, c.pageSize) + i)
    ensures CopySafe(pt, c.pageSize, va, len) <==> FollowsList(c)
    ensures DistinctFrames(pt, c.pageSize, va, len) <==> DistinctPages(c)
  {
    hide Mapped, Segments, Programmed, FollowsList, CopySafe, PageBase, WellFormed, DistinctFrames, DistinctPages;
    DescribedBases(c, pt, va, len);
    CopySafeIsFollowsList(c, pt, va, len);
    SameDistinct(c, pt, va, len);
  }

  lemma AlikeIsSameLayout(cS: Config, ptS: PageTable, vaS: nat, cD: Config, ptD: PageTable, vaD: nat, len: nat)
    requires cS.pageSize == cD.pageSize && Describes(cS, ptS, vaS, len) && Describes(cD, ptD, vaD, len)
    ensures AlikePlaced(ptS, vaS, ptD, vaD, cS.pageSize, len) <==> SameLayout(cS, cD)
  {
    hide Mapped, Segments, CopySafe, FollowsList, DistinctFrames, DistinctPages;
    DescribedPages(cS, ptS, vaS, len);
    DescribedPages(cD, ptD, vaD, len);
    if Offset(cS) == 0 == Offset(cD) {
      assert cS.npages == cD.npages == Div(len - 1, cD.pageSize) + 1;
      forall i | 0 <= i < cD.npages
        ensures SameShift(cS, cD, i) <==>
                UserShift(ptS, Div(vaS, cS.pageSize), ptD, Div(vaD, cS.pageSize), cS.pageSize, len, i)
      {
        ShiftIsUserShift(cS, ptS, Div(vaS, cS.pageSize), cD, ptD, Div(vaD, cS.pageSize), i);
      }
      hide SameShift, UserShift;
      hide Describes, WellFormed, Mod, Div, PageBase;
    }
  }

  lemma ShiftIsUserShift(cS: Config, ptS: PageTable, vS: nat, cD: Config, ptD: PageTable, vD: nat, i: nat)
    requires WellFormed(cS) && WellFormed(cD) && cS.len == cD.len && cS.pageSize == cD.pageSize
    requires Offset(cS) == 0 == Offset(cD) && i < cD.npages == cS.npages
    requires forall k | 0 <= k < cS.npages :: PageBase(cS, k) == ptS(vS + k)
    requires forall k | 0 <= k < cD.npages :: PageBase(cD, k) == ptD(vD + k)
    ensures SameShift(cS, cD, i) <==> UserShift(ptS, vS, ptD, vD, cD.pageSize, cD.len, i)
  {
    assert PageBase(cS, 0) == cS.handles[0] == ptS(vS + 0) && PageBase(cD, 0) == cD.handles[0] == ptD(vD + 0);
    assert cD.npages - 1 == Div(cD.len - 1, cD.pageSize);
    hide WellFormed, Mod, Div, PageBase;
  }

  lemma DescribedByte(c: Config, pt: PageTable, va: nat, len: nat, b: nat)
    requires Describes(c, pt, va, len) && b < len
    ensures c.len == len && Listed(c, b) == UserAddr(pt, c.pageSize, va, b)
  {
    hide Mapped, Segments, WellFormed, Listed, Translate;
    ListedIsTranslated(c, pt, va, len, b);
  }

  lemma ListIsBuffer(cS: Config, ptS: PageTable, vaS: nat, cD: Config, ptD: PageTable, vaD: nat, len: nat,
                     src: Memory, dst: Memory, dst': Memory)
    requires cS.pageSize == cD.pageSize && Describes(cS, ptS, vaS, len) && Describes(cD, ptD, vaD, len)
    ensures ListCopied(cS, cD, src, dst, dst') <==>
            BufferCopied(src, ptS, vaS, dst, dst', ptD, vaD, len, cS.pageSize)
  {
    DescribedPages(cS, ptS, vaS, len);
    DescribedPages(cD, ptD, vaD, len);
    hide Describes, WellFormed, Listed, PageBase, CopySafe, FollowsList, DistinctFrames, DistinctPages;
    hide ListCopied, BufferCopied, UserAddr, Mod, Div;
    forall b: nat | b < len
      ensures Listed(cD, b) == UserAddr(ptD, cD.pageSize, vaD, b)
      ensures Listed(cS, b) == UserAddr(ptS, cS.pageSize, vaS, b)
    {
      DescribedByte(cS, ptS, vaS, len, b);
      DescribedByte(cD, ptD, vaD, len, b);
    }
    SamePlacesSameCopy(cS, ptS, vaS, cD, ptD, vaD, src, dst, dst');
  }

  lemma SamePlacesSameCopy(cS: Config, ptS: PageTable, vaS: nat, cD: Config, ptD: PageTable, vaD: nat,
                           src: Memory, dst: Memory, dst': Memory)
    requires WellFormed(cS) && WellFormed(cD) && cS.len == cD.len && cS.pageSize == cD.pageSize
    requires forall b: nat | b < cD.len :: Listed(cD, b) == UserAddr(ptD, cD.pageSize, vaD, b)
    requires forall b: nat | b < cS.len :: Listed(cS, b) == UserAddr(ptS, cS.pageSize, vaS, b)
    ensures ListCopied(cS, cD, src, dst, dst') <==>
            BufferCopied(src, ptS, vaS, dst, dst', ptD, vaD, cD.len, cS.pageSize)
  {
    hide WellFormed, Listed, UserAddr;
  }

  lemma UserBufferCopied(cS: Config, ptS: PageTable, vaS: nat, cD: Config, ptD: PageTable, vaD: nat, len: nat,
                         src: Memory, dst: Memory, dst': Memory)
    requires cS.pageSize == cD.pageSize && Describes(cS, ptS, vaS, len) && Describes(cD, ptD, vaD, len)
    requires DistinctFrames(ptD, cD.pageSize, vaD, len) && BuffersAgree(ptS, vaS, ptD, vaD, cS.pageSize, len)
    requires Scattered(cD, dst, dst', Gathered(cS, src), cD.len)
    ensures BufferCopied(src, ptS, vaS, dst, dst', ptD, vaD, len, cS.pageSize)
  {
    hide Describes, DistinctFrames, DistinctPages, CopySafe, FollowsList, AlikePlaced, SameLayout;
    hide Scattered, Gathered, Matched, ListCopied, BufferCopied;
    DescribedPages(cS, ptS, vaS, len);
    DescribedPages(cD, ptD, vaD, len);
    AlikeIsSameLayout(cS, ptS, vaS, cD, ptD, vaD, len);
    AgreeingMatches(cS, cD);
    MatchedCopies(cS, cD, src, dst, dst');
    ListIsBuffer(cS, ptS, vaS, cD, ptD, vaD, len, src, dst, dst');
  }

  /** For all contents of both memories the destination's user buffer gets the source's, and nothing else
      changes. */
  ghost predicate UserCopyCorrect(cS: Config, ptS: PageTable, vaS: nat,
                                  cD: Config, ptD: PageTable, vaD: nat, len: nat)
    requires cS.pageSize == cD.pageSize && Describes(cS, ptS, vaS, len) && Describes(cD, ptD, vaD, len)
  {
    forall src: Memory, dst: Memory, dst': Memory | Scattered(cD, dst, dst', Gathered(cS, src), cD.len) ::
      BufferCopied(src, ptS, vaS, dst, dst', ptD, vaD, len, cS.pageSize)
  }

  /** Over all page tables, offsets and lengths, exactly when the buffers agree. */
  lemma UserCopyCorrectIff(cS: Config, ptS: PageTable, vaS: nat, cD: Config, ptD: PageTable, vaD: nat, len: nat)
    requires cS.pageSize == cD.pageSize && Describes(cS, ptS, vaS, len) && Describes(cD, ptD, vaD, len)
    requires DistinctFrames(ptS, cS.pageSize, vaS, len) && DistinctFrames(ptD, cD.pageSize, vaD, len)
    ensures UserCopyCorrect(cS, ptS, vaS, cD, ptD, vaD, len) <==>
            BuffersAgree(ptS, vaS, ptD, vaD, cS.pageSize, len)
  {
    DescribedPages(cS, ptS, vaS, len);
    DescribedPages(cD, ptD, vaD, len);
    AlikeIsSameLayout(cS, ptS, vaS, cD, ptD, vaD, len);
    forall src: Memory, dst: Memory, dst': Memory
      ensures ListCopied(cS, cD, src, dst, dst') <==>
              BufferCopied(src, ptS, vaS, dst, dst', ptD, vaD, len, cS.pageSize)
    {
      ListIsBuffer(cS, ptS, vaS, cD, ptD, vaD, len, src, dst, dst');
    }
    hide Describes, DistinctFrames, DistinctPages, CopySafe, FollowsList, AlikePlaced, SameLayout;
    hide Scattered, Gathered, ListCopied, BufferCopied;
    CopyCorrectIff(cS, cD);
  }

  lemma NothingAppended(s: seq<byte>)
    ensures s + [] == s && [] + s == s
  {
  }

  /** End-to-end copy. One driver sends the buffer s from src, the other receives into the buffer d of
      dst; pages and offsets are independent, and gS, gD are register writes by other guest processors
      during the two runs. The wire between them starts empty: the reply that src reads is the one dst
      turns out to write. */
  method CopyBuffer(src: PSIPEDevice, s: PsipeDma, ptS: PageTable, gS: seq<seq<GuestWrite>>,
                    dst: PSIPEDevice, d: PsipeDma, ptD: PageTable, gD: seq<seq<GuestWrite>>)
    requires src != dst && s != d && src.buff != dst.buff
    requires s.Ready(src, ptS) && d.Ready(dst, ptD)
    requires s.len == d.len && src.pageSize == dst.pageSize
    requires src.inbox == [] && src.outbox == [] && dst.inbox == [] && dst.outbox == []
    modifies s, d, src, dst, src.buff, dst.buff
    ensures src.raised && dst.raised && src.status.Idle? && dst.status.Idle?
    ensures src.ram == old(src.ram)
    ensures src.inbox == [] && dst.inbox == [] && dst.outbox == ReceiverMessages(s.len)
    ensures WellFormed(src.Cfg()) && Programmed(src.Cfg(), ptS, s.va, s.len)
    ensures WellFormed(dst.Cfg()) && Programmed(dst.Cfg(), ptD, d.va, d.len)
    ensures src.Cfg().len == dst.Cfg().len
            && Scattered(dst.Cfg(), old(dst.ram), dst.ram, Gathered(src.Cfg(), src.ram), dst.Cfg().len)
    ensures DistinctFrames(ptD, dst.pageSize, d.va, d.len)
            && BuffersAgree(ptS, s.va, ptD, d.va, src.pageSize, s.len) ==>
              BufferCopied(src.ram, ptS, s.va, old(dst.ram), dst.ram, ptD, d.va, s.len, src.pageSize)
  {
    hide Mapped, Segments, Scattered, Gathered, WellFormed, Programmed, SenderMessages;
    hide DistinctFrames, BuffersAgree, BufferCopied, ReceiverMessages, Device.InterruptedAfterRun;
    src.inbox := ReceiverMessages(s.len);
    NothingAppended(ReceiverMessages(s.len));
    var sent := s.IoctlSend(src, ptS, gS, s.len, []);
    ghost var data := Gathered(src.Cfg(), src.ram);
    dst.inbox := src.outbox;
    NothingAppended(SenderMessages(data, dst.pageSize));
    assert dst.inbox == SenderMessages(data, dst.pageSize) + [];
    ghost var before := dst.ram;
    assert |data| == s.len by { ProgrammedLen(src.Cfg(), ptS, s.va, s.len); }
    var received := d.IoctlRecv(dst, ptD, gD, data, []);
    assert dst.outbox == ReceiverMessages(s.len);
    assert dst.Cfg().len == s.len by { ProgrammedLen(dst.Cfg(), ptD, d.va, d.len); }
    if DistinctFrames(ptD, dst.pageSize, d.va, d.len)
       && BuffersAgree(ptS, s.va, ptD, d.va, src.pageSize, s.len) {
      UserBufferCopied(src.Cfg(), ptS, s.va, dst.Cfg(), ptD, d.va, s.len, src.ram, before, dst.ram);
    }
  }

  lemma ProgrammedLen(c: Config, pt: PageTable, va: nat, len: nat)
    requires c.pageSize > 0 && Programmed(c, pt, va, len)
    ensures c.len == len
  {
  }
}
