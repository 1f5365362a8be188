/** The distributed matrix multiply (src/sw/userspace/master-mm.c, chiplet-mm.c) against the plain triple
    loop. Addition and multiplication are arbitrary functions: both versions add the same products in the
    same order, so nothing is assumed about rounding. Matrices are row-major. */
module Matmul {
  import opened Arith

  type Op<!T> = (T, T) -> T

  /** The sizes and operands of one multiplication: A is n x t, B is t x m. */
  datatype Problem<!T> = Problem(n: nat, t: nat, m: nat, A: seq<T>, B: seq<T>, add: Op<T>, mul: Op<T>)

  ghost predicate Fits<T>(p: Problem<T>) {
    0 < p.m && |p.A| == p.n * p.t && |p.B| == p.t * p.m
  }

  /** c after the first k products of row i and column j have been added to it. */
  function Acc<T>(p: Problem<T>, c: T, i: nat, j: nat, k: nat): T
    requires Fits(p) && i < p.n && j < p.m && k <= p.t
  {
    if k == 0 then c
    else
      FlatIndex(i, k - 1, p.n, p.t);
      FlatIndex(k - 1, j, p.t, p.m);
      p.add(Acc(p, c, i, j, k - 1), p.mul(p.A[i * p.t + (k - 1)], p.B[(k - 1) * p.m + j]))
  }

  /** The final value of the element at flat index g that starts as c. */
  function Element<T>(p: Problem<T>, c: T, g: nat): T
    requires Fits(p) && g < p.n * p.m
  {
    FlatSplit(g, p.n, p.m);
    Acc(p, c, g / p.m, g % p.m, p.t)
  }

  /** C += A x B. */
  function Product<T>(p: Problem<T>, C: seq<T>): (r: seq<T>)
    requires Fits(p) && |C| == p.n * p.m
    ensures |r| == |C|
  {
    seq(|C|, g requires 0 <= g < |C| => Element(p, C[g], g))
  }

  /** The same for the slice of C that starts at flat index ofs. */
  function SliceProduct<T>(p: Problem<T>, slice: seq<T>, ofs: nat): (r: seq<T>)
    requires Fits(p) && ofs + |slice| <= p.n * p.m
    ensures |r| == |slice|
  {
    seq(|slice|, x requires 0 <= x < |slice| => Element(p, slice[x], ofs + x))
  }

  // ---- what the product is ----

  /** c plus the products of the pairs, from the first pair to the last. */
  function Fold<T>(add: Op<T>, mul: Op<T>, c: T, row: seq<T>, column: seq<T>): T
    requires |row| == |column|
  {
    if row == [] then c else Fold(add, mul, add(c, mul(row[0], column[0])), row[1..], column[1..])
  }

  ghost predicate IsRow<T>(p: Problem<T>, i: nat, row: seq<T>) {
    i * p.t + p.t <= |p.A| && 0 <= i * p.t && row == p.A[i * p.t..i * p.t + p.t]
  }

  ghost predicate IsColumn<T>(p: Problem<T>, j: nat, column: seq<T>) {
    |column| == p.t && forall k | 0 <= k < p.t :: 0 <= k * p.m + j < |p.B| && column[k] == p.B[k * p.m + j]
  }

  lemma {:induction false} FoldAppend<T>(add: Op<T>, mul: Op<T>, c: T, row: seq<T>, column: seq<T>, a: T, b: T)
    requires |row| == |column|
    ensures Fold(add, mul, c, row + [a], column + [b]) == add(Fold(add, mul, c, row, column), mul(a, b))
  {
    if row == [] {
      assert row + [a] == [a] && column + [b] == [b];
      assert [a][1..] == [] && [b][1..] == [];
    } else {
      assert (row + [a])[1..] == row[1..] + [a] && (column + [b])[1..] == column[1..] + [b];
      FoldAppend(add, mul, add(c, mul(row[0], column[0])), row[1..], column[1..], a, b);
    }
  }

  lemma RowAt<T>(p: Problem<T>, i: nat, row: seq<T>, k: nat)
    requires IsRow(p, i, row) && k < p.t
    ensures |row| == p.t && 0 <= i * p.t + k < |p.A| && row[k] == p.A[i * p.t + k]
  {
  }

  lemma TakeOne<T>(s: seq<T>, k: nat)
    requires 0 < k <= |s|
    ensures s[..k] == s[..k - 1] + [s[k - 1]]
  {
  }

  lemma {:induction false} AccIsFold<T>(p: Problem<T>, c: T, i: nat, j: nat, k: nat, row: seq<T>, column: seq<T>)
    requires Fits(p) && i < p.n && j < p.m && k <= p.t && IsRow(p, i, row) && IsColumn(p, j, column)
    ensures |row| == |column| == p.t
    ensures Acc(p, c, i, j, k) == Fold(p.add, p.mul, c, row[..k], column[..k])
  {
    assert |row| == p.t;
    if k > 0 {
      AccIsFold(p, c, i, j, k - 1, row, column);
      RowAt(p, i, row, k - 1);
      assert column[k - 1] == p.B[(k - 1) * p.m + j];
      hide Fits, IsRow, IsColumn, Fold;
      TakeOne(row, k);
      TakeOne(column, k);
      FoldAppend(p.add, p.mul, c, row[..k - 1], column[..k - 1], row[k - 1], column[k - 1]);
    }
  }

  /** Element (i, j) of the product: the element of C that was there, plus the products of row i of A and
      column j of B, position by position. */
  lemma ProductIsFold<T>(p: Problem<T>, C: seq<T>, i: nat, j: nat, row: seq<T>, column: seq<T>)
    requires Fits(p) && |C| == p.n * p.m && i < p.n && j < p.m && IsRow(p, i, row) && IsColumn(p, j, column)
    ensures |row| == |column| && 0 <= i * p.m + j < |C|
    ensures Product(p, C)[i * p.m + j] == Fold(p.add, p.mul, C[i * p.m + j], row, column)
  {
    FlatIndex(i, j, p.n, p.m);
    AccIsFold(p, C[i * p.m + j], i, j, p.t, row, column);
    hide Acc, Fold, Fits, IsRow, IsColumn;
    assert row[..p.t] == row && column[..p.t] == column;
    assert Product(p, C)[i * p.m + j] == Element(p, C[i * p.m + j], i * p.m + j);
  }

  /** Rows and columns are there for every element. */
  lemma RowAndColumn<T>(p: Problem<T>, i: nat, j: nat) returns (row: seq<T>, column: seq<T>)
    requires Fits(p) && i < p.n && j < p.m
    ensures IsRow(p, i, row) && IsColumn(p, j, column)
  {
    MulLe(i + 1, p.n, p.t);
    assert 0 <= i * p.t && (i + 1) * p.t == i * p.t + p.t;
    row := p.A[i * p.t..i * p.t + p.t];
    forall k | 0 <= k < p.t
      ensures 0 <= k * p.m + j < |p.B|
    {
      FlatIndex(k, j, p.t, p.m);
    }
    column := seq(p.t, k requires 0 <= k < p.t => p.B[k * p.m + j]);
  }

  /** 1 * 3 + 2 * 4. */
  lemma ProductExample()
    ensures var p := Problem(1, 2, 1, [1, 2], [3, 4], (x: int, y: int) => x + y, (x: int, y: int) => x * y);
            Fits(p) && Product(p, [0]) == [11]
  {
    var p := Problem(1, 2, 1, [1, 2], [3, 4], (x: int, y: int) => x + y, (x: int, y: int) => x * y);
    assert p.A[0..2] == [1, 2];
    assert IsRow(p, 0, [1, 2]) && IsColumn(p, 0, [3, 4]);
    ProductIsFold(p, [0], 0, 0, [1, 2], [3, 4]);
    assert [1, 2][1..] == [2] && [3, 4][1..] == [4];
    assert Fold(p.add, p.mul, 0, [1, 2], [3, 4]) == 11;
  }

  /** Whether the triple loop has finished element g when it is about to enter row i of column j. */
  ghost predicate Visited<T>(p: Problem<T>, g: nat, j: nat, i: nat)
    requires 0 < p.m
  {
    g % p.m < j || (g % p.m == j && g / p.m < i)
  }

  lemma VisitedNext<T>(p: Problem<T>, g: nat, j: nat, i: nat)
    requires 0 < p.m && i < p.n && j < p.m && g < p.n * p.m
    ensures Visited(p, g, j, i + 1) <==> Visited(p, g, j, i) || g == i * p.m + j
    ensures !Visited(p, i * p.m + j, j, i)
  {
    FlatIndex(i, j, p.n, p.m);
    FlatSplit(g, p.n, p.m);
  }

  lemma VisitedColumn<T>(p: Problem<T>, g: nat, j: nat)
    requires 0 < p.m && j < p.m && g < p.n * p.m
    ensures Visited(p, g, j, p.n) <==> Visited(p, g, j + 1, 0)
  {
    FlatSplit(g, p.n, p.m);
  }

  /** c with the finished elements replaced by their products. */
  ghost predicate Partial<T>(p: Problem<T>, c0: seq<T>, c: seq<T>, j: nat, i: nat)
    requires Fits(p) && |c0| == p.n * p.m
  {
    |c| == |c0| && forall g | 0 <= g < |c0| :: c[g] == if Visited(p, g, j, i) then Element(p, c0[g], g) else c0[g]
  }

  lemma PartialStart<T>(p: Problem<T>, c0: seq<T>)
    requires Fits(p) && |c0| == p.n * p.m
    ensures Partial(p, c0, c0, 0, 0)
  {
  }

  lemma PartialStep<T>(p: Problem<T>, c0: seq<T>, c: seq<T>, j: nat, i: nat, c': seq<T>)
    requires Fits(p) && |c0| == p.n * p.m && i < p.n && j < p.m && Partial(p, c0, c, j, i)
    requires 0 <= i * p.m + j < |c0| && c' == c[i * p.m + j := Acc(p, c0[i * p.m + j], i, j, p.t)]
    ensures Partial(p, c0, c', j, i + 1)
  {
    FlatIndex(i, j, p.n, p.m);
    forall g | 0 <= g < |c0|
      ensures c'[g] == if Visited(p, g, j, i + 1) then Element(p, c0[g], g) else c0[g]
    {
      VisitedNext(p, g, j, i);
    }
  }

  lemma PartialColumn<T>(p: Problem<T>, c0: seq<T>, c: seq<T>, j: nat)
    requires Fits(p) && |c0| == p.n * p.m && j < p.m && Partial(p, c0, c, j, p.n)
    ensures Partial(p, c0, c, j + 1, 0)
  {
    forall g | 0 <= g < |c0|
      ensures Visited(p, g, j, p.n) <==> Visited(p, g, j + 1, 0)
    {
      VisitedColumn(p, g, j);
    }
  }

  lemma PartialEnd<T>(p: Problem<T>, c0: seq<T>, c: seq<T>)
    requires Fits(p) && |c0| == p.n * p.m && Partial(p, c0, c, p.m, 0)
    ensures c == Product(p, c0)
  {
  }

  /** matmul_gold: columns outermost, then rows, then products. */
  method MatmulGold<T>(p: Problem<T>, C: array<T>)
    requires Fits(p) && C.Length == p.n * p.m
    modifies C
    ensures C[..] == Product(p, old(C[..]))
  {
    ghost var c0 := C[..];
    PartialStart(p, c0);
    hide Partial, Product, Element;
    for j := 0 to p.m
      invariant Partial(p, c0, C[..], j, 0)
    {
      for i := 0 to p.n
        invariant Partial(p, c0, C[..], j, i)
      {
        ghost var c := C[..];
        FlatIndex(i, j, p.n, p.m);
        ghost var at := i * p.m + j;
        PartialHere(p, c0, c, j, i);
        for k := 0 to p.t
          invariant C[..] == c[at := Acc(p, c0[at], i, j, k)]
        {
          FlatIndex(i, k, p.n, p.t);
          FlatIndex(k, j, p.t, p.m);
          C[i * p.m + j] := p.add(C[i * p.m + j], p.mul(p.A[i * p.t + k], p.B[k * p.m + j]));
        }
        PartialStep(p, c0, c, j, i, C[..]);
      }
      PartialColumn(p, c0, C[..], j);
    }
    PartialEnd(p, c0, C[..]);
  }

  lemma PartialHere<T>(p: Problem<T>, c0: seq<T>, c: seq<T>, j: nat, i: nat)
    requires Fits(p) && |c0| == p.n * p.m && i < p.n && j < p.m && Partial(p, c0, c, j, i)
    ensures 0 <= i * p.m + j < |c0| == |c| && c[i * p.m + j] == c0[i * p.m + j]
  {
    FlatIndex(i, j, p.n, p.m);
    VisitedNext(p, i * p.m + j, j, i);
  }

  /** The chiplet's loop over the slice [gOfs, gOfs + gLen). */
  method ChipletSlice<T>(p: Problem<T>, C: array<T>, gOfs: nat)
    requires Fits(p) && gOfs + C.Length <= p.n * p.m
    modifies C
    ensures C[..] == SliceProduct(p, old(C[..]), gOfs)
  {
    ghost var c0 := C[..];
    for g := gOfs to gOfs + C.Length
      invariant forall x | 0 <= x < C.Length :: C[x] == if x < g - gOfs then Element(p, c0[x], gOfs + x) else c0[x]
    {
      var i, j := g / p.m, g % p.m;
      FlatSplit(g, p.n, p.m);
      for k := 0 to p.t
        invariant C[g - gOfs] == Acc(p, c0[g - gOfs], i, j, k)
        invariant forall x | 0 <= x < C.Length && x != g - gOfs ::
                    C[x] == if x < g - gOfs then Element(p, c0[x], gOfs + x) else c0[x]
      {
        FlatIndex(i, k, p.n, p.t);
        FlatIndex(k, j, p.t, p.m);
        var a, b := p.A[i * p.t + k], p.B[k * p.m + j];
        C[g - gOfs] := p.add(C[g - gOfs], p.mul(a, b));
      }
    }
  }

  // ---- the partition ----

  /** PART_FOR_DEV: how many of n elements device d of t gets. */
  function Part(d: nat, n: nat, t: nat): nat
    requires t > 0
  {
    n / t + if d < n % t then 1 else 0
  }

  /** Where device d's slice begins: the running sum the master keeps. */
  function Ofs(d: nat, n: nat, t: nat): nat
    requires t > 0
  {
    if d == 0 then 0 else Ofs(d - 1, n, t) + Part(d - 1, n, t)
  }

  lemma {:induction false} OfsClosedForm(d: nat, n: nat, t: nat)
    requires t > 0 && d <= t
    ensures Ofs(d, n, t) == d * (n / t) + if d < n % t then d else n % t
  {
    if d > 0 {
      OfsClosedForm(d - 1, n, t);
      assert d * (n / t) == (d - 1) * (n / t) + n / t;
    }
  }

  /** The slices end exactly at the end. */
  lemma OfsEnd(n: nat, t: nat)
    requires t > 0
    ensures Ofs(t, n, t) == n
  {
    OfsClosedForm(t, n, t);
    assert n == t * (n / t) + n % t;
  }

  lemma {:induction false} OfsMonotone(d: nat, e: nat, n: nat, t: nat)
    requires t > 0 && d <= e
    ensures Ofs(d, n, t) <= Ofs(e, n, t)
  {
    if d < e { OfsMonotone(d, e - 1, n, t); }
  }

  lemma OfsBound(d: nat, n: nat, t: nat)
    requires t > 0 && d < t
    ensures Ofs(d, n, t) <= Ofs(d + 1, n, t) <= n
  {
    OfsMonotone(d + 1, t, n, t);
    OfsEnd(n, t);
  }

  /** The slices are a partition: every element belongs to exactly one device. */
  lemma {:induction false} Owner(g: nat, e: nat, n: nat, t: nat) returns (d: nat)
    requires t > 0 && e <= t && g < Ofs(e, n, t)
    ensures d < e && Ofs(d, n, t) <= g < Ofs(d + 1, n, t)
  {
    if g < Ofs(e - 1, n, t) {
      d := Owner(g, e - 1, n, t);
    } else {
      d := e - 1;
    }
  }

  lemma OwnerUnique(g: nat, d: nat, e: nat, n: nat, t: nat)
    requires t > 0
    requires Ofs(d, n, t) <= g < Ofs(d + 1, n, t) && Ofs(e, n, t) <= g < Ofs(e + 1, n, t)
    ensures d == e
  {
    if d < e {
      OfsMonotone(d + 1, e, n, t);
    } else if e < d {
      OfsMonotone(e + 1, d, n, t);
    }
  }

  /** No device is given an empty slice exactly when there are at least as many elements as devices. */
  lemma PartsPositive(n: nat, t: nat)
    requires t > 0
    ensures (forall d | 0 <= d < t :: Part(d, n, t) > 0) <==> t <= n
  {
    if t <= n {
      if n / t == 0 { DivModIs(n, 0, n % t, t); }
    } else {
      DivModIs(n, 0, n, t);
      assert Part(n, n, t) == 0;
    }
  }

  // ---- the farm: transfers to and from the devices in any order ----

  /** The master's C, the slices sent out so far, and the devices whose results are back. */
  datatype Farm<!T> = Farm(C: seq<T>, sent: map<nat, seq<T>>, got: set<nat>)

  datatype Event = SendSlice(d: nat) | GatherSlice(d: nat)

  function Splice<T>(s: seq<T>, at: nat, r: seq<T>): (s': seq<T>)
    requires at + |r| <= |s|
    ensures |s'| == |s|
    ensures forall g | 0 <= g < |s| :: s'[g] == if at <= g < at + |r| then r[g - at] else s[g]
  {
    s[..at] + r + s[at + |r|..]
  }

  /** None of what a device is sent is empty. Offload.DeviceFinishesIff shows that this is exactly when the
      transfers of a device can complete. */
  predicate NothingEmpty<T>(p: Problem<T>, slice: seq<T>) {
    0 < |p.A| && 0 < |p.B| && 0 < |slice|
  }

  /** Device d's slice leaves, behind the operands, when its sends run; its product returns, computed from
      what was sent, after that. Other devices' transfers may run in between. */
  ghost predicate FarmStep<T>(p: Problem<T>, num: nat, s: Farm<T>, e: Event, s': Farm<T>)
    requires Fits(p) && num > 0 && |s.C| == p.n * p.m
  {
    match e
    case SendSlice(d) => d < num && SendStep(p, d, s, Ofs(d, |s.C|, num), Ofs(d + 1, |s.C|, num), s')
    case GatherSlice(d) => d < num && GatherStep(p, d, s, Ofs(d, |s.C|, num), s')
  }

  ghost predicate SendStep<T>(p: Problem<T>, d: nat, s: Farm<T>, lo: nat, hi: nat, s': Farm<T>) {
    && lo <= hi <= |s.C| && NothingEmpty(p, s.C[lo..hi])
    && d !in s.sent && s' == s.(sent := s.sent[d := s.C[lo..hi]])
  }

  ghost predicate GatherStep<T>(p: Problem<T>, d: nat, s: Farm<T>, lo: nat, s': Farm<T>)
    requires Fits(p) && |s.C| == p.n * p.m
  {
    && d in s.sent && d !in s.got && lo + |s.sent[d]| <= |s.C|
    && s' == s.(C := Splice(s.C, lo, SliceProduct(p, s.sent[d], lo)), got := s.got + {d})
  }

  /** Element g of n belongs to device d. */
  ghost predicate InSlice(num: nat, n: nat, d: nat, g: nat)
    requires num > 0
  {
    d < num && Ofs(d, n, num) <= g < Ofs(d + 1, n, num)
  }

  /** What has been sent are untouched slices of c0, none of them empty. */
  ghost predicate SentUntouched<T>(num: nat, c0: seq<T>, sent: map<nat, seq<T>>)
    requires num > 0
  {
    forall d | d in sent ::
      d < num && Ofs(d, |c0|, num) < Ofs(d + 1, |c0|, num) <= |c0|
      && sent[d] == c0[Ofs(d, |c0|, num)..Ofs(d + 1, |c0|, num)]
  }

  /** Exactly the slices that are back have their final value, given in done. */
  ghost predicate BackDone<T>(num: nat, c0: seq<T>, done: seq<T>, C: seq<T>, got: set<nat>)
    requires num > 0 && |c0| == |done| == |C|
  {
    forall d: nat, g: nat | g < |c0| && InSlice(num, |c0|, d, g) :: C[g] == if d in got then done[g] else c0[g]
  }

  ghost predicate FarmInv<T>(num: nat, c0: seq<T>, done: seq<T>, s: Farm<T>)
    requires num > 0
  {
    && |s.C| == |c0| == |done|
    && (forall d | d in s.got :: d in s.sent)
    && SentUntouched(num, c0, s.sent)
    && BackDone(num, c0, done, s.C, s.got)
  }

  lemma FarmStart<T>(num: nat, c0: seq<T>, done: seq<T>)
    requires num > 0 && |done| == |c0|
    ensures FarmInv(num, c0, done, Farm(c0, map[], {}))
  {
    hide Ofs;
  }

  lemma SendUntouched<T>(num: nat, c0: seq<T>, done: seq<T>, s: Farm<T>, d: nat)
    requires num > 0 && FarmInv(num, c0, done, s) && d !in s.got && d < num
    ensures Ofs(d, |c0|, num) <= Ofs(d + 1, |c0|, num) <= |c0|
    ensures s.C[Ofs(d, |c0|, num)..Ofs(d + 1, |c0|, num)] == c0[Ofs(d, |c0|, num)..Ofs(d + 1, |c0|, num)]
  {
    OfsBound(d, |c0|, num);
    hide Ofs, SentUntouched;
    var lo, hi := Ofs(d, |c0|, num), Ofs(d + 1, |c0|, num);
    forall g | lo <= g < hi
      ensures s.C[g] == c0[g]
    {
      assert InSlice(num, |c0|, d, g);
    }
  }

  lemma GatherDone<T>(num: nat, c0: seq<T>, done: seq<T>, s: Farm<T>, d: nat)
    requires num > 0 && FarmInv(num, c0, done, s) && d in s.sent
    ensures d < num && Ofs(d, |c0|, num) <= Ofs(d + 1, |c0|, num) <= |c0|
    ensures s.sent[d] == c0[Ofs(d, |c0|, num)..Ofs(d + 1, |c0|, num)]
    ensures var lo, hi := Ofs(d, |c0|, num), Ofs(d + 1, |c0|, num);
            BackDone(num, c0, done, Splice(s.C, lo, done[lo..hi]), s.got + {d})
  {
    hide Ofs, Splice;
    var lo, hi := Ofs(d, |c0|, num), Ofs(d + 1, |c0|, num);
    assert d < num && lo <= hi <= |c0|;
    SplicedDone(num, c0, done, s.C, s.got, d);
  }

  /** One more slice of final values put in its place. */
  lemma SplicedDone<T>(num: nat, c0: seq<T>, done: seq<T>, C: seq<T>, got: set<nat>, d: nat)
    requires num > 0 && |c0| == |done| == |C| && BackDone(num, c0, done, C, got) && d < num
    requires Ofs(d, |c0|, num) <= Ofs(d + 1, |c0|, num) <= |c0|
    ensures var lo, hi := Ofs(d, |c0|, num), Ofs(d + 1, |c0|, num);
            BackDone(num, c0, done, Splice(C, lo, done[lo..hi]), got + {d})
  {
    hide Ofs, Splice;
    var lo, hi := Ofs(d, |c0|, num), Ofs(d + 1, |c0|, num);
    var C' := Splice(C, lo, done[lo..hi]);
    forall e: nat, g: nat | g < |c0| && InSlice(num, |c0|, e, g)
      ensures C'[g] == if e in got + {d} then done[g] else c0[g]
    {
      if lo <= g < hi {
        OwnerUnique(g, d, e, |c0|, num);
      }
    }
  }

  lemma SliceOfProduct<T>(p: Problem<T>, c0: seq<T>, lo: nat, hi: nat)
    requires Fits(p) && |c0| == p.n * p.m && lo <= hi <= |c0|
    ensures SliceProduct(p, c0[lo..hi], lo) == Product(p, c0)[lo..hi]
  {
    hide Element;
  }

  lemma FarmStepInv<T>(p: Problem<T>, num: nat, c0: seq<T>, s: Farm<T>, e: Event, s': Farm<T>)
    requires Fits(p) && num > 0 && |c0| == |s.C| == p.n * p.m
    requires FarmInv(num, c0, Product(p, c0), s) && FarmStep(p, num, s, e, s')
    ensures FarmInv(num, c0, Product(p, c0), s')
  {
    hide Ofs, Product, Fits, SentUntouched, BackDone, SliceProduct;
    var done := Product(p, c0);
    match e
    case SendSlice(d) =>
      SendUntouched(num, c0, done, s, d);
      SentOneMore(num, c0, s.sent, d);
    case GatherSlice(d) =>
      GatherDone(num, c0, done, s, d);
      SliceOfProduct(p, c0, Ofs(d, |c0|, num), Ofs(d + 1, |c0|, num));
  }

  lemma SentOneMore<T>(num: nat, c0: seq<T>, sent: map<nat, seq<T>>, d: nat)
    requires num > 0 && SentUntouched(num, c0, sent) && d < num
    requires Ofs(d, |c0|, num) < Ofs(d + 1, |c0|, num) <= |c0|
    ensures SentUntouched(num, c0, sent[d := c0[Ofs(d, |c0|, num)..Ofs(d + 1, |c0|, num)]])
  {
    hide Ofs;
  }

  ghost predicate FarmRun<T>(p: Problem<T>, num: nat, states: seq<Farm<T>>, events: seq<Event>, c0: seq<T>)
    requires Fits(p) && num > 0 && |c0| == p.n * p.m
  {
    && |states| == |events| + 1 && states[0] == Farm(c0, map[], {})
    && forall i | 0 <= i < |events| :: |states[i].C| == |c0| && FarmStep(p, num, states[i], events[i], states[i + 1])
  }

  lemma {:induction false} FarmRunInv<T>(p: Problem<T>, num: nat, states: seq<Farm<T>>, events: seq<Event>, c0: seq<T>,
                                         k: nat)
    requires Fits(p) && num > 0 && |c0| == p.n * p.m && FarmRun(p, num, states, events, c0) && k < |states|
    ensures FarmInv(num, c0, Product(p, c0), states[k])
    ensures states[k].sent != map[] ==> 0 < p.t
  {
    hide FarmInv, Product;
    if k == 0 {
      FarmStart(num, c0, Product(p, c0));
    } else {
      FarmRunInv(p, num, states, events, c0, k - 1);
      assert FarmStep(p, num, states[k - 1], events[k - 1], states[k - 1 + 1]);
      assert 0 < |p.A| ==> 0 < p.t;
      hide Fits;
      FarmStepInv(p, num, c0, states[k - 1], events[k - 1], states[k]);
    }
  }

  /** Distributed multiply meets the plain one: however the transfers of any number of devices interleave,
      once every device's slice is back C is the product. That takes a slice for every device and operands
      that are not empty. */
  lemma FarmComputesProduct<T>(p: Problem<T>, num: nat, states: seq<Farm<T>>, events: seq<Event>, c0: seq<T>)
    requires Fits(p) && num > 0 && |c0| == p.n * p.m && FarmRun(p, num, states, events, c0)
    requires AllGot(num, states[|states| - 1].got)
    ensures states[|states| - 1].C == Product(p, c0)
    ensures num <= p.n * p.m && 0 < p.t
  {
    var s := states[|states| - 1];
    FarmRunInv(p, num, states, events, c0, |states| - 1);
    AllBack(num, c0, Product(p, c0), s.C, s.got);
    forall d | 0 <= d < num
      ensures Part(d, |c0|, num) > 0
    {
      assert d in s.got && d in s.sent;
      assert Ofs(d + 1, |c0|, num) == Ofs(d, |c0|, num) + Part(d, |c0|, num);
    }
    PartsPositive(|c0|, num);
    assert 0 in s.sent;
  }

  /** Sends and returns still to come. */
  ghost function FarmLeft<T>(num: nat, s: Farm<T>): nat {
    |Below(num) - s.sent.Keys| + |Below(num) - s.got|
  }

  lemma OneLess(all: set<nat>, some: set<nat>, d: nat)
    requires d in all && d !in some
    ensures |all - (some + {d})| == |all - some| - 1
  {
    assert all - (some + {d}) == (all - some) - {d};
  }

  /** With a slice for every device, and operands that are not empty, some transfer can run until all
      results are back. */
  lemma FarmNext<T>(p: Problem<T>, num: nat, c0: seq<T>, s: Farm<T>) returns (e: Event, s': Farm<T>)
    requires Fits(p) && 0 < num <= |c0| == |s.C| == p.n * p.m && 0 < p.t
    requires FarmInv(num, c0, Product(p, c0), s) && !AllGot(num, s.got)
    ensures FarmStep(p, num, s, e, s') && FarmLeft(num, s') < FarmLeft(num, s)
  {
    hide Product, FarmInv, FarmStep, FarmLeft, Fits, Ofs;
    var d: nat :| d < num && d !in s.got;
    if d in s.sent {
      e, s' := FarmGathers(p, num, c0, s, d);
    } else {
      SliceNotEmpty(d, |s.C|, num);
      OperandsNotEmpty(p);
      e, s' := FarmSends(p, num, s, d);
    }
  }

  lemma FarmGathers<T>(p: Problem<T>, num: nat, c0: seq<T>, s: Farm<T>, d: nat) returns (e: Event, s': Farm<T>)
    requires Fits(p) && 0 < num && |c0| == |s.C| == p.n * p.m
    requires FarmInv(num, c0, Product(p, c0), s) && d in s.sent && d !in s.got
    ensures FarmStep(p, num, s, e, s') && FarmLeft(num, s') < FarmLeft(num, s)
  {
    hide Product, BackDone, Fits, Ofs, Splice, SliceProduct;
    var lo := Ofs(d, |c0|, num);
    GatherDone(num, c0, Product(p, c0), s, d);
    e := GatherSlice(d);
    s' := s.(C := Splice(s.C, lo, SliceProduct(p, s.sent[d], lo)), got := s.got + {d});
    OneLess(Below(num), s.got, d);
  }

  lemma FarmSends<T>(p: Problem<T>, num: nat, s: Farm<T>, d: nat) returns (e: Event, s': Farm<T>)
    requires Fits(p) && 0 < num && |s.C| == p.n * p.m && d < num && d !in s.sent
    requires 0 < |p.A| && 0 < |p.B| && Ofs(d, |s.C|, num) < Ofs(d + 1, |s.C|, num) <= |s.C|
    ensures FarmStep(p, num, s, e, s') && FarmLeft(num, s') < FarmLeft(num, s)
  {
    hide Fits, Ofs, Splice, SliceProduct, Below;
    var lo, hi := Ofs(d, |s.C|, num), Ofs(d + 1, |s.C|, num);
    e := SendSlice(d);
    s' := s.(sent := s.sent[d := s.C[lo..hi]]);
    assert SendStep(p, d, s, lo, hi, s');
    hide SendStep, GatherStep;
    assert FarmStep(p, num, s, e, s');
    hide FarmStep;
    assert s'.sent.Keys == s.sent.Keys + {d};
    OneLess(Below(num), s.sent.Keys, d);
  }

  lemma SliceNotEmpty(d: nat, n: nat, t: nat)
    requires 0 < t <= n && d < t
    ensures Ofs(d, n, t) < Ofs(d + 1, n, t) <= n
  {
    PartsPositive(n, t);
    OfsBound(d, n, t);
    assert Part(d, n, t) > 0;
  }

  lemma OperandsNotEmpty<T>(p: Problem<T>)
    requires Fits(p) && 0 < p.n * p.m && 0 < p.t
    ensures 0 < |p.A| && 0 < |p.B|
  {
    MulLe(1, p.n, p.t);
    MulLe(1, p.t, p.m);
  }

  /** Under that condition every run can be continued until all results are back. */
  lemma {:induction false} FarmFinishes<T>(p: Problem<T>, num: nat, states: seq<Farm<T>>, events: seq<Event>,
                                           c0: seq<T>)
    returns (states': seq<Farm<T>>, events': seq<Event>)
    requires Fits(p) && 0 < num <= |c0| == p.n * p.m && 0 < p.t && FarmRun(p, num, states, events, c0)
    ensures states <= states' && events <= events' && FarmRun(p, num, states', events', c0)
    ensures AllGot(num, states'[|states'| - 1].got)
    decreases FarmLeft(num, states[|states| - 1])
  {
    hide Fits, Product, FarmStep, FarmLeft, AllGot;
    var s := states[|states| - 1];
    FarmRunInv(p, num, states, events, c0, |states| - 1);
    if AllGot(num, s.got) {
      return states, events;
    }
    var e, s' := FarmNext(p, num, c0, s);
    states', events' := FarmFinishes(p, num, states + [s'], events + [e], c0);
  }

  ghost predicate AllGot(num: nat, got: set<nat>) {
    forall d: nat | d < num :: d in got
  }

  lemma AllBack<T>(num: nat, c0: seq<T>, done: seq<T>, C: seq<T>, got: set<nat>)
    requires num > 0 && |c0| == |done| == |C| && BackDone(num, c0, done, C, got) && AllGot(num, got)
    ensures C == done
  {
    OfsEnd(|c0|, num);
    forall g | 0 <= g < |c0|
      ensures C[g] == done[g]
    {
      var d := Owner(g, num, |c0|, num);
      hide Ofs;
      assert InSlice(num, |c0|, d, g);
    }
  }

  /** What the master remembers of device d: where its slice starts, and what was sent of it. */
  ghost predicate IsSlice<T>(num: nat, c0: seq<T>, d: nat, at: nat, slice: seq<T>)
    requires num > 0
  {
    at == Ofs(d, |c0|, num) <= Ofs(d + 1, |c0|, num) <= |c0| && slice == c0[at..Ofs(d + 1, |c0|, num)]
  }

  lemma NextSlice<T>(m: nat, num: nat, c0: seq<T>, d: nat, ofs: nat)
    requires m > 0 && d < num && ofs == Ofs(d, |c0|, num)
    ensures ofs + Part(d, |c0|, num) == Ofs(d + 1, |c0|, num) <= |c0|
    ensures (ofs / m) * m + ofs % m == ofs
    ensures IsSlice(num, c0, d, ofs, c0[ofs..ofs + Part(d, |c0|, num)])
  {
    OfsBound(d, |c0|, num);
  }

  /** The master's first loop: where each device's slice starts, and what is sent of it. It gives
      up at a device whose transfers cannot complete, and gets through exactly when there is none. */
  method SliceOut<T>(p: Problem<T>, num: nat, C: array<T>) returns (ok: bool, at: seq<nat>, slices: seq<seq<T>>)
    requires Fits(p) && num > 0
    ensures ok <==> 0 < |p.A| && 0 < |p.B| && num <= C.Length
    ensures ok ==> |at| == |slices| == num
    ensures ok ==> forall d | 0 <= d < num :: IsSlice(num, C[..], d, at[d], slices[d]) && slices[d] != []
  {
    var ofs := 0;
    ok, at, slices := true, [], [];
    assert ofs == Ofs(0, C.Length, num);
    PartsPositive(C.Length, num);
    hide Ofs, Part, IsSlice;
    for i := 0 to num
      invariant ofs == Ofs(i, C.Length, num) && |at| == |slices| == i
      invariant i > 0 ==> 0 < |p.A| && 0 < |p.B|
      invariant forall d | 0 <= d < i :: Part(d, C.Length, num) > 0
      invariant forall d | 0 <= d < i :: IsSlice(num, C[..], d, at[d], slices[d]) && slices[d] != []
    {
      NextSlice(p.m, num, C[..], i, ofs);
      var part := Part(i, C.Length, num);
      if !NothingEmpty(p, C[..][ofs..ofs + part]) { return false, at, slices; }
      var pi, pj := ofs / p.m, ofs % p.m;
      at := at + [pi * p.m + pj];
      slices := slices + [C[..][ofs..ofs + part]];
      ofs := ofs + part;
    }
  }

  /** The master: slice and send, then gather in the order of the waits; each device runs the chiplet's
      loop on its slice. It succeeds exactly when every device has something to do. */
  method MatmulOffload<T>(p: Problem<T>, num: nat, C: array<T>) returns (ok: bool)
    requires Fits(p) && num > 0 && C.Length == p.n * p.m
    modifies C
    ensures ok <==> num <= p.n * p.m && 0 < p.t
    ensures ok ==> C[..] == Product(p, old(C[..]))
  {
    hide Product, SliceProduct, Fits, BackDone, Splice, IsSlice;
    ghost var c0 := C[..];
    var at, slices;
    ok, at, slices := SliceOut(p, num, C);
    OperandsIffSizes(p, num);
    if !ok { return; }
    ghost var got: set<nat> := {};
    NothingBack(num, c0, Product(p, c0));
    for i := 0 to num
      invariant BackDone(num, c0, Product(p, c0), C[..], got)
      invariant forall d: nat :: d in got <==> d < i
    {
      var slice := slices[i];
      SliceBack(p, num, c0, C[..], got, i, at[i], slice);
      var buf := new T[|slice|](x requires 0 <= x < |slice| => slice[x]);
      assert buf[..] == slice;
      ChipletSlice(p, buf, at[i]);
      CopyInto(C, at[i], buf);
      got := got + {i};
    }
    AllBack(num, c0, Product(p, c0), C[..], got);
  }

  lemma OperandsIffSizes<T>(p: Problem<T>, num: nat)
    requires Fits(p) && 0 < num
    ensures 0 < |p.A| && 0 < |p.B| && num <= p.n * p.m <==> num <= p.n * p.m && 0 < p.t
  {
    if num <= p.n * p.m && 0 < p.t { OperandsNotEmpty(p); }
    assert 0 < |p.A| ==> 0 < p.t;
  }

  lemma NothingBack<T>(num: nat, c0: seq<T>, done: seq<T>)
    requires num > 0 && |c0| == |done|
    ensures BackDone(num, c0, done, c0, {})
  {
  }

  /** The receive of a result at its place in C. */
  method CopyInto<T>(C: array<T>, at: nat, buf: array<T>)
    requires C != buf && at + buf.Length <= C.Length
    modifies C
    ensures C[..] == Splice(old(C[..]), at, buf[..])
  {
    forall x | 0 <= x < buf.Length {
      C[at + x] := buf[x];
    }
  }

  /** A result put in its place. */
  lemma SliceBack<T>(p: Problem<T>, num: nat, c0: seq<T>, C: seq<T>, got: set<nat>, d: nat, at: nat, slice: seq<T>)
    requires Fits(p) && num > 0 && |c0| == |C| == p.n * p.m && d < num
    requires BackDone(num, c0, Product(p, c0), C, got) && IsSlice(num, c0, d, at, slice)
    ensures at + |slice| <= |c0|
    ensures BackDone(num, c0, Product(p, c0), Splice(C, at, SliceProduct(p, slice, at)), got + {d})
  {
    hide Product, SliceProduct, Fits, Ofs, BackDone, Splice;
    SliceOfProduct(p, c0, at, at + |slice|);
    SplicedDone(num, c0, Product(p, c0), C, got, d);
  }
}
