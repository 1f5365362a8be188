/** The multiply on the wire: the transfers that one device and the master exchange, byte for byte, when all
    of them complete, and what the two ends make of the bytes. */
module Offload {
  import opened Arith
  import opened Bytes
  import opened Matmul
  import opened Protocol
  import opened Wire

  // ---- arrays of elements as bytes ----

  /** How an element lies in memory: size bytes, from which it can be read back. */
  datatype Codec<!T> = Codec(enc: T -> seq<byte>, dec: seq<byte> -> T, size: nat)

  ghost predicate Faithful<T(!new)>(c: Codec<T>) {
    0 < c.size && forall x: T :: |c.enc(x)| == c.size && c.dec(c.enc(x)) == x
  }

  /** The bytes of an array, element after element. */
  function Encode<T>(c: Codec<T>, s: seq<T>): seq<byte> {
    if s == [] then [] else c.enc(s[0]) + Encode(c, s[1..])
  }

  function Decode<T>(c: Codec<T>, b: seq<byte>): seq<T>
    requires 0 < c.size
  {
    if |b| < c.size then [] else [c.dec(b[..c.size])] + Decode(c, b[c.size..])
  }

  lemma EncodeOne<T>(c: Codec<T>, x: T)
    ensures Encode(c, [x]) == c.enc(x)
  {
    assert [x][1..] == [];
    assert c.enc(x) + [] == c.enc(x);
  }

  lemma {:induction false} EncodeAppend<T>(c: Codec<T>, a: seq<T>, b: seq<T>)
    ensures Encode(c, a + b) == Encode(c, a) + Encode(c, b)
  {
    if a == [] {
      assert a + b == b;
    } else {
      assert (a + b)[1..] == a[1..] + b;
      EncodeAppend(c, a[1..], b);
      Associative(c.enc(a[0]), Encode(c, a[1..]), Encode(c, b));
    }
  }

  /** Every element takes its bytes: part * sizeof(TYPE) in all. */
  lemma {:induction false} EncodeLength<T(!new)>(c: Codec<T>, s: seq<T>)
    requires Faithful(c)
    ensures |Encode(c, s)| == |s| * c.size
    ensures Encode(c, s) == [] <==> s == []
  {
    if s != [] {
      EncodeLength(c, s[1..]);
      assert |c.enc(s[0])| == c.size;
      assert |s| * c.size == c.size + (|s| - 1) * c.size;
    }
  }

  lemma {:induction false} EncodeRoundTrip<T(!new)>(c: Codec<T>, s: seq<T>)
    requires Faithful(c)
    ensures Decode(c, Encode(c, s)) == s
  {
    if s != [] {
      EncodeRoundTrip(c, s[1..]);
      var e, rest := c.enc(s[0]), Encode(c, s[1..]);
      assert |e| == c.size && c.dec(e) == s[0];
      assert (e + rest)[..c.size] == e && (e + rest)[c.size..] == rest;
      assert [s[0]] + s[1..] == s;
    }
  }

  /** The five ints that go first: the sizes, and the length and position of the slice. */
  function ArgBytes(n: nat, t: nat, m: nat, len: nat, ofs: nat): (b: seq<byte>)
    ensures |b| == 20
  {
    Word(n) + Word(t) + Word(m) + Word(len) + Word(ofs)
  }

  function Arg(b: seq<byte>, i: nat): nat
    requires |b| == 20 && i < 5
  {
    FromLe(b[4 * i..4 * i + 4])
  }

  lemma ArgsRoundTrip(n: nat, t: nat, m: nat, len: nat, ofs: nat)
    requires n < U32 && t < U32 && m < U32 && len < U32 && ofs < U32
    ensures var b := ArgBytes(n, t, m, len, ofs);
            Arg(b, 0) == n && Arg(b, 1) == t && Arg(b, 2) == m && Arg(b, 3) == len && Arg(b, 4) == ofs
  {
    WordRoundTrip(n);
    WordRoundTrip(t);
    WordRoundTrip(m);
    WordRoundTrip(len);
    WordRoundTrip(ofs);
    hide Word, FromLe;
    var b := ArgBytes(n, t, m, len, ofs);
    assert b[0..4] == Word(n) && b[4..8] == Word(t) && b[8..12] == Word(m);
    assert b[12..16] == Word(len) && b[16..20] == Word(ofs);
  }

  // ---- the jobs of one device ----

  /** What travels for one device: arguments, operands, its slice of C, and what it sends back. */
  datatype Share = Share(args: seq<byte>, a: seq<byte>, b: seq<byte>, slice: seq<byte>, result: seq<byte>)

  /** What the master queues for a device: four sends and the receive of the result. */
  function Master(w: Share): seq<Job> {
    [Send(w.args), Send(w.a), Send(w.b), Send(w.slice), Receive(|w.result|)]
  }

  /** What the chiplet queues. */
  function Chiplet(w: Share): seq<Job> {
    [Receive(|w.args|), Receive(|w.a|), Receive(|w.b|), Receive(|w.slice|), Send(w.result)]
  }

  /** Lengths that the cards can announce. */
  ghost predicate Announceable(w: Share) {
    |w.args| < U32 && |w.a| < U32 && |w.b| < U32 && |w.slice| < U32 && |w.result| < U32
  }

  /** A run of master and chiplet, in any interleaving, that can go no further. */
  ghost predicate WholeRun(pg: nat, w: Share, states: seq<Link>)
    requires pg > 0
  {
    && Run(pg, Master(w), Chiplet(w), states)
    && var s := states[|states| - 1];
       Next(pg, Master(w), s.a, s.ba).None? && Next(pg, Chiplet(w), s.b, s.ab).None?
  }

  ghost predicate Finished(states: seq<Link>)
    requires states != []
  {
    var s := states[|states| - 1]; s.a.op == 5 && s.b.op == 5
  }

  /** The jobs of one device are all done exactly when none of them is empty; then the chiplet has got the
      arguments, the operands and the slice, and the master has got the result. */
  lemma ShareFinishesIff(pg: nat, w: Share, states: seq<Link>)
    requires 0 < pg < U32 && Announceable(w) && WholeRun(pg, w, states)
    ensures Finished(states) <==> w.args != [] && w.a != [] && w.b != [] && w.slice != [] && w.result != []
    ensures Finished(states) ==>
              var s := states[|states| - 1];
              s.b.delivered == [w.args, w.a, w.b, w.slice] && s.a.delivered == [w.result]
  {
    var ja, jb := Master(w), Chiplet(w);
    hide Run, Next;
    assert Matching(ja, jb);
    FinishesIffNoneEmpty(pg, ja, jb, states);
    assert ja[0] == Send(w.args) && ja[1] == Send(w.a) && ja[2] == Send(w.b) && ja[3] == Send(w.slice);
    assert ja[4] == Receive(|w.result|);
    if NoneEmpty(ja) {
      FinishedDelivered(pg, ja, jb, states);
      ShareDeliveries(w);
    }
  }

  lemma ShareDeliveries(w: Share)
    ensures Deliveries(Master(w), 4) == Deliveries(Master(w), 5) == [w.args, w.a, w.b, w.slice]
    ensures Deliveries(Chiplet(w), 5) == [w.result]
  {
    var ja, jb := Master(w), Chiplet(w);
    assert Deliveries(ja, 1) == [w.args] && Deliveries(ja, 2) == [w.args, w.a];
    assert Deliveries(ja, 3) == [w.args, w.a, w.b] && Deliveries(ja, 4) == [w.args, w.a, w.b, w.slice];
    assert Deliveries(jb, 1) == [] && Deliveries(jb, 2) == [] && Deliveries(jb, 3) == [] && Deliveries(jb, 4) == [];
  }

  // ---- what the two ends make of it ----

  /** The share of the device whose slice of C begins at flat index at, if it sends back result. */
  function ShareOf<T>(p: Problem<T>, c: Codec<T>, slice: seq<T>, at: nat, result: seq<byte>): Share {
    Share(ArgBytes(p.n, p.t, p.m, |slice|, at), Encode(c, p.A), Encode(c, p.B), Encode(c, slice), result)
  }

  /** Sizes and positions that fit the ints of the arguments. */
  ghost predicate SizesFit<T>(p: Problem<T>, len: nat, at: nat) {
    p.n < U32 && p.t < U32 && p.m < U32 && len < U32 && at < U32
  }

  /** The problem and the slice that a chiplet reads from what has been delivered to it. */
  ghost function Received<T>(c: Codec<T>, add: Op<T>, mul: Op<T>, got: seq<seq<byte>>): (Problem<T>, seq<T>, nat)
    requires 0 < c.size && |got| == 4 && |got[0]| == 20
  {
    (Problem(Arg(got[0], 0), Arg(got[0], 1), Arg(got[0], 2), Decode(c, got[1]), Decode(c, got[2]), add, mul),
     Decode(c, got[3]), Arg(got[0], 4))
  }

  /** What it sends back: its loop over the slice it has got, with the operands it has got. */
  ghost predicate Computed<T>(c: Codec<T>, add: Op<T>, mul: Op<T>, got: seq<seq<byte>>, result: seq<byte>)
    requires 0 < c.size
  {
    && |got| == 4 && |got[0]| == 20
    && var (p, slice, at) := Received(c, add, mul, got);
       Fits(p) && at + |slice| <= p.n * p.m ==> result == Encode(c, SliceProduct(p, slice, at))
  }

  /** A chiplet that has got everything sends what it has computed from it. */
  ghost predicate Computes<T>(c: Codec<T>, add: Op<T>, mul: Op<T>, states: seq<Link>, result: seq<byte>)
    requires 0 < c.size
  {
    forall s | s in states && s.b.op >= 4 :: Computed(c, add, mul, s.b.delivered, result)
  }

  /** The bytes for a device are read back as its problem and its slice. */
  lemma ReceivedIsSent<T(!new)>(p: Problem<T>, c: Codec<T>, slice: seq<T>, at: nat)
    requires Faithful(c) && SizesFit(p, |slice|, at)
    ensures Received(c, p.add, p.mul, [ArgBytes(p.n, p.t, p.m, |slice|, at), Encode(c, p.A), Encode(c, p.B),
                                       Encode(c, slice)]) == (p, slice, at)
  {
    ArgsRoundTrip(p.n, p.t, p.m, |slice|, at);
    EncodeRoundTrip(c, p.A);
    EncodeRoundTrip(c, p.B);
    EncodeRoundTrip(c, slice);
    hide ArgBytes, Arg, Encode, Decode;
  }

  /** The transfers of one device all complete exactly when none of operands and slice is empty. Then the
      chiplet has got its arguments, A, B and its slice, in this order, and what the master has got back are
      the bytes of the slice's product. */
  lemma DeviceFinishesIff<T(!new)>(p: Problem<T>, c: Codec<T>, slice: seq<T>, at: nat, result: seq<byte>,
                                   pg: nat, states: seq<Link>)
    requires Fits(p) && at + |slice| <= p.n * p.m && Faithful(c) && SizesFit(p, |slice|, at)
    requires |result| == |Encode(c, slice)| && 0 < pg < U32 && Announceable(ShareOf(p, c, slice, at, result))
    requires WholeRun(pg, ShareOf(p, c, slice, at, result), states) && Computes(c, p.add, p.mul, states, result)
    ensures Finished(states) <==> NothingEmpty(p, slice)
    ensures Finished(states) ==>
              var s := states[|states| - 1];
              && s.b.delivered == [ArgBytes(p.n, p.t, p.m, |slice|, at), Encode(c, p.A), Encode(c, p.B),
                                   Encode(c, slice)]
              && s.a.delivered == [Encode(c, SliceProduct(p, slice, at))]
              && Decode(c, s.a.delivered[0]) == SliceProduct(p, slice, at)
  {
    var w := ShareOf(p, c, slice, at, result);
    assert states != [];
    hide WholeRun, SliceProduct, Encode, Decode, ArgBytes, Received, Fits;
    ShareFinishesIff(pg, w, states);
    EncodeLength(c, p.A);
    EncodeLength(c, p.B);
    EncodeLength(c, slice);
    if Finished(states) {
      var s := states[|states| - 1];
      assert s in states;
      assert Computed(c, p.add, p.mul, s.b.delivered, result);
      ReceivedIsSent(p, c, slice, at);
      EncodeRoundTrip(c, SliceProduct(p, slice, at));
    }
  }

  /** There is such a run: with a chiplet that computes what it sends, every device with something to do can
      be served to the end. */
  lemma DeviceCanFinish<T(!new)>(p: Problem<T>, c: Codec<T>, slice: seq<T>, at: nat, pg: nat)
    returns (result: seq<byte>, states: seq<Link>)
    requires Fits(p) && at + |slice| <= p.n * p.m && Faithful(c) && SizesFit(p, |slice|, at) && NothingEmpty(p, slice)
    requires 0 < pg < U32 && |p.A| * c.size < U32 && |p.B| * c.size < U32 && |slice| * c.size < U32
    ensures |result| == |Encode(c, slice)| && Announceable(ShareOf(p, c, slice, at, result))
    ensures WholeRun(pg, ShareOf(p, c, slice, at, result), states) && Computes(c, p.add, p.mul, states, result)
    ensures Finished(states)
  {
    result := Encode(c, SliceProduct(p, slice, at));
    EncodeLength(c, SliceProduct(p, slice, at));
    EncodeLength(c, slice);
    EncodeLength(c, p.A);
    EncodeLength(c, p.B);
    var w := ShareOf(p, c, slice, at, result);
    hide SliceProduct, Encode, Decode, ArgBytes, Received, Fits, Run, Next;
    ShareRuns(pg, w);
    states := EveryRunFinishes(pg, Master(w), Chiplet(w), [Link(FRESH, FRESH, [], [])]);
    forall s | s in states && s.b.op >= 4
      ensures Computed(c, p.add, p.mul, s.b.delivered, result)
    {
      var i :| 0 <= i < |states| && states[i] == s;
      ShareDelivered(pg, w, states, i);
      ReceivedIsSent(p, c, slice, at);
    }
  }

  lemma ShareRuns(pg: nat, w: Share)
    requires 0 < pg < U32 && Announceable(w)
    requires w.args != [] && w.a != [] && w.b != [] && w.slice != [] && w.result != []
    ensures Complementary(Master(w), Chiplet(w)) && NoneEmpty(Master(w))
    ensures Run(pg, Master(w), Chiplet(w), [Link(FRESH, FRESH, [], [])])
  {
    hide Next;
  }

  /** What a chiplet has got once its four receives are done. */
  lemma ShareDelivered(pg: nat, w: Share, states: seq<Link>, i: nat)
    requires 0 < pg < U32 && Complementary(Master(w), Chiplet(w)) && Run(pg, Master(w), Chiplet(w), states)
    requires i < |states| && states[i].b.op >= 4
    ensures states[i].b.delivered == [w.args, w.a, w.b, w.slice]
  {
    hide Run, Complementary;
    RunPrefix(pg, Master(w), Chiplet(w), states, i + 1);
    RunInv(pg, Master(w), Chiplet(w), states[..i + 1]);
    var s := states[..i + 1][i];
    assert s.b.op == 4 || s.b.op == 5;
    assert s.b.delivered == Deliveries(Master(w), s.b.op);
    hide Inv;
    ShareDeliveries(w);
  }

  // ---- all devices ----

  /** Device d's slice of C. */
  function SliceOf<T>(c0: seq<T>, num: nat, d: nat): seq<T>
    requires d < num
  {
    OfsBound(d, |c0|, num);
    c0[Ofs(d, |c0|, num)..Ofs(d + 1, |c0|, num)]
  }

  /** One run of device d's link that can go no further, with a chiplet that computes what it sends. */
  ghost predicate DeviceRun<T>(p: Problem<T>, c: Codec<T>, c0: seq<T>, num: nat, pg: nat, d: nat, result: seq<byte>,
                               states: seq<Link>)
    requires pg > 0 && 0 < c.size && d < num
  {
    var slice, at := SliceOf(c0, num, d), Ofs(d, |c0|, num);
    && SizesFit(p, |slice|, at) && |result| == |Encode(c, slice)|
    && Announceable(ShareOf(p, c, slice, at, result))
    && WholeRun(pg, ShareOf(p, c, slice, at, result), states)
    && Computes(c, p.add, p.mul, states, result)
  }

  ghost predicate AllRuns<T>(p: Problem<T>, c: Codec<T>, c0: seq<T>, num: nat, pg: nat, results: seq<seq<byte>>,
                             runs: seq<seq<Link>>)
    requires pg > 0 && 0 < c.size
  {
    && |results| == |runs| == num
    && forall d | 0 <= d < num :: DeviceRun(p, c, c0, num, pg, d, results[d], runs[d])
  }

  /** What the master has received in the run is, read as elements, device d's slice of the product. */
  ghost predicate ResultBack<T>(p: Problem<T>, c: Codec<T>, c0: seq<T>, num: nat, d: nat, states: seq<Link>)
    requires Fits(p) && |c0| == p.n * p.m && num > 0 && 0 < c.size
  {
    var lo, hi := Ofs(d, |c0|, num), Ofs(d + 1, |c0|, num);
    && states != [] && lo <= hi <= |c0| && |states[|states| - 1].a.delivered| == 1
    && Decode(c, states[|states| - 1].a.delivered[0]) == Product(p, c0)[lo..hi]
  }

  lemma DeviceOfAll<T(!new)>(p: Problem<T>, c: Codec<T>, c0: seq<T>, num: nat, pg: nat, d: nat, result: seq<byte>,
                             states: seq<Link>)
    requires Fits(p) && |c0| == p.n * p.m && 0 < pg < U32 && Faithful(c) && d < num
    requires DeviceRun(p, c, c0, num, pg, d, result, states)
    ensures states != []
    ensures Finished(states) <==> 0 < |p.A| && 0 < |p.B| && 0 < Part(d, |c0|, num)
    ensures Finished(states) ==> ResultBack(p, c, c0, num, d, states)
  {
    OfsBound(d, |c0|, num);
    var lo, hi := Ofs(d, |c0|, num), Ofs(d + 1, |c0|, num);
    assert hi == lo + Part(d, |c0|, num);
    hide Fits, Product, SliceProduct, Encode, Decode, ArgBytes, Computes, Announceable, Ofs, Part;
    DeviceFinishesIff(p, c, c0[lo..hi], lo, result, pg, states);
    SliceOfProduct(p, c0, lo, hi);
  }

  /** The whole multiply on the wire: whatever the interleavings on the links, the master and all chiplets
      finish exactly when there are at least as many elements as devices and the inner dimension is not 0.
      Then the results that come back are the product's slices. */
  lemma OffloadFinishesIff<T(!new)>(p: Problem<T>, c: Codec<T>, c0: seq<T>, num: nat, pg: nat,
                                    results: seq<seq<byte>>, runs: seq<seq<Link>>)
    requires Fits(p) && |c0| == p.n * p.m && 0 < num && 0 < pg < U32 && Faithful(c)
    requires AllRuns(p, c, c0, num, pg, results, runs)
    ensures |runs| == num && forall d | 0 <= d < num :: runs[d] != []
    ensures (forall d | 0 <= d < num :: Finished(runs[d])) <==> num <= p.n * p.m && 0 < p.t
    ensures num <= p.n * p.m && 0 < p.t ==>
              forall d | 0 <= d < num :: ResultBack(p, c, c0, num, d, runs[d])
  {
    PartsPositive(|c0|, num);
    OperandsIffSizes(p, num);
    hide Fits, Finished, Faithful, Part, DeviceRun, ResultBack;
    forall d | 0 <= d < num
      ensures runs[d] != []
      ensures Finished(runs[d]) <==> 0 < |p.A| && 0 < |p.B| && 0 < Part(d, |c0|, num)
      ensures Finished(runs[d]) ==> ResultBack(p, c, c0, num, d, runs[d])
    {
      DeviceOfAll(p, c, c0, num, pg, d, results[d], runs[d]);
    }
    if forall d | 0 <= d < num :: Finished(runs[d]) {
      assert Finished(runs[0]);
    }
  }
}
