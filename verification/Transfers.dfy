/** Two machines with memories. Each works through a list of transfers between buffers of its own memory and
    the wire, which Protocol describes; here the bytes that are sent are what the memory holds at the time,
    which earlier transfers may have put there. */
module Transfers {
  import opened Arith
  import opened Bytes
  import opened Copy
  import opened Options
  import opened PageWalk
  import opened Protocol
  import opened Wire

  /** Send from, or receive into, the buffer that the registers describe. */
  datatype Transfer = Put(c: Config) | Take(c: Config)

  /** One machine: its endpoint and its memory. */
  datatype Node = Node(e: Endpoint, ram: Memory)

  ghost predicate TransfersMatch(p: nat, x: Transfer, y: Transfer) {
    && x.Put? != y.Put?
    && WellFormed(x.c) && WellFormed(y.c) && x.c.pageSize == y.c.pageSize == p && x.c.len == y.c.len < U32
  }

  ghost predicate Paired(p: nat, own: seq<Transfer>, peer: seq<Transfer>) {
    |own| == |peer| && forall i | 0 <= i < |own| :: TransfersMatch(p, own[i], peer[i])
  }

  lemma PairedSymmetric(p: nat, own: seq<Transfer>, peer: seq<Transfer>)
    requires Paired(p, own, peer)
    ensures Paired(p, peer, own)
  {
    forall i | 0 <= i < |peer|
      ensures TransfersMatch(p, peer[i], own[i])
    {
      assert TransfersMatch(p, own[i], peer[i]);
    }
  }

  lemma PairedAt(p: nat, own: seq<Transfer>, peer: seq<Transfer>, i: nat)
    requires Paired(p, own, peer) && i < |own|
    ensures |own| == |peer| && TransfersMatch(p, own[i], peer[i]) && own[i].Put? != peer[i].Put?
    ensures WellFormed(own[i].c) && own[i].c.len > 0
  {
    assert TransfersMatch(p, own[i], peer[i]);
  }

  // ---- one transfer after the other ----

  /** A machine's memory after its first i transfers, when each takes what the peer's memory holds after the
      same number of transfers. m and mp are the memories at the beginning. */
  ghost function Ram(p: nat, own: seq<Transfer>, peer: seq<Transfer>, m: Memory, mp: Memory, i: nat): Memory
    requires Paired(p, own, peer) && i <= |own|
    decreases i, 0
  {
    if i == 0 then m
    else
      PairedSymmetric(p, own, peer);
      assert TransfersMatch(p, own[i - 1], peer[i - 1]);
      if own[i - 1].Put? then Ram(p, own, peer, m, mp, i - 1)
      else
        var c := own[i - 1].c;
        Scatter(c, Ram(p, own, peer, m, mp, i - 1), Data(p, peer, own, mp, m, i - 1), c.len)
  }

  /** The bytes a machine sends in its i-th transfer. */
  ghost function Data(p: nat, own: seq<Transfer>, peer: seq<Transfer>, m: Memory, mp: Memory, i: nat): (d: seq<byte>)
    requires Paired(p, own, peer) && i < |own| && own[i].Put?
    ensures TransfersMatch(p, own[i], peer[i]) && |d| == own[i].c.len
    decreases i, 1
  {
    assert TransfersMatch(p, own[i], peer[i]);
    Gathered(own[i].c, Ram(p, own, peer, m, mp, i))
  }

  ghost function PlannedJob(p: nat, own: seq<Transfer>, peer: seq<Transfer>, m: Memory, mp: Memory, i: nat): Job
    requires Paired(p, own, peer) && i < |own|
  {
    if own[i].Put? then Send(Data(p, own, peer, m, mp, i)) else Receive(own[i].c.len)
  }

  /** The transfers as jobs of the protocol. */
  ghost function Plan(p: nat, own: seq<Transfer>, peer: seq<Transfer>, m: Memory, mp: Memory): (jobs: seq<Job>)
    requires Paired(p, own, peer)
    ensures |jobs| == |own|
  {
    seq(|own|, i requires 0 <= i < |own| => PlannedJob(p, own, peer, m, mp, i))
  }

  lemma PlansComplementary(p: nat, own: seq<Transfer>, peer: seq<Transfer>, m: Memory, mp: Memory)
    requires Paired(p, own, peer) && Paired(p, peer, own)
    ensures var jobs, peers := Plan(p, own, peer, m, mp), Plan(p, peer, own, mp, m);
            Complementary(jobs, peers) && NoneEmpty(jobs)
  {
    var jobs, peers := Plan(p, own, peer, m, mp), Plan(p, peer, own, mp, m);
    forall i | 0 <= i < |jobs|
      ensures JobsMatch(jobs[i], peers[i]) && !Empty(jobs[i])
    {
      assert TransfersMatch(p, own[i], peer[i]);
      hide Data;
    }
  }

  /** One transfer of the sequence is right under the exact condition of the copy: after it the receiver's
      list holds what the sender's list held before it, and no byte outside the list has changed. */
  lemma SequenceCopies(p: nat, own: seq<Transfer>, peer: seq<Transfer>, m: Memory, mp: Memory, i: nat)
    requires Paired(p, own, peer) && Paired(p, peer, own) && i < |own| && own[i].Take?
    requires TransfersMatch(p, own[i], peer[i])
    requires DistinctPages(own[i].c) && RunsAgree(peer[i].c, own[i].c)
    ensures ListCopied(peer[i].c, own[i].c, Ram(p, peer, own, mp, m, i),
                       Ram(p, own, peer, m, mp, i), Ram(p, own, peer, m, mp, i + 1))
  {
    var cS, cD := peer[i].c, own[i].c;
    var before := Ram(p, own, peer, m, mp, i);
    var data := Data(p, peer, own, mp, m, i);
    assert Ram(p, own, peer, m, mp, i + 1) == Scatter(cD, before, data, cD.len);
    assert data == Gathered(cS, Ram(p, peer, own, mp, m, i));
    hide WellFormed, DistinctPages, RunsAgree, Scatter, Ram, Data, Gathered, Matched, ListCopied, Scattered, Paired;
    ScatterIsScattered(cD, before, data, cD.len);
    AgreeingMatches(cS, cD);
    MatchedCopies(cS, cD, Ram(p, peer, own, mp, m, i), before, Scatter(cD, before, data, cD.len));
  }

  // ---- the machines move ----

  /** s stored along the walk from pos on. */
  ghost function Store(c: Config, m: Memory, pos: nat, s: seq<byte>): Memory
    requires WellFormed(c) && pos + |s| <= c.len
    decreases |s|
  {
    if s == [] then m
    else
      var n := |s| - 1;
      Device.Poke(Store(c, m, pos, s[..n]), Walk(c, pos + n), [s[n]])
  }

  lemma {:induction false} StoreScatters(c: Config, m: Memory, data: seq<byte>, pos: nat, s: seq<byte>)
    requires WellFormed(c) && |data| == c.len && pos + |s| <= c.len && s == data[pos..pos + |s|]
    ensures Store(c, Scatter(c, m, data, pos), pos, s) == Scatter(c, m, data, pos + |s|)
    decreases |s|
  {
    hide WellFormed, Walk;
    if s != [] {
      var n := |s| - 1;
      assert s[..n] == data[pos..pos + n] && s[n] == data[pos + n];
      StoreScatters(c, m, data, pos, s[..n]);
    }
  }

  /** The next move of a machine and its memory after it: a send takes its bytes from the memory as it is, a
      frame that has come is stored at once. */
  ghost function NextOf(p: nat, own: seq<Transfer>, n: Node, inb: seq<byte>): Option<(Move, Memory)>
    requires p > 0 && forall i | 0 <= i < |own| :: WellFormed(own[i].c)
  {
    if n.e.op >= |own| then None
    else
      var c := own[n.e.op].c;
      if own[n.e.op].Put? then
        match NextOfSender(p, Gathered(c, n.ram), n.e, inb)
        case None => None
        case Some(m) => Some((m, n.ram))
      else
        match NextOfReceiver(c.len, n.e, inb)
        case None => None
        case Some(m) => Some((m, RamAfter(c, n, inb)))
  }

  ghost function RamAfter(c: Config, n: Node, inb: seq<byte>): Memory
    requires WellFormed(c)
  {
    if n.e.pc.RecvBody? && n.e.pc.n <= |inb| && |n.e.got| + n.e.pc.n <= c.len
    then Store(c, n.ram, |n.e.got|, inb[..n.e.pc.n])
    else n.ram
  }

  datatype World = World(a: Node, b: Node, ab: seq<byte>, ba: seq<byte>)

  function Wires(w: World): Link {
    Link(w.a.e, w.b.e, w.ab, w.ba)
  }

  function Other(w: World): World {
    World(w.b, w.a, w.ba, w.ab)
  }

  ghost predicate MoveA(p: nat, ta: seq<Transfer>, w: World, w': World)
    requires p > 0 && forall i | 0 <= i < |ta| :: WellFormed(ta[i].c)
  {
    var o := NextOf(p, ta, w.a, w.ba);
    && o.Some?
    && var (m, ram) := o.value;
       w' == World(Node(m.e, ram), w.b, w.ab + m.wrote, w.ba[m.consumed..])
  }

  ghost predicate Moves(p: nat, ta: seq<Transfer>, tb: seq<Transfer>, w: World, w': World)
    requires p > 0 && Paired(p, ta, tb) && Paired(p, tb, ta)
  {
    PairedFits(p, ta, tb);
    PairedFits(p, tb, ta);
    MoveA(p, ta, w, w') || MoveA(p, tb, Other(w), Other(w'))
  }

  lemma PairedFits(p: nat, own: seq<Transfer>, peer: seq<Transfer>)
    requires Paired(p, own, peer)
    ensures forall i | 0 <= i < |own| :: WellFormed(own[i].c)
  {
    forall i | 0 <= i < |own|
      ensures WellFormed(own[i].c)
    {
      assert TransfersMatch(p, own[i], peer[i]);
    }
  }

  /** A machine's memory: that after its completed transfers, with what has come of the current one stored. */
  ghost predicate RamFits(p: nat, own: seq<Transfer>, peer: seq<Transfer>, m: Memory, mp: Memory, n: Node)
    requires Paired(p, own, peer) && Paired(p, peer, own)
  {
    && n.e.op <= |own|
    && if n.e.op < |own| && own[n.e.op].Take? then
         && TransfersMatch(p, own[n.e.op], peer[n.e.op])
         && |n.e.got| <= own[n.e.op].c.len
         && n.ram == Scatter(own[n.e.op].c, Ram(p, own, peer, m, mp, n.e.op),
                             Data(p, peer, own, mp, m, n.e.op), |n.e.got|)
       else n.ram == Ram(p, own, peer, m, mp, n.e.op)
  }

  /** The protocol's invariant for the planned jobs, and both memories. */
  ghost predicate WorldInv(p: nat, ta: seq<Transfer>, tb: seq<Transfer>, ma: Memory, mb: Memory, w: World)
    requires Paired(p, ta, tb) && Paired(p, tb, ta)
  {
    && Inv(p, Plan(p, ta, tb, ma, mb), Plan(p, tb, ta, mb, ma), Wires(w))
    && RamFits(p, ta, tb, ma, mb, w.a) && RamFits(p, tb, ta, mb, ma, w.b)
  }

  lemma PlanAt(p: nat, own: seq<Transfer>, peer: seq<Transfer>, m: Memory, mp: Memory, i: nat)
    requires Paired(p, own, peer) && i < |own|
    ensures TransfersMatch(p, own[i], peer[i])
    ensures own[i].Put? ==> Plan(p, own, peer, m, mp)[i] == Send(Data(p, own, peer, m, mp, i))
    ensures own[i].Put? ==> Data(p, own, peer, m, mp, i) == Gathered(own[i].c, Ram(p, own, peer, m, mp, i))
    ensures own[i].Take? ==> Plan(p, own, peer, m, mp)[i] == Receive(own[i].c.len)
  {
    assert TransfersMatch(p, own[i], peer[i]);
  }

  /** A machine moves as its endpoint does in the protocol with the planned jobs. */
  lemma MovesAsPlanned(p: nat, own: seq<Transfer>, peer: seq<Transfer>, m: Memory, mp: Memory, n: Node, inb: seq<byte>)
    requires p > 0 && Paired(p, own, peer) && Paired(p, peer, own) && RamFits(p, own, peer, m, mp, n)
    requires forall i | 0 <= i < |own| :: WellFormed(own[i].c)
    ensures NextOf(p, own, n, inb).Some? <==> Next(p, Plan(p, own, peer, m, mp), n.e, inb).Some?
    ensures NextOf(p, own, n, inb).Some? ==>
              NextOf(p, own, n, inb).value.0 == Next(p, Plan(p, own, peer, m, mp), n.e, inb).value
  {
    if n.e.op < |own| {
      PlanAt(p, own, peer, m, mp, n.e.op);
      hide NextOfSender, NextOfReceiver, Paired, Ram, Data, Gathered, Plan, Scatter, WellFormed;
    }
  }

  /** A move within a receive, or its completion, stores what has come. */
  lemma ReceiverStores(p: nat, job: Job, peer: Job, e: Endpoint, inb: seq<byte>)
    requires 0 < p < U32 && JobsMatch(job, peer) && JobSound(p, job, peer, e) && Arrived(p, job, peer, e, inb)
    requires job.Receive? && !Empty(job) && NextInJob(p, job, e, inb).Some?
    ensures var m := NextInJob(p, job, e, inb).value;
            if e.pc.RecvBody? then
              && e.pc.n <= |inb| && |e.got| + e.pc.n <= job.len
              && inb[..e.pc.n] == peer.data[|e.got|..|e.got| + e.pc.n]
              && (if |e.got| + e.pc.n == job.len then m.e.op == e.op + 1 && m.e.got == []
                  else m.e.op == e.op && |m.e.got| == |e.got| + e.pc.n)
            else m.e.op == e.op && m.e.got == e.got
  {
    hide Paged, Word, Long, FromLe;
    if e.pc.RecvHead? {
      var n := Min(p, |peer.data| - |e.got|);
      WordRoundTrip(n);
      assert inb[..4] == Word(n);
    }
  }

  /** A sender's memory stays; its job may be completed. */
  lemma SenderStays(p: nat, data: seq<byte>, e: Endpoint, inb: seq<byte>)
    requires p > 0 && NextOfSender(p, data, e, inb).Some?
    ensures var m := NextOfSender(p, data, e, inb).value;
            (m.e.op == e.op && m.e.got == e.got) || (m.e.op == e.op + 1 && m.e.got == [])
  {
    hide Word, FromLe;
  }

  /** Between transfers. */
  lemma BetweenTransfers(p: nat, own: seq<Transfer>, peer: seq<Transfer>, m: Memory, mp: Memory, n: Node)
    requires Paired(p, own, peer) && Paired(p, peer, own) && n.e.op <= |own| && n.e.got == []
    requires n.ram == Ram(p, own, peer, m, mp, n.e.op)
    ensures RamFits(p, own, peer, m, mp, n)
  {
    if n.e.op < |own| { PlanAt(p, own, peer, m, mp, n.e.op); }
    hide Ram, Data, WellFormed;
  }

  lemma RamAfterPut(p: nat, own: seq<Transfer>, peer: seq<Transfer>, m: Memory, mp: Memory, i: nat)
    requires Paired(p, own, peer) && i < |own| && own[i].Put?
    ensures Ram(p, own, peer, m, mp, i + 1) == Ram(p, own, peer, m, mp, i)
  {
  }

  lemma RamAfterTake(p: nat, own: seq<Transfer>, peer: seq<Transfer>, m: Memory, mp: Memory, i: nat)
    requires Paired(p, own, peer) && Paired(p, peer, own) && i < |own| && own[i].Take?
    ensures TransfersMatch(p, own[i], peer[i])
    ensures Ram(p, own, peer, m, mp, i + 1) ==
            Scatter(own[i].c, Ram(p, own, peer, m, mp, i), Data(p, peer, own, mp, m, i), own[i].c.len)
  {
    assert TransfersMatch(p, own[i], peer[i]);
    hide Scatter;
  }

  lemma PutStep(p: nat, own: seq<Transfer>, peer: seq<Transfer>, m: Memory, mp: Memory, n: Node, inb: seq<byte>)
    requires p > 0 && Paired(p, own, peer) && Paired(p, peer, own) && RamFits(p, own, peer, m, mp, n)
    requires forall i | 0 <= i < |own| :: WellFormed(own[i].c)
    requires n.e.op < |own| && own[n.e.op].Put? && NextOf(p, own, n, inb).Some?
    ensures var (mv, ram) := NextOf(p, own, n, inb).value; RamFits(p, own, peer, m, mp, Node(mv.e, ram))
  {
    var i := n.e.op;
    SenderStays(p, Gathered(own[i].c, n.ram), n.e, inb);
    RamAfterPut(p, own, peer, m, mp, i);
    hide NextOfSender, Gathered, Scatter, Data, Ram, WellFormed, Paired;
    var (mv, ram) := NextOf(p, own, n, inb).value;
    if mv.e.op == i + 1 {
      hide RamFits;
      BetweenTransfers(p, own, peer, m, mp, Node(mv.e, ram));
    }
  }

  lemma TakeStep(p: nat, own: seq<Transfer>, peer: seq<Transfer>, m: Memory, mp: Memory, n: Node, inb: seq<byte>,
                 coming: seq<byte>)
    requires 0 < p < U32 && Paired(p, own, peer) && Paired(p, peer, own) && RamFits(p, own, peer, m, mp, n)
    requires forall i | 0 <= i < |own| :: WellFormed(own[i].c)
    requires Due(p, Plan(p, own, peer, m, mp), Plan(p, peer, own, mp, m), n.e, inb, coming)
    requires n.e.op < |own| && own[n.e.op].Take? && NextOf(p, own, n, inb).Some?
    ensures var (mv, ram) := NextOf(p, own, n, inb).value; RamFits(p, own, peer, m, mp, Node(mv.e, ram))
  {
    hide NextOfReceiver, Scatter, Data, Ram, Plan, Due, WellFormed, Paired, RamFits, RamAfter;
    hide NextOf, TransfersMatch;
    var i := n.e.op;
    PairedAt(p, own, peer, i);
    NextOfTake(p, own, n, inb);
    PlanAt(p, own, peer, m, mp, i);
    PlanAt(p, peer, own, mp, m, i);
    ReceivedInPlan(p, Plan(p, own, peer, m, mp), Plan(p, peer, own, mp, m), n.e, inb, coming);
    var (mv, ram) := NextOf(p, own, n, inb).value;
    if n.e.pc.RecvBody? {
      TakeBody(p, own, peer, m, mp, n, inb, mv);
    } else {
      SameFits(p, own, peer, m, mp, n, Node(mv.e, ram));
    }
  }

  lemma NextOfTake(p: nat, own: seq<Transfer>, n: Node, inb: seq<byte>)
    requires p > 0 && forall i | 0 <= i < |own| :: WellFormed(own[i].c)
    requires n.e.op < |own| && own[n.e.op].Take? && NextOf(p, own, n, inb).Some?
    ensures var c := own[n.e.op].c;
            && NextOfReceiver(c.len, n.e, inb).Some?
            && NextOf(p, own, n, inb).value == (NextOfReceiver(c.len, n.e, inb).value, RamAfter(c, n, inb))
            && (!n.e.pc.RecvBody? ==> RamAfter(c, n, inb) == n.ram)
  {
    hide NextOfReceiver, WellFormed, Store;
  }

  lemma SameFits(p: nat, own: seq<Transfer>, peer: seq<Transfer>, m: Memory, mp: Memory, n: Node, n': Node)
    requires Paired(p, own, peer) && Paired(p, peer, own) && RamFits(p, own, peer, m, mp, n)
    requires n'.e.op == n.e.op && n'.e.got == n.e.got && n'.ram == n.ram
    ensures RamFits(p, own, peer, m, mp, n')
  {
    hide Scatter, Data, Ram, WellFormed, Paired;
  }

  lemma TakeBody(p: nat, own: seq<Transfer>, peer: seq<Transfer>, m: Memory, mp: Memory, n: Node, inb: seq<byte>,
                 mv: Move)
    requires 0 < p < U32 && Paired(p, own, peer) && Paired(p, peer, own) && RamFits(p, own, peer, m, mp, n)
    requires n.e.op < |own| && own[n.e.op].Take? && WellFormed(own[n.e.op].c) && n.e.pc.RecvBody?
    requires TransfersMatch(p, own[n.e.op], peer[n.e.op])
    requires n.e.pc.n <= |inb| && |n.e.got| + n.e.pc.n <= own[n.e.op].c.len
    requires inb[..n.e.pc.n] == Data(p, peer, own, mp, m, n.e.op)[|n.e.got|..|n.e.got| + n.e.pc.n]
    requires if |n.e.got| + n.e.pc.n == own[n.e.op].c.len then mv.e.op == n.e.op + 1 && mv.e.got == []
             else mv.e.op == n.e.op && |mv.e.got| == |n.e.got| + n.e.pc.n
    ensures RamFits(p, own, peer, m, mp, Node(mv.e, RamAfter(own[n.e.op].c, n, inb)))
  {
    hide Scatter, Data, Ram, RamAfter, WellFormed, Paired;
    var i := n.e.op;
    PairedAt(p, own, peer, i);
    var c, data := own[i].c, Data(p, peer, own, mp, m, i);
    BodyStored(c, Ram(p, own, peer, m, mp, i), data, n, inb);
    var ram := RamAfter(c, n, inb);
    if mv.e.op == i + 1 {
      RamAfterTake(p, own, peer, m, mp, i);
      hide RamFits;
      BetweenTransfers(p, own, peer, m, mp, Node(mv.e, ram));
    }
  }

  lemma BodyStored(c: Config, m0: Memory, data: seq<byte>, n: Node, inb: seq<byte>)
    requires WellFormed(c) && |data| == c.len && n.e.pc.RecvBody?
    requires n.e.pc.n <= |inb| && |n.e.got| + n.e.pc.n <= c.len
    requires inb[..n.e.pc.n] == data[|n.e.got|..|n.e.got| + n.e.pc.n] && n.ram == Scatter(c, m0, data, |n.e.got|)
    ensures RamAfter(c, n, inb) == Scatter(c, m0, data, |n.e.got| + n.e.pc.n)
  {
    hide WellFormed, Scatter, Store;
    StoreScatters(c, m0, data, |n.e.got|, inb[..n.e.pc.n]);
  }

  lemma ReceivedInPlan(p: nat, jobs: seq<Job>, peers: seq<Job>, e: Endpoint, inb: seq<byte>, coming: seq<byte>)
    requires Due(p, jobs, peers, e, inb, coming) && e.op < |jobs| && jobs[e.op].Receive? && !Empty(jobs[e.op])
    requires NextOfReceiver(jobs[e.op].len, e, inb).Some?
    ensures JobsMatch(jobs[e.op], peers[e.op])
    ensures var m := NextOfReceiver(jobs[e.op].len, e, inb).value;
            if e.pc.RecvBody? then
              && e.pc.n <= |inb| && |e.got| + e.pc.n <= jobs[e.op].len
              && inb[..e.pc.n] == peers[e.op].data[|e.got|..|e.got| + e.pc.n]
              && (if |e.got| + e.pc.n == jobs[e.op].len then m.e.op == e.op + 1 && m.e.got == []
                  else m.e.op == e.op && |m.e.got| == |e.got| + e.pc.n)
            else m.e.op == e.op && m.e.got == e.got
  {
    assert JobsMatch(jobs[e.op], peers[e.op]);
    hide NextOfReceiver, ToRead, Expects;
    JobWaits(p, jobs[e.op], peers[e.op], e, inb);
    NextMessage(p, jobs, peers, e, inb, coming);
    ReceiverStores(p, jobs[e.op], peers[e.op], e, inb);
  }

  /** A move keeps the memory as it should be. */
  lemma RamStep(p: nat, own: seq<Transfer>, peer: seq<Transfer>, m: Memory, mp: Memory, n: Node, inb: seq<byte>,
                coming: seq<byte>)
    requires 0 < p < U32 && Paired(p, own, peer) && Paired(p, peer, own) && RamFits(p, own, peer, m, mp, n)
    requires forall i | 0 <= i < |own| :: WellFormed(own[i].c)
    requires Due(p, Plan(p, own, peer, m, mp), Plan(p, peer, own, mp, m), n.e, inb, coming)
    requires NextOf(p, own, n, inb).Some?
    ensures var (mv, ram) := NextOf(p, own, n, inb).value; RamFits(p, own, peer, m, mp, Node(mv.e, ram))
  {
    assert n.e.op < |own|;
    hide NextOf, Due, RamFits, Plan;
    if own[n.e.op].Put? {
      PutStep(p, own, peer, m, mp, n, inb);
    } else {
      TakeStep(p, own, peer, m, mp, n, inb, coming);
    }
  }

  lemma MoveAInv(p: nat, ta: seq<Transfer>, tb: seq<Transfer>, ma: Memory, mb: Memory, w: World, w': World)
    requires p > 0 && Paired(p, ta, tb) && Paired(p, tb, ta) && forall i | 0 <= i < |ta| :: WellFormed(ta[i].c)
    requires WorldInv(p, ta, tb, ma, mb, w) && MoveA(p, ta, w, w')
    ensures WorldInv(p, ta, tb, ma, mb, w')
    ensures StepA(p, Plan(p, ta, tb, ma, mb), Wires(w), Wires(w'))
  {
    var ja, jb := Plan(p, ta, tb, ma, mb), Plan(p, tb, ta, mb, ma);
    assert Due(p, ja, jb, w.a.e, w.ba, ToWrite(p, jb, ja, w.b.e));
    MovesAsPlanned(p, ta, tb, ma, mb, w.a, w.ba);
    RamStep(p, ta, tb, ma, mb, w.a, w.ba, ToWrite(p, jb, ja, w.b.e));
    hide Next, NextOf, RamFits, Plan, Paired, WellFormed, Inv;
    assert StepA(p, ja, Wires(w), Wires(w'));
    StepAInv(p, ja, jb, Wires(w), Wires(w'));
  }

  lemma OtherInv(p: nat, ta: seq<Transfer>, tb: seq<Transfer>, ma: Memory, mb: Memory, w: World)
    requires Paired(p, ta, tb) && Paired(p, tb, ta) && WorldInv(p, ta, tb, ma, mb, w)
    ensures WorldInv(p, tb, ta, mb, ma, Other(w))
  {
    hide RamFits, Plan, Paired, Sound, Complementary, ToRead, ToWrite;
  }

  /** Every move of either machine is a step of the protocol with the planned jobs, and keeps both memories
      as they should be. */
  lemma MovesInv(p: nat, ta: seq<Transfer>, tb: seq<Transfer>, ma: Memory, mb: Memory, w: World, w': World)
    requires p > 0 && Paired(p, ta, tb) && Paired(p, tb, ta)
    requires WorldInv(p, ta, tb, ma, mb, w) && Moves(p, ta, tb, w, w')
    ensures WorldInv(p, ta, tb, ma, mb, w')
    ensures Step(p, Plan(p, ta, tb, ma, mb), Plan(p, tb, ta, mb, ma), Wires(w), Wires(w'))
  {
    PairedFits(p, ta, tb);
    PairedFits(p, tb, ta);
    hide WorldInv, Plan, Paired, Next, NextOf;
    if MoveA(p, ta, w, w') {
      MoveAInv(p, ta, tb, ma, mb, w, w');
    } else {
      OtherInv(p, ta, tb, ma, mb, w);
      MoveAInv(p, tb, ta, mb, ma, Other(w), Other(w'));
      OtherInv(p, tb, ta, mb, ma, Other(w'));
      SwappedStep(p, Plan(p, tb, ta, mb, ma), w, w');
    }
  }

  lemma SwappedStep(p: nat, jb: seq<Job>, w: World, w': World)
    requires p > 0 && StepA(p, jb, Wires(Other(w)), Wires(Other(w')))
    ensures StepB(p, jb, Wires(w), Wires(w'))
  {
    hide Next;
  }

  // ---- whole runs ----

  /** Both machines at the beginning, with their memories; then any interleaving of their moves. */
  ghost predicate History(p: nat, ta: seq<Transfer>, tb: seq<Transfer>, ma: Memory, mb: Memory, ws: seq<World>)
    requires p > 0 && Paired(p, ta, tb) && Paired(p, tb, ta)
  {
    && ws != [] && ws[0] == World(Node(FRESH, ma), Node(FRESH, mb), [], [])
    && forall i | 0 < i < |ws| :: Moves(p, ta, tb, ws[i - 1], ws[i])
  }

  lemma BeginningInv(p: nat, ta: seq<Transfer>, tb: seq<Transfer>, ma: Memory, mb: Memory)
    requires 0 < p < U32 && Paired(p, ta, tb) && Paired(p, tb, ta)
    ensures WorldInv(p, ta, tb, ma, mb, World(Node(FRESH, ma), Node(FRESH, mb), [], []))
  {
    var w := World(Node(FRESH, ma), Node(FRESH, mb), [], []);
    PlansComplementary(p, ta, tb, ma, mb);
    BetweenTransfers(p, ta, tb, ma, mb, w.a);
    BetweenTransfers(p, tb, ta, mb, ma, w.b);
    hide RamFits, Plan, Paired, Complementary, Inv, NoneEmpty;
    InitInv(p, Plan(p, ta, tb, ma, mb), Plan(p, tb, ta, mb, ma), Wires(w));
  }

  lemma HistoryPrefix(p: nat, ta: seq<Transfer>, tb: seq<Transfer>, ma: Memory, mb: Memory, ws: seq<World>)
    requires p > 0 && Paired(p, ta, tb) && Paired(p, tb, ta) && History(p, ta, tb, ma, mb, ws) && |ws| > 1
    ensures History(p, ta, tb, ma, mb, ws[..|ws| - 1])
    ensures Moves(p, ta, tb, ws[|ws| - 2], ws[|ws| - 1])
  {
    hide Moves, Paired;
    var n := |ws| - 1;
    var before := ws[..n];
    assert Moves(p, ta, tb, ws[n - 1], ws[n]);
    forall i | 0 < i < |before|
      ensures Moves(p, ta, tb, before[i - 1], before[i])
    {
      assert Moves(p, ta, tb, ws[i - 1], ws[i]);
    }
  }

  /** Every run of the two machines is a run of the protocol, with its invariant and the memories'. */
  lemma {:induction false} HistoryInv(p: nat, ta: seq<Transfer>, tb: seq<Transfer>, ma: Memory, mb: Memory,
                                      ws: seq<World>)
    returns (links: seq<Link>)
    requires 0 < p < U32 && Paired(p, ta, tb) && Paired(p, tb, ta) && History(p, ta, tb, ma, mb, ws)
    ensures WorldInv(p, ta, tb, ma, mb, ws[|ws| - 1])
    ensures Run(p, Plan(p, ta, tb, ma, mb), Plan(p, tb, ta, mb, ma), links)
    ensures links[|links| - 1] == Wires(ws[|ws| - 1])
    decreases |ws|
  {
    hide Moves, WorldInv, Plan, Paired, Step;
    if |ws| == 1 {
      BeginningInv(p, ta, tb, ma, mb);
      links := [Wires(ws[0])];
    } else {
      HistoryPrefix(p, ta, tb, ma, mb, ws);
      hide History, Run;
      links := HistoryInv(p, ta, tb, ma, mb, ws[..|ws| - 1]);
      MovesInv(p, ta, tb, ma, mb, ws[|ws| - 2], ws[|ws| - 1]);
      RunExtended(p, Plan(p, ta, tb, ma, mb), Plan(p, tb, ta, mb, ma), links, Wires(ws[|ws| - 1]));
      links := links + [Wires(ws[|ws| - 1])];
    }
  }

  /** Whatever the interleaving: between transfers a machine's memory is the one that the transfers up to
      there leave when they are done one after the other; and while it sends, too. */
  lemma HistoryMemory(p: nat, ta: seq<Transfer>, tb: seq<Transfer>, ma: Memory, mb: Memory, ws: seq<World>)
    requires 0 < p < U32 && Paired(p, ta, tb) && Paired(p, tb, ta) && History(p, ta, tb, ma, mb, ws)
    ensures var n := ws[|ws| - 1].a;
            && n.e.op <= |ta|
            && (n.e.op == |ta| || n.e.pc.Start? || ta[n.e.op].Put? ==> n.ram == Ram(p, ta, tb, ma, mb, n.e.op))
    ensures var n := ws[|ws| - 1].b;
            && n.e.op <= |tb|
            && (n.e.op == |tb| || n.e.pc.Start? || tb[n.e.op].Put? ==> n.ram == Ram(p, tb, ta, mb, ma, n.e.op))
  {
    var links := HistoryInv(p, ta, tb, ma, mb, ws);
    var w := ws[|ws| - 1];
    hide History, Plan, Paired, Ram, Data;
    StartsFresh(p, Plan(p, ta, tb, ma, mb), Plan(p, tb, ta, mb, ma), Wires(w));
  }

  lemma StartsFresh(p: nat, ja: seq<Job>, jb: seq<Job>, s: Link)
    requires Inv(p, ja, jb, s)
    ensures s.a.pc.Start? ==> s.a.got == []
    ensures s.b.pc.Start? ==> s.b.got == []
  {
    hide ToRead, ToWrite, Deliveries, Complementary;
  }

  /** Neither machine can move. */
  ghost predicate Halted(p: nat, ta: seq<Transfer>, tb: seq<Transfer>, w: World)
    requires p > 0 && Paired(p, ta, tb) && Paired(p, tb, ta)
  {
    PairedFits(p, ta, tb);
    PairedFits(p, tb, ta);
    NextOf(p, ta, w.a, w.ba).None? && NextOf(p, tb, w.b, w.ab).None?
  }

  /** A run that can go no further has done all transfers, and both memories are as if they had been done one
      after the other. */
  lemma HistoryEnds(p: nat, ta: seq<Transfer>, tb: seq<Transfer>, ma: Memory, mb: Memory, ws: seq<World>)
    requires 0 < p < U32 && Paired(p, ta, tb) && Paired(p, tb, ta) && History(p, ta, tb, ma, mb, ws)
    requires Halted(p, ta, tb, ws[|ws| - 1])
    ensures var w := ws[|ws| - 1];
            && w.a.e.op == |ta| && w.b.e.op == |tb| && w.ab == [] && w.ba == []
            && w.a.ram == Ram(p, ta, tb, ma, mb, |ta|) && w.b.ram == Ram(p, tb, ta, mb, ma, |tb|)
  {
    var ja, jb := Plan(p, ta, tb, ma, mb), Plan(p, tb, ta, mb, ma);
    var w := ws[|ws| - 1];
    var links := HistoryInv(p, ta, tb, ma, mb, ws);
    HistoryMemory(p, ta, tb, ma, mb, ws);
    PlansComplementary(p, ta, tb, ma, mb);
    PairedFits(p, ta, tb);
    PairedFits(p, tb, ta);
    MovesAsPlanned(p, ta, tb, ma, mb, w.a, w.ba);
    MovesAsPlanned(p, tb, ta, mb, ma, w.b, w.ab);
    hide NextOf;
    hide History, Plan, Paired, Ram, Data, Run, Next, Moves, WorldInv, Complementary, NoneEmpty;
    FinishedDelivered(p, ja, jb, links);
  }

  lemma HistoryTake(p: nat, ta: seq<Transfer>, tb: seq<Transfer>, ma: Memory, mb: Memory, ws: seq<World>, n: nat)
    requires p > 0 && Paired(p, ta, tb) && Paired(p, tb, ta) && History(p, ta, tb, ma, mb, ws) && n < |ws|
    ensures History(p, ta, tb, ma, mb, ws[..n + 1])
  {
    hide Moves, Paired;
    var before := ws[..n + 1];
    forall i | 0 < i < |before|
      ensures Moves(p, ta, tb, before[i - 1], before[i])
    {
      assert Moves(p, ta, tb, ws[i - 1], ws[i]);
    }
  }

  /** In any run, whatever other transfers read and write: when transfer i, which b receives, is complete, b's
      list holds what a's list held while a was sending it, and nothing else of b's memory has changed since
      b began it. Here k is a moment of a's sending, j the one before b begins, n the one after b is done. */
  lemma HistoryCopies(p: nat, ta: seq<Transfer>, tb: seq<Transfer>, ma: Memory, mb: Memory, ws: seq<World>,
                      i: nat, k: nat, j: nat, n: nat)
    requires 0 < p < U32 && Paired(p, ta, tb) && Paired(p, tb, ta) && History(p, ta, tb, ma, mb, ws)
    requires k < |ws| && j < |ws| && n < |ws| && i < |tb| && tb[i].Take? && TransfersMatch(p, tb[i], ta[i])
    requires ws[k].a.e.op == i
    requires ws[j].b.e.op == i && ws[j].b.e.pc.Start?
    requires ws[n].b.e.op == i + 1 && (i + 1 == |tb| || ws[n].b.e.pc.Start?)
    requires DistinctPages(tb[i].c) && RunsAgree(ta[i].c, tb[i].c)
    ensures ListCopied(ta[i].c, tb[i].c, ws[k].a.ram, ws[j].b.ram, ws[n].b.ram)
  {
    hide History, Paired, DistinctPages, RunsAgree, Ram, WellFormed, ListCopied;
    HistoryTake(p, ta, tb, ma, mb, ws, k);
    HistoryTake(p, ta, tb, ma, mb, ws, j);
    HistoryTake(p, ta, tb, ma, mb, ws, n);
    HistoryMemory(p, ta, tb, ma, mb, ws[..k + 1]);
    HistoryMemory(p, ta, tb, ma, mb, ws[..j + 1]);
    HistoryMemory(p, ta, tb, ma, mb, ws[..n + 1]);
    SequenceCopies(p, tb, ta, mb, ma, i);
  }
}
