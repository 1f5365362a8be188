/** The two levels meet: a request of the driver, run on the card, does on the socket what the moves of one
    job do. */
module Jobs {
  import opened Bytes
  import Copy
  import opened Device
  import opened Driver
  import opened Options
  import opened PageWalk
  import opened Protocol
  import opened Wire

  /** n moves of a job from its start leave the bytes in rest unread and write those in wrote. */
  ghost predicate JobDoes(p: nat, job: Job, inb: seq<byte>, n: nat, e: Endpoint, rest: seq<byte>, wrote: seq<byte>)
    requires p > 0
  {
    RunJob(p, job, FRESH, inb, n) == Some((e, rest, wrote))
  }

  lemma SendAlone(p: nat, data: seq<byte>, later: seq<byte>) returns (n: nat, e: Endpoint)
    requires 0 < p < U32 && |data| < U32
    ensures JobDoes(p, Send(data), ReceiverMessages(|data|) + later, n, e, later, SenderMessages(data, p))
    ensures e.op == 1 && e.pc.Start?
  {
    JobAtStart(p, Send(data));
    JobAtStart(p, Receive(|data|));
    n, e := JobAlone(p, Send(data), Receive(|data|), FRESH, ReceiverMessages(|data|) + later, later);
  }

  lemma ReceiveAlone(p: nat, data: seq<byte>, later: seq<byte>) returns (n: nat, e: Endpoint)
    requires 0 < p < U32 && 0 < |data| < U32
    ensures JobDoes(p, Receive(|data|), SenderMessages(data, p) + later, n, e, later, ReceiverMessages(|data|))
    ensures e.op == 1 && e.delivered == [data]
  {
    JobAtStart(p, Send(data));
    JobAtStart(p, Receive(|data|));
    n, e := JobAlone(p, Receive(|data|), Send(data), FRESH, SenderMessages(data, p) + later, later);
  }

  lemma RefusedAlone(p: nat, data: seq<byte>, avail: nat, later: seq<byte>) returns (e: Endpoint)
    requires 0 < p < U32 && avail < U64 && avail % U32 < |data|
    ensures JobDoes(p, Send(data), ReceiverMessages(avail) + later, 3, e, later, Word(REQ_SLN)) && e.pc.Refused?
  {
    var inb, e1 := ReceiverMessages(avail) + later, FRESH.(pc := AwaitRln);
    var e2 := FRESH.(pc := ReadLen);
    var rest := Long(avail) + later;
    e := FRESH.(pc := Refused, lenAvail := avail);
    WordRoundTrip(REQ_RLN);
    LongRoundTrip(avail);
    assert inb[..4] == Word(REQ_RLN) && inb[4..] == rest && inb[0..] == inb;
    assert rest[..8] == Long(avail) && rest[8..] == later;
    hide Word, Long, FromLe, RunJob;
    var job := Send(data);
    RunNothing(p, job, e, later);
    RunJobStep(p, job, e2, rest, 0, Move(e, 8, []), [], e, later);
    RunJobStep(p, job, e1, inb, 1, Move(e2, 4, []), [] + [], e, later);
    RunJobStep(p, job, FRESH, inb, 2, Move(e1, 0, Word(REQ_SLN)), [] + ([] + []), e, later);
    assert Word(REQ_SLN) + ([] + ([] + [])) == Word(REQ_SLN);
  }

  lemma EmptySendWrites(p: nat)
    requires p > 0
    ensures SenderMessages([], p) == Word(REQ_SLN)
  {
  }

  /** A send request reads and writes on the socket what a Send job of the gathered bytes does: all of it
      when the peer offers that length, the refused beginning when it offers too little. An empty send
      completes on this side too. */
  method SendIsJob(s: PsipeDma, dev: PSIPEDevice, pt: PageTable, guest: seq<seq<GuestWrite>>,
                   ghost avail: nat, ghost rest: seq<byte>)
    returns (rv: int, ghost data: seq<byte>, ghost n: nat, ghost e: Endpoint, ghost wrote: seq<byte>)
    requires (s.Ready(dev, pt) || s.ReadyEmpty(dev)) && avail < U64 && dev.inbox == ReceiverMessages(avail) + rest
    requires avail % U32 < s.len || avail == s.len
    modifies s`mode, s`nmapped, dev, dev.buff
    ensures |data| == s.len && dev.inbox == rest && dev.outbox == old(dev.outbox) + wrote
    ensures JobDoes(dev.pageSize, Send(data), old(dev.inbox), n, e, rest, wrote)
    ensures rv < 0 <==> e.pc.Refused?
    ensures rv >= 0 ==> e.op == 1 && dev.raised
    ensures rv >= 0 && s.len > 0 ==> WellFormed(dev.Cfg()) && data == Gathered(dev.Cfg(), dev.ram)
  {
    hide Mapped, Segments, Programmed, WellFormed, Gathered, JobDoes, SenderMessages, ReceiverMessages;
    rv := s.IoctlSend(dev, pt, guest, avail, rest);
    if rv < 0 {
      data, n, wrote := seq(s.len, i => 0), 3, Word(REQ_SLN);
      e := RefusedAlone(dev.pageSize, data, avail, rest);
    } else if s.len == 0 {
      data, wrote := [], Word(REQ_SLN);
      n, e := SendAlone(dev.pageSize, data, rest);
      EmptySendWrites(dev.pageSize);
    } else {
      data, wrote := Gathered(dev.Cfg(), dev.ram), SenderMessages(Gathered(dev.Cfg(), dev.ram), dev.pageSize);
      Copy.ProgrammedLen(dev.Cfg(), pt, s.va, s.len);
      n, e := SendAlone(dev.pageSize, data, rest);
    }
  }

  /** A receive request does what a Receive job does, and delivers into memory what the job delivers. */
  method ReceiveIsJob(d: PsipeDma, dev: PSIPEDevice, pt: PageTable, guest: seq<seq<GuestWrite>>,
                      ghost data: seq<byte>, ghost rest: seq<byte>)
    returns (ghost n: nat, ghost e: Endpoint, ghost wrote: seq<byte>)
    requires d.Ready(dev, pt) && |data| == d.len && dev.inbox == SenderMessages(data, dev.pageSize) + rest
    modifies d`mode, d`nmapped, dev, dev.buff
    ensures dev.inbox == rest && dev.outbox == old(dev.outbox) + wrote
    ensures JobDoes(dev.pageSize, Receive(d.len), old(dev.inbox), n, e, rest, wrote) && e.op == 1
    ensures e.delivered == [data] && WellFormed(dev.Cfg()) && dev.Cfg().len == d.len
    ensures Scattered(dev.Cfg(), old(dev.ram), dev.ram, e.delivered[0], d.len)
  {
    hide Mapped, Segments, Programmed, WellFormed, Scattered, JobDoes, SenderMessages, ReceiverMessages;
    var rv := d.IoctlRecv(dev, pt, guest, data, rest);
    wrote := ReceiverMessages(d.len);
    Copy.ProgrammedLen(dev.Cfg(), pt, d.va, d.len);
    n, e := ReceiveAlone(dev.pageSize, data, rest);
  }
}
