/** The card of the queue system is the card: its steps are what register accesses do to the device. */
module Card {
  import opened Bytes
  import opened Device
  import opened Driver
  import opened Options
  import opened QueueSystem
  import PageWalk
  import opened Wire

  /** What the queue system knows of a card. */
  ghost predicate Shows(s: Sys, dev: PSIPEDevice)
    reads dev
  {
    s.busy == dev.status.Executing? && s.raised == dev.raised
  }

  /** What others see of a card of the queue system. */
  function Looks(s: Sys): Seen {
    Seen(s.busy, s.raised)
  }

  /** Ringing an idle card is a start, the end of the run, and then the interrupt, in this order: what others
      see of it from the beginning of the run through all its page steps is the started card, with the flag
      as it was; then, still so, the card whose run has ended; and last the card that has raised its flag. */
  method RingIdle(dev: PSIPEDevice, ghost s: Sys, ghost id: nat, guest: seq<seq<GuestWrite>>,
                  ghost data: seq<byte>, ghost rest: seq<byte>)
    returns (ghost s': Sys)
    requires dev.Valid() && dev.status.Idle? && dev.npages <= PageWalk.HANDLES_CNT && Shows(s, dev)
    requires dev.mode.Passive? ==>
               && dev.pageSize <= PageWalk.AREA_SIZE && 0 < |data| == dev.len
               && dev.inbox == SenderMessages(data, dev.pageSize) + rest
    modifies dev, dev.buff
    ensures var s1 := Ring(s, id);
            && s1.busy && s1.inflight == Some(id)
            && Apply(s1, EndRun).Some? && Apply(Apply(s1, EndRun).value, Raise) == Some(s')
            && var all, n := dev.seen, |dev.seen| - 2;
               && |old(dev.seen)| < n && all[..|old(dev.seen)|] == old(dev.seen)
               && (forall i | |old(dev.seen)| <= i < n :: all[i] == Looks(s1))
               && all[n] == Looks(Apply(s1, EndRun).value) && all[n + 1] == Looks(s')
    ensures Shows(s', dev) && s'.raised
  {
    dev.MmioWrite(DMA_DOORBELL_RING, 1, guest, data, rest);
    s' := Apply(Apply(Ring(s, id), EndRun).value, Raise).value;
    ghost var all := dev.seen;
    assert all[..|all| - 1][..|all| - 2] == all[..|all| - 2];
    assert all[..|all| - 2][..|old(dev.seen)|] == all[..|old(dev.seen)|];
    assert forall i | 0 <= i < |all| - 2 :: all[..|all| - 2][i] == all[i];
  }

  /** Ringing a card in a run is ignored. */
  method RingBusy(dev: PSIPEDevice, ghost s: Sys, ghost id: nat)
    requires dev.Valid() && dev.status.Executing? && Shows(s, dev)
    ensures Ring(s, id) == s && Shows(Ring(s, id), dev)
  {
    dev.MmioWrite(DMA_DOORBELL_RING, 1, [], [], []);
  }

  /** The interrupt handler's check is an acknowledgement exactly when there is something to acknowledge. */
  method Acknowledge(dev: PSIPEDevice, ghost s: Sys) returns (active: bool, ghost s': Sys)
    requires dev.Valid() && !dev.status.Off? && dev.npages <= PageWalk.HANDLES_CNT && Shows(s, dev)
    modifies dev, dev.buff
    ensures active <==> Apply(s, Ack).Some?
    ensures s' == if active then Apply(s, Ack).value else s
    ensures Shows(s', dev)
  {
    active := CheckAndAck(dev);
    s' := if active then Apply(s, Ack).value else s;
  }
}
