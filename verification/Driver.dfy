/** The driver's side of a transfer: page arithmetic (src/sw/kernel/psipe_dma.c) and the order of register
    accesses in a send and a receive (src/sw/kernel/psipe_module.c). */
module Driver {
  import opened Arith
  import opened Bytes
  import opened Device
  import opened PageWalk
  import opened Wire

  const EMSGSIZE := 90
  const MODE_ACTIVE := 1
  const MODE_PASSIVE := 0
  const MODE_OFF := -1

  /** Where each virtual page lies: the physical address of its first byte. */
  type PageTable = nat -> nat

  function Translate(pt: PageTable, p: nat, va: nat): nat
    requires p > 0
  {
    pt(Div(va, p)) + Mod(va, p)
  }

  /** The pages of [va, va+len) are there: page-aligned, not at address 0, within 32 bits. */
  ghost predicate Mapped(pt: PageTable, p: nat, va: nat, len: nat)
    requires p > 0 && len > 0
  {
    forall v | Div(va, p) <= v <= Div(va + len - 1, p) :: 0 < pt(v) && Mod(pt(v), p) == 0 && pt(v) + p <= U32
  }

  // ---- page arithmetic ----

  datatype Segment = Segment(start: nat, len: nat)

  /** [va, va+len) cut at page boundaries: the scatter list of one segment a page. */
  function Segments(va: nat, len: nat, p: nat): (s: seq<Segment>)
    requires p > 0
    decreases len
  {
    if len == 0 then []
    else
      var n := Min(p - Mod(va, p), len);
      [Segment(va, n)] + Segments(va + n, len - n, p)
  }

  /** Up to the end of its page, an address stays in the page; the end is the start of the next one. */
  lemma WithinPage(va: nat, n: nat, p: nat)
    requires p > 0 && n <= p - Mod(va, p)
    ensures n < p - Mod(va, p) ==> Div(va + n, p) == Div(va, p) && Mod(va + n, p) == Mod(va, p) + n
    ensures n == p - Mod(va, p) ==> Div(va + n, p) == Div(va, p) + 1 && Mod(va + n, p) == 0
  {
    RoundDown(va, p);
    var base := va - Mod(va, p);
    AddToMultiple(base, Mod(va, p), p);
    AddToMultiple(base, Mod(va, p) + n, p);
    assert base + (Mod(va, p) + n) == va + n;
  }

  /** In order, without gap or overlap, each inside one page, and only the first can start off a page
      boundary. */
  ghost predicate Tiles(s: seq<Segment>, va: nat, len: nat, p: nat)
    requires p > 0
  {
    && (if len == 0 then s == [] else s != [] && s[0].start == va && s[|s| - 1].start + s[|s| - 1].len == va + len)
    && (forall i | 0 <= i < |s| - 1 :: s[i + 1].start == s[i].start + s[i].len)
    && (forall i | 0 <= i < |s| :: 0 < s[i].len <= p - Mod(s[i].start, p))
    && (forall i | 0 < i < |s| :: Mod(s[i].start, p) == 0)
  }

  lemma TilesPrepend(rest: seq<Segment>, va: nat, len: nat, p: nat, n: nat)
    requires p > 0 && 0 < n <= len && n <= p - Mod(va, p) && (n < len ==> Mod(va + n, p) == 0)
    requires Tiles(rest, va + n, len - n, p)
    ensures Tiles([Segment(va, n)] + rest, va, len, p)
  {
    hide Mod;
    var s := [Segment(va, n)] + rest;
    assert forall i | 0 < i < |s| :: s[i] == rest[i - 1];
    forall i | 0 < i < |s|
      ensures Mod(s[i].start, p) == 0 && 0 < s[i].len <= p - Mod(s[i].start, p)
    {
      assert s[i] == rest[i - 1];
    }
    forall i | 0 <= i < |s| - 1
      ensures s[i + 1].start == s[i].start + s[i].len
    {
      assert i > 0 ==> s[i] == rest[i - 1] && s[i + 1] == rest[i - 1 + 1];
    }
  }

  /** The segments tile the buffer. */
  lemma {:induction false} SegmentsTile(va: nat, len: nat, p: nat)
    requires p > 0
    ensures Tiles(Segments(va, len, p), va, len, p)
    decreases len
  {
    if len > 0 {
      var n := Min(p - Mod(va, p), len);
      WithinPage(va, n, p);
      SegmentsTile(va + n, len - n, p);
      hide Tiles, Mod;
      TilesPrepend(Segments(va + n, len - n, p), va, len, p, n);
    }
  }

  /** Segment i lies in the i-th page after the first; so there are last page - first page + 1 of them. */
  lemma {:induction false} SegmentsCount(va: nat, len: nat, p: nat)
    requires p > 0
    ensures var s := Segments(va, len, p);
            && (len > 0 ==> |s| == Div(va + len - 1, p) - Div(va, p) + 1)
            && (forall i | 0 <= i < |s| :: Div(s[i].start, p) == Div(va, p) + i)
    decreases len
  {
    if len > 0 {
      var n := Min(p - Mod(va, p), len);
      WithinPage(va, n, p);
      if n == len {
        WithinPage(va, n - 1, p);
      }
      SegmentsCount(va + n, len - n, p);
    }
  }

  /** psipe_dma_pin_pages counts in 32-bit ints. */
  function PinCount(va: nat, len: nat, p: nat): int
    requires p > 0
  {
    var first := ToInt32(Div(va, p));
    var last := ToInt32(Div((va + len - 1) % U64, p));
    ToInt32(last - first + 1)
  }

  lemma ToInt32Congruent(x: int, y: int)
    requires x % U32 == y % U32
    ensures ToInt32(x) == ToInt32(y)
  {
  }

  lemma ToInt32Mod(x: int)
    ensures ToInt32(x) % U32 == x % U32
  {
  }

  /** Differences of truncated numbers are the truncated differences. */
  lemma ToInt32Sub(a: int, b: int)
    ensures ToInt32(ToInt32(b) - ToInt32(a) + 1) == ToInt32(b - a + 1)
  {
    hide ToInt32;
    ToInt32Mod(a);
    ToInt32Mod(b);
    ToInt32Congruent(ToInt32(b) - ToInt32(a) + 1, b - a + 1);
  }

  /** The count is the true one modulo 2^32: right exactly while the true count fits an int. */
  lemma PinCountIsSegments(va: nat, len: nat, p: nat)
    requires p > 0 && len > 0 && va + len <= U64
    ensures PinCount(va, len, p) == ToInt32(|Segments(va, len, p)|)
    ensures PinCount(va, len, p) == |Segments(va, len, p)| <==> |Segments(va, len, p)| <= INT_MAX
  {
    SegmentsCount(va, len, p);
    ToInt32Sub(Div(va, p), Div(va + len - 1, p));
  }

  /** The input for which the wrong count passes for a right one: 2^32 + 1 pages count as 1. */
  lemma PinCountWraps(va: nat, len: nat, p: nat)
    requires p > 0 && len > 0 && va + len <= U64 && |Segments(va, len, p)| == U32 + 1
    ensures PinCount(va, len, p) == 1
  {
    PinCountIsSegments(va, len, p);
  }

  lemma PinCountWrapsExample()
    ensures |Segments(0, (U32 + 1) * 0x1000, 0x1000)| == U32 + 1 && PinCount(0, (U32 + 1) * 0x1000, 0x1000) == 1
  {
    var p, len := 0x1000, (U32 + 1) * 0x1000;
    hide Segments, PinCount;
    SegmentsCount(0, len, p);
    DivModAgree(len - 1, p);
    DivModIs(len - 1, U32, p - 1, p);
    PinCountWraps(0, len, p);
  }

  /** The page of the byte before va. */
  lemma PageBefore(va: nat, p: nat)
    requires p > 0 && 0 < va
    ensures Div(va - 1, p) == Div(va, p) - if Mod(va, p) == 0 then 1 else 0
  {
    RoundDown(va - 1, p);
    var base, r := va - 1 - Mod(va - 1, p), Mod(va - 1, p);
    AddToMultiple(base, r, p);
    AddToMultiple(base, r + 1, p);
    assert base + (r + 1) == va;
  }

  /** An empty buffer: its last byte is the one before it. */
  lemma EmptyPinCount(va: nat, p: nat)
    requires p > 0 && 0 < va <= U64
    ensures PinCount(va, 0, p) == if Mod(va, p) == 0 then 0 else 1
  {
    hide Div, Mod;
    PageBefore(va, p);
    ToInt32Sub(Div(va, p), Div(va - 1, p));
    assert (va + 0 - 1) % U64 == va - 1;
    assert ToInt32(0) == 0 && ToInt32(1) == 1;
    hide ToInt32;
  }

  // ---- the handle list a buffer gets ----

  /** The engine's registers describe the buffer [va, va+len) of the page table. */
  ghost predicate Programmed(c: Config, pt: PageTable, va: nat, len: nat)
    requires c.pageSize > 0
  {
    var s := Segments(va, len, c.pageSize);
    && c.len == len
    && c.npages == |s| <= |c.handles|
    && forall i | 0 <= i < |s| :: c.handles[i] == Translate(pt, c.pageSize, s[i].start)
  }

  lemma ProgrammedHandle(c: Config, pt: PageTable, va: nat, len: nat, i: nat)
    requires 0 < c.pageSize && 0 < len && Programmed(c, pt, va, len) && i < c.npages
    ensures c.handles[i] == pt(Div(va, c.pageSize) + i) + (if i == 0 then Mod(va, c.pageSize) else 0)
    ensures c.npages == Div(va + len - 1, c.pageSize) - Div(va, c.pageSize) + 1
    ensures Div(va, c.pageSize) + i <= Div(va + len - 1, c.pageSize)
    ensures c.len == len && c.npages <= |c.handles|
  {
    SegmentsTile(va, len, c.pageSize);
    SegmentsCount(va, len, c.pageSize);
  }

  /** Such registers are well formed, and the list they hold denotes the user's buffer byte for byte. */
  lemma ProgrammedWellFormed(c: Config, pt: PageTable, va: nat, len: nat)
    requires 0 < c.pageSize <= AREA_SIZE && 0 < len && Programmed(c, pt, va, len) && Mapped(pt, c.pageSize, va, len)
    ensures WellFormed(c) && Offset(c) == Mod(va, c.pageSize)
  {
    hide Mapped, Segments, Programmed, Div, Mod;
    var p := c.pageSize;
    ProgrammedOffset(c, pt, va, len);
    ProgrammedHandle(c, pt, va, len, 0);
    PageOfByte(va, len - 1, p);
    forall i | 0 < i < c.npages
      ensures c.handles[i] != 0 && Mod(c.handles[i], p) == 0
    {
      ProgrammedHandle(c, pt, va, len, i);
      MappedPage(pt, p, va, len, Div(va, p) + i);
    }
  }

  lemma ProgrammedOffset(c: Config, pt: PageTable, va: nat, len: nat)
    requires 0 < c.pageSize && 0 < len && Programmed(c, pt, va, len) && Mapped(pt, c.pageSize, va, len)
    ensures 0 < c.npages <= |c.handles| && Offset(c) == Mod(va, c.pageSize)
  {
    hide Mapped;
    SegmentsTile(va, len, c.pageSize);
    ProgrammedHandle(c, pt, va, len, 0);
    MappedPage(pt, c.pageSize, va, len, Div(va, c.pageSize));
    AddToMultiple(pt(Div(va, c.pageSize)), Mod(va, c.pageSize), c.pageSize);
  }

  lemma MappedPage(pt: PageTable, p: nat, va: nat, len: nat, v: nat)
    requires p > 0 && len > 0 && Mapped(pt, p, va, len) && Div(va, p) <= v <= Div(va + len - 1, p)
    ensures 0 < pt(v) && Mod(pt(v), p) == 0 && pt(v) + p <= U32
  {
  }

  lemma PageOfByte(va: nat, b: nat, p: nat)
    requires p > 0
    ensures Div(Mod(va, p) + b, p) == Div(va + b, p) - Div(va, p)
    ensures Mod(Mod(va, p) + b, p) == Mod(va + b, p)
  {
    RoundDown(va, p);
    var base := va - Mod(va, p);
    AddToMultiple(base, Mod(va, p), p);
    AddToMultiple(base, Mod(va, p) + b, p);
    assert base + (Mod(va, p) + b) == va + b;
  }

  lemma ProgrammedBase(c: Config, pt: PageTable, va: nat, len: nat, i: nat)
    requires 0 < c.pageSize <= AREA_SIZE && 0 < len && Programmed(c, pt, va, len) && Mapped(pt, c.pageSize, va, len)
    requires i < c.npages
    ensures WellFormed(c) && PageBase(c, i) == pt(Div(va, c.pageSize) + i)
  {
    ProgrammedWellFormed(c, pt, va, len);
    ProgrammedHandle(c, pt, va, len, i);
  }

  lemma ListedIsTranslated(c: Config, pt: PageTable, va: nat, len: nat, b: nat)
    requires 0 < c.pageSize <= AREA_SIZE && b < len && Programmed(c, pt, va, len) && Mapped(pt, c.pageSize, va, len)
    ensures WellFormed(c) && Listed(c, b) == Translate(pt, c.pageSize, va + b)
  {
    ProgrammedWellFormed(c, pt, va, len);
    PageOfByte(va, b, c.pageSize);
    ProgrammedBase(c, pt, va, len, PageIndex(c, b));
  }

  /** What a user can check: the buffer starts inside a page, or its pages are physically consecutive. */
  ghost predicate CopySafe(pt: PageTable, p: nat, va: nat, len: nat)
    requires p > 0 && len > 0
  {
    Mod(va, p) != 0 || forall v | Div(va, p) < v <= Div(va + len - 1, p) :: pt(v) == pt(v - 1) + p
  }

  lemma CopySafeIsFollowsList(c: Config, pt: PageTable, va: nat, len: nat)
    requires 0 < c.pageSize <= AREA_SIZE && 0 < len && Programmed(c, pt, va, len) && Mapped(pt, c.pageSize, va, len)
    ensures WellFormed(c)
    ensures CopySafe(pt, c.pageSize, va, len) <==> FollowsList(c)
  {
    hide Mapped, Segments, Programmed;
    ProgrammedWellFormed(c, pt, va, len);
    ProgrammedHandle(c, pt, va, len, 0);
    var p, first := c.pageSize, Div(va, c.pageSize);
    forall i | 0 <= i < c.npages
      ensures PageBase(c, i) == pt(first + i)
    {
      ProgrammedBase(c, pt, va, len, i);
    }
    if CopySafe(pt, p, va, len) && Offset(c) == 0 {
      forall i | 0 < i < c.npages
        ensures PageBase(c, i) == PageBase(c, i - 1) + p
      {
        assert pt(first + i) == pt(first + i - 1) + p;
      }
    }
    if FollowsList(c) && Offset(c) == 0 {
      forall v | first < v <= Div(va + len - 1, p)
        ensures pt(v) == pt(v - 1) + p
      {
        assert PageBase(c, v - first) == PageBase(c, v - first - 1) + p;
      }
    }
  }

  // ---- register programming and the two transfers ----

  /** struct psipe_dma: the driver's record of one transfer. */
  class PsipeDma {
    const va: nat
    const len: nat
    var mode: int
    var npages: int
    var sg: seq<Segment>
    var nmapped: nat

    constructor (va: nat, len: nat)
      ensures this.va == va && this.len == len
    {
      this.va, this.len := va, len;
      mode, npages, sg, nmapped := MODE_OFF, 0, [], 0;
    }

    /** Counts the pages, in an int, and builds a scatter list of that many segments; a count outside the
        range of the handle array is refused. An empty buffer counts as a page unless it lies on a page
        boundary. */
    method PinPages(p: nat) returns (rv: int)
      requires p > 0 && 0 < va + len <= U64
      modifies this`npages, this`sg
      ensures npages == PinCount(va, len, p)
      ensures rv == if 0 < npages <= HANDLES_CNT then 0 else -EMSGSIZE
      ensures rv != 0 ==> sg == old(sg)
      ensures len > 0 ==> (rv == 0 <==> 0 < ToInt32(|Segments(va, len, p)|) <= HANDLES_CNT)
      ensures len > 0 && rv == 0 ==> 0 < npages <= |Segments(va, len, p)| && sg == Segments(va, len, p)[..npages]
      ensures len > 0 && |Segments(va, len, p)| <= INT_MAX ==>
                npages == |Segments(va, len, p)| && (rv == 0 ==> sg == Segments(va, len, p))
      ensures len == 0 ==> (rv == 0 <==> Mod(va, p) != 0) && (rv == 0 ==> sg == [Segment(va, 0)])
    {
      npages := PinCount(va, len, p);
      if len > 0 {
        PinCountIsSegments(va, len, p);
      } else {
        EmptyPinCount(va, p);
      }
      if npages <= 0 || npages > HANDLES_CNT { return -EMSGSIZE; }
      sg := if len == 0 then [Segment(va, 0)] else Segments(va, len, p)[..npages];
      rv := 0;
    }

    /** Address-preserving mapping of every segment. */
    method MapPages() returns (rv: nat)
      modifies this`nmapped
      ensures nmapped == |sg| == rv
    {
      nmapped := |sg|;
      rv := nmapped;
    }

    method WriteSetup(dev: PSIPEDevice, m: int)
      requires dev.Valid() && dev.status.Idle? && dev.npages <= HANDLES_CNT
      modifies this`mode, dev, dev.buff
      ensures Quiet(dev)
      ensures mode == m && dev.mode == if m == MODE_ACTIVE then Active else Passive
      ensures dev.lenAvail == old(dev.lenAvail) && dev.Cur() == old(dev.Cur())
      ensures dev.len == old(dev.len) && dev.npages == old(dev.npages) && dev.handles == old(dev.handles)
    {
      mode := m;
      dev.MmioWrite(DMA_CFG_MOD, if m == MODE_ACTIVE then 1 else 0, [], [], []);
    }

    /** Nothing but the mode, the available length and the transfer registers differs. */
    twostate predicate Quiet(dev: PSIPEDevice)
      reads dev
    {
      && dev.Valid() && dev.status.Idle? && dev.npages <= HANDLES_CNT
      && dev.inbox == old(dev.inbox) && dev.outbox == old(dev.outbox)
      && dev.ram == old(dev.ram) && dev.raised == old(dev.raised) && dev.seen == old(dev.seen)
    }

    /** The handle programming: after it, register i of the handle area holds segment i's address for
        every i below nmapped, and every other handle and register is as before. */
    method WriteMaps(dev: PSIPEDevice, pt: PageTable)
      requires dev.Valid() && dev.status.Idle? && dev.npages <= HANDLES_CNT
      requires nmapped == |sg| <= HANDLES_CNT
      modifies dev, dev.buff
      ensures Quiet(dev)
      ensures dev.len == len % U32 && dev.npages == nmapped
      ensures dev.mode == old(dev.mode) && dev.lenAvail == old(dev.lenAvail) && dev.Cur() == old(dev.Cur())
      ensures forall i | 0 <= i < nmapped :: dev.handles[i] == Translate(pt, dev.pageSize, sg[i].start) % U32
      ensures forall i | nmapped <= i < HANDLES_CNT :: dev.handles[i] == old(dev.handles[i])
    {
      dev.MmioWrite(DMA_CFG_LEN, len % U32, [], [], []);
      dev.MmioWrite(DMA_CFG_PGS, nmapped % U32, [], [], []);
      var ofs := 0;
      for i := 0 to nmapped
        invariant ofs == 4 * i
        invariant Quiet(dev)
        invariant dev.len == len % U32 && dev.npages == nmapped
        invariant dev.mode == old(dev.mode) && dev.lenAvail == old(dev.lenAvail) && dev.Cur() == old(dev.Cur())
        invariant forall j | 0 <= j < i :: dev.handles[j] == Translate(pt, dev.pageSize, sg[j].start) % U32
        invariant forall j | i <= j < HANDLES_CNT :: dev.handles[j] == old(dev.handles[j])
      {
        dev.MmioWrite(DMA_HANDLES + ofs, Translate(pt, dev.pageSize, sg[i].start) % U32, [], [], []);
        ofs := ofs + 4;
      }
    }

    /** The buffer is pinned, present, and of a length the registers can hold. */
    ghost predicate Ready(dev: PSIPEDevice, pt: PageTable)
      reads this, dev
    {
      && dev.Valid() && dev.status.Idle? && dev.npages <= HANDLES_CNT && dev.pageSize <= AREA_SIZE
      && sg == Segments(va, len, dev.pageSize) && |sg| <= HANDLES_CNT
      && 0 < len < U32 && Mapped(pt, dev.pageSize, va, len)
    }

    /** An empty buffer off a page boundary, which PinPages accepts. */
    ghost predicate ReadyEmpty(dev: PSIPEDevice)
      reads this, dev
    {
      && dev.Valid() && dev.status.Idle? && dev.npages <= HANDLES_CNT && dev.pageSize <= AREA_SIZE
      && len == 0 && sg == [Segment(va, 0)]
    }

    /** Asks the peer, through the device, how much it can take; only 32 bits of the answer are looked at. */
    method CheckSizeAvail(dev: PSIPEDevice, ghost avail: nat, ghost rest: seq<byte>) returns (ok: bool)
      requires dev.Valid() && dev.mode.Active?
      requires avail < U64 && dev.inbox == ReceiverMessages(avail) + rest
      modifies dev`inbox, dev`outbox, dev`lenAvail
      ensures ok <==> len <= avail % U32
      ensures dev.lenAvail == avail
      ensures dev.inbox == rest && dev.outbox == old(dev.outbox) + Word(REQ_SLN)
    {
      var reply := Long(avail) + rest;
      assert dev.inbox == Words([]) + Word(REQ_RLN) + reply;
      assert reply[..8] == Long(avail) && reply[8..] == rest;
      LongRoundTrip(avail);
      var room := dev.MmioRead(DMA_CFG_LEN_AVAIL, [], reply);
      ok := len <= room % U32;
    }

    /** psipe_ioctl_send: ask the peer for its length, refuse a buffer that does not fit, otherwise program
        the engine and ring. An empty send runs and raises the interrupt, but frames nothing. */
    method IoctlSend(dev: PSIPEDevice, pt: PageTable, guest: seq<seq<GuestWrite>>,
                     ghost avail: nat, ghost rest: seq<byte>)
      returns (rv: int)
      requires Ready(dev, pt) || ReadyEmpty(dev)
      requires avail < U64 && dev.inbox == ReceiverMessages(avail) + rest
      modifies this`mode, this`nmapped, dev, dev.buff
      ensures rv == if len <= avail % U32 then |sg| else -EMSGSIZE
      ensures dev.Valid() && dev.status.Idle? && dev.inbox == rest && dev.ram == old(dev.ram)
      ensures mode == MODE_ACTIVE && dev.mode.Active? && dev.lenAvail == avail
      ensures rv < 0 ==> dev.outbox == old(dev.outbox) + Word(REQ_SLN) && dev.raised == old(dev.raised)
      ensures rv < 0 ==> dev.Cfg() == old(dev.Cfg()) && dev.Cur() == old(dev.Cur()) && nmapped == old(nmapped)
      ensures rv >= 0 ==> InterruptedAfterRun(old(dev.seen), dev.seen, old(dev.raised))
      ensures rv >= 0 ==> dev.raised
      ensures len == 0 ==> rv >= 0 && dev.outbox == old(dev.outbox) + Word(REQ_SLN)
      ensures rv >= 0 && len > 0 ==>
                && WellFormed(dev.Cfg()) && Programmed(dev.Cfg(), pt, va, len)
                && dev.outbox == old(dev.outbox) + SenderMessages(Gathered(dev.Cfg(), dev.ram), dev.pageSize)
    {
      hide Segments, Mapped, Gathered, WellFormed, Programmed;
      WriteSetup(dev, MODE_ACTIVE);
      var ok := CheckSizeAvail(dev, avail, rest);
      if !ok { return -EMSGSIZE; }
      rv := MapPages();
      WriteMaps(dev, pt);
      if len > 0 { WrittenIsProgrammed(dev.Cfg(), pt, va, len); }
      dev.MmioWrite(DMA_DOORBELL_RING, 1, guest, [], []);
    }

    /** psipe_ioctl_recv: publish the length, program the engine and ring; the device then answers the
        peer's request and takes the pages. */
    method IoctlRecv(dev: PSIPEDevice, pt: PageTable, guest: seq<seq<GuestWrite>>,
                     ghost data: seq<byte>, ghost rest: seq<byte>)
      returns (rv: int)
      requires Ready(dev, pt)
      requires |data| == len && dev.inbox == SenderMessages(data, dev.pageSize) + rest
      modifies this`mode, this`nmapped, dev, dev.buff
      ensures rv == |sg|
      ensures dev.Valid() && dev.status.Idle? && dev.raised && dev.inbox == rest
      ensures dev.outbox == old(dev.outbox) + ReceiverMessages(len)
      ensures mode == MODE_PASSIVE && dev.mode.Passive? && dev.lenAvail == len
      ensures InterruptedAfterRun(old(dev.seen), dev.seen, old(dev.raised))
      ensures WellFormed(dev.Cfg()) && Programmed(dev.Cfg(), pt, va, len)
      ensures Scattered(dev.Cfg(), old(dev.ram), dev.ram, data, len)
    {
      hide Segments, Mapped, Scattered, WellFormed, Programmed;
      WriteSetup(dev, MODE_PASSIVE);
      dev.MmioWrite(DMA_CFG_LEN_AVAIL, len % U32, [], [], []);
      rv := MapPages();
      WriteMaps(dev, pt);
      WrittenIsProgrammed(dev.Cfg(), pt, va, len);
      dev.MmioWrite(DMA_DOORBELL_RING, 1, guest, data, rest);
    }
  }

  /** psipe_irq_check_and_ack: whether the card's flag is up; if so it is lowered, which only an idle card
      allows. */
  method CheckAndAck(dev: PSIPEDevice) returns (active: bool)
    requires dev.Valid() && dev.npages <= HANDLES_CNT
    modifies dev, dev.buff
    ensures active == old(dev.raised)
    ensures dev.raised == (old(dev.raised) && !dev.status.Idle?) && dev.status == old(dev.status)
    ensures dev.Cfg() == old(dev.Cfg()) && dev.mode == old(dev.mode) && dev.ram == old(dev.ram)
    ensures dev.inbox == old(dev.inbox) && dev.outbox == old(dev.outbox)
  {
    var flag := dev.MmioRead(IRQ_0_RAISE, [], []);
    active := flag != 0;
    if active {
      dev.MmioWrite(IRQ_0_LOWER, 1, [], [], []);
    }
  }

  /** Nothing is lost in the 32-bit registers. */
  lemma WrittenIsProgrammed(c: Config, pt: PageTable, va: nat, len: nat)
    requires 0 < c.pageSize <= AREA_SIZE && 0 < len < U32 && Mapped(pt, c.pageSize, va, len)
    requires c.len == len && c.npages == |Segments(va, len, c.pageSize)| <= |c.handles|
    requires forall i | 0 <= i < c.npages ::
               c.handles[i] == Translate(pt, c.pageSize, Segments(va, len, c.pageSize)[i].start) % U32
    ensures Programmed(c, pt, va, len) && WellFormed(c)
  {
    var s := Segments(va, len, c.pageSize);
    forall i | 0 <= i < c.npages
      ensures c.handles[i] == Translate(pt, c.pageSize, s[i].start)
    {
      hide Segments, Mapped;
      SegmentsCount(va, len, c.pageSize);
      MappedPage(pt, c.pageSize, va, len, Div(s[i].start, c.pageSize));
    }
    ProgrammedWellFormed(c, pt, va, len);
  }
}
