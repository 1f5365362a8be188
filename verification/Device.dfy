/** The emulated card: DMA engine (src/hw/dma.c), socket proxy (src/hw/proxy.c), run loops
    (src/hw/psipe.c), registers (src/hw/mmio.c) and interrupt flag (src/hw/irq.c). */
module Device {
  import opened Arith
  import opened Bytes
  import opened Options
  import opened PageWalk
  import opened Wire

  const FAILURE := -1
  const SUCCESS := 0

  const IRQ_0_RAISE := 0x00
  const IRQ_0_LOWER := 0x08
  const DMA_CFG_LEN := 0x10
  const DMA_CFG_PGS := 0x18
  const DMA_CFG_MOD := 0x20
  const DMA_CFG_LEN_AVAIL := 0x28
  const DMA_DOORBELL_RING := 0x30
  const DMA_HANDLES := 0x38
  const BAR0_END := DMA_HANDLES + 64 * HANDLES_CNT
  const ALL_ONES := U64 - 1

  datatype DmaStatus = Idle | Executing | Off
  datatype DmaMode = Active | Passive
  datatype GuestWrite = GuestWrite(addr: nat, val: nat)

  /** Conversion to a 32-bit int. */
  function ToInt32(x: int): (r: int)
    ensures -INT_MAX - 1 <= r <= INT_MAX
    ensures 0 <= x <= INT_MAX ==> r == x
    ensures (r - x) % U32 == 0
  {
    var w := x % U32;
    if w > INT_MAX then w - U32 else w
  }

  /** Subtraction of a 64-bit unsigned length, which wraps. */
  function WrapSub(a: nat, n: nat): (r: nat)
    requires n <= U64
    ensures r + n == a || (r + n == a + U64 && n > a)
    ensures a < U64 ==> r < U64
  {
    if n <= a then a - n else U64 - (n - a)
  }

  predicate ValidAccess(addr: nat) {
    0 <= addr <= BAR0_END
  }

  /** Unsigned subtraction and division, then truncation to int. */
  function HandlePos(addr: nat): int {
    ToInt32(((addr - DMA_HANDLES) % U64) / 4)
  }

  /** A register address outside the handle area never selects a handle, although the subtraction wraps. */
  lemma LowAddressSelectsNothing(addr: nat, npages: nat)
    requires addr < DMA_HANDLES && npages <= HANDLES_CNT
    ensures HandlePos(addr) < 0 && HandlePos(addr) % U64 >= npages
  {
    var q := ((addr - DMA_HANDLES) % U64) / 4;
    assert (addr - DMA_HANDLES) % U64 == U64 - (DMA_HANDLES - addr);
    assert q == U64 / 4 - 1 - (DMA_HANDLES - addr - 1) / 4;
    assert q % U32 == U32 - 1 - (DMA_HANDLES - addr - 1) / 4;
  }

  lemma HandleAreaSelects(addr: nat)
    requires DMA_HANDLES <= addr <= BAR0_END
    ensures HandlePos(addr) == (addr - DMA_HANDLES) / 4
  {
  }

  /** n bytes of memory from a on, and memory with s stored from a on. */
  function Peek(m: Memory, a: nat, n: nat): (s: seq<byte>)
    ensures |s| == n
  {
    seq<byte>(n, i requires 0 <= i < n => m(a + i))
  }

  lemma TakeSplit(s: seq<byte>, i: nat, n: nat)
    requires i <= n <= |s|
    ensures s[..n] == s[..i] + s[i..n]
  {
  }

  function Poke(m: Memory, a: nat, s: seq<byte>): Memory {
    (x: nat) => if a <= x < a + |s| then s[x - a] else m(x)
  }

  /** The cursor after a page step of n bytes: one block, or the rest of a page and the start of the next. */
  ghost function NextCursor(c: Config, cur: Cursor, n: nat, next: nat): Cursor
    requires WellFormed(c) && n <= cur.lenLeft
  {
    var have := c.pageSize - Offset(c);
    if n <= have then Cursor(cur.lenLeft - n, cur.addr + n, cur.hndPos)
    else Cursor(cur.lenLeft - n, next + (n - have), cur.hndPos + 1)
  }

  /** next is what the engine finds in the list after the current handle, as far as the list goes. */
  ghost predicate IsNext(c: Config, cur: Cursor, next: nat) {
    cur.hndPos + 1 < c.npages <= |c.handles| ==> next == c.handles[cur.hndPos + 1]
  }

  /** The step sees the buffer's offset, finds a handle when it needs one, and ends on track. */
  lemma StepCursor(c: Config, cur: Cursor, n: nat, next: nat)
    requires OnTrack(c, cur) && n == Min(c.pageSize, cur.lenLeft) > 0 && IsNext(c, cur, next)
    ensures Mod(cur.addr, c.pageSize) == Offset(c) && n <= AREA_SIZE
    ensures n > c.pageSize - Offset(c) ==> cur.hndPos + 1 < c.npages && next != 0
    ensures OnTrack(c, NextCursor(c, cur, n, next))
  {
    ChunkOffset(c, cur);
    if n > c.pageSize - Offset(c) { ChunkHasNext(c, cur, n); }
    StepOnTrack(c, cur, n, NextCursor(c, cur, n, next));
  }

  /** The bytes read in one or two blocks. */
  function BlocksRead(m: Memory, n: nat, a: nat, have: nat, next: nat): (s: seq<byte>)
    ensures |s| == n
  {
    if n <= have then Peek(m, a, n) else Peek(m, a, have) + Peek(m, next, n - have)
  }

  /** Memory after s was written in one or two blocks. */
  function BlocksWritten(m: Memory, s: seq<byte>, a: nat, have: nat, next: nat): Memory {
    if |s| <= have then Poke(m, a, s) else Poke(Poke(m, a, s[..have]), next, s[have..])
  }

  /** What the step reads is the next n bytes of the walk. */
  lemma StepPeeks(c: Config, cur: Cursor, m: Memory, n: nat, next: nat)
    requires OnTrack(c, cur) && 0 < n <= c.pageSize && n <= cur.lenLeft && IsNext(c, cur, next)
    ensures BlocksRead(m, n, cur.addr, c.pageSize - Offset(c), next) ==
            Gathered(c, m)[c.len - cur.lenLeft..c.len - cur.lenLeft + n]
  {
    var s := BlocksRead(m, n, cur.addr, c.pageSize - Offset(c), next);
    forall i | 0 <= i < n
      ensures s[i] == Gathered(c, m)[c.len - cur.lenLeft + i]
    {
      ChunkWalk(c, cur, i);
    }
  }

  /** m' is m with s stored at the places of the walk from pos on, and nothing else changed. */
  ghost predicate Stored(c: Config, m: Memory, m': Memory, pos: nat, s: seq<byte>)
    requires WellFormed(c) && pos + |s| <= c.len
  {
    && (forall b | pos <= b < pos + |s| :: m'(Walk(c, b)) == s[b - pos])
    && (forall x: nat | (forall b | pos <= b < pos + |s| :: Walk(c, b) != x) :: m'(x) == m(x))
  }

  lemma StepStored(c: Config, cur: Cursor, m: Memory, s: seq<byte>, next: nat)
    requires OnTrack(c, cur) && 0 < |s| <= c.pageSize && |s| <= cur.lenLeft && IsNext(c, cur, next)
    ensures Stored(c, m, BlocksWritten(m, s, cur.addr, c.pageSize - Offset(c), next), c.len - cur.lenLeft, s)
  {
    var pos := c.len - cur.lenLeft;
    forall b | pos <= b < pos + |s|
      ensures Walk(c, b) == InChunk(c, cur.addr, next, b - pos)
    {
      ChunkWalk(c, cur, b - pos);
      assert pos + (b - pos) == b;
    }
    forall a, b | pos <= a < b < pos + |s|
      ensures Walk(c, a) != Walk(c, b)
    {
      ChunkInjective(c, cur, a - pos, b - pos);
      assert pos + (a - pos) == a && pos + (b - pos) == b;
    }
    PokesStored(c, m, pos, s, cur.addr, next);
  }

  lemma InSecondBlock(c: Config, pos: nat, s: seq<byte>, a: nat, next: nat, x: nat) returns (d: nat)
    requires WellFormed(c) && pos + |s| <= c.len
    requires forall b | pos <= b < pos + |s| :: Walk(c, b) == InChunk(c, a, next, b - pos)
    requires next <= x < next + |s| - (c.pageSize - Offset(c))
    ensures pos + (c.pageSize - Offset(c)) <= d < pos + |s| && Walk(c, d) == x
  {
    d := pos + (c.pageSize - Offset(c)) + (x - next);
  }

  lemma PokesStored(c: Config, m: Memory, pos: nat, s: seq<byte>, a: nat, next: nat)
    requires WellFormed(c) && pos + |s| <= c.len
    requires forall b | pos <= b < pos + |s| :: Walk(c, b) == InChunk(c, a, next, b - pos)
    requires forall b, d | pos <= b < d < pos + |s| :: Walk(c, b) != Walk(c, d)
    ensures Stored(c, m, BlocksWritten(m, s, a, c.pageSize - Offset(c), next), pos, s)
  {
    var have := c.pageSize - Offset(c);
    var m' := BlocksWritten(m, s, a, c.pageSize - Offset(c), next);
    forall b | pos <= b < pos + |s|
      ensures m'(Walk(c, b)) == s[b - pos]
    {
      var x := Walk(c, b);
      if b - pos < have && |s| > have && next <= x < next + (|s| - have) {
        var d := InSecondBlock(c, pos, s, a, next, x);
      }
    }
    forall x: nat
      ensures m'(x) == m(x) || exists b :: pos <= b < pos + |s| && Walk(c, b) == x
    {
      if m'(x) != m(x) {
        var b := if |s| > have && next <= x < next + (|s| - have) then pos + have + (x - next) else pos + (x - a);
        assert Walk(c, b) == x;
      }
    }
  }

  /** One more page step extends what has been scattered. */
  lemma ScatteredStep(c: Config, m0: Memory, m: Memory, m': Memory, data: seq<byte>, pos: nat, s: seq<byte>)
    requires WellFormed(c) && pos + |s| <= c.len == |data| && s == data[pos..pos + |s|]
    requires Scattered(c, m0, m, data, pos) && Stored(c, m, m', pos, s)
    ensures Scattered(c, m0, m', data, pos + |s|)
  {
  }

  function Words(ws: seq<nat>): seq<byte> {
    if ws == [] then [] else Word(ws[0]) + Words(ws[1..])
  }

  lemma WordsStep(ws: seq<nat>, i: nat, last: seq<byte>, rest: seq<byte>)
    requires i <= |ws| && |last| == 4
    ensures var s := Words(ws[i..]) + last + rest;
            && |s| >= 4
            && (i < |ws| ==> s[..4] == Word(ws[i]) && s[4..] == Words(ws[i + 1..]) + last + rest)
            && (i == |ws| ==> s[..4] == last && s[4..] == rest)
  {
    if i < |ws| {
      assert ws[i..][1..] == ws[i + 1..];
      assert Words(ws[i..]) + last + rest == Word(ws[i]) + (Words(ws[i + 1..]) + last + rest);
    } else {
      assert Words(ws[i..]) + last + rest == last + rest;
    }
  }

  lemma ChunkAppended(chunks: seq<seq<byte>>, c: seq<byte>)
    ensures Frames(chunks + [c]) == Frames(chunks) + Frame(c)
    ensures |Concat(chunks + [c])| == |Concat(chunks)| + |c|
  {
    FramesAppend(chunks, [c]);
    ConcatAppend(chunks, [c]);
    assert Frames([c]) == Frame(c) + Frames([]);
    assert Concat([c]) == c + Concat([]);
  }

  /** The pieces of what is left from pos on: the next page, then the pieces of the rest. */
  lemma ChunksSlice(data: seq<byte>, pos: nat, p: nat)
    requires p > 0 && pos < |data|
    ensures var n := Min(p, |data| - pos);
            Chunks(data[pos..], p) == [data[pos..pos + n]] + Chunks(data[pos + n..], p)
  {
    var n := Min(p, |data| - pos);
    ChunksStep(data[pos..], p);
    assert data[pos..][..n] == data[pos..pos + n] && data[pos..][n..] == data[pos + n..];
  }

  /** chunks are the pieces of data up to pos. */
  ghost predicate PartlySent(data: seq<byte>, chunks: seq<seq<byte>>, pos: nat, p: nat)
    requires p > 0
  {
    pos <= |data| && chunks + Chunks(data[pos..], p) == Chunks(data, p)
  }

  lemma SentNothing(data: seq<byte>, p: nat)
    requires p > 0
    ensures PartlySent(data, [], 0, p)
  {
    assert data[0..] == data;
  }

  lemma SentStep(data: seq<byte>, chunks: seq<seq<byte>>, pos: nat, p: nat, c: seq<byte>)
    requires p > 0 && PartlySent(data, chunks, pos, p)
    requires |c| == Min(p, |data| - pos) > 0 && c == data[pos..pos + |c|]
    ensures PartlySent(data, chunks + [c], pos + |c|, p)
  {
    ChunksSlice(data, pos, p);
    assert (chunks + [c]) + Chunks(data[pos + |c|..], p) == chunks + ([c] + Chunks(data[pos + |c|..], p));
  }

  lemma SentAll(data: seq<byte>, chunks: seq<seq<byte>>, p: nat)
    requires p > 0 && PartlySent(data, chunks, |data|, p)
    ensures chunks == Chunks(data, p)
  {
    assert data[|data|..] == [];
  }

  lemma NextFrame(data: seq<byte>, pos: nat, p: nat, rest: seq<byte>)
    requires p > 0 && pos < |data|
    ensures var n := Min(p, |data| - pos);
            Frames(Chunks(data[pos..], p)) + rest ==
            Frame(data[pos..pos + n]) + (Frames(Chunks(data[pos + n..], p)) + rest)
  {
    var n := Min(p, |data| - pos);
    ChunksSlice(data, pos, p);
    var c, cs := data[pos..pos + n], Chunks(data[pos + n..], p);
    assert ([c] + cs)[1..] == cs;
    assert (Frame(c) + Frames(cs)) + rest == Frame(c) + (Frames(cs) + rest);
  }

  // ---- what other processors can see of a run ----

  /** Whether the card is in a run, and its interrupt flag. */
  datatype Seen = Seen(busy: bool, flag: bool)

  /** Since before, the card has been in a run all the time, with the same flag. */
  ghost predicate InRun(before: seq<Seen>, after: seq<Seen>, flag: bool) {
    && |before| < |after| && after[..|before|] == before
    && forall i | |before| <= i < |after| :: after[i] == Seen(true, flag)
  }

  /** And in the end the run was over, with the flag still the same. */
  ghost predicate RunSeen(before: seq<Seen>, after: seq<Seen>, flag: bool) {
    && |before| < |after| && InRun(before, after[..|after| - 1], flag)
    && after[|after| - 1] == Seen(false, flag)
  }

  lemma RunBegins(before: seq<Seen>, flag: bool)
    ensures InRun(before, before + [Seen(true, flag)], flag)
  {
  }

  lemma RunGoesOn(before: seq<Seen>, after: seq<Seen>, flag: bool)
    ensures InRun(before, after, flag) ==> InRun(before, after + [Seen(true, flag)], flag)
  {
  }

  lemma RunEnds(before: seq<Seen>, after: seq<Seen>, flag: bool)
    ensures InRun(before, after, flag) ==> RunSeen(before, after + [Seen(false, flag)], flag)
  {
    var all := after + [Seen(false, flag)];
    assert all[..|all| - 1] == after;
  }

  lemma InterruptSeen(before: seq<Seen>, after: seq<Seen>, flag: bool)
    ensures RunSeen(before, after, flag) ==> InterruptedAfterRun(before, after + [Seen(false, true)], flag)
  {
    var all := after + [Seen(false, true)];
    assert all[..|all| - 1] == after;
  }

  /** A run, and only when it was over the flag up. */
  ghost predicate InterruptedAfterRun(before: seq<Seen>, after: seq<Seen>, flag: bool) {
    && |before| < |after| && RunSeen(before, after[..|after| - 1], flag)
    && after[|after| - 1] == Seen(false, true)
  }

  /** PSIPEDevice: the structs that the source embeds by value are flattened into the one object. Values
      in the handle array, as in every register, are unbounded here; nothing in a run overflows 64 bits. */
  class PSIPEDevice {
    // dma.config
    var npages: nat
    var len: nat
    var lenAvail: nat
    const pageSize: nat
    var handles: seq<nat>
    // what reading one past the handle array yields
    const pastHandles: nat
    // dma.current
    var lenLeft: nat
    var addr: nat
    var hndPos: nat
    // dma
    var status: DmaStatus
    var mode: DmaMode
    const buff: array<byte>
    // irq
    var raised: bool
    // RAM of the machine the card sits in
    var ram: Memory
    // socket: bytes that have arrived and not been read, bytes sent
    var inbox: seq<byte>
    var outbox: seq<byte>
    // what others have seen: after each change of status or flag, and before each page step
    ghost var seen: seq<Seen>

    ghost function Look(): Seen
      reads this
    {
      Seen(status.Executing?, raised)
    }

    ghost predicate Valid()
      reads this
    {
      |handles| == HANDLES_CNT && buff.Length == AREA_SIZE && pageSize > 0
    }

    ghost function Cfg(): Config
      reads this
    {
      Config(npages, len, pageSize, handles)
    }

    ghost function Cur(): Cursor
      reads this
    {
      Cursor(lenLeft, addr, hndPos)
    }

    /** The state after psipe_dma_init; p is the target's page size, past whatever lies behind the array. */
    constructor (p: nat, past: nat, m: Memory)
      requires p > 0
      ensures Valid() && fresh(buff) && pageSize == p && ram == m
      ensures status.Idle? && mode.Active? && npages == 0 && len == 0 && !raised
      ensures forall i | 0 <= i < HANDLES_CNT :: handles[i] == 0
      ensures forall i | 0 <= i < AREA_SIZE :: buff[i] == 0
      ensures inbox == [] && outbox == [] && seen == []
    {
      pageSize, pastHandles, ram := p, past, m;
      npages, len, lenAvail, handles := 0, 0, 0, seq(HANDLES_CNT, i => 0);
      lenLeft, addr, hndPos := 0, 0, 0;
      status, mode, raised := Idle, Active, false;
      buff := new byte[AREA_SIZE](i => 0);
      inbox, outbox, seen := [], [], [];
    }

    // ---- dma.c ----

    method DmaRead(a: nat, n: nat, ofs: nat) returns (ok: bool)
      requires Valid()
      modifies buff
      ensures ok == (ofs + n <= AREA_SIZE)
      ensures ok ==> buff[..ofs] == old(buff[..ofs]) && buff[ofs..ofs + n] == Peek(ram, a, n)
      ensures ok ==> buff[ofs + n..] == old(buff[ofs + n..])
      ensures !ok ==> buff[..] == old(buff[..])
    {
      ok := ofs + n <= AREA_SIZE;
      if ok {
        forall i | 0 <= i < n {
          buff[ofs + i] := ram(a + i);
        }
      }
    }

    method DmaWrite(a: nat, n: nat, ofs: nat) returns (ok: bool)
      requires Valid()
      modifies this`ram
      ensures ok == (ofs + n <= AREA_SIZE)
      ensures ram == if ok then Poke(old(ram), a, buff[ofs..ofs + n]) else old(ram)
    {
      ok := ofs + n <= AREA_SIZE;
      if ok {
        ram := Poke(ram, a, buff[ofs..ofs + n]);
      }
    }

    /** What the code finds as the next handle: 0 once npages is reached; the entry at index npages is still
        read, and what lies behind the array when that is its length. */
    function NextEntry(): nat
      requires Valid()
      reads this
    {
      if hndPos >= npages then 0 else if hndPos + 1 < |handles| then handles[hndPos + 1] else pastHandles
    }

    method NextAddr() returns (a: nat)
      requires Valid()
      modifies this`hndPos
      ensures a == old(NextEntry())
      ensures hndPos == if old(hndPos) < npages then old(hndPos) + 1 else old(hndPos)
    {
      if hndPos < npages {
        hndPos := hndPos + 1;
      } else {
        return 0;
      }
      a := if hndPos < |handles| then handles[hndPos] else pastHandles;
    }

    /** The one or two reads of a page step; the address after the last byte, or FAILURE, which means a
        chunk that does not fit the bounce buffer or no next handle where one is needed. */
    method LoadBlocks(n: nat, have: nat) returns (a: int)
      requires Valid()
      modifies this`hndPos, buff
      ensures a == FAILURE || a >= 0
      ensures a == FAILURE <==> n > AREA_SIZE || (n > have && old(NextEntry()) == 0)
      ensures a != FAILURE ==>
                && a == (if n <= have then addr + n else old(NextEntry()) + (n - have))
                && hndPos == (if n <= have then old(hndPos) else old(hndPos) + 1)
                && buff[..n] == BlocksRead(ram, n, addr, have, old(NextEntry()))
    {
      a := addr;
      if n <= have {
        var ok := DmaRead(a, n, 0);
        if !ok { return FAILURE; }
        a := a + n;
      } else {
        var ok := DmaRead(a, have, 0);
        if !ok { return FAILURE; }
        assert buff[..have] == Peek(ram, a, have);
        a := NextAddr();
        if a == 0 { return FAILURE; }
        ok := DmaRead(a, n - have, have);
        if !ok { return FAILURE; }
        TakeSplit(buff[..], have, n);
        a := a + (n - have);
      }
    }

    /** Gather: one page of the buffer from RAM into buff. */
    method RxPage() returns (r: int)
      requires Valid()
      modifies this`addr, this`lenLeft, this`hndPos, buff
      ensures var want, have := Min(pageSize, old(lenLeft)), pageSize - Mod(old(addr), pageSize);
              r == if want > AREA_SIZE || (want > have && old(NextEntry()) == 0) then FAILURE else want
      ensures lenLeft == old(lenLeft) - (if r == FAILURE then 0 else r)
      ensures old(OnTrack(Cfg(), Cur()) && lenLeft > 0) ==>
                && r > 0
                && OnTrack(Cfg(), Cur())
                && buff[..r] == Gathered(Cfg(), ram)[len - old(lenLeft)..len - lenLeft]
    {
      hide Gathered, BlocksRead;
      ghost var c, cur, next := Cfg(), Cur(), NextEntry();
      ghost var good := OnTrack(c, cur) && lenLeft > 0;
      var have := pageSize - Mod(addr, pageSize);
      var want := Min(pageSize, lenLeft);
      if good {
        StepCursor(c, cur, want, next);
        StepPeeks(c, cur, ram, want, next);
      }
      var a := LoadBlocks(want, have);
      if a == FAILURE { return FAILURE; }
      addr := a;
      lenLeft := lenLeft - want;
      r := want;
      assert Cfg() == c;
      assert good ==> Cur() == NextCursor(c, cur, want, next);
    }

    /** The one or two writes of a page step; the address after the last byte, or FAILURE when a next handle
        is needed and there is none. */
    method StoreBlocks(n: nat, have: nat) returns (a: int)
      requires Valid() && n <= AREA_SIZE && 0 < have
      modifies this`hndPos, this`ram
      ensures a == FAILURE || a >= 0
      ensures a == FAILURE <==> n > have && old(NextEntry()) == 0
      ensures a != FAILURE ==>
                && a == (if n <= have then addr + n else old(NextEntry()) + (n - have))
                && hndPos == (if n <= have then old(hndPos) else old(hndPos) + 1)
                && ram == BlocksWritten(old(ram), buff[..n], addr, have, old(NextEntry()))
    {
      a := addr;
      if n <= have {
        var ok := DmaWrite(a, n, 0);
        if !ok { return FAILURE; }
        assert buff[0..n] == buff[..n];
        a := a + n;
      } else {
        var ok := DmaWrite(a, have, 0);
        if !ok { return FAILURE; }
        a := NextAddr();
        if a == 0 { return FAILURE; }
        assert buff[..n][..have] == buff[0..have] && buff[..n][have..] == buff[have..n];
        ok := DmaWrite(a, n - have, have);
        if !ok { return FAILURE; }
        a := a + (n - have);
      }
    }

    /** Scatter: n bytes of buff into RAM. */
    method TxPage(n: int) returns (r: int)
      requires Valid() && FAILURE <= n <= AREA_SIZE
      modifies this`addr, this`lenLeft, this`hndPos, this`ram
      ensures var have := pageSize - Mod(old(addr), pageSize);
              r == if n <= 0 || (n > have && old(NextEntry()) == 0) then FAILURE else SUCCESS
      ensures lenLeft == if r == FAILURE then old(lenLeft) else WrapSub(old(lenLeft), n)
      ensures old(OnTrack(Cfg(), Cur())) && n == Min(pageSize, old(lenLeft)) > 0 ==>
                && r == SUCCESS
                && OnTrack(Cfg(), Cur())
                && Stored(Cfg(), old(ram), ram, len - old(lenLeft), buff[..n])
    {
      hide Stored, Walk, BlocksWritten;
      ghost var c, cur, m, s, next := Cfg(), Cur(), ram, buff[..], NextEntry();
      ghost var good := OnTrack(c, cur) && n == Min(pageSize, lenLeft) > 0;
      var have := pageSize - Mod(addr, pageSize);
      if n == 0 || n == FAILURE { return FAILURE; }
      if good {
        StepCursor(c, cur, n, next);
        StepStored(c, cur, m, s[..n], next);
      }
      var a := StoreBlocks(n, have);
      assert buff[..n] == s[..n];
      if a == FAILURE { return FAILURE; }
      addr := a;
      lenLeft := WrapSub(lenLeft, n);
      r := SUCCESS;
      assert Cfg() == c;
      assert good ==> Cur() == NextCursor(c, cur, n, next);
    }

    /** The compare-and-swap succeeds from Idle only; a device that is Off runs all the same, and the
        cursor is reset even when a run is in progress. */
    method BeginRun() returns (r: int)
      requires Valid()
      modifies this`lenLeft, this`addr, this`hndPos, this`status, this`seen
      ensures seen == old(seen) + [Look()]
      ensures Cur() == Cursor(len, handles[0], 0)
      ensures r == if old(status).Executing? then FAILURE else SUCCESS
      ensures status == if old(status).Idle? then Executing else old(status)
      ensures WellFormed(Cfg()) ==> OnTrack(Cfg(), Cur())
    {
      lenLeft, addr, hndPos := len, handles[0], 0;
      var was := status;
      if status.Idle? { status := Executing; }
      r := if was.Executing? then FAILURE else SUCCESS;
      seen := seen + [Look()];
      if WellFormed(Cfg()) { OnTrackInit(Cfg()); }
    }

    method EndRun()
      modifies this`status, this`seen
      ensures status == Idle && seen == old(seen) + [Look()]
    {
      status := Idle;
      seen := seen + [Look()];
    }

    // ---- irq.c ----

    method IrqRaise()
      modifies this`raised, this`seen
      ensures raised && seen == old(seen) + [Look()]
    {
      raised := true;
      seen := seen + [Look()];
    }

    method IrqLower()
      modifies this`raised, this`seen
      ensures !raised && seen == old(seen) + [Look()]
    {
      raised := false;
      seen := seen + [Look()];
    }

    // ---- proxy.c ----

    method Recv(n: nat) returns (s: seq<byte>)
      requires n <= |inbox|
      modifies this`inbox
      ensures s == old(inbox)[..n] && inbox == old(inbox)[n..]
    {
      s, inbox := inbox[..n], inbox[n..];
    }

    method IssueReq(req: nat)
      modifies this`outbox
      ensures outbox == old(outbox) + Word(req)
    {
      outbox := outbox + Word(req);
    }

    /** SYN and RST start a run and reset the machine; no endpoint ever sends them. */
    method HandleReq(req: nat) returns (r: int)
      requires req != REQ_SYN && req != REQ_RST
      requires req == REQ_RLN ==> |inbox| >= 8
      modifies this`inbox, this`outbox, this`lenAvail
      ensures r == if req in {REQ_SLN, REQ_RLN, REQ_ACK} then SUCCESS else FAILURE
      ensures outbox == old(outbox) + (if req == REQ_SLN then ReceiverMessages(old(lenAvail)) else [])
      ensures req == REQ_RLN ==> inbox == old(inbox)[8..] && lenAvail == FromLe(old(inbox)[..8])
      ensures req != REQ_RLN ==> inbox == old(inbox) && lenAvail == old(lenAvail)
    {
      r := SUCCESS;
      if req == REQ_SLN {
        IssueReq(REQ_RLN);
        outbox := outbox + Long(lenAvail);
      } else if req == REQ_RLN {
        var s := Recv(8);
        lenAvail := FromLe(s);
      } else if req != REQ_ACK {
        r := FAILURE;
      }
    }

    /** Reads words until the awaited one or the failure word, throwing the others away. stop is the word at
        which it stops. */
    method AwaitReq(req: nat, ghost skipped: seq<nat>, ghost stop: nat, ghost rest: seq<byte>) returns (r: int)
      requires req in {REQ_SLN, REQ_RLN, REQ_ACK} && stop in {req, REQ_FAILURE}
      requires forall w | w in skipped :: w < U32 && w != req && w != REQ_FAILURE
      requires inbox == Words(skipped) + Word(stop) + rest
      requires stop == REQ_RLN ==> |rest| >= 8
      modifies this`inbox, this`outbox, this`lenAvail
      ensures r == if stop == req then SUCCESS else FAILURE
      ensures outbox == old(outbox) + (if stop == REQ_SLN then ReceiverMessages(old(lenAvail)) else [])
      ensures stop == REQ_RLN ==> inbox == rest[8..] && lenAvail == FromLe(rest[..8])
      ensures stop != REQ_RLN ==> inbox == rest && lenAvail == old(lenAvail)
    {
      var w := REQ_NIL;
      var more := true;
      ghost var i := 0;
      while more
        invariant 0 <= i <= |skipped|
        invariant more ==> inbox == Words(skipped[i..]) + Word(stop) + rest
        invariant !more ==> w == stop && inbox == rest
        invariant unchanged(`outbox) && unchanged(`lenAvail)
        decreases more, |skipped| - i
      {
        WordsStep(skipped, i, Word(stop), rest);
        assert i < |skipped| ==> skipped[i] in skipped;
        WordRoundTrip(if i < |skipped| then skipped[i] else stop);
        var s := Recv(4);
        w := FromLe(s);
        more := w != REQ_FAILURE && w != req;
        if i < |skipped| { i := i + 1; }
      }
      r := HandleReq(w);
    }

    /** One frame from the socket into buff, which is one step of parsing the stream; a zero length is a
        failure. */
    method RxFrame(ghost chunk: seq<byte>, ghost tail: seq<byte>) returns (n: int)
      requires Valid()
      requires inbox == Frame(chunk) + tail && |chunk| <= AREA_SIZE
      modifies this`inbox, buff
      ensures n == if chunk == [] then FAILURE else |chunk|
      ensures inbox == tail
      ensures chunk != [] ==> buff[..n] == chunk
      ensures Parse(old(inbox), 1) == if n == FAILURE then None else Some(([buff[..n]], inbox))
    {
      ParseOne(chunk, tail);
      WordRoundTrip(|chunk|);
      assert inbox[..4] == Word(|chunk|) && inbox[4..] == chunk + tail;
      var s := Recv(4);
      n := FromLe(s);
      if n == 0 { return FAILURE; }
      var body := Recv(n);
      forall i | 0 <= i < n {
        buff[i] := body[i];
      }
    }

    /** One frame from buff onto the socket. */
    method TxFrame(n: int) returns (r: int)
      requires Valid() && n <= AREA_SIZE
      modifies this`outbox
      ensures r == if n <= 0 then FAILURE else SUCCESS
      ensures outbox == old(outbox) + if n <= 0 then [] else Frame(buff[..n])
    {
      if n <= 0 { return FAILURE; }
      outbox := outbox + Word(n);
      outbox := outbox + buff[..n];
      r := SUCCESS;
    }

    // ---- psipe.c ----

    /** State of a sending run that started with base on the wire and has framed chunks since: every byte
        of the buffer is either framed or still counted in lenLeft, and the chunks are full pages as long as
        bytes are left; with a usable handle list they are the buffer's next pages, in order. */
    ghost predicate SendState(base: seq<byte>, chunks: seq<seq<byte>>)
      requires Valid()
      reads this
    {
      && outbox == base + Frames(chunks)
      && |Concat(chunks)| + lenLeft == len
      && PageSized(chunks, pageSize, lenLeft > 0)
      && (WellFormed(Cfg()) ==>
            OnTrack(Cfg(), Cur()) && PartlySent(Gathered(Cfg(), ram), chunks, len - lenLeft, pageSize))
    }

    /** One turn of the sending loop: gather a page, frame it. */
    method SendPage(ghost base: seq<byte>, ghost chunks: seq<seq<byte>>)
      returns (ret: int, ghost chunks': seq<seq<byte>>)
      requires Valid() && SendState(base, chunks) && (lenLeft > 0 || (chunks == [] && !WellFormed(Cfg())))
      modifies this`lenLeft, this`addr, this`hndPos, this`outbox, this`seen, buff
      ensures SendState(base, chunks') && seen == old(seen) + [Look()]
      ensures ret == FAILURE || lenLeft < old(lenLeft)
      ensures WellFormed(Cfg()) ==> ret != FAILURE
    {
      hide Chunks, Frames, PartlySent, Gathered, Concat, OnTrack, Mod, NextEntry, WellFormed, Frame, PageSized;
      ghost var pos := len - lenLeft;
      chunks' := chunks;
      seen := seen + [Look()];
      var n := RxPage();
      ret := TxFrame(n);
      if n > 0 {
        ghost var c := buff[..n];
        ChunkAppended(chunks, c);
        PageSizedAppend(chunks, pageSize, c, lenLeft > 0);
        if WellFormed(Cfg()) { SentStep(Gathered(Cfg(), ram), chunks, pos, pageSize, c); }
        chunks' := chunks + [c];
        assert outbox == base + Frames(chunks');
        assert len - lenLeft == pos + |c|;
      }
    }

    /** Sends the buffer page by page: whatever the registers say, full pages and at most one shorter last
        one, and when nothing is left as many as the length needs. A run of length 0 sends nothing. guest is
        what other processors of the guest write to the card's registers before each page step. */
    method TransferPages(guest: seq<seq<GuestWrite>>) returns (ghost chunks: seq<seq<byte>>)
      requires Valid()
      modifies this`lenLeft, this`addr, this`hndPos, this`status, this`outbox, this`seen, buff
      ensures outbox == old(outbox) + Frames(chunks)
      ensures old(status).Idle? ==> RunSeen(old(seen), seen, raised)
      ensures |Concat(chunks)| + lenLeft == len
      ensures PageSized(chunks, pageSize, lenLeft > 0)
      ensures lenLeft == 0 ==> |chunks| == PagesFor(len, pageSize)
      ensures len == 0 ==> outbox == old(outbox)
      ensures old(status).Executing? ==> status.Executing? && chunks == []
      ensures !old(status).Executing? ==> status.Idle?
      ensures !old(status).Executing? && WellFormed(Cfg()) ==>
                && lenLeft == 0
                && hndPos == (if Offset(Cfg()) == 0 then 0 else npages - 1)
                && chunks == Chunks(Gathered(Cfg(), ram), pageSize)
      decreases 2
    {
      hide PageSized, PagesFor, Mod, InRun, RunSeen, SendState, WellFormed, OnTrack, Gathered, Chunks, Frames, Concat;
      chunks := [];
      ghost var base := outbox;
      NothingSent(base);
      var begun := BeginRun();
      RunBegins(old(seen), raised);
      if begun == FAILURE { return; }
      SendingBegins(base);
      var more, k := true, 0;
      while more
        invariant Valid() && !status.Idle? && SendState(base, chunks)
        invariant more ==> lenLeft > 0 || (chunks == [] && !WellFormed(Cfg()))
        invariant WellFormed(Cfg()) && !more ==> lenLeft == 0
        invariant old(status).Idle? ==> status.Executing? && InRun(old(seen), seen, raised)
        decreases more, lenLeft
      {
        GuestWrites(if k < |guest| then guest[k] else []);
        RunGoesOn(old(seen), seen, raised);
        var ret;
        ret, chunks := SendPage(base, chunks);
        more, k := ret != FAILURE && lenLeft != 0, k + 1;
      }
      SendingEnded(base, chunks);
      RunEnds(old(seen), seen, raised);
      EndRun();
    }

    lemma NothingSent(base: seq<byte>)
      requires Valid()
      ensures base == base + Frames([]) && Concat([]) == []
      ensures PageSized([], pageSize, true) && PageSized([], pageSize, false) && PagesFor(0, pageSize) == 0
    {
      PageSizedNone(pageSize);
      PageSizedCount([], pageSize, false);
    }

    lemma SendingBegins(base: seq<byte>)
      requires Valid() && lenLeft == len && outbox == base && (WellFormed(Cfg()) ==> OnTrack(Cfg(), Cur()))
      ensures SendState(base, []) && (WellFormed(Cfg()) ==> lenLeft > 0)
    {
      NothingSent(base);
      hide PageSized, Mod, Frames, Concat;
      if WellFormed(Cfg()) { SentNothing(Gathered(Cfg(), ram), pageSize); }
    }

    lemma SendingEnded(base: seq<byte>, chunks: seq<seq<byte>>)
      requires Valid() && SendState(base, chunks) && (WellFormed(Cfg()) ==> lenLeft == 0)
      ensures outbox == base + Frames(chunks) && |Concat(chunks)| + lenLeft == len
      ensures PageSized(chunks, pageSize, lenLeft > 0)
      ensures lenLeft == 0 ==> |chunks| == PagesFor(len, pageSize)
      ensures len == 0 ==> outbox == base
      ensures WellFormed(Cfg()) ==>
                && lenLeft == 0 && hndPos == (if Offset(Cfg()) == 0 then 0 else npages - 1)
                && chunks == Chunks(Gathered(Cfg(), ram), pageSize)
    {
      hide PageSized, PagesFor, Mod, Gathered, Chunks, PartlySent;
      PageSizedCount(chunks, pageSize, lenLeft > 0);
      if WellFormed(Cfg()) { SentAll(Gathered(Cfg(), ram), chunks, pageSize); }
    }

    /** State of a receiving run that started with memory m0 and has data (and then rest) coming in. */
    ghost predicate ReceiveState(m0: Memory, data: seq<byte>, rest: seq<byte>)
      requires Valid() && |data| == len
      reads this
    {
      && lenLeft <= len
      && (WellFormed(Cfg()) ==> OnTrack(Cfg(), Cur()) && Scattered(Cfg(), m0, ram, data, len - lenLeft))
      && inbox == Frames(Chunks(data[len - lenLeft..], pageSize)) + rest
    }

    /** One turn of the receiving loop: read a frame, scatter it. When the scatter fails the frame is lost
        and the run ends. */
    method ReceivePage(ghost m0: Memory, ghost data: seq<byte>, ghost rest: seq<byte>) returns (ret: int)
      requires Valid() && pageSize <= AREA_SIZE && |data| == len && lenLeft > 0 && ReceiveState(m0, data, rest)
      modifies this`lenLeft, this`addr, this`hndPos, this`inbox, this`ram, this`seen, buff
      ensures seen == old(seen) + [Look()]
      ensures ret != FAILURE ==> ReceiveState(m0, data, rest) && lenLeft < old(lenLeft)
      ensures WellFormed(Cfg()) ==> ret != FAILURE
    {
      hide Scattered, Stored, Chunks, Frames, Walk, OnTrack, WellFormed, Mod, NextEntry, Parse, Frame;
      ghost var pos, m := len - lenLeft, ram;
      ghost var chunk := data[pos..pos + Min(pageSize, lenLeft)];
      ghost var tail := Frames(Chunks(data[pos + |chunk|..], pageSize)) + rest;
      NextFrame(data, pos, pageSize, rest);
      seen := seen + [Look()];
      var n := RxFrame(chunk, tail);
      ret := TxPage(n);
      assert ret != FAILURE ==> len - lenLeft == pos + |chunk|;
      if WellFormed(Cfg()) {
        ScatteredStep(Cfg(), m0, m, ram, data, pos, chunk);
      }
    }

    /** Receives the buffer page by page: data, framed in pages, has arrived or is on its way. */
    method ReceivePages(guest: seq<seq<GuestWrite>>, ghost data: seq<byte>, ghost rest: seq<byte>)
      requires Valid() && pageSize <= AREA_SIZE
      requires 0 < |data| == len
      requires inbox == Frames(Chunks(data, pageSize)) + rest
      modifies this`lenLeft, this`addr, this`hndPos, this`status, this`inbox, this`ram, this`seen, buff
      ensures old(status).Idle? ==> RunSeen(old(seen), seen, raised)
      ensures old(status).Executing? ==> status.Executing? && inbox == old(inbox) && ram == old(ram)
      ensures !old(status).Executing? ==> status.Idle?
      ensures !old(status).Executing? && WellFormed(Cfg()) ==>
                && lenLeft == 0
                && hndPos == (if Offset(Cfg()) == 0 then 0 else npages - 1)
                && inbox == rest
                && Scattered(Cfg(), old(ram), ram, data, len)
      decreases 2
    {
      hide InRun, RunSeen;
      var begun := BeginRun();
      RunBegins(old(seen), raised);
      if begun == FAILURE { return; }
      ghost var m0 := ram;
      var more, k := true, 0;
      assert data[len - lenLeft..] == data;
      while more
        invariant Valid() && !status.Idle?
        invariant more ==> lenLeft > 0
        invariant more || WellFormed(Cfg()) ==> ReceiveState(m0, data, rest)
        invariant WellFormed(Cfg()) && !more ==> lenLeft == 0
        invariant old(status).Idle? ==> status.Executing? && InRun(old(seen), seen, raised)
        decreases more, lenLeft
      {
        GuestWrites(if k < |guest| then guest[k] else []);
        RunGoesOn(old(seen), seen, raised);
        var ret := ReceivePage(m0, data, rest);
        more, k := ret != FAILURE && lenLeft != 0, k + 1;
      }
      assert data[|data|..] == [];
      RunEnds(old(seen), seen, raised);
      EndRun();
    }

    /** The doorbell: run in the configured direction, then raise the interrupt. A receiving device first
        waits for the peer's length request and answers it. */
    method Execute(guest: seq<seq<GuestWrite>>, ghost data: seq<byte>, ghost rest: seq<byte>)
      requires Valid()
      requires mode.Passive? ==>
                 pageSize <= AREA_SIZE && 0 < |data| == len && inbox == SenderMessages(data, pageSize) + rest
      modifies this`lenLeft, this`addr, this`hndPos, this`status, this`inbox, this`outbox, this`lenAvail,
               this`ram, this`raised, this`seen, buff
      ensures raised && lenAvail == old(lenAvail)
      ensures old(status).Idle? ==> InterruptedAfterRun(old(seen), seen, old(raised))
      ensures !old(status).Executing? ==> status.Idle?
      ensures old(mode).Active? ==> inbox == old(inbox) && ram == old(ram)
      ensures old(mode).Active? && len == 0 ==> outbox == old(outbox)
      ensures old(mode).Active? && !old(status).Executing? && WellFormed(Cfg()) ==>
                outbox == old(outbox) + Frames(Chunks(Gathered(Cfg(), ram), pageSize)) && lenLeft == 0
      ensures old(mode).Passive? ==> outbox == old(outbox) + ReceiverMessages(lenAvail)
      ensures old(mode).Passive? && !old(status).Executing? && WellFormed(Cfg()) ==>
                inbox == rest && Scattered(Cfg(), old(ram), ram, data, len) && lenLeft == 0
      decreases 3
    {
      hide RunSeen, InterruptedAfterRun, WellFormed, Scattered, Gathered, Chunks, Concat, PageSized, Mod, Word, Long;
      match mode
      case Active =>
        ghost var chunks := TransferPages(guest);
        InterruptSeen(old(seen), seen, raised);
        IrqRaise();
      case Passive =>
        ghost var frames := Frames(Chunks(data, pageSize)) + rest;
        assert inbox == Words([]) + Word(REQ_SLN) + frames;
        var r := AwaitReq(REQ_SLN, [], REQ_SLN, frames);
        ReceivePages(guest, data, rest);
        InterruptSeen(old(seen), seen, raised);
        IrqRaise();
    }

    // ---- mmio.c ----

    method WriteHandle(a: nat, hnd: nat)
      requires Valid() && npages <= HANDLES_CNT
      modifies this`handles
      ensures Valid()
      ensures handles == if HandlePos(a) % U64 >= npages then old(handles) else old(handles)[HandlePos(a) := hnd]
    {
      var pos := HandlePos(a);
      if pos % U64 >= npages { return; }
      handles := handles[pos := hnd];
    }

    /** A register write by the guest. Unless the engine is idle it changes nothing at all. The doorbell
        needs what Execute needs. */
    method MmioWrite(a: nat, val: nat, guest: seq<seq<GuestWrite>>, ghost data: seq<byte>, ghost rest: seq<byte>)
      requires Valid() && (status.Idle? ==> npages <= HANDLES_CNT)
      requires status.Idle? && a == DMA_DOORBELL_RING && mode.Passive? ==>
                 pageSize <= AREA_SIZE && 0 < |data| == len && inbox == SenderMessages(data, pageSize) + rest
      modifies if status.Idle? then {this, buff} else {}
      ensures Valid()
      ensures old(status).Idle? ==> status.Idle?
      ensures a != DMA_DOORBELL_RING ==>
                unchanged(`inbox) && unchanged(`outbox) && unchanged(`ram) && Cur() == old(Cur())
      ensures a !in {DMA_DOORBELL_RING, IRQ_0_RAISE, IRQ_0_LOWER} ==> unchanged(`seen)
      ensures old(status).Idle? ==>
                && raised == (if a in {IRQ_0_RAISE, DMA_DOORBELL_RING} then true
                              else if a == IRQ_0_LOWER then false else old(raised))
                && len == (if a == DMA_CFG_LEN then val else old(len))
                && npages == (if a == DMA_CFG_PGS then val else old(npages))
                && mode == (if a == DMA_CFG_MOD then (if val > 0 then Active else Passive) else old(mode))
                && lenAvail == (if a == DMA_CFG_LEN_AVAIL then val else old(lenAvail))
                && handles == (if DMA_HANDLES <= a <= BAR0_END && (a - DMA_HANDLES) / 4 < npages
                               then old(handles)[(a - DMA_HANDLES) / 4 := val] else old(handles))
      ensures old(status).Idle? && a == DMA_DOORBELL_RING ==> InterruptedAfterRun(old(seen), seen, old(raised))
      ensures a != DMA_DOORBELL_RING ==> buff[..] == old(buff[..])
      ensures old(status).Idle? && a == DMA_DOORBELL_RING && old(mode).Active? ==>
                && inbox == old(inbox) && ram == old(ram) && (len == 0 ==> outbox == old(outbox))
                && (WellFormed(Cfg()) ==>
                      outbox == old(outbox) + Frames(Chunks(Gathered(Cfg(), ram), pageSize)) && lenLeft == 0)
      ensures old(status).Idle? && a == DMA_DOORBELL_RING && old(mode).Passive? ==>
                && outbox == old(outbox) + ReceiverMessages(lenAvail)
                && (WellFormed(Cfg()) ==>
                      inbox == rest && Scattered(Cfg(), old(ram), ram, data, len) && lenLeft == 0)
      decreases if status.Idle? then 4 else 0
    {
      if !ValidAccess(a) { return; }
      if !status.Idle? { return; }
      if a == IRQ_0_RAISE {
        IrqRaise();
      } else if a == IRQ_0_LOWER {
        IrqLower();
      } else if a == DMA_CFG_LEN {
        len := val;
      } else if a == DMA_CFG_PGS {
        npages := val;
      } else if a == DMA_CFG_MOD {
        mode := if val > 0 then Active else Passive;
      } else if a == DMA_CFG_LEN_AVAIL {
        lenAvail := val;
      } else if a == DMA_DOORBELL_RING {
        Execute(guest, data, rest);
      } else {
        if a < DMA_HANDLES { LowAddressSelectsNothing(a, npages); } else { HandleAreaSelects(a); }
        WriteHandle(a, val);
      }
    }

    /** Writes that reach the registers during a run: nothing changes. */
    method GuestWrites(ws: seq<GuestWrite>)
      requires Valid() && !status.Idle?
      decreases 1
    {
      for i := 0 to |ws| {
        MmioWrite(ws[i].addr, ws[i].val, [], [], []);
      }
    }

    /** A register read. Reading the available length of a sending device asks the peer for it. */
    method MmioRead(a: nat, ghost skipped: seq<nat>, ghost rest: seq<byte>) returns (val: nat)
      requires a == DMA_CFG_LEN_AVAIL && mode.Active? ==>
                 && (forall w | w in skipped :: w < U32 && w != REQ_RLN && w != REQ_FAILURE)
                 && inbox == Words(skipped) + Word(REQ_RLN) + rest && |rest| >= 8
      modifies this`inbox, this`outbox, this`lenAvail
      ensures var asks := a == DMA_CFG_LEN_AVAIL && mode.Active?;
              && outbox == old(outbox) + (if asks then Word(REQ_SLN) else [])
              && inbox == (if asks then rest[8..] else old(inbox))
              && lenAvail == (if asks then FromLe(rest[..8]) else old(lenAvail))
      ensures a == DMA_CFG_LEN_AVAIL ==> val == lenAvail
      ensures a in {IRQ_0_RAISE, IRQ_0_LOWER} ==> val == if raised then 1 else 0
      ensures a == DMA_CFG_LEN ==> val == len
      ensures a == DMA_CFG_PGS ==> val == npages
      ensures a == DMA_CFG_MOD ==> val == if mode.Active? then 0 else 1
      ensures a !in {IRQ_0_RAISE, IRQ_0_LOWER, DMA_CFG_LEN, DMA_CFG_PGS, DMA_CFG_MOD, DMA_CFG_LEN_AVAIL} ==>
                val == ALL_ONES
    {
      val := ALL_ONES;
      if !ValidAccess(a) { return; }
      if a == IRQ_0_RAISE || a == IRQ_0_LOWER {
        val := if raised then 1 else 0;
      } else if a == DMA_CFG_LEN {
        val := len;
      } else if a == DMA_CFG_PGS {
        val := npages;
      } else if a == DMA_CFG_MOD {
        val := if mode.Active? then 0 else 1;
      } else if a == DMA_CFG_LEN_AVAIL {
        if mode.Active? {
          IssueReq(REQ_SLN);
          var r := AwaitReq(REQ_RLN, skipped, REQ_RLN, rest);
        }
        val := lenAvail;
      }
    }
  }
}
