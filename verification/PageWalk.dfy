/** Where a run touches guest memory.

    The driver hands the device a list of handles: the first is the physical address of the buffer's
    first byte, the others those of its following pages. Listed is the address that list means for each
    byte of the buffer; Walk is the address the engine really uses, which ignores every handle but the
    first when the buffer starts on a page boundary (src/hw/dma.c:88-91 adds to the address without
    taking the next handle). */
module PageWalk {
  import opened Arith
  import opened Bytes

  const HANDLES_CNT := 131073
  const AREA_SIZE := 0x1000

  /** Guest RAM: the byte at each physical address. */
  type Memory = nat -> byte

  datatype Config = Config(npages: nat, len: nat, pageSize: nat, handles: seq<nat>)
  datatype Cursor = Cursor(lenLeft: nat, addr: nat, hndPos: nat)

  function Offset(c: Config): (o: nat)
    requires |c.handles| > 0 && c.pageSize > 0
  {
    Mod(c.handles[0], c.pageSize)
  }

  /** A register setting the driver can produce: the page count covers exactly the buffer, and the pages
      after the first are page-aligned, nonzero addresses. */
  ghost predicate WellFormed(c: Config) {
    && 0 < c.pageSize <= AREA_SIZE && 0 < c.len && 0 < |c.handles|
    && c.npages == Div(Offset(c) + c.len - 1, c.pageSize) + 1 <= |c.handles|
    && forall i | 0 < i < c.npages :: c.handles[i] != 0 && Mod(c.handles[i], c.pageSize) == 0
  }

  /** Start of the i-th page of the buffer. */
  ghost function PageBase(c: Config, i: nat): nat
    requires c.pageSize > 0 && i < |c.handles|
  {
    if i == 0 then c.handles[0] - Offset(c) else c.handles[i]
  }

  ghost function PageIndex(c: Config, b: nat): (i: nat)
    requires WellFormed(c) && b < c.len
    ensures i < c.npages
  {
    DivMonotone(Offset(c) + b, Offset(c) + c.len - 1, c.pageSize);
    Div(Offset(c) + b, c.pageSize)
  }

  ghost function Listed(c: Config, b: nat): nat
    requires WellFormed(c) && b < c.len
  {
    PageBase(c, PageIndex(c, b)) + Mod(Offset(c) + b, c.pageSize)
  }

  ghost function Walk(c: Config, b: nat): nat
    requires WellFormed(c) && b < c.len
  {
    if Offset(c) == 0 then c.handles[0] + b else Listed(c, b)
  }

  /** The bytes a gathering run reads, and those the handle list denotes. */
  ghost function Gathered(c: Config, ram: Memory): (s: seq<byte>)
    requires WellFormed(c)
    ensures |s| == c.len
  {
    seq<byte>(c.len, b requires 0 <= b < c.len => ram(Walk(c, b)))
  }

  ghost function ListedBytes(c: Config, ram: Memory): (s: seq<byte>)
    requires WellFormed(c)
    ensures |s| == c.len
  {
    seq<byte>(c.len, b requires 0 <= b < c.len => ram(Listed(c, b)))
  }

  /** The registers of an engine between two page steps of a run that has gone well so far. */
  ghost predicate OnTrack(c: Config, cur: Cursor) {
    && WellFormed(c)
    && cur.lenLeft <= c.len
    && if cur.lenLeft == 0 then cur.hndPos == (if Offset(c) == 0 then 0 else c.npages - 1)
       else
         var pos := c.len - cur.lenLeft;
         && Mod(pos, c.pageSize) == 0
         && cur.addr == Walk(c, pos)
         && cur.hndPos == (if Offset(c) == 0 then 0 else Div(pos, c.pageSize))
  }

  lemma OnTrackInit(c: Config)
    requires WellFormed(c)
    ensures OnTrack(c, Cursor(c.len, c.handles[0], 0))
  {
  }

  lemma ChunkDivMod(pos: nat, o: nat, i: nat, p: nat)
    requires p > 0 && Mod(pos, p) == 0 && o < p && i < p
    ensures Div(o + (pos + i), p) == if i < p - o then Div(pos, p) else Div(pos, p) + 1
    ensures Mod(o + (pos + i), p) == if i < p - o then o + i else i - (p - o)
  {
    AddToMultiple(pos, o + i, p);
    assert o + (pos + i) == pos + (o + i);
  }

  /** Byte i of the chunk at pos sits in the page of pos as long as that page has room ... */
  lemma ChunkByteNear(c: Config, pos: nat, i: nat)
    requires WellFormed(c) && Mod(pos, c.pageSize) == 0 && i < c.pageSize - Offset(c) && pos + i < c.len
    ensures Div(pos, c.pageSize) == PageIndex(c, pos + i)
    ensures Listed(c, pos + i) == PageBase(c, Div(pos, c.pageSize)) + Offset(c) + i
  {
    ChunkDivMod(pos, Offset(c), i, c.pageSize);
  }

  /** ... and then at the start of the next page. */
  lemma ChunkByteFar(c: Config, pos: nat, i: nat)
    requires WellFormed(c) && Mod(pos, c.pageSize) == 0 && c.pageSize - Offset(c) <= i < c.pageSize && pos + i < c.len
    ensures Div(pos, c.pageSize) + 1 < c.npages
    ensures Listed(c, pos + i) == c.handles[Div(pos, c.pageSize) + 1] + (i - (c.pageSize - Offset(c)))
  {
    ChunkDivMod(pos, Offset(c), i, c.pageSize);
    assert PageIndex(c, pos + i) == Div(pos, c.pageSize) + 1;
  }

  /** A page base carries no offset of its own. */
  lemma BaseAligned(c: Config, k: nat, r: nat)
    requires WellFormed(c) && k < c.npages && r < c.pageSize
    ensures Mod(PageBase(c, k) + r, c.pageSize) == r
  {
    RoundDown(c.handles[0], c.pageSize);
    AddToMultiple(PageBase(c, k), r, c.pageSize);
  }

  /** The address of byte i of a chunk that starts at address a, when the next handle is next. */
  ghost function InChunk(c: Config, a: nat, next: nat, i: nat): nat
    requires WellFormed(c)
  {
    if i < c.pageSize - Offset(c) then a + i else next + (i - (c.pageSize - Offset(c)))
  }

  /** The in-page offset at the start of every chunk is that of the buffer. */
  lemma ChunkOffset(c: Config, cur: Cursor)
    requires OnTrack(c, cur) && 0 < cur.lenLeft
    ensures Mod(cur.addr, c.pageSize) == Offset(c)
  {
    var p, o, pos := c.pageSize, Offset(c), c.len - cur.lenLeft;
    if o == 0 {
      AddToMultiple(pos, c.handles[0], p);
    } else {
      ChunkByteNear(c, pos, 0);
      BaseAligned(c, Div(pos, p), o);
    }
  }

  /** A chunk that does not fit into its page finds another, usable handle. */
  lemma ChunkHasNext(c: Config, cur: Cursor, n: nat)
    requires OnTrack(c, cur) && c.pageSize - Offset(c) < n <= c.pageSize && n <= cur.lenLeft
    ensures cur.hndPos + 1 < c.npages && c.handles[cur.hndPos + 1] != 0
  {
    ChunkByteFar(c, c.len - cur.lenLeft, n - 1);
  }

  /** The addresses of a chunk's bytes, seen from the cursor. */
  lemma ChunkWalk(c: Config, cur: Cursor, i: nat)
    requires OnTrack(c, cur) && i < c.pageSize && i < cur.lenLeft
    ensures i < c.pageSize - Offset(c) || cur.hndPos + 1 < c.npages
    ensures Walk(c, c.len - cur.lenLeft + i) ==
            InChunk(c, cur.addr, if i < c.pageSize - Offset(c) then 0 else c.handles[cur.hndPos + 1], i)
  {
    if Offset(c) != 0 {
      ChunkByteNear(c, c.len - cur.lenLeft, 0);
      if i < c.pageSize - Offset(c) {
        ChunkByteNear(c, c.len - cur.lenLeft, i);
      } else {
        ChunkByteFar(c, c.len - cur.lenLeft, i);
      }
    }
  }

  /** After a step of a full page, or of all that is left, the engine is on track again. In the end it
      stands on the last handle: an unaligned run has used every handle and no more. */
  lemma StepOnTrack(c: Config, cur: Cursor, n: nat, cur': Cursor)
    requires OnTrack(c, cur) && 0 < cur.lenLeft
    requires n == if c.pageSize <= cur.lenLeft then c.pageSize else cur.lenLeft
    requires cur'.lenLeft == cur.lenLeft - n
    requires var have := c.pageSize - Offset(c);
             if n <= have then cur'.addr == cur.addr + n && cur'.hndPos == cur.hndPos
             else cur.hndPos + 1 < |c.handles|
                  && cur'.addr == c.handles[cur.hndPos + 1] + (n - have) && cur'.hndPos == cur.hndPos + 1
    ensures OnTrack(c, cur')
  {
    var p, o, pos := c.pageSize, Offset(c), c.len - cur.lenLeft;
    if cur'.lenLeft == 0 {
      AddToMultiple(pos, o + n - 1, p);
      assert o + c.len - 1 == pos + (o + n - 1);
    } else {
      AddToMultiple(pos, p, p);
      if o > 0 {
        ChunkByteNear(c, pos + p, 0);
      }
    }
  }

  /** Consecutive: each page after the first physically follows the one before. */
  ghost predicate Consecutive(c: Config)
    requires WellFormed(c)
  {
    forall i | 0 < i < c.npages :: PageBase(c, i) == PageBase(c, i - 1) + c.pageSize
  }

  /** What a caller can check before ringing the doorbell. */
  ghost predicate FollowsList(c: Config)
    requires WellFormed(c)
  {
    Offset(c) != 0 || Consecutive(c)
  }

  lemma {:induction false} ConsecutiveWalk(c: Config, b: nat)
    requires WellFormed(c) && Offset(c) == 0 && Consecutive(c) && b < c.len
    ensures Listed(c, b) == c.handles[0] + b
  {
    if b >= c.pageSize {
      ConsecutiveWalk(c, b - c.pageSize);
      assert PageBase(c, PageIndex(c, b)) == PageBase(c, PageIndex(c, b) - 1) + c.pageSize;
    }
  }

  /** The first byte of page i, for a buffer that starts on a page boundary. */
  lemma {:induction false} PageStart(c: Config, i: nat) returns (b: nat)
    requires WellFormed(c) && Offset(c) == 0 && i < c.npages
    ensures b < c.len && PageIndex(c, b) == i && Mod(b, c.pageSize) == 0
    ensures Walk(c, b) == c.handles[0] + b && Listed(c, b) == PageBase(c, i)
    ensures i > 0 ==> b >= c.pageSize && PageIndex(c, b - c.pageSize) == i - 1
  {
    var p := c.pageSize;
    if i == 0 {
      b := 0;
    } else {
      var a := PageStart(c, i - 1);
      b := a + p;
      AddToMultiple(a, c.len - 1 - a, p);
      assert a + (c.len - 1 - a) == c.len - 1;
    }
  }

  lemma ScatteredPagesMissed(c: Config) returns (b: nat)
    requires WellFormed(c) && !FollowsList(c)
    ensures b < c.len && Walk(c, b) != Listed(c, b)
  {
    var i :| 0 < i < c.npages && PageBase(c, i) != PageBase(c, i - 1) + c.pageSize;
    b := PageStart(c, i);
    var a := PageStart(c, i - 1);
    if Walk(c, b) == Listed(c, b) {
      SamePageStart(c, a, b - c.pageSize);
      b := a;
    }
  }

  lemma SamePageStart(c: Config, a: nat, b: nat)
    requires WellFormed(c) && Offset(c) == 0 && a < c.len && b < c.len
    requires PageIndex(c, a) == PageIndex(c, b) && Mod(a, c.pageSize) == 0 && Mod(b + c.pageSize, c.pageSize) == 0
    ensures a == b
  {
    DivModDetermine(a, b, c.pageSize);
  }

  /** The engine accesses the buffer the handle list denotes exactly when FollowsList holds. */
  lemma WalkIsListed(c: Config)
    requires WellFormed(c)
    ensures FollowsList(c) <==> forall b | 0 <= b < c.len :: Walk(c, b) == Listed(c, b)
  {
    if FollowsList(c) {
      forall b | 0 <= b < c.len
        ensures Walk(c, b) == Listed(c, b)
      {
        if Offset(c) == 0 { ConsecutiveWalk(c, b); }
      }
    } else {
      var b := ScatteredPagesMissed(c);
    }
  }

  /** Outside FollowsList some memory shows the difference: the run reads other bytes than the list's. */
  lemma AlignedRunMisreads(c: Config) returns (ram: Memory)
    requires WellFormed(c) && !FollowsList(c)
    ensures Gathered(c, ram) != ListedBytes(c, ram)
  {
    var b := ScatteredPagesMissed(c);
    var a := Listed(c, b);
    ram := (x: nat) => if x == a then 1 else 0;
    assert Gathered(c, ram)[b] != ListedBytes(c, ram)[b];
  }

  /** A concrete one: two pages of 4 KB, the second physically below the first. */
  lemma AlignedRunMisreadsExample()
    ensures var c := Config(2, 0x2000, 0x1000, [0x5000, 0x3000]);
            WellFormed(c) && !FollowsList(c) && Walk(c, 0x1000) == 0x6000 && Listed(c, 0x1000) == 0x3000
  {
    var c := Config(2, 0x2000, 0x1000, [0x5000, 0x3000]);
    assert Offset(c) == 0;
    assert c.handles[1] == 0x3000;
    assert WellFormed(c);
    assert PageBase(c, 0) == 0x5000 && PageBase(c, 1) == 0x3000;
  }

  /** Distinct pages: no two entries of the list name the same physical page. */
  ghost predicate DistinctPages(c: Config)
    requires WellFormed(c)
  {
    forall i, j | 0 <= i < j < c.npages :: PageBase(c, i) != PageBase(c, j)
  }

  ghost predicate Injective(c: Config)
    requires WellFormed(c)
  {
    forall a, b | 0 <= a < b < c.len :: Walk(c, a) != Walk(c, b)
  }

  /** Then a run touches every address at most once (an aligned run does so in any case). */
  lemma DistinctPagesInjective(c: Config)
    requires WellFormed(c) && (Offset(c) == 0 || DistinctPages(c))
    ensures Injective(c)
  {
    if Offset(c) != 0 {
      forall a, b | 0 <= a < b < c.len
        ensures Walk(c, a) != Walk(c, b)
      {
        SamePlace(c, a, b);
      }
    }
  }

  lemma SamePlace(c: Config, a: nat, b: nat)
    requires WellFormed(c) && a < c.len && b < c.len && DistinctPages(c)
    ensures Listed(c, a) == Listed(c, b) ==> a == b
  {
    var p, o := c.pageSize, Offset(c);
    if Listed(c, a) == Listed(c, b) {
      BaseAligned(c, PageIndex(c, a), Mod(o + a, p));
      BaseAligned(c, PageIndex(c, b), Mod(o + b, p));
      assert PageBase(c, PageIndex(c, a)) == PageBase(c, PageIndex(c, b));
      DivModDetermine(o + a, o + b, p);
    }
  }

  /** ram' is ram after the first n bytes of data were written along the walk: where the walk crosses
      itself the last write stays, and no other address changes. */
  ghost predicate Scattered(c: Config, ram: Memory, ram': Memory, data: seq<byte>, n: nat)
    requires WellFormed(c) && n <= c.len && n <= |data|
  {
    && (forall b | 0 <= b < n && (forall a | b < a < n :: Walk(c, a) != Walk(c, b)) :: ram'(Walk(c, b)) == data[b])
    && (forall x: nat | (forall b | 0 <= b < n :: Walk(c, b) != x) :: ram'(x) == ram(x))
  }

  /** Within one chunk no address occurs twice, whatever the pages are. */
  lemma ChunkInjective(c: Config, cur: Cursor, i: nat, j: nat)
    requires OnTrack(c, cur) && i < j < c.pageSize && j < cur.lenLeft
    ensures Walk(c, c.len - cur.lenLeft + i) != Walk(c, c.len - cur.lenLeft + j)
  {
    var o, have := Offset(c), c.pageSize - Offset(c);
    ChunkWalk(c, cur, i);
    ChunkWalk(c, cur, j);
    if i < have <= j {
      ChunkByteNear(c, c.len - cur.lenLeft, 0);
      BaseAligned(c, cur.hndPos, o + i);
      BaseAligned(c, cur.hndPos + 1, j - have);
    }
  }
}
