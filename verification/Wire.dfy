/** What travels on the socket: request words, the length reply, and length-prefixed page frames. */
module Wire {
  import opened Arith
  import opened Bytes
  import opened Options

  const REQ_NIL := 0x0
  const REQ_ACK := 0x1
  const REQ_SYN := 0x2
  const REQ_RST := 0x3
  const REQ_SLN := 0x4
  const REQ_RLN := 0x5
  /** PSIPE_FAILURE (-1) as the unsigned ProxyRequest it is compared with. */
  const REQ_FAILURE := 0xFFFF_FFFF

  const INT_MAX := 0x7FFF_FFFF
  const U32 := 0x1_0000_0000
  const U64 := 0x1_0000_0000_0000_0000

  function Min(a: nat, b: nat): nat {
    if a <= b then a else b
  }

  /** A 4-byte word: a ProxyRequest or a frame header. */
  function Word(w: nat): (s: seq<byte>)
    ensures |s| == 4
  {
    Le(w, 4)
  }

  /** An 8-byte dma_size_t. */
  function Long(w: nat): (s: seq<byte>)
    ensures |s| == 8
  {
    Le(w, 8)
  }

  lemma WordRoundTrip(w: nat)
    requires w < U32
    ensures FromLe(Word(w)) == w
  {
    assert Pow256(4) == U32;
    LeRoundTrip(w, 4);
  }

  lemma LongRoundTrip(w: nat)
    requires w < U64
    ensures FromLe(Long(w)) == w
  {
    assert Pow256(8) == U64 by { assert Pow256(4) == U32; }
    LeRoundTrip(w, 8);
  }

  function Frame(chunk: seq<byte>): seq<byte> {
    Word(|chunk|) + chunk
  }

  function Frames(chunks: seq<seq<byte>>): seq<byte> {
    if chunks == [] then [] else Frame(chunks[0]) + Frames(chunks[1..])
  }

  /** data cut into pieces of p bytes, the last one possibly shorter. */
  function Chunks(data: seq<byte>, p: nat): seq<seq<byte>>
    requires p > 0
  {
    if data == [] then []
    else if |data| <= p then [data]
    else [data[..p]] + Chunks(data[p..], p)
  }

  function Concat(chunks: seq<seq<byte>>): seq<byte> {
    if chunks == [] then [] else chunks[0] + Concat(chunks[1..])
  }

  /** Everything an endpoint emits in an operation it sends, and in one it receives. */
  function SenderMessages(data: seq<byte>, p: nat): seq<byte>
    requires p > 0
  {
    Word(REQ_SLN) + Frames(Chunks(data, p))
  }

  function ReceiverMessages(len: nat): seq<byte> {
    Word(REQ_RLN) + Long(len)
  }

  lemma {:induction false} FramesAppend(a: seq<seq<byte>>, b: seq<seq<byte>>)
    ensures Frames(a + b) == Frames(a) + Frames(b)
  {
    if a == [] {
      assert a + b == b;
    } else {
      FramesAppend(a[1..], b);
      AppendTail(a, b);
      hide Frame;
      Associative(Frame(a[0]), Frames(a[1..]), Frames(b));
    }
  }

  lemma AppendTail(a: seq<seq<byte>>, b: seq<seq<byte>>)
    requires a != []
    ensures a + b != [] && (a + b)[0] == a[0] && (a + b)[1..] == a[1..] + b
  {
  }

  lemma {:induction false} ConcatAppend(a: seq<seq<byte>>, b: seq<seq<byte>>)
    ensures Concat(a + b) == Concat(a) + Concat(b)
  {
    if a == [] {
      assert a + b == b;
    } else {
      ConcatAppend(a[1..], b);
      AppendTail(a, b);
      Associative(a[0], Concat(a[1..]), Concat(b));
    }
  }

  /** The first piece taken off the front; both run loops advance by this. */
  lemma ChunksStep(data: seq<byte>, p: nat)
    requires p > 0 && data != []
    ensures Chunks(data, p) == [data[..Min(p, |data|)]] + Chunks(data[Min(p, |data|)..], p)
    ensures Frames(Chunks(data, p)) ==
            Word(Min(p, |data|)) + data[..Min(p, |data|)] + Frames(Chunks(data[Min(p, |data|)..], p))
  {
    var n := Min(p, |data|);
    if |data| <= p {
      assert data[..n] == data && data[n..] == [];
    }
    var cs := Chunks(data, p);
    assert cs == [data[..n]] + Chunks(data[n..], p);
    assert cs[1..] == Chunks(data[n..], p);
    assert Frames(cs) == Frame(cs[0]) + Frames(cs[1..]);
  }

  /** Cutting loses nothing. */
  lemma {:induction false} ChunksConcat(data: seq<byte>, p: nat)
    requires p > 0
    ensures Concat(Chunks(data, p)) == data
    decreases |data|
  {
    if data != [] {
      ChunksStep(data, p);
      var n := Min(p, |data|);
      ChunksConcat(data[n..], p);
      assert ([data[..n]] + Chunks(data[n..], p))[1..] == Chunks(data[n..], p);
      assert data[..n] + data[n..] == data;
    }
  }

  /** ceil(n/p): the pages that n bytes need. */
  function PagesFor(n: nat, p: nat): nat
    requires p > 0
  {
    (n + p - 1) / p
  }

  /** There are ceil(|data|/p) pieces. */
  lemma {:induction false} ChunksCount(data: seq<byte>, p: nat)
    requires p > 0
    ensures |Chunks(data, p)| == PagesFor(|data|, p)
    decreases |data|
  {
    if data == [] {
      DivModIs(p - 1, 0, p - 1, p);
    } else if |data| <= p {
      DivModIs(|data| + p - 1, 1, |data| - 1, p);
    } else {
      ChunksCount(data[p..], p);
      DivAdd(|data| - 1, 1, p);
    }
  }

  /** Every piece has p bytes, except that the last may have fewer; none is empty. */
  lemma {:induction false} ChunksSizes(data: seq<byte>, p: nat)
    requires p > 0
    ensures forall i | 0 <= i < |Chunks(data, p)| - 1 :: |Chunks(data, p)[i]| == p
    ensures forall c | c in Chunks(data, p) :: 0 < |c| <= p
    decreases |data|
  {
    if |data| > p {
      ChunksSizes(data[p..], p);
    }
  }

  /** Pieces of p bytes, except that the last may have fewer unless the list is to go on; none is empty. */
  ghost predicate PageSized(chunks: seq<seq<byte>>, p: nat, goesOn: bool) {
    && (forall i | 0 <= i < |chunks| :: 0 < |chunks[i]| <= p)
    && (forall i | 0 <= i < |chunks| - 1 :: |chunks[i]| == p)
    && (goesOn && chunks != [] ==> |chunks[|chunks| - 1]| == p)
  }

  lemma PageSizedNone(p: nat)
    ensures PageSized([], p, true) && PageSized([], p, false)
  {
  }

  lemma PageSizedAppend(chunks: seq<seq<byte>>, p: nat, c: seq<byte>, goesOn: bool)
    requires PageSized(chunks, p, true) && 0 < |c| <= p && (goesOn ==> |c| == p)
    ensures PageSized(chunks + [c], p, goesOn)
  {
  }

  /** Pieces of that form are as many as their bytes need. */
  lemma {:induction false} PageSizedCount(chunks: seq<seq<byte>>, p: nat, goesOn: bool)
    requires p > 0 && PageSized(chunks, p, goesOn)
    ensures |chunks| == PagesFor(|Concat(chunks)|, p)
    ensures Concat(chunks) == [] ==> chunks == []
  {
    if chunks == [] {
      DivModIs(p - 1, 0, p - 1, p);
    } else if |chunks| == 1 {
      assert Concat(chunks) == chunks[0] + Concat(chunks[1..]) == chunks[0];
      DivModIs(|chunks[0]| + p - 1, 1, |chunks[0]| - 1, p);
    } else {
      PageSizedCount(chunks[1..], p, goesOn);
      assert |Concat(chunks)| == p + |Concat(chunks[1..])|;
      DivAdd(|Concat(chunks[1..])| + p - 1, 1, p);
    }
  }

  /** n frames read off the front of a stream: n calls of psipe_proxy_rx_page. A zero header fails, and
      a negative one has no defined meaning. */
  function Parse(s: seq<byte>, n: nat): Option<(seq<seq<byte>>, seq<byte>)> {
    if n == 0 then Some(([], s))
    else if |s| < 4 then None
    else
      var len := FromLe(s[..4]);
      if len == 0 || len > INT_MAX || |s| < 4 + len then None
      else
        match Parse(s[4 + len..], n - 1)
        case None => None
        case Some((chunks, rest)) => Some(([s[4..4 + len]] + chunks, rest))
  }

  lemma ParseFrame(c: seq<byte>, tail: seq<byte>, n: nat)
    requires 0 < |c| <= INT_MAX
    ensures Parse(Frame(c) + tail, n + 1) ==
            match Parse(tail, n)
            case None => None
            case Some((chunks, rest)) => Some(([c] + chunks, rest))
  {
    var s := Frame(c) + tail;
    assert s[..4] == Word(|c|) && s[4..4 + |c|] == c && s[4 + |c|..] == tail;
    WordRoundTrip(|c|);
  }

  /** One frame taken off the front; an empty one stops the reader. */
  lemma ParseOne(c: seq<byte>, tail: seq<byte>)
    requires |c| <= INT_MAX
    ensures Parse(Frame(c) + tail, 1) == if c == [] then None else Some(([c], tail))
  {
    var s := Frame(c) + tail;
    if c == [] {
      assert s[..4] == Word(0);
      WordRoundTrip(0);
    } else {
      ParseFrame(c, tail, 0);
      assert [c] + [] == [c];
    }
  }

  /** Framing round trip: frames are read back exactly, whatever follows them on the stream. */
  lemma {:induction false} FramesRoundTrip(chunks: seq<seq<byte>>, rest: seq<byte>)
    requires forall c | c in chunks :: 0 < |c| <= INT_MAX
    ensures Parse(Frames(chunks) + rest, |chunks|) == Some((chunks, rest))
  {
    if chunks == [] {
      assert Frames(chunks) + rest == rest;
    } else {
      var c, tail := chunks[0], Frames(chunks[1..]) + rest;
      FramesRoundTrip(chunks[1..], rest);
      ParseFrame(c, tail, |chunks| - 1);
      assert Frames(chunks) + rest == Frame(c) + tail;
      assert [c] + chunks[1..] == chunks;
    }
  }
}
