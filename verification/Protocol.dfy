/** Two connected cards, each working through its own list of transfers. A move is one send or one receive
    on the socket; the moves of the two ends interleave in any order. */
module Protocol {
  import opened Bytes
  import opened Options
  import opened Wire

  /** One transfer as an endpoint's driver queues it: send these bytes, or receive that many. */
  datatype Job = Send(data: seq<byte>) | Receive(len: nat)

  /** Where an endpoint is within its current job.
      Sender: Start (ask for the length), AwaitRln, ReadLen (read the answer and compare), SendHead,
      SendBody (one frame in two writes).
      Receiver: Start (publish the length), AwaitSln, ReplyRln, ReplyLen, RecvHead, RecvBody.
      Refused: the peer's length was too small; the transfer was not started and never completes. */
  datatype Pc =
    | Start
    | AwaitRln | ReadLen | SendHead(sent: nat) | SendBody(sent: nat) | Refused
    | AwaitSln | ReplyRln | ReplyLen | RecvHead | RecvBody(n: nat)

  datatype Endpoint = Endpoint(
    op: nat,                  // jobs completed
    pc: Pc,
    lenAvail: nat,            // dma.config.len_avail
    got: seq<byte>,           // bytes of the current job received so far
    delivered: seq<seq<byte>> // what each completed Receive delivered
  )

  /** The result of a move: the endpoint after it, the bytes it consumed and those it wrote. */
  datatype Move = Move(e: Endpoint, consumed: nat, wrote: seq<byte>)

  function Done(e: Endpoint): Endpoint {
    e.(op := e.op + 1, pc := Start, got := [])
  }

  function DoneReceiving(e: Endpoint, got: seq<byte>): Endpoint {
    e.(op := e.op + 1, pc := Start, got := [], delivered := e.delivered + [got])
  }

  /** The next move of an endpoint given the bytes that have arrived; None when it must wait for more, or
      is finished. */
  function Next(p: nat, jobs: seq<Job>, e: Endpoint, inb: seq<byte>): (m: Option<Move>)
    requires p > 0
    ensures m.Some? ==> m.value.consumed <= |inb|
  {
    if e.op >= |jobs| then None else NextInJob(p, jobs[e.op], e, inb)
  }

  function NextInJob(p: nat, job: Job, e: Endpoint, inb: seq<byte>): (m: Option<Move>)
    requires p > 0
    ensures m.Some? ==> m.value.consumed <= |inb|
  {
    match job
    case Send(data) => NextOfSender(p, data, e, inb)
    case Receive(len) => NextOfReceiver(len, e, inb)
  }

  function NextOfSender(p: nat, data: seq<byte>, e: Endpoint, inb: seq<byte>): (m: Option<Move>)
    requires p > 0
    ensures m.Some? ==> m.value.consumed <= |inb|
  {
    match e.pc
    case Start => Some(Move(e.(pc := AwaitRln), 0, Word(REQ_SLN)))
    case AwaitRln =>
      if |inb| < 4 then None
      else
        var w := FromLe(inb[..4]);
        if w == REQ_RLN then Some(Move(e.(pc := ReadLen), 4, []))
        else if w == REQ_FAILURE then Some(Move(Compare(data, e), 4, []))
        else Some(Move(e, 4, []))
    case ReadLen =>
      if |inb| < 8 then None
      else Some(Move(Compare(data, e.(lenAvail := FromLe(inb[..8]))), 8, []))
    case SendHead(sent) =>
      // a page step of no bytes fails, which ends the run, and the interrupt completes the job
      if sent >= |data| then Some(Move(Done(e), 0, []))
      else Some(Move(e.(pc := SendBody(sent)), 0, Word(Min(p, |data| - sent))))
    case SendBody(sent) =>
      if sent >= |data| then None
      else
        var n := Min(p, |data| - sent);
        Some(Move(if sent + n == |data| then Done(e) else e.(pc := SendHead(sent + n)), 0, data[sent..sent + n]))
    case _ => None
  }

  /** The sender's test of the answer, of which it sees 32 bits. */
  function Compare(data: seq<byte>, e: Endpoint): Endpoint {
    e.(pc := if |data| <= e.lenAvail % U32 then SendHead(0) else Refused)
  }

  function NextOfReceiver(len: nat, e: Endpoint, inb: seq<byte>): (m: Option<Move>)
    ensures m.Some? ==> m.value.consumed <= |inb|
  {
    match e.pc
    case Start => Some(Move(e.(pc := AwaitSln, lenAvail := len), 0, []))
    case AwaitSln =>
      if |inb| < 4 then None
      else
        var w := FromLe(inb[..4]);
        if w == REQ_SLN then Some(Move(e.(pc := ReplyRln), 4, []))
        else if w == REQ_FAILURE then Some(Move(e.(pc := RecvHead), 4, []))
        else Some(Move(e, 4, []))
    case ReplyRln => Some(Move(e.(pc := ReplyLen), 0, Word(REQ_RLN)))
    case ReplyLen => Some(Move(e.(pc := RecvHead), 0, Long(e.lenAvail)))
    case RecvHead =>
      if |inb| < 4 then None
      else
        var n := FromLe(inb[..4]);
        if n == 0 then Some(Move(DoneReceiving(e, e.got), 4, []))
        else Some(Move(e.(pc := RecvBody(n)), 4, []))
    case RecvBody(n) =>
      if |inb| < n then None
      else
        var got := e.got + inb[..n];
        Some(Move(if |got| == len then DoneReceiving(e, got) else e.(pc := RecvHead, got := got), n, []))
    case _ => None
  }

  predicate JobsMatch(x: Job, y: Job) {
    match (x, y)
    case (Send(data), Receive(len)) => |data| == len < U32
    case (Receive(len), Send(data)) => |data| == len < U32
    case _ => false
  }

  /** Two lists of jobs that belong together: job i of one sends exactly as many bytes as job i of the
      other receives. */
  ghost predicate Matching(a: seq<Job>, b: seq<Job>) {
    |a| == |b| && forall i | 0 <= i < |a| :: JobsMatch(a[i], b[i])
  }

  /** A transfer of no bytes. */
  predicate Empty(job: Job) {
    match job
    case Send(data) => data == []
    case Receive(len) => len == 0
  }

  ghost predicate NoneEmpty(jobs: seq<Job>) {
    forall i | 0 <= i < |jobs| :: !Empty(jobs[i])
  }

  /** Lists that belong together and in which no transfer, except possibly the last, is empty. */
  ghost predicate Complementary(a: seq<Job>, b: seq<Job>) {
    |a| == |b| && forall i | 0 <= i < |a| :: JobsMatch(a[i], b[i]) && (Empty(a[i]) ==> i == |a| - 1)
  }

  /** A receiver of no bytes that waits for a frame: its run ends only after one. */
  predicate Stuck(peer: Job, pc: Pc) {
    peer.Send? && Empty(peer) && pc.RecvHead?
  }

  // ---- what an endpoint still has to write and to read ----

  /** Everything a job writes. */
  function Writes(p: nat, job: Job): (s: seq<byte>)
    requires p > 0
    ensures |s| > 0
  {
    match job
    case Send(data) => SenderMessages(data, p)
    case Receive(len) => ReceiverMessages(len)
  }

  function AllWrites(p: nat, jobs: seq<Job>, i: nat): seq<byte>
    requires p > 0
    decreases |jobs| - i
  {
    if i >= |jobs| then [] else Writes(p, jobs[i]) + AllWrites(p, jobs, i + 1)
  }

  function Paged(p: nat, data: seq<byte>): seq<byte>
    requires p > 0
  {
    Frames(Chunks(data, p))
  }

  /** The bytes an endpoint writes in its next move, and what remains of the job's output after it. */
  function Emits(p: nat, job: Job, pc: Pc): seq<byte>
    requires p > 0 && PcFits(job, pc)
  {
    match pc
    case Start => if job.Send? then Word(REQ_SLN) else []
    case SendHead(sent) => if job.data == [] then [] else Word(Min(p, |job.data| - sent))
    case SendBody(sent) => job.data[sent..sent + Min(p, |job.data| - sent)]
    case ReplyRln => Word(REQ_RLN)
    case ReplyLen => Long(job.len)
    case _ => []
  }

  function RestToWrite(p: nat, job: Job, pc: Pc): seq<byte>
    requires p > 0 && PcFits(job, pc)
  {
    match pc
    case Start => if job.Send? then Paged(p, job.data) else ReceiverMessages(job.len)
    case AwaitRln => Paged(p, job.data)
    case ReadLen => Paged(p, job.data)
    case SendHead(sent) =>
      var n := Min(p, |job.data| - sent);
      job.data[sent..sent + n] + Paged(p, job.data[sent + n..])
    case SendBody(sent) => Paged(p, job.data[sent + Min(p, |job.data| - sent)..])
    case AwaitSln => ReceiverMessages(job.len)
    case ReplyRln => Long(job.len)
    case _ => []
  }

  /** What an endpoint still writes in its current job. */
  function JobToWrite(p: nat, job: Job, pc: Pc): seq<byte>
    requires p > 0 && PcFits(job, pc)
  {
    Emits(p, job, pc) + RestToWrite(p, job, pc)
  }

  /** The message an endpoint reads in its next move when got bytes of its job have come in, given the job
      of its peer; and what remains to be read after it. */
  function Expects(p: nat, peer: Job, pc: Pc, got: nat): seq<byte>
    requires p > 0 && (peer.Send? ==> got <= |peer.data|)
  {
    match peer
    case Receive(len) =>
      if pc.AwaitRln? then Word(REQ_RLN) else if pc.ReadLen? then Long(len) else []
    case Send(data) =>
      if pc.AwaitSln? then Word(REQ_SLN)
      else if pc.RecvHead? then if data == [] then [] else Word(Min(p, |data| - got))
      else if pc.RecvBody? then data[got..got + Min(pc.n, |data| - got)]
      else []
  }

  function RestToRead(p: nat, peer: Job, pc: Pc, got: nat): seq<byte>
    requires p > 0 && (peer.Send? ==> got <= |peer.data|)
  {
    match peer
    case Receive(len) =>
      if pc.Start? then ReceiverMessages(len) else if pc.AwaitRln? then Long(len) else []
    case Send(data) =>
      if pc.Start? then SenderMessages(data, p)
      else if pc.RecvHead? then
        var n := Min(p, |data| - got);
        data[got..got + n] + Paged(p, data[got + n..])
      else if pc.RecvBody? then Paged(p, data[got + Min(pc.n, |data| - got)..])
      else Paged(p, data[got..])
  }

  /** What it still reads in its current job. */
  function JobToRead(p: nat, peer: Job, pc: Pc, got: nat): seq<byte>
    requires p > 0 && (peer.Send? ==> got <= |peer.data|)
  {
    Expects(p, peer, pc, got) + RestToRead(p, peer, pc, got)
  }

  predicate PcFits(job: Job, pc: Pc) {
    match job
    case Send(data) =>
      || pc.Start? || pc.AwaitRln? || pc.ReadLen?
      || (pc.SendHead? && (pc.sent < |data| || pc.sent == |data| == 0)) || (pc.SendBody? && pc.sent < |data|)
    case Receive(_) =>
      pc.Start? || pc.AwaitSln? || pc.ReplyRln? || pc.ReplyLen? || pc.RecvHead? || pc.RecvBody?
  }

  /** Within a job: the program counter fits it, a receiver that answers the peer answers with its own
      length, and what it has received so far is the beginning of what the peer sends. */
  ghost predicate JobSound(p: nat, job: Job, peer: Job, e: Endpoint)
    requires JobsMatch(job, peer)
  {
    && PcFits(job, e.pc)
    && (e.pc.AwaitSln? || e.pc.ReplyRln? || e.pc.ReplyLen? ==> e.lenAvail == job.len)
    && (e.pc.RecvHead? || e.pc.RecvBody? || e.got == [])
    && (peer.Send? ==>
          && |e.got| <= |peer.data| && e.got == peer.data[..|e.got|]
          && (|e.got| < |peer.data| || (Empty(peer) && !e.pc.RecvBody?))
          && (e.pc.RecvBody? ==> e.pc.n == Min(p, |peer.data| - |e.got|)))
  }

  /** Bytes sent by the peer's jobs before i, one entry a job. */
  function Deliveries(peer: seq<Job>, i: nat): seq<seq<byte>>
    requires i <= |peer|
  {
    if i == 0 then []
    else Deliveries(peer, i - 1) + if peer[i - 1].Send? then [peer[i - 1].data] else []
  }

  /** Besides, every completed job delivered what the peer sent. */
  ghost predicate Sound(p: nat, jobs: seq<Job>, peer: seq<Job>, e: Endpoint)
    requires Complementary(jobs, peer)
  {
    && e.op <= |jobs|
    && e.delivered == Deliveries(peer, e.op)
    && if e.op == |jobs| then e.pc.Start? && e.got == []
       else JobsMatch(jobs[e.op], peer[e.op]) && JobSound(p, jobs[e.op], peer[e.op], e)
  }

  ghost function ToWrite(p: nat, jobs: seq<Job>, peer: seq<Job>, e: Endpoint): seq<byte>
    requires p > 0 && Complementary(jobs, peer) && Sound(p, jobs, peer, e)
  {
    if e.op == |jobs| then [] else JobToWrite(p, jobs[e.op], e.pc) + AllWrites(p, jobs, e.op + 1)
  }

  ghost function ToRead(p: nat, jobs: seq<Job>, peer: seq<Job>, e: Endpoint): seq<byte>
    requires p > 0 && Complementary(jobs, peer) && Sound(p, jobs, peer, e)
  {
    if e.op == |jobs| then [] else JobToRead(p, peer[e.op], e.pc, |e.got|) + AllWrites(p, peer, e.op + 1)
  }

  // ---- one move, within its job ----

  /** A move that reads the expected message, writes the bytes that are next, and leaves exactly the rest
      of the job to do; or completes the job with nothing left. */
  ghost predicate JobMove(p: nat, job: Job, peer: Job, e: Endpoint, m: Move)
    requires p > 0 && JobsMatch(job, peer) && JobSound(p, job, peer, e)
  {
    && m.consumed == |Expects(p, peer, e.pc, |e.got|)|
    && m.wrote == Emits(p, job, e.pc)
    && (m.consumed + |m.wrote| > 0 || (e.pc.Start? && !m.e.pc.Start?) || m.e.op > e.op)
    && m.e.pc != e.pc
    && if m.e.op == e.op then
         && m.e.delivered == e.delivered
         && JobSound(p, job, peer, m.e)
         && JobToWrite(p, job, m.e.pc) == RestToWrite(p, job, e.pc)
         && JobToRead(p, peer, m.e.pc, |m.e.got|) == RestToRead(p, peer, e.pc, |e.got|)
       else
         && m.e.op == e.op + 1 && m.e.pc.Start? && m.e.got == []
         && m.e.delivered == e.delivered + (if peer.Send? then [peer.data] else [])
         && RestToWrite(p, job, e.pc) == [] && RestToRead(p, peer, e.pc, |e.got|) == []
  }

  /** Enough bytes for the next message have arrived, and they are that message. */
  ghost predicate Arrived(p: nat, job: Job, peer: Job, e: Endpoint, inb: seq<byte>)
    requires p > 0 && JobsMatch(job, peer) && JobSound(p, job, peer, e)
  {
    Expects(p, peer, e.pc, |e.got|) <= inb
  }

  lemma PagedStep(p: nat, data: seq<byte>, i: nat)
    requires p > 0 && i < |data|
    ensures var n := Min(p, |data| - i);
            Paged(p, data[i..]) == Word(n) + (data[i..i + n] + Paged(p, data[i + n..]))
  {
    var n := Min(p, |data| - i);
    ChunksStep(data[i..], p);
    hide Chunks, Frames, Word;
    assert data[i..][..n] == data[i..i + n] && data[i..][n..] == data[i + n..];
    Associative(Word(n), data[i..i + n], Paged(p, data[i + n..]));
  }

  lemma PagedNothing(p: nat, data: seq<byte>)
    requires p > 0
    ensures Paged(p, data[|data|..]) == []
  {
  }

  lemma StartMoves(p: nat, job: Job, peer: Job, e: Endpoint, inb: seq<byte>)
    requires 0 < p < U32 && JobsMatch(job, peer) && JobSound(p, job, peer, e) && Arrived(p, job, peer, e, inb)
    requires e.pc.Start?
    ensures NextInJob(p, job, e, inb).Some? && JobMove(p, job, peer, e, NextInJob(p, job, e, inb).value)
  {
    hide Chunks, Frames, Word, Long, FromLe;
    var data := if job.Send? then job.data else peer.data;
    assert data[0..] == data;
  }

  lemma AwaitRlnMoves(p: nat, job: Job, peer: Job, e: Endpoint, inb: seq<byte>)
    requires 0 < p < U32 && JobsMatch(job, peer) && JobSound(p, job, peer, e) && Arrived(p, job, peer, e, inb)
    requires e.pc.AwaitRln?
    ensures NextInJob(p, job, e, inb).Some? && JobMove(p, job, peer, e, NextInJob(p, job, e, inb).value)
  {
    hide Paged, Word, Long, FromLe;
    WordRoundTrip(REQ_RLN);
    assert inb[..4] == Word(REQ_RLN);
  }

  lemma ReadLenMoves(p: nat, job: Job, peer: Job, e: Endpoint, inb: seq<byte>)
    requires 0 < p < U32 && JobsMatch(job, peer) && JobSound(p, job, peer, e) && Arrived(p, job, peer, e, inb)
    requires e.pc.ReadLen?
    ensures NextInJob(p, job, e, inb).Some? && JobMove(p, job, peer, e, NextInJob(p, job, e, inb).value)
  {
    hide Paged, Word, Long, FromLe;
    LongRoundTrip(peer.len);
    assert inb[..8] == Long(peer.len);
    assert job.data[0..] == job.data;
    if job.data != [] {
      PagedStep(p, job.data, 0);
    } else {
      PagedNothing(p, job.data);
    }
  }

  lemma SendNothingMoves(p: nat, job: Job, peer: Job, e: Endpoint, inb: seq<byte>)
    requires 0 < p < U32 && JobsMatch(job, peer) && JobSound(p, job, peer, e) && Arrived(p, job, peer, e, inb)
    requires e.pc.SendHead? && Empty(job)
    ensures NextInJob(p, job, e, inb) == Some(Move(Done(e), 0, []))
    ensures JobMove(p, job, peer, e, Move(Done(e), 0, []))
  {
    PagedNothing(p, job.data);
    hide Paged, Word, Long, FromLe;
    assert job.data == [] && job.data[0..0] == [];
  }

  lemma SendHeadMoves(p: nat, job: Job, peer: Job, e: Endpoint, inb: seq<byte>)
    requires 0 < p < U32 && JobsMatch(job, peer) && JobSound(p, job, peer, e) && Arrived(p, job, peer, e, inb)
    requires e.pc.SendHead? && !Empty(job)
    ensures NextInJob(p, job, e, inb).Some? && JobMove(p, job, peer, e, NextInJob(p, job, e, inb).value)
  {
    hide Paged, Word, Long, FromLe;
  }

  lemma SendLastBodyMoves(p: nat, job: Job, peer: Job, e: Endpoint, inb: seq<byte>)
    requires 0 < p < U32 && JobsMatch(job, peer) && JobSound(p, job, peer, e) && Arrived(p, job, peer, e, inb)
    requires e.pc.SendBody? && e.pc.sent + p >= |job.data|
    ensures NextInJob(p, job, e, inb).Some? && JobMove(p, job, peer, e, NextInJob(p, job, e, inb).value)
  {
    hide Paged, Word, Long, FromLe;
    PagedNothing(p, job.data);
  }

  lemma SendBodyMoves(p: nat, job: Job, peer: Job, e: Endpoint, inb: seq<byte>)
    requires 0 < p < U32 && JobsMatch(job, peer) && JobSound(p, job, peer, e) && Arrived(p, job, peer, e, inb)
    requires e.pc.SendBody? && e.pc.sent + p < |job.data|
    ensures NextInJob(p, job, e, inb).Some? && JobMove(p, job, peer, e, NextInJob(p, job, e, inb).value)
  {
    hide Paged, Word, Long, FromLe;
    PagedStep(p, job.data, e.pc.sent + p);
    var m := Move(e.(pc := SendHead(e.pc.sent + p)), 0, job.data[e.pc.sent..e.pc.sent + p]);
    assert NextInJob(p, job, e, inb) == Some(m);
    hide NextInJob;
    assert JobToWrite(p, job, m.e.pc) == RestToWrite(p, job, e.pc);
    hide RestToWrite, JobToWrite, Arrived;
  }

  lemma AwaitSlnMoves(p: nat, job: Job, peer: Job, e: Endpoint, inb: seq<byte>)
    requires 0 < p < U32 && JobsMatch(job, peer) && JobSound(p, job, peer, e) && Arrived(p, job, peer, e, inb)
    requires e.pc.AwaitSln?
    ensures NextInJob(p, job, e, inb).Some? && JobMove(p, job, peer, e, NextInJob(p, job, e, inb).value)
  {
    hide Paged, Word, Long, FromLe;
    WordRoundTrip(REQ_SLN);
    assert inb[..4] == Word(REQ_SLN);
  }

  lemma ReplyMoves(p: nat, job: Job, peer: Job, e: Endpoint, inb: seq<byte>)
    requires 0 < p < U32 && JobsMatch(job, peer) && JobSound(p, job, peer, e) && Arrived(p, job, peer, e, inb)
    requires e.pc.ReplyRln? || e.pc.ReplyLen?
    ensures NextInJob(p, job, e, inb).Some? && JobMove(p, job, peer, e, NextInJob(p, job, e, inb).value)
  {
    hide Paged, Word, Long, FromLe;
    if Empty(peer) {
      PagedNothing(p, peer.data);
    } else {
      PagedStep(p, peer.data, |e.got|);
    }
  }

  lemma RecvHeadMoves(p: nat, job: Job, peer: Job, e: Endpoint, inb: seq<byte>)
    requires 0 < p < U32 && JobsMatch(job, peer) && JobSound(p, job, peer, e) && Arrived(p, job, peer, e, inb)
    requires e.pc.RecvHead? && !Stuck(peer, e.pc)
    ensures NextInJob(p, job, e, inb).Some? && JobMove(p, job, peer, e, NextInJob(p, job, e, inb).value)
  {
    hide Paged, Word, Long, FromLe;
    var n := Min(p, |peer.data| - |e.got|);
    WordRoundTrip(n);
    assert inb[..4] == Word(n);
  }

  /** The bytes received after reading a frame are again the beginning of what the peer sends. */
  lemma PrefixGrows(data: seq<byte>, inb: seq<byte>, got: nat, n: nat)
    requires got + n <= |data| && data[got..got + n] <= inb
    ensures n <= |inb| && data[..got] + inb[..n] == data[..got + n]
    ensures got + n == |data| ==> data[..got] + inb[..n] == data
  {
    assert inb[..n] == data[got..got + n];
  }

  lemma RecvLastBodyMoves(p: nat, job: Job, peer: Job, e: Endpoint, inb: seq<byte>)
    requires 0 < p < U32 && JobsMatch(job, peer) && JobSound(p, job, peer, e) && Arrived(p, job, peer, e, inb)
    requires e.pc.RecvBody? && |e.got| + e.pc.n == |peer.data|
    ensures NextInJob(p, job, e, inb).Some? && JobMove(p, job, peer, e, NextInJob(p, job, e, inb).value)
  {
    hide Paged, Word, Long, FromLe;
    PrefixGrows(peer.data, inb, |e.got|, e.pc.n);
    PagedNothing(p, peer.data);
  }

  lemma RecvBodyMoves(p: nat, job: Job, peer: Job, e: Endpoint, inb: seq<byte>)
    requires 0 < p < U32 && JobsMatch(job, peer) && JobSound(p, job, peer, e) && Arrived(p, job, peer, e, inb)
    requires e.pc.RecvBody? && |e.got| + e.pc.n < |peer.data|
    ensures NextInJob(p, job, e, inb).Some? && JobMove(p, job, peer, e, NextInJob(p, job, e, inb).value)
  {
    hide Paged, Word, Long, FromLe;
    PrefixGrows(peer.data, inb, |e.got|, e.pc.n);
    PagedStep(p, peer.data, |e.got| + e.pc.n);
    var got := e.got + inb[..e.pc.n];
    assert got == peer.data[..|e.got| + e.pc.n] && |got| == |e.got| + e.pc.n;
    var m := Move(e.(pc := RecvHead, got := got), e.pc.n, []);
    assert NextInJob(p, job, e, inb) == Some(m);
    hide NextInJob;
    assert JobToRead(p, peer, m.e.pc, |m.e.got|) == RestToRead(p, peer, e.pc, |e.got|);
    hide RestToRead, JobToRead, Arrived;
  }

  lemma JobMoves(p: nat, job: Job, peer: Job, e: Endpoint, inb: seq<byte>)
    requires 0 < p < U32 && JobsMatch(job, peer) && JobSound(p, job, peer, e) && Arrived(p, job, peer, e, inb)
    requires !Stuck(peer, e.pc)
    ensures NextInJob(p, job, e, inb).Some? && JobMove(p, job, peer, e, NextInJob(p, job, e, inb).value)
  {
    match e.pc
    case Start => StartMoves(p, job, peer, e, inb);
    case AwaitRln => AwaitRlnMoves(p, job, peer, e, inb);
    case ReadLen => ReadLenMoves(p, job, peer, e, inb);
    case SendHead(_) =>
      if Empty(job) {
        SendNothingMoves(p, job, peer, e, inb);
      } else {
        SendHeadMoves(p, job, peer, e, inb);
      }
    case SendBody(sent) =>
      if sent + p >= |job.data| {
        SendLastBodyMoves(p, job, peer, e, inb);
      } else {
        SendBodyMoves(p, job, peer, e, inb);
      }
    case AwaitSln => AwaitSlnMoves(p, job, peer, e, inb);
    case ReplyRln => ReplyMoves(p, job, peer, e, inb);
    case ReplyLen => ReplyMoves(p, job, peer, e, inb);
    case RecvHead => RecvHeadMoves(p, job, peer, e, inb);
    case RecvBody(n) =>
      if |e.got| + n == |peer.data| {
        RecvLastBodyMoves(p, job, peer, e, inb);
      } else {
        RecvBodyMoves(p, job, peer, e, inb);
      }
  }

  /** Short of the next message an endpoint waits. */
  lemma JobWaits(p: nat, job: Job, peer: Job, e: Endpoint, inb: seq<byte>)
    requires 0 < p < U32 && JobsMatch(job, peer) && JobSound(p, job, peer, e)
    ensures NextInJob(p, job, e, inb).Some? ==> |inb| >= |Expects(p, peer, e.pc, |e.got|)|
  {
  }

  // ---- one job from start to end ----

  /** The endpoint after n moves in a job, what is left of the bytes that had arrived, and what it wrote. */
  function RunJob(p: nat, job: Job, e: Endpoint, inb: seq<byte>, n: nat): Option<(Endpoint, seq<byte>, seq<byte>)>
    requires p > 0
    decreases n
  {
    if n == 0 then Some((e, inb, []))
    else
      match NextInJob(p, job, e, inb)
      case None => None
      case Some(m) =>
        match RunJob(p, job, m.e, inb[m.consumed..], n - 1)
        case None => None
        case Some((e', rest, wrote)) => Some((e', rest, m.wrote + wrote))
  }

  lemma RunJobStep(p: nat, job: Job, e: Endpoint, inb: seq<byte>, n: nat, m: Move, wrote: seq<byte>,
                   e': Endpoint, rest: seq<byte>)
    requires p > 0 && NextInJob(p, job, e, inb) == Some(m)
    requires RunJob(p, job, m.e, inb[m.consumed..], n) == Some((e', rest, wrote))
    ensures RunJob(p, job, e, inb, n + 1) == Some((e', rest, m.wrote + wrote))
  {
  }

  /** With all its input there, an endpoint's moves take exactly what was due to be read in the job, write
      exactly what was due to be written, and complete it. */
  lemma {:induction false} JobAlone(p: nat, job: Job, peer: Job, e: Endpoint, inb: seq<byte>, later: seq<byte>)
    returns (n: nat, e': Endpoint)
    requires 0 < p < U32 && JobsMatch(job, peer) && JobSound(p, job, peer, e)
    requires inb == JobToRead(p, peer, e.pc, |e.got|) + later && (Empty(job) ==> job.Send?)
    ensures RunJob(p, job, e, inb, n) == Some((e', later, JobToWrite(p, job, e.pc)))
    ensures e'.op == e.op + 1 && e'.pc.Start?
    ensures e'.delivered == e.delivered + (if peer.Send? then [peer.data] else [])
    decreases |JobToRead(p, peer, e.pc, |e.got|)| + |JobToWrite(p, job, e.pc)|, if e.pc.Start? then 1 else 0
  {
    hide NextInJob, RunJob, Emits, RestToWrite, Expects, RestToRead;
    var w, r := Expects(p, peer, e.pc, |e.got|), RestToRead(p, peer, e.pc, |e.got|);
    assert inb == w + (r + later);
    JobMoves(p, job, peer, e, inb);
    var m := NextInJob(p, job, e, inb).value;
    assert inb[m.consumed..] == r + later;
    var k := 0;
    if m.e.op == e.op {
      k, e' := JobAlone(p, job, peer, m.e, inb[m.consumed..], later);
      RunJobStep(p, job, e, inb, k, m, JobToWrite(p, job, m.e.pc), e', later);
    } else {
      e' := m.e;
      assert RunJob(p, job, m.e, later, 0) == Some((m.e, later, [])) by { RunNothing(p, job, m.e, later); }
      RunJobStep(p, job, e, inb, 0, m, [], e', later);
      assert m.wrote + [] == JobToWrite(p, job, e.pc);
    }
    n := k + 1;
  }

  lemma RunNothing(p: nat, job: Job, e: Endpoint, inb: seq<byte>)
    requires p > 0
    ensures RunJob(p, job, e, inb, 0) == Some((e, inb, []))
  {
  }

  // ---- one move, among all jobs ----

  /** An endpoint whose stream holds, together with what is still coming, exactly what it is due to read. */
  ghost predicate Due(p: nat, jobs: seq<Job>, peer: seq<Job>, e: Endpoint, inb: seq<byte>, coming: seq<byte>) {
    && 0 < p < U32 && Complementary(jobs, peer) && Sound(p, jobs, peer, e)
    && inb + coming == ToRead(p, jobs, peer, e)
  }

  /** Remaining work: two for every byte still to be written or read and for every job still to be
      completed, one for a job not started. */
  ghost function Work(p: nat, jobs: seq<Job>, peer: seq<Job>, e: Endpoint): nat
    requires p > 0 && Complementary(jobs, peer) && Sound(p, jobs, peer, e)
  {
    2 * (|ToWrite(p, jobs, peer, e)| + |ToRead(p, jobs, peer, e)| + (|jobs| - e.op))
    + if e.pc.Start? && e.op < |jobs| then 1 else 0
  }

  /** The endpoint stays sound, writes the next bytes it owes, reads the next bytes it is due, and gets on. */
  ghost predicate GoodMove(p: nat, jobs: seq<Job>, peer: seq<Job>, e: Endpoint, inb: seq<byte>, coming: seq<byte>,
                           m: Move)
    requires Due(p, jobs, peer, e, inb, coming) && m.consumed <= |inb|
  {
    && Sound(p, jobs, peer, m.e)
    && ToWrite(p, jobs, peer, e) == m.wrote + ToWrite(p, jobs, peer, m.e)
    && inb[m.consumed..] + coming == ToRead(p, jobs, peer, m.e)
    && Work(p, jobs, peer, m.e) < Work(p, jobs, peer, e)
    && m.e.pc != e.pc
  }

  lemma AtStart(p: nat, jobs: seq<Job>, peer: seq<Job>, e: Endpoint)
    requires p > 0 && Complementary(jobs, peer) && Sound(p, jobs, peer, e) && e.pc.Start?
    ensures ToWrite(p, jobs, peer, e) == AllWrites(p, jobs, e.op)
    ensures ToRead(p, jobs, peer, e) == AllWrites(p, peer, e.op)
  {
    hide JobToWrite, JobToRead, Writes, AllWrites, Complementary, Sound, JobSound, JobsMatch;
    SoundParts(p, jobs, peer, e);
    AllWritesHere(p, jobs, e.op);
    AllWritesHere(p, peer, e.op);
    if e.op < |jobs| {
      JobAtStart(p, jobs[e.op]);
      JobAtStart(p, peer[e.op]);
      NothingGot(p, jobs[e.op], peer[e.op], e);
    }
  }

  lemma AllWritesHere(p: nat, jobs: seq<Job>, i: nat)
    requires p > 0
    ensures AllWrites(p, jobs, i) == if i < |jobs| then Writes(p, jobs[i]) + AllWrites(p, jobs, i + 1) else []
  {
    hide Writes;
  }

  lemma NothingGot(p: nat, job: Job, peer: Job, e: Endpoint)
    requires JobsMatch(job, peer) && JobSound(p, job, peer, e) && e.pc.Start?
    ensures e.got == []
  {
  }

  lemma JobAtStart(p: nat, job: Job)
    requires p > 0
    ensures JobToWrite(p, job, Start) == Writes(p, job) == JobToRead(p, job, Start, 0)
  {
    hide Frames, Chunks;
  }

  /** What has arrived of the next message is part of it; once all of it is there, the rest is what comes
      after it. */
  lemma NextMessage(p: nat, jobs: seq<Job>, peer: seq<Job>, e: Endpoint, inb: seq<byte>, coming: seq<byte>)
    requires Due(p, jobs, peer, e, inb, coming) && e.op < |jobs|
    requires |inb| >= |Expects(p, peer[e.op], e.pc, |e.got|)|
    ensures Arrived(p, jobs[e.op], peer[e.op], e, inb)
    ensures inb[|Expects(p, peer[e.op], e.pc, |e.got|)|..] + coming ==
            RestToRead(p, peer[e.op], e.pc, |e.got|) + AllWrites(p, peer, e.op + 1)
  {
    assert |peer| == |jobs|;
    hide AllWrites, Complementary, Deliveries, Paged, Word, Long, SenderMessages, ReceiverMessages;
    SplitThree(inb, coming, Expects(p, peer[e.op], e.pc, |e.got|), RestToRead(p, peer[e.op], e.pc, |e.got|),
               AllWrites(p, peer, e.op + 1));
  }

  lemma SplitThree(arrived: seq<byte>, coming: seq<byte>, w: seq<byte>, r: seq<byte>, later: seq<byte>)
    requires arrived + coming == (w + r) + later && |arrived| >= |w|
    ensures w <= arrived && arrived[|w|..] + coming == r + later
  {
    assert (w + r) + later == w + (r + later);
    SplitPrefix(arrived, coming, w, r + later);
  }

  lemma StaysSound(p: nat, jobs: seq<Job>, peer: seq<Job>, e: Endpoint, m: Move)
    requires p > 0 && Complementary(jobs, peer) && Sound(p, jobs, peer, e) && e.op < |jobs|
    requires JobMove(p, jobs[e.op], peer[e.op], e, m)
    ensures Sound(p, jobs, peer, m.e)
    ensures ToWrite(p, jobs, peer, m.e) == RestToWrite(p, jobs[e.op], e.pc) + AllWrites(p, jobs, e.op + 1)
    ensures ToRead(p, jobs, peer, m.e) == RestToRead(p, peer[e.op], e.pc, |e.got|) + AllWrites(p, peer, e.op + 1)
  {
    hide JobToRead, JobToWrite, RestToRead, RestToWrite, Emits, Expects, AllWrites, Complementary, Deliveries, JobSound;
    hide JobsMatch;
    if m.e.op == e.op + 1 {
      DoneSound(p, jobs, peer, e, m.e);
      AtStart(p, jobs, peer, m.e);
    } else {
      assert m.e.op == e.op && Sound(p, jobs, peer, m.e);
    }
  }

  lemma DoneSound(p: nat, jobs: seq<Job>, peer: seq<Job>, e: Endpoint, e': Endpoint)
    requires p > 0 && Complementary(jobs, peer) && Sound(p, jobs, peer, e) && e.op < |jobs|
    requires e'.op == e.op + 1 && e'.pc.Start? && e'.got == []
    requires e'.delivered == e.delivered + (if peer[e.op].Send? then [peer[e.op].data] else [])
    ensures Sound(p, jobs, peer, e')
  {
    assert e'.op < |jobs| ==> JobsMatch(jobs[e'.op], peer[e'.op]);
    hide Complementary;
  }

  /** A stuck endpoint has nothing to read: no frame comes in an empty transfer, and none after it. */
  lemma NotStuck(p: nat, jobs: seq<Job>, peer: seq<Job>, e: Endpoint, inb: seq<byte>, coming: seq<byte>)
    requires Due(p, jobs, peer, e, inb, coming) && e.op < |jobs|
    ensures Stuck(peer[e.op], e.pc) ==> Empty(jobs[e.op]) && inb == [] && Next(p, jobs, e, inb) == None
  {
    if Stuck(peer[e.op], e.pc) {
      assert JobsMatch(jobs[e.op], peer[e.op]);
      assert e.op == |jobs| - 1 && AllWrites(p, peer, e.op + 1) == [];
      PagedNothing(p, peer[e.op].data);
      assert |e.got| == 0;
      assert JobToRead(p, peer[e.op], e.pc, |e.got|) == [];
      assert inb + coming == [];
    }
  }

  /** Every move an endpoint can make is a good one. */
  lemma MovesAreGood(p: nat, jobs: seq<Job>, peer: seq<Job>, e: Endpoint, inb: seq<byte>, coming: seq<byte>)
    requires Due(p, jobs, peer, e, inb, coming) && Next(p, jobs, e, inb).Some?
    ensures GoodMove(p, jobs, peer, e, inb, coming, Next(p, jobs, e, inb).value)
  {
    var job, pj := jobs[e.op], peer[e.op];
    NotStuck(p, jobs, peer, e, inb, coming);
    JobWaits(p, job, pj, e, inb);
    NextMessage(p, jobs, peer, e, inb, coming);
    JobMoves(p, job, pj, e, inb);
    StaysSound(p, jobs, peer, e, Next(p, jobs, e, inb).value);
    GoodIfRest(p, jobs, peer, e, inb, coming, Next(p, jobs, e, inb).value);
  }

  lemma GoodIfRest(p: nat, jobs: seq<Job>, peer: seq<Job>, e: Endpoint, inb: seq<byte>, coming: seq<byte>, m: Move)
    requires Due(p, jobs, peer, e, inb, coming) && e.op < |jobs| && m.consumed <= |inb|
    requires JobMove(p, jobs[e.op], peer[e.op], e, m) && Sound(p, jobs, peer, m.e)
    requires ToWrite(p, jobs, peer, m.e) == RestToWrite(p, jobs[e.op], e.pc) + AllWrites(p, jobs, e.op + 1)
    requires ToRead(p, jobs, peer, m.e) == RestToRead(p, peer[e.op], e.pc, |e.got|) + AllWrites(p, peer, e.op + 1)
    requires inb[m.consumed..] + coming == ToRead(p, jobs, peer, m.e)
    ensures GoodMove(p, jobs, peer, e, inb, coming, m)
  {
    hide Emits, RestToWrite, Expects, RestToRead, AllWrites, Complementary, JobSound, Deliveries;
    assert ToWrite(p, jobs, peer, e) == m.wrote + ToWrite(p, jobs, peer, m.e);
    assert |ToRead(p, jobs, peer, e)| == m.consumed + |ToRead(p, jobs, peer, m.e)|;
  }

  /** And it can move as soon as its next message is there. */
  lemma CanMove(p: nat, jobs: seq<Job>, peer: seq<Job>, e: Endpoint, inb: seq<byte>, coming: seq<byte>)
    requires Due(p, jobs, peer, e, inb, coming) && e.op < |jobs| && !Empty(jobs[e.op])
    ensures Next(p, jobs, e, inb).Some? <==> |inb| >= |Expects(p, peer[e.op], e.pc, |e.got|)|
  {
    JobWaits(p, jobs[e.op], peer[e.op], e, inb);
    if |inb| >= |Expects(p, peer[e.op], e.pc, |e.got|)| {
      NextMessage(p, jobs, peer, e, inb, coming);
      JobMoves(p, jobs[e.op], peer[e.op], e, inb);
    }
  }

  // ---- the two endpoints together ----

  /** Both endpoints, and the bytes under way from a to b and from b to a. */
  datatype Link = Link(a: Endpoint, b: Endpoint, ab: seq<byte>, ba: seq<byte>)

  const FRESH := Endpoint(0, Start, 0, [], [])

  ghost predicate Init(s: Link) {
    s == Link(FRESH, FRESH, [], [])
  }

  /** Either endpoint makes a move: it takes bytes off the stream towards it and puts bytes on the other. */
  ghost predicate StepA(p: nat, ja: seq<Job>, s: Link, s': Link)
    requires p > 0
  {
    var m := Next(p, ja, s.a, s.ba);
    m.Some? && s' == Link(m.value.e, s.b, s.ab + m.value.wrote, s.ba[m.value.consumed..])
  }

  ghost predicate StepB(p: nat, jb: seq<Job>, s: Link, s': Link)
    requires p > 0
  {
    var m := Next(p, jb, s.b, s.ab);
    m.Some? && s' == Link(s.a, m.value.e, s.ab[m.value.consumed..], s.ba + m.value.wrote)
  }

  ghost predicate Step(p: nat, ja: seq<Job>, jb: seq<Job>, s: Link, s': Link)
    requires p > 0
  {
    StepA(p, ja, s, s') || StepB(p, jb, s, s')
  }

  /** Each stream holds exactly what its reader is due and its writer has already written. */
  ghost predicate Inv(p: nat, ja: seq<Job>, jb: seq<Job>, s: Link) {
    && 0 < p < U32 && Complementary(ja, jb) && Complementary(jb, ja)
    && Sound(p, ja, jb, s.a) && Sound(p, jb, ja, s.b)
    && s.ab + ToWrite(p, ja, jb, s.a) == ToRead(p, jb, ja, s.b)
    && s.ba + ToWrite(p, jb, ja, s.b) == ToRead(p, ja, jb, s.a)
  }

  lemma ComplementarySymmetric(a: seq<Job>, b: seq<Job>)
    requires Complementary(a, b)
    ensures Complementary(b, a)
  {
    forall i | 0 <= i < |b|
      ensures JobsMatch(b[i], a[i]) && (Empty(b[i]) ==> i == |b| - 1)
    {
      assert JobsMatch(a[i], b[i]);
      assert Empty(b[i]) ==> Empty(a[i]);
    }
  }

  lemma InitInv(p: nat, ja: seq<Job>, jb: seq<Job>, s: Link)
    requires 0 < p < U32 && Complementary(ja, jb) && Init(s)
    ensures Inv(p, ja, jb, s)
  {
    ComplementarySymmetric(ja, jb);
    assert 0 < |ja| ==> JobsMatch(ja[0], jb[0]) && JobsMatch(jb[0], ja[0]);
    AtStart(p, ja, jb, s.a);
    AtStart(p, jb, ja, s.b);
  }

  ghost function TotalWork(p: nat, ja: seq<Job>, jb: seq<Job>, s: Link): nat
    requires Inv(p, ja, jb, s)
  {
    Work(p, ja, jb, s.a) + Work(p, jb, ja, s.b)
  }

  /** Exchange of the two endpoints' names. */
  function Swap(s: Link): Link {
    Link(s.b, s.a, s.ba, s.ab)
  }

  lemma StepAInv(p: nat, ja: seq<Job>, jb: seq<Job>, s: Link, s': Link)
    requires Inv(p, ja, jb, s) && StepA(p, ja, s, s')
    ensures Inv(p, ja, jb, s') && TotalWork(p, ja, jb, s') < TotalWork(p, ja, jb, s)
    ensures s'.a.pc != s.a.pc
  {
    hide ToRead, ToWrite, Next, Sound, Complementary, Work;
    var m := Next(p, ja, s.a, s.ba).value;
    MovesAreGood(p, ja, jb, s.a, s.ba, ToWrite(p, jb, ja, s.b));
    Associative(s.ab, m.wrote, ToWrite(p, ja, jb, m.e));
  }

  lemma StepBInv(p: nat, ja: seq<Job>, jb: seq<Job>, s: Link, s': Link)
    requires Inv(p, ja, jb, s) && StepB(p, jb, s, s')
    ensures Inv(p, ja, jb, s') && TotalWork(p, ja, jb, s') < TotalWork(p, ja, jb, s)
    ensures s'.b.pc != s.b.pc
  {
    hide ToRead, ToWrite, Next, Sound, Complementary, Work;
    StepAInv(p, jb, ja, Swap(s), Swap(s'));
  }

  /** Every step keeps the invariant, finishes a part of the work, and changes the program counter of the
      endpoint that moved: in particular no request is read and thrown away. */
  lemma StepInv(p: nat, ja: seq<Job>, jb: seq<Job>, s: Link, s': Link)
    requires Inv(p, ja, jb, s) && Step(p, ja, jb, s, s')
    ensures Inv(p, ja, jb, s') && TotalWork(p, ja, jb, s') < TotalWork(p, ja, jb, s)
    ensures s'.a.pc != s.a.pc || s'.b.pc != s.b.pc
  {
    assert p > 0;
    hide Inv, TotalWork, StepA, StepB;
    if StepA(p, ja, s, s') {
      StepAInv(p, ja, jb, s, s');
    } else {
      StepBInv(p, ja, jb, s, s');
    }
  }

  // ---- progress ----

  lemma {:induction false} AllWritesShrinks(p: nat, jobs: seq<Job>, i: nat, k: nat)
    requires p > 0 && i <= k
    ensures |AllWrites(p, jobs, k)| <= |AllWrites(p, jobs, i)|
    ensures i < k && i < |jobs| ==> |AllWrites(p, jobs, k)| < |AllWrites(p, jobs, i)|
    decreases k - i
  {
    if i < k { AllWritesShrinks(p, jobs, i + 1, k); }
  }

  lemma SoundParts(p: nat, jobs: seq<Job>, peer: seq<Job>, e: Endpoint)
    requires p > 0 && Complementary(jobs, peer) && Sound(p, jobs, peer, e)
    ensures e.op <= |jobs| == |peer|
    ensures e.op < |jobs| ==> JobsMatch(jobs[e.op], peer[e.op]) && JobSound(p, jobs[e.op], peer[e.op], e)
    ensures e.op == |jobs| ==> ToWrite(p, jobs, peer, e) == [] && ToRead(p, jobs, peer, e) == []
  {
  }

  lemma AllWritesStep(p: nat, jobs: seq<Job>, i: nat)
    requires p > 0 && i < |jobs|
    ensures |AllWrites(p, jobs, i)| == |Writes(p, jobs[i])| + |AllWrites(p, jobs, i + 1)|
  {
    hide Writes;
  }

  lemma ReadParts(p: nat, jobs: seq<Job>, peer: seq<Job>, e: Endpoint)
    requires p > 0 && Complementary(jobs, peer) && Sound(p, jobs, peer, e) && e.op < |jobs|
    ensures |ToRead(p, jobs, peer, e)| == |JobToRead(p, peer[e.op], e.pc, |e.got|)| + |AllWrites(p, peer, e.op + 1)|
    ensures |JobToRead(p, peer[e.op], e.pc, |e.got|)| ==
            |Expects(p, peer[e.op], e.pc, |e.got|)| + |RestToRead(p, peer[e.op], e.pc, |e.got|)|
  {
    hide Expects, RestToRead, AllWrites, Deliveries;
  }

  lemma WriteParts(p: nat, jobs: seq<Job>, peer: seq<Job>, e: Endpoint)
    requires p > 0 && Complementary(jobs, peer) && Sound(p, jobs, peer, e) && e.op < |jobs|
    ensures |ToWrite(p, jobs, peer, e)| == |JobToWrite(p, jobs[e.op], e.pc)| + |AllWrites(p, jobs, e.op + 1)|
  {
    hide JobToWrite, AllWrites, Deliveries, JobSound;
  }

  /** Nothing can be read before it is written: an endpoint is at most one job ahead of its peer. */
  lemma AtMostOneAhead(p: nat, ja: seq<Job>, jb: seq<Job>, s: Link)
    requires Inv(p, ja, jb, s)
    ensures s.a.op <= s.b.op + 1 && s.b.op <= s.a.op + 1
  {
    NotFarBehind(p, ja, jb, s.a, s.b);
    NotFarBehind(p, jb, ja, s.b, s.a);
  }

  /** a still has to read no less than b still has to write; so a cannot be two jobs ahead. */
  lemma NotFarBehind(p: nat, ja: seq<Job>, jb: seq<Job>, a: Endpoint, b: Endpoint)
    requires p > 0 && Complementary(ja, jb) && Complementary(jb, ja) && Sound(p, ja, jb, a) && Sound(p, jb, ja, b)
    requires |ToWrite(p, jb, ja, b)| <= |ToRead(p, ja, jb, a)|
    ensures a.op <= b.op + 1
  {
    hide ToRead, ToWrite, Sound, Complementary, AllWrites;
    if a.op > b.op + 1 {
      ReadAtMost(p, ja, jb, a);
      WriteAtLeast(p, jb, ja, b);
      AllWritesShrinks(p, jb, b.op + 1, a.op);
    }
  }

  lemma WriteAtLeast(p: nat, jobs: seq<Job>, peer: seq<Job>, e: Endpoint)
    requires p > 0 && Complementary(jobs, peer) && Sound(p, jobs, peer, e)
    ensures |ToWrite(p, jobs, peer, e)| >= |AllWrites(p, jobs, e.op + 1)|
  {
    hide JobToWrite, JobSound, Complementary, Deliveries;
  }

  lemma ReadAtMost(p: nat, jobs: seq<Job>, peer: seq<Job>, e: Endpoint)
    requires p > 0 && Complementary(jobs, peer) && Sound(p, jobs, peer, e)
    ensures |ToRead(p, jobs, peer, e)| <= |AllWrites(p, peer, e.op)| && e.op <= |peer|
  {
    hide *;
    SoundParts(p, jobs, peer, e);
    if e.op < |jobs| {
      AllWritesStep(p, peer, e.op);
      ReadParts(p, jobs, peer, e);
      JobReadAtMost(p, jobs[e.op], peer[e.op], e);
    }
  }

  lemma JobReadAtMost(p: nat, job: Job, peer: Job, e: Endpoint)
    requires p > 0 && JobsMatch(job, peer) && JobSound(p, job, peer, e)
    ensures |JobToRead(p, peer, e.pc, |e.got|)| <= |Writes(p, peer)|
  {
    hide Word, Long;
    if e.pc.RecvHead? || e.pc.RecvBody? {
      ReceivingReadAtMost(p, job, peer, e);
    } else if peer.Send? {
      assert peer.data[0..] == peer.data;
      hide Frames, Chunks;
    }
  }

  lemma ReceivingReadAtMost(p: nat, job: Job, peer: Job, e: Endpoint)
    requires p > 0 && JobsMatch(job, peer) && JobSound(p, job, peer, e) && (e.pc.RecvHead? || e.pc.RecvBody?)
    ensures |JobToRead(p, peer, e.pc, |e.got|)| <= |Writes(p, peer)|
  {
    hide Frames, Chunks, Word;
    var data, got := peer.data, |e.got|;
    assert data[0..] == data;
    assert |Writes(p, peer)| == 4 + |Paged(p, data)|;
    if data == [] {
      PagedNothing(p, data);
    } else {
      hide Paged, Writes;
      PagedShrinks(p, data, 0, got);
      PagedStep(p, data, got);
    }
  }

  function PagedLength(p: nat, n: nat): nat
    requires p > 0
  {
    if n == 0 then 0 else if n <= p then 4 + n else 4 + p + PagedLength(p, n - p)
  }

  lemma {:induction false} PagedHasLength(p: nat, data: seq<byte>)
    requires p > 0
    ensures |Paged(p, data)| == PagedLength(p, |data|)
    decreases |data|
  {
    if data != [] {
      ChunksStep(data, p);
      PagedHasLength(p, data[Min(p, |data|)..]);
    }
  }

  lemma {:induction false} PagedLengthGrows(p: nat, m: nat, n: nat)
    requires p > 0 && m <= n
    ensures PagedLength(p, m) <= PagedLength(p, n)
  {
    if m > p { PagedLengthGrows(p, m - p, n - p); }
  }

  lemma PagedShrinks(p: nat, data: seq<byte>, i: nat, k: nat)
    requires p > 0 && i <= k <= |data|
    ensures |Paged(p, data[k..])| <= |Paged(p, data[i..])|
  {
    PagedHasLength(p, data[k..]);
    PagedHasLength(p, data[i..]);
    PagedLengthGrows(p, |data| - k, |data| - i);
  }

  /** In one job the two endpoints never wait for each other: what one still writes is no more than what
      the other reads after its next message, or the other way round. */
  lemma OneJobMoves(p: nat, job: Job, peer: Job, e: Endpoint, f: Endpoint)
    requires p > 0 && JobsMatch(job, peer) && JobsMatch(peer, job) && job.Send?
    requires JobSound(p, job, peer, e) && JobSound(p, peer, job, f)
    requires |JobToWrite(p, peer, f.pc)| <= |JobToRead(p, peer, e.pc, |e.got|)|
    requires |JobToWrite(p, job, e.pc)| <= |JobToRead(p, job, f.pc, |f.got|)|
    ensures |JobToWrite(p, peer, f.pc)| <= |RestToRead(p, peer, e.pc, |e.got|)|
            || |JobToWrite(p, job, e.pc)| <= |RestToRead(p, job, f.pc, |f.got|)|
  {
    hide Paged, Word, Long;
    var data := job.data;
    assert data[0..] == data;
    if e.pc.AwaitRln? {
      assert f.pc.AwaitSln? ==> f.got == [];
    }
  }

  lemma JobWriteAtMost(p: nat, job: Job, peer: Job, e: Endpoint)
    requires p > 0 && JobsMatch(job, peer) && JobSound(p, job, peer, e)
    ensures |JobToWrite(p, job, e.pc)| <= |Writes(p, job)|
  {
    hide Word, Long;
    if (e.pc.SendHead? || e.pc.SendBody?) && !Empty(job) {
      SendingWriteAtMost(p, job, e.pc);
    } else if job.Send? {
      if Empty(job) { PagedNothing(p, job.data); }
      assert |Writes(p, job)| == 4 + |Paged(p, job.data)|;
      hide Paged, Writes;
    }
  }

  lemma SendingWriteAtMost(p: nat, job: Job, pc: Pc)
    requires p > 0 && PcFits(job, pc) && (pc.SendHead? || pc.SendBody?) && !Empty(job)
    ensures |JobToWrite(p, job, pc)| <= |Writes(p, job)|
  {
    hide Frames, Chunks, Word;
    var data := job.data;
    assert data[0..] == data;
    assert |Writes(p, job)| == 4 + |Paged(p, data)|;
    hide Paged, Writes;
    PagedShrinks(p, data, 0, pc.sent);
    PagedStep(p, data, pc.sent);
  }

  lemma WriteAtMost(p: nat, jobs: seq<Job>, peer: seq<Job>, e: Endpoint)
    requires p > 0 && Complementary(jobs, peer) && Sound(p, jobs, peer, e)
    ensures |ToWrite(p, jobs, peer, e)| <= |AllWrites(p, jobs, e.op)|
  {
    hide *;
    SoundParts(p, jobs, peer, e);
    if e.op < |jobs| {
      AllWritesStep(p, jobs, e.op);
      WriteParts(p, jobs, peer, e);
      JobWriteAtMost(p, jobs[e.op], peer[e.op], e);
    }
  }

  /** When a has completed more jobs than b, all that b waits for has been written. */
  lemma BehindCanMove(p: nat, ja: seq<Job>, jb: seq<Job>, s: Link)
    requires Inv(p, ja, jb, s) && s.b.op < s.a.op && NoneEmpty(jb)
    ensures Next(p, jb, s.b, s.ab).Some?
  {
    hide Next, Expects, RestToRead, JobToRead, Complementary, AllWrites, ToRead, ToWrite, Sound;
    SoundParts(p, ja, jb, s.a);
    SoundParts(p, jb, ja, s.b);
    WriteAtMost(p, ja, jb, s.a);
    AllWritesShrinks(p, ja, s.b.op + 1, s.a.op);
    ReadParts(p, jb, ja, s.b);
    CanMove(p, jb, ja, s.b, s.ab, ToWrite(p, ja, jb, s.a));
    assert |s.ab| + |ToWrite(p, ja, jb, s.a)| == |ToRead(p, jb, ja, s.b)|;
  }

  lemma SameJobCanMove(p: nat, ja: seq<Job>, jb: seq<Job>, s: Link)
    requires Inv(p, ja, jb, s) && s.a.op == s.b.op < |ja| && ja[s.a.op].Send? && NoneEmpty(ja) && NoneEmpty(jb)
    ensures Next(p, ja, s.a, s.ba).Some? || Next(p, jb, s.b, s.ab).Some?
  {
    var i := s.a.op;
    hide Next, Expects, RestToRead, JobToWrite, JobToRead, JobSound, Complementary, AllWrites, ToRead, ToWrite, Sound;
    SoundParts(p, ja, jb, s.a);
    SoundParts(p, jb, ja, s.b);
    ReadParts(p, ja, jb, s.a);
    ReadParts(p, jb, ja, s.b);
    WriteParts(p, ja, jb, s.a);
    WriteParts(p, jb, ja, s.b);
    CanMove(p, ja, jb, s.a, s.ba, ToWrite(p, jb, ja, s.b));
    CanMove(p, jb, ja, s.b, s.ab, ToWrite(p, ja, jb, s.a));
    assert |s.ab| + |ToWrite(p, ja, jb, s.a)| == |ToRead(p, jb, ja, s.b)|;
    assert |s.ba| + |ToWrite(p, jb, ja, s.b)| == |ToRead(p, ja, jb, s.a)|;
    OneJobMoves(p, ja[i], jb[i], s.a, s.b);
  }

  lemma NoneEmptyEither(a: seq<Job>, b: seq<Job>)
    requires Complementary(a, b) && NoneEmpty(a)
    ensures NoneEmpty(b)
  {
    forall i | 0 <= i < |b|
      ensures !Empty(b[i])
    {
      assert JobsMatch(a[i], b[i]) && !Empty(a[i]);
    }
  }

  /** No reachable state is stuck before both endpoints have finished. */
  lemma NeverStuck(p: nat, ja: seq<Job>, jb: seq<Job>, s: Link)
    requires Inv(p, ja, jb, s) && NoneEmpty(ja) && !(s.a.op == |ja| && s.b.op == |jb|)
    ensures Next(p, ja, s.a, s.ba).Some? || Next(p, jb, s.b, s.ab).Some?
  {
    assert |ja| == |jb| && s.a.op <= |ja| && s.b.op <= |jb|;
    NoneEmptyEither(ja, jb);
    if s.b.op < s.a.op {
      BehindCanMove(p, ja, jb, s);
    } else if s.a.op < s.b.op {
      assert Inv(p, jb, ja, Swap(s));
      BehindCanMove(p, jb, ja, Swap(s));
    } else {
      assert JobsMatch(ja[s.a.op], jb[s.a.op]);
      hide Next, ToRead, ToWrite, Sound, Complementary;
      if ja[s.a.op].Send? {
        SameJobCanMove(p, ja, jb, s);
      } else {
        SameJobCanMove(p, jb, ja, Swap(s));
      }
    }
  }

  // ---- whole runs ----

  ghost predicate Run(p: nat, ja: seq<Job>, jb: seq<Job>, states: seq<Link>)
    requires p > 0
  {
    |states| > 0 && Init(states[0]) && forall i | 0 < i < |states| :: Step(p, ja, jb, states[i - 1], states[i])
  }

  lemma RunPrefix(p: nat, ja: seq<Job>, jb: seq<Job>, states: seq<Link>, n: nat)
    requires p > 0 && Run(p, ja, jb, states) && 0 < n <= |states|
    ensures Run(p, ja, jb, states[..n])
  {
    hide Step, Init;
    var before := states[..n];
    forall i | 0 < i < n
      ensures Step(p, ja, jb, before[i - 1], before[i])
    {
      assert before[i - 1] == states[i - 1] && before[i] == states[i];
    }
  }

  /** A run of more than one state is a shorter run and a step. */
  lemma RunLast(p: nat, ja: seq<Job>, jb: seq<Job>, states: seq<Link>)
    requires p > 0 && Run(p, ja, jb, states) && |states| > 1
    ensures var before := states[..|states| - 1];
            && Run(p, ja, jb, before) && before[0] == states[0]
            && before[|before| - 1] == states[|states| - 2]
            && Step(p, ja, jb, states[|states| - 2], states[|states| - 1])
  {
    RunPrefix(p, ja, jb, states, |states| - 1);
    hide Step, Init;
    var n := |states| - 1;
    assert Step(p, ja, jb, states[n - 1], states[n]);
  }

  /** Every run ends in a state with the invariant, and its n steps have used up n units of work: no run
      is longer than the initial amount of work. */
  lemma {:induction false} RunInv(p: nat, ja: seq<Job>, jb: seq<Job>, states: seq<Link>)
    requires 0 < p < U32 && Complementary(ja, jb) && Run(p, ja, jb, states)
    ensures Inv(p, ja, jb, states[0]) && Inv(p, ja, jb, states[|states| - 1])
    ensures TotalWork(p, ja, jb, states[|states| - 1]) + |states| - 1 <= TotalWork(p, ja, jb, states[0])
  {
    hide Inv, TotalWork, Step, Complementary;
    InitInv(p, ja, jb, states[0]);
    if |states| > 1 {
      RunLast(p, ja, jb, states);
      hide Run, Init;
      RunInv(p, ja, jb, states[..|states| - 1]);
      StepInv(p, ja, jb, states[|states| - 2], states[|states| - 1]);
    }
  }

  /** What has been delivered when both ends have finished: exactly what the other end's jobs sent, in
      order; and nothing is left on the wire. */
  lemma FinishedDelivered(p: nat, ja: seq<Job>, jb: seq<Job>, states: seq<Link>)
    requires 0 < p < U32 && Complementary(ja, jb) && NoneEmpty(ja) && Run(p, ja, jb, states)
    ensures var s := states[|states| - 1];
            (Next(p, ja, s.a, s.ba).None? && Next(p, jb, s.b, s.ab).None?) ==>
              && s.a.op == |ja| && s.b.op == |jb|
              && s.a.delivered == Deliveries(jb, |jb|) && s.b.delivered == Deliveries(ja, |ja|)
              && s.ab == [] && s.ba == []
  {
    RunInv(p, ja, jb, states);
    var s := states[|states| - 1];
    assert Inv(p, ja, jb, s);
    if Next(p, ja, s.a, s.ba).None? && Next(p, jb, s.b, s.ab).None? {
      if !(s.a.op == |ja| && s.b.op == |jb|) {
        NeverStuck(p, ja, jb, s);
      }
    }
  }

  /** Every run can be continued until both ends have finished. */
  lemma EveryRunFinishes(p: nat, ja: seq<Job>, jb: seq<Job>, states: seq<Link>) returns (longer: seq<Link>)
    requires 0 < p < U32 && Complementary(ja, jb) && NoneEmpty(ja) && Run(p, ja, jb, states)
    ensures Run(p, ja, jb, longer) && states <= longer
    ensures var s := longer[|longer| - 1];
            && s.a.op == |ja| && s.b.op == |jb|
            && Next(p, ja, s.a, s.ba).None? && Next(p, jb, s.b, s.ab).None?
  {
    hide Inv, Complementary, NoneEmpty, TotalWork, Next, Step;
    RunInv(p, ja, jb, states);
    longer := RunFinishes(p, ja, jb, states, TotalWork(p, ja, jb, states[|states| - 1]));
    NoMoveAtEnd(p, ja, longer[|longer| - 1].a, longer[|longer| - 1].ba);
    NoMoveAtEnd(p, jb, longer[|longer| - 1].b, longer[|longer| - 1].ab);
  }

  lemma {:induction false} RunFinishes(p: nat, ja: seq<Job>, jb: seq<Job>, states: seq<Link>, work: nat)
    returns (longer: seq<Link>)
    requires 0 < p < U32 && NoneEmpty(ja) && Run(p, ja, jb, states) && Inv(p, ja, jb, states[|states| - 1])
    requires TotalWork(p, ja, jb, states[|states| - 1]) <= work
    ensures Run(p, ja, jb, longer) && states <= longer
    ensures longer[|longer| - 1].a.op == |ja| && longer[|longer| - 1].b.op == |jb|
    decreases work
  {
    hide *;
    NotEmptyRun(p, ja, jb, states);
    var s := states[|states| - 1];
    if s.a.op == |ja| && s.b.op == |jb| {
      longer := states;
    } else {
      var s' := SomeStep(p, ja, jb, s);
      StepInv(p, ja, jb, s, s');
      RunExtended(p, ja, jb, states, s');
      longer := RunFinishes(p, ja, jb, states + [s'], work - 1);
      PrefixOfPrefix(states, s', longer);
    }
  }

  lemma NotEmptyRun(p: nat, ja: seq<Job>, jb: seq<Job>, states: seq<Link>)
    requires p > 0 && Run(p, ja, jb, states)
    ensures |states| > 0
  {
  }

  lemma PrefixOfPrefix(a: seq<Link>, x: Link, b: seq<Link>)
    requires a + [x] <= b
    ensures a <= b
  {
    assert b[..|a| + 1] == a + [x];
    assert b[..|a|] == b[..|a| + 1][..|a|];
  }

  lemma NoMoveAtEnd(p: nat, jobs: seq<Job>, e: Endpoint, inb: seq<byte>)
    requires p > 0 && e.op == |jobs|
    ensures Next(p, jobs, e, inb).None?
  {
  }

  lemma SomeStep(p: nat, ja: seq<Job>, jb: seq<Job>, s: Link) returns (s': Link)
    requires Inv(p, ja, jb, s) && NoneEmpty(ja) && !(s.a.op == |ja| && s.b.op == |jb|)
    ensures p > 0 && Step(p, ja, jb, s, s')
  {
    assert p > 0;
    hide Inv, Next, NoneEmpty;
    NeverStuck(p, ja, jb, s);
    if Next(p, ja, s.a, s.ba).Some? {
      var m := Next(p, ja, s.a, s.ba).value;
      s' := Link(m.e, s.b, s.ab + m.wrote, s.ba[m.consumed..]);
    } else {
      var m := Next(p, jb, s.b, s.ab).value;
      s' := Link(s.a, m.e, s.ab[m.consumed..], s.ba + m.wrote);
    }
  }

  lemma RunExtended(p: nat, ja: seq<Job>, jb: seq<Job>, states: seq<Link>, s: Link)
    requires p > 0 && Run(p, ja, jb, states) && Step(p, ja, jb, states[|states| - 1], s)
    ensures Run(p, ja, jb, states + [s])
  {
    hide Step, Init;
    var longer := states + [s];
    forall i | 0 < i < |longer|
      ensures Step(p, ja, jb, longer[i - 1], longer[i])
    {
      assert i < |states| ==> Step(p, ja, jb, states[i - 1], states[i]);
    }
  }

  /** In every state of every run: neither endpoint is more than one job ahead, none has been refused, and
      an endpoint that is about to read a request reads the one it awaits; the length a sender has read is
      that of its own job. */
  lemma RunSafety(p: nat, ja: seq<Job>, jb: seq<Job>, states: seq<Link>, i: nat)
    requires 0 < p < U32 && Complementary(ja, jb) && Run(p, ja, jb, states) && i < |states|
    ensures var s := states[i];
            && s.a.op <= s.b.op + 1 && s.b.op <= s.a.op + 1
            && !s.a.pc.Refused? && !s.b.pc.Refused?
            && (s.a.pc.AwaitRln? && |s.ba| >= 4 ==> s.ba[..4] == Word(REQ_RLN))
            && (s.a.pc.AwaitSln? && |s.ba| >= 4 ==> s.ba[..4] == Word(REQ_SLN))
            && (s.a.pc.ReadLen? && |s.ba| >= 8 ==>
                  s.a.op < |ja| && ja[s.a.op].Send? && s.ba[..8] == Long(|ja[s.a.op].data|))
            && (s.b.pc.AwaitRln? && |s.ab| >= 4 ==> s.ab[..4] == Word(REQ_RLN))
            && (s.b.pc.AwaitSln? && |s.ab| >= 4 ==> s.ab[..4] == Word(REQ_SLN))
            && (s.b.pc.ReadLen? && |s.ab| >= 8 ==>
                  s.b.op < |jb| && jb[s.b.op].Send? && s.ab[..8] == Long(|jb[s.b.op].data|))
  {
    RunPrefix(p, ja, jb, states, i + 1);
    RunInv(p, ja, jb, states[..i + 1]);
    var s := states[i];
    assert Inv(p, ja, jb, s);
    AtMostOneAhead(p, ja, jb, s);
    ReadsTheRight(p, ja, jb, s.a, s.ba, ToWrite(p, jb, ja, s.b));
    ReadsTheRight(p, jb, ja, s.b, s.ab, ToWrite(p, ja, jb, s.a));
  }

  lemma ReadsTheRight(p: nat, jobs: seq<Job>, peer: seq<Job>, e: Endpoint, inb: seq<byte>, coming: seq<byte>)
    requires Due(p, jobs, peer, e, inb, coming)
    ensures !e.pc.Refused?
    ensures e.pc.AwaitRln? && |inb| >= 4 ==> inb[..4] == Word(REQ_RLN)
    ensures e.pc.AwaitSln? && |inb| >= 4 ==> inb[..4] == Word(REQ_SLN)
    ensures e.pc.ReadLen? && |inb| >= 8 ==> e.op < |jobs| && jobs[e.op].Send? && inb[..8] == Long(|jobs[e.op].data|)
  {
    if e.op < |jobs| && |inb| >= |Expects(p, peer[e.op], e.pc, |e.got|)| {
      NextMessage(p, jobs, peer, e, inb, coming);
    }
    hide ToRead, Complementary, Deliveries, Word, Long, Paged;
  }

  // ---- transfers of no bytes ----

  /** Transfer i is the first empty one; a sends it. */
  ghost predicate EmptyAt(ja: seq<Job>, jb: seq<Job>, i: nat) {
    && Matching(ja, jb) && i < |ja| && ja[i] == Send([]) && jb[i] == Receive(0)
    && forall k | 0 <= k < i :: !Empty(ja[k])
  }

  /** The sender has completed the empty transfer; the receiver waits for a frame of it. If the sender goes on
      to another send, the receiver takes the request word for a frame header and waits for a body. */
  ghost predicate Late(ja: seq<Job>, i: nat, s: Link) {
    && s.a.op == i + 1 && s.b.op == i && s.ba == []
    && match s.a.pc
       case Start => s.ab == [] && s.b.pc.RecvHead?
       case AwaitSln => i + 1 < |ja| && ja[i + 1].Receive? && s.ab == [] && s.b.pc.RecvHead?
       case AwaitRln =>
         && i + 1 < |ja| && ja[i + 1].Send?
         && ((s.ab == Word(REQ_SLN) && s.b.pc.RecvHead?) || (s.ab == [] && s.b.pc == RecvBody(REQ_SLN)))
       case _ => false
  }

  /** Moves that are left in a late state. */
  function LateLeft(s: Link): nat {
    (if s.a.pc.Start? then 2 else 0) + if s.ab != [] then 1 else 0
  }

  /** What holds all along: up to the end of the sender's part in the empty transfer, the invariant for the
      lists up to and including it; the receiver never completes it. */
  ghost predicate Blocked(p: nat, ja: seq<Job>, jb: seq<Job>, i: nat, s: Link)
    requires EmptyAt(ja, jb, i)
  {
    && s.b.op <= i
    && ((s.a.op <= i && Inv(p, ja[..i + 1], jb[..i + 1], s)) || Late(ja, i, s))
  }

  lemma CutComplementary(ja: seq<Job>, jb: seq<Job>, i: nat)
    requires EmptyAt(ja, jb, i)
    ensures Complementary(ja[..i + 1], jb[..i + 1])
  {
    var ca, cb := ja[..i + 1], jb[..i + 1];
    forall k | 0 <= k < |ca|
      ensures JobsMatch(ca[k], cb[k]) && (Empty(ca[k]) ==> k == |ca| - 1)
    {
      assert JobsMatch(ja[k], jb[k]);
    }
  }

  /** Up to job i an endpoint does not see what comes after it. */
  lemma NextInCut(p: nat, jobs: seq<Job>, i: nat, e: Endpoint, inb: seq<byte>)
    requires p > 0 && i < |jobs| && e.op <= i
    ensures Next(p, jobs[..i + 1], e, inb) == Next(p, jobs, e, inb)
  {
  }

  /** When the sender completes the empty transfer, the receiver has answered and waits. */
  lemma BecomesLate(p: nat, ja: seq<Job>, jb: seq<Job>, i: nat, s: Link)
    requires EmptyAt(ja, jb, i) && Inv(p, ja[..i + 1], jb[..i + 1], s) && s.a.op == i + 1 && s.b.op <= i
    ensures Late(ja, i, s)
  {
    var ca, cb := ja[..i + 1], jb[..i + 1];
    SoundParts(p, ca, cb, s.a);
    SoundParts(p, cb, ca, s.b);
    assert s.a.pc.Start? && s.ba == [] && ToWrite(p, cb, ca, s.b) == [];
    if s.b.op < i {
      WriteAtLeast(p, cb, ca, s.b);
    } else {
      AnsweredWaits(p, cb, ca, i, s.b);
      assert s.ab == [];
    }
  }

  lemma AnsweredWaits(p: nat, cb: seq<Job>, ca: seq<Job>, i: nat, b: Endpoint)
    requires p > 0 && Complementary(cb, ca) && Sound(p, cb, ca, b) && |cb| == i + 1 && b.op == i
    requires cb[i] == Receive(0) && ca[i] == Send([]) && ToWrite(p, cb, ca, b) == []
    ensures b.pc.RecvHead? && ToRead(p, cb, ca, b) == []
  {
    hide Frames, Word, Long;
    PagedNothing(p, []);
    assert ca[i].data[|b.got|..] == [];
    assert AllWrites(p, ca, i + 1) == [];
  }

  /** A receiver that is not at a frame does not complete its job. */
  lemma ReceiverStays(p: nat, jobs: seq<Job>, peer: seq<Job>, e: Endpoint, inb: seq<byte>, coming: seq<byte>)
    requires Due(p, jobs, peer, e, inb, coming) && e.op < |jobs| && jobs[e.op] == Receive(0)
    requires Next(p, jobs, e, inb).Some?
    ensures Next(p, jobs, e, inb).value.e.op == e.op
  {
    assert JobsMatch(jobs[e.op], peer[e.op]);
    NotStuck(p, jobs, peer, e, inb, coming);
    hide ToRead, Deliveries, Word, Long, FromLe;
  }

  lemma StepOpB(p: nat, jb: seq<Job>, s: Link, s': Link)
    requires p > 0 && StepB(p, jb, s, s')
    ensures s'.a == s.a && s'.b.op <= s.b.op + 1
  {
    hide Word, Long, FromLe;
  }

  lemma StepOpA(p: nat, ja: seq<Job>, s: Link, s': Link)
    requires p > 0 && StepA(p, ja, s, s')
    ensures s'.b == s.b && s'.a.op <= s.a.op + 1
  {
    hide Word, Long, FromLe;
  }

  lemma EarlyStepA(p: nat, ja: seq<Job>, jb: seq<Job>, i: nat, s: Link, s': Link)
    requires EmptyAt(ja, jb, i) && s.b.op <= i && s.a.op <= i && Inv(p, ja[..i + 1], jb[..i + 1], s)
    requires StepA(p, ja, s, s')
    ensures Blocked(p, ja, jb, i, s')
    ensures s'.a.op <= i ==> TotalWork(p, ja[..i + 1], jb[..i + 1], s') < TotalWork(p, ja[..i + 1], jb[..i + 1], s)
  {
    StepOpA(p, ja, s, s');
    NextInCut(p, ja, i, s.a, s.ba);
    hide Next, Late, Sound, ToRead, ToWrite, Complementary, TotalWork;
    assert StepA(p, ja[..i + 1], s, s');
    StepAInv(p, ja[..i + 1], jb[..i + 1], s, s');
    hide Inv, StepA;
    if s'.a.op == i + 1 { BecomesLate(p, ja, jb, i, s'); }
  }

  /** The receiver of the empty transfer does not get past it. */
  lemma ReceiverBehind(p: nat, ca: seq<Job>, cb: seq<Job>, i: nat, s: Link, s': Link)
    requires Inv(p, ca, cb, s) && StepB(p, cb, s, s') && s.b.op <= i < |cb| && cb[i] == Receive(0)
    ensures s'.a == s.a && s'.b.op <= i
  {
    StepOpB(p, cb, s, s');
    hide Next, Sound, ToRead, ToWrite, Complementary;
    if s.b.op == i { ReceiverStays(p, cb, ca, s.b, s.ab, ToWrite(p, ca, cb, s.a)); }
  }

  lemma EarlyStepB(p: nat, ja: seq<Job>, jb: seq<Job>, i: nat, s: Link, s': Link)
    requires EmptyAt(ja, jb, i) && s.b.op <= i && s.a.op <= i && Inv(p, ja[..i + 1], jb[..i + 1], s)
    requires StepB(p, jb, s, s')
    ensures Blocked(p, ja, jb, i, s') && s'.a.op <= i
    ensures TotalWork(p, ja[..i + 1], jb[..i + 1], s') < TotalWork(p, ja[..i + 1], jb[..i + 1], s)
  {
    NextInCut(p, jb, i, s.b, s.ab);
    hide Inv, Next, Late, TotalWork;
    var ca, cb := ja[..i + 1], jb[..i + 1];
    assert StepB(p, cb, s, s');
    hide StepB;
    ReceiverBehind(p, ca, cb, i, s, s');
    StepBInv(p, ca, cb, s, s');
  }

  lemma EarlyStep(p: nat, ja: seq<Job>, jb: seq<Job>, i: nat, s: Link, s': Link)
    requires EmptyAt(ja, jb, i) && s.b.op <= i && s.a.op <= i && Inv(p, ja[..i + 1], jb[..i + 1], s)
    requires Step(p, ja, jb, s, s')
    ensures Blocked(p, ja, jb, i, s')
    ensures s'.a.op <= i ==> TotalWork(p, ja[..i + 1], jb[..i + 1], s') < TotalWork(p, ja[..i + 1], jb[..i + 1], s)
  {
    assert p > 0;
    hide Inv, StepA, StepB, Late, EmptyAt, TotalWork;
    if StepA(p, ja, s, s') {
      EarlyStepA(p, ja, jb, i, s, s');
    } else {
      EarlyStepB(p, ja, jb, i, s, s');
    }
  }

  lemma LateStepA(p: nat, ja: seq<Job>, i: nat, s: Link, s': Link)
    requires p > 0 && i < |ja| && Late(ja, i, s) && StepA(p, ja, s, s')
    ensures Late(ja, i, s') && LateLeft(s') < LateLeft(s)
  {
    hide Word, Long, FromLe, Compare;
    assert s.a.pc.Start? && i + 1 < |ja|;
    assert s'.ba == [];
    if ja[i + 1].Send? {
      assert s'.ab == [] + Word(REQ_SLN) == Word(REQ_SLN);
    } else {
      assert s'.ab == [];
    }
  }

  lemma WaitsForFrame(p: nat, jobs: seq<Job>, e: Endpoint)
    requires p > 0 && e.op < |jobs| && jobs[e.op].Receive? && (e.pc.RecvHead? || (e.pc.RecvBody? && e.pc.n > 0))
    ensures Next(p, jobs, e, []) == None
  {
  }

  /** The word of a request, taken for a frame header. */
  lemma TakesWordForHeader(p: nat, jobs: seq<Job>, e: Endpoint)
    requires p > 0 && e.op < |jobs| && jobs[e.op].Receive? && e.pc.RecvHead?
    ensures Next(p, jobs, e, Word(REQ_SLN)) == Some(Move(e.(pc := RecvBody(REQ_SLN)), 4, []))
  {
    WordRoundTrip(REQ_SLN);
    hide Word, FromLe;
    assert Word(REQ_SLN)[..4] == Word(REQ_SLN);
  }

  lemma LateStepB(p: nat, ja: seq<Job>, jb: seq<Job>, i: nat, s: Link, s': Link)
    requires p > 0 && i < |ja| && i < |jb| && jb[i] == Receive(0) && Late(ja, i, s) && StepB(p, jb, s, s')
    ensures Late(ja, i, s') && LateLeft(s') < LateLeft(s)
  {
    hide Word, Next;
    if s.ab == [] {
      WaitsForFrame(p, jb, s.b);
    } else {
      TakesWordForHeader(p, jb, s.b);
      assert s'.ab == [] && s'.b.pc == RecvBody(REQ_SLN) && s'.ba == [];
    }
  }

  lemma LateStep(p: nat, ja: seq<Job>, jb: seq<Job>, i: nat, s: Link, s': Link)
    requires p > 0 && EmptyAt(ja, jb, i) && Late(ja, i, s) && Step(p, ja, jb, s, s')
    ensures Late(ja, i, s') && LateLeft(s') < LateLeft(s)
  {
    hide StepA, StepB, Late, LateLeft;
    if StepA(p, ja, s, s') {
      LateStepA(p, ja, i, s, s');
    } else {
      LateStepB(p, ja, jb, i, s, s');
    }
  }

  /** Moves that can still be made. */
  ghost function BlockedWork(p: nat, ja: seq<Job>, jb: seq<Job>, i: nat, s: Link): nat
    requires EmptyAt(ja, jb, i) && Blocked(p, ja, jb, i, s)
  {
    if s.a.op > i then LateLeft(s) else TotalWork(p, ja[..i + 1], jb[..i + 1], s) + 4
  }

  lemma BlockedStep(p: nat, ja: seq<Job>, jb: seq<Job>, i: nat, s: Link, s': Link)
    requires p > 0 && EmptyAt(ja, jb, i) && Blocked(p, ja, jb, i, s) && Step(p, ja, jb, s, s')
    ensures Blocked(p, ja, jb, i, s') && BlockedWork(p, ja, jb, i, s') < BlockedWork(p, ja, jb, i, s)
  {
    hide Inv, Step, EmptyAt, TotalWork;
    if s.a.op > i {
      LateStep(p, ja, jb, i, s, s');
    } else {
      EarlyStep(p, ja, jb, i, s, s');
    }
  }

  lemma InitBlocked(p: nat, ja: seq<Job>, jb: seq<Job>, i: nat, s: Link)
    requires 0 < p < U32 && EmptyAt(ja, jb, i) && Init(s)
    ensures Blocked(p, ja, jb, i, s)
  {
    CutComplementary(ja, jb, i);
    InitInv(p, ja[..i + 1], jb[..i + 1], s);
    hide Inv, EmptyAt, Late;
  }

  /** A run over lists with an empty transfer is finite, and its receiver never completes that transfer. */
  lemma {:induction false} RunBlocked(p: nat, ja: seq<Job>, jb: seq<Job>, i: nat, states: seq<Link>)
    requires 0 < p < U32 && EmptyAt(ja, jb, i) && Run(p, ja, jb, states)
    ensures var first, last := states[0], states[|states| - 1];
            && Blocked(p, ja, jb, i, first) && Blocked(p, ja, jb, i, last)
            && BlockedWork(p, ja, jb, i, last) + |states| - 1 <= BlockedWork(p, ja, jb, i, first)
            && last.b.op <= i
  {
    hide Step, EmptyAt, BlockedWork, Inv, Late;
    InitBlocked(p, ja, jb, i, states[0]);
    if |states| > 1 {
      RunLast(p, ja, jb, states);
      hide Run, Init, Blocked;
      RunBlocked(p, ja, jb, i, states[..|states| - 1]);
      BlockedStep(p, ja, jb, i, states[|states| - 2], states[|states| - 1]);
    }
  }

  lemma SwapRun(p: nat, ja: seq<Job>, jb: seq<Job>, states: seq<Link>) returns (swapped: seq<Link>)
    requires p > 0 && Run(p, ja, jb, states)
    ensures Run(p, jb, ja, swapped) && |swapped| == |states|
    ensures swapped[|swapped| - 1] == Swap(states[|states| - 1])
  {
    swapped := seq(|states|, i requires 0 <= i < |states| => Swap(states[i]));
    hide Next;
    forall i | 0 < i < |swapped|
      ensures Step(p, jb, ja, swapped[i - 1], swapped[i])
    {
      assert Step(p, ja, jb, states[i - 1], states[i]);
    }
  }

  lemma {:induction false} FirstEmpty(jobs: seq<Job>, n: nat) returns (i: nat)
    requires n <= |jobs| && exists k | 0 <= k < n :: Empty(jobs[k])
    ensures i < n && Empty(jobs[i]) && forall k | 0 <= k < i :: !Empty(jobs[k])
  {
    i := n - 1;
    if k :| 0 <= k < n - 1 && Empty(jobs[k]) {
      i := FirstEmpty(jobs, n - 1);
    }
  }

  /** An empty transfer, wherever it stands in the lists and whichever side sends it: no run finishes both
      ends. */
  lemma EmptyNeverFinishes(p: nat, ja: seq<Job>, jb: seq<Job>, states: seq<Link>)
    requires 0 < p < U32 && Matching(ja, jb) && !NoneEmpty(ja) && Run(p, ja, jb, states)
    ensures var s := states[|states| - 1]; !(s.a.op == |ja| && s.b.op == |jb|)
  {
    var i := FirstEmpty(ja, |ja|);
    assert JobsMatch(ja[i], jb[i]);
    hide Run, Blocked, BlockedWork;
    if ja[i].Send? {
      RunBlocked(p, ja, jb, i, states);
    } else {
      forall k | 0 <= k < i
        ensures !Empty(jb[k])
      {
        assert JobsMatch(ja[k], jb[k]);
      }
      forall k | 0 <= k < |jb|
        ensures JobsMatch(jb[k], ja[k])
      {
        assert JobsMatch(ja[k], jb[k]);
      }
      var swapped := SwapRun(p, ja, jb, states);
      RunBlocked(p, jb, ja, i, swapped);
    }
  }

  /** So, for any two lists that belong together: a run that can go no further has finished both ends exactly
      when no transfer is empty. */
  lemma FinishesIffNoneEmpty(p: nat, ja: seq<Job>, jb: seq<Job>, states: seq<Link>)
    requires 0 < p < U32 && Matching(ja, jb) && Run(p, ja, jb, states)
    requires var s := states[|states| - 1]; Next(p, ja, s.a, s.ba).None? && Next(p, jb, s.b, s.ab).None?
    ensures var s := states[|states| - 1]; s.a.op == |ja| && s.b.op == |jb| <==> NoneEmpty(ja)
  {
    hide Run, Next;
    if NoneEmpty(ja) {
      FinishedDelivered(p, ja, jb, states);
    } else {
      EmptyNeverFinishes(p, ja, jb, states);
    }
  }
}
