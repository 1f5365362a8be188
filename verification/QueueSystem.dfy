/** One card and its driver queue, with every thread that touches them: submitters, the interrupt handler,
    waiters and flushes, in any interleaving of their atomic steps. */
module QueueSystem {
  import opened Options
  import opened OpsModel

  /** starters: operations a submitter found the queue empty for and is about to start (the lock is
      released in between). busy: the DMA status is Executing. ending: runs that have gone idle and not yet
      raised the interrupt. handlers: interrupt handlers that have acknowledged and not yet advanced the
      queue. inflight: the operation the card was last started for and has not been completed. waiters:
      threads inside a wait, by handle. done: handles completed, in order. dropped: handles flushed while
      queued. */
  datatype Sys = Sys(
    q: Queue,
    starters: seq<nat>,
    busy: bool,
    ending: nat,
    raised: bool,
    handlers: nat,
    inflight: Option<nat>,
    waiters: multiset<nat>,
    done: seq<nat>,
    dropped: set<nat>
  )

  const BOOT := Sys(Queue([], [], 0, multiset{}), [], false, 0, false, 0, None, multiset{}, [], {})

  datatype Event = Submit | Start(k: nat) | EndRun | Raise | Ack | Next | Enter(id: nat) | Leave(id: nat) | Flush

  function Find(s: seq<Op>, id: nat): (r: Option<Op>)
    ensures r.Some? ==> r.value in s && r.value.id == id
    ensures r.None? ==> forall i | 0 <= i < |s| :: s[i].id != id
  {
    if s == [] then None else if s[0].id == id then Some(s[0]) else Find(s[1..], id)
  }

  /** psipe_ops_get: first the active list, then the inactive one. */
  function Get(q: Queue, id: nat): (r: Option<Op>)
    ensures r.Some? ==> (r.value in q.active || r.value in q.inactive) && r.value.id == id
  {
    if id >= q.nextId then None
    else
      match Find(q.active, id)
      case Some(op) => Some(op)
      case None => Find(q.inactive, id)
  }

  /** Programming the card and ringing: an engine that is not idle ignores every write. */
  function Ring(s: Sys, id: nat): Sys {
    if s.busy then s else s.(busy := true, inflight := Some(id))
  }

  /** The steps; None when a step cannot happen. */
  function Apply(s: Sys, e: Event): Option<Sys> {
    match e
    case Submit =>
      Some(s.(q := OpsModel.Submit(s.q),
              starters := if s.q.active == [] then s.starters + [s.q.nextId] else s.starters))
    case Start(k) =>
      if k >= |s.starters| then None
      else Some(Ring(s.(starters := s.starters[..k] + s.starters[k + 1..]), s.starters[k]))
    case EndRun =>
      if s.busy then Some(s.(busy := false, ending := s.ending + 1)) else None
    case Raise =>
      if s.ending > 0 then Some(s.(ending := s.ending - 1, raised := true)) else None
    case Ack =>
      // the lower write passes the idle guard only when no run is in progress
      if s.raised then Some(s.(raised := s.busy, handlers := s.handlers + 1)) else None
    case Next =>
      if s.handlers == 0 then None
      else if s.q.active == [] then Some(s.(handlers := s.handlers - 1))
      else
        var h := s.q.active[0].id;
        var t := s.(handlers := s.handlers - 1, q := Advance(s.q), done := s.done + [h],
                    inflight := if s.inflight == Some(h) then None else s.inflight);
        Some(if t.q.active == [] then t else Ring(t, t.q.active[0].id))
    case Enter(id) =>
      (match Get(s.q, id)
       case None => Some(s)
       case Some(op) => Some(s.(q := OpsModel.Enter(s.q, op), waiters := s.waiters + multiset{id})))
    case Leave(id) =>
      if id !in s.waiters then None
      else
        (match Get(s.q, id)
         case None => None
         case Some(op) =>
           if op.flag && op.nwaiting > 0
           then Some(s.(q := OpsModel.Leave(s.q, op), waiters := s.waiters - multiset{id}))
           else None)
    case Flush =>
      Some(s.(q := OpsModel.Flush(s.q), dropped := s.dropped + set i | i in Ids(Unwaited(s.q.active))))
  }

  // ---- the invariant ----

  ghost predicate Increasing(s: seq<nat>) {
    forall i, j | 0 <= i < j < |s| :: s[i] < s[j]
  }

  function Count(b: bool): nat {
    if b then 1 else 0
  }

  /** How many stages of a transfer are under way: to be started, running, about to raise, raised,
      acknowledged. */
  function Phase(s: Sys): nat {
    |s.starters| + Count(s.busy) + s.ending + Count(s.raised) + s.handlers
  }

  /** Queue and card agree: exactly one stage is under way while the active list is non-empty, none
      otherwise, and it concerns the head. */
  ghost predicate Agree(s: Sys) {
    && Phase(s) == Count(s.q.active != [])
    && (s.starters != [] ==> s.q.active != [] && s.starters == [s.q.active[0].id])
    && s.inflight == if s.q.active == [] || s.starters != [] then None else Some(s.q.active[0].id)
  }

  /** Completed handles, then active ones: in submission order, without repetition. */
  ghost predicate Ordered(s: Sys) {
    && Increasing(s.done + Ids(s.q.active))
    && (forall x | x in s.done + Ids(s.q.active) :: x < s.q.nextId)
    && (forall o | o in s.q.active :: !o.flag)
    && (forall o | o in s.q.inactive :: o.flag && o.id in s.done)
    && DistinctIds(s.q.inactive)
  }

  /** Every handle handed out is completed, active or flushed, and only one of these. */
  ghost predicate Accounted(s: Sys) {
    && (forall x: nat | x < s.q.nextId :: x in s.done || x in Ids(s.q.active) || x in s.dropped)
    && (forall x | x in s.dropped :: x < s.q.nextId && x !in s.done && x !in Ids(s.q.active))
  }

  /** Pages are pinned exactly while an operation is active. */
  ghost predicate PinsMatch(s: Sys) {
    s.q.pinned == multiset(Ids(s.q.active))
  }

  /** Each operation counts its waiters, and what a thread waits for is still there. */
  ghost predicate WaitersMatch(s: Sys) {
    && (forall o | o in s.q.active || o in s.q.inactive :: o.nwaiting == s.waiters[o.id])
    && (forall x | x in s.waiters :: x in Ids(s.q.active) || x in Ids(s.q.inactive))
  }

  /** The queue's own books: order, handles, pins and waiters. */
  ghost predicate Books(s: Sys) {
    Ordered(s) && Accounted(s) && PinsMatch(s) && WaitersMatch(s)
  }

  ghost predicate Inv(s: Sys) {
    Agree(s) && Books(s)
  }

  /** When a flush leaves the head alone. */
  ghost predicate FlushSafe(s: Sys) {
    s.q.active == [] || s.q.active[0].nwaiting > 0
  }

  lemma BootInv()
    ensures Inv(BOOT)
  {
  }

  // ---- each step keeps each part ----

  lemma IdsIn(s: seq<Op>, x: nat)
    ensures x in Ids(s) <==> exists i :: 0 <= i < |s| && s[i].id == x
  {
    if x in Ids(s) {
      var i :| 0 <= i < |s| && Ids(s)[i] == x;
      assert s[i].id == x;
    }
    if i :| 0 <= i < |s| && s[i].id == x {
      assert Ids(s)[i] == x;
    }
  }

  /** Handles in use, including those waited for, are below the next one. */
  lemma IdsBelow(s: Sys)
    requires Ordered(s) && WaitersMatch(s)
    ensures forall x | x in Ids(s.q.active) || x in Ids(s.q.inactive) || x in s.waiters || x in s.done :: x < s.q.nextId
  {
    forall x | x in Ids(s.q.active) || x in Ids(s.q.inactive) || x in s.done
      ensures x < s.q.nextId
    {
      IdsIn(s.q.inactive, x);
      assert x in s.done + Ids(s.q.active);
    }
  }

  lemma SubmitInv(s: Sys)
    requires Books(s)
    ensures Books(Apply(s, Submit).value)
    ensures Agree(s) ==> Agree(Apply(s, Submit).value)
  {
    var s' := Apply(s, Submit).value;
    IdsBelow(s);
    SubmitIds(s);
    if Agree(s) { SubmitAgree(s); }
    hide Agree, Apply;
    assert s'.q == OpsModel.Submit(s.q) && s'.done == s.done by { ApplySubmit(s); }
    assert s'.dropped == s.dropped && s'.waiters == s.waiters by { ApplySubmit(s); }
    SubmitOrdered(s, s');
    SubmitAccounted(s, s');
    SubmitWaiters(s, s');
    hide Ordered, Accounted, WaitersMatch, Ids;
    assert PinsMatch(s');
  }

  lemma ApplySubmit(s: Sys)
    ensures var s' := Apply(s, Submit).value;
            s'.q == OpsModel.Submit(s.q) && s'.done == s.done && s'.dropped == s.dropped && s'.waiters == s.waiters
  {
  }

  lemma SubmitIds(s: Sys)
    ensures Ids(OpsModel.Submit(s.q).active) == Ids(s.q.active) + [s.q.nextId]
    ensures s.done + Ids(OpsModel.Submit(s.q).active) == (s.done + Ids(s.q.active)) + [s.q.nextId]
  {
  }

  lemma SubmitAgree(s: Sys)
    requires Agree(s)
    ensures Agree(Apply(s, Submit).value)
  {
  }

  lemma SubmitOrdered(s: Sys, s': Sys)
    requires Ordered(s) && s'.q == OpsModel.Submit(s.q) && s'.done == s.done
    requires s.done + Ids(s'.q.active) == (s.done + Ids(s.q.active)) + [s.q.nextId]
    ensures Ordered(s')
  {
    IncreasingAppend(s.done + Ids(s.q.active), s.q.nextId);
    hide Ids;
  }

  lemma IncreasingAppend(s: seq<nat>, x: nat)
    requires Increasing(s) && forall y | y in s :: y < x
    ensures Increasing(s + [x])
  {
    forall i | 0 <= i < |s|
      ensures s[i] < x
    {
      assert s[i] in s;
    }
  }

  lemma SubmitAccounted(s: Sys, s': Sys)
    requires Accounted(s) && s'.q == OpsModel.Submit(s.q) && s'.done == s.done && s'.dropped == s.dropped
    requires Ids(s'.q.active) == Ids(s.q.active) + [s.q.nextId]
    requires forall x | x in s.done :: x < s.q.nextId
    ensures Accounted(s')
  {
    hide Ids;
  }

  lemma SubmitWaiters(s: Sys, s': Sys)
    requires WaitersMatch(s) && s'.q == OpsModel.Submit(s.q) && s'.waiters == s.waiters
    requires Ids(s'.q.active) == Ids(s.q.active) + [s.q.nextId]
    requires forall x | x in s.waiters :: x < s.q.nextId
    ensures WaitersMatch(s')
  {
    hide Ids;
    assert s.q.nextId !in s.waiters;
  }

  lemma StartInv(s: Sys, k: nat)
    requires Books(s) && Apply(s, Start(k)).Some?
    ensures var s' := Apply(s, Start(k)).value;
            && Books(s')
            && (Agree(s) ==>
                  && Agree(s') && !s.raised && !s.busy
                  && s.q.active != [] && s'.inflight == Some(s.q.active[0].id))
  {
    hide Ordered, Accounted, PinsMatch, WaitersMatch;
    assert Agree(s) ==> k == 0 && |s.starters| == 1;
    SameQueue(s, Apply(s, Start(k)).value);
  }

  /** The other parts of the invariant see only the queue, the waiters and the history. */
  lemma SameQueue(s: Sys, s': Sys)
    requires s'.q == s.q && s'.waiters == s.waiters && s'.done == s.done && s'.dropped == s.dropped
    ensures Ordered(s') == Ordered(s) && Accounted(s') == Accounted(s)
    ensures PinsMatch(s') == PinsMatch(s) && WaitersMatch(s') == WaitersMatch(s)
  {
  }

  /** The card's own steps and the acknowledgement, which is never swallowed. */
  lemma CardInv(s: Sys, e: Event)
    requires Books(s) && e in {EndRun, Raise, Ack} && Apply(s, e).Some?
    ensures Books(Apply(s, e).value)
    ensures Agree(s) ==> Agree(Apply(s, e).value) && (e.Ack? ==> !Apply(s, e).value.raised)
  {
    hide Ordered, Accounted, PinsMatch, WaitersMatch;
    SameQueue(s, Apply(s, e).value);
  }

  /** The interrupt handler completes the head. When queue and card agree, there is one, it is the operation
      that the card has just run, and the next one is started on an idle card with its flag down. */
  lemma NextInv(s: Sys)
    requires Books(s) && Apply(s, Next).Some?
    ensures var s' := Apply(s, Next).value;
            && Books(s')
            && s'.done == s.done + (if s.q.active == [] then [] else [s.q.active[0].id])
            && (Agree(s) ==>
                  Agree(s') && s.q.active != [] && s.inflight == Some(s.q.active[0].id) && !s.busy && !s.raised)
  {
    hide Agree, Apply, Ordered, Accounted, PinsMatch, WaitersMatch;
    if Agree(s) { NextAgree(s); }
    ApplyNext(s);
    var s' := Apply(s, Next).value;
    if s.q.active == [] {
      SameQueue(s, s');
    } else {
      NextIds(s.q);
      NextOrdered(s, s');
      NextWaiters(s, s');
      NextAccounted(s, s');
      NextPins(s, s');
    }
  }

  lemma ApplyNext(s: Sys)
    requires Apply(s, Next).Some?
    ensures var s' := Apply(s, Next).value;
            && s'.waiters == s.waiters && s'.dropped == s.dropped
            && s'.q == (if s.q.active == [] then s.q else Advance(s.q))
            && s'.done == s.done + (if s.q.active == [] then [] else [s.q.active[0].id])
  {
  }

  lemma NextPins(s: Sys, s': Sys)
    requires PinsMatch(s) && s.q.active != [] && s'.q == Advance(s.q)
    requires Ids(s.q.active) == [s.q.active[0].id] + Ids(s'.q.active)
    ensures PinsMatch(s')
  {
    hide Ids;
  }

  lemma NextIds(q: Queue)
    requires q.active != []
    ensures Ids(q.active) == [q.active[0].id] + Ids(Advance(q).active)
    ensures Ids(Advance(q).inactive) == Ids(q.inactive) + [q.active[0].id]
  {
  }

  lemma NextAgree(s: Sys)
    requires Agree(s) && Apply(s, Next).Some?
    ensures var s' := Apply(s, Next).value;
            && Agree(s')
            && s.q.active != [] && s.inflight == Some(s.q.active[0].id) && !s.busy && !s.raised
            && s'.done == s.done + [s.q.active[0].id]
            && s'.q == Advance(s.q) && s'.waiters == s.waiters && s'.dropped == s.dropped
  {
  }

  lemma NextAccounted(s: Sys, s': Sys)
    requires Accounted(s) && s.q.active != [] && s'.q == Advance(s.q)
    requires s'.done == s.done + [s.q.active[0].id] && s'.dropped == s.dropped
    requires Ids(s.q.active) == [s.q.active[0].id] + Ids(s'.q.active)
    ensures Accounted(s')
  {
    hide Ids;
  }

  lemma NextOrdered(s: Sys, s': Sys)
    requires Ordered(s) && s.q.active != [] && s'.q == Advance(s.q) && s'.done == s.done + [s.q.active[0].id]
    ensures Ordered(s')
  {
    var h := s.q.active[0];
    assert Ids(s.q.active) == [h.id] + Ids(s'.q.active);
    assert s'.done + Ids(s'.q.active) == s.done + Ids(s.q.active);
    forall o | o in s.q.inactive
      ensures o.id != h.id
    {
      var i :| 0 <= i < |s.done| && s.done[i] == o.id;
      assert (s.done + Ids(s.q.active))[i] < (s.done + Ids(s.q.active))[|s.done|];
    }
  }

  lemma NextWaiters(s: Sys, s': Sys)
    requires WaitersMatch(s) && s.q.active != [] && s'.q == Advance(s.q) && s'.waiters == s.waiters
    ensures WaitersMatch(s')
  {
    var h := s.q.active[0];
    assert Ids(s.q.active) == [h.id] + Ids(s'.q.active);
    assert Ids(s'.q.inactive) == Ids(s.q.inactive) + [h.id];
  }

  // ---- waiting ----

  lemma {:induction false} FindPresent(s: seq<Op>, op: Op)
    requires op in s && DistinctIds(s)
    ensures Find(s, op.id) == Some(op)
  {
    if s[0] != op {
      var i :| 0 <= i < |s| && s[i] == op;
      assert s[1..][i - 1] == op;
      FindPresent(s[1..], op);
    }
  }

  lemma IncreasingDistinct(s: Sys)
    requires Ordered(s)
    ensures DistinctIds(s.q.active) && Apart(s.q.active, s.q.inactive)
  {
    var all := s.done + Ids(s.q.active);
    forall i, j | 0 <= i < j < |s.q.active|
      ensures s.q.active[i].id != s.q.active[j].id
    {
      assert all[|s.done| + i] < all[|s.done| + j];
    }
    forall i, j | 0 <= i < |s.q.active| && 0 <= j < |s.q.inactive|
      ensures s.q.active[i].id != s.q.inactive[j].id
    {
      assert s.q.inactive[j] in s.q.inactive;
      var k :| 0 <= k < |s.done| && s.done[k] == s.q.inactive[j].id;
      assert all[k] < all[|s.done| + i];
    }
  }

  /** Looking a handle up finds the operation exactly when it is in one of the two lists. */
  lemma GetFinds(s: Sys, op: Op)
    requires Ordered(s) && (op in s.q.active || op in s.q.inactive)
    ensures Get(s.q, op.id) == Some(op)
  {
    IncreasingDistinct(s);
    if op in s.q.active {
      var i :| 0 <= i < |s.q.active| && s.q.active[i] == op;
      assert (s.done + Ids(s.q.active))[|s.done| + i] == op.id;
      assert op.id in s.done + Ids(s.q.active);
      FindPresent(s.q.active, op);
    } else {
      assert op.id in s.done + Ids(s.q.active);
      InApart(s.q.active, s.q.inactive, op);
      FindAbsent(s.q.active, op.id);
      FindPresent(s.q.inactive, op);
    }
  }

  lemma {:induction false} FindAbsent(s: seq<Op>, id: nat)
    requires forall i | 0 <= i < |s| :: s[i].id != id
    ensures Find(s, id) == None
  {
    if s != [] { FindAbsent(s[1..], id); }
  }

  /** Changing the number of waiters of one operation changes nothing else about the lists. */
  lemma SetWaitingKeeps(s: seq<Op>, id: nat, n: nat)
    ensures Ids(SetWaiting(s, id, n)) == Ids(s)
    ensures forall o | o in SetWaiting(s, id, n) ::
              exists o' :: o' in s && o.id == o'.id && o.flag == o'.flag
                           && o.nwaiting == if o.id == id then n else o'.nwaiting
  {
    var r := SetWaiting(s, id, n);
    forall o | o in r
      ensures exists o' :: o' in s && o.id == o'.id && o.flag == o'.flag
                           && o.nwaiting == if o.id == id then n else o'.nwaiting
    {
      var i :| 0 <= i < |r| && r[i] == o;
      assert s[i] in s;
    }
  }

  /** The new state differs from the old in one operation's waiters only. */
  ghost predicate Recounted(s: Sys, s': Sys, id: nat, n: nat) {
    && s'.q == s.q.(active := SetWaiting(s.q.active, id, n), inactive := SetWaiting(s.q.inactive, id, n))
    && s'.starters == s.starters && s'.busy == s.busy && s'.ending == s.ending && s'.raised == s.raised
    && s'.handlers == s.handlers && s'.inflight == s.inflight && s'.done == s.done && s'.dropped == s.dropped
    && s'.waiters == s.waiters[id := n]
  }

  lemma RecountedInv(s: Sys, s': Sys, id: nat, n: nat)
    requires Books(s) && Recounted(s, s', id, n)
    requires id in Ids(s.q.active) || id in Ids(s.q.inactive)
    ensures Books(s') && (Agree(s) ==> Agree(s'))
  {
    SetWaitingKeeps(s.q.active, id, n);
    SetWaitingKeeps(s.q.inactive, id, n);
    assert Agree(s) ==> Agree(s') by { hide Ordered, Accounted, PinsMatch, WaitersMatch, Ids; }
    hide Agree, Ids;
    assert Accounted(s') && PinsMatch(s');
    hide Accounted, PinsMatch;
    assert Ordered(s') by { hide WaitersMatch; }
    hide Ordered;
    assert WaitersMatch(s');
  }

  lemma EnterInv(s: Sys, id: nat)
    requires Books(s)
    ensures Books(Apply(s, Enter(id)).value)
    ensures Agree(s) ==> Agree(Apply(s, Enter(id)).value)
  {
    hide Agree, Ordered, Accounted, PinsMatch, WaitersMatch, Ids, SetWaiting, Get;
    var s' := Apply(s, Enter(id)).value;
    if Get(s.q, id).Some? {
      var op := Get(s.q, id).value;
      CountsWaiters(s, op);
      assert Recounted(s, s', id, op.nwaiting + 1);
      hide Recounted, Apply;
      RecountedInv(s, s', id, op.nwaiting + 1);
    }
  }

  lemma CountsWaiters(s: Sys, op: Op)
    requires WaitersMatch(s) && (op in s.q.active || op in s.q.inactive)
    ensures op.nwaiting == s.waiters[op.id] && (op.id in Ids(s.q.active) || op.id in Ids(s.q.inactive))
  {
    hide Ids;
    InIds(s.q.active, op);
    InIds(s.q.inactive, op);
  }

  lemma InIds(s: seq<Op>, op: Op)
    ensures op in s ==> op.id in Ids(s)
  {
    if op in s {
      var i :| 0 <= i < |s| && s[i] == op;
      IdsIn(s, op.id);
    }
  }

  /** A waiter leaves only an operation that has completed and is still there. */
  lemma LeaveInv(s: Sys, id: nat)
    requires Books(s) && Apply(s, Leave(id)).Some?
    ensures Books(Apply(s, Leave(id)).value) && id in s.done
    ensures Agree(s) ==> Agree(Apply(s, Leave(id)).value)
  {
    hide Agree, Accounted, PinsMatch, Ordered, WaitersMatch, Ids, SetWaiting, Without, Get;
    var s', op := Apply(s, Leave(id)).value, Get(s.q, id).value;
    CountsWaiters(s, op);
    FlaggedIsDone(s, op);
    if op.nwaiting > 1 {
      assert Recounted(s, s', id, op.nwaiting - 1);
      hide Recounted, Apply;
      RecountedInv(s, s', id, op.nwaiting - 1);
    } else {
      IncreasingDistinct(s);
      InApart(s.q.active, s.q.inactive, op);
      WithoutAbsent(s.q.active, id);
      assert s' == s.(q := s.q.(inactive := Without(s.q.inactive, id)), waiters := s.waiters - multiset{id});
      hide Apply;
      LastLeavesInv(s, s', id);
    }
  }

  lemma FlaggedIsDone(s: Sys, op: Op)
    requires Ordered(s) && (op in s.q.active || op in s.q.inactive) && op.flag
    ensures op in s.q.inactive && op.id in s.done
  {
  }

  lemma InApart(a: seq<Op>, b: seq<Op>, op: Op)
    requires Apart(a, b) && op in b
    ensures forall i | 0 <= i < |a| :: a[i].id != op.id
  {
    var j :| 0 <= j < |b| && b[j] == op;
  }

  lemma LastLeavesInv(s: Sys, s': Sys, id: nat)
    requires Books(s) && s.waiters[id] == 1
    requires s' == s.(q := s.q.(inactive := Without(s.q.inactive, id)), waiters := s.waiters - multiset{id})
    requires forall i | 0 <= i < |s.q.active| :: s.q.active[i].id != id
    ensures Books(s') && (Agree(s) ==> Agree(s'))
  {
    hide Without, Agree, Accounted, PinsMatch, Ordered, WaitersMatch;
    SameActive(s, s');
    WithoutOrdered(s, s', id);
    WithoutWaiters(s, s', id);
  }

  lemma SameActive(s: Sys, s': Sys)
    requires s'.q.active == s.q.active && s'.q.nextId == s.q.nextId && s'.q.pinned == s.q.pinned
    requires s'.starters == s.starters && s'.busy == s.busy && s'.ending == s.ending && s'.raised == s.raised
    requires s'.handlers == s.handlers && s'.inflight == s.inflight && s'.done == s.done && s'.dropped == s.dropped
    ensures Agree(s') == Agree(s) && Accounted(s') == Accounted(s) && PinsMatch(s') == PinsMatch(s)
  {
  }

  lemma WithoutOrdered(s: Sys, s': Sys, id: nat)
    requires Ordered(s) && s'.q == s.q.(inactive := Without(s.q.inactive, id)) && s'.done == s.done
    ensures Ordered(s')
  {
    WithoutDistinct(s.q.inactive, id);
    hide Without, Increasing, DistinctIds, Ids;
    forall o | o in s'.q.inactive
      ensures o in s.q.inactive
    {
      WithoutMembers(s.q.inactive, id, o);
    }
  }

  lemma WithoutWaiters(s: Sys, s': Sys, id: nat)
    requires WaitersMatch(s)
    requires s'.q == s.q.(inactive := Without(s.q.inactive, id)) && s'.waiters == s.waiters - multiset{id}
    requires s.waiters[id] == 1 && forall i | 0 <= i < |s.q.active| :: s.q.active[i].id != id
    ensures WaitersMatch(s')
  {
    hide Without, Ids;
    forall o | o in s'.q.active || o in s'.q.inactive
      ensures o.nwaiting == s'.waiters[o.id]
    {
      WithoutMembers(s.q.inactive, id, o);
    }
    forall x | x in s'.waiters
      ensures x in Ids(s'.q.active) || x in Ids(s'.q.inactive)
    {
      if x !in Ids(s.q.active) {
        IdsIn(s.q.inactive, x);
        var i :| 0 <= i < |s.q.inactive| && s.q.inactive[i].id == x;
        WithoutMembers(s.q.inactive, id, s.q.inactive[i]);
        InIds(s'.q.inactive, s.q.inactive[i]);
      }
    }
  }

  lemma {:induction false} WithoutDistinct(s: seq<Op>, id: nat)
    requires DistinctIds(s)
    ensures DistinctIds(Without(s, id))
  {
    if s != [] {
      WithoutDistinct(s[1..], id);
      var t := Without(s[1..], id);
      forall i | 0 <= i < |t|
        ensures t[i].id != s[0].id
      {
        WithoutMembers(s[1..], id, t[i]);
      }
    }
  }

  /** In s' the handle id stands for op instead, every other handle for what it stood for, and no handle has
      come into a list or left one. */
  ghost predicate OnlyChanged(q: Queue, q': Queue, id: nat, op: Op) {
    && op.id == id && Get(q', id) == Some(op)
    && (forall x: nat | x != id :: Get(q', x) == Get(q, x))
    && Ids(q'.active) == Ids(q.active) && Ids(q'.inactive) == Ids(q.inactive)
    && q'.nextId == q.nextId && q'.pinned == q.pinned
  }

  lemma {:induction false} FindSetWaiting(s: seq<Op>, id: nat, n: nat, x: nat)
    ensures Find(SetWaiting(s, id, n), x) ==
            match Find(s, x)
            case None => None
            case Some(o) => Some(if x == id then o.(nwaiting := n) else o)
  {
    if s != [] {
      assert SetWaiting(s, id, n)[1..] == SetWaiting(s[1..], id, n);
      FindSetWaiting(s[1..], id, n, x);
    }
  }

  lemma SetWaitingChanges(q: Queue, q': Queue, op: Op, n: nat)
    requires Get(q, op.id) == Some(op)
    requires q' == q.(active := SetWaiting(q.active, op.id, n), inactive := SetWaiting(q.inactive, op.id, n))
    ensures OnlyChanged(q, q', op.id, op.(nwaiting := n))
  {
    SetWaitingKeeps(q.active, op.id, n);
    SetWaitingKeeps(q.inactive, op.id, n);
    hide SetWaiting, Ids;
    forall x: nat
      ensures Find(q'.active, x) == (match Find(q.active, x) case None => None
                                     case Some(o) => Some(if x == op.id then o.(nwaiting := n) else o))
      ensures Find(q'.inactive, x) == (match Find(q.inactive, x) case None => None
                                       case Some(o) => Some(if x == op.id then o.(nwaiting := n) else o))
    {
      FindSetWaiting(q.active, op.id, n, x);
      FindSetWaiting(q.inactive, op.id, n, x);
    }
  }

  /** The waiters and what the lists say of them; the rest of the system. */
  ghost predicate SameButWaiting(s: Sys, s': Sys) {
    s' == s.(q := s'.q, waiters := s'.waiters)
  }

  /** A thread that enters a wait is counted, on that operation and no other. */
  lemma EnterCounts(s: Sys, op: Op)
    requires Ordered(s) && (op in s.q.active || op in s.q.inactive)
    ensures Apply(s, Enter(op.id)).Some?
    ensures var s' := Apply(s, Enter(op.id)).value;
            && s'.waiters == s.waiters + multiset{op.id} && SameButWaiting(s, s')
            && OnlyChanged(s.q, s'.q, op.id, op.(nwaiting := op.nwaiting + 1))
  {
    GetFinds(s, op);
    hide SetWaiting, Ids, Get, OnlyChanged, Ordered;
    SetWaitingChanges(s.q, Apply(s, Enter(op.id)).value.q, op, op.nwaiting + 1);
  }

  /** A thread that waits for a completed operation can return. */
  lemma CanLeave(s: Sys, id: nat) returns (op: Op)
    requires Books(s) && id in s.waiters && id in s.done
    ensures Get(s.q, id) == Some(op) && op in s.q.inactive && op.nwaiting == s.waiters[id] && op.flag
    ensures Apply(s, Leave(id)).Some?
  {
    ActiveOnce(s);
    assert id in Ids(s.q.inactive);
    IdsIn(s.q.inactive, id);
    var i :| 0 <= i < |s.q.inactive| && s.q.inactive[i].id == id;
    op := s.q.inactive[i];
    assert op in s.q.inactive;
    GetFinds(s, op);
    assert op.flag && op.nwaiting == s.waiters[id];
    hide Books, Get, Ids;
  }

  /** Its return is counted on that operation and no other; the last one to return takes the operation out. */
  lemma LeaveCounts(s: Sys, id: nat)
    requires Books(s) && id in s.waiters && id in s.done
    ensures Get(s.q, id).Some? && Apply(s, Leave(id)).Some?
    ensures var op, s' := Get(s.q, id).value, Apply(s, Leave(id)).value;
            && s'.waiters == s.waiters - multiset{id} && SameButWaiting(s, s')
            && (s.waiters[id] > 1 ==> OnlyChanged(s.q, s'.q, id, op.(nwaiting := op.nwaiting - 1)))
            && (s.waiters[id] == 1 ==> OnlyGone(s.q, s'.q, id))
  {
    hide SetWaiting, Without, Ids, Get, OnlyChanged, OnlyGone, DistinctIds, Apart;
    var op := CanLeave(s, id);
    IncreasingDistinct(s);
    hide Books;
    InApart(s.q.active, s.q.inactive, op);
    WithoutAbsent(s.q.active, id);
    var q' := Apply(s, Leave(id)).value.q;
    if s.waiters[id] > 1 {
      SetWaitingChanges(s.q, q', op, op.nwaiting - 1);
    } else {
      WithoutGone(s.q, q', id);
    }
  }

  /** In q' the handle id is in neither list, and the others are as they were. */
  ghost predicate OnlyGone(q: Queue, q': Queue, id: nat) {
    && Get(q', id) == None && (forall x: nat | x != id :: Get(q', x) == Get(q, x))
    && q'.active == q.active && q'.nextId == q.nextId && q'.pinned == q.pinned
    && (forall o | o in q'.inactive :: o in q.inactive && o.id != id)
    && (forall o | o in q.inactive && o.id != id :: o in q'.inactive)
  }

  lemma {:induction false} FindWithout(s: seq<Op>, id: nat, x: nat)
    ensures Find(Without(s, id), x) == if x == id then None else Find(s, x)
  {
    if s != [] { FindWithout(s[1..], id, x); }
  }

  lemma WithoutGone(q: Queue, q': Queue, id: nat)
    requires q' == q.(inactive := Without(q.inactive, id)) && forall i | 0 <= i < |q.active| :: q.active[i].id != id
    ensures OnlyGone(q, q', id)
  {
    hide Without;
    FindAbsent(q.active, id);
    forall x: nat
      ensures Find(q'.inactive, x) == if x == id then None else Find(q.inactive, x)
    {
      FindWithout(q.inactive, id, x);
    }
    forall o: Op
      ensures o in q'.inactive <==> o in q.inactive && o.id != id
    {
      WithoutMembers(q.inactive, id, o);
    }
  }

  // ---- flushing ----

  lemma {:induction false} WaitedIncreasing(d: seq<nat>, s: seq<Op>)
    requires Increasing(d + Ids(s))
    ensures Increasing(d + Ids(Waited(s)))
    decreases |s|
  {
    if s != [] {
      var x, t := s[0].id, s[1..];
      assert Ids(s) == [x] + Ids(t);
      if s[0].nwaiting > 0 {
        assert Ids(Waited(s)) == [x] + Ids(Waited(t));
        hide Ids, Waited, Increasing;
        assert d + ([x] + Ids(t)) == (d + [x]) + Ids(t);
        WaitedIncreasing(d + [x], t);
        assert d + ([x] + Ids(Waited(t))) == (d + [x]) + Ids(Waited(t));
      } else {
        hide Ids, Increasing;
        assert d + ([x] + Ids(t)) == d + [x] + Ids(t);
        DropOne(d, x, Ids(t));
        WaitedIncreasing(d, t);
      }
    }
  }

  lemma DropOne(a: seq<nat>, x: nat, b: seq<nat>)
    ensures Increasing(a + [x] + b) ==> Increasing(a + b)
  {
    var l, r := a + [x] + b, a + b;
    forall i | 0 <= i < |r|
      ensures r[i] == l[if i < |a| then i else i + 1]
    {
    }
  }

  lemma IdsCons(o: Op, t: seq<Op>)
    ensures multiset(Ids([o] + t)) == multiset{o.id} + multiset(Ids(t))
  {
    assert Ids([o] + t) == [o.id] + Ids(t);
  }

  lemma {:induction false} WaitedUnwaited(s: seq<Op>)
    ensures multiset(Ids(s)) == multiset(Ids(Waited(s))) + multiset(Ids(Unwaited(s)))
  {
    hide Ids;
    if s != [] {
      WaitedUnwaited(s[1..]);
      assert s == [s[0]] + s[1..];
      IdsCons(s[0], s[1..]);
      IdsCons(s[0], Waited(s[1..]));
      IdsCons(s[0], Unwaited(s[1..]));
    } else {
      assert multiset(Ids([])) == multiset{};
    }
  }

  lemma FlushOrdered(s: Sys, s': Sys)
    requires Ordered(s) && s'.q == OpsModel.Flush(s.q) && s'.done == s.done
    ensures Ordered(s')
  {
    WaitedIncreasing(s.done, s.q.active);
    WaitedDistinct(s.q.inactive);
    WaitedSubset(s.q.active);
    WaitedSubset(s.q.inactive);
    WaitedUnwaited(s.q.active);
    hide Waited, Unwaited, Unpinned, Increasing, DistinctIds;
    forall x | x in s'.done + Ids(s'.q.active)
      ensures x < s.q.nextId
    {
      assert x in Ids(s'.q.active) ==> x in multiset(Ids(s'.q.active)) && x in multiset(Ids(s.q.active));
      assert x in s.done + Ids(s.q.active);
    }
  }

  lemma WaitedSubset(s: seq<Op>)
    ensures forall o | o in Waited(s) :: o in s && o.nwaiting > 0
    ensures forall o | o in s && o.nwaiting > 0 :: o in Waited(s)
  {
    forall o: Op
      ensures o in Waited(s) <==> o in s && o.nwaiting > 0
    {
      WaitedMembers(s, o);
    }
  }

  lemma FlushAccounted(s: Sys, s': Sys)
    requires Accounted(s) && Ordered(s) && s'.q == OpsModel.Flush(s.q) && s'.done == s.done
    requires s'.dropped == s.dropped + set i | i in Ids(Unwaited(s.q.active))
    ensures Accounted(s')
  {
    var a, w, u := Ids(s.q.active), Ids(Waited(s.q.active)), Ids(Unwaited(s.q.active));
    WaitedUnwaited(s.q.active);
    ActiveOnce(s);
    hide Waited, Unwaited, Unpinned, Ids, Ordered;
    forall x | x in a
      ensures x in w || x in u
    {
      assert x in multiset(a);
    }
    forall x | x in u
      ensures x < s.q.nextId && x !in s.done && x !in w
    {
      assert multiset(a)[x] == multiset(w)[x] + multiset(u)[x];
      assert x in a;
    }
    forall x | x in w
      ensures x in a
    {
      assert multiset(a)[x] == multiset(w)[x] + multiset(u)[x];
      assert x in multiset(w);
    }
  }

  /** An active handle occurs once and is not among the completed ones. */
  lemma ActiveOnce(s: Sys)
    requires Ordered(s)
    ensures forall x | x in Ids(s.q.active) :: x !in s.done && multiset(Ids(s.q.active))[x] == 1 && x < s.q.nextId
  {
    var a, all := Ids(s.q.active), s.done + Ids(s.q.active);
    forall x | x in a
      ensures x !in s.done && multiset(a)[x] == 1 && x < s.q.nextId
    {
      assert x in all;
      var i :| 0 <= i < |a| && a[i] == x;
      forall k | 0 <= k < |s.done|
        ensures s.done[k] != x
      {
        assert all[k] < all[|s.done| + i];
      }
      forall k | 0 <= k < |a| && k != i
        ensures a[k] != x
      {
        assert all[|s.done| + k] != all[|s.done| + i];
      }
      assert a == a[..i] + [x] + a[i + 1..];
    }
  }

  lemma FlushWaiters(s: Sys, s': Sys)
    requires WaitersMatch(s) && s'.q == OpsModel.Flush(s.q) && s'.waiters == s.waiters
    ensures WaitersMatch(s')
  {
    WaitedSubset(s.q.active);
    WaitedSubset(s.q.inactive);
    hide Waited, Unwaited, Unpinned;
    forall x | x in s.waiters
      ensures x in Ids(s'.q.active) || x in Ids(s'.q.inactive)
    {
      IdsIn(s.q.active, x);
      IdsIn(s.q.inactive, x);
      if i :| 0 <= i < |s.q.active| && s.q.active[i].id == x {
        InIds(s'.q.active, s.q.active[i]);
      } else {
        var i :| 0 <= i < |s.q.inactive| && s.q.inactive[i].id == x;
        InIds(s'.q.inactive, s.q.inactive[i]);
      }
    }
  }

  /** Every flush keeps the books. It keeps queue and card in agreement exactly when nothing is active, or
      some thread waits for the operation in flight. */
  lemma FlushInv(s: Sys)
    requires Books(s)
    ensures Books(Apply(s, Flush).value)
    ensures Agree(s) ==> (Agree(Apply(s, Flush).value) <==> FlushSafe(s))
  {
    var s' := Apply(s, Flush).value;
    FlushOrdered(s, s');
    FlushAccounted(s, s');
    FlushWaiters(s, s');
    WaitedUnwaited(s.q.active);
    assert PinsMatch(s') by { hide Agree, Ordered, Accounted, WaitersMatch, Waited, Unwaited, Ids; }
    IncreasingDistinct(s);
    hide Ordered, Accounted, WaitersMatch, PinsMatch, Ids;
    if Agree(s) { FlushAgree(s, s'); }
  }

  lemma FlushAgree(s: Sys, s': Sys)
    requires Agree(s) && DistinctIds(s.q.active)
    requires s' == s.(q := s'.q, dropped := s'.dropped) && s'.q.active == Waited(s.q.active)
    ensures Agree(s') <==> FlushSafe(s)
  {
    if !FlushSafe(s) && s'.q.active != [] {
      var o := s'.q.active[0];
      WaitedMembers(s.q.active, o);
      var i :| 0 <= i < |s.q.active| && s.q.active[i] == o;
      assert i > 0;
    }
  }

  // ---- what a lookup finds after a submission, a completion, a flush ----

  lemma {:induction false} FindAppend(s: seq<Op>, t: seq<Op>, x: nat)
    ensures Find(s + t, x) == if Find(s, x).Some? then Find(s, x) else Find(t, x)
  {
    if s == [] {
      assert s + t == t;
    } else {
      assert (s + t)[1..] == s[1..] + t;
      FindAppend(s[1..], t, x);
    }
  }

  /** A submitted operation is found under the new handle, unfinished and with nobody waiting; every other
      lookup is as before. Its pages are pinned, and it is to be started exactly when it is alone. */
  lemma SubmitCounts(s: Sys)
    requires Ordered(s)
    ensures var s' := Apply(s, Submit).value;
            && Get(s'.q, s.q.nextId) == Some(Op(s.q.nextId, 0, false))
            && (forall x: nat | x != s.q.nextId :: Get(s'.q, x) == Get(s.q, x))
            && s'.q.pinned == s.q.pinned + multiset{s.q.nextId}
            && s'.starters == (if s.q.active == [] then s.starters + [s.q.nextId] else s.starters)
            && s' == s.(q := s'.q, starters := s'.starters)
  {
    var s' := Apply(s, Submit).value;
    var op := Op(s.q.nextId, 0, false);
    assert s'.q.active == s.q.active + [op] && s'.q.inactive == s.q.inactive;
    forall x: nat
      ensures Find(s'.q.active, x) ==
              if Find(s.q.active, x).Some? then Find(s.q.active, x) else if x == op.id then Some(op) else None
    {
      FindAppend(s.q.active, [op], x);
    }
    assert Find(s.q.active, op.id).None? by { NotYet(s); }
  }

  lemma NotYet(s: Sys)
    requires Ordered(s)
    ensures Find(s.q.active, s.q.nextId).None?
  {
    var all := s.done + Ids(s.q.active);
    forall i | 0 <= i < |s.q.active|
      ensures s.q.active[i].id < s.q.nextId
    {
      assert all[|s.done| + i] == s.q.active[i].id && all[|s.done| + i] in all;
    }
    FindAbsent(s.q.active, s.q.nextId);
  }

  /** A completion marks the head as finished and leaves every other lookup as it was; the head's pages are
      unpinned. */
  lemma NextCounts(s: Sys)
    requires Ordered(s) && s.handlers > 0 && s.q.active != []
    ensures var h, s' := s.q.active[0], Apply(s, Next).value;
            && Get(s'.q, h.id) == Some(h.(flag := true)) && h.(flag := true) in s'.q.inactive
            && (forall x: nat | x != h.id :: Get(s'.q, x) == Get(s.q, x))
            && s'.q.pinned == s.q.pinned - multiset{h.id} && s'.done == s.done + [h.id]
            && s'.waiters == s.waiters && s'.dropped == s.dropped && s'.starters == s.starters
  {
    var h, s' := s.q.active[0], Apply(s, Next).value;
    var done := h.(flag := true);
    ApplyNext(s);
    GetFinds(s, h);
    IncreasingDistinct(s);
    assert s'.starters == s.starters;
    hide Apply, Ordered;
    assert s'.q.active == s.q.active[1..] && s'.q.inactive == s.q.inactive + [done];
    assert s'.q.inactive[|s.q.inactive|] == done;
    FindAbsent(s.q.active[1..], h.id);
    FindAbsent(s.q.inactive, h.id);
    forall x: nat
      ensures Find(s'.q.inactive, x) ==
              if Find(s.q.inactive, x).Some? then Find(s.q.inactive, x) else if x == h.id then Some(done) else None
    {
      FindAppend(s.q.inactive, [done], x);
    }
  }

  lemma {:induction false} FindWaited(s: seq<Op>, x: nat)
    requires DistinctIds(s)
    ensures Find(Waited(s), x) ==
            if Find(s, x).Some? && Find(s, x).value.nwaiting > 0 then Find(s, x) else None
  {
    if s != [] {
      FindWaited(s[1..], x);
      if s[0].id == x && s[0].nwaiting == 0 {
        forall i | 0 <= i < |s[1..]|
          ensures s[1..][i].id != x
        {
          assert s[i + 1].id != s[0].id;
        }
        FindAbsent(s[1..], x);
      }
    }
  }

  /** After a flush a lookup finds what it found before if somebody waits for it, and nothing otherwise. */
  lemma FlushCounts(s: Sys)
    requires Ordered(s)
    ensures var s' := Apply(s, Flush).value;
            && (forall x: nat :: Get(s'.q, x) ==
                  if Get(s.q, x).Some? && Get(s.q, x).value.nwaiting > 0 then Get(s.q, x) else None)
            && (forall x: nat :: x in s'.dropped <==> x in s.dropped || x in Ids(Unwaited(s.q.active)))
            && s' == s.(q := s'.q, dropped := s'.dropped)
  {
    var s' := Apply(s, Flush).value;
    IncreasingDistinct(s);
    hide Ordered, Unpinned;
    forall x: nat
      ensures Get(s'.q, x) == if Get(s.q, x).Some? && Get(s.q, x).value.nwaiting > 0 then Get(s.q, x) else None
    {
      FindWaited(s.q.active, x);
      FindWaited(s.q.inactive, x);
      hide Waited;
      if Find(s.q.active, x).Some? {
        NotInOther(s.q.active, s.q.inactive, x);
      }
    }
  }

  lemma NotInOther(a: seq<Op>, b: seq<Op>, x: nat)
    requires Apart(a, b) && Find(a, x).Some?
    ensures Find(b, x).None?
  {
    var o := Find(a, x).value;
    var i :| 0 <= i < |a| && a[i] == o;
    forall j | 0 <= j < |b|
      ensures b[j].id != x
    {
      assert a[i].id != b[j].id;
    }
    FindAbsent(b, x);
  }

  // ---- whole runs ----

  /** Every step keeps the books, and lets a waiter go only after completion; any but an unsafe flush keeps
      the agreement. */
  lemma StepInv(s: Sys, e: Event)
    requires Books(s) && Apply(s, e).Some?
    ensures Books(Apply(s, e).value) && (e.Leave? ==> e.id in s.done)
    ensures Agree(s) && (e.Flush? ==> FlushSafe(s)) ==> Agree(Apply(s, e).value)
  {
    hide Books, Agree, Apply, FlushSafe;
    match e
    case Submit => SubmitInv(s);
    case Start(k) => StartInv(s, k);
    case EndRun => CardInv(s, e);
    case Raise => CardInv(s, e);
    case Ack => CardInv(s, e);
    case Next => NextInv(s);
    case Enter(id) => EnterInv(s, id);
    case Leave(id) => LeaveInv(s, id);
    case Flush => FlushInv(s);
  }

  /** A run from boot: any steps in any order, flushes at any time. */
  ghost predicate Run(states: seq<Sys>, events: seq<Event>) {
    && |states| == |events| + 1 && states[0] == BOOT
    && forall i | 0 <= i < |events| :: GoesTo(states[i], events[i], states[i + 1])
  }

  ghost predicate GoesTo(s: Sys, e: Event, s': Sys) {
    Apply(s, e) == Some(s')
  }

  /** Each flush among the first n steps of a run leaves the operation in flight alone. */
  ghost predicate FlushesSafe(states: seq<Sys>, events: seq<Event>, n: nat)
    requires |states| == |events| + 1 && n <= |events|
  {
    forall i | 0 <= i < n :: events[i].Flush? ==> FlushSafe(states[i])
  }

  lemma {:induction false} RunInv(states: seq<Sys>, events: seq<Event>, n: nat)
    requires Run(states, events) && n < |states|
    ensures Books(states[n])
    ensures FlushesSafe(states, events, n) ==> Agree(states[n])
  {
    hide Books, Agree, Apply, FlushSafe;
    if n == 0 {
      BootInv();
    } else {
      RunInv(states, events, n - 1);
      assert GoesTo(states[n - 1], events[n - 1], states[n - 1 + 1]);
      StepInv(states[n - 1], events[n - 1]);
    }
  }

  /** In every state of every run, whatever is flushed and when: completed handles come in submission order
      and before all active ones; every handle handed out is completed, active or flushed; pages are pinned
      exactly while an operation is active; nothing waited for has been freed, and each operation counts
      those who wait for it. */
  lemma RunBooks(states: seq<Sys>, events: seq<Event>, n: nat)
    requires Run(states, events) && n < |states|
    ensures var s := states[n];
            && Increasing(s.done + Ids(s.q.active))
            && (forall x | x in s.done + Ids(s.q.active) :: x < s.q.nextId)
            && (forall x: nat | x < s.q.nextId :: x in s.done || x in Ids(s.q.active) || x in s.dropped)
            && (forall x | x in s.dropped :: x !in s.done && x !in Ids(s.q.active))
            && s.q.pinned == multiset(Ids(s.q.active))
            && (forall x | x in s.waiters :: x in Ids(s.q.active) || x in Ids(s.q.inactive))
            && (forall o | o in s.q.active || o in s.q.inactive :: o.nwaiting == s.waiters[o.id])
  {
    RunInv(states, events, n);
    hide Run, Ids, Increasing, Agree, FlushesSafe;
  }

  /** And no thread returns from a wait before its operation has completed. */
  lemma RunLeaves(states: seq<Sys>, events: seq<Event>, n: nat)
    requires Run(states, events) && n < |events| && events[n].Leave?
    ensures events[n].id in states[n].done
  {
    RunInv(states, events, n);
    hide Books, Agree, FlushesSafe;
    assert GoesTo(states[n], events[n], states[n + 1]);
    StepInv(states[n], events[n]);
  }

  /** As long as no operation in flight has been flushed: at most one stage of one transfer is under way, and
      it is the head's; the card is busy or its interrupt on the way exactly while something is active and
      has been started; the interrupt is up only on an idle card. */
  lemma RunSafety(states: seq<Sys>, events: seq<Event>, n: nat)
    requires Run(states, events) && n < |states| && FlushesSafe(states, events, n)
    ensures var s := states[n];
            && Phase(s) == Count(s.q.active != [])
            && (s.busy || s.ending > 0 || s.raised || s.handlers > 0 ==>
                  s.q.active != [] && s.inflight == Some(s.q.active[0].id))
            && (s.raised ==> !s.busy)
  {
    RunInv(states, events, n);
    hide Run, Books, FlushesSafe;
  }

  /** Then every step that concerns a completion is right: a start finds an idle card with its flag down, an
      acknowledgement takes the flag down, an advance completes the operation the card has run. */
  lemma RunSteps(states: seq<Sys>, events: seq<Event>, n: nat)
    requires Run(states, events) && n < |events| && FlushesSafe(states, events, n)
    ensures var s, s' := states[n], states[n + 1];
            match events[n]
            case Start(_) =>
              !s.raised && !s.busy && s.q.active != [] && s'.busy && s'.inflight == Some(s.q.active[0].id)
            case Ack => s.raised && !s'.raised
            case Next =>
              && s.q.active != [] && s.inflight == Some(s.q.active[0].id) && s'.done == s.done + [s.q.active[0].id]
              && (|s.q.active| > 1 ==> s'.busy && !s'.raised && s'.inflight == Some(s.q.active[1].id))
            case _ => true
  {
    RunInv(states, events, n);
    hide Books, Agree, FlushesSafe;
    var s := states[n];
    assert GoesTo(s, events[n], states[n + 1]);
    match events[n]
    case Start(k) => StartInv(s, k);
    case Ack => CardInv(s, Ack);
    case Next => NextInv(s);
    case _ =>
  }

  /** Handles are numbers in order: as long as no queued operation was flushed, what has completed and what
      is active are exactly the handles 0, 1, 2, ... in that order. */
  lemma FifoWithoutDrops(s: Sys)
    requires Books(s) && s.dropped == {}
    ensures s.done + Ids(s.q.active) == seq(s.q.nextId, i => i)
  {
    var all := s.done + Ids(s.q.active);
    forall x: nat | x < s.q.nextId
      ensures x in all
    {
      assert x in s.done || x in Ids(s.q.active);
    }
    hide Accounted, PinsMatch, WaitersMatch;
    IncreasingAll(all, s.q.nextId);
  }

  lemma {:induction false} IncreasingAll(s: seq<nat>, n: nat)
    requires Increasing(s) && (forall x | x in s :: x < n) && forall x: nat | x < n :: x in s
    ensures s == seq(n, i => i)
  {
    forall i | 0 <= i < |s|
      ensures s[i] < n
    {
      assert s[i] in s;
    }
    if n > 0 {
      var zero: nat := 0;
      assert zero in s;
      var t := s[..|s| - 1];
      IncreasingButLast(s, t, n);
      IncreasingAll(t, n - 1);
      assert s == t + [n - 1];
    }
  }

  lemma IncreasingButLast(s: seq<nat>, t: seq<nat>, n: nat)
    requires n > 0 && s != [] && t == s[..|s| - 1]
    requires Increasing(s) && (forall x | x in s :: x < n) && forall x: nat | x < n :: x in s
    ensures s[|s| - 1] == n - 1 && Increasing(t)
    ensures (forall x | x in t :: x < n - 1) && forall x: nat | x < n - 1 :: x in t
  {
    var last: nat := n - 1;
    assert last in s;
    var k :| 0 <= k < |s| && s[k] == last;
    var m := |s| - 1;
    assert s[m] in s && s[k] <= s[m];
    forall x: nat | x < n - 1
      ensures x in t
    {
      assert x in s;
      var j :| 0 <= j < |s| && s[j] == x;
      assert t[j] == x;
    }
    forall x | x in t
      ensures x < n - 1
    {
      var j :| 0 <= j < |t| && t[j] == x;
      assert s[j] < s[m];
    }
  }

  // ---- draining ----

  lemma DoneBelowActive(s: Sys, x: nat, i: nat)
    requires Ordered(s) && x in s.done && i < |s.q.active|
    ensures x < s.q.active[i].id < s.q.nextId
  {
    var all := s.done + Ids(s.q.active);
    var k :| 0 <= k < |s.done| && s.done[k] == x;
    assert all[|s.done| + i] == s.q.active[i].id && all[|s.done| + i] in all;
    assert all[k] < all[|s.done| + i];
  }

  lemma LastDoneDrains(s: Sys)
    requires Books(s) && s.q.nextId > 0 && s.q.nextId - 1 in s.done
    ensures s.q.active == []
  {
    if s.q.active != [] {
      DoneBelowActive(s, s.q.nextId - 1, 0);
    }
  }

  /** Waiting on the last handle drains everything: when that wait returns and nobody else waits, nothing is
      active, and a flush empties both lists. */
  lemma WaitOnLastDrains(s: Sys)
    requires Books(s) && s.q.nextId > 0 && Apply(s, Leave(s.q.nextId - 1)).Some?
    requires s.waiters == multiset{s.q.nextId - 1}
    ensures var s' := Apply(s, Leave(s.q.nextId - 1)).value;
            && s'.q.active == []
            && Apply(s', Flush).value.q.active == [] && Apply(s', Flush).value.q.inactive == []
  {
    hide Books, OnlyChanged, OnlyGone, Get, Apply;
    var id: nat := s.q.nextId - 1;
    LeaveInv(s, id);
    LastDoneDrains(s);
    LeaveCounts(s, id);
    var s' := Apply(s, Leave(id)).value;
    assert s.waiters[id] == 1 && s'.waiters == multiset{};
    GoneActive(s.q, s'.q, id);
    NobodyLeft(s');
  }

  lemma GoneActive(q: Queue, q': Queue, id: nat)
    requires OnlyGone(q, q', id)
    ensures q'.active == q.active
  {
  }

  /** With nobody waiting a flush empties what is left. */
  lemma NobodyLeft(s: Sys)
    requires Books(s) && s.q.active == [] && s.waiters == multiset{}
    ensures Apply(s, Flush).value.q.active == [] && Apply(s, Flush).value.q.inactive == []
  {
    hide Accounted, PinsMatch, Ordered, Unwaited, Ids;
    forall o | o in s.q.inactive
      ensures o.nwaiting == 0
    {
    }
    NobodyWaited(s.q.inactive);
  }

  lemma {:induction false} NobodyWaited(s: seq<Op>)
    requires forall o | o in s :: o.nwaiting == 0
    ensures Waited(s) == []
  {
    if s != [] { NobodyWaited(s[1..]); }
  }

  /** Steps of card and handler that remain until nothing is active. */
  function Rank(s: Sys): nat {
    5 * |s.q.active| + 4 * |s.starters| + 3 * Count(s.busy) + 2 * s.ending + Count(s.raised)
  }

  predicate CardStep(e: Event) {
    e.Start? || e.EndRun? || e.Raise? || e.Ack? || e.Next?
  }

  lemma CardStepsCountDown(s: Sys, e: Event)
    requires Inv(s) && CardStep(e) && Apply(s, e).Some?
    ensures Rank(Apply(s, e).value) < Rank(s)
  {
    hide Ordered, Accounted, PinsMatch, WaitersMatch, Ids;
  }

  /** Nothing ever gets stuck: while something is active one of those steps can happen. */
  lemma SomeCardStep(s: Sys) returns (e: Event)
    requires Inv(s) && s.q.active != []
    ensures CardStep(e) && Apply(s, e).Some?
  {
    hide Ordered, Accounted, PinsMatch, WaitersMatch, Ids;
    e := if s.starters != [] then Start(0) else if s.busy then EndRun else if s.ending > 0 then Raise
         else if s.raised then Ack else Next;
  }

  /** The state after some steps, if they can all happen. */
  function Goes(s: Sys, events: seq<Event>): Option<Sys>
    decreases |events|
  {
    if events == [] then Some(s)
    else
      match Apply(s, events[0])
      case None => None
      case Some(t) => Goes(t, events[1..])
  }

  /** From every reachable state steps of the card and the handler alone complete everything that is active. */
  lemma {:induction false} EverythingCompletes(s: Sys) returns (events: seq<Event>, s': Sys)
    requires Inv(s)
    ensures (forall e | e in events :: CardStep(e)) && Goes(s, events) == Some(s')
    ensures Inv(s') && s'.q.active == [] && s'.done == s.done + Ids(s.q.active) && s'.waiters == s.waiters
    decreases Rank(s)
  {
    if s.q.active == [] {
      assert Ids(s.q.active) == [];
      return [], s;
    }
    var e := SomeCardStep(s);
    CardStepsCountDown(s, e);
    StepInv(s, e);
    var t := Apply(s, e).value;
    CardStepHistory(s, e);
    hide Inv, Apply, Ids;
    var later;
    later, s' := EverythingCompletes(t);
    events := [e] + later;
    assert events[1..] == later;
  }

  /** So every thread that waits can return, once these steps have been done. */
  lemma WaiterReturns(s: Sys, id: nat) returns (events: seq<Event>, s': Sys)
    requires Inv(s) && id in s.waiters
    ensures (forall e | e in events :: CardStep(e)) && Goes(s, events) == Some(s') && Inv(s')
    ensures Apply(s', Leave(id)).Some?
  {
    events, s' := EverythingCompletes(s);
    hide Agree, Apply, Goes, Ids, Accounted, PinsMatch;
    IdsIn(s'.q.inactive, id);
    assert id in s'.waiters && id in Ids(s'.q.inactive) by { NoneIn(s'); }
    var i :| 0 <= i < |s'.q.inactive| && s'.q.inactive[i].id == id;
    assert s'.q.inactive[i] in s'.q.inactive;
    var op := CanLeave(s', id);
  }

  lemma NoneIn(s: Sys)
    requires s.q.active == []
    ensures Ids(s.q.active) == []
  {
  }

  lemma CardStepHistory(s: Sys, e: Event)
    requires Inv(s) && CardStep(e) && Apply(s, e).Some?
    ensures var t := Apply(s, e).value;
            t.done + Ids(t.q.active) == s.done + Ids(s.q.active) && t.waiters == s.waiters
  {
    hide Ordered, Accounted, PinsMatch, WaitersMatch, Ids;
    if e.Next? {
      NextAgree(s);
      NextIds(s.q);
      hide Apply, Advance;
      var h, rest := [s.q.active[0].id], Ids(Advance(s.q).active);
      assert (s.done + h) + rest == s.done + (h + rest);
    }
  }

  // ---- an unsafe flush ----

  const FIRST := Op(0, 0, false)
  const SECOND := Op(1, 0, false)
  const STARTED := BOOT.(q := Queue([FIRST], [], 1, multiset{0}), busy := true, inflight := Some(0))
  const FLUSHED := STARTED.(q := Queue([], [], 1, multiset{}), dropped := {0})
  const IGNORED := FLUSHED.(q := Queue([SECOND], [], 2, multiset{1}))
  const COMPLETED := IGNORED.(q := Queue([], [SECOND.(flag := true)], 2, multiset{}), busy := false, done := [1])

  lemma StartFirst()
    ensures Apply(BOOT, Submit) == Some(BOOT.(q := STARTED.q, starters := [0]))
    ensures Apply(BOOT.(q := STARTED.q, starters := [0]), Start(0)) == Some(STARTED)
    ensures !FlushSafe(STARTED)
  {
    assert OpsModel.Submit(BOOT.q).active == STARTED.q.active;
    assert OpsModel.Submit(BOOT.q).pinned == STARTED.q.pinned;
    assert [0][..0] + [0][1..] == [];
    assert BOOT.starters + [0] == [0];
  }

  lemma FlushFirst()
    ensures Apply(STARTED, Flush) == Some(FLUSHED)
  {
    assert [FIRST][1..] == [];
    assert Waited([FIRST]) == [];
    assert Unwaited([FIRST]) == [FIRST];
    assert Ids([FIRST]) == [0];
    assert (set i | i in Ids(Unwaited(STARTED.q.active))) == {0};
    assert OpsModel.Flush(STARTED.q).active == [] && OpsModel.Flush(STARTED.q).inactive == [];
    assert OpsModel.Flush(STARTED.q).pinned == FLUSHED.q.pinned;
    assert OpsModel.Flush(STARTED.q) == FLUSHED.q;
    var dropped := set i | i in Ids(Unwaited(STARTED.q.active));
    assert STARTED.dropped + dropped == {0};
    assert Apply(STARTED, Flush).value == FLUSHED;
  }

  lemma StartSecond()
    ensures Apply(FLUSHED, Submit) == Some(IGNORED.(starters := [1]))
    ensures Apply(IGNORED.(starters := [1]), Start(0)) == Some(IGNORED)
  {
    assert OpsModel.Submit(FLUSHED.q).active == IGNORED.q.active;
    assert OpsModel.Submit(FLUSHED.q).pinned == IGNORED.q.pinned;
    assert [1][..0] + [1][1..] == [];
    assert FLUSHED.starters + [1] == [1];
  }

  lemma CompleteSecond()
    ensures Apply(IGNORED, EndRun) == Some(IGNORED.(busy := false, ending := 1))
    ensures Apply(IGNORED.(busy := false, ending := 1), Raise) == Some(IGNORED.(busy := false, raised := true))
    ensures Apply(IGNORED.(busy := false, raised := true), Ack) == Some(IGNORED.(busy := false, handlers := 1))
    ensures Apply(IGNORED.(busy := false, handlers := 1), Next) == Some(COMPLETED)
  {
    assert Advance(IGNORED.q).active == COMPLETED.q.active && Advance(IGNORED.q).inactive == COMPLETED.q.inactive;
    assert Advance(IGNORED.q).pinned == COMPLETED.q.pinned;
    assert IGNORED.done + [1] == [1];
  }

  const EVENTS := [Submit, Start(0), Flush, Submit, Start(0), EndRun, Raise, Ack, Next]
  const STATES := [
    BOOT, BOOT.(q := STARTED.q, starters := [0]), STARTED, FLUSHED, IGNORED.(starters := [1]), IGNORED,
    IGNORED.(busy := false, ending := 1), IGNORED.(busy := false, raised := true),
    IGNORED.(busy := false, handlers := 1), COMPLETED
  ]

  /** What a flush of the operation in flight leads to: the start of the next operation is swallowed by the
      busy card, and the interrupt of the first one completes the second, which never ran. */
  lemma UnsafeFlushExample()
    ensures Run(STATES, EVENTS) && EVENTS == [Submit, Start(0), Flush, Submit, Start(0), EndRun, Raise, Ack, Next]
    ensures STATES[2].inflight == Some(0) && !FlushSafe(STATES[2])
    ensures STATES[4].busy && STATES[5].inflight == STATES[8].inflight == Some(0)
    ensures STATES[9].done == [1]
  {
    StartFirst();
    FlushFirst();
    StartSecond();
    CompleteSecond();
    hide Apply;
    forall i | 0 <= i < |EVENTS|
      ensures GoesTo(STATES[i], EVENTS[i], STATES[i + 1])
    {
    }
  }
}
