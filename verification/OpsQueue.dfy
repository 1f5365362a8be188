/** The driver's queue of transfers (src/sw/kernel/psipe_queue.c): first its operations as functions on
    values, then the queue object whose methods are proved to compute them. */
module OpsModel {
  /** One transfer: its handle, how many threads wait for it, whether it has completed. */
  datatype Op = Op(id: nat, nwaiting: nat, flag: bool)

  /** pinned counts, for each operation, how often its pages have been pinned and not unpinned. */
  datatype Queue = Queue(active: seq<Op>, inactive: seq<Op>, nextId: nat, pinned: multiset<nat>)

  function Ids(s: seq<Op>): (r: seq<nat>)
    ensures |r| == |s|
  {
    seq(|s|, i requires 0 <= i < |s| => s[i].id)
  }

  /** psipe_ops_init: pin, then append with the next handle. */
  function Submit(q: Queue): Queue {
    Queue(q.active + [Op(q.nextId, 0, false)], q.inactive, q.nextId + 1, q.pinned + multiset{q.nextId})
  }

  /** psipe_ops_next with psipe_ops_fini: the head is unpinned, moved and marked. */
  function Advance(q: Queue): Queue {
    if q.active == [] then q
    else
      var h := q.active[0];
      Queue(q.active[1..], q.inactive + [h.(flag := true)], q.nextId, q.pinned - multiset{h.id})
  }

  /** The operation with this handle gets another number of waiters. */
  function SetWaiting(s: seq<Op>, id: nat, n: nat): (r: seq<Op>)
    ensures |r| == |s|
  {
    seq(|s|, i requires 0 <= i < |s| => if s[i].id == id then s[i].(nwaiting := n) else s[i])
  }

  function Without(s: seq<Op>, id: nat): seq<Op> {
    if s == [] then []
    else if s[0].id == id then Without(s[1..], id)
    else [s[0]] + Without(s[1..], id)
  }

  /** Those that threads wait for: what a flush leaves. */
  function Waited(s: seq<Op>): seq<Op> {
    if s == [] then []
    else if s[0].nwaiting > 0 then [s[0]] + Waited(s[1..])
    else Waited(s[1..])
  }

  /** Number of waiters after a change, and removal once nobody waits any more. */
  function Enter(q: Queue, op: Op): Queue {
    q.(active := SetWaiting(q.active, op.id, op.nwaiting + 1),
       inactive := SetWaiting(q.inactive, op.id, op.nwaiting + 1))
  }

  function Leave(q: Queue, op: Op): Queue
    requires op.nwaiting > 0
  {
    if op.nwaiting == 1 then
      q.(active := Without(q.active, op.id), inactive := Without(q.inactive, op.id))
    else
      q.(active := SetWaiting(q.active, op.id, op.nwaiting - 1),
         inactive := SetWaiting(q.inactive, op.id, op.nwaiting - 1))
  }

  /** psipe_ops_flush: operations nobody waits for are dropped from both lists, those still queued unpinned. */
  function Flush(q: Queue): Queue {
    Queue(Waited(q.active), Waited(q.inactive), q.nextId, Unpinned(q.pinned, q.active))
  }

  function Unwaited(s: seq<Op>): seq<Op> {
    if s == [] then []
    else if s[0].nwaiting > 0 then Unwaited(s[1..])
    else [s[0]] + Unwaited(s[1..])
  }

  ghost predicate DistinctIds(s: seq<Op>) {
    forall i, j | 0 <= i < j < |s| :: s[i].id != s[j].id
  }

  ghost predicate Apart(a: seq<Op>, b: seq<Op>) {
    forall i, j | 0 <= i < |a| && 0 <= j < |b| :: a[i].id != b[j].id
  }

  /** A flush keeps handles distinct. */
  lemma {:induction false} WaitedDistinct(s: seq<Op>)
    requires DistinctIds(s)
    ensures DistinctIds(Waited(s))
    ensures forall t: seq<Op> :: Apart(s, t) ==> Apart(Waited(s), t)
  {
    if s != [] {
      WaitedDistinct(s[1..]);
      forall i | 0 <= i < |Waited(s[1..])|
        ensures Waited(s[1..])[i].id != s[0].id
      {
        WaitedMembers(s[1..], Waited(s[1..])[i]);
      }
      forall t: seq<Op> | Apart(s, t)
        ensures Apart(s[1..], t)
      {
      }
    }
  }

  lemma {:induction false} WithoutMembers(s: seq<Op>, id: nat, o: Op)
    ensures o in Without(s, id) <==> o in s && o.id != id
  {
    if s != [] { WithoutMembers(s[1..], id, o); }
  }

  lemma {:induction false} WaitedMembers(s: seq<Op>, o: Op)
    ensures o in Waited(s) <==> o in s && o.nwaiting > 0
    ensures o in Unwaited(s) <==> o in s && o.nwaiting == 0
  {
    if s != [] { WaitedMembers(s[1..], o); }
  }

  lemma {:induction false} WithoutAbsent(s: seq<Op>, id: nat)
    requires forall i | 0 <= i < |s| :: s[i].id != id
    ensures Without(s, id) == s
  {
    if s != [] { WithoutAbsent(s[1..], id); }
  }

  lemma RemoveAt(a: seq<Op>, b: seq<Op>, i: nat, r: seq<Op>)
    requires i < |a| && DistinctIds(a) && Apart(a, b) && r == a[..i] + a[i + 1..]
    ensures DistinctIds(r) && Apart(r, b)
    ensures Without(a, a[i].id) == r && Without(b, a[i].id) == b
    ensures forall j | 0 <= j < |r| :: r[j].id != a[i].id
    ensures forall j | 0 <= j < |b| :: b[j].id != a[i].id
  {
    hide Without;
    forall j | 0 <= j < |b|
      ensures b[j].id != a[i].id
    {
    }
    WithoutAt(a, i);
    WithoutAbsent(b, a[i].id);
    forall j | 0 <= j < |r|
      ensures r[j] == a[if j < i then j else j + 1]
    {
    }
  }

  lemma SetWaitingDistinct(a: seq<Op>, b: seq<Op>, id: nat, n: nat)
    requires DistinctIds(a) && DistinctIds(b) && Apart(a, b)
    ensures DistinctIds(SetWaiting(a, id, n)) && DistinctIds(SetWaiting(b, id, n))
    ensures Apart(SetWaiting(a, id, n), SetWaiting(b, id, n))
  {
  }

  /** Completing the head keeps handles distinct. */
  lemma AdvanceDistinct(a: seq<Op>, b: seq<Op>)
    requires a != [] && DistinctIds(a) && DistinctIds(b) && Apart(a, b)
    ensures var c := b + [a[0].(flag := true)];
            DistinctIds(a[1..]) && DistinctIds(c) && Apart(a[1..], c)
  {
    var c := b + [a[0].(flag := true)];
    forall i | 0 <= i < |b|
      ensures c[i].id != a[0].id
    {
      assert a[0].id != b[i].id;
    }
    forall i, j | 0 <= i < |a| - 1 && 0 <= j < |c|
      ensures a[1..][i].id != c[j].id
    {
      if j < |b| {
        assert a[i + 1].id != b[j].id;
      } else {
        assert a[0].id != a[i + 1].id;
      }
    }
  }

  lemma ApartSymmetric(a: seq<Op>, b: seq<Op>)
    requires Apart(a, b)
    ensures Apart(b, a)
  {
  }

  /** A flush has looked at n operations of s and kept i of them; v is the list as it stands. */
  ghost predicate Flushing(s: seq<Op>, n: nat, i: nat, v: seq<Op>) {
    n <= |s| && i == |Waited(s[..n])| && v == Waited(s[..n]) + s[n..]
  }

  function Unpinned(p: multiset<nat>, s: seq<Op>): multiset<nat> {
    p - multiset(Ids(Unwaited(s)))
  }

  lemma FlushStart(p: multiset<nat>, s: seq<Op>)
    ensures Flushing(s, 0, 0, s) && Unpinned(p, s[..0]) == p
  {
  }

  lemma FlushEnd(s: seq<Op>, n: nat, i: nat, v: seq<Op>)
    requires Flushing(s, n, i, v) && i >= |v|
    ensures v == Waited(s) && s[..n] == s
  {
    assert n == |s| && s[..n] == s;
  }

  /** One more operation looked at. */
  lemma FlushStep(s: seq<Op>, n: nat, i: nat, v: seq<Op>, p: multiset<nat>)
    requires Flushing(s, n, i, v) && i < |v|
    ensures n < |s| && v[i] == s[n]
    ensures s[n].nwaiting == 0 ==>
              && Flushing(s, n + 1, i, v[..i] + v[i + 1..])
              && Unpinned(p, s[..n + 1]) == Unpinned(p, s[..n]) - multiset{s[n].id}
    ensures s[n].nwaiting > 0 ==>
              Flushing(s, n + 1, i + 1, v) && Unpinned(p, s[..n + 1]) == Unpinned(p, s[..n])
  {
    assert s[..n + 1] == s[..n] + [s[n]];
    WaitedAppend(s[..n], [s[n]]);
    var w, u := Waited(s[..n]), Unwaited(s[..n]);
    if s[n].nwaiting == 0 {
      assert Waited(s[..n + 1]) == w && Unwaited(s[..n + 1]) == u + [s[n]];
      hide Waited, Unwaited;
      assert Ids(u + [s[n]]) == Ids(u) + [s[n].id];
      MonusTwice(p, multiset(Ids(u)), s[n].id);
    } else {
      assert Waited(s[..n + 1]) == w + [s[n]] && Unwaited(s[..n + 1]) == u;
      hide Waited, Unwaited;
    }
  }

  /** A flush that has looked at n operations and left these pins. */
  ghost predicate Turning(s: seq<Op>, n: nat, i: nat, v: seq<Op>, p: multiset<nat>, left: multiset<nat>) {
    Flushing(s, n, i, v) && left == Unpinned(p, s[..n])
  }

  lemma TurnStart(s: seq<Op>, p: multiset<nat>)
    ensures Turning(s, 0, 0, s, p, p)
  {
    FlushStart(p, s);
  }

  lemma TurnStep(s: seq<Op>, n: nat, i: nat, v: seq<Op>, p: multiset<nat>, left: multiset<nat>)
    requires Turning(s, n, i, v, p, left) && i < |v|
    ensures n < |s|
    ensures v[i].nwaiting == 0 ==> Turning(s, n + 1, i, v[..i] + v[i + 1..], p, left - multiset{v[i].id})
    ensures v[i].nwaiting > 0 ==> Turning(s, n + 1, i + 1, v, p, left)
  {
    hide Unpinned;
    FlushStep(s, n, i, v, p);
    hide Flushing;
  }

  lemma TurnEnd(s: seq<Op>, n: nat, i: nat, v: seq<Op>, p: multiset<nat>, left: multiset<nat>)
    requires Turning(s, n, i, v, p, left) && i >= |v|
    ensures v == Waited(s) && left == Unpinned(p, s)
  {
    hide Unpinned;
    FlushEnd(s, n, i, v);
  }

  lemma MonusTwice(p: multiset<nat>, a: multiset<nat>, x: nat)
    ensures p - a - multiset{x} == p - (a + multiset{x})
  {
    forall y
      ensures (p - a - multiset{x})[y] == (p - (a + multiset{x}))[y]
    {
    }
  }

  lemma {:induction false} WithoutSetWaiting(s: seq<Op>, id: nat, n: nat)
    ensures Without(SetWaiting(s, id, n), id) == Without(s, id)
  {
    if s != [] {
      assert SetWaiting(s, id, n)[1..] == SetWaiting(s[1..], id, n);
      WithoutSetWaiting(s[1..], id, n);
    }
  }

  /** Taking out the operation at position i. */
  lemma {:induction false} WithoutAt(s: seq<Op>, i: nat)
    requires i < |s| && DistinctIds(s)
    ensures Without(s, s[i].id) == s[..i] + s[i + 1..]
  {
    if i == 0 {
      WithoutAbsent(s[1..], s[0].id);
    } else {
      WithoutAt(s[1..], i - 1);
      assert s[..i] + s[i + 1..] == [s[0]] + (s[1..][..i - 1] + s[1..][i..]);
    }
  }

  lemma {:induction false} WaitedAppend(a: seq<Op>, b: seq<Op>)
    ensures Waited(a + b) == Waited(a) + Waited(b) && Unwaited(a + b) == Unwaited(a) + Unwaited(b)
  {
    if a == [] {
      assert a + b == b;
    } else {
      WaitedAppend(a[1..], b);
      WaitedCons(a[0], a[1..]);
      WaitedCons(a[0], a[1..] + b);
      hide Waited, Unwaited;
      assert a + b == [a[0]] + (a[1..] + b) && a == [a[0]] + a[1..];
      Regroup(if a[0].nwaiting > 0 then [a[0]] else [], Waited(a[1..]), Waited(b));
      Regroup(if a[0].nwaiting > 0 then [] else [a[0]], Unwaited(a[1..]), Unwaited(b));
    }
  }

  lemma WaitedCons(o: Op, s: seq<Op>)
    ensures Waited([o] + s) == (if o.nwaiting > 0 then [o] else []) + Waited(s)
    ensures Unwaited([o] + s) == (if o.nwaiting > 0 then [] else [o]) + Unwaited(s)
  {
    assert ([o] + s)[1..] == s;
  }

  lemma Regroup(a: seq<Op>, b: seq<Op>, c: seq<Op>)
    ensures (a + b) + c == a + (b + c)
  {
  }
}

module OpsQueue {
  import opened OpsModel

  /** struct psipe_op. */
  class PsipeOp {
    var id: nat
    var nwaiting: nat
    var flag: bool

    constructor ()
      ensures nwaiting == 0 && !flag
    {
      id, nwaiting, flag := 0, 0, false;
    }

    function Value(): Op
      reads this
    {
      Op(id, nwaiting, flag)
    }
  }

  /** struct psipe_ops. The lists hold the operations themselves, in order; each method is one critical
      section. */
  class PsipeOps {
    var active: seq<PsipeOp>
    var inactive: seq<PsipeOp>
    var nextId: nat
    var pinned: multiset<nat>

    constructor ()
      ensures Valid() && Model() == Queue([], [], 0, multiset{})
    {
      active, inactive, nextId, pinned := [], [], 0, multiset{};
    }

    static ghost function View(s: seq<PsipeOp>): (r: seq<Op>)
      reads s
      ensures |r| == |s| && forall i | 0 <= i < |s| :: r[i] == s[i].Value()
    {
      seq(|s|, i requires 0 <= i < |s| reads s => s[i].Value())
    }

    ghost function Model(): Queue
      reads this, active, inactive
    {
      Queue(View(active), View(inactive), nextId, pinned)
    }

    /** Handles are below the next one and differ from each other, so no operation is linked twice; the
        flag tells the lists apart. */
    ghost predicate Valid()
      reads this, active, inactive
    {
      && DistinctIds(View(active)) && DistinctIds(View(inactive)) && Apart(View(active), View(inactive))
      && (forall o | o in active :: o.id < nextId && !o.flag)
      && (forall o | o in inactive :: o.id < nextId && o.flag)
    }

    /** Appends a new operation; tells whether it must be started at once. */
    method Init(op: PsipeOp) returns (id: nat, empty: bool)
      requires Valid() && op !in active && op !in inactive && op.nwaiting == 0 && !op.flag
      modifies this, op`id
      ensures Valid() && Model() == Submit(old(Model()))
      ensures id == old(nextId) == op.id && active == old(active) + [op] && empty == (old(active) == [])
    {
      ghost var a, b := View(active), View(inactive);
      pinned := pinned + multiset{nextId};
      empty := active == [];
      active := active + [op];
      op.id := nextId;
      nextId := nextId + 1;
      id := op.id;
      assert View(active) == a + [Op(id, 0, false)];
      assert View(inactive) == b;
    }

    /** Completes the head, if there is one; the new head, if there is one, is to be started. */
    method Next() returns (start: PsipeOp?)
      requires Valid()
      modifies this, if active == [] then {} else {active[0]}
      ensures Valid() && Model() == Advance(old(Model()))
      ensures start == if |old(active)| > 1 then old(active)[1] else null
    {
      if active == [] { return null; }
      var op := active[0];
      ghost var a, b := View(active), View(inactive);
      HeadElsewhere();
      AdvanceDistinct(a, b);
      hide DistinctIds, Apart;
      pinned := pinned - multiset{op.id};
      active, inactive := active[1..], inactive + [op];
      op.flag := true;
      assert View(active) == a[1..];
      assert View(inactive) == b + [a[0].(flag := true)];
      start := if active == [] then null else active[0];
    }

    /** The head is linked once. */
    lemma HeadElsewhere()
      requires Valid() && active != []
      ensures active[0] !in active[1..] && active[0] !in inactive
    {
      var h := active[0];
      forall i | 1 <= i < |active|
        ensures active[i] != h
      {
        assert View(active)[0].id != View(active)[i].id;
      }
      forall i | 0 <= i < |inactive|
        ensures inactive[i] != h
      {
        assert View(active)[0].id != View(inactive)[i].id;
      }
    }

    /** The operation with this handle, exactly when it is in one of the two lists. */
    method Get(id: nat) returns (op: PsipeOp?)
      requires Valid()
      ensures op != null ==> op.id == id && (op in active || op in inactive)
      ensures op == null ==> forall o | o in active || o in inactive :: o.id != id
    {
      if id >= nextId { return null; }
      for i := 0 to |active|
        invariant forall o | o in active[..i] :: o.id != id
      {
        if active[i].id == id { return active[i]; }
      }
      assert active[..|active|] == active;
      for i := 0 to |inactive|
        invariant forall o | o in inactive[..i] :: o.id != id
      {
        if inactive[i].id == id { return inactive[i]; }
      }
      assert inactive[..|inactive|] == inactive;
      op := null;
    }

    lemma InView(o: PsipeOp)
      requires o in active || o in inactive
      ensures o in active ==> exists i :: 0 <= i < |active| && active[i] == o && View(active)[i].id == o.id
      ensures o in inactive ==> exists i :: 0 <= i < |inactive| && inactive[i] == o && View(inactive)[i].id == o.id
    {
      if o in active {
        var i :| 0 <= i < |active| && active[i] == o;
        assert View(active)[i].id == o.id;
      }
      if o in inactive {
        var i :| 0 <= i < |inactive| && inactive[i] == o;
        assert View(inactive)[i].id == o.id;
      }
    }

    /** No other operation in the lists has this one's handle. */
    lemma OnlyOne(op: PsipeOp)
      requires Valid() && (op in active || op in inactive)
      ensures forall o | o in active || o in inactive :: o.id == op.id ==> o == op
    {
      var a, b := View(active), View(inactive);
      forall o | (o in active || o in inactive) && o.id == op.id
        ensures o == op
      {
        InView(o);
        InView(op);
      }
    }

    /** psipe_ops_wait up to the sleep: one more waiter. Looking the operation up and counting the waiter
        are one step. */
    method WaitEnter(op: PsipeOp)
      requires Valid() && (op in active || op in inactive)
      modifies op`nwaiting
      ensures Valid() && Model() == Enter(old(Model()), old(op.Value()))
    {
      ghost var a, b := View(active), View(inactive);
      OnlyOne(op);
      SetWaitingDistinct(a, b, op.id, op.nwaiting + 1);
      hide DistinctIds, Apart;
      op.nwaiting := op.nwaiting + 1;
      assert View(active) == SetWaiting(a, op.id, op.nwaiting);
      assert View(inactive) == SetWaiting(b, op.id, op.nwaiting);
    }

    /** list_del of a completed operation: it is in the inactive list. */
    method Unlink(op: PsipeOp)
      requires Valid() && op in inactive
      modifies this`inactive
      ensures Valid() && op !in active && op !in inactive
      ensures View(active) == Without(old(View(active)), op.id)
      ensures View(inactive) == Without(old(View(inactive)), op.id)
    {
      ghost var a, b := View(active), View(inactive);
      hide Without;
      var i :| 0 <= i < |inactive| && inactive[i] == op;
      ghost var r := b[..i] + b[i + 1..];
      ApartSymmetric(a, b);
      RemoveAt(b, a, i, r);
      ApartSymmetric(r, a);
      hide DistinctIds, Apart;
      Drop(inactive, i, inactive[..i] + inactive[i + 1..]);
      inactive := inactive[..i] + inactive[i + 1..];
      assert forall j | 0 <= j < |inactive| :: r[j].id != op.id && inactive[j].id == r[j].id;
    }

    /** psipe_ops_wait after the wake-up: the last waiter removes the operation. */
    method WaitLeave(op: PsipeOp) returns (freed: bool)
      requires Valid() && (op in active || op in inactive) && op.flag && op.nwaiting > 0
      modifies this`inactive, op`nwaiting
      ensures Valid() && Model() == Leave(old(Model()), old(op.Value()))
      ensures freed <==> op.nwaiting == 0
      ensures freed ==> op !in active && op !in inactive
    {
      ghost var a, b := View(active), View(inactive);
      OnlyOne(op);
      SetWaitingDistinct(a, b, op.id, op.nwaiting - 1);
      hide Without, DistinctIds, Apart;
      op.nwaiting := op.nwaiting - 1;
      assert View(active) == SetWaiting(a, op.id, op.nwaiting);
      assert View(inactive) == SetWaiting(b, op.id, op.nwaiting);
      hide SetWaiting;
      freed := op.nwaiting == 0;
      if freed {
        WithoutSetWaiting(a, op.id, 0);
        WithoutSetWaiting(b, op.id, 0);
        Unlink(op);
      }
    }

    /** list_del of the i-th entry. */
    static lemma Drop(s: seq<PsipeOp>, i: nat, t: seq<PsipeOp>)
      requires i < |s| && t == s[..i] + s[i + 1..]
      ensures View(t) == View(s)[..i] + View(s)[i + 1..]
      ensures forall o | o in t :: o in s
    {
      var v := View(s);
      forall j | 0 <= j < |t|
        ensures View(t)[j] == (v[..i] + v[i + 1..])[j]
      {
      }
    }

    /** The loop over one list: entries that nobody waits for are deleted; pins loses them. */
    static method FlushList(s: seq<PsipeOp>, pins: multiset<nat>) returns (list: seq<PsipeOp>, left: multiset<nat>)
      ensures View(list) == Waited(View(s)) && forall o | o in list :: o in s
      ensures left == Unpinned(pins, View(s))
    {
      ghost var a := View(s);
      ghost var done := 0;
      var i := 0;
      list, left := s, pins;
      hide Waited, Unpinned, Turning;
      TurnStart(a, pins);
      while i < |list|
        invariant Turning(a, done, i, View(list), pins, left)
        invariant forall o | o in list :: o in s
        decreases |a| - done
      {
        TurnStep(a, done, i, View(list), pins, left);
        if list[i].nwaiting == 0 {
          Drop(list, i, list[..i] + list[i + 1..]);
          left := left - multiset{list[i].id};
          list := list[..i] + list[i + 1..];
        } else {
          i := i + 1;
        }
        done := done + 1;
      }
      TurnEnd(a, done, i, View(list), pins, left);
    }

    /** The active list: what is deleted is unpinned. */
    method FlushActive()
      modifies this`active, this`pinned
      ensures View(active) == Waited(old(View(active))) && forall o | o in active :: o in old(active)
      ensures pinned == Unpinned(old(pinned), old(View(active)))
    {
      hide Waited, Unpinned;
      active, pinned := FlushList(active, pinned);
    }

    /** The inactive list: nothing in it is pinned any more. */
    method FlushInactive()
      modifies this`inactive
      ensures View(inactive) == Waited(old(View(inactive))) && forall o | o in inactive :: o in old(inactive)
    {
      hide Waited, Unpinned;
      var ignored;
      inactive, ignored := FlushList(inactive, multiset{});
    }

    /** Frees every operation that has no waiters, unpinning those still queued. */
    method Flush()
      requires Valid()
      modifies this`active, this`inactive, this`pinned
      ensures Valid() && Model() == OpsModel.Flush(old(Model()))
    {
      ghost var a, b := View(active), View(inactive);
      WaitedDistinct(a);
      WaitedDistinct(b);
      ApartSymmetric(Waited(a), b);
      ApartSymmetric(Waited(b), Waited(a));
      hide Waited, Unpinned, DistinctIds, Apart;
      FlushActive();
      FlushInactive();
    }
  }
}
