/** The RTEMS mailbox of sys_arch.c: a counting semaphore of free slots in front of a
    message queue. Post and fetch are two kernel calls each, so any number of threads can
    be between them; each kernel call is one step. */
module Mailbox {

  type Tid = nat
  type Msg = int
  datatype Item = Item(sender: Tid, msg: Msg)

  /** What one thread does next: a kernel call inside one of the mailbox operations. */
  datatype Step =
    | Obtain(t: Tid, m: Msg)   // post or trypost takes a slot, or trypost reports ERR_MEM
    | Send(t: Tid)             // post or trypost puts its message into the queue
    | Receive(t: Tid)          // fetch or tryfetch takes a message, or finds none
    | Release(t: Tid)          // fetch or tryfetch gives the slot back

  datatype Outcome = Blocked | ErrMem | Empty | Taken | Sent | Overflow | Got(m: Msg) | Returned

  /** The mailbox and, for each thread inside an operation, what it holds: a slot for a
      message not yet sent, or a message whose slot is not yet returned. asked, accepted
      and fetched log the slots obtained, the messages queued and the messages taken. */
  datatype Mbox = Mbox(size: nat, sem: nat, queue: seq<Item>,
                       posting: map<Tid, Msg>, releasing: map<Tid, Msg>,
                       asked: seq<Item>, accepted: seq<Item>, fetched: seq<Item>)

  /** sys_mbox_new. */
  function New(size: nat): Mbox { Mbox(size, size, [], map[], map[], [], [], []) }

  /** One kernel call. A call that cannot be made by this thread now is Blocked. The
      status of the queue send is ignored by the callers, so a full queue loses the
      message. */
  function Do(s: Mbox, step: Step): (Mbox, Outcome) {
    match step
    case Obtain(t, m) =>
      if t in s.posting || t in s.releasing then (s, Blocked)
      else if s.sem == 0 then (s, ErrMem)
      else (s.(sem := s.sem - 1, posting := s.posting[t := m], asked := s.asked + [Item(t, m)]), Taken)
    case Send(t) =>
      if t !in s.posting then (s, Blocked)
      else
        var i := Item(t, s.posting[t]);
        var s' := s.(posting := s.posting - {t});
        if |s.queue| < s.size then (s'.(queue := s.queue + [i], accepted := s.accepted + [i]), Sent)
        else (s', Overflow)
    case Receive(t) =>
      if t in s.posting || t in s.releasing then (s, Blocked)
      else if s.queue == [] then (s, Empty)
      else (s.(queue := s.queue[1..], releasing := s.releasing[t := s.queue[0].msg],
               fetched := s.fetched + [s.queue[0]]), Got(s.queue[0].msg))
    case Release(t) =>
      if t !in s.releasing then (s, Blocked)
      else (s.(releasing := s.releasing - {t}, sem := s.sem + 1), Returned)
  }

  function Run(s: Mbox, steps: seq<Step>): Mbox
    decreases steps
  {
    if steps == [] then s else Run(Do(s, steps[0]).0, steps[1..])
  }

  /** A run is its steps one after the other. */
  lemma {:induction false} RunSnoc(s: Mbox, steps: seq<Step>, step: Step)
    ensures Run(s, []) == s && Run(s, steps + [step]) == Do(Run(s, steps), step).0
    decreases steps
  {
    hide Do;
    if steps == [] {
      assert ([] + [step])[1..] == [];
    } else {
      RunSnoc(Do(s, steps[0]).0, steps[1..], step);
      assert (steps + [step])[1..] == steps[1..] + [step];
    }
  }

  function One(i: Item, t: Tid): seq<Msg> {
    if i.sender == t then [i.msg] else []
  }

  /** The messages of one sender, in order. */
  function From(items: seq<Item>, t: Tid): seq<Msg> {
    if items == [] then [] else One(items[0], t) + From(items[1..], t)
  }

  function Pending(s: Mbox, t: Tid): seq<Msg> {
    if t in s.posting then [s.posting[t]] else []
  }

  /** Every slot is accounted for. */
  ghost predicate Slots(s: Mbox) {
    && s.sem + |s.queue| + |s.posting| + |s.releasing| == s.size
    && (forall t :: t in s.posting ==> t !in s.releasing)
  }

  /** Each sender's messages are queued in the order it asked, the last one perhaps not yet. */
  ghost predicate Logs(s: Mbox) {
    forall t :: From(s.asked, t) == From(s.accepted, t) + Pending(s, t)
  }

  /** What was queued is, in order, what was taken and what waits. */
  ghost predicate Inv(s: Mbox) {
    Slots(s) && Logs(s) && s.accepted == s.fetched + s.queue
  }

  lemma {:induction false} FromAppend(a: seq<Item>, b: seq<Item>, t: Tid)
    ensures From(a + b, t) == From(a, t) + From(b, t)
  {
    if a == [] {
      assert a + b == b;
    } else {
      hide One;
      assert (a + b)[0] == a[0] && (a + b)[1..] == a[1..] + b;
      FromAppend(a[1..], b, t);
      assert One(a[0], t) + (From(a[1..], t) + From(b, t)) == One(a[0], t) + From(a[1..], t) + From(b, t);
    }
  }

  lemma FromSnoc(items: seq<Item>, i: Item, t: Tid)
    ensures From(items + [i], t) == From(items, t) + One(i, t)
    ensures From(items + [i], t) == From(items, t) + if i.sender == t then [i.msg] else []
    ensures From([], t) == []
  {
    FromAppend(items, [i], t);
    assert From([i], t) == One(i, t) + From([], t);
  }

  lemma AddKey(m: map<Tid, Msg>, t: Tid, v: Msg)
    requires t !in m
    ensures |m[t := v]| == |m| + 1
  {
    assert m[t := v].Keys == m.Keys + {t};
  }

  lemma DropKey(m: map<Tid, Msg>, t: Tid)
    requires t in m
    ensures |m - {t}| == |m| - 1
  {
    assert (m - {t}).Keys == m.Keys - {t};
  }

  /** A thread with a slot in hand always finds room in the queue. */
  lemma NeverFull(s: Mbox)
    requires Slots(s)
    ensures s.posting != map[] ==> |s.queue| < s.size
  {
    if s.posting != map[] {
      var t :| t in s.posting;
      DropKey(s.posting, t);
    }
  }

  /** One sender's log when a slot is asked for, and when a message is queued. */
  lemma AskedNext(s: Mbox, u: Tid, m: Msg, t: Tid)
    requires Logs(s) && u !in s.posting
    ensures From(s.asked + [Item(u, m)], t) ==
            From(s.accepted, t) + if t == u then [m] else Pending(s, t)
  {
    hide From;
    FromSnoc(s.asked, Item(u, m), t);
    assert From(s.asked, t) == From(s.accepted, t) + Pending(s, t);
  }

  lemma AcceptedNext(s: Mbox, u: Tid, t: Tid)
    requires Logs(s) && u in s.posting
    ensures From(s.asked, t) ==
            From(s.accepted + [Item(u, s.posting[u])], t) + if t == u then [] else Pending(s, t)
  {
    hide From;
    FromSnoc(s.accepted, Item(u, s.posting[u]), t);
    assert From(s.asked, t) == From(s.accepted, t) + Pending(s, t);
  }

  lemma LogsKeptObtain(s: Mbox, u: Tid, m: Msg)
    requires Logs(s)
    ensures Logs(Do(s, Obtain(u, m)).0)
  {
    hide From;
    var s' := Do(s, Obtain(u, m)).0;
    forall t
      ensures From(s'.asked, t) == From(s'.accepted, t) + Pending(s', t)
    {
      assert From(s.asked, t) == From(s.accepted, t) + Pending(s, t);
      if u !in s.posting {
        AskedNext(s, u, m, t);
      }
    }
  }

  lemma LogsKeptSend(s: Mbox, u: Tid)
    requires Logs(s) && (s.posting != map[] ==> |s.queue| < s.size)
    ensures Logs(Do(s, Send(u)).0)
  {
    hide From;
    var s' := Do(s, Send(u)).0;
    forall t
      ensures From(s'.asked, t) == From(s'.accepted, t) + Pending(s', t)
    {
      assert From(s.asked, t) == From(s.accepted, t) + Pending(s, t);
      if u in s.posting {
        AcceptedNext(s, u, t);
      }
    }
  }

  lemma LogsKeptFetch(s: Mbox, step: Step)
    requires Logs(s) && (step.Receive? || step.Release?)
    ensures Logs(Do(s, step).0)
  {
    hide From;
    var s' := Do(s, step).0;
    forall t
      ensures From(s'.asked, t) == From(s'.accepted, t) + Pending(s', t)
    {
      assert From(s.asked, t) == From(s.accepted, t) + Pending(s, t);
    }
  }

  lemma LogsKept(s: Mbox, step: Step)
    requires Slots(s) && Logs(s)
    ensures Logs(Do(s, step).0)
  {
    hide Logs, Do;
    match step
    case Obtain(u, m) => LogsKeptObtain(s, u, m);
    case Send(u) =>
      NeverFull(s);
      LogsKeptSend(s, u);
    case _ => LogsKeptFetch(s, step);
  }

  lemma SlotsKept(s: Mbox, step: Step)
    requires Slots(s)
    ensures Slots(Do(s, step).0)
  {
    match step
    case Obtain(t, m) => SlotsKeptObtain(s, t, m);
    case Send(t) => SlotsKeptSend(s, t);
    case Receive(t) => SlotsKeptReceive(s, t);
    case Release(t) => SlotsKeptRelease(s, t);
  }

  lemma SlotsKeptObtain(s: Mbox, t: Tid, m: Msg)
    requires Slots(s)
    ensures Slots(Do(s, Obtain(t, m)).0)
  {
    if t !in s.posting {
      AddKey(s.posting, t, m);
    }
  }

  lemma SlotsKeptSend(s: Mbox, t: Tid)
    requires Slots(s)
    ensures Slots(Do(s, Send(t)).0)
  {
    NeverFull(s);
    if t in s.posting {
      DropKey(s.posting, t);
    }
  }

  lemma SlotsKeptReceive(s: Mbox, t: Tid)
    requires Slots(s)
    ensures Slots(Do(s, Receive(t)).0)
  {
    if t !in s.releasing && s.queue != [] {
      AddKey(s.releasing, t, s.queue[0].msg);
    }
  }

  lemma SlotsKeptRelease(s: Mbox, t: Tid)
    requires Slots(s)
    ensures Slots(Do(s, Release(t)).0)
  {
    if t in s.releasing {
      DropKey(s.releasing, t);
    }
  }

  /** One step of any thread keeps the invariant, and the queue send never overflows. */
  lemma StepKeeps(s: Mbox, step: Step)
    requires Inv(s)
    ensures Inv(Do(s, step).0)
    ensures Do(s, step).1 != Overflow
  {
    LogsKept(s, step);
    SlotsKept(s, step);
    NeverFull(s);
    hide Slots, Logs;
    if s.queue != [] {
      assert s.fetched + s.queue == s.fetched + [s.queue[0]] + s.queue[1..];
    }
  }

  lemma {:induction false} RunKeeps(s: Mbox, steps: seq<Step>)
    requires Inv(s)
    ensures Inv(Run(s, steps)) && Run(s, steps).size == s.size
    decreases steps
  {
    if steps != [] {
      StepKeeps(s, steps[0]);
      RunKeeps(Do(s, steps[0]).0, steps[1..]);
    }
  }

  /** Every interleaving of any number of threads: the slots add up, and what is fetched
      is, in order, a prefix of what was queued, the rest being in the queue; per sender
      it is a prefix of what that sender asked to post, nothing lost or reordered. The mailbox starts
      empty, with all slots free and nothing in the logs. */
  lemma MailboxSafe(size: nat, steps: seq<Step>, t: Tid)
    ensures New(size) == Mbox(size, size, [], map[], map[], [], [], [])
    ensures var s := Run(New(size), steps);
            && s.sem + |s.queue| + |s.posting| + |s.releasing| == size
            && |s.queue| <= size
            && s.accepted == s.fetched + s.queue
            && From(s.asked, t) ==
               From(s.fetched, t) + From(s.queue, t) + if t in s.posting then [s.posting[t]] else []
  {
    RunKeeps(New(size), steps);
    var s := Run(New(size), steps);
    FromAppend(s.fetched, s.queue, t);
  }

  /** In every reachable state trypost reports ERR_MEM exactly when every slot is taken,
      by a queued message or by a thread inside an operation. */
  lemma TryPostExact(size: nat, steps: seq<Step>, t: Tid, m: Msg)
    ensures var s := Run(New(size), steps);
            t !in s.posting && t !in s.releasing ==>
              (Do(s, Obtain(t, m)).1 == ErrMem <==> |s.queue| + |s.posting| + |s.releasing| == size)
  {
    RunKeeps(New(size), steps);
  }

  // ----- Refinement of a bounded FIFO ---------------------------------------------------

  /** The specification: a FIFO of at most cap messages. */
  datatype Fifo = Fifo(cap: nat, items: seq<Item>)
  datatype FifoOp = Skip | Enqueue(i: Item) | Dequeue(i: Item)

  ghost predicate FifoNext(f: Fifo, op: FifoOp, f': Fifo) {
    match op
    case Skip => f' == f
    case Enqueue(i) => |f.items| < f.cap && f' == f.(items := f.items + [i])
    case Dequeue(i) => |f.items| > 0 && f.items[0] == i && f' == f.(items := f.items[1..])
  }

  function Abs(s: Mbox): Fifo { Fifo(s.size, s.queue) }

  /** The FIFO operation that a step amounts to: the queue send is the moment of a post,
      the receive that of a fetch, and the semaphore calls are invisible. */
  function Visible(s: Mbox, step: Step): FifoOp {
    match step
    case Send(t) => if t in s.posting then Enqueue(Item(t, s.posting[t])) else Skip
    case Receive(t) =>
      if t in s.posting || t in s.releasing || s.queue == [] then Skip else Dequeue(s.queue[0])
    case _ => Skip
  }

  /** Every step is one step of the bounded FIFO, and a fetch gets the message dequeued. */
  lemma StepRefinesFifo(s: Mbox, step: Step)
    requires Inv(s)
    ensures FifoNext(Abs(s), Visible(s, step), Abs(Do(s, step).0))
    ensures Do(s, step).1.Got? <==> Visible(s, step).Dequeue?
    ensures Do(s, step).1.Got? ==> Do(s, step).1.m == Visible(s, step).i.msg
  {
    NeverFull(s);
  }

  /** Nothing waits for ever on a slot that nobody will free: if a post finds no slot, a
      message is queued or some thread is inside an operation. */
  lemma NoLostSlot(size: nat, steps: seq<Step>)
    requires size > 0
    ensures var s := Run(New(size), steps);
            s.sem == 0 ==> s.queue != [] || s.posting != map[] || s.releasing != map[]
  {
    RunKeeps(New(size), steps);
  }

  // ----- The calls of sys_arch.c on the mailbox object -----------------------------------

  datatype Err = ErrOk | ErrMemory

  class SysMbox {
    var s: Mbox

    /** sys_mbox_new. */
    constructor (size: nat)
      ensures s == New(size) && s.size == s.sem == size && s.queue == [] && s.posting == map[] == s.releasing
      ensures s.asked == s.accepted == s.fetched == []
    {
      s := New(size);
    }

    /** Other threads' kernel calls between two of ours, as in steps; ours is t. */
    method Others(steps: seq<Step>, ghost t: Tid)
      requires Inv(s) && forall i :: 0 <= i < |steps| ==> steps[i].t != t
      modifies this
      ensures s == Run(old(s), steps) && Inv(s) && s.size == old(s.size)
      ensures (t in s.posting <==> t in old(s.posting)) && (t in s.posting ==> s.posting[t] == old(s.posting[t]))
      ensures (t in s.releasing <==> t in old(s.releasing))
    {
      hide Inv, From;
      RunKeeps(s, steps);
      for i := 0 to |steps|
        invariant Run(s, steps[i..]) == Run(old(s), steps) && Inv(s) && s.size == old(s.size)
        invariant (t in s.posting <==> t in old(s.posting)) && (t in s.posting ==> s.posting[t] == old(s.posting[t]))
        invariant (t in s.releasing <==> t in old(s.releasing))
      {
        StepKeeps(s, steps[i]);
        assert steps[i..][1..] == steps[i + 1..];
        s := Do(s, steps[i]).0;
      }
      assert steps[|steps|..] == [];
    }

    /** sys_mbox_trypost, with other threads running between its two kernel calls. The
        message enters the queue exactly once, behind everything already there, unless
        every slot was taken at the call. */
    method TryPost(t: Tid, m: Msg, others: seq<Step>) returns (r: Err)
      requires Inv(s) && t !in s.posting && t !in s.releasing
      requires forall i :: 0 <= i < |others| ==> others[i].t != t
      modifies this
      ensures Inv(s) && t !in s.posting && t !in s.releasing
      ensures r == ErrMemory <==> old(|s.queue| + |s.posting| + |s.releasing| == s.size)
      ensures r == ErrMemory ==> s == old(s)
      ensures r == ErrOk ==>
        var mid := Run(Do(old(s), Obtain(t, m)).0, others);
        && s == Do(mid, Send(t)).0
        && s.queue == mid.queue + [Item(t, m)] && s.accepted == mid.accepted + [Item(t, m)]
    {
      StepKeeps(s, Obtain(t, m));
      var res := Do(s, Obtain(t, m));
      s := res.0;
      if res.1 != Taken {
        return ErrMemory;
      }
      Others(others, t);
      StepKeeps(s, Send(t));
      NeverFull(s);
      s := Do(s, Send(t)).0;
      r := ErrOk;
    }

    /** sys_arch_mbox_tryfetch: the oldest queued message, or none if the queue is empty. */
    method TryFetch(t: Tid, others: seq<Step>) returns (got: bool, m: Msg)
      requires Inv(s) && t !in s.posting && t !in s.releasing
      requires forall i :: 0 <= i < |others| ==> others[i].t != t
      modifies this
      ensures Inv(s) && t !in s.posting && t !in s.releasing
      ensures got <==> old(s.queue) != []
      ensures got ==> m == old(s.queue[0].msg)
      ensures got ==> s == Do(Run(Do(old(s), Receive(t)).0, others), Release(t)).0
      ensures !got ==> s == old(s)
    {
      StepKeeps(s, Receive(t));
      var res := Do(s, Receive(t));
      s := res.0;
      if !res.1.Got? {
        return false, 0;
      }
      Others(others, t);
      StepKeeps(s, Release(t));
      s := Do(s, Release(t)).0;
      return true, res.1.m;
    }
  }
}
