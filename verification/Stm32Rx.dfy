/** The STM32H7 receive path: the descriptor ring shared with the Ethernet DMA, the backup
    array, the pool of receive buffers, the interrupt and the input thread. */
module Stm32Rx {

  const NULL := -1
  const ETH_PAD_SIZE := 2
  const ETH_RX_BUFFER_SIZE := 1536

  /** A descriptor write-back by the DMA: context flag, first and last descriptor flags,
      length, and the data put into the buffer. */
  datatype Frame = Frame(ctxt: bool, fd: bool, ld: bool, len: nat, data: int)

  /** A receive descriptor: OWN, the status bits of DESC3, the length, and the address
      field of DESC0, which the DMA overwrites. */
  datatype Desc = Desc(own: bool, ctxt: bool, fd: bool, ld: bool, len: nat, addr: int)

  /** A frame as handed to the stack: its buffer, length and data. */
  datatype Packet = Packet(buf: int, len: nat, data: int)

  /** The frames low_level_input hands up: complete in one descriptor, not a context
      descriptor, and small enough for a pbuf on their buffer. */
  predicate Deliverable(f: Frame) {
    !f.ctxt && f.fd && f.ld && f.len + ETH_PAD_SIZE <= ETH_RX_BUFFER_SIZE
  }

  /** A frame complete in one descriptor that pbuf_alloced_custom refuses to wrap. */
  predicate TooLong(f: Frame) {
    !f.ctxt && f.fd && f.ld && f.len + ETH_PAD_SIZE > ETH_RX_BUFFER_SIZE
  }

  function Wanted(fs: seq<Frame>): seq<(nat, int)> {
    if fs == [] then []
    else
      var last := fs[|fs| - 1];
      Wanted(fs[..|fs| - 1]) + if Deliverable(last) then [(last.len, last.data)] else []
  }

  /** A descriptor with a fresh buffer, given to the DMA: OWN, IOC (the bit that reads as
      the context flag after write-back) and BUF1V. */
  function Armed(buf: int): Desc { Desc(true, true, false, false, 0, buf) }

  // ----- The ring -----------------------------------------------------------------------

  function Wrap(n: nat, x: nat): nat { if x < n then x else if x < 2 * n then x - n else 0 }

  /** Descriptor k places after head: the first c are completed and hold the last c frames
      in order, the others belong to the DMA and carry the buffer in the backup array. */
  ghost predicate Slot(desc: seq<Desc>, backup: seq<int>, mem: seq<int>, head: nat, c: nat,
                       wire: seq<Frame>, k: nat)
    requires |desc| == |backup| && head < |desc| && k < |desc| && c <= |wire|
  {
    var i := Wrap(|desc|, head + k);
    && 0 <= backup[i] < |mem|
    && if k < c then
         var f := wire[|wire| - c + k];
         && !desc[i].own && desc[i].ctxt == f.ctxt && desc[i].fd == f.fd && desc[i].ld == f.ld
         && desc[i].len == f.len && mem[backup[i]] == f.data
       else desc[i].own && desc[i].addr == backup[i]
  }

  ghost predicate Distinct(s: seq<int>) {
    forall i, j :: 0 <= i < j < |s| ==> s[i] != s[j]
  }

  ghost predicate Ring(desc: seq<Desc>, backup: seq<int>, mem: seq<int>, head: nat, dma: nat,
                       c: nat, wire: seq<Frame>)
  {
    && |desc| == |backup| && head < |desc| && c <= |desc| && c <= |wire|
    && dma == Wrap(|desc|, head + c)
    && Distinct(backup)
    && (forall i :: 0 <= i < |backup| ==> 0 <= backup[i] < |mem|)
    && forall k: nat {:trigger Slot(desc, backup, mem, head, c, wire, k)} :: k < |desc| ==>
         Slot(desc, backup, mem, head, c, wire, k)
  }

  /** Index i lies in the cyclic segment of c descriptors from head on. */
  predicate InSegment(n: nat, head: nat, c: nat, i: nat) {
    if head + c <= n then head <= i < head + c else head <= i < n || i < head + c - n
  }

  /** The CPU-owned descriptors are exactly the cyclic segment from the read index up to the DMA
      position, and the backup array names the buffer of every other one. */
  lemma OwnSplit(desc: seq<Desc>, backup: seq<int>, mem: seq<int>, head: nat, dma: nat, c: nat,
                 wire: seq<Frame>, i: nat)
    requires Ring(desc, backup, mem, head, dma, c, wire) && i < |desc|
    ensures desc[i].own <==> !InSegment(|desc|, head, c, i)
    ensures desc[i].own ==> desc[i].addr == backup[i]
    ensures c < |desc| ==> !InSegment(|desc|, head, c, dma)
  {
    var k := if head <= i then i - head else i + |desc| - head;
    assert Wrap(|desc|, head + k) == i;
    assert Slot(desc, backup, mem, head, c, wire, k);
  }

  /** The DMA completes the descriptor at its position. */
  lemma CompleteKeeps(desc: seq<Desc>, backup: seq<int>, mem: seq<int>, head: nat, dma: nat,
                      c: nat, wire: seq<Frame>, f: Frame, junk: int)
    requires Ring(desc, backup, mem, head, dma, c, wire) && desc[dma].own
    ensures c < |desc| && 0 <= desc[dma].addr < |mem| && desc[dma].addr == backup[dma]
    ensures c > 0 ==> dma != head
    ensures Ring(desc[dma := Desc(false, f.ctxt, f.fd, f.ld, f.len, junk)], backup,
                 mem[desc[dma].addr := f.data], head, Wrap(|desc|, dma + 1), c + 1, wire + [f])
  {
    var n := |desc|;
    assert Slot(desc, backup, mem, head, c, wire, 0);
    assert c < n;
    assert Slot(desc, backup, mem, head, c, wire, c);
    var desc' := desc[dma := Desc(false, f.ctxt, f.fd, f.ld, f.len, junk)];
    var mem', c', wire' := mem[desc[dma].addr := f.data], c + 1, wire + [f];
    forall k: nat | k < n
      ensures Slot(desc', backup, mem', head, c', wire', k)
    {
      assert Slot(desc, backup, mem, head, c, wire, k);
      assert k != c ==> Wrap(n, head + k) != dma;
    }
  }

  /** The driver re-arms the first completed descriptor with a buffer that no descriptor has. */
  lemma RearmKeeps(desc: seq<Desc>, backup: seq<int>, mem: seq<int>, head: nat, dma: nat,
                   c: nat, wire: seq<Frame>, b: int)
    requires Ring(desc, backup, mem, head, dma, c, wire) && c > 0
    requires 0 <= b < |mem| && b !in backup
    ensures Ring(desc[head := Armed(b)], backup[head := b], mem, Wrap(|desc|, head + 1), dma, c - 1, wire)
  {
    var n := |desc|;
    var desc', backup', head', c' := desc[head := Armed(b)], backup[head := b], Wrap(n, head + 1), c - 1;
    forall k: nat | k < n
      ensures Slot(desc', backup', mem, head', c', wire, k)
    {
      if k + 1 < n {
        assert Slot(desc, backup, mem, head, c, wire, k + 1);
        assert Wrap(n, head' + k) == Wrap(n, head + (k + 1)) != head;
      } else {
        assert Wrap(n, head' + k) == head;
      }
    }
  }

  /** The index arithmetic of the ring. */
  lemma NextIndex(n: nat, i: nat)
    requires i < n
    ensures (i + 1) % n == Wrap(n, i + 1)
  {
  }

  // ----- The buffers --------------------------------------------------------------------

  /** Each of the p buffers is in exactly one place: free, on a descriptor, held by the
      stack or dropped by a recycle. */
  ghost predicate Owned(p: nat, free: set<int>, backup: seq<int>, held: set<int>, dropped: set<int>)
  {
    && Distinct(backup)
    && (forall b :: b in backup ==> 0 <= b < p && b !in free && b !in held && b !in dropped)
    && free !! held && free !! dropped && held !! dropped
    && (forall b :: b in free || b in held || b in dropped ==> 0 <= b < p)
    && (forall b :: 0 <= b < p ==> b in free || b in backup || b in held || b in dropped)
  }

  function Range(p: nat): set<int> { if p == 0 then {} else Range(p - 1) + {p - 1} }

  lemma {:induction false} RangeIs(p: nat)
    ensures |Range(p)| == p && forall b :: b in Range(p) <==> 0 <= b < p
  {
    if p > 0 {
      RangeIs(p - 1);
    }
  }

  function Elements(s: seq<int>): set<int> { set i | 0 <= i < |s| :: s[i] }

  lemma {:induction false} DistinctSize(s: seq<int>)
    requires Distinct(s)
    ensures |Elements(s)| == |s|
  {
    if s != [] {
      var t, last := s[..|s| - 1], s[|s| - 1];
      DistinctSize(t);
      assert forall b :: b in Elements(s) <==> b in s;
      assert forall b :: b in Elements(t) <==> b in t;
      assert s == t + [last] && last !in t;
      assert Elements(s) == Elements(t) + {last};
    }
  }

  /** Counting: a descriptor that has just lost its buffer finds none in the pool exactly
      when the stack and the recycles have more than p - n of them. */
  lemma PoolEmptyExactly(p: nat, free: set<int>, others: seq<int>, held: set<int>, dropped: set<int>)
    requires Owned(p, free, others, held, dropped)
    ensures free == {} <==> |held| + |dropped| == p - |others|
    ensures |free| + |others| + |held| + |dropped| == p
  {
    RangeIs(p);
    DistinctSize(others);
    var e := Elements(others);
    assert forall b :: b in e <==> b in others;
    DisjointSizes(free, e, held, dropped);
    forall b
      ensures b in Range(p) <==> b in free + e + held + dropped
    {
    }
    assert Range(p) == free + e + held + dropped;
  }

  lemma DisjointSizes(a: set<int>, b: set<int>, c: set<int>, d: set<int>)
    requires a !! b && (a + b) !! c && (a + b + c) !! d
    ensures |a + b + c + d| == |a| + |b| + |c| + |d|
  {
    assert |a + b| == |a| + |b|;
    assert |a + b + c| == |a + b| + |c|;
    assert |a + b + c + d| == |a + b + c| + |d|;
  }

  function Without(s: seq<int>, i: nat): seq<int>
    requires i < |s|
  { s[..i] + s[i + 1..] }

  lemma InWithout(s: seq<int>, i: nat)
    requires i < |s|
    ensures |Without(s, i)| == |s| - 1
    ensures forall b :: b in s && b != s[i] ==> b in Without(s, i)
  {
    forall b | b in s && b != s[i]
      ensures b in Without(s, i)
    {
      var j :| 0 <= j < |s| && s[j] == b;
      assert Without(s, i)[if j < i then j else j - 1] == b;
    }
  }

  /** The buffer of descriptor i goes to the stack or is dropped. */
  lemma LoseBuffer(p: nat, free: set<int>, backup: seq<int>, held: set<int>, dropped: set<int>, i: nat)
    requires Owned(p, free, backup, held, dropped) && i < |backup|
    ensures Owned(p, free, Without(backup, i), held + {backup[i]}, dropped)
    ensures Owned(p, free, Without(backup, i), held, dropped + {backup[i]})
  {
    var rest := Without(backup, i);
    assert backup[i] in backup;
    forall j | 0 <= j < |rest|
      ensures rest[j] == backup[if j < i then j else j + 1] && rest[j] != backup[i] && rest[j] in backup
    {
    }
    forall b | b in backup && b != backup[i]
      ensures b in rest
    {
      var j :| 0 <= j < |backup| && backup[j] == b;
      assert rest[if j < i then j else j - 1] == b;
    }
  }

  /** A free buffer goes to descriptor i. */
  lemma GainBuffer(p: nat, free: set<int>, backup: seq<int>, held: set<int>, dropped: set<int>, i: nat, b: int)
    requires i < |backup| && Owned(p, free, Without(backup, i), held, dropped) && b in free
    ensures Owned(p, free - {b}, backup[i := b], held, dropped)
  {
    var rest := Without(backup, i);
    var backup' := backup[i := b];
    forall j | 0 <= j < |backup| && j != i
      ensures backup'[j] == rest[if j < i then j else j - 1] && backup'[j] in rest
    {
    }
    forall x | x in rest
      ensures x in backup'
    {
      var j :| 0 <= j < |rest| && rest[j] == x;
      assert backup'[if j < i then j else j + 1] == x;
    }
    assert backup'[i] == b;
  }

  lemma PoolFull(p: nat)
    ensures Owned(p, Range(p), [], {}, {})
  {
    RangeIs(p);
  }

  lemma AttachedInPool(p: nat, free: set<int>, att: seq<int>)
    requires Owned(p, free, att, {}, {})
    ensures Distinct(att) && forall b :: b in att ==> 0 <= b < p
  {
  }

  lemma FillKeeps(p: nat, free: set<int>, backup: seq<int>, i: nat, b: int)
    requires i < |backup| && b !in free && Owned(p, free + {b}, backup[..i], {}, {})
    ensures Owned(p, free, backup[i := b][..i + 1], {}, {})
  {
    var att := backup[i := b][..i + 1];
    assert att == backup[..i] + [b];
    assert b in free + {b};
  }

  lemma FilledRing(desc: seq<Desc>, backup: seq<int>, mem: seq<int>)
    requires 1 <= |desc| == |backup| && Distinct(backup)
    requires forall b :: b in backup ==> 0 <= b < |mem|
    requires forall k :: 0 <= k < |desc| ==> desc[k] == Armed(backup[k])
    ensures Ring(desc, backup, mem, 0, 0, 0, [])
  {
    forall i | 0 <= i < |backup|
      ensures 0 <= backup[i] < |mem|
    {
      assert backup[i] in backup;
    }
    forall k: nat | k < |desc|
      ensures Slot(desc, backup, mem, 0, 0, [], k)
    {
    }
  }

  lemma FreeKeeps(p: nat, free: set<int>, att: seq<int>, held: set<int>, dropped: set<int>, b: int)
    requires Owned(p, free, att, held, dropped) && b in held
    ensures Owned(p, free + {b}, att, held - {b}, dropped)
  {
  }

  lemma WantedNext(wire: seq<Frame>, m: nat)
    requires m < |wire|
    ensures Wanted(wire[..m + 1]) ==
            Wanted(wire[..m]) + if Deliverable(wire[m]) then [(wire[m].len, wire[m].data)] else []
    ensures Wanted(wire[..0]) == []
    ensures Deliverable(wire[m]) <==> !wire[m].ctxt && wire[m].fd && wire[m].ld && wire[m].len <= 1534
    ensures TooLong(wire[m]) <==> !wire[m].ctxt && wire[m].fd && wire[m].ld && wire[m].len > 1534
  {
    assert wire[..m + 1][..m] == wire[..m];
  }

  /** The DMA never writes into a buffer that the stack holds. */
  ghost predicate ZeroCopy(held: set<int>, mem: seq<int>, shown: map<int, int>) {
    forall b :: b in held ==> 0 <= b < |mem| && b in shown && mem[b] == shown[b]
  }

  lemma CompleteZeroCopy(p: nat, free: set<int>, backup: seq<int>, held: set<int>, dropped: set<int>, mem: seq<int>,
                         shown: map<int, int>, head: nat, dma: nat, loose: bool, data: int)
    requires head < |backup| && dma < |backup| && 0 <= backup[dma] < |mem| && (loose ==> dma != head)
    requires Owned(p, free, if loose then Without(backup, head) else backup, held, dropped)
    requires ZeroCopy(held, mem, shown)
    ensures ZeroCopy(held, mem[backup[dma] := data], shown)
  {
    if loose {
      assert Without(backup, head)[if dma < head then dma else dma - 1] == backup[dma];
    } else {
      assert backup[dma] in backup;
    }
  }

  lemma WantedPrefix(wire: seq<Frame>, f: Frame, m: nat)
    requires m <= |wire|
    ensures (wire + [f])[..m] == wire[..m]
  {
  }

  // ----- The driver ---------------------------------------------------------------------

  /** What happens around the input thread: the DMA completes a descriptor, the interrupt
      handler starts or signals, or the stack frees a buffer. */
  datatype Event = Complete(f: Frame, junk: int) | IrqEnter | IrqSignal | StackFree(b: int)

  /** What the thread finds around it. */
  datatype Surroundings = Surroundings(script: seq<Event>, wire: seq<Frame>, c: nat, held: set<int>, dropped: set<int>,
                                       sem: nat, pending: bool, handlers: nat)

  /** Nothing more will happen around the thread, the next frame is too long, and there are buffers. */
  ghost predicate Cutting(s: Surroundings, n: nat, p: nat) {
    && s.script == [] && 0 < s.c <= |s.wire| && TooLong(s.wire[|s.wire| - s.c])
    && |s.held| + |s.dropped| < p - n
  }

  /** That frame is gone and nothing else has happened. */
  ghost predicate AfterCut(s: Surroundings, s': Surroundings) {
    && s'.script == [] && s'.wire == s.wire && s'.c == s.c - 1
    && s'.sem == s.sem && s'.pending == s.pending && s'.handlers == s.handlers
  }

  /** NoFrame and Dropped both are a NULL pbuf for the caller: the descriptor belongs to the DMA, or
      its frame did not fit a pbuf. */
  datatype Input = NoFrame | Dropped | Got(p: Packet) | Starved

  class EthRx {
    const p: nat
    var desc: seq<Desc>
    /** DMARxDscrBackup. */
    var backup: seq<int>
    /** heth.RxDescList.RxDescIdx. */
    var rxDescIdx: nat
    /** The contents of the p receive buffers. */
    var mem: seq<int>
    /** RX_POOL. */
    var free: set<int>
    /** RxAllocStatus is RX_ALLOC_ERROR. */
    var allocError: bool
    /** RxPktSemaphore. */
    var sem: nat
    /** An interrupt is pending; handlers that have started and not yet signalled. */
    var pending: bool
    var handlers: nat
    /** The DMA's position and everything it has written back. */
    var dma: nat
    var wire: seq<Frame>
    /** What will still happen around the thread. */
    var script: seq<Event>
    /** Frames handed to the stack. */
    var delivered: seq<(nat, int)>
    /** Buffers that left the driver towards the stack and are not freed. */
    var held: set<int>
    /** The buffer the thread has in hand and not yet given to the stack. */
    var inHand: int

    /** The first descriptor not yet re-armed and how many completed ones follow. */
    ghost var head: nat
    ghost var c: nat
    ghost var dropped: set<int>
    /** A frame too long for its buffer was seen; a descriptor was recycled. */
    ghost var oversize: bool
    ghost var recycled: bool
    /** What the buffers of the stack contained when they were handed over. */
    ghost var shown: map<int, int>
    /** The last round of the input thread ended on a frame that was too long. */
    ghost var cut: bool

    /** The buffers on descriptors, without the one just leaving if loose. */
    ghost function Attached(loose: bool): seq<int>
      reads this`backup, this`head
      requires head < |backup|
    {
      if loose then Without(backup, head) else backup
    }

    /** Everything but the whereabouts of the buffers. */
    ghost predicate Core()
      reads this`mem, this`desc, this`backup, this`head, this`dma, this`c, this`wire, this`held, this`dropped
      reads this`delivered, this`inHand, this`recycled, this`oversize, this`shown
    {
      && |mem| == p && Ring(desc, backup, mem, head, dma, c, wire)
      && delivered == Wanted(wire[..|wire| - c])
      && (inHand != NULL ==> inHand in held)
      && (dropped == {} || recycled || oversize)
      && ZeroCopy(held, mem, shown)
    }

    ghost predicate Ok(loose: bool)
      reads this`mem, this`desc, this`backup, this`head, this`dma, this`c, this`wire, this`free, this`held, this`dropped
      reads this`delivered, this`inHand, this`recycled, this`oversize, this`shown
    {
      && Core()
      && Owned(p, free, Attached(loose), held, dropped)
      && (loose ==> c > 0 && (backup[head] == inHand || backup[head] in dropped))
    }

    ghost predicate Valid()
      reads this
    {
      Ok(false) && rxDescIdx == head
    }

    /** Something will make the input thread look at the ring again, or there is nothing
        to look at. */
    ghost predicate Awake()
      reads this
    {
      c == 0 || pending || handlers > 0 || sem > 0
    }

    /** The frame taken off the ring last. */
    ghost predicate LastTaken(f: Frame)
      reads this`wire, this`c
    {
      c < |wire| && wire[|wire| - c - 1] == f
    }

    /** Awake, unless the last round was cut short by a frame that was too long. */
    ghost predicate Ready()
      reads this
    {
      Awake() || (cut && c < |wire| && TooLong(wire[|wire| - c - 1]))
    }

    /** Frames were only appended to the wire, by completions. */
    ghost predicate WireGrew(wire0: seq<Frame>, c0: nat)
      reads this`wire, this`c
    {
      wire0 <= wire && |wire| - c == |wire0| - c0
    }

    ghost function Work(): nat
      reads this
    {
      2 * |script| + c
    }

    /** n descriptors and a full pool of p buffers, before the link is up. */
    constructor (n: nat, p: nat, script: seq<Event>)
      ensures this.p == |mem| == p && |desc| == |backup| == n && this.script == script
      ensures free == Range(p) && held == dropped == {} && wire == [] && delivered == []
      ensures inHand == NULL && !oversize && !recycled && !cut && sem == handlers == 0 && !pending
    {
      this.p := p;
      desc := seq(n, i => Desc(false, false, false, false, 0, 0));
      backup := seq(n, i => NULL);
      mem := seq(p, i => 0);
      free := Range(p);
      this.script := script;
      rxDescIdx, dma, sem, handlers, pending, allocError := 0, 0, 0, 0, false, false;
      wire, delivered, inHand, held := [], [], NULL, {};
      dropped, oversize, recycled, head, c := {}, false, false, 0, 0;
      shown, cut := map[], false;
    }

    /** The ring fill of the link thread: every descriptor gets a buffer and goes to the
        DMA, which starts at the first one. */
    method LinkUp()
      requires 1 <= |desc| == |backup| <= p == |mem| && free == Range(p) && held == dropped == {}
      requires wire == [] && delivered == [] && inHand == NULL
      modifies this`desc, this`backup, this`rxDescIdx, this`free, this`allocError, this`dma, this`head, this`c
      ensures Valid() && c == 0 && |desc| == old(|desc|)
    {
      hide Owned, Distinct, Ring, Slot;
      rxDescIdx, dma, head, c := 0, 0, 0, 0;
      PoolFull(p);
      for i := 0 to |desc|
        invariant |desc| == |backup| == old(|desc|) && Owned(p, free, backup[..i], {}, {})
        invariant forall k :: 0 <= k < i ==> desc[k] == Armed(backup[k])
        invariant rxDescIdx == dma == head == c == 0
      {
        var b := TakeBuffer(backup[..i]);
        if b != NULL {
          FillKeeps(p, free, backup, i, b);
          desc := desc[i := Armed(b)];
          backup := backup[i := b];
        }
      }
      assert backup[..|desc|] == backup;
      AttachedInPool(p, free, backup);
      FilledRing(desc, backup, mem);
    }

    // ----- The surroundings -------------------------------------------------------------

    /** The DMA finishes the descriptor at its position, if it owns it. */
    method DmaComplete(f: Frame, junk: int, ghost loose: bool)
      requires Ok(loose)
      modifies this`desc, this`mem, this`dma, this`wire, this`c, this`pending
      ensures Ok(loose) && (old(Awake()) ==> Awake())
      ensures WireGrew(old(wire), old(c)) && |desc| == old(|desc|)
      ensures c == old(c) + if old(c) < |desc| then 1 else 0
      ensures old(c) < |desc| ==> wire == old(wire) + [f] && pending
    {
      hide Core, Owned;
      RingBounds();
      DmaOwns();
      if desc[dma].own {
        Land(f, junk, loose);
      }
    }

    /** The write-back itself, and the interrupt. */
    method Land(f: Frame, junk: int, ghost loose: bool)
      requires Ok(loose) && dma < |desc| && desc[dma].own
      modifies this`desc, this`mem, this`dma, this`wire, this`c, this`pending
      ensures Ok(loose) && c == old(c) + 1 && wire == old(wire) + [f] && pending && |desc| == old(|desc|)
    {
      hide Owned, Slot, Wanted, Distinct, Ring, ZeroCopy;
      RingBounds();
      CompleteKeeps(desc, backup, mem, head, dma, c, wire, f, junk);
      CompleteZeroCopy(p, free, backup, held, dropped, mem, shown, head, dma, loose, f.data);
      WantedPrefix(wire, f, |wire| - c);
      mem := mem[desc[dma].addr := f.data];
      desc := desc[dma := Desc(false, f.ctxt, f.fd, f.ld, f.len, junk)];
      dma := Wrap(|desc|, dma + 1);
      wire := wire + [f];
      c := c + 1;
      pending := true;
    }

    /** The DMA owns the descriptor at its position unless the whole ring is completed. */
    lemma DmaOwns()
      requires Core()
      ensures dma < |desc| && c <= |desc| && (desc[dma].own <==> c < |desc|)
    {
      OwnSplit(desc, backup, mem, head, dma, c, wire, dma);
    }

    /** pbuf_free_custom: the buffer goes back to the pool, and if an allocation had failed the mark is
        cleared and the input thread signalled. */
    method PbufFreeCustom(b: int, ghost loose: bool)
      requires Ok(loose) && b in held && b != inHand
      modifies this`free, this`held, this`allocError, this`sem
      ensures Ok(loose) && (old(Awake()) ==> Awake())
      ensures free == old(free) + {b} && held == old(held) - {b} && b !in old(free)
      ensures !allocError && sem == old(sem) + (if old(allocError) then 1 else 0)
      ensures old(allocError) ==> sem > 0
    {
      hide Slot, Distinct;
      FreeKeeps(p, free, Attached(loose), held, dropped, b);
      hide Owned, Ring;
      free := free + {b};
      held := held - {b};
      if allocError {
        allocError := false;
        sem := sem + 1;
      }
    }

    /** One event around the thread. */
    method Happen(e: Event, ghost loose: bool)
      requires Ok(loose)
      modifies this`desc, this`mem, this`dma, this`wire, this`c, this`pending
      modifies this`free, this`held, this`allocError, this`sem, this`handlers
      ensures Ok(loose) && (old(Awake()) ==> Awake())
      ensures old(c) <= c <= old(c) + 1 && WireGrew(old(wire), old(c)) && |desc| == old(|desc|)
      ensures held <= old(held) && sem >= old(sem)
      ensures e == IrqEnter ==> c == old(c) && sem == old(sem) && held == old(held) && pending == false
      ensures e == IrqEnter ==> handlers == old(handlers) + if old(pending) then 1 else 0
      ensures e == IrqSignal ==> c == old(c) && held == old(held) && pending == old(pending)
      ensures e == IrqSignal && old(handlers) > 0 ==> handlers == old(handlers) - 1 && sem == old(sem) + 1
      ensures e == IrqSignal && old(handlers) == 0 ==> handlers == 0 && sem == old(sem)
      ensures !e.Complete? ==> wire == old(wire)
      ensures e.Complete? ==> c == old(c) + if old(c) < |desc| then 1 else 0
      ensures e.Complete? && old(c) < |desc| ==> wire == old(wire) + [e.f] && pending
      ensures !e.StackFree? ==> free == old(free) && held == old(held) && allocError == old(allocError)
      ensures e.StackFree? && e.b in old(held) && e.b != inHand ==>
        && free == old(free) + {e.b} && held == old(held) - {e.b}
        && !allocError && sem == old(sem) + (if old(allocError) then 1 else 0)
      ensures e.StackFree? && !(e.b in old(held) && e.b != inHand) ==>
        free == old(free) && held == old(held) && allocError == old(allocError) && sem == old(sem)
    {
      hide Ring, Owned, ZeroCopy;
      match e
      case Complete(f, junk) => DmaComplete(f, junk, loose);
      case IrqEnter =>
        if pending {
          pending := false;
          handlers := handlers + 1;
        }
      case IrqSignal =>
        if handlers > 0 {
          handlers := handlers - 1;
          sem := sem + 1;
        }
      case StackFree(b) =>
        if b in held && b != inHand {
          PbufFreeCustom(b, loose);
        }
    }

    ghost function Around(): Surroundings
      reads this`script, this`wire, this`c, this`held, this`dropped, this`sem, this`pending, this`handlers
    {
      Surroundings(script, wire, c, held, dropped, sem, pending, handlers)
    }

    /** An interleaving point: any number of the coming events happen. */
    method Env(ghost loose: bool)
      requires Ok(loose)
      modifies this`desc, this`mem, this`dma, this`wire, this`c, this`pending
      modifies this`free, this`held, this`allocError, this`sem, this`handlers, this`script
      ensures Ok(loose) && (old(Awake()) ==> Awake())
      ensures old(c) <= c && Work() <= old(Work()) && WireGrew(old(wire), old(c)) && |desc| == old(|desc|)
      ensures held <= old(held) && sem >= old(sem)
      ensures old(script) == [] ==> Around() == old(Around())
    {
      hide Ring, Owned, ZeroCopy;
      var n: nat :| n <= |script|;
      for i := 0 to n
        invariant Ok(loose) && (old(Awake()) ==> Awake()) && |script| == old(|script|) - i
        invariant old(c) <= c && Work() <= old(Work()) && WireGrew(old(wire), old(c)) && |desc| == old(|desc|)
        invariant held <= old(held) && sem >= old(sem)
        invariant i == 0 ==> Around() == old(Around())
      {
        var e := script[0];
        script := script[1..];
        Happen(e, loose);
      }
    }

    // ----- The input thread -------------------------------------------------------------

    /** HAL_ETH_RxAllocateCallback: a buffer from the pool, or NULL and the error mark. */
    method RxAllocate() returns (b: int)
      requires NULL !in free
      modifies this`free, this`allocError
      ensures b == NULL <==> old(free) == {}
      ensures b == NULL ==> free == {} && allocError
      ensures b != NULL ==> b !in free && old(free) == free + {b} && allocError == old(allocError)
    {
      var pool := free;
      if exists x :: x in pool {
        b :| b in pool;
        free := pool - {b};
      } else {
        assert pool == {};
        allocError := true;
        b := NULL;
      }
    }

    /** Give the descriptor at rxDescIdx buffer b and hand it to the DMA. */
    method Arm(b: int, frame: seq<(nat, int)>)
      requires Core() && c > 0 && rxDescIdx == head
      requires b !in free && b !in backup && Owned(p, free + {b}, Without(backup, head), held, dropped)
      requires var f := wire[|wire| - c]; frame == if Deliverable(f) then [(f.len, f.data)] else []
      modifies this`desc, this`backup, this`head, this`c, this`delivered
      ensures Ok(false) && |desc| == old(|desc|) && head == Wrap(|desc|, old(head) + 1) && c == old(c) - 1
      ensures delivered == old(delivered) + frame
    {
      hide Slot, Distinct, Wanted, ZeroCopy;
      GainBuffer(p, free + {b}, backup, held, dropped, head, b);
      assert free + {b} - {b} == free;
      RearmKeeps(desc, backup, mem, head, dma, c, wire, b);
      WantedNext(wire, |wire| - c);
      hide Owned, Ring;
      desc := desc[rxDescIdx := Armed(b)];
      backup := backup[rxDescIdx := b];
      delivered := delivered + frame;
      head := Wrap(|desc|, head + 1);
      c := c - 1;
    }

    /** The refill after a frame has been taken off the descriptor at rxDescIdx: on failure
        the descriptor keeps its old contents and the index moves on all the same. */
    method Refill(frame: seq<(nat, int)>) returns (ok: bool)
      requires Ok(true) && c > 0 && rxDescIdx == head
      requires var f := wire[|wire| - c]; frame == if Deliverable(f) then [(f.len, f.data)] else []
      modifies this`desc, this`mem, this`dma, this`wire, this`c, this`pending
      modifies this`free, this`held, this`allocError, this`sem, this`handlers, this`script
      modifies this`backup, this`head, this`delivered, this`rxDescIdx
      ensures ok ==> Valid() && Work() < old(Work()) && delivered == old(delivered) + frame
      ensures ok ==> Moved(old(wire), old(c))
      ensures !ok ==> |held| + |dropped| > p - |desc| && Failed() && Ok(true)
      ensures |desc| == old(|desc|)
      ensures old(script) == [] ==> Around() == old(Around()).(c := if ok then old(c) - 1 else old(c))
    {
      hide Core, Owned;
      RingBounds();
      Env(true);
      RingBounds();
      ok := FillSlot(frame);
    }

    /** An allocation for a completed descriptor has found the pool empty. */
    ghost predicate Failed()
      reads this`c, this`free, this`allocError
    {
      c > 0 && free == {} && allocError
    }

    /** Why there is no answer: that allocation failed, because the stack has the buffers or lost
        ones are missing; and buffers are only lost to recycles and to frames that are too long. */
    ghost predicate Dry()
      reads this
    {
      && Failed() && (Ok(true) || Ok(false)) && |held| + |dropped| >= p - |desc|
      && (recycled || |held| + |dropped| > p - |desc|)
      && (dropped == {} || recycled || oversize)
    }

    /** Without recycles and frames that are too long an allocation fails only while the stack holds
        more than P - N buffers. */
    lemma DryWithoutLosses()
      requires Dry() && !recycled && !oversize
      ensures |held| > p - |desc|
    {
    }

    /** The first buffer that the stack frees after a failed allocation wakes the input thread. */
    method FreeWakes(b: int)
      requires Dry() && b in held && b != inHand
      modifies this`free, this`held, this`allocError, this`sem
      ensures sem == old(sem) + 1 && !allocError && free == {b} && held == old(held) - {b}
    {
      hide Ok;
      ghost var loose := Ok(true);
      PbufFreeCustom(b, loose);
    }

    /** The allocation and what follows it. */
    method FillSlot(frame: seq<(nat, int)>) returns (ok: bool)
      requires Ok(true) && c > 0 && rxDescIdx == head
      requires var f := wire[|wire| - c]; frame == if Deliverable(f) then [(f.len, f.data)] else []
      modifies this`desc, this`mem, this`dma, this`wire, this`c, this`pending
      modifies this`free, this`held, this`allocError, this`sem, this`handlers, this`script
      modifies this`backup, this`head, this`delivered, this`rxDescIdx
      ensures ok ==> Valid() && Work() < old(Work()) && delivered == old(delivered) + frame
      ensures ok ==> Moved(old(wire), old(c))
      ensures !ok ==> |held| + |dropped| > p - |desc| && Failed() && Ok(true)
      ensures |desc| == old(|desc|)
      ensures old(script) == [] ==> Around() == old(Around()).(c := if ok then old(c) - 1 else old(c))
    {
      hide Core, Owned, Moved;
      RingBounds();
      var b := TakeBuffer(Without(backup, head));
      ok := b != NULL;
      if ok {
        NotAttached(b);
        ArmAndRun(b, frame);
      }
      Advance();
    }

    /** Between the re-arming and the update of the index the DMA may already be back. */
    method ArmAndRun(b: int, frame: seq<(nat, int)>)
      requires Core() && c > 0 && rxDescIdx == head
      requires b !in free && b !in backup && Owned(p, free + {b}, Without(backup, head), held, dropped)
      requires var f := wire[|wire| - c]; frame == if Deliverable(f) then [(f.len, f.data)] else []
      modifies this`desc, this`mem, this`dma, this`wire, this`c, this`pending
      modifies this`free, this`held, this`allocError, this`sem, this`handlers, this`script
      modifies this`backup, this`head, this`delivered
      ensures Ok(false) && |desc| == old(|desc|) && head == Wrap(|desc|, old(head) + 1)
      ensures delivered == old(delivered) + frame && Work() < old(Work()) && Moved(old(wire), old(c))
      ensures old(script) == [] ==> Around() == old(Around()).(c := old(c) - 1)
    {
      hide Core, Owned;
      RingBounds();
      Arm(b, frame);
      RingBounds();
      Env(false);
      RingBounds();
    }

    /** One more frame has been taken off the ring. */
    ghost predicate Moved(wire0: seq<Frame>, c0: nat)
      reads this`wire, this`c
    {
      wire0 <= wire && c <= |wire| && |wire| - c == |wire0| - c0 + 1
    }

    lemma StillShown(b: int)
      requires Ok(false) && b == inHand != NULL
      ensures b in held && 0 <= b < |mem| && b in shown && mem[b] == shown[b]
    {
      hide Ring, Owned, Wanted;
    }

    /** Move the read index to the next descriptor. */
    method Advance()
      requires rxDescIdx < |desc|
      modifies this`rxDescIdx
      ensures rxDescIdx == Wrap(|desc|, old(rxDescIdx) + 1)
    {
      NextIndex(|desc|, rxDescIdx);
      rxDescIdx := (rxDescIdx + 1) % |desc|;
    }

    lemma RingBounds()
      requires Core()
      ensures head < |backup| == |desc| && |Without(backup, head)| == |desc| - 1 && c <= |wire|
    {
    }

    /** The allocation: it fails exactly when the other buffers are all away. */
    method TakeBuffer(ghost att: seq<int>) returns (b: int)
      requires Owned(p, free, att, held, dropped)
      modifies this`free, this`allocError
      ensures b == NULL <==> |held| + |dropped| == p - |att|
      ensures b == NULL ==> free == {} == old(free) && allocError
      ensures b != NULL ==> b !in free && b !in att && Owned(p, free + {b}, att, held, dropped)
    {
      PoolEmptyExactly(p, free, att, held, dropped);
      b := RxAllocate();
    }

    /** A buffer from the pool is not the one just leaving the descriptor. */
    lemma NotAttached(b: int)
      requires head < |backup| && Owned(p, free + {b}, Without(backup, head), held, dropped)
      requires Core() && (backup[head] == inHand || backup[head] in dropped)
      requires b != NULL
      ensures b !in backup
    {
      hide Ring, ZeroCopy, Wanted;
      InWithout(backup, head);
      assert b in free + {b};
    }

    /** Buffer b replaces the one on the descriptor at rxDescIdx, which is dropped. */
    method Replace(b: int)
      requires Core() && c > 0 && rxDescIdx == head
      requires b !in free && b !in backup && Owned(p, free + {b}, backup, held, dropped)
      requires !Deliverable(wire[|wire| - c]) && recycled
      modifies this`desc, this`backup, this`head, this`c, this`delivered, this`rxDescIdx, this`dropped
      ensures Valid() && c == old(c) - 1 && dropped == old(dropped) + {old(backup[head])}
      ensures delivered == old(delivered) && |desc| == old(|desc|)
    {
      hide Slot, Wanted, Distinct, Owned, ZeroCopy;
      LoseBuffer(p, free + {b}, backup, held, dropped, head);
      dropped := dropped + {backup[head]};
      hide Ring;
      Arm(b, []);
      Advance();
    }

    /** stm32h7_recycle_rx_descriptor for the descriptor at rxDescIdx: a new buffer replaces
        the old one, which is not returned to the pool; without a buffer nothing changes. */
    method Recycle() returns (ok: bool)
      requires Valid() && c > 0 && !Deliverable(wire[|wire| - c])
      modifies this`desc, this`free, this`allocError, this`backup, this`head, this`c, this`delivered
      modifies this`rxDescIdx, this`dropped, this`recycled
      ensures recycled && delivered == old(delivered)
      ensures ok ==> Valid() && Work() < old(Work()) && dropped == old(dropped) + {old(backup[head])}
      ensures !ok ==> |held| + |dropped| >= p - |desc| && Failed() && Ok(false) && dropped == old(dropped)
      ensures |desc| == old(|desc|)
    {
      hide Slot, Wanted, Distinct, Owned, Ring, ZeroCopy;
      recycled := true;
      RingBounds();
      var b := TakeBuffer(backup);
      ok := b != NULL;
      if ok {
        Replace(b);
      }
    }

    /** What the thread sees at rxDescIdx. */
    lemma AtHead()
      requires Valid()
      ensures rxDescIdx < |desc| == |backup| && c <= |wire|
      ensures desc[rxDescIdx].own <==> c == 0
      ensures c > 0 ==> var d, f := desc[rxDescIdx], wire[|wire| - c];
                        && d.ctxt == f.ctxt && d.fd == f.fd && d.ld == f.ld && d.len == f.len
                        && 0 <= backup[rxDescIdx] < |mem| && mem[backup[rxDescIdx]] == f.data
    {
      hide Owned, Wanted, ZeroCopy;
      assert Slot(desc, backup, mem, head, c, wire, 0);
    }

    /** The buffer of the descriptor at rxDescIdx becomes a pbuf in the thread's hand. */
    method Wrapped(b: int, data: int)
      requires Valid() && c > 0 && inHand == NULL && b == backup[rxDescIdx] && 0 <= b < |mem| && mem[b] == data
      modifies this`held, this`inHand, this`shown
      ensures Ok(true) && inHand == b && held == old(held) + {b} && b in shown && shown[b] == data
    {
      hide Slot, Wanted, Distinct, Ring;
      RingBounds();
      LoseBuffer(p, free, backup, held, dropped, head);
      hide Owned;
      held := held + {b};
      inHand := b;
      shown := shown[b := data];
    }

    /** pbuf_alloced_custom failed: the buffer belongs to nobody. */
    method Lost(ghost b: int)
      requires Valid() && c > 0 && inHand == NULL && b == backup[rxDescIdx]
      modifies this`dropped, this`oversize
      ensures Ok(true) && dropped == old(dropped) + {b} && oversize
    {
      hide Slot, Wanted, Distinct, Ring, ZeroCopy;
      RingBounds();
      LoseBuffer(p, free, backup, held, dropped, head);
      hide Owned;
      dropped := dropped + {b};
      oversize := true;
    }

    /** Take the frame at rxDescIdx: its buffer becomes a pbuf for the stack, or is lost if
        the frame is too long for one, and the descriptor gets another one. */
    method TakeFrame() returns (r: Input)
      requires Valid() && c > 0 && inHand == NULL
      requires var f := wire[|wire| - c]; !f.ctxt && f.fd && f.ld
      modifies this`desc, this`mem, this`dma, this`wire, this`c, this`pending, this`free, this`held
      modifies this`allocError, this`sem, this`handlers, this`script, this`backup, this`head, this`delivered
      modifies this`rxDescIdx, this`inHand, this`shown, this`dropped, this`oversize
      ensures r != NoFrame && |desc| == old(|desc|) && Answer(r, old(delivered))
      ensures r != Starved ==> Work() < old(Work()) && Moved(old(wire), old(c))
      ensures old(script) == [] ==> script == []
      ensures old(oversize) ==> oversize
      ensures Cutting(old(Around()), |desc|, p) ==> r == Dropped && AfterCut(old(Around()), Around())
    {
      hide Ok, Wanted, ZeroCopy, Answer, Moved, Cutting, AfterCut;
      AtHead();
      var d, b := desc[rxDescIdx], backup[rxDescIdx];
      if d.len + ETH_PAD_SIZE <= ETH_RX_BUFFER_SIZE {
        NotCutting();
        r := TakeGood(d.len, b);
      } else {
        r := TakeLong(b);
      }
    }

    lemma NotCutting()
      ensures c <= |wire| && c > 0 && !TooLong(wire[|wire| - c]) ==> !Cutting(Around(), |desc|, p)
    {
    }

    /** The buffer becomes a pbuf and goes to the stack. */
    method TakeGood(len: nat, b: int) returns (r: Input)
      requires Valid() && 0 < c <= |wire| && inHand == NULL && rxDescIdx < |backup| && b == backup[rxDescIdx]
      requires var f := wire[|wire| - c]; Deliverable(f) && len == f.len && 0 <= b < |mem| && mem[b] == f.data
      modifies this`desc, this`mem, this`dma, this`wire, this`c, this`pending, this`free, this`held
      modifies this`allocError, this`sem, this`handlers, this`script, this`backup, this`head, this`delivered
      modifies this`rxDescIdx, this`inHand, this`shown
      ensures (r.Got? || r == Starved) && |desc| == old(|desc|) && Answer(r, old(delivered))
      ensures r != Starved ==> Work() < old(Work()) && Moved(old(wire), old(c))
      ensures old(script) == [] ==> script == []
    {
      hide Ok, Wanted, ZeroCopy, Answer, Moved;
      NoBuffers();
      ghost var f := wire[|wire| - c];
      var frame := (len, mem[b]);
      Wrapped(b, frame.1);
      var ok := Refill([frame]);
      r := if ok then Got(Packet(b, frame.0, frame.1)) else Starved;
      if ok {
        MovedPast(old(wire), old(c));
      }
      Answered(r, f, old(delivered));
    }

    /** The buffer is lost, and so is the frame. */
    method TakeLong(ghost b: int) returns (r: Input)
      requires Valid() && 0 < c <= |wire| && inHand == NULL && rxDescIdx < |backup| && b == backup[rxDescIdx]
      requires TooLong(wire[|wire| - c])
      modifies this`desc, this`mem, this`dma, this`wire, this`c, this`pending, this`free, this`held
      modifies this`allocError, this`sem, this`handlers, this`script, this`backup, this`head, this`delivered
      modifies this`rxDescIdx, this`dropped, this`oversize
      ensures (r == Dropped || r == Starved) && |desc| == old(|desc|) && Answer(r, old(delivered)) && oversize
      ensures r != Starved ==> Work() < old(Work()) && Moved(old(wire), old(c))
      ensures old(script) == [] ==> script == []
      ensures Cutting(old(Around()), |desc|, p) ==> r == Dropped && AfterCut(old(Around()), Around())
    {
      hide Ok, Wanted, ZeroCopy, Answer, Moved;
      ghost var f := wire[|wire| - c];
      Lost(b);
      var ok := Refill([]);
      r := if ok then Dropped else Starved;
      OneMoreDropped(old(dropped), b);
      if ok {
        MovedPast(old(wire), old(c));
      }
      Answered(r, f, old(delivered));
    }

    lemma MovedPast(wire0: seq<Frame>, c0: nat)
      requires Moved(wire0, c0) && 0 < c0 <= |wire0|
      ensures c < |wire| && wire[|wire| - c - 1] == wire0[|wire0| - c0]
    {
    }

    /** The outcome of taking a frame as an answer of low_level_input. */
    lemma Answered(r: Input, f: Frame, delivered0: seq<(nat, int)>)
      requires r != NoFrame && !f.ctxt && f.fd && f.ld
      requires r == Starved ==> |held| + |dropped| > p - |desc| && (dropped == {} || recycled || oversize)
      requires r == Starved ==> Failed() && Ok(true)
      requires r != Starved ==> Valid() && LastTaken(f)
      requires r == Dropped ==> inHand == NULL && delivered == delivered0 && TooLong(f)
      requires r.Got? ==> !TooLong(f) && inHand == r.p.buf != NULL && delivered == delivered0 + [(r.p.len, r.p.data)]
      requires r.Got? ==> r.p.buf in shown && shown[r.p.buf] == r.p.data && r.p.len == f.len && r.p.data == f.data
      ensures Answer(r, delivered0)
    {
      hide Ok, Wanted;
      if r.Got? {
        StillShown(r.p.buf);
      }
    }

    /** Why there may be no buffers for a descriptor. */
    lemma NoBuffers()
      requires Ok(false)
      ensures dropped == {} || recycled || oversize
    {
    }

    lemma OneMoreDropped(dropped0: set<int>, b: int)
      ensures |dropped0 + {b}| <= |dropped0| + 1
    {
      assert dropped0 + {b} == dropped0 || |dropped0 + {b}| == |dropped0| + 1;
    }

    /** What low_level_input may return. With completed descriptors left it returns nothing exactly
        if the frame it has just taken is too long. */
    ghost predicate Answer(r: Input, delivered0: seq<(nat, int)>)
      reads this
    {
      match r
      case NoFrame => Valid() && inHand == NULL && delivered == delivered0 && c == 0 && desc[rxDescIdx].own
      case Dropped =>
        Valid() && inHand == NULL && delivered == delivered0 && c < |wire| && TooLong(wire[|wire| - c - 1])
      case Got(packet) =>
        && Valid() && c < |wire| && delivered == delivered0 + [(packet.len, packet.data)]
        && (var f := wire[|wire| - c - 1]; Deliverable(f) && packet.len == f.len && packet.data == f.data)
        && inHand == packet.buf != NULL && packet.buf in held && mem[packet.buf] == packet.data
      case Starved => Dry()
    }

    lemma AnswerSays(r: Input, delivered0: seq<(nat, int)>)
      requires Answer(r, delivered0)
      ensures r.Got? || r == Dropped ==> c < |wire|
      ensures r.Got? ==> var f := wire[|wire| - c - 1];
                         !f.ctxt && f.fd && f.ld && f.len <= 1534 && r.p.len == f.len && r.p.data == f.data
      ensures r == Dropped ==> var f := wire[|wire| - c - 1]; !f.ctxt && f.fd && f.ld && f.len > 1534
    {
      hide Ok;
    }

    /** One round of the loop in low_level_input. */
    method LookOnce() returns (again: bool, r: Input)
      requires Valid() && inHand == NULL
      modifies this
      ensures again ==> Valid() && inHand == NULL && delivered == old(delivered) && oversize == old(oversize)
      ensures again || r.Got? ==> Work() < old(Work())
      ensures !again ==> Answer(r, old(delivered))
      ensures old(script) == [] ==> script == []
      ensures (old(recycled) ==> recycled) && (old(oversize) ==> oversize) && cut == old(cut) && |desc| == old(|desc|)
      ensures Cutting(old(Around()), |desc|, p) ==> !again && r == Dropped && AfterCut(old(Around()), Around())
    {
      hide Ok, Wanted, Answer, AfterCut;
      Env(false);
      again, r := Act();
    }

    /** What the thread does about the descriptor at rxDescIdx. */
    method Act() returns (again: bool, r: Input)
      requires Valid() && inHand == NULL
      modifies this
      ensures again ==> Valid() && inHand == NULL && delivered == old(delivered) && oversize == old(oversize)
      ensures again || r.Got? ==> Work() < old(Work())
      ensures !again ==> Answer(r, old(delivered))
      ensures old(script) == [] ==> script == []
      ensures (old(recycled) ==> recycled) && (old(oversize) ==> oversize) && cut == old(cut) && |desc| == old(|desc|)
      ensures Cutting(old(Around()), |desc|, p) ==> !again && r == Dropped && AfterCut(old(Around()), Around())
    {
      hide Ok, Wanted;
      again, r := false, NoFrame;
      AtHead();
      var d := desc[rxDescIdx];
      if d.own {
        return;
      }
      if d.ctxt || !(d.fd && d.ld) {
        NoBuffers();
        var ok := Recycle();
        if ok {
          again := true;
        } else {
          r := Starved;
        }
      } else {
        hide Answer, AfterCut;
        r := TakeFrame();
      }
    }

    /** low_level_input: skip context and partial descriptors, return the next frame that
        is complete in one descriptor, or nothing once the descriptor belongs to the DMA or the
        frame is too long. Starved: no buffer for a descriptor; the source then retries a recycle
        without end, or leaves the descriptor behind. */
    method LowLevelInput() returns (r: Input)
      requires Valid() && inHand == NULL
      modifies this
      ensures Answer(r, old(delivered))
      ensures r.Got? || r == Dropped ==> c < |wire|
      ensures r.Got? ==> var f := wire[|wire| - c - 1];
                         !f.ctxt && f.fd && f.ld && f.len <= 1534 && r.p.len == f.len && r.p.data == f.data
      ensures r == Dropped ==> var f := wire[|wire| - c - 1]; !f.ctxt && f.fd && f.ld && f.len > 1534
      ensures r.Got? ==> Work() < old(Work())
      ensures old(script) == [] ==> script == []
      ensures (old(recycled) ==> recycled) && (old(oversize) ==> oversize) && cut == old(cut) && |desc| == old(|desc|)
      ensures Cutting(old(Around()), |desc|, p) ==> r == Dropped && AfterCut(old(Around()), Around())
    {
      hide Ok, Wanted, Answer, Cutting, AfterCut;
      var again := true;
      r := NoFrame;
      while again
        invariant again ==> Valid() && inHand == NULL && delivered == old(delivered) && oversize == old(oversize)
        invariant again || r.Got? ==> Work() <= old(Work()) && (r.Got? ==> Work() < old(Work()))
        invariant !again ==> Answer(r, old(delivered))
        invariant old(script) == [] ==> script == []
        invariant (old(recycled) ==> recycled) && (old(oversize) ==> oversize)
        invariant cut == old(cut) && |desc| == old(|desc|)
        invariant Cutting(old(Around()), |desc|, p) ==>
          if again then Around() == old(Around()) else r == Dropped && AfterCut(old(Around()), Around())
        decreases if again then Work() + 1 else 0
      {
        again, r := LookOnce();
      }
      AnswerSays(r, old(delivered));
    }

    /** netif->input takes the frame, or refuses it, and then the buffer goes back to the pool. */
    method GiveToStack(buf: int, refused: bool)
      requires Valid() && inHand == buf && buf in held && buf != NULL
      modifies this`inHand, this`free, this`held, this`allocError, this`sem
      ensures Valid() && inHand == NULL
      ensures !refused ==> free == old(free) && held == old(held) && allocError == old(allocError) && sem == old(sem)
      ensures refused ==> free == old(free) + {buf} && held == old(held) - {buf} && !allocError
      ensures refused ==> sem == old(sem) + (if old(allocError) then 1 else 0)
    {
      hide Slot, Wanted, Distinct, Owned, Ring, ZeroCopy;
      inHand := NULL;
      if refused {
        PbufFreeCustom(buf, false);
      }
    }

    /** How a round ends: with an empty ring, or cut short by a frame that is too long. */
    ghost predicate Looked()
      reads this`cut, this`c, this`wire
    {
      if cut then c < |wire| && TooLong(wire[|wire| - c - 1]) else c == 0
    }

    /** The do-while of ethernetif_input: hand frames to the stack until low_level_input returns
        NULL. Then the ring is empty, or the last frame taken was too long and cut the round
        short. netif->input may refuse a frame, whose buffer then goes back to the pool. */
    method InputLoop() returns (starved: bool)
      requires Valid() && inHand == NULL
      modifies this
      ensures !starved ==> Valid() && inHand == NULL && |desc| == old(|desc|)
      ensures !starved ==> Looked()
      ensures old(script) == [] ==> script == []
      ensures starved ==> Dry()
      ensures !starved ==> old(delivered) <= delivered
      ensures Cutting(old(Around()), old(|desc|), p) ==> !starved && cut && AfterCut(old(Around()), Around())
    {
      hide Ok, Wanted, Cutting, AfterCut;
      while true
        invariant Valid() && inHand == NULL && old(delivered) <= delivered && |desc| == old(|desc|)
        invariant old(script) == [] ==> script == []
        invariant Cutting(old(Around()), old(|desc|), p) ==> Around() == old(Around())
        decreases Work()
      {
        var r := LowLevelInput();
        match r
        case Starved => return true;
        case NoFrame =>
          cut := false;
          return false;
        case Dropped =>
          cut := true;
          return false;
        case Got(packet) =>
          var refused: bool := *;
          GiveToStack(packet.buf, refused);
      }
    }

    /** ethernetif_input: wait for the semaphore, then empty the ring, again and again, with
        anything happening around it. The thread never sleeps over a frame unless its last round
        was cut short by a frame that was too long: when it waits and the semaphore is zero, the
        next descriptor belongs to the DMA or an interrupt is still pending. */
    method InputThread(rounds: nat) returns (starved: bool)
      requires Valid() && inHand == NULL && Ready()
      modifies this
      ensures !starved ==> Valid() && inHand == NULL && Ready()
      ensures !starved && !cut && sem == 0 ==> desc[rxDescIdx].own || pending || handlers > 0
      ensures !starved && c == 0 ==> delivered == Wanted(wire)
      ensures starved ==> Dry()
      ensures !starved ==> old(delivered) <= delivered
      ensures rounds > 0 && old(sem) > 0 && old(script) == [] && !starved ==> Looked()
    {
      hide Ok, Wanted, Cutting, AfterCut;
      starved := false;
      for i := 0 to rounds
        invariant Valid() && inHand == NULL && Ready() && !starved && old(delivered) <= delivered
        invariant old(script) == [] ==> script == []
        invariant i == 0 ==> sem == old(sem)
        invariant i > 0 && old(sem) > 0 && old(script) == [] ==> Looked()
      {
        starved := OneRound();
        if starved {
          return;
        }
      }
      AtHead();
      Env(false);
      AtHead();
      AllDelivered();
    }

    /** One round of the thread: wait for the semaphore and, if it is signalled, run the loop. */
    method OneRound() returns (starved: bool)
      requires Valid() && inHand == NULL && Ready()
      modifies this
      ensures !starved ==> Valid() && inHand == NULL && Ready() && |desc| == old(|desc|)
      ensures starved ==> Dry()
      ensures !starved ==> old(delivered) <= delivered
      ensures old(sem) > 0 && !starved ==> Looked()
      ensures old(sem) == 0 && old(script) == [] ==>
        !starved && c == old(c) && wire == old(wire) && cut == old(cut) && sem == 0
      ensures old(script) == [] ==> script == []
      ensures old(sem) > 0 && Cutting(old(Around()), old(|desc|), p) ==>
        !starved && cut && AfterCut(old(Around()).(sem := old(sem) - 1), Around())
    {
      hide Ok, Wanted, AfterCut;
      starved := false;
      AtHead();
      Env(false);
      AtHead();
      if sem > 0 {
        sem := sem - 1;
        starved := InputLoop();
      }
    }

    lemma AllDelivered()
      requires Valid()
      ensures c == 0 ==> delivered == Wanted(wire)
    {
      hide Ring, Owned, Wanted;
      assert c == 0 ==> wire[..|wire| - c] == wire;
    }
  }

  /** The wake-up can be lost: on a ring of two descriptors a frame too long for a pbuf and a good
      one arrive under one interrupt. The first ends the round, and the thread waits with the good
      frame in the ring, nothing pending and the semaphore at zero. */
  method SleepsOverAFrame() returns (rx: EthRx)
    ensures rx.Valid() && rx.c == 1 && rx.inHand == NULL && rx.cut && !rx.desc[rx.rxDescIdx].own
    ensures rx.sem == 0 && !rx.pending && rx.handlers == 0
  {
    hide EthRx.Ok, Wanted;
    rx := LongThenGood();
    var starved := rx.OneRound();
    rx.AtHead();
  }

  /** The two frames have arrived and the interrupt handler has signalled. */
  method LongThenGood() returns (rx: EthRx)
    ensures fresh(rx) && rx.Valid() && rx.inHand == NULL && rx.Ready() && rx.sem == 1
    ensures !rx.pending && rx.handlers == 0 && rx.c == 2 && Cutting(rx.Around(), |rx.desc|, rx.p)
  {
    hide EthRx.Ok, Wanted;
    rx := TwoFrames();
    rx.Happen(IrqEnter, false);
    rx.Happen(IrqSignal, false);
  }

  method TwoFrames() returns (rx: EthRx)
    ensures fresh(rx) && rx.Valid() && rx.inHand == NULL && rx.sem == 0
    ensures rx.pending && rx.handlers == 0 && rx.c == 2 && |rx.wire| == 2 && TooLong(rx.wire[0])
    ensures rx.held == rx.dropped == {} && |rx.desc| == 2 && rx.p == 3 && rx.script == []
  {
    hide EthRx.Ok, Wanted, Range;
    rx := new EthRx(2, 3, []);
    rx.LinkUp();
    rx.DmaComplete(Frame(false, true, true, 1535, 0), 0, false);
    rx.DmaComplete(Frame(false, true, true, 60, 1), 0, false);
  }
}
