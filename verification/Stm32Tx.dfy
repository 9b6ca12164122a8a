/** The STM32H7 transmit path: low_level_output flattens a pbuf chain into the one bounce
    buffer, hands it to a transmit descriptor and polls for its completion, with the DMA
    running alongside. */
module Stm32Tx {

  const ETH_PAD_SIZE := 2
  const ETH_TX_BUFFER_MAX_SIZE := 1536
  const MIN_FRAME := 60

  datatype Err = ErrOk | ErrBuf | ErrTimeout

  /** The bytes of a chain, in order. */
  function Concat(ss: seq<seq<int>>): seq<int> {
    if ss == [] then [] else ss[0] + Concat(ss[1..])
  }

  function Zeros(n: nat): seq<int> { seq(n, i => 0) }

  /** A frame zero-filled to the minimum length without FCS, section 4.2.3.3 of IEEE 802.3. */
  function Padded(s: seq<int>): seq<int> {
    if |s| < MIN_FRAME then s + Zeros(MIN_FRAME - |s|) else s
  }

  /** The bytes of a frame first, then zeros up to 60. */
  lemma PaddedIs(s: seq<int>)
    ensures |Padded(s)| == (if |s| < 60 then 60 else |s|) && Padded(s)[..|s|] == s
    ensures forall i :: |s| <= i < |Padded(s)| ==> Padded(s)[i] == 0
  {
  }

  lemma {:induction false} ConcatSnoc(ss: seq<seq<int>>, s: seq<int>)
    ensures Concat([]) == [] && Concat(ss + [s]) == Concat(ss) + s
  {
    if ss == [] {
      assert ss + [s] == [s] && Concat([s]) == s + Concat([]);
    } else {
      ConcatSnoc(ss[1..], s);
      assert (ss + [s])[1..] == ss[1..] + [s];
    }
  }

  lemma {:induction false} ConcatAppend(a: seq<seq<int>>, b: seq<seq<int>>)
    ensures Concat(a + b) == Concat(a) + Concat(b)
  {
    if a == [] {
      assert a + b == b;
    } else {
      assert (a + b)[0] == a[0] && (a + b)[1..] == a[1..] + b;
      ConcatAppend(a[1..], b);
      assert a[0] + (Concat(a[1..]) + Concat(b)) == a[0] + Concat(a[1..]) + Concat(b);
    }
  }

  /** A chain as a value: whether the data of its first pbuf follows struct pbuf (PBUF_RAM and
      PBUF_POOL do, PBUF_REF and PBUF_ROM do not), the memory of the first pbuf, where its
      payload starts and how long it is, and the payloads behind it. */
  datatype Head = Head(contiguous: bool, mem: seq<int>, rest: seq<seq<int>>, off: nat, len: nat)

  predicate InBounds(h: Head) { h.off + h.len <= |h.mem| }

  function Bytes(h: Head): seq<int>
    requires InBounds(h)
  {
    Concat([h.mem[h.off..h.off + h.len]] + h.rest)
  }

  /** After pbuf_header(p, -ETH_PAD_SIZE), which needs two bytes in the first pbuf. */
  function Stripped(h: Head): Head {
    if h.len >= ETH_PAD_SIZE then h.(off := h.off + ETH_PAD_SIZE, len := h.len - ETH_PAD_SIZE) else h
  }

  /** After pbuf_header(p, ETH_PAD_SIZE), which needs contiguous data and headroom. */
  function Widened(h: Head): Head {
    if h.contiguous && h.off >= ETH_PAD_SIZE
    then h.(off := h.off - ETH_PAD_SIZE, len := h.len + ETH_PAD_SIZE) else h
  }

  /** What a send leaves of a chain. */
  function Sent(h: Head): Head { Widened(Stripped(h)) }

  /** What a caller can check before a send. */
  predicate Restorable(h: Head) {
    if h.contiguous then h.len >= ETH_PAD_SIZE || h.off < ETH_PAD_SIZE else h.len < ETH_PAD_SIZE
  }

  /** A send gives the chain back as it was exactly if it is restorable. */
  lemma SentSame(h: Head)
    ensures Sent(h) == h <==> Restorable(h)
    ensures Sent(h) == h <==> if h.contiguous then h.len >= 2 || h.off < 2 else h.len < 2
    ensures InBounds(h) ==> InBounds(Sent(h))
  {
  }

  lemma BytesSplit(h: Head)
    requires InBounds(h)
    ensures Bytes(h) == h.mem[h.off..h.off + h.len] + Concat(h.rest)
  {
    assert ([h.mem[h.off..h.off + h.len]] + h.rest)[1..] == h.rest;
  }

  /** What stripping takes off the front of the frame. */
  lemma StripTakes(h: Head)
    requires InBounds(h)
    ensures Bytes(Stripped(h)) == Bytes(h)[if h.len >= ETH_PAD_SIZE then ETH_PAD_SIZE else 0..]
  {
    hide Bytes, Concat;
    BytesSplit(h);
    BytesSplit(Stripped(h));
    var k := if h.len >= ETH_PAD_SIZE then ETH_PAD_SIZE else 0;
    var first := h.mem[h.off..h.off + h.len];
    assert first[k..] == h.mem[h.off + k..h.off + h.len];
    assert (first + Concat(h.rest))[k..] == first[k..] + Concat(h.rest);
  }

  /** The two ways to fail: a PBUF_REF or PBUF_ROM head loses its first two bytes... */
  lemma ReferenceLoses(mem: seq<int>, rest: seq<seq<int>>)
    requires |mem| >= 2
    ensures var h := Head(false, mem, rest, 0, 2);
            InBounds(h) && Bytes(Sent(h)) == Bytes(h)[2..]
  {
    StripTakes(Head(false, mem, rest, 0, 2));
  }

  /** ...and a head of less than two bytes with headroom gains two that are not part of the frame. */
  lemma ShortGains(mem: seq<int>, rest: seq<seq<int>>)
    requires |mem| >= 3
    ensures var h := Head(true, mem, rest, 2, 1);
            InBounds(h) && Bytes(Sent(h)) == mem[..2] + Bytes(h)
  {
    hide Bytes, Concat;
    var h := Head(true, mem, rest, 2, 1);
    BytesSplit(h);
    BytesSplit(Sent(h));
    assert mem[0..3] == mem[..2] + mem[2..3];
  }

  /** The head of a pbuf chain. */
  class TxPbuf {
    const contiguous: bool
    const mem: seq<int>
    const rest: seq<seq<int>>
    var off: nat
    var len: nat
    var totLen: int
    var ref: int

    ghost function Value(): Head
      reads this
    {
      Head(contiguous, mem, rest, off, len)
    }

    /** tot_len is the length of the whole chain. */
    ghost predicate WellFormed()
      reads this
    {
      InBounds(Value()) && totLen == |Bytes(Value())|
    }

    function Payloads(): seq<seq<int>>
      reads this
      requires InBounds(Value())
    {
      [mem[off..off + len]] + rest
    }

    /** A well-formed chain with value h. */
    ghost predicate Is(h: Head)
      reads this
    {
      WellFormed() && Value() == h
    }

    constructor (contiguous: bool, mem: seq<int>, rest: seq<seq<int>>, off: nat, len: nat, ref: int)
      requires off + len <= |mem|
      ensures Is(Head(contiguous, mem, rest, off, len)) && this.ref == ref
    {
      this.contiguous, this.mem, this.rest := contiguous, mem, rest;
      this.off, this.len, this.ref := off, len, ref;
      totLen := |Concat([mem[off..off + len]] + rest)|;
    }

    /** pbuf_header with a negative increment: strip the pad bytes, if the first pbuf has them. */
    method RemoveHeader()
      requires WellFormed()
      modifies this`off, this`len, this`totLen
      ensures WellFormed() && Value() == Stripped(old(Value()))
      ensures Bytes(Value()) == old(Bytes(Value()))[old(len) - len..]
      ensures old(len) >= 2 ==> off == old(off) + 2 && len == old(len) - 2 && totLen == old(totLen) - 2
      ensures old(len) < 2 ==> off == old(off) && len == old(len) && totLen == old(totLen)
    {
      hide Bytes;
      StripTakes(Value());
      BytesSplit(Value());
      if ETH_PAD_SIZE <= len {
        off, len, totLen := off + ETH_PAD_SIZE, len - ETH_PAD_SIZE, totLen - ETH_PAD_SIZE;
      }
    }

    /** pbuf_header with a positive increment: give the pad bytes back, if the data is contiguous
        and there is headroom. */
    method AddHeader()
      requires WellFormed()
      modifies this`off, this`len, this`totLen
      ensures WellFormed() && Value() == Widened(old(Value()))
      ensures contiguous && old(off) >= 2 ==> off == old(off) - 2 && len == old(len) + 2 && totLen == old(totLen) + 2
      ensures !contiguous || old(off) < 2 ==> off == old(off) && len == old(len) && totLen == old(totLen)
    {
      BytesSplit(Value());
      if contiguous && ETH_PAD_SIZE <= off {
        off, len, totLen := off - ETH_PAD_SIZE, len + ETH_PAD_SIZE, totLen + ETH_PAD_SIZE;
      }
      BytesSplit(Value());
    }
  }

  // ----- The DMA ------------------------------------------------------------------------

  /** The transmit ring as the DMA sees it: OWN bits, its position, and the number of steps it takes at
      each of the coming polls. */
  datatype Ring = Ring(own: seq<bool>, dma: nat, script: seq<nat>)

  predicate Sound(r: Ring) { r.dma < |r.own| }

  /** One step: the descriptor at the DMA's position is sent, if it is owned. */
  function Step(r: Ring): (r': Ring)
    requires Sound(r)
    ensures Sound(r') && |r'.own| == |r.own| && r'.script == r.script
  {
    if r.own[r.dma] then r.(own := r.own[r.dma := false], dma := (r.dma + 1) % |r.own|) else r
  }

  function Steps(r: Ring, k: nat): (r': Ring)
    requires Sound(r)
    ensures Sound(r') && |r'.own| == |r.own| && r'.script == r.script
  {
    if k == 0 then r else Step(Steps(r, k - 1))
  }

  /** What the DMA does at one poll, and at n. */
  function Polled(r: Ring): (r': Ring)
    requires Sound(r)
    ensures Sound(r') && |r'.own| == |r.own|
  {
    if r.script == [] then r else Steps(r.(script := r.script[1..]), r.script[0])
  }

  function PolledN(r: Ring, n: nat): (r': Ring)
    requires Sound(r)
    ensures Sound(r') && |r'.own| == |r.own|
  {
    if n == 0 then r else Polled(PolledN(r, n - 1))
  }

  /** Descriptor i is free after fewer than n polls. */
  ghost predicate FreeSoon(r: Ring, i: nat, n: nat)
    requires Sound(r) && i < |r.own|
  {
    exists j: nat :: j < n && !PolledN(r, j).own[i]
  }

  /** Descriptor i is owned at every poll before this one. */
  ghost predicate BusyUntil(r: Ring, i: nat, n: nat)
    requires Sound(r) && i < |r.own|
  {
    forall j: nat :: j < n ==> PolledN(r, j).own[i]
  }

  /** The first poll at which the DMA steps, or the length of the script. */
  function FirstStep(script: seq<nat>): (n: nat)
    ensures n <= |script| && (n < |script| ==> script[n] > 0)
    ensures forall k :: 0 <= k < n ==> script[k] == 0
  {
    if script == [] || script[0] > 0 then 0 else 1 + FirstStep(script[1..])
  }

  /** The DMA steps within the first n polls. */
  predicate Within(script: seq<nat>, n: nat) { FirstStep(script) < |script| && FirstStep(script) < n }

  ghost predicate OnlyOwned(r: Ring, i: nat) {
    r.dma == i < |r.own| && r.own[i] && forall k :: 0 <= k < |r.own| && k != i ==> !r.own[k]
  }

  ghost predicate NoneOwned(r: Ring) {
    Sound(r) && forall k :: 0 <= k < |r.own| ==> !r.own[k]
  }

  lemma {:induction false} StepsNone(r: Ring, k: nat)
    requires NoneOwned(r)
    ensures Steps(r, k) == r
  {
    if k > 0 {
      StepsNone(r, k - 1);
    }
  }

  lemma {:induction false} StepsOne(r: Ring, i: nat, k: nat)
    requires OnlyOwned(r, i) && k > 0
    ensures NoneOwned(Steps(r, k))
  {
    if k == 1 {
      assert Steps(r, 0) == r;
    } else {
      StepsOne(r, i, k - 1);
    }
  }

  function Dropped(script: seq<nat>, n: nat): seq<nat> { if n <= |script| then script[n..] else [] }

  /** One descriptor in flight stays so until the first poll with a step, and is free from then on. */
  lemma {:induction false} OneInFlight(r: Ring, i: nat, n: nat)
    requires OnlyOwned(r, i)
    ensures PolledN(r, n).script == Dropped(r.script, n)
    ensures if Within(r.script, n) then NoneOwned(PolledN(r, n)) else OnlyOwned(PolledN(r, n), i)
  {
    if n > 0 {
      OneInFlight(r, i, n - 1);
      var q := PolledN(r, n - 1);
      if q.script != [] {
        var q' := q.(script := q.script[1..]);
        assert q.script[0] == r.script[n - 1] && q'.script == Dropped(r.script, n);
        if Within(r.script, n - 1) {
          StepsNone(q', q.script[0]);
        } else if q.script[0] > 0 {
          StepsOne(q', i, q.script[0]);
          assert FirstStep(r.script) == n - 1;
        }
      } else {
        assert Dropped(r.script, n - 1) == [] && Dropped(r.script, n) == [];
      }
    }
  }

  /** With one descriptor in flight, n polls suffice exactly if the DMA steps in the first n - 1. */
  lemma InTime(r: Ring, i: nat, n: nat)
    requires OnlyOwned(r, i) && n > 0
    ensures FreeSoon(r, i, n) <==> Within(r.script, n - 1)
  {
    if Within(r.script, n - 1) {
      OneInFlight(r, i, n - 1);
      assert !PolledN(r, n - 1).own[i];
    } else {
      forall j: nat | j < n
        ensures PolledN(r, j).own[i]
      {
        OneInFlight(r, i, j);
      }
    }
  }

  /** The number of polls it takes. */
  lemma PollsTaken(r: Ring, i: nat, k: nat)
    requires OnlyOwned(r, i) && BusyUntil(r, i, k) && !PolledN(r, k).own[i]
    ensures Within(r.script, k) && k == FirstStep(r.script) + 1
  {
    OneInFlight(r, i, k);
    var j := FirstStep(r.script) + 1;
    if j < k {
      OneInFlight(r, i, j);
    }
  }

  /** How polling for one descriptor in flight ends, with left of 10000 polls to spare. */
  lemma QuietEnds(r: Ring, i: nat, left: nat)
    requires OnlyOwned(r, i) && left <= 10000 && BusyUntil(r, i, 10000 - left)
    requires left > 0 ==> !PolledN(r, 10000 - left).own[i]
    ensures left > 0 <==> Within(r.script, 9999)
    ensures left > 0 ==> PolledN(r, 10000 - left).script == r.script[FirstStep(r.script) + 1..]
    ensures if Within(r.script, 10000) then NoneOwned(PolledN(r, 10000 - left)) else PolledN(r, 10000 - left).own[i]
  {
    var k := 10000 - left;
    InTime(r, i, 10000);
    PollDecides(r, i, 10000, k);
    OneInFlight(r, i, k);
    if left > 0 {
      PollsTaken(r, i, k);
    }
  }

  class EthTx {
    const bounce: array<int>
    /** OWN and the length field of each transmit descriptor. */
    var own: seq<bool>
    var lens: seq<nat>
    /** The static tx_desc_idx. */
    var idx: nat
    /** The DMA's position, what it has sent, and how many steps it takes at each poll. */
    var dma: nat
    var wire: seq<seq<int>>
    var script: seq<nat>
    /** The bounce buffer was written while the DMA owned a descriptor on it. */
    ghost var raced: bool

    ghost predicate Valid()
      reads this
    {
      && bounce.Length == ETH_TX_BUFFER_MAX_SIZE
      && |own| == |lens| && idx < |own| && dma < |own|
      && forall i :: 0 <= i < |lens| ==> lens[i] <= ETH_TX_BUFFER_MAX_SIZE
    }

    ghost predicate Busy()
      reads this`own
    {
      exists i :: 0 <= i < |own| && own[i]
    }

    /** Nothing is in flight and the DMA expects the descriptor the driver uses next. */
    ghost predicate Quiet()
      reads this`own, this`dma, this`idx
    {
      !Busy() && dma == idx
    }

    constructor (n: nat, script: seq<nat>)
      requires n > 0
      ensures Valid() && Quiet() && wire == [] && !raced && this.script == script && fresh(bounce)
    {
      bounce := new int[ETH_TX_BUFFER_MAX_SIZE];
      own, lens := seq(n, i => false), seq(n, i => 0);
      idx, dma, wire, raced := 0, 0, [], false;
      this.script := script;
    }

    ghost function View(): Ring
      reads this`own, this`dma, this`script
    {
      Ring(own, dma, script)
    }

    /** The DMA sends the frame of the descriptor at its position, if it owns it. */
    method DmaStep()
      requires Valid()
      modifies this`own, this`dma, this`wire
      ensures Valid()
      ensures if old(own[dma]) then own == old(own)[old(dma) := false] && dma == (old(dma) + 1) % |own|
                                    && wire == old(wire) + [bounce[..lens[old(dma)]]]
              else own == old(own) && dma == old(dma) && wire == old(wire)
      ensures View() == Step(old(View()))
    {
      if own[dma] {
        wire := wire + [bounce[..lens[dma]]];
        own := own[dma := false];
        dma := (dma + 1) % |own|;
      }
    }

    /** The frame in the bounce buffer is still to be sent, or has been sent once. */
    ghost predicate InFlight(frame: seq<int>, wire0: seq<seq<int>>)
      reads this, bounce
    {
      && Valid()
      && (forall i :: 0 <= i < |own| && i != idx ==> !own[i])
      && lens[idx] == |frame| && bounce[..|frame|] == frame
      && if own[idx] then dma == idx && wire == wire0
         else dma == (idx + 1) % |own| && wire == wire0 + [frame]
    }

    /** The DMA runs between two polls. */
    method DmaRun(ghost frame: seq<int>, ghost wire0: seq<seq<int>>)
      requires Valid()
      modifies this`own, this`dma, this`wire, this`script
      ensures Valid() && |own| == old(|own|)
      ensures old(InFlight(frame, wire0)) ==> InFlight(frame, wire0)
      ensures !old(Busy()) ==> !Busy() && dma == old(dma) && wire == old(wire)
      ensures View() == Polled(old(View()))
    {
      if script != [] {
        var k := script[0];
        script := script[1..];
        ghost var v := View();
        for i := 0 to k
          invariant View() == Steps(v, i)
          invariant Valid() && |own| == old(|own|)
          invariant old(InFlight(frame, wire0)) ==> InFlight(frame, wire0)
          invariant !old(Busy()) ==> !Busy() && dma == old(dma) && wire == old(wire)
        {
          DmaStep();
        }
      }
    }

    /** memcpy into the bounce buffer. */
    method CopyIn(at: nat, data: seq<int>)
      requires at + |data| <= bounce.Length
      modifies bounce
      ensures bounce[..at] == old(bounce[..at]) && bounce[at..at + |data|] == data
    {
      for k := 0 to |data|
        invariant bounce[..at] == old(bounce[..at]) && bounce[at..at + k] == data[..k]
      {
        bounce[at + k] := data[k];
        assert bounce[at..at + k + 1] == bounce[at..at + k] + [data[k]];
      }
    }

    /** The flattening loop: the payloads, one after the other. */
    method Flatten(ps: seq<seq<int>>) returns (total: nat)
      requires |Concat(ps)| <= bounce.Length
      modifies bounce, this`raced
      ensures total == |Concat(ps)| && bounce[..total] == Concat(ps)
      ensures raced == (old(raced) || (ps != [] && Busy()))
    {
      total := 0;
      for q := 0 to |ps|
        invariant total == |Concat(ps[..q])| <= bounce.Length && bounce[..total] == Concat(ps[..q])
        invariant raced == (old(raced) || (q > 0 && Busy()))
      {
        assert ps[..q + 1] == ps[..q] + [ps[q]];
        ConcatSnoc(ps[..q], ps[q]);
        assert ps == ps[..q + 1] + ps[q + 1..];
        ConcatAppend(ps[..q + 1], ps[q + 1..]);
        raced := raced || Busy();
        CopyIn(total, ps[q]);
        assert bounce[..total + |ps[q]|] == bounce[..total] + bounce[total..total + |ps[q]|];
        total := total + |ps[q]|;
      }
      assert ps[..|ps|] == ps;
    }

    /** Poll OWN of the current descriptor until it is clear or the polls are used up. */
    method Poll(polls: nat, ghost frame: seq<int>, ghost wire0: seq<seq<int>>) returns (left: nat)
      requires Valid()
      modifies this`own, this`dma, this`wire, this`script
      ensures Valid() && |own| == old(|own|) && left <= polls
      ensures left > 0 ==> !own[idx]
      ensures old(InFlight(frame, wire0)) ==> InFlight(frame, wire0)
      ensures !old(Busy()) ==> !Busy() && dma == old(dma) && wire == old(wire) && left == polls
      ensures View() == PolledN(old(View()), polls - left) && BusyUntil(old(View()), idx, polls - left)
    {
      left := polls;
      while own[idx] && left > 0
        invariant Valid() && |own| == old(|own|) && left <= polls
        invariant old(InFlight(frame, wire0)) ==> InFlight(frame, wire0)
        invariant !old(Busy()) ==> !Busy() && dma == old(dma) && wire == old(wire) && left == polls
        invariant View() == PolledN(old(View()), polls - left) && BusyUntil(old(View()), idx, polls - left)
        decreases left
      {
        hide InFlight;
        DmaRun(frame, wire0);
        left := left - 1;
      }
    }

    /** Zero-fill a short frame to the minimum length. */
    method PadFrame(total: nat) returns (txLen: nat)
      requires total <= bounce.Length == ETH_TX_BUFFER_MAX_SIZE
      modifies bounce, this`raced
      ensures txLen <= bounce.Length && bounce[..txLen] == Padded(old(bounce[..total]))
      ensures txLen == (if total < 60 then 60 else total) && bounce[..total] == old(bounce[..total])
      ensures forall i :: total <= i < txLen ==> bounce[i] == 0
      ensures raced == (old(raced) || (total < 60 && Busy()))
    {
      txLen := total;
      if txLen < MIN_FRAME {
        raced := raced || Busy();
        CopyIn(txLen, Zeros(MIN_FRAME - txLen));
        assert bounce[..MIN_FRAME] == bounce[..txLen] + bounce[txLen..MIN_FRAME];
        txLen := MIN_FRAME;
      }
      PaddedIs(old(bounce[..total]));
      assert forall i :: 0 <= i < txLen ==> bounce[i] == bounce[..txLen][i];
    }

    /** Hand the bounce buffer to the current descriptor and poll for its completion. */
    method Transmit(txLen: nat, ghost frame: seq<int>) returns (err: Err)
      requires Valid() && txLen <= bounce.Length && |frame| == txLen && bounce[..txLen] == frame && !own[idx]
      modifies this`own, this`lens, this`idx, this`dma, this`wire, this`script
      ensures Valid() && err != ErrBuf && |own| == old(|own|)
      ensures lens == old(lens)[old(idx) := txLen]
      ensures err == ErrOk <==> FreeSoon(Armed(old(View()), old(idx)), old(idx), 10000)
      ensures old(Quiet()) ==> AfterSend(err, frame, old(wire), old(script))
    {
      hide Within, FreeSoon, BusyUntil, PolledN, FirstStep;
      Length14(txLen);
      lens := lens[idx := txLen % 0x4000];
      own := own[idx := true];
      ghost var armed := View();
      var left := Poll(10000, frame, old(wire));
      err := if left == 0 then ErrTimeout else ErrOk;
      PollDecides(armed, idx, 10000, 10000 - left);
      if old(Quiet()) {
        QuietEnds(armed, idx, left);
      }
      idx := (idx + 1) % |own|;
    }

    /** How a send from a quiet ring ends: with ERR_OK exactly if the DMA steps within the first 9999
        polls, and then the ring is quiet again and the frame on the wire; a completion at poll 10000
        is still reported as ERR_TIMEOUT. */
    ghost predicate AfterSend(err: Err, frame: seq<int>, wire0: seq<seq<int>>, script0: seq<nat>)
      reads this`own, this`dma, this`idx, this`wire, this`script
    {
      && (err == ErrOk <==> Within(script0, 9999))
      && (err == ErrOk ==> Quiet() && script == script0[FirstStep(script0) + 1..])
      && wire == wire0 + if Within(script0, 10000) then [frame] else []
    }

    /** The descriptor part of low_level_output, for the bytes in the bounce buffer. setup: the wait for
        the descriptor ended in time, after waited polls. */
    method SendBounce(total: nat, ghost bytes: seq<int>) returns (err: Err, setup: bool, ghost waited: nat)
      requires Valid() && total == |bytes| <= bounce.Length && bounce[..total] == bytes
      modifies this, bounce
      ensures Valid() && err != ErrBuf && |lens| == old(|lens|)
      ensures setup <==> FreeSoon(old(View()), old(idx), 1000)
      ensures !setup ==> err == ErrTimeout
      ensures setup ==> bounce[..lens[old(idx)]] == Padded(bytes) && lens[old(idx)] == |Padded(bytes)|
      ensures setup ==> BusyUntil(old(View()), old(idx), waited) && !PolledN(old(View()), waited).own[old(idx)]
      ensures setup ==>
        (err == ErrOk <==> FreeSoon(Armed(PolledN(old(View()), waited), old(idx)), old(idx), 10000))
      ensures old(Quiet()) ==> setup && waited == 0 && AfterSend(err, Padded(bytes), old(wire), old(script))
      ensures old(raced) ==> raced
      ensures raced ==> old(raced) || old(Busy())
    {
      hide Padded, FreeSoon, BusyUntil, AfterSend, PolledN;
      NoPolls(View());
      var left := Poll(1000, [], []);
      waited := 1000 - left;
      PollDecides(old(View()), idx, 1000, waited);
      if left == 0 {
        return ErrTimeout, false, waited;
      }
      var txLen := PadFrame(total);
      setup := true;
      err := Transmit(txLen, Padded(bytes));
    }

    /** low_level_output. For every well-formed chain: one too long is refused and untouched. Once the
        descriptor is set up the bounce buffer holds the frame, without the pad bytes and zero-filled.
        From a quiet ring it goes onto the wire exactly once, with ERR_OK exactly if the DMA completes
        within the first 9999 polls. The reference count is restored on every exit, and the chain is
        left as `Sent` says, which is as it was exactly if it is restorable. The bounce buffer is
        written under the DMA exactly if a descriptor was still DMA-owned at the call. */
    method LowLevelOutput(p: TxPbuf) returns (err: Err, setup: bool, ghost waited: nat)
      requires Valid() && p.WellFormed()
      modifies this, bounce, p
      ensures Valid() && p.WellFormed() && p.ref == old(p.ref) && |lens| == old(|lens|)
      ensures err == ErrBuf <==> old(p.totLen) > 1536
      ensures err == ErrBuf ==> !setup && wire == old(wire) && View() == old(View()) && idx == old(idx)
      ensures err == ErrBuf ==> p.Value() == old(p.Value())
      ensures err != ErrBuf ==> p.Value() == Sent(old(p.Value()))
      ensures err != ErrBuf ==> (p.Value() == old(p.Value()) <==> Restorable(old(p.Value())))
      ensures err != ErrBuf ==> (setup <==> FreeSoon(old(View()), old(idx), 1000))
      ensures err == ErrOk ==> setup
      ensures setup ==> var frame := FrameOf(old(p.Value()));
                        lens[old(idx)] == |frame| && bounce[..lens[old(idx)]] == frame
      ensures setup ==> var pad := if old(p.len) >= 2 then 2 else 0;
                        var body := p.mem[old(p.off) + pad..old(p.off + p.len)] + Concat(p.rest);
                        && lens[old(idx)] == (if |body| < 60 then 60 else |body|) && bounce[..|body|] == body
                        && forall i :: |body| <= i < lens[old(idx)] ==> bounce[i] == 0
      ensures setup ==> BusyUntil(old(View()), old(idx), waited) && !PolledN(old(View()), waited).own[old(idx)]
      ensures setup ==>
        (err == ErrOk <==> FreeSoon(Armed(PolledN(old(View()), waited), old(idx)), old(idx), 10000))
      ensures old(Quiet()) && err != ErrBuf ==>
        setup && waited == 0 && AfterSend(err, FrameOf(old(p.Value())), old(wire), old(script))
      ensures raced == (old(raced) || (err != ErrBuf && old(Busy())))
    {
      hide Concat, Padded, Bytes, Stripped, Widened, Restorable, FreeSoon, BusyUntil, PolledN, AfterSend, FrameOf;
      setup, waited := false, 0;
      if p.totLen > ETH_TX_BUFFER_MAX_SIZE {
        return ErrBuf, setup, waited;
      }
      err, setup, waited := SendFitting(p);
      if setup {
        FrameIn(old(p.Value()), lens[old(idx)]);
      }
    }

    /** low_level_output for a chain that is not too long. */
    method SendFitting(p: TxPbuf) returns (err: Err, setup: bool, ghost waited: nat)
      requires Valid() && p.WellFormed() && p.totLen <= ETH_TX_BUFFER_MAX_SIZE
      modifies this, bounce, p
      ensures Valid() && p.WellFormed() && p.ref == old(p.ref) && |lens| == old(|lens|) && err != ErrBuf
      ensures p.Value() == Sent(old(p.Value()))
      ensures p.Value() == old(p.Value()) <==> Restorable(old(p.Value()))
      ensures setup <==> FreeSoon(old(View()), old(idx), 1000)
      ensures err == ErrOk ==> setup
      ensures setup ==> var frame := FrameOf(old(p.Value()));
                        lens[old(idx)] == |frame| <= bounce.Length && bounce[..lens[old(idx)]] == frame
      ensures setup ==> BusyUntil(old(View()), old(idx), waited) && !PolledN(old(View()), waited).own[old(idx)]
      ensures setup ==>
        (err == ErrOk <==> FreeSoon(Armed(PolledN(old(View()), waited), old(idx)), old(idx), 10000))
      ensures old(Quiet()) ==>
        setup && waited == 0 && AfterSend(err, FrameOf(old(p.Value())), old(wire), old(script))
      ensures raced == (old(raced) || old(Busy()))
    {
      hide Concat, Padded, Bytes, Stripped, Widened, Restorable, FreeSoon, BusyUntil, PolledN, AfterSend, Valid;
      p.RemoveHeader();
      err, setup, waited := SendPayloads(p);
      p.AddHeader();
      p.ref := p.ref - 1;
      SentSame(old(p.Value()));
    }

    /** The frame of a chain in the bounce buffer, byte by byte. */
    lemma FrameIn(h: Head, n: nat)
      requires InBounds(h) && n <= bounce.Length && n == |FrameOf(h)| && bounce[..n] == FrameOf(h)
      ensures var pad := if h.len >= 2 then 2 else 0;
              var body := h.mem[h.off + pad..h.off + h.len] + Concat(h.rest);
              && n == (if |body| < 60 then 60 else |body|) && bounce[..|body|] == body
              && forall i :: |body| <= i < n ==> bounce[i] == 0
    {
      hide FrameOf;
      FrameIs(h);
      var pad := if h.len >= 2 then 2 else 0;
      var body := h.mem[h.off + pad..h.off + h.len] + Concat(h.rest);
      assert bounce[..|body|] == bounce[..n][..|body|];
      assert forall i :: 0 <= i < n ==> bounce[i] == FrameOf(h)[i];
    }

    /** low_level_output between the two header adjustments. */
    method SendPayloads(p: TxPbuf) returns (err: Err, setup: bool, ghost waited: nat)
      requires Valid() && p.WellFormed() && p.totLen <= ETH_TX_BUFFER_MAX_SIZE
      modifies this, bounce, p`ref
      ensures Valid() && p.ref == old(p.ref) + 1 && err != ErrBuf && |lens| == old(|lens|)
      ensures setup <==> FreeSoon(old(View()), old(idx), 1000)
      ensures !setup ==> err == ErrTimeout
      ensures setup ==> var frame := Padded(Bytes(p.Value()));
                        lens[old(idx)] == |frame| <= bounce.Length && bounce[..lens[old(idx)]] == frame
      ensures setup ==> BusyUntil(old(View()), old(idx), waited) && !PolledN(old(View()), waited).own[old(idx)]
      ensures setup ==>
        (err == ErrOk <==> FreeSoon(Armed(PolledN(old(View()), waited), old(idx)), old(idx), 10000))
      ensures old(Quiet()) ==>
        setup && waited == 0 && AfterSend(err, Padded(Bytes(p.Value())), old(wire), old(script))
      ensures raced == (old(raced) || old(Busy()))
    {
      hide Concat, Padded, FreeSoon, BusyUntil, PolledN, AfterSend;
      var total := Flatten(p.Payloads());
      p.ref := p.ref + 1;
      err, setup, waited := SendBounce(total, Bytes(p.Value()));
    }

    /** The chains from position done on have their first value, and so has every restorable one. */
    ghost predicate Pending(ps: seq<TxPbuf>, hs: seq<Head>, done: nat)
      requires |hs| == |ps| && done <= |ps|
      reads ps
    {
      forall i {:trigger hs[i]} :: 0 <= i < |ps| ==>
        && ps[i].WellFormed()
        && (Restorable(hs[i]) || ps[i] !in ps[..done] ==> ps[i].Value() == hs[i])
    }

    /** One send of a run. */
    method SendNext(ps: seq<TxPbuf>, ghost hs: seq<Head>, done: nat)
      returns (err: Err, ghost h: Head)
      requires Valid() && Quiet() && !raced && done < |ps| == |hs| && Pending(ps, hs, done)
      modifies this, bounce, ps
      ensures Valid() && !raced && Pending(ps, hs, done + 1)
      ensures forall i :: 0 <= i < |ps| ==> ps[i].ref == old(ps[i].ref)
      ensures InBounds(h) && (Restorable(hs[done]) || ps[done] !in ps[..done] ==> h == hs[done])
      ensures err == Reply(h, old(script)).0
      ensures err != ErrTimeout ==>
        Quiet() && wire == old(wire) + Fitting(h) && script == Reply(h, old(script)).1
      ensures err == ErrTimeout ==>
        wire == old(wire) + if Within(old(script), 10000) then [FrameOf(h)] else []
    {
      hide Concat, Padded, Sent, Restorable, Bytes, FreeSoon, BusyUntil, PolledN, FirstStep;
      ghost var p := ps[done];
      h := p.Value();
      SentSame(h);
      assert hs[done] == hs[done];
      ghost var waited;
      var setup;
      err, setup, waited := LowLevelOutput(ps[done]);
      SoonerThan(old(script));
      forall i | 0 <= i < |ps|
        ensures ps[i].WellFormed()
        ensures Restorable(hs[i]) || ps[i] !in ps[..done + 1] ==> ps[i].Value() == hs[i]
      {
        assert p in ps[..done + 1] by { assert ps[..done + 1][done] == p; }
        assert hs[i] == hs[i];
        assert ps[..done + 1] == ps[..done] + [p];
      }
    }

    /** One send of a run and its entry in the log. */
    method SendLogged(ps: seq<TxPbuf>, ghost hs: seq<Head>, errs: seq<Err>, ghost vals: seq<Head>,
                      ghost wire0: seq<seq<int>>, ghost script0: seq<nat>)
      returns (errs': seq<Err>, ghost vals': seq<Head>)
      requires Valid() && Quiet() && !raced && |errs| < |ps| == |hs| && Pending(ps, hs, |errs|)
      requires AsGiven(ps, hs, vals, |errs|) && AllInBounds(vals) && wire == wire0 + Frames(vals)
      requires Played(vals, script0) == (errs, script) && ErrTimeout !in errs
      modifies this, bounce, ps
      ensures Valid() && !raced && |errs'| == |errs| + 1 && errs'[..|errs|] == errs && Pending(ps, hs, |errs'|)
      ensures forall i :: 0 <= i < |ps| ==> ps[i].ref == old(ps[i].ref)
      ensures AsGiven(ps, hs, vals', |errs'|) && AllInBounds(vals') && Played(vals', script0).0 == errs'
      ensures errs'[|errs|] != ErrTimeout ==>
        Quiet() && wire == wire0 + Frames(vals') && Played(vals', script0).1 == script
      ensures wire0 + Frames(vals'[..|errs|]) <= wire <= wire0 + Frames(vals')
    {
      hide Restorable, Bytes, FrameOf, Pending, Frames, AsGiven, Valid, Quiet, Reply, Played, Within;
      ghost var h;
      var err;
      err, h := SendNext(ps, hs, |errs|);
      errs' := errs + [err];
      Snoc(ps, hs, vals, |errs|, h);
      PlayedNext(vals, h, script0);
      FittingOnTime(h, old(script));
      vals' := vals + [h];
      assert vals'[..|errs|] == vals by { AsGivenSize(ps, hs, vals, |errs|); }
    }

    lemma PendingMeans(ps: seq<TxPbuf>, hs: seq<Head>, done: nat)
      requires |hs| == |ps| && done <= |ps| && Pending(ps, hs, done)
      ensures forall i :: 0 <= i < |ps| && Restorable(hs[i]) ==> ps[i].Is(hs[i])
    {
    }

    /** Any run of sends from a quiet ring, until one times out. errs are their answers, which are those
        that the sizes and the DMA's steps determine; without a timeout the frames that are not too long
        are on the wire, in order and once each; with one, all earlier ones are; and the bounce buffer
        is never written under the DMA. vals are the chains as each send found them: as they were given,
        for a restorable chain however often it is sent, and for any other chain the first time. */
    method SendAll(ps: seq<TxPbuf>, ghost hs: seq<Head>) returns (errs: seq<Err>, ghost vals: seq<Head>)
      requires Valid() && Quiet() && !raced
      requires |hs| == |ps| && forall i :: 0 <= i < |ps| ==> ps[i].Is(hs[i])
      modifies this, bounce, ps
      ensures Valid() && !raced && |errs| <= |ps| && AsGiven(ps, hs, vals, |errs|) && AllInBounds(vals)
      ensures errs == Played(vals, old(script)).0
      ensures ErrTimeout !in errs ==> |errs| == |ps| && Quiet() && wire == old(wire) + Frames(vals)
      ensures ErrTimeout in errs ==>
        && |vals| == |errs| > 0 && errs[|errs| - 1] == ErrTimeout && ErrTimeout !in errs[..|errs| - 1]
        && old(wire) + Frames(vals[..|errs| - 1]) <= wire <= old(wire) + Frames(vals)
      ensures forall i :: 0 <= i < |ps| ==> ps[i].ref == old(ps[i].ref)
      ensures forall i :: 0 <= i < |ps| && Restorable(hs[i]) ==> ps[i].Is(hs[i])
    {
      hide Concat, Padded, Sent, Restorable, Bytes, FrameOf, Fitting, Pending, Frames, AsGiven, Played;
      errs, vals := [], [];
      Begin(ps, hs);
      NothingPlayed(script);
      while |errs| < |ps|
        invariant Valid() && Quiet() && !raced && |errs| <= |ps| && Pending(ps, hs, |errs|)
        invariant AsGiven(ps, hs, vals, |errs|) && AllInBounds(vals)
        invariant Played(vals, old(script)) == (errs, script) && ErrTimeout !in errs
        invariant wire == old(wire) + Frames(vals)
        invariant forall i :: 0 <= i < |ps| ==> ps[i].ref == old(ps[i].ref)
      {
        ghost var n := |errs|;
        errs, vals := SendLogged(ps, hs, errs, vals, old(wire), old(script));
        if errs[|errs| - 1] == ErrTimeout {
          PendingMeans(ps, hs, |errs|);
          AsGivenSize(ps, hs, vals, |errs|);
          return;
        }
        assert errs == errs[..n] + [errs[n]];
      }
      PendingMeans(ps, hs, |errs|);
    }

    lemma Begin(ps: seq<TxPbuf>, hs: seq<Head>)
      requires |hs| == |ps| && forall i :: 0 <= i < |ps| ==> ps[i].Is(hs[i])
      ensures Pending(ps, hs, 0) && AsGiven(ps, hs, [], 0) && AllInBounds([]) && Frames([]) == []
    {
    }
  }

  /** The ring once descriptor i has been handed to the DMA. */
  function Armed(r: Ring, i: nat): (r': Ring)
    requires Sound(r) && i < |r.own|
    ensures Sound(r') && |r'.own| == |r.own|
  {
    r.(own := r.own[i := true])
  }

  lemma Length14(n: nat)
    requires n <= ETH_TX_BUFFER_MAX_SIZE
    ensures n % 0x4000 == n
  {
  }

  lemma NoPolls(r: Ring)
    requires Sound(r)
    ensures PolledN(r, 0) == r
  {
  }

  /** Polling decides whether the descriptor is free soon enough. */
  lemma PollDecides(r: Ring, i: nat, n: nat, k: nat)
    requires Sound(r) && i < |r.own| && k <= n && BusyUntil(r, i, k)
    requires k < n ==> !PolledN(r, k).own[i]
    ensures FreeSoon(r, i, n) <==> k < n
  {
    hide PolledN;
  }

  /** The answer to a send of h from a quiet ring, and the DMA's steps left after it. */
  ghost function Reply(h: Head, script: seq<nat>): (Err, seq<nat>)
    requires InBounds(h)
  {
    if |Bytes(h)| > ETH_TX_BUFFER_MAX_SIZE then (ErrBuf, script)
    else if Within(script, 9999) then (ErrOk, script[FirstStep(script) + 1..])
    else (ErrTimeout, script)
  }

  /** The answers to a run of sends, and the steps left. */
  ghost function Played(hs: seq<Head>, script: seq<nat>): (seq<Err>, seq<nat>)
    requires AllInBounds(hs)
  {
    if hs == [] then ([], script)
    else
      var (errs, rest) := Played(hs[..|hs| - 1], script);
      var (err, rest') := Reply(hs[|hs| - 1], rest);
      (errs + [err], rest')
  }

  lemma NothingPlayed(script: seq<nat>)
    ensures Played([], script) == ([], script)
  {
  }

  lemma PlayedNext(hs: seq<Head>, h: Head, script: seq<nat>)
    requires AllInBounds(hs) && InBounds(h) && AllInBounds(hs + [h])
    ensures var (errs, rest) := Played(hs, script);
            Played(hs + [h], script) == (errs + [Reply(h, rest).0], Reply(h, rest).1)
  {
    assert (hs + [h])[..|hs|] == hs;
  }

  lemma SoonerThan(script: seq<nat>)
    ensures Within(script, 9999) ==> Within(script, 10000)
  {
  }

  /** A send that times out fits the bounce buffer. */
  lemma FittingOnTime(h: Head, script: seq<nat>)
    requires InBounds(h)
    ensures Reply(h, script).0 == ErrTimeout ==> Fitting(h) == [FrameOf(h)]
  {
  }

  lemma AsGivenSize(ps: seq<TxPbuf>, hs: seq<Head>, vals: seq<Head>, done: nat)
    requires AsGiven(ps, hs, vals, done)
    ensures |vals| == done && AllInBounds(vals)
  {
  }

  /** A frame that is completed at the very last poll: it is on the wire, and the send reports
      ERR_TIMEOUT all the same. */
  method LateCompletion(bytes: seq<int>) returns (tx: EthTx, err: Err)
    requires 2 <= |bytes| <= 1000
    ensures err == ErrTimeout && tx.wire == [Padded(bytes[2..])]
  {
    hide Padded, FreeSoon, BusyUntil, PolledN;
    var script := seq(9999, i => 0) + [1];
    tx := new EthTx(4, script);
    var p := new TxPbuf(true, bytes, [], 0, |bytes|, 1);
    ghost var h := Head(true, bytes, [], 0, |bytes|);
    WholeBytes(bytes);
    LastPoll(script);
    ghost var waited;
    var setup;
    err, setup, waited := tx.LowLevelOutput(p);
  }

  lemma LastPoll(script: seq<nat>)
    requires |script| == 10000 && script[9999] > 0 && forall k :: 0 <= k < 9999 ==> script[k] == 0
    ensures FirstStep(script) == 9999
  {
  }

  lemma WholeBytes(bytes: seq<int>)
    requires |bytes| >= 2
    ensures var h := Head(true, bytes, [], 0, |bytes|);
            Bytes(h) == bytes && Bytes(Stripped(h)) == bytes[2..]
  {
    var h := Head(true, bytes, [], 0, |bytes|);
    BytesSplit(h);
    StripTakes(h);
    assert bytes[0..|bytes|] == bytes;
  }

  ghost predicate AllInBounds(hs: seq<Head>) {
    forall i :: 0 <= i < |hs| ==> InBounds(hs[i])
  }

  /** The first done chains were sent as vals: in bounds, and as given unless an earlier send of the
      same chain could not restore it. */
  ghost predicate AsGiven(ps: seq<TxPbuf>, hs: seq<Head>, vals: seq<Head>, done: nat) {
    && |vals| == done <= |ps| == |hs|
    && AllInBounds(vals)
    && forall i :: 0 <= i < done ==> (Restorable(hs[i]) || ps[i] !in ps[..i] ==> vals[i] == hs[i])
  }

  lemma Snoc(ps: seq<TxPbuf>, hs: seq<Head>, vals: seq<Head>, done: nat, h: Head)
    requires AsGiven(ps, hs, vals, done) && done < |ps| && InBounds(h)
    requires Restorable(hs[done]) || ps[done] !in ps[..done] ==> h == hs[done]
    ensures AsGiven(ps, hs, vals + [h], done + 1) && AllInBounds(vals + [h])
    ensures Frames([]) == [] && Frames(vals + [h]) == Frames(vals) + Fitting(h)
  {
    assert (vals + [h])[..|vals|] == vals;
  }

  /** The frame a chain stands for: without the pad bytes, if it has them, and zero-filled. */
  ghost function FrameOf(h: Head): seq<int>
    requires InBounds(h)
  {
    Padded(Bytes(Stripped(h)))
  }

  /** The frame byte by byte: what the first pbuf holds behind the two pad bytes, the payloads behind it,
      and zeros up to 60. */
  lemma FrameIs(h: Head)
    requires InBounds(h)
    ensures var pad := if h.len >= 2 then 2 else 0;
            var body := h.mem[h.off + pad..h.off + h.len] + Concat(h.rest);
            && |FrameOf(h)| == (if |body| < 60 then 60 else |body|) && FrameOf(h)[..|body|] == body
            && forall i :: |body| <= i < |FrameOf(h)| ==> FrameOf(h)[i] == 0
  {
    hide Bytes, Padded, Concat;
    BytesSplit(Stripped(h));
    PaddedIs(Bytes(Stripped(h)));
  }

  /** The answer to one send of a run and what it adds to the wire, in numbers: a chain of more than 1536
      bytes is refused; any other is answered ERR_OK exactly if the DMA steps at one of the first 9999
      polls, and the steps after the first such poll are left. */
  lemma ReplyIs(h: Head, script: seq<nat>, j: nat)
    requires InBounds(h) && (j < |script| ==> script[j] > 0) && j <= |script|
    requires forall k :: 0 <= k < j ==> script[k] == 0
    ensures var size := h.len + |Concat(h.rest)|;
            && (Reply(h, script).0 == ErrBuf <==> size > 1536)
            && (Reply(h, script).0 == ErrOk <==> size <= 1536 && j < |script| && j < 9999)
            && Reply(h, script).1 == (if Reply(h, script).0 == ErrOk then script[j + 1..] else script)
            && Fitting(h) == if size > 1536 then [] else [FrameOf(h)]
  {
    hide Bytes, Concat, FrameOf;
    BytesSplit(h);
    assert FirstStep(script) == j;
  }

  /** What a send of h adds to the wire: its frame, unless it does not fit the bounce buffer. */
  ghost function Fitting(h: Head): seq<seq<int>>
    requires InBounds(h)
  {
    if |Bytes(h)| > ETH_TX_BUFFER_MAX_SIZE then [] else [FrameOf(h)]
  }

  ghost function Frames(hs: seq<Head>): seq<seq<int>>
    requires AllInBounds(hs)
  {
    if hs == [] then [] else Frames(hs[..|hs| - 1]) + Fitting(hs[|hs| - 1])
  }
}
