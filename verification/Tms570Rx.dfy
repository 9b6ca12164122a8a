/** The TMS570 EMAC receive channel: the driver's receive pass and refill over the descriptor lists,
    with the EMAC writing and handing back descriptors in between. */
module Tms570Rx {
  import opened Tms570RxLists

  class RxChannel {
    var ram: seq<Bd>
    var pb: seq<Pbuf>
    var activeHead: int
    var activeTail: int
    var inactiveHead: int
    var inactiveTail: int
    /** freed_pbuf_len, a mathematical integer here. */
    var freed: int
    /** The descriptors that the EMAC has been given and has not handed back, in order. */
    var queue: seq<int>
    /** What the EMAC will still do, and what the pool will answer. */
    var script: seq<Event>
    var pool: seq<bool>
    /** A rogue EMAC writes anything but the links into any descriptor. */
    const rogue: bool

    ghost var place: seq<Place>
    ghost var a: Log
    ghost var f: Log
    ghost var at: seq<int>
    /** Every frame the EMAC has handed back, and how many of them the driver has taken. */
    ghost var handed: seq<Handed>
    ghost var got: nat

    ghost predicate EmacOk()
      reads this`ram, this`a, this`queue, this`handed, this`got
    {
      !rogue ==> Emac(ram, a, queue, handed, got)
    }

    /** The lists partition the descriptors, every active one has its own pbuf, and the EMAC's queue is
        the end of the active list. */
    ghost predicate Shape()
      reads this`ram, this`pb, this`place, this`a, this`f, this`at, this`queue, this`handed, this`got
    {
      Lists(ram, place, a, f) && Own(ram, pb, a, at) && EmacOk()
    }

    ghost predicate Pointers()
      reads this`activeHead, this`activeTail, this`inactiveHead, this`inactiveTail, this`a, this`f
    {
      && activeHead == First(a) && activeTail == Last(a)
      && inactiveHead == First(f) && inactiveTail == Last(f)
    }

    ghost predicate Valid()
      reads this
    {
      Shape() && Pointers()
    }

    /** The bytes to be allocated and the capacities attached to the active list. */
    ghost function Bytes(): int
      reads this`ram, this`pb, this`a, this`freed
    {
      freed + Caps(ram, pb, a.log, a.lo, |a.log|)
    }

    /** The bytes to be allocated and every capacity on the active list are even. */
    ghost predicate Even()
      reads this`ram, this`pb, this`a, this`freed
    {
      freed % 2 == 0 && EvenCaps(ram, pb, a.log, a.lo, |a.log|)
    }

    /** What the next refill depends on. */
    ghost function Now(): Books
      reads this`freed, this`f, this`pool
    {
      Books(freed, if Idle() < 0 then 0 else Idle(), pool)
    }

    ghost function Idle(): int
      reads this`f
    {
      |f.log| - f.lo
    }

    /** A channel with n idle descriptors and freed bytes to allocate. */
    constructor (n: nat, freed: int, pool: seq<bool>, script: seq<Event>, rogue: bool)
      ensures Valid() && this.freed == freed && this.pool == pool && this.script == script && this.rogue == rogue
      ensures Idle() == n && a == Log([], 0) && got == 0 && handed == []
    {
      hide FreshRam, FreshPlace, FreshLog, Lists, Own, Emac, First, Last;
      ram, pb, queue := FreshRam(n), [], [];
      activeHead, activeTail := NULL, NULL;
      inactiveHead := if n == 0 then NULL else 0;
      inactiveTail := n - 1;
      this.freed, this.pool, this.script, this.rogue := freed, pool, script, rogue;
      place, at, handed, got := FreshPlace(n), [], [], 0;
      a, f := Log([], 0), FreshLog(n);
      new;
      FreshLists(n);
      FreshEmac(n);
    }

    // ----- The EMAC ---------------------------------------------------------------------

    /** One step of the EMAC. */
    method Happen(e: Event)
      requires Shape()
      modifies this`ram, this`queue, this`handed
      ensures Shape() && Bytes() == old(Bytes()) && SameLinks(old(ram), ram) && (old(Even()) ==> Even())
      ensures !rogue ==> |queue| <= |old(queue)| <= |a.log| && old(handed) <= handed
      ensures !rogue ==> Stable(old(ram), ram, a, |a.log| - |old(queue)|)
      ensures e.Write? && e.j < |queue| && 0 <= queue[e.j] < |old(ram)| ==>
        ram[queue[e.j]] == old(ram)[queue[e.j]].(len := e.len, sop := e.sop, eop := e.eop, total := e.total)
      ensures e.HandBack? && old(Finished(ram, queue, e.k)) ==>
        queue == old(queue)[e.k..] && ram == old(ram)[old(queue)[0] := old(ram)[old(queue)[0]].(owner := false)]
      ensures rogue && e.Wild? && 0 <= e.b < |ram| ==>
        ram[e.b] == old(ram)[e.b].(len := e.len, sop := e.sop, eop := e.eop, owner := e.owner, total := e.total)
      ensures !rogue && e.HandBack? ==> |handed| == |old(handed)| + if old(Finished(ram, queue, e.k)) then 1 else 0
    {
      hide Lists, Own, Caps, Emac, Stable, EvenCaps;
      match e {
        case Write(j, len, sop, eop, total) => WriteBd(j, len, sop, eop, total);
        case HandBack(k) => HandBackFrame(k);
        case Wild(b, len, sop, eop, owner, total) =>
          if !rogue {
            NothingDone(ram, place, a, f, queue, handed, got);
          } else if 0 <= b < |ram| {
            ram := ram[b := ram[b].(len := len, sop := sop, eop := eop, owner := owner, total := total)];
          }
      }
      WriteBackKeeps(old(ram), ram, pb, place, a, f, at);
    }

    /** Status and lengths for a descriptor that stays in the queue. */
    method WriteBd(j: nat, len: nat, sop: bool, eop: bool, total: nat)
      requires Lists(ram, place, a, f) && EmacOk()
      modifies this`ram
      ensures EmacOk() && SameLinks(old(ram), ram)
      ensures !rogue ==> |queue| <= |a.log| && Stable(old(ram), ram, a, |a.log| - |queue|)
      ensures ram == if j < |queue| && 0 <= queue[j] < |old(ram)|
                     then old(ram)[queue[j] := old(ram)[queue[j]].(len := len, sop := sop, eop := eop, total := total)]
                     else old(ram)
    {
      hide Covered, Emac, Stable;
      if !rogue {
        NothingDone(ram, place, a, f, queue, handed, got);
      }
      if j < |queue| && 0 <= queue[j] < |ram| {
        var bd := ram[queue[j]].(len := len, sop := sop, eop := eop, total := total);
        if !rogue {
          QueueOwned(ram, a, queue, handed, got, j);
          WriteKeeps(ram, place, a, queue, handed, got, j, bd);
        }
        ram := ram[queue[j] := bd];
      }
    }

    /** The first k descriptors of the queue go back to the driver, if they are a finished frame. */
    method HandBackFrame(k: nat)
      requires Lists(ram, place, a, f) && EmacOk()
      modifies this`ram, this`queue, this`handed
      ensures EmacOk() && SameLinks(old(ram), ram)
      ensures !rogue ==> |queue| <= |old(queue)| <= |a.log| && old(handed) <= handed
      ensures !rogue ==> Stable(old(ram), ram, a, |a.log| - |old(queue)|)
      ensures old(Finished(ram, queue, k)) ==>
        queue == old(queue)[k..] && ram == old(ram)[old(queue)[0] := old(ram)[old(queue)[0]].(owner := false)]
      ensures !rogue && old(Finished(ram, queue, k)) ==>
        && |handed| == |old(handed)| + 1 && handed[|old(handed)|].lo == |a.log| - |old(queue)|
        && |handed[|old(handed)|].cells| == k
        && forall j :: 0 <= j < k ==> handed[|old(handed)|].cells[j] == ram[old(queue)[j]]
      ensures !old(Finished(ram, queue, k)) ==> ram == old(ram) && queue == old(queue) && handed == old(handed)
    {
      hide Covered, Emac, Stable;
      if !rogue {
        NothingDone(ram, place, a, f, queue, handed, got);
      }
      if Finished(ram, queue, k) {
        if !rogue {
          HandBackKeeps(ram, place, a, queue, handed, got, k);
          handed := handed + [Handed(|a.log| - |queue|, Cells(Cleared(ram, queue), queue, k))];
        }
        ram, queue := Cleared(ram, queue), queue[k..];
      }
    }

    /** An interleaving point: any number of the coming EMAC steps happen. */
    method Env()
      requires Shape()
      modifies this`ram, this`queue, this`handed, this`script
      ensures Shape() && Bytes() == old(Bytes()) && SameLinks(old(ram), ram) && (old(Even()) ==> Even())
      ensures !rogue ==> |queue| <= |old(queue)| <= |a.log| && old(handed) <= handed
      ensures !rogue ==> Stable(old(ram), ram, a, |a.log| - |old(queue)|)
      ensures |script| <= |old(script)| && (|script| == |old(script)| ==> ram == old(ram))
    {
      hide Lists, Own, Caps, Emac, Stable, EvenCaps;
      if !rogue {
        NothingDone(ram, place, a, f, queue, handed, got);
      }
      var n: nat :| n <= |script|;
      for i := 0 to n
        invariant Shape() && Bytes() == old(Bytes()) && SameLinks(old(ram), ram) && (old(Even()) ==> Even())
        invariant !rogue ==> |queue| <= |old(queue)| <= |a.log| && old(handed) <= handed
        invariant !rogue ==> Stable(old(ram), ram, a, |a.log| - |old(queue)|)
        invariant |script| == |old(script)| - i && (i == 0 ==> ram == old(ram))
      {
        ghost var ram1, hw1 := ram, |a.log| - |queue|;
        var e := script[0];
        script := script[1..];
        Happen(e);
        if !rogue {
          StableOn(old(ram), ram1, ram, a, |a.log| - |old(queue)|, hw1);
        }
      }
    }

    // ----- Receiving --------------------------------------------------------------------

    /** Account for the pbuf of descriptor curr and stamp the received lengths into it. */
    method Stamp(curr: int, total: nat, processed: nat)
      requires 0 <= curr < |ram| && 0 <= ram[curr].pbuf < |pb|
      modifies this`pb, this`freed
      ensures freed == old(freed) + old(pb[ram[curr].pbuf].len)
      ensures pb == old(pb)[ram[curr].pbuf :=
                      Pbuf(ram[curr].len, (total - processed) % 0x10000, old(pb[ram[curr].pbuf].next))]
    {
      var q := ram[curr].pbuf;
      freed := freed + pb[q].len;
      pb := pb[q := pb[q].(totLen := (total - processed) % 0x10000)];
      pb := pb[q := pb[q].(len := ram[curr].len)];
    }

    /** Link the stamped pbuf of descriptor curr to the next one, or close the chain. */
    method LinkOn(curr: int, next: int, ghost seen: seq<Bd>, ghost pb0: seq<Pbuf>, ghost pb1: seq<Pbuf>, ghost hi: nat,
                  ghost total: nat)
      requires Own(seen, pb0, a, at) && a.lo <= hi < |a.log| && curr == a.log[hi]
      requires Assembled(seen, pb0, pb1, a, at, hi, total, Id(seen, a.log, hi))
      requires 0 <= curr < |ram| == |seen| && seen[curr] == ram[curr] && 0 <= ram[curr].pbuf < |pb1|
      requires pb == pb1[ram[curr].pbuf := Piece(seen, a.log, a.lo, hi, total, pb1[ram[curr].pbuf].next)]
      modifies this`pb
      ensures Assembled(seen, pb0, pb, a, at, hi + 1, total, next) && |pb| == |pb0|
      ensures pb[ram[curr].pbuf] == old(pb[ram[curr].pbuf]).(next := next) && pb[ram[curr].pbuf].len == ram[curr].len
    {
      pb := pb[ram[curr].pbuf := pb[ram[curr].pbuf].(next := next)];
      AssembleNext(seen, pb0, pb1, a, at, hi, total, next);
      assert pb == pb1[ram[curr].pbuf := Piece(seen, a.log, a.lo, hi, total, next)];
    }

    /** One round of the inner loop: stamp the pbuf of descriptor curr and link it to the
        next descriptor's, or close the chain at EOP or at the end of the list. seen is RAM as the
        driver has read it. */
    method Round(curr: int, total: nat, processed: nat, ghost hi: nat, ghost seen: seq<Bd>, ghost pb0: seq<Pbuf>)
      returns (stop: bool, corrupt: bool, next: int, processed': nat)
      requires Lists(seen, place, a, f) && Own(seen, pb0, a, at) && a.lo <= hi < |a.log| && curr == a.log[hi]
      requires Assembled(seen, pb0, pb, a, at, hi, total, Id(seen, a.log, hi))
      requires processed == Lens(seen, a.log, a.lo, hi)
      requires SameLinks(seen, ram) && 0 <= curr < |ram| == |seen| && seen[curr] == ram[curr]
      modifies this`pb, this`freed
      ensures freed == old(freed) + Cap(seen, pb0, curr) && |pb| == old(|pb|)
      ensures 0 <= ram[curr].pbuf < |pb| && freed == old(freed) + old(pb[ram[curr].pbuf].len)
      ensures pb[ram[curr].pbuf].len == ram[curr].len && pb[ram[curr].pbuf].totLen == (total - processed) % 0x10000
      ensures !stop ==> processed' == processed + ram[curr].len
      ensures stop ==> Assembled(seen, pb0, pb, a, at, hi + 1, total, NULL)
      ensures stop ==> if corrupt then !seen[curr].eop && hi + 1 == |a.log| else seen[curr].eop
      ensures !stop ==> hi + 1 < |a.log| && next == a.log[hi + 1] && !seen[curr].eop
      ensures !stop ==> Assembled(seen, pb0, pb, a, at, hi + 1, total, Id(seen, a.log, hi + 1))
      ensures !stop ==> processed' == Lens(seen, a.log, a.lo, hi + 1)
    {
      hide Lists, Own, Assembled;
      ghost var pb1 := pb;
      Untouched(seen, pb0, pb, a, at, hi, total, Id(seen, a.log, hi));
      AtPosition(seen, pb0, place, a, f, at, hi);
      Stamp(curr, total, processed);
      next, processed', corrupt := ram[curr].next, processed, false;
      stop := ram[curr].eop || next == NULL;
      if stop {
        corrupt := !ram[curr].eop;
        LinkOn(curr, NULL, seen, pb0, pb1, hi, total);
      } else {
        LinkOn(curr, ram[next].pbuf, seen, pb0, pb1, hi, total);
        processed' := processed + pb[ram[curr].pbuf].len;
      }
    }

    /** What the inner loop has read so far: the descriptors up to position hi, as seen, make up the
        chain so far, which goes on at next; h is the frame that the EMAC handed back here. */
    ghost predicate Reading(seen: seq<Bd>, ram0: seq<Bd>, pb0: seq<Pbuf>, hi: nat, total: nat, next: int, h: Handed)
      reads this
    {
      && Shape() && |pb| == |pb0|
      && ReadTo(seen, ram, place, hi) && SameLinks(ram0, seen)
      && Own(seen, pb0, a, at) && a.lo <= hi <= |a.log| && Assembled(seen, pb0, pb, a, at, hi, total, next)
      && NoEop(seen, a.log, a.lo, hi)
      && (!rogue ==> FrameAt(seen, a.log, h) && h.lo == a.lo && |queue| <= |a.log| && End(h) <= |a.log| - |queue|)
    }

    /** The EMAC runs between two rounds. */
    method Between(ghost seen: seq<Bd>, ghost ram0: seq<Bd>, ghost pb0: seq<Pbuf>, ghost hi: nat, ghost total: nat,
                   ghost next: int, ghost h: Handed)
      returns (ghost seen': seq<Bd>)
      requires Reading(seen, ram0, pb0, hi, total, next, h)
      modifies this`ram, this`queue, this`handed, this`script
      ensures Reading(seen', ram0, pb0, hi, total, next, h)
      ensures Lens(seen', a.log, a.lo, hi) == Lens(seen, a.log, a.lo, hi)
      ensures a.lo < hi ==> seen'[First(a)] == seen[First(a)]
      ensures |script| <= |old(script)| && (|script| == |old(script)| ==> ram == old(ram))
      ensures !rogue ==> old(handed) <= handed
    {
      hide Own, Assembled, NoEop, Lens, Covered, FrameAt, Emac, Stable, ReadTo;
      ghost var ram1 := ram;
      Env();
      MixKeeps(seen, ram1, ram, pb0, pb, place, a, at, hi, total, next);
      seen' := Mix(seen, ram, place, hi);
      MixRead(seen, ram, place, a, hi);
      if !rogue {
        MixFrame(seen, ram1, ram, place, a, h, hi, |a.log| - |old(queue)|);
      }
    }

    /** The inner loop of tms570_eth_process_irq_rx: turn the descriptors from the head of
        the active list up to EOP, log[lo..hi], into a pbuf chain; last is the one it stops
        at, corrupt says that the list ends without EOP, and seen holds the descriptors as they were
        when the loop read them, with the EMAC running in between. */
    method Assemble() returns (last: int, corrupt: bool, ghost hi: nat, ghost seen: seq<Bd>)
      requires Valid() && a.lo < |a.log| && (!rogue ==> got < |handed|)
      modifies this`pb, this`freed, this`ram, this`queue, this`handed, this`script
      ensures Shape() && |pb| == old(|pb|) && SameLinks(old(ram), ram) && SameLinks(old(ram), seen)
      ensures a.lo < hi <= |a.log| && last == a.log[hi - 1] && Own(seen, old(pb), a, at)
      ensures NoEop(seen, a.log, a.lo, hi - 1)
      ensures 0 <= last < |seen| && if corrupt then !seen[last].eop && hi == |a.log| else seen[last].eop
      ensures 0 <= First(a) < |seen| && seen[First(a)] == old(ram)[First(a)]
      ensures Assembled(seen, old(pb), pb, a, at, hi, seen[First(a)].total % 0x10000, NULL)
      ensures forall i {:trigger a.log[i]} :: a.lo <= i < hi ==>
                && 0 <= a.log[i] < |seen| && 0 <= seen[a.log[i]].pbuf < |pb|
                && pb[seen[a.log[i]].pbuf].len == seen[a.log[i]].len
      ensures pb[seen[First(a)].pbuf].totLen == old(ram)[First(a)].total % 0x10000
      ensures forall i, k {:trigger a.log[i], a.log[k]} :: a.lo <= i && k == i + 1 && k < hi ==>
                var p, q := pb[seen[a.log[i]].pbuf], pb[seen[a.log[k]].pbuf];
                p.next == seen[a.log[k]].pbuf && p.totLen == (p.len + q.totLen) % 0x10000
      ensures freed == old(freed) + old(Caps(ram, pb, a.log, a.lo, hi))
      ensures !rogue ==> FrameAt(seen, a.log, old(handed[got])) && hi == End(old(handed[got])) && !corrupt
      ensures |script| <= |old(script)| && (|script| == |old(script)| ==> ram == old(ram))
      ensures !rogue ==> old(handed) <= handed
    {
      hide Lists, Own, Assembled, Caps, Lens, NoEop, Id, FrameAt, Emac;
      last, corrupt, hi, seen := ReadChain();
      AssembledLinks(seen, old(pb), pb, a, at, hi, seen[First(a)].total % 0x10000);
    }

    /** The loop itself. */
    method ReadChain() returns (last: int, corrupt: bool, ghost hi: nat, ghost seen: seq<Bd>)
      requires Valid() && a.lo < |a.log| && (!rogue ==> got < |handed|)
      modifies this`pb, this`freed, this`ram, this`queue, this`handed, this`script
      ensures Shape() && |pb| == old(|pb|) && SameLinks(old(ram), ram) && SameLinks(old(ram), seen)
      ensures a.lo < hi <= |a.log| && last == a.log[hi - 1] && Own(seen, old(pb), a, at)
      ensures NoEop(seen, a.log, a.lo, hi - 1)
      ensures 0 <= last < |seen| && if corrupt then !seen[last].eop && hi == |a.log| else seen[last].eop
      ensures 0 <= First(a) < |seen| && seen[First(a)] == old(ram)[First(a)]
      ensures Assembled(seen, old(pb), pb, a, at, hi, seen[First(a)].total % 0x10000, NULL)
      ensures freed == old(freed) + old(Caps(ram, pb, a.log, a.lo, hi))
      ensures !rogue ==> FrameAt(seen, a.log, old(handed[got])) && hi == End(old(handed[got])) && !corrupt
      ensures |script| <= |old(script)| && (|script| == |old(script)| ==> ram == old(ram))
      ensures !rogue ==> old(handed) <= handed
    {
      hide Lists, Own, Assembled, Cap, Caps, Lens, NoEop, Id, FrameAt, Emac, ReadTo, WellFramed;
      AtPosition(ram, pb, place, a, f, at, a.lo);
      if !rogue {
        HeadSays(ram, a, queue, handed, got);
      }
      last := activeHead;
      var total, processed := ram[last].total % 0x10000, 0;
      hi, seen := a.lo, ram;
      ghost var pb0, ram0 := pb, ram;
      ghost var h := if rogue then Handed(0, []) else handed[got];
      StartAssembly(ram, pb, a, at, total);
      StartReading(ram, place, a, f);
      var stop, next := false, last;
      corrupt := false;
      while !stop
        invariant a.lo <= hi <= |a.log|
        invariant !stop ==> Reading(seen, ram0, pb0, hi, total, Id(seen, a.log, hi), h)
        invariant !stop ==> hi < |a.log| && next == a.log[hi] && processed == Lens(seen, a.log, a.lo, hi)
        invariant stop ==> a.lo < hi && last == a.log[hi - 1] && NoEop(seen, a.log, a.lo, hi - 1)
        invariant stop ==> 0 <= last < |seen| && if corrupt then !seen[last].eop && hi == |a.log| else seen[last].eop
        invariant stop ==> Shape() && |pb| == |pb0| && SameLinks(ram0, ram)
        invariant stop ==> SameLinks(ram0, seen) && Own(seen, pb0, a, at)
        invariant stop ==> Assembled(seen, pb0, pb, a, at, hi, total, NULL) && (!rogue ==> FrameAt(seen, a.log, h))
        invariant freed == old(freed) + Caps(ram0, pb0, a.log, a.lo, hi)
        invariant 0 <= First(a) < |seen| && seen[First(a)] == ram0[First(a)]
        invariant |script| <= |old(script)| && (|script| == |old(script)| ==> ram == old(ram))
        invariant !rogue ==> old(handed) <= handed
        decreases |a.log| - hi, !stop
      {
        last := next;
        stop, corrupt, next, processed, seen := ReadOne(last, total, processed, hi, seen, ram0, pb0, h);
        OneMore(ram0, pb0, a.log, a.lo, hi);
        hi := hi + 1;
      }
      if !rogue {
        WholeFrame(seen, a.log, h, hi);
      }
    }

    /** One descriptor of the frame and, if there are more, the EMAC. */
    method ReadOne(curr: int, total: nat, processed: nat, ghost hi: nat, ghost seen: seq<Bd>, ghost ram0: seq<Bd>,
                   ghost pb0: seq<Pbuf>, ghost h: Handed)
      returns (stop: bool, corrupt: bool, next: int, processed': nat, ghost seen': seq<Bd>)
      requires hi < |a.log| && curr == a.log[hi] && processed == Lens(seen, a.log, a.lo, hi)
      requires Reading(seen, ram0, pb0, hi, total, Id(seen, a.log, hi), h)
      modifies this`pb, this`freed, this`ram, this`queue, this`handed, this`script
      ensures freed == old(freed) + Cap(ram0, pb0, curr) && 0 <= curr < |seen'| == |seen|
      ensures !stop ==> Reading(seen', ram0, pb0, hi + 1, total, Id(seen', a.log, hi + 1), h)
      ensures !stop ==> hi + 1 < |a.log| && next == a.log[hi + 1] && processed' == Lens(seen', a.log, a.lo, hi + 1)
      ensures stop ==> seen' == seen && NoEop(seen, a.log, a.lo, hi)
      ensures stop ==> if corrupt then !seen[curr].eop && hi + 1 == |a.log| else seen[curr].eop
      ensures stop ==> Shape() && |pb| == |pb0| && SameLinks(ram0, ram)
      ensures stop ==> SameLinks(ram0, seen) && Own(seen, pb0, a, at)
      ensures stop ==> Assembled(seen, pb0, pb, a, at, hi + 1, total, NULL) && (!rogue ==> FrameAt(seen, a.log, h))
      ensures 0 <= First(a) < |seen| && seen'[First(a)] == seen[First(a)]
      ensures |script| <= |old(script)| && (|script| == |old(script)| ==> ram == old(ram))
      ensures !rogue ==> old(handed) <= handed
    {
      hide Own, Assembled, Cap, Lens, NoEop, Id, FrameAt, Emac, Lists, ReadTo, Reading;
      stop, corrupt, next, processed' := ReadHere(curr, total, processed, hi, seen, ram0, pb0, h);
      seen' := seen;
      if !stop {
        seen' := Between(seen, ram0, pb0, hi + 1, total, Id(seen, a.log, hi + 1), h);
        ReadingSays(seen', ram0, pb0, hi + 1, total, Id(seen, a.log, hi + 1), h);
        SameId(ram0, seen, seen', a.log, hi + 1);
      }
    }

    lemma ReadingSays(seen: seq<Bd>, ram0: seq<Bd>, pb0: seq<Pbuf>, hi: nat, total: nat, next: int, h: Handed)
      requires Reading(seen, ram0, pb0, hi, total, next, h)
      ensures SameLinks(ram0, seen) && a.lo <= hi <= |a.log|
    {
    }

    /** The reading of one descriptor, before the EMAC runs again. */
    method ReadHere(curr: int, total: nat, processed: nat, ghost hi: nat, ghost seen: seq<Bd>, ghost ram0: seq<Bd>,
                    ghost pb0: seq<Pbuf>, ghost h: Handed)
      returns (stop: bool, corrupt: bool, next: int, processed': nat)
      requires hi < |a.log| && curr == a.log[hi] && processed == Lens(seen, a.log, a.lo, hi)
      requires Reading(seen, ram0, pb0, hi, total, Id(seen, a.log, hi), h)
      modifies this`pb, this`freed
      ensures freed == old(freed) + Cap(ram0, pb0, curr) && 0 <= curr < |seen| && SameLinks(ram0, seen) && a.lo <= hi
      ensures !stop ==> Reading(seen, ram0, pb0, hi + 1, total, Id(seen, a.log, hi + 1), h)
      ensures !stop ==> hi + 1 < |a.log| && next == a.log[hi + 1] && processed' == Lens(seen, a.log, a.lo, hi + 1)
      ensures stop ==> NoEop(seen, a.log, a.lo, hi)
      ensures stop ==> if corrupt then !seen[curr].eop && hi + 1 == |a.log| else seen[curr].eop
      ensures stop ==> Shape() && |pb| == |pb0| && SameLinks(ram0, ram) && Own(seen, pb0, a, at)
      ensures stop ==> Assembled(seen, pb0, pb, a, at, hi + 1, total, NULL) && (!rogue ==> FrameAt(seen, a.log, h))
      ensures 0 <= First(a) < |seen|
    {
      hide Own, Assembled, Cap, Lens, NoEop, Id, FrameAt, Emac, Lists, ReadTo;
      ReadAt(seen, ram, ram0, pb0, place, a, f, hi);
      stop, corrupt, next, processed' := Round(curr, total, processed, hi, seen, pb0);
      OwnSamePb(ram, old(pb), pb, a, at);
      if !stop {
        OneMore(seen, pb0, a.log, a.lo, hi);
        ReadMore(seen, ram, place, hi);
      }
    }

    /** The list surgery that returns the descriptors up to last to the inactive list. */
    method Detach(last: int)
      requires 0 <= last < |ram| && NULL <= inactiveTail < |ram|
      modifies this`ram, this`activeHead, this`activeTail, this`inactiveHead, this`inactiveTail
      ensures ram == Spliced(old(ram), old(activeHead), last, old(inactiveTail)) && inactiveTail == last
      ensures activeHead == if old(inactiveTail) == last then old(activeHead) else old(ram[last].next)
      ensures inactiveHead == if old(inactiveTail) == NULL then old(activeHead) else old(inactiveHead)
      ensures activeTail == if activeHead == NULL then NULL else old(activeTail)
    {
      if inactiveTail == NULL {
        inactiveHead := activeHead;
      } else {
        ram := ram[inactiveTail := ram[inactiveTail].(next := activeHead)];
      }
      inactiveTail := last;
      activeHead := ram[last].next;
      if ram[last].next == NULL {
        activeTail := NULL;
      }
      ram := ram[inactiveTail := ram[inactiveTail].(next := NULL)];
    }

    /** What an exact fit leads to: with inactive_tail on the last active descriptor, the descriptors of
        the next frame do not return to the inactive list, which stays empty, but go to the end of the
        active list. If the frame was the whole list, it is at its head again. */
    method DetachAfterFit(last: int, ghost hi: nat)
      requires Lists(ram, place, a, f) && a.lo < hi <= |a.log| && last == a.log[hi - 1]
      requires activeHead == First(a) && inactiveHead == NULL && inactiveTail == activeTail == Last(a)
      modifies this`ram, this`activeHead, this`activeTail, this`inactiveHead, this`inactiveTail
      ensures Follows(ram, a.log[hi..] + a.log[a.lo..hi]) && activeHead == (a.log[hi..] + a.log[a.lo..hi])[0]
      ensures inactiveHead == NULL && inactiveTail == last && activeTail == old(activeTail)
      ensures hi == |a.log| ==> activeHead == old(activeHead)
    {
      hide Covered, Spliced, Follows;
      StaleSplice(ram, place, a, hi);
      StaleEnds(hi);
      Detach(last);
    }

    /** The descriptors around the cut. */
    lemma StaleEnds(hi: nat)
      requires Lists(ram, place, a, f) && a.lo < hi <= |a.log|
      ensures 0 <= a.log[hi - 1] < |ram| && 0 <= First(a) < |ram| && First(a) == a.log[a.lo]
      ensures a.log[hi - 1] == Last(a) <==> hi == |a.log|
      ensures hi < |a.log| ==> ram[a.log[hi - 1]].next == a.log[hi] != NULL
    {
      hide Covered;
      var t := |a.log| - 1;
      assert place[a.log[hi - 1]] == InActive(hi - 1) && place[a.log[t]] == InActive(t);
      assert ram[a.log[hi - 1]].next == At(a, hi);
      assert hi < |a.log| ==> 0 <= a.log[hi];
    }

    /** The descriptors of the frame go to the end of the inactive list. */
    method ReturnBds(last: int, ghost hi: nat)
      requires Lists(ram, place, a, f) && Pointers() && a.lo < hi <= |a.log| && last == a.log[hi - 1]
      modifies this`ram, this`place, this`a, this`f
      modifies this`activeHead, this`activeTail, this`inactiveHead, this`inactiveTail
      ensures Lists(ram, place, a, f) && Pointers()
      ensures a == Drop(old(a), hi - old(a.lo)) && f == Append(old(f), old(a.log[a.lo..hi]))
      ensures |ram| == |old(ram)| && forall b :: 0 <= b < |ram| ==> ram[b] == old(ram)[b].(next := ram[b].next)
    {
      hide Linked, Covered, Moved, Spliced, First, Last;
      ghost var m, place', s := hi - a.lo, Move(place, a, f, hi - a.lo, true), a.log[a.lo..hi];
      SpliceFacts(ram, place, a, f, m, true);
      MoveKeeps(ram, place, place', a, f, m, true);
      MoveCovers(place, place', a, f, m, true);
      Detach(last);
      a, f, place := Drop(a, m), Append(f, s), place';
    }

    /** The frame at the head of the list as a chain of pbufs. */
    method MakeChain() returns (last: int, corrupt: bool, ghost hi: nat, ghost seen: seq<Bd>, ghost t: Taken)
      requires Valid() && a.lo < |a.log| && (!rogue ==> got < |handed|)
      requires 0 <= activeHead < |ram| && ram[activeHead].sop && !ram[activeHead].owner
      modifies this`pb, this`freed, this`ram, this`queue, this`handed, this`script
      ensures Shape() && SameLinks(old(ram), ram) && SameLinks(old(ram), seen)
      ensures a.lo < hi <= |a.log| && last == a.log[hi - 1] && Own(seen, old(pb), a, at) && 0 <= First(a) < |seen|
      ensures Assembled(seen, old(pb), pb, a, at, hi, seen[First(a)].total % 0x10000, NULL)
      ensures freed == old(freed) + old(Caps(ram, pb, a.log, a.lo, hi))
      ensures IsFrame(t) && t.bds == a.log[a.lo..hi] && t.corrupt == corrupt
      ensures [old(ram[activeHead].pbuf)] == Heads(t.(corrupt := false))
      ensures !rogue ==> hi == End(old(handed[got])) && IsHanded(t, old(handed[got])) && old(handed) <= handed
      ensures |script| <= |old(script)| && (|script| == |old(script)| ==> ram == old(ram))
    {
      hide Lists, Own, Assembled, Caps, NoEop, Id, Emac, FrameAt, IsFrame, IsHanded;
      if !rogue {
        HeadSays(ram, a, queue, handed, got);
      }
      last, corrupt, hi, seen := Assemble();
      t := Taken(a.log[a.lo..hi], seen, pb, corrupt);
      FrameTaken(seen, old(pb), pb, a, at, hi, corrupt);
      if !rogue {
        HandedTaken(seen, a.log, old(handed[got]), t);
      }
    }

    /** One frame of tms570_eth_process_irq_rx: its pbufs become a chain, its descriptors go
        to the inactive list, and the bytes to be allocated grow by what they carried. It is the
        next frame that the EMAC handed back. */
    method ReceiveFrame() returns (head: int, corrupt: bool, ghost t: Taken, ghost cap: nat)
      requires Valid() && a.lo < |a.log|
      requires 0 <= activeHead < |ram| && ram[activeHead].sop && !ram[activeHead].owner
      modifies this`pb, this`freed, this`ram, this`queue, this`handed, this`script, this`place, this`a, this`f, this`got
      modifies this`activeHead, this`activeTail, this`inactiveHead, this`inactiveTail
      ensures Valid() && Bytes() == old(Bytes()) && (old(Even()) ==> Even())
      ensures freed == old(freed) + cap
      ensures cap == old(Caps(ram, pb, a.log, a.lo, |a.log|)) - Caps(ram, pb, a.log, a.lo, |a.log|)
      ensures a.log == old(a.log) && old(a.lo) < a.lo <= |a.log| && f == Append(old(f), a.log[old(a.lo)..a.lo])
      ensures IsFrame(t) && t.bds == a.log[old(a.lo)..a.lo] && t.corrupt == corrupt
      ensures [head] == Heads(t.(corrupt := false)) && head == old(ram[activeHead].pbuf)
      ensures !rogue ==> old(handed) <= handed && old(got) < |old(handed)| && got == old(got) + 1
      ensures !rogue ==> IsHanded(t, old(handed[got]))
      ensures |script| <= |old(script)|
      ensures |script| == |old(script)| ==>
        |ram| == |old(ram)| && forall b :: 0 <= b < |ram| ==> ram[b] == old(ram)[b].(next := ram[b].next)
    {
      hide Lists, Own, Assembled, Caps, NoEop, Id, Emac, FrameAt, IsFrame, IsHanded, SameLinks, Heads, EvenCaps;
      if !rogue {
        HeadSays(ram, a, queue, handed, got);
      }
      head := ram[activeHead].pbuf;
      var last;
      ghost var hi, seen;
      last, corrupt, hi, seen, t := MakeChain();
      cap := freed - old(freed);
      ghost var ram1, a1 := ram, a;
      ReturnBds(last, hi);
      FrameCounted(old(ram), ram1, ram, seen, old(pb), pb, a1, at, hi, seen[First(a1)].total % 0x10000);
      if !rogue {
        HeadStill(ram1, a1, queue, old(handed), handed, got, hi);
        TakeKeeps(ram1, ram, a1, queue, handed, got);
        got := got + 1;
      }
    }

    lemma HeadStill(ram: seq<Bd>, a: Log, queue: seq<int>, handed0: seq<Handed>, handed: seq<Handed>, got: nat, hi: nat)
      requires Emac(ram, a, queue, handed, got) && handed0 <= handed && got < |handed0| && hi == End(handed0[got])
      ensures got < |handed| && |handed[got].cells| == hi - a.lo
    {
      hide Ordered;
    }

    // ----- Refilling --------------------------------------------------------------------

    /** The loop that hangs the pbufs of a new chain on free descriptors: one each, until
        either runs out. Each gets OWNER, that is, it goes to the EMAC. A chain longer than the list
        clears inactiveTail. */
    method HangChain(lens: seq<nat>) returns (last: int, ghost m: nat)
      requires Lists(ram, place, a, f) && Pointers() && f.lo < |f.log| && lens != []
      modifies this`ram, this`freed, this`inactiveTail, this`queue
      ensures m == Min(|lens|, |f.log| - f.lo) && last == f.log[f.lo + m - 1]
      ensures Filled(old(ram), ram, place, f, |pb|, m) && |ram| == |old(ram)|
      ensures freed == old(freed) - Total(lens, m)
      ensures forall i {:trigger f.log[i]} :: f.lo <= i < f.lo + m ==>
                && 0 <= f.log[i] < |ram|
                && ram[f.log[i]] == Bd(ram[f.log[i]].next, lens[i - f.lo], false, false, true, 0, |pb| + i - f.lo)
      ensures queue == old(queue) + f.log[f.lo..f.lo + m]
      ensures inactiveTail == if |lens| > |f.log| - f.lo then NULL else old(inactiveTail)
    {
      hide Filled, Linked, Total, Hung;
      FillNone(ram, place, f, |pb|, lens);
      HungNone(ram, f, |pb|, lens);
      last := inactiveHead;
      m := 0;
      ghost var ram0 := ram;
      var q := 0;
      assert f.log[f.lo..f.lo] == [];
      while true
        invariant 0 <= q < |lens| && m == q && f.lo + m < |f.log| && last == f.log[f.lo + m]
        invariant Filled(ram0, ram, place, f, |pb|, m) && |ram| == |ram0| && Hung(ram, f, |pb|, lens, m)
        invariant freed == old(freed) - Total(lens, m) && inactiveTail == old(inactiveTail)
        invariant queue == old(queue) + f.log[f.lo..f.lo + m]
        decreases |lens| - q
      {
        HangOne(last, lens, q, ram0);
        TotalNext(lens, m);
        assert f.log[f.lo..f.lo + m + 1] == f.log[f.lo..f.lo + m] + [last];
        q := q + 1;
        m := m + 1;
        if q == |lens| {
          break;
        }
        if ram[last].next == NULL {
          inactiveTail := NULL;
          break;
        }
        last := ram[last].next;
      }
      HungSays(ram, f, |pb|, lens, m);
    }

    /** Write descriptor last for pbuf number q of the chain. */
    method HangOne(last: int, lens: seq<nat>, q: nat, ghost ram0: seq<Bd>)
      requires Linked(ram0, place, f, false) && f.lo + q < |f.log| && q < |lens| && last == f.log[f.lo + q]
      requires Filled(ram0, ram, place, f, |pb|, q) && Hung(ram, f, |pb|, lens, q)
      modifies this`ram, this`freed, this`queue
      ensures Filled(ram0, ram, place, f, |pb|, q + 1) && Hung(ram, f, |pb|, lens, q + 1)
      ensures |ram| == |old(ram)| && 0 <= last < |ram| && ram[last].next == At(f, f.lo + q + 1)
      ensures f.lo + q + 1 < |f.log| ==> ram[last].next != NULL
      ensures freed == old(freed) - lens[q] && queue == old(queue) + [last]
    {
      hide Filled, Linked, Hung;
      FilledLinked(ram0, ram, place, f, |pb|, q);
      HungNext(ram, place, f, |pb|, lens, q);
      FillNext(ram0, ram, place, f, |pb|, q, lens[q]);
      ram := ram[last := Given(ram[last], lens[q], |pb| + q)];
      freed := freed - lens[q];
      queue := queue + [last];
    }

    /** The list surgery that moves the descriptors up to last to the active list. */
    method Splice(last: int)
      requires 0 <= last < |ram| && NULL <= activeTail < |ram| && activeTail != last
      requires activeHead == NULL <==> activeTail == NULL
      modifies this`ram, this`activeHead, this`activeTail, this`inactiveHead
      ensures ram == Spliced(old(ram), old(inactiveHead), last, old(activeTail))
      ensures activeTail == last && inactiveHead == old(ram[last].next)
      ensures activeHead == if old(activeTail) == NULL then old(inactiveHead) else old(activeHead)
    {
      var currHead := inactiveHead;
      inactiveHead := ram[last].next;
      ram := ram[last := ram[last].(next := NULL)];
      if activeHead == NULL {
        activeHead := currHead;
        activeTail := last;
      } else {
        ram := ram[activeTail := ram[activeTail].(next := currHead)];
        activeTail := last;
      }
      assert ram == Spliced(old(ram), currHead, last, old(activeTail));
    }

    /** A new chain of pbufs goes onto free descriptors and these onto the active list. The
        lists and the byte count are kept; the pointers are right afterwards exactly when
        the chain was not as long as the inactive list, else inactiveTail is left pointing
        at the last active descriptor. */
    method Attach(lens: seq<nat>, ghost top: nat)
      requires Valid() && f.lo < |f.log| && lens != [] && OwnedFrom(ram, a, top)
      modifies this`ram, this`pb, this`freed, this`queue, this`place, this`a, this`f, this`at
      modifies this`activeHead, this`activeTail, this`inactiveHead, this`inactiveTail
      ensures Shape() && Bytes() == old(Bytes()) && (old(Even()) && AllEven(lens) ==> Even())
      ensures Pointers() <==> |lens| != old(|f.log| - f.lo)
      ensures var m := Min(|lens|, old(|f.log| - f.lo));
              && f == Drop(old(f), m) && a == Append(old(a), old(f.log)[old(f.lo)..old(f.lo) + m])
              && freed == old(freed) - Total(lens, m)
      ensures OwnedFrom(ram, a, top)
      ensures |lens| == old(|f.log| - f.lo) ==> inactiveHead == NULL && inactiveTail == activeTail == Last(a) != NULL
      ensures inactiveHead == First(f) && activeHead == First(a)
      ensures |pb| == old(|pb|) + |lens|
    {
      hide Linked, Covered, Filled, Own, Caps, Total, First, Last, At, OwnedFrom, Emac, EvenCaps, AllEven;
      ghost var ram0, queue0 := ram, queue;
      var last;
      ghost var m: nat;
      last, m := HangChain(lens);
      MoveOver(last, lens, m, ram0, queue0, top);
      if AllEven(lens) {
        EvenTotal(lens, m);
      }
    }

    /** The descriptors up to last, filled, go over to the active list. */
    method MoveOver(last: int, lens: seq<nat>, ghost m: nat, ghost ram0: seq<Bd>, ghost queue0: seq<int>,
                    ghost top: nat)
      requires Lists(ram0, place, a, f) && Own(ram0, pb, a, at) && OwnedFrom(ram0, a, top)
      requires f.lo <= |f.log| && 0 < m <= |f.log| - f.lo && m <= |lens| && last == f.log[f.lo + m - 1]
      requires Filled(ram0, ram, place, f, |pb|, m) && |ram| == |ram0|
      requires activeHead == First(a) && activeTail == Last(a) && inactiveHead == First(f)
      requires queue == queue0 + f.log[f.lo..f.lo + m] && (!rogue ==> Emac(ram0, a, queue0, handed, got))
      modifies this`ram, this`pb, this`place, this`a, this`f, this`at, this`activeHead, this`activeTail
      modifies this`inactiveHead
      ensures Shape() && OwnedFrom(ram, a, top) && |pb| == old(|pb|) + |lens|
      ensures a == Append(old(a), old(f.log)[old(f.lo)..old(f.lo) + m]) && f == Drop(old(f), m)
      ensures Caps(ram, pb, a.log, a.lo, |a.log|) ==
              Caps(ram0, old(pb), old(a.log), old(a.lo), |old(a.log)|) + Total(lens, m)
      ensures EvenCaps(ram0, old(pb), old(a.log), old(a.lo), |old(a.log)|) && AllEven(lens) ==>
        EvenCaps(ram, pb, a.log, a.lo, |a.log|)
      ensures activeHead == First(a) && activeTail == Last(a) == last && inactiveHead == First(f) && last != NULL
      ensures f.lo < |f.log| ==> Last(f) == Last(old(f)) != NULL
      ensures f.lo == |f.log| ==> Last(f) == NULL == First(f) && Last(old(f)) == last
    {
      hide Linked, Covered, Moved, Spliced, Filled, Own, Caps, Total, First, Last, At, OwnedFrom, Emac, EvenCaps;
      hide AllEven;
      ghost var ram1, place' := ram, Move(place, f, a, m, false);
      FilledKeeps(ram0, ram, place, a, f, |pb|, m);
      SpliceFacts(ram, place, f, a, m, false);
      MoveKeeps(ram, place, place', f, a, m, false);
      MoveCovers(place, place', a, f, m, false);
      Splice(last);
      FinishAttach(ram0, ram1, queue0, lens, m, place', top);
    }

    /** The bookkeeping after an attach: new pbufs exist and the descriptors have moved. */
    method FinishAttach(ghost ram0: seq<Bd>, ghost ram1: seq<Bd>, ghost queue0: seq<int>, lens: seq<nat>, ghost m: nat,
                        ghost place': seq<Place>, ghost top: nat)
      requires Linked(ram0, place, a, true) && Linked(ram0, place, f, false) && Own(ram0, pb, a, at)
      requires Filled(ram0, ram1, place, f, |pb|, m) && m <= |lens| && OwnedFrom(ram0, a, top)
      requires |ram| == |ram1| && forall b :: 0 <= b < |ram1| ==> ram[b] == ram1[b].(next := ram[b].next)
      requires f.lo + m <= |f.log| && queue == queue0 + f.log[f.lo..f.lo + m]
      requires !rogue ==> Emac(ram0, a, queue0, handed, got)
      modifies this`pb, this`at, this`a, this`f, this`place
      ensures place == place'
      ensures a == Append(old(a), old(f.log)[old(f.lo)..old(f.lo) + m]) && f == Drop(old(f), m)
      ensures Own(ram, pb, a, at) && |pb| == old(|pb|) + |lens| && EmacOk()
      ensures Caps(ram, pb, a.log, a.lo, |a.log|) ==
              Caps(ram0, old(pb), old(a.log), old(a.lo), |old(a.log)|) + Total(lens, m)
      ensures OwnedFrom(ram, a, top)
      ensures EvenCaps(ram0, old(pb), old(a.log), old(a.lo), |old(a.log)|) && AllEven(lens) ==>
        EvenCaps(ram, pb, a.log, a.lo, |a.log|)
    {
      hide Linked, Own, Filled, Caps, Total, OwnedFrom, Emac, EvenCaps, AllEven;
      ghost var a0, f0, at0, pb0 := a, f, at, pb;
      pb := pb + seq(|lens|, i requires 0 <= i < |lens| => Pbuf(lens[i], 0, NULL));
      at := at + seq(|lens|, i => |a0.log| + i);
      OwnSize(ram0, pb0, a0, at0);
      assert Grown(pb0, pb, at0, at, lens, |a0.log|);
      AttachOwn(ram0, ram1, ram, pb0, pb, lens, place, a0, f0, at0, at, m);
      AttachOwnedFrom(ram0, ram1, ram, place, a0, f0, |pb0|, m, top);
      if !rogue {
        AttachEmac(ram0, ram1, ram, place, a0, f0, |pb0|, m, queue0, handed, got);
      }
      a, f, place := Append(a, f.log[f.lo..f.lo + m]), Drop(f, m), place';
    }

    /** pbuf_alloc from the pool: the next answer. */
    method PoolAlloc(rq: int) returns (r: Alloc)
      modifies this`pool
      ensures r == Answer(old(pool), rq) && pool == Rest(old(pool)) && (r.Chain? ==> r.lens != [])
    {
      r := Answer(pool, rq);
      pool := Rest(pool);
    }

    /** A chain was granted: hang it on the free descriptors. */
    method AttachNow(lens: seq<nat>, ghost top: nat, ghost quiet: bool) returns (exact: bool)
      requires Valid() && f.lo < |f.log| && lens != [] && (quiet ==> OwnedFrom(ram, a, top))
      modifies this`ram, this`pb, this`freed, this`queue, this`place, this`a, this`f, this`at
      modifies this`activeHead, this`activeTail, this`inactiveHead, this`inactiveTail
      ensures Shape() && Bytes() == old(Bytes()) && a.lo == old(a.lo) && old(a.log) <= a.log
      ensures old(Even()) && AllEven(lens) ==> Even()
      ensures exact <==> !Pointers()
      ensures exact ==> inactiveHead == NULL && inactiveTail == activeTail == Last(a) != NULL
      ensures exact <==> |lens| == old(Idle())
      ensures inactiveHead == First(f) && activeHead == First(a) && (inactiveHead == NULL <==> Idle() == 0)
      ensures var m := Min(|lens|, old(Idle()));
              m > 0 && Idle() == old(Idle()) - m && freed == old(freed) - Total(lens, m)
      ensures quiet ==> OwnedFrom(ram, a, top)
    {
      hide Lists, Own, Caps, OwnedFrom, Emac, Total, EvenCaps, AllEven;
      NoneAbove(ram, a);
      Attach(lens, if quiet then top else |a.log|);
      ListEnds(ram, place, a, f);
      exact := inactiveHead == NULL && inactiveTail != NULL;
    }

    /** Where a refill stands that began with these values. */
    ghost predicate Refilling(bytes: int, a0: Log, handed0: seq<Handed>, n: nat, top: nat, exact: bool)
      reads this
    {
      && Shape() && Bytes() == bytes && a.lo == a0.lo && a0.log <= a.log
      && |script| <= n && (|script| == n ==> OwnedFrom(ram, a, top)) && (!rogue ==> handed0 <= handed)
      && (exact <==> !Pointers()) && activeHead == First(a) && inactiveHead == First(f)
      && (exact ==> inactiveHead == NULL && inactiveTail == activeTail == Last(a) != NULL)
      && Idle() >= 0 && (inactiveHead == NULL <==> Idle() == 0)
    }

    /** One request of a refill. */
    method Ask(rq: int, ghost bytes: int, ghost a0: Log, ghost handed0: seq<Handed>, ghost n: nat, ghost top: nat)
      returns (q: Alloc, exact: bool)
      requires Refilling(bytes, a0, handed0, n, top, false) && inactiveHead != NULL
      modifies this`ram, this`pb, this`freed, this`queue, this`place, this`a, this`f, this`at, this`handed
      modifies this`activeHead, this`activeTail, this`inactiveHead, this`inactiveTail, this`pool, this`script
      ensures Refilling(bytes, a0, handed0, n, top, exact) && q == Answer(old(pool), rq)
      ensures Now() == After(old(Now()), Request(rq, q))
      ensures exact <==> q.Chain? && |q.lens| == old(Now()).idle
      ensures old(Even()) && (q.Chain? ==> AllEven(q.lens)) ==> Even()
    {
      hide Lists, Own, Caps, OwnedFrom, Emac, Total, EvenCaps, AllEven;
      exact := false;
      Env();
      q := PoolAlloc(rq);
      if q.Chain? {
        exact := AttachNow(q.lens, top, |script| == n);
      }
    }

    /** tms570_eth_rx_pbuf_refill: it ends for every behaviour of the pool, since a success
        uses up a descriptor and a failure shrinks the request. asked are the requests with their
        answers. exact: a chain was exactly as long as the inactive list, which leaves inactiveTail
        behind. With even byte counts the undefined shift is out of reach. */
    method Refill(single: bool, ghost top: nat) returns (r: Refilled, exact: bool, asked: seq<Request>)
      requires Valid() && OwnedFrom(ram, a, top)
      modifies this`ram, this`pb, this`freed, this`queue, this`place, this`a, this`f, this`at, this`handed
      modifies this`activeHead, this`activeTail, this`inactiveHead, this`inactiveTail, this`pool, this`script
      ensures Refilling(old(Bytes()), old(a), old(handed), |old(script)|, top, exact)
      ensures asked == Requests(old(Now()), if single then 1600 else old(freed))
      ensures Now() == AfterAll(old(Now()), asked)
      ensures r == Outcome(asked) && Decided(asked) && (exact <==> ExactFit(old(Now()), asked))
      ensures r == ShiftUndefined <==> exists i :: 0 <= i < |asked| && asked[i] == Request(1, NoMemory)
      ensures r == Starved <==>
              exists i :: 0 <= i < |asked| && asked[i].answer == NoMemory && 2 <= asked[i].bytes < 4096
      ensures r == Done ==> freed <= 0 || Idle() == 0
      ensures old(Even()) ==> Even() && r != ShiftUndefined
    {
      hide Lists, Own, Caps, OwnedFrom, Emac, EvenCaps, Refilling, Requests, Total, Pieces, Asking, Ends;
      hide Unshiftable, GivesUp, Halve, Outcome, Decided, ExactFit, AfterAll, After, NextSize, Bytes;
      exact, r, asked := false, Done, [];
      BeginRefill(top);
      var rq: int := if single then PBUF_POOL_BUFSIZE else freed;
      ghost var b, all := Now(), Requests(Now(), rq);
      AskingBegins(b, rq);
      DecidedNumbers(all);
      if Even() {
        EvenNeverShifts(b, rq);
      }
      while freed > 0 && inactiveHead != NULL
        invariant Refilling(old(Bytes()), old(a), old(handed), |old(script)|, top, exact)
        invariant Idle() >= 0 && (inactiveHead == NULL <==> Idle() == 0) && (exact ==> inactiveHead == NULL)
        invariant Asking(b, all, asked, Now(), rq, exact)
        invariant old(Even()) ==> Even() && rq % 2 == 0
        decreases Idle(), rq
      {
        ghost var c := Now();
        AskingSays(b, all, asked, c, rq, exact);
        if old(Even()) {
          EvenNext(c, rq);
        }
        var q;
        q, exact := Ask(rq, old(Bytes()), old(a), old(handed), |old(script)|, top);
        RefillingSays(old(Bytes()), old(a), old(handed), |old(script)|, top, exact);
        AskingNext(b, all, asked, c, rq, Request(rq, q));
        EndsSays(Request(rq, q));
        asked := asked + [Request(rq, q)];
        if q == NoMemory {
          if rq < 2 {
            r := ShiftUndefined;
            return;
          }
          HalveBounds(rq);
          var half := Halve(rq);
          if half <= PBUF_POOL_BUFSIZE {
            r := Starved;
            return;
          }
          rq := if freed > half then half else freed;
        }
      }
      AskingSays(b, all, asked, Now(), rq, exact);
      AskingEnds(b, all, asked, Now(), rq, exact);
    }

    lemma BeginRefill(top: nat)
      requires Valid() && OwnedFrom(ram, a, top)
      ensures Refilling(Bytes(), a, handed, |script|, top, false)
      ensures Idle() >= 0 && (inactiveHead == NULL <==> Idle() == 0)
    {
      hide Own, Caps, OwnedFrom, Emac, Covered;
      ListEnds(ram, place, a, f);
    }

    lemma RefillingSays(bytes: int, a0: Log, handed0: seq<Handed>, n: nat, top: nat, exact: bool)
      requires Refilling(bytes, a0, handed0, n, top, exact)
      ensures Idle() >= 0 && (inactiveHead == NULL <==> Idle() == 0) && (exact ==> inactiveHead == NULL)
    {
    }

    // ----- The receive pass -------------------------------------------------------------

    /** One round of the outer loop: take the frame at the head of the list, pass it on unless it is
        corrupt, and refill. */
    method TakeAndRefill(delivered: seq<int>, ghost top: nat)
      returns (delivered': seq<int>, exact: bool, r: Refilled, ghost t: Taken, ghost round: Turn)
      requires Valid() && OwnedFrom(ram, a, top) && a.lo < |a.log|
      requires 0 <= activeHead < |ram| && ram[activeHead].sop && !ram[activeHead].owner
      modifies this`pb, this`freed, this`ram, this`queue, this`handed, this`script, this`place, this`a, this`f
      modifies this`activeHead, this`activeTail, this`inactiveHead, this`inactiveTail, this`pool, this`got, this`at
      ensures Shape() && Bytes() == old(Bytes()) && (old(Even()) ==> Even() && r != ShiftUndefined)
      ensures |script| <= |old(script)| && (|script| == |old(script)| ==> OwnedFrom(ram, a, top))
      ensures (exact <==> !Pointers()) && activeHead == First(a)
      ensures old(a.log) <= a.log && old(a.lo) < a.lo <= |a.log|
      ensures IsFrame(t) && t.bds == a.log[old(a.lo)..a.lo] && delivered' == delivered + Heads(t)
      ensures delivered' == if t.corrupt then delivered else delivered + [old(ram[activeHead].pbuf)]
      ensures !rogue ==> old(handed) <= handed && got == old(got) + 1 && old(got) < |handed|
      ensures !rogue ==> IsHanded(t, handed[old(got)])
      ensures round.n == |t.bds| && r == Outcome(round.asked)
      ensures var b := AfterFrame(old(Now()), round);
              && round.asked == Requests(b, b.freed) && Now() == AfterAll(b, round.asked)
              && (exact <==> ExactFit(b, round.asked))
    {
      hide Lists, Own, Caps, OwnedFrom, Emac, IsFrame, IsHanded, EvenCaps, Requests, AfterAll, ExactFit, Outcome;
      hide Decided;
      ghost var ram0, a0 := ram, a;
      ListEnds(ram, place, a, f);
      var head, corrupt;
      ghost var cap;
      head, corrupt, t, cap := ReceiveFrame();
      delivered' := if corrupt then delivered else delivered + [head];
      ghost var top1 := if |script| == |old(script)| then top else |a.log|;
      NoneAbove(ram, a);
      if |script| == |old(script)| {
        OwnedKept(ram0, ram, a0, a.lo, top);
      }
      ghost var b := Now();
      var asked;
      r, exact, asked := Refill(false, top1);
      round := Turn(cap, |t.bds|, asked);
      assert b == AfterFrame(old(Now()), round);
    }

    /** The loop condition, read from the descriptor at the head of the list. */
    method Look(ghost top: nat) returns (more: bool)
      requires Shape() && Pointers() && OwnedFrom(ram, a, top) && activeHead != NULL
      ensures 0 <= activeHead < |ram| && more == (ram[activeHead].sop && !ram[activeHead].owner)
      ensures more ==> a.lo < |a.log| && a.lo < top
      ensures !rogue && !more ==> got == |handed|
    {
      hide Lists, Own, OwnedFrom, Emac;
      HeadAt(ram, pb, place, a, f, at, top);
      more := ram[activeHead].sop && !ram[activeHead].owner;
      if !rogue {
        HeadSays(ram, a, queue, handed, got);
      }
    }

    /** The EMAC runs and the loop condition is read again. */
    method EnvAndLook(ghost taken: seq<Taken>, ghost delivered: seq<int>, ghost top: nat, ghost n: nat, ghost lo0: nat,
                      ghost got0: nat)
      returns (more: bool, ghost top': nat)
      requires Valid() && activeHead != NULL && |script| <= n && (|script| == n ==> OwnedFrom(ram, a, top))
      requires PassDone(taken, delivered, a.log, lo0, a.lo, rogue, handed, got0, got)
      modifies this`ram, this`queue, this`handed, this`script
      ensures Valid() && Bytes() == old(Bytes()) && OwnedFrom(ram, a, top') && |script| <= n
      ensures old(Even()) ==> Even()
      ensures |script| == n ==> top' == top
      ensures !rogue ==> old(handed) <= handed
      ensures PassDone(taken, delivered, a.log, lo0, a.lo, rogue, handed, got0, got)
      ensures 0 <= activeHead < |ram| && more == (ram[activeHead].sop && !ram[activeHead].owner)
      ensures more ==> a.lo < |a.log| && a.lo < top'
      ensures !rogue && !more ==> got == |handed|
    {
      hide Lists, Own, Caps, OwnedFrom, Emac, PassDone, Stable, SameLinks, First, Last, EvenCaps;
      ghost var handed1 := handed;
      Env();
      PassOn(taken, delivered, a.log, lo0, a.lo, rogue, handed1, handed, got0, got);
      NoneAbove(ram, a);
      top' := if |script| < n then |a.log| else top;
      more := Look(top');
    }

    lemma LookEmpty()
      requires Shape() && Pointers() && activeHead == NULL
      ensures !rogue ==> got == |handed|
    {
      hide Lists, Own, Emac;
      ListEnds(ram, place, a, f);
      if !rogue {
        HeadSays(ram, a, queue, handed, got);
      }
    }

    lemma StartPass()
      requires Shape()
      ensures PassDone([], [], a.log, a.lo, a.lo, rogue, handed, got, got) && a.lo <= |a.log|
    {
      hide Own, Covered, PassDone, Ordered;
      PassBegins(a.log, a.lo, rogue, handed, got);
    }

    /** tms570_eth_process_irq_rx, with the EMAC running throughout: frames are taken off the head of
        the list in order, each as the driver read it and each followed by a refill, and those that are
        not corrupt go to netif->input. They are exactly the frames that the EMAC handed back, in order
        and once each, and at the last look none was left. idle: the list was empty, so the pass only
        refilled it. rounds are the refills of the pass: each makes the requests that the bytes freed,
        the idle descriptors and the pool determine, the last one gives the outcome, and only it may
        end in an exact fit or in the undefined shift, which with even byte counts is out of reach.
        Unless it does, the two lists partition the descriptors afterwards, with the right heads
        and tails, and the bytes to be allocated plus the capacities attached stay the same. */
    method ProcessIrqRx()
      returns (exact: bool, r: Refilled, idle: bool, delivered: seq<int>, ghost taken: seq<Taken>,
               ghost rounds: seq<Turn>)
      requires Valid()
      modifies this
      ensures Shape() && Bytes() == old(Bytes()) && (old(Even()) ==> Even() && r != ShiftUndefined)
      ensures exact <==> !Pointers()
      ensures idle <==> old(activeHead) == NULL
      ensures old(a.log) <= a.log && (!rogue ==> old(handed) <= handed)
      ensures PassDone(taken, delivered, a.log, old(a.lo), a.lo, rogue, handed, old(got), got)
      ensures RoundsOf(taken, rounds, idle) && Booked(old(Now()), rounds) && Now() == Ledger(old(Now()), rounds)
      ensures r == PassOutcome(rounds) && (exact <==> EndsExact(old(Now()), rounds))
      ensures !idle && !exact && r != ShiftUndefined && activeHead != NULL ==>
        0 <= activeHead < |ram| && !(ram[activeHead].sop && !ram[activeHead].owner)
      ensures !rogue && !idle && !exact && r != ShiftUndefined ==> got == |handed|
    {
      hide Lists, Own, Caps, OwnedFrom, Emac, PassDone, Stable, SameLinks, First, Last, EvenCaps;
      hide Requests, Booked, Ledger, PassOutcome, EndsExact, RoundsOf, Outcome, ExactFit, AfterAll, Decided;
      exact, r, idle, delivered, taken, rounds := false, Done, activeHead == NULL, [], [], [];
      Env();
      StartPass();
      BookNone(Now());
      NoRounds(idle);
      ghost var top: nat := |a.log|;
      NoneAbove(ram, a);
      if activeHead == NULL {
        exact, r, rounds := OnlyRefill();
        StartPass();
        return;
      }
      var more := Look(top);
      while more
        invariant Valid() && Bytes() == old(Bytes()) && OwnedFrom(ram, a, top) && !exact && (old(Even()) ==> Even())
        invariant old(a.log) <= a.log && (!rogue ==> old(handed) <= handed)
        invariant PassDone(taken, delivered, a.log, old(a.lo), a.lo, rogue, handed, old(got), got)
        invariant Bookkeeping(old(Now()), taken, rounds, r, exact) && r != ShiftUndefined
        invariant 0 <= activeHead < |ram| && more == (ram[activeHead].sop && !ram[activeHead].owner)
        invariant more ==> a.lo < |a.log| && a.lo < top
        invariant !rogue && !more ==> got == |handed|
        decreases |script|, top - a.lo
      {
        ghost var n := |script|;
        delivered, taken, rounds, exact, r :=
          PassStep(delivered, taken, rounds, r, top, old(a.lo), old(got), old(Now()));
        if exact || r == ShiftUndefined {
          return;
        }
        if activeHead == NULL {
          LookEmpty();
          return;
        }
        more, top := EnvAndLook(taken, delivered, top, n, old(a.lo), old(got));
      }
    }

    /** The refills of a pass so far and the outcome of the last one. */
    ghost predicate Bookkeeping(b: Books, taken: seq<Taken>, rounds: seq<Turn>, r: Refilled, exact: bool)
      reads this`freed, this`f, this`pool
    {
      && RoundsOf(taken, rounds, false) && Booked(b, rounds) && Now() == Ledger(b, rounds)
      && r == PassOutcome(rounds) && (exact <==> EndsExact(b, rounds))
    }

    /** The pass over an empty list. */
    method OnlyRefill() returns (exact: bool, r: Refilled, ghost rounds: seq<Turn>)
      requires Valid()
      modifies this`ram, this`pb, this`freed, this`queue, this`place, this`a, this`f, this`at, this`handed
      modifies this`activeHead, this`activeTail, this`inactiveHead, this`inactiveTail, this`pool, this`script
      ensures Shape() && Bytes() == old(Bytes()) && (old(Even()) ==> Even() && r != ShiftUndefined)
      ensures (exact <==> !Pointers()) && a.lo == old(a.lo) && old(a.log) <= a.log && (!rogue ==> old(handed) <= handed)
      ensures RoundsOf([], rounds, true) && Booked(old(Now()), rounds) && Now() == Ledger(old(Now()), rounds)
      ensures r == PassOutcome(rounds) && (exact <==> EndsExact(old(Now()), rounds))
    {
      hide Lists, Own, Caps, OwnedFrom, Emac, First, Last, EvenCaps, Decided;
      hide Requests, Booked, Ledger, PassOutcome, EndsExact, Outcome, ExactFit, AfterAll, Stopped;
      NoneAbove(ram, a);
      ghost var b := Now();
      var asked;
      r, exact, asked := Refill(false, |a.log|);
      BookNone(b);
      BookNext(b, [], Turn(0, 0, asked));
      rounds := [] + [Turn(0, 0, asked)];
    }

    /** One round of the outer loop with its entries in the logs. */
    method PassStep(delivered: seq<int>, ghost taken: seq<Taken>, ghost rounds: seq<Turn>, ghost r0: Refilled,
                    ghost top: nat, ghost lo0: nat, ghost got0: nat, ghost b: Books)
      returns (delivered': seq<int>, ghost taken': seq<Taken>, ghost rounds': seq<Turn>, exact: bool, r: Refilled)
      requires Valid() && OwnedFrom(ram, a, top) && a.lo < |a.log|
      requires 0 <= activeHead < |ram| && ram[activeHead].sop && !ram[activeHead].owner
      requires PassDone(taken, delivered, a.log, lo0, a.lo, rogue, handed, got0, got)
      requires Bookkeeping(b, taken, rounds, r0, false) && r0 != ShiftUndefined
      modifies this
      ensures Shape() && Bytes() == old(Bytes()) && old(a.log) <= a.log && old(a.lo) < a.lo
      ensures old(Even()) ==> Even() && r != ShiftUndefined
      ensures |script| <= |old(script)| && (|script| == |old(script)| ==> OwnedFrom(ram, a, top))
      ensures (exact <==> !Pointers()) && (!rogue ==> old(handed) <= handed)
      ensures PassDone(taken', delivered', a.log, lo0, a.lo, rogue, handed, got0, got)
      ensures Bookkeeping(b, taken', rounds', r, exact)
    {
      hide Lists, Own, Caps, OwnedFrom, Emac, IsFrame, IsHanded, PassDone, Heads, EvenCaps;
      hide Requests, Booked, Ledger, EndsExact, Outcome, ExactFit, AfterAll, RoundsOf;
      ghost var a1, handed1, got1 := a, handed, got;
      ghost var t, round;
      NotStopped(b, rounds, r0);
      delivered', exact, r, t, round := TakeAndRefill(delivered, top);
      PassNext(taken, delivered, a1.log, a.log, lo0, a1.lo, a.lo, rogue, handed1, handed, got0, got1, t);
      RoundNext(taken, rounds, t, round);
      BookNext(b, rounds, round);
      taken', rounds' := taken + [t], rounds + [round];
      GotFree(taken', delivered', a.log, lo0, a.lo, handed, got0, got1 + 1, got);
    }

    /** With a rogue EMAC nothing is said about the number of frames. */
    lemma GotFree(ts: seq<Taken>, delivered: seq<int>, log: seq<int>, lo0: nat, lo: nat, handed: seq<Handed>, got0: nat,
                  got1: nat, got2: nat)
      requires PassDone(ts, delivered, log, lo0, lo, rogue, handed, got0, got1) && (!rogue ==> got1 == got2)
      ensures PassDone(ts, delivered, log, lo0, lo, rogue, handed, got0, got2)
    {
    }
  }

  /** A refill that hangs a pbuf on every idle descriptor leaves inactive_tail on an active one: for
      every number of bytes, on as many descriptors as its first request has pbufs. */
  method ExactFitReached(freed: int) returns (c: RxChannel)
    requires freed > 0
    ensures c.Shape() && !c.Pointers() && c.inactiveHead == NULL && c.inactiveTail == c.activeTail != NULL
  {
    hide Lists, Own, Emac, Caps, Requests, ExactFit, OwnedFrom, Decided, AfterAll, Pieces;
    c := new RxChannel(|Pieces(freed % 0x10000)|, freed, [true], [], false);
    NoneAbove(c.ram, c.a);
    OneChainFits(freed);
    var r, exact, asked := c.Refill(false, 0);
  }

  /** With an odd number of bytes the undefined shift is within reach: one byte and a refusal. */
  method ShiftReached() returns (c: RxChannel, r: Refilled)
    ensures c.Shape() && r == ShiftUndefined
  {
    hide Lists, Own, Emac, Caps, Requests, OwnedFrom, AfterAll, ExactFit;
    c := new RxChannel(1, 1, [], [], false);
    NoneAbove(c.ram, c.a);
    OneByteRefused();
    var exact, asked;
    r, exact, asked := c.Refill(false, 0);
  }

  /** Or 8193 bytes, after two requests were granted. */
  method ShiftReachedLater() returns (c: RxChannel, r: Refilled)
    ensures c.Shape() && r == ShiftUndefined
  {
    hide Lists, Own, Emac, Caps, Requests, OwnedFrom, AfterAll, ExactFit, Pieces;
    c := new RxChannel(7, 8193, [false, true, true, false, false], [], false);
    NoneAbove(c.ram, c.a);
    OneByteRefusedLater();
    var exact, asked;
    r, exact, asked := c.Refill(false, 0);
  }

  /** The driver starts with an even number of bytes and never meets the undefined shift: for every
      pool, every EMAC, every number of descriptors and any number of passes, up to an exact fit. */
  method NeverShifts(n: nat, pool: seq<bool>, script: seq<Event>, rogue: bool, passes: nat)
    returns (c: RxChannel, outcomes: seq<Refilled>, exact: bool)
    ensures ShiftUndefined !in outcomes && (!exact ==> |outcomes| == passes && c.Valid())
    ensures c.Shape() && c.Even()
  {
    hide Lists, Own, Emac, Caps, PassDone, Booked, Ledger, RoundsOf, PassOutcome, EndsExact;
    c := new RxChannel(n, InitialBytes, pool, script, rogue);
    outcomes, exact := [], false;
    for i := 0 to passes
      invariant fresh(c) && c.Valid() && c.Even() && !exact
      invariant |outcomes| == i && ShiftUndefined !in outcomes
    {
      var r, idle, delivered;
      ghost var taken, rounds;
      exact, r, idle, delivered, taken, rounds := c.ProcessIrqRx();
      outcomes := outcomes + [r];
      if exact {
        return;
      }
    }
  }
}
