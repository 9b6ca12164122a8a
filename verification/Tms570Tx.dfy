/** The TMS570 EMAC transmit channel: the driver's send and completion passes over the
    descriptor lists, with EMAC steps interleaved at every point where the two sides
    share a descriptor or a register. */
module Tms570Tx {
  import opened Tms570TxLists

  datatype Err = ErrOk | ErrIf

  class TxChannel {
    var ram: seq<Bd>
    var activeHead: int
    var activeTail: int
    var inactiveHead: int
    var inactiveTail: int
    /** Reference counts of all pbufs, as multiplicities. */
    var refs: multiset<nat>
    /** TXHDP. */
    var hdp: int
    /** The packet the EMAC has read but not yet handed back. */
    var releasing: int
    /** Frames transmitted so far. */
    var wire: seq<seq<Frag>>
    /** How many EMAC steps happen at each of the following interleaving points. */
    var script: seq<nat>
    /** A rogue EMAC writes OWNER, EOQ and TXHDP at will. */
    const rogue: bool

    ghost var g: Layout
    ghost var mid: nat
    /** References held by the rest of the stack. */
    ghost var held: multiset<nat>

    ghost predicate EmacOk(restart: bool)
      reads this`ram, this`g, this`mid, this`hdp, this`releasing, this`wire
    {
      Active(ram, g) && (!rogue ==> Hw(ram, g, mid, hdp, releasing, wire, restart))
    }

    ghost predicate Pointers()
      reads this`ram, this`g, this`activeHead, this`activeTail, this`inactiveHead, this`inactiveTail
    {
      && Active(ram, g) && Free(ram, g)
      && activeHead == (if g.lo < |g.sent| then Head(g, g.lo) else NULL)
      && activeTail == (if g.lo < |g.sent| then Tail(g, |g.sent| - 1) else NULL)
      && inactiveHead == FreeAt(g, g.flo)
      && inactiveTail == LastFree(g)
    }

    /** The two lists partition the descriptors, with the right heads and tails, and each
        pbuf has one reference per packet on the active list on top of those held
        elsewhere. */
    ghost predicate ListsOk()
      reads this
    {
      Pointers() && Covered(g) && RefsOk()
    }

    ghost predicate RefsOk()
      reads this`refs, this`held, this`g
    {
      RefsFor(g)
    }

    ghost predicate RefsFor(l: Layout)
      reads this`refs, this`held
    {
      refs == held + multiset(Queued(l))
    }

    ghost predicate Valid()
      reads this
    {
      ListsOk() && EmacOk(false)
    }

    /** The last queued packet carries an EOQ bit that the EMAC did not set. */
    ghost predicate StaleTail()
      reads this`ram, this`g, this`hdp
      requires Active(ram, g)
    {
      Stale(ram, g, hdp)
    }

    /** A packet of n > 1 descriptors would end in one that still has EOQ from earlier. */
    ghost predicate LeftoverEoq(n: nat)
      reads this`ram, this`g
    {
      n > 1 && 0 <= FreeAt(g, g.flo + n - 1) < |ram| && ram[FreeAt(g, g.flo + n - 1)].eoq
    }

    /** The head pointer names the last packet although it is already on the wire. */
    ghost predicate Resent()
      reads this`ram, this`g, this`mid, this`hdp, this`releasing, this`wire
      requires Active(ram, g)
    {
      && g.lo < |g.sent| && hdp == Head(g, |g.sent| - 1)
      && Hw(ram, g, mid, NULL, releasing, wire, false)
    }

    ghost function View(): EmacView
      reads this`mid, this`hdp, this`releasing, this`wire, this`script
    {
      EmacView(hdp, releasing, mid, wire, script)
    }

    /** A channel with n idle descriptors, all on the inactive list. */
    constructor (n: nat, rogue: bool, script: seq<nat>, held: multiset<nat>)
      ensures Valid() && !StaleTail()
      ensures this.rogue == rogue && this.script == script && this.held == held
      ensures |ram| == n && g.sent == [] && g.lo == 0 && g.flo == 0 && |g.freed| == n
      ensures forall b :: 0 <= b < n ==> g.freed[b] == b && !ram[b].eoq
    {
      ram := seq(n, i => Bd(if i + 1 < n then i + 1 else NULL, Frag(0, 0), false, false, false, false, 0, 0));
      activeHead, activeTail := NULL, NULL;
      inactiveHead := if n == 0 then NULL else 0;
      inactiveTail := n - 1;
      refs := held;
      hdp, releasing, wire := NULL, NULL, [];
      this.script := script;
      this.rogue := rogue;
      g := Layout(seq(n, i requires 0 <= i => InFree(i)), [], 0, seq(n, i => i), 0);
      mid := 0;
      this.held := held;
    }

    // ----- The EMAC ---------------------------------------------------------------------

    /** EMAC steps left until the queue is empty. */
    ghost function Unread(): int
      reads this
    {
      2 * (|g.sent| - mid) - (if releasing == NULL then 0 else 1)
    }

    /** The EMAC's write of OWNER. */
    method Release()
      requires 0 <= releasing < |ram|
      modifies this`ram, this`releasing
      ensures ram == old(ram)[old(releasing) := old(ram[releasing]).(owner := false)] && releasing == NULL
    {
      ram := ram[releasing := ram[releasing].(owner := false)];
      releasing := NULL;
    }

    /** The EMAC hands back the packet it has read. */
    method EmacRelease(ghost restart: bool)
      requires EmacOk(restart) && !rogue && releasing != NULL
      modifies this`ram, this`releasing, this`mid
      ensures EmacOk(restart) && EmacFrame(old(ram), ram, g) && SameEoq(old(ram), ram)
      ensures mid == old(mid) + 1 && releasing == NULL
    {
      ReleaseKeeps(ram, g, mid, hdp, releasing, wire, restart);
      Release();
      mid := mid + 1;
    }

    /** Follow the packet at TXHDP to its EOP descriptor, gathering its pieces. */
    method EmacWalk(ghost k: nat) returns (b: int, frame: seq<Frag>)
      requires Active(ram, g) && g.lo <= k < |g.sent| && hdp == Head(g, k)
      ensures b == Tail(g, k) && frame == g.sent[k].job.frags
    {
      ghost var p := g.sent[k];
      assert PacketAt(ram, g, k);
      b, frame := hdp, [];
      ghost var j := 0;
      while !ram[b].eop
        invariant 0 <= j < |p.bds| && b == p.bds[j]
        invariant frame == p.job.frags[..j]
        decreases |p.bds| - j
      {
        assert ram[p.bds[j]].next == p.bds[j + 1];
        frame := frame + [ram[b].frag];
        b := ram[b].next;
        j := j + 1;
      }
      assert ram[p.bds[j]].eop;
      frame := frame + [ram[b].frag];
    }

    /** Put the packet at TXHDP on the wire and, as one action, read the next pointer of its last
        descriptor and either follow it or set EOQ and halt. */
    method Read(ghost k: nat)
      requires Active(ram, g) && g.lo <= k < |g.sent| && hdp == Head(g, k)
      modifies this`ram, this`hdp, this`releasing, this`wire
      ensures ram == Decided(old(ram), Tail(g, k)) && hdp == old(ram[Tail(g, k)].next) && releasing == old(hdp)
      ensures wire == old(wire) + [g.sent[k].job.frags]
    {
      hide PacketAt;
      var b, frame := EmacWalk(k);
      wire := wire + [frame];
      releasing := hdp;
      hdp := ram[b].next;
      if hdp == NULL {
        ram := ram[b := ram[b].(eoq := true)];
      }
    }

    /** The EMAC reads the packet at TXHDP. */
    method EmacRead(ghost restart: bool)
      requires EmacOk(restart) && !rogue && releasing == NULL && hdp != NULL
      modifies this`ram, this`hdp, this`releasing, this`wire
      ensures EmacOk(restart) && EmacFrame(old(ram), ram, g)
      ensures releasing != NULL
      ensures hdp != NULL ==> SameEoq(old(ram), ram)
    {
      ReadKeeps(ram, g, mid, hdp, wire, restart);
      Read(mid);
    }

    /** One step of the EMAC. */
    method EmacStep(ghost restart: bool)
      requires EmacOk(restart)
      modifies this`ram, this`hdp, this`releasing, this`wire, this`mid
      ensures EmacOk(restart) && SameLists(old(ram), ram)
      ensures !rogue ==> EmacFrame(old(ram), ram, g) && mid >= old(mid)
      ensures !rogue && (old(hdp) == NULL || hdp != NULL) ==> SameEoq(old(ram), ram)
      ensures !rogue && old(hdp) == NULL ==> hdp == NULL
      ensures !rogue && old(hdp) != NULL ==> Unread() < old(Unread())
      ensures !rogue ==> Unread() == old(Unread()) - if old(hdp == NULL && releasing == NULL) then 0 else 1
      ensures !rogue && old(hdp == NULL && releasing == NULL) ==> releasing == NULL
    {
      if rogue {
        var b: int, o: bool, e: bool, h: int := *, *, *, *;
        if 0 <= b < |ram| {
          ram := ram[b := ram[b].(owner := o, eoq := e)];
        }
        hdp := h;
        SameListsKeep(old(ram), ram, g);
      } else if releasing != NULL {
        EmacRelease(restart);
      } else if hdp != NULL {
        EmacRead(restart);
      }
    }

    /** An interleaving point: the EMAC takes as many steps as the script says, or fewer if it has
        halted. */
    method Interfere(ghost restart: bool)
      requires EmacOk(restart)
      modifies this`ram, this`hdp, this`releasing, this`wire, this`mid, this`script
      ensures EmacOk(restart) && SameLists(old(ram), ram)
      ensures !rogue ==> EmacFrame(old(ram), ram, g) && Advanced(g, old(ram), old(View()), ram, View())
      ensures old(script) == [] ==> ram == old(ram) && View() == old(View())
      ensures old(script) != [] ==> script == old(script)[1..]
      ensures !rogue && old(script) != [] ==>
        var n := old(script)[0];
        Unread() == old(Unread()) - n || (hdp == NULL && releasing == NULL && old(Unread()) - n < Unread())
    {
      if script != [] {
        var n := script[0];
        script := script[1..];
        for i := 0 to n
          invariant EmacOk(restart) && SameLists(old(ram), ram) && script == old(script)[1..]
          invariant !rogue ==> EmacFrame(old(ram), ram, g) && mid >= old(mid)
          invariant !rogue && (old(hdp) == NULL || hdp != NULL) ==> SameEoq(old(ram), ram)
          invariant !rogue && old(hdp) == NULL ==> hdp == NULL
          invariant !rogue ==> || Unread() == old(Unread()) - i
                               || (hdp == NULL && releasing == NULL && old(Unread()) - i < Unread())
        {
          EmacStep(restart);
        }
      }
    }

    /** tms570_eth_hw_set_TX_HDP: wait for a halted EMAC, then write the head pointer. */
    method SetHdp(newHead: int, ghost restart: bool)
      requires EmacOk(restart)
      modifies this`ram, this`hdp, this`releasing, this`wire, this`mid
      ensures Active(ram, g) && SameLists(old(ram), ram)
      ensures hdp == newHead
      ensures !rogue ==> Hw(ram, g, mid, NULL, releasing, wire, restart) && FreeSame(g, old(ram), ram)
      ensures !rogue && old(hdp) == NULL ==> ram == old(ram)
    {
      if rogue {
        hdp := NULL;
      }
      while hdp != NULL
        invariant EmacOk(restart) && SameLists(old(ram), ram)
        invariant rogue ==> hdp == NULL
        invariant !rogue && old(hdp) == NULL ==> hdp == NULL && ram == old(ram)
        invariant !rogue ==> FreeSame(g, old(ram), ram)
        decreases Unread()
      {
        EmacStep(restart);
      }
      hdp := newHead;
    }

    // ----- Sending ----------------------------------------------------------------------

    /** Write the flags word of the first descriptor. */
    method StartPacket(ghost job: Job, curr: int, pktlen: nat)
      requires EmacOk(false) && Free(ram, g) && g.flo < |g.freed| && curr == FreeAt(g, g.flo)
      requires pktlen == job.len
      modifies this`ram
      ensures EmacOk(false) && Built(ram, g, job, 0) && Except(old(ram), ram, curr)
      ensures !rogue ==> Opened(ram, g)
    {
      StartKeeps(ram, g, job);
      ram := ram[curr := Started(ram[curr], pktlen)];
      FreeTouchKeeps(old(ram), ram, g, curr);
      if !rogue {
        FreeTouchKeepsHw(old(ram), ram, g, curr, mid, hdp, releasing, wire, false);
      }
    }

    /** Fill descriptor curr with piece number q of the packet and step to the next one. */
    method FillBd(ghost job: Job, ghost q: nat, f: Frag, id: nat, curr: int) returns (next: int)
      requires EmacOk(false) && Built(ram, g, job, q)
      requires q < |job.frags| && f == job.frags[q] && id == job.id
      requires g.flo + q < |g.freed| && curr == FreeAt(g, g.flo + q)
      requires !rogue ==> Opened(ram, g)
      modifies this`ram, this`hdp, this`releasing, this`wire, this`mid, this`script
      ensures EmacOk(false) && Built(ram, g, job, q + 1)
      ensures !rogue ==> Opened(ram, g) && Advanced(g, old(ram), old(View()), ram, View())
      ensures next == FreeAt(g, g.flo + q + 1)
    {
      hide Hw, PacketAt, FreeFrom;
      next := WriteBd(job, q, f, id, curr);
      ghost var before := ram;
      Interfere(false);
      BuiltKeeps(before, ram, g, job, q + 1);
    }

    method WriteBd(ghost job: Job, ghost q: nat, f: Frag, id: nat, curr: int) returns (next: int)
      requires EmacOk(false) && Built(ram, g, job, q)
      requires q < |job.frags| && f == job.frags[q] && id == job.id
      requires g.flo + q < |g.freed| && curr == FreeAt(g, g.flo + q)
      requires !rogue ==> Opened(ram, g)
      modifies this`ram
      ensures EmacOk(false) && Built(ram, g, job, q + 1) && SameEoq(old(ram), ram)
      ensures !rogue ==> Opened(ram, g)
      ensures next == FreeAt(g, g.flo + q + 1)
    {
      hide Hw, PacketAt;
      FillKeeps(ram, g, job, q);
      ram := ram[curr := ram[curr].(frag := f, pbuf := id)];
      FreeTouchKeeps(old(ram), ram, g, curr);
      if !rogue {
        FreeTouchKeepsHw(old(ram), ram, g, curr, mid, hdp, releasing, wire, false);
      }
      next := ram[curr].next;
    }

    /** The loop over the chain in tms570_eth_send_raw. */
    method FillSegs(p: Chain, first: int) returns (ok: bool, packetTail: int, curr: int)
      requires EmacOk(false) && Built(ram, g, JobOf(p), 0) && first == FreeAt(g, g.flo)
      requires !rogue ==> Opened(ram, g)
      modifies this`ram, this`hdp, this`releasing, this`wire, this`mid, this`script
      ensures EmacOk(false) && Free(ram, g)
      ensures !rogue ==> Advanced(g, old(ram), old(View()), ram, View())
      ensures ok <==> |p.segs| <= |g.freed| - g.flo
      ensures ok ==> Built(ram, g, JobOf(p), |p.segs|) && (!rogue ==> Opened(ram, g))
      ensures ok ==> packetTail == FreeAt(g, g.flo + |p.segs| - 1) && curr == FreeAt(g, g.flo + |p.segs|)
      ensures ok ==> forall i {:trigger g.freed[i]} :: g.flo <= i < g.flo + |p.segs| ==>
                       && 0 <= g.freed[i] < |ram|
                       && ram[g.freed[i]].frag == p.segs[i - g.flo] && ram[g.freed[i]].pbuf == p.id
    {
      hide Hw, PacketAt, FreeFrom, Opened;
      curr, packetTail := first, first;
      var q := 0;
      while q < |p.segs|
        invariant 0 <= q <= |p.segs|
        invariant EmacOk(false) && Built(ram, g, JobOf(p), q)
        invariant !rogue ==> Opened(ram, g) && Advanced(g, old(ram), old(View()), ram, View())
        invariant curr == FreeAt(g, g.flo + q)
        invariant q > 0 ==> packetTail == FreeAt(g, g.flo + q - 1)
      {
        if curr == NULL {
          return false, packetTail, curr;
        }
        packetTail := curr;
        curr := FillBd(JobOf(p), q, p.segs[q], p.id, curr);
        q := q + 1;
      }
      ok := true;
      FilledIs(p);
    }

    lemma FilledIs(p: Chain)
      requires Built(ram, g, JobOf(p), |p.segs|)
      ensures forall i {:trigger g.freed[i]} :: g.flo <= i < g.flo + |p.segs| ==>
                && 0 <= g.freed[i] < |ram|
                && ram[g.freed[i]].frag == p.segs[i - g.flo] && ram[g.freed[i]].pbuf == p.id
    {
      hide FreeFrom, Frags;
      JobPresents(p);
    }

    /** The descriptor-filling part of tms570_eth_send_raw once a first one is there. */
    method FillPacket(p: Chain, first: int) returns (ok: bool, packetTail: int, curr: int)
      requires EmacOk(false) && Free(ram, g) && g.flo < |g.freed| && first == FreeAt(g, g.flo)
      modifies this`ram, this`hdp, this`releasing, this`wire, this`mid, this`script
      ensures EmacOk(false) && Free(ram, g)
      ensures !rogue ==> Advanced(g, old(ram), old(View()), ram, View())
      ensures ok <==> |Frags(p)| <= |g.freed| - g.flo
      ensures ok ==> Built(ram, g, JobOf(p), |Frags(p)|) && (!rogue ==> Opened(ram, g))
      ensures ok ==> packetTail == FreeAt(g, g.flo + |Frags(p)| - 1) && curr == FreeAt(g, g.flo + |Frags(p)|)
    {
      hide Hw, PacketAt, FreeFrom;
      var pktlen, padlen := p.totLen, 0;
      if pktlen < MIN_PKT_LEN {
        padlen := MIN_PKT_LEN - pktlen;
        pktlen := MIN_PKT_LEN;
        assert |Frags(p)| == |p.segs| + 1;
      }
      StartPacket(JobOf(p), first, pktlen);
      ok, packetTail, curr := FillSegs(p, first);
      if ok && padlen != 0 {
        if curr == NULL {
          return false, packetTail, curr;
        }
        packetTail := curr;
        curr := FillBd(JobOf(p), |p.segs|, Frag(ram[first].frag.ptr, padlen), p.id, curr);
      }
    }

    /** Terminate the packet just built and take it off the inactive list. */
    method SealPacket(ghost job: Job, packetTail: int, curr: int)
      requires EmacOk(false) && 0 < |job.frags| && Built(ram, g, job, |job.frags|)
      requires !rogue ==> Opened(ram, g)
      requires packetTail == FreeAt(g, g.flo + |job.frags| - 1) && curr == FreeAt(g, g.flo + |job.frags|)
      requires inactiveTail == LastFree(g)
      modifies this`ram, this`hdp, this`releasing, this`wire, this`mid, this`script
      modifies this`inactiveHead, this`inactiveTail
      ensures EmacOk(false) && Sealed(ram, g, job)
      ensures !rogue ==> Opened(ram, g) && Advanced(g, old(ram), old(View()), ram, View())
      ensures inactiveHead == curr && inactiveTail == if curr == NULL then NULL else old(inactiveTail)
    {
      hide Sealed, Active, Hw, FreeFrom;
      SealKeeps(ram, g, job);
      ram := ram[packetTail := ram[packetTail].(next := NULL, eop := true)];
      FreeTouchKeeps(old(ram), ram, g, packetTail);
      if !rogue {
        FreeTouchKeepsHw(old(ram), ram, g, packetTail, mid, hdp, releasing, wire, false);
      }
      inactiveHead := curr;
      if curr == NULL {
        inactiveTail := NULL;
      }
      ghost var before := ram;
      Interfere(false);
      SealedKeeps(before, ram, g, job);
    }

    /** The packet built from the free descriptors, seen from the pointers. */
    ghost predicate Ready(job: Job, packetHead: int, packetTail: int)
      reads this
    {
      && Active(ram, g) && Sealed(ram, g, job) && g.flo + |job.frags| <= |g.freed|
      && (!rogue ==> Opened(ram, g))
      && packetHead == FreeAt(g, g.flo) && packetTail == FreeAt(g, g.flo + |job.frags| - 1)
      && inactiveHead == FreeAt(g, g.flo + |job.frags|)
      && inactiveTail == (if g.flo + |job.frags| < |g.freed| then LastFree(g) else NULL)
      && activeHead == (if g.lo < |g.sent| then Head(g, g.lo) else NULL)
      && activeTail == (if g.lo < |g.sent| then Tail(g, |g.sent| - 1) else NULL)
    }

    /** The packet joins the active list: link it behind the last packet, if any. */
    method WriteLink(ghost job: Job, packetHead: int, ghost packetTail: int)
      requires EmacOk(false) && Ready(job, packetHead, packetTail)
      modifies this`ram, this`g
      ensures Pushed(old(g), g, job) && EmacOk(hdp == NULL) && Free(ram, g)
      ensures inactiveHead == FreeAt(g, g.flo) && inactiveTail == LastFree(g)
      ensures |g.sent| > 0 && packetHead != NULL
      ensures packetHead == Head(g, |g.sent| - 1) && packetTail == Tail(g, |g.sent| - 1)
      ensures activeTail == NULL ==> g.lo == |g.sent| - 1 && (!rogue ==> hdp == NULL)
      ensures activeTail != NULL ==> activeHead == Head(g, g.lo)
      ensures activeTail != NULL ==> g.lo + 1 < |g.sent| && activeTail == Tail(g, |g.sent| - 2)
      ensures activeTail != NULL ==> ram[activeTail] == old(ram[activeTail]).(next := packetHead)
      ensures activeTail != NULL && !rogue && hdp == NULL ==> ram[activeTail].eoq
      ensures SameEoq(old(ram), ram)
    {
      hide Sealed, Free;
      ghost var g0 := g;
      g := Push(g, job);
      LinkKeeps(ram, g0, g, job);
      PushEnds(g0, g, job);
      if !rogue {
        LinkKeepsHw(ram, g0, g, job, mid, hdp, releasing, wire);
      }
      if activeTail != NULL {
        ram := ram[activeTail := ram[activeTail].(next := packetHead)];
      }
    }

    /** Write TXHDP for a packet linked behind a halted EMAC. */
    method Restart(packetHead: int)
      requires EmacOk(true) && Free(ram, g) && |g.sent| > g.lo && packetHead == Head(g, |g.sent| - 1)
      modifies this`ram, this`hdp, this`releasing, this`wire, this`mid
      ensures EmacOk(false) && Free(ram, g)
      ensures !rogue ==> ram == old(ram) && hdp != NULL
    {
      SetHdp(packetHead, true);
      SameListsKeep(old(ram), ram, g);
      if !rogue {
        RestartHw(ram, g, mid, releasing, wire);
      }
    }

    /** Restart the EMAC if the previously last packet has EOQ. */
    method CheckEoq(packetHead: int, ghost restart: bool)
      requires EmacOk(restart) && Free(ram, g) && g.lo + 1 < |g.sent|
      requires packetHead == Head(g, |g.sent| - 1) && activeTail == Tail(g, |g.sent| - 2)
      requires ram[activeTail].next != NULL
      requires !rogue ==> (restart <==> hdp == NULL) && (restart ==> ram[activeTail].eoq)
      modifies this`ram, this`hdp, this`releasing, this`wire, this`mid, this`script
      ensures Active(ram, g) && Free(ram, g)
      ensures rogue || restart || !old(ram[activeTail].eoq) ==> EmacOk(false)
      ensures !rogue && !restart && old(ram[activeTail].eoq) ==> Resent()
      ensures !rogue && (restart || !old(ram[activeTail].eoq)) && hdp != NULL ==>
        var t := Tail(g, |g.sent| - 1); ram[t].eoq == old(ram[t].eoq)
      ensures !rogue && old(script) == [] ==> hdp != NULL && script == []
      ensures !rogue ==> FreeSame(g, old(ram), ram)
    {
      hide Free, PacketAt, Hw, FreeSame;
      Interfere(restart);
      SameListsKeep(old(ram), ram, g);
      if !rogue {
        FrameFree(g, old(ram), ram);
        if old(hdp) == NULL || hdp != NULL {
          TailEoqKept(old(ram), g, old(View()), ram, View());
        }
      }
      hide Advanced;
      if ram[activeTail].eoq {
        ghost var before := ram;
        SetHdp(packetHead, restart);
        SameListsKeep(before, ram, g);
        if !rogue {
          FreeSameTrans(g, old(ram), before, ram);
        }
        if !rogue && restart {
          RestartHw(ram, g, mid, releasing, wire);
        }
      }
    }

    /** The end of tms570_eth_send_raw: hand the packet to the EMAC. */
    method LinkPacket(ghost job: Job, packetHead: int, packetTail: int)
      requires EmacOk(false) && Ready(job, packetHead, packetTail)
      modifies this`ram, this`hdp, this`releasing, this`wire, this`mid, this`script
      modifies this`activeHead, this`activeTail, this`g
      ensures Pushed(old(g), g, job) && Pointers()
      ensures rogue || !old(StaleTail()) ==> EmacOk(false)
      ensures !rogue && old(StaleTail()) ==> Resent()
      ensures !rogue && !old(StaleTail()) ==>
        (StaleTail() <==> hdp != NULL && old(ram[packetTail].eoq))
      ensures !rogue && old(script) == [] ==> hdp != NULL && script == []
      ensures !rogue ==> FreeSame(g, old(ram), ram)
    {
      hide Sealed, Pushed, Free, Hw, SameEoq, FreeSame, PacketAt, Stale;
      ghost var ram0 := ram;
      LastStale(ram, g, hdp);
      WriteLink(job, packetHead, packetTail);
      ghost var ram1 := ram;
      SameEoqAt(ram0, ram1, packetTail);
      if activeTail != NULL {
        SameEoqAt(ram0, ram1, activeTail);
      }
      JoinActive(packetHead, packetTail);
      if !rogue {
        LinkEoq(g, ram0, ram1, ram);
      }
    }

    /** The packet is linked, or will be the first: tell the EMAC if need be. */
    method JoinActive(packetHead: int, packetTail: int)
      requires Free(ram, g) && g.lo < |g.sent| && EmacOk(hdp == NULL)
      requires inactiveHead == FreeAt(g, g.flo) && inactiveTail == LastFree(g)
      requires packetHead == Head(g, |g.sent| - 1) && packetTail == Tail(g, |g.sent| - 1)
      requires activeTail == NULL ==> g.lo == |g.sent| - 1 && (!rogue ==> hdp == NULL)
      requires activeTail != NULL ==> g.lo + 1 < |g.sent| && activeTail == Tail(g, |g.sent| - 2)
      requires activeTail != NULL ==> activeHead == Head(g, g.lo) && ram[activeTail].next != NULL
      requires activeTail != NULL && !rogue && hdp == NULL ==> ram[activeTail].eoq
      modifies this`ram, this`hdp, this`releasing, this`wire, this`mid, this`script, this`activeHead, this`activeTail
      ensures Pointers()
      ensures rogue || old(activeTail == NULL || hdp == NULL || !ram[activeTail].eoq) ==> EmacOk(false)
      ensures !rogue && old(activeTail != NULL && hdp != NULL && ram[activeTail].eoq) ==> Resent()
      ensures !rogue && old(activeTail == NULL || hdp == NULL || !ram[activeTail].eoq) ==>
        (StaleTail() <==> hdp != NULL && old(ram[packetTail].eoq))
      ensures !rogue && old(script) == [] ==> hdp != NULL && script == []
      ensures !rogue ==> FreeSame(g, old(ram), ram)
    {
      hide Free, Hw, PacketAt, FreeSame;
      if activeTail == NULL {
        activeHead := packetHead;
        Restart(packetHead);
        SameFree(g, ram);
      } else {
        CheckEoq(packetHead, hdp == NULL);
      }
      activeTail := packetTail;
    }

    lemma SameFree(g: Layout, ram: seq<Bd>)
      ensures |g.place| == |ram| ==> FreeSame(g, ram, ram)
    {
    }

    /** Everything before the packet joins the active list. */
    method BuildPacket(p: Chain) returns (ok: bool, packetHead: int, packetTail: int)
      requires Pointers() && EmacOk(false)
      modifies this`ram, this`hdp, this`releasing, this`wire, this`mid, this`script
      modifies this`inactiveHead, this`inactiveTail
      ensures EmacOk(false)
      ensures !rogue ==> Advanced(g, old(ram), old(View()), ram, View())
      ensures ok <==> |Frags(p)| <= |g.freed| - g.flo
      ensures !ok ==> Pointers()
      ensures ok ==> Ready(JobOf(p), packetHead, packetTail)
      ensures ok && !rogue ==> (ram[packetTail].eoq <==> old(LeftoverEoq(|Frags(p)|)))
    {
      hide Hw, FreeFrom, PacketAt, Built, Sealed, Frags, Advanced, Active, Opened, Ready;
      FragsNonempty(p);
      Interfere(false);
      SameListsKeep(old(ram), ram, g);
      ghost var ram1, v1 := ram, View();
      var curr := inactiveHead;
      packetHead, packetTail := curr, curr;
      if curr == NULL {
        return false, packetHead, packetTail;
      }
      ok, packetTail, curr := FillPacket(p, curr);
      if !rogue {
        AdvancedTrans(g, old(ram), old(View()), ram1, v1, ram, View());
      }
      if ok {
        ghost var ram2, v2 := ram, View();
        FinishPacket(JobOf(p), packetHead, packetTail, curr);
        if !rogue {
          AdvancedTrans(g, old(ram), old(View()), ram2, v2, ram, View());
          TailOfNew(g, old(ram), old(View()), ram, View(), |Frags(p)|);
        }
      }
    }

    /** Seal the packet; it is then ready to join the active list. */
    method FinishPacket(ghost job: Job, ghost packetHead: int, packetTail: int, curr: int)
      requires EmacOk(false) && 0 < |job.frags| && Built(ram, g, job, |job.frags|)
      requires !rogue ==> Opened(ram, g)
      requires packetTail == FreeAt(g, g.flo + |job.frags| - 1) && curr == FreeAt(g, g.flo + |job.frags|)
      requires inactiveTail == LastFree(g) && packetHead == FreeAt(g, g.flo)
      requires activeHead == (if g.lo < |g.sent| then Head(g, g.lo) else NULL)
      requires activeTail == (if g.lo < |g.sent| then Tail(g, |g.sent| - 1) else NULL)
      modifies this`ram, this`hdp, this`releasing, this`wire, this`mid, this`script
      modifies this`inactiveHead, this`inactiveTail
      ensures EmacOk(false) && Ready(job, packetHead, packetTail)
      ensures !rogue ==> Opened(ram, g) && Advanced(g, old(ram), old(View()), ram, View())
    {
      hide Hw, PacketAt, Sealed, Advanced, FreeFrom, Opened;
      SealPacket(job, packetTail, curr);
    }

    /** tms570_eth_send_raw: queue the chain, or drop the caller's reference to it when the
        descriptors do not suffice. */
    method SendRaw(p: Chain) returns (r: Err, ghost stale: bool)
      requires Pointers() && Covered(g) && EmacOk(false)
      modifies this`ram, this`hdp, this`releasing, this`wire, this`mid, this`script, this`refs, this`g
      modifies this`activeHead, this`activeTail, this`inactiveHead, this`inactiveTail
      ensures Pointers() && Covered(g)
      ensures r == ErrOk <==> |Frags(p)| <= old(|g.freed| - g.flo)
      ensures r == ErrIf ==> g == old(g) && refs == old(refs) - multiset{p.id} && !stale
      ensures r == ErrOk ==> Pushed(old(g), g, JobOf(p)) && refs == old(refs) && old(g.lo <= |g.sent|)
      ensures !stale ==> EmacOk(false)
      ensures stale ==> !rogue && Resent() && old(StaleTail())
      ensures !rogue && r == ErrOk && old(script) == [] ==> stale == old(StaleTail())
      ensures !rogue && !stale && StaleTail() ==>
        if r == ErrIf then old(StaleTail()) else old(LeftoverEoq(|Frags(p)|))
      ensures !rogue && r == ErrOk && old(script) == [] ==> script == []
      ensures !rogue && r == ErrOk && old(script) == [] && !stale ==>
        (StaleTail() <==> old(LeftoverEoq(|Frags(p)|)))
      ensures !rogue && r == ErrOk ==> FreeSame(g, old(ram), ram)
    {
      hide Hw, Sealed, Free, Pushed, PlaceOk;
      var ok, packetHead, packetTail := BuildPacket(p);
      if !ok {
        if !rogue {
          StaleBefore(old(ram), g, old(View()), ram, View());
        }
        refs := refs - multiset{p.id};
        return ErrIf, false;
      }
      r := ErrOk;
      stale := !rogue && StaleTail();
      if !rogue {
        StaleBefore(old(ram), g, old(View()), ram, View());
      }
      ghost var ram1, v1 := ram, View();
      LinkPacket(JobOf(p), packetHead, packetTail);
      if !rogue {
        SendKeepsEoq(old(g), g, JobOf(p), old(ram), old(View()), ram1, v1, ram);
      }
      PushCovers(old(g), g, JobOf(p));
    }

    /** tms570_eth_send: hold a reference to the chain while it is queued. */
    method Send(p: Chain) returns (r: Err, ghost stale: bool)
      requires Valid() && p.id in held
      modifies this
      ensures ListsOk() && held == old(held)
      ensures r == ErrOk <==> |Frags(p)| <= old(|g.freed| - g.flo)
      ensures r == ErrOk <==> |p.segs| + (if p.totLen < 60 then 1 else 0) <= old(|g.freed| - g.flo)
      ensures r == ErrOk ==>
        && |g.sent| == |old(g.sent)| + 1 && g.sent[..|old(g.sent)|] == old(g.sent)
        && var last := g.sent[|old(g.sent)|];
           && |last.bds| == |last.job.frags| == |p.segs| + (if p.totLen < 60 then 1 else 0)
           && (forall j {:trigger last.job.frags[j]} :: 0 <= j < |p.segs| ==> last.job.frags[j] == p.segs[j])
           && (p.totLen < 60 ==> last.job.frags[|p.segs|] == Frag(p.segs[0].ptr, 60 - p.totLen))
           && (forall j {:trigger last.bds[j]} :: 0 <= j < |last.bds| ==>
                 && last.bds[j] == old(g.freed)[old(g.flo) + j] && 0 <= last.bds[j] < |ram|
                 && ram[last.bds[j]].frag == last.job.frags[j] && ram[last.bds[j]].pbuf == last.job.id == p.id)
           && ram[last.bds[0]].pktlen == last.job.len == if p.totLen < 60 then 60 else p.totLen
      ensures r == ErrIf ==> g == old(g) && refs == old(refs) && !stale
      ensures r == ErrOk ==> Pushed(old(g), g, JobOf(p)) && refs == old(refs) + multiset{p.id}
      ensures !stale ==> Valid()
      ensures stale ==> !rogue && Resent() && old(StaleTail())
      ensures !rogue && r == ErrOk && old(script) == [] ==> stale == old(StaleTail())
      ensures !rogue && !stale && StaleTail() ==>
        if r == ErrIf then old(StaleTail()) else old(LeftoverEoq(|Frags(p)|))
      ensures !rogue && r == ErrOk && old(script) == [] ==> script == []
      ensures !rogue && r == ErrOk && old(script) == [] && !stale ==>
        (StaleTail() <==> old(LeftoverEoq(|Frags(p)|)))
      ensures !rogue && r == ErrOk ==> FreeSame(g, old(ram), ram)
    {
      hide Hw, PacketAt, Free, Covered, Pushed, Queued, StaleTail, LeftoverEoq, Resent, Frags, Pointers, EmacOk;
      RefAndFree(refs, p.id);
      refs := refs + multiset{p.id};
      r, stale := SendRaw(p);
      JobPresents(p);
      if r == ErrOk {
        NewIs(old(g), p);
        assert old(refs) == held + multiset(Queued(old(g)));
        RefsPush(old(refs), held, old(g), g, JobOf(p));
      }
    }

    lemma NewIs(g0: Layout, p: Chain)
      requires Pointers() && g0.flo + |Frags(p)| <= |g0.freed| && g0.lo <= |g0.sent| && Pushed(g0, g, JobOf(p))
      ensures |g.sent| == |g0.sent| + 1 && g.sent[..|g0.sent|] == g0.sent
      ensures var last := g.sent[|g0.sent|];
              && |last.bds| == |last.job.frags| && Presents(last.job, p)
              && (forall j {:trigger last.bds[j]} :: 0 <= j < |last.bds| ==>
                    && last.bds[j] == g0.freed[g0.flo + j] && 0 <= last.bds[j] < |ram|
                    && ram[last.bds[j]].frag == last.job.frags[j] && ram[last.bds[j]].pbuf == last.job.id)
              && 0 < |last.bds| && ram[last.bds[0]].pktlen == last.job.len
    {
      hide Frags, Free, Active, Pushed, Presents;
      FragsNonempty(p);
      PushPresents(g0, g, p);
      PushFills(ram, g0, g, JobOf(p));
    }

    // ----- Completion -------------------------------------------------------------------

    /** The inner search of the completion pass: it ends inside the packet it started in. */
    method FindEop(start: int) returns (curr: int)
      requires EmacOk(false) && Free(ram, g) && g.lo < |g.sent| && start == Head(g, g.lo)
      modifies this`ram, this`hdp, this`releasing, this`wire, this`mid, this`script
      ensures EmacOk(false) && Free(ram, g)
      ensures !rogue ==> Advanced(g, old(ram), old(View()), ram, View())
      ensures old(script) == [] ==> script == [] && ram == old(ram)
      ensures curr == Tail(g, g.lo)
    {
      hide Hw, FreeFrom;
      curr := start;
      ghost var bds := g.sent[g.lo].bds;
      ghost var j := 0;
      assert PacketAt(ram, g, g.lo);
      while !ram[curr].eop
        invariant EmacOk(false) && Free(ram, g) && PacketAt(ram, g, g.lo)
        invariant !rogue ==> Advanced(g, old(ram), old(View()), ram, View())
        invariant 0 <= j < |bds| && curr == bds[j]
        invariant old(script) == [] ==> script == [] && ram == old(ram)
        decreases |bds| - j
      {
        assert ram[bds[j]].next == bds[j + 1];
        curr := ram[curr].next;
        j := j + 1;
        ghost var before := ram;
        Interfere(false);
        SameListsKeep(before, ram, g);
        assert PacketAt(ram, g, g.lo);
      }
      assert ram[bds[j]].eop;
    }

    /** The list surgery of the completion pass. */
    method ReturnBds(startOfPacket: int, curr: int)
      requires 0 <= startOfPacket < |ram| && 0 <= curr < |ram|
      requires NULL <= inactiveTail < |ram| && inactiveTail != curr && inactiveTail != startOfPacket
      modifies this`ram, this`activeHead, this`activeTail, this`inactiveHead, this`inactiveTail
      ensures ram == Returned(old(ram), startOfPacket, curr, old(inactiveTail))
      ensures inactiveTail == curr
      ensures inactiveHead == if old(inactiveTail) == NULL then startOfPacket else old(inactiveHead)
      ensures activeHead == old(ram[curr].next)
      ensures activeTail == if activeHead == NULL then NULL else old(activeTail)
    {
      ram := ram[startOfPacket := ram[startOfPacket].(sop := false)];
      ram := ram[curr := ram[curr].(eop := false)];
      if inactiveTail == NULL {
        inactiveHead := startOfPacket;
      } else {
        ram := ram[inactiveTail := ram[inactiveTail].(next := startOfPacket)];
      }
      inactiveTail := curr;
      activeHead := ram[curr].next;
      if ram[curr].next == NULL {
        activeTail := NULL;
      }
      ram := ram[inactiveTail := ram[inactiveTail].(next := NULL)];
    }

    /** Return the first packet's descriptors to the inactive list. */
    method ReclaimBds(startOfPacket: int, curr: int)
      requires Pointers() && Covered(g) && EmacOk(false)
      requires g.lo < |g.sent| && (!rogue ==> g.lo < mid)
      requires startOfPacket == Head(g, g.lo) && curr == Tail(g, g.lo)
      modifies this`ram, this`g
      modifies this`activeHead, this`activeTail, this`inactiveHead, this`inactiveTail
      ensures Pointers() && Covered(g) && EmacOk(false) && Popped(old(g), g) && SameEoq(old(ram), ram)
      ensures 0 <= startOfPacket < |ram| && ram[startOfPacket].pbuf == g.sent[g.lo - 1].job.id
    {
      hide Covered, Free, PacketAt, Hw, Returned;
      ghost var g0 := g;
      g := Pop(g);
      ReturnReads(ram, g0);
      ReturnKeepsPackets(ram, g0, g);
      ReturnKeepsFree(ram, g0, g);
      PopCovers(g0, g);
      PopEnds(ram, g0, g);
      if !rogue {
        ReturnKeepsHw(ram, g0, g, mid, hdp, releasing, wire);
      }
      ReturnBds(startOfPacket, curr);
    }

    /** Return the first packet's descriptors and release its pbuf. */
    method Reclaim(startOfPacket: int, curr: int)
      requires Valid() && g.lo < |g.sent| && (!rogue ==> g.lo < mid)
      requires startOfPacket == Head(g, g.lo) && curr == Tail(g, g.lo)
      modifies this`ram, this`refs, this`g
      modifies this`activeHead, this`activeTail, this`inactiveHead, this`inactiveTail
      ensures Valid() && Popped(old(g), g) && SameEoq(old(ram), ram)
      ensures refs == old(refs) - multiset{g.sent[g.lo - 1].job.id}
    {
      hide Covered, Active, Queued, EmacOk, Pointers, RefsFor;
      ghost var g0 := g;
      ReclaimBds(startOfPacket, curr);
      DropPbuf(g0, ram[startOfPacket].pbuf);
    }

    /** pbuf_free for the packet that has left the active list. */
    method DropPbuf(ghost g0: Layout, id: nat)
      requires g0.lo < |g0.sent| && Popped(g0, g) && id == g0.sent[g0.lo].job.id
      requires RefsFor(g0)
      modifies this`refs
      ensures RefsOk() && refs == old(refs) - multiset{id}
    {
      RefsPop(refs, held, g0, g);
      refs := refs - multiset{id};
    }

    /** EMAC steps between two rounds of the completion loop. */
    method EmacRuns()
      requires Valid()
      modifies this`ram, this`hdp, this`releasing, this`wire, this`mid, this`script
      ensures Valid()
      ensures !rogue ==> old(mid) <= mid
      ensures !rogue && old(script) == [] ==> View() == old(View()) && SameEoq(old(ram), ram)
      ensures !rogue && StaleTail() ==> old(StaleTail())
    {
      hide Covered, RefsOk, FreeFrom, PacketAt, Stale, Hw;
      Interfere(false);
      SameListsKeep(old(ram), ram, g);
      if !rogue {
        StaleBefore(old(ram), g, old(View()), ram, View());
      }
    }

    /** One round of the completion loop, for a first packet that is not EMAC-owned. */
    method ReclaimNext()
      requires Valid() && g.lo < |g.sent| && !ram[activeHead].owner
      modifies this
      ensures Valid() && held == old(held) && Popped(old(g), g)
      ensures !rogue ==> old(mid) <= mid
      ensures !rogue && old(script) == [] ==> View() == old(View()) && SameEoq(old(ram), ram)
      ensures !rogue && StaleTail() ==> old(StaleTail())
    {
      hide Covered, Free, RefsOk, PacketAt, Popped, Stale, Hw;
      if !rogue {
        HandedBack(ram, g, mid, hdp, releasing, wire);
      }
      var curr := FindEop(activeHead);
      assert held == old(held);
      if !rogue {
        StaleBefore(old(ram), g, old(View()), ram, View());
      }
      ghost var g0, ram0 := g, ram;
      Reclaim(activeHead, curr);
      assert held == old(held);
      if !rogue {
        StalePop(ram0, g0, ram, g, hdp);
      }
      EmacRuns();
    }

    /** tms570_eth_process_irq_tx: return every packet the EMAC has handed back, in order,
        up to the first one it still owns. */
    method ProcessIrqTx()
      requires Valid()
      modifies this
      ensures Valid() && held == old(held)
      ensures g.sent == old(g.sent) && g.flo == old(g.flo)
      ensures old(g.lo) <= g.lo && g.freed == old(g.freed) + Bds(g.sent[old(g.lo)..g.lo])
      ensures !rogue ==> old(mid) <= g.lo <= mid
      ensures !rogue && old(script) == [] ==>
        g.lo == mid == old(mid) && View() == old(View()) && SameEoq(old(ram), ram)
      ensures !rogue && StaleTail() ==> old(StaleTail())
    {
      hide Covered, Free, RefsOk, Stale, PacketAt, Hw, Popped, Bds;
      EmacRuns();
      BdsNone(g.sent, g.lo);
      var curr := activeHead;
      while curr != NULL && ram[curr].sop
        invariant Valid() && held == old(held) && curr == activeHead
        invariant g.sent == old(g.sent) && g.flo == old(g.flo)
        invariant old(g.lo) <= g.lo && g.freed == old(g.freed) + Bds(g.sent[old(g.lo)..g.lo])
        invariant !rogue ==> old(mid) <= mid
        invariant !rogue && old(script) == [] ==> View() == old(View()) && SameEoq(old(ram), ram)
        invariant !rogue && StaleTail() ==> old(StaleTail())
        decreases |g.sent| - g.lo
      {
        if ram[curr].owner {
          break;
        }
        ghost var g0 := g;
        ReclaimNext();
        PopBds(g0, g, old(g.lo), old(g.freed));
        curr := activeHead;
      }
      if !rogue {
        StopsAtOwned(ram, g, mid, hdp, releasing, wire);
      }
    }

    /** Let the EMAC finish everything it owns. */
    method Drain()
      requires EmacOk(false) && !rogue
      modifies this`ram, this`hdp, this`releasing, this`wire, this`mid
      ensures EmacOk(false) && SameLists(old(ram), ram)
      ensures mid == |g.sent| && hdp == NULL && releasing == NULL
      ensures g.lo < |g.sent| ==> ram[Tail(g, |g.sent| - 1)].eoq
      ensures FreeSame(g, old(ram), ram)
    {
      hide PacketAt;
      while hdp != NULL || releasing != NULL
        invariant EmacOk(false) && SameLists(old(ram), ram) && FreeSame(g, old(ram), ram)
        decreases Unread()
      {
        if releasing != NULL {
          EmacRelease(false);
        } else {
          EmacRead(false);
        }
      }
    }

    /** Let the EMAC finish after a resend: the last frame is on the wire twice. */
    method DrainResent()
      requires !rogue && Active(ram, g) && Resent()
      modifies this`ram, this`hdp, this`releasing, this`wire, this`mid
      ensures hdp == NULL && releasing == NULL && SameLists(old(ram), ram)
      ensures |g.sent| > 0 && wire == Frames(g.sent) + [g.sent[|g.sent| - 1].job.frags]
    {
      hide PacketAt, Hw, Frames;
      HandBackLast();
      AllOnWire(ram, g, mid, wire);
      LastEnds(ram, g);
      Read(|g.sent| - 1);
      Release();
    }

    /** The packet that the EMAC had read before the resend is handed back first. */
    method HandBackLast()
      requires !rogue && Active(ram, g) && Resent()
      modifies this`ram, this`releasing, this`mid
      ensures Active(ram, g) && Hw(ram, g, mid, NULL, NULL, wire, false) && releasing == NULL
      ensures SameLists(old(ram), ram) && g.lo < |g.sent|
    {
      hide PacketAt, Hw;
      if releasing != NULL {
        ReleaseKeeps(ram, g, mid, NULL, releasing, wire, false);
        Release();
        mid := mid + 1;
      }
    }

    // ----- Whole runs -------------------------------------------------------------------

    /** Look ahead on the inactive list: would a packet of n descriptors end in one that
        still has EOQ? */
    method PeekEoq(n: nat) returns (leftover: bool)
      requires Pointers() && 0 < n
      ensures leftover == LeftoverEoq(n)
    {
      var b, i := inactiveHead, 1;
      while b != NULL && i < n
        invariant 1 <= i <= n
        invariant b == FreeAt(g, g.flo + i - 1)
        decreases n - i
      {
        assert ram[g.freed[g.flo + i - 1]].next == FreeAt(g, g.flo + i);
        b := ram[b].next;
        i := i + 1;
      }
      leftover := n > 1 && b != NULL && ram[b].eoq;
    }

    /** Reference traffic of the stack. */
    method StackRef(id: nat)
      requires Valid()
      modifies this`refs, this`held
      ensures Valid() && held == old(held) + multiset{id}
    {
      hide Covered, Pointers, EmacOk, Queued;
      RefBoth(refs, held, multiset(Queued(g)), id);
      refs := refs + multiset{id};
      held := held + multiset{id};
    }

    method StackFree(id: nat)
      requires Valid() && id in held
      modifies this`refs, this`held
      ensures Valid() && held == old(held) - multiset{id}
    {
      hide Covered, Pointers, EmacOk, Queued;
      RefBoth(refs, held, multiset(Queued(g)), id);
      refs := refs - multiset{id};
      held := held - multiset{id};
    }

    /** How many descriptors are on the inactive list. */
    ghost function Idle(): int
      reads this`g
    {
      |g.freed| - g.flo
    }

    /** One operation of a run and its answer; stuck if it would queue a packet ending in a left-over
        EOQ. */
    method Do(op: Op) returns (stuck: bool, r: Err)
      requires Valid() && !rogue && !StaleTail()
      requires op.SendOp? ==> op.p.id in held
      requires op.FreeOp? ==> op.id in held
      modifies this
      ensures Valid() && !StaleTail()
      ensures stuck ==> op.SendOp? && LeftoverEoq(|Frags(op.p)|) && g == old(g)
      ensures !stuck ==> Answered(op, r, old(Idle()), Idle())
      ensures Jobs(g.sent) == old(Jobs(g.sent)) + (if stuck then [] else Queues(op, r))
      ensures stuck ==> g.sent == old(g.sent)
      ensures !stuck ==> Grown(op, r, old(g.sent), g.sent)
      ensures !stuck ==> held == match op
                                 case RefOp(id) => old(held) + multiset{id}
                                 case FreeOp(id) => old(held) - multiset{id}
                                 case _ => old(held)
    {
      hide Covered, Active, Free, RefsOk, Stale, Pushed, Bds, LeftoverEoq, Hw, Frags, Jobs, FreeSame, Presents;
      stuck, r := false, ErrOk;
      match op
      case SendOp(p) =>
        FragsNonempty(p);
        stuck := PeekEoq(|Frags(p)|);
        if !stuck {
          ghost var g0 := g;
          ghost var stale;
          r, stale := Send(p);
          if r == ErrOk {
            JobsPush(g0, g, JobOf(p));
            PushPresents(g0, g, p);
          }
        }
      case CompleteOp => ProcessIrqTx();
      case RefOp(id) => StackRef(id);
      case FreeOp(id) => StackFree(id);
    }

    /** Any run of sends, completion passes and reference traffic, with the EMAC
        interleaved as the script says, until it ends or a packet of several descriptors
        is about to end in one with a left-over EOQ bit. The packets queued are those of the sends
        that were answered ERR_OK, in order; a send is answered so exactly if the descriptors idle at
        that moment suffice; and whenever the EMAC has halted exactly the packets queued are on the
        wire, in that order and once each. at[i] packets had been queued before operation i: a send
        answered ERR_OK is frame at[i] of the wire, and that frame is the chain's payloads in order
        with the padding of a short one behind them. */
    method Run(ops: seq<Op>) returns (results: seq<Err>, ghost idle: seq<int>, ghost at: seq<nat>)
      requires Valid() && !rogue && !StaleTail() && Disciplined(held, ops)
      modifies this
      ensures Valid() && !StaleTail() && |results| <= |ops|
      ensures Jobs(g.sent) == old(Jobs(g.sent)) + Accepted(ops[..|results|], results)
      ensures Trace(ops[..|results|], results, idle) && idle[0] == old(Idle()) && idle[|results|] == Idle()
      ensures |at| == |results| + 1 && at[0] == |old(g.sent)| && at[|results|] == |g.sent|
      ensures forall i {:trigger ops[i]} :: 0 <= i < |results| ==>
                at[i + 1] == at[i] + if ops[i].SendOp? && results[i] == ErrOk then 1 else 0
      ensures hdp == NULL && releasing == NULL ==> wire == Frames(g.sent) && |wire| == |g.sent|
      ensures hdp == NULL && releasing == NULL ==>
        forall i {:trigger ops[i]} :: 0 <= i < |results| && ops[i].SendOp? && results[i] == ErrOk ==>
          && at[i] < |wire|
          && var p, frame := ops[i].p, wire[at[i]];
             && |frame| == |p.segs| + (if p.totLen < 60 then 1 else 0)
             && (forall j {:trigger frame[j]} :: 0 <= j < |p.segs| ==> frame[j] == p.segs[j])
             && (p.totLen < 60 ==> frame[|p.segs|] == Frag(p.segs[0].ptr, 60 - p.totLen))
      ensures |results| < |ops| ==> ops[|results|].SendOp? && LeftoverEoq(|Frags(ops[|results|].p)|)
    {
      hide ListsOk, Hw, Stale, LeftoverEoq, Frags, Jobs, Answered, Accepted, Trace, Queues, Numbered, Grown;
      results, idle, at := [], [Idle()], [|g.sent|];
      NumberedNone(ops, g.sent);
      NothingYet(ops, Idle());
      var stuck := false;
      while |results| < |ops| && !stuck
        invariant Valid() && !StaleTail() && |results| <= |ops|
        invariant Jobs(g.sent) == old(Jobs(g.sent)) + Accepted(ops[..|results|], results)
        invariant Trace(ops[..|results|], results, idle) && |idle| == |results| + 1
        invariant idle[0] == old(Idle()) && idle[|results|] == Idle()
        invariant Numbered(ops, results, at, |old(g.sent)|, g.sent)
        invariant stuck ==> |results| < |ops| && ops[|results|].SendOp? && LeftoverEoq(|Frags(ops[|results|].p)|)
        invariant !stuck ==> Disciplined(held, ops[|results|..])
        decreases |ops| - |results|, !stuck
      {
        var done := |results|;
        var r;
        ghost var sent := g.sent;
        stuck, r := Do(ops[done]);
        if !stuck {
          NumberedNext(ops, results, at, |old(g.sent)|, sent, r, g.sent);
          at := at + [|g.sent|];
          assert ops[done..][1..] == ops[done + 1..];
          TraceSnoc(ops, done, results, idle, r, Idle());
          results, idle := results + [r], idle + [Idle()];
        }
      }
      NumberedCounts(ops, results, at, |old(g.sent)|, g.sent);
      if hdp == NULL && releasing == NULL {
        AllOnWire(ram, g, mid, wire);
        NumberedFrames(ops, results, at, |old(g.sent)|, g.sent);
      }
    }
  }

  /** What an operation does to the log of queued packets. */
  ghost predicate Grown(op: Op, r: Err, sent: seq<Packet>, sent': seq<Packet>) {
    if op.SendOp? && r == ErrOk
    then |sent'| == |sent| + 1 && sent'[..|sent|] == sent && Presents(sent'[|sent|].job, op.p)
    else sent' == sent
  }

  /** at counts the packets queued before each operation, n at the start; the packet of an accepted
      send presents its chain. */
  ghost predicate Numbered(ops: seq<Op>, rs: seq<Err>, at: seq<nat>, n: nat, sent: seq<Packet>) {
    && |rs| <= |ops| && |at| == |rs| + 1 && at[0] == n && at[|rs|] == |sent|
    && (forall i {:trigger ops[i]} :: 0 <= i < |rs| ==>
          && at[i + 1] == at[i] + (if ops[i].SendOp? && rs[i] == ErrOk then 1 else 0)
          && (ops[i].SendOp? && rs[i] == ErrOk ==> at[i] < |sent| && Presents(sent[at[i]].job, ops[i].p)))
  }

  lemma NumberedNone(ops: seq<Op>, sent: seq<Packet>)
    ensures Numbered(ops, [], [|sent|], |sent|, sent)
  {
  }

  lemma NumberedNext(ops: seq<Op>, rs: seq<Err>, at: seq<nat>, n: nat, sent: seq<Packet>, r: Err, sent': seq<Packet>)
    requires Numbered(ops, rs, at, n, sent) && |rs| < |ops| && Grown(ops[|rs|], r, sent, sent')
    ensures Numbered(ops, rs + [r], at + [|sent'|], n, sent')
  {
    hide Presents;
    var rs', at' := rs + [r], at + [|sent'|];
    forall i | 0 <= i < |rs'|
      ensures at'[i + 1] == at'[i] + if ops[i].SendOp? && rs'[i] == ErrOk then 1 else 0
      ensures ops[i].SendOp? && rs'[i] == ErrOk ==> at'[i] < |sent'| && Presents(sent'[at'[i]].job, ops[i].p)
    {
      if i < |rs| {
        assert rs'[i] == rs[i] && at'[i] == at[i] && at'[i + 1] == at[i + 1];
        if ops[i].SendOp? && rs[i] == ErrOk {
          assert sent'[at[i]] == sent'[..|sent|][at[i]];
        }
      }
    }
  }

  lemma NumberedCounts(ops: seq<Op>, rs: seq<Err>, at: seq<nat>, n: nat, sent: seq<Packet>)
    requires Numbered(ops, rs, at, n, sent)
    ensures |rs| <= |ops| && |at| == |rs| + 1 && at[0] == n && at[|rs|] == |sent|
    ensures forall i {:trigger ops[i]} :: 0 <= i < |rs| ==>
              at[i + 1] == at[i] + if ops[i].SendOp? && rs[i] == ErrOk then 1 else 0
  {
  }

  lemma NumberedFrames(ops: seq<Op>, rs: seq<Err>, at: seq<nat>, n: nat, sent: seq<Packet>)
    requires Numbered(ops, rs, at, n, sent)
    ensures |rs| <= |ops| && |at| == |rs| + 1 && |Frames(sent)| == |sent|
    ensures forall i {:trigger ops[i]} :: 0 <= i < |rs| && ops[i].SendOp? && rs[i] == ErrOk ==>
              && at[i] < |sent|
              && var p, frame := ops[i].p, Frames(sent)[at[i]];
                 && |frame| == |p.segs| + (if p.totLen < 60 then 1 else 0)
                 && (forall j {:trigger frame[j]} :: 0 <= j < |p.segs| ==> frame[j] == p.segs[j])
                 && (p.totLen < 60 ==> frame[|p.segs|] == Frag(p.segs[0].ptr, 60 - p.totLen))
  {
  }

  /** The job an operation puts on the active list. */
  ghost function Queues(op: Op, r: Err): seq<Job> {
    if op.SendOp? && r == ErrOk then [JobOf(op.p)] else []
  }

  /** The jobs of the sends that were answered ERR_OK, in order. */
  ghost function Accepted(ops: seq<Op>, rs: seq<Err>): seq<Job>
    requires |rs| == |ops|
  {
    if ops == [] then [] else Accepted(ops[..|ops| - 1], rs[..|rs| - 1]) + Queues(ops[|ops| - 1], rs[|rs| - 1])
  }

  /** The answer to an operation and what it does to the number of idle descriptors. */
  ghost predicate Answered(op: Op, r: Err, idle: int, idle': int) {
    match op
    case SendOp(p) =>
      && (r == ErrOk <==> |Frags(p)| <= idle)
      && idle' == idle - if r == ErrOk then |Frags(p)| else 0
    case CompleteOp => r == ErrOk && idle <= idle'
    case _ => r == ErrOk && idle' == idle
  }

  ghost predicate Trace(ops: seq<Op>, rs: seq<Err>, idle: seq<int>) {
    && |ops| == |rs| && |idle| == |ops| + 1
    && forall i {:trigger ops[i]} :: 0 <= i < |ops| ==> Answered(ops[i], rs[i], idle[i], idle[i + 1])
  }

  lemma NothingYet(ops: seq<Op>, idle: int)
    ensures Accepted(ops[..0], []) == [] && Trace(ops[..0], [], [idle])
  {
  }

  lemma TraceSnoc(ops: seq<Op>, done: nat, rs: seq<Err>, idle: seq<int>, r: Err, idle': int)
    requires done < |ops| && |rs| == done && Trace(ops[..done], rs, idle)
    requires Answered(ops[done], r, idle[done], idle')
    ensures Trace(ops[..done + 1], rs + [r], idle + [idle'])
    ensures Accepted(ops[..done + 1], rs + [r]) == Accepted(ops[..done], rs) + Queues(ops[done], r)
  {
    hide Answered, Queues;
    TraceExtended(ops, done, rs, idle, r, idle');
    var ops', rs' := ops[..done + 1], rs + [r];
    assert ops'[..done] == ops[..done] && rs'[..done] == rs;
    assert ops'[done] == ops[done] && rs'[done] == r;
  }

  lemma TraceExtended(ops: seq<Op>, done: nat, rs: seq<Err>, idle: seq<int>, r: Err, idle': int)
    requires done < |ops| && |rs| == done && Trace(ops[..done], rs, idle)
    requires Answered(ops[done], r, idle[done], idle')
    ensures Trace(ops[..done + 1], rs + [r], idle + [idle'])
  {
    hide Answered;
    var ops', rs', all := ops[..done + 1], rs + [r], idle + [idle'];
    forall i | 0 <= i < done + 1
      ensures Answered(ops'[i], rs'[i], all[i], all[i + 1])
    {
      if i < done {
        assert ops[..done][i] == ops'[i] && all[i] == idle[i] && all[i + 1] == idle[i + 1] && rs'[i] == rs[i];
      } else {
        assert all[i] == idle[done] && all[i + 1] == idle' && rs'[i] == r && ops'[i] == ops[done];
      }
    }
  }

  /** Nothing is queued, no EMAC step is to come, and the inactive list is order. */
  ghost predicate Rested(c: TxChannel, order: seq<int>)
    reads c
  {
    && c.Valid() && !c.rogue && c.script == [] && c.g.lo == |c.g.sent|
    && c.g.flo <= |c.g.freed| && c.g.freed[c.g.flo..] == order
    && forall b :: b in order ==> 0 <= b < |c.ram|
  }

  /** Send a packet, let the EMAC transmit it and take it back: its descriptors go to the end of the
      inactive list, the last one with EOQ set, and the other free descriptors are as they were. */
  method Cycle(c: TxChannel, p: Chain, ghost order: seq<int>)
    requires Rested(c, order) && p.id in c.held && |Frags(p)| <= |order|
    modifies c
    ensures 0 < |Frags(p)| && Rested(c, order[|Frags(p)|..] + order[..|Frags(p)|]) && c.held == old(c.held)
    ensures |c.ram| == old(|c.ram|) && c.ram[order[|Frags(p)| - 1]].eoq
    ensures forall b :: b in order[|Frags(p)|..] ==> c.ram[b].eoq == old(c.ram[b].eoq)
  {
    hide Covered, Free, PacketAt, Frags, Stale, Hw, FreeSame, TxChannel.RefsOk, Bds, Pushed;
    ghost var g0, ram0 := c.g, c.ram;
    SendAlone(c, p, order);
    ghost var g1, ram1 := c.g, c.ram;
    c.Drain();
    SameListsKeep(ram1, c.ram, c.g);
    KeptFree(g1, ram0, ram1, c.ram, order[|Frags(p)|..]);
    ghost var ram2 := c.ram;
    c.ProcessIrqTx();
    CycleOrder(g0, g1, c.g, JobOf(p));
    assert forall b :: b in order[|Frags(p)|..] + order[..|Frags(p)|] ==> b in order;
  }

  /** The first step of a cycle. */
  method SendAlone(c: TxChannel, p: Chain, ghost order: seq<int>)
    requires Rested(c, order) && p.id in c.held && |Frags(p)| <= |order|
    modifies c
    ensures c.Valid() && !c.rogue && c.script == [] && c.held == old(c.held) && |c.ram| == old(|c.ram|)
    ensures 0 < |Frags(p)| && Pushed(old(c.g), c.g, JobOf(p)) && FreeSame(c.g, old(c.ram), c.ram)
    ensures c.g.lo == old(c.g.lo) < |c.g.sent| && Tail(c.g, |c.g.sent| - 1) == order[|Frags(p)| - 1]
    ensures forall b :: b in order[|Frags(p)|..] ==> 0 <= b < |c.ram| && c.g.place[b].InFree?
  {
    hide Covered, Free, PacketAt, Frags, Stale, Hw, FreeSame, TxChannel.RefsOk;
    FragsNonempty(p);
    NotStale(c);
    ghost var g0, ram0 := c.g, c.ram;
    var r, stale := c.Send(p);
    Behind(c, g0, JobOf(p), order);
    SameSize(c.g, ram0, c.ram);
  }

  lemma SameSize(g: Layout, ram: seq<Bd>, ram': seq<Bd>)
    requires FreeSame(g, ram, ram')
    ensures |ram| == |ram'|
  {
  }

  /** After the send: where the packet ends, and what is still free. */
  lemma Behind(c: TxChannel, g0: Layout, job: Job, order: seq<int>)
    requires c.Valid() && g0.flo + |job.frags| <= |g0.freed| && Pushed(g0, c.g, job) && 0 < |job.frags|
    requires g0.lo == |g0.sent| && g0.freed[g0.flo..] == order
    ensures c.g.lo < |c.g.sent| && Tail(c.g, |c.g.sent| - 1) == order[|job.frags| - 1]
    ensures forall b :: b in order[|job.frags|..] ==> 0 <= b < |c.ram| && c.g.place[b].InFree?
  {
    hide Covered, Active, Hw, FreeFrom;
    assert c.g.freed[c.g.flo..] == order[|job.frags|..];
    forall b | b in order[|job.frags|..]
      ensures 0 <= b < |c.ram| && c.g.place[b].InFree?
    {
      StillFree(c.ram, c.g, b);
    }
  }

  lemma KeptFree(g: Layout, ram0: seq<Bd>, ram1: seq<Bd>, ram2: seq<Bd>, free: seq<int>)
    requires FreeSame(g, ram0, ram1) && FreeSame(g, ram1, ram2)
    requires forall b :: b in free ==> 0 <= b < |ram0| && g.place[b].InFree?
    ensures forall b :: b in free ==> 0 <= b < |ram0| == |ram2| && ram2[b].eoq == ram0[b].eoq
  {
    forall b | b in free
      ensures ram2[b].eoq == ram0[b].eoq
    {
      assert ram1[b].eoq == ram0[b].eoq;
    }
  }

  /** The proviso about left-over EOQ bits is needed. On a fresh channel of three descriptors: a packet
      of two, a packet of one, each transmitted and completed, and the packet of two again. It is now
      queued with an EOQ bit that the EMAC did not set for it. */
  method LeftoverEoqReached(p: Chain, q: Chain) returns (c: TxChannel)
    requires |Frags(p)| == 2 && |Frags(q)| == 1
    ensures fresh(c) && c.Valid() && !c.rogue && c.StaleTail() && c.script == []
    ensures c.Idle() == 1 && q.id in c.held
  {
    hide Covered, Free, PacketAt, Hw, Pushed, Frags, FreeSame, TxChannel.RefsOk, Stale;
    c := new TxChannel(3, false, [], multiset{p.id, q.id});
    assert c.g.freed[0..] == [0, 1, 2];
    Cycle(c, p, [0, 1, 2]);
    assert [0, 1, 2][2..] + [0, 1, 2][..2] == [2, 0, 1];
    Cycle(c, q, [2, 0, 1]);
    assert [2, 0, 1][1..] + [2, 0, 1][..1] == [0, 1, 2];
    ThirdSend(c, p);
  }

  method ThirdSend(c: TxChannel, p: Chain)
    requires Rested(c, [0, 1, 2]) && |c.ram| == 3 && c.ram[1].eoq && p.id in c.held && |Frags(p)| == 2
    modifies c
    ensures c.Valid() && c.StaleTail() && c.script == [] && c.Idle() == 1 && c.held == old(c.held)
  {
    hide Covered, Free, PacketAt, Hw, Frags, FreeSame, TxChannel.RefsOk, Stale;
    assert c.g.freed[c.g.flo..][1] == 1;
    NotStale(c);
    var r, stale := c.Send(p);
  }

  lemma NotStale(c: TxChannel)
    requires c.Valid() && c.g.lo == |c.g.sent|
    ensures !c.StaleTail()
  {
  }

  /** And the next send does transmit that packet a second time: TXHDP names a packet that is already
      on the wire. */
  method ResendReached(p: Chain, q: Chain) returns (c: TxChannel)
    requires |Frags(p)| == 2 && |Frags(q)| == 1
    ensures !c.rogue && c.ListsOk() && c.hdp == NULL && |c.g.sent| > 0
    ensures c.wire == Frames(c.g.sent) + [c.g.sent[|c.g.sent| - 1].job.frags]
  {
    hide Covered, Free, PacketAt, Hw, Pushed, Frags, FreeSame, TxChannel.RefsOk, Stale;
    c := LeftoverEoqReached(p, q);
    var r, stale := c.Send(q);
    assert c.Resent();
    ghost var before := c.ram;
    c.DrainResent();
    SameListsKeep(before, c.ram, c.g);
  }
}
