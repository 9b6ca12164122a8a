/** The TMS570 EMAC transmit descriptors as values: the two descriptor lists, the packets
    queued on the active one, what the EMAC's registers say about them, and what each
    single write of the driver or the EMAC keeps. */
module Tms570TxLists {

  /** A pointer into descriptor RAM is the index of a descriptor, or NULL. */
  const NULL := -1
  const MIN_PKT_LEN := 60

  /** One contiguous piece of a frame: a buffer pointer and its length. */
  datatype Frag = Frag(ptr: int, len: nat)

  /** The head of a pbuf chain: its identity, its tot_len and the chained payloads. */
  datatype Pbuf = Pbuf(id: nat, totLen: nat, segs: seq<Frag>)
  type Chain = p: Pbuf | p.segs != [] witness Pbuf(0, 0, [Frag(0, 0)])

  /** struct emac_tx_bd, its flags word split into the four protocol bits and the length. */
  datatype Bd = Bd(next: int, frag: Frag, sop: bool, eop: bool, owner: bool, eoq: bool,
                   pktlen: nat, pbuf: nat)

  function Max(a: nat, b: nat): nat { if a < b then b else a }

  /** What the EMAC has to put on the wire for a chain: the payloads in order and, below
      the minimum frame size, a piece of the first payload as padding. */
  function Frags(p: Chain): seq<Frag> {
    p.segs + if p.totLen < MIN_PKT_LEN then [Frag(p.segs[0].ptr, MIN_PKT_LEN - p.totLen)] else []
  }

  lemma FragsNonempty(p: Chain)
    ensures 0 < |Frags(p)|
  {
  }

  /** A chain as the descriptors present it: pieces, owning pbuf, length in the SOP word. */
  datatype Job = Job(frags: seq<Frag>, id: nat, len: nat)

  function JobOf(p: Chain): Job { Job(Frags(p), p.id, Max(MIN_PKT_LEN, p.totLen)) }

  /** The job presents the chain: one piece per pbuf, piece j with the pointer and length of pbuf j,
      and below 60 bytes one more, the missing bytes taken from the start of the first payload. */
  ghost predicate Presents(job: Job, p: Chain) {
    && |job.frags| == |p.segs| + (if p.totLen < 60 then 1 else 0)
    && (forall j {:trigger job.frags[j]} :: 0 <= j < |p.segs| ==> job.frags[j] == p.segs[j])
    && (p.totLen < 60 ==> job.frags[|p.segs|] == Frag(p.segs[0].ptr, 60 - p.totLen))
    && job.id == p.id && job.len == if p.totLen < 60 then 60 else p.totLen
  }

  lemma JobPresents(p: Chain)
    ensures Presents(JobOf(p), p)
  {
  }

  // ----- The two lists ------------------------------------------------------------------

  /** An accepted packet: the descriptors it was given and what they carry. */
  datatype Packet = Packet(bds: seq<int>, job: Job)

  /** Where a descriptor is: at a position of the inactive list, or in a packet. */
  datatype Place = InFree(j: nat) | InPacket(k: nat, j: nat)

  /** sent is every packet ever accepted and sent[lo..] the ones on the active list;
      freed is every descriptor ever put on the inactive list and freed[flo..] the ones
      still there. place is the inverse of both. */
  datatype Layout = Layout(place: seq<Place>, sent: seq<Packet>, lo: nat,
                           freed: seq<int>, flo: nat)

  ghost function Head(g: Layout, k: nat): int
    requires k < |g.sent| && g.sent[k].bds != []
  { g.sent[k].bds[0] }

  ghost function Tail(g: Layout, k: nat): int
    requires k < |g.sent| && g.sent[k].bds != []
  { g.sent[k].bds[|g.sent[k].bds| - 1] }

  /** The i-th descriptor put on the inactive list, or NULL past its end. */
  ghost function FreeAt(g: Layout, i: int): int {
    if 0 <= i < |g.freed| then g.freed[i] else NULL
  }

  /** The packet is chained in order, framed by SOP on its first and EOP on its last
      descriptor only, carries its job and continues at nxt. */
  ghost predicate Chained(ram: seq<Bd>, p: Packet, nxt: int) {
    && 0 < |p.bds| == |p.job.frags|
    && (forall j {:trigger p.bds[j]} :: 0 <= j < |p.bds| ==> 0 <= p.bds[j] < |ram|)
    && (forall j {:trigger ram[p.bds[j]]} :: 0 <= j < |p.bds| ==>
          && ram[p.bds[j]].sop == (j == 0)
          && ram[p.bds[j]].eop == (j + 1 == |p.bds|)
          && ram[p.bds[j]].next == (if j + 1 < |p.bds| then p.bds[j + 1] else nxt)
          && ram[p.bds[j]].frag == p.job.frags[j]
          && ram[p.bds[j]].pbuf == p.job.id)
    && ram[p.bds[0]].pktlen == p.job.len
  }

  ghost predicate Placed(place: seq<Place>, p: Packet, k: nat) {
    forall j {:trigger p.bds[j]} :: 0 <= j < |p.bds| ==>
      0 <= p.bds[j] < |place| && place[p.bds[j]] == InPacket(k, j)
  }

  ghost function NextHead(g: Layout, k: nat): int
    requires k < |g.sent|
  {
    if k + 1 < |g.sent| && g.sent[k + 1].bds != [] then g.sent[k + 1].bds[0] else NULL
  }

  ghost predicate PacketAt(ram: seq<Bd>, g: Layout, k: nat)
    requires k < |g.sent|
  {
    Chained(ram, g.sent[k], NextHead(g, k)) && Placed(g.place, g.sent[k], k)
  }

  ghost predicate Active(ram: seq<Bd>, g: Layout) {
    && |g.place| == |ram|
    && g.lo <= |g.sent|
    && (forall k {:trigger g.sent[k]} :: g.lo <= k < |g.sent| ==>
          var bds := g.sent[k].bds;
          0 < |bds| && 0 <= bds[0] < |ram| && 0 <= bds[|bds| - 1] < |ram|)
    && (forall k {:trigger PacketAt(ram, g, k)} :: g.lo <= k < |g.sent| ==> PacketAt(ram, g, k))
  }

  ghost predicate FreePlaced(g: Layout) {
    && g.flo <= |g.freed|
    && forall i {:trigger g.freed[i]} :: g.flo <= i < |g.freed| ==>
         0 <= g.freed[i] < |g.place| && g.place[g.freed[i]] == InFree(i)
  }

  /** The free descriptors from position f on are chained in order and carry no frame
      marks, except that the very first may carry SOP. */
  ghost predicate FreeFrom(ram: seq<Bd>, g: Layout, f: nat)
    requires |g.place| == |ram| && FreePlaced(g) && g.flo <= f
  {
    forall i {:trigger ram[g.freed[i]]} :: f <= i < |g.freed| ==>
      && ram[g.freed[i]].next == FreeAt(g, i + 1)
      && !ram[g.freed[i]].eop
      && (g.flo < i ==> !ram[g.freed[i]].sop)
  }

  ghost predicate Free(ram: seq<Bd>, g: Layout) {
    |g.place| == |ram| && FreePlaced(g) && FreeFrom(ram, g, g.flo)
  }

  /** Every descriptor is where place says it is. */
  ghost predicate Covered(g: Layout) {
    forall b {:trigger g.place[b]} :: 0 <= b < |g.place| ==> PlaceOk(g, g.place[b], b)
  }

  ghost predicate PlaceOk(g: Layout, pl: Place, b: int) {
    match pl
    case InFree(j) => g.flo <= j < |g.freed| && g.freed[j] == b
    case InPacket(k, j) => g.lo <= k < |g.sent| && j < |g.sent[k].bds| && g.sent[k].bds[j] == b
  }

  ghost function Ids(ps: seq<Packet>): seq<nat> {
    if ps == [] then [] else [ps[0].job.id] + Ids(ps[1..])
  }

  /** The pbufs of the packets on the active list. */
  ghost function Queued(g: Layout): seq<nat> {
    if g.lo <= |g.sent| then Ids(g.sent[g.lo..]) else []
  }

  /** One pbuf per packet on the active list, in its order. */
  lemma {:induction false} IdsAt(ps: seq<Packet>, i: nat)
    ensures |Ids(ps)| == |ps|
    ensures i < |ps| ==> Ids(ps)[i] == ps[i].job.id
  {
    if ps != [] {
      IdsAt(ps[1..], if i == 0 then 0 else i - 1);
    }
  }

  lemma QueuedAt(g: Layout)
    requires g.lo <= |g.sent|
    ensures |Queued(g)| == |g.sent| - g.lo
    ensures forall i {:trigger Queued(g)[i]} :: 0 <= i < |g.sent| - g.lo ==> Queued(g)[i] == g.sent[g.lo + i].job.id
  {
    IdsAt(g.sent[g.lo..], 0);
    forall i | 0 <= i < |g.sent| - g.lo
      ensures Queued(g)[i] == g.sent[g.lo + i].job.id
    {
      IdsAt(g.sent[g.lo..], i);
    }
  }

  // ----- The EMAC -----------------------------------------------------------------------

  /** The number of packets the EMAC has finished reading: those it has handed back and
      the one whose ownership it is about to hand back. */
  function Cur(mid: nat, releasing: int): nat { if releasing == NULL then mid else mid + 1 }

  /** The EMAC's registers against the queue: it owns exactly the packets from mid on, its
      head pointer names the first packet it has not read, it has set EOQ on the last
      packet if it has read them all, and the wire carries the packets read, in order.
      restart: a packet has been linked behind a halted EMAC and waits for the
      head-pointer write. */
  ghost predicate Hw(ram: seq<Bd>, g: Layout, mid: nat, hdp: int, releasing: int,
                     wire: seq<seq<Frag>>, restart: bool)
    requires Active(ram, g)
  {
    var cur := Cur(mid, releasing);
    var n := |g.sent|;
    && g.lo <= mid && cur <= n
    && (releasing != NULL ==> releasing == Head(g, mid))
    && (forall k {:trigger g.sent[k]} {:trigger Head(g, k)} :: g.lo <= k < n ==> (ram[Head(g, k)].owner <==> mid <= k))
    && hdp == (if cur < n && !restart then Head(g, cur) else NULL)
    && (restart ==> cur + 1 == n)
    && (cur == n && g.lo < n ==> ram[Tail(g, n - 1)].eoq)
    && |wire| == cur
    && (forall i {:trigger wire[i]} :: 0 <= i < cur ==> wire[i] == g.sent[i].job.frags)
  }

  /** What any EMAC may do to descriptor RAM: write OWNER and EOQ bits. */
  ghost predicate SameLists(ram: seq<Bd>, ram': seq<Bd>) {
    && |ram| == |ram'|
    && forall b :: 0 <= b < |ram| ==>
         ram'[b] == ram[b].(owner := ram'[b].owner, eoq := ram'[b].eoq)
  }

  /** A well-behaved EMAC leaves alone every descriptor outside the active list and sets
      EOQ only where the next pointer is NULL. */
  ghost predicate EmacFrame(ram: seq<Bd>, ram': seq<Bd>, g: Layout) {
    && SameLists(ram, ram')
    && |g.place| == |ram|
    && (forall b :: 0 <= b < |ram| && (g.place[b].InFree? || g.place[b].k < g.lo) ==> ram'[b] == ram[b])
    && (forall b :: 0 <= b < |ram| && ram[b].next != NULL ==> ram'[b].eoq == ram[b].eoq)
  }

  ghost predicate SameEoq(ram: seq<Bd>, ram': seq<Bd>) {
    |ram| == |ram'| && forall b :: 0 <= b < |ram| ==> ram'[b].eoq == ram[b].eoq
  }

  /** The EOQ bits of the free descriptors are the same. */
  ghost predicate FreeSame(g: Layout, ram: seq<Bd>, ram': seq<Bd>) {
    && |ram| == |ram'| == |g.place|
    && forall b {:trigger ram'[b]} :: 0 <= b < |ram| && g.place[b].InFree? ==> ram'[b].eoq == ram[b].eoq
  }

  /** The EMAC's side of the channel and the interleaving still to come. */
  datatype EmacView = EmacView(hdp: int, releasing: int, mid: nat, wire: seq<seq<Frag>>, script: seq<nat>)

  /** What EMAC steps and the filling of free descriptors may have done: packets are only
      ever finished, a halted EMAC stays halted, no EOQ bit appears on a queued packet
      unless the EMAC halts, and with nothing left in the script the EMAC is silent. */
  ghost predicate Advanced(g: Layout, ram: seq<Bd>, v: EmacView, ram': seq<Bd>, v': EmacView) {
    && |g.place| == |ram| == |ram'|
    && v.mid <= v'.mid
    && (v.hdp == NULL ==> v'.hdp == NULL)
    && (v.hdp == NULL || v'.hdp != NULL ==> forall b {:trigger ram'[b]} :: 0 <= b < |ram| && g.place[b].InPacket? ==>
          ram'[b].eoq == ram[b].eoq)
    && (forall b {:trigger ram'[b]} :: 0 <= b < |ram| && g.place[b].InFree? && b != FreeAt(g, g.flo) ==>
          ram'[b].eoq == ram[b].eoq)
    && (v.script == [] ==> v' == v)
  }

  lemma AdvancedTrans(g: Layout, ram: seq<Bd>, v: EmacView, ram1: seq<Bd>, v1: EmacView, ram': seq<Bd>, v': EmacView)
    requires Advanced(g, ram, v, ram1, v1) && Advanced(g, ram1, v1, ram', v')
    ensures Advanced(g, ram, v, ram', v')
  {
    forall b | 0 <= b < |ram| && g.place[b].InPacket? && (v.hdp == NULL || v'.hdp != NULL)
      ensures ram'[b].eoq == ram[b].eoq
    {
      assert ram1[b].eoq == ram[b].eoq;
    }
    forall b | 0 <= b < |ram| && g.place[b].InFree? && b != FreeAt(g, g.flo)
      ensures ram'[b].eoq == ram[b].eoq
    {
      assert ram1[b].eoq == ram[b].eoq;
    }
  }

  /** The first free descriptor opens a packet: owned by the EMAC, EOQ clear. */
  ghost predicate Opened(ram: seq<Bd>, g: Layout) {
    var b := FreeAt(g, g.flo);
    0 <= b < |ram| && ram[b].owner && !ram[b].eoq
  }

  /** All descriptors but b are unchanged. */
  ghost predicate Except(ram: seq<Bd>, ram': seq<Bd>, b: int) {
    0 <= b < |ram| == |ram'| && forall c :: 0 <= c < |ram| && c != b ==> ram'[c] == ram[c]
  }

  lemma SameListsKeep(ram: seq<Bd>, ram': seq<Bd>, g: Layout)
    requires SameLists(ram, ram')
    ensures Active(ram, g) ==> Active(ram', g)
    ensures Free(ram, g) ==> Free(ram', g)
  {
    if Active(ram, g) {
      forall k | g.lo <= k < |g.sent|
        ensures PacketAt(ram', g, k)
      {
        assert PacketAt(ram, g, k);
      }
    }
  }

  lemma ReleaseKeeps(ram: seq<Bd>, g: Layout, mid: nat, hdp: int, releasing: int,
                     wire: seq<seq<Frag>>, restart: bool)
    requires Active(ram, g) && Hw(ram, g, mid, hdp, releasing, wire, restart)
    requires releasing != NULL
    ensures 0 <= releasing < |ram|
    ensures var ram' := ram[releasing := ram[releasing].(owner := false)];
            Active(ram', g) && EmacFrame(ram, ram', g) && Hw(ram', g, mid + 1, hdp, NULL, wire, restart)
  {
    assert PacketAt(ram, g, mid);
    var ram' := ram[releasing := ram[releasing].(owner := false)];
    SameListsKeep(ram, ram', g);
    forall k | g.lo <= k < |g.sent|
      ensures ram'[Head(g, k)].owner <==> mid + 1 <= k
    {
      assert PacketAt(ram, g, k);
      assert g.place[g.sent[k].bds[0]] == InPacket(k, 0);
    }
  }

  /** RAM after the EMAC's end-of-queue decision on descriptor b. */
  function Decided(ram: seq<Bd>, b: int): seq<Bd>
    requires 0 <= b < |ram|
  {
    if ram[b].next == NULL then ram[b := ram[b].(eoq := true)] else ram
  }

  lemma ReadKeeps(ram: seq<Bd>, g: Layout, mid: nat, hdp: int, wire: seq<seq<Frag>>, restart: bool)
    requires Active(ram, g) && Hw(ram, g, mid, hdp, NULL, wire, restart)
    requires hdp != NULL
    ensures mid < |g.sent| && 0 <= Tail(g, mid) < |ram|
    ensures Active(Decided(ram, Tail(g, mid)), g) && EmacFrame(ram, Decided(ram, Tail(g, mid)), g)
    ensures Hw(Decided(ram, Tail(g, mid)), g, mid, ram[Tail(g, mid)].next, hdp,
               wire + [g.sent[mid].job.frags], restart)
  {
    assert PacketAt(ram, g, mid);
    var b := Tail(g, mid);
    var ram' := Decided(ram, b);
    assert ram[b].next == NextHead(g, mid);
    SameListsKeep(ram, ram', g);
    forall k | g.lo <= k < |g.sent|
      ensures ram'[Head(g, k)].owner == ram[Head(g, k)].owner
    {
    }
    if mid + 1 < |g.sent| {
      assert ram[b].next == Head(g, mid + 1);
    } else {
      assert ram'[Tail(g, |g.sent| - 1)].eoq;
    }
  }

  lemma FreeTouchKeeps(ram: seq<Bd>, ram': seq<Bd>, g: Layout, b: int)
    requires Active(ram, g) && Except(ram, ram', b) && g.place[b].InFree?
    ensures Active(ram', g)
  {
    forall k | g.lo <= k < |g.sent|
      ensures PacketAt(ram', g, k)
    {
      assert PacketAt(ram, g, k);
    }
  }

  lemma FreeTouchKeepsHw(ram: seq<Bd>, ram': seq<Bd>, g: Layout, b: int, mid: nat, hdp: int,
                         releasing: int, wire: seq<seq<Frag>>, restart: bool)
    requires Active(ram, g) && Except(ram, ram', b) && g.place[b].InFree?
    requires Hw(ram, g, mid, hdp, releasing, wire, restart)
    ensures Active(ram', g) && Hw(ram', g, mid, hdp, releasing, wire, restart)
  {
    FreeTouchKeeps(ram, ram', g, b);
    forall k | g.lo <= k < |g.sent|
      ensures ram'[Head(g, k)] == ram[Head(g, k)] && ram'[Tail(g, k)] == ram[Tail(g, k)]
    {
      assert PacketAt(ram, g, k);
    }
  }

  /** The last queued packet carries an EOQ bit although the EMAC has not halted. */
  ghost predicate Stale(ram: seq<Bd>, g: Layout, hdp: int)
    requires Active(ram, g)
  {
    g.lo < |g.sent| && hdp != NULL && ram[Tail(g, |g.sent| - 1)].eoq
  }

  /** Such a bit seen now was there before. */
  lemma StaleBefore(ram: seq<Bd>, g: Layout, v: EmacView, ram': seq<Bd>, v': EmacView)
    requires Active(ram, g) && Active(ram', g) && Advanced(g, ram, v, ram', v')
    ensures Stale(ram', g, v'.hdp) ==> Stale(ram, g, v.hdp)
    ensures v'.hdp != NULL ==> (Stale(ram, g, v.hdp) <==> Stale(ram', g, v'.hdp))
  {
    if g.lo < |g.sent| {
      assert PacketAt(ram, g, |g.sent| - 1);
    }
  }

  lemma TailEoqKept(ram: seq<Bd>, g: Layout, v: EmacView, ram': seq<Bd>, v': EmacView)
    requires Active(ram, g) && g.lo < |g.sent| && Advanced(g, ram, v, ram', v')
    requires v.hdp == NULL || v'.hdp != NULL
    ensures ram'[Tail(g, |g.sent| - 1)].eoq == ram[Tail(g, |g.sent| - 1)].eoq
  {
    assert PacketAt(ram, g, |g.sent| - 1);
  }

  // ----- Sending ------------------------------------------------------------------------

  /** The first n free descriptors have been filled with the first n pieces. */
  ghost predicate Built(ram: seq<Bd>, g: Layout, job: Job, n: nat) {
    && Free(ram, g)
    && g.flo < |g.freed| && g.flo + n <= |g.freed| && n <= |job.frags|
    && ram[g.freed[g.flo]].sop
    && ram[g.freed[g.flo]].pktlen == job.len
    && forall i {:trigger ram[g.freed[i]]} :: g.flo <= i < g.flo + n ==>
         ram[g.freed[i]].frag == job.frags[i - g.flo] && ram[g.freed[i]].pbuf == job.id
  }

  /** The first descriptor as the driver starts a packet. */
  function Started(bd: Bd, len: nat): Bd {
    bd.(pktlen := len, sop := true, owner := true, eop := false, eoq := false)
  }

  lemma StartKeeps(ram: seq<Bd>, g: Layout, job: Job)
    requires Active(ram, g) && Free(ram, g) && g.flo < |g.freed|
    ensures var h := g.freed[g.flo];
            Built(ram[h := Started(ram[h], job.len)], g, job, 0)
  {
    assert forall i :: g.flo < i < |g.freed| ==> g.freed[i] != g.freed[g.flo];
  }

  lemma FillKeeps(ram: seq<Bd>, g: Layout, job: Job, q: nat)
    requires Active(ram, g) && Built(ram, g, job, q) && q < |job.frags| && g.flo + q < |g.freed|
    ensures var b := g.freed[g.flo + q];
            Built(ram[b := ram[b].(frag := job.frags[q], pbuf := job.id)], g, job, q + 1)
  {
    var b := g.freed[g.flo + q];
    assert forall i :: g.flo <= i < g.flo + q ==> g.freed[i] != b;
  }

  lemma BuiltKeeps(ram: seq<Bd>, ram': seq<Bd>, g: Layout, job: Job, n: nat)
    requires Built(ram, g, job, n) && SameLists(ram, ram')
    ensures Built(ram', g, job, n)
  {
    SameListsKeep(ram, ram', g);
  }

  /** The packet made of the first free descriptors. */
  ghost function NewPacket(g: Layout, job: Job): Packet
    requires g.flo + |job.frags| <= |g.freed|
  {
    Packet(g.freed[g.flo..g.flo + |job.frags|], job)
  }

  /** The first free descriptors are a complete packet, cut off from the rest. */
  ghost predicate Sealed(ram: seq<Bd>, g: Layout, job: Job) {
    && |g.place| == |ram| && FreePlaced(g)
    && g.flo + |job.frags| <= |g.freed|
    && Chained(ram, NewPacket(g, job), NULL)
    && FreeFrom(ram, g, g.flo + |job.frags|)
  }

  lemma SealedKeeps(ram: seq<Bd>, ram': seq<Bd>, g: Layout, job: Job)
    requires Sealed(ram, g, job) && SameLists(ram, ram')
    ensures Sealed(ram', g, job)
  {
  }

  lemma SealKeeps(ram: seq<Bd>, g: Layout, job: Job)
    requires 0 < |job.frags| && Built(ram, g, job, |job.frags|)
    ensures var t := g.freed[g.flo + |job.frags| - 1];
            Sealed(ram[t := ram[t].(next := NULL, eop := true)], g, job)
  {
    var t := g.freed[g.flo + |job.frags| - 1];
    var ram' := ram[t := ram[t].(next := NULL, eop := true)];
    SealKeepsRest(ram, g, g.flo + |job.frags|);
    hide FreeFrom, Chained, SealedBd;
    var p := NewPacket(g, job);
    forall j: nat | j < |p.bds|
      ensures SealedBd(ram', p, j)
    {
      SealKeepsBd(ram, g, job, j);
    }
    ChainedFromBds(ram', p);
  }

  lemma ChainedFromBds(ram: seq<Bd>, p: Packet)
    requires 0 < |p.bds| == |p.job.frags|
    requires forall j: nat :: j < |p.bds| ==> SealedBd(ram, p, j)
    ensures Chained(ram, p, NULL)
  {
    assert SealedBd(ram, p, 0);
    forall j | 0 <= j < |p.bds|
      ensures 0 <= p.bds[j] < |ram|
    {
      assert SealedBd(ram, p, j);
    }
    forall j | 0 <= j < |p.bds|
      ensures ram[p.bds[j]].sop == (j == 0) && ram[p.bds[j]].eop == (j + 1 == |p.bds|)
      ensures ram[p.bds[j]].next == if j + 1 < |p.bds| then p.bds[j + 1] else NULL
      ensures ram[p.bds[j]].frag == p.job.frags[j] && ram[p.bds[j]].pbuf == p.job.id
    {
      assert SealedBd(ram, p, j);
    }
  }

  /** Descriptor j of packet p as the packet is finished. */
  ghost predicate SealedBd(ram: seq<Bd>, p: Packet, j: nat)
    requires j < |p.bds| == |p.job.frags|
  {
    var b := p.bds[j];
    && 0 <= b < |ram|
    && ram[b].sop == (j == 0) && ram[b].eop == (j + 1 == |p.bds|)
    && ram[b].next == (if j + 1 < |p.bds| then p.bds[j + 1] else NULL)
    && ram[b].frag == p.job.frags[j] && ram[b].pbuf == p.job.id
    && (j == 0 ==> ram[b].pktlen == p.job.len)
  }

  lemma SealKeepsBd(ram: seq<Bd>, g: Layout, job: Job, j: nat)
    requires j < |job.frags| && Built(ram, g, job, |job.frags|)
    ensures var t := g.freed[g.flo + |job.frags| - 1];
            SealedBd(ram[t := ram[t].(next := NULL, eop := true)], NewPacket(g, job), j)
  {
    var b := g.freed[g.flo + j];
    assert g.place[b] == InFree(g.flo + j);
    assert ram[b].next == FreeAt(g, g.flo + j + 1);
  }

  lemma SealKeepsRest(ram: seq<Bd>, g: Layout, f: nat)
    requires Free(ram, g) && g.flo < f <= |g.freed|
    ensures var t := g.freed[f - 1];
            FreeFrom(ram[t := ram[t].(next := NULL, eop := true)], g, f)
  {
    assert forall i :: f <= i < |g.freed| ==> g.freed[i] != g.freed[f - 1];
  }

  /** g' is g with the first free descriptors turned into a packet. */
  ghost predicate Pushed(g: Layout, g': Layout, job: Job)
    requires g.flo + |job.frags| <= |g.freed|
  {
    && g'.sent == g.sent + [NewPacket(g, job)]
    && g'.lo == g.lo && g'.freed == g.freed && g'.flo == g.flo + |job.frags|
    && |g'.place| == |g.place|
    && forall b {:trigger g'.place[b]} :: 0 <= b < |g.place| ==>
         g'.place[b] == if g.place[b].InFree? && g.place[b].j < g'.flo
                        then InPacket(|g.sent|, Max(g.flo, g.place[b].j) - g.flo) else g.place[b]
  }

  ghost function Push(g: Layout, job: Job): (g': Layout)
    requires g.flo + |job.frags| <= |g.freed|
    ensures Pushed(g, g', job)
  {
    var place := seq(|g.place|, b requires 0 <= b < |g.place| =>
      if g.place[b].InFree? && g.place[b].j < g.flo + |job.frags|
      then InPacket(|g.sent|, Max(g.flo, g.place[b].j) - g.flo) else g.place[b]);
    Layout(place, g.sent + [NewPacket(g, job)], g.lo, g.freed, g.flo + |job.frags|)
  }

  /** RAM after the packet at head has been linked behind the active list. */
  ghost function Linked(ram: seq<Bd>, g: Layout, head: int): seq<Bd>
    requires Active(ram, g)
  {
    if g.lo == |g.sent| then ram
    else var t := Tail(g, |g.sent| - 1); ram[t := ram[t].(next := head)]
  }

  /** A packet after the link field of t was written, t being its last descriptor if it has t at all. */
  lemma LinkedChained(ram: seq<Bd>, ram': seq<Bd>, place: seq<Place>, p: Packet, k: nat, nxt: int, nxt': int, t: int)
    requires Chained(ram, p, nxt) && Placed(place, p, k) && 0 <= t < |ram| == |ram'| == |place|
    requires ram' == ram[t := ram[t].(next := nxt')] || (nxt' == nxt && Except(ram, ram', t))
    requires ram'[t] == ram[t].(next := ram'[t].next)
    requires if t in p.bds then t == p.bds[|p.bds| - 1] && ram'[t].next == nxt' else nxt' == nxt
    ensures Chained(ram', p, nxt')
  {
    forall j | 0 <= j < |p.bds|
      ensures 0 <= p.bds[j] < |ram'| && (j + 1 < |p.bds| ==> p.bds[j] != p.bds[|p.bds| - 1])
    {
      assert place[p.bds[j]] == InPacket(k, j);
      assert place[p.bds[|p.bds| - 1]] == InPacket(k, |p.bds| - 1);
    }
  }

  lemma LinkedPlaced(g: Layout, g': Layout, job: Job, k: nat)
    requires k < |g.sent| && g.flo + |job.frags| <= |g.freed| && Pushed(g, g', job) && Placed(g.place, g.sent[k], k)
    ensures Placed(g'.place, g'.sent[k], k)
  {
  }

  lemma OldPacketOk(ram: seq<Bd>, g: Layout, g': Layout, job: Job, k: nat)
    requires Active(ram, g) && Sealed(ram, g, job) && Pushed(g, g', job)
    requires g.lo <= k < |g.sent|
    ensures PacketAt(Linked(ram, g, g.freed[g.flo]), g', k)
  {
    assert PacketAt(ram, g, k) && PacketAt(ram, g, |g.sent| - 1);
    assert g'.sent[k] == g.sent[k];
    assert k + 1 < |g.sent| ==> g'.sent[k + 1] == g.sent[k + 1];
    assert k + 1 == |g.sent| ==> NextHead(g', k) == g.freed[g.flo];
    var t := Tail(g, |g.sent| - 1);
    assert g.place[t].InPacket? && g.place[t].k == |g.sent| - 1;
    hide Active, Sealed;
    LinkedChained(ram, Linked(ram, g, g.freed[g.flo]), g.place, g.sent[k], k, NextHead(g, k), NextHead(g', k), t);
    LinkedPlaced(g, g', job, k);
  }

  lemma NewPacketOk(ram: seq<Bd>, g: Layout, g': Layout, job: Job)
    requires Active(ram, g) && Sealed(ram, g, job) && Pushed(g, g', job)
    ensures PacketAt(Linked(ram, g, g.freed[g.flo]), g', |g.sent|)
  {
    if g.lo < |g.sent| {
      assert PacketAt(ram, g, |g.sent| - 1);
      assert g.place[Tail(g, |g.sent| - 1)].InPacket?;
    }
    var p := NewPacket(g, job);
    assert g'.sent[|g.sent|] == p;
    forall j | 0 <= j < |p.bds|
      ensures g.place[p.bds[j]] == InFree(g.flo + j)
    {
      assert p.bds[j] == g.freed[g.flo + j];
    }
  }

  lemma LinkKeeps(ram: seq<Bd>, g: Layout, g': Layout, job: Job)
    requires Active(ram, g) && Sealed(ram, g, job) && Pushed(g, g', job)
    ensures Active(Linked(ram, g, g.freed[g.flo]), g')
    ensures Free(Linked(ram, g, g.freed[g.flo]), g')
  {
    var ram' := Linked(ram, g, g.freed[g.flo]);
    forall k | g'.lo <= k < |g'.sent|
      ensures PacketAt(ram', g', k)
    {
      if k < |g.sent| { OldPacketOk(ram, g, g', job, k); } else { NewPacketOk(ram, g, g', job); }
    }
    LinkKeepsFree(ram, g, g', job);
  }

  lemma LinkKeepsFree(ram: seq<Bd>, g: Layout, g': Layout, job: Job)
    requires Active(ram, g) && Sealed(ram, g, job) && Pushed(g, g', job)
    ensures Free(Linked(ram, g, g.freed[g.flo]), g')
  {
    if g.lo < |g.sent| {
      assert PacketAt(ram, g, |g.sent| - 1);
      assert g.place[Tail(g, |g.sent| - 1)].InPacket?;
    }
  }

  lemma PushCovers(g: Layout, g': Layout, job: Job)
    requires Covered(g) && g.lo <= |g.sent| && g.flo + |job.frags| <= |g.freed| && Pushed(g, g', job)
    ensures Covered(g')
  {
    forall b | 0 <= b < |g'.place|
      ensures PlaceOk(g', g'.place[b], b)
    {
      assert PlaceOk(g, g.place[b], b);
      match g.place[b]
      case InFree(j) =>
        if j < g'.flo { assert NewPacket(g, job).bds[j - g.flo] == b; }
      case InPacket(k, j) => assert g'.sent[k] == g.sent[k];
    }
  }

  lemma PushEnds(g: Layout, g': Layout, job: Job)
    requires g.lo <= |g.sent| && g.flo + |job.frags| <= |g.freed| && 0 < |job.frags| && Pushed(g, g', job)
    ensures g'.sent[|g.sent|].bds != []
    ensures Head(g', |g.sent|) == FreeAt(g, g.flo) && Tail(g', |g.sent|) == FreeAt(g, g.flo + |job.frags| - 1)
    ensures g.lo < |g.sent| ==> g'.sent[g.lo] == g.sent[g.lo]
    ensures FreeAt(g', g'.flo) == FreeAt(g, g.flo + |job.frags|)
    ensures LastFree(g') == if g.flo + |job.frags| < |g.freed| then LastFree(g) else NULL
  {
  }

  lemma PushQueues(g: Layout, g': Layout, job: Job)
    requires g.lo <= |g.sent| && g.flo + |job.frags| <= |g.freed| && Pushed(g, g', job)
    ensures Queued(g') == Queued(g) + [job.id]
  {
    assert g'.sent[g'.lo..] == g.sent[g.lo..] + [NewPacket(g, job)];
    IdsSnoc(g.sent[g.lo..], NewPacket(g, job));
  }

  lemma LinkKeepsHw(ram: seq<Bd>, g: Layout, g': Layout, job: Job, mid: nat, hdp: int,
                    releasing: int, wire: seq<seq<Frag>>)
    requires Active(ram, g) && Sealed(ram, g, job) && Pushed(g, g', job)
    requires Opened(ram, g)
    requires Hw(ram, g, mid, hdp, releasing, wire, false)
    ensures Active(Linked(ram, g, g.freed[g.flo]), g')
    ensures Hw(Linked(ram, g, g.freed[g.flo]), g', mid, hdp, releasing, wire, hdp == NULL)
  {
    LinkKeeps(ram, g, g', job);
    var ram' := Linked(ram, g, g.freed[g.flo]);
    forall k | g'.lo <= k < |g'.sent|
      ensures ram'[Head(g', k)].owner <==> mid <= k
    {
      if k < |g.sent| {
        assert g'.sent[k] == g.sent[k];
      } else {
        assert Head(g', k) == g.freed[g.flo];
      }
    }
  }

  /** Writing the head pointer completes the restart. */
  lemma RestartHw(ram: seq<Bd>, g: Layout, mid: nat, releasing: int, wire: seq<seq<Frag>>)
    requires Active(ram, g) && Hw(ram, g, mid, NULL, releasing, wire, true)
    ensures Hw(ram, g, mid, Head(g, |g.sent| - 1), releasing, wire, false)
  {
  }

  // ----- Completion ---------------------------------------------------------------------

  /** g' is g with the first packet's descriptors returned to the inactive list. */
  ghost predicate Popped(g: Layout, g': Layout)
    requires g.lo < |g.sent|
  {
    && g'.sent == g.sent && g'.lo == g.lo + 1
    && g'.freed == g.freed + g.sent[g.lo].bds && g'.flo == g.flo
    && |g'.place| == |g.place|
    && forall b {:trigger g'.place[b]} :: 0 <= b < |g.place| ==>
         g'.place[b] == if g.place[b].InPacket? && g.place[b].k == g.lo
                        then InFree(|g.freed| + g.place[b].j) else g.place[b]
  }

  ghost function Pop(g: Layout): (g': Layout)
    requires g.lo < |g.sent|
    ensures Popped(g, g')
  {
    var place := seq(|g.place|, b requires 0 <= b < |g.place| =>
      if g.place[b].InPacket? && g.place[b].k == g.lo
      then InFree(|g.freed| + g.place[b].j) else g.place[b]);
    Layout(place, g.sent, g.lo + 1, g.freed + g.sent[g.lo].bds, g.flo)
  }

  /** RAM after the completion pass has unmarked the first packet and appended its
      descriptors to the inactive list. */
  function Returned(ram: seq<Bd>, h: int, t: int, lastFree: int): seq<Bd>
    requires 0 <= h < |ram| && 0 <= t < |ram| && NULL <= lastFree < |ram|
  {
    var ram1 := ram[h := ram[h].(sop := false)];
    var ram2 := ram1[t := ram1[t].(eop := false)];
    var ram3 := if lastFree == NULL then ram2 else ram2[lastFree := ram2[lastFree].(next := h)];
    ram3[t := ram3[t].(next := NULL)]
  }

  ghost function LastFree(g: Layout): int {
    if g.flo < |g.freed| then g.freed[|g.freed| - 1] else NULL
  }

  /** Returned at each descriptor. */
  lemma ReturnedAt(ram: seq<Bd>, h: int, t: int, lastFree: int, b: int)
    requires 0 <= h < |ram| && 0 <= t < |ram| && NULL <= lastFree < |ram| && lastFree != t
    requires 0 <= b < |ram|
    ensures var bd := Returned(ram, h, t, lastFree)[b];
            && bd.sop == (ram[b].sop && b != h)
            && bd.eop == (ram[b].eop && b != t)
            && bd.next == (if b == t then NULL else if b == lastFree then h else ram[b].next)
            && bd.eoq == ram[b].eoq
            && (b != h && b != t && b != lastFree ==> bd == ram[b])
  {
  }

  lemma ReturnKeepsPackets(ram: seq<Bd>, g: Layout, g': Layout)
    requires Active(ram, g) && Free(ram, g) && g.lo < |g.sent| && Popped(g, g')
    ensures Active(Returned(ram, Head(g, g.lo), Tail(g, g.lo), LastFree(g)), g')
  {
    var h, t, l := Head(g, g.lo), Tail(g, g.lo), LastFree(g);
    var ram' := Returned(ram, h, t, l);
    assert PacketAt(ram, g, g.lo);
    assert g.place[h] == InPacket(g.lo, 0) && g.place[t].InPacket? && g.place[t].k == g.lo;
    assert l != NULL ==> g.place[l].InFree?;
    forall k | g'.lo <= k < |g'.sent|
      ensures PacketAt(ram', g', k)
    {
      assert PacketAt(ram, g, k);
      forall j | 0 <= j < |g.sent[k].bds|
        ensures ram'[g.sent[k].bds[j]] == ram[g.sent[k].bds[j]]
      {
        assert g.place[g.sent[k].bds[j]] == InPacket(k, j);
        ReturnedAt(ram, h, t, l, g.sent[k].bds[j]);
      }
    }
  }

  lemma ReturnKeepsFree(ram: seq<Bd>, g: Layout, g': Layout)
    requires Active(ram, g) && Free(ram, g) && g.lo < |g.sent| && Popped(g, g')
    ensures Free(Returned(ram, Head(g, g.lo), Tail(g, g.lo), LastFree(g)), g')
  {
    var h, t, l := Head(g, g.lo), Tail(g, g.lo), LastFree(g);
    var ram' := Returned(ram, h, t, l);
    var p := g.sent[g.lo];
    assert PacketAt(ram, g, g.lo);
    assert l != NULL ==> g.place[l].InFree?;
    assert FreePlaced(g');
    forall i | g'.flo <= i < |g'.freed|
      ensures ram'[g'.freed[i]].next == FreeAt(g', i + 1)
      ensures !ram'[g'.freed[i]].eop && (g'.flo < i ==> !ram'[g'.freed[i]].sop)
    {
      ReturnedAt(ram, h, t, l, g'.freed[i]);
      if i < |g.freed| {
        assert g.place[g.freed[i]] == InFree(i);
      } else {
        var j := i - |g.freed|;
        assert g'.freed[i] == p.bds[j] && g.place[p.bds[j]] == InPacket(g.lo, j);
      }
    }
  }

  lemma StalePop(ram: seq<Bd>, g: Layout, ram': seq<Bd>, g': Layout, hdp: int)
    requires Active(ram, g) && Active(ram', g') && g.lo < |g.sent| && Popped(g, g') && SameEoq(ram, ram')
    ensures Stale(ram', g', hdp) ==> Stale(ram, g, hdp)
  {
  }

  lemma PopCovers(g: Layout, g': Layout)
    requires Covered(g) && g.lo < |g.sent| && g.flo <= |g.freed| && Popped(g, g')
    ensures Covered(g')
  {
    forall b | 0 <= b < |g'.place|
      ensures PlaceOk(g', g'.place[b], b)
    {
      assert PlaceOk(g, g.place[b], b);
    }
  }

  lemma ReturnKeepsHw(ram: seq<Bd>, g: Layout, g': Layout, mid: nat, hdp: int,
                      releasing: int, wire: seq<seq<Frag>>)
    requires Active(ram, g) && Free(ram, g) && g.lo < mid && g.lo < |g.sent| && Popped(g, g')
    requires Hw(ram, g, mid, hdp, releasing, wire, false)
    ensures var ram' := Returned(ram, Head(g, g.lo), Tail(g, g.lo), LastFree(g));
            Active(ram', g') && Hw(ram', g', mid, hdp, releasing, wire, false)
  {
    hide Chained, FreeFrom, Returned;
    var h, t, l := Head(g, g.lo), Tail(g, g.lo), LastFree(g);
    ReturnReads(ram, g);
    var ram' := Returned(ram, h, t, l);
    ReturnKeepsPackets(ram, g, g');
    assert PacketAt(ram, g, g.lo);
    forall k | g'.lo <= k < |g'.sent|
      ensures ram'[Head(g', k)] == ram[Head(g, k)] && ram'[Tail(g', k)] == ram[Tail(g, k)]
    {
      assert PacketAt(ram, g, k);
      ReturnedAt(ram, h, t, l, Head(g, k));
      ReturnedAt(ram, h, t, l, Tail(g, k));
    }
  }

  lemma RefsPush(refs: multiset<nat>, held: multiset<nat>, g: Layout, g': Layout, job: Job)
    requires g.lo <= |g.sent| && g.flo + |job.frags| <= |g.freed| && Pushed(g, g', job)
    requires refs == held + multiset(Queued(g))
    ensures refs + multiset{job.id} == held + multiset(Queued(g'))
  {
    PushQueues(g, g', job);
  }

  lemma RefAndFree(refs: multiset<nat>, id: nat)
    ensures refs + multiset{id} - multiset{id} == refs
  {
  }

  lemma RefsPop(refs: multiset<nat>, held: multiset<nat>, g: Layout, g': Layout)
    requires g.lo < |g.sent| && Popped(g, g')
    requires refs == held + multiset(Queued(g))
    ensures refs - multiset{g.sent[g.lo].job.id} == held + multiset(Queued(g'))
  {
    PopQueues(g, g');
  }

  lemma PopQueues(g: Layout, g': Layout)
    requires g.lo < |g.sent| && Popped(g, g')
    ensures Queued(g) == [g.sent[g.lo].job.id] + Queued(g')
  {
    assert g.sent[g.lo..][1..] == g'.sent[g'.lo..];
  }

  lemma PopEnds(ram: seq<Bd>, g: Layout, g': Layout)
    requires Active(ram, g) && g.lo < |g.sent| && g.flo <= |g.freed| && Popped(g, g')
    ensures NextHead(g, g.lo) == if g'.lo < |g'.sent| then Head(g', g'.lo) else NULL
    ensures FreeAt(g', g'.flo) == if g.flo < |g.freed| then FreeAt(g, g.flo) else Head(g, g.lo)
    ensures LastFree(g') == Tail(g, g.lo)
  {
  }

  /** What the completion pass reads back from the descriptors it has just unmarked. */
  lemma ReturnReads(ram: seq<Bd>, g: Layout)
    requires Active(ram, g) && Free(ram, g) && g.lo < |g.sent|
    ensures var h, t, l := Head(g, g.lo), Tail(g, g.lo), LastFree(g);
            && 0 <= h < |ram| && 0 <= t < |ram| && NULL <= l < |ram| && l != t && l != h
            && ram[t].next == NextHead(g, g.lo) && ram[h].pbuf == g.sent[g.lo].job.id
            && (l != NULL <==> g.flo < |g.freed|)
            && SameEoq(ram, Returned(ram, h, t, l)) && Returned(ram, h, t, l)[h].pbuf == ram[h].pbuf
            && |Returned(ram, h, t, l)| == |ram| && g.flo <= |g.freed|
  {
    assert PacketAt(ram, g, g.lo);
  }

  /** The EOQ bit of the descriptor that ends a packet of n: left over, and never on a packet of one. */
  lemma TailOfNew(g: Layout, ram: seq<Bd>, v: EmacView, ram': seq<Bd>, v': EmacView, n: nat)
    requires Advanced(g, ram, v, ram', v') && Free(ram, g) && Opened(ram', g) && 0 < n && g.flo + n <= |g.freed|
    ensures var b := FreeAt(g, g.flo + n - 1);
            0 <= b < |ram| == |ram'| && (ram'[b].eoq <==> n > 1 && ram[b].eoq)
  {
    var b := g.freed[g.flo + n - 1];
    assert g.place[b] == InFree(g.flo + n - 1) && g.place[g.freed[g.flo]] == InFree(g.flo);
    assert n > 1 ==> ram'[b].eoq == ram[b].eoq;
  }

  lemma LinkEoq(g: Layout, ram: seq<Bd>, ram1: seq<Bd>, ram': seq<Bd>)
    requires SameEoq(ram, ram1) && FreeSame(g, ram1, ram')
    ensures FreeSame(g, ram, ram')
  {
    forall b | 0 <= b < |ram| && g.place[b].InFree?
      ensures ram'[b].eoq == ram[b].eoq
    {
      assert ram'[b].eoq == ram1[b].eoq;
    }
  }

  lemma FrameFree(g: Layout, ram: seq<Bd>, ram': seq<Bd>)
    requires EmacFrame(ram, ram', g)
    ensures FreeSame(g, ram, ram')
  {
  }

  lemma FreeSameTrans(g: Layout, ram: seq<Bd>, ram1: seq<Bd>, ram': seq<Bd>)
    requires FreeSame(g, ram, ram1) && FreeSame(g, ram1, ram')
    ensures FreeSame(g, ram, ram')
  {
    forall b | 0 <= b < |ram| && g.place[b].InFree?
      ensures ram'[b].eoq == ram[b].eoq
    {
      assert ram1[b].eoq == ram[b].eoq;
    }
  }

  lemma SameEoqAt(ram: seq<Bd>, ram': seq<Bd>, b: int)
    requires SameEoq(ram, ram') && 0 <= b < |ram'|
    ensures 0 <= b < |ram| && ram'[b].eoq == ram[b].eoq
  {
  }

  /** What a queue says about its last packet. */
  lemma LastStale(ram: seq<Bd>, g: Layout, hdp: int)
    requires Active(ram, g)
    ensures Stale(ram, g, hdp) ==> g.lo < |g.sent|
    ensures g.lo < |g.sent| ==> (Stale(ram, g, hdp) <==> hdp != NULL && ram[Tail(g, |g.sent| - 1)].eoq)
  {
  }

  /** A send leaves the EOQ bits of the descriptors it does not use. */
  lemma SendKeepsEoq(g: Layout, g': Layout, job: Job, ram: seq<Bd>, v: EmacView, ram1: seq<Bd>, v1: EmacView,
                     ram': seq<Bd>)
    requires g.flo + |job.frags| <= |g.freed| && 0 < |job.frags| && Pushed(g, g', job) && Free(ram, g)
    requires Advanced(g, ram, v, ram1, v1) && FreeSame(g', ram1, ram')
    ensures FreeSame(g', ram, ram')
  {
    forall b | 0 <= b < |ram| && g'.place[b].InFree?
      ensures ram'[b].eoq == ram[b].eoq
    {
      assert g.place[b].InFree?;
      assert ram'[b].eoq == ram1[b].eoq;
      assert g.place[g.freed[g.flo]] == InFree(g.flo);
    }
  }

  /** Sending a packet on a channel with nothing queued, and taking it back: its descriptors move from
      the front of the inactive list to its end. */
  lemma CycleOrder(g: Layout, g': Layout, g'': Layout, job: Job)
    requires g.flo + |job.frags| <= |g.freed| && Pushed(g, g', job) && g.lo == |g.sent|
    requires g''.flo == g'.flo && g''.sent == g'.sent && g''.lo == |g'.sent|
    requires g''.freed == g'.freed + Bds(g'.sent[g.lo..g''.lo])
    ensures var order, n := g.freed[g.flo..], |job.frags|;
            g''.flo <= |g''.freed| && g''.freed[g''.flo..] == order[n..] + order[..n]
  {
    var bds := NewPacket(g, job).bds;
    assert g'.sent[g.lo..g''.lo] == [NewPacket(g, job)];
    BdsOnly(NewPacket(g, job));
    assert bds == g.freed[g.flo..][..|job.frags|];
  }

  lemma BdsOnly(p: Packet)
    ensures Bds([p]) == p.bds
  {
    assert [p][1..] == [];
  }

  /** The descriptors that stay on the inactive list. */
  lemma StillFree(ram: seq<Bd>, g: Layout, b: int)
    requires Free(ram, g) && b in g.freed[g.flo..]
    ensures 0 <= b < |ram| && g.place[b].InFree?
  {
  }

  /** The last packet on the active list ends it. */
  lemma LastEnds(ram: seq<Bd>, g: Layout)
    requires Active(ram, g) && g.lo < |g.sent|
    ensures 0 <= Tail(g, |g.sent| - 1) < |ram| && ram[Tail(g, |g.sent| - 1)].next == NULL
    ensures 0 <= Head(g, |g.sent| - 1) < |ram|
  {
    assert PacketAt(ram, g, |g.sent| - 1);
  }

  // ----- What the layout means ----------------------------------------------------------

  lemma {:induction false} IdsSnoc(ps: seq<Packet>, p: Packet)
    ensures Ids(ps + [p]) == Ids(ps) + [p.job.id]
  {
    if ps != [] {
      IdsSnoc(ps[1..], p);
      assert (ps + [p])[1..] == ps[1..] + [p];
    }
  }

  /** The descriptors of a sequence of packets, in order. */
  ghost function Bds(ps: seq<Packet>): seq<int> {
    if ps == [] then [] else ps[0].bds + Bds(ps[1..])
  }

  lemma {:induction false} BdsSnoc(ps: seq<Packet>, p: Packet)
    ensures Bds(ps + [p]) == Bds(ps) + p.bds
  {
    if ps == [] {
      assert Bds([p]) == p.bds + Bds([]);
    } else {
      BdsSnoc(ps[1..], p);
      assert (ps + [p])[1..] == ps[1..] + [p];
    }
  }

  /** list is what the next pointers spell out, down to NULL, without a repetition. */
  ghost predicate IsList(ram: seq<Bd>, list: seq<int>) {
    && (forall i :: 0 <= i < |list| ==> 0 <= list[i] < |ram|)
    && (forall i {:trigger ram[list[i]]} :: 0 <= i < |list| ==>
          ram[list[i]].next == if i + 1 < |list| then list[i + 1] else NULL)
    && (forall i, j :: 0 <= i < j < |list| ==> list[i] != list[j])
  }

  lemma {:induction false} ActiveIsList(ram: seq<Bd>, g: Layout, k: nat)
    requires Active(ram, g) && g.lo <= k <= |g.sent|
    ensures IsList(ram, Bds(g.sent[k..]))
    ensures k < |g.sent| ==> Bds(g.sent[k..]) != [] && Bds(g.sent[k..])[0] == Head(g, k)
    ensures forall b :: b in Bds(g.sent[k..]) ==> 0 <= b < |ram| && g.place[b].InPacket? && g.place[b].k >= k
    ensures forall b :: 0 <= b < |ram| && g.place[b].InPacket? && k <= g.place[b].k && Covered(g) ==>
              b in Bds(g.sent[k..])
    decreases |g.sent| - k
  {
    if k < |g.sent| {
      ActiveIsList(ram, g, k + 1);
      assert PacketAt(ram, g, k);
      assert g.sent[k..][1..] == g.sent[k + 1..];
      JoinLists(ram, g.sent[k], Bds(g.sent[k + 1..]), NextHead(g, k), k, g.place);
      forall b | 0 <= b < |ram| && g.place[b].InPacket? && k <= g.place[b].k && Covered(g)
        ensures b in Bds(g.sent[k..])
      {
        assert PlaceOk(g, g.place[b], b);
        if g.place[b].k == k { assert b in g.sent[k].bds; }
      }
    }
  }

  lemma JoinLists(ram: seq<Bd>, p: Packet, rest: seq<int>, nxt: int, k: nat, place: seq<Place>)
    requires Chained(ram, p, nxt) && Placed(place, p, k) && IsList(ram, rest) && |place| == |ram|
    requires nxt == if rest == [] then NULL else rest[0]
    requires forall b :: b in rest ==> place[b].InPacket? && place[b].k > k
    ensures IsList(ram, p.bds + rest)
  {
    var list := p.bds + rest;
    forall i | 0 <= i < |list|
      ensures 0 <= list[i] < |ram|
      ensures ram[list[i]].next == if i + 1 < |list| then list[i + 1] else NULL
    {
      if i < |p.bds| { assert list[i] == p.bds[i]; } else { assert list[i] == rest[i - |p.bds|]; }
    }
    forall i, j | 0 <= i < j < |list|
      ensures list[i] != list[j]
    {
      if j < |p.bds| {
        assert place[p.bds[i]] == InPacket(k, i) && place[p.bds[j]] == InPacket(k, j);
      } else if i < |p.bds| {
        assert place[p.bds[i]] == InPacket(k, i) && rest[j - |p.bds|] in rest;
      }
    }
  }

  /** The two lists are acyclic, follow the next pointers and share out the descriptors. */
  lemma ListsPartition(ram: seq<Bd>, g: Layout)
    requires Active(ram, g) && Free(ram, g) && Covered(g)
    ensures IsList(ram, Bds(g.sent[g.lo..])) && IsList(ram, g.freed[g.flo..])
    ensures forall b :: 0 <= b < |ram| ==> (b in Bds(g.sent[g.lo..]) <==> b !in g.freed[g.flo..])
  {
    ActiveIsList(ram, g, g.lo);
    var free := g.freed[g.flo..];
    forall i | 0 <= i < |free|
      ensures free[i] == g.freed[g.flo + i] && 0 <= free[i] < |ram| && g.place[free[i]] == InFree(g.flo + i)
      ensures ram[free[i]].next == if i + 1 < |free| then free[i + 1] else NULL
    {
    }
    forall b | 0 <= b < |ram|
      ensures b in Bds(g.sent[g.lo..]) <==> b !in free
    {
      assert PlaceOk(g, g.place[b], b);
      if g.place[b].InFree? { assert free[g.place[b].j - g.flo] == b; }
    }
  }

  /** A halted EMAC has stranded nothing: every packet ever queued is on the wire, in
      order and once, and none on the active list is still EMAC-owned. */
  lemma NothingStranded(ram: seq<Bd>, g: Layout, mid: nat, hdp: int, wire: seq<seq<Frag>>)
    requires Active(ram, g) && Hw(ram, g, mid, hdp, NULL, wire, false)
    ensures hdp == NULL <==> mid == |g.sent|
    ensures hdp == NULL ==>
              && |wire| == |g.sent|
              && (forall k :: 0 <= k < |g.sent| ==> wire[k] == g.sent[k].job.frags)
              && (forall k :: g.lo <= k < |g.sent| ==> !ram[Head(g, k)].owner)
  {
    if mid < |g.sent| {
      assert PacketAt(ram, g, mid);
    }
  }

  function SumLens(fs: seq<Frag>): nat {
    if fs == [] then 0 else fs[0].len + SumLens(fs[1..])
  }

  lemma {:induction false} SumLensAppend(a: seq<Frag>, b: seq<Frag>)
    ensures SumLens(a + b) == SumLens(a) + SumLens(b)
  {
    if a == [] {
      assert a + b == b;
    } else {
      SumLensAppend(a[1..], b);
      assert (a + b)[1..] == a[1..] + b;
    }
  }

  /** The descriptor lengths of a packet add up to the length in its SOP descriptor,
      max(60, tot_len), exactly when the chain is well-formed. */
  lemma LengthsAddUp(p: Chain)
    ensures SumLens(JobOf(p).frags) == Max(MIN_PKT_LEN, p.totLen) <==> p.totLen == SumLens(p.segs)
  {
    if p.totLen < MIN_PKT_LEN {
      var pad := [Frag(p.segs[0].ptr, MIN_PKT_LEN - p.totLen)];
      SumLensAppend(p.segs, pad);
      assert SumLens(pad) == pad[0].len + SumLens([]);
    } else {
      assert Frags(p) == p.segs;
    }
  }

  lemma BdsNone(ps: seq<Packet>, k: nat)
    requires k <= |ps|
    ensures Bds(ps[k..k]) == []
  {
  }

  lemma PopBds(g: Layout, g': Layout, lo: nat, freed: seq<int>)
    requires lo <= g.lo < |g.sent| && Popped(g, g')
    requires g.freed == freed + Bds(g.sent[lo..g.lo])
    ensures g'.lo == g.lo + 1 && g'.sent == g.sent && g'.flo == g.flo
    ensures g'.freed == freed + Bds(g'.sent[lo..g'.lo])
  {
    assert g.sent[lo..g.lo + 1] == g.sent[lo..g.lo] + [g.sent[g.lo]];
    BdsSnoc(g.sent[lo..g.lo], g.sent[g.lo]);
  }

  lemma HandedBack(ram: seq<Bd>, g: Layout, mid: nat, hdp: int, releasing: int, wire: seq<seq<Frag>>)
    requires Active(ram, g) && Hw(ram, g, mid, hdp, releasing, wire, false)
    requires g.lo < |g.sent| && !ram[Head(g, g.lo)].owner
    ensures g.lo < mid
  {
  }

  /** Where the completion loop stops. */
  lemma StopsAtOwned(ram: seq<Bd>, g: Layout, mid: nat, hdp: int, releasing: int, wire: seq<seq<Frag>>)
    requires Active(ram, g) && Hw(ram, g, mid, hdp, releasing, wire, false)
    requires g.lo < |g.sent| ==> !ram[Head(g, g.lo)].sop || ram[Head(g, g.lo)].owner
    ensures g.lo == mid
  {
    if g.lo < |g.sent| {
      assert PacketAt(ram, g, g.lo);
    }
  }

  ghost function Jobs(ps: seq<Packet>): seq<Job> {
    seq(|ps|, i requires 0 <= i < |ps| => ps[i].job)
  }

  ghost function Frames(ps: seq<Packet>): seq<seq<Frag>> {
    seq(|ps|, i requires 0 <= i < |ps| => ps[i].job.frags)
  }

  lemma JobsPush(g: Layout, g': Layout, job: Job)
    requires g.flo + |job.frags| <= |g.freed| && Pushed(g, g', job)
    ensures Jobs(g'.sent) == Jobs(g.sent) + [job]
    ensures |g'.freed| - g'.flo == |g.freed| - g.flo - |job.frags|
  {
  }

  lemma PushPresents(g: Layout, g': Layout, p: Chain)
    requires g.flo + |Frags(p)| <= |g.freed| && Pushed(g, g', JobOf(p))
    ensures |g'.sent| == |g.sent| + 1 && g'.sent[..|g.sent|] == g.sent
    ensures Presents(g'.sent[|g.sent|].job, p)
  {
    JobPresents(p);
  }

  /** The descriptors of the packet just queued: the next free ones, filled with its job. */
  lemma PushFills(ram: seq<Bd>, g: Layout, g': Layout, job: Job)
    requires g.lo <= |g.sent| && g.flo + |job.frags| <= |g.freed| && Pushed(g, g', job) && Active(ram, g')
    ensures |g'.sent| == |g.sent| + 1
    ensures var last := g'.sent[|g.sent|];
            && |last.bds| == |job.frags|
            && last.job == job
            && (forall j {:trigger last.bds[j]} :: 0 <= j < |last.bds| ==>
                  && last.bds[j] == g.freed[g.flo + j] && 0 <= last.bds[j] < |ram|
                  && ram[last.bds[j]].frag == job.frags[j] && ram[last.bds[j]].pbuf == job.id)
            && (0 < |last.bds| ==> ram[last.bds[0]].pktlen == job.len)
  {
    assert PacketAt(ram, g', |g.sent|);
  }

  lemma AllOnWire(ram: seq<Bd>, g: Layout, mid: nat, wire: seq<seq<Frag>>)
    requires Active(ram, g) && Hw(ram, g, mid, NULL, NULL, wire, false)
    ensures wire == Frames(g.sent)
  {
    NothingStranded(ram, g, mid, NULL, wire);
  }

  /** What the rest of the stack does to the channel. */
  datatype Op = SendOp(p: Chain) | CompleteOp | RefOp(id: nat) | FreeOp(id: nat)

  /** Callers send only chains they hold a reference to, and drop only such references. */
  ghost predicate Disciplined(held: multiset<nat>, ops: seq<Op>)
    decreases ops
  {
    ops == [] ||
    match ops[0]
    case SendOp(p) => p.id in held && Disciplined(held, ops[1..])
    case CompleteOp => Disciplined(held, ops[1..])
    case RefOp(id) => Disciplined(held + multiset{id}, ops[1..])
    case FreeOp(id) => id in held && Disciplined(held - multiset{id}, ops[1..])
  }

  lemma RefBoth(refs: multiset<nat>, held: multiset<nat>, q: multiset<nat>, id: nat)
    requires refs == held + q
    ensures refs + multiset{id} == held + multiset{id} + q
    ensures id in held ==> refs - multiset{id} == held - multiset{id} + q
  {
  }
}
