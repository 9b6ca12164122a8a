/** The TMS570 EMAC receive descriptors as values: the active and inactive lists, the pbufs on
    them, what the EMAC has been given and has handed back, the assembly of frames into pbuf
    chains and the refill from the pbuf pool. */
module Tms570RxLists {

  const NULL := -1
  const PBUF_POOL_BUFSIZE := 1600

  /** struct emac_rx_bd: its flags word split into the protocol bits and the frame length. */
  datatype Bd = Bd(next: int, len: nat, sop: bool, eop: bool, owner: bool, total: nat, pbuf: int)

  /** A pbuf: its len (its capacity until a frame is received into it), tot_len and next. */
  datatype Pbuf = Pbuf(len: nat, totLen: int, next: int)

  // ----- Two lists over one descriptor RAM ----------------------------------------------

  datatype Place = InActive(j: nat) | InFree(j: nat)

  /** log is every descriptor ever appended to a list and log[lo..] the ones still on it. */
  datatype Log = Log(log: seq<int>, lo: nat)

  ghost function At(l: Log, i: int): int { if 0 <= i < |l.log| then l.log[i] else NULL }

  ghost function First(l: Log): int { At(l, l.lo) }

  ghost function Last(l: Log): int { if l.lo < |l.log| then l.log[|l.log| - 1] else NULL }

  /** The list is chained in order down to NULL and place knows its members. */
  ghost predicate Linked(ram: seq<Bd>, place: seq<Place>, l: Log, active: bool) {
    && |place| == |ram| && l.lo <= |l.log|
    && (forall i {:trigger l.log[i]} :: l.lo <= i < |l.log| ==>
          0 <= l.log[i] < |ram| && place[l.log[i]] == (if active then InActive(i) else InFree(i)))
    && (forall i {:trigger ram[l.log[i]]} :: l.lo <= i < |l.log| ==>
          ram[l.log[i]].next == At(l, i + 1))
  }

  /** Every descriptor is on the list place says. */
  ghost predicate Covered(place: seq<Place>, a: Log, f: Log) {
    forall b {:trigger place[b]} :: 0 <= b < |place| ==> CoveredAt(place, a, f, b)
  }

  ghost predicate CoveredAt(place: seq<Place>, a: Log, f: Log, b: int)
    requires 0 <= b < |place|
  {
    match place[b]
    case InActive(j) => a.lo <= j < |a.log| && a.log[j] == b
    case InFree(j) => f.lo <= j < |f.log| && f.log[j] == b
  }

  ghost predicate Lists(ram: seq<Bd>, place: seq<Place>, a: Log, f: Log) {
    Linked(ram, place, a, true) && Linked(ram, place, f, false) && Covered(place, a, f)
  }

  ghost function Drop(l: Log, m: nat): Log { l.(lo := l.lo + m) }

  ghost function Append(l: Log, s: seq<int>): Log { l.(log := l.log + s) }

  /** place after the first m descriptors of one list were appended to the other. */
  ghost predicate Moved(place: seq<Place>, place': seq<Place>, from: Log, to: Log, m: nat, fromActive: bool) {
    && |place'| == |place|
    && forall b {:trigger place'[b]} :: 0 <= b < |place| ==>
         place'[b] == if place[b].InActive? == fromActive && from.lo <= place[b].j < from.lo + m
                      then (if fromActive then InFree(|to.log| + place[b].j - from.lo)
                            else InActive(|to.log| + place[b].j - from.lo))
                      else place[b]
  }

  ghost function Move(place: seq<Place>, from: Log, to: Log, m: nat, fromActive: bool): (place': seq<Place>)
    ensures Moved(place, place', from, to, m, fromActive)
  {
    seq(|place|, b requires 0 <= b < |place| =>
      if place[b].InActive? == fromActive && from.lo <= place[b].j < from.lo + m
      then (if fromActive then InFree(|to.log| + place[b].j - from.lo)
            else InActive(|to.log| + place[b].j - from.lo))
      else place[b])
  }

  /** RAM after the segment h..t was cut off its list and linked behind tail. */
  function Spliced(ram: seq<Bd>, h: int, t: int, tail: int): (ram': seq<Bd>)
    requires 0 <= t < |ram| && NULL <= tail < |ram|
    ensures |ram'| == |ram| && ram'[t].next == NULL
    ensures forall b :: 0 <= b < |ram| ==> ram'[b] == ram[b].(next := ram'[b].next)
  {
    var ram1 := if tail == NULL then ram else ram[tail := ram[tail].(next := h)];
    ram1[t := ram1[t].(next := NULL)]
  }

  lemma SpliceAt(ram: seq<Bd>, h: int, t: int, tail: int, b: int)
    requires 0 <= t < |ram| && NULL <= tail < |ram| && tail != t && 0 <= b < |ram|
    ensures Spliced(ram, h, t, tail)[b].next == if b == t then NULL else if b == tail then h else ram[b].next
  {
  }

  /** Moving a nonempty prefix keeps both lists chained and covering everything. */
  lemma MoveKeeps(ram: seq<Bd>, place: seq<Place>, place': seq<Place>, from: Log, to: Log, m: nat, fromActive: bool)
    requires Linked(ram, place, from, fromActive) && Linked(ram, place, to, !fromActive)
    requires 0 < m <= |from.log| - from.lo && Moved(place, place', from, to, m, fromActive)
    ensures var s := from.log[from.lo..from.lo + m];
            var ram' := Spliced(ram, s[0], s[m - 1], Last(to));
            Linked(ram', place', Drop(from, m), fromActive) && Linked(ram', place', Append(to, s), !fromActive)
  {
    var s := from.log[from.lo..from.lo + m];
    var ram' := Spliced(ram, s[0], s[m - 1], Last(to));
    MoveKeepsFrom(ram, place, place', from, to, m, fromActive);
    MoveKeepsTo(ram, place, place', from, to, m, fromActive);
  }

  /** The ends of the two lists around a move, and RAM after it. */
  lemma SpliceFacts(ram: seq<Bd>, place: seq<Place>, from: Log, to: Log, m: nat, fromActive: bool)
    requires Linked(ram, place, from, fromActive) && Linked(ram, place, to, !fromActive)
    requires 0 < m <= |from.log| - from.lo
    ensures var s := from.log[from.lo..from.lo + m];
            var t := from.log[from.lo + m - 1];
            && s[0] == First(from) && s[m - 1] == t && 0 <= t < |ram| && 0 <= s[0] < |ram|
            && to.lo <= |to.log| && NULL <= Last(to) < |ram| && Last(to) != t
            && (Last(to) == NULL <==> to.lo == |to.log|)
            && ram[t].next == First(Drop(from, m))
            && (First(Drop(from, m)) == NULL <==> from.lo + m == |from.log|)
            && (from.lo + m < |from.log| ==> Last(Drop(from, m)) == Last(from))
            && (from.lo + m == |from.log| ==> Last(Drop(from, m)) == NULL && Last(from) == t)
            && (First(to) == NULL <==> Last(to) == NULL) && Last(from) != NULL
            && Last(Append(to, s)) == t
            && First(Append(to, s)) == (if to.lo == |to.log| then s[0] else First(to))
  {
    var t := from.log[from.lo + m - 1];
    assert ram[t].next == At(from, from.lo + m);
    assert from.lo + m < |from.log| ==> 0 <= from.log[from.lo + m];
    assert to.lo < |to.log| ==> 0 <= to.log[to.lo];
  }

  lemma MoveKeepsFrom(ram: seq<Bd>, place: seq<Place>, place': seq<Place>, from: Log, to: Log, m: nat, fromActive: bool)
    requires Linked(ram, place, from, fromActive) && Linked(ram, place, to, !fromActive)
    requires 0 < m <= |from.log| - from.lo && Moved(place, place', from, to, m, fromActive)
    ensures var s := from.log[from.lo..from.lo + m];
            Linked(Spliced(ram, s[0], s[m - 1], Last(to)), place', Drop(from, m), fromActive)
  {
    hide Spliced, Moved, Linked, InList;
    MoveBounds(ram, place, place', from, to, m, fromActive);
    var s := from.log[from.lo..from.lo + m];
    assert s[m - 1] == from.log[from.lo + m - 1];
    var ram' := Spliced(ram, s[0], s[m - 1], Last(to));
    var from' := Drop(from, m);
    forall i | from'.lo <= i < |from'.log|
      ensures InList(ram', place', from', fromActive, i)
    {
      KeptInFrom(ram, place, place', from, to, m, fromActive, i);
    }
    LinkedFrom(ram', place', from', fromActive);
  }

  /** Entry i of a list: on the list by place, and linked to the next one. */
  ghost predicate InList(ram: seq<Bd>, place: seq<Place>, l: Log, active: bool, i: nat) {
    && i < |l.log| && |place| == |ram| && 0 <= l.log[i] < |ram|
    && place[l.log[i]] == (if active then InActive(i) else InFree(i))
    && ram[l.log[i]].next == At(l, i + 1)
  }

  lemma LinkedFrom(ram: seq<Bd>, place: seq<Place>, l: Log, active: bool)
    requires |place| == |ram| && l.lo <= |l.log|
    requires forall i {:trigger InList(ram, place, l, active, i)} ::
               l.lo <= i < |l.log| ==> InList(ram, place, l, active, i)
    ensures Linked(ram, place, l, active)
  {
    forall i | l.lo <= i < |l.log|
      ensures 0 <= l.log[i] < |ram| && place[l.log[i]] == (if active then InActive(i) else InFree(i))
      ensures ram[l.log[i]].next == At(l, i + 1)
    {
      assert InList(ram, place, l, active, i);
    }
  }

  lemma MoveBounds(ram: seq<Bd>, place: seq<Place>, place': seq<Place>, from: Log, to: Log, m: nat, fromActive: bool)
    requires Linked(ram, place, from, fromActive) && Linked(ram, place, to, !fromActive)
    requires 0 < m <= |from.log| - from.lo && Moved(place, place', from, to, m, fromActive)
    ensures |place'| == |place| == |ram| && to.lo <= |to.log| && NULL <= Last(to) < |ram|
    ensures 0 <= from.log[from.lo + m - 1] < |ram|
  {
  }

  lemma KeptInFrom(ram: seq<Bd>, place: seq<Place>, place': seq<Place>, from: Log, to: Log, m: nat,
                   fromActive: bool, i: nat)
    requires Linked(ram, place, from, fromActive) && Linked(ram, place, to, !fromActive)
    requires 0 < m <= |from.log| - from.lo && Moved(place, place', from, to, m, fromActive)
    requires from.lo + m <= i < |from.log|
    ensures var s := from.log[from.lo..from.lo + m];
            InList(Spliced(ram, s[0], s[m - 1], Last(to)), place', Drop(from, m), fromActive, i)
  {
    assert ram[from.log[i]].next == At(from, i + 1);
    var t := from.log[from.lo + m - 1];
    assert place[from.log[i]].j == i && place[t].j == from.lo + m - 1;
    assert Last(to) != NULL ==> place[Last(to)].InActive? != fromActive;
  }

  lemma MoveKeepsTo(ram: seq<Bd>, place: seq<Place>, place': seq<Place>, from: Log, to: Log, m: nat, fromActive: bool)
    requires Linked(ram, place, from, fromActive) && Linked(ram, place, to, !fromActive)
    requires 0 < m <= |from.log| - from.lo && Moved(place, place', from, to, m, fromActive)
    ensures var s := from.log[from.lo..from.lo + m];
            Linked(Spliced(ram, s[0], s[m - 1], Last(to)), place', Append(to, s), !fromActive)
  {
    hide Spliced, Moved, Linked, InList;
    MoveBounds(ram, place, place', from, to, m, fromActive);
    var s := from.log[from.lo..from.lo + m];
    assert s[m - 1] == from.log[from.lo + m - 1];
    var ram' := Spliced(ram, s[0], s[m - 1], Last(to));
    var to', toActive := Append(to, s), !fromActive;
    forall i | to'.lo <= i < |to'.log|
      ensures InList(ram', place', to', toActive, i)
    {
      if i < |to.log| {
        KeptInTo(ram, place, place', from, to, m, fromActive, i);
      } else {
        NewInTo(ram, place, place', from, to, m, fromActive, i - |to.log|);
      }
    }
    LinkedFrom(ram', place', to', !fromActive);
  }

  lemma KeptInTo(ram: seq<Bd>, place: seq<Place>, place': seq<Place>, from: Log, to: Log, m: nat, fromActive: bool,
                 i: nat)
    requires Linked(ram, place, from, fromActive) && Linked(ram, place, to, !fromActive)
    requires 0 < m <= |from.log| - from.lo && Moved(place, place', from, to, m, fromActive)
    requires to.lo <= i < |to.log|
    ensures var s := from.log[from.lo..from.lo + m];
            InList(Spliced(ram, s[0], s[m - 1], Last(to)), place', Append(to, s), !fromActive, i)
  {
    var t := from.log[from.lo + m - 1];
    assert place[to.log[i]].j == i;
    assert place[t] == if fromActive then InActive(from.lo + m - 1) else InFree(from.lo + m - 1);
    assert ram[to.log[i]].next == At(to, i + 1);
    assert i + 1 < |to.log| ==> place[Last(to)].j != i;
  }

  lemma NewInTo(ram: seq<Bd>, place: seq<Place>, place': seq<Place>, from: Log, to: Log, m: nat, fromActive: bool,
                j: nat)
    requires Linked(ram, place, from, fromActive) && Linked(ram, place, to, !fromActive)
    requires 0 < m <= |from.log| - from.lo && Moved(place, place', from, to, m, fromActive)
    requires j < m
    ensures var s := from.log[from.lo..from.lo + m];
            InList(Spliced(ram, s[0], s[m - 1], Last(to)), place', Append(to, s), !fromActive, |to.log| + j)
  {
    hide Spliced;
    var b, t := from.log[from.lo + j], from.log[from.lo + m - 1];
    assert place[b].j == from.lo + j && place[t].j == from.lo + m - 1;
    assert ram[b].next == At(from, from.lo + j + 1);
    assert Last(to) != NULL ==> place[Last(to)].InActive? != fromActive;
    SpliceAt(ram, from.log[from.lo], t, Last(to), b);
  }

  lemma MoveCovers(place: seq<Place>, place': seq<Place>, a: Log, f: Log, m: nat, fromActive: bool)
    requires Covered(place, a, f) && a.lo <= |a.log| && f.lo <= |f.log|
    requires fromActive ==> m <= |a.log| - a.lo && Moved(place, place', a, f, m, true)
    requires !fromActive ==> m <= |f.log| - f.lo && Moved(place, place', f, a, m, false)
    ensures fromActive ==> Covered(place', Drop(a, m), Append(f, a.log[a.lo..a.lo + m]))
    ensures !fromActive ==> Covered(place', Append(a, f.log[f.lo..f.lo + m]), Drop(f, m))
  {
    hide Moved;
    if fromActive {
      var a', f' := Drop(a, m), Append(f, a.log[a.lo..a.lo + m]);
      forall b | 0 <= b < |place'|
        ensures CoveredAt(place', a', f', b)
      {
        MovedOut(place, place', a, f, m, b);
      }
    } else {
      var a', f' := Append(a, f.log[f.lo..f.lo + m]), Drop(f, m);
      forall b | 0 <= b < |place'|
        ensures CoveredAt(place', a', f', b)
      {
        MovedIn(place, place', a, f, m, b);
      }
    }
  }

  lemma MovedOut(place: seq<Place>, place': seq<Place>, a: Log, f: Log, m: nat, b: int)
    requires Covered(place, a, f) && f.lo <= |f.log| && m <= |a.log| - a.lo && Moved(place, place', a, f, m, true)
    requires 0 <= b < |place'|
    ensures CoveredAt(place', Drop(a, m), Append(f, a.log[a.lo..a.lo + m]), b)
  {
    assert |place'| == |place| && CoveredAt(place, a, f, b);
    assert place'[b].InActive? || place'[b].InFree?;
  }

  lemma MovedIn(place: seq<Place>, place': seq<Place>, a: Log, f: Log, m: nat, b: int)
    requires Covered(place, a, f) && a.lo <= |a.log| && m <= |f.log| - f.lo && Moved(place, place', f, a, m, false)
    requires 0 <= b < |place'|
    ensures CoveredAt(place', Append(a, f.log[f.lo..f.lo + m]), Drop(f, m), b)
  {
    assert |place'| == |place| && CoveredAt(place, a, f, b);
    assert place'[b].InActive? || place'[b].InFree?;
  }

  /** list is what the next pointers spell out, down to NULL. */
  ghost predicate Follows(ram: seq<Bd>, list: seq<int>) {
    forall i {:trigger list[i]} :: 0 <= i < |list| ==>
      0 <= list[i] < |ram| && ram[list[i]].next == if i + 1 < |list| then list[i + 1] else NULL
  }

  /** The link of the descriptor at position j after such a return. */
  lemma StaleAt(ram: seq<Bd>, place: seq<Place>, a: Log, hi: nat, j: nat)
    requires Linked(ram, place, a, true) && a.lo < hi <= |a.log| && a.lo <= j < |a.log|
    ensures 0 <= a.log[hi - 1] < |ram| && 0 <= Last(a) < |ram| && 0 <= a.log[j] < |ram|
    ensures Spliced(ram, First(a), a.log[hi - 1], Last(a))[a.log[j]].next ==
            if j == hi - 1 then NULL else if j == |a.log| - 1 then a.log[a.lo] else a.log[j + 1]
  {
    assert place[a.log[j]] == InActive(j) && place[a.log[hi - 1]] == InActive(hi - 1);
    assert place[a.log[|a.log| - 1]] == InActive(|a.log| - 1);
    assert ram[a.log[j]].next == At(a, j + 1);
  }

  /** Returning descriptors with inactive_tail stuck on the last active one turns the active list round
      instead: the descriptors up to position hi come to stand behind the others. */
  lemma StaleSplice(ram: seq<Bd>, place: seq<Place>, a: Log, hi: nat)
    requires Linked(ram, place, a, true) && a.lo < hi <= |a.log|
    ensures 0 <= a.log[hi - 1] < |ram| && 0 <= Last(a) < |ram|
    ensures Follows(Spliced(ram, First(a), a.log[hi - 1], Last(a)), a.log[hi..] + a.log[a.lo..hi])
  {
    StaleAt(ram, place, a, hi, a.lo);
    hide Linked, Spliced;
    var k := |a.log| - hi;
    var ram', list := Spliced(ram, First(a), a.log[hi - 1], Last(a)), a.log[hi..] + a.log[a.lo..hi];
    forall i | 0 <= i < |list|
      ensures 0 <= list[i] < |ram'| && ram'[list[i]].next == if i + 1 < |list| then list[i + 1] else NULL
    {
      StaleAt(ram, place, a, hi, if i < k then hi + i else a.lo + i - k);
    }
  }

  /** n idle descriptors, linked in order. */
  function FreshRam(n: nat): seq<Bd> {
    seq(n, i => Bd(if i + 1 < n then i + 1 else NULL, 0, false, false, true, 0, NULL))
  }

  ghost function FreshPlace(n: nat): seq<Place> { seq(n, i requires 0 <= i => InFree(i)) }

  ghost function FreshLog(n: nat): Log { Log(seq(n, i => i), 0) }

  lemma FreshLists(n: nat)
    ensures Lists(FreshRam(n), FreshPlace(n), Log([], 0), FreshLog(n))
    ensures First(FreshLog(n)) == (if n == 0 then NULL else 0) && Last(FreshLog(n)) == n - 1
    ensures First(Log([], 0)) == NULL == Last(Log([], 0)) && |FreshLog(n).log| == n && FreshLog(n).lo == 0
  {
    var ram, place, a, f := FreshRam(n), FreshPlace(n), Log([], 0), FreshLog(n);
    forall i | 0 <= i < n
      ensures f.log[i] == i && place[i] == InFree(i) && ram[i].next == At(f, i + 1)
    {
    }
    hide FreshRam, FreshPlace, FreshLog;
    forall b | 0 <= b < |place|
      ensures CoveredAt(place, a, f, b)
    {
      assert place[b] == InFree(b);
    }
    assert Linked(ram, place, f, false);
  }

  // ----- Bytes --------------------------------------------------------------------------

  function Cap(ram: seq<Bd>, pb: seq<Pbuf>, b: int): nat {
    if 0 <= b < |ram| && 0 <= ram[b].pbuf < |pb| then pb[ram[b].pbuf].len else 0
  }

  /** The capacities of the pbufs on descriptors log[lo..hi]. */
  function Caps(ram: seq<Bd>, pb: seq<Pbuf>, log: seq<int>, lo: nat, hi: nat): nat
    requires hi <= |log|
  {
    if hi <= lo then 0 else Caps(ram, pb, log, lo, hi - 1) + Cap(ram, pb, log[hi - 1])
  }

  lemma {:induction false} CapsSplit(ram: seq<Bd>, pb: seq<Pbuf>, log: seq<int>, lo: nat, mid: nat, hi: nat)
    requires lo <= mid <= hi <= |log|
    ensures Caps(ram, pb, log, lo, hi) == Caps(ram, pb, log, lo, mid) + Caps(ram, pb, log, mid, hi)
  {
    if mid < hi {
      CapsSplit(ram, pb, log, lo, mid, hi - 1);
    }
  }

  lemma {:induction false} CapsSame(ram: seq<Bd>, pb: seq<Pbuf>, log: seq<int>, ram': seq<Bd>, pb': seq<Pbuf>,
                                    log': seq<int>, lo: nat, hi: nat)
    requires hi <= |log| && hi <= |log'|
    requires forall i :: lo <= i < hi ==> Cap(ram, pb, log[i]) == Cap(ram', pb', log'[i])
    ensures Caps(ram, pb, log, lo, hi) == Caps(ram', pb', log', lo, hi)
  {
    if lo < hi {
      CapsSame(ram, pb, log, ram', pb', log', lo, hi - 1);
    }
  }

  /** Each active descriptor has a pbuf of its own; at finds the descriptor of a pbuf. */
  ghost predicate Own(ram: seq<Bd>, pb: seq<Pbuf>, a: Log, at: seq<int>) {
    && |at| == |pb| && a.lo <= |a.log|
    && forall i {:trigger a.log[i]} :: a.lo <= i < |a.log| ==>
         && 0 <= a.log[i] < |ram|
         && 0 <= ram[a.log[i]].pbuf < |pb|
         && at[ram[a.log[i]].pbuf] == i
  }

  // ----- Assembly -----------------------------------------------------------------------

  /** The received lengths of descriptors log[lo..hi]. */
  function Lens(ram: seq<Bd>, log: seq<int>, lo: nat, hi: nat): nat
    requires hi <= |log|
  {
    if hi <= lo then 0
    else Lens(ram, log, lo, hi - 1) + (if 0 <= log[hi - 1] < |ram| then ram[log[hi - 1]].len else 0)
  }

  ghost function Id(ram: seq<Bd>, log: seq<int>, i: nat): int {
    if i < |log| && 0 <= log[i] < |ram| then ram[log[i]].pbuf else NULL
  }

  /** The pbuf of descriptor i once it is part of a chain that goes on at next: the received
      length, the frame length left from here on, and the link. */
  ghost function Piece(ram: seq<Bd>, log: seq<int>, lo: nat, i: nat, total: nat, next: int): Pbuf
    requires i < |log| && 0 <= log[i] < |ram|
  {
    Pbuf(ram[log[i]].len, (total - Lens(ram, log, lo, i)) % 0x10000, next)
  }

  /** The pbufs of descriptors log[lo..hi] are a chain in descriptor order that goes on at
      next, and the other active pbufs are as in pb0. */
  ghost predicate Assembled(ram: seq<Bd>, pb0: seq<Pbuf>, pb: seq<Pbuf>, a: Log, at: seq<int>, hi: nat,
                            total: nat, next: int)
    requires Own(ram, pb0, a, at) && a.lo <= hi <= |a.log|
  {
    && |pb| == |pb0|
    && (forall i {:trigger Lens(ram, a.log, a.lo, i)} :: a.lo <= i < hi ==>
          pb[Id(ram, a.log, i)] ==
          Piece(ram, a.log, a.lo, i, total, if i + 1 < hi then Id(ram, a.log, i + 1) else next))
    && (forall i {:trigger a.log[i]} :: hi <= i < |a.log| ==> pb[ram[a.log[i]].pbuf] == pb0[ram[a.log[i]].pbuf])
  }

  /** No EOP among descriptors log[lo..hi]. */
  ghost predicate NoEop(ram: seq<Bd>, log: seq<int>, lo: nat, hi: nat)
    requires hi <= |log|
  {
    hi <= lo || (NoEop(ram, log, lo, hi - 1) && 0 <= log[hi - 1] < |ram| && !ram[log[hi - 1]].eop)
  }

  lemma StartAssembly(ram: seq<Bd>, pb: seq<Pbuf>, a: Log, at: seq<int>, total: nat)
    requires Own(ram, pb, a, at)
    ensures Assembled(ram, pb, pb, a, at, a.lo, total, Id(ram, a.log, a.lo))
    ensures Caps(ram, pb, a.log, a.lo, a.lo) == 0 == Lens(ram, a.log, a.lo, a.lo) && NoEop(ram, a.log, a.lo, a.lo)
  {
  }

  lemma OneMore(ram: seq<Bd>, pb: seq<Pbuf>, log: seq<int>, lo: nat, hi: nat)
    requires lo <= hi < |log|
    ensures Caps(ram, pb, log, lo, hi + 1) == Caps(ram, pb, log, lo, hi) + Cap(ram, pb, log[hi])
    ensures 0 <= log[hi] < |ram| && 0 <= ram[log[hi]].pbuf < |pb| ==>
              Caps(ram, pb, log, lo, hi + 1) == Caps(ram, pb, log, lo, hi) + pb[ram[log[hi]].pbuf].len
    ensures 0 <= log[hi] < |ram| ==> Lens(ram, log, lo, hi + 1) == Lens(ram, log, lo, hi) + ram[log[hi]].len
    ensures NoEop(ram, log, lo, hi + 1) <==> NoEop(ram, log, lo, hi) && 0 <= log[hi] < |ram| && !ram[log[hi]].eop
  {
  }

  lemma Untouched(ram: seq<Bd>, pb0: seq<Pbuf>, pb: seq<Pbuf>, a: Log, at: seq<int>, hi: nat,
                  total: nat, next: int)
    requires Own(ram, pb0, a, at) && a.lo <= hi < |a.log| && Assembled(ram, pb0, pb, a, at, hi, total, next)
    ensures |pb| == |pb0| && pb[Id(ram, a.log, hi)].len == Cap(ram, pb0, a.log[hi])
  {
  }

  /** What the pass reads at active position i. */
  lemma AtPosition(ram: seq<Bd>, pb: seq<Pbuf>, place: seq<Place>, a: Log, f: Log, at: seq<int>, i: nat)
    requires Lists(ram, place, a, f) && Own(ram, pb, a, at) && a.lo <= i < |a.log|
    ensures 0 <= a.log[i] < |ram| && 0 <= ram[a.log[i]].pbuf < |pb| && Id(ram, a.log, i) == ram[a.log[i]].pbuf
    ensures ram[a.log[i]].next == At(a, i + 1)
    ensures i + 1 < |a.log| ==> 0 <= a.log[i + 1] < |ram| && Id(ram, a.log, i + 1) == ram[a.log[i + 1]].pbuf
  {
    assert i + 1 < |a.log| ==> 0 <= a.log[i + 1] < |ram|;
  }

  /** One more descriptor joins the chain. */
  lemma AssembleNext(ram: seq<Bd>, pb0: seq<Pbuf>, pb: seq<Pbuf>, a: Log, at: seq<int>, hi: nat,
                     total: nat, next: int)
    requires Own(ram, pb0, a, at) && a.lo <= hi < |a.log|
    requires Assembled(ram, pb0, pb, a, at, hi, total, Id(ram, a.log, hi))
    ensures Assembled(ram, pb0, pb[Id(ram, a.log, hi) := Piece(ram, a.log, a.lo, hi, total, next)], a, at,
                      hi + 1, total, next)
  {
    var pb' := pb[Id(ram, a.log, hi) := Piece(ram, a.log, a.lo, hi, total, next)];
    forall i | a.lo <= i < hi + 1
      ensures pb'[Id(ram, a.log, i)] ==
              Piece(ram, a.log, a.lo, i, total, if i + 1 < hi + 1 then Id(ram, a.log, i + 1) else next)
    {
      assert at[Id(ram, a.log, i)] == i;
      assert Lens(ram, a.log, a.lo, i) >= 0;
    }
  }

  /** What a descriptor write-back by the EMAC does not touch. */
  ghost predicate SameLinks(ram: seq<Bd>, ram': seq<Bd>) {
    |ram| == |ram'| && forall b :: 0 <= b < |ram| ==> ram'[b].next == ram[b].next && ram'[b].pbuf == ram[b].pbuf
  }

  lemma WriteBackKeeps(ram: seq<Bd>, ram': seq<Bd>, pb: seq<Pbuf>, place: seq<Place>, a: Log, f: Log, at: seq<int>)
    requires SameLinks(ram, ram') && Lists(ram, place, a, f) && Own(ram, pb, a, at)
    ensures Lists(ram', place, a, f) && Own(ram', pb, a, at)
    ensures Caps(ram', pb, a.log, a.lo, |a.log|) == Caps(ram, pb, a.log, a.lo, |a.log|)
    ensures EvenCaps(ram, pb, a.log, a.lo, |a.log|) ==> EvenCaps(ram', pb, a.log, a.lo, |a.log|)
  {
    hide Covered;
    CapsSame(ram, pb, a.log, ram', pb, a.log, a.lo, |a.log|);
  }

  /** A received frame leaves the other active pbufs and the byte count alone. */
  lemma FrameBytes(seen: seq<Bd>, pb0: seq<Pbuf>, pb: seq<Pbuf>, ram: seq<Bd>, ram': seq<Bd>, a: Log, at: seq<int>,
                   hi: nat, total: nat)
    requires Own(seen, pb0, a, at) && a.lo <= hi <= |a.log| && Assembled(seen, pb0, pb, a, at, hi, total, NULL)
    requires SameLinks(ram, seen) && |ram'| == |ram| && forall b :: 0 <= b < |ram| ==> ram'[b].pbuf == ram[b].pbuf
    ensures Own(ram', pb, Drop(a, hi - a.lo), at)
    ensures Caps(ram, pb0, a.log, a.lo, |a.log|) ==
            Caps(ram, pb0, a.log, a.lo, hi) + Caps(ram', pb, a.log, hi, |a.log|)
    ensures EvenCaps(ram, pb0, a.log, a.lo, |a.log|) ==> EvenCaps(ram', pb, a.log, hi, |a.log|)
  {
    CapsSplit(ram, pb0, a.log, a.lo, hi, |a.log|);
    CapsSame(ram, pb0, a.log, ram', pb, a.log, hi, |a.log|);
  }

  /** The same after the EMAC has run and the descriptors have been relinked. */
  lemma FrameCounted(ram0: seq<Bd>, ram1: seq<Bd>, ram: seq<Bd>, seen: seq<Bd>, pb0: seq<Pbuf>, pb: seq<Pbuf>, a: Log,
                     at: seq<int>, hi: nat, total: nat)
    requires SameLinks(ram0, seen) && SameLinks(ram0, ram1)
    requires |ram| == |ram1| && forall b :: 0 <= b < |ram| ==> ram[b] == ram1[b].(next := ram[b].next)
    requires Own(seen, pb0, a, at) && a.lo <= hi <= |a.log| && Assembled(seen, pb0, pb, a, at, hi, total, NULL)
    ensures Own(ram, pb, Drop(a, hi - a.lo), at)
    ensures Caps(ram0, pb0, a.log, a.lo, |a.log|) ==
            Caps(ram0, pb0, a.log, a.lo, hi) + Caps(ram, pb, a.log, hi, |a.log|)
    ensures EvenCaps(ram0, pb0, a.log, a.lo, |a.log|) ==>
              EvenCaps(ram, pb, a.log, hi, |a.log|) && Caps(ram0, pb0, a.log, a.lo, hi) % 2 == 0
  {
    hide Own, Assembled, Caps;
    FrameBytes(seen, pb0, pb, ram0, ram, a, at, hi, total);
    if EvenCaps(ram0, pb0, a.log, a.lo, |a.log|) {
      EvenSum(ram0, pb0, a.log, a.lo, hi);
    }
  }

  // ----- The EMAC -----------------------------------------------------------------------

  /** What the EMAC does: it writes status and lengths into a descriptor of its queue, or it hands
      back the first k descriptors of the queue as a frame, which clears OWNER on the first. A rogue
      EMAC writes anything but the links anywhere. */
  datatype Event =
    | Write(j: nat, len: nat, sop: bool, eop: bool, total: nat)
    | HandBack(k: nat)
    | Wild(b: int, len: nat, sop: bool, eop: bool, owner: bool, total: nat)

  /** A frame handed back: the position of its first descriptor in the active log, and its descriptors
      as they then were. */
  datatype Handed = Handed(lo: nat, cells: seq<Bd>)

  function End(h: Handed): nat { h.lo + |h.cells| }

  function Unlinked(bd: Bd): Bd { bd.(next := NULL) }

  /** SOP and not OWNER on the first descriptor, EOP on the last one only. */
  ghost predicate WellFramed(cells: seq<Bd>) {
    && cells != [] && cells[0].sop && !cells[0].owner
    && forall j :: 0 <= j < |cells| ==> (cells[j].eop <==> j == |cells| - 1)
  }

  /** The frame is still in RAM as it was handed back, except for the links. */
  ghost predicate FrameAt(ram: seq<Bd>, log: seq<int>, h: Handed) {
    && WellFramed(h.cells) && End(h) <= |log|
    && forall j: nat {:trigger CellAt(ram, log, h, j)} :: j < |h.cells| ==> CellAt(ram, log, h, j)
  }

  ghost predicate CellAt(ram: seq<Bd>, log: seq<int>, h: Handed, j: nat) {
    && j < |h.cells| && End(h) <= |log| && 0 <= log[h.lo + j] < |ram|
    && Unlinked(ram[log[h.lo + j]]) == Unlinked(h.cells[j])
  }

  /** Frame k is in place and the next one, or the EMAC's queue, follows it. */
  ghost predicate InOrder(ram: seq<Bd>, a: Log, handed: seq<Handed>, hw: nat, k: nat)
    requires k < |handed|
  {
    && a.lo <= handed[k].lo && FrameAt(ram, a.log, handed[k])
    && End(handed[k]) == if k + 1 < |handed| then handed[k + 1].lo else hw
  }

  ghost predicate Ordered(ram: seq<Bd>, a: Log, handed: seq<Handed>, got: nat, hw: nat) {
    forall k: nat {:trigger InOrder(ram, a, handed, hw, k)} :: got <= k < |handed| ==> InOrder(ram, a, handed, hw, k)
  }

  /** The active list is the frames handed back and not yet taken, from number got on, followed by the
      EMAC's queue, whose descriptors all have OWNER. */
  ghost predicate Emac(ram: seq<Bd>, a: Log, queue: seq<int>, handed: seq<Handed>, got: nat) {
    && |queue| <= |a.log| && a.lo <= |a.log| - |queue| && got <= |handed|
    && (forall j {:trigger queue[j]} :: 0 <= j < |queue| ==>
          queue[j] == a.log[|a.log| - |queue| + j] && 0 <= queue[j] < |ram| && ram[queue[j]].owner)
    && Ordered(ram, a, handed, got, |a.log| - |queue|)
    && a.lo == if got < |handed| then handed[got].lo else |a.log| - |queue|
  }

  /** The first k descriptors of the queue are a finished frame. */
  predicate Finished(ram: seq<Bd>, queue: seq<int>, k: nat) {
    && 0 < k <= |queue|
    && (forall j :: 0 <= j < k ==> 0 <= queue[j] < |ram|)
    && ram[queue[0]].sop
    && forall j :: 0 <= j < k ==> (ram[queue[j]].eop <==> j == k - 1)
  }

  /** The descriptors that are not in the EMAC's queue are as they were. */
  ghost predicate Stable(ram: seq<Bd>, ram': seq<Bd>, a: Log, hw: nat) {
    && |ram| == |ram'| && hw <= |a.log|
    && forall i {:trigger a.log[i]} :: a.lo <= i < hw ==> 0 <= a.log[i] < |ram| && ram'[a.log[i]] == ram[a.log[i]]
  }

  lemma StableFrame(ram: seq<Bd>, ram': seq<Bd>, a: Log, h: Handed, hw: nat)
    requires Stable(ram, ram', a, hw) && a.lo <= h.lo && End(h) <= hw && FrameAt(ram, a.log, h)
    ensures FrameAt(ram', a.log, h)
  {
    forall j: nat | j < |h.cells|
      ensures CellAt(ram', a.log, h, j)
    {
      assert CellAt(ram, a.log, h, j);
    }
  }

  lemma NothingDone(ram: seq<Bd>, place: seq<Place>, a: Log, f: Log, queue: seq<int>, handed: seq<Handed>, got: nat)
    requires Lists(ram, place, a, f) && Emac(ram, a, queue, handed, got)
    ensures |queue| <= |a.log| && Stable(ram, ram, a, |a.log| - |queue|)
  {
    hide Covered;
  }

  lemma QueueOwned(ram: seq<Bd>, a: Log, queue: seq<int>, handed: seq<Handed>, got: nat, j: nat)
    requires Emac(ram, a, queue, handed, got) && j < |queue|
    ensures 0 <= queue[j] < |ram| && ram[queue[j]].owner
  {
    hide Ordered;
  }

  lemma StableOn(ram0: seq<Bd>, ram1: seq<Bd>, ram2: seq<Bd>, a: Log, hw0: nat, hw1: nat)
    requires Stable(ram0, ram1, a, hw0) && Stable(ram1, ram2, a, hw1) && hw0 <= hw1
    ensures Stable(ram0, ram2, a, hw0)
  {
    forall i | a.lo <= i < hw0
      ensures 0 <= a.log[i] < |ram0| && ram2[a.log[i]] == ram0[a.log[i]]
    {
      assert ram1[a.log[i]] == ram0[a.log[i]];
    }
  }

  /** Frames end before the queue begins. */
  lemma {:induction false} EndsBefore(ram: seq<Bd>, a: Log, queue: seq<int>, handed: seq<Handed>, got: nat, k: nat)
    requires Emac(ram, a, queue, handed, got) && got <= k < |handed|
    ensures End(handed[k]) <= |a.log| - |queue|
    decreases |handed| - k
  {
    var hw := |a.log| - |queue|;
    assert InOrder(ram, a, handed, hw, k);
    if k + 1 < |handed| {
      EndsBefore(ram, a, queue, handed, got, k + 1);
    }
  }

  /** One descriptor of the queue is rewritten and stays with the EMAC. */
  lemma WriteKeeps(ram: seq<Bd>, place: seq<Place>, a: Log, queue: seq<int>, handed: seq<Handed>, got: nat, j: nat,
                   bd: Bd)
    requires Linked(ram, place, a, true) && Emac(ram, a, queue, handed, got) && j < |queue| && bd.owner
    ensures 0 <= queue[j] < |ram|
    ensures Stable(ram, ram[queue[j] := bd], a, |a.log| - |queue|)
    ensures Emac(ram[queue[j] := bd], a, queue, handed, got)
  {
    var hw := |a.log| - |queue|;
    assert queue[j] == a.log[hw + j] && place[a.log[hw + j]] == InActive(hw + j);
    var ram' := ram[queue[j] := bd];
    forall i | a.lo <= i < hw
      ensures 0 <= a.log[i] < |ram| && ram'[a.log[i]] == ram[a.log[i]]
    {
      assert place[a.log[i]] == InActive(i);
    }
    StableEmac(ram, ram', a, queue, handed, got);
  }

  lemma StableEmac(ram: seq<Bd>, ram': seq<Bd>, a: Log, queue: seq<int>, handed: seq<Handed>, got: nat)
    requires Emac(ram, a, queue, handed, got) && Stable(ram, ram', a, |a.log| - |queue|)
    requires forall j {:trigger queue[j]} :: 0 <= j < |queue| ==> 0 <= queue[j] < |ram'| && ram'[queue[j]].owner
    ensures Emac(ram', a, queue, handed, got)
  {
    var hw := |a.log| - |queue|;
    forall k: nat | got <= k < |handed|
      ensures InOrder(ram', a, handed, hw, k)
    {
      assert InOrder(ram, a, handed, hw, k);
      EndsBefore(ram, a, queue, handed, got, k);
      StableFrame(ram, ram', a, handed[k], hw);
    }
  }

  /** RAM after the first descriptor of the queue has been handed back. */
  function Cleared(ram: seq<Bd>, queue: seq<int>): seq<Bd>
    requires queue != [] && 0 <= queue[0] < |ram|
  {
    ram[queue[0] := ram[queue[0]].(owner := false)]
  }

  ghost function Cells(ram: seq<Bd>, queue: seq<int>, k: nat): seq<Bd>
    requires k <= |queue| && forall j :: 0 <= j < k ==> 0 <= queue[j] < |ram|
  {
    seq(k, j requires 0 <= j < k => ram[queue[j]])
  }

  /** A finished frame leaves the queue and joins the frames handed back. */
  lemma HandBackKeeps(ram: seq<Bd>, place: seq<Place>, a: Log, queue: seq<int>, handed: seq<Handed>, got: nat, k: nat)
    requires Linked(ram, place, a, true) && Emac(ram, a, queue, handed, got) && Finished(ram, queue, k)
    ensures var ram' := Cleared(ram, queue);
            && Stable(ram, ram', a, |a.log| - |queue|)
            && Emac(ram', a, queue[k..], handed + [Handed(|a.log| - |queue|, Cells(ram', queue, k))], got)
  {
    var hw, ram' := |a.log| - |queue|, Cleared(ram, queue);
    var h := Handed(hw, Cells(ram', queue, k));
    forall j | 0 <= j < |queue|
      ensures queue[j] == a.log[hw + j] && place[queue[j]] == InActive(hw + j)
    {
      assert queue[j] == a.log[hw + j];
    }
    forall i | a.lo <= i < hw
      ensures 0 <= a.log[i] < |ram| && ram'[a.log[i]] == ram[a.log[i]]
    {
      assert place[a.log[i]] == InActive(i);
    }
    NewFrame(ram, a, queue, k, h);
    HandBackOrder(ram, ram', a, queue, handed, got, k, h);
  }

  lemma NewFrame(ram: seq<Bd>, a: Log, queue: seq<int>, k: nat, h: Handed)
    requires Finished(ram, queue, k) && |queue| <= |a.log|
    requires forall j {:trigger queue[j]} :: 0 <= j < |queue| ==> queue[j] == a.log[|a.log| - |queue| + j]
    requires forall j :: 0 < j < k ==> queue[j] != queue[0]
    requires h == Handed(|a.log| - |queue|, Cells(Cleared(ram, queue), queue, k))
    ensures FrameAt(Cleared(ram, queue), a.log, h)
  {
    forall j: nat | j < k
      ensures CellAt(Cleared(ram, queue), a.log, h, j)
      ensures h.cells[j] == Cleared(ram, queue)[queue[j]] && h.cells[j].eop == ram[queue[j]].eop
    {
    }
  }

  lemma HandBackOrder(ram: seq<Bd>, ram': seq<Bd>, a: Log, queue: seq<int>, handed: seq<Handed>, got: nat, k: nat,
                      h: Handed)
    requires Emac(ram, a, queue, handed, got) && Stable(ram, ram', a, |a.log| - |queue|)
    requires 0 < k <= |queue| && h.lo == |a.log| - |queue| && |h.cells| == k && FrameAt(ram', a.log, h)
    requires forall j {:trigger queue[j]} :: 0 < j < |queue| ==> 0 <= queue[j] < |ram'| && ram'[queue[j]].owner
    ensures Emac(ram', a, queue[k..], handed + [h], got)
  {
    var hw, hw', queue', handed' := |a.log| - |queue|, |a.log| - |queue| + k, queue[k..], handed + [h];
    forall i: nat | got <= i < |handed'|
      ensures InOrder(ram', a, handed', hw', i)
    {
      if i < |handed| {
        assert InOrder(ram, a, handed, hw, i);
        EndsBefore(ram, a, queue, handed, got, i);
        StableFrame(ram, ram', a, handed[i], hw);
      }
    }
    forall j | 0 <= j < |queue'|
      ensures queue'[j] == a.log[|a.log| - |queue'| + j] && 0 <= queue'[j] < |ram'| && ram'[queue'[j]].owner
    {
      assert queue'[j] == queue[j + k];
    }
  }

  /** The frame at the head of the list has been taken. */
  lemma TakeKeeps(ram: seq<Bd>, ram': seq<Bd>, a: Log, queue: seq<int>, handed: seq<Handed>, got: nat)
    requires Emac(ram, a, queue, handed, got) && got < |handed|
    requires |ram'| == |ram| && forall b :: 0 <= b < |ram| ==> ram'[b] == ram[b].(next := ram'[b].next)
    ensures Emac(ram', Drop(a, |handed[got].cells|), queue, handed, got + 1)
  {
    var hw, a' := |a.log| - |queue|, Drop(a, |handed[got].cells|);
    assert InOrder(ram, a, handed, hw, got);
    EndsBefore(ram, a, queue, handed, got, got);
    forall k: nat | got + 1 <= k < |handed|
      ensures InOrder(ram', a', handed, hw, k)
    {
      assert InOrder(ram, a, handed, hw, k);
      StartsAfter(ram, a, queue, handed, got, k);
      forall j: nat | j < |handed[k].cells|
        ensures CellAt(ram', a'.log, handed[k], j)
      {
        assert CellAt(ram, a.log, handed[k], j);
      }
    }
  }

  lemma {:induction false} StartsAfter(ram: seq<Bd>, a: Log, queue: seq<int>, handed: seq<Handed>, got: nat, k: nat)
    requires Emac(ram, a, queue, handed, got) && got < k < |handed|
    ensures End(handed[got]) <= handed[k].lo
  {
    var hw, j: nat := |a.log| - |queue|, k - 1;
    assert InOrder(ram, a, handed, hw, j);
    if j > got {
      StartsAfter(ram, a, queue, handed, got, j);
    }
  }

  /** A refill changes nothing but links on the active descriptors. */
  lemma AttachSame(ram0: seq<Bd>, ram: seq<Bd>, ram': seq<Bd>, place: seq<Place>, a: Log, f: Log, base: nat,
                   m: nat, i: nat)
    requires Linked(ram0, place, a, true) && Filled(ram0, ram, place, f, base, m) && a.lo <= i < |a.log|
    requires |ram'| == |ram| && forall b :: 0 <= b < |ram| ==> ram'[b] == ram[b].(next := ram'[b].next)
    ensures 0 <= a.log[i] < |ram0| == |ram'| && Unlinked(ram'[a.log[i]]) == Unlinked(ram0[a.log[i]])
  {
    assert place[a.log[i]] == InActive(i);
  }

  lemma AttachCell(ram0: seq<Bd>, ram: seq<Bd>, ram': seq<Bd>, place: seq<Place>, a: Log, f: Log, base: nat, m: nat,
                   h: Handed)
    requires Linked(ram0, place, a, true) && Filled(ram0, ram, place, f, base, m)
    requires |ram'| == |ram| && forall b :: 0 <= b < |ram| ==> ram'[b] == ram[b].(next := ram'[b].next)
    requires a.lo <= h.lo && FrameAt(ram0, a.log, h)
    ensures FrameAt(ram', a.log + f.log[f.lo..f.lo + m], h)
  {
    hide Linked, Filled;
    FilledBounds(ram0, ram, place, f, base, m);
    var log' := a.log + f.log[f.lo..f.lo + m];
    forall j: nat | j < |h.cells|
      ensures CellAt(ram', log', h, j)
    {
      assert CellAt(ram0, a.log, h, j) && log'[h.lo + j] == a.log[h.lo + j];
      AttachSame(ram0, ram, ram', place, a, f, base, m, h.lo + j);
    }
  }

  lemma FilledBounds(ram0: seq<Bd>, ram: seq<Bd>, place: seq<Place>, f: Log, base: nat, m: nat)
    requires Filled(ram0, ram, place, f, base, m)
    ensures f.lo + m <= |f.log| && |ram| == |ram0|
    ensures forall i {:trigger f.log[i]} :: f.lo <= i < f.lo + m ==> 0 <= f.log[i] < |ram| && ram[f.log[i]].owner
  {
  }

  /** New descriptors with OWNER join the list and the queue. */
  lemma AttachEmac(ram0: seq<Bd>, ram: seq<Bd>, ram': seq<Bd>, place: seq<Place>, a: Log, f: Log, base: nat, m: nat,
                   queue: seq<int>, handed: seq<Handed>, got: nat)
    requires Linked(ram0, place, a, true) && Filled(ram0, ram, place, f, base, m)
    requires |ram'| == |ram| && forall b :: 0 <= b < |ram| ==> ram'[b] == ram[b].(next := ram'[b].next)
    requires Emac(ram0, a, queue, handed, got)
    ensures f.lo + m <= |f.log|
    ensures var s := f.log[f.lo..f.lo + m]; Emac(ram', Append(a, s), queue + s, handed, got)
  {
    hide Linked, Filled, FrameAt;
    FilledBounds(ram0, ram, place, f, base, m);
    var s := f.log[f.lo..f.lo + m];
    var a', queue', hw := Append(a, s), queue + s, |a.log| - |queue|;
    forall j | 0 <= j < |queue'|
      ensures queue'[j] == a'.log[hw + j] && 0 <= queue'[j] < |ram'| && ram'[queue'[j]].owner
    {
      if j < |queue| {
        assert queue'[j] == queue[j] == a.log[hw + j] == a'.log[hw + j];
        AttachSame(ram0, ram, ram', place, a, f, base, m, hw + j);
        assert Unlinked(ram'[queue[j]]).owner == ram'[queue[j]].owner;
      } else {
        assert queue'[j] == f.log[f.lo + j - |queue|];
      }
    }
    forall k: nat | got <= k < |handed|
      ensures InOrder(ram', a', handed, hw, k)
    {
      assert InOrder(ram0, a, handed, hw, k);
      AttachCell(ram0, ram, ram', place, a, f, base, m, handed[k]);
    }
    assert |a'.log| - |queue'| == hw;
  }

  lemma FreshEmac(n: nat)
    ensures Own(FreshRam(n), [], Log([], 0), []) && Emac(FreshRam(n), Log([], 0), [], [], 0)
  {
  }

  /** What the head of the list says about the frames handed back. */
  lemma HeadSays(ram: seq<Bd>, a: Log, queue: seq<int>, handed: seq<Handed>, got: nat)
    requires Emac(ram, a, queue, handed, got)
    ensures got <= |handed|
    ensures got < |handed| ==> a.lo < |a.log| && 0 <= First(a) < |ram| && ram[First(a)].sop && !ram[First(a)].owner
    ensures got == |handed| && a.lo < |a.log| ==> 0 <= First(a) < |ram| && ram[First(a)].owner
    ensures got < |handed| ==> FrameAt(ram, a.log, handed[got]) && handed[got].lo == a.lo
                               && End(handed[got]) <= |a.log| - |queue|
  {
    if got < |handed| {
      assert InOrder(ram, a, handed, |a.log| - |queue|, got);
      EndsBefore(ram, a, queue, handed, got, got);
      assert CellAt(ram, a.log, handed[got], 0);
    } else if a.lo < |a.log| {
      assert queue[0] == a.log[a.lo];
    }
  }

  // ----- Frames as the driver reads them ------------------------------------------------

  /** seen holds the descriptors up to position hi as the driver read them and the others as they are. */
  ghost predicate ReadTo(seen: seq<Bd>, ram: seq<Bd>, place: seq<Place>, hi: nat) {
    && SameLinks(seen, ram) && |place| == |ram|
    && forall b {:trigger seen[b]} :: 0 <= b < |ram| && !(place[b].InActive? && place[b].j < hi) ==> seen[b] == ram[b]
  }

  ghost function Mix(seen: seq<Bd>, ram: seq<Bd>, place: seq<Place>, hi: nat): (r: seq<Bd>)
    requires |seen| == |ram| == |place|
    ensures |r| == |ram|
    ensures forall b :: 0 <= b < |ram| ==> r[b] == if place[b].InActive? && place[b].j < hi then seen[b] else ram[b]
  {
    seq(|ram|, b requires 0 <= b < |ram| => if place[b].InActive? && place[b].j < hi then seen[b] else ram[b])
  }

  lemma StartReading(ram: seq<Bd>, place: seq<Place>, a: Log, f: Log)
    requires Lists(ram, place, a, f)
    ensures ReadTo(ram, ram, place, a.lo) && SameLinks(ram, ram)
  {
    hide Covered;
  }

  /** What the driver finds at position hi. */
  lemma ReadAt(seen: seq<Bd>, ram: seq<Bd>, ram0: seq<Bd>, pb0: seq<Pbuf>, place: seq<Place>, a: Log, f: Log, hi: nat)
    requires Lists(ram, place, a, f) && ReadTo(seen, ram, place, hi) && SameLinks(ram0, seen) && a.lo <= hi < |a.log|
    ensures Lists(seen, place, a, f) && SameLinks(seen, ram) && SameLinks(ram0, ram)
    ensures 0 <= a.log[hi] < |ram| == |seen| && seen[a.log[hi]] == ram[a.log[hi]]
    ensures Cap(seen, pb0, a.log[hi]) == Cap(ram0, pb0, a.log[hi]) && 0 <= First(a) < |seen|
  {
    hide Covered;
    assert place[a.log[hi]] == InActive(hi);
    assert 0 <= a.log[a.lo] < |ram|;
  }

  lemma ReadMore(seen: seq<Bd>, ram: seq<Bd>, place: seq<Place>, hi: nat)
    requires ReadTo(seen, ram, place, hi)
    ensures ReadTo(seen, ram, place, hi + 1)
  {
  }

  lemma SameId(ram0: seq<Bd>, seen: seq<Bd>, seen': seq<Bd>, log: seq<int>, i: nat)
    requires SameLinks(ram0, seen) && SameLinks(ram0, seen')
    ensures Id(seen', log, i) == Id(seen, log, i)
  {
  }

  lemma OwnSamePb(ram: seq<Bd>, pb: seq<Pbuf>, pb': seq<Pbuf>, a: Log, at: seq<int>)
    requires Own(ram, pb, a, at) && |pb'| == |pb|
    ensures Own(ram, pb', a, at)
  {
  }

  lemma MixLinks(seen: seq<Bd>, ram: seq<Bd>, ram': seq<Bd>, place: seq<Place>, hi: nat)
    requires ReadTo(seen, ram, place, hi) && SameLinks(ram, ram')
    ensures |seen| == |ram'| == |place|
    ensures ReadTo(Mix(seen, ram', place, hi), ram', place, hi) && SameLinks(seen, Mix(seen, ram', place, hi))
  {
  }

  lemma MixRead(seen: seq<Bd>, ram: seq<Bd>, place: seq<Place>, a: Log, hi: nat)
    requires Linked(ram, place, a, true) && |seen| == |ram| && hi <= |a.log|
    ensures forall i {:trigger a.log[i]} :: a.lo <= i < hi ==>
              0 <= a.log[i] < |seen| && Mix(seen, ram, place, hi)[a.log[i]] == seen[a.log[i]]
  {
  }

  /** What was assembled from the descriptors read stays assembled. */
  lemma AssembledSame(seen: seq<Bd>, seen': seq<Bd>, pb0: seq<Pbuf>, pb: seq<Pbuf>, a: Log, at: seq<int>, hi: nat,
                      total: nat, next: int)
    requires Own(seen, pb0, a, at) && a.lo <= hi <= |a.log| && Assembled(seen, pb0, pb, a, at, hi, total, next)
    requires SameLinks(seen, seen')
    requires forall i {:trigger a.log[i]} :: a.lo <= i < hi ==>
               0 <= a.log[i] < |seen| && seen'[a.log[i]] == seen[a.log[i]]
    ensures Own(seen', pb0, a, at) && Assembled(seen', pb0, pb, a, at, hi, total, next)
  {
    assert Own(seen', pb0, a, at);
    forall i | a.lo <= i < |a.log|
      ensures Id(seen', a.log, i) == Id(seen, a.log, i)
    {
      assert 0 <= a.log[i] < |seen|;
    }
    forall i | a.lo <= i < hi
      ensures Lens(seen', a.log, a.lo, i) == Lens(seen, a.log, a.lo, i)
      ensures pb[Id(seen', a.log, i)] ==
              Piece(seen', a.log, a.lo, i, total, if i + 1 < hi then Id(seen', a.log, i + 1) else next)
    {
      ReadSame(seen, seen', a.log, a.lo, i);
      assert Lens(seen, a.log, a.lo, i) >= 0;
    }
  }

  /** The EMAC ran while the driver was between two descriptors. */
  lemma MixKeeps(seen: seq<Bd>, ram: seq<Bd>, ram': seq<Bd>, pb0: seq<Pbuf>, pb: seq<Pbuf>, place: seq<Place>, a: Log,
                 at: seq<int>, hi: nat, total: nat, next: int)
    requires Linked(ram, place, a, true) && ReadTo(seen, ram, place, hi) && SameLinks(ram, ram')
    requires Linked(ram', place, a, true)
    requires Own(seen, pb0, a, at) && a.lo <= hi <= |a.log| && Assembled(seen, pb0, pb, a, at, hi, total, next)
    requires NoEop(seen, a.log, a.lo, hi)
    ensures |seen| == |ram'| == |place|
    ensures var seen' := Mix(seen, ram', place, hi);
            && ReadTo(seen', ram', place, hi) && SameLinks(seen, seen')
            && Own(seen', pb0, a, at) && Assembled(seen', pb0, pb, a, at, hi, total, next)
            && NoEop(seen', a.log, a.lo, hi) && Lens(seen', a.log, a.lo, hi) == Lens(seen, a.log, a.lo, hi)
  {
    hide Linked, Assembled, Own, Mix, ReadTo, NoEop, Lens;
    MixLinks(seen, ram, ram', place, hi);
    var seen' := Mix(seen, ram', place, hi);
    MixRead(seen, ram', place, a, hi);
    AssembledSame(seen, seen', pb0, pb, a, at, hi, total, next);
    ReadSame(seen, seen', a.log, a.lo, hi);
  }

  lemma {:induction false} ReadSame(seen: seq<Bd>, seen': seq<Bd>, log: seq<int>, lo: nat, hi: nat)
    requires hi <= |log|
    requires forall i {:trigger log[i]} :: lo <= i < hi ==>
               0 <= log[i] < |seen| == |seen'| && seen'[log[i]] == seen[log[i]]
    ensures Lens(seen', log, lo, hi) == Lens(seen, log, lo, hi)
    ensures NoEop(seen, log, lo, hi) ==> NoEop(seen', log, lo, hi)
  {
    if lo < hi {
      ReadSame(seen, seen', log, lo, hi - 1);
      assert seen'[log[hi - 1]] == seen[log[hi - 1]];
    }
  }

  lemma MixFrame(seen: seq<Bd>, ram: seq<Bd>, ram': seq<Bd>, place: seq<Place>, a: Log, h: Handed, hi: nat, hw: nat)
    requires Linked(ram, place, a, true) && ReadTo(seen, ram, place, hi) && Stable(ram, ram', a, hw)
    requires a.lo <= h.lo && End(h) <= hw && FrameAt(seen, a.log, h)
    ensures |ram'| == |seen| == |place| && FrameAt(Mix(seen, ram', place, hi), a.log, h)
  {
    var seen' := Mix(seen, ram', place, hi);
    forall j: nat | j < |h.cells|
      ensures CellAt(seen', a.log, h, j)
    {
      var i := h.lo + j;
      assert CellAt(seen, a.log, h, j);
      assert place[a.log[i]] == InActive(i) && ram'[a.log[i]] == ram[a.log[i]];
      assert i >= hi ==> seen[a.log[i]] == ram[a.log[i]];
    }
  }

  lemma {:induction false} NoEopAt(ram: seq<Bd>, log: seq<int>, lo: nat, hi: nat, i: nat)
    requires hi <= |log| && NoEop(ram, log, lo, hi) && lo <= i < hi
    ensures 0 <= log[i] < |ram| && !ram[log[i]].eop
  {
    if i < hi - 1 {
      NoEopAt(ram, log, lo, hi - 1, i);
    }
  }

  /** Reading up to the first EOP reads exactly the frame that was handed back. */
  lemma WholeFrame(seen: seq<Bd>, log: seq<int>, h: Handed, hi: nat)
    requires FrameAt(seen, log, h) && h.lo < hi <= |log| && NoEop(seen, log, h.lo, hi - 1)
    requires 0 <= log[hi - 1] < |seen| && (seen[log[hi - 1]].eop || hi == |log|)
    ensures hi == End(h) && seen[log[hi - 1]].eop
  {
    var last, mine: nat := |h.cells| - 1, hi - 1 - h.lo;
    assert CellAt(seen, log, h, last);
    assert mine < |h.cells| ==> CellAt(seen, log, h, mine);
    if last < mine {
      NoEopAt(seen, log, h.lo, hi - 1, h.lo + last);
    }
  }

  /** A frame taken off the active list: its descriptors in order, RAM as the driver read it, the pbufs
      as they were when the frame was passed on, and whether the list ended without EOP. */
  datatype Taken = Taken(bds: seq<int>, seen: seq<Bd>, pbs: seq<Pbuf>, corrupt: bool)

  ghost predicate BdOk(t: Taken, j: nat) {
    j < |t.bds| && 0 <= t.bds[j] < |t.seen| && 0 <= t.seen[t.bds[j]].pbuf < |t.pbs|
  }

  /** Pbuf j of the delivered chain: its len is the length in descriptor j, its next the pbuf of the
      next descriptor, and its tot_len, 16 bits wide, is the frame length of the first descriptor at
      the head and otherwise what its predecessor's len leaves of the predecessor's tot_len. */
  ghost predicate LinkOk(t: Taken, j: nat) {
    && BdOk(t, j)
    && var p := t.pbs[t.seen[t.bds[j]].pbuf];
       && p.len == t.seen[t.bds[j]].len
       && 0 <= p.totLen < 0x10000
       && (j == 0 ==> p.totLen == t.seen[t.bds[0]].total % 0x10000)
       && (if j + 1 < |t.bds|
           then BdOk(t, j + 1) && Chained(p, t.seen[t.bds[j + 1]].pbuf, t.pbs)
           else p.next == NULL)
  }

  /** p is followed by pbuf id and its tot_len counts its own bytes on top of that one's. */
  ghost predicate Chained(p: Pbuf, id: int, pbs: seq<Pbuf>) {
    p.next == id && 0 <= id < |pbs| && p.totLen == (p.len + pbs[id].totLen) % 0x10000
  }

  /** A frame starts with SOP and without OWNER, has EOP on its last descriptor and no earlier, or is
      corrupt, and its pbufs form a chain in descriptor order that ends in NULL. */
  ghost predicate IsFrame(t: Taken) {
    && 0 < |t.bds| && (forall j: nat {:trigger LinkOk(t, j)} :: j < |t.bds| ==> LinkOk(t, j))
    && 0 <= t.bds[0] < |t.seen| && t.seen[t.bds[0]].sop && !t.seen[t.bds[0]].owner
    && NoEop(t.seen, t.bds, 0, |t.bds| - 1)
    && 0 <= t.bds[|t.bds| - 1] < |t.seen| && (t.corrupt <==> !t.seen[t.bds[|t.bds| - 1]].eop)
  }

  /** It is the frame that was handed back as h. */
  ghost predicate IsHanded(t: Taken, h: Handed) {
    && |t.bds| == |h.cells| && !t.corrupt
    && forall j {:trigger h.cells[j]} :: 0 <= j < |h.cells| ==>
         0 <= t.bds[j] < |t.seen| && Unlinked(t.seen[t.bds[j]]) == Unlinked(h.cells[j])
  }

  lemma {:induction false} SliceSame(ram: seq<Bd>, log: seq<int>, lo: nat, hi: nat, j: nat)
    requires lo + j <= hi <= |log|
    ensures NoEop(ram, log[lo..hi], 0, j) <==> NoEop(ram, log, lo, lo + j)
  {
    if j > 0 {
      SliceSame(ram, log, lo, hi, j - 1);
      assert log[lo..hi][j - 1] == log[lo + j - 1];
    }
  }

  lemma PieceLeft(x: int, len: nat)
    ensures 0 <= x % 0x10000 < 0x10000
    ensures x % 0x10000 == (len + (x - len) % 0x10000) % 0x10000
  {
  }

  /** What Assembled says about descriptor i without the running sum. */
  lemma AssembledAt(seen: seq<Bd>, pb0: seq<Pbuf>, pb: seq<Pbuf>, a: Log, at: seq<int>, hi: nat, total: nat, i: nat)
    requires Own(seen, pb0, a, at) && a.lo <= i < hi <= |a.log| && total < 0x10000
    requires Assembled(seen, pb0, pb, a, at, hi, total, NULL)
    ensures 0 <= a.log[i] < |seen| && 0 <= seen[a.log[i]].pbuf < |pb|
    ensures var p := pb[seen[a.log[i]].pbuf];
            && p.len == seen[a.log[i]].len && 0 <= p.totLen < 0x10000
            && (i == a.lo ==> p.totLen == total)
            && (i + 1 == hi ==> p.next == NULL)
            && (i + 1 < hi ==> 0 <= a.log[i + 1] < |seen| && Chained(p, seen[a.log[i + 1]].pbuf, pb))
  {
    var left := total - Lens(seen, a.log, a.lo, i);
    PieceLeft(left, seen[a.log[i]].len);
    OneMore(seen, pb0, a.log, a.lo, i);
    assert i + 1 < hi ==> Lens(seen, a.log, a.lo, i + 1) == total - left + seen[a.log[i]].len;
  }

  lemma AssembledLinks(seen: seq<Bd>, pb0: seq<Pbuf>, pb: seq<Pbuf>, a: Log, at: seq<int>, hi: nat, total: nat)
    requires Own(seen, pb0, a, at) && a.lo < hi <= |a.log| && total < 0x10000 && 0 <= First(a) < |seen|
    requires Assembled(seen, pb0, pb, a, at, hi, total, NULL)
    ensures forall i {:trigger a.log[i]} :: a.lo <= i < hi ==>
              && 0 <= a.log[i] < |seen| && 0 <= seen[a.log[i]].pbuf < |pb|
              && pb[seen[a.log[i]].pbuf].len == seen[a.log[i]].len
    ensures pb[seen[First(a)].pbuf].totLen == total
    ensures forall i, k {:trigger a.log[i], a.log[k]} :: a.lo <= i && k == i + 1 && k < hi ==>
              var p, q := pb[seen[a.log[i]].pbuf], pb[seen[a.log[k]].pbuf];
              p.next == seen[a.log[k]].pbuf && p.totLen == (p.len + q.totLen) % 0x10000
  {
    hide Assembled, Own;
    forall i: nat | a.lo <= i < hi
      ensures 0 <= a.log[i] < |seen| && 0 <= seen[a.log[i]].pbuf < |pb|
      ensures pb[seen[a.log[i]].pbuf].len == seen[a.log[i]].len
      ensures i == a.lo ==> pb[seen[a.log[i]].pbuf].totLen == total
      ensures i + 1 < hi ==> 0 <= a.log[i + 1] < |seen| && Chained(pb[seen[a.log[i]].pbuf], seen[a.log[i + 1]].pbuf, pb)
    {
      AssembledAt(seen, pb0, pb, a, at, hi, total, i);
    }
    assert a.log[a.lo] == First(a);
  }

  lemma LinkTaken(seen: seq<Bd>, pb0: seq<Pbuf>, pb: seq<Pbuf>, a: Log, at: seq<int>, hi: nat, corrupt: bool, j: nat)
    requires Own(seen, pb0, a, at) && a.lo < hi <= |a.log| && j < hi - a.lo && 0 <= First(a) < |seen|
    requires Assembled(seen, pb0, pb, a, at, hi, seen[First(a)].total % 0x10000, NULL)
    ensures LinkOk(Taken(a.log[a.lo..hi], seen, pb, corrupt), j)
  {
    var t, i := Taken(a.log[a.lo..hi], seen, pb, corrupt), a.lo + j;
    assert t.bds[j] == a.log[i] && t.bds[0] == First(a);
    AssembledAt(seen, pb0, pb, a, at, hi, seen[First(a)].total % 0x10000, i);
    if j + 1 < |t.bds| {
      assert t.bds[j + 1] == a.log[i + 1];
    }
  }

  /** The assembled frame as a value of its own. */
  lemma FrameTaken(seen: seq<Bd>, pb0: seq<Pbuf>, pb: seq<Pbuf>, a: Log, at: seq<int>, hi: nat, corrupt: bool)
    requires Own(seen, pb0, a, at) && a.lo < hi <= |a.log| && 0 <= First(a) < |seen|
    requires Assembled(seen, pb0, pb, a, at, hi, seen[First(a)].total % 0x10000, NULL)
    requires seen[First(a)].sop && !seen[First(a)].owner && NoEop(seen, a.log, a.lo, hi - 1)
    requires 0 <= a.log[hi - 1] < |seen| && (corrupt <==> !seen[a.log[hi - 1]].eop)
    ensures IsFrame(Taken(a.log[a.lo..hi], seen, pb, corrupt))
  {
    hide Assembled, LinkOk, Own;
    var t := Taken(a.log[a.lo..hi], seen, pb, corrupt);
    forall j: nat | j < |t.bds|
      ensures LinkOk(t, j)
    {
      LinkTaken(seen, pb0, pb, a, at, hi, corrupt, j);
    }
    SliceSame(seen, a.log, a.lo, hi, hi - 1 - a.lo);
    assert t.bds[0] == First(a) && t.bds[|t.bds| - 1] == a.log[hi - 1];
  }

  /** What the stack finds in the chain of a frame: received lengths, links in descriptor order ending in
      NULL, the frame length of the first descriptor at the head, and tot_len going down by len from
      each pbuf to the next, all in 16 bits. */
  lemma FrameLinks(t: Taken, j: nat)
    requires IsFrame(t) && j < |t.bds|
    ensures 0 <= t.bds[j] < |t.seen| && 0 <= t.seen[t.bds[j]].pbuf < |t.pbs|
    ensures var p := t.pbs[t.seen[t.bds[j]].pbuf];
            && p.len == t.seen[t.bds[j]].len && 0 <= p.totLen < 0x10000
            && (j == 0 ==> p.totLen == t.seen[t.bds[0]].total % 0x10000)
            && (j + 1 == |t.bds| ==> p.next == NULL)
            && (j + 1 < |t.bds| ==>
                  && 0 <= t.bds[j + 1] < |t.seen| && 0 <= t.seen[t.bds[j + 1]].pbuf < |t.pbs|
                  && p.next == t.seen[t.bds[j + 1]].pbuf
                  && p.totLen == (p.len + t.pbs[t.seen[t.bds[j + 1]].pbuf].totLen) % 0x10000)
  {
    assert LinkOk(t, j);
  }

  lemma HandedTaken(seen: seq<Bd>, log: seq<int>, h: Handed, t: Taken)
    requires FrameAt(seen, log, h) && t.bds == log[h.lo..End(h)] && t.seen == seen && !t.corrupt
    ensures IsHanded(t, h)
  {
    forall j | 0 <= j < |h.cells|
      ensures 0 <= t.bds[j] < |seen| && Unlinked(seen[t.bds[j]]) == Unlinked(h.cells[j])
    {
      var i: nat := j;
      assert CellAt(seen, log, h, i) && t.bds[j] == log[h.lo + j];
    }
  }

  /** chain holds the pbufs of a frame in descriptor order, and rest the sums of their len fields, added
      up from the end of the chain. */
  ghost predicate Summed(t: Taken, chain: seq<Pbuf>, rest: seq<int>) {
    && |chain| == |t.bds| && |rest| == |chain| + 1 && rest[|chain|] == 0
    && forall j: nat {:trigger chain[j]} :: j < |chain| ==>
         && BdOk(t, j) && chain[j] == t.pbs[t.seen[t.bds[j]].pbuf]
         && rest[j] == chain[j].len + rest[j + 1]
  }

  /** In a delivered chain every tot_len is its own len plus all following lens exactly when the lens
      add up to the length in the first descriptor. */
  lemma SuffixSums(t: Taken, chain: seq<Pbuf>, rest: seq<int>)
    requires IsFrame(t) && Summed(t, chain, rest)
    ensures (forall j {:trigger chain[j]} :: 0 <= j < |chain| ==> chain[j].totLen == rest[j])
            <==> rest[0] == t.seen[t.bds[0]].total % 0x10000
  {
    TotAt(t, chain, rest, 0);
    if rest[0] == t.seen[t.bds[0]].total % 0x10000 {
      forall j | 0 <= j < |chain|
        ensures chain[j].totLen == rest[j]
      {
        TotAt(t, chain, rest, j);
      }
    }
  }

  lemma {:induction false} RestPositive(t: Taken, chain: seq<Pbuf>, rest: seq<int>, j: nat)
    requires Summed(t, chain, rest) && j <= |chain|
    ensures rest[j] >= 0
    decreases |chain| - j
  {
    if j < |chain| {
      assert chain[j].len >= 0;
      RestPositive(t, chain, rest, j + 1);
    }
  }

  lemma {:induction false} TotAt(t: Taken, chain: seq<Pbuf>, rest: seq<int>, j: nat)
    requires IsFrame(t) && Summed(t, chain, rest) && j < |chain|
    ensures chain[0].totLen == t.seen[t.bds[0]].total % 0x10000
    ensures rest[0] == t.seen[t.bds[0]].total % 0x10000 ==> chain[j].totLen == rest[j]
  {
    hide NoEop;
    assert LinkOk(t, j) && chain[j] == t.pbs[t.seen[t.bds[j]].pbuf];
    if j > 0 {
      var i := j - 1;
      TotAt(t, chain, rest, i);
      assert LinkOk(t, i) && chain[i] == t.pbs[t.seen[t.bds[i]].pbuf];
      RestPositive(t, chain, rest, j);
      if rest[i] == chain[i].totLen {
        SameLow16(chain[i].len, chain[j].totLen, rest[j]);
      }
    }
  }

  lemma SameLow16(len: nat, tot: int, rest: int)
    requires 0 <= tot < 0x10000 && 0 <= rest && len + rest < 0x10000 && len + rest == (len + tot) % 0x10000
    ensures tot == rest
  {
  }

  /** The descriptors of the frames of a pass, one frame after the other. */
  ghost function AllBds(ts: seq<Taken>): seq<int> {
    if ts == [] then [] else AllBds(ts[..|ts| - 1]) + ts[|ts| - 1].bds
  }

  /** What goes to netif->input: the first pbufs of the frames that are not corrupt. */
  function Delivered(ts: seq<Taken>): seq<int> {
    if ts == [] then [] else Delivered(ts[..|ts| - 1]) + Heads(ts[|ts| - 1])
  }

  function Heads(t: Taken): seq<int> {
    if t.corrupt || t.bds == [] || !(0 <= t.bds[0] < |t.seen|) then [] else [t.seen[t.bds[0]].pbuf]
  }

  /** The frames of a pass are the frames handed back from number got on, in order and once each. */
  ghost predicate AsHanded(ts: seq<Taken>, handed: seq<Handed>, got: nat) {
    && got + |ts| <= |handed|
    && forall k {:trigger ts[k]} :: 0 <= k < |ts| ==> IsHanded(ts[k], handed[got + k])
  }

  ghost predicate AllFrames(ts: seq<Taken>) {
    forall k {:trigger ts[k]} :: 0 <= k < |ts| ==> IsFrame(ts[k])
  }

  /** What a pass has done so far: the descriptors log[lo0..lo] made up the frames taken, those that are
      not corrupt have been delivered, and with a well-behaved EMAC they are the frames it handed back
      from number got0 on. */
  ghost predicate PassDone(ts: seq<Taken>, delivered: seq<int>, log: seq<int>, lo0: nat, lo: nat, rogue: bool,
                           handed: seq<Handed>, got0: nat, got: nat) {
    && lo0 <= lo <= |log| && AllBds(ts) == log[lo0..lo] && AllFrames(ts) && delivered == Delivered(ts)
    && (!rogue ==> got == got0 + |ts| && AsHanded(ts, handed, got0))
  }

  lemma PassBegins(log: seq<int>, lo: nat, rogue: bool, handed: seq<Handed>, got: nat)
    requires lo <= |log| && (!rogue ==> got <= |handed|)
    ensures PassDone([], [], log, lo, lo, rogue, handed, got, got)
  {
  }

  /** One more frame. */
  lemma PassNext(ts: seq<Taken>, delivered: seq<int>, log: seq<int>, log': seq<int>, lo0: nat, lo: nat, lo': nat,
                 rogue: bool, handed: seq<Handed>, handed': seq<Handed>, got0: nat, got: nat, t: Taken)
    requires PassDone(ts, delivered, log, lo0, lo, rogue, handed, got0, got)
    requires log <= log' && lo <= lo' <= |log'| && IsFrame(t) && t.bds == log'[lo..lo']
    requires !rogue ==> handed <= handed' && got < |handed'| && IsHanded(t, handed'[got])
    ensures PassDone(ts + [t], delivered + Heads(t), log', lo0, lo', rogue, handed', got0, got + 1)
  {
    hide IsFrame, IsHanded, Heads;
    assert (ts + [t])[..|ts|] == ts;
    assert log'[lo0..lo'] == log[lo0..lo] + log'[lo..lo'];
  }

  /** One more frame adds its descriptors, and its first pbuf if it is not corrupt. */
  lemma FrameAdds(ts: seq<Taken>, t: Taken)
    requires IsFrame(t)
    ensures AllBds([]) == [] == Delivered([])
    ensures AllBds(ts + [t]) == AllBds(ts) + t.bds
    ensures Delivered(ts + [t]) == Delivered(ts) + if t.corrupt then [] else [t.seen[t.bds[0]].pbuf]
  {
    hide NoEop;
    assert (ts + [t])[..|ts|] == ts;
  }

  lemma {:induction false} AllDelivered(ts: seq<Taken>)
    requires forall k :: 0 <= k < |ts| ==> IsFrame(ts[k]) && !ts[k].corrupt
    ensures |Delivered(ts)| == |ts|
    ensures forall k {:trigger ts[k]} :: 0 <= k < |ts| ==>
              && 0 < |ts[k].bds| && 0 <= ts[k].bds[0] < |ts[k].seen|
              && Delivered(ts)[k] == ts[k].seen[ts[k].bds[0]].pbuf
  {
    hide NoEop, LinkOk;
    if ts != [] {
      AllDelivered(ts[..|ts| - 1]);
    }
  }

  /** With a well-behaved EMAC a pass delivers one pbuf for each frame handed back, frame by frame: the
      one on its first descriptor. */
  lemma PassDelivers(ts: seq<Taken>, delivered: seq<int>, log: seq<int>, lo0: nat, lo: nat, handed: seq<Handed>,
                     got0: nat, got: nat)
    requires PassDone(ts, delivered, log, lo0, lo, false, handed, got0, got)
    ensures |delivered| == |ts| == got - got0 && got <= |handed|
    ensures forall k {:trigger ts[k]} :: 0 <= k < |ts| ==>
              && 0 < |ts[k].bds| == |handed[got0 + k].cells| && 0 <= ts[k].bds[0] < |ts[k].seen|
              && delivered[k] == ts[k].seen[ts[k].bds[0]].pbuf == handed[got0 + k].cells[0].pbuf
  {
    hide NoEop, LinkOk, AllBds, Delivered;
    AllDelivered(ts);
    forall k | 0 <= k < |ts|
      ensures ts[k].seen[ts[k].bds[0]].pbuf == handed[got0 + k].cells[0].pbuf
    {
      assert IsHanded(ts[k], handed[got0 + k]);
    }
  }

  /** The EMAC hands back more frames. */
  lemma PassOn(ts: seq<Taken>, delivered: seq<int>, log: seq<int>, lo0: nat, lo: nat, rogue: bool, handed: seq<Handed>,
               handed': seq<Handed>, got0: nat, got: nat)
    requires PassDone(ts, delivered, log, lo0, lo, rogue, handed, got0, got) && (!rogue ==> handed <= handed')
    ensures PassDone(ts, delivered, log, lo0, lo, rogue, handed', got0, got)
  {
  }

  // ----- Refill -------------------------------------------------------------------------

  function Total(lens: seq<nat>, m: nat): nat
    requires m <= |lens|
  {
    if m == 0 then 0 else Total(lens, m - 1) + lens[m - 1]
  }

  /** The first m free descriptors carry the first m pbufs of a new chain and belong to the
      EMAC; nothing else has changed. */
  ghost predicate Filled(ram0: seq<Bd>, ram: seq<Bd>, place: seq<Place>, f: Log, base: nat, m: nat) {
    && |ram| == |ram0| == |place| && f.lo + m <= |f.log|
    && (forall b :: 0 <= b < |ram| ==> ram[b].next == ram0[b].next)
    && (forall i {:trigger f.log[i]} :: f.lo <= i < f.lo + m ==>
          0 <= f.log[i] < |ram| && ram[f.log[i]].pbuf == base + i - f.lo && ram[f.log[i]].owner)
    && (forall b {:trigger ram[b]} :: 0 <= b < |ram| && (place[b].InActive? || place[b].j >= f.lo + m) ==>
          ram[b] == ram0[b])
  }

  function Given(bd: Bd, len: nat, pbuf: int): Bd {
    Bd(bd.next, len, false, false, true, 0, pbuf)
  }

  lemma FillNext(ram0: seq<Bd>, ram: seq<Bd>, place: seq<Place>, f: Log, base: nat, m: nat, len: nat)
    requires Linked(ram0, place, f, false) && Filled(ram0, ram, place, f, base, m) && f.lo + m < |f.log|
    ensures var b := f.log[f.lo + m];
            0 <= b < |ram| && Filled(ram0, ram[b := Given(ram[b], len, base + m)], place, f, base, m + 1)
            && ram[b].next == At(f, f.lo + m + 1) && (f.lo + m + 1 < |f.log| ==> ram[b].next != NULL)
  {
    var b := f.log[f.lo + m];
    assert place[b] == InFree(f.lo + m);
    assert ram0[f.log[f.lo + m]].next == At(f, f.lo + m + 1);
    var ram' := ram[b := Given(ram[b], len, base + m)];
    forall i | f.lo <= i < f.lo + m
      ensures ram'[f.log[i]] == ram[f.log[i]]
    {
      assert place[f.log[i]] == InFree(i);
    }
  }

  /** The first m free descriptors as the refill writes them: the length of their pbuf, OWNER alone in the
      flags word, and the pbuf. */
  ghost predicate Hung(ram: seq<Bd>, f: Log, base: nat, lens: seq<nat>, m: nat) {
    && f.lo + m <= |f.log| && m <= |lens|
    && forall i {:trigger f.log[i]} :: f.lo <= i < f.lo + m ==>
         && 0 <= f.log[i] < |ram|
         && ram[f.log[i]] == Bd(ram[f.log[i]].next, lens[i - f.lo], false, false, true, 0, base + i - f.lo)
  }

  lemma HungNone(ram: seq<Bd>, f: Log, base: nat, lens: seq<nat>)
    ensures f.lo <= |f.log| ==> Hung(ram, f, base, lens, 0)
  {
  }

  lemma HungSays(ram: seq<Bd>, f: Log, base: nat, lens: seq<nat>, m: nat)
    requires Hung(ram, f, base, lens, m)
    ensures f.lo + m <= |f.log| && m <= |lens|
    ensures forall i {:trigger f.log[i]} :: f.lo <= i < f.lo + m ==>
              && 0 <= f.log[i] < |ram|
              && ram[f.log[i]] == Bd(ram[f.log[i]].next, lens[i - f.lo], false, false, true, 0, base + i - f.lo)
  {
  }

  lemma HungNext(ram: seq<Bd>, place: seq<Place>, f: Log, base: nat, lens: seq<nat>, m: nat)
    requires Linked(ram, place, f, false) && Hung(ram, f, base, lens, m) && f.lo + m < |f.log| && m < |lens|
    ensures var b := f.log[f.lo + m];
            0 <= b < |ram| && Hung(ram[b := Given(ram[b], lens[m], base + m)], f, base, lens, m + 1)
  {
    var b := f.log[f.lo + m];
    forall i | f.lo <= i < f.lo + m
      ensures f.log[i] != b
    {
      assert place[f.log[i]] == InFree(i) && place[b] == InFree(f.lo + m);
    }
  }

  lemma FilledLinked(ram0: seq<Bd>, ram: seq<Bd>, place: seq<Place>, f: Log, base: nat, m: nat)
    requires Linked(ram0, place, f, false) && Filled(ram0, ram, place, f, base, m)
    ensures Linked(ram, place, f, false)
  {
  }

  lemma FillNone(ram: seq<Bd>, place: seq<Place>, f: Log, base: nat, lens: seq<nat>)
    requires Linked(ram, place, f, false)
    ensures Filled(ram, ram, place, f, base, 0) && Total(lens, 0) == 0
  {
  }

  lemma TotalNext(lens: seq<nat>, m: nat)
    requires m < |lens|
    ensures Total(lens, m + 1) == Total(lens, m) + lens[m]
  {
  }

  lemma FilledKeeps(ram0: seq<Bd>, ram: seq<Bd>, place: seq<Place>, a: Log, f: Log, base: nat, m: nat)
    requires Linked(ram0, place, a, true) && Linked(ram0, place, f, false) && Filled(ram0, ram, place, f, base, m)
    ensures Linked(ram, place, a, true) && Linked(ram, place, f, false)
  {
  }

  /** pb' and at' extend pb and at by a new chain. */
  ghost predicate Grown(pb: seq<Pbuf>, pb': seq<Pbuf>, at: seq<int>, at': seq<int>, lens: seq<nat>, pos: nat) {
    && |pb'| == |pb| + |lens| == |at'| && |at| == |pb|
    && (forall q {:trigger pb'[q]} :: 0 <= q < |pb'| ==>
          if q < |pb| then pb'[q] == pb[q] && at'[q] == at[q]
          else pb'[q].len == lens[q - |pb|] && at'[q] == pos + q - |pb|)
  }

  lemma AttachAt(ram0: seq<Bd>, ram: seq<Bd>, ram': seq<Bd>, pb: seq<Pbuf>, pb': seq<Pbuf>, lens: seq<nat>,
                 place: seq<Place>, a: Log, f: Log, at: seq<int>, at': seq<int>, m: nat, i: nat)
    requires Linked(ram0, place, a, true) && Linked(ram0, place, f, false) && Own(ram0, pb, a, at)
    requires Filled(ram0, ram, place, f, |pb|, m) && m <= |lens| && Grown(pb, pb', at, at', lens, |a.log|)
    requires |ram'| == |ram| && forall b :: 0 <= b < |ram| ==> ram'[b] == ram[b].(next := ram'[b].next)
    requires a.lo <= i < |a.log| + m
    ensures var b := if i < |a.log| then a.log[i] else f.log[f.lo + i - |a.log|];
            && 0 <= b < |ram'| && 0 <= ram'[b].pbuf < |pb'| && at'[ram'[b].pbuf] == i
            && Cap(ram', pb', b) == if i < |a.log| then Cap(ram0, pb, b) else lens[i - |a.log|]
  {
    if i < |a.log| {
      assert place[a.log[i]].InActive?;
      assert pb'[ram'[a.log[i]].pbuf] == pb[ram0[a.log[i]].pbuf];
    } else {
      var b := f.log[f.lo + i - |a.log|];
      assert pb'[ram'[b].pbuf].len == lens[i - |a.log|];
    }
  }

  /** The pbufs on the active list after the first m free descriptors joined it. */
  lemma AttachOwn(ram0: seq<Bd>, ram: seq<Bd>, ram': seq<Bd>, pb: seq<Pbuf>, pb': seq<Pbuf>, lens: seq<nat>,
                  place: seq<Place>, a: Log, f: Log, at: seq<int>, at': seq<int>, m: nat)
    requires Linked(ram0, place, a, true) && Linked(ram0, place, f, false) && Own(ram0, pb, a, at)
    requires Filled(ram0, ram, place, f, |pb|, m) && m <= |lens| && Grown(pb, pb', at, at', lens, |a.log|)
    requires |ram'| == |ram| && forall b :: 0 <= b < |ram| ==> ram'[b] == ram[b].(next := ram'[b].next)
    ensures f.lo + m <= |f.log|
    ensures var a' := Append(a, f.log[f.lo..f.lo + m]);
            && Own(ram', pb', a', at')
            && Caps(ram', pb', a'.log, a.lo, |a'.log|) == Caps(ram0, pb, a.log, a.lo, |a.log|) + Total(lens, m)
            && (EvenCaps(ram0, pb, a.log, a.lo, |a.log|) && AllEven(lens) ==>
                  EvenCaps(ram', pb', a'.log, a.lo, |a'.log|))
  {
    hide Linked, Own, Filled, Grown, Cap, Caps, Total;
    AttachBounds(ram0, ram, pb, pb', lens, place, a, f, at, at', m);
    var a' := Append(a, f.log[f.lo..f.lo + m]);
    forall i | a'.lo <= i < |a'.log|
      ensures 0 <= a'.log[i] < |ram'| && 0 <= ram'[a'.log[i]].pbuf < |pb'| && at'[ram'[a'.log[i]].pbuf] == i
      ensures i < |a.log| ==> a'.log[i] == a.log[i] && Cap(ram', pb', a'.log[i]) == Cap(ram0, pb, a.log[i])
      ensures i >= |a.log| ==> Cap(ram', pb', a'.log[i]) == lens[i - |a.log|]
    {
      AttachAt(ram0, ram, ram', pb, pb', lens, place, a, f, at, at', m, i);
    }
    OwnFrom(ram', pb', a', at');
    CapsSplit(ram', pb', a'.log, a.lo, |a.log|, |a'.log|);
    CapsSame(ram0, pb, a.log, ram', pb', a'.log, a.lo, |a.log|);
    CapsTotal(ram', pb', a'.log, |a.log|, lens, m);
  }

  lemma AttachBounds(ram0: seq<Bd>, ram: seq<Bd>, pb: seq<Pbuf>, pb': seq<Pbuf>, lens: seq<nat>,
                     place: seq<Place>, a: Log, f: Log, at: seq<int>, at': seq<int>, m: nat)
    requires Own(ram0, pb, a, at) && Filled(ram0, ram, place, f, |pb|, m) && Grown(pb, pb', at, at', lens, |a.log|)
    ensures f.lo + m <= |f.log| && a.lo <= |a.log| && |at'| == |pb'|
  {
  }

  /** The active descriptors from position top on have OWNER. */
  ghost predicate OwnedFrom(ram: seq<Bd>, a: Log, top: nat) {
    forall i {:trigger a.log[i]} :: a.lo <= i < |a.log| && top <= i ==> 0 <= a.log[i] < |ram| && ram[a.log[i]].owner
  }

  lemma AttachOwnedFrom(ram0: seq<Bd>, ram: seq<Bd>, ram': seq<Bd>, place: seq<Place>, a: Log, f: Log, base: nat,
                        m: nat, top: nat)
    requires Linked(ram0, place, a, true) && Filled(ram0, ram, place, f, base, m) && OwnedFrom(ram0, a, top)
    requires |ram'| == |ram| && forall b :: 0 <= b < |ram| ==> ram'[b] == ram[b].(next := ram'[b].next)
    ensures OwnedFrom(ram', Append(a, f.log[f.lo..f.lo + m]), top)
  {
    var a' := Append(a, f.log[f.lo..f.lo + m]);
    forall i | a'.lo <= i < |a'.log| && top <= i
      ensures 0 <= a'.log[i] < |ram'| && ram'[a'.log[i]].owner
    {
      if i < |a.log| {
        assert a'.log[i] == a.log[i];
      } else {
        assert a'.log[i] == f.log[f.lo + i - |a.log|];
      }
    }
  }

  lemma ListEnds(ram: seq<Bd>, place: seq<Place>, a: Log, f: Log)
    requires Lists(ram, place, a, f)
    ensures First(a) == NULL <==> a.lo == |a.log|
    ensures First(f) == NULL <==> f.lo == |f.log|
    ensures Last(f) == NULL <==> f.lo == |f.log|
  {
    hide Covered;
    assert f.lo < |f.log| ==> 0 <= f.log[|f.log| - 1];
  }

  lemma NoneAbove(ram: seq<Bd>, a: Log)
    ensures OwnedFrom(ram, a, |a.log|)
  {
  }

  lemma OwnedKept(ram: seq<Bd>, ram': seq<Bd>, a: Log, hi: nat, top: nat)
    requires OwnedFrom(ram, a, top) && a.lo <= hi
    requires |ram'| == |ram| && forall b :: 0 <= b < |ram| ==> ram'[b] == ram[b].(next := ram'[b].next)
    ensures OwnedFrom(ram', Drop(a, hi - a.lo), top)
  {
  }

  lemma HeadAt(ram: seq<Bd>, pb: seq<Pbuf>, place: seq<Place>, a: Log, f: Log, at: seq<int>, top: nat)
    requires Lists(ram, place, a, f) && Own(ram, pb, a, at) && OwnedFrom(ram, a, top) && First(a) != NULL
    ensures a.lo < |a.log| && 0 <= First(a) < |ram| && (ram[First(a)].owner || a.lo < top)
  {
  }

  lemma OwnSize(ram: seq<Bd>, pb: seq<Pbuf>, a: Log, at: seq<int>)
    requires Own(ram, pb, a, at)
    ensures |at| == |pb|
  {
  }

  lemma OwnFrom(ram: seq<Bd>, pb: seq<Pbuf>, a: Log, at: seq<int>)
    requires |at| == |pb| && a.lo <= |a.log|
    requires forall i :: a.lo <= i < |a.log| ==>
               0 <= a.log[i] < |ram| && 0 <= ram[a.log[i]].pbuf < |pb| && at[ram[a.log[i]].pbuf] == i
    ensures Own(ram, pb, a, at)
  {
  }

  lemma {:induction false} CapsTotal(ram: seq<Bd>, pb: seq<Pbuf>, log: seq<int>, lo: nat, lens: seq<nat>, m: nat)
    requires m <= |lens| && lo + m <= |log|
    requires forall i :: lo <= i < lo + m ==> Cap(ram, pb, log[i]) == lens[i - lo]
    ensures Caps(ram, pb, log, lo, lo + m) == Total(lens, m)
  {
    if m > 0 {
      CapsTotal(ram, pb, log, lo, lens, m - 1);
    }
  }

  /** 1 << (30 - clz(a)) for a >= 2: half of the largest power of two up to a. */
  function Halve(a: nat): nat { if a < 4 then 1 else 2 * Halve(a / 2) }

  lemma {:induction false} HalveBounds(a: nat)
    requires a >= 2
    ensures 1 <= Halve(a) && 2 * Halve(a) <= a < 4 * Halve(a)
  {
    if a >= 4 {
      HalveBounds(a / 2);
    }
  }

  function Pow2(k: nat): nat { if k == 0 then 1 else 2 * Pow2(k - 1) }

  lemma {:induction false} Pow2Steps(j: nat, k: nat)
    requires j < k
    ensures 1 <= 2 * Pow2(j) <= Pow2(k)
  {
    if j + 1 < k {
      Pow2Steps(j, k - 1);
    } else if j > 0 {
      Pow2Steps(j - 1, j);
    }
  }

  lemma {:induction false} HalveIsPow2(a: nat) returns (k: nat)
    ensures Halve(a) == Pow2(k)
  {
    if a < 4 {
      k := 0;
    } else {
      k := HalveIsPow2(a / 2);
      k := k + 1;
    }
  }

  /** Halving a request gives a power of two, the only one h with 2h <= a < 4h. */
  lemma HalveShrinks(a: nat) returns (k: nat)
    requires a >= 2
    ensures Halve(a) == Pow2(k) && 2 * Pow2(k) <= a < 4 * Pow2(k)
    ensures forall j: nat {:trigger Pow2(j)} :: 2 * Pow2(j) <= a < 4 * Pow2(j) <==> j == k
  {
    HalveBounds(a);
    k := HalveIsPow2(a);
    forall j: nat {:trigger Pow2(j)}
      ensures 2 * Pow2(j) <= a < 4 * Pow2(j) <==> j == k
    {
      if j < k {
        Pow2Steps(j, k);
      } else if k < j {
        Pow2Steps(k, j);
      }
    }
  }

  lemma Pow2Is(k: nat)
    ensures Pow2(0) == 1 && Pow2(k + 1) == 2 * Pow2(k) && Pow2(10) == 1024 && Pow2(15) == 32768
  {
    assert Pow2(4) == 16;
    assert Pow2(8) == 256;
    assert Pow2(12) == 4096;
  }

  /** A refused request ends the refill for lack of memory exactly below 4096 bytes. */
  lemma GivesUpExactly(q: Request)
    ensures GivesUp(q) <==> q.answer == NoMemory && 2 <= q.bytes < 4096
  {
    if q.bytes >= 2 {
      var k := HalveShrinks(q.bytes);
      Pow2Is(0);
      if k < 10 {
        Pow2Steps(k, 10);
      } else if k > 10 {
        Pow2Steps(10, k);
      }
    }
  }

  function Min(a: nat, b: nat): nat { if a < b then a else b }

  /** What the pool does with a request, and a request with its answer. */
  datatype Alloc = NoMemory | Chain(lens: seq<nat>)
  datatype Request = Request(bytes: int, answer: Alloc)
  datatype Refilled = Done | Starved | ShiftUndefined

  /** The pbufs that pbuf_alloc takes from the pool for a length: full ones and the rest. */
  function Pieces(len: nat): (r: seq<nat>)
    ensures r != []
  {
    if len <= PBUF_POOL_BUFSIZE then [len] else [PBUF_POOL_BUFSIZE] + Pieces(len - PBUF_POOL_BUFSIZE)
  }

  /** All pbufs but the last are full, and together they hold exactly the length. */
  lemma {:induction false} PiecesAre(len: nat)
    ensures var r, n := Pieces(len), |Pieces(len)|;
            && (forall j {:trigger r[j]} :: 0 <= j < n - 1 ==> r[j] == 1600)
            && r[n - 1] <= 1600 && (r[n - 1] == 0 ==> n == 1)
            && 1600 * (n - 1) + r[n - 1] == len
  {
    if len > PBUF_POOL_BUFSIZE {
      PiecesAre(len - PBUF_POOL_BUFSIZE);
    }
  }

  lemma {:induction false} FullTotal(lens: seq<nat>, m: nat)
    requires m <= |lens| && forall j :: 0 <= j < m ==> lens[j] == 1600
    ensures Total(lens, m) == 1600 * m
  {
    if m > 0 {
      FullTotal(lens, m - 1);
    }
  }

  lemma PiecesTotal(len: nat)
    ensures Total(Pieces(len), |Pieces(len)|) == len
  {
    PiecesAre(len);
    FullTotal(Pieces(len), |Pieces(len)| - 1);
  }

  /** pbuf_alloc takes the length as a u16; pool says of each call whether there is memory. */
  function Answer(pool: seq<bool>, rq: int): Alloc {
    if pool == [] || !pool[0] then NoMemory else Chain(Pieces(rq % 0x10000))
  }

  function Rest(pool: seq<bool>): seq<bool> { if pool == [] then [] else pool[1..] }

  /** What a refill depends on: freed_pbuf_len, the number of idle descriptors, the pool. */
  datatype Books = Books(freed: int, idle: nat, pool: seq<bool>)

  /** The books after a request. */
  function After(b: Books, q: Request): Books {
    match q.answer
    case NoMemory => b.(pool := Rest(b.pool))
    case Chain(lens) =>
      var m := Min(|lens|, b.idle);
      Books(b.freed - Total(lens, m), b.idle - m, Rest(b.pool))
  }

  /** The size of the request that follows. */
  function NextSize(b: Books, q: Request): int {
    if q.answer.Chain? || q.bytes < 0 then q.bytes
    else if b.freed > Halve(q.bytes) then Halve(q.bytes) else b.freed
  }

  /** The refused request is too small to be halved: the shift count would be negative. */
  predicate Unshiftable(q: Request) { q.answer == NoMemory && q.bytes < 2 }

  /** The refused request halves to no more than one pbuf. */
  predicate GivesUp(q: Request) {
    q.answer == NoMemory && q.bytes >= 2 && Halve(q.bytes) <= PBUF_POOL_BUFSIZE
  }

  predicate Ends(q: Request) { Unshiftable(q) || GivesUp(q) }

  lemma Shrinks(b: Books, rq: int)
    requires b.freed > 0 && b.idle > 0 && rq > 0 && !Ends(Request(rq, Answer(b.pool, rq)))
    ensures var q := Request(rq, Answer(b.pool, rq));
            && NextSize(b, q) > 0 && After(b, q).idle <= b.idle
            && (After(b, q).idle < b.idle || NextSize(b, q) < rq)
  {
    if rq >= 2 {
      HalveBounds(rq);
    }
  }

  /** The requests of a refill that begins with a request of rq bytes. */
  ghost function Requests(b: Books, rq: int): seq<Request>
    requires b.freed > 0 ==> rq > 0
    decreases b.idle, rq
  {
    if b.freed <= 0 || b.idle == 0 then []
    else
      var q := Request(rq, Answer(b.pool, rq));
      if Ends(q) then [q]
      else
        Shrinks(b, rq);
        [q] + Requests(After(b, q), NextSize(b, q))
  }

  function Outcome(asked: seq<Request>): Refilled {
    if asked != [] && Unshiftable(asked[|asked| - 1]) then ShiftUndefined
    else if asked != [] && GivesUp(asked[|asked| - 1]) then Starved
    else Done
  }

  /** A refill meets the undefined shift exactly if a request of one byte is refused, and gives up
      exactly if a refused request halves to no more than one pbuf; either ends it. */
  lemma {:induction false} OutcomeExactly(b: Books, rq: int)
    requires b.freed > 0 ==> rq > 0
    ensures Decided(Requests(b, rq))
    decreases b.idle, rq
  {
    hide Decided, Ends;
    if b.freed > 0 && b.idle > 0 {
      var q := Request(rq, Answer(b.pool, rq));
      DecidedAlone(q);
      if !Ends(q) {
        Shrinks(b, rq);
        OutcomeExactly(After(b, q), NextSize(b, q));
        DecidedLater(q, Requests(After(b, q), NextSize(b, q)));
      }
    } else {
      DecidedNever();
    }
  }

  /** The outcome is decided by the last request, and by no other. */
  ghost predicate Decided(asked: seq<Request>) {
    && (Outcome(asked) == ShiftUndefined <==> exists i :: 0 <= i < |asked| && asked[i] == Request(1, NoMemory))
    && (Outcome(asked) == ShiftUndefined <==> asked != [] && asked[|asked| - 1] == Request(1, NoMemory))
    && (Outcome(asked) == Starved <==> exists i :: 0 <= i < |asked| && GivesUp(asked[i]))
  }

  lemma DecidedNumbers(asked: seq<Request>)
    requires Decided(asked)
    ensures Outcome(asked) == ShiftUndefined <==> exists i :: 0 <= i < |asked| && asked[i] == Request(1, NoMemory)
    ensures Outcome(asked) == Starved <==>
            exists i :: 0 <= i < |asked| && asked[i].answer == NoMemory && 2 <= asked[i].bytes < 4096
  {
    forall i | 0 <= i < |asked|
      ensures GivesUp(asked[i]) <==> asked[i].answer == NoMemory && 2 <= asked[i].bytes < 4096
    {
      GivesUpExactly(asked[i]);
    }
  }

  lemma DecidedNever()
    ensures Decided([])
  {
  }

  lemma DecidedAlone(q: Request)
    requires q.bytes > 0
    ensures Decided([q])
  {
    assert [q][0] == q;
  }

  /** A request that does not end the refill does not decide its outcome. */
  lemma DecidedLater(q: Request, later: seq<Request>)
    requires !Ends(q) && Decided(later) && q.bytes > 0
    ensures Decided([q] + later)
  {
    var asked := [q] + later;
    assert forall i :: 0 <= i < |later| ==> asked[i + 1] == later[i];
    assert forall i :: 0 < i < |asked| ==> asked[i] == later[i - 1];
    assert Outcome(asked) == Outcome(later);
  }

  /** The next request of a refill and what follows it. */
  lemma RequestNext(b: Books, rq: int)
    requires b.freed > 0 && rq > 0 && b.idle > 0
    ensures var q := Request(rq, Answer(b.pool, rq));
            && (q.answer == NoMemory ==> (Unshiftable(q) <==> rq < 2))
            && (q.answer == NoMemory ==> (GivesUp(q) <==> rq >= 2 && Halve(rq) <= PBUF_POOL_BUFSIZE))
            && (q.answer.Chain? ==> !Ends(q))
            && (After(b, q).freed > 0 && !Ends(q) ==> NextSize(b, q) > 0)
            && (!Ends(q) ==> After(b, q).idle < b.idle || (After(b, q).idle == b.idle && NextSize(b, q) < rq))
            && Requests(b, rq) == if Ends(q) then [q] else (Shrinks(b, rq); [q] + Requests(After(b, q), NextSize(b, q)))
  {
    if !Ends(Request(rq, Answer(b.pool, rq))) {
      Shrinks(b, rq);
    }
  }

  /** The first request of a refill, its answer and the requests that follow, in numbers. A refused
      request is cut to the power of two between a quarter and a half of it, and to the bytes missing;
      a granted one is repeated with the books less by its pbufs. */
  lemma RequestExactly(b: Books, rq: int, k: nat)
    requires b.freed > 0 && rq > 0 && b.idle > 0 && (rq > 1 ==> 2 * Pow2(k) <= rq < 4 * Pow2(k))
    ensures var asked, pool := Requests(b, rq), if b.pool == [] then [] else b.pool[1..];
            && |asked| > 0 && asked[0].bytes == rq
            && (asked[0].answer == NoMemory <==> b.pool == [] || !b.pool[0])
            && (asked[0].answer == NoMemory && rq < 4096 ==> |asked| == 1)
            && (asked[0].answer == NoMemory && 4096 <= rq ==>
                  asked[1..] == Requests(b.(pool := pool), if b.freed > Pow2(k) then Pow2(k) else b.freed))
            && (asked[0].answer.Chain? ==>
                  var n := |asked[0].answer.lens|;
                  && n > 0 && 1600 * (n - 1) + asked[0].answer.lens[n - 1] == rq % 0x10000
                  && asked[0].answer.lens[n - 1] <= 1600
                  && (forall j {:trigger asked[0].answer.lens[j]} :: 0 <= j < n - 1 ==>
                        asked[0].answer.lens[j] == 1600)
                  && asked[1..] == if n <= b.idle then Requests(Books(b.freed - rq % 0x10000, b.idle - n, pool), rq)
                                   else [])
  {
    hide Pieces, Total, Halve;
    var q := Request(rq, Answer(b.pool, rq));
    RequestNext(b, rq);
    GivesUpExactly(q);
    if q.answer.Chain? {
      PiecesAre(rq % 0x10000);
      PiecesTotal(rq % 0x10000);
    } else if rq > 1 {
      var half := HalveShrinks(rq);
      Pow2Same(rq, half, k);
    }
  }

  lemma Pow2Same(a: int, j: nat, k: nat)
    requires 2 * Pow2(j) <= a < 4 * Pow2(j) && 2 * Pow2(k) <= a < 4 * Pow2(k)
    ensures j == k
  {
    if j < k {
      Pow2Steps(j, k);
    } else if k < j {
      Pow2Steps(k, j);
    }
  }

  /** The books after a request, in numbers. */
  lemma AfterExactly(b: Books, q: Request)
    ensures var pool := if b.pool == [] then [] else b.pool[1..];
            match q.answer
            case NoMemory => After(b, q) == b.(pool := pool)
            case Chain(lens) =>
              if |lens| <= b.idle then After(b, q) == Books(b.freed - Total(lens, |lens|), b.idle - |lens|, pool)
              else After(b, q) == Books(b.freed - Total(lens, b.idle), 0, pool)
  {
  }

  /** What a refused or granted request leaves of the books. */
  lemma RefusedSays(b: Books, q: Request)
    ensures q.answer == NoMemory ==> After(b, q).freed == b.freed && After(b, q).idle == b.idle
    ensures q.answer == NoMemory && q.bytes >= 0 ==>
              NextSize(b, q) == if b.freed > Halve(q.bytes) then Halve(q.bytes) else b.freed
    ensures q.answer.Chain? ==> NextSize(b, q) == q.bytes && !Ends(q)
    ensures Ends(q) <==> Unshiftable(q) || GivesUp(q)
  {
  }

  lemma EndsSays(q: Request)
    ensures Ends(q) <==> Unshiftable(q) || GivesUp(q)
  {
  }

  lemma NoMoreRequests(b: Books, rq: int)
    requires (b.freed > 0 ==> rq > 0) && (b.freed <= 0 || b.idle == 0)
    ensures Requests(b, rq) == []
  {
  }

  lemma OutcomeOf(asked: seq<Request>)
    ensures asked != [] && Unshiftable(asked[|asked| - 1]) ==> Outcome(asked) == ShiftUndefined
    ensures asked != [] && GivesUp(asked[|asked| - 1]) ==> Outcome(asked) == Starved
    ensures asked == [] || !Ends(asked[|asked| - 1]) ==> Outcome(asked) == Done
  {
  }

  /** The books after a sequence of requests. */
  function AfterAll(b: Books, asked: seq<Request>): Books {
    if asked == [] then b else After(AfterAll(b, asked[..|asked| - 1]), asked[|asked| - 1])
  }

  /** The last request was granted with a chain exactly as long as the inactive list. */
  predicate ExactFit(b: Books, asked: seq<Request>) {
    && asked != [] && asked[|asked| - 1].answer.Chain?
    && |asked[|asked| - 1].answer.lens| == AfterAll(b, asked[..|asked| - 1]).idle
  }

  lemma NoFit(b: Books)
    ensures !ExactFit(b, []) && AfterAll(b, []) == b
  {
  }

  lemma FitNext(b: Books, asked: seq<Request>, q: Request)
    ensures ExactFit(b, asked + [q]) <==> q.answer.Chain? && |q.answer.lens| == AfterAll(b, asked).idle
    ensures AfterAll(b, asked + [q]) == After(AfterAll(b, asked), q)
  {
    assert (asked + [q])[..|asked|] == asked;
  }

  /** Where a refill stands that began with books b and is to make the requests all: it has made those
      in asked, the books are now c, and the next request is for rq bytes. */
  ghost predicate Asking(b: Books, all: seq<Request>, asked: seq<Request>, c: Books, rq: int, exact: bool) {
    && (c.freed > 0 ==> rq > 0) && c == AfterAll(b, asked) && (exact <==> ExactFit(b, asked))
    && all == asked + Requests(c, rq) && (asked == [] || !Ends(asked[|asked| - 1]))
  }

  lemma AskingBegins(b: Books, rq: int)
    requires b.freed > 0 ==> rq > 0
    ensures Asking(b, Requests(b, rq), [], b, rq, false) && Decided(Requests(b, rq))
  {
    hide Requests, Decided;
    NoFit(b);
    OutcomeExactly(b, rq);
  }

  /** One more request. */
  lemma AskingNext(b: Books, all: seq<Request>, asked: seq<Request>, c: Books, rq: int, q: Request)
    requires Asking(b, all, asked, c, rq, false) && c.freed > 0 && c.idle > 0 && q == Request(rq, Answer(c.pool, rq))
    ensures AfterAll(b, asked + [q]) == After(c, q)
    ensures ExactFit(b, asked + [q]) <==> q.answer.Chain? && |q.answer.lens| == c.idle
    ensures q.answer == NoMemory ==> (Unshiftable(q) <==> rq < 2)
    ensures q.answer == NoMemory ==> (GivesUp(q) <==> rq >= 2 && Halve(rq) <= PBUF_POOL_BUFSIZE)
    ensures q.answer.Chain? ==> !Ends(q) && NextSize(c, q) == rq
    ensures q.answer == NoMemory ==> NextSize(c, q) == if c.freed > Halve(rq) then Halve(rq) else c.freed
    ensures q.answer == NoMemory ==> After(c, q).freed == c.freed && After(c, q).idle == c.idle
    ensures !Ends(q) ==> Asking(b, all, asked + [q], After(c, q), NextSize(c, q), ExactFit(b, asked + [q]))
    ensures !Ends(q) ==> After(c, q).idle < c.idle || (After(c, q).idle == c.idle && NextSize(c, q) < rq)
    ensures Ends(q) ==> all == asked + [q] && Outcome(all) == if rq < 2 then ShiftUndefined else Starved
  {
    hide Requests, AfterAll, ExactFit, Halve;
    FitNext(b, asked, q);
    RequestNext(c, rq);
    RefusedSays(c, q);
    OutcomeOf(asked + [q]);
  }

  /** No more requests. */
  lemma AskingEnds(b: Books, all: seq<Request>, asked: seq<Request>, c: Books, rq: int, exact: bool)
    requires Asking(b, all, asked, c, rq, exact) && (c.freed <= 0 || c.idle == 0)
    ensures all == asked && Outcome(asked) == Done
  {
    hide AfterAll, ExactFit;
    NoMoreRequests(c, rq);
    OutcomeOf(asked);
  }

  lemma AskingSays(b: Books, all: seq<Request>, asked: seq<Request>, c: Books, rq: int, exact: bool)
    requires Asking(b, all, asked, c, rq, exact)
    ensures (c.freed > 0 ==> rq > 0) && c == AfterAll(b, asked) && (exact <==> ExactFit(b, asked))
  {
  }

  // ----- Even byte counts ---------------------------------------------------------------

  ghost predicate AllEven(lens: seq<nat>) {
    forall i :: 0 <= i < |lens| ==> lens[i] % 2 == 0
  }

  /** The pbufs on descriptors log[lo..hi] have even capacities. */
  ghost predicate EvenCaps(ram: seq<Bd>, pb: seq<Pbuf>, log: seq<int>, lo: nat, hi: nat) {
    hi <= |log| && forall i {:trigger log[i]} :: lo <= i < hi ==> Cap(ram, pb, log[i]) % 2 == 0
  }

  lemma {:induction false} EvenPieces(len: nat)
    requires len % 2 == 0
    ensures AllEven(Pieces(len))
  {
    if len > PBUF_POOL_BUFSIZE {
      EvenPieces(len - PBUF_POOL_BUFSIZE);
    }
  }

  lemma {:induction false} EvenTotal(lens: seq<nat>, m: nat)
    requires m <= |lens| && AllEven(lens)
    ensures Total(lens, m) % 2 == 0
  {
    if m > 0 {
      EvenTotal(lens, m - 1);
    }
  }

  lemma {:induction false} EvenSum(ram: seq<Bd>, pb: seq<Pbuf>, log: seq<int>, lo: nat, hi: nat)
    requires EvenCaps(ram, pb, log, lo, hi)
    ensures Caps(ram, pb, log, lo, hi) % 2 == 0
  {
    if lo < hi {
      EvenSum(ram, pb, log, lo, hi - 1);
    }
  }

  lemma EvenHalf(a: nat)
    requires Halve(a) > 1
    ensures Halve(a) % 2 == 0
  {
  }

  /** Even bytes and an even request lead to even bytes and an even request. */
  lemma EvenNext(b: Books, rq: int)
    requires b.freed > 0 && b.freed % 2 == 0 && rq > 0 && rq % 2 == 0
    ensures var q := Request(rq, Answer(b.pool, rq));
            && !Unshiftable(q) && (q.answer.Chain? ==> AllEven(q.answer.lens))
            && (!Ends(q) ==> After(b, q).freed % 2 == 0 && NextSize(b, q) % 2 == 0)
  {
    var q := Request(rq, Answer(b.pool, rq));
    if q.answer.Chain? {
      EvenPieces(rq % 0x10000);
      EvenTotal(q.answer.lens, Min(|q.answer.lens|, b.idle));
    } else if !Ends(q) {
      EvenHalf(rq);
    }
  }

  /** A refill of an even number of bytes never makes an odd request, so it never meets the undefined
      shift, whatever the pool refuses. */
  lemma {:induction false} EvenNeverShifts(b: Books, rq: int)
    requires (b.freed > 0 ==> rq > 0) && b.freed % 2 == 0 && rq % 2 == 0
    ensures Outcome(Requests(b, rq)) != ShiftUndefined
    ensures forall i :: 0 <= i < |Requests(b, rq)| ==> Requests(b, rq)[i].bytes % 2 == 0
    decreases b.idle, rq
  {
    if b.freed > 0 && b.idle > 0 {
      var q := Request(rq, Answer(b.pool, rq));
      EvenNext(b, rq);
      if !Ends(q) {
        Shrinks(b, rq);
        EvenNeverShifts(After(b, q), NextSize(b, q));
        var later := Requests(After(b, q), NextSize(b, q));
        assert forall i :: 0 < i < |[q] + later| ==> ([q] + later)[i] == later[i - 1];
      }
    }
  }

  // ----- The refills of a pass ----------------------------------------------------------

  /** A frame that freed n descriptors with cap bytes, and the requests of the refill after it. */
  datatype Turn = Turn(cap: nat, n: nat, asked: seq<Request>)

  function AfterFrame(b: Books, r: Turn): Books { b.(freed := b.freed + r.cap, idle := b.idle + r.n) }

  /** The books after the rounds of a pass. */
  function Ledger(b: Books, rounds: seq<Turn>): Books {
    if rounds == [] then b
    else
      var r := rounds[|rounds| - 1];
      AfterAll(AfterFrame(Ledger(b, rounds[..|rounds| - 1]), r), r.asked)
  }

  /** Every refill made exactly the requests that the books determine, and only the last one may have
      ended in the undefined shift or in an exact fit. */
  ghost predicate Booked(b: Books, rounds: seq<Turn>) {
    if rounds == [] then true
    else
      var before, r := rounds[..|rounds| - 1], rounds[|rounds| - 1];
      var c := AfterFrame(Ledger(b, before), r);
      && Booked(b, before) && !Stopped(b, before)
      && r.asked == Requests(c, c.freed)
  }

  /** The last refill ended the pass. */
  ghost predicate Stopped(b: Books, rounds: seq<Turn>) {
    EndsShift(rounds) || EndsExact(b, rounds)
  }

  predicate EndsShift(rounds: seq<Turn>) {
    rounds != [] && Outcome(rounds[|rounds| - 1].asked) == ShiftUndefined
  }

  ghost predicate EndsExact(b: Books, rounds: seq<Turn>) {
    rounds != [] &&
    var r := rounds[|rounds| - 1];
    ExactFit(AfterFrame(Ledger(b, rounds[..|rounds| - 1]), r), r.asked)
  }

  /** The outcome of the last refill of a pass. */
  function PassOutcome(rounds: seq<Turn>): Refilled {
    if rounds == [] then Done else Outcome(rounds[|rounds| - 1].asked)
  }

  lemma BookNext(b: Books, rounds: seq<Turn>, r: Turn)
    requires Booked(b, rounds) && !Stopped(b, rounds)
    requires var c := AfterFrame(Ledger(b, rounds), r); r.asked == Requests(c, c.freed)
    ensures var c := AfterFrame(Ledger(b, rounds), r);
            && Booked(b, rounds + [r]) && Ledger(b, rounds + [r]) == AfterAll(c, r.asked)
            && (EndsExact(b, rounds + [r]) <==> ExactFit(c, r.asked))
            && PassOutcome(rounds + [r]) == Outcome(r.asked)
  {
    assert (rounds + [r])[..|rounds|] == rounds;
  }

  /** One round for each frame, or one refill alone. */
  ghost predicate RoundsOf(ts: seq<Taken>, rounds: seq<Turn>, idle: bool) {
    if idle then ts == [] && |rounds| == 1 && rounds[0].cap == 0 == rounds[0].n
    else |rounds| == |ts| && forall k {:trigger rounds[k]} :: 0 <= k < |ts| ==> rounds[k].n == |ts[k].bds|
  }

  lemma NoRounds(idle: bool)
    ensures !idle ==> RoundsOf([], [], idle)
  {
  }

  lemma RoundNext(ts: seq<Taken>, rounds: seq<Turn>, t: Taken, r: Turn)
    requires RoundsOf(ts, rounds, false) && r.n == |t.bds|
    ensures RoundsOf(ts + [t], rounds + [r], false)
  {
  }

  lemma NotStopped(b: Books, rounds: seq<Turn>, r: Refilled)
    requires r == PassOutcome(rounds) && r != ShiftUndefined && !EndsExact(b, rounds)
    ensures !Stopped(b, rounds)
  {
  }

  lemma BookNone(b: Books)
    ensures Booked(b, []) && !Stopped(b, []) && Ledger(b, []) == b && PassOutcome([]) == Done
  {
  }

  // ----- Runs that reach the odd ends ---------------------------------------------------

  /** freed_pbuf_len after initialisation: MAX_RX_PBUF_ALLOC * PBUF_LEN_MAX, 10 times 6 pool buffers
      of 1600 bytes. */
  const InitialBytes: int := 96000

  /** One grant on as many idle descriptors as its chain has pbufs. */
  lemma OneChainFits(freed: int)
    requires freed > 0
    ensures var n := |Pieces(freed % 0x10000)|;
            ExactFit(Books(freed, n, [true]), Requests(Books(freed, n, [true]), freed))
  {
    var lens := Pieces(freed % 0x10000);
    var b, q := Books(freed, |lens|, [true]), Request(freed, Chain(lens));
    RequestNext(b, freed);
    NoMoreRequests(After(b, q), NextSize(b, q));
    FitNext(b, [], q);
    assert [] + [q] == [q];
  }

  lemma OneByteRefused()
    ensures Requests(Books(1, 1, []), 1) == [Request(1, NoMemory)]
  {
    RequestNext(Books(1, 1, []), 1);
  }

  lemma Halves()
    ensures Halve(8193) == 4096 && Halve(4096) == 2048
  {
    assert Halve(4) == 2 && Halve(8) == 4 && Halve(16) == 8 && Halve(32) == 16;
    assert Halve(64) == 32 && Halve(128) == 64 && Halve(256) == 128 && Halve(512) == 256;
    assert Halve(1024) == 512 && Halve(2048) == 1024 && Halve(4096) == 2048;
  }

  lemma Pieces4096()
    ensures Pieces(4096) == [1600, 1600, 896] && Total(Pieces(4096), 3) == 4096
  {
    assert Pieces(896) == [896] && Pieces(2496) == [1600] + Pieces(896);
    var lens := Pieces(4096);
    assert Total(lens, 1) == 1600 && Total(lens, 2) == 3200;
  }

  /** A refill of an odd number of bytes in which no request is small at first: 8193 is refused, 4096
      granted twice, refused, and the request for the one byte left refused. */
  lemma OneByteRefusedLater()
    ensures var chain := Chain(Pieces(4096));
            Requests(Books(8193, 7, [false, true, true, false, false]), 8193) ==
            [Request(8193, NoMemory), Request(4096, chain), Request(4096, chain), Request(4096, NoMemory),
             Request(1, NoMemory)]
  {
    hide Halve, Requests, Total, Pieces;
    Halves();
    Pieces4096();
    var pool := [false, true, true, false, false];
    RequestNext(Books(8193, 7, pool), 8193);
    RequestNext(Books(8193, 7, pool[1..]), 4096);
    RequestNext(Books(4097, 4, pool[1..][1..]), 4096);
    RequestNext(Books(1, 1, pool[1..][1..][1..]), 4096);
    RequestNext(Books(1, 1, pool[1..][1..][1..][1..]), 1);
  }
}
