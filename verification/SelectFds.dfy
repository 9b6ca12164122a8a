/**
 * select() on RTEMS descriptors: the caller's sets are translated to lwIP sockets, lwip_select
 * works on the translated sets, and the answer is translated back into the caller's sets.
 */
module SelectFds {

  /** An entry of the RTEMS descriptor table, as far as socket calls look at it. */
  datatype Iop = Socket(data0: int) | NotSocket

  type Table = seq<Iop>

  /** An fd_set in the caller's memory. Only the members are modelled, not the word layout. */
  class FdSet {
    var bits: set<int>

    constructor (members: set<int>)
      ensures bits == members
    {
      bits := members;
    }
  }

  /** The arguments of lwip_select and what it left in them. */
  datatype Call = Call(maxfdp1: int, read: set<int>, write: set<int>, except: set<int>)
  datatype Reply = Reply(ret: int, read: set<int>, write: set<int>, except: set<int>)

  /** `Undefined`: a set was tested at a negative index, on which the C code says nothing. */
  datatype Outcome = Finished(ret: int) | NoSys | Undefined

  datatype Option<T> = None | Some(value: T)

  /** rtems_lwip_sysfd_to_lwipfd: -1 stands for EBADF and ENOTSOCK alike. */
  function LwipFd(t: Table, fd: int): int {
    if fd < 0 || fd >= |t| || t[fd].NotSocket? then -1 else t[fd].data0
  }

  /** The members of a set that a call with this bound looks at; a NULL set has none. */
  ghost function Members(orig: FdSet?, maxfdp1: int): set<int>
    reads orig
  {
    if orig == null then {} else Below(orig.bits, maxfdp1)
  }

  ghost function Below(fds: set<int>, maxfdp1: int): set<int> {
    set fd | fd in fds && 0 <= fd < maxfdp1
  }

  ghost function Image(t: Table, fds: set<int>): set<int> {
    set fd | fd in fds :: LwipFd(t, fd)
  }

  ghost predicate AllSockets(t: Table, fds: set<int>) {
    forall fd :: fd in fds ==> LwipFd(t, fd) >= 0
  }

  ghost predicate Injective(t: Table, fds: set<int>) {
    forall a, b :: a in fds && b in fds && LwipFd(t, a) == LwipFd(t, b) ==> a == b
  }

  /** `m` is the least bound that lwip_select accepts for `s`: one above its largest member. */
  ghost predicate LeastBound(m: int, s: set<int>) {
    && 0 <= m
    && (forall l :: l in s ==> l < m)
    && (m > 0 ==> m - 1 in s)
  }

  /** What translation means in terms of the descriptor table: the socket of a descriptor is in its
      entry, translation fails exactly if a requested descriptor has none, and otherwise the translated
      set holds the sockets of the requested descriptors. */
  lemma Translated(t: Table, bits: set<int>, maxfdp1: int)
    ensures forall fd :: LwipFd(t, fd) == if 0 <= fd < |t| && t[fd].Socket? then t[fd].data0 else -1
    ensures !AllSockets(t, Below(bits, maxfdp1)) <==>
            exists fd :: fd in bits && 0 <= fd < maxfdp1 && (fd >= |t| || t[fd].NotSocket? || t[fd].data0 < 0)
    ensures AllSockets(t, Below(bits, maxfdp1)) ==>
              forall l :: l in Image(t, Below(bits, maxfdp1)) <==>
                          exists fd :: fd in bits && 0 <= fd < maxfdp1 && fd < |t| && t[fd] == Socket(l)
  {
    var fds := Below(bits, maxfdp1);
    if !AllSockets(t, fds) {
      var fd :| fd in fds && LwipFd(t, fd) < 0;
      assert fd in bits && (fd >= |t| || t[fd].NotSocket? || t[fd].data0 < 0);
    } else {
      forall fd | fd in bits && 0 <= fd < maxfdp1
        ensures fd < |t| && t[fd].Socket? && t[fd].data0 >= 0
      {
        assert fd in fds && LwipFd(t, fd) >= 0;
      }
      forall l
        ensures l in Image(t, fds) <==> exists fd :: fd in bits && 0 <= fd < maxfdp1 && fd < |t| && t[fd] == Socket(l)
      {
        ImageAt(t, bits, maxfdp1, l);
      }
    }
  }

  lemma ImageAt(t: Table, bits: set<int>, maxfdp1: int, l: int)
    requires AllSockets(t, Below(bits, maxfdp1))
    ensures l in Image(t, Below(bits, maxfdp1)) <==>
            exists fd :: fd in bits && 0 <= fd < maxfdp1 && fd < |t| && t[fd] == Socket(l)
  {
    var fds := Below(bits, maxfdp1);
    if l in Image(t, fds) {
      var fd :| fd in fds && LwipFd(t, fd) == l;
      assert fd in bits && t[fd] == Socket(l);
    }
    if fd :| fd in bits && 0 <= fd < maxfdp1 && fd < |t| && t[fd] == Socket(l) {
      assert fd in fds && LwipFd(t, fd) == l;
    }
  }

  /** The descriptors that a translation back keeps. */
  lemma StayedIs(t: Table, bits: set<int>, maxfdp1: int, mapped: set<int>)
    requires AllSockets(t, Below(bits, maxfdp1))
    ensures forall fd :: fd in Stayed(t, Below(bits, maxfdp1), mapped) <==>
                         && fd in bits && 0 <= fd < maxfdp1 && fd < |t|
                         && t[fd].Socket? && t[fd].data0 in mapped
  {
  }

  /** fdset_sysfd_to_lwipfd. */
  method ToLwip(t: Table, maxfdp1: int, orig: FdSet?) returns (newMax: int, mapped: set<int>)
    ensures newMax < 0 <==> !AllSockets(t, Members(orig, maxfdp1))
    ensures newMax >= 0 ==>
      mapped == Image(t, Members(orig, maxfdp1)) && LeastBound(newMax, mapped)
    ensures orig == null ==> newMax == 0 && mapped == {}
    ensures orig != null ==>
      (newMax < 0 <==> exists fd :: && fd in orig.bits && 0 <= fd < maxfdp1
                                    && (fd >= |t| || t[fd].NotSocket? || t[fd].data0 < 0))
    ensures orig != null && newMax >= 0 ==>
      forall l :: l in mapped <==> exists fd :: fd in orig.bits && 0 <= fd < maxfdp1 && fd < |t| && t[fd] == Socket(l)
  {
    newMax, mapped := 0, {};
    if orig == null {
      return;
    }
    Translated(t, orig.bits, maxfdp1);
    var sysfd := 0;
    while sysfd < maxfdp1
      invariant 0 <= sysfd && (sysfd <= maxfdp1 || sysfd == 0)
      invariant AllSockets(t, Members(orig, sysfd))
      invariant mapped == Image(t, Members(orig, sysfd)) && LeastBound(newMax, mapped)
      decreases maxfdp1 - sysfd
    {
      if sysfd in orig.bits {
        assert sysfd in Members(orig, maxfdp1);
        var lwipfd := LwipFd(t, sysfd);
        if lwipfd < 0 {
          newMax := -1;
          return;
        }
        if lwipfd > newMax - 1 {
          newMax := lwipfd + 1;
        }
        assert Members(orig, sysfd + 1) == Members(orig, sysfd) + {sysfd};
        ImageAdd(t, Members(orig, sysfd), sysfd);
        mapped := mapped + {lwipfd};
      } else {
        assert Members(orig, sysfd + 1) == Members(orig, sysfd);
      }
      sysfd := sysfd + 1;
    }
    assert Members(orig, sysfd) == Members(orig, maxfdp1);
  }

  lemma ImageAdd(t: Table, fds: set<int>, fd: int)
    ensures Image(t, fds + {fd}) == Image(t, fds) + {LwipFd(t, fd)}
  {
    assert Image(t, fds + {fd}) <= Image(t, fds) + {LwipFd(t, fd)};
    assert fd in fds + {fd};
    forall l | l in Image(t, fds) + {LwipFd(t, fd)}
      ensures l in Image(t, fds + {fd})
    {
      if l in Image(t, fds) {
        var x :| x in fds && LwipFd(t, x) == l;
        assert x in fds + {fd};
      }
    }
  }

  /** The requested descriptors whose socket is in `mapped`. */
  ghost function Stayed(t: Table, fds: set<int>, mapped: set<int>): set<int> {
    set fd | fd in fds && LwipFd(t, fd) in mapped
  }

  /**
   * fdset_lwipfd_to_sysfd. `ok` is false when a requested descriptor is no longer a socket, which
   * makes the code test `mapped` at a negative index.
   */
  method FromLwip(t: Table, maxfdp1: int, orig: FdSet?, mapped: set<int>) returns (ok: bool)
    modifies orig
    ensures ok <==> AllSockets(t, old(Members(orig, maxfdp1)))
    ensures ok && orig != null ==> orig.bits == Stayed(t, old(Members(orig, maxfdp1)), mapped)
    ensures ok ==> Members(orig, maxfdp1) == Stayed(t, old(Members(orig, maxfdp1)), mapped)
    ensures ok && orig != null ==> CountKept(t, old(Members(orig, maxfdp1)), mapped, orig.bits)
    ensures ok && orig != null ==>
      forall fd :: fd in orig.bits <==> && fd in old(orig.bits) && 0 <= fd < maxfdp1 && fd < |t|
                                        && t[fd].Socket? && t[fd].data0 in mapped
  {
    ok := true;
    if orig == null {
      return;
    }
    var newOrig: set<int> := {};
    var sysfd := 0;
    while sysfd < maxfdp1
      invariant 0 <= sysfd && (sysfd <= maxfdp1 || sysfd == 0)
      invariant orig.bits == old(orig.bits)
      invariant ok <==> AllSockets(t, Members(orig, sysfd))
      invariant ok ==> newOrig == Stayed(t, Members(orig, sysfd), mapped)
      decreases maxfdp1 - sysfd
    {
      if sysfd in orig.bits {
        var lwipfd := LwipFd(t, sysfd);
        assert Members(orig, sysfd + 1) == Members(orig, sysfd) + {sysfd};
        if lwipfd < 0 {
          ok := false;
          assert sysfd in Members(orig, sysfd + 1);
        } else if lwipfd in mapped {
          newOrig := newOrig + {sysfd};
        }
      } else {
        assert Members(orig, sysfd + 1) == Members(orig, sysfd);
      }
      sysfd := sysfd + 1;
    }
    assert Members(orig, sysfd) == Members(orig, maxfdp1);
    orig.bits := newOrig;
    if ok {
      StayedIs(t, old(orig.bits), maxfdp1, mapped);
      RoleCount(t, old(orig.bits), maxfdp1, mapped, newOrig);
    }
  }

  /** The largest of the three translated bounds. */
  lemma LeastOfThree(m: int, a: int, b: int, c: int, r: set<int>, w: set<int>, e: set<int>)
    requires LeastBound(a, r) && LeastBound(b, w) && LeastBound(c, e)
    requires m >= a && m >= b && m >= c && (m == a || m == b || m == c)
    ensures LeastBound(m, r + w + e)
  {
  }

  /** The members `s` keeps: those whose socket stayed set in every role `s` was passed in. */
  ghost function Kept(t: Table, s: FdSet, was: set<int>, read: FdSet?, write: FdSet?, except: FdSet?,
                      answer: Reply): set<int> {
    set fd | && fd in was
             && (s == read ==> LwipFd(t, fd) in answer.read)
             && (s == write ==> LwipFd(t, fd) in answer.write)
             && (s == except ==> LwipFd(t, fd) in answer.except)
  }

  /**
   * The caller's set has as many members left as lwIP's, provided distinct requested descriptors
   * have distinct sockets and lwip_select only removed members.
   */
  ghost predicate CountKept(t: Table, was: set<int>, answered: set<int>, now: set<int>) {
    Injective(t, was) && answered <= Image(t, was) ==> |now| == |answered|
  }

  lemma RoleCount(t: Table, bits: set<int>, maxfdp1: int, answered: set<int>, now: set<int>)
    requires now == Stayed(t, Below(bits, maxfdp1), answered)
    ensures CountKept(t, Below(bits, maxfdp1), answered, now)
  {
    if Injective(t, Below(bits, maxfdp1)) && answered <= Image(t, Below(bits, maxfdp1)) {
      SameCount(t, bits, maxfdp1, answered);
    }
  }

  /**
   * select. `inner` stands for lwip_select and may answer anything; `before` and `after` are the
   * descriptor table at the two times it is consulted, since other threads may close or open
   * descriptors while lwip_select waits. The same set may be passed in more than one role.
   */
  method Select(before: Table, after: Table, maxfdp1: int, read: FdSet?, write: FdSet?, except: FdSet?,
                inner: Call -> Reply)
    returns (r: Outcome, asked: Option<Call>, answer: Reply)
    modifies read, write, except
    ensures r == NoSys <==> asked == None
    ensures r == NoSys <==> !(AllSockets(before, old(Members(read, maxfdp1)))
                              && AllSockets(before, old(Members(write, maxfdp1)))
                              && AllSockets(before, old(Members(except, maxfdp1))))
    ensures r == NoSys ==> forall s: FdSet | s in {read, write, except} :: s.bits == old(s.bits)
    ensures asked.Some? ==>
      && asked.value.read == Image(before, old(Members(read, maxfdp1)))
      && asked.value.write == Image(before, old(Members(write, maxfdp1)))
      && asked.value.except == Image(before, old(Members(except, maxfdp1)))
      && LeastBound(asked.value.maxfdp1, asked.value.read + asked.value.write + asked.value.except)
      && answer == inner(asked.value)
    ensures r == Undefined <==>
      asked.Some? && !(AllSockets(after, old(Members(read, maxfdp1)))
                       && AllSockets(after, old(Members(write, maxfdp1)))
                       && AllSockets(after, old(Members(except, maxfdp1))))
    ensures r.Finished? ==> r.ret == answer.ret
    ensures r.Finished? ==> forall s: FdSet | s in {read, write, except} ::
      s.bits == Kept(after, s, old(Members(s, maxfdp1)), read, write, except, answer)
    ensures r.Finished? && before == after && read != null && read != write && read != except ==>
      CountKept(before, old(Members(read, maxfdp1)), answer.read, read.bits)
    ensures r.Finished? && before == after && write != null && write != read && write != except ==>
      CountKept(before, old(Members(write, maxfdp1)), answer.write, write.bits)
    ensures r.Finished? && before == after && except != null && except != read && except != write ==>
      CountKept(before, old(Members(except, maxfdp1)), answer.except, except.bits)
  {
    answer := Reply(-1, {}, {}, {});
    var rmax, newRead := ToLwip(before, maxfdp1, read);
    var wmax, newWrite := ToLwip(before, maxfdp1, write);
    var emax, newExcept := ToLwip(before, maxfdp1, except);
    if rmax < 0 || wmax < 0 || emax < 0 {
      return NoSys, None, answer;
    }
    var newMax := rmax;
    if wmax > newMax {
      newMax := wmax;
    }
    if emax > newMax {
      newMax := emax;
    }
    LeastOfThree(newMax, rmax, wmax, emax, newRead, newWrite, newExcept);
    asked := Some(Call(newMax, newRead, newWrite, newExcept));
    answer := inner(asked.value);
    var ok := Back(after, maxfdp1, read, write, except, answer);
    r := if ok then Finished(answer.ret) else Undefined;
  }

  /** The translation of all three answers, in the order of the code. */
  method Back(t: Table, maxfdp1: int, read: FdSet?, write: FdSet?, except: FdSet?, answer: Reply)
    returns (ok: bool)
    modifies read, write, except
    ensures ok <==> AllSockets(t, old(Members(read, maxfdp1)))
                    && AllSockets(t, old(Members(write, maxfdp1)))
                    && AllSockets(t, old(Members(except, maxfdp1)))
    ensures ok ==> forall s: FdSet | s in {read, write, except} ::
      s.bits == Kept(t, s, old(Members(s, maxfdp1)), read, write, except, answer)
    ensures ok && read != null && read != write && read != except ==>
      CountKept(t, old(Members(read, maxfdp1)), answer.read, read.bits)
    ensures ok && write != null && write != read && write != except ==>
      CountKept(t, old(Members(write, maxfdp1)), answer.write, write.bits)
    ensures ok && except != null && except != read && except != write ==>
      CountKept(t, old(Members(except, maxfdp1)), answer.except, except.bits)
  {
    hide CountKept;
    var okRead := FromLwip(t, maxfdp1, read, answer.read);
    var okWrite := FromLwip(t, maxfdp1, write, answer.write);
    var okExcept := FromLwip(t, maxfdp1, except, answer.except);
    ok := okRead && okWrite && okExcept;
  }

  lemma BelowStep(t: Table, fds: set<int>, n: nat)
    requires n > 0
    ensures n - 1 in fds ==> Below(fds, n) == Below(fds, n - 1) + {n - 1}
    ensures n - 1 in fds ==>
      Image(t, Below(fds, n)) == Image(t, Below(fds, n - 1)) + {LwipFd(t, n - 1)}
    ensures n - 1 !in fds ==> Below(fds, n) == Below(fds, n - 1)
  {
    ImageAdd(t, Below(fds, n - 1), n - 1);
    if n - 1 in fds {
      assert Below(fds, n) == Below(fds, n - 1) + {n - 1};
    } else {
      assert Below(fds, n) == Below(fds, n - 1);
    }
  }

  /** Translating distinct sockets keeps the number of members, and never adds any. */
  lemma {:induction false} ImageCount(t: Table, fds: set<int>, n: int)
    ensures |Image(t, Below(fds, n))| <= |Below(fds, n)|
    ensures Injective(t, Below(fds, n)) ==> |Image(t, Below(fds, n))| == |Below(fds, n)|
  {
    if n <= 0 {
      assert Below(fds, n) == {} && Image(t, {}) == {};
    } else {
      ImageCount(t, fds, n - 1);
      BelowStep(t, fds, n);
      if Injective(t, Below(fds, n)) && n - 1 in fds {
        assert LwipFd(t, n - 1) !in Image(t, Below(fds, n - 1));
      }
    }
  }

  /**
   * The count lwip_select returns is right for the caller: if distinct descriptors have distinct
   * sockets and lwip_select only removed members, what is left of the caller's set is in one-to-one
   * correspondence with what is left of lwIP's.
   */
  lemma SameCount(t: Table, bits: set<int>, maxfdp1: int, left: set<int>)
    requires Injective(t, Below(bits, maxfdp1)) && left <= Image(t, Below(bits, maxfdp1))
    ensures Image(t, Stayed(t, Below(bits, maxfdp1), left)) == left
    ensures |Stayed(t, Below(bits, maxfdp1), left)| == |left|
  {
    var fds := Below(bits, maxfdp1);
    var kept := Stayed(t, fds, left);
    forall l | l in left
      ensures l in Image(t, kept)
    {
      var fd :| fd in fds && LwipFd(t, fd) == l;
      assert fd in kept;
    }
    assert Below(kept, maxfdp1) == kept;
    ImageCount(t, kept, maxfdp1);
  }

  /**
   * Injectivity is exactly what the count needs: when two requested descriptors name one socket, an
   * lwip_select that keeps every member already leaves the caller with more members than lwIP.
   */
  lemma CountNeedsInjective(t: Table, bits: set<int>, maxfdp1: int)
    ensures var fds := Below(bits, maxfdp1);
            Injective(t, fds) <==>
            forall left :: left <= Image(t, fds) ==> |Stayed(t, fds, left)| == |left|
  {
    var fds := Below(bits, maxfdp1);
    if Injective(t, fds) {
      forall left | left <= Image(t, fds)
        ensures |Stayed(t, fds, left)| == |left|
      {
        SameCount(t, bits, maxfdp1, left);
      }
    } else {
      var a, b :| a in fds && b in fds && LwipFd(t, a) == LwipFd(t, b) && a != b;
      var rest := fds - {a};
      assert b in rest && LwipFd(t, a) in Image(t, rest);
      assert rest + {a} == fds;
      ImageAdd(t, rest, a);
      assert Image(t, fds) == Image(t, rest);
      assert Below(rest, maxfdp1) == rest;
      ImageCount(t, rest, maxfdp1);
      assert Stayed(t, fds, Image(t, fds)) == fds;
    }
  }

  /** An lwip_select that keeps every member. */
  function KeepsAll(c: Call): Reply { Reply(|c.read| + |c.write| + |c.except|, c.read, c.write, c.except) }

  /** Two descriptors that name one socket: lwip_select leaves one member and the caller has two. */
  method MiscountReached() returns (read: FdSet, answer: Reply)
    ensures |read.bits| == 2 && |answer.read| == 1 && answer.ret == 1
  {
    var t := [Socket(3), Socket(3)];
    read := new FdSet({0, 1});
    var r, asked;
    BothStay(t);
    r, asked, answer := Select(t, t, 2, read, null, null, KeepsAll);
    assert answer.read == {3};
    assert read.bits == Stayed(t, {0, 1}, {3});
  }

  lemma BothStay(t: Table)
    requires t == [Socket(3), Socket(3)]
    ensures Below({0, 1}, 2) == {0, 1} && Image(t, {0, 1}) == {3} && AllSockets(t, {0, 1})
    ensures Stayed(t, {0, 1}, {3}) == {0, 1} && |{0, 1}| == 2
  {
    assert 0 in {0, 1} && LwipFd(t, 0) == 3 && LwipFd(t, 1) == 3;
  }

  /** A descriptor that is closed while lwip_select waits: the code tests a set at index -1. */
  method UndefinedReached() returns (r: Outcome)
    ensures r == Undefined
  {
    var read := new FdSet({0});
    var asked, answer;
    assert 0 in Below({0}, 1);
    r, asked, answer :=
      Select([Socket(0)], [NotSocket], 1, read, null, null, KeepsAll);
  }
}
