/**
 * The receive side of a TCP netconn: netconn_recv_data and netconn_recv_data_tcp.
 *
 * One reader calls at a time; the TCP/IP thread posts segments, FINs and errors to recvmbox at
 * every point where the reader is not inside a mailbox or flag operation.
 */
module Netconn {

  /** The err_t codes this path can return. */
  datatype Err = Ok | WouldBlock | Conn | Abrt | Rst | Clsd

  /** The conditions that travel through recvmbox as addresses of marker bytes. */
  datatype Cause = Aborted | Reset | Closed

  function Code(c: Cause): Err {
    match c case Aborted => Abrt case Reset => Rst case Closed => Clsd
  }

  datatype Msg = Data(buf: int, totLen: nat) | Note(cause: Cause)

  const Fin: Msg := Note(Closed)

  datatype Option<T> = None | Some(value: T)

  /** What a call hands out; `StillWaiting` is a call that has not returned. */
  datatype Outcome = Returned(err: Err, buf: Option<Msg>) | StillWaiting

  /** NETCONN_DONTBLOCK, NETCONN_NOAUTORCVD and NETCONN_NOFIN. */
  datatype Flags = Flags(dontBlock: bool, noAutoRcvd: bool, noFin: bool)

  /** What the TCP/IP thread does: recv_tcp with a segment or with NULL, and err_tcp. */
  datatype Event = Segment(buf: int, totLen: nat) | RemoteFin | Broken(cause: Cause)

  /** What netconn_close_shutdown came to; `pcbGone` when it closed both directions. */
  datatype Shutdown = Refused | Drained(pcbGone: bool)

  /** A finished call together with the messages it reports and the stored errors it takes. */
  datatype Entry = Entry(out: Outcome, got: seq<Msg>, ate: seq<Err>)

  /** The messages reported by a history of calls, in order. */
  ghost function Reported(h: seq<Entry>): seq<Msg> {
    if h == [] then [] else Reported(h[..|h| - 1]) + h[|h| - 1].got
  }

  /** The stored errors taken by a history of calls, in order. */
  ghost function Taken(h: seq<Entry>): seq<Err> {
    if h == [] then [] else Taken(h[..|h| - 1]) + h[|h| - 1].ate
  }

  /** The messages in `s` that carry data. */
  ghost function DataOf(s: seq<Msg>): seq<Msg> {
    if s == [] then []
    else DataOf(s[..|s| - 1]) + (if s[|s| - 1].Data? then [s[|s| - 1]] else [])
  }

  /** The buffers that the callers of a history saw, in order. */
  ghost function BuffersSeen(h: seq<Entry>): seq<Msg> {
    if h == [] then []
    else BuffersSeen(h[..|h| - 1]) + Seen(h[|h| - 1].out)
  }

  ghost function Seen(out: Outcome): seq<Msg> {
    if out.Returned? && out.err == Ok && out.buf.Some? then [out.buf.value] else []
  }

  /**
   * When a call may be said to report the messages `got` and to hand over the stored errors `ate`:
   * a buffer with ERR_OK is that data message; "nothing yet" and "not connected" stand for nothing;
   * any other error is the marker taken from the mailbox or the error err_tcp stored; a FIN shows as
   * ERR_CLSD or, once the pcb is gone, as the stored error or ERR_RST.
   */
  ghost predicate Explains(out: Outcome, got: seq<Msg>, ate: seq<Err>) {
    if out == StillWaiting then got == [] && ate == []
    else if out.err == Ok then
      out.buf.Some? && out.buf.value.Data? && got == [out.buf.value] && ate == []
    else
      && out.buf == None
      && if out.err == WouldBlock || out.err == Conn then got == [] && ate == []
         else if got == [] then ate == [out.err]
         else if got == [Fin] then ate == [out.err] || (ate == [] && (out.err == Clsd || out.err == Rst))
         else ate == [] && exists c :: got == [Note(c)] && out.err == Code(c)
  }

  ghost predicate AllExplained(h: seq<Entry>) {
    forall k :: 0 <= k < |h| ==> Explains(h[k].out, h[k].got, h[k].ate)
  }

  /** The window credit netconn_tcp_recvd_msg returns for a fetched message. */
  ghost function Credit(m: Msg): nat {
    if m.Data? then m.totLen else if m == Fin then 1 else 0
  }

  lemma {:induction false} DataOfConcat(a: seq<Msg>, b: seq<Msg>)
    ensures DataOf(a + b) == DataOf(a) + DataOf(b)
    decreases |b|
  {
    if b == [] {
      assert a + b == a;
    } else {
      var m := b[|b| - 1];
      assert (a + b)[..|a + b| - 1] == a + b[..|b| - 1];
      DataOfConcat(a, b[..|b| - 1]);
    }
  }

  lemma SeenIsData(e: Entry)
    requires Explains(e.out, e.got, e.ate)
    ensures Seen(e.out) == DataOf(e.got)
  {
    if e.got != [] {
      assert e.got == [e.got[0]] && e.got[..0] == [];
    }
  }

  /** The data a caller saw is the data of the messages reported: callers need not know the log. */
  lemma {:induction false} DataVisible(h: seq<Entry>)
    requires AllExplained(h)
    ensures BuffersSeen(h) == DataOf(Reported(h))
  {
    hide Explains, DataOf, Seen;
    if h != [] {
      var prev, e := h[..|h| - 1], h[|h| - 1];
      assert forall k :: 0 <= k < |prev| ==> prev[k] == h[k];
      DataVisible(prev);
      SeenIsData(e);
      DataOfConcat(Reported(prev), e.got);
    } else {
      HeldNoData([]);
    }
  }

  lemma ReportedSnoc(h: seq<Entry>, e: Entry)
    ensures Reported(h + [e]) == Reported(h) + e.got && Taken(h + [e]) == Taken(h) + e.ate
  {
    assert (h + [e])[..|h|] == h;
  }

  /** What one more call adds to the logs that the callers' view is stated in, and one more message to
      the data. */
  lemma CallAdds(h: seq<Entry>, e: Entry, s: seq<Msg>, m: Msg)
    ensures Reported([]) == [] == BuffersSeen([]) && Taken([]) == [] && DataOf([]) == []
    ensures Reported(h + [e]) == Reported(h) + e.got && Taken(h + [e]) == Taken(h) + e.ate
    ensures e.out.Returned? && e.out.err == Ok && e.out.buf.Some? ==>
              BuffersSeen(h + [e]) == BuffersSeen(h) + [e.out.buf.value]
    ensures e.out == StillWaiting || e.out.err != Ok || e.out.buf == None ==> BuffersSeen(h + [e]) == BuffersSeen(h)
    ensures DataOf(s + [m]) == DataOf(s) + if m.Data? then [m] else []
  {
    assert (h + [e])[..|h|] == h && (s + [m])[..|s|] == s;
  }

  lemma ConnExplained()
    ensures Explains(Returned(Conn, None), [], [])
  {
  }

  class Netconn {
    const size: nat
    var nonblocking: bool
    var recvmbox: seq<Msg>
    var mboxValid: bool
    var mboxClosed: bool
    var finPending: bool
    var pendingErr: Err
    var hasPcb: bool
    var recved: nat
    /** err_tcp has written the flags and has not yet posted its message. */
    var owed: Option<Cause>

    /** Everything recvmbox accepted, everything a reader took out, and what a drain threw away. */
    ghost var posted: seq<Msg>
    ghost var fetched: seq<Msg>
    ghost var drained: seq<Msg>
    /** The errors err_tcp stored, and those that calls have taken from pending_err. */
    ghost var stored: seq<Err>
    ghost var eaten: seq<Err>
    ghost var history: seq<Entry>

    /** The mailbox is a bounded FIFO between `posted` and `fetched`. */
    ghost predicate Fifo()
      reads this`recvmbox, this`posted, this`fetched, this`drained, this`mboxValid, this`mboxClosed,
            this`pendingErr, this`hasPcb, this`owed, this`stored, this`eaten
    {
      && 0 < size
      && |recvmbox| <= size
      && posted == fetched + drained + recvmbox
      && (if mboxValid then drained == [] else recvmbox == [])
      && (pendingErr != Ok || owed.Some? ==> mboxClosed && !hasPcb)
      && (!mboxClosed ==> hasPcb || !mboxValid)
      && pendingErr != WouldBlock && pendingErr != Conn
      && |stored| <= 1 && (hasPcb ==> stored == [])
      && stored == eaten + Pend()
    }

    /** The stored error that no call has taken yet, if any. */
    ghost function Pend(): seq<Err>
      reads this`pendingErr
    {
      if pendingErr == Ok then [] else [pendingErr]
    }

    /** The one FIN that was fetched and not yet reported, if any. */
    ghost function Held(): seq<Msg>
      reads this`finPending
    {
      if finPending then [Fin] else []
    }

    ghost predicate Valid()
      reads this
    {
      && Fifo()
      && AllExplained(history)
      && fetched == Reported(history) + Held()
      && eaten == Taken(history)
    }

    constructor (n: nat, nonblock: bool)
      requires 0 < n
      ensures Valid() && size == n && nonblocking == nonblock && mboxValid && hasPcb && !mboxClosed
      ensures recvmbox == [] && posted == [] && history == [] && !finPending && pendingErr == Ok
    {
      size, nonblocking := n, nonblock;
      recvmbox, mboxValid, mboxClosed, finPending := [], true, false, false;
      pendingErr, hasPcb, recved, owed := Ok, true, 0, None;
      stored, eaten := [], [];
      posted, fetched, drained, history := [], [], [], [];
    }

    /**
     * What the TCP/IP thread leaves alone, and what it only ever adds to. The last lines are what
     * keeps a reader from sleeping through an error: a break in the connection leaves a message in
     * the mailbox or owes one.
     */
    twostate predicate ByTcpip()
      reads this
    {
      && fetched == old(fetched) && drained == old(drained) && history == old(history)
      && finPending == old(finPending) && mboxValid == old(mboxValid)
      && nonblocking == old(nonblocking) && recved == old(recved) && eaten == old(eaten)
      && old(recvmbox) <= recvmbox
      && (old(mboxClosed) ==> mboxClosed) && (hasPcb ==> old(hasPcb))
      && (old(pendingErr) != Ok ==> pendingErr == old(pendingErr))
      && (old(owed).Some? ==> owed == old(owed) || !mboxValid || recvmbox != [])
      && ((mboxClosed != old(mboxClosed) || pendingErr != old(pendingErr) || hasPcb != old(hasPcb))
          ==> mboxClosed && !hasPcb && pendingErr != Ok
              && (mboxValid ==> recvmbox != [] || owed.Some?))
    }

    /** sys_mbox_trypost on recvmbox. */
    method Post(m: Msg)
      requires Fifo() && mboxValid
      modifies this`recvmbox, this`posted
      ensures Fifo()
      ensures recvmbox == if old(|recvmbox|) < size then old(recvmbox) + [m] else old(recvmbox)
      ensures recvmbox != []
    {
      if |recvmbox| < size {
        recvmbox := recvmbox + [m];
        posted := posted + [m];
        assert posted == fetched + drained + recvmbox;
      }
    }

    /**
     * One step of the TCP/IP thread. recv_tcp is one step. err_tcp is two: it writes the flags under
     * protection and posts its message afterwards, so a reader may run in between; the thread's next
     * step is then that post. Both callbacks need a pcb.
     */
    method Deliver(ev: Event)
      requires Fifo()
      modifies this`recvmbox, this`posted, this`mboxClosed, this`pendingErr, this`hasPcb, this`owed, this`stored
      ensures Fifo() && ByTcpip()
      ensures old(owed).Some? ==>
        && owed == None && stored == old(stored)
        && (mboxValid && old(|recvmbox|) < size ==> recvmbox == old(recvmbox) + [Note(old(owed).value)])
      ensures old(owed) == None && ev.Broken? && old(hasPcb) ==>
        && !hasPcb && mboxClosed && pendingErr == Code(ev.cause) && owed == Some(ev.cause)
        && stored == [Code(ev.cause)] && recvmbox == old(recvmbox)
        && pendingErr == match ev.cause case Aborted => Abrt case Reset => Rst case Closed => Clsd
      ensures old(owed) == None && !ev.Broken? && mboxValid && hasPcb && old(|recvmbox|) < size ==>
        recvmbox == old(recvmbox) + [if ev.Segment? then Data(ev.buf, ev.totLen) else Note(Closed)]
      ensures old(owed) == None && !ev.Broken? ==> owed == None && hasPcb == old(hasPcb)
      ensures old(|recvmbox|) == size ==> recvmbox == old(recvmbox)
    {
      if owed.Some? {
        if mboxValid { Post(Note(owed.value)); }
        owed := None;
      } else if hasPcb {
        match ev
        case Broken(c) =>
          hasPcb, pendingErr, mboxClosed := false, Code(c), true;
          owed, stored := Some(c), stored + [Code(c)];
        case Segment(b, n) => if mboxValid { Post(Data(b, n)); }
        case RemoteFin => if mboxValid { Post(Fin); }
      }
    }

    /** A live connection on which these events bring only segments and FINs. */
    ghost predicate Flowing(events: seq<Event>)
      reads this`owed, this`hasPcb, this`mboxValid
    {
      owed == None && hasPcb && mboxValid && forall i :: 0 <= i < |events| ==> !events[i].Broken?
    }

    /** The TCP/IP thread runs the first batch of the script, if there is one. Segments and FINs of a
        live connection enter the mailbox in order, up to its size. */
    method Tcpip(script: seq<seq<Event>>) returns (rest: seq<seq<Event>>)
      requires Fifo()
      modifies this`recvmbox, this`posted, this`mboxClosed, this`pendingErr, this`hasPcb, this`owed, this`stored
      ensures Fifo() && ByTcpip()
      ensures rest == if script == [] then [] else script[1..]
      ensures script == [] ==>
        recvmbox == old(recvmbox) && posted == old(posted) && mboxClosed == old(mboxClosed)
        && pendingErr == old(pendingErr) && hasPcb == old(hasPcb) && owed == old(owed)
      ensures script != [] && old(Flowing(script[0])) ==>
        && |recvmbox| == (if old(|recvmbox|) + |script[0]| < size then old(|recvmbox|) + |script[0]| else size)
        && forall k {:trigger recvmbox[k]} :: old(|recvmbox|) <= k < |recvmbox| ==>
             var ev := script[0][k - old(|recvmbox|)];
             recvmbox[k] == if ev.Segment? then Data(ev.buf, ev.totLen) else Note(Closed)
    {
      rest := [];
      if script != [] {
        for i := 0 to |script[0]|
          invariant Fifo() && ByTcpip()
          invariant old(Flowing(script[0])) ==>
            && owed == None && hasPcb && mboxValid
            && |recvmbox| == (if old(|recvmbox|) + i < size then old(|recvmbox|) + i else size)
            && forall k {:trigger recvmbox[k]} :: old(|recvmbox|) <= k < |recvmbox| ==>
                 var ev := script[0][k - old(|recvmbox|)];
                 recvmbox[k] == if ev.Segment? then Data(ev.buf, ev.totLen) else Note(Closed)
        {
          Deliver(script[0][i]);
        }
        rest := script[1..];
      }
    }

    /** netconn_err: hand over the pending error and forget it. */
    method TakeErr() returns (e: Err, ghost ate: seq<Err>)
      requires Fifo()
      modifies this`pendingErr, this`eaten
      ensures Fifo() && pendingErr == Ok && e == old(pendingErr)
      ensures eaten == old(eaten) + ate && ate == if e == Ok then [] else [e]
    {
      e := pendingErr;
      ate := Pend();
      eaten := eaten + ate;
      pendingErr := Ok;
      assert eaten + Pend() == eaten;
    }

    /** Remove the oldest message. */
    method Fetch() returns (m: Msg)
      requires Fifo() && mboxValid && recvmbox != []
      modifies this`recvmbox, this`fetched
      ensures Fifo() && m == old(recvmbox[0])
      ensures recvmbox == old(recvmbox[1..]) && fetched == old(fetched) + [m]
    {
      m := recvmbox[0];
      fetched := fetched + [m];
      recvmbox := recvmbox[1..];
      assert posted == fetched + drained + recvmbox;
    }

    /** What a fetched message becomes at the end of netconn_recv_data. */
    static function Opened(m: Msg): Outcome {
      match m
      case Data(_, _) => Returned(Ok, Some(m))
      case Note(Closed) => Returned(Ok, None)
      case Note(c) => Returned(Code(c), None)
    }

    /** err_tcp has not run. */
    ghost predicate Unbroken()
      reads this
    {
      !mboxClosed && pendingErr == Ok && hasPcb
    }

    /** The blocking sys_arch_mbox_fetch: wait while the TCP/IP thread has something left to do. */
    method Await(script: seq<seq<Event>>) returns (rest: seq<seq<Event>>)
      requires Fifo() && mboxValid && !mboxClosed && pendingErr == Ok
      modifies this`recvmbox, this`posted, this`mboxClosed, this`pendingErr, this`hasPcb, this`owed, this`stored
      ensures Fifo() && ByTcpip()
      ensures recvmbox == [] ==> rest == [] && (owed.Some? || Unbroken())
      ensures script == [] ==> rest == [] && recvmbox == old(recvmbox)
      ensures script == [] ==> hasPcb == old(hasPcb) && pendingErr == old(pendingErr)
    {
      rest := Tcpip(script);
      while recvmbox == [] && rest != []
        invariant Fifo() && ByTcpip()
        invariant recvmbox == [] ==> owed.Some? || Unbroken()
        invariant script == [] ==> rest == [] && recvmbox == old(recvmbox)
        invariant script == [] ==> hasPcb == old(hasPcb) && pendingErr == old(pendingErr)
        decreases |rest|
      {
        rest := Tcpip(rest);
      }
    }

    /** The branch of netconn_recv_data whose tryfetch found the mailbox empty. */
    method WhyEmpty() returns (e: Err, ghost ate: seq<Err>)
      requires Fifo()
      modifies this`pendingErr, this`eaten
      ensures Fifo() && pendingErr == Ok && eaten == old(eaten) + ate
      ensures ate == if old(pendingErr) == Ok then [] else [e]
      ensures e == (if old(pendingErr) != Ok then old(pendingErr)
                    else if mboxClosed then Conn else WouldBlock)
    {
      e, ate := TakeErr();
      if e == Ok {
        e := if mboxClosed then Conn else WouldBlock;
      }
    }

    lemma FifoMeans()
      requires Fifo()
      ensures pendingErr != Ok || owed.Some? ==> mboxClosed && !hasPcb
      ensures !mboxClosed ==> hasPcb || !mboxValid
      ensures pendingErr != WouldBlock && pendingErr != Conn && (mboxValid || recvmbox == [])
    {
    }

    /** The branch of netconn_recv_data that does not block, up to the tryfetch: Ok if there is a
        message to take, and otherwise the error to return. */
    method TryFetchFails(script: seq<seq<Event>>) returns (rest: seq<seq<Event>>, e: Err, ghost ate: seq<Err>)
      requires Fifo() && mboxValid
      modifies this`recvmbox, this`posted, this`mboxClosed, this`pendingErr, this`hasPcb, this`owed, this`stored,
               this`eaten
      ensures Fifo() && old(recvmbox) <= recvmbox && eaten == old(eaten) + ate
      ensures (old(mboxClosed) ==> mboxClosed) && (hasPcb ==> old(hasPcb)) && (old(recvmbox) != [] ==> e == Ok)
      ensures e == Ok ==> recvmbox != [] && ate == []
      ensures e == Conn ==> mboxClosed && ate == []
      ensures e == WouldBlock ==> !mboxClosed && old(!mboxClosed && pendingErr == Ok) && ate == []
      ensures e != Ok && e != Conn && e != WouldBlock ==> mboxClosed && pendingErr == Ok && ate == [e]
      ensures script == [] ==> rest == [] && hasPcb == old(hasPcb) && recvmbox == old(recvmbox)
      ensures script == [] && e == Ok ==> pendingErr == old(pendingErr)
      ensures script == [] && e != Ok ==>
        e == if old(pendingErr) != Ok then old(pendingErr) else if old(mboxClosed) then Conn else WouldBlock
    {
      hide Fifo;
      FifoMeans();
      e, ate := Ok, [];
      rest := Tcpip(script);
      if recvmbox == [] {
        rest := Tcpip(rest);
        FifoMeans();
        e, ate := WhyEmpty();
      }
    }

    /** Why a call that takes no message returns. */
    ghost predicate Reason(flags: Flags, err: Err, ate: seq<Err>)
      reads this
    {
      && err != Ok
      && (err == Conn ==> (!mboxValid || mboxClosed) && ate == [])
      && (err == WouldBlock ==> mboxValid && !mboxClosed && (nonblocking || flags.dontBlock) && ate == [])
      && (err != Conn && err != WouldBlock ==> mboxClosed && pendingErr == Ok && ate == [err])
    }

    /** A call that has not returned: blocking, on an empty mailbox of a connection that has not
        broken or whose err_tcp is about to post. */
    ghost predicate Sleeping(flags: Flags)
      reads this
    {
      && recvmbox == [] && mboxValid && !nonblocking && !flags.dontBlock
      && (owed.Some? || Unbroken())
    }

    /**
     * netconn_recv_data on a TCP netconn; `took` is what it removed from the mailbox and `ate` the
     * stored error it took. A call either takes exactly the oldest message and hands it out, or
     * takes nothing and says why. A call that keeps waiting has not slept through a break, however
     * the steps of err_tcp and the wait were interleaved.
     */
    method RecvData(flags: Flags, script: seq<seq<Event>>)
      returns (r: Outcome, rest: seq<seq<Event>>, ghost took: seq<Msg>, ghost ate: seq<Err>)
      requires Fifo()
      modifies this`recvmbox, this`posted, this`fetched, this`mboxClosed, this`pendingErr, this`hasPcb,
               this`owed, this`stored, this`eaten
      ensures Fifo() && (script == [] ==> rest == [] && hasPcb == old(hasPcb))
      ensures (old(mboxClosed) ==> mboxClosed && r != StillWaiting) && (hasPcb ==> old(hasPcb))
      ensures fetched == old(fetched) + took && |took| <= 1 && eaten == old(eaten) + ate
      ensures took != [] ==> mboxValid && r == Opened(took[0]) && ate == []
      ensures took != [] ==> r == match took[0]
                                  case Data(_, _) => Returned(Ok, Some(took[0]))
                                  case Note(Closed) => Returned(Ok, None)
                                  case Note(Aborted) => Returned(Abrt, None)
                                  case Note(Reset) => Returned(Rst, None)
      ensures took != [] && script == [] ==> pendingErr == old(pendingErr)
      ensures old(recvmbox) != [] ==> took == [old(recvmbox[0])]
      ensures script == [] && old(recvmbox) == [] ==> took == []
      ensures r == StillWaiting ==> took == [] && ate == [] && rest == [] && Sleeping(flags)
      ensures took == [] && r.Returned? ==> r.buf == None && Reason(flags, r.err, ate)
      ensures script == [] && took == [] && r.Returned? ==>
        r.err == (if old(pendingErr) != Ok then old(pendingErr)
                  else if !mboxValid || old(mboxClosed) then Conn else WouldBlock)
    {
      hide Fifo, Reason, Sleeping;
      took := [];
      var ready;
      ready, r, rest, ate := Wait(flags, script);
      if ready {
        var m := Fetch();
        took := [m];
        r := Opened(m);
      }
    }

    /** Everything of netconn_recv_data before the message is taken: ready, or the answer without one. */
    method Wait(flags: Flags, script: seq<seq<Event>>)
      returns (ready: bool, r: Outcome, rest: seq<seq<Event>>, ghost ate: seq<Err>)
      requires Fifo()
      modifies this`recvmbox, this`posted, this`mboxClosed, this`pendingErr, this`hasPcb, this`owed, this`stored,
               this`eaten
      ensures Fifo() && old(recvmbox) <= recvmbox && eaten == old(eaten) + ate
      ensures (old(mboxClosed) ==> mboxClosed) && (hasPcb ==> old(hasPcb)) && (old(recvmbox) != [] ==> ready)
      ensures ready ==> mboxValid && recvmbox != [] && ate == []
      ensures !ready && r == StillWaiting ==> ate == [] && rest == [] && Sleeping(flags) && !old(mboxClosed)
      ensures !ready && r.Returned? ==> r.buf == None && Reason(flags, r.err, ate)
      ensures script == [] ==> rest == [] && hasPcb == old(hasPcb) && recvmbox == old(recvmbox)
      ensures script == [] && ready ==> pendingErr == old(pendingErr)
      ensures script == [] && !ready && r.Returned? ==>
        r.err == (if old(pendingErr) != Ok then old(pendingErr)
                  else if !mboxValid || old(mboxClosed) then Conn else WouldBlock)
    {
      hide Fifo;
      ready, r, rest, ate := false, StillWaiting, script, [];
      FifoMeans();
      if !mboxValid {
        var e;
        e, ate := TakeErr();
        r := Returned(if e != Ok then e else Conn, None);
      } else if nonblocking || flags.dontBlock || mboxClosed || pendingErr != Ok {
        var e;
        rest, e, ate := TryFetchFails(rest);
        ready, r := e == Ok, Returned(e, None);
      } else {
        rest := Await(rest);
        ready := recvmbox != [];
      }
    }

    /** netconn_close_shutdown(conn, NETCONN_SHUT_RD), which may refuse; netconn_drain empties recvmbox. */
    method CloseRead(how: Shutdown)
      requires Fifo()
      modifies this`recvmbox, this`mboxValid, this`drained, this`hasPcb
      ensures Fifo()
      ensures how == Refused ==>
        recvmbox == old(recvmbox) && mboxValid == old(mboxValid) && drained == old(drained)
        && hasPcb == old(hasPcb)
      ensures how.Drained? ==>
        !mboxValid && recvmbox == [] && drained == old(drained) + old(recvmbox)
        && hasPcb == (old(hasPcb) && !how.pcbGone)
    {
      if how.Drained? {
        drained := drained + recvmbox;
        recvmbox := [];
        mboxValid := false;
        hasPcb := hasPcb && !how.pcbGone;
        assert posted == fetched + drained + recvmbox;
      }
    }

    /**
     * The code at label handle_fin: the FIN shows as ERR_CLSD and the receive side is closed, unless
     * the connection has already broken, in which case the error that broke it is shown instead.
     */
    method HandleFin(script: seq<seq<Event>>, how: Shutdown)
      returns (r: Outcome, rest: seq<seq<Event>>, ghost ate: seq<Err>)
      requires Fifo()
      modifies this`recvmbox, this`posted, this`mboxClosed, this`pendingErr, this`hasPcb,
               this`mboxValid, this`drained, this`owed, this`stored, this`eaten
      ensures Fifo() && Explains(r, [Fin], ate) && r.Returned? && eaten == old(eaten) + ate
      ensures old(mboxValid) && how.Drained? && mboxValid ==> !hasPcb
      ensures (hasPcb ==> old(hasPcb)) && (hasPcb ==> r == Returned(Clsd, None))
      ensures script == [] && old(hasPcb) ==>
        r == Returned(Clsd, None)
        && (if how == Refused then recvmbox == old(recvmbox) && mboxValid == old(mboxValid)
            else !mboxValid && drained == old(drained) + old(recvmbox))
      ensures script == [] && !old(hasPcb) ==>
        r == Returned(if old(pendingErr) != Ok then old(pendingErr) else Rst, None)
        && pendingErr == Ok && recvmbox == old(recvmbox) && mboxValid == old(mboxValid)
    {
      ate := [];
      rest := Tcpip(script);
      if !hasPcb {
        var e;
        e, ate := TakeErr();
        r := Returned(if e != Ok then e else Rst, None);
        return;
      }
      CloseRead(how);
      r := Returned(Clsd, None);
    }

    /** The window credit of each message. */
    static lemma CreditIs(m: Msg)
      ensures Credit(m) == match m
                           case Data(_, n) => n
                           case Note(Closed) => 1
                           case Note(_) => 0
    {
    }

    /** The outcomes of netconn_recv_data in the terms of its caller. */
    lemma RecvExplained(r: Outcome, took: seq<Msg>, ate: seq<Err>, flags: Flags)
      requires |took| <= 1 && (took != [] ==> r == Opened(took[0]) && ate == [])
      requires r == StillWaiting ==> took == [] && ate == []
      requires took == [] && r.Returned? ==> r.buf == None && Reason(flags, r.err, ate)
      ensures r == Returned(Ok, None) <==> took == [Fin]
      ensures r != Returned(Ok, None) ==> Explains(r, took, ate)
      ensures r == Returned(Ok, None) ==> ate == [] && Explains(Returned(WouldBlock, None), [], [])
      ensures r.Returned? && r.err == Ok ==> took != []
      ensures r.Returned? && r.err == Ok && r.buf.Some? ==> r.buf.value == took[0]
      ensures took != [] ==>
        Credit(took[0]) == if r.err == Ok then (if r.buf.Some? then r.buf.value.totLen else 1) else 0
    {
      if took != [] {
        assert took == [took[0]];
      }
    }

    /**
     * The part of netconn_recv_data_tcp below the FIN_RX_PENDING test: receive, return the window
     * credit, and deal with a FIN. `got` is the message the call reports.
     */
    method Receive(flags: Flags, script: seq<seq<Event>>, how: Shutdown)
      returns (r: Outcome, rest: seq<seq<Event>>, ghost took: seq<Msg>, ghost got: seq<Msg>, ghost ate: seq<Err>)
      requires Fifo() && mboxValid && !finPending
      modifies this`recvmbox, this`posted, this`fetched, this`mboxClosed, this`pendingErr, this`hasPcb,
               this`mboxValid, this`drained, this`finPending, this`recved, this`owed, this`stored, this`eaten
      ensures Fifo() && Explains(r, got, ate) && eaten == old(eaten) + ate
      ensures fetched == old(fetched) + took && |took| <= 1 && took == got + Held()
      ensures old(recvmbox) != [] ==> took == [old(recvmbox[0])]
      ensures script == [] && old(recvmbox) == [] ==> took == []
      ensures recved == old(recved) + (if flags.noAutoRcvd || took == [] then 0 else Credit(took[0]))
      ensures took != [] ==> match took[0]
                             case Data(_, _) => r == Returned(Ok, Some(took[0]))
                             case Note(Closed) => true
                             case Note(Aborted) => r == Returned(Abrt, None)
                             case Note(Reset) => r == Returned(Rst, None)
      ensures finPending ==> flags.noFin && mboxValid && r == Returned(WouldBlock, None)
      ensures flags.noFin ==> got != [Fin]
      ensures r == StillWaiting ==> took == [] && Sleeping(flags)
      ensures took == [] && r.Returned? ==> Reason(flags, r.err, ate)
      ensures script == [] && took == [] && r.Returned? ==>
        r.err == (if old(pendingErr) != Ok then old(pendingErr) else if old(mboxClosed) then Conn else WouldBlock)
      ensures script == [] && got == [Fin] ==>
        if old(hasPcb) then r == Returned(Clsd, None) && (how.Drained? ==> !mboxValid)
        else r == Returned(if old(pendingErr) != Ok then old(pendingErr) else Rst, None)
    {
      hide Fifo, Explains, Reason, Sleeping, Credit;
      r, rest, took, ate := RecvData(flags, script);
      got := took;
      RecvExplained(r, took, ate, flags);
      if r.Returned? && r.err == Ok {
        if !flags.noAutoRcvd {
          recved := recved + (if r.buf.Some? then r.buf.value.totLen else 1);
        }
        if r.buf == None {
          if flags.noFin {
            finPending := true;
            got := [];
            r := Returned(WouldBlock, None);
          } else {
            r, rest, ate := HandleFin(rest, how);
          }
        }
      }
    }

    /**
     * netconn_recv_data_tcp. Keeping `Valid` says that everything ever fetched has been reported in
     * order except for at most one trailing FIN. A FIN left behind is what the next call on a live
     * mailbox reports, and that call fetches nothing.
     */
    method RecvDataTcp(flags: Flags, script: seq<seq<Event>>, how: Shutdown)
      returns (r: Outcome, rest: seq<seq<Event>>, ghost took: seq<Msg>, ghost got: seq<Msg>, ghost ate: seq<Err>)
      requires Valid()
      modifies this
      ensures Valid() && nonblocking == old(nonblocking)
      ensures history == old(history) + [Entry(r, got, ate)]
      ensures fetched == old(fetched) + took
      ensures !old(mboxValid) ==>
        && r == Returned(Conn, None) && took == got == []
        && finPending == old(finPending) && recved == old(recved)
      ensures old(mboxValid && finPending) ==>
        && took == [] && got == [Fin] && !finPending && recved == old(recved)
      ensures old(mboxValid && !finPending) ==>
        && |took| <= 1 && took == got + Held()
        && (old(recvmbox) != [] ==> took == [old(recvmbox[0])])
        && (script == [] && old(recvmbox) == [] ==> took == [])
        && recved == old(recved) + (if flags.noAutoRcvd || took == [] then 0 else Credit(took[0]))
        && (took != [] ==>
              match took[0]
              case Data(_, n) =>
                r == Returned(Ok, Some(took[0])) && recved == old(recved) + if flags.noAutoRcvd then 0 else n
              case Note(Closed) => recved == old(recved) + if flags.noAutoRcvd then 0 else 1
              case Note(Aborted) => r == Returned(Abrt, None) && recved == old(recved)
              case Note(Reset) => r == Returned(Rst, None) && recved == old(recved))
        && (finPending ==> flags.noFin && mboxValid && r == Returned(WouldBlock, None))
        && (flags.noFin ==> got != [Fin])
        && (took == [] && r.Returned? ==> Reason(flags, r.err, ate))
        && (script == [] && took == [] && r.Returned? ==>
              r.err == if old(pendingErr) != Ok then old(pendingErr) else if old(mboxClosed) then Conn else WouldBlock)
      ensures r == StillWaiting ==> took == [] && Sleeping(flags)
      ensures script == [] && got == [Fin] ==>
        if old(hasPcb) then r == Returned(Clsd, None) && (how.Drained? ==> !mboxValid)
        else r == Returned(if old(pendingErr) != Ok then old(pendingErr) else Rst, None)
    {
      hide Fifo, Explains, Reported, AllExplained, Credit, Taken;
      took, got, ate := [], [], [];
      if !mboxValid {
        ConnExplained();
        r, rest := Returned(Conn, None), script;
      } else if finPending {
        finPending := false;
        got := [Fin];
        r, rest, ate := HandleFin(script, how);
      } else {
        r, rest, took, got, ate := Receive(flags, script, how);
      }
      Conclude(r, got, ate);
      if took != [] {
        CreditIs(took[0]);
      }
    }

    /** Enter a finished call in the history. */
    ghost method Conclude(r: Outcome, got: seq<Msg>, ate: seq<Err>)
      requires Fifo() && AllExplained(history) && Explains(r, got, ate)
      requires fetched == Reported(history) + got + Held() && eaten == Taken(history) + ate
      modifies this`history
      ensures Valid() && history == old(history) + [Entry(r, got, ate)]
    {
      ReportedSnoc(history, Entry(r, got, ate));
      history := history + [Entry(r, got, ate)];
    }
  }

  /**
   * Errors over any run: what calls took from pending_err, and what is still there, is exactly what
   * err_tcp stored, and that is at most one error; every other error a call returned is a marker
   * from the mailbox, or ERR_RST for a FIN of a connection whose pcb is gone.
   */
  lemma ErrorsAccountedFor(c: Netconn, k: nat)
    requires c.Valid() && k < |c.history|
    ensures c.stored == Taken(c.history) + c.Pend() && |c.stored| <= 1
    ensures var e := c.history[k];
            e.out.Returned? && e.out.err !in {Ok, WouldBlock, Conn} && e.got == [] ==> c.stored == [e.out.err]
  {
    var e := c.history[k];
    assert Explains(e.out, e.got, e.ate);
    if e.ate != [] {
      TakenAt(c.history, k, e.ate[0]);
    }
  }

  lemma {:induction false} TakenAt(h: seq<Entry>, k: nat, e: Err)
    requires k < |h| && e in h[k].ate
    ensures e in Taken(h)
  {
    if k < |h| - 1 {
      TakenAt(h[..|h| - 1], k, e);
    }
  }

  /**
   * Over any run of calls: the data the callers saw, then the data thrown away by closing the read
   * side, then the data still queued, is exactly the data the connection accepted, in order.
   */
  lemma {:induction false} NothingLost(c: Netconn)
    requires c.Valid()
    ensures BuffersSeen(c.history) + DataOf(c.drained) + DataOf(c.recvmbox) == DataOf(c.posted)
  {
    DataVisible(c.history);
    DataSplit(Reported(c.history), c.Held(), c.drained, c.recvmbox);
  }

  lemma DataSplit(reported: seq<Msg>, held: seq<Msg>, drained: seq<Msg>, queued: seq<Msg>)
    requires held == [] || held == [Fin]
    ensures DataOf(reported + held + drained + queued)
            == DataOf(reported) + DataOf(drained) + DataOf(queued)
  {
    hide DataOf;
    DataOfConcat(reported + held + drained, queued);
    DataOfConcat(reported + held, drained);
    DataOfConcat(reported, held);
    HeldNoData(held);
  }

  lemma HeldNoData(held: seq<Msg>)
    requires held == [] || held == [Fin]
    ensures DataOf(held) == []
  {
    assert held != [] ==> held[..0] == [];
  }
}
