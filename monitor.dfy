/** PidMonitor: the netlink connector socket subscribed to process events,
    the queue of decoded events, and the receive loop that refills it.

    The kernel side of the socket is a Socket object. What the kernel would
    answer to bind, setsockopt and writev is fixed when the Socket is made,
    and the datagrams (or receive errors) it would deliver are the sequence
    `incoming`, consumed one per receive. */
module Monitor {
  import opened Wire
  import opened Netlink
  import opened ProcConnector
  import opened FrameWalk

  /** What one receive on the socket would return. */
  datatype Delivery = RecvError | Datagram(bytes: seq<byte>)

  /** struct sockaddr_nl as bind is given it: the port id and the multicast
      groups (the family is always AF_NETLINK). */
  datatype SockAddr = SockAddr(pid: u32, groups: u32)

  /** The outcome of one receive: an error, a datagram of n bytes copied into
      the buffer, or nothing left to deliver (a real receive would block). */
  datatype RecvResult = RecvErr | RecvLen(n: nat) | RecvBlocked

  /** The socket's state apart from its receive queue. */
  datatype SocketConfig = SocketConfig(bound: Option<SockAddr>, noEnobufs: bool,
                                       sent: seq<seq<byte>>, closed: bool)

  /** The bytes of a datagram that a receive into cap bytes keeps: a
      datagram socket drops whatever does not fit. */
  function Received(d: seq<byte>, cap: nat): (r: seq<byte>)
    ensures |r| == Min(|d|, cap) && r == d[..|r|]
  {
    d[..Min(|d|, cap)]
  }

  /** The bytes writev sends: the iovec parts one after another. */
  function Flatten(parts: seq<seq<byte>>): seq<byte>
  {
    if parts == [] then [] else parts[0] + Flatten(parts[1..])
  }

  /** Copies as much of src as fits to the front of dst, the way recv fills
      the receive buffer. */
  method CopyPrefix(dst: array<byte>, src: seq<byte>) returns (n: nat)
    modifies dst
    ensures n == Min(|src|, dst.Length)
    ensures dst[..n] == src[..n]
    ensures dst[n..] == old(dst[n..])
  {
    n := Min(|src|, dst.Length);
    var i := 0;
    while i < n
      invariant 0 <= i <= n
      invariant dst[..i] == src[..i]
      invariant dst[n..] == old(dst[n..])
    {
      dst[i] := src[i];
      i := i + 1;
    }
  }

  class Socket {
    var incoming: seq<Delivery>
    var bound: Option<SockAddr>
    var noEnobufs: bool
    var sent: seq<seq<byte>>
    var closed: bool
    const bindOk: bool
    const setsockoptOk: bool
    const writevOk: bool

    function Config(): SocketConfig
      reads this
    {
      SocketConfig(bound, noEnobufs, sent, closed)
    }

    /** A freshly created, unbound socket. */
    constructor (incoming: seq<Delivery>, bindOk: bool, setsockoptOk: bool, writevOk: bool)
      ensures this.incoming == incoming
      ensures this.bindOk == bindOk && this.setsockoptOk == setsockoptOk && this.writevOk == writevOk
      ensures Config() == SocketConfig(None, false, [], false)
    {
      this.incoming := incoming;
      this.bindOk := bindOk;
      this.setsockoptOk := setsockoptOk;
      this.writevOk := writevOk;
      bound := None;
      noEnobufs := false;
      sent := [];
      closed := false;
    }

    method Bind(addr: SockAddr) returns (ok: bool)
      modifies this
      ensures ok == bindOk
      ensures Config() == old(Config()).(bound := if ok then Some(addr) else old(bound))
      ensures incoming == old(incoming)
    {
      ok := bindOk;
      if ok {
        bound := Some(addr);
      }
    }

    /** setsockopt(SOL_NETLINK, NETLINK_NO_ENOBUFS, 1). */
    method SetNoEnobufs() returns (ok: bool)
      modifies this
      ensures ok == setsockoptOk
      ensures Config() == old(Config()).(noEnobufs := old(noEnobufs) || ok)
      ensures incoming == old(incoming)
    {
      ok := setsockoptOk;
      if ok {
        noEnobufs := true;
      }
    }

    /** writev: on success the parts go out as one datagram. */
    method Writev(iov: seq<seq<byte>>) returns (ok: bool)
      modifies this
      ensures ok == writevOk
      ensures Config() == old(Config()).(sent := if ok then old(sent) + [Flatten(iov)] else old(sent))
      ensures incoming == old(incoming)
    {
      ok := writevOk;
      if ok {
        sent := sent + [Flatten(iov)];
      }
    }

    /** recv into buffer: takes the next delivery; a datagram is copied to
        the front of the buffer, cut to the buffer's length. */
    method Receive(buffer: array<byte>) returns (r: RecvResult)
      modifies this, buffer
      ensures Config() == old(Config())
      ensures old(incoming) == [] ==> r == RecvBlocked && incoming == [] && buffer[..] == old(buffer[..])
      ensures old(incoming) != [] ==> incoming == old(incoming[1..])
      ensures old(incoming) != [] && old(incoming[0]).RecvError? ==>
                r == RecvErr && buffer[..] == old(buffer[..])
      ensures old(incoming) != [] && old(incoming[0]).Datagram? ==>
                var kept := Received(old(incoming[0]).bytes, buffer.Length);
                && r == RecvLen(|kept|)
                && buffer[..|kept|] == kept
                && buffer[|kept|..] == old(buffer[|kept|..])
    {
      if incoming == [] {
        return RecvBlocked;
      }
      var head := incoming[0];
      incoming := incoming[1..];
      match head
      case RecvError =>
        r := RecvErr;
      case Datagram(d) =>
        var n := CopyPrefix(buffer, d);
        r := RecvLen(n);
    }

    method Close()
      modifies this
      ensures Config() == old(Config()).(closed := true)
      ensures incoming == old(incoming)
    {
      closed := true;
    }
  }

  /** The size of the receive buffer: min(page size, 8192) 32-bit words,
      handed to recv as that many times four bytes. */
  function BufferBytes(pageSize: nat): (r: nat)
    ensures r % 4 == 0 && r <= 4 * 8192
  {
    4 * Min(pageSize, 8192)
  }

  // ---------------------------------------------------------------------
  // get_events and recv over the sequence of deliveries.

  /** How get_events ends: Ok, an error from recv, or no delivery left (a
      real receive would block there). */
  datatype Outcome = Ok | Err | Blocked

  datatype Refilled = Refilled(outcome: Outcome, queue: seq<PidEvent>, incoming: seq<Delivery>)

  /** get_events: while the queue is empty, receive and walk the datagram;
      an error ends with Err, a zero-length receive ends with Ok. */
  function GetEventsSpec(queue: seq<PidEvent>, incoming: seq<Delivery>, cap: nat): (r: Refilled)
    decreases |incoming|
    ensures |r.incoming| <= |incoming|
    ensures !r.outcome.Ok? ==> r.queue == []
  {
    if queue != [] then Refilled(Ok, queue, incoming)
    else if incoming == [] then Refilled(Blocked, queue, incoming)
    else match incoming[0]
      case RecvError => Refilled(Err, queue, incoming[1..])
      case Datagram(d) =>
        var bytes := Received(d, cap);
        if |bytes| == 0 then Refilled(Ok, queue, incoming[1..])
        else GetEventsSpec(queue + Events(bytes, 0), incoming[1..], cap)
  }

  /** The events the receive passes over ds decode, in wire order. */
  function PassEvents(ds: seq<Delivery>, cap: nat): seq<PidEvent>
  {
    if ds == [] then []
    else
      (match ds[0]
       case RecvError => []
       case Datagram(d) => Events(Received(d, cap), 0))
      + PassEvents(ds[1..], cap)
  }

  /** A delivery on which get_events receives again (source line 165): a
      datagram with some bytes in it from which the walk decodes nothing. */
  predicate Retried(d: Delivery, cap: nat)
  {
    d.Datagram? && Received(d.bytes, cap) != [] && Events(Received(d.bytes, cap), 0) == []
  }

  lemma PassEventsSplit(ds: seq<Delivery>, cap: nat)
    requires ds != []
    ensures PassEvents(ds, cap) == PassEvents([ds[0]], cap) + PassEvents(ds[1..], cap)
  {
    assert [ds[0]][1..] == [];
  }

  /** get_events consumes a prefix of the deliveries and appends what their
      passes decode, in wire order, behind what the queue already held. */
  lemma {:induction false} GetEventsAppends(queue: seq<PidEvent>, incoming: seq<Delivery>, cap: nat)
    ensures var g := GetEventsSpec(queue, incoming, cap);
            var k := |incoming| - |g.incoming|;
            && |g.incoming| <= |incoming|
            && g.incoming == incoming[k..]
            && g.queue == queue + PassEvents(incoming[..k], cap)
    decreases |incoming|
  {
    var g := GetEventsSpec(queue, incoming, cap);
    var k := |incoming| - |g.incoming|;
    if queue != [] || incoming == [] {
      assert incoming[..0] == [];
    } else {
      var bytes := if incoming[0].Datagram? then Received(incoming[0].bytes, cap) else [];
      if incoming[0].Datagram? && |bytes| != 0 {
        GetEventsAppends(queue + Events(bytes, 0), incoming[1..], cap);
        PassEventsSplit(incoming[..k], cap);
        assert incoming[..k][1..] == incoming[1..][..k - 1];
      } else {
        assert k == 1;
        PassEventsSplit(incoming[..k], cap);
        assert incoming[..k][1..] == [];
      }
    }
  }

  /** On an empty queue, get_events receives again after every datagram
      that decodes to nothing and after nothing else: every delivery it
      consumed before the last was such a datagram, and it stops on an error
      (Err), on a zero-length receive or a datagram that decodes to some
      event (Ok), or when no delivery is left (Blocked, having consumed
      all). Err and Blocked leave the queue empty. */
  lemma {:induction false} GetEventsRetries(incoming: seq<Delivery>, cap: nat)
    ensures var g := GetEventsSpec([], incoming, cap);
            var k := |incoming| - |g.incoming|;
            && |g.incoming| <= |incoming|
            && (forall i | 0 <= i < k - 1 :: Retried(incoming[i], cap))
            && (g.outcome.Blocked? ==> k == |incoming| && forall i | 0 <= i < k :: Retried(incoming[i], cap))
            && (g.outcome.Err? ==> k >= 1 && incoming[k - 1] == RecvError)
            && (g.outcome.Ok? ==> k >= 1 && incoming[k - 1].Datagram? && !Retried(incoming[k - 1], cap))
            && (!g.outcome.Ok? ==> g.queue == [])
    decreases |incoming|
  {
    if incoming != [] && incoming[0].Datagram? {
      var bytes := Received(incoming[0].bytes, cap);
      if |bytes| != 0 {
        var evs := Events(bytes, 0);
        if evs == [] {
          assert [] + evs == [];
          GetEventsRetries(incoming[1..], cap);
        }
      }
    }
  }

  datatype Polled = Polled(event: Option<PidEvent>, queue: seq<PidEvent>, incoming: seq<Delivery>)

  /** recv: the head of the queue when there is one, with no receive;
      otherwise get_events, then the head of the refilled queue on Ok, and
      None on an error. */
  function Poll(queue: seq<PidEvent>, incoming: seq<Delivery>, cap: nat): (r: Polled)
    ensures |r.incoming| <= |incoming|
    ensures r.event.None? ==> r.queue == []
  {
    if queue != [] then Polled(Some(queue[0]), queue[1..], incoming)
    else
      var g := GetEventsSpec(queue, incoming, cap);
      if g.outcome.Ok? && g.queue != [] then Polled(Some(g.queue[0]), g.queue[1..], g.incoming)
      else Polled(None, g.queue, g.incoming)
  }

  /** A queued event is handed out first, the rest stay queued in order, and
      the socket is not read. */
  lemma PollQueued(queue: seq<PidEvent>, incoming: seq<Delivery>, cap: nat)
    requires queue != []
    ensures Poll(queue, incoming, cap) == Polled(Some(queue[0]), queue[1..], incoming)
  {
  }

  /** recv on an empty queue loses nothing: the event it returns followed by
      what it leaves queued is exactly what the receive passes it made
      decoded, in wire order. */
  lemma PollLosesNothing(incoming: seq<Delivery>, cap: nat)
    ensures var p := Poll([], incoming, cap);
            var k := |incoming| - |p.incoming|;
            && |p.incoming| <= |incoming|
            && p.incoming == incoming[k..]
            && OptionSeq(p.event) + p.queue == PassEvents(incoming[..k], cap)
  {
    var g := GetEventsSpec([], incoming, cap);
    GetEventsAppends([], incoming, cap);
    GetEventsRetries(incoming, cap);
    if g.outcome.Ok? && g.queue != [] {
      HeadTail(g.queue);
    }
  }

  /** A receive error makes recv return None and leaves the queue empty. */
  lemma PollError(incoming: seq<Delivery>, cap: nat)
    requires incoming != [] && incoming[0] == RecvError
    ensures Poll([], incoming, cap) == Polled(None, [], incoming[1..])
  {
  }

  /** A zero-length receive makes recv return None and leaves the queue as
      it was. */
  lemma PollZeroLength(incoming: seq<Delivery>, cap: nat)
    requires incoming != [] && incoming[0].Datagram? && Received(incoming[0].bytes, cap) == []
    ensures Poll([], incoming, cap) == Polled(None, [], incoming[1..])
  {
  }

  /** A datagram the kernel filled with messages for evs that fits in the
      buffer: recv returns the first event and queues the others in order,
      after one receive. */
  lemma PollKernelBatch(evs: seq<PidEvent>, sts: seq<Stamp>, rest: seq<Delivery>, cap: nat)
    requires |sts| == |evs| && evs != [] && |ProcMsgs(evs, sts)| <= cap
    ensures Poll([], [Datagram(ProcMsgs(evs, sts))] + rest, cap) == Polled(Some(evs[0]), evs[1..], rest)
  {
    var d := ProcMsgs(evs, sts);
    assert Received(d, cap) == d;
    EventsOfProcMsgs(evs, sts);
    var incoming := [Datagram(d)] + rest;
    assert incoming[1..] == rest;
    assert [] + evs == evs;
    assert GetEventsSpec([], incoming, cap) == GetEventsSpec(evs, rest, cap);
  }

  // ---------------------------------------------------------------------
  // The subscription request of listen.

  /** The netlink header of the request: NLMSG_LENGTH(sizeof(cn_msg) +
      sizeof(proc_cn_mcast_op)), NLMSG_DONE, addressed from port id. */
  function ListenHeader(id: u32): NlMsgHdr
  {
    NlMsgHdr(NlmsgLength(CN_MSG_SIZE + PROC_CN_MCAST_OP_SIZE), NLMSG_DONE, 0, 0, id)
  }

  /** The connector header: the process-event namespace, four payload bytes. */
  function ListenCnMsg(): CnMsgHdr
  {
    CnMsgHdr(CN_IDX_PROC, CN_VAL_PROC, 0, 0, PROC_CN_MCAST_OP_SIZE, 0)
  }

  /** The three iovec parts listen hands to writev. */
  function ListenIov(id: u32): (iov: seq<seq<byte>>)
    ensures |iov| == 3
    ensures |iov[0]| == NLMSGHDR_SIZE && |iov[1]| == CN_MSG_SIZE && |iov[2]| == PROC_CN_MCAST_OP_SIZE
  {
    [Words(NlMsgHdrWords(ListenHeader(id))), Words(CnMsgHdrWords(ListenCnMsg())), LE32(PROC_CN_MCAST_LISTEN)]
  }

  function ListenWords(id: u32): seq<u32>
  {
    NlMsgHdrWords(ListenHeader(id)) + CnMsgHdrWords(ListenCnMsg()) + [PROC_CN_MCAST_LISTEN]
  }

  /** The datagram listen sends. */
  function ListenRequest(id: u32): (m: seq<byte>)
    ensures |m| == NlmsgLength(CN_MSG_SIZE + PROC_CN_MCAST_OP_SIZE)
  {
    Words(ListenWords(id))
  }

  /** The three iovec parts, sent together, are one contiguous request. */
  lemma ListenIovIsRequest(id: u32)
    ensures Flatten(ListenIov(id)) == ListenRequest(id)
  {
    var hw, cw := NlMsgHdrWords(ListenHeader(id)), CnMsgHdrWords(ListenCnMsg());
    var iov := ListenIov(id);
    assert Flatten(iov) == iov[0] + (iov[1] + (iov[2] + [])) by {
      var tail: seq<seq<byte>> := iov[1..][1..][1..];
      assert tail == [];
      assert Flatten(iov[1..][1..]) == iov[2] + [];
      assert Flatten(iov[1..]) == iov[1] + (iov[2] + []);
    }
    assert Words([PROC_CN_MCAST_LISTEN]) == LE32(PROC_CN_MCAST_LISTEN) + [];
    WordsConcat(hw + cw, [PROC_CN_MCAST_LISTEN]);
    WordsConcat(hw, cw);
  }

  /** The request is one whole netlink message of NLMSG_LENGTH(24) = 40
      bytes whose header reads back as written, addressed to the
      process-event connector, carrying four bytes of payload that hold
      PROC_CN_MCAST_LISTEN. */
  lemma ListenRequestWellFormed(id: u32)
    ensures var m := ListenRequest(id);
            && |m| == NlmsgLength(CN_MSG_SIZE + PROC_CN_MCAST_OP_SIZE) == 40
            && ReadNlMsgHdr(m, 0) == NlMsgHdr(|m|, NLMSG_DONE, 0, 0, id)
            && FrameOk(m, 0) && NextFrame(m, 0) == |m|
            && MsgWord(m, 0, CN_ID_IDX_WORD) == CN_IDX_PROC
            && MsgWord(m, 0, CN_ID_VAL_WORD) == CN_VAL_PROC
            && U16At(m, CN_MSG_OFFSET + 16) == PROC_CN_MCAST_OP_SIZE
            && U32At(m, CN_MSG_OFFSET + CN_MSG_SIZE) == PROC_CN_MCAST_LISTEN
  {
    var ws := ListenWords(id);
    var rest := CnMsgHdrWords(ListenCnMsg()) + [PROC_CN_MCAST_LISTEN];
    assert ws == NlMsgHdrWords(ListenHeader(id)) + rest;
    NlMsgHdrRoundTrip(ListenHeader(id), rest);
    WordAt(ws, CN_ID_IDX_WORD);
    WordAt(ws, CN_ID_VAL_WORD);
    HalfWordsAt(ws, 8);
    WordAt(ws, 9);
  }

  // ---------------------------------------------------------------------

  class PidMonitor {
    const id: u32
    const sock: Socket
    var queue: seq<PidEvent>

    constructor (id: u32, sock: Socket)
      ensures this.id == id && this.sock == sock && queue == []
    {
      this.id := id;
      this.sock := sock;
      queue := [];
    }

    /** from_id: bind the socket to port id and the process-event group,
        then listen. A failed bind returns at once, leaving the descriptor
        open; a failed listen drops the new monitor, which closes it. */
    static method FromId(id: u32, sock: Socket) returns (r: Option<PidMonitor>)
      modifies sock
      ensures sock.incoming == old(sock.incoming)
      ensures !sock.bindOk ==> r == None && sock.Config() == old(sock.Config())
      ensures sock.bindOk ==> sock.bound == Some(SockAddr(id, CN_IDX_PROC))
      ensures sock.bindOk ==> sock.noEnobufs == (old(sock.noEnobufs) || sock.setsockoptOk)
      ensures sock.bindOk ==>
                sock.sent == if sock.setsockoptOk && sock.writevOk then old(sock.sent) + [ListenRequest(id)]
                             else old(sock.sent)
      ensures sock.bindOk && sock.setsockoptOk && sock.writevOk ==>
                && r.Some? && fresh(r.value)
                && r.value.id == id && r.value.sock == sock && r.value.queue == []
                && sock.closed == old(sock.closed)
      ensures sock.bindOk && !(sock.setsockoptOk && sock.writevOk) ==> r == None && sock.closed
    {
      var bound := sock.Bind(SockAddr(id, CN_IDX_PROC));
      if !bound {
        return None;
      }
      var monitor := new PidMonitor(id, sock);
      var listening := monitor.Listen();
      if !listening {
        sock.Close();
        return None;
      }
      return Some(monitor);
    }

    /** from_id as its callers may rely on it: the same steps, except that
        a failed bind also closes the descriptor, so no failure leaves the
        socket open. */
    static method FromIdReleasing(id: u32, sock: Socket) returns (r: Option<PidMonitor>)
      modifies sock
      ensures sock.incoming == old(sock.incoming)
      ensures r.None? ==> sock.closed
      ensures r.Some? ==> sock.closed == old(sock.closed)
      ensures !sock.bindOk ==> r == None && sock.Config() == old(sock.Config()).(closed := true)
      ensures sock.bindOk ==> sock.bound == Some(SockAddr(id, CN_IDX_PROC))
      ensures sock.bindOk ==> sock.noEnobufs == (old(sock.noEnobufs) || sock.setsockoptOk)
      ensures sock.bindOk ==>
                sock.sent == if sock.setsockoptOk && sock.writevOk then old(sock.sent) + [ListenRequest(id)]
                             else old(sock.sent)
      ensures (sock.bindOk && sock.setsockoptOk && sock.writevOk) == r.Some?
      ensures r.Some? ==> fresh(r.value) && r.value.id == id && r.value.sock == sock && r.value.queue == []
    {
      var bound := sock.Bind(SockAddr(id, CN_IDX_PROC));
      if !bound {
        sock.Close();
        return None;
      }
      var monitor := new PidMonitor(id, sock);
      var listening := monitor.Listen();
      if !listening {
        sock.Close();
        return None;
      }
      return Some(monitor);
    }

    /** listen: ask for unbounded buffering, then send the subscription
        request; either failing is an error. */
    method Listen() returns (ok: bool)
      modifies sock
      ensures ok == (sock.setsockoptOk && sock.writevOk)
      ensures sock.incoming == old(sock.incoming)
      ensures sock.Config() == old(sock.Config()).(
                noEnobufs := old(sock.noEnobufs) || sock.setsockoptOk,
                sent := if ok then old(sock.sent) + [ListenRequest(id)] else old(sock.sent))
    {
      var optSet := sock.SetNoEnobufs();
      if !optSet {
        return false;
      }
      var iov: seq<seq<byte>> := [];
      iov := iov + [Words(NlMsgHdrWords(ListenHeader(id)))];
      iov := iov + [Words(CnMsgHdrWords(ListenCnMsg()))];
      iov := iov + [LE32(PROC_CN_MCAST_LISTEN)];
      assert iov == ListenIov(id);
      ListenIovIsRequest(id);
      ok := sock.Writev(iov);
    }

    /** The frame walk over the bytes of one receive, pushing each decoded
        event on the queue. */
    method WalkFrames(bytes: seq<byte>)
      modifies this
      ensures queue == old(queue) + Events(bytes, 0)
    {
      ghost var total := old(queue) + Events(bytes, 0);
      var header := 0;
      while true
        invariant header <= |bytes|
        invariant queue + Events(bytes, header) == total
        decreases |bytes| - header
      {
        var done, next := WalkFrame(bytes, header, total);
        if done {
          break;
        }
        header := next;
      }
    }

    /** One pass of the walk's loop body, at the frame whose header starts at
        offset header. The order of the checks is the source's; a declared
        length below a header ends the walk, and parse_msg is only given
        frames long enough to hold its message. The walk is done, or goes on
        at the next frame, further into the bytes. */
    method WalkFrame(bytes: seq<byte>, header: nat, ghost total: seq<PidEvent>)
        returns (done: bool, next: nat)
      requires header <= |bytes|
      requires queue + Events(bytes, header) == total
      modifies this
      ensures done ==> queue == total
      ensures !done ==> header < next <= |bytes| && queue + Events(bytes, next) == total
    {
      var len := |bytes| - header;
      if len < NlmsgHdrlen() {
        WalkStops(queue, bytes, header, total);
        return true, header;
      }
      var msgLen := MsgLen(bytes, header);
      if len < msgLen || msgLen < NlmsgHdrlen() {
        WalkStops(queue, bytes, header, total);
        return true, header;
      }
      ghost var before := queue;
      var ev := FrameEvent(bytes, header);
      if ev.Some? {
        queue := queue + [ev.value];
      }
      var aligned := NlmsgAlign(msgLen);
      if aligned > len {
        WalkLast(before, queue, bytes, header, total);
        return true, header;
      }
      WalkNext(before, queue, bytes, header, total);
      return false, header + aligned;
    }

    /** get_events: receive into a buffer of BufferBytes(pageSize) bytes and
        walk each datagram, for as long as the queue is empty. */
    method GetEvents(pageSize: nat) returns (o: Outcome)
      modifies this, sock
      ensures var g := GetEventsSpec(old(queue), old(sock.incoming), BufferBytes(pageSize));
              o == g.outcome && queue == g.queue && sock.incoming == g.incoming
      ensures sock.Config() == old(sock.Config())
    {
      var cap := BufferBytes(pageSize);
      var buffer := new byte[cap];
      while queue == []
        invariant GetEventsSpec(queue, sock.incoming, cap)
                  == GetEventsSpec(old(queue), old(sock.incoming), cap)
        invariant sock.Config() == old(sock.Config())
        decreases |sock.incoming|
      {
        ghost var before := sock.incoming;
        var r := sock.Receive(buffer);
        match r
        case RecvBlocked =>
          return Blocked;
        case RecvErr =>
          return Err;
        case RecvLen(n) =>
          if n == 0 {
            return Ok;
          }
          WalkFrames(buffer[..n]);
          assert buffer[..n] == Received(before[0].bytes, cap);
      }
      return Ok;
    }

    /** pop_front. */
    method PopFront() returns (r: Option<PidEvent>)
      modifies this
      ensures old(queue) == [] ==> r == None && queue == []
      ensures old(queue) != [] ==> r == Some(old(queue[0])) && queue == old(queue[1..])
    {
      if queue == [] {
        return None;
      }
      r := Some(queue[0]);
      queue := queue[1..];
    }

    /** recv. */
    method Recv(pageSize: nat) returns (r: Option<PidEvent>)
      modifies this, sock
      ensures Polled(r, queue, sock.incoming) == Poll(old(queue), old(sock.incoming), BufferBytes(pageSize))
      ensures sock.Config() == old(sock.Config())
    {
      if queue == [] {
        var o := GetEvents(pageSize);
        match o
        case Ok =>
          r := PopFront();
        case _ =>
          r := None;
      } else {
        r := PopFront();
      }
    }
  }

  /** One frame of the walk that has a frame behind it: queuing its event
      keeps what is queued plus what remains to be walked the same. */
  lemma WalkNext(before: seq<PidEvent>, after: seq<PidEvent>, buf: seq<byte>, off: nat,
                 total: seq<PidEvent>)
    requires FrameOk(buf, off) && NextFrame(buf, off) <= |buf|
    requires before + Events(buf, off) == total
    requires after == before + OptionSeq(FrameEvent(buf, off))
    ensures after + Events(buf, NextFrame(buf, off)) == total
  {
    EventsStep(buf, off);
    ConcatAssoc(before, OptionSeq(FrameEvent(buf, off)), Events(buf, NextFrame(buf, off)));
  }


  /** Where no frame passes NLMSG_OK the walk is over. */
  lemma WalkStops(queue: seq<PidEvent>, buf: seq<byte>, off: nat, total: seq<PidEvent>)
    requires !FrameOk(buf, off)
    requires queue + Events(buf, off) == total
    ensures queue == total
  {
    assert queue + [] == queue;
  }

  /** The last frame of the walk: once its event is queued, nothing remains. */
  lemma WalkLast(before: seq<PidEvent>, after: seq<PidEvent>, buf: seq<byte>, off: nat,
                 total: seq<PidEvent>)
    requires FrameOk(buf, off) && NextFrame(buf, off) > |buf|
    requires before + Events(buf, off) == total
    requires after == before + OptionSeq(FrameEvent(buf, off))
    ensures after == total
  {
    var x := OptionSeq(FrameEvent(buf, off));
    assert Events(buf, off) == x + [];
  }
}
