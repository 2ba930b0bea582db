/** The frame walk of PidMonitor::get_events: one received datagram read as a
    chain of length-prefixed netlink frames, each padded to a multiple of four
    bytes, every frame holding at most one process event.

    Two forms are given. Frames/Events is the walk the library evidently
    intends (the NLMSG_OK / NLMSG_NEXT discipline of linux/netlink.h); the
    PidMonitor class runs it. SourceIteration/SourceRun is the loop body as
    the source writes it, kept to exhibit where the two part ways. */
module FrameWalk {
  import opened Wire
  import opened Netlink
  import opened ProcConnector

  /** NLMSG_OK at off: a whole header remains, and the declared length covers
      at least a header and at most what remains. */
  predicate FrameOk(buf: seq<byte>, off: nat)
  {
    && off + NlmsgHdrlen() <= |buf|
    && NlmsgHdrlen() <= MsgLen(buf, off)
    && off + MsgLen(buf, off) <= |buf|
  }

  /** Error notifications and no-ops, which carry no connector payload. */
  predicate IsControl(msgType: u16)
  {
    msgType == NLMSG_ERROR || msgType == NLMSG_NOOP
  }

  /** NLMSG_NEXT: where the frame after the one at off begins. */
  function NextFrame(buf: seq<byte>, off: nat): nat
    requires FrameOk(buf, off)
  {
    off + NlmsgAlign(MsgLen(buf, off))
  }

  /** What one frame contributes. Control frames contribute nothing; other
      frames go to parse_msg, which is handed the frame's own bytes only and
      only when they hold a whole process-event message. */
  function FrameEvent(buf: seq<byte>, off: nat): (r: Option<PidEvent>)
    requires FrameOk(buf, off)
    ensures r.Some? ==> !IsControl(MsgType(buf, off)) && PROC_MSG_LEN <= MsgLen(buf, off)
  {
    var len := MsgLen(buf, off);
    if IsControl(MsgType(buf, off)) || len < PROC_MSG_LEN then None
    else ParseMsg(buf, off)
  }

  /** The offsets of the frames the walk visits from off, in wire order: the
      first is off, each next one starts exactly NlmsgAlign(msg_len) after
      the previous one, every one passes NLMSG_OK, and the walk stops at the
      first offset that does not, or when the padded length of the last frame
      runs past the end of the received bytes. */
  function Frames(buf: seq<byte>, off: nat): (fs: seq<nat>)
    decreases |buf| - off
    ensures forall i | 0 <= i < |fs| :: FrameOk(buf, fs[i])
    ensures fs == [] <==> !FrameOk(buf, off)
    ensures fs != [] ==> fs[0] == off
    ensures forall i | 0 <= i < |fs| - 1 :: fs[i + 1] == NextFrame(buf, fs[i])
    ensures fs != [] ==>
              var next := NextFrame(buf, fs[|fs| - 1]);
              next > |buf| || !FrameOk(buf, next)
  {
    if !FrameOk(buf, off) then []
    else
      var next := NextFrame(buf, off);
      if next > |buf| then [off] else [off] + Frames(buf, next)
  }

  /** The events decoded from the frames at offs, in the order of offs. */
  function Collect(buf: seq<byte>, offs: seq<nat>): seq<PidEvent>
    requires forall i | 0 <= i < |offs| :: FrameOk(buf, offs[i])
  {
    if offs == [] then []
    else OptionSeq(FrameEvent(buf, offs[0])) + Collect(buf, offs[1..])
  }

  /** The events of one receive pass starting at off, walked as the loop
      walks: decode the frame in front of the cursor, then move past it. */
  function Events(buf: seq<byte>, off: nat): (r: seq<PidEvent>)
    decreases |buf| - off
    ensures r != [] ==> off + PROC_MSG_LEN * |r| <= |buf|
  {
    if !FrameOk(buf, off) then []
    else
      var next := NextFrame(buf, off);
      OptionSeq(FrameEvent(buf, off)) + (if next > |buf| then [] else Events(buf, next))
  }

  /** The events of a pass are the decodings of exactly the frames Frames
      lists, in wire order. */
  lemma {:induction false} EventsAreFrameEvents(buf: seq<byte>, off: nat)
    ensures Events(buf, off) == Collect(buf, Frames(buf, off))
    decreases |buf| - off
  {
    if FrameOk(buf, off) {
      var fs := Frames(buf, off);
      var next := NextFrame(buf, off);
      if next <= |buf| {
        EventsAreFrameEvents(buf, next);
        assert fs[1..] == Frames(buf, next);
      } else {
        assert fs[1..] == [];
      }
    }
  }

  /** One frame of b reads the same wherever b sits in the datagram. */
  lemma FrameShift(a: seq<byte>, b: seq<byte>, off: nat)
    ensures FrameOk(a + b, |a| + off) == FrameOk(b, off)
    ensures FrameOk(b, off) ==>
              && NextFrame(a + b, |a| + off) == |a| + NextFrame(b, off)
              && MsgType(a + b, |a| + off) == MsgType(b, off)
              && FrameEvent(a + b, |a| + off) == FrameEvent(b, off)
  {
    if off + NLMSGHDR_SIZE <= |b| {
      HeaderShift(a, b, off);
      if FrameOk(b, off) && PROC_MSG_LEN <= MsgLen(b, off) {
        ParseMsgShift(a, b, off);
      }
    }
  }

  /** The header fields the walk reads do not depend on what precedes them. */
  lemma HeaderShift(a: seq<byte>, b: seq<byte>, off: nat)
    requires off + NLMSGHDR_SIZE <= |b|
    ensures MsgLen(a + b, |a| + off) == MsgLen(b, off)
    ensures MsgType(a + b, |a| + off) == MsgType(b, off)
  {
    U32AtShift(a, b, off);
    LeAtShift(a, b, off + 4, 2);
  }

  /** ... nor on what follows them. */
  lemma HeaderPrefix(a: seq<byte>, b: seq<byte>, off: nat)
    requires off + NLMSGHDR_SIZE <= |a|
    ensures MsgLen(a + b, off) == MsgLen(a, off)
    ensures MsgType(a + b, off) == MsgType(a, off)
  {
    U32AtPrefix(a, b, off);
    LeAtPrefix(a, b, off + 4, 2);
  }

  /** One step of the walk. */
  lemma EventsStep(buf: seq<byte>, off: nat)
    requires FrameOk(buf, off) && NextFrame(buf, off) <= |buf|
    ensures Events(buf, off) == OptionSeq(FrameEvent(buf, off)) + Events(buf, NextFrame(buf, off))
  {
  }

  lemma FrameAtFront(m: seq<byte>, rest: seq<byte>)
    requires FrameOk(m, 0) && MsgLen(m, 0) == |m| && |m| % NLMSG_ALIGNTO == 0
    ensures FrameOk(m + rest, 0) && NextFrame(m + rest, 0) == |m|
    ensures MsgType(m + rest, 0) == MsgType(m, 0)
    ensures FrameEvent(m + rest, 0) == FrameEvent(m, 0)
  {
    HeaderPrefix(m, rest, 0);
    if PROC_MSG_LEN <= |m| {
      ParseMsgPrefix(m, rest, 0);
    }
  }

  /** The kernel's messages for evs, back to back, the i-th stamped sts[i]. */
  function ProcMsgs(evs: seq<PidEvent>, sts: seq<Stamp>): seq<byte>
    requires |sts| == |evs|
  {
    if evs == [] then [] else ProcMsg(evs[0], sts[0]) + ProcMsgs(evs[1..], sts[1..])
  }

  /** The kernel's message for ev is one whole NLMSG_DONE frame that needs no padding. */
  lemma ProcMsgIsFrame(ev: PidEvent, st: Stamp)
    ensures |ProcMsg(ev, st)| == PROC_MSG_LEN
    ensures FrameOk(ProcMsg(ev, st), 0)
    ensures MsgLen(ProcMsg(ev, st), 0) == PROC_MSG_LEN
    ensures MsgType(ProcMsg(ev, st), 0) == NLMSG_DONE
    ensures FrameEvent(ProcMsg(ev, st), 0) == Some(ev)
  {
    var ws := ConnectorMsgWords(CN_IDX_PROC, CN_VAL_PROC, st, What(ev), EventDataWords(ev));
    var m := Words(ws);
    WordAt(ws, 0);
    HalfWordsAt(ws, 1);
    ParseMsgRoundTrip(ev, st);
  }

  /** A whole, padded frame m that sits at off inside buf reads there as it
      reads on its own, and the walk steps from it to the byte after it. */
  lemma FrameAt(buf: seq<byte>, off: nat, m: seq<byte>)
    requires off + |m| <= |buf| && buf[off..off + |m|] == m
    requires FrameOk(m, 0) && MsgLen(m, 0) == |m| && |m| % NLMSG_ALIGNTO == 0
    ensures FrameOk(buf, off) && NextFrame(buf, off) == off + |m|
    ensures MsgType(buf, off) == MsgType(m, 0)
    ensures FrameEvent(buf, off) == FrameEvent(m, 0)
  {
    var pre, post := buf[..off], buf[off + |m|..];
    assert buf == pre + (m + post);
    FrameAtFront(m, post);
    FrameShift(pre, m + post, 0);
  }

  /** A whole, padded data frame that decodes to ev. */
  predicate DataFrame(m: seq<byte>, ev: PidEvent)
  {
    && FrameOk(m, 0) && MsgLen(m, 0) == |m| && |m| % NLMSG_ALIGNTO == 0
    && FrameEvent(m, 0) == Some(ev)
  }

  /** From off to the end, buf is one whole process-event frame per event of
      evs, in order. */
  predicate DataFramesAt(buf: seq<byte>, off: nat, evs: seq<PidEvent>)
    decreases |evs|
  {
    if evs == [] then off == |buf|
    else
      && off + PROC_MSG_LEN <= |buf|
      && DataFrame(buf[off..off + PROC_MSG_LEN], evs[0])
      && DataFramesAt(buf, off + PROC_MSG_LEN, evs[1..])
  }

  /** A data frame at off: the walk decodes it and steps to the byte after
      it, and so does one pass of the source's loop. */
  lemma DataFrameAt(buf: seq<byte>, off: nat, ev: PidEvent)
    requires off + PROC_MSG_LEN <= |buf| && DataFrame(buf[off..off + PROC_MSG_LEN], ev)
    ensures FrameOk(buf, off) && NextFrame(buf, off) == off + PROC_MSG_LEN
    ensures FrameEvent(buf, off) == Some(ev)
    ensures SourceIteration(buf, Cursor(off, |buf| - off))
            == Continue(Cursor(off + PROC_MSG_LEN, |buf| - (off + PROC_MSG_LEN)), Some(ev))
  {
    FrameAt(buf, off, buf[off..off + PROC_MSG_LEN]);
    SourceIterationAgrees(buf, Cursor(off, |buf| - off));
  }

  /** The walk over data frames gives back their events, in order. */
  lemma {:induction false} EventsOfDataFrames(buf: seq<byte>, off: nat, evs: seq<PidEvent>)
    requires DataFramesAt(buf, off, evs)
    ensures Events(buf, off) == evs
    decreases |evs|
  {
    if evs != [] {
      EventsOfDataFrames(buf, off + PROC_MSG_LEN, evs[1..]);
      EventsDataFrameStep(buf, off, evs);
    }
  }

  lemma EventsDataFrameStep(buf: seq<byte>, off: nat, evs: seq<PidEvent>)
    requires evs != [] && DataFramesAt(buf, off, evs)
    requires Events(buf, off + PROC_MSG_LEN) == evs[1..]
    ensures Events(buf, off) == evs
  {
    DataFrameAt(buf, off, evs[0]);
    EventsStep(buf, off);
    HeadTail(evs);
  }

  /** The kernel's messages for evs, placed at off, are data frames for evs. */
  lemma {:induction false} ProcMsgsAreDataFrames(buf: seq<byte>, off: nat, evs: seq<PidEvent>,
                                                 sts: seq<Stamp>)
    requires |sts| == |evs| && off <= |buf| && buf[off..] == ProcMsgs(evs, sts)
    ensures DataFramesAt(buf, off, evs)
    decreases |evs|
  {
    if evs == [] {
      assert |buf[off..]| == 0;
    } else {
      ProcMsgsSplit(buf, off, evs, sts);
      ProcMsgsAreDataFrames(buf, off + PROC_MSG_LEN, evs[1..], sts[1..]);
    }
  }

  lemma ProcMsgsSplit(buf: seq<byte>, off: nat, evs: seq<PidEvent>, sts: seq<Stamp>)
    requires |sts| == |evs| && off <= |buf| && buf[off..] == ProcMsgs(evs, sts) && evs != []
    ensures off + PROC_MSG_LEN <= |buf|
    ensures DataFrame(buf[off..off + PROC_MSG_LEN], evs[0])
    ensures buf[off + PROC_MSG_LEN..] == ProcMsgs(evs[1..], sts[1..])
  {
    ProcMsgIsFrame(evs[0], sts[0]);
    var m := ProcMsg(evs[0], sts[0]);
    assert buf[off..] == m + ProcMsgs(evs[1..], sts[1..]);
    assert buf[off..off + PROC_MSG_LEN] == buf[off..][..PROC_MSG_LEN];
    assert buf[off + PROC_MSG_LEN..] == buf[off..][PROC_MSG_LEN..];
  }

  /** Walking the kernel's messages for evs gives back evs, in order. */
  lemma EventsOfProcMsgs(evs: seq<PidEvent>, sts: seq<Stamp>)
    requires |sts| == |evs|
    ensures Events(ProcMsgs(evs, sts), 0) == evs
  {
    var buf := ProcMsgs(evs, sts);
    assert buf[0..] == buf;
    ProcMsgsAreDataFrames(buf, 0, evs, sts);
    EventsOfDataFrames(buf, 0, evs);
  }

  /** Any frame whose cn_msg id is not the process-event pair yields nothing;
      the walk goes on at the next frame, or ends where the padded frame runs
      past the received bytes. */
  lemma ForeignFrameSkipped(buf: seq<byte>, off: nat)
    requires FrameOk(buf, off) && off + CN_MSG_OFFSET + 8 <= |buf|
    requires ForeignMsg(buf, off)
    ensures FrameEvent(buf, off) == None
    ensures Events(buf, off) ==
              if NextFrame(buf, off) <= |buf| then Events(buf, NextFrame(buf, off)) else []
  {
    if NextFrame(buf, off) <= |buf| {
      EventsStep(buf, off);
    }
  }

  /** The 76-byte message of the kernel's layout for another connector
      namespace, in front of any bytes, yields nothing, and the walk goes on
      right behind it. */
  lemma ForeignMsgSkipped(idx: u32, val: u32, st: Stamp, what: u32,
                            data: seq<u32>, rest: seq<byte>)
    requires |data| == 6
    requires idx != CN_IDX_PROC || val != CN_VAL_PROC
    ensures var m := Words(ConnectorMsgWords(idx, val, st, what, data));
            Events(m + rest, 0) == Events(m + rest, |m|)
  {
    var ws := ConnectorMsgWords(idx, val, st, what, data);
    var m := Words(ws);
    WordAt(ws, 0);
    ParseMsgForeign(idx, val, st, what, data);
    FrameAtFront(m, rest);
    EventsStep(m + rest, 0);
  }

  /** Any frame holding a whole message whose discriminant is none of fork,
      exec, exit and coredump yields nothing, whatever its namespace, header
      and cn_msg fields; the walk goes on at the next frame, or ends where the
      padded frame runs past the received bytes. */
  lemma UnknownWhatSkipped(buf: seq<byte>, off: nat)
    requires FrameOk(buf, off) && off + PROC_MSG_LEN <= |buf|
    requires !KnownWhat(MsgWord(buf, off, WHAT_WORD))
    ensures FrameEvent(buf, off) == None
    ensures Events(buf, off) ==
              if NextFrame(buf, off) <= |buf| then Events(buf, NextFrame(buf, off)) else []
  {
    ParseMsgCases(buf, off);
    if NextFrame(buf, off) <= |buf| {
      EventsStep(buf, off);
    }
  }

  /** The 76-byte process-event message of the kernel's layout with an
      unknown discriminant, in front of any bytes, yields nothing, and the
      walk goes on right behind it. */
  lemma UnknownWhatMsgSkipped(st: Stamp, what: u32, data: seq<u32>, rest: seq<byte>)
    requires |data| == 6
    requires !KnownWhat(what)
    ensures var m := Words(ConnectorMsgWords(CN_IDX_PROC, CN_VAL_PROC, st, what, data));
            Events(m + rest, 0) == Events(m + rest, |m|)
  {
    var ws := ConnectorMsgWords(CN_IDX_PROC, CN_VAL_PROC, st, what, data);
    var m := Words(ws);
    WordAt(ws, 0);
    ParseMsgUnknownWhat(st, what, data);
    FrameAtFront(m, rest);
    EventsStep(m + rest, 0);
  }

  /** Any NLMSG_NOOP or NLMSG_ERROR frame, whatever its payload (an
      NLMSG_ERROR frame carries a struct nlmsgerr), yields nothing; the walk
      goes on at the next frame, or ends where the padded frame runs past the
      received bytes. */
  lemma ControlFrameSkipped(buf: seq<byte>, off: nat)
    requires FrameOk(buf, off) && IsControl(MsgType(buf, off))
    ensures FrameEvent(buf, off) == None
    ensures Events(buf, off) ==
              if NextFrame(buf, off) <= |buf| then Events(buf, NextFrame(buf, off)) else []
  {
    if NextFrame(buf, off) <= |buf| {
      EventsStep(buf, off);
    }
  }

  /** A bare NLMSG_NOOP or NLMSG_ERROR header in front of any bytes yields
      nothing, and the walk moves right past it. */
  lemma ControlHeaderSkipped(h: NlMsgHdr, rest: seq<byte>)
    requires h.len == NLMSGHDR_SIZE && IsControl(h.msgType)
    ensures var m := Words(NlMsgHdrWords(h));
            Events(m + rest, 0) == Events(m + rest, |m|)
  {
    var m := Words(NlMsgHdrWords(h));
    NlMsgHdrRoundTrip(h, []);
    assert NlMsgHdrWords(h) + [] == NlMsgHdrWords(h);
    FrameAtFront(m, rest);
    EventsStep(m + rest, 0);
  }

  // ---------------------------------------------------------------------
  // The loop of get_events as the source writes it.

  /** The loop's two variables: the header cursor and the remaining length. */
  datatype Cursor = Cursor(header: nat, len: nat)

  datatype Iteration =
    | Break(pushed: Option<PidEvent>)
    | Continue(next: Cursor, pushed: Option<PidEvent>)
    | Overread

  /** One pass of the source's loop body. A control frame hits `continue`
      with neither variable moved; nothing rejects a declared length below a
      header; parse_msg reads cn_msg.id, and then the whole proc_event, from
      the header on whatever the declared length is, so with fewer bytes left
      it reads bytes this receive did not write (Overread). */
  function SourceIteration(buf: seq<byte>, c: Cursor): (it: Iteration)
    requires c.header + c.len == |buf|
    ensures it.Continue? ==> it.next.header + it.next.len == |buf|
  {
    if c.len < NlmsgHdrlen() then Break(None)
    else
      var msgLen := MsgLen(buf, c.header);
      if c.len < msgLen then Break(None)
      else if IsControl(MsgType(buf, c.header)) then Continue(c, None)
      else if !ParseMsgReadable(buf, c.header) then Overread
      else
        var ev := ParseMsg(buf, c.header);
        var aligned := NlmsgAlign(msgLen);
        if aligned > c.len then Break(ev)
        else Continue(Cursor(c.header + aligned, c.len - aligned), ev)
  }

  datatype Run = Finished(events: seq<PidEvent>) | Unfinished | Undefined

  /** At most fuel passes of the source's loop; Unfinished when the loop is
      still going after them. */
  function SourceRun(buf: seq<byte>, c: Cursor, fuel: nat): (r: Run)
    requires c.header + c.len == |buf|
    decreases fuel
    ensures r.Finished? ==> |r.events| <= fuel
  {
    if fuel == 0 then Unfinished
    else
      match SourceIteration(buf, c)
      case Break(p) => Finished(OptionSeq(p))
      case Overread => Undefined
      case Continue(next, p) =>
        match SourceRun(buf, next, fuel - 1)
        case Finished(evs) => Finished(OptionSeq(p) + evs)
        case Unfinished => Unfinished
        case Undefined => Undefined
  }

  /** Source line 187: on a control frame the loop never ends, however many
      passes it is given. */
  lemma {:induction false} ControlFrameSpins(buf: seq<byte>, c: Cursor, fuel: nat)
    requires c.header + c.len == |buf|
    requires NlmsgHdrlen() <= c.len && MsgLen(buf, c.header) <= c.len
    requires IsControl(MsgType(buf, c.header))
    ensures SourceRun(buf, c, fuel) == Unfinished
  {
    if fuel > 0 {
      ControlFrameSpins(buf, c, fuel - 1);
    }
  }

  /** Source lines 178-184: a data frame declaring length 0 is decoded again
      and again from the same place, and the loop never ends. */
  lemma {:induction false} ZeroLengthFrameSpins(buf: seq<byte>, c: Cursor, fuel: nat)
    requires c.header + c.len == |buf|
    requires PROC_MSG_LEN <= c.len && MsgLen(buf, c.header) == 0
    requires !IsControl(MsgType(buf, c.header))
    ensures SourceIteration(buf, c) == Continue(c, ParseMsg(buf, c.header))
    ensures SourceRun(buf, c, fuel) == Unfinished
  {
    if fuel > 0 {
      ZeroLengthFrameSpins(buf, c, fuel - 1);
    }
  }

  /** Source lines 189 and 220-225: a datagram holding one bare data header
      passes every check of the loop, and parse_msg then reads the namespace
      words behind it, which this receive did not write; the intended walk
      decodes nothing from it. */
  lemma ShortFrameOverreads(h: NlMsgHdr)
    requires h.len <= NLMSGHDR_SIZE && !IsControl(h.msgType)
    ensures var buf := Words(NlMsgHdrWords(h));
            && |buf| == NLMSGHDR_SIZE
            && SourceIteration(buf, Cursor(0, NLMSGHDR_SIZE)) == Overread
            && Events(buf, 0) == []
  {
    NlMsgHdrRoundTrip(h, []);
    assert NlMsgHdrWords(h) + [] == NlMsgHdrWords(h);
  }

  /** On a data frame that holds a whole process-event message, one pass of
      the source's loop does what one step of the intended walk does. */
  lemma SourceIterationAgrees(buf: seq<byte>, c: Cursor)
    requires c.header + c.len == |buf|
    requires FrameOk(buf, c.header)
    requires !IsControl(MsgType(buf, c.header)) && PROC_MSG_LEN <= MsgLen(buf, c.header)
    ensures var next := NextFrame(buf, c.header);
            SourceIteration(buf, c) ==
              if next > |buf| then Break(FrameEvent(buf, c.header))
              else Continue(Cursor(next, |buf| - next), FrameEvent(buf, c.header))
  {
  }

  /** One pass of the source's loop over b is the same wherever b sits. */
  lemma SourceIterationShift(a: seq<byte>, b: seq<byte>, off: nat)
    requires off <= |b|
    ensures var l := SourceIteration(a + b, Cursor(|a| + off, |b| - off));
            var r := SourceIteration(b, Cursor(off, |b| - off));
            && l.Break? == r.Break? && l.Overread? == r.Overread?
            && (l.Break? ==> l == r)
            && (r.Continue? ==> l == Continue(Cursor(|a| + r.next.header, r.next.len), r.pushed))
  {
    if off + NLMSGHDR_SIZE <= |b| {
      HeaderShift(a, b, off);
      if off + CN_MSG_OFFSET + 8 <= |b| {
        ParseMsgShift(a, b, off);
      }
    }
  }

  /** On data frames the source's loop, given more passes than there are
      frames, ends and yields exactly their events. */
  lemma {:induction false} SourceRunOfDataFrames(buf: seq<byte>, off: nat, evs: seq<PidEvent>, fuel: nat)
    requires off <= |buf| && DataFramesAt(buf, off, evs) && fuel > |evs|
    ensures SourceRun(buf, Cursor(off, |buf| - off), fuel) == Finished(evs)
    decreases |evs|
  {
    if evs != [] {
      SourceRunOfDataFrames(buf, off + PROC_MSG_LEN, evs[1..], fuel - 1);
      SourceRunDataFrameStep(buf, off, evs, fuel);
    }
  }

  lemma SourceRunDataFrameStep(buf: seq<byte>, off: nat, evs: seq<PidEvent>, fuel: nat)
    requires evs != [] && off <= |buf| && DataFramesAt(buf, off, evs) && fuel > 0
    requires SourceRun(buf, Cursor(off + PROC_MSG_LEN, |buf| - (off + PROC_MSG_LEN)), fuel - 1) == Finished(evs[1..])
    ensures SourceRun(buf, Cursor(off, |buf| - off), fuel) == Finished(evs)
  {
    DataFrameAt(buf, off, evs[0]);
    SourceRunContinue(buf, Cursor(off, |buf| - off), fuel, Cursor(off + PROC_MSG_LEN, |buf| - (off + PROC_MSG_LEN)),
                      Some(evs[0]), evs[1..]);
    HeadTail(evs);
  }

  lemma SourceRunContinue(buf: seq<byte>, c: Cursor, fuel: nat, next: Cursor,
                          p: Option<PidEvent>, evs: seq<PidEvent>)
    requires c.header + c.len == |buf| && next.header + next.len == |buf| && fuel > 0
    requires SourceIteration(buf, c) == Continue(next, p)
    requires SourceRun(buf, next, fuel - 1) == Finished(evs)
    ensures SourceRun(buf, c, fuel) == Finished(OptionSeq(p) + evs)
  {
  }

  /** From off on, every frame the source's loop would reach is a data frame
      that holds a whole process-event message: none of NLMSG_NOOP and
      NLMSG_ERROR, none shorter than PROC_MSG_LEN. Its message may be for
      any connector and carry any discriminant, and the chain may end in
      fewer bytes than a header or in a frame longer than what remains. */
  predicate PlainChain(buf: seq<byte>, off: nat)
    requires off <= |buf|
    decreases |buf| - off
  {
    off + NlmsgHdrlen() <= |buf| && MsgLen(buf, off) <= |buf| - off ==>
      && !IsControl(MsgType(buf, off)) && PROC_MSG_LEN <= MsgLen(buf, off)
      && (NextFrame(buf, off) <= |buf| ==> PlainChain(buf, NextFrame(buf, off)))
  }

  /** Where no control frame and no frame shorter than a message is met,
      the source's loop, given more passes than there are bytes, ends and
      yields exactly the events of the intended walk. */
  lemma {:induction false} SourceRunPlain(buf: seq<byte>, off: nat, fuel: nat)
    requires off <= |buf| && PlainChain(buf, off) && fuel > |buf| - off
    ensures SourceRun(buf, Cursor(off, |buf| - off), fuel) == Finished(Events(buf, off))
    decreases |buf| - off
  {
    if FrameOk(buf, off) && NextFrame(buf, off) <= |buf| {
      SourceRunPlain(buf, NextFrame(buf, off), fuel - 1);
      SourceRunPlainStep(buf, off, fuel);
    } else {
      SourceRunPlainLast(buf, off, fuel);
    }
  }

  /** The last pass: no frame passes NLMSG_OK, or the one that does runs
      past the end once padded. */
  lemma SourceRunPlainLast(buf: seq<byte>, off: nat, fuel: nat)
    requires off <= |buf| && PlainChain(buf, off) && fuel > 0
    requires !FrameOk(buf, off) || NextFrame(buf, off) > |buf|
    ensures SourceRun(buf, Cursor(off, |buf| - off), fuel) == Finished(Events(buf, off))
  {
    if FrameOk(buf, off) {
      SourceIterationAgrees(buf, Cursor(off, |buf| - off));
      assert Events(buf, off) == OptionSeq(FrameEvent(buf, off)) + [];
    }
  }

  lemma SourceRunPlainStep(buf: seq<byte>, off: nat, fuel: nat)
    requires off <= |buf| && FrameOk(buf, off) && NextFrame(buf, off) <= |buf| && fuel > 0
    requires !IsControl(MsgType(buf, off)) && PROC_MSG_LEN <= MsgLen(buf, off)
    requires SourceRun(buf, Cursor(NextFrame(buf, off), |buf| - NextFrame(buf, off)), fuel - 1)
             == Finished(Events(buf, NextFrame(buf, off)))
    ensures SourceRun(buf, Cursor(off, |buf| - off), fuel) == Finished(Events(buf, off))
  {
    var next := NextFrame(buf, off);
    SourceIterationAgrees(buf, Cursor(off, |buf| - off));
    SourceRunContinue(buf, Cursor(off, |buf| - off), fuel, Cursor(next, |buf| - next),
                      FrameEvent(buf, off), Events(buf, next));
    EventsStep(buf, off);
  }

  /** A datagram holding one connector message of the kernel's layout, for
      any namespace and any discriminant (the kernel's acknowledgement of a
      listen request, whose discriminant is 0 and whose cn_msg.ack is 1,
      among them): the source's loop ends
      on it and yields what the intended walk yields. */
  lemma ConnectorMsgAgrees(idx: u32, val: u32, st: Stamp, what: u32, data: seq<u32>, fuel: nat)
    requires |data| == 6 && fuel > PROC_MSG_LEN
    ensures var m := Words(ConnectorMsgWords(idx, val, st, what, data));
            SourceRun(m, Cursor(0, |m|), fuel) == Finished(Events(m, 0))
  {
    var ws := ConnectorMsgWords(idx, val, st, what, data);
    var m := Words(ws);
    WordAt(ws, 0);
    HalfWordsAt(ws, 1);
    assert PlainChain(m, PROC_MSG_LEN);
    assert PlainChain(m, 0);
    SourceRunPlain(m, 0, fuel);
  }
}
