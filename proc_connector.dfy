/** The connector envelope (struct cn_msg, linux/connector.h), the process
    event payload (struct proc_event, linux/cn_proc.h), the PidEvent record
    the library hands out, and parse_msg, which decodes one netlink message
    into a PidEvent. Offsets are counted from the start of the netlink header,
    as parse_msg counts them. */
module ProcConnector {
  import opened Wire
  import opened Netlink

  /** The connector namespace pair registered for process events. */
  const CN_IDX_PROC: u32 := 1
  const CN_VAL_PROC: u32 := 1

  /** sizeof(struct cn_msg): id.idx u32, id.val u32, seq u32, ack u32,
      len u16, flags u16; the payload follows. */
  const CN_MSG_SIZE: nat := 20

  /** sizeof(enum proc_cn_mcast_op) and its "start listening" value. */
  const PROC_CN_MCAST_OP_SIZE: nat := 4
  const PROC_CN_MCAST_LISTEN: u32 := 1

  /** sizeof(struct proc_event): what u32, cpu u32, timestamp_ns u64 and a
      24-byte union whose largest member is exit_proc_event. */
  const PROC_EVENT_SIZE: nat := 40

  const PROC_EVENT_FORK: u32 := 0x0000_0001
  const PROC_EVENT_EXEC: u32 := 0x0000_0002
  const PROC_EVENT_COREDUMP: u32 := 0x4000_0000
  const PROC_EVENT_EXIT: u32 := 0x8000_0000

  /** Where cn_msg starts: NLMSG_LENGTH(0). */
  const CN_MSG_OFFSET: nat := 16
  /** cn_msg.data, where proc_event starts. */
  const PROC_EVENT_OFFSET: nat := 36
  /** NLMSG_LENGTH(sizeof(cn_msg) + sizeof(proc_event)): the bytes parse_msg
      reads from the header on, and the length the kernel declares. */
  const PROC_MSG_LEN: nat := 76

  datatype PidEvent =
    | Exec(processPid: i32, processTgid: i32)
    | Fork(childPid: i32, childTgid: i32, parentPid: i32, parentTgid: i32)
    | Coredump(processPid: i32, processTgid: i32, parentPid: i32, parentTgid: i32)
    | Exit(processPid: i32, processTgid: i32, parentPid: i32, parentTgid: i32,
           exitCode: u32, exitSignal: u32)

  /** The proc_event.what discriminant of each variant. */
  function What(ev: PidEvent): u32
  {
    match ev
    case Fork(_, _, _, _) => PROC_EVENT_FORK
    case Exec(_, _) => PROC_EVENT_EXEC
    case Coredump(_, _, _, _) => PROC_EVENT_COREDUMP
    case Exit(_, _, _, _, _, _) => PROC_EVENT_EXIT
  }

  predicate KnownWhat(what: u32)
  {
    what == PROC_EVENT_FORK || what == PROC_EVENT_EXEC
    || what == PROC_EVENT_COREDUMP || what == PROC_EVENT_EXIT
  }

  /** The words of the event's union member, in the kernel's field order
      (fork_proc_event, exec_proc_event, coredump_proc_event, exit_proc_event). */
  function FieldWords(ev: PidEvent): seq<u32>
  {
    match ev
    case Fork(cp, ct, pp, pt) => [AsU32(pp), AsU32(pt), AsU32(cp), AsU32(ct)]
    case Exec(p, t) => [AsU32(p), AsU32(t)]
    case Coredump(p, t, pp, pt) => [AsU32(p), AsU32(t), AsU32(pp), AsU32(pt)]
    case Exit(p, t, pp, pt, code, sig) => [AsU32(p), AsU32(t), code, sig, AsU32(pp), AsU32(pt)]
  }

  /** The whole 24-byte union: the member's words, then zero padding. */
  function EventDataWords(ev: PidEvent): (ws: seq<u32>)
    ensures |ws| == 6
  {
    var fs := FieldWords(ev);
    fs + seq(6 - |fs|, _ => 0)
  }

  /** The k-th 32-bit word of the message whose netlink header is at off:
      cn_msg.id.idx is word 4, cn_msg.id.val word 5, proc_event.what word 9
      and the event_data union words 13 to 18. */
  function MsgWord(buf: seq<byte>, off: nat, k: nat): u32
    requires off + 4 * k + 4 <= |buf|
  {
    U32At(buf, off + 4 * k)
  }

  const CN_ID_IDX_WORD: nat := 4
  const CN_ID_VAL_WORD: nat := 5
  const WHAT_WORD: nat := 9
  const EVENT_DATA_WORD: nat := 13

  /** The namespace check of parse_msg: the message is for some other
      connector than process events. It reads cn_msg.id only. */
  predicate ForeignMsg(buf: seq<byte>, off: nat)
    requires off + CN_MSG_OFFSET + 8 <= |buf|
  {
    MsgWord(buf, off, CN_ID_IDX_WORD) != CN_IDX_PROC
    || MsgWord(buf, off, CN_ID_VAL_WORD) != CN_VAL_PROC
  }

  /** The bytes parse_msg reads at off: cn_msg.id always, and the whole
      proc_event behind it unless the namespace check already failed. */
  predicate ParseMsgReadable(buf: seq<byte>, off: nat)
  {
    off + CN_MSG_OFFSET + 8 <= |buf| && (ForeignMsg(buf, off) || off + PROC_MSG_LEN <= |buf|)
  }

  /** struct proc_event as read_unaligned copies it out of the buffer: what,
      cpu, the two halves of timestamp_ns, then the six words of the
      event_data union. */
  const PROC_EVENT_WORDS: nat := 10
  const PE_WHAT: nat := 0
  const PE_DATA: nat := 4

  function ProcEventWords(buf: seq<byte>, off: nat): (pe: seq<u32>)
    requires off + PROC_MSG_LEN <= |buf|
    ensures |pe| == PROC_EVENT_WORDS
  {
    WordsAt(buf, off + PROC_EVENT_OFFSET, PROC_EVENT_WORDS)
  }

  /** The match on proc_ev.what in parse_msg, over the copied proc_event.
      The pid and tgid fields are pid_t, read as signed from the union words;
      exit_code and exit_signal are unsigned. */
  function DecodeProcEvent(pe: seq<u32>): (r: Option<PidEvent>)
    requires |pe| == PROC_EVENT_WORDS
    ensures r.None? <==> !KnownWhat(pe[PE_WHAT])
    ensures r.Some? ==> What(r.value) == pe[PE_WHAT]
  {
    var what := pe[PE_WHAT];
    var d := PE_DATA;
    var s := SignedWords(pe[d..]);
    if what == PROC_EVENT_FORK then
      Some(Fork(childPid := s[2], childTgid := s[3], parentPid := s[0], parentTgid := s[1]))
    else if what == PROC_EVENT_EXEC then
      Some(Exec(processPid := s[0], processTgid := s[1]))
    else if what == PROC_EVENT_EXIT then
      Some(Exit(processPid := s[0], processTgid := s[1], parentPid := s[4], parentTgid := s[5],
                exitCode := pe[d + 2], exitSignal := pe[d + 3]))
    else if what == PROC_EVENT_COREDUMP then
      Some(Coredump(processPid := s[0], processTgid := s[1], parentPid := s[2], parentTgid := s[3]))
    else None
  }

  /** parse_msg on the message whose netlink header is at off. The source is
      an unsafe fn over a header pointer that checks nothing against the
      frame's declared length; the requires names the bytes it reads. */
  function ParseMsg(buf: seq<byte>, off: nat): (r: Option<PidEvent>)
    requires ParseMsgReadable(buf, off)
    ensures r.Some? ==> !ForeignMsg(buf, off) && What(r.value) == MsgWord(buf, off, WHAT_WORD)
  {
    if ForeignMsg(buf, off) then None
    else
      WordsAtIndex(buf, off + PROC_EVENT_OFFSET, PROC_EVENT_WORDS, PE_WHAT);
      DecodeProcEvent(ProcEventWords(buf, off))
  }

  /** Decoding a copied proc_event: None exactly for an unknown discriminant,
      otherwise the variant it names, each field taken from the matching
      word of that variant's union member. */
  lemma DecodeProcEventCases(pe: seq<u32>)
    requires |pe| == PROC_EVENT_WORDS
    ensures var r := DecodeProcEvent(pe);
            && (r.None? <==> !KnownWhat(pe[PE_WHAT]))
            && (r.Some? ==> What(r.value) == pe[PE_WHAT])
            && (r.Some? ==> FieldWords(r.value) == pe[PE_DATA..PE_DATA + |FieldWords(r.value)|])
  {
    var r := DecodeProcEvent(pe);
    if r.Some? {
      var fs := FieldWords(r.value);
      var want := pe[PE_DATA..PE_DATA + |fs|];
      assert |fs| == |want|;
      forall k | 0 <= k < |fs| ensures fs[k] == want[k] {
        SignedWordsIndex(pe[PE_DATA..], k);
        AsU32AsI32(pe[PE_DATA + k]);
      }
    }
  }

  /** parse_msg decodes exactly the messages for the process-event connector
      that carry one of the four known discriminants, into the variant that
      discriminant names, and every field of the result is the matching word
      of that variant's union member, in the kernel's field order. */
  lemma ParseMsgCases(buf: seq<byte>, off: nat)
    requires ParseMsgReadable(buf, off)
    ensures var r := ParseMsg(buf, off);
            && (r.None? <==> ForeignMsg(buf, off) || !KnownWhat(MsgWord(buf, off, WHAT_WORD)))
            && (r.Some? ==> What(r.value) == MsgWord(buf, off, WHAT_WORD))
            && (r.Some? ==>
                  forall k | 0 <= k < |FieldWords(r.value)| ::
                    FieldWords(r.value)[k] == MsgWord(buf, off, EVENT_DATA_WORD + k))
  {
    if !ForeignMsg(buf, off) {
      var pe := ProcEventWords(buf, off);
      DecodeProcEventCases(pe);
      forall i | 0 <= i < PROC_EVENT_WORDS ensures pe[i] == MsgWord(buf, off, WHAT_WORD + i) {
        WordsAtIndex(buf, off + PROC_EVENT_OFFSET, PROC_EVENT_WORDS, i);
      }
    }
  }

  /** parse_msg reads nothing before the header: prepending bytes only moves
      the message. */
  lemma ParseMsgShift(a: seq<byte>, b: seq<byte>, off: nat)
    requires off + CN_MSG_OFFSET + 8 <= |b|
    ensures ForeignMsg(a + b, |a| + off) == ForeignMsg(b, off)
    ensures ParseMsgReadable(b, off) ==>
              ParseMsgReadable(a + b, |a| + off) && ParseMsg(a + b, |a| + off) == ParseMsg(b, off)
  {
    U32AtShift(a, b, off + CN_MSG_OFFSET);
    U32AtShift(a, b, off + CN_MSG_OFFSET + 4);
    if off + PROC_MSG_LEN <= |b| {
      WordsAtShift(a, b, off + PROC_EVENT_OFFSET, PROC_EVENT_WORDS);
    }
  }

  /** ... and reads nothing past PROC_MSG_LEN bytes from it: appending bytes
      behind the message changes nothing. */
  lemma ParseMsgPrefix(a: seq<byte>, b: seq<byte>, off: nat)
    requires off + CN_MSG_OFFSET + 8 <= |a|
    ensures ForeignMsg(a + b, off) == ForeignMsg(a, off)
    ensures ParseMsgReadable(a, off) ==>
              ParseMsgReadable(a + b, off) && ParseMsg(a + b, off) == ParseMsg(a, off)
  {
    U32AtPrefix(a, b, off + CN_MSG_OFFSET);
    U32AtPrefix(a, b, off + CN_MSG_OFFSET + 4);
    if off + PROC_MSG_LEN <= |a| {
      WordsAtPrefix(a, b, off + PROC_EVENT_OFFSET, PROC_EVENT_WORDS);
    }
  }

  datatype CnMsgHdr = CnMsgHdr(idx: u32, val: u32, seqNo: u32, ack: u32, len: u16, flags: u16)

  function CnMsgHdrWords(c: CnMsgHdr): seq<u32>
  {
    [c.idx, c.val, c.seqNo, c.ack, Pack16(c.len, c.flags)]
  }

  /** What the kernel stamps on each message besides the event: the
      sequence number (in both the netlink header and cn_msg), cn_msg.ack
      (0 on events, the request's ack plus one on the reply to a listen
      request), the cpu the event happened on, and proc_event.timestamp_ns. */
  datatype Stamp = Stamp(seqNo: u32, ack: u32, cpu: u32, timestampNs: u64)

  /** A connector message carrying one proc_event, laid out as the kernel's
      process-event connector sends it: a single NLMSG_DONE frame of
      PROC_MSG_LEN bytes. The 64-bit timestamp travels as two words, low
      word first. */
  function ConnectorMsgWords(idx: u32, val: u32, st: Stamp, what: u32,
                             data: seq<u32>): (ws: seq<u32>)
    requires |data| == 6
    ensures 4 * |ws| == PROC_MSG_LEN
  {
    NlMsgHdrWords(NlMsgHdr(PROC_MSG_LEN, NLMSG_DONE, 0, st.seqNo, 0))
    + CnMsgHdrWords(CnMsgHdr(idx, val, st.seqNo, st.ack, PROC_EVENT_SIZE, 0))
    + [what, st.cpu, st.timestampNs % 0x1_0000_0000, st.timestampNs / 0x1_0000_0000]
    + data
  }

  /** The message the kernel sends for ev, stamped st. */
  function ProcMsg(ev: PidEvent, st: Stamp): seq<byte>
  {
    Words(ConnectorMsgWords(CN_IDX_PROC, CN_VAL_PROC, st, What(ev), EventDataWords(ev)))
  }

  /** Decoding the kernel's message for an event gives back that event,
      whatever the sequence number, cn_msg.ack, cpu and timestamp. */
  lemma ParseMsgRoundTrip(ev: PidEvent, st: Stamp)
    ensures |ProcMsg(ev, st)| == PROC_MSG_LEN
    ensures ParseMsg(ProcMsg(ev, st), 0) == Some(ev)
  {
    var ws := ConnectorMsgWords(CN_IDX_PROC, CN_VAL_PROC, st, What(ev), EventDataWords(ev));
    EncodedMsg(ws);
    var pe := ws[WHAT_WORD..];
    assert pe[PE_WHAT] == What(ev);
    assert pe[PE_DATA..] == EventDataWords(ev);
    forall k | 0 <= k < 6 ensures SignedWords(pe[PE_DATA..])[k] == AsI32(EventDataWords(ev)[k]) {
      SignedWordsIndex(pe[PE_DATA..], k);
    }
  }

  /** The namespace words and the proc_event of an encoded message read back
      as the words encoded. */
  lemma EncodedMsg(ws: seq<u32>)
    requires 4 * |ws| == PROC_MSG_LEN
    ensures MsgWord(Words(ws), 0, CN_ID_IDX_WORD) == ws[CN_ID_IDX_WORD]
    ensures MsgWord(Words(ws), 0, CN_ID_VAL_WORD) == ws[CN_ID_VAL_WORD]
    ensures ProcEventWords(Words(ws), 0) == ws[WHAT_WORD..]
  {
    WordAt(ws, CN_ID_IDX_WORD);
    WordAt(ws, CN_ID_VAL_WORD);
    WordsAtWords(ws, WHAT_WORD, PROC_EVENT_WORDS);
    assert ws[WHAT_WORD..WHAT_WORD + PROC_EVENT_WORDS] == ws[WHAT_WORD..];
  }

  /** A message addressed to any other connector namespace decodes to None. */
  lemma ParseMsgForeign(idx: u32, val: u32, st: Stamp, what: u32, data: seq<u32>)
    requires |data| == 6
    requires idx != CN_IDX_PROC || val != CN_VAL_PROC
    ensures ParseMsg(Words(ConnectorMsgWords(idx, val, st, what, data)), 0) == None
  {
    EncodedMsg(ConnectorMsgWords(idx, val, st, what, data));
  }

  /** A process-event message with any discriminant other than the four
      decoded ones decodes to None. */
  lemma ParseMsgUnknownWhat(st: Stamp, what: u32, data: seq<u32>)
    requires |data| == 6
    requires !KnownWhat(what)
    ensures ParseMsg(Words(ConnectorMsgWords(CN_IDX_PROC, CN_VAL_PROC, st, what, data)), 0) == None
  {
    var ws := ConnectorMsgWords(CN_IDX_PROC, CN_VAL_PROC, st, what, data);
    EncodedMsg(ws);
    assert ws[WHAT_WORD..][PE_WHAT] == what;
  }
}
