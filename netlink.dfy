/** The netlink message header and the alignment arithmetic of
    linux/netlink.h (NLMSG_ALIGN, NLMSG_HDRLEN, NLMSG_LENGTH) that the library
    reimplements; RFC 3549, section 2.3.2, describes the same framing. */
module Netlink {
  import opened Wire

  const NLMSG_ALIGNTO: nat := 4

  /** sizeof(struct nlmsghdr): nlmsg_len u32, nlmsg_type u16, nlmsg_flags u16,
      nlmsg_seq u32, nlmsg_pid u32. */
  const NLMSGHDR_SIZE: nat := 16

  const NLMSG_NOOP: u16 := 1
  const NLMSG_ERROR: u16 := 2
  const NLMSG_DONE: u16 := 3

  /** nlmsg_align: adding 3 and clearing the two low bits rounds a length up
      to the next multiple of four. */
  function NlmsgAlign(len: nat): (r: nat)
    ensures r % NLMSG_ALIGNTO == 0
    ensures len <= r < len + NLMSG_ALIGNTO
  {
    (len + 3) - (len + 3) % 4
  }

  /** The source's own form on a 64-bit usize: `(len + 3) & !3`. Below the top
      three values it is the rounding above; at the top `+ 3` overflows: a
      release build wraps and the result is 0 (as modelled here), a debug
      build panics. Every length the library aligns comes from a u32 field or a
      struct size, so the model uses NlmsgAlign on unbounded naturals. */
  function NlmsgAlignUsize(len: bv64): (r: bv64)
    ensures len <= 0xFFFF_FFFF_FFFF_FFFC ==> r % 4 == 0 && len <= r && r - len < 4
    ensures len > 0xFFFF_FFFF_FFFF_FFFC ==> r == 0
  {
    (len + 3) & !3
  }

  lemma NlmsgAlignIdempotent(len: nat)
    ensures NlmsgAlign(NlmsgAlign(len)) == NlmsgAlign(len)
  {
  }

  /** No multiple of four at least len lies below NlmsgAlign(len). */
  lemma NlmsgAlignLeast(len: nat, m: nat)
    requires m % NLMSG_ALIGNTO == 0 && len <= m
    ensures NlmsgAlign(len) <= m
  {
  }

  /** nlmsg_hdrlen: the header size rounded up; the header needs no padding. */
  function NlmsgHdrlen(): (r: nat)
    ensures r == NLMSGHDR_SIZE && r % NLMSG_ALIGNTO == 0
  {
    NlmsgAlign(NLMSGHDR_SIZE)
  }

  /** nlmsg_length: a payload of len bytes behind one header. Padding the
      payload and padding the whole message come to the same thing. */
  function NlmsgLength(len: nat): (r: nat)
    ensures r - len == NlmsgHdrlen()
    ensures NlmsgAlign(r) == NlmsgAlign(len) + NlmsgHdrlen()
  {
    len + NlmsgHdrlen()
  }

  datatype NlMsgHdr = NlMsgHdr(len: u32, msgType: u16, flags: u16, seqNo: u32, pid: u32)

  function NlMsgHdrWords(h: NlMsgHdr): seq<u32>
  {
    [h.len, Pack16(h.msgType, h.flags), h.seqNo, h.pid]
  }

  /** The declared length of the frame that starts at off. */
  function MsgLen(buf: seq<byte>, off: nat): u32
    requires off + NLMSGHDR_SIZE <= |buf|
  {
    U32At(buf, off)
  }

  function MsgType(buf: seq<byte>, off: nat): u16
    requires off + NLMSGHDR_SIZE <= |buf|
  {
    U16At(buf, off + 4)
  }

  function ReadNlMsgHdr(buf: seq<byte>, off: nat): NlMsgHdr
    requires off + NLMSGHDR_SIZE <= |buf|
  {
    NlMsgHdr(MsgLen(buf, off), MsgType(buf, off), U16At(buf, off + 6),
             U32At(buf, off + 8), U32At(buf, off + 12))
  }

  /** A header written in front of any words reads back unchanged. */
  lemma NlMsgHdrRoundTrip(h: NlMsgHdr, rest: seq<u32>)
    ensures |Words(NlMsgHdrWords(h) + rest)| >= NLMSGHDR_SIZE
    ensures ReadNlMsgHdr(Words(NlMsgHdrWords(h) + rest), 0) == h
  {
    var ws := NlMsgHdrWords(h) + rest;
    WordAt(ws, 0);
    HalfWordsAt(ws, 1);
    WordAt(ws, 2);
    WordAt(ws, 3);
  }
}
