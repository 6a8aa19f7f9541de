/** read_mtp_report as a function of the transport, the packet buffer
    rx_packet and the raw-image latch is_raw_mode: set the report address,
    read the packet header, then read the whole packet (in raw mode the
    first read already covers a window of i2c_words words and the second
    read fetches the part beyond it). */
module PacketRead {
  import opened Words
  import opened Transport
  import opened Reassembly

  const RptStartAddr := 0x000A
  /** Words read first outside raw mode: the header and the report id. */
  const RptHdrAndIdLen := 2
  const RptPktHdrLen := 1
  const FirstPacket := 1

  /** The frame that selects the report address `addr`. */
  function AddressFrame(addr: Word): Frame
  {
    WordFrame([addr])
  }

  datatype PacketOut = PacketOut(wire: Wire, r: int, buf: seq<Word>, raw: bool)

  /** A header that read_mtp_report refuses: the wrong number of words or
      a payload size beyond 245. */
  predicate BadHeader(count: int, want: int, b: seq<Word>)
    requires |b| > 0
  {
    count != want || ByteL(b[0]) > RptLenPacketMax
  }

  /** Words in the packet whose header is b[0]. */
  function PacketWords(b: seq<Word>): int
    requires |b| > 0
  {
    ByteL(b[0]) + RptPktHdrLen
  }

  /** Where the second read of raw mode starts: past the window when the
      packet is longer than the window, else at the start again. */
  function RawOffset(words: int, window: Word): Word
    requires 0 <= window <= PacketBufLen
  {
    if words - window > 0 then window else 0
  }

  /** The second half of a read: set the address `offset` words past the
      report start, then read `count` words into the buffer at `offset`. */
  function ReadAt(w: Wire, b: seq<Word>, latch: bool, offset: nat, count: nat): (o: PacketOut)
    requires offset + count <= |b| <= PacketBufLen
    ensures o.r == 0 || o.r == -EIO
    ensures |o.buf| == |b| && o.raw == latch
    ensures o.buf[..offset] == b[..offset] && o.buf[offset + count..] == b[offset + count..]
  {
    var a := Send(w, AddressFrame(RptStartAddr + offset));
    if a.count != 1 then PacketOut(a.wire, -EIO, b, latch)
    else
      var p := Recv(a.wire, count);
      PacketOut(p.wire, if p.count != count then -EIO else 0, Overwrite(b, offset, p.data), latch)
  }

  /** read_mtp_report. The raw window is at most the packet buffer. */
  function ReadMtpReport(w: Wire, buf: seq<Word>, raw: bool, window: Word): (o: PacketOut)
    requires |buf| == PacketBufLen && window <= PacketBufLen
    ensures |o.buf| == PacketBufLen
    ensures o.r == 0 || o.r == -EIO
  {
    var a := Send(w, AddressFrame(RptStartAddr));
    if a.count != 1 then PacketOut(a.wire, -EIO, buf, raw)
    else if !raw then
      var h := Recv(a.wire, RptHdrAndIdLen);
      var b := Overwrite(buf, 0, h.data);
      if BadHeader(h.count, RptHdrAndIdLen, b) then PacketOut(h.wire, -EIO, b, raw)
      else
        var latch := LoNibble(ByteH(b[0])) == FirstPacket && b[1] == RawImageId;
        ReadAt(h.wire, b, latch, 0, PacketWords(b))
    else
      var h := Recv(a.wire, window);
      var b := Overwrite(buf, 0, h.data);
      if BadHeader(h.count, window, b) then PacketOut(h.wire, -EIO, b, raw)
      else
        var latch := !(LoNibble(ByteH(b[0])) == FirstPacket && b[1] != RawImageId);
        var words := PacketWords(b);
        var offset := RawOffset(words, window);
        ReadAt(h.wire, b, latch, offset, words - offset)
  }

  /** The latch after an accepted header `b`. */
  function Latch(raw: bool, b: seq<Word>): bool
    requires |b| >= 2
  {
    if !raw then LoNibble(ByteH(b[0])) == FirstPacket && b[1] == RawImageId
    else !(LoNibble(ByteH(b[0])) == FirstPacket && b[1] != RawImageId)
  }

  /** Once the header `b` read as `h` is accepted, what is left is the
      second read at the raw offset (always 0 outside raw mode). */
  lemma AcceptedHeader(w: Wire, buf: seq<Word>, raw: bool, window: Word, h: RecvStep, b: seq<Word>,
                       latch: bool, offset: nat, count: nat)
    requires |buf| == PacketBufLen && window <= PacketBufLen
    requires Send(w, AddressFrame(RptStartAddr)).count == 1
    requires h == Recv(Send(w, AddressFrame(RptStartAddr)).wire, if raw then window else RptHdrAndIdLen)
    requires b == Overwrite(buf, 0, h.data)
    requires !BadHeader(h.count, if raw then window else RptHdrAndIdLen, b)
    requires latch == Latch(raw, b)
    requires offset == (if raw then RawOffset(PacketWords(b), window) else 0)
    requires count == PacketWords(b) - offset
    ensures offset + count <= |b| <= PacketBufLen
    ensures ReadMtpReport(w, buf, raw, window) == ReadAt(h.wire, b, latch, offset, count)
  {
  }

  // ---------------------------------------------------------------------
  // Properties

  /** When the report address cannot be set, the call fails at once: no
      read happens and buffer and latch are unchanged. */
  lemma AddressFailure(w: Wire, buf: seq<Word>, raw: bool, window: Word)
    requires |buf| == PacketBufLen && window <= PacketBufLen
    requires Send(w, AddressFrame(RptStartAddr)).count != 1
    ensures var o := ReadMtpReport(w, buf, raw, window);
      o.r == -EIO && o.buf == buf && o.raw == raw
      && o.wire.sent == w.sent + [AddressFrame(RptStartAddr)] && o.wire.rxReplies == w.rxReplies
  {
  }

  /** A header read of the wrong length (2 words, or the window in raw
      mode) or with a payload size above 245 fails the call with -EIO and
      leaves the latch as it was. */
  lemma HeaderRefused(w: Wire, buf: seq<Word>, raw: bool, window: Word)
    requires |buf| == PacketBufLen && window <= PacketBufLen
    requires Send(w, AddressFrame(RptStartAddr)).count == 1
    ensures var a := Send(w, AddressFrame(RptStartAddr));
      var want := if raw then window else RptHdrAndIdLen;
      var h := Recv(a.wire, want);
      var b := Overwrite(buf, 0, h.data);
      var o := ReadMtpReport(w, buf, raw, window);
      BadHeader(h.count, want, b) ==> o.r == -EIO && o.raw == raw && o.wire.sent == a.wire.sent
  {
  }

  /** The raw latch: once a header is accepted, outside raw mode a first
      packet of report 0x0800 switches raw mode on, and in raw mode a first
      packet of any other report switches it off; nothing else changes
      it. The latch moves even when the rest of the read fails. */
  lemma RawLatch(w: Wire, buf: seq<Word>, raw: bool, window: Word)
    requires |buf| == PacketBufLen && window <= PacketBufLen
    requires Send(w, AddressFrame(RptStartAddr)).count == 1
    ensures var a := Send(w, AddressFrame(RptStartAddr));
      var want := if raw then window else RptHdrAndIdLen;
      var h := Recv(a.wire, want);
      var b := Overwrite(buf, 0, h.data);
      var o := ReadMtpReport(w, buf, raw, window);
      var first := LoNibble(ByteH(b[0])) == FirstPacket;
      !BadHeader(h.count, want, b) ==>
        && (!raw ==> (o.raw <==> first && b[1] == RawImageId))
        && (raw ==> (!o.raw <==> first && b[1] != RawImageId))
  {
  }

  /** A successful read outside raw mode sets the address twice and reads
      the header and then the whole packet (header word plus payload) over
      it. */
  lemma PlainRead(w: Wire, buf: seq<Word>, window: Word)
    requires |buf| == PacketBufLen && window <= PacketBufLen
    requires ReadMtpReport(w, buf, false, window).r == 0
    ensures var a := Send(w, AddressFrame(RptStartAddr));
      var h := Recv(a.wire, RptHdrAndIdLen);
      var b := Overwrite(buf, 0, h.data);
      var a2 := Send(h.wire, AddressFrame(RptStartAddr));
      var p := Recv(a2.wire, PacketWords(b));
      var o := ReadMtpReport(w, buf, false, window);
      && h.count == RptHdrAndIdLen && ByteL(b[0]) <= RptLenPacketMax
      && o.wire.sent == w.sent + [AddressFrame(RptStartAddr), AddressFrame(RptStartAddr)]
      && p.count == PacketWords(b)
      && o.buf == Overwrite(b, 0, p.data)
  {
  }

  /** A successful raw-mode read: when the packet is longer than the
      window, the second read starts at address 0x0A + window and lands
      just past the window, fetching the rest of the packet; otherwise it
      re-reads the whole packet from 0x0A. Either way the two windows
      cover exactly the packet. */
  lemma RawRead(w: Wire, buf: seq<Word>, window: Word)
    requires |buf| == PacketBufLen && window <= PacketBufLen
    requires ReadMtpReport(w, buf, true, window).r == 0
    ensures var a := Send(w, AddressFrame(RptStartAddr));
      var h := Recv(a.wire, window);
      var b := Overwrite(buf, 0, h.data);
      var words := PacketWords(b);
      var offset := RawOffset(words, window);
      var a2 := Send(h.wire, AddressFrame(RptStartAddr + offset));
      var p := Recv(a2.wire, words - offset);
      var o := ReadMtpReport(w, buf, true, window);
      && h.count == window && ByteL(b[0]) <= RptLenPacketMax
      && (words > window ==> offset == window) && (words <= window ==> offset == 0)
      && o.wire.sent == w.sent + [AddressFrame(RptStartAddr), AddressFrame(RptStartAddr + offset)]
      && p.count == words - offset
      && offset + (words - offset) == words <= PacketBufLen
      && o.buf == Overwrite(b, offset, p.data)
  {
    var a := Send(w, AddressFrame(RptStartAddr));
    var h := Recv(a.wire, window);
    var b := Overwrite(buf, 0, h.data);
    assert a.count == 1 && !BadHeader(h.count, window, b);
    var words := PacketWords(b);
    var offset := RawOffset(words, window);
    AcceptedHeader(w, buf, true, window, h, b, Latch(true, b), offset, words - offset);
  }
}
