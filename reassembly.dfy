/** combine_multipacketreport as a function of the reassembly state: the
    report buffer rx_report, its length rx_report_len and the counter of
    fragments combined so far (the function's static packet_seq_combined).
    A packet is the content of rx_packet: a header word (sequence byte
    high, payload size low) followed by the payload. */
module Reassembly {
  import opened Words

  const RptLenMax := 1000
  const RptLenPacketMax := 245
  /** Words in the packet buffer rx_packet: header plus the largest payload. */
  const PacketBufLen := RptLenPacketMax + 1
  /** Payload words carried by each fragment of a multi-packet report. */
  const WordsPerPacket := 0xF4
  /** Sequence byte of a report that fits in one packet: packet 1 of 1. */
  const OnePacketRpt := 0x11
  const RawImageId := 0x0800

  datatype Assembly = Assembly(report: seq<Word>, len: Word, counter: Word)
  datatype Combined = Combined(a: Assembly, r: int)

  predicate WellFormed(a: Assembly)
  {
    |a.report| == RptLenMax
  }

  /** A packet whose payload size is at most 245 words, so that the
      header and payload combine_multipacketreport copies lie inside the
      246-word rx_packet. read_mtp_report checks this bound only on the
      header of its first read; the second read goes over word 0 again
      and nothing checks the header it leaves there. */
  predicate IsPacket(p: seq<Word>)
  {
    |p| == PacketBufLen && ByteL(p[0]) <= RptLenPacketMax
  }

  function SeqNum(p: seq<Word>): Byte
    requires |p| > 0
  {
    ByteH(p[0])
  }

  function Size(p: seq<Word>): Byte
    requires |p| > 0
  {
    ByteL(p[0])
  }

  /** Where the payload of fragment n goes in the report. */
  function FragmentOffset(n: int): int
  {
    (n - 1) * WordsPerPacket + 1
  }

  /** Packet p is the next fragment (numbered 2 or more) of the report
      being assembled. */
  predicate InOrder(a: Assembly, p: seq<Word>)
    requires |p| > 0
  {
    SeqNum(p) != OnePacketRpt && LoNibble(SeqNum(p)) != 1 && LoNibble(SeqNum(p)) == a.counter + 1
  }

  /** The driver does not bound the copy of a fragment's payload: the model
      needs it to stay inside the 1000-word report. */
  predicate Fits(a: Assembly, p: seq<Word>)
    requires |p| > 0
  {
    InOrder(a, p) ==> FragmentOffset(LoNibble(SeqNum(p))) + Size(p) <= RptLenMax
  }

  /** combine_multipacketreport. */
  function Combine(a: Assembly, p: seq<Word>): (c: Combined)
    requires WellFormed(a) && IsPacket(p) && Fits(a, p)
    ensures WellFormed(c.a)
  {
    var size := Size(p);
    if SeqNum(p) == OnePacketRpt then
      Combined(Assembly(Overwrite(a.report, 0, p[..size + 1]), size, 1), 0)
    else
      var total := HiNibble(SeqNum(p));
      var n := LoNibble(SeqNum(p));
      if n == 1 then
        if p[1] == RawImageId then
          Combined(Assembly(Overwrite(a.report, 0, p[..size + 1]), U16(p[2] as int + 2), 1), -EAGAIN)
        else Combined(a, -EIO)
      else if n == a.counter + 1 then
        var a2 := Assembly(Overwrite(a.report, FragmentOffset(n), p[1..size + 1]), a.len, U16(a.counter + 1));
        Combined(a2, if total == n then 0 else -EIO)
      else Combined(a, -EIO)
  }

  // ---------------------------------------------------------------------
  // Properties

  /** A one-packet report (sequence byte 0x11) is taken whole: header and
      payload are copied to the start of the report, the length is the
      payload size and the counter restarts at 1. */
  lemma OnePacketReport(a: Assembly, p: seq<Word>)
    requires WellFormed(a) && IsPacket(p) && Fits(a, p)
    requires SeqNum(p) == OnePacketRpt
    ensures var c := Combine(a, p);
      && c.r == 0
      && c.a.report[..Size(p) + 1] == p[..Size(p) + 1]
      && c.a.report[Size(p) + 1..] == a.report[Size(p) + 1..]
      && c.a.len == Size(p)
      && c.a.counter == 1
  {
    var c := Combine(a, p);
    assert c.a.report[..Size(p) + 1] == p[..Size(p) + 1];
  }

  /** A first fragment of a multi-packet report starts a new report only
      for a raw image: it is copied, the length is taken from the image's
      size word plus 2, the counter restarts at 1 and -EAGAIN asks for the
      rest. Any other first fragment is refused with nothing changed. */
  lemma FirstFragment(a: Assembly, p: seq<Word>)
    requires WellFormed(a) && IsPacket(p) && Fits(a, p)
    requires SeqNum(p) != OnePacketRpt && LoNibble(SeqNum(p)) == 1
    ensures var c := Combine(a, p);
      && (p[1] == RawImageId ==>
            && c.r == -EAGAIN
            && c.a.report[..Size(p) + 1] == p[..Size(p) + 1]
            && c.a.len == (p[2] as int + 2) % 0x1_0000
            && c.a.counter == 1)
      && (p[1] != RawImageId ==> c == Combined(a, -EIO))
  {
    var c := Combine(a, p);
    if p[1] == RawImageId {
      assert c.a.report[..Size(p) + 1] == p[..Size(p) + 1];
    }
  }

  /** A later fragment is accepted exactly when its number is one more than
      the counter. Then the counter takes its number, its payload lands at
      (n - 1) * 244 + 1 and the rest of the report is untouched; the call
      returns 0 only for the last fragment of the report. Otherwise the
      call fails with -EIO and changes nothing. */
  lemma LaterFragment(a: Assembly, p: seq<Word>)
    requires WellFormed(a) && IsPacket(p) && Fits(a, p)
    requires SeqNum(p) != OnePacketRpt && LoNibble(SeqNum(p)) != 1
    ensures var c := Combine(a, p);
      var n := LoNibble(SeqNum(p));
      var at := FragmentOffset(n);
      && (n == a.counter + 1 ==>
            && c.a.counter == n
            && c.a.len == a.len
            && at + Size(p) <= RptLenMax
            && c.a.report[at..at + Size(p)] == p[1..Size(p) + 1]
            && c.a.report[..at] == a.report[..at]
            && c.a.report[at + Size(p)..] == a.report[at + Size(p)..]
            && (c.r == 0 <==> HiNibble(SeqNum(p)) == n)
            && (c.r != 0 ==> c.r == -EIO))
      && (n != a.counter + 1 ==> c == Combined(a, -EIO))
  {
    var c := Combine(a, p);
    var n := LoNibble(SeqNum(p));
    var at := FragmentOffset(n);
    if n == a.counter + 1 {
      assert c.a.report[at..at + Size(p)] == p[1..Size(p) + 1];
      assert c.a.report[..at] == a.report[..at];
      assert c.a.report[at + Size(p)..] == a.report[at + Size(p)..];
    }
  }

  /** -EIO does not tell an error from progress: an in-order fragment that
      is not the last one is stored and counted, and still reported as
      -EIO. */
  lemma ProgressLooksLikeError(a: Assembly, p: seq<Word>)
    requires WellFormed(a) && IsPacket(p) && Fits(a, p)
    requires InOrder(a, p) && HiNibble(SeqNum(p)) != LoNibble(SeqNum(p))
    ensures Combine(a, p).r == -EIO && Combine(a, p).a.counter == a.counter + 1
  {
  }

  /** Every call that fails other than by storing a fragment leaves the
      whole state, the counter included, as it was. */
  lemma RefusalChangesNothing(a: Assembly, p: seq<Word>)
    requires WellFormed(a) && IsPacket(p) && Fits(a, p)
    requires Combine(a, p).r == -EIO && !InOrder(a, p)
    ensures Combine(a, p).a == a
  {
  }

  /** The results are 0, -EAGAIN and -EIO only, and -EAGAIN only for the
      first fragment of a raw image. */
  lemma CombineResults(a: Assembly, p: seq<Word>)
    requires WellFormed(a) && IsPacket(p) && Fits(a, p)
    ensures var c := Combine(a, p);
      && (c.r == 0 || c.r == -EAGAIN || c.r == -EIO)
      && (c.r == -EAGAIN <==> SeqNum(p) != OnePacketRpt && LoNibble(SeqNum(p)) == 1 && p[1] == RawImageId)
  {
  }

  /** A raw image sent as two packets is assembled whole: after its first
      and second fragments the report holds the first packet (header and
      at most 244 payload words) at its start and the second payload from
      word 245 on, and the second call returns 0. */
  lemma TwoPacketImage(a: Assembly, p1: seq<Word>, p2: seq<Word>)
    requires WellFormed(a) && IsPacket(p1) && IsPacket(p2)
    requires SeqNum(p1) == 0x21 && p1[1] == RawImageId && Size(p1) <= WordsPerPacket
    requires SeqNum(p2) == 0x22 && FragmentOffset(2) + Size(p2) <= RptLenMax
    ensures Fits(a, p1)
    ensures var c1 := Combine(a, p1);
      Fits(c1.a, p2) &&
      var c2 := Combine(c1.a, p2);
      && c1.r == -EAGAIN
      && c2.r == 0
      && c2.a.report[..Size(p1) + 1] == p1[..Size(p1) + 1]
      && c2.a.report[245..245 + Size(p2)] == p2[1..Size(p2) + 1]
      && c2.a.len == (p1[2] as int + 2) % 0x1_0000
  {
    var c1 := Combine(a, p1);
    FirstFragment(a, p1);
    assert c1.a.counter == 1;
    LaterFragment(c1.a, p2);
    var c2 := Combine(c1.a, p2);
    assert c2.a.report[..245] == c1.a.report[..245];
    assert c2.a.report[..Size(p1) + 1] == c2.a.report[..245][..Size(p1) + 1];
  }
}
