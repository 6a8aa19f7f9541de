/** Command framing (send_mtp_command): a command of at most 135 words is
    cut into packets of at most 9 words, each sent as
    [start address 0x0000, packet header, payload...]. */
module Framing {
  import opened Words
  import opened Transport

  const CmdLenPacketMax := 9
  const CmdLenMax := 15 * CmdLenPacketMax
  const CmdLenPacketMin := 2
  const CmdStartAddr := 0x0000

  /** The length checks at the top of send_mtp_command: at least 2 and at
      most 135 words, and the size word buf[1] plus the id and size words
      equals the length. */
  predicate ValidCommand(cmd: seq<Word>)
  {
    CmdLenPacketMin <= |cmd| <= CmdLenMax && cmd[1] as int + 2 == |cmd|
  }

  /** Number of packets: ceil(len / 9). */
  function PacketCount(len: nat): (p: nat)
    ensures (p - 1) * CmdLenPacketMax < len <= p * CmdLenPacketMax || (len == 0 && p == 0)
  {
    len / CmdLenPacketMax + (if len % CmdLenPacketMax != 0 then 1 else 0)
  }

  /** Payload size of packet i: 9, except for the last packet which gets
      what is left. */
  function PacketSize(len: nat, i: nat): nat
  {
    if i + 1 == PacketCount(len) then len - CmdLenPacketMax * i else CmdLenPacketMax
  }

  /** The packet header word (packets << 12) | (number << 8) | size. The three
      fields occupy disjoint bits, so the OR is this sum. */
  function CommandHeader(total: nat, num: nat, size: nat): (h: Word)
    requires total < 16 && num < 16 && size < 0x100
    ensures HiNibble(ByteH(h)) == total && LoNibble(ByteH(h)) == num && ByteL(h) == size
  {
    total * 0x1000 + num * 0x100 + size
  }

  /** Frame i of a valid command. */
  function CommandFrame(cmd: seq<Word>, i: nat): (f: seq<Word>)
    requires ValidCommand(cmd) && i < PacketCount(|cmd|)
    ensures |f| == PacketSize(|cmd|, i) + 2 && f[0] == CmdStartAddr
  {
    var size := PacketSize(|cmd|, i);
    [CmdStartAddr, CommandHeader(PacketCount(|cmd|), i + 1, size)]
      + cmd[CmdLenPacketMax * i .. CmdLenPacketMax * i + size]
  }

  /** All frames of a valid command, in transmission order. */
  function CommandFrames(cmd: seq<Word>): (fs: seq<seq<Word>>)
    requires ValidCommand(cmd)
    ensures |fs| == PacketCount(|cmd|)
  {
    seq(PacketCount(|cmd|), i requires 0 <= i < PacketCount(|cmd|) => CommandFrame(cmd, i))
  }

  /** Send the frames in order, stopping with -EIO after the first frame
      that the bus reports as short. */
  function SendAll(w: Wire, frames: seq<seq<Word>>): (o: SendStep)
    ensures o.count == 0 || o.count == -EIO
    decreases |frames|
  {
    if frames == [] then SendStep(w, 0)
    else
      var s := Send(w, WordFrame(frames[0]));
      if s.count != |frames[0]| then SendStep(s.wire, -EIO)
      else SendAll(s.wire, frames[1..])
  }

  /** Number of frames SendAll hands to the bus. */
  function Attempted(replies: seq<int>, frames: seq<seq<Word>>): (k: nat)
    ensures k <= |frames|
    decreases |frames|
  {
    if frames == [] then 0
    else if (if replies == [] then -EIO else replies[0]) != |frames[0]| then 1
    else 1 + Attempted(if replies == [] then [] else replies[1..], frames[1..])
  }

  function WordFrames(frames: seq<seq<Word>>): (fs: seq<Frame>)
    ensures |fs| == |frames| && forall i :: 0 <= i < |frames| ==> fs[i] == WordFrame(frames[i])
  {
    if frames == [] then [] else [WordFrame(frames[0])] + WordFrames(frames[1..])
  }

  /** The concatenated payloads of a list of frames. */
  function Payloads(frames: seq<seq<Word>>): seq<Word>
  {
    if frames == [] then [] else (if |frames[0]| < 2 then [] else frames[0][2..]) + Payloads(frames[1..])
  }

  // ---------------------------------------------------------------------
  // Properties of the framing

  /** Every packet header names the packet count, the packet's 1-based
      number and its size; all sizes are 9 except the last, which is
      between 1 and 9. */
  lemma {:induction false} HeaderFields(cmd: seq<Word>, i: nat)
    requires ValidCommand(cmd) && i < PacketCount(|cmd|)
    ensures var h := CommandFrames(cmd)[i][1];
      && HiNibble(ByteH(h)) == PacketCount(|cmd|)
      && LoNibble(ByteH(h)) == i + 1
      && ByteL(h) == |CommandFrames(cmd)[i]| - 2
      && 1 <= ByteL(h) <= CmdLenPacketMax
      && (i + 1 < PacketCount(|cmd|) ==> ByteL(h) == CmdLenPacketMax)
  {
  }

  lemma {:induction false} PayloadsAppend(a: seq<seq<Word>>, f: seq<Word>)
    requires |f| >= 2
    ensures Payloads(a + [f]) == Payloads(a) + f[2..]
    decreases |a|
  {
    if a == [] {
      assert a + [f] == [f];
    } else {
      assert (a + [f])[1..] == a[1..] + [f];
      PayloadsAppend(a[1..], f);
    }
  }

  /** Packet k carries the command words 9k up to 9k + size, and only the
      last packet reaches the end of the command. */
  lemma {:induction false} FramePayload(cmd: seq<Word>, k: nat)
    requires ValidCommand(cmd) && k < PacketCount(|cmd|)
    ensures var size := PacketSize(|cmd|, k);
      && CmdLenPacketMax * k + size <= |cmd|
      && CommandFrames(cmd)[k][2..] == cmd[CmdLenPacketMax * k .. CmdLenPacketMax * k + size]
      && (CmdLenPacketMax * k + size == |cmd| <==> k + 1 == PacketCount(|cmd|))
  {
    var f := CommandFrame(cmd, k);
    assert CommandFrames(cmd)[k] == f;
  }

  /** The packets' payloads, joined in order, give back the command: the
      split loses, repeats and reorders nothing, so the sizes add up to the
      command length. */
  lemma {:induction false} PayloadsRebuildCommand(cmd: seq<Word>)
    requires ValidCommand(cmd)
    ensures Payloads(CommandFrames(cmd)) == cmd
  {
    var fs := CommandFrames(cmd);
    var p := PacketCount(|cmd|);
    var k := 0;
    var done := 0;
    while k < p
      invariant 0 <= k <= p
      invariant done == (if k < p then CmdLenPacketMax * k else |cmd|)
      invariant done <= |cmd|
      invariant Payloads(fs[..k]) == cmd[..done]
    {
      FramePayload(cmd, k);
      PayloadsAppend(fs[..k], fs[k]);
      assert fs[..k + 1] == fs[..k] + [fs[k]];
      var size := PacketSize(|cmd|, k);
      assert cmd[..done + size] == cmd[..done] + cmd[done..done + size];
      done := done + size;
      k := k + 1;
    }
    assert fs[..p] == fs;
  }

  /** Every scripted reply equals the length of its frame. */
  predicate AllFit(replies: seq<int>, frames: seq<seq<Word>>)
    decreases |frames|
  {
    frames == [] || (replies != [] && replies[0] == |frames[0]| && AllFit(replies[1..], frames[1..]))
  }

  /** SendAll hands exactly the first Attempted(...) frames to the bus, in
      order, leaves the receive script alone, and succeeds exactly when
      every frame went out whole. */
  lemma {:induction false} SendAllSendsPrefix(w: Wire, frames: seq<seq<Word>>)
    ensures var o := SendAll(w, frames);
      var k := Attempted(w.txReplies, frames);
      && o.wire.sent == w.sent + WordFrames(frames[..k])
      && o.wire.rxReplies == w.rxReplies
      && (o.count == 0 || o.count == -EIO)
      && (o.count == 0 <==> AllFit(w.txReplies, frames))
      && (o.count == 0 ==> k == |frames|)
    decreases |frames|
  {
    if frames != [] {
      var s := Send(w, WordFrame(frames[0]));
      if s.count == |frames[0]| {
        assert w.txReplies != [] && s.wire.txReplies == w.txReplies[1..];
        SendAllSendsPrefix(s.wire, frames[1..]);
        var k := Attempted(w.txReplies, frames);
        assert k == 1 + Attempted(w.txReplies[1..], frames[1..]);
        assert frames[..k] == [frames[0]] + frames[1..][..k - 1];
        assert WordFrames(frames[..k]) == [WordFrame(frames[0])] + WordFrames(frames[1..][..k - 1]);
      } else {
        assert frames[..1] == [frames[0]];
      }
    }
  }

  /** A command that passes the length checks has between 1 and 15
      packets, so the packet count fits the 4-bit field of the header. */
  lemma ValidCommandFitsHeader(cmd: seq<Word>)
    requires ValidCommand(cmd)
    ensures 1 <= PacketCount(|cmd|) <= 15
  {
  }

  /** The frame send_mtp_command builds for packet i from the remaining
      length is frame i of the command. */
  lemma FrameAt(cmd: seq<Word>, i: nat, size: nat)
    requires ValidCommand(cmd) && i < PacketCount(|cmd|)
    requires size == (if i + 1 == PacketCount(|cmd|) then |cmd| - CmdLenPacketMax * i else CmdLenPacketMax)
    ensures CmdLenPacketMax * i + size <= |cmd|
    ensures [CmdStartAddr, PacketCount(|cmd|) * 0x1000 + (i + 1) * 0x100 + size]
            + cmd[CmdLenPacketMax * i .. CmdLenPacketMax * i + size] == CommandFrames(cmd)[i]
  {
    ValidCommandFitsHeader(cmd);
    assert size == PacketSize(|cmd|, i);
    FramePayload(cmd, i);
    assert CommandFrames(cmd)[i] == CommandFrame(cmd, i);
  }

  /** Every packet but the last leaves at least one more full packet's
      worth of words after it. */
  lemma EarlyPacketFull(len: nat, i: nat)
    requires len < 0x1_0000 && i + 1 < PacketCount(len)
    ensures len - CmdLenPacketMax * i >= CmdLenPacketMax
    ensures U16(len - CmdLenPacketMax * i - CmdLenPacketMax) == len - CmdLenPacketMax * (i + 1)
  {
    var p := PacketCount(len);
    assert CmdLenPacketMax * (i + 1) <= CmdLenPacketMax * (p - 1);
  }

  /** Sending one whole frame moves SendAll on to the rest. */
  lemma SendAllStep(w: Wire, frames: seq<seq<Word>>, i: nat)
    requires i < |frames|
    requires Send(w, WordFrame(frames[i])).count == |frames[i]|
    ensures SendAll(w, frames[i..]) == SendAll(Send(w, WordFrame(frames[i])).wire, frames[i + 1..])
  {
    assert frames[i..][1..] == frames[i + 1..];
  }

  // ---------------------------------------------------------------------
  // send_mtp_command

  /** One pass of the packet loop of send_mtp_command: build packet i
      from the remaining length `len` and hand it to the bus. */
  method SendPacket(bus: Bus, cmd: seq<Word>, i: nat, len: Word, lastPacket: int, totalNum: int)
    returns (wordsTx: int, currSize: int)
    requires ValidCommand(cmd) && i < PacketCount(|cmd|)
    requires lastPacket == PacketCount(|cmd|) - 1 && totalNum == PacketCount(|cmd|) * 0x1000
    requires len == |cmd| - CmdLenPacketMax * i
    modifies bus
    ensures currSize + 2 == |CommandFrames(cmd)[i]|
    ensures SendStep(bus.State(), wordsTx) == Send(old(bus.State()), WordFrame(CommandFrames(cmd)[i]))
  {
    var currNum := (i + 1) * 0x100;
    currSize := if i == lastPacket then len else CmdLenPacketMax;
    FrameAt(cmd, i, currSize);
    var start := CmdLenPacketMax * i;
    var header := totalNum + currNum + currSize;
    assert header == CommandFrames(cmd)[i][1];
    var txBuf := [CmdStartAddr, header] + cmd[start .. start + currSize];
    assert txBuf == CommandFrames(cmd)[i];
    wordsTx := bus.TxWords(txBuf);
  }

  /** send_mtp_command: validate the length, then send each packet; the
      size of the last packet is taken from `len` after it was decreased
      by 9 once per earlier packet. */
  method SendMtpCommand(bus: Bus, cmd: seq<Word>) returns (r: int)
    requires |cmd| < 0x1_0000
    modifies bus
    ensures !ValidCommand(cmd) ==> r == -EINVAL && bus.State() == old(bus.State())
    ensures ValidCommand(cmd) ==> SendStep(bus.State(), r) == SendAll(old(bus.State()), CommandFrames(cmd))
  {
    var len: Word := |cmd|;
    if len < CmdLenPacketMin || len > CmdLenMax || cmd[1] as int + 2 != len {
      return -EINVAL;
    }
    var packets := len / CmdLenPacketMax;
    if len % CmdLenPacketMax != 0 {
      packets := packets + 1;
    }
    var lastPacket := packets - 1;
    var totalNum := packets * 0x1000;
    ghost var frames := CommandFrames(cmd);
    var i := 0;
    while i < packets
      invariant 0 <= i <= packets == PacketCount(|cmd|)
      invariant i < packets ==> len == |cmd| - CmdLenPacketMax * i
      invariant SendAll(bus.State(), frames[i..]) == SendAll(old(bus.State()), frames)
    {
      ghost var w := bus.State();
      var wordsTx, currSize := SendPacket(bus, cmd, i, len, lastPacket, totalNum);
      if wordsTx != currSize + 2 {
        return -EIO;
      }
      assert SendAll(w, frames[i..]) == SendAll(bus.State(), frames[i + 1..]) by {
        SendAllStep(w, frames, i);
      }
      assert i + 1 < packets ==> U16(len - CmdLenPacketMax) == |cmd| - CmdLenPacketMax * (i + 1) by {
        if i + 1 < packets {
          EarlyPacketFull(|cmd|, i);
        }
      }
      len := U16(len - CmdLenPacketMax);
      i := i + 1;
    }
    r := 0;
  }
}
