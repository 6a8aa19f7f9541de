/** Properties of the bootloader register protocol, stated about the
    functions of BootloaderSpec (and so, through the methods' contracts,
    about module Bootloader). */
module BootloaderProps {
  import opened Words
  import opened Transport
  import opened FrameLog
  import opened BootloaderSpec

  // ---------------------------------------------------------------------
  // Frames of interest

  /** The frame that addresses the data register for a read. */
  const DataRead := ByteFrame([DataAddrL, DataAddrH])

  // ---------------------------------------------------------------------
  // Register operations send no flash block

  lemma WriteStatusRegQuiet(w: Wire, L: Byte, H: Byte)
    ensures Quiet(w, WriteStatusReg(w, L, H).wire)
  {
    SendQuiet(w, ByteFrame([StatusAddrL, StatusAddrH, L, H]));
  }

  /** A data-register read addresses the register exactly once and sends
      no flash block. */
  lemma ReadDataRegTraffic(w: Wire, lo0: Byte, hi0: Byte)
    ensures var o := ReadDataReg(w, lo0, hi0);
      Quiet(w, o.wire) && Count(Added(w, o.wire), DataRead) == 1
  {
    var s := Send(w, DataRead);
    SendQuiet(w, DataRead);
    assert Count([DataRead], DataRead) == 1;
    if s.count == 2 {
      var rcv := Recv(s.wire, 4);
      QuietRefl(s.wire, rcv.wire);
      AddedSplit(w, s.wire, rcv.wire);
      QuietTrans(w, s.wire, rcv.wire);
      assert Added(w, rcv.wire) == [DataRead];
      if rcv.count == 4 {
        var b := Overwrite([DataAddrL, DataAddrH, 0x00, 0x00], 0, LowBytes(rcv.data));
        if !DataStatusRejected(b[2], b[3]) {
          var f := ByteFrame([StatusAddrL, StatusAddrH, RxTxCompleteL, RxTxCompleteH]);
          SendQuiet(rcv.wire, f);
          AddedSplit(w, rcv.wire, RxTxComplete(rcv.wire).wire);
          QuietTrans(w, rcv.wire, RxTxComplete(rcv.wire).wire);
          assert Count([f], DataRead) == 0;
          CountAppend([DataRead], [f], DataRead);
        }
      }
    }
  }

  lemma WriteDataRegQuiet(w: Wire, L: Byte, H: Byte)
    ensures Quiet(w, WriteDataReg(w, L, H).wire)
  {
    var st := ReadStatusReg(w, StatusReadyL, StatusReadyH);
    StatusPollQuiet(w, [StatusAddrL, StatusAddrH], StatusReadyL, StatusReadyH, 0);
    if st.r >= 0 {
      SendQuiet(st.wire, ByteFrame([DataAddrL, DataAddrH, L, H, RxTxCompleteL, RxTxCompleteH]));
      QuietTrans(w, st.wire, WriteDataReg(w, L, H).wire);
    }
  }

  lemma RxTxQuiet(w: Wire, lo: Byte, hi: Byte, tx: int)
    ensures Quiet(w, RxTx(w, lo, hi, tx).wire)
  {
    if tx > 0 {
      WriteDataRegQuiet(w, lo, hi);
    } else {
      ReadDataRegTraffic(w, lo, hi);
    }
  }

  lemma {:induction false} WriteBufferFromQuiet(w: Wire, bytes: seq<Byte>, k: nat)
    requires k <= |bytes|
    ensures Quiet(w, WriteBufferFrom(w, bytes, k).wire)
    decreases |bytes| - k
  {
    if k == |bytes| {
      QuietRefl(w, w);
    } else {
      var o := RxTx(w, bytes[k], WrStartAddr, 1);
      RxTxQuiet(w, bytes[k], WrStartAddr, 1);
      if o.r >= 0 {
        WriteBufferFromQuiet(o.wire, bytes, k + 1);
        QuietTrans(w, o.wire, WriteBufferFrom(o.wire, bytes, k + 1).wire);
      }
    }
  }

  // ---------------------------------------------------------------------
  // The confirmation loop

  /** bootloader_get_cmd_conf reads the data register at least once, even
      with a retry count of 0 or less, and at most max(retries, 1) times. */
  lemma {:induction false} CmdConfReads(w: Wire, retries: int)
    ensures var o := CmdConf(w, retries);
      && Quiet(w, o.wire)
      && 1 <= Count(Added(w, o.wire), DataRead) <= (if retries > 1 then retries else 1)
    decreases if retries > 0 then retries else 0
  {
    var o := ReadDataReg(w, 0, 0);
    ReadDataRegTraffic(w, 0, 0);
    if !(o.r >= 0 && o.hi == DataReadyH && o.lo == DataReadyL) && retries - 1 > 0 {
      var c := CmdConf(o.wire, retries - 1);
      CmdConfReads(o.wire, retries - 1);
      AddedSplit(w, o.wire, c.wire);
      QuietTrans(w, o.wire, c.wire);
      CountAppend(Added(w, o.wire), Added(o.wire, c.wire), DataRead);
    }
  }

  /** A retry count of 0 behaves exactly like a retry count of 1. */
  lemma CmdConfAtLeastOnce(w: Wire, retries: int)
    requires retries <= 1
    ensures CmdConf(w, retries) == CmdConf(w, 1)
  {
  }

  /** The erase confirmation reads the data register at least once and at
      most ten times: each of its polls is one single-read confirmation. */
  lemma {:induction false} EraseWaitReads(w: Wire, i: nat)
    requires i < EraseConfRetry
    ensures var o := EraseWait(w, i);
      && Quiet(w, o.wire)
      && 1 <= Count(Added(w, o.wire), DataRead) <= EraseConfRetry - i
    decreases EraseConfRetry - i
  {
    var c := CmdConf(w, 0);
    assert Quiet(w, c.wire) && Count(Added(w, c.wire), DataRead) == 1 by {
      CmdConfReads(w, 0);
    }
    var o := EraseWait(w, i);
    if c.r < 0 && i + 1 < EraseConfRetry {
      var rest := EraseWait(c.wire, i + 1);
      assert o == rest;
      EraseWaitReads(c.wire, i + 1);
      AddedSplit(w, c.wire, rest.wire);
      QuietTrans(w, c.wire, rest.wire);
      CountAppend(Added(w, c.wire), Added(c.wire, rest.wire), DataRead);
    } else if c.r < 0 {
      assert o == EraseWait(c.wire, i + 1) == Out(c.wire, -EIO);
    } else {
      assert o == Out(c.wire, 0);
    }
  }

  // ---------------------------------------------------------------------
  // Register handshakes

  /** The ready test of bootloader_read_data_reg refuses a reply only when
      both status bytes differ from the ready code: a reply with one of
      them right is accepted, its data bytes are taken and the transfer is
      acknowledged. */
  lemma ReadDataRegReadyTest(w: Wire, lo0: Byte, hi0: Byte)
    requires w.txReplies != [] && w.txReplies[0] == 2
    requires w.rxReplies != [] && w.rxReplies[0].count == 4 && |w.rxReplies[0].data| == 4
    ensures var d := w.rxReplies[0].data;
      var o := ReadDataReg(w, lo0, hi0);
      && (DataStatusRejected(ByteL(d[2]), ByteL(d[3])) ==>
            o.r == -EIO && o.lo == lo0 && o.hi == hi0 && o.wire.sent == w.sent + [DataRead])
      && (!DataStatusRejected(ByteL(d[2]), ByteL(d[3])) ==>
            && o.lo == ByteL(d[0]) && o.hi == ByteL(d[1])
            && o.wire.sent == w.sent + [DataRead, ByteFrame([StatusAddrL, StatusAddrH, RxTxCompleteL, RxTxCompleteH])])
  {
  }

  /** A status poll that still has an attempt left starts by sending its
      buffer. */
  lemma StatusPollFirstFrame(w: Wire, buf: seq<Byte>, L: Byte, H: Byte, i: nat)
    requires |buf| == 2 && i < RdStatusRetry
    ensures var o := StatusPoll(w, buf, L, H, i);
      |o.wire.sent| > |w.sent| && o.wire.sent[|w.sent|] == ByteFrame(buf)
  {
    var s := Send(w, ByteFrame(buf));
    StatusPollQuiet(w, buf, L, H, i);
    var o := StatusPoll(w, buf, L, H, i);
    if s.count == 2 {
      var rcv := Recv(s.wire, 2);
      if rcv.count == 2 {
        var b := Overwrite(buf, 0, LowBytes(rcv.data));
        if !(b[0] == L && b[1] == H) {
          StatusPollQuiet(rcv.wire, b, L, H, i + 1);
          assert o == StatusPoll(rcv.wire, b, L, H, i + 1);
          assert o.wire.sent[..|rcv.wire.sent|] == rcv.wire.sent;
          assert o.wire.sent[|w.sent|] == o.wire.sent[..|rcv.wire.sent|][|w.sent|];
        }
      }
    }
  }

  /** When a status read does not show the expected code, the next attempt
      transmits the two bytes just read as the register address: the read
      overwrote the address buffer. */
  lemma StatusRetrySendsBytesRead(w: Wire, L: Byte, H: Byte)
    requires w.txReplies != [] && w.txReplies[0] == 2
    requires w.rxReplies != [] && w.rxReplies[0].count == 2 && |w.rxReplies[0].data| == 2
    requires var d := w.rxReplies[0].data; !(ByteL(d[0]) == L && ByteL(d[1]) == H)
    ensures var d := w.rxReplies[0].data;
      var o := ReadStatusReg(w, L, H);
      && |o.wire.sent| >= |w.sent| + 2
      && o.wire.sent[|w.sent|] == ByteFrame([StatusAddrL, StatusAddrH])
      && o.wire.sent[|w.sent| + 1] == ByteFrame([ByteL(d[0]), ByteL(d[1])])
  {
    var d := w.rxReplies[0].data;
    var s := Send(w, ByteFrame([StatusAddrL, StatusAddrH]));
    var rcv := Recv(s.wire, 2);
    var b := Overwrite([StatusAddrL, StatusAddrH], 0, LowBytes(rcv.data));
    assert b == [ByteL(d[0]), ByteL(d[1])];
    var o := ReadStatusReg(w, L, H);
    assert o == StatusPoll(rcv.wire, b, L, H, 1);
    StatusPollFirstFrame(rcv.wire, b, L, H, 1);
    StatusPollQuiet(rcv.wire, b, L, H, 1);
    assert o.wire.sent[..|rcv.wire.sent|] == rcv.wire.sent;
    assert o.wire.sent[|w.sent|] == rcv.wire.sent[|w.sent|];
  }

  /** The fast-write command carries the length high byte first, while the
      CRC command carries its length low byte first. */
  lemma LengthByteOrder(addr: Word, len: Word)
    ensures FastWriteCommand(len)[2] == CrcCommand(addr, len)[5] == ByteH(len)
    ensures FastWriteCommand(len)[3] == CrcCommand(addr, len)[4] == ByteL(len)
  {
  }

  /** A successful bootloader_get_crc takes the CRC from two data-register
      reads after the command: the first read's low data byte is the low
      CRC byte, and the high CRC byte is again a low data byte, that of
      the second read (its high data byte is dropped). */
  lemma CrcFromLowDataBytes(w: Wire, addr: Word, len: Word)
    requires GetCrc(w, addr, len).r == 0
    ensures var wb := WriteBuffer(w, CrcCommand(addr, len));
      var r1 := ReadDataReg(wb.wire, 0, 0);
      var r2 := ReadDataReg(r1.wire, r1.lo, r1.hi);
      var crc := GetCrc(w, addr, len).crc;
      && wb.r >= 0 && r1.r >= 0 && r2.r >= 0
      && ByteL(crc) == r1.lo && ByteH(crc) == r2.lo
  {
    var wb := WriteBuffer(w, CrcCommand(addr, len));
    var r1 := ReadDataReg(wb.wire, 0, 0);
    var r2 := ReadDataReg(r1.wire, r1.lo, r1.hi);
    var crc := r2.lo * 0x100 + r1.lo;
    assert GetCrc(w, addr, len).crc == crc;
    assert ByteH(crc) == r2.lo;
  }

  // ---------------------------------------------------------------------
  // Flash writes

  /** A successful bootloader_write_flash sends the image as length / 128
      whole blocks, alternating between the two buffers, and nothing else
      as a flash block: the length % 128 trailing bytes are never sent. */
  lemma WriteFlashSendsWholeBlocks(w: Wire, image: seq<Byte>, length: Word)
    requires (length / WrBlkSize) * WrBlkSize <= |image|
    ensures var o := WriteFlash(w, image, length);
      o.r == 0 ==> Blocks(o.wire.sent) == Blocks(w.sent) + BlockRun(image, 0, length / WrBlkSize)
    ensures |BlockRun(image, 0, length / WrBlkSize)| == length / WrBlkSize
  {
    var wb := WriteBuffer(w, FastWriteCommand(length));
    WriteBufferFromQuiet(w, FastWriteCommand(length), 0);
    QuietKeepsBlocks(w, wb.wire);
    if wb.r >= 0 {
      var b := WriteBlocks(wb.wire, image, 0, length / WrBlkSize);
      if b.r >= 0 {
        CmdConfReads(b.wire, WrConfRetry);
        QuietKeepsBlocks(b.wire, CmdConf(b.wire, WrConfRetry).wire);
      }
    }
  }
}
