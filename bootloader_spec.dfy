/** What each bootloader register operation does to the bus: the frames it
    sends, the replies it consumes and the result it returns, written as
    functions of the transport value. The methods in module Bootloader are
    proved to behave exactly like these functions. */
module BootloaderSpec {
  import opened Words
  import opened Transport
  import opened FrameLog
  import Framing

  const StatusAddrL := 0xFF
  const StatusAddrH := 0x00
  const DataAddrL := 0xFE
  const DataAddrH := 0x00
  const StatusReadyH := 0xAB
  const StatusReadyL := 0xCC
  const DataReadyH := 0x00
  const DataReadyL := 0x3E
  const RxTxCompleteH := 0x54
  const RxTxCompleteL := 0x32
  const EnterSeqL := 0x7F00
  const ExitSeqL := 0x7F00
  const EnterConfRetry := 5
  const SetByteModeL := 0x0A
  const SetByteModeH := 0x00
  const EraseConfRetry := 10
  const EraseFlashL := 0x02
  const EraseFlashH := 0x00
  const RdStatusRetry := 3
  const WrFastFlashL := 0xF0
  const WrFastFlashH := 0x00
  const WrStartAddr := 0x00
  const WrDbuf0Addr := 0x00
  const WrDbuf1Addr := 0x40
  const WrBlkSize := 128
  const WrTxSize := 130
  const WrStatusRetry := 100
  const WrConfRetry := 5
  const GetCrcL := 0x30
  const GetCrcH := 0x02
  const CrcGetRetry := 5

  /** The three 2-word magic sequences that switch the chip into, and out
      of, its bootloader. */
  const EnterSeq: seq<seq<Word>> := [[EnterSeqL, 0x0047], [EnterSeqL, 0x00C7], [EnterSeqL, 0x0007]]
  const ExitSeq: seq<seq<Word>> := [[ExitSeqL, 0x0040], [ExitSeqL, 0x00C0], [ExitSeqL, 0x0000]]

  datatype Out = Out(wire: Wire, r: int)
  /** Result of a data-register read: the two data bytes, as left in the
      caller's variables. */
  datatype ReadOut = ReadOut(wire: Wire, r: int, lo: Byte, hi: Byte)
  /** Result of a CRC read; `crc` is meaningful only when r == 0. */
  datatype CrcOut = CrcOut(wire: Wire, r: int, crc: Word)

  /** bootloader_read_status_reg from attempt i on; `buf` is the 2-byte
      buffer, which holds the register address at first and, after a read,
      the bytes read (which are what the next attempt transmits). */
  function StatusPoll(w: Wire, buf: seq<Byte>, L: Byte, H: Byte, i: nat): (o: Out)
    requires |buf| == 2
    ensures o.r == 0 || o.r == -EIO
    decreases RdStatusRetry - i
  {
    if i >= RdStatusRetry then Out(w, -EIO)
    else
      var s := Send(w, ByteFrame(buf));
      if s.count != 2 then Out(s.wire, -EIO)
      else
        var rcv := Recv(s.wire, 2);
        if rcv.count != 2 then Out(rcv.wire, -EIO)
        else
          var b := Overwrite(buf, 0, LowBytes(rcv.data));
          if b[0] == L && b[1] == H then Out(rcv.wire, 0)
          else StatusPoll(rcv.wire, b, L, H, i + 1)
  }

  /** bootloader_read_status_reg: poll the status register (at most three
      times) until it reads (L, H). */
  function ReadStatusReg(w: Wire, L: Byte, H: Byte): (o: Out)
    ensures o.r == 0 || o.r == -EIO
  {
    StatusPoll(w, [StatusAddrL, StatusAddrH], L, H, 0)
  }

  /** bootloader_write_status_reg. */
  function WriteStatusReg(w: Wire, L: Byte, H: Byte): (o: Out)
    ensures o.r == 0 || o.r == -EIO
  {
    var s := Send(w, ByteFrame([StatusAddrL, StatusAddrH, L, H]));
    Out(s.wire, if s.count != 4 then -EIO else 0)
  }

  /** bootloader_rxtx_complete: acknowledge a transfer. */
  function RxTxComplete(w: Wire): (o: Out)
    ensures o.r == 0 || o.r == -EIO
  {
    WriteStatusReg(w, RxTxCompleteL, RxTxCompleteH)
  }

  /** The ready test of bootloader_read_data_reg: it rejects the status
      bytes only when BOTH differ from the ready code. */
  predicate DataStatusRejected(b2: Byte, b3: Byte)
  {
    b2 != StatusReadyL && b3 != StatusReadyH
  }

  /** bootloader_read_data_reg; (lo0, hi0) are the caller's variables, left
      alone when the read fails before they are written. */
  function ReadDataReg(w: Wire, lo0: Byte, hi0: Byte): (o: ReadOut)
    ensures o.r == 0 || o.r == -EIO
  {
    var s := Send(w, ByteFrame([DataAddrL, DataAddrH]));
    if s.count != 2 then ReadOut(s.wire, -EIO, lo0, hi0)
    else
      var rcv := Recv(s.wire, 4);
      if rcv.count != 4 then ReadOut(rcv.wire, -EIO, lo0, hi0)
      else
        var b := Overwrite([DataAddrL, DataAddrH, 0x00, 0x00], 0, LowBytes(rcv.data));
        if DataStatusRejected(b[2], b[3]) then ReadOut(rcv.wire, -EIO, lo0, hi0)
        else
          var c := RxTxComplete(rcv.wire);
          ReadOut(c.wire, c.r, b[0], b[1])
  }

  /** bootloader_write_data_reg: wait for the ready status, then write the
      two data bytes followed by the transfer-complete code. */
  function WriteDataReg(w: Wire, L: Byte, H: Byte): (o: Out)
    ensures o.r == 0 || o.r == -EIO
  {
    var st := ReadStatusReg(w, StatusReadyL, StatusReadyH);
    if st.r < 0 then Out(st.wire, -EIO)
    else
      var s := Send(st.wire, ByteFrame([DataAddrL, DataAddrH, L, H, RxTxCompleteL, RxTxCompleteH]));
      Out(s.wire, if s.count != 6 then -EIO else 0)
  }

  /** bootloader_rxtx: a data-register write when tx > 0, else a read. */
  function RxTx(w: Wire, lo: Byte, hi: Byte, tx: int): (o: ReadOut)
    ensures o.r == 0 || o.r == -EIO
  {
    if tx > 0 then
      var o := WriteDataReg(w, lo, hi);
      ReadOut(o.wire, if o.r < 0 then -EIO else 0, lo, hi)
    else
      var o := ReadDataReg(w, lo, hi);
      ReadOut(o.wire, if o.r < 0 then -EIO else 0, o.lo, o.hi)
  }

  /** bootloader_get_cmd_conf: a do-while loop reading the data register
      until it holds the data-ready code. */
  function CmdConf(w: Wire, retries: int): (o: Out)
    ensures o.r == 0 || o.r == -EIO
    decreases if retries > 0 then retries else 0
  {
    var o := ReadDataReg(w, 0, 0);
    if o.r >= 0 && o.hi == DataReadyH && o.lo == DataReadyL then Out(o.wire, 0)
    else if retries - 1 > 0 then CmdConf(o.wire, retries - 1)
    else Out(o.wire, -EIO)
  }

  /** bootloader_write_buffer from byte k on: each byte goes out as a
      data-register write with high byte 0x00. */
  function WriteBufferFrom(w: Wire, bytes: seq<Byte>, k: nat): (o: Out)
    requires k <= |bytes|
    ensures o.r == 0 || o.r == -EIO
    decreases |bytes| - k
  {
    if k == |bytes| then Out(w, 0)
    else
      var o := RxTx(w, bytes[k], WrStartAddr, 1);
      if o.r < 0 then Out(o.wire, -EIO)
      else WriteBufferFrom(o.wire, bytes, k + 1)
  }

  function WriteBuffer(w: Wire, bytes: seq<Byte>): (o: Out)
    ensures o.r == 0 || o.r == -EIO
  {
    WriteBufferFrom(w, bytes, 0)
  }

  /** bootloader_enter: the three enter sequences, then a confirmation with
      5 retries. */
  function Enter(w: Wire): (o: Out)
    ensures o.r == 0 || o.r == -EIO
  {
    var s := Framing.SendAll(w, EnterSeq);
    if s.count != 0 then Out(s.wire, -EIO)
    else
      var c := CmdConf(s.wire, EnterConfRetry);
      Out(c.wire, if c.r < 0 then -EIO else 0)
  }

  /** bootloader_exit: the three exit sequences. */
  function Exit(w: Wire): (o: Out)
    ensures o.r == 0 || o.r == -EIO
  {
    var s := Framing.SendAll(w, ExitSeq);
    Out(s.wire, s.count)
  }

  /** The CRC command bytes: address and length, each low byte first. */
  function CrcCommand(addr: Word, len: Word): seq<Byte>
  {
    [GetCrcL, GetCrcH, ByteL(addr), ByteH(addr), ByteL(len), ByteH(len)]
  }

  /** bootloader_get_crc: send the CRC command, read the low then the high
      CRC byte (each from the low data byte of a read), confirm. */
  function GetCrc(w: Wire, addr: Word, len: Word): (o: CrcOut)
    ensures o.r == 0 || o.r == -EIO
  {
    var wb := WriteBuffer(w, CrcCommand(addr, len));
    if wb.r < 0 then CrcOut(wb.wire, -EIO, 0)
    else
      var r1 := RxTx(wb.wire, 0, 0, 0);
      if r1.r < 0 then CrcOut(r1.wire, -EIO, 0)
      else
        var r2 := RxTx(r1.wire, r1.lo, r1.hi, 0);
        if r2.r < 0 then CrcOut(r2.wire, -EIO, 0)
        else
          var crc := r2.lo * 0x100 + r1.lo;
          var c := CmdConf(r2.wire, CrcGetRetry);
          if c.r < 0 then CrcOut(c.wire, -EIO, 0) else CrcOut(c.wire, 0, crc)
  }

  /** bootloader_set_byte_mode. */
  function SetByteMode(w: Wire): (o: Out)
    ensures o.r == 0 || o.r == -EIO
  {
    var wb := WriteBuffer(w, [SetByteModeL, SetByteModeH]);
    if wb.r < 0 then Out(wb.wire, -EIO)
    else
      var c := CmdConf(wb.wire, 10);
      Out(c.wire, if c.r < 0 then -EIO else 0)
  }

  /** The confirmation loop of bootloader_erase_flash from poll i on: each
      poll is one data-register read (retries 0). */
  function EraseWait(w: Wire, i: nat): (o: Out)
    ensures o.r == 0 || o.r == -EIO
    decreases EraseConfRetry - i
  {
    if i >= EraseConfRetry then Out(w, -EIO)
    else
      var c := CmdConf(w, 0);
      if c.r < 0 then EraseWait(c.wire, i + 1) else Out(c.wire, 0)
  }

  /** bootloader_erase_flash. */
  function EraseFlash(w: Wire): (o: Out)
    ensures o.r == 0 || o.r == -EIO
  {
    var t := RxTx(w, EraseFlashL, EraseFlashH, 1);
    if t.r < 0 then Out(t.wire, -EIO) else EraseWait(t.wire, 0)
  }

  /** The fast-write command: length HIGH byte first, then low byte. */
  function FastWriteCommand(length: Word): seq<Byte>
  {
    [WrFastFlashL, WrFastFlashH, ByteH(length), ByteL(length), WrStartAddr]
  }

  /** The 130-byte frame of block i: double-buffer address, 0x00, 128 bytes. */
  function BlockFrame(image: seq<Byte>, i: nat): seq<Byte>
    requires (i + 1) * WrBlkSize <= |image|
  {
    [if i % 2 == 0 then WrDbuf0Addr else WrDbuf1Addr, 0x00] + image[i * WrBlkSize .. (i + 1) * WrBlkSize]
  }

  /** The status wait before a block, from attempt j on (at most 100). */
  function ReadyPoll(w: Wire, j: nat): (o: Out)
    ensures o.r == 0 || o.r == -EIO
    decreases WrStatusRetry - j
  {
    if j >= WrStatusRetry then Out(w, -EIO)
    else
      var st := ReadStatusReg(w, StatusReadyL, StatusReadyH);
      if st.r == 0 then Out(st.wire, 0) else ReadyPoll(st.wire, j + 1)
  }

  /** A status poll sends only its 2-byte address frames: no flash block. */
  lemma {:induction false} StatusPollQuiet(w: Wire, buf: seq<Byte>, L: Byte, H: Byte, i: nat)
    requires |buf| == 2
    ensures Quiet(w, StatusPoll(w, buf, L, H, i).wire)
    decreases RdStatusRetry - i
  {
    if i >= RdStatusRetry {
      QuietRefl(w, w);
    } else {
      var s := Send(w, ByteFrame(buf));
      SendQuiet(w, ByteFrame(buf));
      if s.count == 2 {
        var rcv := Recv(s.wire, 2);
        QuietRefl(s.wire, rcv.wire);
        QuietTrans(w, s.wire, rcv.wire);
        if rcv.count == 2 {
          var b := Overwrite(buf, 0, LowBytes(rcv.data));
          if !(b[0] == L && b[1] == H) {
            StatusPollQuiet(rcv.wire, b, L, H, i + 1);
            QuietTrans(w, rcv.wire, StatusPoll(rcv.wire, b, L, H, i + 1).wire);
          }
        }
      }
    }
  }

  /** The ready wait sends no flash block. */
  lemma {:induction false} ReadyPollQuiet(w: Wire, j: nat)
    ensures Quiet(w, ReadyPoll(w, j).wire)
    decreases WrStatusRetry - j
  {
    if j >= WrStatusRetry {
      QuietRefl(w, w);
    } else {
      var st := ReadStatusReg(w, StatusReadyL, StatusReadyH);
      StatusPollQuiet(w, [StatusAddrL, StatusAddrH], StatusReadyL, StatusReadyH, 0);
      if st.r != 0 {
        ReadyPollQuiet(st.wire, j + 1);
        QuietTrans(w, st.wire, ReadyPoll(st.wire, j + 1).wire);
      }
    }
  }

  /** One iteration of the block loop: wait for the ready status, send
      block i, acknowledge. */
  function BlockStep(w: Wire, image: seq<Byte>, i: nat): (o: Out)
    requires (i + 1) * WrBlkSize <= |image|
  {
    var p := ReadyPoll(w, 0);
    if p.r < 0 then Out(p.wire, -EIO)
    else
      var s := Send(p.wire, ByteFrame(BlockFrame(image, i)));
      if s.count != WrTxSize then Out(s.wire, -EIO)
      else
        var c := RxTxComplete(s.wire);
        if c.r < 0 then Out(c.wire, -EIO) else Out(c.wire, 0)
  }

  /** A successful iteration adds block i, and only it, to the log's
      blocks; a failed one reports -EIO. */
  lemma BlockStepAddsBlock(w: Wire, image: seq<Byte>, i: nat)
    requires (i + 1) * WrBlkSize <= |image|
    ensures BlockStep(w, image, i).r == 0 || BlockStep(w, image, i).r == -EIO
    ensures BlockStep(w, image, i).r == 0 ==>
      Blocks(BlockStep(w, image, i).wire.sent) == Blocks(w.sent) + [BlockFrame(image, i)]
  {
    var p := ReadyPoll(w, 0);
    ReadyPollQuiet(w, 0);
    QuietKeepsBlocks(w, p.wire);
    if p.r >= 0 {
      var f := ByteFrame(BlockFrame(image, i));
      var s := Send(p.wire, f);
      if s.count == WrTxSize {
        SentBlock(p.wire, f);
        var b := ByteFrame([StatusAddrL, StatusAddrH, RxTxCompleteL, RxTxCompleteH]);
        SendQuiet(s.wire, b);
        QuietKeepsBlocks(s.wire, RxTxComplete(s.wire).wire);
      }
    }
  }

  /** The frames of blocks i up to n of the image, in order. */
  function BlockRun(image: seq<Byte>, i: nat, n: nat): (run: seq<seq<Byte>>)
    requires n * WrBlkSize <= |image|
    ensures |run| == if i <= n then n - i else 0
    decreases n - i
  {
    if i >= n then [] else [BlockFrame(image, i)] + BlockRun(image, i + 1, n)
  }

  /** The block loop of bootloader_write_flash from block i on. When it
      succeeds it has added to the log's flash blocks exactly the frames of
      blocks i up to n, in order. */
  function WriteBlocks(w: Wire, image: seq<Byte>, i: nat, n: nat): (o: Out)
    requires n * WrBlkSize <= |image|
    ensures o.r == 0 || o.r == -EIO
    ensures o.r == 0 ==> Blocks(o.wire.sent) == Blocks(w.sent) + BlockRun(image, i, n)
    decreases n - i
  {
    if i >= n then Out(w, 0)
    else
      var b := BlockStep(w, image, i);
      BlockStepAddsBlock(w, image, i);
      if b.r != 0 then b else WriteBlocks(b.wire, image, i + 1, n)
  }

  /** bootloader_write_flash: command, then length >> 7 whole blocks, then a
      confirmation with 5 retries. */
  function WriteFlash(w: Wire, image: seq<Byte>, length: Word): (o: Out)
    requires (length / WrBlkSize) * WrBlkSize <= |image|
    ensures o.r == 0 || o.r == -EIO
  {
    var wb := WriteBuffer(w, FastWriteCommand(length));
    if wb.r < 0 then Out(wb.wire, -EIO)
    else
      var b := WriteBlocks(wb.wire, image, 0, length / WrBlkSize);
      if b.r < 0 then Out(b.wire, -EIO)
      else
        var c := CmdConf(b.wire, WrConfRetry);
        Out(c.wire, if c.r < 0 then -EIO else 0)
  }
}
