/** The bootloader register protocol (bootloader_* in the driver) as
    imperative code over the bus, each operation proved to do exactly what
    its counterpart in BootloaderSpec describes. */
module Bootloader {
  import opened Words
  import opened Transport
  import opened BootloaderSpec
  import Framing

  /** bootloader_read_status_reg. */
  method ReadStatusReg(bus: Bus, L: Byte, H: Byte) returns (r: int)
    modifies bus
    ensures Out(bus.State(), r) == BootloaderSpec.ReadStatusReg(old(bus.State()), L, H)
  {
    var buffer: seq<Byte> := [StatusAddrL, StatusAddrH];
    var i := 0;
    while i < RdStatusRetry
      invariant 0 <= i <= RdStatusRetry && |buffer| == 2
      invariant StatusPoll(bus.State(), buffer, L, H, i) == BootloaderSpec.ReadStatusReg(old(bus.State()), L, H)
    {
      var done;
      r, buffer, done := StatusAttempt(bus, buffer, L, H, i);
      if done {
        return r;
      }
      i := i + 1;
    }
    return -EIO;
  }

  /** One attempt of bootloader_read_status_reg: send the buffer, read two
      bytes into it, and stop when they are (L, H) or a transfer failed. */
  method StatusAttempt(bus: Bus, buffer: seq<Byte>, L: Byte, H: Byte, ghost i: nat)
    returns (r: int, next: seq<Byte>, done: bool)
    requires |buffer| == 2 && i < RdStatusRetry
    modifies bus
    ensures |next| == 2
    ensures done ==> Out(bus.State(), r) == StatusPoll(old(bus.State()), buffer, L, H, i)
    ensures !done ==> StatusPoll(bus.State(), next, L, H, i + 1) == StatusPoll(old(bus.State()), buffer, L, H, i)
  {
    next := buffer;
    var sentCount := bus.TxBytes(buffer);
    if sentCount != 2 {
      return -EIO, next, true;
    }
    var received, data := bus.Rx(2);
    if received != 2 {
      return -EIO, next, true;
    }
    next := Overwrite(buffer, 0, LowBytes(data));
    if next[0] == L && next[1] == H {
      return 0, next, true;
    }
    return -EIO, next, false;
  }

  /** bootloader_write_status_reg. */
  method WriteStatusReg(bus: Bus, L: Byte, H: Byte) returns (r: int)
    modifies bus
    ensures Out(bus.State(), r) == BootloaderSpec.WriteStatusReg(old(bus.State()), L, H)
  {
    var sentCount := bus.TxBytes([StatusAddrL, StatusAddrH, L, H]);
    r := if sentCount != 4 then -EIO else 0;
  }

  /** bootloader_rxtx_complete. */
  method RxTxComplete(bus: Bus) returns (r: int)
    modifies bus
    ensures Out(bus.State(), r) == BootloaderSpec.RxTxComplete(old(bus.State()))
  {
    r := WriteStatusReg(bus, RxTxCompleteL, RxTxCompleteH);
  }

  /** bootloader_read_data_reg; (lo0, hi0) are the values of the caller's
      variables before the call. */
  method ReadDataReg(bus: Bus, lo0: Byte, hi0: Byte) returns (r: int, lo: Byte, hi: Byte)
    modifies bus
    ensures ReadOut(bus.State(), r, lo, hi) == BootloaderSpec.ReadDataReg(old(bus.State()), lo0, hi0)
  {
    lo, hi := lo0, hi0;
    var sentCount := bus.TxBytes([DataAddrL, DataAddrH]);
    if sentCount != 2 {
      r := -EIO;
      return;
    }
    var received, data := bus.Rx(4);
    if received != 4 {
      r := -EIO;
      return;
    }
    var buffer := Overwrite([DataAddrL, DataAddrH, 0x00, 0x00], 0, LowBytes(data));
    if buffer[2] != StatusReadyL && buffer[3] != StatusReadyH {
      r := -EIO;
      return;
    }
    lo, hi := buffer[0], buffer[1];
    r := RxTxComplete(bus);
  }

  /** bootloader_write_data_reg. */
  method WriteDataReg(bus: Bus, L: Byte, H: Byte) returns (r: int)
    modifies bus
    ensures Out(bus.State(), r) == BootloaderSpec.WriteDataReg(old(bus.State()), L, H)
  {
    var st := ReadStatusReg(bus, StatusReadyL, StatusReadyH);
    if st < 0 {
      return -EIO;
    }
    var sentCount := bus.TxBytes([DataAddrL, DataAddrH, L, H, RxTxCompleteL, RxTxCompleteH]);
    r := if sentCount != 6 then -EIO else 0;
  }

  /** bootloader_rxtx. */
  method RxTx(bus: Bus, lo0: Byte, hi0: Byte, tx: int) returns (r: int, lo: Byte, hi: Byte)
    modifies bus
    ensures ReadOut(bus.State(), r, lo, hi) == BootloaderSpec.RxTx(old(bus.State()), lo0, hi0, tx)
  {
    lo, hi := lo0, hi0;
    if tx > 0 {
      var w := WriteDataReg(bus, lo, hi);
      r := if w < 0 then -EIO else 0;
      return;
    }
    var rd;
    rd, lo, hi := ReadDataReg(bus, lo, hi);
    r := if rd < 0 then -EIO else 0;
  }

  /** bootloader_get_cmd_conf: do { read; check } while (--retries > 0). */
  method CmdConf(bus: Bus, retries0: int) returns (r: int)
    modifies bus
    ensures Out(bus.State(), r) == BootloaderSpec.CmdConf(old(bus.State()), retries0)
  {
    var retries := retries0;
    while true
      invariant BootloaderSpec.CmdConf(bus.State(), retries) == BootloaderSpec.CmdConf(old(bus.State()), retries0)
      decreases if retries > 0 then retries else 0
    {
      var rd, byteL, byteH := ReadDataReg(bus, 0, 0);
      if rd >= 0 && byteH == DataReadyH && byteL == DataReadyL {
        return 0;
      }
      retries := retries - 1;
      if retries <= 0 {
        return -EIO;
      }
    }
  }

  /** bootloader_write_buffer. */
  method WriteBuffer(bus: Bus, buffer: seq<Byte>) returns (r: int)
    modifies bus
    ensures Out(bus.State(), r) == BootloaderSpec.WriteBuffer(old(bus.State()), buffer)
  {
    var k := 0;
    while k < |buffer|
      invariant 0 <= k <= |buffer|
      invariant WriteBufferFrom(bus.State(), buffer, k) == BootloaderSpec.WriteBuffer(old(bus.State()), buffer)
    {
      var rr, lo, hi := RxTx(bus, buffer[k], WrStartAddr, 1);
      if rr < 0 {
        return -EIO;
      }
      k := k + 1;
    }
    r := 0;
  }

  /** Send the 2-word magic sequences one after another; -EIO at the first
      one that does not go out whole. */
  method SendSequences(bus: Bus, seqs: seq<seq<Word>>) returns (r: int)
    requires forall i :: 0 <= i < |seqs| ==> |seqs[i]| == 2
    modifies bus
    ensures SendStep(bus.State(), r) == Framing.SendAll(old(bus.State()), seqs)
  {
    var i := 0;
    while i < |seqs|
      invariant 0 <= i <= |seqs|
      invariant Framing.SendAll(bus.State(), seqs[i..]) == Framing.SendAll(old(bus.State()), seqs)
    {
      var sentCount := bus.TxWords(seqs[i]);
      if sentCount != 2 {
        return -EIO;
      }
      i := i + 1;
    }
    r := 0;
  }

  /** bootloader_enter. */
  method Enter(bus: Bus) returns (r: int)
    modifies bus
    ensures Out(bus.State(), r) == BootloaderSpec.Enter(old(bus.State()))
  {
    var s := SendSequences(bus, EnterSeq);
    if s != 0 {
      return -EIO;
    }
    var c := CmdConf(bus, EnterConfRetry);
    r := if c < 0 then -EIO else 0;
  }

  /** bootloader_exit. */
  method Exit(bus: Bus) returns (r: int)
    modifies bus
    ensures Out(bus.State(), r) == BootloaderSpec.Exit(old(bus.State()))
  {
    r := SendSequences(bus, ExitSeq);
  }

  /** bootloader_get_crc; `crc` is meaningful only when r == 0. The device
      computation delay is not modelled. */
  method GetCrc(bus: Bus, addr: Word, len: Word) returns (r: int, crc: Word)
    modifies bus
    ensures CrcOut(bus.State(), r, crc) == BootloaderSpec.GetCrc(old(bus.State()), addr, len)
  {
    crc := 0;
    var wb := WriteBuffer(bus, [GetCrcL, GetCrcH, ByteL(addr), ByteH(addr), ByteL(len), ByteH(len)]);
    if wb < 0 {
      return -EIO, 0;
    }
    var byteL: Byte, byteH: Byte := 0, 0;
    var r1;
    r1, byteL, byteH := RxTx(bus, byteL, byteH, 0);
    if r1 < 0 {
      return -EIO, 0;
    }
    var rxCrc: Word := byteL;
    var r2;
    r2, byteL, byteH := RxTx(bus, byteL, byteH, 0);
    if r2 < 0 {
      return -EIO, 0;
    }
    rxCrc := byteL * 0x100 + rxCrc;
    var c := CmdConf(bus, CrcGetRetry);
    if c < 0 {
      return -EIO, 0;
    }
    r, crc := 0, rxCrc;
  }

  /** bootloader_set_byte_mode. */
  method SetByteMode(bus: Bus) returns (r: int)
    modifies bus
    ensures Out(bus.State(), r) == BootloaderSpec.SetByteMode(old(bus.State()))
  {
    var wb := WriteBuffer(bus, [SetByteModeL, SetByteModeH]);
    if wb < 0 {
      return -EIO;
    }
    var c := CmdConf(bus, 10);
    r := if c < 0 then -EIO else 0;
  }

  /** bootloader_erase_flash; the 60 ms pause before each poll is not
      modelled. */
  method EraseFlash(bus: Bus) returns (r: int)
    modifies bus
    ensures Out(bus.State(), r) == BootloaderSpec.EraseFlash(old(bus.State()))
  {
    var rr, lo, hi := RxTx(bus, EraseFlashL, EraseFlashH, 1);
    if rr < 0 {
      return -EIO;
    }
    ghost var afterCmd := bus.State();
    var verify := false;
    var i := 0;
    while i < EraseConfRetry
      invariant 0 <= i <= EraseConfRetry
      invariant EraseWait(bus.State(), i) == EraseWait(afterCmd, 0)
    {
      var c := CmdConf(bus, 0);
      if c >= 0 {
        verify := true;
        break;
      }
      i := i + 1;
    }
    r := if verify then 0 else -EIO;
  }

  /** The status wait before a block of bootloader_write_flash: up to 100
      status reads until one shows the ready code. */
  method WaitReady(bus: Bus) returns (r: int)
    modifies bus
    ensures Out(bus.State(), r) == ReadyPoll(old(bus.State()), 0)
  {
    var j := 0;
    while j < WrStatusRetry
      invariant 0 <= j <= WrStatusRetry
      invariant ReadyPoll(bus.State(), j) == ReadyPoll(old(bus.State()), 0)
    {
      var st := ReadStatusReg(bus, StatusReadyL, StatusReadyH);
      if st == 0 {
        return 0;
      }
      j := j + 1;
    }
    r := -EIO;
  }

  /** One iteration of the block loop of bootloader_write_flash: wait,
      send block i to its buffer, acknowledge. */
  method WriteBlock(bus: Bus, image: seq<Byte>, i: nat) returns (r: int)
    requires (i + 1) * WrBlkSize <= |image|
    modifies bus
    ensures Out(bus.State(), r) == BlockStep(old(bus.State()), image, i)
  {
    var p := WaitReady(bus);
    if p < 0 {
      return -EIO;
    }
    var buffer := [if i % 2 == 0 then WrDbuf0Addr else WrDbuf1Addr, 0x00]
                  + image[i * WrBlkSize .. (i + 1) * WrBlkSize];
    assert buffer == BlockFrame(image, i);
    var sentCount := bus.TxBytes(buffer);
    if sentCount != WrTxSize {
      return -EIO;
    }
    var c := RxTxComplete(bus);
    r := if c < 0 then -EIO else 0;
  }

  /** The block loop of bootloader_write_flash: blocks 0 .. n-1, stopping
      at the first failure. */
  method WriteBlocksFrom(bus: Bus, image: seq<Byte>, n: nat) returns (r: int)
    requires n * WrBlkSize <= |image|
    modifies bus
    ensures Out(bus.State(), r) == WriteBlocks(old(bus.State()), image, 0, n)
  {
    var i := 0;
    while i < n
      invariant 0 <= i <= n
      invariant WriteBlocks(bus.State(), image, i, n) == WriteBlocks(old(bus.State()), image, 0, n)
    {
      assert (i + 1) * WrBlkSize <= n * WrBlkSize;
      var b := WriteBlock(bus, image, i);
      if b < 0 {
        return -EIO;
      }
      i := i + 1;
    }
    r := 0;
  }

  /** bootloader_write_flash; the pauses between polls are not modelled. */
  method WriteFlash(bus: Bus, image: seq<Byte>, length: Word) returns (r: int)
    requires (length / WrBlkSize) * WrBlkSize <= |image|
    modifies bus
    ensures Out(bus.State(), r) == BootloaderSpec.WriteFlash(old(bus.State()), image, length)
  {
    var lengthL := length % 0x100;
    var lengthH := (length / 0x100) % 0x100;
    var command := [WrFastFlashL, WrFastFlashH, lengthH, lengthL, WrStartAddr];
    assert command == FastWriteCommand(length);
    var wb := WriteBuffer(bus, command);
    if wb < 0 {
      return -EIO;
    }
    var b := WriteBlocksFrom(bus, image, length / WrBlkSize);
    if b < 0 {
      return -EIO;
    }
    var conf := CmdConf(bus, WrConfRetry);
    r := if conf < 0 then -EIO else 0;
  }
}
