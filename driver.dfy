/** The driver's own state (struct data, with the static packet counter of
    combine_multipacketreport as a field) and the operations that update it
    in place. Each method is tied to the function that specifies it in the
    modules Framing, PacketRead, Reassembly, Correlator, Readers, Exchange
    and Fingers, where the properties are proved; the methods state that
    the new state is that function of the old one and that nothing outside
    their frame moves. */
module Driver {
  import opened Words
  import opened Transport
  import Framing
  import PacketRead
  import opened Reassembly
  import opened Correlator
  import Readers
  import Exchange
  import Fingers
  import FirmwareSpec

  /** memcpy of `src` into `a` at word `at`. */
  method CopyIn(a: array<Word>, at: nat, src: seq<Word>)
    requires at + |src| <= a.Length
    modifies a
    ensures a[..] == Overwrite(old(a[..]), at, src)
  {
    var i := 0;
    while i < |src|
      invariant 0 <= i <= |src|
      invariant forall k :: 0 <= k < at ==> a[k] == old(a[k])
      invariant forall k :: 0 <= k < i ==> a[at + k] == src[k]
      invariant forall k :: at + i <= k < a.Length ==> a[k] == old(a[k])
    {
      a[at + i] := src[i];
      i := i + 1;
    }
  }

  class Controller {
    const bus: Bus

    /** rx_packet: the packet last read, header included. */
    const rxPacket: array<Word>
    /** rx_report, rx_report_len and the static packet_seq_combined. */
    const rxReport: array<Word>
    var rxReportLen: Word
    var packetSeqCombined: Word
    var isRawMode: bool

    /** cmd_buf and cmd_len. */
    const cmdBuf: array<Word>
    var cmdLen: Word

    /** The rbcmd fields and the semaphore sema_rbcmd. */
    var rbcmdWaiting: bool
    var rbcmdReceived: bool
    var rbcmdReportId: Word
    const rbcmdRxReport: array<Word>
    var rbcmdRxReportLen: Word
    var semaRbcmd: nat

    /** The reader table, report_readers_outstanding and report_sem. */
    const readers: array<Readers.Reader>
    var outstanding: Byte
    var reportSem: nat

    var chipId: Word
    var configId: Word

    /** The finger-id masks as sets of ids, used_tools, the frame counter
        and the log of input events. */
    var listFingerIds: set<nat>
    var listToolIds: set<nat>
    var currFingerIds: set<nat>
    var currToolIds: set<nat>
    var usedTools: nat
    var framecounter: Word
    ghost var events: seq<Fingers.Event>

    /** The buffers have the sizes of struct data and are distinct. */
    ghost predicate Valid()
    {
      && rxPacket.Length == PacketBufLen
      && rxReport.Length == RptLenMax
      && rbcmdRxReport.Length == RptLenMax
      && cmdBuf.Length == Framing.CmdLenMax
      && readers.Length == Readers.ReadersMax
      && rxPacket != rxReport && rxPacket != rbcmdRxReport && rxReport != rbcmdRxReport
      && cmdBuf != rxPacket && cmdBuf != rxReport && cmdBuf != rbcmdRxReport
    }

    /** The report being assembled. */
    ghost function Report(): Assembly
      reads this`rxReportLen, this`packetSeqCombined, rxReport
    {
      Assembly(rxReport[..], rxReportLen, packetSeqCombined)
    }

    /** The rbcmd fields. */
    ghost function Waiter(): Rbcmd
      reads this`rbcmdWaiting, this`rbcmdReceived, this`rbcmdReportId, this`rbcmdRxReportLen, rbcmdRxReport
    {
      Rbcmd(rbcmdWaiting, rbcmdReceived, rbcmdReportId, rbcmdRxReport[..], rbcmdRxReportLen)
    }

    /** The reader table with its counters. */
    ghost function Table(): Readers.Hub
      reads this`outstanding, this`reportSem, readers
    {
      Readers.Hub(readers[..], outstanding, reportSem)
    }

    /** What propagate_report works on. */
    ghost function Shared(): Readers.State
      reads this`rxReportLen, this`packetSeqCombined, rxReport
      reads this`rbcmdWaiting, this`rbcmdReceived, this`rbcmdReportId, this`rbcmdRxReportLen, rbcmdRxReport
      reads this`outstanding, this`reportSem, readers
    {
      Readers.State(Report(), Waiter(), Table())
    }

    /** The finger bookkeeping. */
    ghost function Touches(): Fingers.Ids
      reads this`listFingerIds, this`listToolIds, this`currFingerIds, this`currToolIds
      reads this`usedTools, this`framecounter, this`events
    {
      Fingers.Ids(listFingerIds, listToolIds, currFingerIds, currToolIds, usedTools, framecounter, events)
    }

    /** The state after probe: buffers cleared, no reader, both semaphores
        at 1, no touch. */
    constructor (b: Bus)
      ensures Valid() && bus == b
      ensures fresh(rxPacket) && fresh(rxReport) && fresh(rbcmdRxReport) && fresh(cmdBuf) && fresh(readers)
      ensures forall k :: 0 <= k < Readers.ReadersMax ==> readers[k].reportId == 0
      ensures reportSem == 1 && semaRbcmd == 1 && outstanding == 0
      ensures !rbcmdWaiting && !isRawMode
      ensures listFingerIds == {} && listToolIds == {} && events == []
    {
      bus := b;
      rxPacket := new Word[PacketBufLen](_ => 0);
      rxReport := new Word[RptLenMax](_ => 0);
      rbcmdRxReport := new Word[RptLenMax](_ => 0);
      cmdBuf := new Word[Framing.CmdLenMax](_ => 0);
      readers := new Readers.Reader[Readers.ReadersMax](_ => Readers.Reader(0, 0, 0, 0));
      rxReportLen, packetSeqCombined, isRawMode, cmdLen := 0, 0, false, 0;
      rbcmdWaiting, rbcmdReceived, rbcmdReportId, rbcmdRxReportLen, semaRbcmd := false, false, 0, 0, 1;
      outstanding, reportSem := 0, 1;
      chipId, configId := 0, 0;
      listFingerIds, listToolIds, currFingerIds, currToolIds := {}, {}, {}, {};
      usedTools, framecounter, events := 0, 0, [];
    }

    // -------------------------------------------------------------------
    // Packets and reports

    /** read_mtp_report into rx_packet; `window` is the platform's
        i2c_words. */
    method ReadMtpReport(window: Word) returns (r: int)
      requires Valid() && window <= PacketBufLen
      modifies bus, rxPacket, this`isRawMode
      ensures PacketRead.PacketOut(bus.State(), r, rxPacket[..], isRawMode)
              == PacketRead.ReadMtpReport(old(bus.State()), old(rxPacket[..]), old(isRawMode), window)
    {
      var raw := isRawMode;
      ghost var w0, buf0 := bus.State(), rxPacket[..];
      var n := bus.TxWords([PacketRead.RptStartAddr]);
      ghost var a := Send(w0, PacketRead.AddressFrame(PacketRead.RptStartAddr));
      assert SendStep(bus.State(), n) == a;
      if n != 1 {
        assert PacketRead.ReadMtpReport(w0, buf0, raw, window) == PacketRead.PacketOut(a.wire, -EIO, buf0, raw);
        assert bus.State() == a.wire && rxPacket[..] == buf0 && isRawMode == raw;
        return -EIO;
      }
      var want := if !raw then PacketRead.RptHdrAndIdLen else window;
      var data;
      n, data := bus.Rx(want);
      ghost var h := Recv(a.wire, want);
      assert RecvStep(bus.State(), n, data) == h;
      CopyIn(rxPacket, 0, data);
      ghost var b := rxPacket[..];
      assert b == Overwrite(buf0, 0, h.data);
      if n != want || ByteL(rxPacket[0]) > RptLenPacketMax {
        assert PacketRead.BadHeader(h.count, want, b);
        assert PacketRead.ReadMtpReport(w0, buf0, raw, window) == PacketRead.PacketOut(h.wire, -EIO, b, raw);
        assert bus.State() == h.wire && rxPacket[..] == b && isRawMode == raw;
        return -EIO;
      }
      var first := LoNibble(ByteH(rxPacket[0])) == PacketRead.FirstPacket;
      if !raw && first && rxPacket[1] == RawImageId {
        isRawMode := true;
      } else if raw && first && rxPacket[1] != RawImageId {
        isRawMode := false;
      }
      var words := ByteL(rxPacket[0]) + PacketRead.RptPktHdrLen;
      assert words == PacketRead.PacketWords(b);
      var offset := if raw then PacketRead.RawOffset(words, window) else 0;
      var remainder := words - offset;
      assert isRawMode == PacketRead.Latch(raw, b);
      assert bus.State() == h.wire && rxPacket[..] == b;
      PacketRead.AcceptedHeader(w0, buf0, raw, window, h, b, isRawMode, offset, remainder);
      r := ReadAt(offset, remainder);
    }

    /** The second read of read_mtp_report, common to both modes: set the
        address `offset` words past the report start and read `count`
        words into rx_packet at `offset`. */
    method ReadAt(offset: nat, count: nat) returns (r: int)
      requires Valid() && offset + count <= PacketBufLen
      modifies bus, rxPacket
      ensures PacketRead.PacketOut(bus.State(), r, rxPacket[..], isRawMode)
              == PacketRead.ReadAt(old(bus.State()), old(rxPacket[..]), isRawMode, offset, count)
    {
      var n := bus.TxWords([PacketRead.RptStartAddr + offset]);
      if n != 1 {
        return -EIO;
      }
      var data;
      n, data := bus.Rx(count);
      CopyIn(rxPacket, offset, data);
      r := if n != count then -EIO else 0;
    }

    /** combine_multipacketreport on the packet in rx_packet. */
    method Combine() returns (r: int)
      requires Valid() && IsPacket(rxPacket[..]) && Fits(Report(), rxPacket[..])
      modifies rxReport, this`rxReportLen, this`packetSeqCombined
      ensures Combined(Report(), r) == Reassembly.Combine(old(Report()), rxPacket[..])
    {
      ghost var a0, p := Report(), rxPacket[..];
      ghost var c := Reassembly.Combine(a0, p);
      var header := rxPacket[0];
      var seqNum := ByteH(header);
      var size := ByteL(header);
      if seqNum == OnePacketRpt {
        CopyIn(rxReport, 0, rxPacket[..size + 1]);
        rxReportLen := size;
        packetSeqCombined := 1;
        assert Report() == c.a;
        return 0;
      }
      var total := HiNibble(seqNum);
      var n := LoNibble(seqNum);
      if n == 1 {
        if rxPacket[1] == RawImageId {
          rxReportLen := U16(rxPacket[2] as int + 2);
          packetSeqCombined := 1;
          CopyIn(rxReport, 0, rxPacket[..size + 1]);
          assert Report() == c.a;
          return -EAGAIN;
        } else {
          return -EIO;
        }
      } else if n == packetSeqCombined + 1 {
        packetSeqCombined := U16(packetSeqCombined + 1);
        var offset := (n - 1) * WordsPerPacket + 1;
        assert offset == Reassembly.FragmentOffset(n) && Reassembly.InOrder(a0, p);
        CopyIn(rxReport, offset, rxPacket[1..size + 1]);
        assert rxReport[..] == Overwrite(a0.report, offset, p[1..size + 1]);
        assert c.a == Assembly(rxReport[..], a0.len, packetSeqCombined);
        return if total == n then 0 else -EIO;
      }
      return -EIO;
    }

    /** process_rbcmd on the report in rx_report. */
    method ProcessRbcmd()
      requires Valid() && CopyFits(Waiter(), Report())
      modifies rbcmdRxReport, this`rbcmdReceived, this`rbcmdRxReportLen
      ensures Waiter() == Correlator.ProcessRbcmd(old(Waiter()), Report())
    {
      if !rbcmdWaiting {
        return;
      }
      if rbcmdReportId != rxReport[1] {
        return;
      }
      rbcmdReceived := true;
      CopyIn(rbcmdRxReport, 0, rxReport[..rxReportLen + 1]);
      rbcmdRxReportLen := rxReportLen;
    }

    // -------------------------------------------------------------------
    // The report hub

    /** The packet propagate_report is given: rx_packet, or none. */
    ghost function Offered(withPacket: bool): Option<seq<Word>>
      reads rxPacket
    {
      if withPacket then Some(rxPacket[..]) else None
    }

    /** propagate_report with `status`, and with rx_packet as the packet
        when `withPacket` holds. down() on report_sem needs it positive. */
    method PropagateReport(status: int, withPacket: bool)
      requires Valid() && Readers.Ready(Shared()) && Readers.PropagateFits(Shared(), Offered(withPacket))
      modifies rxReport, this`rxReportLen, this`packetSeqCombined
      modifies rbcmdRxReport, this`rbcmdReceived, this`rbcmdRxReportLen
      modifies readers, this`outstanding, this`reportSem
      ensures Shared() == Readers.Propagate(old(Shared()), status, Offered(withPacket))
    {
      reportSem := reportSem - 1;
      if withPacket {
        var ret := Combine();
        if ret != 0 {
          reportSem := reportSem + 1;
          return;
        }
      }
      ProcessRbcmd();
      SignalReaders(status);
    }

    /** The loop of propagate_report over the reader table and the gate
        test after it, for the report in rx_report. */
    method SignalReaders(status: int)
      requires Valid()
      modifies readers, this`outstanding, this`reportSem
      ensures Table() == Readers.Deliver(old(Table()), status, rxReport[1])
    {
      SignalEach(status, rxReport[1]);
      if outstanding == 0 {
        reportSem := reportSem + 1;
      }
    }

    /** The loop over the reader table: each reader waiting for `rxId`
        (or for any report) is signalled and counted as outstanding; on an
        error status every registered reader gets the status. */
    method SignalEach(status: int, rxId: Word)
      requires Valid()
      modifies readers, this`outstanding
      ensures readers[..] == Readers.SignalAll(old(readers[..]), status, rxId)
      ensures outstanding == if status == 0 then U8(old(outstanding) + Readers.Signals(old(readers[..]), status, rxId))
                             else old(outstanding)
    {
      ghost var rs := readers[..];
      var i := 0;
      while i < Readers.ReadersMax
        invariant 0 <= i <= Readers.ReadersMax
        invariant forall k :: 0 <= k < i ==> readers[k] == Readers.Signal(rs[k], status, rxId)
        invariant forall k :: i <= k < Readers.ReadersMax ==> readers[k] == rs[k]
        invariant outstanding == if status == 0 then U8(old(outstanding) + Readers.Signals(rs[..i], status, rxId))
                                 else old(outstanding)
      {
        var rd := readers[i];
        ghost var before := outstanding;
        if status == 0 {
          if rd.reportId == Readers.AnyReport || (rxId != 0 && rd.reportId == rxId) {
            readers[i] := rd.(sem := rd.sem + 1, reportsPassed := U16(rd.reportsPassed + 1));
            outstanding := U8(outstanding + 1);
          }
        } else if rd.reportId != 0 {
          readers[i] := rd.(status := status, sem := rd.sem + 1);
        }
        assert readers[i] == Readers.Signal(rs[i], status, rxId);
        SignalsStep(rs, i, status, rxId);
        if status == 0 {
          ByteStep(old(outstanding) + Readers.Signals(rs[..i], status, rxId), before, outstanding);
        }
        i := i + 1;
      }
      assert rs[..i] == rs;
      assert readers[..] == Readers.SignalAll(rs, status, rxId);
    }

    /** The first half of get_report: claim the first free slot for
        `reportId`; its semaphore is initialised to 1 and taken at once. */
    method RegisterReader(reportId: Word) returns (r: int, slot: nat)
      requires Valid()
      modifies readers
      ensures Readers.Registered(Table(), r, slot) == Readers.Register(old(Table()), reportId)
    {
      var i := 0;
      while i < Readers.ReadersMax && readers[i].reportId != 0
        invariant 0 <= i <= Readers.ReadersMax
        invariant forall k :: 0 <= k < i ==> readers[k].reportId != 0
      {
        i := i + 1;
      }
      assert i == Readers.FirstFree(readers[..]) by {
        FirstFreeIs(readers[..], i);
      }
      if i == Readers.ReadersMax {
        return -EBUSY, i;
      }
      readers[i] := Readers.Reader(reportId, 0, 0, 0);
      return 0, i;
    }

    /** The second half of get_report, once the wait on the slot's
        semaphore returned `waitResult`. */
    method CompleteReport(slot: nat, waitResult: int) returns (r: int)
      requires Valid() && slot < Readers.ReadersMax
      requires waitResult == 0 ==> readers[slot].sem > 0
      modifies readers, this`outstanding, this`reportSem
      ensures Readers.Completed(Table(), r) == Readers.Complete(old(Table()), slot, waitResult)
    {
      if waitResult == 0 {
        readers[slot] := readers[slot].(sem := readers[slot].sem - 1);
      }
      if waitResult != 0 && readers[slot].reportsPassed > 0 {
        outstanding := U8(outstanding - 1);
        if outstanding == 0 {
          reportSem := reportSem + 1;
        }
      }
      var status := readers[slot].status;
      readers[slot] := readers[slot].(reportId := 0);
      r := if status == 0 then waitResult else status;
    }

    /** release_report. */
    method ReleaseReport()
      modifies this`outstanding, this`reportSem
      ensures Table() == Readers.Release(old(Table()))
    {
      outstanding := U8(outstanding - 1);
      if outstanding == 0 {
        reportSem := reportSem + 1;
      }
    }

    // -------------------------------------------------------------------
    // Commands and their responses

    /** cmd_send: copy the command into cmd_buf and send it. */
    method CmdSend(cmd: seq<Word>) returns (r: int)
      requires Valid() && |cmd| <= Framing.CmdLenMax
      modifies bus, cmdBuf, this`cmdLen
      ensures SendStep(bus.State(), r) == Exchange.CmdSend(old(bus.State()), cmd)
      ensures cmdLen == |cmd| && cmdBuf[..cmdLen] == cmd
    {
      CopyIn(cmdBuf, 0, cmd);
      cmdLen := |cmd|;
      assert cmdBuf[..cmdLen] == cmd;
      r := Framing.SendMtpCommand(bus, cmdBuf[..cmdLen]);
    }

    /** rbcmd_send_receive for the attempt `at`: the wait is played by the
        reports the interrupt thread completes in rx_report, each handed to
        process_rbcmd, followed by the wait's result. */
    method RbcmdSendReceive(cmd: seq<Word>, reportId: Word, at: Exchange.Attempt) returns (r: int)
      requires Valid() && |cmd| <= Framing.CmdLenMax && Exchange.ArrivalsFit(at.arrivals)
      requires Exchange.CanEnter(semaRbcmd, at)
      modifies bus, cmdBuf, this`cmdLen, this`semaRbcmd
      modifies rbcmdRxReport, this`rbcmdWaiting, this`rbcmdReceived, this`rbcmdReportId, this`rbcmdRxReportLen
      modifies rxReport, this`rxReportLen, this`packetSeqCombined
      ensures Exchange.Exch(Waiter(), Report(), bus.State(), r)
              == Exchange.SendReceive(old(Waiter()), old(Report()), old(bus.State()), cmd, reportId, at)
      ensures semaRbcmd == old(semaRbcmd)
    {
      if at.downResult != 0 {
        return -ERESTARTSYS;
      }
      ghost var rb0, a0, w0 := Waiter(), Report(), bus.State();
      semaRbcmd := semaRbcmd - 1;
      rbcmdReportId := reportId;
      rbcmdReceived := false;
      rbcmdWaiting := true;
      ghost var armed := Waiter();
      assert armed == rb0.(reportId := reportId, received := false, waiting := true);
      ghost var s := Exchange.CmdSend(w0, cmd);
      r := CmdSend(cmd);
      assert SendStep(bus.State(), r) == s && Waiter() == armed && Report() == a0;
      if r != 0 {
        rbcmdWaiting := false;
        semaRbcmd := semaRbcmd + 1;
        assert Exchange.SendReceive(rb0, a0, w0, cmd, reportId, at) == Exchange.Exch(armed.(waiting := false), a0, s.wire, -ERESTARTSYS);
        return -ERESTARTSYS;
      }
      AwaitReports(at.arrivals);
      ghost var got := Exchange.Deliveries(armed, at.arrivals);
      assert Waiter() == got && Report() == Exchange.LastArrival(a0, at.arrivals);
      rbcmdWaiting := false;
      semaRbcmd := semaRbcmd + 1;
      r := if at.waitResult < 0 || !rbcmdReceived then -ERESTARTSYS else 0;
    }

    /** The wait of rbcmd_send_receive: the interrupt thread completes each
        report of `arrivals` in rx_report and hands it to process_rbcmd. */
    method AwaitReports(arrivals: seq<Assembly>)
      requires Valid() && Exchange.ArrivalsFit(arrivals)
      modifies rbcmdRxReport, this`rbcmdReceived, this`rbcmdRxReportLen
      modifies rxReport, this`rxReportLen, this`packetSeqCombined
      ensures Waiter() == Exchange.Deliveries(old(Waiter()), arrivals)
      ensures Report() == Exchange.LastArrival(old(Report()), arrivals)
    {
      var k := 0;
      while k < |arrivals|
        invariant 0 <= k <= |arrivals|
        invariant Correlator.WellFormed(Waiter()) && Exchange.ArrivalsFit(arrivals[k..])
        invariant Exchange.Deliveries(Waiter(), arrivals[k..]) == Exchange.Deliveries(old(Waiter()), arrivals)
        invariant Report() == Exchange.LastArrival(old(Report()), arrivals[..k])
      {
        var x := arrivals[k];
        CopyIn(rxReport, 0, x.report);
        rxReportLen := x.len;
        packetSeqCombined := x.counter;
        assert Report() == x;
        ProcessRbcmd();
        assert arrivals[k..][1..] == arrivals[k + 1..];
        assert arrivals[..k + 1][k] == x;
        k := k + 1;
      }
      assert arrivals[k..] == [];
      assert arrivals[..k] == arrivals;
    }

    /** read_chip_data, with the attempts of the firmware version query in
        `fw` and those of the configuration query in `cfg`. */
    method ReadChipData(fw: seq<Exchange.Attempt>, cfg: seq<Exchange.Attempt>) returns (r: int)
      requires Valid() && Exchange.Scripted(fw) && Exchange.Scripted(cfg)
      requires forall j :: 0 <= j < |fw| ==> Exchange.CanEnter(semaRbcmd, fw[j])
      requires forall j :: 0 <= j < |cfg| ==> Exchange.CanEnter(semaRbcmd, cfg[j])
      modifies bus, cmdBuf, this`cmdLen, this`semaRbcmd
      modifies rbcmdRxReport, this`rbcmdWaiting, this`rbcmdReceived, this`rbcmdReportId, this`rbcmdRxReportLen
      modifies rxReport, this`rxReportLen, this`packetSeqCombined
      modifies this`chipId, this`configId
      ensures Exchange.ChipData(Exchange.Exch(Waiter(), Report(), bus.State(), r), chipId, configId)
              == Exchange.ReadChipData(old(Waiter()), old(Report()), old(bus.State()), old(chipId), old(configId), fw, cfg)
      ensures semaRbcmd == old(semaRbcmd)
    {
      r := Query([Exchange.CmdGetFwVersion, Exchange.ZeroSizeCmd], Exchange.RptFwVersion, fw);
      if r != 0 {
        return r;
      }
      chipId := ByteH(rbcmdRxReport[4]);
      r := Query([Exchange.CmdGetCfgInf, Exchange.ZeroSizeCmd], Exchange.RptCfgInf, cfg);
      if r != 0 {
        return r;
      }
      configId := rbcmdRxReport[3];
      return 0;
    }

    /** A retry loop of read_chip_data: rbcmd_send_receive with `query`
        while fewer than five passes were made and the last one failed. */
    method Query(query: seq<Word>, id: Word, attempts: seq<Exchange.Attempt>) returns (r: int)
      requires Valid() && |query| <= Framing.CmdLenMax && Exchange.Scripted(attempts)
      requires forall j :: 0 <= j < |attempts| ==> Exchange.CanEnter(semaRbcmd, attempts[j])
      modifies bus, cmdBuf, this`cmdLen, this`semaRbcmd
      modifies rbcmdRxReport, this`rbcmdWaiting, this`rbcmdReceived, this`rbcmdReportId, this`rbcmdRxReportLen
      modifies rxReport, this`rxReportLen, this`packetSeqCombined
      ensures Exchange.Exch(Waiter(), Report(), bus.State(), r)
              == Exchange.Retry(old(Waiter()), old(Report()), old(bus.State()), query, id, attempts, 0, -1)
      ensures semaRbcmd == old(semaRbcmd)
    {
      var loopcounter := 0;
      r := -1;
      while loopcounter < FirmwareSpec.FwRetriesMax && r != 0
        invariant 0 <= loopcounter <= FirmwareSpec.FwRetriesMax
        invariant Correlator.WellFormed(Waiter())
        invariant Exchange.Retry(Waiter(), Report(), bus.State(), query, id, attempts, loopcounter, r)
                  == Exchange.Retry(old(Waiter()), old(Report()), old(bus.State()), query, id, attempts, 0, -1)
        invariant semaRbcmd == old(semaRbcmd)
        decreases FirmwareSpec.FwRetriesMax - loopcounter
      {
        r := RbcmdSendReceive(query, id, attempts[loopcounter]);
        loopcounter := loopcounter + 1;
      }
    }

    // -------------------------------------------------------------------
    // Touch reports

    /** The id bookkeeping of report_down. */
    method ReportDown(id: nat, pen: bool)
      modifies this`currToolIds, this`usedTools, this`currFingerIds, this`events
      ensures Touches() == Fingers.ReportDown(old(Touches()), id, pen)
    {
      if pen {
        currToolIds := currToolIds + {id};
        usedTools := Fingers.PenTools;
      } else {
        currToolIds := currToolIds - {id};
        usedTools := Fingers.FingerTools;
      }
      currFingerIds := currFingerIds + {id};
      events := events + [Fingers.Down(id, pen, id !in listFingerIds)];
    }

    /** report_up. */
    method ReportUp(id: nat)
      modifies this`usedTools, this`listFingerIds, this`events
      ensures Touches() == Fingers.ReportUp(old(Touches()), id)
    {
      if id !in listFingerIds {
        return;
      }
      var pen := id in listToolIds;
      usedTools := if pen then Fingers.PenTools else Fingers.FingerTools;
      events := events + [Fingers.Up(id, pen)];
      listFingerIds := listFingerIds - {id};
    }

    /** invalidate_all_fingers. */
    method InvalidateAllFingers()
      modifies this`usedTools, this`listFingerIds, this`listToolIds, this`events
      ensures Touches() == Fingers.Invalidate(old(Touches()))
    {
      events := events + [Fingers.AllUp];
      listFingerIds := {};
      listToolIds := {};
      usedTools := 0;
    }

    /** process_report on rx_packet; `wake` says that the wake-up gesture
        is armed and the device is suspended. */
    method ProcessReport(wake: bool)
      requires Valid()
      modifies this`listFingerIds, this`listToolIds, this`currFingerIds, this`currToolIds
      modifies this`usedTools, this`framecounter, this`events
      ensures Touches() == Fingers.ProcessReport(old(Touches()), rxPacket[..], wake)
    {
      if ByteH(rxPacket[0]) != OnePacketRpt {
        return;
      }
      var touchCount := rxPacket[3] % 16;
      if wake && touchCount >= Fingers.WakeTouchCount {
        events := events + [Fingers.Wake];
        return;
      }
      if rxPacket[1] != Fingers.ExtTouchInfo {
        return;
      }
      if framecounter == rxPacket[5] {
        return;
      }
      framecounter := rxPacket[5];
      if touchCount > Fingers.TouchCountMax {
        return;
      } else if touchCount == 0 {
        InvalidateAllFingers();
        return;
      }
      ReportTouches(touchCount);
    }

    /** The touch path of process_report for 1 to 10 touch records: the
        down pass, the up pass, then the current ids become the previous
        report's. */
    method ReportTouches(n: nat)
      requires Valid() && 1 <= n <= Fingers.TouchCountMax
      modifies this`listFingerIds, this`listToolIds, this`currFingerIds, this`currToolIds
      modifies this`usedTools, this`events
      ensures var f2 := Fingers.UpFrom(Fingers.DownFrom(old(Touches()).(curr := {}, usedTools := 0), rxPacket[..], 0, n), 0);
              Touches() == f2.(list := f2.curr, listTool := f2.currTool)
    {
      currFingerIds := {};
      usedTools := 0;
      ghost var start := Touches();
      assert start == old(Touches()).(curr := {}, usedTools := 0);
      DownPass(n);
      UpPass();
      ghost var u := Touches();
      listFingerIds := currFingerIds;
      listToolIds := currToolIds;
      assert Touches() == u.(list := u.curr, listTool := u.currTool);
    }

    /** The report_down loop of process_report over the first n touch
        records of rx_packet. */
    method DownPass(n: nat)
      requires Valid() && n <= Fingers.TouchCountMax
      modifies this`currToolIds, this`usedTools, this`currFingerIds, this`events
      ensures Touches() == Fingers.DownFrom(old(Touches()), rxPacket[..], 0, n)
    {
      var i := 0;
      while i < n
        invariant 0 <= i <= n
        invariant Fingers.DownFrom(Touches(), rxPacket[..], i, n) == Fingers.DownFrom(old(Touches()), rxPacket[..], 0, n)
      {
        var w := rxPacket[Fingers.HeaderWords + Fingers.TouchWords * i];
        ReportDown(w % 16, (w / 0x100) % 16 == Fingers.PenToolType);
        i := i + 1;
      }
    }

    /** The report_up loop of process_report over ids 0 to 9. */
    method UpPass()
      modifies this`usedTools, this`listFingerIds, this`events
      ensures Touches() == Fingers.UpFrom(old(Touches()), 0)
    {
      var i := 0;
      while i < Fingers.TouchCountMax
        invariant 0 <= i <= Fingers.TouchCountMax
        invariant Fingers.UpFrom(Touches(), i) == Fingers.UpFrom(old(Touches()), 0)
      {
        if i !in currFingerIds {
          ReportUp(i);
        }
        i := i + 1;
      }
    }
  }

  /** The first slot a search from 0 stops at is FirstFree's. */
  lemma {:induction false} FirstFreeIs(rs: seq<Readers.Reader>, i: nat)
    requires i <= |rs| && (i < |rs| ==> rs[i].reportId == 0)
    requires forall k :: 0 <= k < i ==> rs[k].reportId != 0
    ensures Readers.FirstFree(rs) == i
    decreases i
  {
    if i > 0 {
      FirstFreeIs(rs[1..], i - 1);
    }
  }

  /** Counting the signalled slots one more slot along. */
  lemma SignalsStep(rs: seq<Readers.Reader>, i: nat, status: int, rxId: Word)
    requires i < |rs|
    ensures Readers.Signals(rs[..i + 1], status, rxId)
            == Readers.Signals(rs[..i], status, rxId) + (if Readers.Signalled(rs[i], status, rxId) then 1 else 0)
  {
    assert rs[..i + 1] == rs[..i] + [rs[i]];
    Readers.SignalsAppend(rs[..i], [rs[i]], status, rxId);
  }

  /** A u8 counter that held x (mod 256) and was stepped by 0 or 1. */
  lemma ByteStep(x: int, before: Byte, after: Byte)
    requires before == U8(x) && (after == before || after == U8(before + 1))
    ensures after == before ==> after == U8(x)
    ensures after != before ==> after == U8(x + 1)
  {
  }
}
