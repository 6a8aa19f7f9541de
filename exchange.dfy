/** The command/response exchange of the driver: cmd_send,
    rbcmd_send_receive (send a command, then wait for a report with a
    given id) and read_chip_data (ask for the firmware version and the
    touch configuration, up to five times each). The interrupt thread that
    runs during the wait is not part of the call: what it completes is an
    input, the sequence of reports combined into rx_report while the caller
    waits, each handed to process_rbcmd. */
module Exchange {
  import opened Words
  import opened Transport
  import opened Framing
  import opened Reassembly
  import opened Correlator
  import FirmwareSpec

  const CmdGetCfgInf := 0x0002
  const CmdGetFwVersion := 0x0040
  const ZeroSizeCmd := 0x0000
  const RptCfgInf := 0x0102
  const RptFwVersion := 0x0140

  /** cmd_send: the command is copied into cmd_buf (135 words, unchecked)
      and sent with send_mtp_command. */
  function CmdSend(w: Wire, cmd: seq<Word>): (s: SendStep)
    requires |cmd| <= CmdLenMax
    ensures !ValidCommand(cmd) ==> s == SendStep(w, -EINVAL)
  {
    if ValidCommand(cmd) then SendAll(w, CommandFrames(cmd)) else SendStep(w, -EINVAL)
  }

  /** One call of rbcmd_send_receive as the environment plays it: the
      result of down_interruptible, the reports the interrupt thread
      completes during the wait, and the result of the wait (negative when
      interrupted). */
  datatype Attempt = Attempt(downResult: int, arrivals: seq<Assembly>, waitResult: int)

  /** Every completed report has the buffer size and a length whose copy
      fits the 1000-word rbcmd buffer. */
  predicate ArrivalsFit(arrivals: seq<Assembly>)
  {
    forall k :: 0 <= k < |arrivals| ==>
      Reassembly.WellFormed(arrivals[k]) && arrivals[k].len + 1 <= RptLenMax
  }

  /** A call that does not give up at down_interruptible needs the
      semaphore free: the driver would block otherwise. */
  predicate CanEnter(sem: nat, at: Attempt)
  {
    at.downResult == 0 ==> sem > 0
  }

  /** Some completed report carries the id `id`. */
  predicate HasMatch(arrivals: seq<Assembly>, id: Word)
    requires ArrivalsFit(arrivals)
  {
    exists k :: 0 <= k < |arrivals| && arrivals[k].report[1] == id
  }

  /** arrivals[k] is the last completed report carrying `id`. */
  predicate IsLastMatch(arrivals: seq<Assembly>, id: Word, k: int)
    requires ArrivalsFit(arrivals)
  {
    && 0 <= k < |arrivals| && arrivals[k].report[1] == id
    && forall j :: k < j < |arrivals| ==> arrivals[j].report[1] != id
  }

  /** rb holds the copy process_rbcmd takes of the report x. */
  predicate HoldsCopyOf(rb: Rbcmd, x: Assembly)
    requires Correlator.WellFormed(rb) && Reassembly.WellFormed(x) && x.len + 1 <= RptLenMax
  {
    rb.copy[..x.len + 1] == x.report[..x.len + 1] && rb.copyLen == x.len
  }

  /** process_rbcmd applied to each completed report in turn. */
  function Deliveries(rb: Rbcmd, arrivals: seq<Assembly>): (o: Rbcmd)
    requires Correlator.WellFormed(rb) && ArrivalsFit(arrivals)
    ensures Correlator.WellFormed(o)
    decreases |arrivals|
  {
    if arrivals == [] then rb
    else Deliveries(ProcessRbcmd(rb, arrivals[0]), arrivals[1..])
  }

  /** What a call leaves behind: the rbcmd fields, rx_report, the
      transport and the result. */
  datatype Exch = Exch(rb: Rbcmd, a: Assembly, wire: Wire, r: int)

  /** The rx_report after the wait: the last report completed, or the one
      before the call. */
  function LastArrival(a: Assembly, arrivals: seq<Assembly>): Assembly
  {
    if arrivals == [] then a else arrivals[|arrivals| - 1]
  }

  /** rbcmd_send_receive. */
  function SendReceive(rb: Rbcmd, a: Assembly, w: Wire, cmd: seq<Word>, id: Word, at: Attempt): (o: Exch)
    requires Correlator.WellFormed(rb) && |cmd| <= CmdLenMax && ArrivalsFit(at.arrivals)
    ensures Correlator.WellFormed(o.rb)
  {
    if at.downResult != 0 then Exch(rb, a, w, -ERESTARTSYS)
    else
      var armed := rb.(reportId := id, received := false, waiting := true);
      var s := CmdSend(w, cmd);
      if s.count != 0 then Exch(armed.(waiting := false), a, s.wire, -ERESTARTSYS)
      else
        var got := Deliveries(armed, at.arrivals);
        var r := if at.waitResult < 0 || !got.received then -ERESTARTSYS else 0;
        Exch(got.(waiting := false), LastArrival(a, at.arrivals), s.wire, r)
  }

  /** The retry loop of read_chip_data from pass i on, with `ret` the result
      of the previous pass: call again while fewer than five passes were
      made and the last one failed. */
  function Retry(rb: Rbcmd, a: Assembly, w: Wire, cmd: seq<Word>, id: Word,
                 attempts: seq<Attempt>, i: nat, ret: int): (o: Exch)
    requires Correlator.WellFormed(rb) && |cmd| <= CmdLenMax && i <= FirmwareSpec.FwRetriesMax <= |attempts|
    requires forall j :: 0 <= j < |attempts| ==> ArrivalsFit(attempts[j].arrivals)
    ensures Correlator.WellFormed(o.rb)
    decreases FirmwareSpec.FwRetriesMax - i
  {
    if i < FirmwareSpec.FwRetriesMax && ret != 0 then
      var e := SendReceive(rb, a, w, cmd, id, attempts[i]);
      Retry(e.rb, e.a, e.wire, cmd, id, attempts, i + 1, e.r)
    else Exch(rb, a, w, ret)
  }

  /** The outcome of read_chip_data: the last exchange and the two ids. */
  datatype ChipData = ChipData(x: Exch, chipId: Word, configId: Word)

  /** The environment of read_chip_data: five attempts per query, all with
      reports that fit. */
  predicate Scripted(attempts: seq<Attempt>)
  {
    && FirmwareSpec.FwRetriesMax <= |attempts|
    && forall j :: 0 <= j < |attempts| ==> ArrivalsFit(attempts[j].arrivals)
  }

  /** read_chip_data: the firmware version query sets chip_id from the high
      byte of word 4 of the report; the configuration query then sets
      config_id from word 3. A query that fails five times ends the call
      with its result. */
  function ReadChipData(rb: Rbcmd, a: Assembly, w: Wire, chipId: Word, configId: Word,
                        fw: seq<Attempt>, cfg: seq<Attempt>): (o: ChipData)
    requires Correlator.WellFormed(rb) && Scripted(fw) && Scripted(cfg)
    ensures Correlator.WellFormed(o.x.rb)
    ensures o.x.r != 0 ==> o.configId == configId
  {
    var v := Retry(rb, a, w, [CmdGetFwVersion, ZeroSizeCmd], RptFwVersion, fw, 0, -1);
    if v.r != 0 then ChipData(v, chipId, configId)
    else
      var chip := ByteH(v.rb.copy[4]);
      var c := Retry(v.rb, v.a, v.wire, [CmdGetCfgInf, ZeroSizeCmd], RptCfgInf, cfg, 0, -1);
      if c.r != 0 then ChipData(c, chip, configId)
      else ChipData(c, chip, c.rb.copy[3])
  }

  // ---------------------------------------------------------------------
  // Properties

  /** While the caller waits, process_rbcmd keeps the id and the waiting
      flag, and the received flag ends up set exactly when it was set
      already or a report with the id arrived. */
  lemma {:induction false} DeliveriesFlags(rb: Rbcmd, arrivals: seq<Assembly>)
    requires Correlator.WellFormed(rb) && ArrivalsFit(arrivals) && rb.waiting
    ensures var o := Deliveries(rb, arrivals);
      && o.waiting && o.reportId == rb.reportId
      && (o.received <==> rb.received || HasMatch(arrivals, rb.reportId))
    decreases |arrivals|
  {
    if arrivals != [] {
      var rb1 := ProcessRbcmd(rb, arrivals[0]);
      assert ArrivalsFit(arrivals[1..]);
      DeliveriesFlags(rb1, arrivals[1..]);
      if HasMatch(arrivals, rb.reportId) && !rb1.received {
        var k :| 0 <= k < |arrivals| && arrivals[k].report[1] == rb.reportId;
        assert arrivals[1..][k - 1] == arrivals[k];
      }
      if HasMatch(arrivals[1..], rb.reportId) {
        var k :| 0 <= k < |arrivals[1..]| && arrivals[1..][k].report[1] == rb.reportId;
        assert arrivals[k + 1] == arrivals[1..][k];
      }
    }
  }

  /** Reports that do not carry the id waited for leave the rbcmd fields
      alone. */
  lemma {:induction false} NoMatchNoChange(rb: Rbcmd, arrivals: seq<Assembly>)
    requires Correlator.WellFormed(rb) && ArrivalsFit(arrivals)
    requires forall j :: 0 <= j < |arrivals| ==> arrivals[j].report[1] != rb.reportId
    ensures Deliveries(rb, arrivals) == rb
    decreases |arrivals|
  {
    if arrivals != [] {
      assert ArrivalsFit(arrivals[1..]);
      assert forall j :: 0 <= j < |arrivals[1..]| ==> arrivals[1..][j] == arrivals[j + 1];
      NoMatchNoChange(rb, arrivals[1..]);
    }
  }

  /** Of several reports with the id, the caller keeps the last one: its
      header, id and payload are in the copy, with its length. */
  lemma {:induction false} LastMatchWins(rb: Rbcmd, arrivals: seq<Assembly>, k: int)
    requires Correlator.WellFormed(rb) && ArrivalsFit(arrivals) && rb.waiting
    requires IsLastMatch(arrivals, rb.reportId, k)
    ensures HoldsCopyOf(Deliveries(rb, arrivals), arrivals[k])
    decreases |arrivals|
  {
    var rb1 := ProcessRbcmd(rb, arrivals[0]);
    assert ArrivalsFit(arrivals[1..]);
    ProcessRbcmdHandsOver(rb, arrivals[0]);
    assert forall j :: 0 <= j < |arrivals[1..]| ==> arrivals[1..][j] == arrivals[j + 1];
    if k == 0 {
      NoMatchNoChange(rb1, arrivals[1..]);
    } else {
      LastMatchWins(rb1, arrivals[1..], k - 1);
    }
  }

  /** rbcmd_send_receive returns 0 or -ERESTARTSYS, and 0 exactly when the
      semaphore was taken, the command went out, the wait was not
      interrupted and a report with the id arrived. A call interrupted at
      the semaphore changes nothing; any other call leaves the caller no
      longer waiting, with the id recorded and the received flag telling
      whether a report with the id arrived after a successful send. */
  lemma SendReceiveOutcome(rb: Rbcmd, a: Assembly, w: Wire, cmd: seq<Word>, id: Word, at: Attempt)
    requires Correlator.WellFormed(rb) && |cmd| <= CmdLenMax && ArrivalsFit(at.arrivals)
    ensures var o := SendReceive(rb, a, w, cmd, id, at);
      var sent := CmdSend(w, cmd).count == 0;
      && (o.r == 0 || o.r == -ERESTARTSYS)
      && (o.r == 0 <==> at.downResult == 0 && sent && at.waitResult >= 0 && HasMatch(at.arrivals, id))
      && (at.downResult != 0 ==> o == Exch(rb, a, w, -ERESTARTSYS))
      && (at.downResult == 0 ==>
            && !o.rb.waiting && o.rb.reportId == id
            && (o.rb.received <==> sent && HasMatch(at.arrivals, id)))
  {
    if at.downResult == 0 && CmdSend(w, cmd).count == 0 {
      DeliveriesFlags(rb.(reportId := id, received := false, waiting := true), at.arrivals);
    }
  }

  /** After a successful call the copy holds the last report with the id
      that arrived during this call. */
  lemma SendReceiveCopy(rb: Rbcmd, a: Assembly, w: Wire, cmd: seq<Word>, id: Word, at: Attempt)
    requires Correlator.WellFormed(rb) && |cmd| <= CmdLenMax && ArrivalsFit(at.arrivals)
    requires SendReceive(rb, a, w, cmd, id, at).r == 0
    ensures exists k ::
              IsLastMatch(at.arrivals, id, k) && HoldsCopyOf(SendReceive(rb, a, w, cmd, id, at).rb, at.arrivals[k])
  {
    SendReceiveOutcome(rb, a, w, cmd, id, at);
    var armed := rb.(reportId := id, received := false, waiting := true);
    var k := LastIndexOf(at.arrivals, id);
    LastMatchWins(armed, at.arrivals, k);
  }

  /** The index of the last report with the id, when there is one. */
  lemma {:induction false} LastIndexOf(arrivals: seq<Assembly>, id: Word) returns (k: int)
    requires ArrivalsFit(arrivals) && HasMatch(arrivals, id)
    ensures IsLastMatch(arrivals, id, k)
    decreases |arrivals|
  {
    var n := |arrivals|;
    if arrivals[n - 1].report[1] == id {
      k := n - 1;
    } else {
      var m :| 0 <= m < n && arrivals[m].report[1] == id;
      var front := arrivals[..n - 1];
      assert front[m] == arrivals[m];
      assert ArrivalsFit(front);
      k := LastIndexOf(front, id);
      assert forall j :: 0 <= j < n - 1 ==> front[j] == arrivals[j];
    }
  }

  /** The state after passes i..p-1 of the retry loop, each made whatever
      the one before it returned. */
  function PassesFrom(rb: Rbcmd, a: Assembly, w: Wire, cmd: seq<Word>, id: Word,
                      attempts: seq<Attempt>, i: nat, p: nat): (o: Exch)
    requires Correlator.WellFormed(rb) && |cmd| <= CmdLenMax && Scripted(attempts)
    requires i <= p <= FirmwareSpec.FwRetriesMax
    ensures Correlator.WellFormed(o.rb)
    decreases p - i
  {
    if i == p then Exch(rb, a, w, -1)
    else
      var e := SendReceive(rb, a, w, cmd, id, attempts[i]);
      PassesFrom(e.rb, e.a, e.wire, cmd, id, attempts, i + 1, p)
  }

  /** Pass p of a retry loop started at pass i, made after passes i..p-1. */
  function PassAt(rb: Rbcmd, a: Assembly, w: Wire, cmd: seq<Word>, id: Word,
                  attempts: seq<Attempt>, i: nat, p: nat): Exch
    requires Correlator.WellFormed(rb) && |cmd| <= CmdLenMax && Scripted(attempts)
    requires i <= p < FirmwareSpec.FwRetriesMax
  {
    var s := PassesFrom(rb, a, w, cmd, id, attempts, i, p);
    SendReceive(s.rb, s.a, s.wire, cmd, id, attempts[p])
  }

  /** Pass p is the first of the passes i..4 that returns 0. */
  predicate FirstSuccess(rb: Rbcmd, a: Assembly, w: Wire, cmd: seq<Word>, id: Word,
                         attempts: seq<Attempt>, i: nat, p: nat)
    requires Correlator.WellFormed(rb) && |cmd| <= CmdLenMax && Scripted(attempts)
  {
    && i <= p < FirmwareSpec.FwRetriesMax
    && PassAt(rb, a, w, cmd, id, attempts, i, p).r == 0
    && forall q :: i <= q < p ==> PassAt(rb, a, w, cmd, id, attempts, i, q).r != 0
  }

  /** rb holds the copy of the last report with the id that arrived during
      pass p. */
  ghost predicate CopyFromPass(rb: Rbcmd, attempts: seq<Attempt>, id: Word, p: nat)
    requires Correlator.WellFormed(rb) && Scripted(attempts) && p < FirmwareSpec.FwRetriesMax
  {
    exists k :: IsLastMatch(attempts[p].arrivals, id, k) && HoldsCopyOf(rb, attempts[p].arrivals[k])
  }

  /** Passes made after a failed pass are those of the loop started one
      pass later. */
  lemma PassAtShift(rb: Rbcmd, a: Assembly, w: Wire, cmd: seq<Word>, id: Word,
                    attempts: seq<Attempt>, i: nat)
    requires Correlator.WellFormed(rb) && |cmd| <= CmdLenMax && Scripted(attempts)
    requires i < FirmwareSpec.FwRetriesMax
    ensures var e := SendReceive(rb, a, w, cmd, id, attempts[i]);
      && PassAt(rb, a, w, cmd, id, attempts, i, i) == e
      && forall p :: i < p < FirmwareSpec.FwRetriesMax ==>
           PassAt(rb, a, w, cmd, id, attempts, i, p) == PassAt(e.rb, e.a, e.wire, cmd, id, attempts, i + 1, p)
  {
  }

  /** The retry loop makes passes until the first one that returns 0, and
      at most five. It ends with 0 exactly when one of the passes returns 0;
      it then leaves the state of the first such pass, whose copy of the
      last report with the id is in place. Otherwise every pass failed and
      the result is -ERESTARTSYS. */
  lemma {:induction false} RetryOutcome(rb: Rbcmd, a: Assembly, w: Wire, cmd: seq<Word>, id: Word,
                                        attempts: seq<Attempt>, i: nat)
    requires Correlator.WellFormed(rb) && |cmd| <= CmdLenMax && Scripted(attempts)
    requires i < FirmwareSpec.FwRetriesMax
    ensures var o := Retry(rb, a, w, cmd, id, attempts, i, -1);
      && (o.r == 0 || o.r == -ERESTARTSYS)
      && (o.r == 0 <==> exists p :: i <= p < FirmwareSpec.FwRetriesMax && PassAt(rb, a, w, cmd, id, attempts, i, p).r == 0)
      && (o.r == 0 ==> exists p :: && FirstSuccess(rb, a, w, cmd, id, attempts, i, p)
                                   && o == PassAt(rb, a, w, cmd, id, attempts, i, p)
                                   && CopyFromPass(o.rb, attempts, id, p))
      && (o.r == -ERESTARTSYS ==>
            forall p :: i <= p < FirmwareSpec.FwRetriesMax ==> PassAt(rb, a, w, cmd, id, attempts, i, p).r != 0)
    decreases FirmwareSpec.FwRetriesMax - i
  {
    var e := SendReceive(rb, a, w, cmd, id, attempts[i]);
    assert e.r == 0 || e.r == -ERESTARTSYS by {
      SendReceiveOutcome(rb, a, w, cmd, id, attempts[i]);
    }
    PassAtShift(rb, a, w, cmd, id, attempts, i);
    if e.r == 0 {
      assert Retry(rb, a, w, cmd, id, attempts, i, -1) == e;
      assert CopyFromPass(e.rb, attempts, id, i) by {
        SendReceiveCopy(rb, a, w, cmd, id, attempts[i]);
      }
      assert FirstSuccess(rb, a, w, cmd, id, attempts, i, i);
    } else if i + 1 == FirmwareSpec.FwRetriesMax {
      assert Retry(rb, a, w, cmd, id, attempts, i, -1) == Exch(e.rb, e.a, e.wire, e.r);
    } else {
      RetryOutcome(e.rb, e.a, e.wire, cmd, id, attempts, i + 1);
      var o := Retry(e.rb, e.a, e.wire, cmd, id, attempts, i + 1, -1);
      assert Retry(rb, a, w, cmd, id, attempts, i, -1) == o;
      if o.r == 0 {
        var p :| && FirstSuccess(e.rb, e.a, e.wire, cmd, id, attempts, i + 1, p)
                 && o == PassAt(e.rb, e.a, e.wire, cmd, id, attempts, i + 1, p)
                 && CopyFromPass(o.rb, attempts, id, p);
        assert FirstSuccess(rb, a, w, cmd, id, attempts, i, p);
      }
    }
  }

  /** `value` is word `at` of the last report with the id received in pass
      p, when the report is that long. */
  ghost predicate WordFromPass(attempts: seq<Attempt>, id: Word, p: nat, at: nat, value: Word)
    requires Scripted(attempts) && p < FirmwareSpec.FwRetriesMax && at < RptLenMax
  {
    exists k :: IsLastMatch(attempts[p].arrivals, id, k)
      && (attempts[p].arrivals[k].len >= at ==> value == attempts[p].arrivals[k].report[at])
  }

  /** A word of the copy taken in pass p is that word of the last report
      with the id received in pass p. */
  lemma CopiedWord(rb: Rbcmd, attempts: seq<Attempt>, id: Word, p: nat, at: nat)
    requires Correlator.WellFormed(rb) && Scripted(attempts) && p < FirmwareSpec.FwRetriesMax && at < RptLenMax
    requires CopyFromPass(rb, attempts, id, p)
    ensures WordFromPass(attempts, id, p, at, rb.copy[at])
  {
    var k :| IsLastMatch(attempts[p].arrivals, id, k) && HoldsCopyOf(rb, attempts[p].arrivals[k]);
    var x := attempts[p].arrivals[k];
    if x.len >= at {
      assert rb.copy[at] == rb.copy[..x.len + 1][at] == x.report[..x.len + 1][at];
    }
  }

  /** read_chip_data returns 0 or -ERESTARTSYS. On success chip_id is the
      high byte of word 4 of the firmware version report received in the
      first pass of its query that succeeded, and config_id is word 3 of
      the configuration report received in the first successful pass of
      the second query (a word past the report's length is whatever the
      copy buffer held). A failed firmware query leaves both ids alone; a
      failed configuration query leaves config_id alone. */
  lemma ChipDataOutcome(rb: Rbcmd, a: Assembly, w: Wire, chipId: Word, configId: Word,
                        fw: seq<Attempt>, cfg: seq<Attempt>)
    requires Correlator.WellFormed(rb) && Scripted(fw) && Scripted(cfg)
    ensures var o := ReadChipData(rb, a, w, chipId, configId, fw, cfg);
      var fwCmd := [CmdGetFwVersion, ZeroSizeCmd];
      var v := Retry(rb, a, w, fwCmd, RptFwVersion, fw, 0, -1);
      && (o.x.r == 0 || o.x.r == -ERESTARTSYS)
      && (o.x.r != 0 ==> o.configId == configId)
      && (v.r != 0 ==> o.x.r != 0 && o.chipId == chipId)
      && (o.x.r == 0 ==>
            && (exists p, b :: && FirstSuccess(rb, a, w, fwCmd, RptFwVersion, fw, 0, p)
                               && WordFromPass(fw, RptFwVersion, p, 4, b) && o.chipId == ByteH(b))
            && (exists p :: && FirstSuccess(v.rb, v.a, v.wire, [CmdGetCfgInf, ZeroSizeCmd], RptCfgInf, cfg, 0, p)
                            && WordFromPass(cfg, RptCfgInf, p, 3, o.configId)))
  {
    var fwCmd := [CmdGetFwVersion, ZeroSizeCmd];
    var v := Retry(rb, a, w, fwCmd, RptFwVersion, fw, 0, -1);
    RetryOutcome(rb, a, w, fwCmd, RptFwVersion, fw, 0);
    if v.r == 0 {
      var p :| && FirstSuccess(rb, a, w, fwCmd, RptFwVersion, fw, 0, p)
               && v == PassAt(rb, a, w, fwCmd, RptFwVersion, fw, 0, p)
               && CopyFromPass(v.rb, fw, RptFwVersion, p);
      CopiedWord(v.rb, fw, RptFwVersion, p, 4);
      var cfgCmd := [CmdGetCfgInf, ZeroSizeCmd];
      var c := Retry(v.rb, v.a, v.wire, cfgCmd, RptCfgInf, cfg, 0, -1);
      RetryOutcome(v.rb, v.a, v.wire, cfgCmd, RptCfgInf, cfg, 0);
      if c.r == 0 {
        var q :| && FirstSuccess(v.rb, v.a, v.wire, cfgCmd, RptCfgInf, cfg, 0, q)
                 && c == PassAt(v.rb, v.a, v.wire, cfgCmd, RptCfgInf, cfg, 0, q)
                 && CopyFromPass(c.rb, cfg, RptCfgInf, q);
        CopiedWord(c.rb, cfg, RptCfgInf, q, 3);
      }
    }
  }
}
