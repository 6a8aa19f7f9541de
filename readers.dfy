/** The report distribution hub: propagate_report hands each combined
    report to the registered readers, get_report registers a reader and
    collects its outcome, release_report retires a delivered report.
    report_sem, a semaphore initialised to 1, is the gate that keeps a new
    report from being propagated while readers still hold the last one;
    it is a count here, and `down` on it requires it to be positive. */
module Readers {
  import opened Words
  import opened Reassembly
  import opened Correlator

  const ReadersMax := 5
  /** A reader registered for this id takes every report. */
  const AnyReport := 0xFFFF

  /** A slot of the reader table; id 0 marks a free slot. `sem` is the
      slot's semaphore count. */
  datatype Reader = Reader(reportId: Word, reportsPassed: Word, sem: nat, status: int)

  /** The reader table, report_readers_outstanding (a u8) and the gate. */
  datatype Hub = Hub(readers: seq<Reader>, outstanding: Byte, gate: nat)

  /** What propagate_report reads and writes. */
  datatype State = State(a: Assembly, rb: Rbcmd, hub: Hub)

  predicate Wants(rd: Reader, rxId: Word)
  {
    rd.reportId == AnyReport || (rxId != 0 && rd.reportId == rxId)
  }

  /** The slots propagate_report signals: on a delivered report (status 0)
      those that want its id, on an error status every occupied slot. */
  predicate Signalled(rd: Reader, status: int, rxId: Word)
  {
    if status == 0 then Wants(rd, rxId) else rd.reportId != 0
  }

  function Signal(rd: Reader, status: int, rxId: Word): Reader
  {
    if !Signalled(rd, status, rxId) then rd
    else if status == 0 then rd.(sem := rd.sem + 1, reportsPassed := U16(rd.reportsPassed + 1))
    else rd.(status := status, sem := rd.sem + 1)
  }

  /** Signal every slot of a table. */
  function SignalAll(rs: seq<Reader>, status: int, rxId: Word): (out: seq<Reader>)
    ensures |out| == |rs|
    ensures forall k :: 0 <= k < |rs| ==> out[k] == Signal(rs[k], status, rxId)
  {
    if rs == [] then [] else [Signal(rs[0], status, rxId)] + SignalAll(rs[1..], status, rxId)
  }

  /** How many slots of `rs` are signalled. */
  function Signals(rs: seq<Reader>, status: int, rxId: Word): nat
  {
    if rs == [] then 0
    else (if Signalled(rs[0], status, rxId) then 1 else 0) + Signals(rs[1..], status, rxId)
  }

  lemma {:induction false} SignalsAppend(a: seq<Reader>, b: seq<Reader>, status: int, rxId: Word)
    ensures Signals(a + b, status, rxId) == Signals(a, status, rxId) + Signals(b, status, rxId)
    decreases |a|
  {
    if a != [] {
      assert (a + b)[1..] == a[1..] + b;
      SignalsAppend(a[1..], b, status, rxId);
    } else {
      assert a + b == b;
    }
  }

  /** The indices of the slots of `rs` that are signalled. */
  function SignalledSlots(rs: seq<Reader>, status: int, rxId: Word): set<nat>
  {
    set k: nat | k < |rs| && Signalled(rs[k], status, rxId)
  }

  /** Signals counts exactly the signalled slots, each once. */
  lemma {:induction false} SignalsCount(rs: seq<Reader>, status: int, rxId: Word)
    ensures Signals(rs, status, rxId) == |SignalledSlots(rs, status, rxId)|
    decreases |rs|
  {
    if rs != [] {
      var n := |rs| - 1;
      var front := rs[..n];
      assert rs == front + [rs[n]];
      SignalsAppend(front, [rs[n]], status, rxId);
      SignalsCount(front, status, rxId);
      assert [rs[n]][1..] == [];
      var before := SignalledSlots(front, status, rxId);
      assert n !in before;
      if Signalled(rs[n], status, rxId) {
        assert SignalledSlots(rs, status, rxId) == before + {n};
      } else {
        assert SignalledSlots(rs, status, rxId) == before;
      }
    }
  }

  /** On a delivered report, report_readers_outstanding grows (as a u8) by
      the number of slots that want the report's id, and the gate reopens
      exactly when the count wraps to 0. */
  lemma OutstandingCountsReaders(h: Hub, rxId: Word)
    ensures var o := Deliver(h, 0, rxId);
      var wanting := set k: nat | k < |h.readers| && Wants(h.readers[k], rxId);
      && o.outstanding == U8(h.outstanding + |wanting|)
      && (o.gate == h.gate + 1 <==> o.outstanding == 0)
  {
    SignalsCount(h.readers, 0, rxId);
    assert SignalledSlots(h.readers, 0, rxId) == set k: nat | k < |h.readers| && Wants(h.readers[k], rxId);
  }

  /** The gate after the outstanding count reached `o`: reopened iff it is 0. */
  function Reopen(gate: nat, o: Byte): nat
  {
    if o == 0 then gate + 1 else gate
  }

  /** The loop of propagate_report and the gate test after it, once the
      gate was taken (so `h.gate` is the count after `down`). Each report
      handed to a reader raises the u8 outstanding count by one. */
  function Deliver(h: Hub, status: int, rxId: Word): (o: Hub)
    ensures |o.readers| == |h.readers|
    ensures status != 0 ==> o.outstanding == h.outstanding
    ensures o.gate == h.gate + 1 <==> o.outstanding == 0
    ensures o.gate == h.gate <==> o.outstanding != 0
  {
    var out := if status == 0 then U8(h.outstanding + Signals(h.readers, status, rxId)) else h.outstanding;
    Hub(SignalAll(h.readers, status, rxId), out, Reopen(h.gate, out))
  }

  predicate Ready(s: State)
  {
    Reassembly.WellFormed(s.a) && Correlator.WellFormed(s.rb) && s.hub.gate > 0
  }

  /** What propagate_report needs of the packet and the state beyond what
      the driver checks: the fragment copy and the rbcmd copy must fit. */
  predicate PropagateFits(s: State, packet: Option<seq<Word>>)
    requires Ready(s)
  {
    && (packet.Some? ==> IsPacket(packet.value) && Fits(s.a, packet.value))
    && var c := if packet.Some? then Combine(s.a, packet.value) else Combined(s.a, 0);
       (c.r == 0 ==> CopyFits(s.rb, c.a))
  }

  /** propagate_report: take the gate, combine the packet if there is one
      (a combine that does not complete a report gives the gate back and
      ends the call), offer the report to the rbcmd waiter, signal the
      readers, and give the gate back when no report is outstanding. */
  function Propagate(s: State, status: int, packet: Option<seq<Word>>): (o: State)
    requires Ready(s) && PropagateFits(s, packet)
    ensures |o.hub.readers| == |s.hub.readers|
    ensures o.rb.reportId == s.rb.reportId && o.rb.waiting == s.rb.waiting
    ensures o.hub.gate == s.hub.gate || (o.hub.gate == s.hub.gate - 1 && o.hub.outstanding != 0)
  {
    var h := s.hub.(gate := s.hub.gate - 1);
    var c := if packet.Some? then Combine(s.a, packet.value) else Combined(s.a, 0);
    if c.r != 0 then State(c.a, s.rb, h.(gate := h.gate + 1))
    else State(c.a, ProcessRbcmd(s.rb, c.a), Deliver(h, status, c.a.report[1]))
  }

  /** Index of the first free slot, |rs| when all are taken. */
  function FirstFree(rs: seq<Reader>): (i: nat)
    ensures i <= |rs|
    ensures i < |rs| ==> rs[i].reportId == 0
    ensures forall k :: 0 <= k < i ==> rs[k].reportId != 0
  {
    if rs == [] then 0 else if rs[0].reportId == 0 then 0 else 1 + FirstFree(rs[1..])
  }

  datatype Registered = Registered(hub: Hub, r: int, slot: nat)

  /** The first half of get_report: claim the first free slot for
      `reportId`, with its semaphore initialised to 1 and taken at once. */
  function Register(h: Hub, reportId: Word): (o: Registered)
    ensures o.r == 0 || o.r == -EBUSY
    ensures o.r == -EBUSY <==> forall k :: 0 <= k < |h.readers| ==> h.readers[k].reportId != 0
    ensures |o.hub.readers| == |h.readers| && o.hub.outstanding == h.outstanding && o.hub.gate == h.gate
  {
    var i := FirstFree(h.readers);
    if i == |h.readers| then Registered(h, -EBUSY, i)
    else Registered(h.(readers := h.readers[i := Reader(reportId, 0, 0, 0)]), 0, i)
  }

  datatype Completed = Completed(hub: Hub, r: int)

  /** The second half of get_report, after the wait on the slot's semaphore
      returned `waitResult` (0 when it was taken). A reader that gave up
      after reports were passed to it retires one of them; the slot is then
      freed and its status, when set, is returned instead of the wait's. */
  function Complete(h: Hub, slot: nat, waitResult: int): (o: Completed)
    requires slot < |h.readers|
    requires waitResult == 0 ==> h.readers[slot].sem > 0
    ensures |o.hub.readers| == |h.readers| && o.hub.readers[slot].reportId == 0
    ensures forall k :: 0 <= k < |h.readers| && k != slot ==> o.hub.readers[k] == h.readers[k]
    ensures h.readers[slot].status != 0 ==> o.r == h.readers[slot].status
    ensures h.readers[slot].status == 0 ==> o.r == waitResult
  {
    var rd := h.readers[slot];
    var rd1 := if waitResult == 0 then rd.(sem := rd.sem - 1) else rd;
    var h1 := if waitResult != 0 && rd.reportsPassed > 0 then Release(h) else h;
    Completed(h1.(readers := h.readers[slot := rd1.(reportId := 0)]),
              if rd.status == 0 then waitResult else rd.status)
  }

  /** release_report: one outstanding report is done with; the gate is
      given back when none is left. The u8 count wraps below 0. */
  function Release(h: Hub): (o: Hub)
    ensures o.readers == h.readers
    ensures h.outstanding > 0 ==> o.outstanding == h.outstanding - 1
    ensures o.gate == h.gate + 1 <==> o.outstanding == 0
    ensures o.gate == h.gate <==> o.outstanding != 0
  {
    var out := U8(h.outstanding - 1);
    h.(outstanding := out, gate := Reopen(h.gate, out))
  }

  // ---------------------------------------------------------------------
  // Properties

  /** On a delivered report, exactly the slots that want its id are
      signalled, each with one more report passed; the outstanding count
      rises by their number (as a u8) and the gate is given back iff that
      count is 0. */
  lemma DeliverReport(h: Hub, rxId: Word)
    ensures var o := Deliver(h, 0, rxId);
      && |o.readers| == |h.readers|
      && (forall k :: 0 <= k < |h.readers| ==>
            if Wants(h.readers[k], rxId)
            then o.readers[k] == h.readers[k].(sem := h.readers[k].sem + 1,
                                               reportsPassed := (h.readers[k].reportsPassed + 1) % 0x1_0000)
            else o.readers[k] == h.readers[k])
      && o.outstanding == (h.outstanding + Signals(h.readers, 0, rxId)) % 0x100
      && (o.gate == h.gate + 1 <==> o.outstanding == 0)
      && (o.gate == h.gate <==> o.outstanding != 0)
  {
  }

  /** On an error status, every occupied slot gets the status and a signal;
      free slots and the outstanding count are left alone. */
  lemma DeliverError(h: Hub, status: int, rxId: Word)
    requires status != 0
    ensures var o := Deliver(h, status, rxId);
      && |o.readers| == |h.readers|
      && (forall k :: 0 <= k < |h.readers| ==>
            if h.readers[k].reportId != 0
            then o.readers[k] == h.readers[k].(status := status, sem := h.readers[k].sem + 1)
            else o.readers[k] == h.readers[k])
      && o.outstanding == h.outstanding
  {
  }

  /** A packet that does not complete a report reaches no reader and no
      waiter, and the gate ends as it started. */
  lemma IncompleteReportDeliversNothing(s: State, status: int, p: seq<Word>)
    requires Ready(s) && PropagateFits(s, Some(p))
    requires Combine(s.a, p).r != 0
    ensures var o := Propagate(s, status, Some(p));
      o.rb == s.rb && o.hub == s.hub && o.a == Combine(s.a, p).a
  {
  }

  /** A completed report is offered to the rbcmd waiter, delivered to the
      readers that want its id, and the gate is taken for as long as any
      delivered report is outstanding. */
  lemma CompletedReportDelivered(s: State, status: int, packet: Option<seq<Word>>)
    requires Ready(s) && PropagateFits(s, packet)
    requires packet.Some? ==> Combine(s.a, packet.value).r == 0
    ensures var a := if packet.Some? then Combine(s.a, packet.value).a else s.a;
      var o := Propagate(s, status, packet);
      && o.a == a
      && o.rb == ProcessRbcmd(s.rb, a)
      && o.hub.readers == SignalAll(s.hub.readers, status, a.report[1])
      && (o.hub.gate == s.hub.gate <==> o.hub.outstanding == 0)
      && (o.hub.gate == s.hub.gate - 1 <==> o.hub.outstanding != 0)
  {
  }

  /** get_report claims the lowest free slot; when all five are taken it
      returns -EBUSY with the table unchanged. */
  lemma RegisterLowestFree(h: Hub, reportId: Word)
    ensures var o := Register(h, reportId);
      && (o.r == -EBUSY <==> forall k :: 0 <= k < |h.readers| ==> h.readers[k].reportId != 0)
      && (o.r == -EBUSY ==> o.hub == h)
      && (o.r != -EBUSY ==>
            && o.r == 0
            && o.slot < |h.readers|
            && h.readers[o.slot].reportId == 0
            && (forall k :: 0 <= k < o.slot ==> h.readers[k].reportId != 0)
            && o.hub.readers == h.readers[o.slot := Reader(reportId, 0, 0, 0)]
            && o.hub.outstanding == h.outstanding && o.hub.gate == h.gate)
  {
  }

  /** get_report frees its slot and returns the slot's status when one was
      set, the wait's result otherwise. A reader that gave up (a failed
      wait) after reports were passed to it retires one outstanding report,
      giving the gate back when none is left; otherwise the counter and the
      gate stay. */
  lemma CompleteFreesSlot(h: Hub, slot: nat, waitResult: int)
    requires slot < |h.readers|
    requires waitResult == 0 ==> h.readers[slot].sem > 0
    ensures var o := Complete(h, slot, waitResult);
      && |o.hub.readers| == |h.readers|
      && o.hub.readers[slot].reportId == 0
      && (forall k :: 0 <= k < |h.readers| && k != slot ==> o.hub.readers[k] == h.readers[k])
      && o.r == (if h.readers[slot].status != 0 then h.readers[slot].status else waitResult)
      && (waitResult == 0 || h.readers[slot].reportsPassed == 0 ==>
            o.hub.outstanding == h.outstanding && o.hub.gate == h.gate)
      && (waitResult != 0 && h.readers[slot].reportsPassed > 0 ==>
            && o.hub.outstanding == U8(h.outstanding - 1)
            && (o.hub.gate == h.gate + 1 <==> o.hub.outstanding == 0)
            && (o.hub.gate == h.gate <==> o.hub.outstanding != 0))
  {
  }

  /** `n` releases in a row. */
  function ReleaseN(h: Hub, n: nat): Hub
    decreases n
  {
    if n == 0 then h else ReleaseN(Release(h), n - 1)
  }

  /** When n reports are outstanding, n releases bring the count to 0 and
      give the gate back exactly once, at the last of them. */
  lemma {:induction false} ReleasesGiveGateBackOnce(h: Hub, n: nat)
    requires 0 < n == h.outstanding
    ensures ReleaseN(h, n).outstanding == 0
    ensures ReleaseN(h, n).gate == h.gate + 1
    ensures ReleaseN(h, n).readers == h.readers
    decreases n
  {
    var h1 := Release(h);
    if n > 1 {
      assert h1.outstanding == n - 1 && h1.gate == h.gate;
      ReleasesGiveGateBackOnce(h1, n - 1);
    }
  }

  /** With nothing outstanding, a release wraps the u8 count to 255 and
      does not give the gate back. */
  lemma ReleaseUnderflow(h: Hub)
    requires h.outstanding == 0
    ensures Release(h).outstanding == 255 && Release(h).gate == h.gate
  {
  }
}
