/** The finger-id bookkeeping of process_report, report_down, report_up and
    invalidate_all_fingers. Each u16 id mask of the driver (list_finger_ids,
    list_tool_ids, curr_finger_ids, curr_tool_ids) is the set of ids whose
    bit is set; finger ids are 4-bit fields, so every id is below 16.
    The "event:" lines the driver logs stand for the input reports. */
module Fingers {
  import opened Words
  import opened Reassembly

  const TouchCountMax := 10
  const ExtTouchInfo := 0x0802
  /** Touches that make a wake-up gesture while suspended. */
  const WakeTouchCount := 2
  const HeaderWords := 6
  const TouchWords := 12
  /** The controller's tool_type for a stylus. */
  const PenToolType := 1
  /** used_tools values: 1 << MT_TOOL_FINGER and 1 << MT_TOOL_PEN. */
  const FingerTools := 1
  const PenTools := 2

  /** A logged input event: a touch down or move (new for an id not in
      the previous report), an id going up, all ids up, a wake-up key. */
  datatype Event = Down(id: nat, pen: bool, isNew: bool) | Up(id: nat, pen: bool) | AllUp | Wake

  datatype Ids = Ids(list: set<nat>, listTool: set<nat>, curr: set<nat>, currTool: set<nat>,
                     usedTools: nat, framecounter: Word, events: seq<Event>)

  // ---------------------------------------------------------------------
  // The touch report in rx_packet

  /** touch_count: the low four bits of header word 3. */
  function TouchCount(buf: seq<Word>): nat
    requires |buf| == PacketBufLen
  {
    buf[3] % 16
  }

  function FrameCounter(buf: seq<Word>): Word
    requires |buf| == PacketBufLen
  {
    buf[5]
  }

  /** The first word of touch record k: finger_id in bits 0-3, tool_type
      in bits 8-11. */
  function TouchWord(buf: seq<Word>, k: nat): Word
    requires |buf| == PacketBufLen && k < TouchCountMax
  {
    buf[HeaderWords + TouchWords * k]
  }

  function TouchId(buf: seq<Word>, k: nat): nat
    requires |buf| == PacketBufLen && k < TouchCountMax
  {
    TouchWord(buf, k) % 16
  }

  function IsPen(buf: seq<Word>, k: nat): bool
    requires |buf| == PacketBufLen && k < TouchCountMax
  {
    (TouchWord(buf, k) / 0x100) % 16 == PenToolType
  }

  /** The ids of touch records k .. n-1. */
  function TouchIds(buf: seq<Word>, k: nat, n: nat): set<nat>
    requires |buf| == PacketBufLen && n <= TouchCountMax
  {
    set j | k <= j < n :: TouchId(buf, j)
  }

  // ---------------------------------------------------------------------
  // The operations

  /** report_down's bookkeeping for one touch. */
  function ReportDown(f: Ids, id: nat, pen: bool): (o: Ids)
    ensures id in o.curr && (id in o.currTool <==> pen)
    ensures o.list == f.list && o.listTool == f.listTool && o.framecounter == f.framecounter
    ensures |o.events| == |f.events| + 1 && o.events[..|f.events|] == f.events
  {
    f.(currTool := if pen then f.currTool + {id} else f.currTool - {id},
       usedTools := if pen then PenTools else FingerTools,
       curr := f.curr + {id},
       events := f.events + [Down(id, pen, id !in f.list)])
  }

  /** report_up: nothing for an id not in the previous report; otherwise
      it goes up with the tool it had. */
  function ReportUp(f: Ids, id: nat): (o: Ids)
    ensures id !in o.list && o.list <= f.list
    ensures o.curr == f.curr && o.currTool == f.currTool && o.listTool == f.listTool
    ensures |o.events| == |f.events| + (if id in f.list then 1 else 0)
    ensures o.events[..|f.events|] == f.events
  {
    if id !in f.list then f
    else
      var pen := id in f.listTool;
      f.(usedTools := if pen then PenTools else FingerTools,
         list := f.list - {id},
         events := f.events + [Up(id, pen)])
  }

  /** invalidate_all_fingers. */
  function Invalidate(f: Ids): (o: Ids)
    ensures o.list == {} && o.listTool == {} && o.curr == f.curr && o.framecounter == f.framecounter
    ensures |o.events| == |f.events| + 1 && o.events[..|f.events|] == f.events
  {
    f.(list := {}, listTool := {}, usedTools := 0, events := f.events + [AllUp])
  }

  /** report_down for touch records k .. n-1. */
  function DownFrom(f: Ids, buf: seq<Word>, k: nat, n: nat): (o: Ids)
    requires |buf| == PacketBufLen && k <= n <= TouchCountMax
    ensures f.curr <= o.curr && |o.events| == |f.events| + (n - k)
    decreases n - k
  {
    if k == n then f else DownFrom(ReportDown(f, TouchId(buf, k), IsPen(buf, k)), buf, k + 1, n)
  }

  /** report_up for ids i .. 9 that are not touching now. */
  function UpFrom(f: Ids, i: nat): (o: Ids)
    requires i <= TouchCountMax
    ensures o.list <= f.list && |f.events| <= |o.events|
    decreases TouchCountMax - i
  {
    if i == TouchCountMax then f
    else UpFrom(if i in f.curr then f else ReportUp(f, i), i + 1)
  }

  /** process_report on the packet in rx_packet. `wake` says that the
      wake-up gesture is armed and the device is suspended. The buttons
      are not part of this state. */
  function ProcessReport(f: Ids, buf: seq<Word>, wake: bool): (o: Ids)
    requires |buf| == PacketBufLen
    ensures |f.events| <= |o.events|
    ensures ByteH(buf[0]) != OnePacketRpt ==> o == f
  {
    if ByteH(buf[0]) != OnePacketRpt then f
    else if wake && TouchCount(buf) >= WakeTouchCount then f.(events := f.events + [Wake])
    else if buf[1] != ExtTouchInfo then f
    else if f.framecounter == FrameCounter(buf) then f
    else
      var f1 := f.(framecounter := FrameCounter(buf));
      var n := TouchCount(buf);
      if n > TouchCountMax then f1
      else if n == 0 then Invalidate(f1)
      else
        var f2 := UpFrom(DownFrom(f1.(curr := {}, usedTools := 0), buf, 0, n), 0);
        f2.(list := f2.curr, listTool := f2.currTool)
  }

  // ---------------------------------------------------------------------
  // Reference definitions of the events

  /** The down/move events of touch records k .. n-1, given the ids of the
      previous report. */
  function DownEvents(list: set<nat>, buf: seq<Word>, k: nat, n: nat): (e: seq<Event>)
    requires |buf| == PacketBufLen && k <= n <= TouchCountMax
    ensures |e| == n - k
    ensures forall j :: k <= j < n ==> e[j - k] == Down(TouchId(buf, j), IsPen(buf, j), TouchId(buf, j) !in list)
  {
    seq(n - k, j requires 0 <= j < n - k => Down(TouchId(buf, k + j), IsPen(buf, k + j), TouchId(buf, k + j) !in list))
  }

  /** The ids below 10 from i on that were reported before and are not
      touching now. */
  function Released(list: set<nat>, curr: set<nat>, i: nat): set<nat>
  {
    set id | id in list && i <= id < TouchCountMax && id !in curr
  }

  /** One up event per released id, in increasing order of id. */
  function UpEvents(list: set<nat>, listTool: set<nat>, curr: set<nat>, i: nat): (e: seq<Event>)
    requires i <= TouchCountMax
    decreases TouchCountMax - i
  {
    if i == TouchCountMax then []
    else (if i in list && i !in curr then [Up(i, i in listTool)] else []) + UpEvents(list, listTool, curr, i + 1)
  }

  // ---------------------------------------------------------------------
  // Properties

  /** The down pass adds the ids of the touch records to the current ids
      and leaves the previous report's ids and the frame counter alone. */
  lemma {:induction false} DownPassIds(f: Ids, buf: seq<Word>, k: nat, n: nat)
    requires |buf| == PacketBufLen && k <= n <= TouchCountMax
    ensures var o := DownFrom(f, buf, k, n);
      && o.curr == f.curr + TouchIds(buf, k, n)
      && o.list == f.list && o.listTool == f.listTool && o.framecounter == f.framecounter
    decreases n - k
  {
    if k < n {
      var g := ReportDown(f, TouchId(buf, k), IsPen(buf, k));
      DownPassIds(g, buf, k + 1, n);
      assert TouchIds(buf, k, n) == {TouchId(buf, k)} + TouchIds(buf, k + 1, n);
    } else {
      assert TouchIds(buf, k, n) == {};
    }
  }

  /** The down pass keeps the tool bit of every id that is not touched: a
      stylus that went away leaves its bit behind. */
  lemma {:induction false} DownPassKeepsOtherTools(f: Ids, buf: seq<Word>, k: nat, n: nat, id: nat)
    requires |buf| == PacketBufLen && k <= n <= TouchCountMax
    requires id !in TouchIds(buf, k, n)
    ensures id in DownFrom(f, buf, k, n).currTool <==> id in f.currTool
    decreases n - k
  {
    if k < n {
      var g := ReportDown(f, TouchId(buf, k), IsPen(buf, k));
      assert TouchId(buf, k) in TouchIds(buf, k, n);
      assert TouchIds(buf, k + 1, n) <= TouchIds(buf, k, n);
      DownPassKeepsOtherTools(g, buf, k + 1, n, id);
    }
  }

  /** The down pass logs one down/move event per record, in record order. */
  lemma {:induction false} DownPassEvents(f: Ids, buf: seq<Word>, k: nat, n: nat)
    requires |buf| == PacketBufLen && k <= n <= TouchCountMax
    ensures DownFrom(f, buf, k, n).events == f.events + DownEvents(f.list, buf, k, n)
    decreases n - k
  {
    if k < n {
      var g := ReportDown(f, TouchId(buf, k), IsPen(buf, k));
      DownPassEvents(g, buf, k + 1, n);
      assert DownEvents(f.list, buf, k, n) == [Down(TouchId(buf, k), IsPen(buf, k), TouchId(buf, k) !in f.list)] + DownEvents(f.list, buf, k + 1, n);
    }
  }

  /** The last record of an id decides its tool bit. */
  lemma {:induction false} LastRecordDecidesTool(f: Ids, buf: seq<Word>, k: nat, n: nat, j: nat)
    requires |buf| == PacketBufLen && k <= j < n <= TouchCountMax
    requires forall j2 :: j < j2 < n ==> TouchId(buf, j2) != TouchId(buf, j)
    ensures TouchId(buf, j) in DownFrom(f, buf, k, n).currTool <==> IsPen(buf, j)
    decreases n - k
  {
    var g := ReportDown(f, TouchId(buf, k), IsPen(buf, k));
    if k < j {
      LastRecordDecidesTool(g, buf, k + 1, n, j);
    } else {
      DownPassKeepsOtherTools(g, buf, k + 1, n, TouchId(buf, j));
    }
  }

  /** The up pass takes the released ids out of the previous report's
      ids; the current ids and both tool masks are untouched. */
  lemma {:induction false} UpPassIds(f: Ids, i: nat)
    requires i <= TouchCountMax
    ensures var o := UpFrom(f, i);
      && o.list == f.list - Released(f.list, f.curr, i)
      && o.curr == f.curr && o.currTool == f.currTool && o.listTool == f.listTool
      && o.framecounter == f.framecounter
    decreases TouchCountMax - i
  {
    if i < TouchCountMax {
      var g := if i in f.curr then f else ReportUp(f, i);
      UpPassIds(g, i + 1);
      assert g.list == f.list - (if i in f.list && i !in f.curr then {i} else {});
      assert Released(g.list, g.curr, i + 1) == Released(f.list, f.curr, i + 1);
      assert Released(f.list, f.curr, i) == Released(f.list, f.curr, i + 1) + (if i in f.list && i !in f.curr then {i} else {});
    } else {
      assert Released(f.list, f.curr, i) == {};
    }
  }

  /** The up pass logs an up event for each released id, in increasing id
      order, with the tool the id had. */
  lemma {:induction false} UpPassEvents(f: Ids, i: nat)
    requires i <= TouchCountMax
    ensures UpFrom(f, i).events == f.events + UpEvents(f.list, f.listTool, f.curr, i)
    decreases TouchCountMax - i
  {
    if i < TouchCountMax {
      var g := if i in f.curr then f else ReportUp(f, i);
      var up := if i in f.list && i !in f.curr then [Up(i, i in f.listTool)] else [];
      assert g.events == f.events + up;
      assert g.listTool == f.listTool && g.curr == f.curr;
      UpPassEvents(g, i + 1);
      assert forall id :: i + 1 <= id ==> (id in f.list <==> id in g.list);
      UpEventsFrom(f.list, g.list, f.listTool, f.curr, i + 1);
      assert UpEvents(f.list, f.listTool, f.curr, i) == up + UpEvents(f.list, f.listTool, f.curr, i + 1);
      assert UpFrom(f, i) == UpFrom(g, i + 1);
      var rest := UpEvents(f.list, f.listTool, f.curr, i + 1);
      assert UpFrom(f, i).events == f.events + up + rest;
      ConcatAssoc(f.events, up, rest);
    } else {
      assert UpEvents(f.list, f.listTool, f.curr, i) == [];
      assert f.events + [] == f.events;
    }
  }

  lemma ConcatAssoc<T>(a: seq<T>, b: seq<T>, c: seq<T>)
    ensures a + b + c == a + (b + c)
  {
  }

  /** UpEvents from i on only look at ids from i on. */
  lemma {:induction false} UpEventsFrom(l1: set<nat>, l2: set<nat>, tools: set<nat>, curr: set<nat>, i: nat)
    requires i <= TouchCountMax
    requires forall id :: i <= id ==> (id in l1 <==> id in l2)
    ensures UpEvents(l1, tools, curr, i) == UpEvents(l2, tools, curr, i)
    decreases TouchCountMax - i
  {
    if i < TouchCountMax {
      UpEventsFrom(l1, l2, tools, curr, i + 1);
    }
  }

  /** A report with 1 to 10 touches: the ids now down are exactly the ids
      of its records, and they become the previous report's ids with their
      tools; a down/move event is logged per record and then an up event
      for every id below 10 that was down before and is not now. Tool bits
      of ids not touched stay as they were. */
  lemma TouchReport(f: Ids, buf: seq<Word>, wake: bool)
    requires |buf| == PacketBufLen
    requires ByteH(buf[0]) == OnePacketRpt && buf[1] == ExtTouchInfo
    requires !(wake && TouchCount(buf) >= WakeTouchCount)
    requires f.framecounter != FrameCounter(buf)
    requires 1 <= TouchCount(buf) <= TouchCountMax
    ensures var n := TouchCount(buf);
      var o := ProcessReport(f, buf, wake);
      && o.list == o.curr == TouchIds(buf, 0, n)
      && o.listTool == o.currTool
      && (forall id :: id !in TouchIds(buf, 0, n) ==> (id in o.currTool <==> id in f.currTool))
      && o.framecounter == FrameCounter(buf)
      && o.events == f.events + DownEvents(f.list, buf, 0, n) + UpEvents(f.list, f.listTool, TouchIds(buf, 0, n), 0)
  {
    var n := TouchCount(buf);
    var f1 := f.(framecounter := FrameCounter(buf), curr := {}, usedTools := 0);
    DownPassIds(f1, buf, 0, n);
    DownPassEvents(f1, buf, 0, n);
    var f2 := DownFrom(f1, buf, 0, n);
    UpPassIds(f2, 0);
    UpPassEvents(f2, 0);
    forall id | id !in TouchIds(buf, 0, n)
      ensures id in f2.currTool <==> id in f.currTool
    {
      DownPassKeepsOtherTools(f1, buf, 0, n, id);
    }
  }

  /** Every event of the up pass puts up a released id, with the tool
      that id had; ids 10 to 15 are never among them. */
  lemma {:induction false} UpEventsReleased(list: set<nat>, listTool: set<nat>, curr: set<nat>, i: nat)
    requires i <= TouchCountMax
    ensures forall ev :: ev in UpEvents(list, listTool, curr, i) ==>
      ev.Up? && ev.id in Released(list, curr, i) && ev.id < TouchCountMax && (ev.pen <==> ev.id in listTool)
    decreases TouchCountMax - i
  {
    if i < TouchCountMax {
      UpEventsReleased(list, listTool, curr, i + 1);
    }
  }

  /** Ids 10 to 15 are never reported up by the up pass. */
  lemma HighIdsNeverUp(list: set<nat>, listTool: set<nat>, curr: set<nat>, id: nat, pen: bool)
    requires id >= TouchCountMax
    ensures Up(id, pen) !in UpEvents(list, listTool, curr, 0)
  {
    UpEventsReleased(list, listTool, curr, 0);
  }

  /** A report without touches puts every id up: the previous ids and tool
      bits are cleared (the current ids are left as they were). */
  lemma EmptyReport(f: Ids, buf: seq<Word>, wake: bool)
    requires |buf| == PacketBufLen
    requires ByteH(buf[0]) == OnePacketRpt && buf[1] == ExtTouchInfo
    requires f.framecounter != FrameCounter(buf) && TouchCount(buf) == 0
    ensures var o := ProcessReport(f, buf, wake);
      o == f.(list := {}, listTool := {}, usedTools := 0, framecounter := FrameCounter(buf), events := f.events + [AllUp])
  {
  }

  /** Reports that are not single-packet touch reports, and repeats of the
      last frame counter, change nothing (a wake-up gesture only logs the
      wake-up key); a touch count above 10 only records the frame
      counter. */
  lemma IgnoredReports(f: Ids, buf: seq<Word>, wake: bool)
    requires |buf| == PacketBufLen
    ensures var o := ProcessReport(f, buf, wake);
      && (ByteH(buf[0]) != OnePacketRpt ==> o == f)
      && (ByteH(buf[0]) == OnePacketRpt && wake && TouchCount(buf) >= WakeTouchCount ==>
            o == f.(events := f.events + [Wake]))
      && (ByteH(buf[0]) == OnePacketRpt && !(wake && TouchCount(buf) >= WakeTouchCount) ==>
            && (buf[1] != ExtTouchInfo ==> o == f)
            && (f.framecounter == FrameCounter(buf) ==> o == f)
            && (buf[1] == ExtTouchInfo && f.framecounter != FrameCounter(buf) && TouchCount(buf) > TouchCountMax ==>
                  o == f.(framecounter := FrameCounter(buf))))
  {
  }
}
