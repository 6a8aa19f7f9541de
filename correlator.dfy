/** The command/report correlator: process_rbcmd hands the report just
    combined to a caller of rbcmd_send_receive that waits for a report with
    its id. */
module Correlator {
  import opened Words
  import opened Reassembly

  /** The rbcmd fields of the driver: a caller waits, a matching report
      was received, the id waited for, the copy of that report and its
      length. */
  datatype Rbcmd = Rbcmd(waiting: bool, received: bool, reportId: Word, copy: seq<Word>, copyLen: Word)

  predicate WellFormed(rb: Rbcmd)
  {
    |rb.copy| == RptLenMax
  }

  /** The report in `a` is the one the waiting caller asked for. */
  predicate Matches(rb: Rbcmd, a: Assembly)
    requires Reassembly.WellFormed(a)
  {
    rb.waiting && rb.reportId == a.report[1]
  }

  /** The driver copies rx_report_len + 1 words without bounding them by
      the 1000-word buffers: the model needs the copy to fit. */
  predicate CopyFits(rb: Rbcmd, a: Assembly)
    requires Reassembly.WellFormed(a)
  {
    Matches(rb, a) ==> a.len + 1 <= RptLenMax
  }

  /** process_rbcmd. */
  function ProcessRbcmd(rb: Rbcmd, a: Assembly): (o: Rbcmd)
    requires WellFormed(rb) && Reassembly.WellFormed(a) && CopyFits(rb, a)
    ensures WellFormed(o)
  {
    if !rb.waiting then rb
    else if rb.reportId != a.report[1] then rb
    else rb.(received := true, copy := Overwrite(rb.copy, 0, a.report[..a.len + 1]), copyLen := a.len)
  }

  /** A waiting caller whose id matches gets the report: the received flag
      is set and the header, id and rx_report_len payload words are copied
      with their length, so the copy carries the id waited for. In every
      other case nothing changes. */
  lemma ProcessRbcmdHandsOver(rb: Rbcmd, a: Assembly)
    requires WellFormed(rb) && Reassembly.WellFormed(a) && CopyFits(rb, a)
    ensures var o := ProcessRbcmd(rb, a);
      && (Matches(rb, a) ==>
            && o.received && o.waiting && o.reportId == rb.reportId
            && o.copy[..a.len + 1] == a.report[..a.len + 1]
            && o.copy[a.len + 1..] == rb.copy[a.len + 1..]
            && o.copyLen == a.len
            && (a.len >= 1 ==> o.copy[1] == rb.reportId))
      && (!Matches(rb, a) ==> o == rb)
  {
    var o := ProcessRbcmd(rb, a);
    if Matches(rb, a) {
      assert o.copy[..a.len + 1] == a.report[..a.len + 1];
    }
  }
}
