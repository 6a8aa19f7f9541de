/** The I2C bus as the driver sees it after its own retry-on-EAGAIN loops:
    a send reports how many units (words or bytes) went out, a receive
    reports how many came in and fills the buffer. The device's answers
    are a script supplied by the environment; every frame handed to the
    bus is recorded in a log. */
module Transport {
  import opened Words

  /** One transmitted frame: a word transaction or a byte transaction. */
  datatype Frame = WordFrame(words: seq<Word>) | ByteFrame(bytes: seq<Byte>)

  /** One receive result: the count the bus reports (negative for an error)
      and the words that land in the caller's buffer. For a byte
      transaction each element's low byte is the received byte. */
  datatype RxReply = RxReply(count: int, data: seq<Word>)

  /** The transport as a value: the frames sent so far and the replies
      still to come. */
  datatype Wire = Wire(sent: seq<Frame>, txReplies: seq<int>, rxReplies: seq<RxReply>)

  datatype SendStep = SendStep(wire: Wire, count: int)
  datatype RecvStep = RecvStep(wire: Wire, count: int, data: seq<Word>)

  /** Hand a frame to the bus; the next scripted count is the result,
      and a bus with nothing left to say fails with -EIO. */
  function Send(w: Wire, f: Frame): (s: SendStep)
    ensures s.wire.sent == w.sent + [f] && s.wire.rxReplies == w.rxReplies
    ensures w.txReplies == [] ==> s.count == -EIO && s.wire.txReplies == []
    ensures w.txReplies != [] ==> s.count == w.txReplies[0] && s.wire.txReplies == w.txReplies[1..]
  {
    if w.txReplies == [] then SendStep(Wire(w.sent + [f], [], w.rxReplies), -EIO)
    else SendStep(Wire(w.sent + [f], w.txReplies[1..], w.rxReplies), w.txReplies[0])
  }

  /** Ask the bus for `want` units; at most `want` of them reach the buffer. */
  function Recv(w: Wire, want: nat): (s: RecvStep)
    ensures s.wire.sent == w.sent && s.wire.txReplies == w.txReplies
    ensures |s.data| <= want
    ensures w.rxReplies == [] ==> s.count == -EIO && s.data == [] && s.wire.rxReplies == []
    ensures w.rxReplies != [] ==> s.count == w.rxReplies[0].count && s.wire.rxReplies == w.rxReplies[1..]
  {
    if w.rxReplies == [] then RecvStep(w, -EIO, [])
    else
      var d := w.rxReplies[0].data;
      RecvStep(Wire(w.sent, w.txReplies, w.rxReplies[1..]), w.rxReplies[0].count,
               if |d| <= want then d else d[..want])
  }

  /** The low bytes of received words (the content of a byte transaction). */
  function LowBytes(d: seq<Word>): (b: seq<Byte>)
    ensures |b| == |d| && forall i :: 0 <= i < |d| ==> b[i] == ByteL(d[i])
  {
    if d == [] then [] else [ByteL(d[0])] + LowBytes(d[1..])
  }

  class Bus {
    ghost var sent: seq<Frame>
    var txReplies: seq<int>
    var rxReplies: seq<RxReply>

    ghost function State(): Wire
      reads this
    {
      Wire(sent, txReplies, rxReplies)
    }

    constructor (txScript: seq<int>, rxScript: seq<RxReply>)
      ensures State() == Wire([], txScript, rxScript)
    {
      sent, txReplies, rxReplies := [], txScript, rxScript;
    }

    /** i2c_tx_words: send a word frame, return the number of words sent. */
    method TxWords(words: seq<Word>) returns (n: int)
      modifies this
      ensures SendStep(State(), n) == Send(old(State()), WordFrame(words))
    {
      sent := sent + [WordFrame(words)];
      if txReplies == [] {
        n := -EIO;
      } else {
        n, txReplies := txReplies[0], txReplies[1..];
      }
    }

    /** i2c_tx_bytes: send a byte frame, return the number of bytes sent. */
    method TxBytes(bytes: seq<Byte>) returns (n: int)
      modifies this
      ensures SendStep(State(), n) == Send(old(State()), ByteFrame(bytes))
    {
      sent := sent + [ByteFrame(bytes)];
      if txReplies == [] {
        n := -EIO;
      } else {
        n, txReplies := txReplies[0], txReplies[1..];
      }
    }

    /** i2c_rx_words / i2c_rx_bytes: receive up to `want` units. */
    method Rx(want: nat) returns (n: int, data: seq<Word>)
      modifies this
      ensures RecvStep(State(), n, data) == Recv(old(State()), want)
    {
      if rxReplies == [] {
        n, data := -EIO, [];
      } else {
        var d := rxReplies[0].data;
        n, data := rxReplies[0].count, if |d| <= want then d else d[..want];
        rxReplies := rxReplies[1..];
      }
    }
  }
}
