/** The log of transmitted frames seen from outside: how one log continues
    another, how often a frame occurs, and which flash blocks went out. */
module FrameLog {
  import opened Words
  import opened Transport

  /** The log of `w2` continues the log of `w`. */
  predicate Extends(w: Wire, w2: Wire)
  {
    |w.sent| <= |w2.sent| && w2.sent[..|w.sent|] == w.sent
  }

  /** The frames sent between `w` and `w2`. */
  function Added(w: Wire, w2: Wire): seq<Frame>
    requires Extends(w, w2)
  {
    w2.sent[|w.sent|..]
  }

  /** How many times frame `f` occurs in `fs`. */
  function Count(fs: seq<Frame>, f: Frame): nat
  {
    if fs == [] then 0 else (if fs[0] == f then 1 else 0) + Count(fs[1..], f)
  }

  /** A 130-byte frame: a flash block with its buffer address. */
  predicate IsBlock(f: Frame)
  {
    f.ByteFrame? && |f.bytes| == 130
  }

  /** The flash blocks in a log, in order. */
  function Blocks(fs: seq<Frame>): seq<seq<Byte>>
  {
    if fs == [] then [] else (if IsBlock(fs[0]) then [fs[0].bytes] else []) + Blocks(fs[1..])
  }

  /** Between `w` and `w2` the log only grew, and by no flash block. */
  predicate Quiet(w: Wire, w2: Wire)
  {
    Extends(w, w2) && Blocks(Added(w, w2)) == []
  }

  lemma {:induction false} CountAppend(a: seq<Frame>, b: seq<Frame>, f: Frame)
    ensures Count(a + b, f) == Count(a, f) + Count(b, f)
    decreases |a|
  {
    if a != [] {
      assert (a + b)[1..] == a[1..] + b;
      CountAppend(a[1..], b, f);
    } else {
      assert a + b == b;
    }
  }

  lemma {:induction false} BlocksAppend(a: seq<Frame>, b: seq<Frame>)
    ensures Blocks(a + b) == Blocks(a) + Blocks(b)
    decreases |a|
  {
    if a != [] {
      assert (a + b)[1..] == a[1..] + b;
      BlocksAppend(a[1..], b);
    } else {
      assert a + b == b;
    }
  }

  lemma AddedSplit(w1: Wire, w2: Wire, w3: Wire)
    requires Extends(w1, w2) && Extends(w2, w3)
    ensures Extends(w1, w3) && Added(w1, w3) == Added(w1, w2) + Added(w2, w3)
  {
    assert w3.sent[..|w2.sent|][..|w1.sent|] == w3.sent[..|w1.sent|];
    assert w3.sent[|w1.sent|..] == w3.sent[|w1.sent|..|w2.sent|] + w3.sent[|w2.sent|..];
  }

  lemma QuietTrans(w1: Wire, w2: Wire, w3: Wire)
    requires Quiet(w1, w2) && Quiet(w2, w3)
    ensures Quiet(w1, w3)
  {
    AddedSplit(w1, w2, w3);
    BlocksAppend(Added(w1, w2), Added(w2, w3));
  }

  /** A quiet stretch of traffic leaves the blocks of the log as they were. */
  lemma QuietKeepsBlocks(w: Wire, w2: Wire)
    requires Quiet(w, w2)
    ensures Blocks(w2.sent) == Blocks(w.sent)
  {
    assert w2.sent == w.sent + Added(w, w2);
    BlocksAppend(w.sent, Added(w, w2));
  }

  lemma SendQuiet(w: Wire, f: Frame)
    requires !IsBlock(f)
    ensures Quiet(w, Send(w, f).wire) && Added(w, Send(w, f).wire) == [f]
  {
    var w2 := Send(w, f).wire;
    assert w2.sent[..|w.sent|] == w.sent;
    assert Added(w, w2) == [f];
    assert Blocks([f]) == [] + Blocks([f][1..]);
  }

  lemma QuietRefl(w: Wire, w2: Wire)
    requires w2.sent == w.sent
    ensures Quiet(w, w2) && Added(w, w2) == []
  {
    assert w2.sent[..|w.sent|] == w.sent;
  }

  /** Sending a block adds it to the log's blocks. */
  lemma SentBlock(w: Wire, f: Frame)
    requires IsBlock(f)
    ensures Blocks(Send(w, f).wire.sent) == Blocks(w.sent) + [f.bytes]
  {
    assert Blocks([f]) == [f.bytes] + Blocks([]);
    BlocksAppend(w.sent, [f]);
  }
}
