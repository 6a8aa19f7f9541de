/** The firmware update (device_fw_load) and the firmware-table lookup of
    validate_fw, as functions of the transport value. The CRC-16 routine is
    a parameter: nothing is assumed about it. */
module FirmwareSpec {
  import opened Words
  import opened Transport
  import BS = BootloaderSpec
  import Framing

  const FwRetriesMax := 5

  /** An entry of the platform firmware table; the file name is not part
      of this model. The sizes are held as the 16-bit values the update
      works with. */
  datatype FwMapping = FwMapping(configId: Word, chipId: Word, filesize: Word, codesize: Word)

  /** State carried by the probe and reprogramming loops: the transport, the
      number of passes made and the chip CRC variable (-1 until a CRC is read). */
  datatype PassOut = PassOut(wire: Wire, passes: nat, chipCrc: int)

  /** Outcome of the whole update: result code and number of reprogramming
      attempts. */
  datatype LoadOut = LoadOut(wire: Wire, r: int, attempts: nat)

  /** An identifier from the chip, or the platform default when it is 0. */
  function EffectiveId(id: Word, default: Word): (e: Word)
    ensures id != 0 ==> e == id
    ensures id == 0 ==> e == default
  {
    if id != 0 then id else default
  }

  /** A firmware-table entry that fits the chip: both identifiers equal. */
  predicate Matches(m: FwMapping, chipId: Word, configId: Word)
  {
    m.configId == configId && m.chipId == chipId
  }

  /** One pass of the probe loop: enter the bootloader, read the CRC of the
      code region, leave the bootloader. The chip CRC variable takes the read
      value only when both the entry and the read succeed. */
  function ProbePass(w: Wire, codesize: Word, chipCrc: int): (o: PassOut)
    ensures o.passes == 1
  {
    var e := BS.Enter(w);
    var g := if e.r == 0 then BS.GetCrc(e.wire, 0, codesize) else BS.CrcOut(e.wire, e.r, 0);
    var x := BS.Exit(g.wire);
    PassOut(x.wire, 1, if g.r == 0 then g.crc else chipCrc)
  }

  /** The probe do-while from pass `count` on: repeat while fewer than five
      passes were made and no CRC was read. */
  function Probe(w: Wire, codesize: Word, count: nat, chipCrc: int): (o: PassOut)
    ensures count < o.passes
    decreases FwRetriesMax - count
  {
    var p := ProbePass(w, codesize, chipCrc);
    if count + 1 < FwRetriesMax && p.chipCrc == -1 then Probe(p.wire, codesize, count + 1, p.chipCrc)
    else PassOut(p.wire, count + 1, p.chipCrc)
  }

  /** One reprogramming attempt: enter, erase, byte mode, write the image,
      read back the CRC of the whole image (each step only when all earlier
      ones succeeded), then leave the bootloader whatever happened. */
  function ReflashPass(w: Wire, image: seq<Byte>, filesize: Word, chipCrc: int): (o: PassOut)
    requires |image| == filesize
    ensures o.passes == 1
  {
    var e := BS.Enter(w);
    var er := if e.r == 0 then BS.EraseFlash(e.wire) else e;
    var bm := if er.r == 0 then BS.SetByteMode(er.wire) else er;
    var wf := if bm.r == 0 then BS.WriteFlash(bm.wire, image, filesize) else bm;
    var g := if wf.r == 0 then BS.GetCrc(wf.wire, 0, filesize) else BS.CrcOut(wf.wire, wf.r, 0);
    var x := BS.Exit(g.wire);
    PassOut(x.wire, 1, if g.r == 0 then g.crc else chipCrc)
  }

  /** The reprogramming loop from attempt `count` on: repeat while fewer
      than five attempts were made and the chip CRC differs from the file's. */
  function Reflash(w: Wire, image: seq<Byte>, filesize: Word, fileCrc: Word, count: nat, chipCrc: int): (o: PassOut)
    requires |image| == filesize
    ensures count <= o.passes
    decreases FwRetriesMax - count
  {
    if count < FwRetriesMax && fileCrc != chipCrc then
      var p := ReflashPass(w, image, filesize, chipCrc);
      Reflash(p.wire, image, filesize, fileCrc, count + 1, p.chipCrc)
    else PassOut(w, count, chipCrc)
  }

  /** The final exit do-while from pass `count` on: repeat the exit
      sequence while it fails, at most five times in all. */
  function FinalExit(w: Wire, count: nat): (o: BS.Out)
    ensures o.r == 0 || o.r == -EIO
    decreases FwRetriesMax - count
  {
    var x := BS.Exit(w);
    if count + 1 < FwRetriesMax && x.r != 0 then FinalExit(x.wire, count + 1) else x
  }

  /** device_fw_load for a firmware file `image` and the table entry's sizes;
      `force` is the forced update mode. The code size must not exceed the
      file size, as the code-region CRC is taken over the file's first
      `codesize` bytes. */
  function FwLoad(w: Wire, image: seq<Byte>, filesize: Word, codesize: Word, force: bool,
                  crc16: seq<Byte> -> Word): (o: LoadOut)
    requires codesize <= filesize
    ensures o.r == 0 || o.r == -EIO || o.r == -EAGAIN
    ensures |image| != filesize ==> o == LoadOut(w, -EIO, 0)
  {
    if |image| != filesize then LoadOut(w, -EIO, 0)
    else
      var fileCrc1 := crc16(image[..codesize]);
      var p := Probe(w, codesize, 0, -1);
      if force || fileCrc1 != p.chipCrc then
        var fileCrc2 := crc16(image[..filesize]);
        var f := Reflash(p.wire, image, filesize, fileCrc2, 0, -1);
        if fileCrc2 != f.chipCrc then LoadOut(f.wire, -EAGAIN, f.passes)
        else
          var x := FinalExit(f.wire, 0);
          LoadOut(x.wire, if x.r != 0 then -EIO else 0, f.passes)
      else
        var x := FinalExit(p.wire, 0);
        LoadOut(x.wire, if x.r != 0 then -EIO else 0, 0)
  }

  // ---------------------------------------------------------------------
  // Properties of the update

  /** The probe makes between one and five passes, and it stops early only
      once a CRC was read. */
  lemma {:induction false} ProbeBounded(w: Wire, codesize: Word, count: nat, chipCrc: int)
    requires count < FwRetriesMax
    ensures var o := Probe(w, codesize, count, chipCrc);
      && count < o.passes <= FwRetriesMax
      && (o.passes < FwRetriesMax ==> o.chipCrc != -1)
    decreases FwRetriesMax - count
  {
    var p := ProbePass(w, codesize, chipCrc);
    if count + 1 < FwRetriesMax && p.chipCrc == -1 {
      ProbeBounded(p.wire, codesize, count + 1, p.chipCrc);
      assert Probe(w, codesize, count, chipCrc) == Probe(p.wire, codesize, count + 1, p.chipCrc);
    } else {
      assert Probe(w, codesize, count, chipCrc) == PassOut(p.wire, count + 1, p.chipCrc);
    }
  }

  /** The reprogramming loop makes at most five attempts in all, makes at
      least one more when it may and the CRCs differ, and ends with
      differing CRCs only after the fifth attempt. */
  lemma {:induction false} ReflashBounded(w: Wire, image: seq<Byte>, filesize: Word, fileCrc: Word, count: nat, chipCrc: int)
    requires |image| == filesize && count <= FwRetriesMax
    ensures var o := Reflash(w, image, filesize, fileCrc, count, chipCrc);
      && count <= o.passes <= FwRetriesMax
      && (fileCrc != chipCrc && count < FwRetriesMax ==> o.passes > count)
      && (o.chipCrc != fileCrc ==> o.passes == FwRetriesMax)
    decreases FwRetriesMax - count
  {
    if count < FwRetriesMax && fileCrc != chipCrc {
      var p := ReflashPass(w, image, filesize, chipCrc);
      ReflashBounded(p.wire, image, filesize, fileCrc, count + 1, p.chipCrc);
      assert Reflash(w, image, filesize, fileCrc, count, chipCrc)
          == Reflash(p.wire, image, filesize, fileCrc, count + 1, p.chipCrc);
    } else {
      assert Reflash(w, image, filesize, fileCrc, count, chipCrc) == PassOut(w, count, chipCrc);
    }
  }

  /** A file whose size differs from the table entry is refused with -EIO
      before anything is sent. */
  lemma SizeMismatchRefused(w: Wire, image: seq<Byte>, filesize: Word, codesize: Word, force: bool,
                            crc16: seq<Byte> -> Word)
    requires codesize <= filesize && |image| != filesize
    ensures FwLoad(w, image, filesize, codesize, force, crc16) == LoadOut(w, -EIO, 0)
  {
  }

  /** In the default mode, a chip whose code-region CRC matches the file is
      not reprogrammed: no erase or write attempt is made, and the result is
      that of the final exit. */
  lemma CurrentFirmwareKept(w: Wire, image: seq<Byte>, filesize: Word, codesize: Word,
                            crc16: seq<Byte> -> Word)
    requires codesize <= filesize && |image| == filesize
    requires crc16(image[..codesize]) == Probe(w, codesize, 0, -1).chipCrc
    ensures var o := FwLoad(w, image, filesize, codesize, false, crc16);
      && o.attempts == 0
      && o.wire == FinalExit(Probe(w, codesize, 0, -1).wire, 0).wire
      && (o.r == 0 || o.r == -EIO)
  {
  }

  /** A chip whose CRC could not be read at all (the variable stays -1,
      which no 16-bit file CRC equals) is always reprogrammed. */
  lemma UnreadCrcForcesReflash(w: Wire, image: seq<Byte>, filesize: Word, codesize: Word, force: bool,
                               crc16: seq<Byte> -> Word)
    requires codesize <= filesize && |image| == filesize
    requires Probe(w, codesize, 0, -1).chipCrc == -1
    ensures FwLoad(w, image, filesize, codesize, force, crc16).attempts >= 1
  {
    var p := Probe(w, codesize, 0, -1);
    ReflashBounded(p.wire, image, filesize, crc16(image[..filesize]), 0, -1);
    ReflashAttempts(w, image, filesize, codesize, force, crc16);
  }

  /** When the probe's CRC differs from the file's code-region CRC (or the
      update is forced), the attempts counted are those of the
      reprogramming loop. */
  lemma ReflashAttempts(w: Wire, image: seq<Byte>, filesize: Word, codesize: Word, force: bool,
                        crc16: seq<Byte> -> Word)
    requires codesize <= filesize && |image| == filesize
    requires force || crc16(image[..codesize]) != Probe(w, codesize, 0, -1).chipCrc
    ensures FwLoad(w, image, filesize, codesize, force, crc16).attempts
            == Reflash(Probe(w, codesize, 0, -1).wire, image, filesize, crc16(image[..filesize]), 0, -1).passes
  {
  }

  /** At most five reprogramming attempts are made; -EAGAIN comes only
      after all five, and exactly when the chip was reprogrammed and the
      read-back CRC still differs from the file's. A result of 0 means the
      chip's firmware was verified: the code-region CRC matched when it was
      kept, the whole-image CRC matched when it was reprogrammed. -EIO means
      a size mismatch or a final exit that failed five times. */
  lemma {:induction false} AttemptsBounded(w: Wire, image: seq<Byte>, filesize: Word, codesize: Word, force: bool,
                                           crc16: seq<Byte> -> Word)
    requires codesize <= filesize
    ensures var o := FwLoad(w, image, filesize, codesize, force, crc16);
      && o.attempts <= FwRetriesMax
      && (o.r == -EAGAIN ==> o.attempts == FwRetriesMax)
      && (o.r == 0 || o.r == -EIO || o.r == -EAGAIN)
      && (|image| != filesize ==> o.r == -EIO)
    ensures |image| == filesize ==>
      var o := FwLoad(w, image, filesize, codesize, force, crc16);
      var p := Probe(w, codesize, 0, -1);
      var reflash := force || crc16(image[..codesize]) != p.chipCrc;
      var f := Reflash(p.wire, image, filesize, crc16(image[..filesize]), 0, -1);
      var verified := if reflash then f.chipCrc == crc16(image[..filesize])
                      else p.chipCrc == crc16(image[..codesize]);
      var exit := FinalExit(if reflash then f.wire else p.wire, 0);
      && (o.r == -EAGAIN <==> reflash && f.chipCrc != crc16(image[..filesize]))
      && (o.r == 0 <==> verified && exit.r == 0)
      && (o.r == -EIO <==> verified && exit.r != 0)
  {
    if |image| == filesize {
      var p := Probe(w, codesize, 0, -1);
      ReflashBounded(p.wire, image, filesize, crc16(image[..filesize]), 0, -1);
    }
  }

  /** An attempt whose read-back CRC matches ends the loop: when the first
      attempt fails to match and the second matches, exactly two attempts
      are made. */
  lemma SecondAttemptSuffices(w: Wire, image: seq<Byte>, filesize: Word, fileCrc: Word)
    requires |image| == filesize
    requires ReflashPass(w, image, filesize, -1).chipCrc != fileCrc
    requires var p1 := ReflashPass(w, image, filesize, -1);
      ReflashPass(p1.wire, image, filesize, p1.chipCrc).chipCrc == fileCrc
    ensures var p1 := ReflashPass(w, image, filesize, -1);
      Reflash(w, image, filesize, fileCrc, 0, -1)
        == PassOut(ReflashPass(p1.wire, image, filesize, p1.chipCrc).wire, 2, fileCrc)
  {
    var p1 := ReflashPass(w, image, filesize, -1);
    var p2 := ReflashPass(p1.wire, image, filesize, p1.chipCrc);
    assert Reflash(p1.wire, image, filesize, fileCrc, 1, p1.chipCrc)
        == Reflash(p2.wire, image, filesize, fileCrc, 2, p2.chipCrc);
  }

  /** Every exit pass ends in 0 or -EIO, so the final exit loop does too. */
  lemma {:induction false} FinalExitResult(w: Wire, count: nat)
    requires count < FwRetriesMax
    ensures var o := FinalExit(w, count); o.r == 0 || o.r == -EIO
    decreases FwRetriesMax - count
  {
    var x := BS.Exit(w);
    Framing.SendAllSendsPrefix(w, BS.ExitSeq);
    if count + 1 < FwRetriesMax && x.r != 0 {
      FinalExitResult(x.wire, count + 1);
    }
  }
}
