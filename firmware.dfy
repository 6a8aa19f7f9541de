/** device_fw_load and the firmware-table lookup of validate_fw as
    imperative code, proved to behave as described in FirmwareSpec. */
module Firmware {
  import opened Words
  import opened Transport
  import opened FirmwareSpec
  import BS = BootloaderSpec
  import BL = Bootloader

  /** One pass of the probe loop of device_fw_load. */
  method ProbeOnce(bus: Bus, codesize: Word, chipCrc0: int) returns (chipCrc: int)
    modifies bus
    ensures PassOut(bus.State(), 1, chipCrc) == ProbePass(old(bus.State()), codesize, chipCrc0)
  {
    chipCrc := chipCrc0;
    var ret := BL.Enter(bus);
    var localCrc: Word := 0;
    if ret == 0 {
      ret, localCrc := BL.GetCrc(bus, 0, codesize);
    }
    if ret == 0 {
      chipCrc := localCrc;
    }
    ret := BL.Exit(bus);
  }

  /** The probe do-while of device_fw_load: passes until a CRC is read, at
      most five. */
  method ProbeChip(bus: Bus, codesize: Word) returns (chipCrc: int, ghost passes: nat)
    modifies bus
    ensures PassOut(bus.State(), passes, chipCrc) == Probe(old(bus.State()), codesize, 0, -1)
  {
    chipCrc := -1;
    var loopcounter := 0;
    while true
      invariant 0 <= loopcounter < FwRetriesMax
      invariant Probe(bus.State(), codesize, loopcounter, chipCrc) == Probe(old(bus.State()), codesize, 0, -1)
      decreases FwRetriesMax - loopcounter
    {
      chipCrc := ProbeOnce(bus, codesize, chipCrc);
      loopcounter := loopcounter + 1;
      if !(loopcounter < FwRetriesMax && chipCrc == -1) {
        break;
      }
    }
    passes := loopcounter;
  }

  /** One reprogramming attempt of device_fw_load. */
  method ReflashOnce(bus: Bus, image: seq<Byte>, filesize: Word, chipCrc0: int) returns (chipCrc: int)
    requires |image| == filesize
    modifies bus
    ensures PassOut(bus.State(), 1, chipCrc) == ReflashPass(old(bus.State()), image, filesize, chipCrc0)
  {
    chipCrc := chipCrc0;
    var ret := BL.Enter(bus);
    if ret == 0 {
      ret := BL.EraseFlash(bus);
    }
    if ret == 0 {
      ret := BL.SetByteMode(bus);
    }
    if ret == 0 {
      ret := BL.WriteFlash(bus, image, filesize);
    }
    var localCrc: Word := 0;
    if ret == 0 {
      ret, localCrc := BL.GetCrc(bus, 0, filesize);
    }
    if ret == 0 {
      chipCrc := localCrc;
    }
    ret := BL.Exit(bus);
  }

  /** The reprogramming loop of device_fw_load: attempts until the chip's
      CRC equals the file's, at most five. */
  method ReprogramChip(bus: Bus, image: seq<Byte>, filesize: Word, fileCrc: Word) returns (chipCrc: int, attempts: nat)
    requires |image| == filesize
    modifies bus
    ensures PassOut(bus.State(), attempts, chipCrc) == Reflash(old(bus.State()), image, filesize, fileCrc, 0, -1)
  {
    chipCrc := -1;
    attempts := 0;
    while attempts < FwRetriesMax && fileCrc != chipCrc
      invariant 0 <= attempts <= FwRetriesMax
      invariant Reflash(bus.State(), image, filesize, fileCrc, attempts, chipCrc)
             == Reflash(old(bus.State()), image, filesize, fileCrc, 0, -1)
      decreases FwRetriesMax - attempts
    {
      ghost var w := bus.State();
      ghost var crc := chipCrc;
      chipCrc := ReflashOnce(bus, image, filesize, chipCrc);
      attempts := attempts + 1;
      assert Reflash(w, image, filesize, fileCrc, attempts - 1, crc)
          == Reflash(bus.State(), image, filesize, fileCrc, attempts, chipCrc);
    }
  }

  /** The final exit do-while of device_fw_load: at most five exits, until
      one goes out whole. */
  method LeaveBootloader(bus: Bus) returns (ret: int)
    modifies bus
    ensures BS.Out(bus.State(), ret) == FinalExit(old(bus.State()), 0)
  {
    var loopcounter := 0;
    while true
      invariant 0 <= loopcounter < FwRetriesMax
      invariant FinalExit(bus.State(), loopcounter) == FinalExit(old(bus.State()), 0)
      decreases FwRetriesMax - loopcounter
    {
      ret := BL.Exit(bus);
      loopcounter := loopcounter + 1;
      if !(loopcounter < FwRetriesMax && ret != 0) {
        break;
      }
    }
  }

  /** device_fw_load. `attempts` is the number of reprogramming attempts
      made, which the driver does not return. */
  method DeviceFwLoad(bus: Bus, image: seq<Byte>, filesize: Word, codesize: Word, force: bool,
                      crc16: seq<Byte> -> Word) returns (r: int, ghost attempts: nat)
    requires codesize <= filesize
    modifies bus
    ensures LoadOut(bus.State(), r, attempts) == FwLoad(old(bus.State()), image, filesize, codesize, force, crc16)
  {
    attempts := 0;
    if |image| != filesize {
      return -EIO, 0;
    }
    var fileCrc1 := crc16(image[..codesize]);
    var chipCrc1, passes := ProbeChip(bus, codesize);
    if force || fileCrc1 != chipCrc1 {
      var fileCrc2 := crc16(image[..filesize]);
      var chipCrc2, n := ReprogramChip(bus, image, filesize, fileCrc2);
      attempts := n;
      if fileCrc2 != chipCrc2 {
        return -EAGAIN, attempts;
      }
    }
    var ret := LeaveBootloader(bus);
    r := if ret != 0 then -EIO else 0;
  }

  /** The lookup of validate_fw: the first table entry whose identifiers
      equal the chip's, where an identifier the chip reported as 0 is
      replaced by the platform default; |mappings| when none fits. */
  method FindFirmware(mappings: seq<FwMapping>, chipId: Word, configId: Word,
                      defaultChipId: Word, defaultConfigId: Word) returns (i: nat)
    ensures i <= |mappings|
    ensures var chip := EffectiveId(chipId, defaultChipId);
      var config := EffectiveId(configId, defaultConfigId);
      && (i < |mappings| ==> Matches(mappings[i], chip, config))
      && (forall j :: 0 <= j < i ==> !Matches(mappings[j], chip, config))
  {
    var chip := if chipId != 0 then chipId else defaultChipId;
    var config := if configId != 0 then configId else defaultConfigId;
    i := 0;
    while i < |mappings|
      invariant i <= |mappings|
      invariant forall j :: 0 <= j < i ==> !Matches(mappings[j], chip, config)
    {
      if mappings[i].configId == config && mappings[i].chipId == chip {
        break;
      }
      i := i + 1;
    }
  }
}
