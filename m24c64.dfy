/**
 * The EEPROM backend (`M24C64ConfigurationMarshal`): it stores one serialised
 * configuration as a length-prefixed frame at a fixed address of the device,
 * and reads it back, telling a never-written device apart from bus and codec
 * failures.
 *
 * The pure functions WriteSpec, ReadFrameSpec and ReadSpec give the outcome
 * and the new device state of each operation; the class's methods are proved
 * to follow them, and the lemmas below state what the source promises about them.
 */
module M24C64 {
  import opened Wrappers
  import opened Framing
  import opened Eeprom

  /** An error of the serialisation library. */
  datatype DekuError = DekuError(reason: string)

  /** The serialisation of the configuration type: `to_bytes` and `from_bytes`. */
  datatype Codec<!C> = Codec(toBytes: C -> Result<seq<byte>, DekuError>, fromBytes: seq<byte> -> Result<C, DekuError>)

  /** `M24C64ConfigurationError`: codec, bus and never-written storage kept apart. */
  datatype M24C64Error = Deku(deku: DekuError) | I2C(bus: BusError) | BlankEeprom

  /** Storing an already serialised payload: length prefix at `off`, then the payload at `off + 2`. */
  function WriteFrameSpec(off: nat, s: DeviceState, payload: seq<byte>): (Result<(), M24C64Error>, DeviceState)
  {
    var prefix := ToLeBytes(AsU16(|payload|));
    var s1 := AfterWrite(s, off, prefix);
    match TransferResult(s, off, |prefix|)
    case Err(e) => (Err(I2C(e)), s1)
    case Ok(_) =>
      var s2 := AfterWrite(s1, off + LENGTH_SIZE, payload);
      match TransferResult(s1, off + LENGTH_SIZE, |payload|)
      case Err(e) => (Err(I2C(e)), s2)
      case Ok(_) => (Ok(()), s2)
  }

  /** `write`: serialise, then store the frame; a codec failure touches no cell. */
  function WriteSpec<C>(codec: Codec<C>, off: nat, s: DeviceState, config: C): (Result<(), M24C64Error>, DeviceState)
  {
    match codec.toBytes(config)
    case Err(e) => (Err(Deku(e)), s)
    case Ok(payload) => WriteFrameSpec(off, s, payload)
  }

  /** The payload bytes `read` hands to the codec, or why it stopped before. */
  function ReadFrameSpec(off: nat, s: DeviceState): (Result<seq<byte>, M24C64Error>, DeviceState)
  {
    var s1 := AfterRead(s);
    match TransferResult(s, off, LENGTH_SIZE)
    case Err(e) => (Err(I2C(e)), s1)
    case Ok(_) =>
      if IsBlank(s.mem[off], s.mem[off + 1]) then (Err(BlankEeprom), s1)
      else
        var n := FromLeBytes(s.mem[off], s.mem[off + 1]);
        var s2 := AfterRead(s1);
        match TransferResult(s1, off + LENGTH_SIZE, n)
        case Err(e) => (Err(I2C(e)), s2)
        case Ok(_) => (Ok(s.mem[off + LENGTH_SIZE..off + LENGTH_SIZE + n]), s2)
  }

  /** Deserialising a payload, a codec failure reported as `Deku`. */
  function Decode<C>(codec: Codec<C>, payload: seq<byte>): Result<C, M24C64Error>
  {
    match codec.fromBytes(payload)
    case Ok(c) => Ok(c)
    case Err(e) => Err(Deku(e))
  }

  /** `read`: the frame's payload, then deserialised. */
  function ReadSpec<C>(codec: Codec<C>, off: nat, s: DeviceState): (Result<C, M24C64Error>, DeviceState)
  {
    var (frame, s') := ReadFrameSpec(off, s);
    match frame
    case Err(e) => (Err(e), s')
    case Ok(payload) => (Decode(codec, payload), s')
  }

  class M24C64Marshal<C> {
    /** Where the frame starts on the device. */
    const addressOffset: nat
    /** The device (through its driver). */
    const eeprom: Device
    /** The configuration type's serialisation. */
    const codec: Codec<C>

    constructor (eeprom: Device, address: nat, codec: Codec<C>)
      ensures this.eeprom == eeprom && addressOffset == address && this.codec == codec
    {
      this.eeprom := eeprom;
      addressOffset := address;
      this.codec := codec;
    }

    method Write(config: C) returns (r: Result<(), M24C64Error>)
      modifies eeprom, eeprom.mem
      ensures (r, eeprom.State()) == WriteSpec(codec, addressOffset, old(eeprom.State()), config)
    {
      var bytes := codec.toBytes(config);
      if bytes.Err? {
        return Err(Deku(bytes.error));
      }
      var payload := bytes.value;
      var e := eeprom.Write(addressOffset, ToLeBytes(AsU16(|payload|)));
      if e.Err? {
        return Err(I2C(e.error));
      }
      e := eeprom.Write(addressOffset + LENGTH_SIZE, payload);
      if e.Err? {
        return Err(I2C(e.error));
      }
      return Ok(());
    }

    method Read() returns (r: Result<C, M24C64Error>)
      modifies eeprom
      ensures (r, eeprom.State()) == ReadSpec(codec, addressOffset, old(eeprom.State()))
    {
      var lenBuf := new byte[LENGTH_SIZE];
      var e := eeprom.Read(addressOffset, lenBuf);
      if e.Err? {
        return Err(I2C(e.error));
      }
      if lenBuf[0] == ERASED && lenBuf[1] == ERASED {
        return Err(BlankEeprom);
      }
      var buf := new byte[FromLeBytes(lenBuf[0], lenBuf[1])];
      e := eeprom.Read(addressOffset + LENGTH_SIZE, buf);
      if e.Err? {
        return Err(I2C(e.error));
      }
      match codec.fromBytes(buf[..]) {
        case Ok(c) => r := Ok(c);
        case Err(d) => r := Err(Deku(d));
      }
    }
  }

  // ---------------------------------------------------------------------------
  // What the write path promises

  /** A payload that cannot be serialised gives `Deku` and no transfer happens at all. */
  lemma WriteEncodeFailure<C>(codec: Codec<C>, off: nat, s: DeviceState, config: C)
    requires codec.toBytes(config).Err?
    ensures WriteSpec(codec, off, s, config) == (Err(Deku(codec.toBytes(config).error)), s)
  {
  }

  /**
   * A successful write: the length prefix is the truncated payload size, low
   * byte first, the payload follows it, and no other cell changes.
   */
  lemma {:induction false} WriteLayout<C>(codec: Codec<C>, off: nat, s: DeviceState, config: C)
    requires codec.toBytes(config).Ok?
    requires Clear(s.faults, 2)
    requires off + LENGTH_SIZE + |codec.toBytes(config).value| <= |s.mem|
    ensures var payload := codec.toBytes(config).value;
      var (r, s') := WriteSpec(codec, off, s, config);
      && r == Ok(())
      && s'.mem == Overwrite(s.mem, off, Frame(payload))
      && s'.mem[off] as int == |payload| % U16_RANGE % 256
      && s'.mem[off + 1] as int == |payload| % U16_RANGE / 256
      && s'.mem[off + LENGTH_SIZE..off + LENGTH_SIZE + |payload|] == payload
      && (forall k :: 0 <= k < |s.mem| && !(off <= k < off + LENGTH_SIZE + |payload|) ==> s'.mem[k] == s.mem[k])
  {
    var payload := codec.toBytes(config).value;
    WriteFrameClear(off, s, payload);
    FrameCells(s.mem, off, payload);
  }

  /** Both transfers of a frame write go through: the device then holds the whole frame. */
  lemma WriteFrameClear(off: nat, s: DeviceState, payload: seq<byte>)
    requires Clear(s.faults, 2)
    requires off + LENGTH_SIZE + |payload| <= |s.mem|
    ensures WriteFrameSpec(off, s, payload)
      == (Ok(()), DeviceState(Overwrite(s.mem, off, Frame(payload)), Consume(Consume(s.faults))))
  {
    var prefix := ToLeBytes(AsU16(|payload|));
    var s1 := AfterWrite(s, off, prefix);
    assert s1.mem == Overwrite(s.mem, off, prefix);
    assert Unscripted(s1.faults);
    OverwriteTwice(s.mem, off, prefix, payload);
  }

  /** The cells of a device holding a frame at `off`. */
  lemma FrameCells(mem: seq<byte>, off: nat, payload: seq<byte>)
    requires off + LENGTH_SIZE + |payload| <= |mem|
    ensures var m := Overwrite(mem, off, Frame(payload));
      && m[off] as int == |payload| % U16_RANGE % 256
      && m[off + 1] as int == |payload| % U16_RANGE / 256
      && m[off + LENGTH_SIZE..off + LENGTH_SIZE + |payload|] == payload
      && (forall k :: 0 <= k < |mem| && !(off <= k < off + LENGTH_SIZE + |payload|) ==> m[k] == mem[k])
  {
    var f := Frame(payload);
    var m := Overwrite(mem, off, f);
    assert m[off] == f[0] && m[off + 1] == f[1];
    FrameHeader(payload);
    assert m[off + LENGTH_SIZE..off + LENGTH_SIZE + |payload|] == f[LENGTH_SIZE..] by {
      forall k | off + LENGTH_SIZE <= k < off + LENGTH_SIZE + |payload|
        ensures m[k] == f[k - off]
      {
      }
    }
  }

  /** The two header bytes of a frame: low and high byte of the truncated size. */
  lemma FrameHeader(payload: seq<byte>)
    ensures Frame(payload)[0] as int == |payload| % U16_RANGE % 256
    ensures Frame(payload)[1] as int == |payload| % U16_RANGE / 256
  {
    var n := AsU16(|payload|);
    assert Frame(payload)[..LENGTH_SIZE] == ToLeBytes(n);
  }

  /** Writing `a` and then `b` right after it is writing `a + b` at once. */
  lemma OverwriteTwice(mem: seq<byte>, addr: nat, a: seq<byte>, b: seq<byte>)
    requires addr + |a| + |b| <= |mem|
    ensures Overwrite(Overwrite(mem, addr, a), addr + |a|, b) == Overwrite(mem, addr, a + b)
  {
    var lhs := Overwrite(Overwrite(mem, addr, a), addr + |a|, b);
    var rhs := Overwrite(mem, addr, a + b);
    forall k | 0 <= k < |mem|
      ensures lhs[k] == rhs[k]
    {
    }
  }

  /**
   * A bus failure on the length transfer gives `I2C` with the bus's error, no
   * cell changes, and the payload transfer is never attempted (one transfer used).
   */
  lemma WriteLengthFault<C>(codec: Codec<C>, off: nat, s: DeviceState, config: C, e: BusError)
    requires codec.toBytes(config).Ok?
    requires s.faults != [] && s.faults[0] == Some(e)
    ensures WriteSpec(codec, off, s, config) == (Err(I2C(e)), DeviceState(s.mem, s.faults[1..]))
  {
  }

  /**
   * A bus failure on the payload transfer gives `I2C` with the bus's error after
   * the new length prefix has already been stored: the write is not atomic.
   */
  lemma {:induction false} WritePayloadFault<C>(codec: Codec<C>, off: nat, s: DeviceState, config: C, e: BusError)
    requires codec.toBytes(config).Ok?
    requires off + LENGTH_SIZE <= |s.mem|
    requires |s.faults| >= 2 && s.faults[0].None? && s.faults[1] == Some(e)
    ensures var payload := codec.toBytes(config).value;
      WriteSpec(codec, off, s, config)
        == (Err(I2C(e)), DeviceState(Overwrite(s.mem, off, ToLeBytes(AsU16(|payload|))), s.faults[2..]))
  {
    var payload := codec.toBytes(config).value;
    var s1 := AfterWrite(s, off, ToLeBytes(AsU16(|payload|)));
    assert s1.faults == s.faults[1..];
    assert s1.faults[0] == Some(e);
    assert s1.faults[1..] == s.faults[2..];
  }

  /**
   * `n` successive writes of the same configuration, as `n` commits without an
   * edit in between: the result of the last one and the device after all of them.
   */
  function WriteRepeated<C>(codec: Codec<C>, off: nat, s: DeviceState, config: C, n: nat): (Result<(), M24C64Error>, DeviceState)
    decreases n
  {
    if n == 0 then (Ok(()), s)
    else
      var (r, s1) := WriteSpec(codec, off, s, config);
      if n == 1 then (r, s1) else WriteRepeated(codec, off, s1, config, n - 1)
  }

  /**
   * Writing the same configuration again, any number of times, succeeds and
   * leaves every cell as the first write left it: repeated commits of an
   * unchanged value are idempotent on the device.
   */
  lemma {:induction false} WriteRepeatedSameCells<C>(codec: Codec<C>, off: nat, s: DeviceState, config: C, n: nat)
    requires n >= 1
    requires codec.toBytes(config).Ok?
    requires Clear(s.faults, n + n)
    requires off + LENGTH_SIZE + |codec.toBytes(config).value| <= |s.mem|
    ensures var (r, s') := WriteRepeated(codec, off, s, config, n);
      r == Ok(()) && s'.mem == Overwrite(s.mem, off, Frame(codec.toBytes(config).value))
    decreases n
  {
    var payload := codec.toBytes(config).value;
    WriteFrameClear(off, s, payload);
    if n > 1 {
      var s1 := WriteSpec(codec, off, s, config).1;
      ConsumedTwiceClear(s.faults, n + n);
      WriteRepeatedSameCells(codec, off, s1, config, n - 1);
      OverwriteAgain(s.mem, off, Frame(payload));
    }
  }

  /** Storing the same block twice at the same place is storing it once. */
  lemma OverwriteAgain(mem: seq<byte>, addr: nat, data: seq<byte>)
    requires addr + |data| <= |mem|
    ensures Overwrite(Overwrite(mem, addr, data), addr, data) == Overwrite(mem, addr, data)
  {
    var once := Overwrite(mem, addr, data);
    var twice := Overwrite(once, addr, data);
    forall k | 0 <= k < |mem|
      ensures twice[k] == once[k]
    {
    }
  }

  /** Two transfers later, two fewer of the planned transfers remain clear. */
  lemma ConsumedTwiceClear(faults: Script, k: nat)
    requires k >= 2 && Clear(faults, k)
    ensures Clear(Consume(Consume(faults)), k - 2)
  {
  }

  // ---------------------------------------------------------------------------
  // What the read path promises

  /**
   * Two erased length bytes give `BlankEeprom` after a single transfer: the
   * payload is never read and the codec never runs.
   */
  lemma ReadBlank<C>(codec: Codec<C>, off: nat, s: DeviceState)
    requires Unscripted(s.faults)
    requires off + LENGTH_SIZE <= |s.mem|
    requires s.mem[off] == ERASED && s.mem[off + 1] == ERASED
    ensures ReadSpec(codec, off, s) == (Err(BlankEeprom), AfterRead(s))
  {
  }

  /**
   * A length field other than the blank sentinel makes `read` fetch exactly
   * that many bytes after it and hand them to the codec; a codec failure is `Deku`.
   */
  lemma ReadDecodes<C>(codec: Codec<C>, off: nat, s: DeviceState)
    requires Clear(s.faults, 2)
    requires off + LENGTH_SIZE <= |s.mem|
    requires !IsBlank(s.mem[off], s.mem[off + 1])
    requires off + LENGTH_SIZE + FromLeBytes(s.mem[off], s.mem[off + 1]) <= |s.mem|
    ensures var n := FromLeBytes(s.mem[off], s.mem[off + 1]);
      var payload := s.mem[off + LENGTH_SIZE..off + LENGTH_SIZE + n];
      && ReadFrameSpec(off, s).0 == Ok(payload)
      && ReadSpec(codec, off, s) == (Decode(codec, payload), AfterRead(AfterRead(s)))
      && (codec.fromBytes(payload).Err? ==> ReadSpec(codec, off, s).0 == Err(Deku(codec.fromBytes(payload).error)))
  {
    assert Unscripted(AfterRead(s).faults);
  }

  /**
   * A bus failure on the length transfer gives `I2C` with the bus's error after
   * a single transfer: the payload is never read and the codec never runs.
   */
  lemma ReadLengthFault<C>(codec: Codec<C>, off: nat, s: DeviceState, e: BusError)
    requires s.faults != [] && s.faults[0] == Some(e)
    ensures ReadSpec(codec, off, s) == (Err(I2C(e)), AfterRead(s))
  {
  }

  /**
   * A bus failure on the payload transfer, after a non-blank length was read,
   * gives `I2C` with the bus's error after two transfers; the codec never runs.
   */
  lemma {:induction false} ReadPayloadFault<C>(codec: Codec<C>, off: nat, s: DeviceState, e: BusError)
    requires off + LENGTH_SIZE <= |s.mem|
    requires |s.faults| >= 2 && s.faults[0].None? && s.faults[1] == Some(e)
    requires !IsBlank(s.mem[off], s.mem[off + 1])
    ensures ReadSpec(codec, off, s) == (Err(I2C(e)), AfterRead(AfterRead(s)))
  {
    var s1 := AfterRead(s);
    assert s1.faults == s.faults[1..];
    assert s1.faults[0] == Some(e);
  }

  /** A device erased throughout reads as blank, never as a codec failure. */
  lemma {:induction false} ErasedDeviceReadsBlank<C>(codec: Codec<C>, off: nat, s: DeviceState)
    requires Unscripted(s.faults)
    requires off + LENGTH_SIZE <= |s.mem|
    requires forall k :: 0 <= k < |s.mem| ==> s.mem[k] == ERASED
    ensures ReadSpec(codec, off, s).0 == Err(BlankEeprom)
  {
    assert s.mem[off] == ERASED && s.mem[off + 1] == ERASED;
    ReadBlank(codec, off, s);
  }

  // ---------------------------------------------------------------------------
  // Write, then read

  /**
   * After a successful write of a payload whose size is not the blank sentinel,
   * `read` hands the codec exactly the bytes that were written.
   */
  lemma {:induction false} WriteThenReadFrame<C>(codec: Codec<C>, off: nat, s: DeviceState, config: C)
    requires codec.toBytes(config).Ok?
    requires |codec.toBytes(config).value| < BLANK_LENGTH
    requires Clear(s.faults, 4)
    requires off + LENGTH_SIZE + |codec.toBytes(config).value| <= |s.mem|
    ensures var (w, s') := WriteSpec(codec, off, s, config);
      w == Ok(()) && ReadFrameSpec(off, s').0 == Ok(codec.toBytes(config).value)
  {
    var payload := codec.toBytes(config).value;
    WriteLayout(codec, off, s, config);
    var s' := WriteSpec(codec, off, s, config).1;
    assert Clear(s'.faults, 2) by {
      ConsumedTwiceClear(s.faults, 4);
    }
    var f := Frame(payload);
    assert s'.mem[off] == f[0] && s'.mem[off + 1] == f[1];
    FrameBlankIffSentinelSize(payload);
    assert FromLeBytes(s'.mem[off], s'.mem[off + 1]) == |payload|;
    ReadDecodes(codec, off, s');
  }

  /**
   * With a codec whose `from_bytes` undoes its `to_bytes` (an assumption about the
   * serialisation library, not something this code establishes), a written
   * configuration reads back equal.
   */
  lemma {:induction false} WriteThenReadRoundTrip<C>(codec: Codec<C>, off: nat, s: DeviceState, config: C)
    requires codec.toBytes(config).Ok?
    requires codec.fromBytes(codec.toBytes(config).value) == Ok(config)
    requires |codec.toBytes(config).value| < BLANK_LENGTH
    requires Clear(s.faults, 4)
    requires off + LENGTH_SIZE + |codec.toBytes(config).value| <= |s.mem|
    ensures var (w, s') := WriteSpec(codec, off, s, config);
      w == Ok(()) && ReadSpec(codec, off, s').0 == Ok(config)
  {
    WriteThenReadFrame(codec, off, s, config);
  }

  /**
   * Nothing rejects a payload of 0xFFFF bytes: it is written successfully, and
   * its length prefix is the blank sentinel, so reading it back gives `BlankEeprom`.
   */
  lemma {:induction false} SentinelSizeReadsBlank<C>(codec: Codec<C>, off: nat, s: DeviceState, config: C)
    requires codec.toBytes(config).Ok?
    requires |codec.toBytes(config).value| == BLANK_LENGTH
    requires Clear(s.faults, 3)
    requires off + LENGTH_SIZE + BLANK_LENGTH <= |s.mem|
    ensures var (w, s') := WriteSpec(codec, off, s, config);
      w == Ok(()) && ReadSpec(codec, off, s').0 == Err(BlankEeprom)
  {
    var payload := codec.toBytes(config).value;
    WriteLayout(codec, off, s, config);
    var s' := WriteSpec(codec, off, s, config).1;
    assert Unscripted(s'.faults) by {
      assert Clear(Consume(Consume(s.faults)), 1);
    }
    var f := Frame(payload);
    assert s'.mem[off] == f[0] && s'.mem[off + 1] == f[1];
    FrameBlankIffSentinelSize(payload);
    ReadBlank(codec, off, s');
  }

  /**
   * First boot on an erased device: `read` reports `BlankEeprom`, and the
   * fallback write of the default leaves the frame of its serialisation at the
   * offset and every other cell erased.
   */
  lemma {:induction false} FirstBootLayout<C>(codec: Codec<C>, off: nat, s: DeviceState, dflt: C)
    requires forall k :: 0 <= k < |s.mem| ==> s.mem[k] == ERASED
    requires Clear(s.faults, 3)
    requires codec.toBytes(dflt).Ok?
    requires off + LENGTH_SIZE + |codec.toBytes(dflt).value| <= |s.mem|
    ensures var (rd, s1) := ReadSpec(codec, off, s);
      var (w, s2) := WriteSpec(codec, off, s1, dflt);
      var payload := codec.toBytes(dflt).value;
      && rd == Err(BlankEeprom)
      && w == Ok(())
      && s2.mem == s.mem[..off] + Frame(payload) + s.mem[off + LENGTH_SIZE + |payload|..]
  {
    ErasedDeviceReadsBlank(codec, off, s);
    ReadBlank(codec, off, s);
    var s1 := AfterRead(s);
    assert Clear(s1.faults, 2);
    WriteLayout(codec, off, s1, dflt);
  }
}
