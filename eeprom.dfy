/**
 * A stand-in for the M24C64 EEPROM as the marshal sees it through its driver:
 * a flat array of bytes, addressed from 0, and a bus whose transfers can fail.
 * Which transfers fail is given up front as a script, one entry per transfer,
 * so that every outcome of the bus is a function of the device's state.
 */
module Eeprom {
  import opened Wrappers
  import opened Framing

  /** The error a transfer reports (the driver's bus error type). */
  datatype BusError =
    | Fault(code: nat)  // the bus reported a failure
    | OutOfRange        // the transfer runs past the last cell

  /** Planned outcomes of the next transfers: `None` lets one through, `Some(e)` fails it with `e`. */
  type Script = seq<Option<BusError>>

  /** The abstract state of the device: its cells and the bus script still to come. */
  datatype DeviceState = DeviceState(mem: seq<byte>, faults: Script)

  /** The outcome of the next transfer of `n` bytes starting at cell `addr`. */
  function TransferResult(s: DeviceState, addr: nat, n: nat): (r: Result<(), BusError>)
    ensures r.Ok? <==> (Unscripted(s.faults) && addr + n <= |s.mem|)
    ensures r.Err? && !Unscripted(s.faults) ==> r.error == s.faults[0].value
  {
    if s.faults != [] && s.faults[0].Some? then Err(s.faults[0].value)
    else if addr + n > |s.mem| then Err(OutOfRange)
    else Ok(())
  }

  /** The next transfer is not scripted to fail. */
  predicate Unscripted(faults: Script)
  {
    faults == [] || faults[0].None?
  }

  /** None of the next `k` transfers is scripted to fail. */
  predicate Clear(faults: Script, k: nat)
  {
    forall i :: 0 <= i < k && i < |faults| ==> faults[i].None?
  }

  /** The script after one transfer. */
  function Consume(faults: Script): (rest: Script)
    ensures |rest| == if faults == [] then 0 else |faults| - 1
    ensures forall k :: 0 < k && Clear(faults, k) ==> Clear(rest, k - 1)
  {
    if faults == [] then [] else faults[1..]
  }

  /** `mem` with the cells from `addr` on replaced by `data`. */
  function Overwrite(mem: seq<byte>, addr: nat, data: seq<byte>): (r: seq<byte>)
    requires addr + |data| <= |mem|
    ensures |r| == |mem|
    ensures forall k :: 0 <= k < |mem| ==> r[k] == if addr <= k < addr + |data| then data[k - addr] else mem[k]
  {
    mem[..addr] + data + mem[addr + |data|..]
  }

  /** The device after a write transfer of `data` at `addr`: cells change only if it succeeds. */
  function AfterWrite(s: DeviceState, addr: nat, data: seq<byte>): DeviceState
  {
    var mem := if TransferResult(s, addr, |data|).Ok? then Overwrite(s.mem, addr, data) else s.mem;
    DeviceState(mem, Consume(s.faults))
  }

  /** The device after a read transfer: the cells never change. */
  function AfterRead(s: DeviceState): DeviceState
  {
    s.(faults := Consume(s.faults))
  }

  class Device {
    /** The cells of the device; its capacity is `mem.Length`. */
    const mem: array<byte>
    /** Outcomes of the transfers still to come. */
    var faults: Script

    ghost function State(): DeviceState
      reads this, mem
    {
      DeviceState(mem[..], faults)
    }

    constructor (contents: seq<byte>, faults: Script)
      ensures fresh(mem)
      ensures State() == DeviceState(contents, faults)
    {
      mem := new byte[|contents|](i requires 0 <= i < |contents| => contents[i]);
      this.faults := faults;
    }

    /** Stores `data` at cells `addr ..`, one byte at a time, unless the transfer fails. */
    method Write(addr: nat, data: seq<byte>) returns (r: Result<(), BusError>)
      modifies this, mem
      ensures r == TransferResult(old(State()), addr, |data|)
      ensures State() == AfterWrite(old(State()), addr, data)
    {
      if faults != [] && faults[0].Some? {
        r := Err(faults[0].value);
      } else if addr + |data| > mem.Length {
        r := Err(OutOfRange);
      } else {
        var i := 0;
        while i < |data|
          invariant 0 <= i <= |data|
          invariant faults == old(faults)
          invariant forall k :: 0 <= k < mem.Length ==>
            mem[k] == if addr <= k < addr + i then data[k - addr] else old(mem[k])
        {
          mem[addr + i] := data[i];
          i := i + 1;
        }
        assert mem[..] == Overwrite(old(mem[..]), addr, data);
        r := Ok(());
      }
      faults := Consume(faults);
    }

    /** Fills `buf` from cells `addr ..`, one byte at a time, unless the transfer fails. */
    method Read(addr: nat, buf: array<byte>) returns (r: Result<(), BusError>)
      requires buf != mem
      modifies this, buf
      ensures r == TransferResult(old(State()), addr, buf.Length)
      ensures State() == AfterRead(old(State()))
      ensures r.Ok? ==> buf[..] == mem[addr..addr + buf.Length]
    {
      if faults != [] && faults[0].Some? {
        r := Err(faults[0].value);
      } else if addr + buf.Length > mem.Length {
        r := Err(OutOfRange);
      } else {
        var i := 0;
        while i < buf.Length
          invariant 0 <= i <= buf.Length
          invariant faults == old(faults)
          invariant forall k :: 0 <= k < i ==> buf[k] == mem[addr + k]
        {
          buf[i] := mem[addr + i];
          i := i + 1;
        }
        r := Ok(());
      }
      faults := Consume(faults);
    }
  }
}
