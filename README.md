# grapple-config, modelled in Dafny

This project models the persistence core of `grapple-config`, a `no_std` Rust
library that keeps a device's configuration in two places: a live value that
the application edits and a durable copy held by a pluggable storage backend.

- `ConfigurationProvider` holds the live ("volatile") configuration and the
  snapshot last marked as applied. It owns one backend. On construction it
  reads the backend. If that read fails, it writes `Config::default()` and
  adopts it. `commit` hands the live value to the backend.
- `VolatileMarshal` is a backend that stores nothing, never fails and reads
  back the default.
- `M24C64ConfigurationMarshal` is a backend on an M24C64 I2C EEPROM. It
  serialises the configuration and writes a two-byte little-endian length
  (the size cast with `as u16`) at a fixed offset, then the payload right
  after it. On read, a length field of `0xFF 0xFF` means the device was never
  written (`BlankEeprom`). Codec (`Deku`), bus (`I2C`) and blank errors are
  kept apart.

Layout of the Dafny files:

- `wrappers.dfy`: `Option` and `Result`.
- `framing.dfy` (module `Framing`): bytes, `as u16`, `to_le_bytes` and
  `from_le_bytes`, the blank test and the frame, with their lemmas.
- `eeprom.dfy` (module `Eeprom`): the device as the marshal sees it through
  its driver. It is a class with a byte array and a script of bus outcomes.
  Each transfer uses up one script entry. `Some(e)` fails that transfer with
  `e`; `None`, or an empty script, lets it through. The pure functions
  `TransferResult`, `AfterWrite` and `AfterRead` give each transfer's outcome.
- `m24c64.dfy` (module `M24C64`): the EEPROM backend. `WriteSpec`,
  `ReadFrameSpec` and `ReadSpec` give each operation's result and the new
  device state. The class's methods fill the buffers and call the device
  step by step, with the source's early returns, and are proved equal to those
  functions. The lemmas state the byte layout, the error cases and the round
  trip.
- `volatile.dfy` (module `Volatile`): the in-memory backend.
- `provider.dfy` (module `Provider`): the backend interface as the datatype
  `Marshal` (one variant per backend), and the provider as a class.

`Config` is a type parameter `C`. `Config::default()` is a parameter `dflt`.
The serialisation library is a `Codec<C>` value holding two function values,
`toBytes` and `fromBytes`. About these the model assumes nothing. The one
lemma that needs `fromBytes(toBytes(c)) == Ok(c)` (`WriteThenReadRoundTrip`)
takes it as a precondition.

The stored length is 16 bits wide, and the value 0xFFFF doubles as the "never
written" marker. Nothing in `write` keeps a payload's size away from that
value: a payload of exactly 0xFFFF bytes is written successfully and then
reads back as `BlankEeprom` (`SentinelSizeReadsBlank`). The model follows the
code here.

## Model

| member | source | states |
|---|---|---|
| `Framing.AsU16` | src/lib.rs:123 | `as u16` yields a value below 2^16 that agrees with its argument modulo 2^16 and equals it when it already fits |
| `Framing.ToLeBytes` | src/lib.rs:123 | `to_le_bytes` yields two bytes that `from_le_bytes` decodes back to the same length |
| `Framing.FromLeBytes` | src/lib.rs:136 | `from_le_bytes` of two bytes is a length below 2^16 |
| `Framing.LeBytesRoundTrip` | src/lib.rs:136 | encoding a decoded length gives back exactly the two bytes read, so the little-endian encode and decode are inverse both ways |
| `Framing.BlankIsSentinelLength` | src/lib.rs:132-136 | the blank test on the two length bytes holds exactly when they decode to 0xFFFF |
| `Framing.Frame` | src/lib.rs:123-124 | the stored frame is two bytes longer than the payload; its first two bytes decode to the payload size truncated to 16 bits, and the rest is the payload |
| `Framing.FrameBlankIffSentinelSize` | src/lib.rs:123-134 | a frame's length field reads as blank exactly when the payload size is 0xFFFF modulo 2^16 |
| `Eeprom.TransferResult` | src/lib.rs:130 | a transfer succeeds exactly when no fault is scripted for it and it stays within the device; a scripted fault is returned as is |
| `Eeprom.Overwrite` | src/lib.rs:123-124 | a stored block replaces exactly the cells it covers and keeps every other cell |
| `Eeprom.Device.Write` | src/lib.rs:123-124 | a write transfer returns the transfer's outcome, and it changes the cells it covers only if it succeeds |
| `Eeprom.Device.Read` | src/lib.rs:130 | a read transfer returns the transfer's outcome, fills the buffer with exactly the cells read on success, and never changes the cells |
| `M24C64.M24C64Marshal.constructor` | src/lib.rs:108-110 | the marshal keeps the device, the address offset and the codec it is given |
| `M24C64.M24C64Marshal.Write` | src/lib.rs:121-126 | `write` serialises, stores the length, then the payload, returning early on the first failure; result and device state are those of `WriteSpec` |
| `M24C64.M24C64Marshal.Read` | src/lib.rs:128-149 | `read` fetches the length, stops on blank, fetches that many bytes and decodes them; result and device state are those of `ReadSpec` |
| `M24C64.WriteEncodeFailure` | src/lib.rs:122 | a serialisation failure gives `Deku` with the codec's error and leaves the device, script included, untouched |
| `M24C64.WriteLayout` | src/lib.rs:121-126 | a write with both transfers clear succeeds; the cell at the offset is the truncated size's low byte and the next cell is its high byte; the payload follows them, and no other cell changes |
| `M24C64.WriteLengthFault` | src/lib.rs:123 | a bus fault on the length transfer gives `I2C` with that fault, changes no cell and uses up exactly one transfer, so the payload is never sent |
| `M24C64.WritePayloadFault` | src/lib.rs:123-124 | a bus fault on the payload transfer gives `I2C` with that fault after the new length bytes were stored: the write is not atomic |
| `M24C64.WriteRepeatedSameCells` | src/lib.rs:121-126 | writing the same configuration any number of times in a row, as repeated commits without an edit, succeeds and leaves every cell as a single write leaves it |
| `M24C64.ReadBlank` | src/lib.rs:130-134 | two erased length bytes give `BlankEeprom` after a single transfer, without reading the payload or running the codec |
| `M24C64.ReadDecodes` | src/lib.rs:136-147 | a non-blank length makes `read` hand the codec exactly that many bytes after the length field; a codec failure is `Deku` |
| `M24C64.ReadLengthFault` | src/lib.rs:130 | a bus fault on the length transfer gives `I2C` with that fault after a single transfer; the payload is never read and the codec never runs |
| `M24C64.ReadPayloadFault` | src/lib.rs:136-137 | a bus fault on the payload transfer after a non-blank length gives `I2C` with that fault after two transfers; the codec never runs |
| `M24C64.ErasedDeviceReadsBlank` | src/lib.rs:128-134 | a fully erased device reads as `BlankEeprom`, never as a codec failure |
| `M24C64.WriteThenReadFrame` | src/lib.rs:121-147 | after a successful write of a payload shorter than 0xFFFF bytes, `read` passes the codec exactly the written payload |
| `M24C64.WriteThenReadRoundTrip` | src/lib.rs:121-147 | if the codec's `from_bytes` undoes its `to_bytes`, a written configuration reads back equal |
| `M24C64.SentinelSizeReadsBlank` | src/lib.rs:123-134 | a 0xFFFF-byte payload is written without complaint and then reads back as `BlankEeprom` |
| `M24C64.FirstBootLayout` | src/lib.rs:25-35 | first boot on an erased device: `read` gives `BlankEeprom`; the fallback write of the default succeeds and leaves its frame at the offset, with every other cell still erased |
| `Volatile.Write` | src/lib.rs:74-76 | the in-memory backend's `write` never fails |
| `Volatile.Read` | src/lib.rs:78-80 | the in-memory backend's `read` never fails and returns `Config::default()` |
| `Provider.Marshal.Write` | src/lib.rs:10 | `write` on either backend: the result and the stored state are those of that backend's write |
| `Provider.Marshal.Read` | src/lib.rs:11 | `read` on either backend: the result and the stored state are those of that backend's read |
| `Provider.VolatileBackendNeverFails` | src/lib.rs:72-80 | the in-memory backend's write and read both succeed, its read gives the default, and neither changes what it holds |
| `Provider.ConfigurationProvider.Ready` | src/lib.rs:29 | a new provider holds the given value and the backend, with nothing applied |
| `Provider.ConfigurationProvider.New` | src/lib.rs:25-37 | on a successful read the live value is the one read, nothing is applied and no write is issued; on a failed read the default is written; if that write fails its error is returned and no provider exists, otherwise the live value is the default |
| `Provider.ConfigurationProvider.Commit` | src/lib.rs:39-41 | the backend receives exactly the live value and its result is returned unchanged; the live value and the applied snapshot stay as they were |
| `Provider.ConfigurationProvider.Current` | src/lib.rs:43-45 | returns the live value and touches nothing |
| `Provider.ConfigurationProvider.CurrentMut` | src/lib.rs:47-49 | an edit through the mutable borrow changes only the live value; neither the backend nor the applied snapshot is touched |
| `Provider.ConfigurationProvider.Applied` | src/lib.rs:51-53 | returns the applied snapshot and touches nothing |
| `Provider.ConfigurationProvider.Apply` | src/lib.rs:55-57 | the applied snapshot becomes the live value; the live value and the backend are untouched, and applying again without an edit changes nothing |

## Left out

- The I2C transport and the external `grapple_m24c64::M24C64` driver, including its paging and bus timing, are not modelled. The device is a flat byte array whose capacity is the array's length. A failed transfer changes no cell, although a real bus might fail part-way through a transfer.
- A transfer that would run past the last cell is reported by the model as the bus error `OutOfRange`. What the real driver does there is not modelled; the real part rolls addresses over.
- Nothing in the source or in the model stops a payload of 0xFFFF or more bytes from being written. Such a payload's length field reads back as the blank marker or as a truncated size. Whether the real part's address roll-over lets such a write complete is not modelled.
- The `DelayMs` settling delay is timing only, so it is not modelled.
- The `deku` serialisation library is not modelled. `to_bytes` and `from_bytes` are arbitrary function values. `from_bytes` also returns the unread rest of the input, which the source ignores and the model drops.
- The `unsafe` `transmute` of the buffer's lifetime in `read` is not modelled. It has no effect on behaviour.
- The `cfg`, `no_std`, feature-gate and documentation attributes are build configuration and are not modelled.
- The `ConfigurationMarshal` interface is generic in Rust. Here it is closed over the library's two backends, as the variants of `Provider.Marshal`. The provider's error type is therefore the EEPROM backend's error type.
- `Volatile.Write`, `Volatile.Read`: the source's uninhabited error type (`Infallible`) is rendered as "generic in the error type and always `Ok`". A type with no values cannot be declared here.
- `VolatileMarshal::new` builds a unit value and is not modelled.
- `M24C64ConfigurationMarshal::new` has no delay parameter, because the delay is left out.
- `address_offset + 0x02` is computed on `usize` and could overflow in Rust. Addresses here are unbounded naturals.
- `current_mut` returns a mutable borrow. Here the caller's edit is a function from the old live value to the new one.
