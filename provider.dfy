/**
 * `ConfigurationProvider`: the live ("volatile") configuration an application
 * edits, the snapshot last marked as applied, and the backend that persists
 * the live value on an explicit commit.
 *
 * The source's provider is generic over any implementation of the
 * `ConfigurationMarshal` interface (`write` and `read`); here the two
 * implementations of the library are the two variants of `Marshal`, and the
 * provider is stated against the outcome functions every variant defines.
 */
module Provider {
  import opened Wrappers
  import opened Eeprom
  import opened M24C64
  import Volatile

  /** What a backend holds: nothing for the in-memory one, the device for the EEPROM one. */
  datatype Storage = NoStorage | DeviceStorage(device: DeviceState)

  /** The implementations of the marshal interface: `write(&config)` and `read()`. */
  datatype Marshal<C> = VolatileBackend | M24C64Backend(marshal: M24C64Marshal<C>)
  {
    /** The objects a backend owns. */
    ghost function Repr(): set<object>
    {
      match this
      case VolatileBackend => {}
      case M24C64Backend(m) => {m.eeprom, m.eeprom.mem}
    }

    /** `st` is a storage of this backend's kind. */
    ghost predicate Holds(st: Storage)
    {
      VolatileBackend? <==> st.NoStorage?
    }

    /** What the backend currently holds. */
    ghost function Stored(): (st: Storage)
      reads Repr()
      ensures Holds(st)
    {
      match this
      case VolatileBackend => NoStorage
      case M24C64Backend(m) => DeviceStorage(m.eeprom.State())
    }

    /** The result of `write(config)` from storage `st`, and the storage after it. */
    ghost function WriteOutcome(st: Storage, config: C): (out: (Result<(), M24C64Error>, Storage))
      requires Holds(st)
      ensures Holds(out.1)
    {
      match this
      case VolatileBackend => (Volatile.Write(config), st)
      case M24C64Backend(m) =>
        var (r, d) := WriteSpec(m.codec, m.addressOffset, st.device, config);
        (r, DeviceStorage(d))
    }

    /** The result of `read()` from storage `st`, and the storage after it; `dflt` is `Config::default()`. */
    ghost function ReadOutcome(st: Storage, dflt: C): (out: (Result<C, M24C64Error>, Storage))
      requires Holds(st)
      ensures Holds(out.1)
    {
      match this
      case VolatileBackend => (Volatile.Read(dflt), st)
      case M24C64Backend(m) =>
        var (r, d) := ReadSpec(m.codec, m.addressOffset, st.device);
        (r, DeviceStorage(d))
    }

    method Write(config: C) returns (r: Result<(), M24C64Error>)
      modifies Repr()
      ensures (r, Stored()) == WriteOutcome(old(Stored()), config)
    {
      match this
      case VolatileBackend =>
        r := Volatile.Write(config);
      case M24C64Backend(m) =>
        r := m.Write(config);
    }

    method Read(dflt: C) returns (r: Result<C, M24C64Error>)
      modifies Repr()
      ensures (r, Stored()) == ReadOutcome(old(Stored()), dflt)
    {
      match this
      case VolatileBackend =>
        r := Volatile.Read(dflt);
      case M24C64Backend(m) =>
        r := m.Read();
    }
  }

  class ConfigurationProvider<C> {
    /** The live configuration. */
    var volatile: C
    /** The value as of the last `Apply`, if any. */
    var lastApplied: Option<C>
    /** The backend, owned by the provider. */
    const marshal: Marshal<C>

    /** The provider in its ready state, before anything was applied. */
    constructor Ready(marshal: Marshal<C>, config: C)
      ensures this.marshal == marshal && volatile == config && lastApplied == None
    {
      this.marshal := marshal;
      volatile := config;
      lastApplied := None;
    }

    /**
     * `new`: adopts what the backend reads, issuing no write. If the read fails,
     * writes the default and adopts it; if that write fails too, its error is
     * returned and no provider exists.
     */
    static method New(marshal: Marshal<C>, dflt: C) returns (r: Result<ConfigurationProvider<C>, M24C64Error>)
      modifies marshal.Repr()
      ensures var (read, afterRead) := marshal.ReadOutcome(old(marshal.Stored()), dflt);
        match read
        case Ok(c) =>
          && marshal.Stored() == afterRead
          && r.Ok? && fresh(r.value) && r.value.marshal == marshal
          && r.value.volatile == c && r.value.lastApplied == None
        case Err(_) =>
          var (written, afterWrite) := marshal.WriteOutcome(afterRead, dflt);
          && marshal.Stored() == afterWrite
          && (written.Err? ==> r == Err(written.error))
          && (written.Ok? ==>
                && r.Ok? && fresh(r.value) && r.value.marshal == marshal
                && r.value.volatile == dflt && r.value.lastApplied == None)
    {
      var current := marshal.Read(dflt);
      var c;
      if current.Ok? {
        c := current.value;
      } else {
        c := dflt;
        var w := marshal.Write(c);
        if w.Err? {
          return Err(w.error);
        }
      }
      var p := new ConfigurationProvider.Ready(marshal, c);
      r := Ok(p);
    }

    /** `commit`: hands exactly the live value to the backend and returns its result unchanged. */
    method Commit() returns (r: Result<(), M24C64Error>)
      modifies marshal.Repr()
      ensures (r, marshal.Stored()) == marshal.WriteOutcome(old(marshal.Stored()), old(volatile))
      ensures volatile == old(volatile) && lastApplied == old(lastApplied)
    {
      r := marshal.Write(volatile);
    }

    /** `current`: the live value; the backend is not touched. */
    method Current() returns (c: C)
      ensures c == volatile
    {
      c := volatile;
    }

    /**
     * `current_mut`: the caller edits the live value in place; `edit` is that
     * edit. Nothing reaches the backend until the next commit.
     */
    method CurrentMut(edit: C -> C)
      modifies this`volatile
      ensures volatile == edit(old(volatile))
      ensures lastApplied == old(lastApplied)
    {
      volatile := edit(volatile);
    }

    /** `applied`: the snapshot taken by the last `Apply`, if any. */
    method Applied() returns (a: Option<C>)
      ensures a == lastApplied
    {
      a := lastApplied;
    }

    /**
     * `apply`: snapshots the live value; the live value and the backend are
     * untouched, and applying again without an edit in between changes nothing.
     */
    method Apply()
      modifies this`lastApplied
      ensures lastApplied == Some(volatile)
      ensures volatile == old(volatile)
      ensures old(lastApplied) == Some(old(volatile)) ==> unchanged(this)
    {
      lastApplied := Some(volatile);
    }
  }

  /** The in-memory backend never fails and never changes what it holds. */
  lemma VolatileBackendNeverFails<C>(config: C, dflt: C)
    ensures Marshal<C>.VolatileBackend.WriteOutcome(NoStorage, config) == (Ok(()), NoStorage)
    ensures Marshal<C>.VolatileBackend.ReadOutcome(NoStorage, dflt) == (Ok(dflt), NoStorage)
  {
  }
}
