/**
 * The in-memory backend (`VolatileMarshal`): it has no state, accepts every
 * write without storing anything and reads back the default configuration.
 * Its error type is uninhabited in the source; here both operations are
 * generic in the error type `E` and proved never to produce one.
 */
module Volatile {
  import opened Wrappers

  /** `write`: always succeeds, whatever the configuration. */
  function Write<C, E>(config: C): (r: Result<(), E>)
    ensures r.Ok?
  {
    Ok(())
  }

  /** `read`: always succeeds with `Config::default()`, given as `dflt`. */
  function Read<C, E>(dflt: C): (r: Result<C, E>)
    ensures r.Ok? && r.value == dflt
  {
    Ok(dflt)
  }
}
