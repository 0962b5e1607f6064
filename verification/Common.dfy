/** A value that may be absent. */
module Options {
  datatype Option<T> = None | Some(value: T)
}

/** The errno values the code returns, as Linux numbers them. */
module Errno {
  const E2BIG: int := 7
  const EAGAIN: int := 11
  const EACCES: int := 13
  const EINVAL: int := 22
}

/** The shared constants of src/common/fandcfg.h and the configuration record of src/fand/config.h. */
module FandCfg {
  import opened Bytes

  const MAX_ROWS: nat := 16
  const PWM_MAX: nat := 255
  const FATAL_ERR: int := -0x20

  /** `struct fand_config`, as far as the controller and the server read it. */
  datatype ConfigRecord = ConfigRecord(throttle: bool, matrixRows: Byte, hysteresis: Byte, matrix: seq<Byte>)
}
