/** The sizes miev is built with. */
module Limits {
  const FIFO_SIZE: nat := 131072
  const MAX_EVENT_SIZE: nat := 2048
  const MAX_PARAM_NAME: nat := 64
  const MAX_PARAM_STRING: nat := 512
  const MAX_PARAMS: nat := 64
}
