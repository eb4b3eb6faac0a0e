/** Register map of the host interface block (rtl/loader/firmware/host.h).
    Only the values are used; the hardware behaviour behind them is not modelled. */
module Host {

  /** Base address of the memory-mapped register block. */
  const HOSTBASE: int := 0xFFFF_FF40

  /** Register offsets relative to HOSTBASE. */
  const SW: int := 0x00
  const CTRL: int := 0x04
  const BOOTDATA: int := 0x08
  const MOUSEBUTTONS: int := 0x0c
  const MOUSE: int := 0x10
  const VOLUMES: int := 0x14

  /** Bits of the CTRL register. */
  const CTRLF_RESET: int := 1
  const CTRLF_BOOTDONE: int := 2
  const CTRLF_SDCARD: int := 4
  const CTRLF_KEYBOARD: int := 8

  /** Bit of the MOUSE register: the previously written event has been received. */
  const MOUSEF_IDLE: int := 1
}
