/** The fixed-width unsigned integers of the Rust code, as ranges of `int` (`usize` is 64 bits wide). */
module Machine {
  type uint8 = x: int | 0 <= x < 0x100
  type uint16 = x: int | 0 <= x < 0x1_0000
  type uint64 = x: int | 0 <= x < 0x1_0000_0000_0000_0000

  const USIZE_MAX := 0xFFFF_FFFF_FFFF_FFFF
}
