/** Fixed-width integers and the timing constant shared by the sensor tasks. */
module Units {

  /** An unsigned 8-bit value. */
  type u8 = x: int | 0 <= x < 0x100

  /** An unsigned 16-bit value: a raw ADC code or a narrowed lux reading. */
  type u16 = x: int | 0 <= x < 0x1_0000

  /** The largest value a `u16` can hold. */
  const U16_MAX: u16 := 0xFFFF

  /** A duration, in milliseconds. */
  type Millis = nat

  /** The pause that ends every sensor sampling cycle: one second. */
  const COOLDOWN: Millis := 1000
}
