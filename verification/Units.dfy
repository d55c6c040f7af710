/**
  Bytes and UTF-16 code units, as strings and buffers hold them.
 */
module Units {

  type Byte = b: int | 0 <= b < 0x100
  type Unit = u: int | 0 <= u < 0x1_0000
  type Text = seq<Unit>
}
