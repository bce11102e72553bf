module ByteTypes {
  type Byte = b: int | 0 <= b < 0x100
  type Bit = b: int | 0 <= b < 2
}
