/** Words of 32 bits as integers. */
module MachineWords {
  const B := 0x1_0000_0000

  type Word = x: int | 0 <= x < 0x1_0000_0000
}
