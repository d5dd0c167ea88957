/** Commands and device numbers of inc/fs.h, and the machine's 32-bit arithmetic. */
module Devices {

  const READ: int := 0
  const WRITE: int := 1
  const READA: int := 2
  const WRITEA: int := 3

  /** Only the hard disk has a driver. */
  const MAJOR_HD: nat := 3

  predicate HasDriver(dev: nat): (r: bool)
    ensures r <==> 0x300 <= dev < 0x400
  {
    dev / 256 == MAJOR_HD
  }

  const U32: nat := 0x1_0000_0000

  lemma DivMod(a: nat, b: nat)
    requires b > 0
    ensures a == (a / b) * b + a % b && a % b < b
  {
  }

  lemma MulMono(a: nat, b: nat, c: nat)
    requires a <= b
    ensures a * c <= b * c
  {
  }
}
