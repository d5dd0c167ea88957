/** Bytes, disk sectors and buffer blocks. */
module Bytes {

  type byte = x: int | 0 <= x < 256

  type Sector = s: seq<byte> | |s| == 512 witness seq(512, _ => 0)

  type Block = s: seq<byte> | |s| == 1024 witness seq(1024, _ => 0)
}
