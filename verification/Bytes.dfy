/** Bytes and the fixed-size hashes made of them. */
module Bytes {
  type byte = n: nat | n < 256
  type uint16 = n: nat | n < 0x1_0000
  type uint32 = n: nat | n < 0x1_0000_0000
  type uint64 = n: nat | n < 0x1_0000_0000_0000_0000
  type int32 = n: int | -0x8000_0000 <= n < 0x8000_0000
  // A byte string whose length fits a 64-bit size.
  type ByteVector = v: seq<byte> | |v| < 0x1_0000_0000_0000_0000
  type IpAddr = ip: seq<byte> | |ip| == 16 witness seq(16, _ => 0)
  type Hash256 = h: seq<byte> | |h| == 32 witness seq(32, _ => 0)

  // The 32 bits of a signed number, and the number they stand for.
  function Unsigned(n: int32): uint32 { if n < 0 then n + 0x1_0000_0000 else n }

  function Signed(n: uint32): int32 { if n >= 0x8000_0000 then n - 0x1_0000_0000 else n }
}
