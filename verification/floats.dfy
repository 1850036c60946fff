/** What the model needs to know about `f32` values beyond their arithmetic: their
    decimal text (`to_string` / `str::parse::<f32>`) and their 32-bit pattern
    (`to_le_bytes`). These are supplied, not defined, because decimal float formatting
    is outside the model. */
module Floats {
  import opened Wrappers
  import opened Utf8

  type U32 = x: nat | x < 0x1_0000_0000

  /** `show` is `f32::to_string`, `parse` is `str::parse::<f32>` (`None` for an error)
      and `bits` is `f32::to_bits`. */
  datatype FloatFormat = FloatFormat(show: real -> string, parse: string -> Option<real>, bits: real -> U32)

  /** Little-endian reading of four bytes. */
  function FromLe(b: seq<byte>): nat
    requires |b| == 4
  {
    b[0] as nat + 256 * b[1] as nat + 65536 * b[2] as nat + 16777216 * b[3] as nat
  }

  /** `u32::to_le_bytes`: least significant byte first. */
  function LeBytes(x: U32): (r: seq<byte>)
    ensures |r| == 4
    ensures FromLe(r) == x
  {
    var q1 := x / 256;
    var q2 := q1 / 256;
    var q3 := q2 / 256;
    LeDigits(x, q1, q2, q3);
    [(x % 256) as byte, (q1 % 256) as byte, (q2 % 256) as byte, q3 as byte]
  }

  lemma LeDigits(x: U32, q1: nat, q2: nat, q3: nat)
    requires q1 == x / 256 && q2 == q1 / 256 && q3 == q2 / 256
    ensures q3 < 256
    ensures x == x % 256 + 256 * (q1 % 256) + 65536 * (q2 % 256) + 16777216 * q3
  {
    assert x == x % 256 + 256 * q1;
    assert q1 == q1 % 256 + 256 * q2;
    assert q2 == q2 % 256 + 256 * q3;
    assert q1 < 16777216;
    assert q2 < 65536;
  }
}
