/**
  The exported functions of the WebAssembly library: `greet`, a greeting
  template, and `compute_hash`, a 64-bit polynomial rolling hash over the
  bytes of its input.
 */
module WasmLib {
  import opened Wrapping

  /** Multiplier of the rolling hash. */
  const MULTIPLIER: u64 := 31

  const GREETING_PREFIX: string := "Hello, "
  const GREETING_SUFFIX: string := " from Rust + WASM! (Auto-rebuilt!)"

  /** `greet(name)`: the name placed between the fixed prefix and suffix. */
  function Greet(name: string): (r: string)
    ensures |r| == |GREETING_PREFIX| + |name| + |GREETING_SUFFIX|
    ensures r[..|GREETING_PREFIX|] == GREETING_PREFIX
    ensures r[|GREETING_PREFIX|..|GREETING_PREFIX| + |name|] == name
    ensures r[|GREETING_PREFIX| + |name|..] == GREETING_SUFFIX
  {
    GREETING_PREFIX + name + GREETING_SUFFIX
  }

  /** One step of the hash loop: `hash.wrapping_mul(31).wrapping_add(byte as u64)`. */
  function Step(hash: u64, byte: u8): u64 {
    WrappingAdd(WrappingMul(hash, MULTIPLIER), byte as u64)
  }

  /** The hash as a left fold of `Step` over the bytes, starting from 0. */
  function Hash(bytes: seq<u8>): u64 {
    if bytes == [] then 0 else Step(Hash(bytes[..|bytes| - 1]), bytes[|bytes| - 1])
  }

  /** `compute_hash`: the accumulator starts at 0 and every byte, in order,
      is folded in with a wrapping multiply by 31 and a wrapping add. */
  method ComputeHash(input: seq<u8>) returns (hash: u64)
    ensures hash == Hash(input)
  {
    hash := 0;
    for i := 0 to |input|
      invariant hash == Hash(input[..i])
    {
      assert input[..i + 1][..i] == input[..i];
      hash := WrappingAdd(WrappingMul(hash, MULTIPLIER), input[i] as u64);
    }
    assert input[..|input|] == input;
  }
}
