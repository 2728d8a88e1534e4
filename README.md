# ObsidianSyncWASM: the Rust/WebAssembly library, modelled in Dafny

The repository's WebAssembly library exports two functions to the Obsidian
plugin: `greet`, which places a name into a fixed greeting, and
`compute_hash`, a fast, non-cryptographic 64-bit hash of a string's bytes.
The hash is a polynomial rolling hash. The accumulator starts at 0. For every
byte in order it becomes `hash * 31 + byte`. Both operations wrap around
modulo 2^64, as Rust's `u64::wrapping_mul` and `u64::wrapping_add` do.

The model has four modules:

- `Wrapping` (`wrapping.dfy`): the Rust types `u8` and `u64` as integer
  newtypes, and `wrapping_mul` / `wrapping_add` as explicit reduction modulo
  2^64, with three modular-arithmetic helper lemmas.
- `WasmLib` (`lib.dfy`): `Greet`, the recursive specification `Hash` (a left
  fold of one loop step over the bytes), and `ComputeHash`, the loop itself as
  a method proved equal to `Hash`.
- `HashProperties` (`hash_properties.dfy`): two reference definitions over
  unbounded integers. `Horner` is the same fold without wrap-around. `PolySum`
  is the polynomial `b[0]*31^(n-1) + ... + b[n-1]`. The module proves that the
  hash is that polynomial modulo 2^64, that the empty input gives 0, that a
  single byte gives its own value, and how concatenation composes.
- `LibTests` (`tests.dfy`): the library's two unit tests, as contracts.

The hashed input is the byte sequence of the string. Rust's `str::bytes`
yields the UTF-8 encoding, and the model takes that byte sequence as given.

The hash is not cryptographic; the source says so in its comment at
wasm/src/lib.rs:25. The model therefore proves no collision resistance.

## Model

| member | source | states |
|---|---|---|
| `Wrapping.WrappingMul` | wasm/src/lib.rs:28 | the result is a `u64` congruent to the exact product modulo 2^64, and equal to it when the product fits in 64 bits |
| `Wrapping.WrappingAdd` | wasm/src/lib.rs:28 | the result is a `u64` congruent to the exact sum modulo 2^64; it equals the sum when that fits, and the sum minus 2^64 when it overflows |
| `WasmLib.Greet` | wasm/src/lib.rs:17-19 | the greeting has length prefix + name + suffix; it starts with "Hello, ", then holds the name unchanged, then ends with " from Rust + WASM! (Auto-rebuilt!)" |
| `WasmLib.ComputeHash` | wasm/src/lib.rs:24-31 | the loop returns exactly `Hash(input)`, the left fold of `hash.wrapping_mul(31).wrapping_add(byte)` over the bytes in order, starting from 0 |
| `HashProperties.HashBaseCases` | wasm/src/lib.rs:26-30 | the empty input hashes to 0, and a one-byte input hashes to that byte's value |
| `HashProperties.HashSnoc` | wasm/src/lib.rs:27-29 | appending a byte to the input folds it into the previous hash with one loop step |
| `HashProperties.StepMod` | wasm/src/lib.rs:28 | if the accumulator equals some exact value modulo 2^64, one wrapping step keeps it equal to `exact * 31 + byte` modulo 2^64 |
| `HashProperties.HashIsHornerMod` | wasm/src/lib.rs:26-29 | the wrapping fold equals the exact, unbounded Horner evaluation in base 31 reduced modulo 2^64 |
| `HashProperties.HornerConcat` | wasm/src/lib.rs:27-29 | the exact Horner value of `a + b` is `Horner(a) * 31^n + Horner(b)`, where n is the length of b |
| `HashProperties.HashConcat` | wasm/src/lib.rs:27-29 | `Hash(a + b) == (Hash(a) * 31^n + Hash(b)) mod 2^64`, where n is the length of b |
| `HashProperties.HornerIsPolySum` | wasm/src/lib.rs:27-29 | the fold from the last byte equals the polynomial sum from the first byte |
| `HashProperties.HashIsPolynomial` | wasm/src/lib.rs:26-30 | the hash is the sum of `bytes[i] * 31^(n-1-i)` reduced modulo 2^64, so it depends only on the bytes and their order |
| `HashProperties.HashTestVectors` | wasm/src/lib.rs:45-50 | "test" hashes to 3556498 and "different" to 88271470547001, so the two differ |
| `LibTests.GreetWorld` | wasm/src/lib.rs:40 | `greet("World")` is exactly "Hello, World from Rust + WASM! (Auto-rebuilt!)" |
| `LibTests.GreetInjective` | wasm/src/lib.rs:18 | two greetings are equal exactly when the names are equal |
| `LibTests.TestComputeHash` | wasm/src/lib.rs:44-51 | hashing "test" twice gives equal values, and hashing "different" gives a value unequal to them |

## Left out

- `main` and the panic-hook setup (wasm/src/lib.rs:5-13): start-up glue for the browser runtime, with no logic.
- The `wasm_bindgen` export attributes and the JavaScript/TypeScript boundary: foreign-interface plumbing.
- UTF-8 encoding of the `&str` argument (`input.bytes()`): the model's input is the byte sequence itself, and `Greet` works on Dafny strings, which are sequences of characters.
- Collision resistance: the hash is documented as non-cryptographic, and only the one pair of inputs in the unit test is proved to hash differently.
- Determinism is not a separate lemma: `Hash` is a function of the bytes, and `ComputeHash` is proved equal to it, so equal inputs give equal results.
- Synchronisation: the library contains no synchronisation code, so there is nothing of that kind to model.
