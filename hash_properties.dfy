/**
  What the loop of `compute_hash` implies about its result: it is the
  polynomial sum of the bytes in powers of 31, reduced modulo 2^64, it is 0
  on the empty input, and the hash of a concatenation is composed from the
  hashes of its parts.
 */
module HashProperties {
  import opened Wrapping
  import opened WasmLib

  /** 31^n, without wrap-around. */
  function Pow31(n: nat): nat {
    if n == 0 then 1 else 31 * Pow31(n - 1)
  }

  /** Horner evaluation of the bytes in base 31 over unbounded integers: the
      fold of `Hash` without the reduction modulo 2^64. */
  function Horner(bytes: seq<u8>): nat {
    if bytes == [] then 0 else Horner(bytes[..|bytes| - 1]) * 31 + bytes[|bytes| - 1] as nat
  }

  /** The polynomial the hash stands for, summed from the first byte:
      bytes[0] * 31^(n-1) + bytes[1] * 31^(n-2) + ... + bytes[n-1]. */
  function PolySum(bytes: seq<u8>): nat {
    if bytes == [] then 0 else bytes[0] as nat * Pow31(|bytes| - 1) + PolySum(bytes[1..])
  }

  /** The empty input hashes to 0 and a single byte hashes to its own value. */
  lemma HashBaseCases(b: u8)
    ensures Hash([]) == 0
    ensures Hash([b]) as int == b as int
  {
    assert [b][..0] == [];
  }

  /** Folding one more byte into a hash is `Step`. */
  lemma HashSnoc(bytes: seq<u8>, b: u8)
    ensures Hash(bytes + [b]) == Step(Hash(bytes), b)
  {
    assert (bytes + [b])[..|bytes|] == bytes;
  }

  /** A step whose exact result fits in 64 bits does not wrap. */
  lemma StepNoWrap(h: u64, b: u8)
    requires h as int * 31 + b as int < MODULUS
    ensures Step(h, b) as int == h as int * 31 + b as int
  {
  }

  /** One step of the loop keeps the accumulator equal, modulo 2^64, to the
      exact value it stands for. */
  lemma StepMod(exact: int, h: u64, b: u8)
    requires h as int == exact % MODULUS
    ensures Step(h, b) as int == (exact * 31 + b as int) % MODULUS
  {
    var m := WrappingMul(h, MULTIPLIER);
    assert m as int == (h as int * 31) % MODULUS;
    assert Step(h, b) as int == (m as int + b as int) % MODULUS;
    ModMulAdd(h as int * 31, 1, b as int);
    assert b as int % MODULUS == b as int;
    assert (m as int + b as int) % MODULUS == (h as int * 31 + b as int) % MODULUS;
    ModMulAdd(exact, 31, b as int);
  }

  /** The wrapping fold equals the exact Horner value reduced modulo 2^64:
      the wrap-arounds at each step lose nothing that matters modulo 2^64. */
  lemma {:induction false} HashIsHornerMod(bytes: seq<u8>)
    ensures Hash(bytes) as int == Horner(bytes) % MODULUS
  {
    if bytes != [] {
      var init, last := bytes[..|bytes| - 1], bytes[|bytes| - 1];
      HashIsHornerMod(init);
      StepMod(Horner(init), Hash(init), last);
    }
  }

  /** Horner evaluation of a concatenation: the first part is shifted by one
      power of 31 per byte of the second. */
  lemma {:induction false} HornerConcat(a: seq<u8>, b: seq<u8>)
    ensures Horner(a + b) == Horner(a) * Pow31(|b|) + Horner(b)
  {
    if b == [] {
      assert a + b == a;
    } else {
      var init, last := b[..|b| - 1], b[|b| - 1];
      assert (a + b)[..|a + b| - 1] == a + init;
      assert (a + b)[|a + b| - 1] == last;
      HornerConcat(a, init);
      assert Pow31(|b|) == Pow31(|init|) * 31;
      ShiftDistributes(Horner(a), Pow31(|init|), Horner(init), last as nat);
    }
  }

  /** Multiplying a shifted sum by 31 and adding a byte shifts it once more. */
  lemma ShiftDistributes(x: int, p: int, y: int, l: int)
    ensures (x * p + y) * 31 + l == x * (p * 31) + (y * 31 + l)
  {
  }

  /** `compute_hash(a ++ b) == compute_hash(a) * 31^|b| + compute_hash(b)`,
      all modulo 2^64. */
  lemma HashConcat(a: seq<u8>, b: seq<u8>)
    ensures Hash(a + b) as int == (Hash(a) as int * Pow31(|b|) + Hash(b) as int) % MODULUS
  {
    HashIsHornerMod(a);
    HashIsHornerMod(b);
    HashIsHornerMod(a + b);
    HornerConcat(a, b);
    ModMulAdd(Horner(a), Pow31(|b|), Horner(b));
  }

  /** Horner evaluation from the last byte and the polynomial sum from the
      first byte agree. */
  lemma {:induction false} HornerIsPolySum(bytes: seq<u8>)
    ensures Horner(bytes) == PolySum(bytes)
  {
    if bytes != [] {
      var head, tail := bytes[..1], bytes[1..];
      assert bytes == head + tail;
      HornerConcat(head, tail);
      HornerIsPolySum(tail);
      assert head[..0] == [];
    }
  }

  /** The hash is the polynomial sum of the bytes in powers of 31 modulo 2^64;
      in particular it depends only on the bytes and their order. */
  lemma HashIsPolynomial(bytes: seq<u8>)
    ensures Hash(bytes) as int == PolySum(bytes) % MODULUS
  {
    HashIsHornerMod(bytes);
    HornerIsPolySum(bytes);
  }

  /** The bytes of "test". */
  const TEST_BYTES: seq<u8> := [116, 101, 115, 116]

  /** The bytes of "different". */
  const DIFFERENT_BYTES: seq<u8> := [100, 105, 102, 102, 101, 114, 101, 110, 116]

  /** The two inputs of the unit test hash to these values, which differ. */
  lemma HashTestVectors()
    ensures Hash(TEST_BYTES) == 3556498
    ensures Hash(DIFFERENT_BYTES) == 88271470547001
    ensures Hash(TEST_BYTES) != Hash(DIFFERENT_BYTES)
  {
    HashOfTestBytes();
    HashOfDifferentBytes();
  }

  /** "test", folded in byte by byte; no step overflows. */
  lemma HashOfTestBytes()
    ensures Hash(TEST_BYTES) == 3556498
  {
    assert Hash([116]) == 116 by {
      HashSnoc([], 116);
      assert [] + [116] == [116];
      StepNoWrap(0, 116);
    }
    assert Hash([116, 101]) == 3697 by {
      HashSnoc([116], 101);
      assert [116] + [101] == [116, 101];
      StepNoWrap(116, 101);
    }
    assert Hash([116, 101, 115]) == 114722 by {
      HashSnoc([116, 101], 115);
      assert [116, 101] + [115] == [116, 101, 115];
      StepNoWrap(3697, 115);
    }
    assert Hash([116, 101, 115, 116]) == 3556498 by {
      HashSnoc([116, 101, 115], 116);
      assert [116, 101, 115] + [116] == [116, 101, 115, 116];
      StepNoWrap(114722, 116);
    }
  }

  /** "different", folded in byte by byte; no step overflows. */
  lemma HashOfDifferentBytes()
    ensures Hash(DIFFERENT_BYTES) == 88271470547001
  {
    assert Hash([100]) == 100 by {
      HashSnoc([], 100);
      assert [] + [100] == [100];
      StepNoWrap(0, 100);
    }
    assert Hash([100, 105]) == 3205 by {
      HashSnoc([100], 105);
      assert [100] + [105] == [100, 105];
      StepNoWrap(100, 105);
    }
    assert Hash([100, 105, 102]) == 99457 by {
      HashSnoc([100, 105], 102);
      assert [100, 105] + [102] == [100, 105, 102];
      StepNoWrap(3205, 102);
    }
    assert Hash([100, 105, 102, 102]) == 3083269 by {
      HashSnoc([100, 105, 102], 102);
      assert [100, 105, 102] + [102] == [100, 105, 102, 102];
      StepNoWrap(99457, 102);
    }
    assert Hash([100, 105, 102, 102, 101]) == 95581440 by {
      HashSnoc([100, 105, 102, 102], 101);
      assert [100, 105, 102, 102] + [101] == [100, 105, 102, 102, 101];
      StepNoWrap(3083269, 101);
    }
    assert Hash([100, 105, 102, 102, 101, 114]) == 2963024754 by {
      HashSnoc([100, 105, 102, 102, 101], 114);
      assert [100, 105, 102, 102, 101] + [114] == [100, 105, 102, 102, 101, 114];
      StepNoWrap(95581440, 114);
    }
    assert Hash([100, 105, 102, 102, 101, 114, 101]) == 91853767475 by {
      HashSnoc([100, 105, 102, 102, 101, 114], 101);
      assert [100, 105, 102, 102, 101, 114] + [101] == [100, 105, 102, 102, 101, 114, 101];
      StepNoWrap(2963024754, 101);
    }
    assert Hash([100, 105, 102, 102, 101, 114, 101, 110]) == 2847466791835 by {
      HashSnoc([100, 105, 102, 102, 101, 114, 101], 110);
      assert [100, 105, 102, 102, 101, 114, 101] + [110] == [100, 105, 102, 102, 101, 114, 101, 110];
      StepNoWrap(91853767475, 110);
    }
    assert Hash([100, 105, 102, 102, 101, 114, 101, 110, 116]) == 88271470547001 by {
      HashSnoc([100, 105, 102, 102, 101, 114, 101, 110], 116);
      assert [100, 105, 102, 102, 101, 114, 101, 110] + [116] == [100, 105, 102, 102, 101, 114, 101, 110, 116];
      StepNoWrap(2847466791835, 116);
    }
  }
}
