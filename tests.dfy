/**
  The library's unit tests, stated as lemmas and a method whose contracts are
  the tests' assertions.
 */
module LibTests {
  import opened Wrapping
  import opened WasmLib
  import opened HashProperties

  /** `greet("World")` is exactly the expected greeting. */
  lemma GreetWorld()
    ensures Greet("World") == "Hello, World from Rust + WASM! (Auto-rebuilt!)"
  {
    assert Greet("World") == GREETING_PREFIX + "World" + GREETING_SUFFIX;
    WorldGreetingText();
  }

  /** The template filled with "World", compared character by character. */
  lemma WorldGreetingText()
    ensures "Hello, " + "World" + " from Rust + WASM! (Auto-rebuilt!)" == "Hello, World from Rust + WASM! (Auto-rebuilt!)"
  {
    var expected := "Hello, World from Rust + WASM! (Auto-rebuilt!)";
    var greeting := "Hello, " + "World" + " from Rust + WASM! (Auto-rebuilt!)";
    assert |greeting| == |expected|;
    forall i | 0 <= i < |greeting| ensures greeting[i] == expected[i] { }
  }

  /** Different names give different greetings, so the name can always be
      read back from the greeting. */
  lemma GreetInjective(a: string, b: string)
    ensures Greet(a) == Greet(b) <==> a == b
  {
    if Greet(a) == Greet(b) {
      var n := |GREETING_PREFIX|;
      assert |a| == |b|;
      assert a == Greet(a)[n..n + |a|] == Greet(b)[n..n + |b|] == b;
    }
  }

  /** The hash test: "test" hashed twice gives the same value both times, and
      "different" hashes to another value. */
  method TestComputeHash() returns (hash1: u64, hash2: u64, hash3: u64)
    ensures hash1 == hash2
    ensures hash1 != hash3
  {
    hash1 := ComputeHash(TEST_BYTES);
    hash2 := ComputeHash(TEST_BYTES);
    hash3 := ComputeHash(DIFFERENT_BYTES);
    HashTestVectors();
  }
}
