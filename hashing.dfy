/**
 * The djb2 string hash of `HashTable::customHash`.
 *
 * The source keeps the hash in a 64-bit `size_t`, starts at 5381 and folds every
 * character as `(hash << 5) + hash + c`, i.e. `33 * hash + c` modulo 2^64.  The
 * character is a (signed, on the usual targets) C++ `char` promoted to `int`, so a
 * byte of 128 or more adds a negative amount before the wrap-around.
 */
module Hashing {

  /** 2^64: the range of `size_t`. */
  const WORD: nat := 0x1_0000_0000_0000_0000

  /** The starting value of the djb2 hash. */
  const Seed: nat := 5381

  /**
   * The value a key character contributes: the character read as one byte of a
   * `std::string` (its low eight bits) and then as a signed `char`.
   */
  function CharCode(c: char): (n: int)
    ensures -128 <= n < 128
    ensures (c as int) < 128 ==> n == c as int
  {
    var b := (c as int) % 256;
    if b < 128 then b else b - 256
  }

  /** One iteration of the hash loop: `(hash << 5) + hash + c` on a 64-bit word. */
  function HashStep(h: nat, c: char): (r: nat)
    ensures r < WORD
  {
    (h * 33 + CharCode(c)) % WORD
  }

  /**
   * The hash of `key`, defined on prefixes: the hash of `key` is one more step
   * applied to the hash of `key` without its last character.  This is the shape
   * the loop invariant of `HashTables.HashTable.CustomHash` uses.
   */
  function Djb2(key: string): (h: nat)
    ensures h < WORD
    decreases |key|
  {
    if key == [] then Seed else HashStep(Djb2(key[..|key| - 1]), key[|key| - 1])
  }

  /**
   * Reference definition: fold the characters from the first to the last,
   * starting from the accumulator `h`.
   */
  function FoldFrom(h: nat, key: string): nat
    decreases |key|
  {
    if key == [] then h else FoldFrom(HashStep(h, key[0]), key[1..])
  }

  /** Folding over a concatenation folds the second part from where the first stopped. */
  lemma {:induction false} FoldFromAppend(h: nat, a: string, b: string)
    ensures FoldFrom(h, a + b) == FoldFrom(FoldFrom(h, a), b)
    decreases |a|
  {
    if a == [] {
      assert a + b == b;
    } else {
      assert (a + b)[0] == a[0];
      assert (a + b)[1..] == a[1..] + b;
      FoldFromAppend(HashStep(h, a[0]), a[1..], b);
    }
  }

  /**
   * The prefix definition and the left fold agree: `Djb2(key)` is 5381 with
   * `hash*33 + c` applied to every character of `key` in order.
   */
  lemma {:induction false} Djb2IsLeftFold(key: string)
    ensures Djb2(key) == FoldFrom(Seed, key)
    decreases |key|
  {
    if key != [] {
      var init, last := key[..|key| - 1], key[|key| - 1];
      Djb2IsLeftFold(init);
      assert init + [last] == key;
      FoldFromAppend(Seed, init, [last]);
      assert FoldFrom(Djb2(init), [last]) == FoldFrom(HashStep(Djb2(init), last), []);
    }
  }

  /** Hashing a key one character longer takes exactly one more hash step. */
  lemma {:induction false} Djb2Extend(key: string, c: char)
    ensures Djb2(key + [c]) == HashStep(Djb2(key), c)
  {
    assert (key + [c])[..|key|] == key;
  }

  /** The empty key hashes to the seed 5381. */
  lemma Djb2OfEmpty()
    ensures Djb2("") == 5381
  {
  }

  /** Concrete values: one- and two-letter keys. */
  lemma {:induction false} Djb2Examples()
    ensures Djb2("a") == 177670 && Djb2("b") == 177671 && Djb2("c") == 177672
    ensures Djb2("d") == 177673 && Djb2("e") == 177674 && Djb2("f") == 177675
    ensures Djb2("ab") == 5863208
  {
    Djb2Extend("", 'a');
    Djb2Extend("", 'b');
    Djb2Extend("", 'c');
    Djb2Extend("", 'd');
    Djb2Extend("", 'e');
    Djb2Extend("", 'f');
    Djb2Extend("a", 'b');
    assert "" + ['a'] == "a" && "" + ['b'] == "b" && "" + ['c'] == "c";
    assert "" + ['d'] == "d" && "" + ['e'] == "e" && "" + ['f'] == "f";
    assert "a" + ['b'] == "ab";
  }
}
