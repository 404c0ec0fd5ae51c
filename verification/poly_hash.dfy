/** The string hash `DoubleKeyTable` uses for both levels: `hash1` over the
    outer array's size, `hash2` over a sub-table's size. */
module PolyHashing {

  const HashBase: nat := 31
  const HashSeed: nat := 31417

  /** The hash loop resumed with accumulator `value` and multiplier `a`
      over the characters still to come. */
  function HashFrom(key: string, size: nat, value: nat, a: nat): (r: nat)
    requires size >= 2 && value < size
    ensures r < size
    decreases |key|
  {
    if |key| == 0 then value
    else HashFrom(key[1..], size, (key[0] as int + a * value) % size, a * HashBase % (size - 1))
  }

  /** `value = (ord(c) + a * value) % size; a = a * 31 % (size - 1)` over the
      key, starting from `value = 0`, `a = 31417`. */
  function PolyHash(key: string, size: nat): (r: nat)
    requires size >= 2
    ensures r < size
    ensures |key| == 0 ==> r == 0
  {
    HashFrom(key, size, 0, HashSeed)
  }

  /** A one-character key hashes to its code point modulo the size: the
      multiplier is still applied to a zero accumulator. */
  lemma SingleCharHash(c: char, size: nat)
    requires size >= 2
    ensures PolyHash([c], size) == (c as int) % size
  {
    assert [c][1..] == [];
    var a := HashSeed * HashBase % (size - 1);
    assert HashFrom([c], size, 0, HashSeed) == HashFrom([], size, (c as int) % size, a);
  }

  /** The hash as the source computes it: one pass over the key. */
  method HashLoop(key: string, size: nat) returns (value: nat)
    requires size >= 2
    ensures value == PolyHash(key, size)
  {
    value := 0;
    var a: nat := HashSeed;
    for i := 0 to |key|
      invariant value < size
      invariant HashFrom(key[i..], size, value, a) == PolyHash(key, size)
    {
      assert key[i..][1..] == key[i + 1..];
      value := (key[i] as int + a * value) % size;
      a := a * HashBase % (size - 1);
    }
    assert key[|key|..] == [];
  }
}
