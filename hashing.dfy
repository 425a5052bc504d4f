/**
 * The polynomial string hash shared by both hash tables.
 *
 * A key is a std::string, that is a sequence of bytes.  The hash reads each
 * byte as a plain `char`, which is signed on the usual x86 compilers, so a
 * key byte is modelled as an integer in [-128, 127].
 */
module Hashing {

  /** Number of slots of the linear-probing table and of buckets of the chaining table. */
  const TABLE_SIZE: int := 142889

  /** One byte of a key, read as a signed `char`. */
  type Char = c: int | -128 <= c < 128

  /** A key: the bytes of a std::string. */
  type Key = seq<Char>

  /** True when every byte of the key is below 0x80 (plain ASCII), so that its `char` value is non-negative. */
  predicate IsAscii(key: Key) {
    forall i :: 0 <= i < |key| ==> key[i] >= 0
  }

  /** C++ `a % n` for n > 0: the remainder truncates toward zero and takes the sign of `a`. */
  function TruncRem(a: int, n: int): (r: int)
    requires n > 0
    ensures a >= 0 ==> 0 <= r < n
    ensures a < 0 ==> -n < r <= 0
    ensures a - r == n * (if a >= 0 then a / n else -((-a) / n))
  {
    if a >= 0 then a % n
    else
      assert -a == ((-a) / n) * n + (-a) % n;
      -((-a) % n)
  }

  /**
   * The hash exactly as the source computes it: `hash = (hash * 31 + c) % TABLE_SIZE`
   * over the bytes in order, with signed bytes and C++'s truncating remainder.
   * The accumulator stays strictly inside (-TABLE_SIZE, TABLE_SIZE), so
   * `hash * 31 + c` never leaves the range of a 32-bit int and unbounded
   * integers are faithful.  It is non-negative on ASCII keys only.
   */
  function HashAsWritten(key: Key): (r: int)
    ensures -TABLE_SIZE < r < TABLE_SIZE
    ensures IsAscii(key) ==> r >= 0
    decreases |key|
  {
    if key == [] then 0
    else
      var prev := HashAsWritten(key[..|key| - 1]);
      assert IsAscii(key) ==> IsAscii(key[..|key| - 1]);
      TruncRem(prev * 31 + key[|key| - 1], TABLE_SIZE)
  }

  /**
   * Counterexample: the UTF-8 encoding of "é" (bytes 0xC3 0xA9, that is -61 and -87
   * as signed chars) hashes to a negative number, which the tables would then use
   * as an array index.
   */
  lemma NonAsciiKeyHashesNegative()
    ensures HashAsWritten([-61, -87]) == -1978
  {
    var k: Key := [-61, -87];
    assert k[..1] == [-61];
    assert k[..1][..0] == [];
  }

  /** The unsigned value of a byte, as `(unsigned char) c` gives it. */
  function Code(c: Char): (r: int)
    ensures 0 <= r < 256
    ensures c >= 0 ==> r == c
  {
    if c < 0 then c + 256 else c
  }

  /**
   * The hash as evidently intended: the same polynomial over the bytes read
   * as unsigned values.  It is the bucket index the tables use.
   */
  function Hash(key: Key): (r: int)
    ensures 0 <= r < TABLE_SIZE
    decreases |key|
  {
    if key == [] then 0
    else (Hash(key[..|key| - 1]) * 31 + Code(key[|key| - 1])) % TABLE_SIZE
  }

  /** The empty key hashes to 0, and appending a byte takes one more step of the polynomial. */
  lemma HashSteps(key: Key, c: Char)
    ensures Hash([]) == 0
    ensures Hash(key + [c]) == (Hash(key) * 31 + Code(c)) % TABLE_SIZE
  {
    assert (key + [c])[..|key + [c]| - 1] == key;
  }

  /** On ASCII keys the corrected hash and the hash as written agree. */
  lemma {:induction false} HashAgreesOnAscii(key: Key)
    requires IsAscii(key)
    ensures HashAsWritten(key) == Hash(key)
    decreases |key|
  {
    if key != [] {
      var init := key[..|key| - 1];
      assert IsAscii(init);
      HashAgreesOnAscii(init);
    }
  }

  /** The source's accumulator loop, with the byte read as unsigned. */
  method HashFunction(key: Key) returns (h: int)
    ensures h == Hash(key)
    ensures 0 <= h < TABLE_SIZE
  {
    h := 0;
    var i := 0;
    while i < |key|
      invariant 0 <= i <= |key|
      invariant h == Hash(key[..i])
    {
      assert key[..i + 1][..i] == key[..i];
      h := (h * 31 + Code(key[i])) % TABLE_SIZE;
      i := i + 1;
    }
    assert key[..i] == key;
  }
}
