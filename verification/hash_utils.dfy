/**
 * Hash combination (the 64-bit and 32-bit hash_combine), hash_all, and the case-insensitive
 * string hash and comparer. The standard library's hash of a single value is
 * implementation-defined, so it is a parameter `h` wherever a value is hashed.
 */
module HashUtils {
  const MagicFactor64: bv64 := 0xC6A4A7935BD1E995
  const MagicFactor32: bv32 := 0x9E3779B9
  /** Added after every 64-bit combination so that zeros do not hash to zero. */
  const FinalOffset64: bv64 := 0xE6546B64

  /** Multiplication by the 64-bit magic factor, modulo 2^64. */
  function Scale64(x: bv64): bv64
  {
    x * MagicFactor64
  }

  /**
   * The 64-bit hash_combine, one assignment of the source per step, every step modulo 2^64.
   * The source updates its accumulator in place; here the new accumulator is the result.
   */
  function Combine64(result: bv64, hash: bv64): bv64
  {
    var h1 := Scale64(hash);
    var h2 := h1 ^ (h1 >> 47);
    var h3 := Scale64(h2);
    Scale64(result ^ h3) + FinalOffset64
  }

  /** The 32-bit hash_combine: result ^= hash + magic + (result << 6) + (result >> 2), modulo 2^32. */
  function Combine32(result: bv32, hash: bv32): bv32
  {
    result ^ (hash + MagicFactor32 + (result << 6) + (result >> 2))
  }

  /** hash_all: hash_combine folded over the value hashes left to right, starting from 0. */
  function HashAll(hashes: seq<bv64>): bv64
  {
    if |hashes| == 0 then 0 else Combine64(HashAll(hashes[..|hashes| - 1]), hashes[|hashes| - 1])
  }

  /** Hashing one more value combines it into the hash of the values before it. */
  lemma HashAllAppend(hashes: seq<bv64>, hash: bv64)
    ensures HashAll(hashes + [hash]) == Combine64(HashAll(hashes), hash)
  {
    assert (hashes + [hash])[..|hashes|] == hashes;
  }

  /** The prefix form of HashAllAppend, as a loop over the value hashes uses it. */
  lemma HashAllPrefixStep(hashes: seq<bv64>, i: nat)
    requires i < |hashes|
    ensures HashAll(hashes[..i + 1]) == Combine64(HashAll(hashes[..i]), hashes[i])
  {
    assert hashes[..i + 1][..i] == hashes[..i];
  }

  /** Hashes of equal length agree under hash_all when they agree position by position. */
  lemma {:induction false} HashAllPointwise(a: seq<bv64>, b: seq<bv64>)
    requires |a| == |b| && forall i :: 0 <= i < |a| ==> a[i] == b[i]
    ensures HashAll(a) == HashAll(b)
  {
    if |a| > 0 {
      HashAllPointwise(a[..|a| - 1], b[..|b| - 1]);
    }
  }

  // ------------------------------------------------------- case-insensitive text

  /** std::tolower in the "C" locale: 'A' to 'Z' become 'a' to 'z', every other character is kept. */
  function ToLower(c: char): char
  {
    if 'A' <= c <= 'Z' then (c as int + 32) as char else c
  }

  /** The comparer's element test: equal characters, or characters with equal tolower. */
  predicate SameIgnoringCase(c1: char, c2: char)
  {
    c1 == c2 || ToLower(c1) == ToLower(c2)
  }

  /** case_insensitive_string_comparer: equal lengths and every position passes the element test. */
  predicate CaseInsensitiveEqual(left: string, right: string)
  {
    |left| == |right| && forall i :: 0 <= i < |left| ==> SameIgnoringCase(left[i], right[i])
  }

  /** The text with every character lowered. */
  function Lowered(s: string): (r: string)
    ensures |r| == |s| && forall i :: 0 <= i < |s| ==> r[i] == ToLower(s[i])
  {
    seq(|s|, i requires 0 <= i < |s| => ToLower(s[i]))
  }

  /** The comparer holds exactly when the lowered texts are equal: it is an equivalence (reflexive, symmetric, transitive). */
  lemma CaseInsensitiveEqualIsLoweredEquality(left: string, right: string)
    ensures CaseInsensitiveEqual(left, right) <==> Lowered(left) == Lowered(right)
  {
    if Lowered(left) == Lowered(right) {
      forall i | 0 <= i < |left|
        ensures SameIgnoringCase(left[i], right[i])
      {
        assert Lowered(left)[i] == Lowered(right)[i];
      }
    }
  }

  /** The comparer is reflexive and symmetric, and texts of different lengths never compare equal. */
  lemma CaseInsensitiveEqualProperties(left: string, right: string)
    ensures CaseInsensitiveEqual(left, left)
    ensures CaseInsensitiveEqual(left, right) <==> CaseInsensitiveEqual(right, left)
    ensures |left| != |right| ==> !CaseInsensitiveEqual(left, right)
  {
  }

  /** The value hashes case_insensitive_string_hash combines: the hash of each lowered character. */
  function LoweredHashes(value: string, h: int -> bv64): (r: seq<bv64>)
    ensures |r| == |value|
  {
    seq(|value|, i requires 0 <= i < |value| => h(ToLower(value[i]) as int))
  }

  /** case_insensitive_string_hash: hash_combine of each lowered character, in order, from 0. */
  method CaseInsensitiveStringHash(value: string, h: int -> bv64) returns (result: bv64)
    ensures result == HashAll(LoweredHashes(value, h))
  {
    result := 0;
    var i := 0;
    while i < |value|
      invariant 0 <= i <= |value|
      invariant result == HashAll(LoweredHashes(value, h)[..i])
    {
      HashAllPrefixStep(LoweredHashes(value, h), i);
      result := Combine64(result, h(ToLower(value[i]) as int));
      i := i + 1;
    }
    assert LoweredHashes(value, h)[..i] == LoweredHashes(value, h);
  }

  /** Texts the comparer deems equal hash equal, whatever the character hash. */
  lemma CaseInsensitiveHashRespectsComparer(left: string, right: string, h: int -> bv64)
    requires CaseInsensitiveEqual(left, right)
    ensures HashAll(LoweredHashes(left, h)) == HashAll(LoweredHashes(right, h))
  {
    CaseInsensitiveEqualIsLoweredEquality(left, right);
    forall i | 0 <= i < |left|
      ensures LoweredHashes(left, h)[i] == LoweredHashes(right, h)[i]
    {
      assert Lowered(left)[i] == Lowered(right)[i];
    }
    HashAllPointwise(LoweredHashes(left, h), LoweredHashes(right, h));
  }
}
