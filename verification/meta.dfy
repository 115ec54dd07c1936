/**
 * Bit, byte and hexadecimal helpers of the ABI layer: nibble conversion,
 * endian-aware packing of numbers into bytes, rotations, single-bit access,
 * byte swapping, the binary logarithm, modular subtraction, and the
 * first-occurrence deduplication that `tuple_unique` performs on type lists.
 *
 * Bytes are integers below 256 and unsigned numbers of `n` bytes are `nat`s
 * below 256^n; 64-bit words are `bv64`, and the bits and bytes read out of
 * them by the bit helpers are `bv8`.
 */
module Meta {
  import opened Wrappers

  type byte = x: int | 0 <= x < 256

  const HexCharacters: string := "0123456789ABCDEF"
  const SizeMax: nat := 0x1_0000_0000_0000_0000

  // ---------------------------------------------------------------- hex digits

  predicate IsHexDigit(c: char) {
    '0' <= c <= '9' || 'A' <= c <= 'F' || 'a' <= c <= 'f'
  }

  /** Value of one hexadecimal digit, or None for any other character. */
  function FromHexCharacter(c: char): (r: Option<byte>)
    ensures r.Some? <==> IsHexDigit(c)
    ensures r.Some? ==> r.value < 16
  {
    if '0' <= c <= '9' then Some(c as int - '0' as int)
    else if 'A' <= c <= 'F' then Some(c as int - 'A' as int + 10)
    else if 'a' <= c <= 'f' then Some(c as int - 'a' as int + 10)
    else None
  }

  /** Upper-case and lower-case letters decode to the same nibble; digit i of the table decodes to i. */
  lemma FromHexCharacterTable(i: nat)
    requires i < 16
    ensures FromHexCharacter(HexCharacters[i]) == Some(i)
    ensures i >= 10 ==> FromHexCharacter("abcdef"[i - 10]) == Some(i)
  {
    if i < 10 {
      assert HexCharacters[i] as int == '0' as int + i;
    } else {
      assert HexCharacters[i] as int == 'A' as int + (i - 10);
      assert "abcdef"[i - 10] as int == 'a' as int + (i - 10);
    }
  }

  /** The two upper-case digits of a byte, high nibble first. */
  function ToHexCharacter(b: byte): (r: seq<char>)
    ensures |r| == 2
  {
    [HexCharacters[b / 16], HexCharacters[b % 16]]
  }

  // ------------------------------------------------------------ number packing

  function Pow256(n: nat): (r: nat)
    ensures r >= 1
  {
    if n == 0 then 1 else 256 * Pow256(n - 1)
  }

  function Pow2(n: nat): (r: nat)
    ensures r >= 1
  {
    if n == 0 then 1 else 2 * Pow2(n - 1)
  }

  function Reverse<T>(s: seq<T>): (r: seq<T>)
    ensures |r| == |s|
    ensures forall i :: 0 <= i < |s| ==> r[i] == s[|s| - 1 - i]
  {
    if s == [] then [] else Reverse(s[1..]) + [s[0]]
  }

  lemma ReverseReverse<T>(s: seq<T>)
    ensures Reverse(Reverse(s)) == s
  {
    assert forall i :: 0 <= i < |s| ==> Reverse(Reverse(s))[i] == s[i];
  }

  /** The n low-order bytes of x, least significant first. */
  function BytesLE(x: nat, n: nat): (r: seq<byte>)
    ensures |r| == n
  {
    if n == 0 then [] else [x % 256] + BytesLE(x / 256, n - 1)
  }

  /** The number whose bytes, least significant first, are d. */
  function ValueLE(d: seq<byte>): (r: nat)
    ensures r < Pow256(|d|)
  {
    if d == [] then 0 else d[0] + 256 * ValueLE(d[1..])
  }

  /** Shift, in bytes, of byte i of an n-byte number (number_move_bits_helper). */
  function ByteShift(n: nat, bigEndian: bool, i: nat): nat
    requires i < n
  {
    if bigEndian then n - 1 - i else i
  }

  /** split_number / to_array: the bytes of an n-byte number in the chosen order. */
  function ToArray(x: nat, n: nat, bigEndian: bool): (r: seq<byte>)
    ensures |r| == n
  {
    if bigEndian then Reverse(BytesLE(x, n)) else BytesLE(x, n)
  }

  /** make_number: the number whose bytes, in the chosen order, are d. */
  function MakeNumber(d: seq<byte>, bigEndian: bool): (r: nat)
    ensures r < Pow256(|d|)
  {
    if bigEndian then ValueLE(Reverse(d)) else ValueLE(d)
  }

  /** split_number with a truncation size: the first min(t, n) bytes of to_array. */
  function SplitNumberTruncated(x: nat, n: nat, bigEndian: bool, t: nat): (r: seq<byte>)
    ensures |r| == if t < n then t else n
    ensures forall i :: 0 <= i < |r| ==> r[i] == ToArray(x, n, bigEndian)[i]
  {
    ToArray(x, n, bigEndian)[..if t < n then t else n]
  }

  lemma MulAtLeast(m: int, k: int)
    requires m > 0 && k >= 1
    ensures m * k >= m
  {
    var j := k - 1;
    assert m * k == m * j + m;
    assert m * j >= 0;
  }

  /** Euclidean division is determined by any quotient and remainder that fit. */
  lemma DivModUnique(x: int, m: int, q: int, r: int)
    requires m > 0 && 0 <= r < m && x == m * q + r
    ensures x / m == q && x % m == r
  {
    var q0 := x / m;
    var r0 := x % m;
    assert x == m * q0 + r0;
    if q0 > q {
      assert m * (q0 - q) == m * q0 - m * q;
      MulAtLeast(m, q0 - q);
    }
    if q0 < q {
      assert m * (q - q0) == m * q - m * q0;
      MulAtLeast(m, q - q0);
    }
  }

  lemma DivDiv256(x: nat, b: nat)
    requires b > 0
    ensures x / 256 / b == x / (256 * b)
  {
    var q := x / 256;
    var r := x % 256;
    var q2 := q / b;
    var r2 := q % b;
    assert q == b * q2 + r2;
    assert x == 256 * q + r;
    assert x == (256 * b) * q2 + (256 * r2 + r);
    DivModUnique(x, 256 * b, q2, 256 * r2 + r);
  }

  lemma {:induction false} BytesLEAt(x: nat, n: nat, i: nat)
    requires i < n
    ensures BytesLE(x, n)[i] == (x / Pow256(i)) % 256
  {
    if i > 0 {
      BytesLEAt(x / 256, n - 1, i - 1);
      DivDiv256(x, Pow256(i - 1));
    }
  }

  /** Byte i of to_array is the number shifted right by its byte offset, masked to 8 bits. */
  lemma ToArrayAt(x: nat, n: nat, bigEndian: bool, i: nat)
    requires i < n
    ensures ToArray(x, n, bigEndian)[i] == (x / Pow256(ByteShift(n, bigEndian, i))) % 256
  {
    BytesLEAt(x, n, ByteShift(n, bigEndian, i));
  }

  lemma {:induction false} ValueLEBytesLE(x: nat, n: nat)
    requires x < Pow256(n)
    ensures ValueLE(BytesLE(x, n)) == x
  {
    if n > 0 {
      var d := BytesLE(x, n);
      assert d[1..] == BytesLE(x / 256, n - 1);
      ValueLEBytesLE(x / 256, n - 1);
      assert ValueLE(d) == x % 256 + 256 * (x / 256);
    }
  }

  lemma {:induction false} BytesLEValueLE(d: seq<byte>)
    ensures BytesLE(ValueLE(d), |d|) == d
  {
    if d != [] {
      var v := ValueLE(d);
      var rest := ValueLE(d[1..]);
      assert v == 256 * rest + d[0];
      DivModUnique(v, 256, rest, d[0]);
      BytesLEValueLE(d[1..]);
      assert BytesLE(v, |d|) == [d[0]] + d[1..];
    }
  }

  /** make_number undoes to_array for the same byte order. */
  lemma MakeNumberToArray(x: nat, n: nat, bigEndian: bool)
    requires x < Pow256(n)
    ensures MakeNumber(ToArray(x, n, bigEndian), bigEndian) == x
  {
    if bigEndian {
      ReverseReverse(BytesLE(x, n));
    }
    ValueLEBytesLE(x, n);
  }

  /** to_array undoes make_number for the same byte order. */
  lemma ToArrayMakeNumber(d: seq<byte>, bigEndian: bool)
    ensures ToArray(MakeNumber(d, bigEndian), |d|, bigEndian) == d
  {
    if bigEndian {
      BytesLEValueLE(Reverse(d));
      ReverseReverse(d);
    } else {
      BytesLEValueLE(d);
    }
  }

  // ------------------------------------------------------- hex text of numbers

  /** Hex text of a byte string: two upper-case digits per byte. */
  function HexOfBytes(d: seq<byte>): (r: seq<char>)
    ensures |r| == 2 * |d|
  {
    if d == [] then [] else ToHexCharacter(d[0]) + HexOfBytes(d[1..])
  }

  /** Byte i of d is written at characters 2i (high nibble) and 2i + 1 (low nibble). */
  lemma {:induction false} HexOfBytesAt(d: seq<byte>, i: nat)
    requires i < |d|
    ensures HexOfBytes(d)[2 * i] == HexCharacters[d[i] / 16]
    ensures HexOfBytes(d)[2 * i + 1] == HexCharacters[d[i] % 16]
  {
    var rest := d[1..];
    var p, q := ToHexCharacter(d[0]), HexOfBytes(rest);
    assert HexOfBytes(d) == p + q;
    if i > 0 {
      HexOfBytesAt(rest, i - 1);
      assert rest[i - 1] == d[i];
    }
  }

  predicate AllHex(s: seq<char>) {
    forall i :: 0 <= i < |s| ==> IsHexDigit(s[i])
  }

  lemma AllHexSplit(s: seq<char>)
    requires |s| >= 2
    ensures AllHex(s) <==> IsHexDigit(s[0]) && IsHexDigit(s[1]) && AllHex(s[2..])
  {
    if IsHexDigit(s[0]) && IsHexDigit(s[1]) && AllHex(s[2..]) {
      forall i | 0 <= i < |s| ensures IsHexDigit(s[i]) {
        if i >= 2 {
          assert s[i] == s[2..][i - 2];
        }
      }
    }
  }

  /** The byte written by a pair of hex digits, high nibble first. */
  function PairByte(high: char, low: char): byte
    requires IsHexDigit(high) && IsHexDigit(low)
  {
    FromHexCharacter(high).value * 16 + FromHexCharacter(low).value
  }

  /** The bytes written by pairs of hex digits, or None if some character is not a digit. */
  function BytesOfHex(s: seq<char>): (r: Option<seq<byte>>)
    requires |s| % 2 == 0
    ensures r.Some? <==> AllHex(s)
    ensures r.Some? ==> |r.value| == |s| / 2
  {
    if s == [] then Some([])
    else
      var rest := BytesOfHex(s[2..]);
      AllHexSplit(s);
      if IsHexDigit(s[0]) && IsHexDigit(s[1]) && rest.Some? then
        Some([PairByte(s[0], s[1])] + rest.value)
      else
        None
  }

  /** Byte k of the decoded text is the pair of digits at 2k and 2k + 1. */
  lemma {:induction false} BytesOfHexAt(s: seq<char>, k: nat)
    requires |s| % 2 == 0 && AllHex(s) && k < |s| / 2
    ensures BytesOfHex(s).value[k] == PairByte(s[2 * k], s[2 * k + 1])
  {
    AllHexSplit(s);
    if k > 0 {
      BytesOfHexAt(s[2..], k - 1);
      assert s[2..][2 * (k - 1)] == s[2 * k] && s[2..][2 * (k - 1) + 1] == s[2 * k + 1];
    }
  }

  /** The two digits of a byte are hex digits and read back as that byte. */
  lemma PairByteOfHex(b: byte)
    ensures var pair := ToHexCharacter(b);
            IsHexDigit(pair[0]) && IsHexDigit(pair[1]) && PairByte(pair[0], pair[1]) == b
  {
    var pair := ToHexCharacter(b);
    FromHexCharacterTable(b / 16);
    FromHexCharacterTable(b % 16);
    assert FromHexCharacter(pair[0]).value == b / 16;
    assert FromHexCharacter(pair[1]).value == b % 16;
  }

  /** Hex text consists of hex digits only. */
  lemma {:induction false} AllHexOfBytes(d: seq<byte>)
    ensures AllHex(HexOfBytes(d))
  {
    if d != [] {
      var h := HexOfBytes(d);
      AllHexOfBytes(d[1..]);
      assert h[2..] == HexOfBytes(d[1..]);
      PairByteOfHex(d[0]);
      AllHexSplit(h);
    }
  }

  /** Decoding the hex text of a byte string gives the bytes back. */
  lemma {:induction false} BytesOfHexOfBytes(d: seq<byte>)
    ensures BytesOfHex(HexOfBytes(d)) == Some(d)
  {
    if d != [] {
      var h := HexOfBytes(d);
      var pair := ToHexCharacter(d[0]);
      assert h == pair + HexOfBytes(d[1..]);
      assert h[2..] == HexOfBytes(d[1..]);
      assert h[0] == pair[0] && h[1] == pair[1];
      PairByteOfHex(d[0]);
      BytesOfHexOfBytes(d[1..]);
      assert d == [d[0]] + d[1..];
    }
  }

  /** to_char_array: the hex text of the n-byte number x in the chosen byte order. */
  function ToCharArray(x: nat, n: nat, bigEndian: bool): (r: seq<char>)
    ensures |r| == 2 * n
  {
    HexOfBytes(ToArray(x, n, bigEndian))
  }

  /** What to_number returns: 0 for short or non-hex text, otherwise make_number of the decoded bytes. */
  function ToNumberSpec(s: seq<char>, n: nat, bigEndian: bool): nat
  {
    if |s| < 2 * n then 0
    else match BytesOfHex(s[..2 * n])
      case None => 0
      case Some(d) => MakeNumber(d, bigEndian)
  }

  /** to_number: decodes 2n hex digits pair by pair into a byte array, then packs it. */
  method ToNumber(s: seq<char>, n: nat, bigEndian: bool) returns (r: nat)
    ensures r == ToNumberSpec(s, n, bigEndian)
    ensures |s| < 2 * n ==> r == 0
    ensures r < Pow256(n)
  {
    if |s| / 2 < n {
      return 0;
    }
    var result := new byte[n];
    var i := 0;
    while i < n
      invariant 0 <= i <= n
      invariant forall j :: 0 <= j < 2 * i ==> IsHexDigit(s[j])
      invariant forall k :: 0 <= k < i ==> result[k] == PairByte(s[2 * k], s[2 * k + 1])
    {
      var first := FromHexCharacter(s[2 * i]);
      var second := FromHexCharacter(s[2 * i + 1]);
      if first.Some? && second.Some? {
        result[i] := first.value * 16 + second.value;
        i := i + 1;
      } else {
        assert s[..2 * n][2 * i] == s[2 * i] && s[..2 * n][2 * i + 1] == s[2 * i + 1];
        return 0;
      }
    }
    var text := s[..2 * n];
    assert AllHex(text);
    forall k | 0 <= k < n ensures BytesOfHex(text).value[k] == result[k] {
      BytesOfHexAt(text, k);
    }
    assert BytesOfHex(text).value == result[..];
    r := MakeNumber(result[..], bigEndian);
  }

  /** to_number reads back what to_char_array writes. */
  lemma ToNumberToCharArray(x: nat, n: nat, bigEndian: bool)
    requires x < Pow256(n)
    ensures ToNumberSpec(ToCharArray(x, n, bigEndian), n, bigEndian) == x
  {
    var s := ToCharArray(x, n, bigEndian);
    assert s[..2 * n] == s;
    BytesOfHexOfBytes(ToArray(x, n, bigEndian));
    MakeNumberToArray(x, n, bigEndian);
  }

  // ----------------------------------------------------------------- rotations

  /** C++ `%` on int: the remainder has the sign of the dividend. */
  function TruncRem(a: int, m: nat): (r: int)
    requires m > 0
    ensures -(m as int) < r < m
    ensures a >= 0 ==> r >= 0
    ensures a <= 0 ==> r <= 0
  {
    if a >= 0 then a % m else -((-a) % m)
  }

  /** The truncated remainder is congruent to the dividend. */
  lemma TruncRemCongruent(a: int, m: nat)
    requires m > 0
    ensures TruncRem(a, m) % m == a % m
  {
    if a < 0 {
      var q := (-a) / m;
      var rho := (-a) % m;
      assert -a == m * q + rho;
      if rho == 0 {
        DivModUnique(a, m, -q, 0);
      } else {
        assert a == m * (-q - 1) + (m - rho);
        DivModUnique(a, m, -q - 1, m - rho);
        DivModUnique(-rho, m, -1, m - rho);
      }
    }
  }

  /** The shift pair of rotl_impl, (x << c) | (x >> (64 − c)), for a count in 1..63. */
  function RotlPair(x: bv64, c: bv64): bv64
    requires 0 < c < 64
  {
    (x << c) | (x >> (64 - c))
  }

  /** The shift pair of rotr_impl, (x >> c) | (x << (64 − c)), for a count in 1..63. */
  function RotrPair(x: bv64, c: bv64): bv64
    requires 0 < c < 64
  {
    (x >> c) | (x << (64 - c))
  }

  /** The shift pair of rotl_impl (left) or rotr_impl (right) for a count in 1..63. */
  function ShiftPair(left: bool, x: bv64, b: int): bv64
    requires 0 < b < 64
  {
    var c := b as bv64;
    if left then RotlPair(x, c) else RotrPair(x, c)
  }

  /** bitwise_rotate_impl: rotation of a 64-bit word by a signed count. */
  function RotateImpl(left: bool, x: bv64, bits: int): bv64
    decreases if bits > 0 then 1 else if bits == 0 then 0 else 2
  {
    if bits == 0 then x
    else
      var b := TruncRem(bits, 64);
      if b > 0 then ShiftPair(left, x, b)
      else RotateImpl(!left, x, -b)
  }

  function Rotl(x: bv64, bits: int): bv64 { RotateImpl(true, x, bits) }

  function Rotr(x: bv64, bits: int): bv64 { RotateImpl(false, x, bits) }

  /** Every rotation is one shift pair by the count's remainder, turned round for a negative remainder. */
  lemma RotateImplReduced(left: bool, x: bv64, bits: int)
    ensures var b := TruncRem(bits, 64);
            RotateImpl(left, x, bits) ==
              if b > 0 then ShiftPair(left, x, b)
              else if b == 0 then x
              else ShiftPair(!left, x, -b)
  {
    var b := TruncRem(bits, 64);
    if bits != 0 && b <= 0 {
      RotateTurned(left, x, bits, b);
    }
  }

  /** A count whose remainder is not positive turns round to the remainder's magnitude. */
  lemma RotateTurned(left: bool, x: bv64, bits: int, b: int)
    requires bits != 0 && b == TruncRem(bits, 64) && b <= 0
    ensures RotateImpl(left, x, bits) == if b == 0 then x else ShiftPair(!left, x, -b)
  {
    var c := -b;
    assert RotateImpl(left, x, bits) == RotateImpl(!left, x, c);
    if c > 0 {
      TruncRemSmall(c, 64);
      assert RotateImpl(!left, x, c) == ShiftPair(!left, x, c);
    }
  }

  /** A count already below the width is its own remainder. */
  lemma TruncRemSmall(a: int, m: nat)
    requires 0 <= a < m
    ensures TruncRem(a, m) == a
  {
    DivModUnique(a, m, 0, a);
  }

  /** rotl and rotr by a negative count turn the other way. */
  lemma RotateNegative(x: bv64, k: int)
    ensures Rotl(x, -k) == Rotr(x, k) && Rotr(x, -k) == Rotl(x, k)
  {
    assert TruncRem(-k, 64) == -TruncRem(k, 64);
    RotateImplReduced(true, x, k);
    RotateImplReduced(false, x, k);
    RotateImplReduced(true, x, -k);
    RotateImplReduced(false, x, -k);
  }

  /** Non-negative counts that differ by the word width rotate alike. */
  lemma RotatePeriodic(x: bv64, k: nat)
    ensures Rotl(x, k + 64) == Rotl(x, k) && Rotr(x, k + 64) == Rotr(x, k)
  {
    assert TruncRem(k + 64, 64) == TruncRem(k, 64);
    RotateImplReduced(true, x, k);
    RotateImplReduced(false, x, k);
    RotateImplReduced(true, x, k + 64);
    RotateImplReduced(false, x, k + 64);
  }

  /** A count that is a multiple of the word width, zero included, leaves the word alone. */
  lemma RotateWholeWidth(x: bv64, k: int)
    ensures Rotl(x, 64 * k) == x && Rotr(x, 64 * k) == x
  {
    var w := 64 * k;
    TruncRemCongruent(w, 64);
    assert TruncRem(w, 64) == 0;
    RotateImplReduced(true, x, w);
    RotateImplReduced(false, x, w);
  }

  /** A right shift pair by c is the left shift pair by 64 − c. */
  lemma RotrIsRotl(x: bv64, c: bv64)
    requires 0 < c < 64
    ensures RotrPair(x, c) == RotlPair(x, 64 - c)
  {
  }

  // The solver settles a rotation and its inverse for a few counts at a time: one lemma per four counts.

  lemma RotateBack0(x: bv64, c: bv64)
    requires 1 <= c < 4
    ensures RotrPair(RotlPair(x, c), c) == x
  {
  }

  lemma RotateBack1(x: bv64, c: bv64)
    requires 4 <= c < 8
    ensures RotrPair(RotlPair(x, c), c) == x
  {
  }

  lemma RotateBack2(x: bv64, c: bv64)
    requires 8 <= c < 12
    ensures RotrPair(RotlPair(x, c), c) == x
  {
  }

  lemma RotateBack3(x: bv64, c: bv64)
    requires 12 <= c < 16
    ensures RotrPair(RotlPair(x, c), c) == x
  {
  }

  lemma RotateBack4(x: bv64, c: bv64)
    requires 16 <= c < 20
    ensures RotrPair(RotlPair(x, c), c) == x
  {
  }

  lemma RotateBack5(x: bv64, c: bv64)
    requires 20 <= c < 24
    ensures RotrPair(RotlPair(x, c), c) == x
  {
  }

  lemma RotateBack6(x: bv64, c: bv64)
    requires 24 <= c < 28
    ensures RotrPair(RotlPair(x, c), c) == x
  {
  }

  lemma RotateBack7(x: bv64, c: bv64)
    requires 28 <= c < 32
    ensures RotrPair(RotlPair(x, c), c) == x
  {
  }

  lemma RotateBack8(x: bv64, c: bv64)
    requires 32 <= c < 36
    ensures RotrPair(RotlPair(x, c), c) == x
  {
  }

  lemma RotateBack9(x: bv64, c: bv64)
    requires 36 <= c < 40
    ensures RotrPair(RotlPair(x, c), c) == x
  {
  }

  lemma RotateBack10(x: bv64, c: bv64)
    requires 40 <= c < 44
    ensures RotrPair(RotlPair(x, c), c) == x
  {
  }

  lemma RotateBack11(x: bv64, c: bv64)
    requires 44 <= c < 48
    ensures RotrPair(RotlPair(x, c), c) == x
  {
  }

  lemma RotateBack12(x: bv64, c: bv64)
    requires 48 <= c < 52
    ensures RotrPair(RotlPair(x, c), c) == x
  {
  }

  lemma RotateBack13(x: bv64, c: bv64)
    requires 52 <= c < 56
    ensures RotrPair(RotlPair(x, c), c) == x
  {
  }

  lemma RotateBack14(x: bv64, c: bv64)
    requires 56 <= c < 60
    ensures RotrPair(RotlPair(x, c), c) == x
  {
  }

  lemma RotateBack15(x: bv64, c: bv64)
    requires 60 <= c < 64
    ensures RotrPair(RotlPair(x, c), c) == x
  {
  }

  /** A word rotated left by c and back right by c is unchanged. */
  lemma RotlThenRotr(x: bv64, c: bv64)
    requires 0 < c < 64
    ensures RotrPair(RotlPair(x, c), c) == x
  {
    if c < 4 {
      RotateBack0(x, c);
    } else if c < 8 {
      RotateBack1(x, c);
    } else if c < 12 {
      RotateBack2(x, c);
    } else if c < 16 {
      RotateBack3(x, c);
    } else if c < 20 {
      RotateBack4(x, c);
    } else if c < 24 {
      RotateBack5(x, c);
    } else if c < 28 {
      RotateBack6(x, c);
    } else if c < 32 {
      RotateBack7(x, c);
    } else if c < 36 {
      RotateBack8(x, c);
    } else if c < 40 {
      RotateBack9(x, c);
    } else if c < 44 {
      RotateBack10(x, c);
    } else if c < 48 {
      RotateBack11(x, c);
    } else if c < 52 {
      RotateBack12(x, c);
    } else if c < 56 {
      RotateBack13(x, c);
    } else if c < 60 {
      RotateBack14(x, c);
    } else {
      RotateBack15(x, c);
    }
  }

  /** The two shift pairs undo each other, in either order. */
  lemma ShiftPairsInverse(x: bv64, c: bv64)
    requires 0 < c < 64
    ensures RotrPair(RotlPair(x, c), c) == x && RotlPair(RotrPair(x, c), c) == x
  {
    RotlThenRotr(x, c);
    var d := 64 - c;
    RotlThenRotr(x, d);
    RotrIsRotl(x, c);
    RotrIsRotl(RotlPair(x, d), d);
    assert 64 - d == c;
  }

  /** The shift pairs of a count in 1..63 undo each other. */
  lemma ShiftPairInverse(left: bool, x: bv64, b: int)
    requires 0 < b < 64
    ensures ShiftPair(!left, ShiftPair(left, x, b), b) == x
  {
    ShiftPairsInverse(x, b as bv64);
  }

  /** rotr undoes rotl and rotl undoes rotr, for every count. */
  lemma RotateInverse(x: bv64, k: int)
    ensures Rotr(Rotl(x, k), k) == x && Rotl(Rotr(x, k), k) == x
  {
    var b := TruncRem(k, 64);
    RotateImplReduced(true, x, k);
    RotateImplReduced(false, x, k);
    RotateImplReduced(false, Rotl(x, k), k);
    RotateImplReduced(true, Rotr(x, k), k);
    if b > 0 {
      ShiftPairInverse(true, x, b);
      ShiftPairInverse(false, x, b);
    } else if b < 0 {
      ShiftPairInverse(false, x, -b);
      ShiftPairInverse(true, x, -b);
    }
  }

  // ------------------------------------------------------------ bits and bytes

  /** get_number_bit: bit `offset` of a word, as 0 or 1. */
  function GetNumberBit(x: bv64, offset: bv64): (r: bv8)
    requires offset < 64
    ensures r <= 1
  {
    ((x >> offset) & 1) as bv8
  }

  /** The bit read is 1 exactly when the word has the single-bit mask of that offset set. */
  lemma GetNumberBitMask(x: bv64, offset: bv64)
    requires offset < 64
    ensures GetNumberBit(x, offset) == 1 <==> x & (1 << offset) != 0
  {
  }

  /**
   * set_number_bit: writes `bit` at `offset` (the source updates its argument
   * in place; here the new value is returned). Bit `offset` becomes the low
   * bit of `bit`.
   */
  function SetNumberBit(number: bv64, offset: bv64, bit: bv8): (r: bv64)
    requires offset < 64
    ensures GetNumberBit(r, offset) == bit & 1
  {
    (number & !(1 << offset)) | ((bit as bv64) << offset)
  }

  /** For a bit value of 0 or 1, writing 0 clears the offset's mask bit and writing 1 sets it; no other bit changes. */
  lemma SetNumberBitOthers(number: bv64, offset: bv64, bit: bv8)
    requires offset < 64 && bit <= 1
    ensures SetNumberBit(number, offset, bit) ==
      if bit == 0 then number & !(1 << offset) else number | (1 << offset)
  {
  }

  /** Byte i (least significant first) of a 64-bit word. */
  function ByteOf(x: bv64, i: bv64): bv8
    requires i < 8
  {
    ((x >> (8 * i)) & 0xFF) as bv8
  }

  /** Byte i of a word moved to byte 7 - i, everything else cleared. */
  function ByteMove(x: bv64, i: bv64): bv64
    requires i < 8
  {
    ((x >> (8 * i)) & 0xFF) << (64 - 8 * i - 8)
  }

  /** The first i bytes of a word moved to their mirrored places. */
  function SwapPrefix(x: bv64, i: bv64): bv64
    requires i <= 8
    decreases i
  {
    if i == 0 then 0 else SwapPrefix(x, i - 1) | ByteMove(x, i - 1)
  }

  /** The word with its byte order reversed. */
  function Swapped(x: bv64): bv64 {
    SwapPrefix(x, 8)
  }

  /** One iteration of swap_endian's loop moves byte i into place. */
  lemma SwapEndianStep(x: bv64, i: bv64, r: bv64, sourceOffset: bv64, destinationOffset: bv64)
    requires i < 8 && r == SwapPrefix(x, i)
    requires sourceOffset == 8 * i && destinationOffset == 64 - sourceOffset - 8
    ensures r | (((x >> sourceOffset) & 0xFF) << destinationOffset) == SwapPrefix(x, i + 1)
  {
  }

  /** swap_endian on a 64-bit word: ORs every byte into its mirrored place. */
  method SwapEndian(number: bv64) returns (r: bv64)
    ensures r == Swapped(number)
  {
    r := 0;
    var i: bv64 := 0;
    while i < 8
      invariant i <= 8
      invariant r == SwapPrefix(number, i)
      decreases 8 - i
    {
      var sourceOffset := 8 * i;
      var destinationOffset := 64 - sourceOffset - 8;
      SwapEndianStep(number, i, r, sourceOffset, destinationOffset);
      r := r | (((number >> sourceOffset) & 0xFF) << destinationOffset);
      i := i + 1;
    }
  }

  /** Byte i of the swapped word is byte 7 - i of the original. */
  lemma SwappedBytes(x: bv64, i: bv64)
    requires i < 8
    ensures ByteOf(Swapped(x), i) == ByteOf(x, 7 - i)
  {
    if i == 0 {
      SwappedByte0(x);
    }
    else if i == 1 {
      SwappedByte1(x);
    }
    else if i == 2 {
      SwappedByte2(x);
    }
    else if i == 3 {
      SwappedByte3(x);
    }
    else if i == 4 {
      SwappedByte4(x);
    }
    else if i == 5 {
      SwappedByte5(x);
    }
    else if i == 6 {
      SwappedByte6(x);
    }
    else if i == 7 {
      SwappedByte7(x);
    }
  }

  lemma SwappedByte0(x: bv64)
    ensures ByteOf(Swapped(x), 0) == ByteOf(x, 7)
  {
  }

  lemma SwappedByte1(x: bv64)
    ensures ByteOf(Swapped(x), 1) == ByteOf(x, 6)
  {
  }

  lemma SwappedByte2(x: bv64)
    ensures ByteOf(Swapped(x), 2) == ByteOf(x, 5)
  {
  }

  lemma SwappedByte3(x: bv64)
    ensures ByteOf(Swapped(x), 3) == ByteOf(x, 4)
  {
  }

  lemma SwappedByte4(x: bv64)
    ensures ByteOf(Swapped(x), 4) == ByteOf(x, 3)
  {
  }

  lemma SwappedByte5(x: bv64)
    ensures ByteOf(Swapped(x), 5) == ByteOf(x, 2)
  {
  }

  lemma SwappedByte6(x: bv64)
    ensures ByteOf(Swapped(x), 6) == ByteOf(x, 1)
  {
  }

  lemma SwappedByte7(x: bv64)
    ensures ByteOf(Swapped(x), 7) == ByteOf(x, 0)
  {
  }

  /** A word is determined by its eight bytes. */
  lemma BytesDetermineWord(x: bv64, y: bv64)
    requires forall k: bv64 :: k < 8 ==> ByteOf(x, k) == ByteOf(y, k)
    ensures x == y
  {
    assert ByteOf(x, 0) == ByteOf(y, 0) && ByteOf(x, 1) == ByteOf(y, 1);
    assert ByteOf(x, 2) == ByteOf(y, 2) && ByteOf(x, 3) == ByteOf(y, 3);
    assert ByteOf(x, 4) == ByteOf(y, 4) && ByteOf(x, 5) == ByteOf(y, 5);
    assert ByteOf(x, 6) == ByteOf(y, 6) && ByteOf(x, 7) == ByteOf(y, 7);
  }

  /** Swapping twice restores the word. */
  lemma SwappedInvolution(x: bv64)
    ensures Swapped(Swapped(x)) == x
  {
    forall k: bv64 | k < 8
      ensures ByteOf(Swapped(Swapped(x)), k) == ByteOf(x, k)
    {
      SwappedBytes(Swapped(x), k);
      SwappedBytes(x, 7 - k);
    }
    BytesDetermineWord(Swapped(Swapped(x)), x);
  }

  lemma DivDiv2(x: nat, b: nat)
    requires b > 0
    ensures x / b / 2 == x / (b * 2)
  {
    var q := x / b;
    var r := x % b;
    var q2 := q / 2;
    var r2 := q % 2;
    assert x == b * q + r;
    assert q == 2 * q2 + r2;
    assert b * q == (b * 2) * q2 + b * r2;
    assert b * r2 + r < b * 2 by {
      if r2 == 1 {
        assert b * r2 == b;
      } else {
        assert b * r2 == 0;
      }
    }
    DivModUnique(x, b * 2, q2, b * r2 + r);
  }

  lemma DivZero(x: nat, m: nat)
    requires m > 0
    ensures x / m == 0 <==> x < m
  {
    if x < m {
      DivModUnique(x, m, 0, x);
    }
  }

  /** log2: counts how often the number can be halved before reaching 0; log2(0) = 0. */
  method Log2(number: nat) returns (r: nat)
    ensures number == 0 ==> r == 0
    ensures number > 0 ==> Pow2(r) <= number < Pow2(r + 1)
  {
    r := 0;
    var n := number / 2;
    while n != 0
      invariant n == number / Pow2(r + 1)
      invariant number == 0 ==> r == 0
      invariant number > 0 ==> Pow2(r) <= number
      decreases n
    {
      DivZero(number, Pow2(r + 1));
      DivDiv2(number, Pow2(r + 1));
      r := r + 1;
      n := n / 2;
    }
    DivZero(number, Pow2(r + 1));
  }

  // ----------------------------------------------------- modular subtraction

  /** minus_mod_unsigned over 64-bit size_t, including its wrap-around branch as written. */
  function MinusModUnsignedAsWritten(a: nat, b: nat, c: nat): (r: nat)
    requires a < SizeMax && b < SizeMax && 0 < c < SizeMax
    ensures r < c
    ensures a >= b ==> r == (a - b) % c
  {
    if a >= b then (a - b) % c
    else
      var subtraction := (a - b) % SizeMax;
      var addition := ((subtraction / c + (if subtraction % c != 0 then 1 else 0)) * c) % SizeMax;
      ((subtraction + addition) % SizeMax) % c
  }

  /** The only wrapping use, x - 1 mod 5 for x < 5, gives the mathematical answer. */
  lemma MinusModUnsignedAsWrittenOnFive(x: nat)
    requires x < 5
    ensures MinusModUnsignedAsWritten(x, 1, 5) == (x + 4) % 5
  {
    if x == 0 {
      assert (0 - 1) % SizeMax == 0xFFFF_FFFF_FFFF_FFFF;
      assert 0xFFFF_FFFF_FFFF_FFFF % 5 == 0;
    }
  }

  /** With a divisor that does not divide 2^64 - 1 the wrap branch is wrong: (0 - 1) mod 7 is 6, not 4. */
  lemma MinusModUnsignedAsWrittenCounterexample()
    ensures MinusModUnsignedAsWritten(0, 1, 7) == 4
    ensures MinusMod(0, 1, 7) == 6
  {
    assert (0 - 1) % SizeMax == 0xFFFF_FFFF_FFFF_FFFF;
    assert 0xFFFF_FFFF_FFFF_FFFF % 7 == 1;
    assert 0xFFFF_FFFF_FFFF_FFFF / 7 == 2635249153387078802;
    assert ((2635249153387078802 + 1) * 7) % SizeMax == 5;
  }

  /** minus_mod_unsigned, corrected: (a - b) mod c as its doc comment promises, a residue below c. */
  function MinusMod(a: nat, b: nat, c: nat): (r: nat)
    requires c > 0
    ensures r < c
  {
    (a - b) % c
  }

  /** Adding b back to (a - b) mod c lands on a modulo c. */
  lemma MinusModCongruent(a: nat, b: nat, c: nat)
    requires c > 0
    ensures (MinusMod(a, b, c) + b) % c == a % c
  {
    var d := a - b;
    var q := d / c;
    var r := d % c;
    assert d == c * q + r;
    var qa := a / c;
    var ra := a % c;
    assert a == c * qa + ra;
    assert r + b == c * (qa - q) + ra;
    DivModUnique(r + b, c, qa - q, ra);
  }

  /** The corrected definition agrees with the source wherever no wrap-around occurs and on its only call. */
  lemma MinusModAgrees(a: nat, b: nat, c: nat)
    requires a < SizeMax && b < SizeMax && 0 < c < SizeMax
    requires a >= b || (c == 5 && b == 1 && a < 5)
    ensures MinusMod(a, b, c) == MinusModUnsignedAsWritten(a, b, c)
  {
    if a < b {
      MinusModUnsignedAsWrittenOnFive(a);
    }
  }

  // ---------------------------------------------------------- array utilities

  /** copy_bytes: writes `size` source bytes into the destination from `offset`, nothing else changes. */
  method CopyBytes(destination: array<byte>, offset: nat, source: seq<byte>, size: nat)
    requires size <= |source| && offset + size <= destination.Length
    modifies destination
    ensures destination[..] == old(destination[..offset]) + source[..size] + old(destination[offset + size..])
  {
    ghost var original := destination[..];
    var index := 0;
    while index < size
      invariant 0 <= index <= size
      invariant destination[..] == original[..offset] + source[..index] + original[offset + index..]
    {
      ghost var previous := destination[..];
      SpliceStep(previous, original, source, offset, index);
      destination[offset + index] := source[index];
      assert destination[..] == previous[offset + index := source[index]];
      index := index + 1;
    }
  }

  /** One more byte of the source written over the original. */
  lemma SpliceStep(previous: seq<byte>, original: seq<byte>, source: seq<byte>, offset: nat, index: nat)
    requires offset + index < |original| && index < |source|
    requires previous == original[..offset] + source[..index] + original[offset + index..]
    ensures previous[offset + index := source[index]] == original[..offset] + source[..index + 1] + original[offset + index + 1..]
  {
  }

  /** Start of array i inside the concatenation of arrays: the lengths of the arrays before it. */
  function Offset<T>(arrays: seq<seq<T>>, i: nat): nat
    requires i <= |arrays|
  {
    if i == 0 then 0 else |arrays[0]| + Offset(arrays[1..], i - 1)
  }

  /** concat_arrays: the arrays one after another. */
  function ConcatArrays<T>(arrays: seq<seq<T>>): (r: seq<T>)
    ensures |r| == Offset(arrays, |arrays|)
  {
    if arrays == [] then [] else arrays[0] + ConcatArrays(arrays[1..])
  }

  /** Array i of concat_arrays lands at its offset, the running sum of the lengths before it. */
  lemma {:induction false} ConcatArraysAt<T>(arrays: seq<seq<T>>, i: nat)
    requires i < |arrays|
    ensures Offset(arrays, i) + |arrays[i]| <= |ConcatArrays(arrays)|
    ensures ConcatArrays(arrays)[Offset(arrays, i)..Offset(arrays, i) + |arrays[i]|] == arrays[i]
  {
    var r := ConcatArrays(arrays);
    if i == 0 {
      assert r[..|arrays[0]|] == arrays[0];
    } else {
      var tail := ConcatArrays(arrays[1..]);
      ConcatArraysAt(arrays[1..], i - 1);
      var o := Offset(arrays[1..], i - 1);
      assert arrays[1..][i - 1] == arrays[i];
      assert r[|arrays[0]| + o..|arrays[0]| + o + |arrays[i]|] == tail[o..o + |arrays[i]|];
    }
  }

  /** sub_array<Index, Size>: the Size elements starting at Index; Index must be inside the array. */
  function SubArray<T>(data: seq<T>, index: nat, size: nat): (r: seq<T>)
    requires index < |data| && index + size <= |data|
    ensures |r| == size
    ensures forall k :: 0 <= k < size ==> r[k] == data[index + k]
  {
    data[index..index + size]
  }

  // --------------------------------------------------- first-occurrence dedup

  predicate NoDuplicates<T(==)>(s: seq<T>) {
    forall i, j :: 0 <= i < j < |s| ==> s[i] != s[j]
  }

  function UniqueFrom<T(==)>(kept: seq<T>, rest: seq<T>): seq<T>
    decreases |rest|
  {
    if rest == [] then kept
    else if rest[0] in kept then UniqueFrom(kept, rest[1..])
    else UniqueFrom(kept + [rest[0]], rest[1..])
  }

  /** tuple_unique: keeps the first occurrence of every element, in order. */
  function Unique<T(==)>(s: seq<T>): seq<T> {
    UniqueFrom([], s)
  }

  lemma {:induction false} UniqueFromProperties<T>(kept: seq<T>, rest: seq<T>)
    requires NoDuplicates(kept)
    ensures NoDuplicates(UniqueFrom(kept, rest))
    ensures forall x :: x in UniqueFrom(kept, rest) <==> x in kept || x in rest
    ensures |kept| <= |UniqueFrom(kept, rest)| && UniqueFrom(kept, rest)[..|kept|] == kept
    decreases |rest|
  {
    if rest != [] {
      if rest[0] in kept {
        UniqueFromProperties(kept, rest[1..]);
      } else {
        var next := kept + [rest[0]];
        assert NoDuplicates(next) by {
          forall i, j | 0 <= i < j < |next| ensures next[i] != next[j] {
            if j == |kept| {
              assert next[i] == kept[i];
            }
          }
        }
        UniqueFromProperties(next, rest[1..]);
        var u := UniqueFrom(next, rest[1..]);
        assert u[..|kept|] == next[..|kept|] == kept;
      }
      assert forall x :: x in rest <==> x == rest[0] || x in rest[1..];
    }
  }

  /** The deduplicated list has no repeats, the same elements, and starts with the original head. */
  lemma UniqueProperties<T>(s: seq<T>)
    ensures NoDuplicates(Unique(s))
    ensures forall x :: x in Unique(s) <==> x in s
    ensures s != [] ==> Unique(s) != [] && Unique(s)[0] == s[0]
  {
    UniqueFromProperties([], s);
    if s != [] {
      UniqueFromProperties([s[0]], s[1..]);
      assert [] + [s[0]] == [s[0]];
      assert Unique(s) == UniqueFrom([s[0]], s[1..]);
      assert Unique(s)[..1] == [s[0]];
    }
  }

  /** A list without repeats is left as it is. */
  lemma {:induction false} UniqueOfDistinct<T>(kept: seq<T>, rest: seq<T>)
    requires NoDuplicates(kept + rest)
    ensures UniqueFrom(kept, rest) == kept + rest
    decreases |rest|
  {
    if rest != [] {
      forall j | 0 <= j < |kept| ensures kept[j] != rest[0] {
        assert (kept + rest)[j] == kept[j] && (kept + rest)[|kept|] == rest[0];
      }
      assert kept + rest == (kept + [rest[0]]) + rest[1..];
      UniqueOfDistinct(kept + [rest[0]], rest[1..]);
    }
  }
}
