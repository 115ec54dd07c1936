/**
 * A 128-bit globally unique identifier: its text form (eight, four, four, four and twelve
 * upper-case hex digits joined by hyphens, the layout of RFC 4122 section 3), its sixteen-byte
 * form, and identifiers derived from bytes by truncating a SHA3-512 digest.
 */
module Guids {
  import opened Wrappers
  import opened Meta
  import Sha3Details

  type u16 = x: int | 0 <= x < 0x1_0000
  type u32 = x: int | 0 <= x < 0x1_0000_0000
  type Data4 = s: seq<byte> | |s| == 8 witness [0, 0, 0, 0, 0, 0, 0, 0]

  datatype Guid = Guid(data1: u32, data2: u16, data3: u16, data4: Data4)

  /** The default GUID: every field zero. */
  const Empty: Guid := Guid(0, 0, 0, [0, 0, 0, 0, 0, 0, 0, 0])

  /** Characters of the text form. */
  const GuidStringSize: nat := 36

  lemma PowFacts()
    ensures Pow256(1) == 0x100 && Pow256(2) == 0x1_0000 && Pow256(4) == 0x1_0000_0000
  {
  }

  // ---------------------------------------------------------------- parsing

  /** The n-byte big-endian number written by the 2n characters of str from offset (to_number on a substring). */
  function ParseField(str: seq<char>, offset: nat, n: nat): (r: nat)
    requires offset + 2 * n <= |str|
    ensures r < Pow256(n)
  {
    var text := str[offset .. offset + 2 * n];
    match BytesOfHex(text)
    case None => 0
    case Some(d) => MakeNumber(d, true)
  }

  /** Where the two digits of data4[i] start: bytes 0 and 1 after the third hyphen, bytes 2 to 7 after the fourth. */
  function Data4Offset(i: nat): nat
    requires i < 8
  {
    if i < 2 then 19 + 2 * i else 24 + 2 * (i - 2)
  }

  /** What the string constructor builds: the all-zero GUID for a short string, otherwise the five fields. */
  function Parsed(str: seq<char>): Guid
  {
    if |str| < GuidStringSize then Empty
    else
      PowFacts();
      Guid(ParseField(str, 0, 4), ParseField(str, 9, 2), ParseField(str, 14, 2), Data4Of(str))
  }

  /** The eight data4 bytes of the text, two digits each. */
  function Data4Of(str: seq<char>): (r: Data4)
    requires |str| >= GuidStringSize
  {
    PowFacts();
    seq(8, i requires 0 <= i < 8 => ParseField(str, Data4Offset(i), 1))
  }

  /** A field parsed by to_number is ParseField: the characters are exactly the field's. */
  lemma ToNumberIsParseField(str: seq<char>, offset: nat, n: nat)
    requires offset + 2 * n <= |str|
    ensures ToNumberSpec(str[offset .. offset + 2 * n], n, true) == ParseField(str, offset, n)
  {
    var text := str[offset .. offset + 2 * n];
    assert text[..2 * n] == text;
  }

  /** guid(string_view): the fields one by one, data4 through assign_to_data4_helper. */
  method Parse(str: seq<char>) returns (g: Guid)
    ensures g == Parsed(str)
    ensures |str| < GuidStringSize ==> g == Empty
  {
    if |str| < GuidStringSize {
      return Empty;
    }
    PowFacts();
    var data1 := ToNumber(str[0..8], 4, true);
    var data2 := ToNumber(str[9..13], 2, true);
    var data3 := ToNumber(str[14..18], 2, true);
    ToNumberIsParseField(str, 0, 4);
    ToNumberIsParseField(str, 9, 2);
    ToNumberIsParseField(str, 14, 2);
    var data4 := ParseData4(str);
    g := Guid(data1, data2, data3, data4);
  }

  /** The data4 bytes of the string constructor: two calls of assign_to_data4_helper on a zeroed array. */
  method ParseData4(str: seq<char>) returns (r: Data4)
    requires |str| >= GuidStringSize
    ensures r == Data4Of(str)
  {
    var data4 := new byte[8](_ => 0);
    AssignToData4Helper(data4, str, 19, 0, 2);
    ghost var first := data4[..];
    AssignToData4Helper(data4, str, 24, 2, 6);
    forall i | 0 <= i < 8
      ensures data4[i] == Data4Of(str)[i]
    {
      if i < 2 {
        assert data4[i] == first[i];
        Data4OfAt(str, i, 19 + 2 * (i - 0));
      } else {
        Data4OfAt(str, i, 24 + 2 * (i - 2));
      }
    }
    assert data4[..] == Data4Of(str);
    r := data4[..];
  }

  lemma Data4OfAt(str: seq<char>, i: nat, k: nat)
    requires |str| >= GuidStringSize && i < 8 && k == Data4Offset(i)
    ensures Data4Of(str)[i] == ParseField(str, k, 1)
  {
  }

  /** assign_to_data4_helper: bytes offset to offset + size - 1 of data4, two characters each from sourceOffset. */
  method AssignToData4Helper(data4: array<byte>, str: seq<char>, sourceOffset: nat, offset: nat, size: nat)
    requires data4.Length == 8 && offset + size <= 8 && sourceOffset + 2 * size <= |str|
    modifies data4
    ensures forall i :: offset <= i < offset + size ==> data4[i] == ParseField(str, sourceOffset + 2 * (i - offset), 1)
    ensures forall i :: 0 <= i < offset || offset + size <= i < 8 ==> data4[i] == old(data4[i])
  {
    var i, j := offset, sourceOffset;
    while i < offset + size
      invariant offset <= i <= offset + size && j == sourceOffset + 2 * (i - offset)
      invariant forall k :: offset <= k < i ==> data4[k] == ParseField(str, sourceOffset + 2 * (k - offset), 1)
      invariant forall k :: 0 <= k < offset || i <= k < 8 ==> data4[k] == old(data4[k])
    {
      var b := ToNumber(str[j .. j + 2], 1, true);
      ToNumberIsParseField(str, j, 1);
      PowFacts();
      data4[i] := b;
      i, j := i + 1, j + 2;
    }
  }

  /** Only the characters of the five fields are read: hyphens are not checked and text after 36 characters is ignored. */
  lemma ParsedReadsOnlyFields(s: seq<char>, t: seq<char>)
    requires |s| >= GuidStringSize && |t| >= GuidStringSize
    requires s[0..8] == t[0..8] && s[9..13] == t[9..13] && s[14..18] == t[14..18]
    requires s[19..23] == t[19..23] && s[24..36] == t[24..36]
    ensures Parsed(s) == Parsed(t)
  {
    Data4OfReadsOnlyFields(s, t);
  }

  lemma Data4OfReadsOnlyFields(s: seq<char>, t: seq<char>)
    requires |s| >= GuidStringSize && |t| >= GuidStringSize
    requires s[19..23] == t[19..23] && s[24..36] == t[24..36]
    ensures Data4Of(s) == Data4Of(t)
  {
    forall i | 0 <= i < 8
      ensures Data4Of(s)[i] == Data4Of(t)[i]
    {
      if i < 2 {
        ParseFieldInside(s, t, 19, 23, Data4Offset(i));
      } else {
        ParseFieldInside(s, t, 24, 36, Data4Offset(i));
      }
    }
  }

  /** A one-byte field inside a range where two strings agree reads the same in both. */
  lemma ParseFieldInside(s: seq<char>, t: seq<char>, lo: nat, hi: nat, k: nat)
    requires lo <= k && k + 2 <= hi <= |s| && hi <= |t| && s[lo..hi] == t[lo..hi]
    ensures ParseField(s, k, 1) == ParseField(t, k, 1)
  {
    SameInside(s, t, lo, hi, k, 2);
  }

  /** Two strings that agree on [lo, hi) agree on every piece of it. */
  lemma SameInside(s: seq<char>, t: seq<char>, lo: nat, hi: nat, k: nat, n: nat)
    requires lo <= k && k + n <= hi <= |s| && hi <= |t| && s[lo..hi] == t[lo..hi]
    ensures s[k .. k + n] == t[k .. k + n]
  {
    var x, y := s[k .. k + n], t[k .. k + n];
    forall j | 0 <= j < n
      ensures x[j] == y[j]
    {
      assert s[k + j] == s[lo..hi][k + j - lo];
      assert t[k + j] == t[lo..hi][k + j - lo];
    }
  }

  /** A field with a character that is not a hex digit reads as 0. */
  lemma ParseFieldNonHex(str: seq<char>, offset: nat, n: nat, k: nat)
    requires offset + 2 * n <= |str| && offset <= k < offset + 2 * n && !IsHexDigit(str[k])
    ensures ParseField(str, offset, n) == 0
  {
    var text := str[offset .. offset + 2 * n];
    assert text[k - offset] == str[k];
    assert !AllHex(text);
  }

  // ------------------------------------------------------------ comparison

  /** The loop of operator== over data4: true unless some byte from i on differs. */
  function BytesEqualFrom(left: seq<byte>, right: seq<byte>, i: nat): bool
    requires |left| == |right| && i <= |left|
    decreases |left| - i
  {
    if i == |left| then true
    else if left[i] != right[i] then false
    else BytesEqualFrom(left, right, i + 1)
  }

  /** operator==: field by field, data4 byte by byte. */
  function Equals(left: Guid, right: Guid): bool
  {
    left.data1 == right.data1 && left.data2 == right.data2 && left.data3 == right.data3
    && BytesEqualFrom(left.data4, right.data4, 0)
  }

  /** operator!= is the negation of operator==. */
  function NotEquals(left: Guid, right: Guid): bool
  {
    !Equals(left, right)
  }

  lemma {:induction false} BytesEqualFromMeansSuffixEqual(left: seq<byte>, right: seq<byte>, i: nat)
    requires |left| == |right| && i <= |left|
    ensures BytesEqualFrom(left, right, i) <==> left[i..] == right[i..]
    decreases |left| - i
  {
    if i < |left| {
      BytesEqualFromMeansSuffixEqual(left, right, i + 1);
      assert left[i..] == [left[i]] + left[i + 1..];
      assert right[i..] == [right[i]] + right[i + 1..];
    }
  }

  /** operator== holds exactly for equal GUIDs, and operator!= exactly for different ones. */
  lemma EqualsIsEquality(left: Guid, right: Guid)
    ensures Equals(left, right) <==> left == right
    ensures NotEquals(left, right) <==> left != right
  {
    BytesEqualFromMeansSuffixEqual(left.data4, right.data4, 0);
    assert left.data4[0..] == left.data4 && right.data4[0..] == right.data4;
  }

  // ------------------------------------------------------------ byte form

  /** to_array: data1, data2 and data3 in the chosen byte order, then data4 as it is. */
  function GuidBytes(id: Guid, bigEndian: bool): (r: seq<byte>)
    ensures |r| == 16
  {
    ToArray(id.data1, 4, bigEndian) + ToArray(id.data2, 2, bigEndian) + ToArray(id.data3, 2, bigEndian) + id.data4
  }

  /** The GUID create_guid_from_bytes reads from a digest: bytes 0-3, 4-5 and 6-7 big-endian, then bytes 8-15. */
  function GuidOfBytes(bytes: seq<byte>): Guid
    requires |bytes| >= 16
  {
    PowFacts();
    Guid(MakeNumber(bytes[0..4], true), MakeNumber(bytes[4..6], true), MakeNumber(bytes[6..8], true), bytes[8..16])
  }

  /** Reading the big-endian byte form back gives the GUID: to_array is one-to-one. */
  lemma GuidOfGuidBytes(id: Guid)
    ensures GuidOfBytes(GuidBytes(id, true)) == id
  {
    PowFacts();
    var a, b, c := ToArray(id.data1, 4, true), ToArray(id.data2, 2, true), ToArray(id.data3, 2, true);
    var bytes := GuidBytes(id, true);
    assert bytes[0..4] == a && bytes[4..6] == b && bytes[6..8] == c && bytes[8..16] == id.data4;
    MakeNumberToArray(id.data1, 4, true);
    MakeNumberToArray(id.data2, 2, true);
    MakeNumberToArray(id.data3, 2, true);
  }

  /** Writing the GUID read from sixteen bytes gives those bytes back. */
  lemma GuidBytesOfBytes(bytes: seq<byte>)
    requires |bytes| == 16
    ensures GuidBytes(GuidOfBytes(bytes), true) == bytes
  {
    ToArrayMakeNumber(bytes[0..4], true);
    ToArrayMakeNumber(bytes[4..6], true);
    ToArrayMakeNumber(bytes[6..8], true);
    assert bytes == bytes[0..4] + bytes[4..6] + bytes[6..8] + bytes[8..16];
  }

  /** The GUID whose digest prefixes every derived GUID's input: 2A4F92A8-051D-48DE-8833-7837A9D30699. */
  const GuidRoot: Guid := Guid(0x2A4F92A8, 0x051D, 0x48DE, [0x88, 0x33, 0x78, 0x37, 0xA9, 0xD3, 0x06, 0x99])

  /** create_guid_from_bytes: the first sixteen bytes of SHA3-512(to_array(root) ++ data) read as a GUID. */
  function CreateGuidFromBytes(data: seq<byte>): Guid
  {
    GuidOfBytes(Sha3Details.Sha3(Sha3Details.Sha3_512, GuidBytes(GuidRoot, true) + data))
  }

  /** The byte form of a derived GUID is the truncated digest, so GUIDs derived from different digest prefixes differ. */
  lemma CreateGuidFromBytesIsTruncatedDigest(data: seq<byte>)
    ensures GuidBytes(CreateGuidFromBytes(data), true) == Sha3Details.Sha3(Sha3Details.Sha3_512, GuidBytes(GuidRoot, true) + data)[..16]
  {
    var digest := Sha3Details.Sha3(Sha3Details.Sha3_512, GuidBytes(GuidRoot, true) + data);
    var prefix := digest[..16];
    assert prefix[0..4] == digest[0..4] && prefix[4..6] == digest[4..6] && prefix[6..8] == digest[6..8];
    assert prefix[8..16] == digest[8..16];
    GuidBytesOfBytes(prefix);
  }

  // ------------------------------------------------------------ text form

  /** to_char_array: 8-4-4-4-12 upper-case hex digits separated by hyphens (the hyphenated flag is not read). */
  function GuidText(id: Guid): (r: seq<char>)
    ensures |r| == GuidStringSize
  {
    Hyphenate(ToCharArray(id.data1, 4, true), ToCharArray(id.data2, 2, true), ToCharArray(id.data3, 2, true),
              HexOfBytes(id.data4[0..2]), HexOfBytes(id.data4[2..8]))
  }

  /** Five groups of digits joined by hyphens. */
  function Hyphenate(a: seq<char>, b: seq<char>, c: seq<char>, d: seq<char>, e: seq<char>): (r: seq<char>)
    ensures |r| == |a| + |b| + |c| + |d| + |e| + 4
  {
    a + "-" + b + "-" + c + "-" + d + "-" + e
  }

  /** Character j of an 8-4-4-4-12 hyphenated text: a hyphen or a character of its group. */
  lemma HyphenateAt(a: seq<char>, b: seq<char>, c: seq<char>, d: seq<char>, e: seq<char>, j: nat)
    requires |a| == 8 && |b| == 4 && |c| == 4 && |d| == 4 && |e| == 12 && j < GuidStringSize
    ensures Hyphenate(a, b, c, d, e)[j] ==
      if j < 8 then a[j] else if j < 9 then '-' else if j < 13 then b[j - 9] else if j < 14 then '-'
      else if j < 18 then c[j - 14] else if j < 19 then '-' else if j < 23 then d[j - 19] else if j < 24 then '-'
      else e[j - 24]
  {
  }

  /** The groups of an 8-4-4-4-12 hyphenated text. */
  lemma HyphenateGroups(a: seq<char>, b: seq<char>, c: seq<char>, d: seq<char>, e: seq<char>)
    requires |a| == 8 && |b| == 4 && |c| == 4 && |d| == 4 && |e| == 12
    ensures var t := Hyphenate(a, b, c, d, e);
      t[0..8] == a && t[9..13] == b && t[14..18] == c && t[19..23] == d && t[24..36] == e
  {
  }

  predicate IsUpperHexDigit(c: char) {
    c in HexCharacters
  }

  lemma {:induction false} HexOfBytesUpper(d: seq<byte>, i: nat)
    requires i < 2 * |d|
    ensures IsUpperHexDigit(HexOfBytes(d)[i])
  {
    HexOfBytesAt(d, i / 2);
    if i % 2 == 0 {
      assert i == 2 * (i / 2);
    } else {
      assert i == 2 * (i / 2) + 1;
    }
  }

  /** The text has hyphens at 8, 13, 18 and 23 and an upper-case hex digit everywhere else. */
  lemma GuidTextLayout(id: Guid, i: nat)
    requires i < GuidStringSize
    ensures i in {8, 13, 18, 23} ==> GuidText(id)[i] == '-'
    ensures i !in {8, 13, 18, 23} ==> IsUpperHexDigit(GuidText(id)[i])
  {
    var a, b, c := ToArray(id.data1, 4, true), ToArray(id.data2, 2, true), ToArray(id.data3, 2, true);
    var d, e := id.data4[0..2], id.data4[2..8];
    HyphenateAt(HexOfBytes(a), HexOfBytes(b), HexOfBytes(c), HexOfBytes(d), HexOfBytes(e), i);
    if i < 8 {
      HexOfBytesUpper(a, i);
    } else if 8 < i < 13 {
      HexOfBytesUpper(b, i - 9);
    } else if 13 < i < 18 {
      HexOfBytesUpper(c, i - 14);
    } else if 18 < i < 23 {
      HexOfBytesUpper(d, i - 19);
    } else if 23 < i {
      HexOfBytesUpper(e, i - 24);
    }
  }

  /** The two digits of one byte read back as that byte. */
  lemma ByteDigitsRoundTrip(b: byte)
    ensures BytesOfHex(ToHexCharacter(b)) == Some([b]) && MakeNumber([b], true) == b
  {
    var pair := ToHexCharacter(b);
    PairByteOfHex(b);
    assert pair[2..] == [];
    assert BytesOfHex(pair) == Some([PairByte(pair[0], pair[1])] + []);
    assert [PairByte(pair[0], pair[1])] + [] == [b];
    assert Reverse([b]) == [b];
    assert [b][1..] == [];
    assert ValueLE([b]) == b + 256 * ValueLE([]);
  }

  /** A one-byte field holding the two digits of b reads as b. */
  lemma ParseFieldOfDigits(text: seq<char>, k: nat, b: byte)
    requires k + 2 <= |text| && text[k] == HexCharacters[b / 16] && text[k + 1] == HexCharacters[b % 16]
    ensures ParseField(text, k, 1) == b
  {
    assert text[k .. k + 2] == ToHexCharacter(b);
    ByteDigitsRoundTrip(b);
  }

  /** A number field read back from its own hex text. */
  lemma NumberFieldRoundTrip(text: seq<char>, offset: nat, x: nat, n: nat)
    requires x < Pow256(n) && offset + 2 * n <= |text| && text[offset .. offset + 2 * n] == ToCharArray(x, n, true)
    ensures ParseField(text, offset, n) == x
  {
    ToNumberToCharArray(x, n, true);
    ToNumberIsParseField(text, offset, n);
  }

  /** The three number fields of the text are the to_char_array of data1, data2 and data3. */
  lemma GuidTextNumbers(id: Guid)
    ensures GuidText(id)[0..8] == ToCharArray(id.data1, 4, true)
    ensures GuidText(id)[9..13] == ToCharArray(id.data2, 2, true)
    ensures GuidText(id)[14..18] == ToCharArray(id.data3, 2, true)
  {
    HyphenateGroups(ToCharArray(id.data1, 4, true), ToCharArray(id.data2, 2, true), ToCharArray(id.data3, 2, true),
                    HexOfBytes(id.data4[0..2]), HexOfBytes(id.data4[2..8]));
  }

  /** The two digits of data4[i] in the text. */
  lemma GuidTextData4Digits(id: Guid, i: nat)
    requires i < 8
    ensures GuidText(id)[Data4Offset(i)] == HexCharacters[id.data4[i] / 16]
    ensures GuidText(id)[Data4Offset(i) + 1] == HexCharacters[id.data4[i] % 16]
  {
    var a, b, c := ToCharArray(id.data1, 4, true), ToCharArray(id.data2, 2, true), ToCharArray(id.data3, 2, true);
    var d, e := id.data4[0..2], id.data4[2..8];
    var k := Data4Offset(i);
    HyphenateAt(a, b, c, HexOfBytes(d), HexOfBytes(e), k);
    HyphenateAt(a, b, c, HexOfBytes(d), HexOfBytes(e), k + 1);
    if i < 2 {
      HexOfBytesAt(d, i);
    } else {
      HexOfBytesAt(e, i - 2);
    }
  }

  /** Parsing the text form gives the GUID back, for every GUID (all-zero and all-0xFF included). */
  lemma ParsedGuidText(id: Guid)
    ensures Parsed(GuidText(id)) == id
  {
    var text := GuidText(id);
    GuidTextNumbers(id);
    NumberFieldRoundTrip(text, 0, id.data1, 4);
    NumberFieldRoundTrip(text, 9, id.data2, 2);
    NumberFieldRoundTrip(text, 14, id.data3, 2);
    Data4OfGuidText(id);
  }

  /** The data4 digits of the text read back as data4. */
  lemma Data4OfGuidText(id: Guid)
    ensures Data4Of(GuidText(id)) == id.data4
  {
    var text := GuidText(id);
    forall i | 0 <= i < 8
      ensures Data4Of(text)[i] == id.data4[i]
    {
      GuidTextData4Digits(id, i);
      ParseFieldOfDigits(text, Data4Offset(i), id.data4[i]);
    }
  }
}
