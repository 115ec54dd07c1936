/**
 * Type identities: the hand-assigned GUIDs of the primitive types, the five kind tags, and the
 * 32-byte type signature (the kind tag's bytes followed by the type's GUID bytes) from which
 * generic interface GUIDs are derived.
 */
module Base {
  import opened Wrappers
  import opened Meta
  import opened Guids

  /**
   * The primitive types that carry a hand-assigned GUID. intptr_t and uintptr_t are the same types
   * as int64_t and uint64_t on the 64-bit targets, so they share those entries.
   */
  datatype Primitive = GuidType | Bool | Int8 | Int16 | Int32 | Int64 | UInt8 | UInt16 | UInt32 | UInt64 | Float | Double
  {
    predicate IsInteger() {
      this in {Int8, Int16, Int32, Int64, UInt8, UInt16, UInt32, UInt64}
    }
  }

  /** The underlying type of an enumeration is one of the fixed-width integers. */
  type IntegerPrimitive = p: Primitive | p.IsInteger() witness Int32

  /** Every GUID in this module begins 47534958-0000 ("GSIX"). */
  const Prefix: u32 := 0x47534958

  /** guid_storage of each primitive: 47534958-0000-0000-xxxx-xxxxxxxxxxxx with the type name in ASCII. */
  function PrimitiveGuid(p: Primitive): Guid
  {
    match p
    case GuidType => Guid(Prefix, 0, 0, [0x00, 0x00, 0x00, 0x00, 0x47, 0x55, 0x49, 0x44])
    case Bool => Guid(Prefix, 0, 0, [0x00, 0x00, 0x00, 0x00, 0x42, 0x4F, 0x4F, 0x4C])
    case Int8 => Guid(Prefix, 0, 0, [0x00, 0x00, 0x00, 0x00, 0x49, 0x4E, 0x54, 0x38])
    case Int16 => Guid(Prefix, 0, 0, [0x00, 0x00, 0x00, 0x49, 0x4E, 0x54, 0x31, 0x36])
    case Int32 => Guid(Prefix, 0, 0, [0x00, 0x00, 0x00, 0x49, 0x4E, 0x54, 0x33, 0x32])
    case Int64 => Guid(Prefix, 0, 0, [0x00, 0x00, 0x00, 0x49, 0x4E, 0x54, 0x36, 0x34])
    case UInt8 => Guid(Prefix, 0, 0, [0x00, 0x00, 0x00, 0x55, 0x49, 0x4E, 0x54, 0x38])
    case UInt16 => Guid(Prefix, 0, 0, [0x00, 0x00, 0x55, 0x49, 0x4E, 0x54, 0x31, 0x36])
    case UInt32 => Guid(Prefix, 0, 0, [0x00, 0x00, 0x55, 0x49, 0x4E, 0x54, 0x33, 0x32])
    case UInt64 => Guid(Prefix, 0, 0, [0x00, 0x00, 0x55, 0x49, 0x4E, 0x54, 0x36, 0x34])
    case Float => Guid(Prefix, 0, 0, [0x00, 0x00, 0x00, 0x46, 0x4C, 0x4F, 0x41, 0x54])
    case Double => Guid(Prefix, 0, 0, [0x00, 0x00, 0x44, 0x4F, 0x55, 0x42, 0x4C, 0x45])
  }

  /** Four bytes of data4 that already tell the primitive GUIDs apart. */
  function Data4Key(id: Guid): (byte, byte, byte, byte)
  {
    (id.data4[2], id.data4[3], id.data4[6], id.data4[7])
  }

  /** The primitive GUIDs are pairwise distinct. */
  lemma PrimitiveGuidsDistinct(p: Primitive, q: Primitive)
    ensures PrimitiveGuid(p) == PrimitiveGuid(q) <==> p == q
  {
    if p != q {
      assert Data4Key(PrimitiveGuid(p)) != Data4Key(PrimitiveGuid(q));
    }
  }

  /** The kinds of type identity that have a signature. */
  datatype Identity = PrimitiveIdentity | EnumIdentity | InterfaceIdentity | GenericInterfaceIdentity | TableIdentity

  /** The kind tag whose bytes open every signature of that kind. */
  function KindTag(k: Identity): Guid
  {
    match k
    case PrimitiveIdentity => Guid(Prefix, 0, 0x0050, [0x52, 0x49, 0x4D, 0x49, 0x54, 0x49, 0x56, 0x45])
    case EnumIdentity => Guid(Prefix, 0, 0, [0x00, 0x00, 0x00, 0x00, 0x45, 0x4E, 0x55, 0x4D])
    case InterfaceIdentity => Guid(Prefix, 0, 0x0049, [0x4E, 0x54, 0x45, 0x52, 0x46, 0x41, 0x43, 0x45])
    case GenericInterfaceIdentity => Guid(Prefix, 0, 0x4749, [0x4E, 0x54, 0x45, 0x52, 0x46, 0x41, 0x43, 0x45])
    case TableIdentity => Guid(Prefix, 0, 0, [0x00, 0x00, 0x00, 0x74, 0x61, 0x62, 0x6C, 0x65])
  }

  /** The five kind tags are pairwise distinct. */
  lemma KindTagsDistinct(k: Identity, l: Identity)
    ensures KindTag(k) == KindTag(l) <==> k == l
  {
    if k != l {
      assert KindTag(k).data3 != KindTag(l).data3 || KindTag(k).data4[3] != KindTag(l).data4[3];
    }
  }

  /**
   * A type as the signature machinery sees it: a primitive, an enumeration (known by its underlying
   * integer type), a type whose ABI declares the primitive identity and a GUID of its own (as
   * param_string does), or an interface, generic interface or table with the GUID its guid_storage holds.
   */
  datatype TypeDesc =
    | PrimitiveType(primitive: Primitive)
    | AbiPrimitiveType(abiId: Guid)
    | EnumType(underlying: IntegerPrimitive)
    | InterfaceType(interfaceId: Guid)
    | GenericInterfaceType(genericId: Guid)
    | TableType(tableId: Guid)

  /** type_identity_t: the kind of a type. */
  function IdentityOf(t: TypeDesc): Identity
  {
    match t
    case PrimitiveType(_) => PrimitiveIdentity
    case AbiPrimitiveType(_) => PrimitiveIdentity
    case EnumType(_) => EnumIdentity
    case InterfaceType(_) => InterfaceIdentity
    case GenericInterfaceType(_) => GenericInterfaceIdentity
    case TableType(_) => TableIdentity
  }

  /** is_primitive: the type is one of the fixed list of primitives. */
  predicate IsPrimitive(t: TypeDesc)
  {
    t.PrimitiveType?
  }

  /** Every primitive has the primitive identity, but so may a type that declares it in its ABI. */
  lemma PrimitiveHasPrimitiveIdentity(t: TypeDesc)
    ensures IsPrimitive(t) ==> IdentityOf(t) == PrimitiveIdentity
    ensures IdentityOf(t) == PrimitiveIdentity <==> IsPrimitive(t) || t.AbiPrimitiveType?
  {
  }

  /** The GUID that follows the kind tag in a signature: the underlying type's GUID for an enumeration. */
  function SignatureGuid(t: TypeDesc): Guid
  {
    match t
    case PrimitiveType(p) => PrimitiveGuid(p)
    case AbiPrimitiveType(id) => id
    case EnumType(u) => PrimitiveGuid(u)
    case InterfaceType(id) => id
    case GenericInterfaceType(id) => id
    case TableType(id) => id
  }

  /** type_signature: concat_arrays of to_array(kind tag) and to_array(guid), both big-endian. */
  function Signature(t: TypeDesc): (r: seq<byte>)
    ensures |r| == 32
  {
    GuidBytes(KindTag(IdentityOf(t)), true) + GuidBytes(SignatureGuid(t), true)
  }

  /** The first sixteen bytes of a signature read back as the kind tag, the last sixteen as the type's GUID. */
  lemma SignatureHalves(t: TypeDesc)
    ensures GuidOfBytes(Signature(t)[..16]) == KindTag(IdentityOf(t))
    ensures GuidOfBytes(Signature(t)[16..]) == SignatureGuid(t)
  {
    var s := Signature(t);
    assert s[..16] == GuidBytes(KindTag(IdentityOf(t)), true);
    assert s[16..] == GuidBytes(SignatureGuid(t), true);
    GuidOfGuidBytes(KindTag(IdentityOf(t)));
    GuidOfGuidBytes(SignatureGuid(t));
  }

  /**
   * Two types share a signature exactly when they have the same kind and the same signature GUID:
   * types of different kinds never share a signature.
   */
  lemma SignatureInjective(t: TypeDesc, u: TypeDesc)
    ensures Signature(t) == Signature(u) <==> IdentityOf(t) == IdentityOf(u) && SignatureGuid(t) == SignatureGuid(u)
  {
    if Signature(t) == Signature(u) {
      SignatureHalves(t);
      SignatureHalves(u);
      KindTagsDistinct(IdentityOf(t), IdentityOf(u));
    }
  }

  /** An enumeration's signature is the enum tag followed by its underlying integer type's GUID. */
  lemma EnumSignatureEmbedsUnderlying(u: IntegerPrimitive)
    ensures Signature(EnumType(u))[..16] == GuidBytes(KindTag(EnumIdentity), true)
    ensures Signature(EnumType(u))[16..] == GuidBytes(PrimitiveGuid(u), true)
    ensures Signature(EnumType(u)) != Signature(PrimitiveType(u))
  {
    SignatureInjective(EnumType(u), PrimitiveType(u));
  }

  /** guid_of_v: the GUID guid_storage holds for a type; enumerations have none of their own. */
  function GuidOf(t: TypeDesc): Option<Guid>
  {
    if t.EnumType? then None else Some(SignatureGuid(t))
  }

  /** is_guid_of<T>(id): id equals T's GUID. */
  predicate IsGuidOf(t: TypeDesc, id: Guid)
  {
    GuidOf(t) == Some(id)
  }

  /** Among the primitives, is_guid_of<T> recognises T's GUID and no other primitive's. */
  lemma IsGuidOfPrimitive(p: Primitive, q: Primitive)
    ensures IsGuidOf(PrimitiveType(p), PrimitiveGuid(q)) <==> p == q
  {
    PrimitiveGuidsDistinct(p, q);
  }
}
