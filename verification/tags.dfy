/** The tag hierarchy as a closed sum type: one constructor per non-End
    tag kind, each owning its payload.  Only what the value wrapper relies
    on is modelled here: each tag's kind, and the primitive payload of the
    number and string tags. */
module Tags {
  import opened Wrappers
  import opened TagTypes
  import opened FixedWidth

  /** A single-precision number, kept symbolic: either the IEEE 754 bit
      pattern read from a file, or the float nearest to an integer (what a
      widening conversion from an integral kind yields). */
  datatype Float32 = Float32Bits(bits: uint32) | Float32Near(n: int)

  /** A double-precision number, kept symbolic in the same way; a widened
      single-precision number is held exactly. */
  datatype Float64 = Float64Bits(bits: uint64) | Float64Near(n: int) | Float64Of(f: Float32)

  /** One NBT tag.  A compound maps each key to a value, which may be empty
      (the placeholder its indexing operator creates); a list holds tags. */
  datatype Tag =
    | TagByte(b: int8)
    | TagShort(s: int16)
    | TagInt(i: int32)
    | TagLong(l: int64)
    | TagFloat(f: Float32)
    | TagDouble(d: Float64)
    | TagByteArray(bytes: seq<int8>)
    | TagString(str: Bytes)
    | TagList(elemType: TagType, items: seq<Tag>)
    | TagCompound(entries: map<Bytes, Option<Tag>>)
    | TagIntArray(ints: seq<int32>)
    | TagLongArray(longs: seq<int64>)

  /** The kind a tag reports; no tag reports End. */
  function TypeOf(t: Tag): (k: TagType)
    ensures k != End
    ensures IsIntegral(k) <==> t.TagByte? || t.TagShort? || t.TagInt? || t.TagLong?
    ensures k == Compound <==> t.TagCompound?
    ensures k == String <==> t.TagString?
  {
    match t
    case TagByte(_) => Byte
    case TagShort(_) => Short
    case TagInt(_) => Int
    case TagLong(_) => Long
    case TagFloat(_) => Float
    case TagDouble(_) => Double
    case TagByteArray(_) => ByteArray
    case TagString(_) => String
    case TagList(_, _) => List
    case TagCompound(_) => Compound
    case TagIntArray(_) => IntArray
    case TagLongArray(_) => LongArray
  }

  /** A number or string of one of the seven C++ types a value converts
      to and from: int8_t, int16_t, int32_t, int64_t, float, double,
      std::string. */
  datatype Prim =
    | PrimByte(b: int8)
    | PrimShort(s: int16)
    | PrimInt(i: int32)
    | PrimLong(l: int64)
    | PrimFloat(f: Float32)
    | PrimDouble(d: Float64)
    | PrimString(str: Bytes)

  /** The tag kind that corresponds to a primitive's C++ type. */
  function PrimTypeOf(p: Prim): (k: PrimType)
    ensures IsIntegral(k) <==> p.PrimByte? || p.PrimShort? || p.PrimInt? || p.PrimLong?
  {
    match p
    case PrimByte(_) => Byte
    case PrimShort(_) => Short
    case PrimInt(_) => Int
    case PrimLong(_) => Long
    case PrimFloat(_) => Float
    case PrimDouble(_) => Double
    case PrimString(_) => String
  }

  /** The integer an integral primitive holds; it fits the width of every
      kind its own kind widens to. */
  function IntegerOf(p: Prim): (n: int)
    requires IsIntegral(PrimTypeOf(p))
    ensures Rank(PrimTypeOf(p)) <= Rank(Byte) ==> -0x80 <= n < 0x80
    ensures Rank(PrimTypeOf(p)) <= Rank(Short) ==> -0x8000 <= n < 0x8000
    ensures Rank(PrimTypeOf(p)) <= Rank(Int) ==> -0x8000_0000 <= n < 0x8000_0000
    ensures -0x8000_0000_0000_0000 <= n < 0x8000_0000_0000_0000
  {
    match p
    case PrimByte(b) => b as int
    case PrimShort(s) => s as int
    case PrimInt(i) => i as int
    case PrimLong(l) => l as int
  }

  /** The payload of a number or string tag; containers and arrays have none. */
  function PayloadOf(t: Tag): (r: Option<Prim>)
    ensures r.Some? <==> IsPrimitive(TypeOf(t))
    ensures r.Some? ==> PrimTypeOf(r.value) == TypeOf(t)
  {
    match t
    case TagByte(b) => Some(PrimByte(b))
    case TagShort(s) => Some(PrimShort(s))
    case TagInt(i) => Some(PrimInt(i))
    case TagLong(l) => Some(PrimLong(l))
    case TagFloat(f) => Some(PrimFloat(f))
    case TagDouble(d) => Some(PrimDouble(d))
    case TagString(str) => Some(PrimString(str))
    case _ => None
  }

  /** The number or string tag holding a primitive. */
  function TagOf(p: Prim): (t: Tag)
    ensures TypeOf(t) == PrimTypeOf(p)
    ensures PayloadOf(t) == Some(p)
  {
    match p
    case PrimByte(b) => TagByte(b)
    case PrimShort(s) => TagShort(s)
    case PrimInt(i) => TagInt(i)
    case PrimLong(l) => TagLong(l)
    case PrimFloat(f) => TagFloat(f)
    case PrimDouble(d) => TagDouble(d)
    case PrimString(str) => TagString(str)
  }

  /** A number or string tag is determined by its payload. */
  lemma PayloadDeterminesTag(t: Tag)
    requires IsPrimitive(TypeOf(t))
    ensures TagOf(PayloadOf(t).value) == t
  {
  }
}
