/** The closed set of NBT tag kinds, their one-byte wire codes, and the
    widening relation that governs conversions between the primitive kinds. */
module TagTypes {
  import opened Wrappers
  import opened FixedWidth

  /** One constructor per tag kind, in wire-code order (End = 0 … LongArray = 12). */
  datatype TagType =
    | End | Byte | Short | Int | Long | Float | Double
    | ByteArray | String | List | Compound | IntArray | LongArray

  /** Largest valid wire code. */
  const MaxCode: byte := 12

  /** The stable wire code of a tag kind. */
  function Code(t: TagType): (c: byte)
    ensures c <= MaxCode
    ensures c == 0 <==> t == End
  {
    match t
    case End => 0
    case Byte => 1
    case Short => 2
    case Int => 3
    case Long => 4
    case Float => 5
    case Double => 6
    case ByteArray => 7
    case String => 8
    case List => 9
    case Compound => 10
    case IntArray => 11
    case LongArray => 12
  }

  /** The tag kind a wire code denotes, if any. */
  function FromCode(c: byte): (r: Option<TagType>)
    ensures r.Some? <==> c <= MaxCode
    ensures r.Some? ==> Code(r.value) == c
  {
    if c == 0 then Some(End)
    else if c == 1 then Some(Byte)
    else if c == 2 then Some(Short)
    else if c == 3 then Some(Int)
    else if c == 4 then Some(Long)
    else if c == 5 then Some(Float)
    else if c == 6 then Some(Double)
    else if c == 7 then Some(ByteArray)
    else if c == 8 then Some(String)
    else if c == 9 then Some(List)
    else if c == 10 then Some(Compound)
    else if c == 11 then Some(IntArray)
    else if c == 12 then Some(LongArray)
    else None
  }

  /** Code and FromCode are mutually inverse: the mapping is a bijection
      between the 13 kinds and the codes 0..12. */
  lemma CodeRoundTrip(t: TagType, c: byte)
    ensures FromCode(Code(t)) == Some(t)
    ensures FromCode(c).Some? ==> Code(FromCode(c).value) == c
  {
  }

  /** Kinds that hold a single two's-complement integer. */
  predicate IsIntegral(t: TagType) {
    t == Byte || t == Short || t == Int || t == Long
  }

  /** Kinds that hold a single number. */
  predicate IsNumeric(t: TagType) {
    IsIntegral(t) || t == Float || t == Double
  }

  /** Kinds a value can be converted to or assigned from: numbers and strings. */
  predicate IsPrimitive(t: TagType) {
    IsNumeric(t) || t == String
  }

  type PrimType = t: TagType | IsPrimitive(t) witness Byte

  /** Position of a numeric kind on the widening chain
      Byte < Short < Int < Long < Float < Double. */
  function Rank(t: TagType): nat
    requires IsNumeric(t)
  {
    match t
    case Byte => 1
    case Short => 2
    case Int => 3
    case Long => 4
    case Float => 5
    case Double => 6
  }

  /** A value of kind `from` may be read as, or stored into, kind `to`
      without narrowing.  Strings only widen to strings. */
  predicate Widens(from: TagType, to: TagType) {
    || (from == String && to == String)
    || (IsNumeric(from) && IsNumeric(to) && Rank(from) <= Rank(to))
  }

  /** The widenings that keep every value exactly.  In C++ an int32_t or
      int64_t converted to float, and an int64_t converted to double, is
      rounded to the nearest representable number (float has a 24-bit
      significand, double a 53-bit one); every other widening is exact. */
  predicate IsExact(from: TagType, to: TagType) {
    && Widens(from, to)
    && !(to == Float && (from == Int || from == Long))
    && !(to == Double && from == Long)
  }

  /** Independent description of the widening relation: for each target
      kind, the source kinds its conversion accepts. */
  function AcceptedSources(to: TagType): set<TagType> {
    match to
    case Byte => {Byte}
    case Short => {Byte, Short}
    case Int => {Byte, Short, Int}
    case Long => {Byte, Short, Int, Long}
    case Float => {Byte, Short, Int, Long, Float}
    case Double => {Byte, Short, Int, Long, Float, Double}
    case String => {String}
    case _ => {}
  }

  lemma WidensMatchesAcceptedSources(from: TagType, to: TagType)
    ensures Widens(from, to) <==> from in AcceptedSources(to)
  {
  }

  /** Widening is a partial order on the primitive kinds and relates nothing else. */
  lemma WidensIsPartialOrder(a: TagType, b: TagType, c: TagType)
    ensures Widens(a, b) ==> IsPrimitive(a) && IsPrimitive(b)
    ensures IsPrimitive(a) ==> Widens(a, a)
    ensures Widens(a, b) && Widens(b, a) ==> a == b
    ensures Widens(a, b) && Widens(b, c) ==> Widens(a, c)
  {
  }

  /** Strings and numbers never convert into each other, and floating-point
      kinds never widen into integral ones. */
  lemma WideningSeparatesFamilies(a: TagType, b: TagType)
    ensures IsNumeric(a) ==> !Widens(a, String) && !Widens(String, a)
    ensures (a == Float || a == Double) && IsIntegral(b) ==> !Widens(a, b)
    ensures !Widens(Double, Float)
  {
  }
}
