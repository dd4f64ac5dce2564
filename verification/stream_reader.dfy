/** The stream reader: the decoding primitives the tree decoder is built
    from.  The input stream is an immutable byte sequence with a cursor;
    the byte order is fixed when the reader is made. */
module StreamReader {
  import opened Wrappers
  import opened TagTypes
  import opened ByteOrder
  import opened FixedWidth

  /** The reasons an input_error is thrown. */
  datatype InputError = EndOfInput | InvalidTagType(code: byte)

  /** A reader positioned at `pos` in `input`, reading multi-byte fields in
      byte order `endian`. */
  datatype Reader = Reader(input: Bytes, pos: nat, endian: Endian) {

    predicate Valid() {
      pos <= |input|
    }

    function Remaining(): nat
      requires Valid()
    {
      |input| - pos
    }
  }

  /** The reader after a read of `n` bytes from `r`: same input, same byte
      order, cursor `n` further on. */
  predicate Consumed(r: Reader, r': Reader, n: nat) {
    r'.input == r.input && r'.endian == r.endian && r'.pos == r.pos + n
  }

  /** A reader at the start of `input` with byte order `e`. */
  function NewReader(input: Bytes, e: Endian): (r: Reader)
    ensures r.Valid() && r.pos == 0 && r.input == input
    ensures GetEndian(r) == e
  {
    Reader(input, 0, e)
  }

  /** A reader made without a byte order reads big endian. */
  function DefaultReader(input: Bytes): (r: Reader)
    ensures r.Valid() && r.pos == 0 && r.input == input
    ensures GetEndian(r) == Big
  {
    NewReader(input, Big)
  }

  function GetEndian(r: Reader): Endian {
    r.endian
  }

  function Advance(r: Reader, n: nat): (r': Reader)
    requires r.Valid() && n <= r.Remaining()
    ensures r'.Valid() && Consumed(r, r', n)
  {
    r.(pos := r.pos + n)
  }

  /** Reads one byte as a tag kind.  Fails at the end of input, on a byte
      that is no kind's code, and on End unless `allowEnd` is set (it is
      not by default); on success exactly one byte is consumed. */
  function ReadType(r: Reader, allowEnd: bool := false): (res: Result<(TagType, Reader), InputError>)
    requires r.Valid()
    ensures res.Success? <==>
              r.pos < |r.input| && r.input[r.pos] <= MaxCode && (allowEnd || r.input[r.pos] != 0)
    ensures res.Success? ==> Code(res.value.0) == r.input[r.pos] && Consumed(r, res.value.1, 1)
    ensures res.Success? && !allowEnd ==> res.value.0 != End
    ensures res.Failure? && r.pos == |r.input| ==> res.error == EndOfInput
    ensures res.Failure? && r.pos < |r.input| ==> res.error == InvalidTagType(r.input[r.pos])
  {
    if r.pos == |r.input| then Failure(EndOfInput)
    else
      var c := r.input[r.pos];
      match FromCode(c)
      case None => Failure(InvalidTagType(c))
      case Some(t) =>
        if t == End && !allowEnd then Failure(InvalidTagType(c))
        else Success((t, Advance(r, 1)))
  }

  /** Reading a kind's code gives the kind back, except that End is
      refused where it is not allowed. */
  lemma ReadTypeRoundTrip(t: TagType, allowEnd: bool, prefix: Bytes, rest: Bytes, e: Endian)
    ensures var r := Reader(prefix + [Code(t)] + rest, |prefix|, e);
            ReadType(r, allowEnd) ==
              if t == End && !allowEnd then Failure(InvalidTagType(0))
              else Success((t, Advance(r, 1)))
  {
  }

  /** Code 12 is the last valid kind, LongArray; 13 is refused, and so is
      0 where End is not allowed, which is the default. */
  lemma ReadTypeExamples()
    ensures ReadType(Reader([12], 0, Big), false) == Success((LongArray, Reader([12], 1, Big)))
    ensures ReadType(Reader([13], 0, Big), true) == Failure(InvalidTagType(13))
    ensures ReadType(Reader([0], 0, Big), false) == Failure(InvalidTagType(0))
    ensures ReadType(Reader([0], 0, Big), true) == Success((End, Reader([0], 1, Big)))
    ensures ReadType(Reader([], 0, Big), true) == Failure(EndOfInput)
    ensures ReadType(Reader([0], 0, Big)) == Failure(InvalidTagType(0))
    ensures ReadType(Reader([1], 0, Little)) == Success((Byte, Reader([1], 1, Little)))
  {
  }

  /** The C++ types `read_num` is used with. */
  datatype NumType = I8 | I16 | I32 | I64 | U16 | F32 | F64

  /** sizeof(T). */
  function SizeOf(t: NumType): nat {
    match t
    case I8 => 1
    case I16 => 2
    case U16 => 2
    case I32 => 4
    case F32 => 4
    case I64 => 8
    case F64 => 8
  }

  /** A number as read: an integer, or the bit pattern of a float or double. */
  datatype Num = Integer(n: int) | Bits32(bits32: uint32) | Bits64(bits64: uint64)

  /** Half the range of a `width`-byte integer: 2^(8 * width - 1). */
  function Half(width: nat): int
    requires width > 0
  {
    Pow256(width) / 2
  }

  lemma HalfIsHalf(width: nat)
    requires width > 0
    ensures Pow256(width) == 2 * Half(width)
  {
  }

  /** The numbers representable in type `t`. */
  predicate Fits(x: Num, t: NumType) {
    match t
    case U16 => x.Integer? && 0 <= x.n < Pow256(2)
    case F32 => x.Bits32?
    case F64 => x.Bits64?
    case _ => x.Integer? && -Half(SizeOf(t)) <= x.n < Half(SizeOf(t))
  }

  /** The number of type `t` whose object representation, read as an
      unsigned integer, is `u`: two's complement for the signed types. */
  function Reinterpret(u: nat, t: NumType): (x: Num)
    requires u < Pow256(SizeOf(t))
    ensures Fits(x, t)
  {
    match t
    case U16 => Integer(u)
    case F32 => Pow256Values(); Bits32(u as uint32)
    case F64 => Pow256Values(); Bits64(u as uint64)
    case _ =>
      HalfIsHalf(SizeOf(t));
      if u < Half(SizeOf(t)) then Integer(u) else Integer(u - Pow256(SizeOf(t)))
  }

  /** The object representation of a number of type `t`, as an unsigned
      integer; the writer's counterpart of Reinterpret. */
  function Representation(x: Num, t: NumType): (u: nat)
    requires Fits(x, t)
    ensures u < Pow256(SizeOf(t))
  {
    match t
    case U16 => x.n
    case F32 => Pow256Values(); x.bits32 as int
    case F64 => Pow256Values(); x.bits64 as int
    case _ =>
      HalfIsHalf(SizeOf(t));
      if x.n >= 0 then x.n else x.n + Pow256(SizeOf(t))
  }

  /** Reinterpret and Representation are mutually inverse. */
  lemma ReinterpretOfRepresentation(x: Num, t: NumType)
    requires Fits(x, t)
    ensures Reinterpret(Representation(x, t), t) == x
  {
    HalfIsHalf(SizeOf(t));
  }

  lemma RepresentationOfReinterpret(u: nat, t: NumType)
    requires u < Pow256(SizeOf(t))
    ensures Representation(Reinterpret(u, t), t) == u
  {
    HalfIsHalf(SizeOf(t));
  }

  /** Reads sizeof(T) bytes as a number of type T in the reader's byte
      order.  The read itself is not checked, so enough bytes must remain. */
  function ReadNum(r: Reader, t: NumType): (res: (Num, Reader))
    requires r.Valid() && SizeOf(t) <= r.Remaining()
    ensures Fits(res.0, t)
    ensures Consumed(r, res.1, SizeOf(t))
    ensures Representation(res.0, t) == FromBytes(r.endian, r.input[r.pos..r.pos + SizeOf(t)])
  {
    var bytes := r.input[r.pos..r.pos + SizeOf(t)];
    var u := FromBytes(r.endian, bytes);
    RepresentationOfReinterpret(u, t);
    (Reinterpret(u, t), Advance(r, SizeOf(t)))
  }

  /** The bytes the writer produces for a number of type `t`. */
  function EncodeNum(e: Endian, x: Num, t: NumType): (bs: Bytes)
    requires Fits(x, t)
    ensures |bs| == SizeOf(t)
  {
    ToBytes(e, Representation(x, t), SizeOf(t))
  }

  /** Reading an encoded number gives it back and consumes exactly its bytes. */
  lemma ReadNumRoundTrip(e: Endian, x: Num, t: NumType, prefix: Bytes, rest: Bytes)
    requires Fits(x, t)
    ensures var r := Reader(prefix + EncodeNum(e, x, t) + rest, |prefix|, e);
            ReadNum(r, t) == (x, Advance(r, SizeOf(t)))
  {
    var bs := EncodeNum(e, x, t);
    var r := Reader(prefix + bs + rest, |prefix|, e);
    assert r.input[r.pos..r.pos + SizeOf(t)] == bs;
    RoundTrip(e, Representation(x, t), SizeOf(t));
    ReinterpretOfRepresentation(x, t);
  }

  /** The same bytes read little endian denote what their reversal denotes
      read big endian. */
  lemma ReadNumByteOrder(input: Bytes, pos: nat, t: NumType)
    requires pos + SizeOf(t) <= |input|
    ensures ReadNum(Reader(input, pos, Little), t).0 ==
            ReadNum(Reader(Reverse(input[pos..pos + SizeOf(t)]), 0, Big), t).0
  {
    var bytes := input[pos..pos + SizeOf(t)];
    var rev := Reverse(bytes);
    assert rev[0..SizeOf(t)] == rev;
    LittleIsReversedBig(bytes);
    var x := ReadNum(Reader(input, pos, Little), t).0;
    var y := ReadNum(Reader(rev, 0, Big), t).0;
    ReinterpretOfRepresentation(x, t);
    ReinterpretOfRepresentation(y, t);
  }

  /** The bytes 00 00 00 01 read as a 32-bit integer are 1 in big endian
      and 16777216 in little endian. */
  lemma ReadIntExample()
    ensures ReadNum(Reader([0, 0, 0, 1], 0, Big), I32).0 == Integer(1)
    ensures ReadNum(Reader([0, 0, 0, 1], 0, Little), I32).0 == Integer(16777216)
  {
    var bs: Bytes := [0, 0, 0, 1];
    assert bs[0..4] == bs;
    assert bs[1..] == [0, 0, 1];
    assert bs[1..][1..] == [0, 1];
    assert bs[1..][1..][1..] == [1];
    assert FromLittle(bs) == 16777216;
    assert bs[..3] == [0, 0, 0];
    assert bs[..3][..2] == [0, 0];
    assert bs[..3][..2][..1] == [0];
    assert FromBig([0]) == 0;
    assert FromBig([0, 0]) == 0;
    assert FromBig([0, 0, 0]) == 0;
    assert FromBig(bs) == 1;
  }

  /** The length prefix of the string at the cursor. */
  function StringLength(r: Reader): (n: nat)
    requires r.Valid() && 2 <= r.Remaining()
    ensures n < Pow256(2)
  {
    FromBytes(r.endian, r.input[r.pos..r.pos + 2])
  }

  /** Reads an NBT string: a two-byte unsigned length in the reader's byte
      order, then exactly that many bytes.  Fails when the input ends
      inside the prefix or inside the payload. */
  function ReadString(r: Reader): (res: Result<(Bytes, Reader), InputError>)
    requires r.Valid()
    ensures res.Failure? <==> r.Remaining() < 2 || r.Remaining() - 2 < StringLength(r)
    ensures res.Failure? ==> res.error == EndOfInput
    ensures res.Success? ==>
              var (s, r') := res.value;
              && |s| == StringLength(r)
              && s == r.input[r.pos + 2..r.pos + 2 + |s|]
              && Consumed(r, r', 2 + |s|)
  {
    if r.Remaining() < 2 then Failure(EndOfInput)
    else
      var (len, r1) := ReadNum(r, U16);
      var n := len.n;
      if r1.Remaining() < n then Failure(EndOfInput)
      else Success((r1.input[r1.pos..r1.pos + n], Advance(r1, n)))
  }

  /** The bytes the writer produces for a string shorter than 65536 bytes. */
  function EncodeString(e: Endian, s: Bytes): (bs: Bytes)
    requires |s| < Pow256(2)
    ensures |bs| == 2 + |s|
  {
    ToBytes(e, |s|, 2) + s
  }

  /** Reading an encoded string gives it back and consumes exactly its bytes. */
  lemma ReadStringRoundTrip(e: Endian, s: Bytes, prefix: Bytes, rest: Bytes)
    requires |s| < Pow256(2)
    ensures var r := Reader(prefix + EncodeString(e, s) + rest, |prefix|, e);
            ReadString(r) == Success((s, Advance(r, 2 + |s|)))
  {
    var r := Reader(prefix + EncodeString(e, s) + rest, |prefix|, e);
    assert r.input[r.pos..r.pos + 2] == ToBytes(e, |s|, 2);
    RoundTrip(e, |s|, 2);
    assert r.input[r.pos + 2..r.pos + 2 + |s|] == s;
  }
}
