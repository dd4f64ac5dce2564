/** Byte order of multi-byte fields: how a run of bytes denotes an unsigned
    number in big- and little-endian order, and the inverse encodings. */
module ByteOrder {
  import opened FixedWidth

  /** Big endian is the order of the Java edition's files, little endian
      the order of the Pocket edition's. */
  datatype Endian = Little | Big

  function Pow256(n: nat): (p: nat)
    ensures p >= 1
  {
    if n == 0 then 1 else 256 * Pow256(n - 1)
  }

  lemma Pow256Values()
    ensures Pow256(1) == 0x100
    ensures Pow256(2) == 0x1_0000
    ensures Pow256(4) == 0x1_0000_0000
    ensures Pow256(8) == 0x1_0000_0000_0000_0000
  {
  }

  function Reverse(bs: Bytes): (rs: Bytes)
    ensures |rs| == |bs|
    ensures forall i :: 0 <= i < |bs| ==> rs[i] == bs[|bs| - 1 - i]
  {
    if |bs| == 0 then [] else Reverse(bs[1..]) + [bs[0]]
  }

  /** The unsigned number the bytes denote, most significant byte first. */
  function FromBig(bs: Bytes): (n: nat)
    ensures n < Pow256(|bs|)
  {
    if |bs| == 0 then 0 else FromBig(bs[..|bs| - 1]) * 256 + bs[|bs| - 1] as nat
  }

  /** The unsigned number the bytes denote, least significant byte first. */
  function FromLittle(bs: Bytes): (n: nat)
    ensures n < Pow256(|bs|)
  {
    if |bs| == 0 then 0 else bs[0] as nat + 256 * FromLittle(bs[1..])
  }

  function FromBytes(e: Endian, bs: Bytes): (n: nat)
    ensures n < Pow256(|bs|)
  {
    match e
    case Big => FromBig(bs)
    case Little => FromLittle(bs)
  }

  /** The `width` bytes that denote `n`, most significant first. */
  function ToBig(n: nat, width: nat): (bs: Bytes)
    requires n < Pow256(width)
    ensures |bs| == width
  {
    if width == 0 then [] else ToBig(n / 256, width - 1) + [(n % 256) as byte]
  }

  function ToBytes(e: Endian, n: nat, width: nat): (bs: Bytes)
    requires n < Pow256(width)
    ensures |bs| == width
  {
    match e
    case Big => ToBig(n, width)
    case Little => Reverse(ToBig(n, width))
  }

  /** Reading bytes little-endian gives the same number as reading the
      byte-reversed run big-endian. */
  lemma {:induction false} LittleIsReversedBig(bs: Bytes)
    ensures FromLittle(bs) == FromBig(Reverse(bs))
    decreases |bs|
  {
    if |bs| > 0 {
      var rs := Reverse(bs);
      assert rs[..|rs| - 1] == Reverse(bs[1..]);
      assert rs[|rs| - 1] == bs[0];
      LittleIsReversedBig(bs[1..]);
    }
  }

  lemma ReverseReverse(bs: Bytes)
    ensures Reverse(Reverse(bs)) == bs
  {
  }

  lemma DivByte(n: nat, width: nat)
    requires 0 < width && n < Pow256(width)
    ensures n / 256 < Pow256(width - 1)
    ensures n == (n / 256) * 256 + n % 256
  {
  }

  /** Decoding a big-endian encoding gives the number back. */
  lemma {:induction false} BigRoundTrip(n: nat, width: nat)
    requires n < Pow256(width)
    ensures FromBig(ToBig(n, width)) == n
    decreases width
  {
    if width > 0 {
      DivByte(n, width);
      var q, m := n / 256, n % 256;
      var init := ToBig(q, width - 1);
      var bs := ToBig(n, width);
      assert bs == init + [m as byte];
      assert bs[..|bs| - 1] == init;
      BigRoundTrip(q, width - 1);
      assert FromBig(bs) == FromBig(init) * 256 + m;
    }
  }

  /** Encoding the number a byte run denotes gives the run back. */
  lemma {:induction false} BigRoundTripBytes(bs: Bytes)
    ensures ToBig(FromBig(bs), |bs|) == bs
    decreases |bs|
  {
    if |bs| > 0 {
      var init := bs[..|bs| - 1];
      var last := bs[|bs| - 1];
      var n := FromBig(bs);
      assert n == FromBig(init) * 256 + last as nat;
      DivMod(FromBig(init), last as nat);
      BigRoundTripBytes(init);
      assert ToBig(n, |bs|) == ToBig(FromBig(init), |init|) + [last];
    }
  }

  lemma DivMod(q: nat, m: nat)
    requires m < 256
    ensures (q * 256 + m) / 256 == q
    ensures (q * 256 + m) % 256 == m
  {
  }

  /** Decoding an encoding in either byte order gives the number back. */
  lemma RoundTrip(e: Endian, n: nat, width: nat)
    requires n < Pow256(width)
    ensures FromBytes(e, ToBytes(e, n, width)) == n
  {
    BigRoundTrip(n, width);
    if e == Little {
      LittleIsReversedBig(Reverse(ToBig(n, width)));
      ReverseReverse(ToBig(n, width));
    }
  }

  /** In either byte order, encoding the number a run of bytes denotes
      gives the run back, so decoding is a bijection between runs of
      `width` bytes and the numbers below 256^width. */
  lemma BytesRoundTrip(bs: Bytes)
    ensures ToBytes(Big, FromBytes(Big, bs), |bs|) == bs
    ensures ToBytes(Little, FromBytes(Little, bs), |bs|) == bs
  {
    BigRoundTripBytes(bs);
    LittleIsReversedBig(bs);
    BigRoundTripBytes(Reverse(bs));
    ReverseReverse(bs);
  }
}
