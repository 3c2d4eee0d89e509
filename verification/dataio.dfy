/**
 * The slice of `java.io.DataOutput` / `java.io.DataInput` and of Hadoop's
 * `UTF8` short-text codec that DatanodeInfo's wire form is built from.
 * Streams are byte sequences: a writer returns the bytes it appends, a reader
 * returns the value read and the bytes left over, or `None` on a short read
 * (where the Java stream throws `EOFException`).
 */
module DataIO {
  import opened Wrappers
  import opened BigEndian
  import opened JavaLong

  /** Largest length a short-text prefix can carry. */
  const MAX_SHORT: int := 0xFFFF

  lemma Pow256Values()
    ensures Pow256(2) == MAX_SHORT + 1
    ensures Pow256(7) == 0x100_0000_0000_0000
    ensures Pow256(8) == TWO64
  {
  }

  /** `writeShort(v)`: the low 16 bits of v, high byte first. */
  function WriteShort(v: nat): (bs: seq<byte>)
    ensures |bs| == 2
    ensures FromBytes(bs) == v % (MAX_SHORT + 1)
    ensures v <= MAX_SHORT ==> FromBytes(bs) == v
  {
    Pow256Values();
    var w := ToBytes(v % (MAX_SHORT + 1), 2);
    FromToBytes(v % (MAX_SHORT + 1), 2);
    w
  }

  /** `readUnsignedShort()`: two bytes, high byte first, as a value in [0, 65535]. */
  function ReadUnsignedShort(bs: seq<byte>): (r: Option<(nat, seq<byte>)>)
    ensures r.None? <==> |bs| < 2
    ensures r.Some? ==> r.value.0 <= MAX_SHORT && bs == WriteShort(r.value.0) + r.value.1
  {
    if |bs| < 2 then None
    else
      var n := FromBytes(bs[..2]);
      Pow256Values();
      FromBytesInjective(WriteShort(n), bs[..2]);
      assert bs == bs[..2] + bs[2..];
      Some((n, bs[2..]))
  }

  /** `readFully(buf, 0, n)`: exactly n bytes, or a short read. */
  function ReadFully(bs: seq<byte>, n: nat): (r: Option<(seq<byte>, seq<byte>)>)
    ensures r.Some? <==> n <= |bs|
    ensures r.Some? ==> |r.value.0| == n && bs == r.value.0 + r.value.1
  {
    if |bs| < n then None
    else
      assert bs == bs[..n] + bs[n..];
      Some((bs[..n], bs[n..]))
  }

  /** `writeLong(v)`: the 64-bit two's-complement pattern of v, most significant byte first. */
  function WriteLong(v: int64): (bs: seq<byte>)
    ensures |bs| == 8
    ensures FromBytes(bs) == ToUnsigned(v)
  {
    Pow256Values();
    FromToBytes(ToUnsigned(v), 8);
    ToBytes(ToUnsigned(v), 8)
  }

  /** `readLong()`: eight bytes, most significant first, read as a signed long. */
  function ReadLong(bs: seq<byte>): (r: Option<(int64, seq<byte>)>)
    ensures r.None? <==> |bs| < 8
    ensures r.Some? ==> bs == WriteLong(r.value.0) + r.value.1
  {
    var raw :- ReadFully(bs, 8);
    Pow256Values();
    var v := FromUnsigned(FromBytes(raw.0));
    FromBytesInjective(WriteLong(v), raw.0);
    Some((v, raw.1))
  }

  /** The first byte written for a long carries its sign bit. */
  lemma LongSignByte(v: int64)
    ensures WriteLong(v)[0] >= 128 <==> v < 0
  {
    Pow256Values();
    ByteAt(ToUnsigned(v), 8, 0);
  }

  /** Byte i of a written long is digit 7-i of its unsigned pattern in base 256. */
  lemma LongByteAt(v: int64, i: nat)
    requires i < 8
    ensures WriteLong(v)[i] as int == ToUnsigned(v) / Pow256(7 - i) % 256
  {
    Pow256Values();
    ByteAt(ToUnsigned(v), 8, i);
  }

  /** Reading a written long, negatives included, restores it and leaves what follows. */
  lemma LongRoundTrip(v: int64, rest: seq<byte>)
    ensures ReadLong(WriteLong(v) + rest) == Some((v, rest))
  {
    var bs := WriteLong(v) + rest;
    assert bs[..8] == WriteLong(v) && bs[8..] == rest;
    FromToUnsigned(v);
  }

  /** `new UTF8(s).write(out)`: a 16-bit length, then the bytes of s. */
  function WriteUTF8(s: seq<byte>): (bs: seq<byte>)
    ensures |bs| == 2 + |s|
    ensures bs[..2] == WriteShort(|s|) && bs[2..] == s
  {
    var w := WriteShort(|s|);
    assert (w + s)[..2] == w;
    w + s
  }

  /** `UTF8.readFields(in)`: an unsigned 16-bit length, then that many bytes. */
  function ReadUTF8(bs: seq<byte>): (r: Option<(seq<byte>, seq<byte>)>)
    ensures r.None? <==> |bs| < 2 || FromBytes(bs[..2]) > |bs| - 2
    ensures r.Some? ==> |r.value.0| <= MAX_SHORT && bs == WriteUTF8(r.value.0) + r.value.1
  {
    var len :- ReadUnsignedShort(bs);
    assert len.1 == bs[2..] && len.0 == FromBytes(bs[..2]);
    var text :- ReadFully(len.1, len.0);
    assert bs == WriteShort(len.0) + text.0 + text.1;
    Some(text)
  }

  /** Reading a written short text restores it and leaves what follows. */
  lemma UTF8RoundTrip(s: seq<byte>, rest: seq<byte>)
    requires |s| <= MAX_SHORT
    ensures ReadUTF8(WriteUTF8(s) + rest) == Some((s, rest))
  {
    var bs := WriteUTF8(s) + rest;
    assert bs[..2] == WriteUTF8(s)[..2];
    assert bs[2..] == s + rest;
  }

}
