/**
 * Concrete instances of the wire form: the zero record, a populated
 * record, an empty name, a truncated stream, and the used-bytes figure.
 */
module Scenarios {
  import opened Wrappers
  import opened BigEndian
  import opened DataIO
  import opened Datanode

  /** "host-a:1234" in ASCII. */
  const HOST_A: seq<byte> := [0x68, 0x6F, 0x73, 0x74, 0x2D, 0x61, 0x3A, 0x31, 0x32, 0x33, 0x34]

  /** "DS-7" in ASCII. */
  const DS_7: seq<byte> := [0x44, 0x53, 0x2D, 0x37]

  /** Eight zero bytes: one zero long. */
  const Z8: seq<byte> := [0, 0, 0, 0, 0, 0, 0, 0]

  /** Twenty-eight zero bytes: two empty texts and three zero longs. */
  const ZEROS: seq<byte> := seq(28, _ => 0 as byte)

  /** The big-endian forms of the longs used below, most significant byte first. */
  lemma LongExamples()
    ensures WriteLong(0) == [0x00, 0x00, 0x00, 0x00, 0x00, 0x00, 0x00, 0x00]
    ensures WriteLong(1_000_000_000) == [0x00, 0x00, 0x00, 0x00, 0x3B, 0x9A, 0xCA, 0x00]
    ensures WriteLong(250_000_000) == [0x00, 0x00, 0x00, 0x00, 0x0E, 0xE6, 0xB2, 0x80]
    ensures WriteLong(1_700_000_000_000) == [0x00, 0x00, 0x01, 0x8B, 0xCF, 0xE5, 0x68, 0x00]
    ensures WriteLong(-1) == [0xFF, 0xFF, 0xFF, 0xFF, 0xFF, 0xFF, 0xFF, 0xFF]
  {
    LongZero();
    LongCapacity();
    LongRemaining();
    LongTimestamp();
    LongMinusOne();
  }

  lemma LongZero()
    ensures WriteLong(0) == [0x00, 0x00, 0x00, 0x00, 0x00, 0x00, 0x00, 0x00]
  {
    Pow256Values();
    assert ToBytes(0, 8) == [0x00, 0x00, 0x00, 0x00, 0x00, 0x00, 0x00, 0x00];
  }

  lemma LongCapacity()
    ensures WriteLong(1_000_000_000) == [0x00, 0x00, 0x00, 0x00, 0x3B, 0x9A, 0xCA, 0x00]
  {
    Pow256Values();
    assert ToBytes(1_000_000_000, 8) == [0x00, 0x00, 0x00, 0x00, 0x3B, 0x9A, 0xCA, 0x00];
  }

  lemma LongRemaining()
    ensures WriteLong(250_000_000) == [0x00, 0x00, 0x00, 0x00, 0x0E, 0xE6, 0xB2, 0x80]
  {
    Pow256Values();
    assert ToBytes(250_000_000, 8) == [0x00, 0x00, 0x00, 0x00, 0x0E, 0xE6, 0xB2, 0x80];
  }

  lemma LongTimestamp()
    ensures WriteLong(1_700_000_000_000) == [0x00, 0x00, 0x01, 0x8B, 0xCF, 0xE5, 0x68, 0x00]
  {
    Pow256Values();
    assert ToBytes(1_700_000_000_000, 8) == [0x00, 0x00, 0x01, 0x8B, 0xCF, 0xE5, 0x68, 0x00];
  }

  lemma LongMinusOne()
    ensures WriteLong(-1) == [0xFF, 0xFF, 0xFF, 0xFF, 0xFF, 0xFF, 0xFF, 0xFF]
  {
    Pow256Values();
    assert ToBytes(0xFFFF_FFFF_FFFF_FFFF, 8) == [0xFF, 0xFF, 0xFF, 0xFF, 0xFF, 0xFF, 0xFF, 0xFF];
  }

  lemma ShortsSmall()
    ensures WriteShort(0) == [0, 0] && WriteShort(1) == [0, 1]
  {
    Pow256Values();
    assert ToBytes(0, 2) == [0, 0] && ToBytes(1, 2) == [0, 1];
  }

  /** The zero-argument instance is twenty-eight zero bytes on the wire and reads back unchanged. */
  lemma ZeroInstanceWire()
    ensures Encode(NewInstance()) == ZEROS
    ensures Decode(ZEROS) == Some((NewInstance(), []))
  {
    ZeroInstanceEncoding();
    RoundTrip(NewInstance(), []);
    assert Encode(NewInstance()) + [] == ZEROS;
  }

  lemma ZeroInstanceEncoding()
    ensures Encode(NewInstance()) == ZEROS
  {
    assert WriteIdentity([], []) == [0, 0, 0, 0] by {
      ShortsSmall();
    }
    assert WriteTelemetry(0, 0, 0) == Z8 + Z8 + Z8 by {
      LongZero();
    }
    ZerosSplit();
  }

  lemma ZerosSplit()
    ensures ZEROS == [0, 0, 0, 0] + Z8 + Z8 + Z8
  {
    var r: seq<byte> := [0, 0, 0, 0] + Z8 + Z8 + Z8;
    assert forall i | 0 <= i < 28 :: r[i] == 0;
  }

  /** Dropping the last byte of the zero instance makes the read fail. */
  lemma ZeroInstanceTruncated()
    ensures Decode(ZEROS[..27]) == None
  {
    ZeroInstanceWire();
    Truncation(NewInstance(), 27);
  }

  /** "host-a:1234" / "DS-7" with three populated longs: 43 bytes, the longs big-endian at the end. */
  lemma PopulatedInstanceWire(x: DatanodeInfo)
    requires x == DatanodeInfo(HOST_A, DS_7, 1_000_000_000, 250_000_000, 1_700_000_000_000)
    ensures |Encode(x)| == 43
    ensures Encode(x)[19..27] == [0x00, 0x00, 0x00, 0x00, 0x3B, 0x9A, 0xCA, 0x00]
    ensures Encode(x)[27..35] == [0x00, 0x00, 0x00, 0x00, 0x0E, 0xE6, 0xB2, 0x80]
    ensures Encode(x)[35..43] == [0x00, 0x00, 0x01, 0x8B, 0xCF, 0xE5, 0x68, 0x00]
  {
    LongsAtOffsets(Encode(x), x, []);
    LongExamples();
  }

  /** An empty name is just a zero length; the storageID block follows at once. */
  lemma EmptyNameWire()
    ensures Encode(Make([], [0x53]))[..5] == [0x00, 0x00, 0x00, 0x01, 0x53]
  {
    var x := Make([], [0x53]);
    EncodeLayout(x);
    ShortsSmall();
    var bs := Encode(x);
    assert bs[..5] == bs[..2] + bs[2..4] + bs[4..5];
  }

  /** capacity 100, remaining 30: the report's used figure is 70. */
  lemma UsedExample()
    ensures Used(DatanodeInfo([], [], 100, 30, 0)) == 70
  {
  }

  /** Java long subtraction wraps: Long.MAX_VALUE - (-1) is Long.MIN_VALUE. */
  lemma UsedWraps()
    ensures Used(DatanodeInfo([], [], 0x7FFF_FFFF_FFFF_FFFF, -1, 0)) == -0x8000_0000_0000_0000
  {
  }
}
