# DatanodeInfo wire codec, modelled in Dafny

A `DatanodeInfo` holds the status of one data node. It carries the node's
identity (`name`, `storageID`, inherited from `DatanodeID`) and three pieces of capacity telemetry
(`capacity`, `remaining`, `lastUpdate`, each a Java `long`). The record travels as a Hadoop
`Writable`. `write` emits the five fields in a fixed order with no framing of its own, and
`readFields` reads them back in the same order.

This project models that record and its codec as pure Dafny functions over byte sequences:

- `wrappers.dfy` (`Wrappers`): the `Option` type. `None` stands for the `EOFException` a short
  read raises.
- `bigendian.dfy` (`BigEndian`): unsigned big-endian byte strings, with both round trips and the
  "most significant byte first" digit law.
- `javalong.dfy` (`JavaLong`): the 64-bit `long` type. It covers two's-complement patterns and
  the wrap-around of long subtraction.
- `dataio.dfy` (`DataIO`): the parts of `DataOutput`/`DataInput` the record uses
  (`writeShort`/`readUnsignedShort`, `writeLong`/`readLong`, `readFully`). It also holds the
  short-text codec of Hadoop's `UTF8`: a 16-bit length, then that many bytes.
- `datanodeinfo.dfy` (`Datanode`): the record, its constructors and getters, the used-bytes
  figure, `Encode`/`Decode`, and the codec laws.
- `scenarios.dfy` (`Scenarios`): concrete wire images. These are the zero record, a populated
  record, an empty name, a truncated stream, and used-bytes values including a wrapped one.

Text fields are opaque byte strings. `Decode` returns the record together with the bytes after
it, so the laws can talk about a record embedded in a longer stream.

Wire layout, as the code writes it. N1 and N2 are the byte lengths of `name` and `storageID`:

| offset | size | field |
|---|---|---|
| 0 | 2 | N1, unsigned, big-endian |
| 2 | N1 | name |
| 2+N1 | 2 | N2 |
| 4+N1 | N2 | storageID |
| 4+N1+N2 | 8 | capacity, signed, big-endian |
| 12+N1+N2 | 8 | remaining |
| 20+N1+N2 | 8 | lastUpdate |

The total is 4 + N1 + N2 + 24 bytes, so the zero record is 28 bytes. 1 700 000 000 000 is written
as `00 00 01 8B CF E5 68 00` (`Scenarios.LongTimestamp`).

## Model

| member | source | states |
|---|---|---|
| Datanode.Make | src/java/org/apache/hadoop/dfs/DatanodeInfo.java:43-48 | the two-argument constructor keeps the given name and storageID, reads back zero from all three telemetry getters, and so reports zero used bytes |
| Datanode.NewInstance | src/java/org/apache/hadoop/dfs/DatanodeInfo.java:39-41 | the zero-argument constructor yields empty name and storageID and zero capacity, remaining and lastUpdate, and its result is encodable without loss |
| Scenarios.ZeroInstanceWire | src/java/org/apache/hadoop/dfs/DatanodeInfo.java:39-41 | the zero-argument instance encodes to 28 zero bytes, and those bytes decode back to it with nothing left over |
| Datanode.AccessorsReturnFields | src/java/org/apache/hadoop/dfs/DatanodeInfo.java:51-60 | getCapacity, getRemaining and getLastUpdate return the stored fields unchanged, and the deprecated lastUpdate() equals getLastUpdate() on every record |
| Datanode.GettersReadWire | src/java/org/apache/hadoop/dfs/DatanodeInfo.java:51-60 | after a successful read, getCapacity, getRemaining and getLastUpdate return the longs found at offsets 4+N1+N2, +8 and +16 of the input; the deprecated lastUpdate() equals getLastUpdate() |
| Datanode.Used | src/java/org/apache/hadoop/dfs/DatanodeInfo.java:65-67 | used bytes is congruent to capacity - remaining modulo 2^64, so it is Java's wrapped long difference; when 0 <= remaining <= capacity it is exactly the difference and lies in [0, capacity] |
| Scenarios.UsedExample | src/java/org/apache/hadoop/dfs/DatanodeInfo.java:67 | a node with capacity 100 and remaining 30 reports 70 used bytes |
| Scenarios.UsedWraps | src/java/org/apache/hadoop/dfs/DatanodeInfo.java:67 | Long.MAX_VALUE - (-1) wraps to Long.MIN_VALUE, as Java long subtraction does |
| JavaLong.Sub | src/java/org/apache/hadoop/dfs/DatanodeInfo.java:67 | long subtraction returns the unique long congruent to the mathematical difference modulo 2^64, and the exact difference when that fits |
| Datanode.Encode | src/java/org/apache/hadoop/dfs/DatanodeInfo.java:89-95 | size law: the output is 2 + N1 + 2 + N2 + 24 bytes |
| Datanode.EncodeLayout | src/java/org/apache/hadoop/dfs/DatanodeInfo.java:89-95 | field order and offsets: name length and name bytes, then storageID length and bytes, then the writeLong images of capacity, remaining and lastUpdate at 4+N1+N2, +8, +16 |
| Datanode.WriteIdentity | src/java/org/apache/hadoop/dfs/DatanodeInfo.java:90-91 | the two identity texts take 2 + N1 + 2 + N2 bytes |
| Datanode.WriteTelemetry | src/java/org/apache/hadoop/dfs/DatanodeInfo.java:92-94 | the three telemetry longs take exactly 24 bytes |
| Datanode.Decode | src/java/org/apache/hadoop/dfs/DatanodeInfo.java:99-108 | fewer than 28 bytes always fail; a successful read returns a record whose texts fit the 16-bit prefix, and its input is exactly the encoding of that record followed by the unread rest |
| Datanode.ReadIdentity | src/java/org/apache/hadoop/dfs/DatanodeInfo.java:100-104 | a successful read of the two texts consumed exactly their short-text encodings, name first, and each text is at most 65535 bytes |
| Datanode.ReadTelemetry | src/java/org/apache/hadoop/dfs/DatanodeInfo.java:105-107 | the three longs are read iff at least 24 bytes remain, and then the input is their writeLong images, capacity first, followed by the rest |
| Datanode.IdentityRoundTrip | src/java/org/apache/hadoop/dfs/DatanodeInfo.java:100-104 | reading back the two written texts returns them and leaves the following bytes untouched |
| Datanode.TelemetryRoundTrip | src/java/org/apache/hadoop/dfs/DatanodeInfo.java:105-107 | reading back the three written longs returns them in order and leaves the following bytes untouched |
| Datanode.RoundTrip | src/java/org/apache/hadoop/dfs/DatanodeInfo.java:89-108 | round trip and prefix property: for a record whose texts are at most 65535 bytes, decoding its encoding followed by any bytes returns the record and exactly those bytes |
| Datanode.DecodeIffEncoded | src/java/org/apache/hadoop/dfs/DatanodeInfo.java:89-108 | decoding yields (x, rest) if and only if x's texts fit the prefix and the input is Encode(x) + rest |
| Datanode.RoundTripIffValid | src/java/org/apache/hadoop/dfs/DatanodeInfo.java:89-108 | a record survives its own encoding exactly when both texts are at most 65535 bytes |
| Datanode.PrefixFree | src/java/org/apache/hadoop/dfs/DatanodeInfo.java:89-108 | no encodable record's wire form is a strict extension of another's |
| Datanode.EncodeInjective | src/java/org/apache/hadoop/dfs/DatanodeInfo.java:89-95 | two encodable records with the same wire form are equal |
| Datanode.Truncation | src/java/org/apache/hadoop/dfs/DatanodeInfo.java:99-108 | every strict prefix of an encodable record's wire form fails to decode (the short read) |
| Scenarios.ZeroInstanceTruncated | src/java/org/apache/hadoop/dfs/DatanodeInfo.java:99-108 | dropping the last byte of the zero record's 28 bytes makes decoding fail |
| Scenarios.PopulatedInstanceWire | src/java/org/apache/hadoop/dfs/DatanodeInfo.java:89-95 | ("host-a:1234", "DS-7", 1 000 000 000, 250 000 000, 1 700 000 000 000) encodes to 43 bytes, and its last 24 bytes are the three longs, big-endian |
| Scenarios.EmptyNameWire | src/java/org/apache/hadoop/dfs/DatanodeInfo.java:90-91 | an empty name is the two bytes 00 00, followed at once by storageID "S" as 00 01 53 |
| DataIO.WriteShort | src/java/org/apache/hadoop/dfs/DatanodeInfo.java:90-91 | writes two bytes whose big-endian value is v mod 65536, which is v itself when v <= 65535 |
| DataIO.ReadUnsignedShort | src/java/org/apache/hadoop/dfs/DatanodeInfo.java:100-104 | fails iff fewer than 2 bytes remain; otherwise the value is at most 65535 and its writeShort image starts the input, followed by the rest |
| DataIO.ReadFully | src/java/org/apache/hadoop/dfs/DatanodeInfo.java:100-104 | succeeds iff at least n bytes remain, and then returns exactly n bytes that, followed by the rest, make up the input |
| DataIO.WriteUTF8 | src/java/org/apache/hadoop/dfs/DatanodeInfo.java:90-91 | a text is written as its length through writeShort, followed by the text itself |
| DataIO.ReadUTF8 | src/java/org/apache/hadoop/dfs/DatanodeInfo.java:100-104 | reading a text fails iff fewer than 2 bytes remain or the announced length exceeds what is left; otherwise the input is the text's encoding followed by the rest |
| DataIO.UTF8RoundTrip | src/java/org/apache/hadoop/dfs/DatanodeInfo.java:100-104 | a written text of at most 65535 bytes reads back unchanged, and the following bytes are left over |
| DataIO.WriteLong | src/java/org/apache/hadoop/dfs/DatanodeInfo.java:92-94 | writeLong emits 8 bytes whose big-endian unsigned value is the long's two's-complement pattern |
| DataIO.LongByteAt | src/java/org/apache/hadoop/dfs/DatanodeInfo.java:92-94 | byte i of a written long is digit 7-i of its 64-bit pattern in base 256, so the most significant byte comes first |
| DataIO.LongSignByte | src/java/org/apache/hadoop/dfs/DatanodeInfo.java:92-94 | the first written byte is at least 0x80 exactly when the long is negative |
| DataIO.ReadLong | src/java/org/apache/hadoop/dfs/DatanodeInfo.java:105-107 | readLong fails iff fewer than 8 bytes remain; otherwise the input is the writeLong image of the value read, followed by the rest |
| DataIO.LongRoundTrip | src/java/org/apache/hadoop/dfs/DatanodeInfo.java:105-107 | every long, negatives included, reads back from its 8 written bytes, and the following bytes are left over |
| Scenarios.LongExamples | src/java/org/apache/hadoop/dfs/DatanodeInfo.java:92-94 | the concrete 8-byte images of 0, 1 000 000 000, 250 000 000, 1 700 000 000 000 and -1 |
| JavaLong.FromUnsigned | src/java/org/apache/hadoop/dfs/DatanodeInfo.java:105-107 | the signed reading of a 64-bit pattern is congruent to it modulo 2^64, and is negative exactly when the top bit is set |
| JavaLong.ToUnsigned | src/java/org/apache/hadoop/dfs/DatanodeInfo.java:92-94 | the 64-bit pattern of a long is below 2^64, congruent to the long modulo 2^64, and at least 2^63 exactly when the long is negative |
| BigEndian.FromToBytes | src/java/org/apache/hadoop/dfs/DatanodeInfo.java:92-94 | reading back the n big-endian bytes of a value below 256^n restores the value |
| BigEndian.ToFromBytes | src/java/org/apache/hadoop/dfs/DatanodeInfo.java:105-107 | rewriting the value of any byte string at its own length reproduces the bytes, so the byte image is canonical |
| BigEndian.ByteAt | src/java/org/apache/hadoop/dfs/DatanodeInfo.java:92-94 | byte i of the n-byte image of u is (u / 256^(n-1-i)) mod 256 |

## Left out

- The report string of `getDatanodeReport` (DatanodeInfo.java:63-74) is left out. It uses
  floating-point percentages, which divide by zero when capacity is 0. It renders
  `java.util.Date` in the host's locale and time zone. It also calls `DFSShell.byteDesc` and
  `limitDecimal`, which are not part of this model. Only the used-bytes value on line 67 is
  modelled, as `Datanode.Used`.
- The static `WritableFactories` registration (DatanodeInfo.java:79-85) is global registry
  plumbing over a library that is not part of this model. The instance its factory returns is
  modelled as `Datanode.NewInstance`.
- The character level of `org.apache.hadoop.io.UTF8` is not modelled, and `UTF8.java` is not
  part of this model. This covers the conversion between Java strings and UTF-8 bytes and
  malformed-text errors. It also covers the truncation in `UTF8.set`: before encoding, that method
  cuts any string longer than 0xffff/3 = 21845 characters down to its first 21845 characters. In
  the program, then, a `name` or `storageID` longer than 21845 characters comes back shortened.
  Texts here are opaque byte strings. Their 16-bit length is written through `writeShort`, which
  keeps the low 16 bits. So `Valid` (both texts at most 65535 bytes) is the round-trip condition
  of this byte-level model, not of the program (`Datanode.RoundTripIffValid`).
- The `DatanodeID` supertype is not part of this model beyond its two fields.
- `readFields` fills an existing instance in place. The model returns a fresh record instead.
  This loses nothing on success, because all five fields are overwritten. The partial state left
  in the instance after a failed read is not modelled, since callers discard it.
- Stream failures other than a short read are not modelled. `Option.None` stands only for the
  `EOFException` of a short read. Other `IOException`s, and blocking on the stream, are not
  represented.
