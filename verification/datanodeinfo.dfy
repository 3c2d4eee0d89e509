/**
 * DatanodeInfo: the status a data node reports (identity plus capacity
 * telemetry) and its binary `Writable` form.
 */
module Datanode {
  import opened Wrappers
  import opened BigEndian
  import opened JavaLong
  import opened DataIO

  /** Bytes taken by the three fixed-width telemetry fields. */
  const TELEMETRY_SIZE: int := 24

  /**
   * `name` and `storageID` come from the DatanodeID supertype; the character
   * encoding of Hadoop's UTF8 is abstracted, so both are opaque byte strings.
   */
  datatype DatanodeInfo = DatanodeInfo(
    name: seq<byte>,
    storageID: seq<byte>,
    capacity: int64,
    remaining: int64,
    lastUpdate: int64)
  {
    /** Capacity in bytes, as stored. */
    function GetCapacity(): (c: int64) { capacity }

    /** Free bytes, as stored. */
    function GetRemaining(): (r: int64) { remaining }

    /** Timestamp of the report in milliseconds, as stored. */
    function GetLastUpdate(): (t: int64) { lastUpdate }

    /** Deprecated spelling of GetLastUpdate. */
    function LastUpdate(): (t: int64) { GetLastUpdate() }
  }

  /**
   * Every getter returns its stored field unchanged, and the deprecated
   * `lastUpdate()` agrees with `getLastUpdate()` on every record.
   */
  lemma AccessorsReturnFields(x: DatanodeInfo)
    ensures x.GetCapacity() == x.capacity
    ensures x.GetRemaining() == x.remaining
    ensures x.GetLastUpdate() == x.lastUpdate
    ensures x.LastUpdate() == x.GetLastUpdate()
  {
  }

  /**
   * The used-bytes figure of the status report, `capacity - remaining`
   * evaluated in Java long arithmetic.
   */
  function Used(x: DatanodeInfo): (u: int64)
    ensures (u as int - (x.capacity as int - x.remaining as int)) % TWO64 == 0
    ensures 0 <= x.remaining <= x.capacity ==>
      (0 <= u <= x.capacity && u as int == x.capacity as int - x.remaining as int)
  {
    Sub(x.GetCapacity(), x.GetRemaining())
  }

  /** Both texts fit the 16-bit length prefix of the short-text codec. */
  predicate Valid(x: DatanodeInfo) {
    |x.name| <= MAX_SHORT && |x.storageID| <= MAX_SHORT
  }

  /** The two-argument constructor: the given identity, all telemetry zero. */
  function Make(name: seq<byte>, storageID: seq<byte>): (x: DatanodeInfo)
    ensures x.name == name && x.storageID == storageID
    ensures x.GetCapacity() == 0 && x.GetRemaining() == 0 && x.GetLastUpdate() == 0
    ensures Used(x) == 0
  {
    DatanodeInfo(name, storageID, 0, 0, 0)
  }

  /** The zero-argument constructor, the instance the decoder factory hands out. */
  function NewInstance(): (x: DatanodeInfo)
    ensures x.name == [] && x.storageID == []
    ensures x.capacity == 0 && x.remaining == 0 && x.lastUpdate == 0
    ensures Valid(x)
  {
    Make([], [])
  }

  /** The identity half of `write`: the two short texts, name first. */
  function WriteIdentity(name: seq<byte>, storageID: seq<byte>): (bs: seq<byte>)
    ensures |bs| == 2 + |name| + 2 + |storageID|
  {
    WriteUTF8(name) + WriteUTF8(storageID)
  }

  /** The telemetry half of `write`: capacity, remaining, lastUpdate, eight bytes each. */
  function WriteTelemetry(capacity: int64, remaining: int64, lastUpdate: int64): (bs: seq<byte>)
    ensures |bs| == TELEMETRY_SIZE
  {
    WriteLong(capacity) + WriteLong(remaining) + WriteLong(lastUpdate)
  }

  /**
   * `write(out)`: name, storageID, capacity, remaining, lastUpdate, in that
   * order, with no framing of its own.
   */
  function Encode(x: DatanodeInfo): (bs: seq<byte>)
    ensures |bs| == 2 + |x.name| + 2 + |x.storageID| + TELEMETRY_SIZE
  {
    WriteIdentity(x.name, x.storageID) + WriteTelemetry(x.capacity, x.remaining, x.lastUpdate)
  }

  /**
   * Field order and offsets of the wire form: the name block, the storageID
   * block, then capacity, remaining and lastUpdate, eight bytes each.
   */
  lemma EncodeLayout(x: DatanodeInfo)
    ensures var bs := Encode(x);
      && bs[..2] == WriteShort(|x.name|)
      && bs[2..2 + |x.name|] == x.name
    ensures var bs := Encode(x); var o := 2 + |x.name|;
      && bs[o..o + 2] == WriteShort(|x.storageID|)
      && bs[o + 2..o + 2 + |x.storageID|] == x.storageID
    ensures var bs := Encode(x); var o := 4 + |x.name| + |x.storageID|;
      && bs[o..o + 8] == WriteLong(x.capacity)
      && bs[o + 8..o + 16] == WriteLong(x.remaining)
      && bs[o + 16..o + 24] == WriteLong(x.lastUpdate)
  {
  }

  /** The identity half of `readFields`: two short texts, name first. */
  function ReadIdentity(bs: seq<byte>): (r: Option<((seq<byte>, seq<byte>), seq<byte>)>)
    ensures r.Some? ==> |r.value.0.0| <= MAX_SHORT && |r.value.0.1| <= MAX_SHORT
    ensures r.Some? ==> bs == WriteIdentity(r.value.0.0, r.value.0.1) + r.value.1
  {
    var name :- ReadUTF8(bs);
    var storageID :- ReadUTF8(name.1);
    var a, b := WriteUTF8(name.0), WriteUTF8(storageID.0);
    assert bs == a + (b + storageID.1);
    assert a + (b + storageID.1) == a + b + storageID.1;
    Some(((name.0, storageID.0), storageID.1))
  }

  /** The telemetry half of `readFields`: three longs, capacity first. */
  function ReadTelemetry(bs: seq<byte>): (r: Option<((int64, int64, int64), seq<byte>)>)
    ensures r.None? <==> |bs| < TELEMETRY_SIZE
    ensures r.Some? ==> bs == WriteTelemetry(r.value.0.0, r.value.0.1, r.value.0.2) + r.value.1
  {
    var capacity :- ReadLong(bs);
    var remaining :- ReadLong(capacity.1);
    var lastUpdate :- ReadLong(remaining.1);
    assert bs == WriteLong(capacity.0) + WriteLong(remaining.0) + WriteLong(lastUpdate.0) + lastUpdate.1;
    Some(((capacity.0, remaining.0, lastUpdate.0), lastUpdate.1))
  }

  /**
   * `readFields(in)`: the five fields in write order. Every field is
   * overwritten, so the instance read into does not matter; the result
   * also carries the bytes after the record. `None` is a short read.
   * A successful decode consumed exactly the encoding of the record it returns.
   */
  function Decode(bs: seq<byte>): (r: Option<(DatanodeInfo, seq<byte>)>)
    ensures |bs| < 2 + 2 + TELEMETRY_SIZE ==> r.None?
    ensures r.Some? ==> Valid(r.value.0)
    ensures r.Some? ==> bs == Encode(r.value.0) + r.value.1
  {
    var id :- ReadIdentity(bs);
    var t :- ReadTelemetry(id.1);
    var x := DatanodeInfo(id.0.0, id.0.1, t.0.0, t.0.1, t.0.2);
    assert bs == WriteIdentity(x.name, x.storageID) + WriteTelemetry(x.capacity, x.remaining, x.lastUpdate) + t.1;
    Some((x, t.1))
  }

  lemma IdentityRoundTrip(name: seq<byte>, storageID: seq<byte>, rest: seq<byte>)
    requires |name| <= MAX_SHORT && |storageID| <= MAX_SHORT
    ensures ReadIdentity(WriteIdentity(name, storageID) + rest) == Some(((name, storageID), rest))
  {
    var a, b := WriteUTF8(name), WriteUTF8(storageID);
    assert WriteIdentity(name, storageID) + rest == a + (b + rest);
    UTF8RoundTrip(name, b + rest);
    UTF8RoundTrip(storageID, rest);
  }

  lemma TelemetryRoundTrip(capacity: int64, remaining: int64, lastUpdate: int64, rest: seq<byte>)
    ensures ReadTelemetry(WriteTelemetry(capacity, remaining, lastUpdate) + rest)
      == Some(((capacity, remaining, lastUpdate), rest))
  {
    var c, d, e := WriteLong(capacity), WriteLong(remaining), WriteLong(lastUpdate);
    assert WriteTelemetry(capacity, remaining, lastUpdate) + rest == c + (d + (e + rest));
    LongRoundTrip(capacity, d + (e + rest));
    LongRoundTrip(remaining, e + rest);
    LongRoundTrip(lastUpdate, rest);
  }

  /** Round trip with trailing input: a valid record decodes back exactly and the rest is left unread. */
  lemma RoundTrip(x: DatanodeInfo, rest: seq<byte>)
    requires Valid(x)
    ensures Decode(Encode(x) + rest) == Some((x, rest))
  {
    var t := WriteTelemetry(x.capacity, x.remaining, x.lastUpdate);
    assert Encode(x) + rest == WriteIdentity(x.name, x.storageID) + (t + rest);
    IdentityRoundTrip(x.name, x.storageID, t + rest);
    TelemetryRoundTrip(x.capacity, x.remaining, x.lastUpdate, rest);
  }

  /** Decoding succeeds exactly on a valid record's encoding followed by anything. */
  lemma DecodeIffEncoded(bs: seq<byte>, x: DatanodeInfo, rest: seq<byte>)
    ensures Decode(bs) == Some((x, rest)) <==> Valid(x) && bs == Encode(x) + rest
  {
    if Valid(x) && bs == Encode(x) + rest {
      RoundTrip(x, rest);
    }
  }

  /** A record survives its own encoding exactly when both texts fit the length prefix. */
  lemma RoundTripIffValid(x: DatanodeInfo)
    ensures Decode(Encode(x)) == Some((x, [])) <==> Valid(x)
  {
    DecodeIffEncoded(Encode(x), x, []);
    assert Encode(x) + [] == Encode(x);
  }

  /** The encoding is prefix-free: one valid record's wire form never strictly extends another's. */
  lemma PrefixFree(x: DatanodeInfo, y: DatanodeInfo, tail: seq<byte>)
    requires Valid(x) && Valid(y) && Encode(x) == Encode(y) + tail
    ensures tail == [] && x == y
  {
    RoundTrip(y, tail);
    RoundTrip(x, []);
    assert Encode(x) + [] == Encode(x);
  }

  lemma SplitAfterPrefix(full: seq<byte>, k: nat, a: seq<byte>, r: seq<byte>)
    requires k <= |full| && full[..k] == a + r
    ensures full == a + (r + full[k..])
  {
  }

  /** No strict prefix of a valid record's encoding decodes: the short read surfaces as failure. */
  lemma Truncation(x: DatanodeInfo, k: nat)
    requires Valid(x) && k < |Encode(x)|
    ensures Decode(Encode(x)[..k]) == None
  {
    var full := Encode(x);
    var d := Decode(full[..k]);
    if d.Some? {
      var y, r := d.value.0, d.value.1;
      SplitAfterPrefix(full, k, Encode(y), r);
      PrefixFree(x, y, r + full[k..]);
    }
  }

  lemma LongsAtOffsets(bs: seq<byte>, x: DatanodeInfo, rest: seq<byte>)
    requires bs == Encode(x) + rest
    ensures var o := 4 + |x.name| + |x.storageID|;
      && bs[o..o + 8] == WriteLong(x.capacity)
      && bs[o + 8..o + 16] == WriteLong(x.remaining)
      && bs[o + 16..o + 24] == WriteLong(x.lastUpdate)
  {
  }

  /** Each getter of a decoded record returns the long written at its wire offset. */
  lemma GettersReadWire(bs: seq<byte>, x: DatanodeInfo, rest: seq<byte>)
    requires Decode(bs) == Some((x, rest))
    ensures var o := 4 + |x.name| + |x.storageID|;
      && bs[o..o + 8] == WriteLong(x.GetCapacity())
      && bs[o + 8..o + 16] == WriteLong(x.GetRemaining())
      && bs[o + 16..o + 24] == WriteLong(x.GetLastUpdate())
      && x.LastUpdate() == x.GetLastUpdate()
  {
    LongsAtOffsets(bs, x, rest);
  }

  /** Encoding is injective: distinct records never share a wire form. */
  lemma EncodeInjective(x: DatanodeInfo, y: DatanodeInfo)
    requires Valid(x) && Valid(y) && Encode(x) == Encode(y)
    ensures x == y
  {
    RoundTrip(x, []);
    RoundTrip(y, []);
  }
}
