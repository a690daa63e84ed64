/**
 The header in front of a binary register value (src/RegisterWire.cpp): a fixed prefix that
 says where the stream starts, so that a later version may add fields after it. Values are opaque
 to the register engine; the header tells a reader what kind of data follows and how far to skip,
 whatever version wrote it.
 */
module BinaryValue {
  import opened Machine
  import W = RegisterWire
  import WireCursor

  const HEADER_VERSION: byte := 1
  const HEADER_SIZE := 8

  datatype Info = Info(formatId: u32, streamOffset: nat)

  /** Any version's layout: the prefix, the fields this version does not know, the stream. */
  function Layout(version: byte, reserved: byte, formatId: u32, extra: Bytes, stream: Bytes): Bytes {
    [version, reserved] + (BigEndian(HEADER_SIZE + |extra|, 2) + (BigEndian(formatId, 4) + (extra + stream)))
  }

  function Parse(value: Bytes): Option<Info> {
    if |value| < HEADER_SIZE then None
    else
      FormatInRange(value);
      var headerLen := FromBigEndian(value[2..4]);
      if headerLen < HEADER_SIZE || headerLen > |value| then None
      else Some(Info(FromBigEndian(value[4..8]), headerLen))
  }

  lemma FormatInRange(value: Bytes)
    requires |value| >= HEADER_SIZE
    ensures FromBigEndian(value[4..8]) < 0x1_0000_0000
  {
    FromBigEndianRoundTrip(value[4..8]);
    Pow256Values();
  }

  /** Readers of this version find the stream and the format behind any version's header. */
  lemma ParseLayout(version: byte, reserved: byte, formatId: u32, extra: Bytes, stream: Bytes)
    requires |extra| <= 0xFFFF - HEADER_SIZE
    ensures var value := Layout(version, reserved, formatId, extra, stream);
      Parse(value) == Some(Info(formatId, HEADER_SIZE + |extra|)) && value[HEADER_SIZE + |extra|..] == stream
  {
    Pow256Values();
    var value := Layout(version, reserved, formatId, extra, stream);
    BigEndianRoundTrip(HEADER_SIZE + |extra|, 2);
    BigEndianRoundTrip(formatId, 4);
    assert value[2..4] == BigEndian(HEADER_SIZE + |extra|, 2);
    assert value[4..8] == BigEndian(formatId, 4);
    assert value == [version, reserved] + BigEndian(HEADER_SIZE + |extra|, 2) + BigEndian(formatId, 4) + extra + stream;
  }

  /** Nothing else is accepted. */
  lemma OnlyLayoutsParse(value: Bytes)
    requires Parse(value).Some?
    ensures var info := Parse(value).value;
      8 <= info.streamOffset <= |value|
      && value == Layout(value[0], value[1], info.formatId, value[8..info.streamOffset], value[info.streamOffset..])
  {
    var offset := Parse(value).value.streamOffset;
    FromBigEndianRoundTrip(value[2..4]);
    FromBigEndianRoundTrip(value[4..8]);
    assert value == value[..2] + (value[2..4] + (value[4..8] + (value[8..offset] + value[offset..])));
  }

  /** A preview parses like the value itself if and only if it still holds the whole header. */
  lemma PreviewParsesAlike(value: Bytes, n: nat)
    requires Parse(value).Some? && n <= |value|
    ensures Parse(value[..n]) == Parse(value) <==> Parse(value).value.streamOffset <= n
  {
    if HEADER_SIZE <= n {
      assert value[..n][2..4] == value[2..4] && value[..n][4..8] == value[4..8];
    }
  }

  method EncodeBinaryValue(formatId: u32, stream: Bytes) returns (value: Bytes)
    ensures value == Layout(HEADER_VERSION, 0, formatId, [], stream)
  {
    value := [HEADER_VERSION];
    value := value + [0];
    value := WireCursor.PutU16(value, HEADER_SIZE);
    value := WireCursor.PutU32(value, formatId);
    if |stream| > 0 {
      value := value + stream;
    }
    assert [] + stream == stream;
  }

  method TryParseBinaryValue(value: Bytes) returns (info: Option<Info>)
    ensures info == Parse(value)
  {
    if |value| < HEADER_SIZE {
      return None;
    }
    FormatInRange(value);
    ReadBytes(value, value[2], value[3], value[4], value[5], value[6], value[7]);
    var b2: nat, b3: nat := value[2], value[3];
    var headerLen := b2 * 0x100 + b3;
    if headerLen < HEADER_SIZE || headerLen > |value| {
      return None;
    }
    var b4: nat, b5: nat, b6: nat, b7: nat := value[4], value[5], value[6], value[7];
    return Some(Info(b4 * 0x100_0000 + b5 * 0x1_0000 + b6 * 0x100 + b7, headerLen));
  }

  lemma ReadBytes(value: Bytes, b2: nat, b3: nat, b4: nat, b5: nat, b6: nat, b7: nat)
    requires |value| >= HEADER_SIZE && value[2..8] == [b2, b3, b4, b5, b6, b7]
    ensures FromBigEndian(value[2..4]) == b2 * 0x100 + b3
    ensures FromBigEndian(value[4..8]) == b4 * 0x100_0000 + b5 * 0x1_0000 + b6 * 0x100 + b7
  {
    var a, b := value[2..4], value[4..8];
    assert value[2] == value[2..8][0] && value[3] == value[2..8][1] && value[4] == value[2..8][2];
    assert value[5] == value[2..8][3] && value[6] == value[2..8][4] && value[7] == value[2..8][5];
    FromBigEndianStep(a, 0);
    FromBigEndianStep(a, 1);
    FromBigEndianStep(b, 0);
    FromBigEndianStep(b, 1);
    FromBigEndianStep(b, 2);
    FromBigEndianStep(b, 3);
    assert a[..2] == a && b[..4] == b;
  }
}
