/**
 The encoders and decoders of src/RegisterWire.cpp as the program runs them: `Put*` append to
 a buffer, and a cursor moves over a body, checking bounds before every read. Each is proved to
 compute the encoding or the parse of RegisterWire.dfy, where round trips and exactness are
 stated; a decoder that fails leaves nothing behind but its answer.
 */
module WireCursor {
  import opened Machine
  import opened HybridClock
  import opened RegisterMerge
  import opened RegisterWire
  import Sequences

  // ---- Appending ----

  lemma BigEndianBytes(v: nat, k: nat)
    requires k == 2 || k == 4
    ensures k == 2 ==> BigEndian(v, k) == [ShiftRightBytes(v, 1) % 256, v % 256]
    ensures k == 4 ==>
      BigEndian(v, k) == [ShiftRightBytes(v, 3) % 256, ShiftRightBytes(v, 2) % 256, ShiftRightBytes(v, 1) % 256, v % 256]
  {
    BigEndianAt(v, k, 0);
    BigEndianAt(v, k, 1);
    if k == 4 {
      BigEndianAt(v, k, 2);
      BigEndianAt(v, k, 3);
    }
  }

  method PutU16(b: Bytes, v: nat) returns (out: Bytes)
    ensures out == b + BigEndian(v, 2)
  {
    BigEndianBytes(v, 2);
    out := b + [ShiftRightBytes(v, 1) % 256];
    out := out + [v % 256];
  }

  method PutU32(b: Bytes, v: nat) returns (out: Bytes)
    ensures out == b + BigEndian(v, 4)
  {
    BigEndianBytes(v, 4);
    out := b + [ShiftRightBytes(v, 3) % 256];
    out := out + [ShiftRightBytes(v, 2) % 256];
    out := out + [ShiftRightBytes(v, 1) % 256];
    out := out + [v % 256];
  }

  method PutU64(b: Bytes, v: u64) returns (out: Bytes)
    ensures out == b + BigEndian(v, 8)
  {
    out := b;
    for i := 0 to 8
      invariant out == b + BigEndian(v, 8)[..i]
    {
      BigEndianAt(v, 8, i);
      out := out + [ShiftRightBytes(v, 7 - i) % 256];
      assert BigEndian(v, 8)[..i + 1] == BigEndian(v, 8)[..i] + [BigEndian(v, 8)[i]];
    }
    assert BigEndian(v, 8)[..8] == BigEndian(v, 8);
  }

  method PutSized(b: Bytes, s: Bytes) returns (out: Bytes)
    ensures out == b + Sized(s, 2)
  {
    out := PutU16(b, |s|);
    out := out + s;
  }

  method PutHlc(b: Bytes, h: Hlc) returns (out: Bytes)
    ensures out == b + PackBytes(h)
  {
    var packed := Pack(h);
    out := b + packed[..];
  }

  method EncodeRecordBody(record: Record, transportFlags: byte) returns (b: Bytes)
    ensures b == EncodeRecord(record, transportFlags)
  {
    b := [VERSION];
    b := b + [record.flags];
    b := b + [transportFlags];
    b := b + [0];
    ghost var head := b;
    b := PutHlc(b, record.written);
    b := PutHlc(b, record.touched);
    b := b + record.origin;
    b := PutSized(b, record.name);
    b := PutU32(b, |record.value|);
    b := b + record.value;
    assert head == [VERSION, record.flags, transportFlags, 0];
    RecordAppends(head, PackBytes(record.written), PackBytes(record.touched), record.origin, Sized(record.name, 2),
                  BigEndian(|record.value|, 4), record.value);
  }

  /** The loop both the anti-entropy answer and the snapshot run over their records. */
  method EncodeRecordBodies(records: seq<Record>) returns (bodies: seq<Bytes>)
    ensures bodies == EncodeAll(records)
  {
    bodies := [];
    for i := 0 to |records|
      invariant bodies == EncodeAll(records[..i])
    {
      assert records[..i + 1][..i] == records[..i];
      var body := EncodeRecordBody(records[i], 0);
      bodies := bodies + [body];
    }
    assert records[..|records|] == records;
  }

  lemma RecordAppends(a: Bytes, b: Bytes, c: Bytes, d: Bytes, e: Bytes, f: Bytes, g: Bytes)
    ensures a + b + c + d + e + f + g == a + (b + (c + (d + (e + (f + g)))))
  {}

  method EncodeNameBody(name: Bytes) returns (b: Bytes)
    ensures b == EncodeName(name)
  {
    b := [VERSION];
    b := PutSized(b, name);
  }

  method PutEntry(b0: Bytes, e: DigestEntry) returns (b: Bytes)
    ensures b == b0 + EncodeEntry(e)
  {
    b := PutSized(b0, e.name);
    b := PutHlc(b, e.written);
    b := PutHlc(b, e.touched);
    EntryAppends(b0, Sized(e.name, 2), PackBytes(e.written), PackBytes(e.touched));
  }

  lemma EntryAppends(z: Bytes, a: Bytes, b: Bytes, c: Bytes)
    ensures z + a + b + c == z + (a + (b + c))
  {}

  method EncodeDigestBody(entries: seq<DigestEntry>) returns (b: Bytes)
    ensures b == EncodeDigest(entries)
  {
    var count := if |entries| > MAX_DIGEST_ENTRIES then MAX_DIGEST_ENTRIES else |entries|;
    ghost var q := Cut(entries);
    b := PutU16([VERSION], count);
    CountedStart(EncodeEntry, entries, b);
    for i := 0 to count
      invariant b + Concat(EncodeEntry, q[i..]) == EncodeDigest(entries)
    {
      ConcatStep(EncodeEntry, q, i, b);
      b := PutEntry(b, entries[i]);
    }
    Sequences.AppendNone(b);
  }

  lemma CountedStart<T>(encode: T -> Bytes, entries: seq<T>, b: Bytes)
    requires b == [VERSION] + BigEndian(|Cut(entries)|, 2)
    ensures b + Concat(encode, Cut(entries)[0..]) == Counted(encode, entries)
    ensures Concat(encode, Cut(entries)[|Cut(entries)|..]) == []
  {}

  lemma ConcatStep<T>(encode: T -> Bytes, q: seq<T>, i: nat, b: Bytes)
    requires i < |q|
    ensures b + Concat(encode, q[i..]) == b + encode(q[i]) + Concat(encode, q[i + 1..])
  {}

  method PutListEntry(b0: Bytes, e: ListEntry) returns (b: Bytes)
    ensures b == b0 + EncodeListEntry(e)
  {
    b := PutSized(b0, e.name);
    b := PutHlc(b, e.touched);
    b := PutU64(b, e.valueSize);
    b := b + e.origin;
    b := b + [e.flags];
    var preview := e.preview[..if |e.preview| > MAX_PREVIEW_LEN then MAX_PREVIEW_LEN else |e.preview|];
    b := PutSized(b, preview);
    var originName := e.originHostName[..if |e.originHostName| > MAX_ORIGIN_NAME_LEN then MAX_ORIGIN_NAME_LEN
                                          else |e.originHostName|];
    b := PutSized(b, originName);
    assert preview == Clip(e.preview, MAX_PREVIEW_LEN) && originName == Clip(e.originHostName, MAX_ORIGIN_NAME_LEN);
    ListAppends(b0, Sized(e.name, 2), PackBytes(e.touched), BigEndian(e.valueSize, 8), e.origin, [e.flags],
                Sized(preview, 2), Sized(originName, 2));
  }

  lemma ListAppends(z: Bytes, a: Bytes, b: Bytes, c: Bytes, d: Bytes, e: Bytes, f: Bytes, g: Bytes)
    ensures z + a + b + c + d + e + f + g == z + (a + (b + (c + (d + (e + (f + g))))))
  {}

  method EncodeListBody(entries: seq<ListEntry>) returns (b: Bytes)
    ensures b == EncodeList(entries)
  {
    var count := if |entries| > MAX_DIGEST_ENTRIES then MAX_DIGEST_ENTRIES else |entries|;
    ghost var q := Cut(entries);
    b := PutU16([VERSION], count);
    CountedStart(EncodeListEntry, entries, b);
    for i := 0 to count
      invariant b + Concat(EncodeListEntry, q[i..]) == EncodeList(entries)
    {
      ConcatStep(EncodeListEntry, q, i, b);
      b := PutListEntry(b, entries[i]);
    }
    Sequences.AppendNone(b);
  }

  // ---- The cursor ----

  /** What a read promises: on success the parse's value and remainder, otherwise nothing moved. */
  ghost predicate Reads<T>(p: Parsed<T>, before: Bytes, ok: bool, out: T, after: Bytes) {
    if ok then p == Got(out, after) else p == Fail && after == before
  }

  class Reader {
    const data: Bytes
    var pos: nat

    ghost predicate Valid()
      reads this
    {
      pos <= |data|
    }

    ghost function Rest(): Bytes
      requires Valid()
      reads this
    {
      data[pos..]
    }

    constructor (data: Bytes)
      ensures Valid() && Rest() == data
    {
      this.data := data;
      pos := 0;
    }

    method Remaining() returns (n: nat)
      requires Valid()
      ensures n == |Rest()|
    {
      n := |data| - pos;
    }

    method U8() returns (ok: bool, out: byte)
      requires Valid()
      modifies this
      ensures Valid() && Reads(ParseByte(old(Rest())), old(Rest()), ok, out, Rest())
    {
      if |data| - pos < 1 {
        return false, 0;
      }
      out := data[pos];
      pos := pos + 1;
      ok := true;
    }

    method U16() returns (ok: bool, out: nat)
      requires Valid()
      modifies this
      ensures Valid() && Reads(ParseUint(old(Rest()), 2), old(Rest()), ok, out, Rest())
    {
      if |data| - pos < 2 {
        return false, 0;
      }
      ghost var b := Rest();
      FromBigEndianStep(b[..2], 0);
      FromBigEndianStep(b[..2], 1);
      assert b[..2][..2] == b[..2];
      var p0: nat, p1: nat := data[pos], data[pos + 1];
      out := p0 * 256 + p1;
      pos := pos + 2;
      ok := true;
    }

    method U32() returns (ok: bool, out: nat)
      requires Valid()
      modifies this
      ensures Valid() && Reads(ParseUint(old(Rest()), 4), old(Rest()), ok, out, Rest())
    {
      if |data| - pos < 4 {
        return false, 0;
      }
      ghost var b := Rest()[..4];
      FromBigEndianStep(b, 0);
      FromBigEndianStep(b, 1);
      FromBigEndianStep(b, 2);
      FromBigEndianStep(b, 3);
      assert b[..4] == b;
      var p0: nat, p1: nat, p2: nat, p3: nat := data[pos], data[pos + 1], data[pos + 2], data[pos + 3];
      out := p0 * 0x100_0000 + p1 * 0x1_0000 + p2 * 0x100 + p3;
      pos := pos + 4;
      ok := true;
    }

    method U64() returns (ok: bool, out: u64)
      requires Valid()
      modifies this
      ensures Valid() && Reads(ParseU64(old(Rest())), old(Rest()), ok, out, Rest())
    {
      if |data| - pos < 8 {
        return false, 0;
      }
      ghost var b := Rest()[..8];
      var value: nat := 0;
      for i := 0 to 8
        invariant pos == old(pos) && value == FromBigEndian(b[..i])
      {
        FromBigEndianStep(b, i);
        value := value * 256 + data[pos + i];
      }
      assert b[..8] == b;
      FromBigEndianRoundTrip(b);
      Pow256Values();
      out := value;
      pos := pos + 8;
      ok := true;
    }

    method ReadHlc() returns (ok: bool, out: Hlc)
      requires Valid()
      modifies this
      ensures Valid() && Reads(ParseHlc(old(Rest())), old(Rest()), ok, out, Rest())
    {
      if |data| - pos < 16 {
        return false, ZERO;
      }
      assert Rest()[..16] == data[pos..pos + 16];
      out := Unpack(data[pos..pos + 16]);
      pos := pos + 16;
      ok := true;
    }

    method ReadHostId() returns (ok: bool, out: HostId)
      requires Valid()
      modifies this
      ensures Valid() && Reads(ParseHostId(old(Rest())), old(Rest()), ok, out, Rest())
    {
      if |data| - pos < 16 {
        return false, seq(16, _ => 0);
      }
      assert Rest()[..16] == data[pos..pos + 16];
      out := data[pos..pos + 16];
      pos := pos + 16;
      ok := true;
    }

    method ReadString(n: nat) returns (ok: bool, out: Bytes)
      requires Valid()
      modifies this
      ensures Valid() && Reads(ParseBytes(old(Rest()), n), old(Rest()), ok, out, Rest())
    {
      if |data| - pos < n {
        return false, [];
      }
      assert Rest()[..n] == data[pos..pos + n];
      out := data[pos..pos + n];
      pos := pos + n;
      ok := true;
    }

    /** A 16-bit length of at most `cap`, then the string. A failed read may leave the cursor past the length. */
    method ReadSized16(cap: nat) returns (ok: bool, out: Bytes)
      requires Valid()
      modifies this
      ensures Valid() && ok == ParseSized(old(Rest()), 2, cap).Got?
      ensures ok ==> ParseSized(old(Rest()), 2, cap) == Got(out, Rest())
    {
      var n;
      ok, n := U16();
      if !ok || n > cap {
        return false, [];
      }
      ok, out := ReadString(n);
    }

    method ReadSized32(cap: nat) returns (ok: bool, out: Bytes)
      requires Valid()
      modifies this
      ensures Valid() && ok == ParseSized(old(Rest()), 4, cap).Got?
      ensures ok ==> ParseSized(old(Rest()), 4, cap) == Got(out, Rest())
    {
      var n;
      ok, n := U32();
      if !ok || n > cap {
        return false, [];
      }
      ok, out := ReadString(n);
    }
  }

  // ---- The decoders ----

  const NO_RECORD := Record([], [], ZERO, ZERO, seq(16, _ => 0), 0)

  method DecodeFields(r: Reader, flags: byte) returns (ok: bool, record: Record)
    requires r.Valid()
    modifies r
    ensures r.Valid() && ok == ParseRecordFields(old(r.Rest()), flags).Got?
    ensures ok ==> ParseRecordFields(old(r.Rest()), flags) == Got(record, r.Rest())
  {
    record := NO_RECORD;
    var written, touched, origin, name, value;
    ok, written := r.ReadHlc();
    if !ok { return; }
    ok, touched := r.ReadHlc();
    if !ok { return; }
    ok, origin := r.ReadHostId();
    if !ok { return; }
    ok, name := r.ReadSized16(MAX_NAME_LEN);
    if !ok { return; }
    ok, value := r.ReadSized32(MAX_VALUE_LEN);
    if !ok { return; }
    record := Record(name, value, written, touched, origin, flags);
  }

  /** A body is accepted exactly when it is the encoding of an in-cap record, whatever its reserved byte. */
  ghost predicate IsRecordBody(body: Bytes) {
    exists r, transport, reserved :: RecordInCap(r) && body == RecordBody(r, transport, reserved)
  }

  lemma RecordBodies(body: Bytes)
    ensures ParseRecord(body).Some? <==> IsRecordBody(body)
  {
    if ParseRecord(body).Some? {
      RecordExact(body);
      var (r, transport, reserved) := ParseRecord(body).value;
      assert RecordInCap(r) && body == RecordBody(r, transport, reserved);
    }
    if IsRecordBody(body) {
      var r, transport, reserved :| RecordInCap(r) && body == RecordBody(r, transport, reserved);
      RecordRoundTrip(r, transport, reserved);
    }
  }

  method TryDecodeRecord(body: Bytes) returns (ok: bool, record: Record, transportFlags: byte)
    ensures ok == ParseRecord(body).Some? == IsRecordBody(body)
    ensures ok ==> RecordInCap(record) && body == RecordBody(record, transportFlags, body[3])
    ensures ok ==> ParseRecord(body).value.0 == record && ParseRecord(body).value.1 == transportFlags
  {
    RecordBodies(body);
    record, transportFlags := NO_RECORD, 0;
    var r := new Reader(body);
    var version, flags, transport, reserved;
    ok, version := r.U8();
    if !ok || version != VERSION {
      return false, record, 0;
    }
    ok, flags := r.U8();
    if !ok { return; }
    ok, transport := r.U8();
    if !ok { return; }
    ok, reserved := r.U8();
    if !ok { return; }
    assert r.Rest() == body[4..];
    var fields;
    ok, fields := DecodeFields(r, flags);
    if !ok { return; }
    var remaining := r.Remaining();
    if remaining != 0 {
      return false, record, 0;
    }
    record, transportFlags := fields, transport;
    RecordExact(body);
  }

  /** Prepending what has already been decoded. */
  ghost predicate Continues<T>(parse: Bytes -> Parsed<T>, start: Bytes, n: nat, done: seq<T>, rest: Bytes)
    requires |done| <= n
  {
    match ParseMany(parse, rest, n - |done|)
    case Fail => ParseMany(parse, start, n) == Fail
    case Got(q, after) => ParseMany(parse, start, n) == Got(done + q, after)
  }

  lemma ContinuesStep<T>(parse: Bytes -> Parsed<T>, start: Bytes, n: nat, done: seq<T>, rest: Bytes)
    requires |done| < n && Continues(parse, start, n, done, rest)
    ensures parse(rest).Fail? ==> ParseMany(parse, start, n) == Fail
    ensures parse(rest).Got? ==> Continues(parse, start, n, done + [parse(rest).value], parse(rest).rest)
  {
    if parse(rest).Got? {
      var x, m := parse(rest).value, n - |done| - 1;
      var p := ParseMany(parse, parse(rest).rest, m);
      if p.Got? {
        assert done + ([x] + p.value) == done + [x] + p.value;
      }
    }
  }

  lemma ContinuesStart<T>(parse: Bytes -> Parsed<T>, start: Bytes, n: nat)
    ensures Continues(parse, start, n, [], start)
  {
    if ParseMany(parse, start, n).Got? {
      var q := ParseMany(parse, start, n).value;
      assert [] + q == q;
    }
  }

  method DecodeEntry(r: Reader) returns (ok: bool, e: DigestEntry)
    requires r.Valid()
    modifies r
    ensures r.Valid() && ok == ParseEntry(old(r.Rest())).Got?
    ensures ok ==> ParseEntry(old(r.Rest())) == Got(e, r.Rest())
  {
    e := DigestEntry([], ZERO, ZERO);
    var name, written, touched;
    ok, name := r.ReadSized16(MAX_NAME_LEN);
    if !ok { return; }
    ok, written := r.ReadHlc();
    if !ok { return; }
    ok, touched := r.ReadHlc();
    if !ok { return; }
    e := DigestEntry(name, written, touched);
  }

  method TryDecodeDigest(body: Bytes) returns (ok: bool, entries: seq<DigestEntry>)
    ensures ok == ParseDigest(body).Some? && (ok ==> ParseDigest(body) == Some(entries))
    ensures ok ==> body == EncodeDigest(entries)
  {
    entries := [];
    var r := new Reader(body);
    var version, count;
    ok, version := r.U8();
    if !ok || version != VERSION {
      return false, [];
    }
    ok, count := r.U16();
    if !ok || count > MAX_DIGEST_ENTRIES {
      return false, [];
    }
    ghost var start := r.Rest();
    ContinuesStart(ParseEntry, start, count);
    for i := 0 to count
      invariant r.Valid() && |entries| == i
      invariant Continues(ParseEntry, start, count, entries, r.Rest())
    {
      ContinuesStep(ParseEntry, start, count, entries, r.Rest());
      var e;
      ok, e := DecodeEntry(r);
      if !ok {
        return false, [];
      }
      entries := entries + [e];
    }
    assert entries + [] == entries;
    var remaining := r.Remaining();
    if remaining != 0 {
      return false, [];
    }
    ok := true;
    DigestExact(body);
  }

  method TryDecodeName(body: Bytes) returns (ok: bool, name: Bytes)
    ensures ok ==> |name| <= MAX_NAME_LEN && body == EncodeName(name)
    ensures !ok ==> forall n | |n| <= MAX_NAME_LEN :: body != EncodeName(n)
  {
    forall n {
      NameExact(body, n);
    }
    name := [];
    var r := new Reader(body);
    var version;
    ok, version := r.U8();
    if !ok || version != VERSION {
      return false, [];
    }
    ok, name := r.ReadSized16(MAX_NAME_LEN);
    if !ok {
      return;
    }
    var remaining := r.Remaining();
    if remaining != 0 {
      return false, [];
    }
  }

  const NO_ENTRY := ListEntry([], ZERO, 0, seq(16, _ => 0), 0, [], [])

  method DecodeListEntry(r: Reader) returns (ok: bool, e: ListEntry)
    requires r.Valid()
    modifies r
    ensures r.Valid() && ok == ParseListEntry(old(r.Rest())).Got?
    ensures ok ==> ParseListEntry(old(r.Rest())) == Got(e, r.Rest())
  {
    e := NO_ENTRY;
    var name, touched, valueSize, origin, flags, preview, originHostName;
    ok, name := r.ReadSized16(MAX_NAME_LEN);
    if !ok { return; }
    ok, touched := r.ReadHlc();
    if !ok { return; }
    ok, valueSize := r.U64();
    if !ok { return; }
    ok, origin := r.ReadHostId();
    if !ok { return; }
    ok, flags := r.U8();
    if !ok { return; }
    ok, preview := r.ReadSized16(MAX_PREVIEW_LEN);
    if !ok { return; }
    ok, originHostName := r.ReadSized16(MAX_ORIGIN_NAME_LEN);
    if !ok { return; }
    e := ListEntry(name, touched, valueSize, origin, flags, preview, originHostName);
  }

  method TryDecodeList(body: Bytes) returns (ok: bool, entries: seq<ListEntry>)
    ensures ok == ParseList(body).Some? && (ok ==> ParseList(body) == Some(entries))
    ensures ok ==> body == EncodeList(entries)
  {
    entries := [];
    var r := new Reader(body);
    var version, count;
    ok, version := r.U8();
    if !ok || version != VERSION {
      return false, [];
    }
    ok, count := r.U16();
    if !ok || count > MAX_DIGEST_ENTRIES {
      return false, [];
    }
    ghost var start := r.Rest();
    ContinuesStart(ParseListEntry, start, count);
    for i := 0 to count
      invariant r.Valid() && |entries| == i
      invariant Continues(ParseListEntry, start, count, entries, r.Rest())
    {
      ContinuesStep(ParseListEntry, start, count, entries, r.Rest());
      var e;
      ok, e := DecodeListEntry(r);
      if !ok {
        return false, [];
      }
      entries := entries + [e];
    }
    assert entries + [] == entries;
    var remaining := r.Remaining();
    if remaining != 0 {
      return false, [];
    }
    ok := true;
    ListExact(body);
  }
}
