/** Wire encoding of the register frames. */
module RegisterWire {
  import opened Machine
  import opened HybridClock
  import opened RegisterMerge
  import Sequences

  // Record (REGW), digest (RSYN), name (RGET) and list (RLST) bodies: what the encoders write, and
  // what the decoders accept. The cursor that decodes them is in module WireCursor.

  const VERSION: byte := 1
  const MAX_NAME_LEN := 64
  const MAX_VALUE_LEN := 0x400_0000
  const MAX_DIGEST_ENTRIES := 1024
  const MAX_PREVIEW_LEN := 256
  const MAX_ORIGIN_NAME_LEN := 128

  datatype ListEntry = ListEntry(name: Bytes, touched: Hlc, valueSize: u64, origin: HostId,
                                 flags: byte, preview: Bytes, originHostName: Bytes)

  // ---- Parsing a prefix of a byte string ----

  /** A value and the bytes after it. */
  datatype Parsed<+T> = Fail | Got(value: T, rest: Bytes) {
    predicate IsFailure() { Fail? }
    function PropagateFailure<U>(): Parsed<U> requires Fail? { Fail }
    function Extract(): (T, Bytes) requires Got? { (value, rest) }
  }

  function ParseUint(b: Bytes, k: nat): Parsed<nat> {
    if |b| < k then Fail else Got(FromBigEndian(b[..k]), b[k..])
  }

  function ParseBytes(b: Bytes, n: nat): Parsed<Bytes> {
    if |b| < n then Fail else Got(b[..n], b[n..])
  }

  function ParseHlc(b: Bytes): Parsed<Hlc> {
    if |b| < 16 then Fail else Got(UnpackBytes(b[..16]), b[16..])
  }

  function ParseByte(b: Bytes): Parsed<byte> {
    if b == [] then Fail else Got(b[0], b[1..])
  }

  function ParseU64(b: Bytes): Parsed<u64> {
    if |b| < 8 then Fail
    else
      FromBigEndianRoundTrip(b[..8]);
      Pow256Values();
      Got(FromBigEndian(b[..8]), b[8..])
  }

  function ParseHostId(b: Bytes): Parsed<HostId> {
    if |b| < 16 then Fail else var id: HostId := b[..16]; Got(id, b[16..])
  }

  /** A k-byte length of at most `cap`, then that many bytes. */
  function ParseSized(b: Bytes, k: nat, cap: nat): Parsed<Bytes> {
    var (n, b1) :- ParseUint(b, k);
    if n > cap then Fail else ParseBytes(b1, n)
  }

  function Sized(s: Bytes, k: nat): Bytes {
    BigEndian(|s|, k) + s
  }

  lemma UintRoundTrip(v: nat, k: nat, rest: Bytes)
    requires v < Pow256(k)
    ensures ParseUint(BigEndian(v, k) + rest, k) == Got(v, rest)
  {
    BigEndianRoundTrip(v, k);
    Sequences.Halves(BigEndian(v, k), rest);
  }

  lemma UintExact(b: Bytes, k: nat)
    requires ParseUint(b, k).Got?
    ensures ParseUint(b, k).value < Pow256(k)
    ensures b == BigEndian(ParseUint(b, k).value, k) + ParseUint(b, k).rest
  {
    FromBigEndianRoundTrip(b[..k]);
  }

  lemma HlcRoundTrip(h: Hlc, rest: Bytes)
    ensures ParseHlc(PackBytes(h) + rest) == Got(h, rest)
  {
    PackUnpack(h);
    Sequences.Halves(PackBytes(h), rest);
  }

  lemma HlcExact(b: Bytes)
    requires ParseHlc(b).Got?
    ensures b == PackBytes(ParseHlc(b).value) + ParseHlc(b).rest
  {
    UnpackPack(b[..16]);
  }

  lemma HostIdRoundTrip(id: HostId, rest: Bytes)
    ensures ParseHostId(id + rest) == Got(id, rest)
  {}

  lemma SizedRoundTrip(s: Bytes, k: nat, cap: nat, rest: Bytes)
    requires |s| <= cap < Pow256(k)
    ensures ParseSized(Sized(s, k) + rest, k, cap) == Got(s, rest)
  {
    assert Sized(s, k) + rest == BigEndian(|s|, k) + (s + rest);
    UintRoundTrip(|s|, k, s + rest);
    Sequences.Halves(s, rest);
  }

  lemma SizedExact(b: Bytes, k: nat, cap: nat)
    requires ParseSized(b, k, cap).Got?
    ensures |ParseSized(b, k, cap).value| <= cap
    ensures b == Sized(ParseSized(b, k, cap).value, k) + ParseSized(b, k, cap).rest
  {
    UintExact(b, k);
    var n := ParseUint(b, k);
    assert n.rest == n.rest[..n.value] + n.rest[n.value..];
  }

  // ---- Repetition ----

  function Concat<T>(encode: T -> Bytes, q: seq<T>): Bytes {
    if q == [] then [] else encode(q[0]) + Concat(encode, q[1..])
  }

  function ParseMany<T>(parse: Bytes -> Parsed<T>, b: Bytes, n: nat): Parsed<seq<T>>
    decreases n
  {
    if n == 0 then Got([], b)
    else
      var (x, b1) :- parse(b);
      var (q, b2) :- ParseMany(parse, b1, n - 1);
      Got([x] + q, b2)
  }

  /** `parse` undoes `encode` on the values `ok` admits, and accepts nothing else. */
  ghost predicate IsCodec<T(!new)>(encode: T -> Bytes, parse: Bytes -> Parsed<T>, ok: T -> bool) {
    && (forall x, rest | ok(x) :: parse(encode(x) + rest) == Got(x, rest))
    && (forall b | parse(b).Got? :: ok(parse(b).value) && b == encode(parse(b).value) + parse(b).rest)
  }

  lemma {:induction false} ManyRoundTrip<T(!new)>(encode: T -> Bytes, parse: Bytes -> Parsed<T>, ok: T -> bool,
                                                  q: seq<T>, rest: Bytes)
    requires IsCodec(encode, parse, ok) && forall x | x in q :: ok(x)
    ensures ParseMany(parse, Concat(encode, q) + rest, |q|) == Got(q, rest)
  {
    if q != [] {
      ManyRoundTrip(encode, parse, ok, q[1..], rest);
      assert Concat(encode, q) + rest == encode(q[0]) + (Concat(encode, q[1..]) + rest);
      assert q == [q[0]] + q[1..];
    }
  }

  lemma {:induction false} ManyExact<T(!new)>(encode: T -> Bytes, parse: Bytes -> Parsed<T>, ok: T -> bool, b: Bytes, n: nat)
    requires IsCodec(encode, parse, ok) && ParseMany(parse, b, n).Got?
    ensures var p := ParseMany(parse, b, n);
      |p.value| == n && (forall x | x in p.value :: ok(x)) && b == Concat(encode, p.value) + p.rest
    decreases n
  {
    if n > 0 {
      var first := parse(b);
      ManyExact(encode, parse, ok, first.rest, n - 1);
      var p := ParseMany(parse, b, n);
      assert p.value[1..] == ParseMany(parse, first.rest, n - 1).value;
      assert b == encode(first.value) + (Concat(encode, p.value[1..]) + p.rest);
    }
  }

  // ---- Records ----

  ghost predicate RecordInCap(r: Record) {
    |r.name| <= MAX_NAME_LEN && |r.value| <= MAX_VALUE_LEN
  }

  /** The body with its reserved byte; the encoder always writes 0 there. */
  function RecordBody(r: Record, transport: byte, reserved: byte): Bytes {
    [VERSION, r.flags, transport, reserved]
    + (PackBytes(r.written) + (PackBytes(r.touched) + (r.origin + (Sized(r.name, 2) + Sized(r.value, 4)))))
  }

  function EncodeRecord(r: Record, transport: byte): Bytes {
    RecordBody(r, transport, 0)
  }

  /** A record, its transport flags and the reserved byte. */
  function ParseRecord(b: Bytes): Option<(Record, byte, byte)> {
    if |b| < 4 || b[0] != VERSION then None
    else
      match ParseRecordFields(b[4..], b[1])
      case Fail => None
      case Got(r, rest) => if rest != [] then None else Some((r, b[2], b[3]))
  }

  function ParseRecordFields(b: Bytes, flags: byte): Parsed<Record> {
    var (written, b1) :- ParseHlc(b);
    var (touched, b2) :- ParseHlc(b1);
    var (origin, b3) :- ParseHostId(b2);
    var (name, b4) :- ParseSized(b3, 2, MAX_NAME_LEN);
    var (value, b5) :- ParseSized(b4, 4, MAX_VALUE_LEN);
    Got(Record(name, value, written, touched, origin, flags), b5)
  }

  lemma RecordRoundTrip(r: Record, transport: byte, reserved: byte)
    requires RecordInCap(r)
    ensures ParseRecord(RecordBody(r, transport, reserved)) == Some((r, transport, reserved))
  {
    Pow256Values();
    var b5 := Sized(r.value, 4);
    var b4 := Sized(r.name, 2) + b5;
    var b3 := r.origin + b4;
    var b2 := PackBytes(r.touched) + b3;
    var b1 := PackBytes(r.written) + b2;
    assert b5 == b5 + [];
    SizedRoundTrip(r.value, 4, MAX_VALUE_LEN, []);
    SizedRoundTrip(r.name, 2, MAX_NAME_LEN, b5);
    HostIdRoundTrip(r.origin, b4);
    HlcRoundTrip(r.touched, b3);
    HlcRoundTrip(r.written, b2);
    assert ParseRecordFields(b1, r.flags) == Got(r, []);
    assert RecordBody(r, transport, reserved)[4..] == b1;
  }

  lemma RecordFieldsExact(b: Bytes, flags: byte)
    requires ParseRecordFields(b, flags).Got?
    ensures var r, rest := ParseRecordFields(b, flags).value, ParseRecordFields(b, flags).rest;
      && RecordInCap(r) && r.flags == flags
      && b == PackBytes(r.written) + (PackBytes(r.touched) + (r.origin + (Sized(r.name, 2) + (Sized(r.value, 4) + rest))))
  {
    HlcExact(b);
    var b1 := ParseHlc(b).rest;
    HlcExact(b1);
    var b2 := ParseHlc(b1).rest;
    var b3 := ParseHostId(b2).rest;
    assert b2 == ParseHostId(b2).value + b3;
    SizedExact(b3, 2, MAX_NAME_LEN);
    SizedExact(ParseSized(b3, 2, MAX_NAME_LEN).rest, 4, MAX_VALUE_LEN);
  }

  lemma RecordExact(b: Bytes)
    requires ParseRecord(b).Some?
    ensures var (r, transport, reserved) := ParseRecord(b).value;
      RecordInCap(r) && b == RecordBody(r, transport, reserved)
  {
    var (r, _, _) := ParseRecord(b).value;
    RecordFieldsExact(b[4..], b[1]);
    Sequences.AppendNone(Sized(r.value, 4));
    SplitHeader(b);
  }

  lemma SplitHeader(b: Bytes)
    requires |b| >= 4
    ensures b == [b[0], b[1], b[2], b[3]] + b[4..]
  {}

  /** Encoding is one-to-one on in-cap records. */
  lemma RecordInjective(r: Record, s: Record, t: byte, u: byte)
    requires RecordInCap(r) && RecordInCap(s) && EncodeRecord(r, t) == EncodeRecord(s, u)
    ensures r == s && t == u
  {
    RecordRoundTrip(r, t, 0);
    RecordRoundTrip(s, u, 0);
  }

  /** Why a reader drops a record whose value is over the cap: the length is refused. */
  lemma OverCapRefused(s: Bytes, k: nat, cap: nat, rest: Bytes)
    requires cap < |s| < Pow256(k)
    ensures ParseSized(Sized(s, k) + rest, k, cap) == Fail
  {
    assert Sized(s, k) + rest == BigEndian(|s|, k) + (s + rest);
    UintRoundTrip(|s|, k, s + rest);
  }

  /** The encoder never fails; a record of an admissible name is read back iff its value is within the cap. */
  lemma ReadBackIffInCap(r: Record, transport: byte)
    requires |r.name| <= MAX_NAME_LEN && |r.value| <= 0xFFFF_FFFF
    ensures ParseRecord(EncodeRecord(r, transport)) == if RecordInCap(r) then Some((r, transport, 0)) else None
  {
    if RecordInCap(r) {
      RecordRoundTrip(r, transport, 0);
    } else {
      Pow256Values();
      var b5 := Sized(r.value, 4);
      var b4 := Sized(r.name, 2) + b5;
      var b3 := r.origin + b4;
      var b2 := PackBytes(r.touched) + b3;
      var b1 := PackBytes(r.written) + b2;
      Sequences.AppendNone(b5);
      OverCapRefused(r.value, 4, MAX_VALUE_LEN, []);
      SizedRoundTrip(r.name, 2, MAX_NAME_LEN, b5);
      HostIdRoundTrip(r.origin, b4);
      HlcRoundTrip(r.touched, b3);
      HlcRoundTrip(r.written, b2);
      assert ParseRecordFields(b1, r.flags) == Fail;
      assert EncodeRecord(r, transport)[4..] == b1;
    }
  }

  function EncodeAll(q: seq<Record>): (frames: seq<Bytes>)
    ensures |frames| == |q|
  {
    if q == [] then [] else EncodeAll(q[..|q| - 1]) + [EncodeRecord(q[|q| - 1], 0)]
  }

  lemma {:induction false} EncodeAllAt(q: seq<Record>, i: nat)
    requires i < |q|
    ensures EncodeAll(q)[i] == EncodeRecord(q[i], 0)
  {
    if i < |q| - 1 {
      EncodeAllAt(q[..|q| - 1], i);
    }
  }

  // ---- Digests ----

  ghost predicate EntryInCap(e: DigestEntry) {
    |e.name| <= MAX_NAME_LEN
  }

  function EncodeEntry(e: DigestEntry): Bytes {
    Sized(e.name, 2) + (PackBytes(e.written) + PackBytes(e.touched))
  }

  function ParseEntry(b: Bytes): Parsed<DigestEntry> {
    var (name, b1) :- ParseSized(b, 2, MAX_NAME_LEN);
    var (written, b2) :- ParseHlc(b1);
    var (touched, b3) :- ParseHlc(b2);
    Got(DigestEntry(name, written, touched), b3)
  }

  lemma EntryCodec()
    ensures IsCodec(EncodeEntry, ParseEntry, e => EntryInCap(e))
  {
    Pow256Values();
    forall e: DigestEntry, rest | EntryInCap(e) ensures ParseEntry(EncodeEntry(e) + rest) == Got(e, rest) {
      var b2 := PackBytes(e.touched) + rest;
      var b1 := PackBytes(e.written) + b2;
      assert EncodeEntry(e) + rest == Sized(e.name, 2) + b1;
      SizedRoundTrip(e.name, 2, MAX_NAME_LEN, b1);
      HlcRoundTrip(e.written, b2);
      HlcRoundTrip(e.touched, rest);
    }
    forall b | ParseEntry(b).Got?
      ensures EntryInCap(ParseEntry(b).value) && b == EncodeEntry(ParseEntry(b).value) + ParseEntry(b).rest
    {
      SizedExact(b, 2, MAX_NAME_LEN);
      var b1 := ParseSized(b, 2, MAX_NAME_LEN).rest;
      HlcExact(b1);
      HlcExact(ParseHlc(b1).rest);
    }
  }

  /** The first `kMaxDigestEntries` of a list. */
  function Cut<T>(q: seq<T>): (r: seq<T>)
    ensures r <= q && |r| <= MAX_DIGEST_ENTRIES && (|q| <= MAX_DIGEST_ENTRIES ==> r == q)
  {
    if |q| > MAX_DIGEST_ENTRIES then q[..MAX_DIGEST_ENTRIES] else q
  }

  function Counted<T>(encode: T -> Bytes, q: seq<T>): Bytes {
    [VERSION] + (BigEndian(|Cut(q)|, 2) + Concat(encode, Cut(q)))
  }

  function ParseCounted<T>(parse: Bytes -> Parsed<T>, b: Bytes): Option<seq<T>> {
    if b == [] || b[0] != VERSION then None
    else
      match ParseUint(b[1..], 2)
      case Fail => None
      case Got(n, b1) =>
        if n > MAX_DIGEST_ENTRIES then None
        else
          match ParseMany(parse, b1, n)
          case Fail => None
          case Got(q, rest) => if rest == [] then Some(q) else None
  }

  /** A counted body decodes to the entries it was cut to. */
  lemma CountedReads<T(!new)>(encode: T -> Bytes, parse: Bytes -> Parsed<T>, ok: T -> bool, q: seq<T>)
    requires IsCodec(encode, parse, ok) && forall x | x in Cut(q) :: ok(x)
    ensures ParseCounted(parse, Counted(encode, q)) == Some(Cut(q))
  {
    Pow256Values();
    var count, body := |Cut(q)|, Concat(encode, Cut(q));
    var b := Counted(encode, q);
    assert b[0] == VERSION && b[1..] == BigEndian(count, 2) + body;
    UintRoundTrip(count, 2, body);
    assert body == body + [];
    ManyRoundTrip(encode, parse, ok, Cut(q), []);
  }

  /** A body is accepted only if it is the counted encoding of what it decodes to. */
  lemma CountedOnly<T(!new)>(encode: T -> Bytes, parse: Bytes -> Parsed<T>, ok: T -> bool, b: Bytes)
    requires IsCodec(encode, parse, ok) && ParseCounted(parse, b).Some?
    ensures var q := ParseCounted(parse, b).value; b == Counted(encode, q) && Cut(q) == q && forall x | x in q :: ok(x)
  {
    Pow256Values();
    UintExact(b[1..], 2);
    var p := ParseUint(b[1..], 2);
    ManyExact(encode, parse, ok, p.rest, p.value);
    var q := ParseCounted(parse, b).value;
    assert p.rest == Concat(encode, q) + [] == Concat(encode, q);
    assert b == [b[0]] + b[1..];
  }

  function EncodeDigest(entries: seq<DigestEntry>): Bytes {
    Counted(EncodeEntry, entries)
  }

  function ParseDigest(b: Bytes): Option<seq<DigestEntry>> {
    ParseCounted(ParseEntry, b)
  }

  /** A digest of in-cap names arrives as its first 1024 entries. */
  lemma DigestRoundTrip(entries: seq<DigestEntry>)
    requires forall e | e in Cut(entries) :: EntryInCap(e)
    ensures ParseDigest(EncodeDigest(entries)) == Some(Cut(entries))
  {
    EntryCodec();
    CountedReads(EncodeEntry, ParseEntry, e => EntryInCap(e), entries);
  }

  lemma DigestExact(b: Bytes)
    requires ParseDigest(b).Some?
    ensures var q := ParseDigest(b).value;
      b == EncodeDigest(q) && |q| <= MAX_DIGEST_ENTRIES && forall e | e in q :: EntryInCap(e)
  {
    EntryCodec();
    CountedOnly(EncodeEntry, ParseEntry, e => EntryInCap(e), b);
  }

  // ---- Names ----

  function EncodeName(name: Bytes): Bytes {
    [VERSION] + Sized(name, 2)
  }

  function ParseName(b: Bytes): Option<Bytes> {
    if b == [] || b[0] != VERSION then None
    else
      match ParseSized(b[1..], 2, MAX_NAME_LEN)
      case Fail => None
      case Got(name, rest) => if rest == [] then Some(name) else None
  }

  lemma NameExact(b: Bytes, name: Bytes)
    ensures ParseName(b) == Some(name) <==> |name| <= MAX_NAME_LEN && b == EncodeName(name)
  {
    Pow256Values();
    if |name| <= MAX_NAME_LEN && b == EncodeName(name) {
      assert b[1..] == Sized(name, 2) + [];
      SizedRoundTrip(name, 2, MAX_NAME_LEN, []);
    }
    if ParseName(b) == Some(name) {
      SizedExact(b[1..], 2, MAX_NAME_LEN);
      assert b[1..] == Sized(name, 2) + [] == Sized(name, 2);
      assert b == [b[0]] + b[1..];
    }
  }

  // ---- Lists ----

  ghost predicate ListEntryInCap(e: ListEntry) {
    |e.name| <= MAX_NAME_LEN && |e.preview| <= MAX_PREVIEW_LEN && |e.originHostName| <= MAX_ORIGIN_NAME_LEN
  }

  function Clip(s: Bytes, cap: nat): (r: Bytes)
    ensures r <= s && |r| <= cap && (|s| <= cap ==> r == s)
  {
    if |s| > cap then s[..cap] else s
  }

  /** What the encoder keeps of an entry. */
  function Clipped(e: ListEntry): ListEntry {
    e.(preview := Clip(e.preview, MAX_PREVIEW_LEN), originHostName := Clip(e.originHostName, MAX_ORIGIN_NAME_LEN))
  }

  function EncodeListEntry(e: ListEntry): Bytes {
    var c := Clipped(e);
    Sized(c.name, 2) + (PackBytes(c.touched) + (BigEndian(c.valueSize, 8) + (c.origin + ([c.flags]
    + (Sized(c.preview, 2) + Sized(c.originHostName, 2))))))
  }

  function ParseListEntry(b: Bytes): Parsed<ListEntry> {
    var (head, b1) :- ParseListHead(b);
    var (tail, b2) :- ParseListTail(b1);
    Got(ListEntry(head.0, head.1, head.2, tail.0, tail.1, tail.2, tail.3), b2)
  }

  function ParseListHead(b: Bytes): Parsed<(Bytes, Hlc, u64)> {
    var (name, b1) :- ParseSized(b, 2, MAX_NAME_LEN);
    var (touched, b2) :- ParseHlc(b1);
    var (valueSize, b3) :- ParseU64(b2);
    Got((name, touched, valueSize), b3)
  }

  function ParseListTail(b: Bytes): Parsed<(HostId, byte, Bytes, Bytes)> {
    var (origin, b1) :- ParseHostId(b);
    var (flags, b2) :- ParseByte(b1);
    var (preview, b3) :- ParseSized(b2, 2, MAX_PREVIEW_LEN);
    var (originHostName, b4) :- ParseSized(b3, 2, MAX_ORIGIN_NAME_LEN);
    Got((origin, flags, preview, originHostName), b4)
  }

  lemma U64RoundTrip(v: u64, rest: Bytes)
    ensures ParseU64(BigEndian(v, 8) + rest) == Got(v, rest)
  {
    Pow256Values();
    UintRoundTrip(v, 8, rest);
  }

  lemma ListEntryRoundTrip(e: ListEntry, rest: Bytes)
    requires ListEntryInCap(e)
    ensures ParseListEntry(EncodeListEntry(e) + rest) == Got(e, rest)
  {
    Pow256Values();
    var t3 := Sized(e.originHostName, 2) + rest;
    var t2 := Sized(e.preview, 2) + t3;
    var t1 := [e.flags] + t2;
    var tail := e.origin + t1;
    var b3 := BigEndian(e.valueSize, 8) + tail;
    var b2 := PackBytes(e.touched) + b3;
    Reassociate(Sized(e.name, 2), PackBytes(e.touched), BigEndian(e.valueSize, 8), e.origin, [e.flags],
                Sized(e.preview, 2), Sized(e.originHostName, 2), rest);
    SizedRoundTrip(e.name, 2, MAX_NAME_LEN, b2);
    HlcRoundTrip(e.touched, b3);
    U64RoundTrip(e.valueSize, tail);
    HostIdRoundTrip(e.origin, t1);
    Sequences.Halves([e.flags], t2);
    SizedRoundTrip(e.preview, 2, MAX_PREVIEW_LEN, t3);
    SizedRoundTrip(e.originHostName, 2, MAX_ORIGIN_NAME_LEN, rest);
  }

  lemma ListHeadExact(b: Bytes)
    requires ParseListHead(b).Got?
    ensures var p := ParseListHead(b);
      |p.value.0| <= MAX_NAME_LEN
      && b == Sized(p.value.0, 2) + (PackBytes(p.value.1) + (BigEndian(p.value.2, 8) + p.rest))
  {
    SizedExact(b, 2, MAX_NAME_LEN);
    var b1 := ParseSized(b, 2, MAX_NAME_LEN).rest;
    HlcExact(b1);
    UintExact(ParseHlc(b1).rest, 8);
  }

  lemma ListTailExact(b: Bytes)
    requires ParseListTail(b).Got?
    ensures var p := ParseListTail(b);
      |p.value.2| <= MAX_PREVIEW_LEN && |p.value.3| <= MAX_ORIGIN_NAME_LEN
      && b == p.value.0 + ([p.value.1] + (Sized(p.value.2, 2) + (Sized(p.value.3, 2) + p.rest)))
  {
    var b1 := ParseHostId(b).rest;
    assert b == ParseHostId(b).value + b1;
    var b2 := ParseByte(b1).rest;
    assert b1 == [b1[0]] + b2;
    SizedExact(b2, 2, MAX_PREVIEW_LEN);
    SizedExact(ParseSized(b2, 2, MAX_PREVIEW_LEN).rest, 2, MAX_ORIGIN_NAME_LEN);
  }

  lemma ListEntryExact(b: Bytes)
    requires ParseListEntry(b).Got?
    ensures ListEntryInCap(ParseListEntry(b).value)
    ensures b == EncodeListEntry(ParseListEntry(b).value) + ParseListEntry(b).rest
  {
    var e, rest := ParseListEntry(b).value, ParseListEntry(b).rest;
    ListHeadExact(b);
    ListTailExact(ParseListHead(b).rest);
    Reassociate(Sized(e.name, 2), PackBytes(e.touched), BigEndian(e.valueSize, 8), e.origin, [e.flags],
                Sized(e.preview, 2), Sized(e.originHostName, 2), rest);
  }

  lemma Reassociate(a: Bytes, b: Bytes, c: Bytes, d: Bytes, e: Bytes, f: Bytes, g: Bytes, rest: Bytes)
    ensures a + (b + (c + (d + (e + (f + g))))) + rest == a + (b + (c + (d + (e + (f + (g + rest))))))
  {}

  lemma ListEntryCodec()
    ensures IsCodec(EncodeListEntry, ParseListEntry, e => ListEntryInCap(e))
  {
    forall e, rest | ListEntryInCap(e) ensures ParseListEntry(EncodeListEntry(e) + rest) == Got(e, rest) {
      ListEntryRoundTrip(e, rest);
    }
    forall b | ParseListEntry(b).Got?
      ensures ListEntryInCap(ParseListEntry(b).value)
      ensures b == EncodeListEntry(ParseListEntry(b).value) + ParseListEntry(b).rest
    {
      ListEntryExact(b);
    }
  }

  function EncodeList(entries: seq<ListEntry>): Bytes {
    Counted(EncodeListEntry, entries)
  }

  function ParseList(b: Bytes): Option<seq<ListEntry>> {
    ParseCounted(ParseListEntry, b)
  }

  function ClippedAll(q: seq<ListEntry>): (r: seq<ListEntry>)
    ensures |r| == |q| && forall i | 0 <= i < |q| :: r[i] == Clipped(q[i])
  {
    seq(|q|, i requires 0 <= i < |q| => Clipped(q[i]))
  }

  lemma {:induction false} ConcatClipped(q: seq<ListEntry>)
    ensures Concat(EncodeListEntry, ClippedAll(q)) == Concat(EncodeListEntry, q)
  {
    if q != [] {
      ConcatClipped(q[1..]);
      assert ClippedAll(q)[1..] == ClippedAll(q[1..]);
      assert EncodeListEntry(Clipped(q[0])) == EncodeListEntry(q[0]);
    }
  }

  /** A list arrives as its first 1024 entries, previews and device names cut to their caps. */
  lemma ListRoundTrip(entries: seq<ListEntry>)
    requires forall e | e in Cut(entries) :: |e.name| <= MAX_NAME_LEN
    ensures ParseList(EncodeList(entries)) == Some(ClippedAll(Cut(entries)))
  {
    var q := ClippedAll(Cut(entries));
    ConcatClipped(Cut(entries));
    assert EncodeList(entries) == EncodeList(q);
    forall x | x in Cut(q) ensures ListEntryInCap(x) {
      var i :| 0 <= i < |q| && q[i] == x;
      assert Cut(entries)[i] in Cut(entries);
    }
    ListEntryCodec();
    CountedReads(EncodeListEntry, ParseListEntry, e => ListEntryInCap(e), q);
  }

  lemma ListExact(b: Bytes)
    requires ParseList(b).Some?
    ensures var q := ParseList(b).value;
      b == EncodeList(q) && |q| <= MAX_DIGEST_ENTRIES && forall e | e in q :: ListEntryInCap(e)
  {
    ListEntryCodec();
    CountedOnly(EncodeListEntry, ParseListEntry, e => ListEntryInCap(e), b);
  }
}
