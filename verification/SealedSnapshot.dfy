/**
 The sealed-records container of src/SealedSnapshot.cpp: a count and length-prefixed records,
 encrypted under a header that doubles as the associated data. The cipher is a parameter.
 */
module SealedSnapshot {
  import opened Machine
  import Sequences
  import W = RegisterWire
  import WireCursor

  const HEADER_SIZE := 5
  const NONCE_SIZE := 24
  const TAG_SIZE := 16
  const MAX_RECORDS := 65535

  type Magic = b: Bytes | |b| == 4 witness [0, 0, 0, 0]
  type Nonce = b: Bytes | |b| == NONCE_SIZE witness seq(NONCE_SIZE, _ => 0)
  type SealKey = b: Bytes | |b| == 32 witness seq(32, _ => 0)

  /** Authenticated encryption with associated data: plaintext or ciphertext, associated data, nonce, key. */
  datatype Aead = Aead(encrypt: (Bytes, Bytes, Nonce, SealKey) -> Bytes,
                       decrypt: (Bytes, Bytes, Nonce, SealKey) -> Option<Bytes>)

  /** Decryption undoes encryption and accepts nothing else. */
  ghost predicate Ideal(a: Aead) {
    && (forall p, ad, n, k :: |a.encrypt(p, ad, n, k)| == |p| + TAG_SIZE)
    && (forall p, ad, n, k :: a.decrypt(a.encrypt(p, ad, n, k), ad, n, k) == Some(p))
    && (forall c, ad, n, k | a.decrypt(c, ad, n, k).Some? :: a.encrypt(a.decrypt(c, ad, n, k).value, ad, n, k) == c)
  }

  // ---- The plaintext frame ----

  const MAX_LENGTH := 0xFFFF_FFFF

  function EncodeItem(s: Bytes): Bytes {
    W.Sized(s, 4)
  }

  function ParseItem(b: Bytes): W.Parsed<Bytes> {
    W.ParseSized(b, 4, MAX_LENGTH)
  }

  predicate Fits(s: Bytes) {
    |s| <= MAX_LENGTH
  }

  lemma ItemCodec()
    ensures W.IsCodec(EncodeItem, ParseItem, Fits)
  {
    Pow256Values();
    forall x, rest | Fits(x) ensures ParseItem(EncodeItem(x) + rest) == W.Got(x, rest) {
      W.SizedRoundTrip(x, 4, MAX_LENGTH, rest);
    }
    forall b | ParseItem(b).Got?
      ensures Fits(ParseItem(b).value) && b == EncodeItem(ParseItem(b).value) + ParseItem(b).rest
    {
      W.SizedExact(b, 4, MAX_LENGTH);
    }
  }

  /** Empty records are the convention for "failed to encode" and are left out. */
  function NonEmpty(q: seq<Bytes>): (r: seq<Bytes>)
    ensures |r| <= |q| && forall s | s in r :: s in q && s != []
  {
    if q == [] then []
    else NonEmpty(q[..|q| - 1]) + if q[|q| - 1] == [] then [] else [q[|q| - 1]]
  }

  /** The 32-bit counter after counting `n` records. */
  function Count32(n: nat): u32 {
    n % 0x1_0000_0000
  }

  lemma CountOn(n: nat)
    ensures Count32(Count32(n) + 1) == Count32(n + 1)
    ensures n <= MAX_RECORDS ==> Count32(n) == n
  {
    var wraps := n / 0x1_0000_0000;
    assert n == 0x1_0000_0000 * wraps + Count32(n);
    assert n + 1 == 0x1_0000_0000 * wraps + (Count32(n) + 1);
  }

  /** The count, then each record behind its length. */
  function FrameOf(q: seq<Bytes>): Bytes {
    BigEndian(Count32(|q|), 4) + W.Concat(EncodeItem, q)
  }

  function ParseFrame(plain: Bytes): Option<seq<Bytes>> {
    match W.ParseUint(plain, 4)
    case Fail => None
    case Got(count, rest) => ParseItems(rest, count)
  }

  function ParseItems(rest: Bytes, count: nat): Option<seq<Bytes>> {
    if count > MAX_RECORDS then None
    else
      match W.ParseMany(ParseItem, rest, count)
      case Fail => None
      case Got(q, after) => if after == [] then Some(q) else None
  }

  lemma {:induction false} ConcatSplit(q: seq<Bytes>, k: nat)
    requires k <= |q|
    ensures W.Concat(EncodeItem, q) == W.Concat(EncodeItem, q[..k]) + W.Concat(EncodeItem, q[k..])
  {
    if k == 0 {
      assert q[0..] == q;
    } else {
      ConcatSplit(q[1..], k - 1);
      assert q[..k][1..] == q[1..][..k - 1] && q[1..][k - 1..] == q[k..];
      Sequences.Regroup3(EncodeItem(q[0]), W.Concat(EncodeItem, q[1..][..k - 1]), W.Concat(EncodeItem, q[k..]));
    }
  }

  lemma ReadBack(q: seq<Bytes>, count: nat)
    requires count <= |q| && forall s | s in q :: Fits(s)
    ensures W.ParseMany(ParseItem, W.Concat(EncodeItem, q), count)
         == W.Got(q[..count], W.Concat(EncodeItem, q[count..]))
  {
    ItemCodec();
    ConcatSplit(q, count);
    W.ManyRoundTrip(EncodeItem, ParseItem, Fits, q[..count], W.Concat(EncodeItem, q[count..]));
  }

  /** A count short of the records leaves bytes behind, and is refused. */
  lemma ReadsAll(q: seq<Bytes>, count: nat)
    requires count <= |q| && forall s | s in q :: Fits(s)
    ensures ParseItems(W.Concat(EncodeItem, q), count) == if count == |q| <= MAX_RECORDS then Some(q) else None
  {
    ReadBack(q, count);
    if count == |q| {
      assert q[..count] == q && q[count..] == [];
    } else {
      assert q[count..] != [];
    }
  }

  lemma FrameStart(q: seq<Bytes>)
    ensures W.ParseUint(FrameOf(q), 4) == W.Got(Count32(|q|), W.Concat(EncodeItem, q))
  {
    Pow256Values();
    W.UintRoundTrip(Count32(|q|), 4, W.Concat(EncodeItem, q));
  }

  /** A frame is read back exactly when its count is one the reader admits; beyond that it is refused. */
  lemma FrameRoundTrip(q: seq<Bytes>)
    requires forall s | s in q :: Fits(s)
    ensures ParseFrame(FrameOf(q)) == if |q| <= MAX_RECORDS then Some(q) else None
  {
    FrameStart(q);
    CountOn(|q|);
    ReadsAll(q, Count32(|q|));
  }

  lemma CountedItems(rest: Bytes, count: nat)
    requires W.ParseMany(ParseItem, rest, count).Got? && W.ParseMany(ParseItem, rest, count).rest == []
    ensures var q := W.ParseMany(ParseItem, rest, count).value;
      |q| == count && rest == W.Concat(EncodeItem, q) && forall s | s in q :: Fits(s)
  {
    ItemCodec();
    W.ManyExact(EncodeItem, ParseItem, Fits, rest, count);
    Sequences.AppendNone(W.Concat(EncodeItem, W.ParseMany(ParseItem, rest, count).value));
  }

  /** Only such a frame is accepted: nothing may follow the last record. */
  lemma FrameExact(plain: Bytes)
    requires ParseFrame(plain).Some?
    ensures var q := ParseFrame(plain).value;
      plain == FrameOf(q) && |q| <= MAX_RECORDS && forall s | s in q :: Fits(s)
  {
    var count := W.ParseUint(plain, 4);
    W.UintExact(plain, 4);
    CountedItems(count.rest, count.value);
    CountOn(count.value);
  }

  // ---- The blob ----

  function Header(magic: Magic, version: byte): Bytes {
    magic + [version]
  }

  function SealedBlob(a: Aead, magic: Magic, version: byte, records: seq<Bytes>, nonce: Nonce, key: SealKey): Bytes {
    Header(magic, version) + nonce + a.encrypt(FrameOf(NonEmpty(records)), Header(magic, version), nonce, key)
  }

  function Opened(a: Aead, magic: Magic, version: byte, blob: Bytes, key: SealKey): Option<seq<Bytes>> {
    if |blob| < HEADER_SIZE + NONCE_SIZE + TAG_SIZE || blob[..HEADER_SIZE] != Header(magic, version) then None
    else
      var nonce: Nonce := blob[HEADER_SIZE..HEADER_SIZE + NONCE_SIZE];
      match a.decrypt(blob[HEADER_SIZE + NONCE_SIZE..], Header(magic, version), nonce, key)
      case None => None
      case Some(plain) => ParseFrame(plain)
  }

  lemma SplitBlob(h: Bytes, n: Bytes, c: Bytes)
    requires |h| == HEADER_SIZE && |n| == NONCE_SIZE
    ensures (h + n + c)[..HEADER_SIZE] == h
    ensures (h + n + c)[HEADER_SIZE..HEADER_SIZE + NONCE_SIZE] == n
    ensures (h + n + c)[HEADER_SIZE + NONCE_SIZE..] == c
  {}

  /** Opening a sealed blob returns the non-empty records, if and only if there are at most 65535 of them. */
  lemma OpenUndoesSeal(a: Aead, magic: Magic, version: byte, records: seq<Bytes>, nonce: Nonce, key: SealKey)
    requires Ideal(a) && forall s | s in records :: Fits(s)
    ensures Opened(a, magic, version, SealedBlob(a, magic, version, records, nonce, key), key)
         == if |NonEmpty(records)| <= MAX_RECORDS then Some(NonEmpty(records)) else None
  {
    var plain := FrameOf(NonEmpty(records));
    SplitBlob(Header(magic, version), nonce, a.encrypt(plain, Header(magic, version), nonce, key));
    FrameRoundTrip(NonEmpty(records));
  }

  /** Whatever opens is header, nonce and the encryption of the frame of what it opens to. */
  lemma OnlySealedBlobsOpen(a: Aead, magic: Magic, version: byte, blob: Bytes, key: SealKey)
    requires Ideal(a) && Opened(a, magic, version, blob, key).Some?
    ensures var q := Opened(a, magic, version, blob, key).value;
      exists nonce: Nonce :: blob == Header(magic, version) + nonce + a.encrypt(FrameOf(q), Header(magic, version), nonce, key)
  {
    var nonce: Nonce := blob[HEADER_SIZE..HEADER_SIZE + NONCE_SIZE];
    var cipher := blob[HEADER_SIZE + NONCE_SIZE..];
    var plain := a.decrypt(cipher, Header(magic, version), nonce, key).value;
    FrameExact(plain);
    assert blob == blob[..HEADER_SIZE] + nonce + cipher;
    assert blob == Header(magic, version) + nonce
                 + a.encrypt(FrameOf(Opened(a, magic, version, blob, key).value), Header(magic, version), nonce, key);
  }

  /** A blob of one kind or version never opens as another. */
  lemma KindsAreSeparate(a: Aead, m1: Magic, v1: byte, m2: Magic, v2: byte, blob: Bytes, k1: SealKey, k2: SealKey)
    requires Opened(a, m1, v1, blob, k1).Some? && Opened(a, m2, v2, blob, k2).Some?
    ensures m1 == m2 && v1 == v2
  {
    assert Header(m1, v1)[..4] == m1 && Header(m2, v2)[..4] == m2;
    assert Header(m1, v1)[4] == v1 && Header(m2, v2)[4] == v2;
  }

  // ---- The loops ----

  lemma NonEmptyStep(q: seq<Bytes>, i: nat)
    requires i < |q|
    ensures q[i] == [] ==> NonEmpty(q[..i + 1]) == NonEmpty(q[..i])
    ensures q[i] != [] ==> NonEmpty(q[..i + 1]) == NonEmpty(q[..i]) + [q[i]]
  {
    assert q[..i + 1][..i] == q[..i];
  }

  lemma ConcatAppend(q: seq<Bytes>, s: Bytes)
    ensures W.Concat(EncodeItem, q + [s]) == W.Concat(EncodeItem, q) + EncodeItem(s)
  {
    ConcatSplit(q + [s], |q|);
    assert (q + [s])[..|q|] == q && (q + [s])[|q|..] == [s];
    assert W.Concat(EncodeItem, [s]) == EncodeItem(s) + [];
  }

  lemma FrameGrows(start: Bytes, q: seq<Bytes>, s: Bytes)
    ensures start + W.Concat(EncodeItem, q) + BigEndian(|s|, 4) + s == start + W.Concat(EncodeItem, q + [s])
  {
    ConcatAppend(q, s);
    var c := W.Concat(EncodeItem, q);
    assert start + c + BigEndian(|s|, 4) + s == start + (c + (BigEndian(|s|, 4) + s));
  }

  /** The buffer after the loop: room for the count, then the records kept. */
  method AppendRecords(records: seq<Bytes>) returns (plain: Bytes, sealedCount: u32)
    ensures sealedCount == Count32(|NonEmpty(records)|)
    ensures plain == BigEndian(0, 4) + W.Concat(EncodeItem, NonEmpty(records))
  {
    plain := WireCursor.PutU32([], 0);
    ghost var start := BigEndian(0, 4);
    Sequences.AppendNone(start);
    assert plain == start;
    sealedCount := 0;
    for i := 0 to |records|
      invariant sealedCount == Count32(|NonEmpty(records[..i])|)
      invariant plain == start + W.Concat(EncodeItem, NonEmpty(records[..i]))
    {
      NonEmptyStep(records, i);
      var record := records[i];
      if record == [] {
        continue;
      }
      FrameGrows(start, NonEmpty(records[..i]), record);
      plain := WireCursor.PutU32(plain, |record|);
      plain := plain + record;
      CountOn(|NonEmpty(records[..i])|);
      sealedCount := Count32(sealedCount + 1);
    }
    assert records[..|records|] == records;
  }

  lemma Patched(start: Bytes, body: Bytes, b0: byte, b1: byte, b2: byte, b3: byte)
    requires |start| == 4
    ensures (start + body)[0 := b0][1 := b1][2 := b2][3 := b3] == [b0, b1, b2, b3] + body
  {}

  /** The count is patched over the first four bytes once the empty records are known. */
  method Frame(records: seq<Bytes>) returns (plain: Bytes)
    ensures plain == FrameOf(NonEmpty(records))
  {
    var buffer, sealedCount := AppendRecords(records);
    WireCursor.BigEndianBytes(sealedCount, 4);
    var b0 := ShiftRightBytes(sealedCount, 3) % 256;
    var b1 := ShiftRightBytes(sealedCount, 2) % 256;
    var b2 := ShiftRightBytes(sealedCount, 1) % 256;
    var b3 := sealedCount % 256;
    Patched(BigEndian(0, 4), W.Concat(EncodeItem, NonEmpty(records)), b0, b1, b2, b3);
    plain := buffer[0 := b0];
    plain := plain[1 := b1];
    plain := plain[2 := b2];
    plain := plain[3 := b3];
  }

  /** `nonce` is what the random generator returned. */
  method Seal(a: Aead, magic: Magic, version: byte, records: seq<Bytes>, key: SealKey, nonce: Nonce) returns (blob: Bytes)
    ensures blob == SealedBlob(a, magic, version, records, nonce, key)
  {
    var plain := Frame(records);
    blob := magic;
    blob := blob + [version];
    var header := blob;
    blob := blob + nonce;
    blob := blob + a.encrypt(plain, header, nonce, key);
  }

  method ReadU32(plain: Bytes, offset: nat) returns (ok: bool, v: nat, next: nat)
    requires offset <= |plain|
    ensures next <= |plain| && ok == W.ParseUint(plain[offset..], 4).Got?
    ensures ok ==> W.ParseUint(plain[offset..], 4) == W.Got(v, plain[next..])
  {
    if |plain| - offset < 4 {
      return false, 0, offset;
    }
    ghost var b := plain[offset..][..4];
    FromBigEndianStep(b, 0);
    FromBigEndianStep(b, 1);
    FromBigEndianStep(b, 2);
    FromBigEndianStep(b, 3);
    assert b[..4] == b;
    var p0: nat, p1: nat, p2: nat, p3: nat := plain[offset], plain[offset + 1], plain[offset + 2], plain[offset + 3];
    v := p0 * 0x100_0000 + p1 * 0x1_0000 + p2 * 0x100 + p3;
    ok, next := true, offset + 4;
    assert plain[offset..][4..] == plain[next..];
  }

  method ReadItem(plain: Bytes, offset: nat) returns (ok: bool, item: Bytes, next: nat)
    requires offset <= |plain|
    ensures next <= |plain| && ok == ParseItem(plain[offset..]).Got?
    ensures ok ==> ParseItem(plain[offset..]) == W.Got(item, plain[next..])
  {
    var len;
    item := [];
    ok, len, next := ReadU32(plain, offset);
    if !ok {
      return;
    }
    Pow256Values();
    W.UintExact(plain[offset..], 4);
    if |plain| - next < len {
      return false, [], next;
    }
    item := plain[next..next + len];
    assert plain[next..][..len] == item && plain[next..][len..] == plain[next + len..];
    next := next + len;
  }

  method Unframe(plain: Bytes) returns (records: Option<seq<Bytes>>)
    ensures records == ParseFrame(plain)
  {
    var ok, count, offset := ReadU32(plain, 0);
    assert plain[0..] == plain;
    if !ok || count > MAX_RECORDS {
      return None;
    }
    ghost var start := plain[offset..];
    var q: seq<Bytes> := [];
    WireCursor.ContinuesStart(ParseItem, start, count);
    for i := 0 to count
      invariant |q| == i && 0 <= offset <= |plain|
      invariant WireCursor.Continues(ParseItem, start, count, q, plain[offset..])
    {
      WireCursor.ContinuesStep(ParseItem, start, count, q, plain[offset..]);
      var read, item, next := ReadItem(plain, offset);
      if !read {
        return None;
      }
      offset := next;
      q := q + [item];
    }
    assert q + [] == q;
    if offset != |plain| {
      return None;
    }
    return Some(q);
  }

  method TryOpen(a: Aead, magic: Magic, version: byte, blob: Bytes, key: SealKey) returns (records: Option<seq<Bytes>>)
    ensures records == Opened(a, magic, version, blob, key)
  {
    if |blob| < HEADER_SIZE + NONCE_SIZE + TAG_SIZE {
      return None;
    }
    assert blob[..HEADER_SIZE] == blob[..4] + [blob[4]];
    assert blob[..HEADER_SIZE] == Header(magic, version) <==> blob[..4] == magic && blob[4] == version by {
      assert Header(magic, version)[..4] == magic && Header(magic, version)[4] == version;
    }
    if blob[..4] != magic || blob[4] != version {
      return None;
    }
    var nonce: Nonce := blob[HEADER_SIZE..HEADER_SIZE + NONCE_SIZE];
    var plain := a.decrypt(blob[HEADER_SIZE + NONCE_SIZE..], blob[..HEADER_SIZE], nonce, key);
    if plain.None? {
      return None;
    }
    records := Unframe(plain.value);
  }
}
