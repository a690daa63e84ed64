/** The register frames and snapshot files, byte by byte. */
module WireLayout {
  import opened Machine
  import opened HybridClock
  import opened RegisterMerge
  import opened RegisterWire
  import Seal = SealedSnapshot
  import RegisterPersistence

  // The codecs are proved to undo one another elsewhere; here is where every field stands, so that
  // builds of other versions and platforms read the same bytes.

  /** The big-endian integer of `k` bytes at `at`. */
  function UintAt(b: Bytes, at: nat, k: nat): nat
    requires at + k <= |b|
  {
    FromBigEndian(b[at..at + k])
  }

  predicate HasAt(b: Bytes, at: nat, piece: Bytes) {
    at + |piece| <= |b| && b[at..at + |piece|] == piece
  }

  predicate HlcAt(b: Bytes, at: nat, h: Hlc)
  {
    at + 16 <= |b| && UintAt(b, at, 8) == h.wallMs && UintAt(b, at + 8, 8) == h.counter
  }

  // ---- Pieces ----

  lemma First(p: Bytes, rest: Bytes)
    ensures HasAt(p + rest, 0, p)
  {}

  lemma Behind(p: Bytes, rest: Bytes, at: nat, piece: Bytes)
    requires HasAt(rest, at, piece)
    ensures HasAt(p + rest, |p| + at, piece)
  {
    assert (p + rest)[|p| + at..|p| + at + |piece|] == rest[at..at + |piece|];
  }

  lemma Within(b: Bytes, at: nat, whole: Bytes, k: nat, piece: Bytes)
    requires HasAt(b, at, whole) && HasAt(whole, k, piece)
    ensures HasAt(b, at + k, piece)
  {
    var found := b[at + k..at + k + |piece|];
    forall i | 0 <= i < |piece| ensures found[i] == piece[i] {
      assert b[at..at + |whole|][k + i] == whole[k..k + |piece|][i];
    }
  }

  lemma UintThere(b: Bytes, at: nat, v: nat, k: nat)
    requires v < Pow256(k) && HasAt(b, at, BigEndian(v, k))
    ensures at + k <= |b| && UintAt(b, at, k) == v
  {
    BigEndianRoundTrip(v, k);
  }

  lemma HlcThere(b: Bytes, at: nat, h: Hlc)
    requires HasAt(b, at, PackBytes(h))
    ensures HlcAt(b, at, h)
  {
    Pow256Values();
    var wall, counter := BigEndian(h.wallMs, 8), BigEndian(h.counter, 8);
    First(wall, counter);
    assert counter + [] == counter;
    First(counter, []);
    Behind(wall, counter, 0, counter);
    Within(b, at, PackBytes(h), 0, wall);
    Within(b, at, PackBytes(h), 8, counter);
    UintThere(b, at, h.wallMs, 8);
    UintThere(b, at + 8, h.counter, 8);
  }

  /** A string behind its length. */
  predicate SizedAt(b: Bytes, at: nat, k: nat, s: Bytes) {
    at + k + |s| <= |b| && UintAt(b, at, k) == |s| && b[at + k..at + k + |s|] == s
  }

  lemma SizedThere(b: Bytes, at: nat, k: nat, s: Bytes)
    requires |s| < Pow256(k) && HasAt(b, at, Sized(s, k))
    ensures SizedAt(b, at, k, s)
  {
    var length := BigEndian(|s|, k);
    First(length, s);
    assert s + [] == s;
    First(s, []);
    Behind(length, s, 0, s);
    Within(b, at, Sized(s, k), 0, length);
    Within(b, at, Sized(s, k), k, s);
    UintThere(b, at, |s|, k);
  }

  // ---- Records ----

  lemma RecordPieces(r: Record, transport: byte)
    ensures var b := EncodeRecord(r, transport); var n := |r.name|;
      && |b| == 58 + n + |r.value|
      && HasAt(b, 0, [1, r.flags, transport, 0]) && HasAt(b, 4, PackBytes(r.written)) && HasAt(b, 20, PackBytes(r.touched))
      && HasAt(b, 36, r.origin) && HasAt(b, 52, Sized(r.name, 2)) && HasAt(b, 54 + n, Sized(r.value, 4))
  {
    var value := Sized(r.value, 4);
    var name := Sized(r.name, 2) + value;
    var origin := r.origin + name;
    var touched := PackBytes(r.touched) + origin;
    var written := PackBytes(r.written) + touched;
    var head := [VERSION, r.flags, transport, 0 as byte];
    assert EncodeRecord(r, transport) == head + written;
    assert value + [] == value;
    First(value, []);
    RecordPiece(head, r.written, r.touched, r.origin, Sized(r.name, 2), value);
  }

  lemma RecordPiece(head: Bytes, written: Hlc, touched: Hlc, origin: HostId, name: Bytes, value: Bytes)
    requires |head| == 4
    ensures var b := head + (PackBytes(written) + (PackBytes(touched) + (origin + (name + value))));
      && HasAt(b, 0, head) && HasAt(b, 4, PackBytes(written)) && HasAt(b, 20, PackBytes(touched))
      && HasAt(b, 36, origin) && HasAt(b, 52, name) && HasAt(b, 52 + |name|, value)
  {
    var b := head + (PackBytes(written) + (PackBytes(touched) + (origin + (name + value))));
    assert b[4..20] == PackBytes(written);
    assert b[20..36] == PackBytes(touched);
    assert b[36..52] == origin;
    assert b[52..52 + |name|] == name;
    assert b[52 + |name|..] == value;
    assert b[52 + |name|..52 + |name| + |value|] == value;
  }

  /** A record body: version, flags, transport, zero, the two stamps, the host, the name and the value. */
  lemma RecordLayout(r: Record, transport: byte)
    requires |r.name| < 0x1_0000 && |r.value| < 0x1_0000_0000
    ensures var b := EncodeRecord(r, transport);
      && |b| == 58 + |r.name| + |r.value|
      && b[0] == 1 && b[1] == r.flags && b[2] == transport && b[3] == 0
      && HlcAt(b, 4, r.written) && HlcAt(b, 20, r.touched) && b[36..52] == r.origin
      && SizedAt(b, 52, 2, r.name) && SizedAt(b, 54 + |r.name|, 4, r.value)
  {
    Pow256Values();
    var b := EncodeRecord(r, transport);
    RecordPieces(r, transport);
    HlcThere(b, 4, r.written);
    HlcThere(b, 20, r.touched);
    SizedThere(b, 52, 2, r.name);
    SizedThere(b, 54 + |r.name|, 4, r.value);
  }

  // ---- Digests, names and listings ----

  /** A digest entry: the name, then when it was written and touched. */
  lemma EntryLayout(e: DigestEntry)
    requires |e.name| < 0x1_0000
    ensures var b := EncodeEntry(e);
      && |b| == 34 + |e.name| && SizedAt(b, 0, 2, e.name)
      && HlcAt(b, 2 + |e.name|, e.written) && HlcAt(b, 18 + |e.name|, e.touched)
  {
    Pow256Values();
    var b, name, n := EncodeEntry(e), Sized(e.name, 2), |e.name|;
    assert b[..2 + n] == name && b[2 + n..18 + n] == PackBytes(e.written) && b[18 + n..34 + n] == PackBytes(e.touched);
    SizedThere(b, 0, 2, e.name);
    HlcThere(b, 2 + n, e.written);
    HlcThere(b, 18 + n, e.touched);
  }

  /** A digest body: version, count, then the entries one after another. */
  lemma DigestLayout(entries: seq<DigestEntry>)
    ensures var b := EncodeDigest(entries); var n := if |entries| > 1024 then 1024 else |entries|;
      |b| >= 3 && b[0] == 1 && UintAt(b, 1, 2) == n && b[3..] == Concat(EncodeEntry, entries[..n])
  {
    CountedLayout(EncodeEntry, entries);
  }

  lemma CountedLayout<T>(encode: T -> Bytes, q: seq<T>)
    ensures var b := Counted(encode, q);
      |b| >= 3 && b[0] == 1 && UintAt(b, 1, 2) == |Cut(q)| && b[3..] == Concat(encode, Cut(q))
    ensures Cut(q) == q[..if |q| > 1024 then 1024 else |q|]
  {
    Pow256Values();
    var count, body := BigEndian(|Cut(q)|, 2), Concat(encode, Cut(q));
    var b := Counted(encode, q);
    assert b[1..3] == count && b[3..] == body;
    BigEndianRoundTrip(|Cut(q)|, 2);
  }

  /** A name body: version and name. */
  lemma NameLayout(name: Bytes)
    requires |name| < 0x1_0000
    ensures var b := EncodeName(name); |b| == 3 + |name| && b[0] == 1 && SizedAt(b, 1, 2, name)
  {
    Pow256Values();
    var b := EncodeName(name);
    assert b[1..3 + |name|] == Sized(name, 2);
    SizedThere(b, 1, 2, name);
  }

  lemma ListEntryPieces(name: Bytes, touched: Bytes, size: Bytes, origin: Bytes, flags: Bytes, preview: Bytes, host: Bytes)
    ensures var b := name + (touched + (size + (origin + (flags + (preview + host)))));
      var t := |name|; var s := t + |touched|; var o := s + |size|; var f := o + |origin|; var p := f + |flags|; var h := p + |preview|;
      && HasAt(b, 0, name) && HasAt(b, t, touched) && HasAt(b, s, size) && HasAt(b, o, origin)
      && HasAt(b, f, flags) && HasAt(b, p, preview) && HasAt(b, h, host) && |b| == h + |host|
  {
    var b := name + (touched + (size + (origin + (flags + (preview + host)))));
    var t := |name|;
    var s := t + |touched|;
    var o := s + |size|;
    var f := o + |origin|;
    var p := f + |flags|;
    var h := p + |preview|;
    assert b[t..s] == touched;
    assert b[s..o] == size;
    assert b[o..f] == origin;
    assert b[f..p] == flags;
    assert b[p..h] == preview;
    assert b[h..h + |host|] == host;
  }

  /** A listing entry begins with the name, the touch and the size. */
  lemma ListEntryStart(e: ListEntry)
    requires |e.name| < 0x1_0000
    ensures var b, n := EncodeListEntry(e), |e.name|;
      && SizedAt(b, 0, 2, e.name) && HlcAt(b, 2 + n, e.touched) && |b| >= 26 + n && UintAt(b, 18 + n, 8) == e.valueSize
  {
    Pow256Values();
    var b, n := EncodeListEntry(e), |e.name|;
    ListEntryHas(e, Clip(e.preview, 256), Clip(e.originHostName, 128));
    SizedThere(b, 0, 2, e.name);
    HlcThere(b, 2 + n, e.touched);
    UintThere(b, 18 + n, e.valueSize, 8);
  }

  /** It goes on with the host, the flags, the preview and the device name, the last two clipped. */
  lemma ListEntryEnd(e: ListEntry)
    requires |e.name| < 0x1_0000
    ensures var b, n := EncodeListEntry(e), |e.name|;
      var preview, host := Clip(e.preview, 256), Clip(e.originHostName, 128);
      && |b| == 47 + n + |preview| + |host|
      && b[26 + n..42 + n] == e.origin && b[42 + n] == e.flags
      && SizedAt(b, 43 + n, 2, preview) && SizedAt(b, 45 + n + |preview|, 2, host)
  {
    Pow256Values();
    var b, n := EncodeListEntry(e), |e.name|;
    var preview, host := Clip(e.preview, 256), Clip(e.originHostName, 128);
    ListEntryHas(e, preview, host);
    ByteThere(b, 42 + n, e.flags);
    SizedThere(b, 43 + n, 2, preview);
    SizedThere(b, 45 + n + |preview|, 2, host);
  }

  lemma ByteThere(b: Bytes, at: nat, v: byte)
    requires HasAt(b, at, [v])
    ensures at < |b| && b[at] == v
  {
    assert b[at..at + 1][0] == v;
  }

  lemma ListEntryHas(e: ListEntry, preview: Bytes, host: Bytes)
    requires preview == Clip(e.preview, 256) && host == Clip(e.originHostName, 128)
    ensures var b, n := EncodeListEntry(e), |e.name|;
      && |b| == 47 + n + |preview| + |host|
      && HasAt(b, 0, Sized(e.name, 2)) && HasAt(b, 2 + n, PackBytes(e.touched)) && HasAt(b, 18 + n, BigEndian(e.valueSize, 8))
      && HasAt(b, 26 + n, e.origin) && HasAt(b, 42 + n, [e.flags])
      && HasAt(b, 43 + n, Sized(preview, 2)) && HasAt(b, 45 + n + |preview|, Sized(host, 2))
  {
    ListEntryPieces(Sized(e.name, 2), PackBytes(e.touched), BigEndian(e.valueSize, 8), e.origin, [e.flags],
                    Sized(preview, 2), Sized(host, 2));
  }

  // ---- Files ----

  /** A snapshot file: "CLPR", version, nonce, and the cipher's output for the frame. */
  lemma FileLayout(a: Seal.Aead, q: seq<Record>, nonce: Seal.Nonce, key: Seal.SealKey)
    ensures var b := RegisterPersistence.SealedRecords(a, q, nonce, key); var header := [67, 76, 80, 82, 1];
      && |b| >= 29 && b[..5] == header && b[5..29] == nonce
      && b[29..] == a.encrypt(Seal.FrameOf(Seal.NonEmpty(EncodeAll(q))), header, nonce, key)
  {
    var header := Seal.Header(RegisterPersistence.MAGIC, RegisterPersistence.VERSION);
    assert header == [67, 76, 80, 82, 1];
    Seal.SplitBlob(header, nonce, a.encrypt(Seal.FrameOf(Seal.NonEmpty(EncodeAll(q))), header, nonce, key));
  }

  /** Its frame: the count modulo 2^32, then each record behind its length. */
  lemma FrameLayout(q: seq<Bytes>)
    ensures var b := Seal.FrameOf(q);
      |b| >= 4 && UintAt(b, 0, 4) == |q| % 0x1_0000_0000 && b[4..] == Concat(Seal.EncodeItem, q)
  {
    Pow256Values();
    var b := Seal.FrameOf(q);
    assert b[..4] == BigEndian(Seal.Count32(|q|), 4);
    BigEndianRoundTrip(Seal.Count32(|q|), 4);
  }

  lemma ItemLayout(s: Bytes)
    requires |s| < 0x1_0000_0000
    ensures |Seal.EncodeItem(s)| == 4 + |s| && SizedAt(Seal.EncodeItem(s), 0, 4, s)
  {
    Pow256Values();
    var b := Seal.EncodeItem(s);
    assert b[0..4 + |s|] == b;
    SizedThere(b, 0, 4, s);
  }
}
