/**
 The hybrid logical clock (src/Hlc.h, src/Hlc.cpp): a wall-clock reading paired with a
 logical counter, ordered lexicographically. The counter is a 64-bit field, so it wraps: a minted
 stamp is above everything before it exactly when it does not. The 16-byte encoding keeps the
 order, so that stamps compare alike on every platform.
 */
module HybridClock {
  import opened Machine
  import ByteOrder

  datatype Hlc = Hlc(wallMs: u64, counter: u64)

  const ZERO := Hlc(0, 0)

  predicate Less(a: Hlc, b: Hlc) {
    a.wallMs < b.wallMs || (a.wallMs == b.wallMs && a.counter < b.counter)
  }

  predicate AtMost(a: Hlc, b: Hlc) {
    !Less(b, a)
  }

  function Later(a: Hlc, b: Hlc): (r: Hlc)
    ensures AtMost(a, r) && AtMost(b, r) && (r == a || r == b)
  {
    if Less(a, b) then b else a
  }

  /** The stamp minted after high-water mark `last` when the wall clock reads `now`. */
  function Tick(last: Hlc, now: u64): Hlc {
    if now > last.wallMs then Hlc(now, 0)
    else Hlc(last.wallMs, (last.counter + 1) % 0x1_0000_0000_0000_0000)
  }

  /** The one case the counter cannot serve: a stalled wall clock with the counter at its maximum. */
  predicate CanTick(last: Hlc, now: u64) {
    now > last.wallMs || last.counter < U64_MAX
  }

  /** A minted stamp is above everything generated or witnessed exactly when the counter does not wrap. */
  lemma TickAdvances(last: Hlc, now: u64)
    ensures Less(last, Tick(last, now)) <==> CanTick(last, now)
    ensures CanTick(last, now) <==> forall seen | AtMost(seen, last) :: Less(seen, Tick(last, now))
    ensures Tick(last, now).wallMs == MaxInt(last.wallMs, now)
  {}

  /** And it is the least such stamp whose wall-clock part is not behind the reading. */
  lemma TickIsLeast(last: Hlc, now: u64, other: Hlc)
    requires CanTick(last, now) && Less(last, other) && other.wallMs >= now
    ensures AtMost(Tick(last, now), other)
  {}

  class HlcClock {
    var last: Hlc

    constructor ()
      ensures last == ZERO
    {
      last := ZERO;
    }

    method Now(now: u64) returns (ts: Hlc)
      modifies this
      ensures ts == last == Tick(old(last), now)
      ensures CanTick(old(last), now) ==> Less(old(last), ts)
    {
      if now > last.wallMs {
        last := Hlc(now, 0);
      } else {
        last := Hlc(last.wallMs, (last.counter + 1) % 0x1_0000_0000_0000_0000);
      }
      ts := last;
    }

    method Witness(seen: Hlc)
      modifies this
      ensures last == Later(old(last), seen)
    {
      last := Later(last, seen);
    }

    method SeedFloor(floor: Hlc)
      modifies this
      ensures last == Later(old(last), floor)
    {
      last := Later(last, floor);
    }
  }

  // ---- The 16-byte encoding ----

  function PackBytes(h: Hlc): (b: Bytes)
    ensures |b| == 16
  {
    BigEndian(h.wallMs, 8) + BigEndian(h.counter, 8)
  }

  function UnpackBytes(b: Bytes): (h: Hlc)
    requires |b| == 16
  {
    FromBigEndianRoundTrip(b[..8]);
    FromBigEndianRoundTrip(b[8..]);
    Pow256Values();
    Hlc(FromBigEndian(b[..8]), FromBigEndian(b[8..]))
  }

  lemma PackUnpack(h: Hlc)
    ensures UnpackBytes(PackBytes(h)) == h
  {
    Pow256Values();
    BigEndianRoundTrip(h.wallMs, 8);
    BigEndianRoundTrip(h.counter, 8);
    assert PackBytes(h)[..8] == BigEndian(h.wallMs, 8);
    assert PackBytes(h)[8..] == BigEndian(h.counter, 8);
  }

  lemma UnpackPack(b: Bytes)
    requires |b| == 16
    ensures PackBytes(UnpackBytes(b)) == b
  {
    FromBigEndianRoundTrip(b[..8]);
    FromBigEndianRoundTrip(b[8..]);
    assert b == b[..8] + b[8..];
  }

  /** Packed stamps compare, byte by byte, exactly as the stamps do. */
  lemma PackPreservesOrder(a: Hlc, b: Hlc)
    ensures ByteOrder.Less(PackBytes(a), PackBytes(b)) <==> Less(a, b)
  {
    Pow256Values();
    ByteOrder.BigEndianOrder(a.wallMs, b.wallMs, 8);
    ByteOrder.BigEndianOrder(a.counter, b.counter, 8);
    ByteOrder.LessConcat(BigEndian(a.wallMs, 8), BigEndian(b.wallMs, 8),
                         BigEndian(a.counter, 8), BigEndian(b.counter, 8));
    BigEndianRoundTrip(a.wallMs, 8);
    BigEndianRoundTrip(b.wallMs, 8);
  }

  method Pack(h: Hlc) returns (out: array<byte>)
    ensures fresh(out) && out[..] == PackBytes(h)
  {
    out := new byte[16](_ => 0);
    for i := 0 to 8
      invariant forall j | 0 <= j < i :: out[j] == BigEndian(h.wallMs, 8)[j]
      invariant forall j | 0 <= j < i :: out[8 + j] == BigEndian(h.counter, 8)[j]
    {
      BigEndianAt(h.wallMs, 8, i);
      BigEndianAt(h.counter, 8, i);
      out[i] := ShiftRightBytes(h.wallMs, 7 - i) % 256;
      out[8 + i] := ShiftRightBytes(h.counter, 7 - i) % 256;
    }
    assert forall j | 8 <= j < 16 :: out[j] == out[8 + (j - 8)];
  }

  method Unpack(bytes: Bytes) returns (h: Hlc)
    requires |bytes| == 16
    ensures h == UnpackBytes(bytes)
  {
    var wall: nat, counter: nat := 0, 0;
    for i := 0 to 8
      invariant wall == FromBigEndian(bytes[..i])
      invariant counter == FromBigEndian(bytes[8..][..i])
    {
      FromBigEndianStep(bytes, i);
      FromBigEndianStep(bytes[8..], i);
      wall := wall * 256 + bytes[i];
      counter := counter * 256 + bytes[8 + i];
    }
    assert bytes[8..][..8] == bytes[8..];
    FromBigEndianRoundTrip(bytes[..8]);
    FromBigEndianRoundTrip(bytes[8..]);
    Pow256Values();
    h := Hlc(wall, counter);
  }
}
