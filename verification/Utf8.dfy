/**
 The UTF-8 decoder and encoder and the key-derivation folding pass of
 `clipp_platform_detail` (src/platform.h). Well-formedness is that of sections 3 and 4
 of RFC 3629.
 */
module Utf8 {
  import opened Machine

  /** What decoding at the front of a non-empty string finds: a scalar value and its length, or nothing valid. */
  datatype Decoded = Malformed | Scalar(codePoint: nat, length: nat)

  /** A Unicode scalar value: any code point but the surrogates. */
  predicate IsScalar(codePoint: nat) {
    codePoint <= 0x10FFFF && !(0xD800 <= codePoint <= 0xDFFF)
  }

  predicate IsContinuation(b: byte) {
    b / 64 == 2
  }

  /** The lead byte's payload bits, its number of continuation bytes and the least value it may encode. */
  datatype Lead = Lead(bits: nat, count: nat, minimum: nat)

  function LeadOf(b: byte): Option<Lead> {
    if b / 32 == 6 then Some(Lead(b % 32, 1, 0x80))
    else if b / 16 == 14 then Some(Lead(b % 16, 2, 0x800))
    else if b / 8 == 30 then Some(Lead(b % 8, 3, 0x10000))
    else None
  }

  /** `value = (value << 6) | (next & 0x3F)` over the continuation bytes. */
  function Accumulate(bits: nat, continuation: Bytes): nat {
    if continuation == [] then bits
    else 64 * Accumulate(bits, continuation[..|continuation| - 1]) + continuation[|continuation| - 1] % 64
  }

  predicate InRange(lead: Lead, value: nat) {
    lead.minimum <= value && IsScalar(value)
  }

  function Decode(t: Bytes): (d: Decoded)
    requires t != []
    ensures d.Scalar? ==> 1 <= d.length <= |t|
  {
    if t[0] < 0x80 then Scalar(t[0], 1)
    else
      var lead := LeadOf(t[0]);
      if lead.None? || 1 + lead.value.count > |t| then Malformed
      else
        var continuation := t[1..1 + lead.value.count];
        if exists b | b in continuation :: !IsContinuation(b) then Malformed
        else
          var value := Accumulate(lead.value.bits, continuation);
          if InRange(lead.value, value) then Scalar(value, 1 + lead.value.count) else Malformed
  }

  function Encode(codePoint: nat): (b: Bytes)
    requires codePoint <= 0x10FFFF
    ensures 1 <= |b| <= 4
  {
    if codePoint <= 0x7F then [codePoint]
    else if codePoint <= 0x7FF then [0xC0 + codePoint / 64, 0x80 + codePoint % 64]
    else if codePoint <= 0xFFFF then
      [0xE0 + codePoint / 4096, 0x80 + codePoint / 64 % 64, 0x80 + codePoint % 64]
    else
      [0xF0 + codePoint / 262144, 0x80 + codePoint / 4096 % 64, 0x80 + codePoint / 64 % 64, 0x80 + codePoint % 64]
  }

  /** The decoder accepts a prefix exactly when it is what the encoder emits for a scalar value. */
  lemma DecodeExact(t: Bytes, codePoint: nat, length: nat)
    requires t != []
    ensures Decode(t) == Scalar(codePoint, length)
       <==> IsScalar(codePoint) && length == |Encode(codePoint)| <= |t| && t[..length] == Encode(codePoint)
  {
    if Decode(t) == Scalar(codePoint, length) {
      DecodedIsEncoded(t);
    }
    if IsScalar(codePoint) && length == |Encode(codePoint)| <= |t| && t[..length] == Encode(codePoint) {
      EncodedDecodes(codePoint, t[length..]);
      assert t == Encode(codePoint) + t[length..];
    }
  }

  lemma AccumulateValues(bits: nat, a: byte, b: byte, c: byte)
    ensures Accumulate(bits, [a]) == 64 * bits + a % 64
    ensures Accumulate(bits, [a, b]) == 4096 * bits + 64 * (a % 64) + b % 64
    ensures Accumulate(bits, [a, b, c]) == 262144 * bits + 4096 * (a % 64) + 64 * (b % 64) + c % 64
  {
    assert [a][..0] == [] && [a, b][..1] == [a] && [a, b, c][..2] == [a, b];
  }

  lemma Digits(w: nat, x: nat, y: nat, z: nat)
    requires x < 64 && y < 64 && z < 64
    ensures (64 * y + z) / 64 == y && (64 * y + z) % 64 == z
    ensures (4096 * x + 64 * y + z) / 4096 == x && (4096 * x + 64 * y + z) / 64 == 64 * x + y
    ensures (262144 * w + 4096 * x + 64 * y + z) / 262144 == w
    ensures (262144 * w + 4096 * x + 64 * y + z) / 4096 == 64 * w + x
    ensures (262144 * w + 4096 * x + 64 * y + z) / 64 == 4096 * w + 64 * x + y
    ensures (64 * w + x) % 64 == x && (64 * x + y) % 64 == y && (4096 * w + 64 * x + y) % 64 == y
    ensures (4096 * x + 64 * y + z) % 64 == z && (262144 * w + 4096 * x + 64 * y + z) % 64 == z
  {}

  lemma LeadByte(b: byte)
    requires LeadOf(b).Some?
    ensures var l := LeadOf(b).value;
      && (l.count == 1 ==> b == 0xC0 + l.bits && l.bits < 32 && l.minimum == 0x80)
      && (l.count == 2 ==> b == 0xE0 + l.bits && l.bits < 16 && l.minimum == 0x800)
      && (l.count == 3 ==> b == 0xF0 + l.bits && l.bits < 8 && l.minimum == 0x10000)
      && 1 <= l.count <= 3
  {}

  lemma ContinuationByte(b: byte)
    requires IsContinuation(b)
    ensures b == 0x80 + b % 64
  {}

  lemma Encode3(x: nat, y: nat, z: nat)
    requires x < 16 && y < 64 && z < 64 && 0x800 <= 4096 * x + 64 * y + z
    ensures Encode(4096 * x + 64 * y + z) == [0xE0 + x, 0x80 + y, 0x80 + z]
  {}

  lemma Encode4(w: nat, x: nat, y: nat, z: nat)
    requires w < 8 && x < 64 && y < 64 && z < 64
    requires 0x10000 <= 262144 * w + 4096 * x + 64 * y + z <= 0x10FFFF
    ensures Encode(262144 * w + 4096 * x + 64 * y + z) == [0xF0 + w, 0x80 + x, 0x80 + y, 0x80 + z]
  {
    Digits(w, x, y, z);
  }

  /** The encoding of a multi-byte scalar value, from its lead bits and continuation digits. */
  lemma EncodeDigits(b: byte, lead: Lead, c: Bytes)
    requires LeadOf(b) == Some(lead) && |c| == lead.count
    requires forall i | 0 <= i < |c| :: IsContinuation(c[i])
    requires InRange(lead, Accumulate(lead.bits, c))
    ensures Encode(Accumulate(lead.bits, c)) == [b] + c
  {
    LeadByte(b);
    match lead.count {
      case 1 => assert c == [c[0]]; EncodeDigits1(b, lead, c[0]);
      case 2 => assert c == [c[0], c[1]]; EncodeDigits2(b, lead, c[0], c[1]);
      case _ => assert c == [c[0], c[1], c[2]]; EncodeDigits3(b, lead, c[0], c[1], c[2]);
    }
  }

  lemma EncodeDigits1(b: byte, lead: Lead, c: byte)
    requires LeadOf(b) == Some(lead) && lead.count == 1
    requires IsContinuation(c) && InRange(lead, Accumulate(lead.bits, [c]))
    ensures Encode(Accumulate(lead.bits, [c])) == [b, c]
  {}

  lemma EncodeDigits2(b: byte, lead: Lead, c: byte, d: byte)
    requires LeadOf(b) == Some(lead) && lead.count == 2
    requires IsContinuation(c) && IsContinuation(d) && InRange(lead, Accumulate(lead.bits, [c, d]))
    ensures Encode(Accumulate(lead.bits, [c, d])) == [b, c, d]
  {
    LeadByte(b);
    ContinuationByte(c);
    ContinuationByte(d);
    AccumulateValues(lead.bits, c, d, 0);
    Encode3(lead.bits, c % 64, d % 64);
  }

  lemma EncodeDigits3(b: byte, lead: Lead, c: byte, d: byte, e: byte)
    requires LeadOf(b) == Some(lead) && lead.count == 3
    requires IsContinuation(c) && IsContinuation(d) && IsContinuation(e)
    requires InRange(lead, Accumulate(lead.bits, [c, d, e]))
    ensures Encode(Accumulate(lead.bits, [c, d, e])) == [b, c, d, e]
  {
    LeadByte(b);
    ContinuationByte(c);
    ContinuationByte(d);
    ContinuationByte(e);
    AccumulateValues(lead.bits, c, d, e);
    Encode4(lead.bits, c % 64, d % 64, e % 64);
  }

  lemma DecodedIsEncoded(t: Bytes)
    requires t != [] && Decode(t).Scalar?
    ensures IsScalar(Decode(t).codePoint)
    ensures t[..Decode(t).length] == Encode(Decode(t).codePoint)
  {
    if t[0] >= 0x80 {
      var lead := LeadOf(t[0]).value;
      var continuation := t[1..1 + lead.count];
      assert forall i | 0 <= i < |continuation| :: continuation[i] in continuation;
      EncodeDigits(t[0], lead, continuation);
      assert t[..1 + lead.count] == [t[0]] + continuation;
    }
  }

  lemma SplitDigits(v: nat)
    ensures v == 64 * (v / 64) + v % 64
    ensures v / 64 == 64 * (v / 4096) + v / 64 % 64
    ensures v / 4096 == 64 * (v / 262144) + v / 4096 % 64
  {}

  lemma ContinuationDigit(d: nat)
    requires d < 64
    ensures IsContinuation(0x80 + d) && (0x80 + d) % 64 == d
  {}

  /** The lead byte tells the length and carries the highest digit. */
  lemma LeadSplits(codePoint: nat)
    requires 0x7F < codePoint <= 0x10FFFF
    ensures var e := Encode(codePoint);
      && LeadOf(e[0]).Some? && LeadOf(e[0]).value.count == |e| - 1
      && LeadOf(e[0]).value.minimum <= codePoint
      && LeadOf(e[0]).value.bits == codePoint / (if |e| == 2 then 64 else if |e| == 3 then 4096 else 262144)
  {}

  /** A scalar value splits into a lead byte and continuation digits that accumulate back to it. */
  lemma EncodeSplits(codePoint: nat)
    requires 0x7F < codePoint <= 0x10FFFF
    ensures var e := Encode(codePoint);
      && LeadOf(e[0]).Some? && LeadOf(e[0]).value.count == |e| - 1
      && LeadOf(e[0]).value.minimum <= codePoint
      && (forall i | 1 <= i < |e| :: IsContinuation(e[i]))
      && Accumulate(LeadOf(e[0]).value.bits, e[1..]) == codePoint
  {
    var e := Encode(codePoint);
    var d0, d1, d2 := codePoint % 64, codePoint / 64 % 64, codePoint / 4096 % 64;
    LeadSplits(codePoint);
    SplitDigits(codePoint);
    ContinuationDigit(d0);
    ContinuationDigit(d1);
    ContinuationDigit(d2);
    if codePoint <= 0x7FF {
      assert e == [0xC0 + codePoint / 64, 0x80 + d0] && e[1..] == [e[1]];
      AccumulateValues(codePoint / 64, e[1], 0, 0);
    } else if codePoint <= 0xFFFF {
      assert e == [0xE0 + codePoint / 4096, 0x80 + d1, 0x80 + d0] && e[1..] == [e[1], e[2]];
      AccumulateValues(codePoint / 4096, e[1], e[2], 0);
    } else {
      assert e == [0xF0 + codePoint / 262144, 0x80 + d2, 0x80 + d1, 0x80 + d0] && e[1..] == [e[1], e[2], e[3]];
      AccumulateValues(codePoint / 262144, e[1], e[2], e[3]);
    }
  }

  lemma EncodedDecodes(codePoint: nat, rest: Bytes)
    requires IsScalar(codePoint)
    ensures Decode(Encode(codePoint) + rest) == Scalar(codePoint, |Encode(codePoint)|)
  {
    var e := Encode(codePoint);
    var t := e + rest;
    assert t[0] == e[0];
    if codePoint > 0x7F {
      EncodeSplits(codePoint);
      assert t[1..|e|] == e[1..];
    }
  }

  /** The lead-byte tests of the decoder. */
  method ClassifyLead(lead: byte) returns (valid: bool, bits: nat, count: nat, minimum: nat)
    ensures valid == LeadOf(lead).Some?
    ensures valid ==> LeadOf(lead) == Some(Lead(bits, count, minimum))
  {
    bits, count, minimum := 0, 0, 0;
    if lead / 32 == 6 {
      bits, count, minimum := lead % 32, 1, 0x80;
    } else if lead / 16 == 14 {
      bits, count, minimum := lead % 16, 2, 0x800;
    } else if lead / 8 == 30 {
      bits, count, minimum := lead % 8, 3, 0x10000;
    } else {
      return false, 0, 0, 0;
    }
    valid := true;
  }

  /** The continuation loop: stops at the first byte that is not a continuation byte. */
  method AccumulateBytes(text: Bytes, start: nat, count: nat, bits: nat) returns (ok: bool, value: nat)
    requires start + count <= |text|
    ensures ok <==> forall b | b in text[start..start + count] :: IsContinuation(b)
    ensures ok ==> value == Accumulate(bits, text[start..start + count])
  {
    value := bits;
    ghost var c := text[start..start + count];
    for i := 0 to count
      invariant forall b | b in c[..i] :: IsContinuation(b)
      invariant value == Accumulate(bits, c[..i])
    {
      var next := text[start + i];
      assert next == c[i];
      if !IsContinuation(next) {
        assert c[i] in c;
        return false, value;
      }
      assert c[..i + 1][..i] == c[..i];
      value := value * 64 + next % 64;
    }
    assert c[..count] == c;
    ok := true;
  }

  method DecodeUtf8CodePoint(text: Bytes, offset: nat) returns (ok: bool, next: nat, codePoint: nat)
    ensures offset >= |text| ==> !ok && next == offset
    ensures offset < |text| ==> ok == Decode(text[offset..]).Scalar? && offset < next
    ensures offset < |text| && !ok ==> next == offset + 1 && codePoint == text[offset]
    ensures offset < |text| && ok ==> Decode(text[offset..]) == Scalar(codePoint, next - offset)
  {
    if offset >= |text| {
      return false, offset, 0;
    }
    var lead := text[offset];
    if lead < 0x80 {
      return true, offset + 1, lead;
    }
    var valid, bits, count, minimum := ClassifyLead(lead);
    if !valid || offset + 1 + count > |text| {
      return false, offset + 1, lead;
    }
    assert text[offset..][1..1 + count] == text[offset + 1..offset + 1 + count];
    var wellFormed, value := AccumulateBytes(text, offset + 1, count, bits);
    if !wellFormed || value < minimum || value > 0x10FFFF || 0xD800 <= value <= 0xDFFF {
      return false, offset + 1, lead;
    }
    return true, offset + 1 + count, value;
  }

  // ---- The grammar ----

  predicate Tail(b: byte) {
    0x80 <= b <= 0xBF
  }

  /** The octet sequences of section 4 of RFC 3629, alternative by alternative. */
  predicate InGrammar(b: Bytes) {
    || (|b| == 1 && b[0] <= 0x7F)
    || (|b| == 2 && 0xC2 <= b[0] <= 0xDF && Tail(b[1]))
    || (|b| == 3 && Tail(b[1]) && Tail(b[2])
        && ((b[0] == 0xE0 && 0xA0 <= b[1]) || 0xE1 <= b[0] <= 0xEC || (b[0] == 0xED && b[1] <= 0x9F) || 0xEE <= b[0] <= 0xEF))
    || (|b| == 4 && Tail(b[1]) && Tail(b[2]) && Tail(b[3])
        && ((b[0] == 0xF0 && 0x90 <= b[1]) || 0xF1 <= b[0] <= 0xF3 || (b[0] == 0xF4 && b[1] <= 0x8F)))
  }

  /** The six low bits of the byte at `i`. */
  function Low(b: Bytes, i: nat): int
    requires i < |b|
  {
    var octet: int := b[i];
    octet - 0x80
  }

  /** The bits of section 3: of the lead byte, then six of each byte behind it. */
  function ValueOf(b: Bytes): int
    requires 1 <= |b| <= 4
  {
    var lead: int := b[0];
    if |b| == 1 then lead
    else if |b| == 2 then (lead - 0xC0) * 64 + Low(b, 1)
    else if |b| == 3 then (lead - 0xE0) * 4096 + Low(b, 1) * 64 + Low(b, 2)
    else (lead - 0xF0) * 262144 + Low(b, 1) * 4096 + Low(b, 2) * 64 + Low(b, 3)
  }

  lemma EncodingInGrammar(c: nat)
    requires IsScalar(c)
    ensures InGrammar(Encode(c)) && ValueOf(Encode(c)) == c
  {
    SplitDigits(c);
  }

  lemma GrammarEncodes3(b: Bytes)
    requires InGrammar(b) && |b| == 3
    ensures IsScalar(ValueOf(b)) && Encode(ValueOf(b)) == b
  {
    Encode3(b[0] - 0xE0, b[1] - 0x80, b[2] - 0x80);
    assert b == [b[0], b[1], b[2]];
  }

  lemma GrammarEncodes4(b: Bytes)
    requires InGrammar(b) && |b| == 4
    ensures IsScalar(ValueOf(b)) && Encode(ValueOf(b)) == b
  {
    Encode4(b[0] - 0xF0, b[1] - 0x80, b[2] - 0x80, b[3] - 0x80);
    assert b == [b[0], b[1], b[2], b[3]];
  }

  lemma GrammarEncodes(b: Bytes)
    requires InGrammar(b)
    ensures IsScalar(ValueOf(b)) && Encode(ValueOf(b)) == b
  {
    if |b| == 3 {
      GrammarEncodes3(b);
    } else if |b| == 4 {
      GrammarEncodes4(b);
    }
  }

  /** The decoder takes a prefix if and only if the grammar does, and returns the value of its bits. */
  lemma DecodesGrammar(t: Bytes, c: nat, n: nat)
    requires t != []
    ensures Decode(t) == Scalar(c, n) <==> 1 <= n <= |t| && InGrammar(t[..n]) && ValueOf(t[..n]) == c
  {
    DecodeExact(t, c, n);
    if Decode(t) == Scalar(c, n) {
      EncodingInGrammar(c);
    }
    if 1 <= n <= |t| && InGrammar(t[..n]) {
      GrammarEncodes(t[..n]);
    }
  }

  // ---- Texts ----

  ghost predicate AreScalars(cps: seq<nat>) {
    forall i | 0 <= i < |cps| :: IsScalar(cps[i])
  }

  function EncodeAll(cps: seq<nat>): (b: Bytes)
    requires forall i | 0 <= i < |cps| :: IsScalar(cps[i])
    ensures |b| >= |cps|
  {
    if cps == [] then [] else assert IsScalar(cps[0]); Encode(cps[0]) + EncodeAll(cps[1..])
  }

  // ---- Key-derivation folding ----

  /** The ASCII character a typographic variant folds to. */
  function FoldCodePoint(codePoint: nat): Option<byte> {
    if codePoint in {0x60, 0xB4, 0x2BC, 0x2018, 0x2019, 0x201A, 0x201B, 0x2032, 0x2035, 0xFF07} then Some(0x27)
    else if codePoint in {0x201C, 0x201D, 0x201E, 0x201F, 0x2033, 0x2036, 0xFF02} then Some(0x22)
    else if codePoint in {0xA0, 0x1680, 0x202F, 0x205F, 0x3000} then Some(0x20)
    else if codePoint in {0x2010, 0x2011, 0x2012, 0x2013, 0x2014, 0x2015, 0x2212, 0xFE58, 0xFE63, 0xFF0D} then Some(0x2D)
    else if 0x2000 <= codePoint <= 0x200A then Some(0x20)
    else None
  }

  function FoldScalar(codePoint: nat): (b: Bytes)
    requires codePoint <= 0x10FFFF
    ensures b != []
  {
    var f := FoldCodePoint(codePoint);
    if f.Some? then [f.value] else Encode(codePoint)
  }

  /** The next token: a well-formed scalar value, or one byte that starts nothing valid. */
  function TokenLength(t: Bytes): (n: nat)
    requires t != []
    ensures 1 <= n <= |t|
  {
    if Decode(t).Scalar? then Decode(t).length else 1
  }

  /** A scalar value is folded or re-encoded; a malformed byte is copied. */
  function FoldToken(t: Bytes): (b: Bytes)
    requires t != []
    ensures b != []
  {
    if Decode(t).Scalar? then DecodedIsEncoded(t); FoldScalar(Decode(t).codePoint) else [t[0]]
  }

  function Fold(t: Bytes): Bytes {
    if t == [] then [] else FoldToken(t) + Fold(t[TokenLength(t)..])
  }

  /** The continuation bytes a string starts with. */
  function Run(t: Bytes): Bytes {
    if t == [] || !IsContinuation(t[0]) then [] else [t[0]] + Run(t[1..])
  }

  lemma {:induction false} RunPrefix(t: Bytes)
    ensures |Run(t)| <= |t| && t[..|Run(t)|] == Run(t)
    ensures forall b | b in Run(t) :: IsContinuation(b)
    ensures |Run(t)| < |t| ==> !IsContinuation(t[|Run(t)|])
  {
    if t != [] && IsContinuation(t[0]) {
      RunPrefix(t[1..]);
    }
  }

  /** What decodes behind a byte depends only on the continuation bytes that follow it. */
  lemma DecodeDependsOnRun(b: byte, t: Bytes, u: Bytes)
    requires Run(t) == Run(u)
    ensures Decode([b] + t) == Decode([b] + u)
  {
    var lead := LeadOf(b);
    if b >= 0x80 && lead.Some? {
      DecodeBehindLead(b, lead.value, t);
      DecodeBehindLead(b, lead.value, u);
    }
  }

  lemma DecodeBehindLead(b: byte, lead: Lead, t: Bytes)
    requires b >= 0x80 && LeadOf(b) == Some(lead)
    ensures Decode([b] + t) ==
      if |Run(t)| < lead.count then Malformed
      else var value := Accumulate(lead.bits, Run(t)[..lead.count]);
           if InRange(lead, value) then Scalar(value, 1 + lead.count) else Malformed
  {
    RunPrefix(t);
    var s := [b] + t;
    if |Run(t)| < lead.count <= |t| {
      var continuation := s[1..1 + lead.count];
      assert continuation[|Run(t)|] == t[|Run(t)|];
      assert t[|Run(t)|] in continuation;
    } else if lead.count <= |Run(t)| {
      assert s[1..1 + lead.count] == Run(t)[..lead.count];
      assert forall c | c in Run(t)[..lead.count] :: c in Run(t);
    }
  }

  /** Folding neither adds nor removes continuation bytes at the front. */
  lemma {:induction false} FoldKeepsRun(t: Bytes)
    ensures Run(Fold(t)) == Run(t)
  {
    if t != [] {
      if IsContinuation(t[0]) {
        assert Decode(t) == Malformed;
        FoldKeepsRun(t[1..]);
        assert Fold(t)[1..] == Fold(t[1..]);
      } else if Decode(t).Scalar? {
        DecodedIsEncoded(t);
        var c := Decode(t).codePoint;
        assert Fold(t)[0] == FoldScalar(c)[0];
        assert Encode(c)[0] == t[0];
      }
    }
  }

  /** What a scalar value folds to is the encoding of one that folds to itself. */
  lemma FoldedScalar(c: nat) returns (f: nat)
    requires IsScalar(c)
    ensures IsScalar(f) && FoldScalar(c) == Encode(f) == FoldScalar(f)
  {
    f := if FoldCodePoint(c).Some? then FoldCodePoint(c).value else c;
  }

  lemma FoldOfEncoded(c: nat, rest: Bytes)
    requires IsScalar(c)
    ensures Fold(Encode(c) + rest) == FoldScalar(c) + Fold(rest)
  {
    EncodedDecodes(c, rest);
    assert (Encode(c) + rest)[|Encode(c)|..] == rest;
  }

  // ---- What folds to what ----

  predicate IsApostrophe(c: nat) {
    c == 0x60 || c == 0xB4 || c == 0x2BC || 0x2018 <= c <= 0x201B || c == 0x2032 || c == 0x2035 || c == 0xFF07
  }

  predicate IsDoubleQuote(c: nat) {
    0x201C <= c <= 0x201F || c == 0x2033 || c == 0x2036 || c == 0xFF02
  }

  predicate IsWideSpace(c: nat) {
    c == 0xA0 || c == 0x1680 || 0x2000 <= c <= 0x200A || c == 0x202F || c == 0x205F || c == 0x3000
  }

  predicate IsDash(c: nat) {
    0x2010 <= c <= 0x2015 || c == 0x2212 || c == 0xFE58 || c == 0xFE63 || c == 0xFF0D
  }

  /** A typographic variant becomes its ASCII character; every other scalar value stays itself. */
  predicate FoldsTo(c: nat, d: nat) {
    && (IsApostrophe(c) ==> d == 0x27)
    && (IsDoubleQuote(c) ==> d == 0x22)
    && (IsWideSpace(c) ==> d == 0x20)
    && (IsDash(c) ==> d == 0x2D)
    && (!IsApostrophe(c) && !IsDoubleQuote(c) && !IsWideSpace(c) && !IsDash(c) ==> d == c)
  }

  lemma FoldScalarIs(c: nat, d: nat)
    requires IsScalar(c) && FoldsTo(c, d)
    ensures IsScalar(d) && FoldScalar(c) == Encode(d)
  {}

  /** Folding a text replaces each variant by its ASCII character, and nothing else. */
  lemma {:induction false} FoldReplaces(cps: seq<nat>, folded: seq<nat>)
    requires AreScalars(cps) && |folded| == |cps| && forall i | 0 <= i < |cps| :: FoldsTo(cps[i], folded[i])
    ensures AreScalars(folded) && Fold(EncodeAll(cps)) == EncodeAll(folded)
  {
    if cps != [] {
      FoldScalarIs(cps[0], folded[0]);
      FoldReplaces(cps[1..], folded[1..]);
      FoldOfEncoded(cps[0], EncodeAll(cps[1..]));
      forall i | 0 <= i < |folded| ensures IsScalar(folded[i]) {
        assert i > 0 ==> folded[1..][i - 1] == folded[i];
      }
    }
  }

  /** A byte that starts nothing well-formed is kept, and folding goes on behind it. */
  lemma FoldOfMalformed(b: byte, rest: Bytes)
    requires Decode([b] + rest) == Malformed
    ensures Fold([b] + rest) == [b] + Fold(rest)
  {}

  /** Folding twice is folding once, on every byte string, malformed ones included. */
  lemma {:induction false} FoldIdempotent(t: Bytes)
    ensures Fold(Fold(t)) == Fold(t)
  {
    if t != [] {
      var n := TokenLength(t);
      var rest := t[n..];
      FoldIdempotent(rest);
      if Decode(t).Scalar? {
        DecodedIsEncoded(t);
        var f := FoldedScalar(Decode(t).codePoint);
        FoldOfEncoded(f, Fold(rest));
      } else {
        FoldKeepsRun(rest);
        assert t == [t[0]] + rest;
        DecodeDependsOnRun(t[0], rest, Fold(rest));
        FoldOfMalformed(t[0], Fold(rest));
      }
    }
  }

  /** One token folded from the front of `left`. */
  lemma FoldStep(done: Bytes, text: Bytes, start: nat, left: Bytes, next: nat, piece: Bytes)
    requires start < |text| && left == text[start..]
    requires next == start + TokenLength(left) && piece == FoldToken(left)
    ensures next <= |text| && done + Fold(left) == done + piece + Fold(text[next..])
  {
    assert left[TokenLength(left)..] == text[next..];
  }

  /** One turn of the folding loop: consumes a token and yields what to append for it. */
  method NextFolded(text: Bytes, offset: nat) returns (next: nat, piece: Bytes)
    requires offset < |text|
    ensures next == offset + TokenLength(text[offset..])
    ensures piece == FoldToken(text[offset..])
  {
    var ok, codePoint;
    ok, next, codePoint := DecodeUtf8CodePoint(text, offset);
    if !ok {
      return next, [text[offset]];
    }
    DecodedIsEncoded(text[offset..]);
    var folded := FoldCodePoint(codePoint);
    piece := if folded.Some? then [folded.value] else Encode(codePoint);
  }

  method FoldKeyDerivationTextVariants(text: Bytes) returns (output: Bytes)
    ensures output == Fold(text)
    ensures Fold(output) == output
  {
    output := [];
    var offset := 0;
    while offset < |text|
      invariant offset <= |text|
      invariant output + Fold(text[offset..]) == Fold(text)
    {
      ghost var left := text[offset..];
      var next, piece := NextFolded(text, offset);
      FoldStep(output, text, offset, left, next, piece);
      output := output + piece;
      offset := next;
    }
    FoldIdempotent(text);
  }
}
