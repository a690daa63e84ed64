/**
 Register-name validation (`IsValidRegisterName`, src/RegisterStore.cpp): what names the
 store accepts, stated through the code points a name spells. The loop decodes one code point
 after another; the characterisation says which texts it lets through, and that none of them
 holds a character the glob matcher treats specially.
 */
module RegisterName {
  import opened Machine
  import opened Utf8

  const MAX_NAME_BYTES := 64
  const SPACE: byte := 0x20
  const STAR: byte := 0x2A

  /** Printable and not one of the reserved `?`, `*` and `/`. */
  predicate Allowed(codePoint: nat) {
    && codePoint >= 0x20 && codePoint != 0x7F && !(0x80 <= codePoint <= 0x9F)
    && codePoint != 0x3F && codePoint != 0x2A && codePoint != 0x2F
  }

  /** The validation loop: every token is an allowed scalar value. */
  predicate AllAllowed(t: Bytes) {
    t == [] || (Decode(t).Scalar? && Allowed(Decode(t).codePoint) && AllAllowed(t[Decode(t).length..]))
  }

  predicate IsValid(name: Bytes) {
    && 1 <= |name| <= MAX_NAME_BYTES
    && name[0] != SPACE && name[|name| - 1] != SPACE
    && AllAllowed(name)
  }

  method IsValidRegisterName(name: Bytes) returns (valid: bool)
    ensures valid == IsValid(name)
  {
    if name == [] || |name| > MAX_NAME_BYTES {
      return false;
    }
    if name[0] == SPACE || name[|name| - 1] == SPACE {
      return false;
    }
    var offset := 0;
    while offset < |name|
      invariant offset <= |name|
      invariant AllAllowed(name) == AllAllowed(name[offset..])
    {
      ghost var t := name[offset..];
      var ok, next, codePoint := DecodeUtf8CodePoint(name, offset);
      if !ok {
        return false;
      }
      assert t[Decode(t).length..] == name[next..];
      offset := next;
      if codePoint < 0x20 || codePoint == 0x7F || 0x80 <= codePoint <= 0x9F {
        return false;
      }
      if codePoint == 0x3F || codePoint == 0x2A || codePoint == 0x2F {
        return false;
      }
    }
    return true;
  }

  // ---- What it accepts ----

  /** A control character: below the space, delete, or one of the second control set. */
  predicate IsControl(c: nat) {
    c <= 0x1F || 0x7F <= c <= 0x9F
  }

  /** A question mark, an asterisk or a slash. */
  predicate IsReserved(c: nat) {
    c == 0x3F || c == 0x2A || c == 0x2F
  }

  /** `name` spells `cps`: printable scalar values, none reserved, no space at either end. */
  ghost predicate Spells(name: Bytes, cps: seq<nat>) {
    && AreScalars(cps) && EncodeAll(cps) == name
    && cps != [] && cps[0] != 0x20 && cps[|cps| - 1] != 0x20
    && forall i | 0 <= i < |cps| :: !IsControl(cps[i]) && !IsReserved(cps[i])
  }

  /** Validity is a property of the code points: a name is accepted iff it is the encoding of a printable text. */
  lemma ValidExact(name: Bytes)
    ensures IsValid(name) <==> |name| <= 64 && exists cps :: Spells(name, cps)
  {
    if IsValid(name) {
      var cps := ScalarsOf(name);
      EdgeSpaces(cps);
      assert Spells(name, cps);
    }
    if |name| <= MAX_NAME_BYTES && exists cps :: Spells(name, cps) {
      var cps :| Spells(name, cps);
      EncodedAllowed(cps);
      EdgeSpaces(cps);
    }
  }

  lemma {:induction false} ScalarsOf(t: Bytes) returns (cps: seq<nat>)
    requires AllAllowed(t)
    ensures AreScalars(cps) && EncodeAll(cps) == t
    ensures forall i | 0 <= i < |cps| :: Allowed(cps[i])
  {
    if t == [] {
      cps := [];
    } else {
      DecodedIsEncoded(t);
      var rest := ScalarsOf(t[Decode(t).length..]);
      cps := [Decode(t).codePoint] + rest;
      assert cps[1..] == rest;
      assert t == t[..Decode(t).length] + t[Decode(t).length..];
    }
  }

  lemma {:induction false} EncodedAllowed(cps: seq<nat>)
    requires AreScalars(cps) && forall i | 0 <= i < |cps| :: Allowed(cps[i])
    ensures AllAllowed(EncodeAll(cps))
  {
    if cps != [] {
      EncodedAllowed(cps[1..]);
      EncodedDecodes(cps[0], EncodeAll(cps[1..]));
      assert EncodeAll(cps)[|Encode(cps[0])|..] == EncodeAll(cps[1..]);
    }
  }

  lemma EncodeAscii(c: nat)
    requires IsScalar(c)
    ensures var e := Encode(c); (e[0] < 0x80 <==> c < 0x80) && (c < 0x80 ==> e == [c])
    ensures var e := Encode(c); c >= 0x80 ==> forall b | b in e :: b >= 0x80
  {}

  /** The first and last byte are a space exactly when the first and last code point are. */
  lemma {:induction false} EdgeSpaces(cps: seq<nat>)
    requires AreScalars(cps)
    ensures var t := EncodeAll(cps);
      && (cps == [] <==> t == [])
      && (cps != [] ==> (t[0] == SPACE <==> cps[0] == 0x20))
      && (cps != [] ==> (t[|t| - 1] == SPACE <==> cps[|cps| - 1] == 0x20))
  {
    if cps != [] {
      EncodeAscii(cps[0]);
      EdgeSpaces(cps[1..]);
      var e := Encode(cps[0]);
      assert e[|e| - 1] in e;
    }
  }

  /** No byte of a valid name is a `*`, so names never collide with the CLI's glob metacharacter. */
  lemma ValidHasNoStar(name: Bytes)
    requires IsValid(name)
    ensures STAR !in name
  {
    AllowedHasNoStar(name);
  }

  lemma {:induction false} AllowedHasNoStar(t: Bytes)
    requires AllAllowed(t)
    ensures STAR !in t
  {
    if t != [] {
      DecodedIsEncoded(t);
      var n := Decode(t).length;
      EncodeAscii(Decode(t).codePoint);
      AllowedHasNoStar(t[n..]);
      assert t == t[..n] + t[n..];
    }
  }
}
