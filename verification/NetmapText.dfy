/**
 Text handling behind `clipp map`: decimal and hexadecimal numbers, control-character
 scrubbing, and the report parser of src/Cli.cpp. Each byte of a report is one `char`. The
 parser is a function of the text still to be read and a method that moves a position over it;
 the printing side is in Netmap.dfy, which proves the two inverse.
 */
module NetmapText {
  import opened Machine
  import Sequences

  // ---- Searching ----

  /** The first position of `c`, or the length of the string (`npos`). */
  function Find(s: string, c: char): (k: nat)
    ensures k <= |s| && (k < |s| ==> s[k] == c)
  {
    if s == "" || s[0] == c then 0 else 1 + Find(s[1..], c)
  }

  lemma {:induction false} FindAt(a: string, c: char, rest: string)
    requires c !in a
    ensures Find(a + [c] + rest, c) == |a|
  {
    if a == "" {
      assert a + [c] + rest == [c] + rest;
    } else {
      FindAt(a[1..], c, rest);
      assert (a + [c] + rest)[1..] == a[1..] + [c] + rest;
    }
  }

  // ---- Numbers ----

  function Digit(d: nat): (c: char)
    requires d < 10
    ensures IsDigit(c) && DigitValue(c) == d
  {
    (('0' as int) + d) as char
  }

  predicate IsDigit(c: char) {
    '0' <= c <= '9'
  }

  function DigitValue(c: char): nat
    requires IsDigit(c)
  {
    (c as int) - ('0' as int)
  }

  /** `%llu`. */
  function Decimal(n: nat): (s: string)
    ensures s != "" && forall c | c in s :: IsDigit(c)
  {
    if n < 10 then [Digit(n)] else Decimal(n / 10) + [Digit(n % 10)]
  }

  lemma {:induction false} DecimalLength(n: nat, k: nat)
    requires k >= 1 && n < Pow10(k)
    ensures |Decimal(n)| <= k
  {
    if n >= 10 {
      DecimalLength(n / 10, k - 1);
    }
  }

  function Pow10(k: nat): nat {
    if k == 0 then 1 else 10 * Pow10(k - 1)
  }

  /** The number the leading digits of `s` spell, on top of `value`. */
  function Digits(s: string, value: nat): nat {
    if s == "" || !IsDigit(s[0]) then value else Digits(s[1..], 10 * value + DigitValue(s[0]))
  }

  predicate IsSpace(c: char) {
    c == ' ' || '\t' <= c <= '\r'
  }

  function SkipWhitespace(s: string): string {
    if s == "" || !IsSpace(s[0]) then s else SkipWhitespace(s[1..])
  }

  /** `strtoull` in base ten: leading white space, a sign, and saturation. */
  function ParseU64(s: string): u64 {
    var t := SkipWhitespace(s);
    var negative := t != "" && t[0] == '-';
    var value := Digits(if t != "" && (t[0] == '-' || t[0] == '+') then t[1..] else t, 0);
    if value > U64_MAX then U64_MAX
    else if negative && value > 0 then 0x1_0000_0000_0000_0000 - value
    else value
  }

  lemma {:induction false} DigitsAppend(s: string, c: char, value: nat)
    requires IsDigit(c) && forall x | x in s :: IsDigit(x)
    ensures Digits(s + [c], value) == 10 * Digits(s, value) + DigitValue(c)
  {
    if s == "" {
      assert (s + [c])[1..] == "";
    } else {
      assert (s + [c])[1..] == s[1..] + [c];
      DigitsAppend(s[1..], c, 10 * value + DigitValue(s[0]));
    }
  }

  lemma {:induction false} DigitsOfDecimal(n: nat)
    ensures Digits(Decimal(n), 0) == n
  {
    if n < 10 {
      assert [Digit(n)][1..] == "";
    } else {
      DigitsOfDecimal(n / 10);
      DigitsAppend(Decimal(n / 10), Digit(n % 10), 0);
    }
  }

  /** Every 64-bit number is read back from its decimal spelling. */
  lemma ParseDecimal(n: u64)
    ensures ParseU64(Decimal(n)) == n
  {
    DigitsOfDecimal(n);
    var s := Decimal(n);
    assert s[0] in s && IsDigit(s[0]);
    assert SkipWhitespace(s) == s;
  }

  function HexDigit(d: nat): (c: char)
    requires d < 16
    ensures c != ' ' && c != '\n' && c != '='
  {
    if d < 10 then Digit(d) else (('a' as int) + d - 10) as char
  }

  /** Two digits a byte, a dash before every fifth, ninth and thirteenth byte. */
  function HexFrom(id: HostId, i: nat): (s: string)
    requires i <= 16
    ensures forall c | c in s :: c != ' ' && c != '\n'
    decreases 16 - i
  {
    if i == 16 then ""
    else (if i > 0 && i % 4 == 0 then "-" else "") + [HexDigit(id[i] / 16), HexDigit(id[i] % 16)] + HexFrom(id, i + 1)
  }

  function Hex(id: HostId): string {
    HexFrom(id, 0)
  }

  method ToHexString(id: HostId) returns (s: string)
    ensures s == Hex(id)
  {
    s := "";
    ghost var all := Hex(id);
    assert "" + all == all;
    for i := 0 to 16
      invariant s + HexFrom(id, i) == all
    {
      HexStep(id, i);
      if i > 0 && i % 4 == 0 {
        HexJoin(s, "-", HexDigit(id[i] / 16), HexDigit(id[i] % 16), HexFrom(id, i + 1));
        s := s + "-";
      } else {
        HexJoin(s, "", HexDigit(id[i] / 16), HexDigit(id[i] % 16), HexFrom(id, i + 1));
      }
      s := s + [HexDigit(id[i] / 16)];
      s := s + [HexDigit(id[i] % 16)];
    }
    assert s + "" == s;
  }

  lemma HexStep(id: HostId, i: nat)
    requires i < 16
    ensures HexFrom(id, i) == (if i > 0 && i % 4 == 0 then "-" else "")
                              + [HexDigit(id[i] / 16), HexDigit(id[i] % 16)] + HexFrom(id, i + 1)
  {}

  lemma HexJoin(s: string, dash: string, high: char, low: char, rest: string)
    ensures s + (dash + [high, low] + rest) == s + dash + [high] + [low] + rest
    ensures dash == "" ==> s + (dash + [high, low] + rest) == s + [high] + [low] + rest
  {}

  // ---- Scrubbing ----

  predicate IsControl(c: char) {
    c < ' ' || c == '\U{7F}'
  }

  function ScrubChar(c: char): char {
    if IsControl(c) then '.' else c
  }

  function Scrub(s: string): (r: string)
    ensures |r| == |s| && forall i | 0 <= i < |s| :: r[i] == ScrubChar(s[i])
  {
    seq(|s|, i requires 0 <= i < |s| => ScrubChar(s[i]))
  }

  /** A scrubbed name cannot end the line it is on, and scrubbing it again changes nothing. */
  lemma ScrubFacts(s: string)
    ensures '\n' !in Scrub(s) && Scrub(Scrub(s)) == Scrub(s)
    ensures (forall c | c in s :: !IsControl(c)) ==> Scrub(s) == s
  {}

  // ---- Fields ----

  type Field = (string, string)

  function SkipSpaces(s: string): (t: string)
    ensures |t| <= |s|
  {
    if s != "" && s[0] == ' ' then SkipSpaces(s[1..]) else s
  }

  /** The key=value pairs of a record; `name` takes the rest of the line. */
  function ParseFields(tail: string): seq<Field>
    decreases |tail|, 1
  {
    FieldsOf(SkipSpaces(tail))
  }

  function FieldsOf(t: string): seq<Field>
    decreases |t|, 0
  {
    if t == "" then []
    else if "name=" <= t then [("name", t[5..])]
    else
      var eq := Find(t, '=');
      if eq == |t| then [] else AfterKey(t[..eq], t[eq + 1..])
  }

  /** The value of `key` up to the next space, and the fields behind it. */
  function AfterKey(key: string, v: string): seq<Field>
    decreases |v|, 2
  {
    var end := Find(v, ' ');
    [(key, v[..end])] + if end == |v| then [] else ParseFields(v[end + 1..])
  }

  /** A field as printed before another one. */
  function Labeled(tag: string, value: string, rest: string): string {
    tag + (value + rest)
  }

  predicate IsKey(key: string) {
    key != "" && ' ' !in key && '=' !in key && key != "name"
  }

  lemma ParseLabeled(key: string, value: string, rest: string)
    requires IsKey(key) && ' ' !in value
    ensures ParseFields(Labeled(key + "=", value, " " + rest)) == [(key, value)] + ParseFields(rest)
  {
    var v := value + " " + rest;
    var t := key + "=" + v;
    assert Labeled(key + "=", value, " " + rest) == t;
    assert t[0] == key[0];
    FindAt(key, '=', v);
    NotName(key, v);
    assert t[|key| + 1..] == v && t[..|key|] == key;
    ParseValue(key, value, rest);
  }

  lemma ParseValue(key: string, value: string, rest: string)
    requires ' ' !in value
    ensures AfterKey(key, value + " " + rest) == [(key, value)] + ParseFields(rest)
  {
    var v := value + " " + rest;
    FindAt(value, ' ', rest);
    assert v[..|value|] == value && v[|value| + 1..] == rest;
  }

  lemma NotName(key: string, v: string)
    requires IsKey(key)
    ensures !("name=" <= key + "=" + v)
  {
    var t := key + "=" + v;
    if |key| < 4 {
      assert t[|key|] == '=';
    } else if |key| > 4 {
      assert t[4] == key[4];
      assert key[4] in key;
    } else {
      assert t[..4] == key;
      assert "name="[..4] == "name";
    }
  }

  /** A name keeps its spaces and equals signs. */
  lemma ParseName(name: string)
    ensures ParseFields("name=" + name) == [("name", name)]
  {}

  lemma HasPrefix(p: string, s: string, pos: nat)
    requires pos <= |s|
    ensures p <= s[pos..] <==> pos + |p| <= |s| && s[pos..pos + |p|] == p
  {}

  /** Everything the parser will still find from `pos`, after what it has. */
  ghost predicate FieldsLeft(tail: string, pos: nat, done: seq<Field>)
    requires pos <= |tail|
  {
    done + ParseFields(tail[pos..]) == ParseFields(tail)
  }

  method ParseReportFields(tail: string) returns (fields: seq<Field>)
    ensures fields == ParseFields(tail)
  {
    fields := [];
    var pos := 0;
    assert tail[0..] == tail;
    while pos < |tail|
      invariant 0 <= pos <= |tail| && FieldsLeft(tail, pos, fields)
    {
      ghost var start := pos;
      pos := SkipSpacesFrom(tail, pos);
      assert FieldsOf(tail[pos..]) == ParseFields(tail[start..]);
      if pos >= |tail| {
        assert tail[pos..] == "";
        return;
      }
      var found, next := NextField(tail, pos);
      Sequences.Regroup3(fields, found, ParseFields(tail[next..]));
      fields := fields + found;
      pos := next;
    }
    assert tail[|tail|..] == "";
  }

  /** The pair at `pos`, if there is one, and where the next may start; nothing follows a name. */
  method NextField(tail: string, pos: nat) returns (found: seq<Field>, next: nat)
    requires pos < |tail|
    ensures pos < next <= |tail| && FieldsOf(tail[pos..]) == found + ParseFields(tail[next..])
  {
    HasPrefix("name=", tail, pos);
    if pos + 5 <= |tail| && tail[pos..pos + 5] == "name=" {
      NameAt(tail, pos, tail[pos..]);
      return [("name", tail[pos + 5..])], |tail|;
    }
    var eq := FindFrom(tail, '=', pos);
    if eq == |tail| {
      NothingAt(tail, tail[pos..]);
      return [], |tail|;
    }
    var end := FindFrom(tail, ' ', eq + 1);
    PairAt(tail, pos, tail[pos..], eq, end);
    return [(tail[pos..eq], tail[eq + 1..end])], if end == |tail| then |tail| else end + 1;
  }

  lemma NameAt(tail: string, pos: nat, t: string)
    requires pos < |tail| && t == tail[pos..] && "name=" <= t
    ensures FieldsOf(t) == [("name", tail[pos + 5..])] + ParseFields(tail[|tail|..])
  {
    assert t[5..] == tail[pos + 5..];
    assert tail[|tail|..] == "";
  }

  lemma NothingAt(tail: string, t: string)
    requires !("name=" <= t) && Find(t, '=') == |t|
    ensures FieldsOf(t) == [] + ParseFields(tail[|tail|..])
  {
    assert tail[|tail|..] == "";
  }

  lemma PairAt(tail: string, pos: nat, t: string, eq: nat, end: nat)
    requires pos < |tail| && t == tail[pos..] && !("name=" <= t)
    requires pos <= eq < |tail| && Find(t, '=') == eq - pos
    requires eq + 1 <= end <= |tail| && end == eq + 1 + Find(tail[eq + 1..], ' ')
    ensures FieldsOf(t) == [(tail[pos..eq], tail[eq + 1..end])] + ParseFields(tail[if end == |tail| then |tail| else end + 1..])
  {
    Slices(tail, pos, eq);
    ValueAt(tail, tail[pos..eq], eq, end);
  }

  lemma ValueAt(tail: string, key: string, eq: nat, end: nat)
    requires eq + 1 <= end <= |tail| && end == eq + 1 + Find(tail[eq + 1..], ' ')
    ensures AfterKey(key, tail[eq + 1..])
         == [(key, tail[eq + 1..end])] + ParseFields(tail[if end == |tail| then |tail| else end + 1..])
  {
    var v := tail[eq + 1..];
    assert v[..end - eq - 1] == tail[eq + 1..end];
    if end < |tail| {
      assert v[end - eq..] == tail[end + 1..];
    } else {
      assert tail[|tail|..] == "";
    }
  }

  lemma Slices(tail: string, pos: nat, eq: nat)
    requires pos <= eq < |tail|
    ensures tail[pos..][eq - pos + 1..] == tail[eq + 1..] && tail[pos..][..eq - pos] == tail[pos..eq]
  {}

  method SkipSpacesFrom(tail: string, start: nat) returns (pos: nat)
    requires start <= |tail|
    ensures start <= pos <= |tail| && (pos < |tail| ==> tail[pos] != ' ')
    ensures tail[pos..] == SkipSpaces(tail[start..])
  {
    pos := start;
    while pos < |tail| && tail[pos] == ' '
      invariant start <= pos <= |tail| && SkipSpaces(tail[pos..]) == SkipSpaces(tail[start..])
    {
      assert tail[pos..][1..] == tail[pos + 1..];
      pos := pos + 1;
    }
  }

  method FindFrom(s: string, c: char, start: nat) returns (k: nat)
    requires start <= |s|
    ensures start <= k <= |s| && k == start + Find(s[start..], c)
  {
    k := start;
    while k < |s| && s[k] != c
      invariant start <= k <= |s| && k + Find(s[k..], c) == start + Find(s[start..], c)
    {
      assert s[k..][1..] == s[k + 1..];
      k := k + 1;
    }
  }

  // ---- Lines ----

  function SplitLines(body: string): seq<string>
    decreases |body|
  {
    if body == "" then []
    else
      var end := Find(body, '\n');
      [body[..end]] + if end == |body| then [] else SplitLines(body[end + 1..])
  }

  function JoinLines(lines: seq<string>): string {
    if lines == [] then "" else lines[0] + "\n" + JoinLines(lines[1..])
  }

  lemma SplitFirst(line: string, rest: string)
    requires '\n' !in line
    ensures SplitLines(line + "\n" + rest) == [line] + SplitLines(rest)
  {
    var body := line + "\n" + rest;
    FindAt(line, '\n', rest);
    assert body[..|line|] == line && body[|line| + 1..] == rest;
  }

  lemma {:induction false} SplitJoined(lines: seq<string>)
    requires forall l | l in lines :: '\n' !in l
    ensures SplitLines(JoinLines(lines)) == lines
  {
    if lines != [] {
      SplitJoined(lines[1..]);
      SplitFirst(lines[0], JoinLines(lines[1..]));
      assert lines == [lines[0]] + lines[1..];
    }
  }
}
