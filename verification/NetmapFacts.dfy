/** What `clipp map` shows of a mesh, in plain terms. */
module NetmapFacts {
  import opened Machine
  import opened NetmapText
  import opened Netmap

  // Module Netmap shows that reading undoes printing. Here the entries are described without the
  // printer's own functions: by the table, the clock, and the words of the report.

  // ---- Identities ----

  const HEX_DIGITS := "0123456789abcdef"

  lemma HexDigitIs(d: nat)
    requires d < 16
    ensures HexDigit(d) == HEX_DIGITS[d]
  {}

  /** Where the digits of byte i and what is in front of it begin. */
  function HexStart(i: nat): nat {
    if i == 0 then 0 else 2 * i + (i - 1) / 4
  }

  /** Where the high digit of byte j stands when printing starts at byte i. */
  function HexAt(i: nat, j: nat): int {
    2 * j + j / 4 - HexStart(i)
  }

  lemma {:induction false} HexStep(id: HostId, i: nat)
    requires i < 16
    ensures var s, rest := HexFrom(id, i), HexFrom(id, i + 1); var k := HexAt(i, i);
      && k == (if i > 0 && i % 4 == 0 then 1 else 0) && |s| == k + 2 + |rest| && s[k + 2..] == rest
      && s[k] == HexDigit(id[i] / 16) && s[k + 1] == HexDigit(id[i] % 16) && (k == 1 ==> s[0] == '-')
      && HexStart(i + 1) == HexStart(i) + k + 2
  {}

  lemma {:induction false} HexLength(id: HostId, i: nat)
    requires i <= 16
    ensures |HexFrom(id, i)| == 35 - HexStart(i)
    decreases 16 - i
  {
    if i < 16 {
      HexStep(id, i);
      HexLength(id, i + 1);
    }
  }

  /** Two digits at `at`, behind a dash when byte j starts a group. */
  predicate DigitsAt(s: string, at: int, j: nat, high: char, low: char) {
    && 0 <= at && at + 1 < |s| && s[at] == high && s[at + 1] == low
    && (j > 0 && j % 4 == 0 ==> at > 0 && s[at - 1] == '-')
  }

  lemma {:induction false} DigitsBehind(s: string, rest: string, shift: nat, at: int, j: nat, high: char, low: char)
    requires shift <= |s| && s[shift..] == rest && DigitsAt(rest, at, j, high, low)
    ensures DigitsAt(s, shift + at, j, high, low)
  {
    assert s[shift + at] == rest[at] && s[shift + at + 1] == rest[at + 1];
    if at > 0 {
      assert s[shift + at - 1] == rest[at - 1];
    }
  }

  lemma {:induction false} HexAtShift(i: nat, j: nat)
    requires i < j < 16
    ensures HexAt(i, j) == HexAt(i, i) + 2 + HexAt(i + 1, j) && HexAt(i, i) >= 0
  {}

  /** Byte j's digits are where they should be in what is printed from byte i on. */
  ghost predicate PrintedAt(id: HostId, i: nat, j: nat)
    requires i <= 16 && j < 16
  {
    DigitsAt(HexFrom(id, i), HexAt(i, j), j, HexDigit(id[j] / 16), HexDigit(id[j] % 16))
  }

  lemma {:induction false} PrintedFirst(id: HostId, i: nat)
    requires i < 16
    ensures PrintedAt(id, i, i)
  {
    HexStep(id, i);
  }

  lemma {:induction false} PrintedLater(id: HostId, i: nat, j: nat)
    requires i < j < 16 && PrintedAt(id, i + 1, j)
    ensures PrintedAt(id, i, j)
  {
    HexTail(id, i);
    HexAtShift(i, j);
    DigitsBehind(HexFrom(id, i), HexFrom(id, i + 1), HexAt(i, i) + 2, HexAt(i + 1, j), j,
                 HexDigit(id[j] / 16), HexDigit(id[j] % 16));
  }

  lemma {:induction false} HexTail(id: HostId, i: nat)
    requires i < 16
    ensures 0 <= HexAt(i, i) && HexAt(i, i) + 2 <= |HexFrom(id, i)| && HexFrom(id, i)[HexAt(i, i) + 2..] == HexFrom(id, i + 1)
  {
    HexStep(id, i);
  }

  lemma {:induction false} HexFromAt(id: HostId, i: nat, j: nat)
    requires i <= j < 16
    ensures PrintedAt(id, i, j)
    decreases 16 - i
  {
    if i < j {
      HexFromAt(id, i + 1, j);
      PrintedLater(id, i, j);
    } else {
      PrintedFirst(id, i);
    }
  }

  /** An identity is printed as four groups of eight lower-case digits, high digit first. */
  lemma {:induction false} HexIs(id: HostId, j: nat)
    requires j < 16
    ensures var s, at := Hex(id), 2 * j + j / 4;
      && |s| == 35 && at + 1 < 35 && s[at] == HEX_DIGITS[id[j] / 16] && s[at + 1] == HEX_DIGITS[id[j] % 16]
      && (j > 0 && j % 4 == 0 ==> s[at - 1] == '-')
  {
    HexLength(id, 0);
    HexFromAt(id, 0, j);
    HexDigitIs(id[j] / 16);
    HexDigitIs(id[j] % 16);
  }

  // ---- Entries ----

  predicate SaysState(s: ConnState, w: string) {
    && (s.Connecting? ==> w == "connecting") && (s.Connected? ==> w == "connected")
    && (s.Backoff? ==> w == "backoff") && (s.Failed? ==> w == "failed")
  }

  predicate SaysOs(os: OsType, w: string) {
    && (os.UnknownOs? ==> w == "unknown") && (os.Windows? ==> w == "windows") && (os.MacOS? ==> w == "macos")
    && (os.IPhone? ==> w == "iphone") && (os.IPad? ==> w == "ipad") && (os.Linux? ==> w == "linux")
  }

  /** Whole seconds since connecting; zero when that is unset or not in the past. */
  predicate IsAge(age: nat, since: int, now: int) {
    if since == 0 || now <= since then age == 0
    else age * 1_000_000_000 <= now - since < (age + 1) * 1_000_000_000
  }

  /** The same text with every control character replaced by a dot. */
  predicate IsScrubbed(w: string, s: string) {
    |w| == |s| && forall i | 0 <= i < |s| :: w[i] == if s[i] < ' ' || s[i] == '\U{7F}' then '.' else s[i]
  }

  /** The connections a host has to this one, the requester's own one aside. */
  predicate CountsIn(n: nat, item: PeerItem, requester: HostId) {
    if item.hostId == requester && item.incoming > 0 then n + 1 == item.incoming else n == item.incoming
  }

  predicate IsShown(item: PeerItem, requester: HostId) {
    item.outgoing > 0 || item.incoming > (if item.hostId == requester then 1 else 0)
  }

  ghost predicate Tells(c: MapConnection, item: PeerItem, requester: HostId, now: i64) {
    && CountsIn(c.inCount, item, requester) && c.outCount == item.outgoing
    && SaysState(item.state, c.state) && IsAge(c.age, item.connectedSince, now)
    && c.tx == item.bytesSent && c.rx == item.bytesReceived && SaysOs(item.os, c.os)
    && IsScrubbed(c.name, item.hostName)
    && |c.idPrefix| == 8 && forall j | 0 <= j < 4 :: TellsByte(c.idPrefix, item.hostId, j)
  }

  predicate TellsByte(s: string, id: HostId, j: nat)
    requires |s| == 8 && j < 4
  {
    s[2 * j] == HEX_DIGITS[id[j] / 16] && s[2 * j + 1] == HEX_DIGITS[id[j] % 16]
  }

  lemma {:induction false} PrefixTells(id: HostId, j: nat)
    requires j < 4
    ensures |Prefix8(Hex(id))| == 8 && TellsByte(Prefix8(Hex(id)), id, j)
  {
    HexIs(id, j);
    var s := Hex(id);
    assert Prefix8(s) == s[..8] && 2 * j + j / 4 == 2 * j;
  }

  lemma {:induction false} EntryTells(item: PeerItem, requester: HostId, now: i64)
    ensures Tells(Entry(item, requester, now), item, requester, now)
    ensures Shown(item, requester) <==> IsShown(item, requester)
  {
    PrefixTells(item.hostId, 0);
    forall j | 0 <= j < 4 ensures TellsByte(Prefix8(Hex(item.hostId)), item.hostId, j) {
      PrefixTells(item.hostId, j);
    }
  }

  // ---- Reports ----

  /** The hosts shown, in table order. */
  function ShownItems(table: seq<PeerItem>, requester: HostId): seq<PeerItem> {
    if table == [] then []
    else (if IsShown(table[0], requester) then [table[0]] else []) + ShownItems(table[1..], requester)
  }

  function SumIn(conns: seq<MapConnection>): nat {
    if conns == [] then 0 else SumIn(conns[..|conns| - 1]) + conns[|conns| - 1].inCount
  }

  function SumOut(conns: seq<MapConnection>): nat {
    if conns == [] then 0 else SumOut(conns[..|conns| - 1]) + conns[|conns| - 1].outCount
  }

  /** The sums are those of the entries, in 64 bits. */
  predicate Summed(r: Report) {
    r.totalIn == SumIn(r.conns) % 0x1_0000_0000_0000_0000 && r.totalOut == SumOut(r.conns) % 0x1_0000_0000_0000_0000
  }

  lemma {:induction false} AddSummed(r: Report, c: MapConnection)
    requires Summed(r)
    ensures Summed(AddConn(r, c))
  {
    var conns := r.conns + [c];
    assert conns[..|r.conns|] == r.conns;
    SumWraps(SumIn(r.conns), c.inCount);
    SumWraps(SumOut(r.conns), c.outCount);
  }

  lemma SumWraps(a: nat, b: nat)
    ensures (a % 0x1_0000_0000_0000_0000 + b) % 0x1_0000_0000_0000_0000 == (a + b) % 0x1_0000_0000_0000_0000
  {
    var q := a / 0x1_0000_0000_0000_0000;
    assert a == 0x1_0000_0000_0000_0000 * q + a % 0x1_0000_0000_0000_0000;
    WrapOff(a % 0x1_0000_0000_0000_0000 + b, q);
  }

  lemma WrapOff(x: nat, q: nat)
    ensures (0x1_0000_0000_0000_0000 * q + x) % 0x1_0000_0000_0000_0000 == x % 0x1_0000_0000_0000_0000
  {
    var y := x / 0x1_0000_0000_0000_0000;
    assert 0x1_0000_0000_0000_0000 * q + x == 0x1_0000_0000_0000_0000 * (q + y) + x % 0x1_0000_0000_0000_0000;
  }

  /** The entries from `start` on tell of `items`, one each, in order. */
  ghost predicate TellAll(conns: seq<MapConnection>, start: nat, items: seq<PeerItem>, requester: HostId, now: i64) {
    |conns| == start + |items| && forall i | 0 <= i < |items| :: Tells(conns[start + i], items[i], requester, now)
  }

  lemma {:induction false} TellFirst(conns: seq<MapConnection>, start: nat, first: PeerItem, rest: seq<PeerItem>,
                                     requester: HostId, now: i64)
    requires start < |conns| && Tells(conns[start], first, requester, now)
    requires TellAll(conns, start + 1, rest, requester, now)
    ensures TellAll(conns, start, [first] + rest, requester, now)
  {
    var items := [first] + rest;
    forall i | 0 <= i < |items| ensures Tells(conns[start + i], items[i], requester, now) {
      if i > 0 {
        assert Tells(conns[start + 1 + (i - 1)], rest[i - 1], requester, now);
      }
    }
  }

  lemma PrefixOf(before: seq<MapConnection>, e: MapConnection, conns: seq<MapConnection>)
    requires before + [e] <= conns
    ensures before <= conns && |before| < |conns| && conns[|before|] == e
  {
    assert (before + [e])[|before|] == e;
  }

  lemma {:induction false} AddEntriesSummed(r: Report, table: seq<PeerItem>, requester: HostId, now: i64)
    requires Summed(r)
    ensures Summed(AddEntries(r, table, requester, now)) && r.conns <= AddEntries(r, table, requester, now).conns
    decreases |table|
  {
    if table != [] {
      AddSummed(r, Entry(table[0], requester, now));
      AddEntriesSummed(AddEntry(r, table[0], requester, now), table[1..], requester, now);
    }
  }

  lemma {:induction false} AddEntriesTell(r: Report, table: seq<PeerItem>, requester: HostId, now: i64)
    requires Summed(r)
    ensures TellAll(AddEntries(r, table, requester, now).conns, |r.conns|, ShownItems(table, requester), requester, now)
    decreases |table|
  {
    if table != [] {
      var item, rest := table[0], table[1..];
      EntryTells(item, requester, now);
      var e := Entry(item, requester, now);
      var r1 := AddEntry(r, item, requester, now);
      AddSummed(r, e);
      AddEntriesTell(r1, rest, requester, now);
      if IsShown(item, requester) {
        AddEntriesSummed(r1, rest, requester, now);
        PrefixOf(r.conns, e, AddEntries(r1, rest, requester, now).conns);
        TellFirst(AddEntries(r1, rest, requester, now).conns, |r.conns|, item, ShownItems(rest, requester), requester, now);
      } else {
        assert ShownItems(table, requester) == ShownItems(rest, requester);
      }
    }
  }

  lemma {:induction false} AddEntriesKeeps(r: Report, table: seq<PeerItem>, requester: HostId, now: i64)
    ensures var r' := AddEntries(r, table, requester, now); r'.ok == r.ok && r'.version == r.version && r'.name == r.name
    decreases |table|
  {
    if table != [] {
      AddEntriesKeeps(AddEntry(r, table[0], requester, now), table[1..], requester, now);
    }
  }

  /** What the map shows of a table. */
  ghost predicate Maps(r: Report, name: string, version: string, selfName: string,
                       table: seq<PeerItem>, requester: HostId, now: i64)
  {
    && r.ok && r.version == version && Summed(r)
    && (if selfName == "" then r.name == name else IsScrubbed(r.name, selfName))
    && TellAll(r.conns, 0, ShownItems(table, requester), requester, now)
  }

  /**
   For every table the map shows exactly the hosts with a connection besides the one asking, in
   order, and tells of each its counts, state, age in whole seconds, traffic, system, the first eight
   digits of its identity and its name with control characters dotted, with the sums of the counts.
   */
  lemma {:induction false} MapTells(name: string, version: string, selfId: HostId, selfName: string,
                 table: seq<PeerItem>, requester: HostId, now: i64)
    requires ' ' !in version && '\n' !in version
    ensures Maps(ReadBody(name, Body(version, selfId, selfName, table, requester, now)),
                 name, version, selfName, table, requester, now)
  {
    ReadUndoesPrint(name, version, selfId, selfName, table, requester, now);
    EntriesMap(name, version, selfName, table, requester, now);
  }

  lemma {:induction false} EntriesMap(name: string, version: string, selfName: string,
                                      table: seq<PeerItem>, requester: HostId, now: i64)
    ensures Maps(AddEntries(Report(true, version, Renamed(name, selfName), 0, 0, []), table, requester, now),
                 name, version, selfName, table, requester, now)
  {
    var start := Report(true, version, Renamed(name, selfName), 0, 0, []);
    AddEntriesSummed(start, table, requester, now);
    AddEntriesTell(start, table, requester, now);
    AddEntriesKeeps(start, table, requester, now);
  }

  /** The words of a connection's line. */
  lemma LineIs(item: PeerItem, requester: HostId, now: i64)
    ensures ConnLine(item, requester, now)
         == "conn in=" + Decimal(IncomingCount(item, requester)) + " out=" + Decimal(item.outgoing)
          + " state=" + StateName(item.state) + " age=" + Decimal(AgeSeconds(item, now))
          + " tx=" + Decimal(item.bytesSent) + " rx=" + Decimal(item.bytesReceived)
          + " os=" + OsName(item.os) + " id=" + Hex(item.hostId) + " name=" + Scrub(item.hostName)
  {
    PrefixFits(item, requester, now);
    Flat(Decimal(IncomingCount(item, requester)), Decimal(item.outgoing), StateName(item.state), Decimal(AgeSeconds(item, now)),
         Decimal(item.bytesSent), Decimal(item.bytesReceived), OsName(item.os));
  }

  lemma Flat(a: string, b: string, c: string, d: string, e: string, f: string, g: string)
    ensures Format(a, b, c, d, e, f, g, "")
         == "conn in=" + a + " out=" + b + " state=" + c + " age=" + d + " tx=" + e + " rx=" + f + " os=" + g + " id="
  {}

  // ---- Other builds' reports ----

  lemma {:induction false} DigitsStop(s: string, tail: string, value: nat)
    requires (forall c | c in s :: IsDigit(c)) && (tail != "" ==> !IsDigit(tail[0]))
    ensures Digits(s + tail, value) == Digits(s, value)
  {
    if s == "" {
      assert s + tail == tail;
    } else {
      assert (s + tail)[1..] == s[1..] + tail;
      DigitsStop(s[1..], tail, 10 * value + DigitValue(s[0]));
    }
  }

  lemma {:induction false} SpacesSkipped(spaces: string, s: string)
    requires (forall c | c in spaces :: IsSpace(c)) && s != "" && !IsSpace(s[0])
    ensures SkipWhitespace(spaces + s) == s
  {
    if spaces == "" {
      assert spaces + s == s;
    } else {
      assert (spaces + s)[1..] == spaces[1..] + s;
      SpacesSkipped(spaces[1..], s);
    }
  }

  /** A number is read behind white space and a sign, up to what is not a digit, cut at 2^64 - 1; a minus wraps it. */
  lemma {:induction false} ParseSpelled(spaces: string, sign: string, n: nat, tail: string)
    requires (forall c | c in spaces :: IsSpace(c)) && sign in ["", "+", "-"] && (tail != "" ==> !IsDigit(tail[0]))
    ensures ParseU64(spaces + (sign + (Decimal(n) + tail)))
         == if n > U64_MAX then U64_MAX else if sign == "-" && n > 0 then 0x1_0000_0000_0000_0000 - n else n
  {
    var digits := Decimal(n);
    var t := sign + (digits + tail);
    assert digits[0] in digits && IsDigit(digits[0]) && (digits + tail)[0] == digits[0];
    SpacesSkipped(spaces, t);
    DigitsOfDecimal(n);
    DigitsStop(digits, tail, 0);
    if sign == "" {
      assert t == digits + tail;
    } else {
      assert t[0] == sign[0] && t[1..] == digits + tail;
    }
  }

  /** Lines of other kinds and keys of other names are passed over. */
  lemma UnknownIgnored(r: Reading, tag: string, tail: string, c: MapConnection, key: string, value: string)
    requires r.report.ok && tag != "" && ' ' !in tag && tag !in ["netmap", "self", "conn"]
    requires key !in ["in", "out", "state", "age", "tx", "rx", "os", "id", "name"]
    ensures ReadLine(r, tag + " " + tail) == r && SetField(c, (key, value)) == c
  {
    SplitTag(tag, tail);
  }

  /** What does not begin as a report is not one: nothing is read. */
  lemma {:induction false} NotAReport(r: Reading, tag: string, tail: string, lines: seq<string>)
    requires !r.report.ok && !r.stopped && tag != "" && ' ' !in tag && tag != "netmap"
    ensures ReadLines(r, [tag + " " + tail] + lines).report == r.report
  {
    SplitTag(tag, tail);
    var all := [tag + " " + tail] + lines;
    assert all[1..] == lines;
    StoppedReadsNothing(ReadLine(r, tag + " " + tail), lines);
  }

  lemma {:induction false} StoppedReadsNothing(r: Reading, lines: seq<string>)
    requires r.stopped
    ensures ReadLines(r, lines) == r
    decreases |lines|
  {
    if lines != [] {
      StoppedReadsNothing(r, lines[1..]);
    }
  }
}
