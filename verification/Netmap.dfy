/**
 The mesh map: the report a daemon prints of its connection table (src/Peer.cpp) and what
 `clipp map` reads out of it (src/Cli.cpp).
 */
module Netmap {
  import opened Machine
  import opened NetmapText
  import Sequences

  datatype ConnState = Connecting | Connected | Backoff | Failed

  datatype OsType = UnknownOs | Windows | MacOS | IPhone | IPad | Linux

  /** A point of the steady clock in nanoseconds; 0 is the unset value. */
  type i64 = x: int | -0x8000_0000_0000_0000 <= x < 0x8000_0000_0000_0000

  /** One host of the connection table. */
  datatype PeerItem = PeerItem(hostName: string, hostId: HostId, os: OsType, state: ConnState,
                               bytesSent: u64, bytesReceived: u64, connectedSince: i64,
                               incoming: u64, outgoing: u64)

  /** One host as `clipp map` shows it. */
  datatype MapConnection = MapConnection(inCount: u64, outCount: u64, state: string, age: u64, tx: u64, rx: u64,
                                         os: string, idPrefix: string, name: string)

  datatype Report = Report(ok: bool, version: string, name: string, totalIn: u64, totalOut: u64, conns: seq<MapConnection>)

  // ---- Printing ----

  function StateName(s: ConnState): string {
    match s
    case Connecting => "connecting"
    case Connected => "connected"
    case Backoff => "backoff"
    case Failed => "failed"
  }

  function OsName(os: OsType): string {
    match os
    case UnknownOs => "unknown"
    case Windows => "windows"
    case MacOS => "macos"
    case IPhone => "iphone"
    case IPad => "ipad"
    case Linux => "linux"
  }

  /** The requester's own connection is not mesh state. */
  function IncomingCount(item: PeerItem, requester: HostId): u64 {
    if item.hostId == requester && item.incoming > 0 then item.incoming - 1 else item.incoming
  }

  function AgeSeconds(item: PeerItem, now: i64): u64 {
    if item.connectedSince != 0 && now > item.connectedSince
    then (now - item.connectedSince) / 1_000_000_000 else 0
  }

  predicate Shown(item: PeerItem, requester: HostId) {
    IncomingCount(item, requester) != 0 || item.outgoing != 0
  }

  /** The format string and its arguments, followed by `rest`. */
  function Format(inCount: string, outCount: string, state: string, age: string, tx: string, rx: string, os: string,
                  rest: string): string
  {
    Labeled("conn in=", inCount, Labeled(" out=", outCount, Labeled(" state=", state, Labeled(" age=", age,
      Labeled(" tx=", tx, Labeled(" rx=", rx, Labeled(" os=", os, " id=" + rest)))))))
  }

  function Fields(item: PeerItem, requester: HostId, now: i64, rest: string): string {
    Format(Decimal(IncomingCount(item, requester)), Decimal(item.outgoing), StateName(item.state),
           Decimal(AgeSeconds(item, now)), Decimal(item.bytesSent), Decimal(item.bytesReceived), OsName(item.os), rest)
  }

  const BUFFER_SIZE := 192

  /** What `snprintf` leaves in a buffer of `BUFFER_SIZE` bytes, the terminator aside. */
  function Printed(s: string): string {
    if |s| < BUFFER_SIZE then s else s[..BUFFER_SIZE - 1]
  }

  function ConnLine(item: PeerItem, requester: HostId, now: i64): string {
    Printed(Fields(item, requester, now, "")) + Hex(item.hostId) + " name=" + Scrub(item.hostName)
  }

  function SelfLine(version: string, selfId: HostId, selfName: string): string {
    "self ver=" + version + " id=" + Hex(selfId) + " name=" + Scrub(selfName)
  }

  function ConnLines(table: seq<PeerItem>, requester: HostId, now: i64): seq<string> {
    if table == [] then []
    else
      (if Shown(table[0], requester) then [ConnLine(table[0], requester, now)] else [])
      + ConnLines(table[1..], requester, now)
  }

  function Body(version: string, selfId: HostId, selfName: string, table: seq<PeerItem>, requester: HostId, now: i64): string {
    "netmap v=1\n" + (SelfLine(version, selfId, selfName) + "\n" + JoinLines(ConnLines(table, requester, now)))
  }

  lemma FormatLength(a: string, b: string, c: string, d: string, e: string, f: string, g: string)
    ensures |Format(a, b, c, d, e, f, g, "")| == 41 + |a| + |b| + |c| + |d| + |e| + |f| + |g|
  {}

  /** The formatted prefix is at most 158 bytes, so the buffer never cuts it. */
  lemma PrefixFits(item: PeerItem, requester: HostId, now: i64)
    ensures |Fields(item, requester, now, "")| <= 158
    ensures Printed(Fields(item, requester, now, "")) == Fields(item, requester, now, "")
  {
    DecimalWidth(IncomingCount(item, requester));
    DecimalWidth(item.outgoing);
    DecimalWidth(AgeSeconds(item, now));
    DecimalWidth(item.bytesSent);
    DecimalWidth(item.bytesReceived);
    NameWidths(item);
    FormatLength(Decimal(IncomingCount(item, requester)), Decimal(item.outgoing), StateName(item.state),
                 Decimal(AgeSeconds(item, now)), Decimal(item.bytesSent), Decimal(item.bytesReceived), OsName(item.os));
  }

  lemma NameWidths(item: PeerItem)
    ensures |StateName(item.state)| <= 10 && |OsName(item.os)| <= 7
  {}

  lemma DecimalWidth(n: u64)
    ensures |Decimal(n)| <= 20
  {
    assert Pow10(20) == 100_000_000_000_000_000_000 by {
      assert Pow10(5) == 100_000;
      assert Pow10(10) == 10_000_000_000;
      assert Pow10(15) == 1_000_000_000_000_000;
    }
    DecimalLength(n, 20);
  }

  // ---- Parsing ----

  const NO_CONNECTION := MapConnection(0, 0, "", 0, 0, 0, "", "", "")

  function Prefix8(s: string): string {
    if |s| <= 8 then s else s[..8]
  }

  function SetField(c: MapConnection, f: Field): MapConnection {
    var (key, value) := f;
    if key == "in" then c.(inCount := ParseU64(value))
    else if key == "out" then c.(outCount := ParseU64(value))
    else if key == "state" then c.(state := value)
    else if key == "age" then c.(age := ParseU64(value))
    else if key == "tx" then c.(tx := ParseU64(value))
    else if key == "rx" then c.(rx := ParseU64(value))
    else if key == "os" then c.(os := value)
    else if key == "id" then c.(idPrefix := Prefix8(value))
    else if key == "name" then c.(name := Scrub(value))
    else c
  }

  function SetFields(c: MapConnection, fields: seq<Field>): MapConnection
    decreases |fields|
  {
    if fields == [] then c else SetFields(SetField(c, fields[0]), fields[1..])
  }

  function SetSelf(r: Report, f: Field): Report {
    if f.0 == "ver" then r.(version := f.1)
    else if f.0 == "name" && f.1 != "" then r.(name := Scrub(f.1))
    else r
  }

  function SetSelfs(r: Report, fields: seq<Field>): Report
    decreases |fields|
  {
    if fields == [] then r else SetSelfs(SetSelf(r, fields[0]), fields[1..])
  }

  function Add64(a: u64, b: u64): u64 {
    (a + b) % 0x1_0000_0000_0000_0000
  }

  function AddConn(r: Report, c: MapConnection): Report {
    r.(totalIn := Add64(r.totalIn, c.inCount), totalOut := Add64(r.totalOut, c.outCount), conns := r.conns + [c])
  }

  /** One line; nothing more is read when the first one is not a header. `ok` is whether a header was seen. */
  datatype Reading = Reading(report: Report, stopped: bool)

  function ReadLine(r: Reading, line: string): Reading {
    if r.stopped || line == "" then r
    else
      var space := Find(line, ' ');
      var tag := line[..space];
      var tail := if space == |line| then "" else line[space + 1..];
      if tag == "netmap" then r.(report := r.report.(ok := true))
      else if !r.report.ok then r.(stopped := true)
      else if tag == "self" then r.(report := SetSelfs(r.report, ParseFields(tail)))
      else if tag == "conn" then r.(report := AddConn(r.report, SetFields(NO_CONNECTION, ParseFields(tail))))
      else r
  }

  function ReadLines(r: Reading, lines: seq<string>): Reading
    decreases |lines|
  {
    if lines == [] then r else ReadLines(ReadLine(r, lines[0]), lines[1..])
  }

  function ReadBody(name: string, body: string): Report {
    ReadLines(Reading(Report(false, "", name, 0, 0, []), false), SplitLines(body)).report
  }

  // ---- The inverse ----

  /** What the reader should show for an entry of the table. */
  function Entry(item: PeerItem, requester: HostId, now: i64): MapConnection {
    MapConnection(IncomingCount(item, requester), item.outgoing, StateName(item.state), AgeSeconds(item, now),
                  item.bytesSent, item.bytesReceived, OsName(item.os), Prefix8(Hex(item.hostId)), Scrub(item.hostName))
  }

  /** The report of a table: an entry for every host shown, in order, and their sums modulo 2^64. */
  function AddEntries(r: Report, table: seq<PeerItem>, requester: HostId, now: i64): Report
    decreases |table|
  {
    if table == [] then r
    else AddEntries(AddEntry(r, table[0], requester, now), table[1..], requester, now)
  }

  function AddEntry(r: Report, item: PeerItem, requester: HostId, now: i64): Report {
    if Shown(item, requester) then AddConn(r, Entry(item, requester, now)) else r
  }

  /** Printing the fields and then `rest` is printing them in front of `rest`. */
  lemma FormatAppend(a: string, b: string, c: string, d: string, e: string, f: string, g: string, rest: string)
    ensures Format(a, b, c, d, e, f, g, "") + rest == Format(a, b, c, d, e, f, g, rest)
  {}

  /** A field that does not start its record is preceded by a space. */
  lemma Spaced(tag: string, spaced: string, value: string, rest: string)
    requires spaced == " " + tag
    ensures Labeled(spaced, value, rest) == " " + Labeled(tag, value, rest)
  {}

  lemma ReadField(c: MapConnection, key: string, tag: string, value: string, y: string, rest: string)
    requires IsKey(key) && tag == key + "=" && ' ' !in value && y == " " + rest
    ensures SetFields(c, ParseFields(Labeled(tag, value, y))) == SetFields(SetField(c, (key, value)), ParseFields(rest))
  {
    ParseLabeled(key, value, rest);
    var fields := [(key, value)] + ParseFields(rest);
    assert fields[0] == (key, value) && fields[1..] == ParseFields(rest);
  }

  /** Two fields with any keys. */
  lemma ReadTwo(c: MapConnection, k1: string, t1: string, v1: string, k2: string, t2: string, s2: string, v2: string,
                y: string, rest: string)
    requires IsKey(k1) && t1 == k1 + "=" && ' ' !in v1
    requires IsKey(k2) && t2 == k2 + "=" && s2 == " " + t2 && ' ' !in v2 && y == " " + rest
    ensures SetFields(c, ParseFields(Labeled(t1, v1, Labeled(s2, v2, y))))
         == SetFields(SetField(SetField(c, (k1, v1)), (k2, v2)), ParseFields(rest))
  {
    Spaced(t2, s2, v2, y);
    ReadField(c, k1, t1, v1, Labeled(s2, v2, y), Labeled(t2, v2, y));
    ReadField(SetField(c, (k1, v1)), k2, t2, v2, y, rest);
  }

  lemma ReadInOut(c: MapConnection, a: string, b: string, y: string, rest: string)
    requires ' ' !in a && ' ' !in b && y == " " + rest
    ensures SetFields(c, ParseFields(Labeled("in=", a, Labeled(" out=", b, y))))
         == SetFields(c.(inCount := ParseU64(a), outCount := ParseU64(b)), ParseFields(rest))
  {
    ReadTwo(c, "in", "in=", a, "out", "out=", " out=", b, y, rest);
  }

  lemma ReadStateAge(c: MapConnection, a: string, b: string, y: string, rest: string)
    requires ' ' !in a && ' ' !in b && y == " " + rest
    ensures SetFields(c, ParseFields(Labeled("state=", a, Labeled(" age=", b, y))))
         == SetFields(c.(state := a, age := ParseU64(b)), ParseFields(rest))
  {
    ReadTwo(c, "state", "state=", a, "age", "age=", " age=", b, y, rest);
  }

  lemma ReadTraffic(c: MapConnection, a: string, b: string, y: string, rest: string)
    requires ' ' !in a && ' ' !in b && y == " " + rest
    ensures SetFields(c, ParseFields(Labeled("tx=", a, Labeled(" rx=", b, y))))
         == SetFields(c.(tx := ParseU64(a), rx := ParseU64(b)), ParseFields(rest))
  {
    ReadTwo(c, "tx", "tx=", a, "rx", "rx=", " rx=", b, y, rest);
  }

  lemma ReadOsId(c: MapConnection, a: string, b: string, y: string, rest: string)
    requires ' ' !in a && ' ' !in b && y == " " + rest
    ensures SetFields(c, ParseFields(Labeled("os=", a, Labeled(" id=", b, y))))
         == SetFields(c.(os := a, idPrefix := Prefix8(b)), ParseFields(rest))
  {
    ReadTwo(c, "os", "os=", a, "id", "id=", " id=", b, y, rest);
  }

  lemma ReadName(c: MapConnection, name: string)
    ensures SetFields(c, ParseFields("name=" + name)) == c.(name := Scrub(name))
  {}

  predicate NoSpace(s: string) {
    ' ' !in s
  }

  /** A connection line after its tag, from the strings it is made of. */
  function Tail(a: string, b: string, c: string, d: string, e: string, f: string, g: string, h: string, name: string): string {
    Labeled("in=", a, Labeled(" out=", b, Labeled(" state=", c, Labeled(" age=", d,
      Labeled(" tx=", e, Labeled(" rx=", f, Labeled(" os=", g, Labeled(" id=", h, " name=" + name))))))))
  }

  /** Its nine fields, read back in order. */
  lemma ReadTail(a: string, b: string, c: string, d: string, e: string, f: string, g: string, h: string, name: string)
    requires NoSpace(a) && NoSpace(b) && NoSpace(c) && NoSpace(d) && NoSpace(e) && NoSpace(f) && NoSpace(g) && NoSpace(h)
    ensures SetFields(NO_CONNECTION, ParseFields(Tail(a, b, c, d, e, f, g, h, name)))
         == MapConnection(ParseU64(a), ParseU64(b), c, ParseU64(d), ParseU64(e), ParseU64(f), g, Prefix8(h), Scrub(name))
  {
    var y4, r4 := " name=" + name, "name=" + name;
    assert y4 == " " + r4;
    var y3, r3 := Labeled(" os=", g, Labeled(" id=", h, y4)), Labeled("os=", g, Labeled(" id=", h, y4));
    Spaced("os=", " os=", g, Labeled(" id=", h, y4));
    var y2, r2 := Labeled(" tx=", e, Labeled(" rx=", f, y3)), Labeled("tx=", e, Labeled(" rx=", f, y3));
    Spaced("tx=", " tx=", e, Labeled(" rx=", f, y3));
    var y1, r1 := Labeled(" state=", c, Labeled(" age=", d, y2)), Labeled("state=", c, Labeled(" age=", d, y2));
    Spaced("state=", " state=", c, Labeled(" age=", d, y2));
    var c1 := NO_CONNECTION.(inCount := ParseU64(a), outCount := ParseU64(b));
    var c2 := c1.(state := c, age := ParseU64(d));
    var c3 := c2.(tx := ParseU64(e), rx := ParseU64(f));
    var c4 := c3.(os := g, idPrefix := Prefix8(h));
    ReadInOut(NO_CONNECTION, a, b, y1, r1);
    ReadStateAge(c1, c, d, y2, r2);
    ReadTraffic(c2, e, f, y3, r3);
    ReadOsId(c3, g, h, y4, r4);
    ReadName(c4, name);
  }

  /** The tail of an entry's line. */
  function ConnTail(item: PeerItem, requester: HostId, now: i64): string {
    Tail(Decimal(IncomingCount(item, requester)), Decimal(item.outgoing), StateName(item.state),
         Decimal(AgeSeconds(item, now)), Decimal(item.bytesSent), Decimal(item.bytesReceived), OsName(item.os),
         Hex(item.hostId), Scrub(item.hostName))
  }

  lemma FormatIsTail(a: string, b: string, c: string, d: string, e: string, f: string, g: string, h: string, name: string)
    ensures Format(a, b, c, d, e, f, g, h + " name=" + name) == "conn" + " " + Tail(a, b, c, d, e, f, g, h, name)
  {}

  lemma ConnLineIs(item: PeerItem, requester: HostId, now: i64)
    ensures ConnLine(item, requester, now) == "conn" + " " + ConnTail(item, requester, now)
  {
    var a, b, c := Decimal(IncomingCount(item, requester)), Decimal(item.outgoing), StateName(item.state);
    var d, e, f, g := Decimal(AgeSeconds(item, now)), Decimal(item.bytesSent), Decimal(item.bytesReceived), OsName(item.os);
    var h, name := Hex(item.hostId), Scrub(item.hostName);
    PrefixFits(item, requester, now);
    FormatAppend(a, b, c, d, e, f, g, h + " name=" + name);
    FormatIsTail(a, b, c, d, e, f, g, h, name);
    Sequences.Regroup4(Format(a, b, c, d, e, f, g, ""), h, " name=", name);
  }

  lemma NoSpaces(item: PeerItem, n: nat)
    ensures NoSpace(Decimal(n)) && NoSpace(StateName(item.state)) && NoSpace(OsName(item.os)) && NoSpace(Hex(item.hostId))
  {}

  /** A connection line reads back as its entry. */
  lemma ReadConn(item: PeerItem, requester: HostId, now: i64)
    ensures SetFields(NO_CONNECTION, ParseFields(ConnTail(item, requester, now))) == Entry(item, requester, now)
  {
    var inCount, age := IncomingCount(item, requester), AgeSeconds(item, now);
    NoSpaces(item, inCount);
    NoSpaces(item, item.outgoing);
    NoSpaces(item, age);
    NoSpaces(item, item.bytesSent);
    NoSpaces(item, item.bytesReceived);
    ParseDecimal(inCount);
    ParseDecimal(item.outgoing);
    ParseDecimal(age);
    ParseDecimal(item.bytesSent);
    ParseDecimal(item.bytesReceived);
    ReadTail(Decimal(inCount), Decimal(item.outgoing), StateName(item.state), Decimal(age), Decimal(item.bytesSent),
             Decimal(item.bytesReceived), OsName(item.os), Hex(item.hostId), Scrub(item.hostName));
    ScrubFacts(item.hostName);
  }

  lemma SplitTag(tag: string, tail: string)
    requires ' ' !in tag
    ensures var line := tag + " " + tail;
      var space := Find(line, ' ');
      space < |line| && line[..space] == tag && line[space + 1..] == tail
  {
    FindAt(tag, ' ', tail);
  }

  lemma ReadConnLine(r: Reading, item: PeerItem, requester: HostId, now: i64)
    requires r.report.ok && !r.stopped
    ensures ReadLine(r, ConnLine(item, requester, now)) == r.(report := AddConn(r.report, Entry(item, requester, now)))
  {
    ConnLineIs(item, requester, now);
    ReadConnTag(r, ConnTail(item, requester, now));
    ReadConn(item, requester, now);
  }

  lemma ReadConnTag(r: Reading, tail: string)
    requires r.report.ok && !r.stopped
    ensures ReadLine(r, "conn" + " " + tail)
         == r.(report := AddConn(r.report, SetFields(NO_CONNECTION, ParseFields(tail))))
  {
    SplitTag("conn", tail);
  }

  lemma {:induction false} ReadConnLines(r: Reading, table: seq<PeerItem>, requester: HostId, now: i64)
    requires r.report.ok && !r.stopped
    ensures ReadLines(r, ConnLines(table, requester, now)) == r.(report := AddEntries(r.report, table, requester, now))
    decreases |table|
  {
    if table != [] {
      var rest := ConnLines(table[1..], requester, now);
      if Shown(table[0], requester) {
        ReadConnLine(r, table[0], requester, now);
        var line := ConnLine(table[0], requester, now);
        assert ([line] + rest)[0] == line && ([line] + rest)[1..] == rest;
        ReadConnLines(r.(report := AddConn(r.report, Entry(table[0], requester, now))), table[1..], requester, now);
      } else {
        assert [] + rest == rest;
        ReadConnLines(r, table[1..], requester, now);
      }
    }
  }

  // ---- The self line ----

  lemma ReadSelfTag(r: Reading, tail: string)
    requires r.report.ok && !r.stopped
    ensures ReadLine(r, "self" + " " + tail) == r.(report := SetSelfs(r.report, ParseFields(tail)))
  {
    SplitTag("self", tail);
  }

  lemma ReadSelfField(r: Report, key: string, tag: string, value: string, y: string, rest: string)
    requires IsKey(key) && tag == key + "=" && ' ' !in value && y == " " + rest
    ensures SetSelfs(r, ParseFields(Labeled(tag, value, y))) == SetSelfs(SetSelf(r, (key, value)), ParseFields(rest))
  {
    ParseLabeled(key, value, rest);
    var fields := [(key, value)] + ParseFields(rest);
    assert fields[0] == (key, value) && fields[1..] == ParseFields(rest);
  }

  lemma ReadSelfTail(r: Report, version: string, hex: string, name: string)
    requires NoSpace(version) && NoSpace(hex)
    ensures SetSelfs(r, ParseFields(Labeled("ver=", version, Labeled(" id=", hex, " name=" + name))))
         == r.(version := version, name := if name == "" then r.name else Scrub(name))
  {
    var y, rest := " name=" + name, "name=" + name;
    assert y == " " + rest;
    Spaced("id=", " id=", hex, y);
    ReadSelfField(r, "ver", "ver=", version, Labeled(" id=", hex, y), Labeled("id=", hex, y));
    ReadSelfField(r.(version := version), "id", "id=", hex, y, rest);
    ReadSelfName(r.(version := version), name);
  }

  lemma ReadSelfName(r: Report, name: string)
    ensures SetSelfs(r, ParseFields("name=" + name)) == r.(name := if name == "" then r.name else Scrub(name))
  {}

  /** The reader's name for the device: the one it reports, unless that is empty. */
  function Renamed(name: string, selfName: string): string {
    if Scrub(selfName) == "" then name else Scrub(selfName)
  }

  lemma ReadSelfLine(r: Reading, version: string, selfId: HostId, selfName: string)
    requires r.report.ok && !r.stopped && ' ' !in version
    ensures ReadLine(r, SelfLine(version, selfId, selfName))
         == r.(report := r.report.(version := version, name := Renamed(r.report.name, selfName)))
  {
    var name, hex := Scrub(selfName), Hex(selfId);
    SelfLineIs(version, hex, name);
    ReadSelfTag(r, Labeled("ver=", version, Labeled(" id=", hex, " name=" + name)));
    ReadSelfTail(r.report, version, hex, name);
    ScrubFacts(selfName);
  }

  lemma SelfLineIs(version: string, hex: string, name: string)
    ensures "self ver=" + version + " id=" + hex + " name=" + name
         == "self" + " " + Labeled("ver=", version, Labeled(" id=", hex, " name=" + name))
  {}

  // ---- The whole report ----

  lemma FormatClean(a: string, b: string, c: string, d: string, e: string, f: string, g: string)
    requires '\n' !in a && '\n' !in b && '\n' !in c && '\n' !in d && '\n' !in e && '\n' !in f && '\n' !in g
    ensures '\n' !in Format(a, b, c, d, e, f, g, "")
  {}

  lemma NoNewline(item: PeerItem, requester: HostId, now: i64)
    ensures '\n' !in ConnLine(item, requester, now)
  {
    ScrubFacts(item.hostName);
    FormatClean(Decimal(IncomingCount(item, requester)), Decimal(item.outgoing), StateName(item.state),
                Decimal(AgeSeconds(item, now)), Decimal(item.bytesSent), Decimal(item.bytesReceived), OsName(item.os));
    PrefixFits(item, requester, now);
    TailClean(Fields(item, requester, now, ""), Hex(item.hostId), Scrub(item.hostName));
  }

  lemma TailClean(p: string, h: string, n: string)
    requires '\n' !in p && '\n' !in h && '\n' !in n
    ensures '\n' !in p + h + " name=" + n
  {}

  lemma SelfLineClean(version: string, selfId: HostId, selfName: string)
    requires '\n' !in version
    ensures '\n' !in SelfLine(version, selfId, selfName)
  {
    ScrubFacts(selfName);
    TailClean("self ver=" + version + " id=", Hex(selfId), Scrub(selfName));
  }

  lemma {:induction false} NoNewlines(table: seq<PeerItem>, requester: HostId, now: i64)
    ensures forall l | l in ConnLines(table, requester, now) :: '\n' !in l
  {
    if table != [] {
      NoNewlines(table[1..], requester, now);
      NoNewline(table[0], requester, now);
    }
  }

  /**
   Printing and reading are inverse: for every table, the report reads back as one entry for
   each host shown, with its counts, state, age, traffic, system, identity and scrubbed name,
   and the sums of its counts.
   */
  lemma ReadUndoesPrint(name: string, version: string, selfId: HostId, selfName: string,
                        table: seq<PeerItem>, requester: HostId, now: i64)
    requires ' ' !in version && '\n' !in version
    ensures ReadBody(name, Body(version, selfId, selfName, table, requester, now))
         == AddEntries(Report(true, version, Renamed(name, selfName), 0, 0, []), table, requester, now)
  {
    var lines := ConnLines(table, requester, now);
    var self := SelfLine(version, selfId, selfName);
    NoNewlines(table, requester, now);
    SelfLineClean(version, selfId, selfName);
    BodyIsJoined(version, selfId, selfName, table, requester, now);
    AllClean(self, lines);
    SplitJoined([HEADER, self] + lines);
    var r1 := Reading(Report(true, "", name, 0, 0, []), false);
    ReadHeader(name, self, lines);
    ReadSelfLine(r1, version, selfId, selfName);
    ReadConnLines(ReadLine(r1, self), table, requester, now);
  }

  const HEADER := "netmap v=1"

  lemma AllClean(self: string, lines: seq<string>)
    requires '\n' !in self && forall l | l in lines :: '\n' !in l
    ensures forall l | l in [HEADER, self] + lines :: '\n' !in l
  {}

  lemma ReadHeader(name: string, self: string, lines: seq<string>)
    ensures var r0, r1 := Reading(Report(false, "", name, 0, 0, []), false), Reading(Report(true, "", name, 0, 0, []), false);
      ReadLines(r0, [HEADER, self] + lines) == ReadLines(ReadLine(r1, self), lines)
  {
    var r0, r1 := Reading(Report(false, "", name, 0, 0, []), false), Reading(Report(true, "", name, 0, 0, []), false);
    HeaderLine(r0);
    assert ([HEADER, self] + lines)[1..] == [self] + lines && ([self] + lines)[1..] == lines;
  }

  lemma HeaderLine(r: Reading)
    requires !r.stopped
    ensures ReadLine(r, HEADER) == r.(report := r.report.(ok := true))
  {
    SplitTag("netmap", "v=1");
    assert HEADER == "netmap" + " " + "v=1";
  }

  lemma BodyIsJoined(version: string, selfId: HostId, selfName: string, table: seq<PeerItem>, requester: HostId, now: i64)
    ensures Body(version, selfId, selfName, table, requester, now)
         == JoinLines([HEADER, SelfLine(version, selfId, selfName)] + ConnLines(table, requester, now))
  {}

  // ---- The loops ----

  lemma JoinFirst(line: string, rest: seq<string>)
    ensures JoinLines([line] + rest) == line + "\n" + JoinLines(rest)
  {}

  lemma ConnLinesStep(table: seq<PeerItem>, i: nat, requester: HostId, now: i64)
    requires i < |table|
    ensures JoinLines(ConnLines(table[i..], requester, now))
         == (if Shown(table[i], requester) then ConnLine(table[i], requester, now) + "\n" else "")
            + JoinLines(ConnLines(table[i + 1..], requester, now))
  {
    assert table[i..][1..] == table[i + 1..];
    var rest := ConnLines(table[i + 1..], requester, now);
    if Shown(table[i], requester) {
      JoinFirst(ConnLine(table[i], requester, now), rest);
    } else {
      assert [] + rest == rest;
    }
  }

  lemma Longer(report: string, line: string, rest: string)
    ensures report + (line + "\n" + rest) == report + line + "\n" + rest
    ensures report + ("" + rest) == report + rest
  {}

  /** The responder: the report grows line by line. */
  method PrintReport(version: string, selfId: HostId, selfName: string, table: seq<PeerItem>, requester: HostId, now: i64)
    returns (report: string)
    ensures report == Body(version, selfId, selfName, table, requester, now)
  {
    ghost var whole := Body(version, selfId, selfName, table, requester, now);
    var selfHex := ToHexString(selfId);
    report := "netmap v=1\n";
    report := report + ("self ver=" + version + " id=" + selfHex + " name=" + Scrub(selfName)) + "\n";
    StartOfBody(version, selfId, selfName, table, requester, now);
    for i := 0 to |table|
      invariant report + JoinLines(ConnLines(table[i..], requester, now)) == whole
    {
      ConnLinesStep(table, i, requester, now);
      var item := table[i];
      ghost var rest := JoinLines(ConnLines(table[i + 1..], requester, now));
      var inCount := item.incoming;
      if item.hostId == requester && inCount > 0 {
        inCount := inCount - 1;
      }
      if inCount == 0 && item.outgoing == 0 {
        Longer(report, "", rest);
        continue;
      }
      var line := FormatConn(item, requester, now);
      Longer(report, line, rest);
      report := report + line + "\n";
    }
    assert JoinLines(ConnLines(table[|table|..], requester, now)) == "";
    assert report + "" == report;
  }

  lemma StartOfBody(version: string, selfId: HostId, selfName: string, table: seq<PeerItem>, requester: HostId, now: i64)
    ensures "netmap v=1\n" + SelfLine(version, selfId, selfName) + "\n" + JoinLines(ConnLines(table[0..], requester, now))
         == Body(version, selfId, selfName, table, requester, now)
  {
    assert table[0..] == table;
    var self, rest := SelfLine(version, selfId, selfName), JoinLines(ConnLines(table, requester, now));
    Longer("netmap v=1\n", self, rest);
  }

  method FormatConn(item: PeerItem, requester: HostId, now: i64) returns (line: string)
    ensures line == ConnLine(item, requester, now)
  {
    var hex := ToHexString(item.hostId);
    line := Printed(Fields(item, requester, now, ""));
    line := line + hex;
    line := line + " name=" + Scrub(item.hostName);
    Sequences.Regroup4(Printed(Fields(item, requester, now, "")), hex, " name=", Scrub(item.hostName));
  }

  method ReadConnFields(fields: seq<Field>) returns (conn: MapConnection)
    ensures conn == SetFields(NO_CONNECTION, fields)
  {
    conn := NO_CONNECTION;
    assert fields[0..] == fields;
    for i := 0 to |fields|
      invariant SetFields(conn, fields[i..]) == SetFields(NO_CONNECTION, fields)
    {
      assert fields[i..][1..] == fields[i + 1..];
      conn := SetField(conn, fields[i]);
    }
  }

  method ReadSelfFields(report: Report, fields: seq<Field>) returns (r: Report)
    ensures r == SetSelfs(report, fields)
  {
    r := report;
    assert fields[0..] == fields;
    for i := 0 to |fields|
      invariant SetSelfs(r, fields[i..]) == SetSelfs(report, fields)
    {
      assert fields[i..][1..] == fields[i + 1..];
      r := SetSelf(r, fields[i]);
    }
  }

  method ReadOneLine(r: Reading, line: string) returns (next: Reading)
    requires !r.stopped
    ensures next == ReadLine(r, line)
  {
    if line == "" {
      return r;
    }
    var space := FindFrom(line, ' ', 0);
    assert line[0..] == line;
    var tag := line[..space];
    var tail := if space == |line| then "" else line[space + 1..];
    if tag == "netmap" {
      return r.(report := r.report.(ok := true));
    }
    if !r.report.ok {
      return r.(stopped := true);
    }
    if tag == "self" {
      var fields := ParseReportFields(tail);
      var report := ReadSelfFields(r.report, fields);
      return r.(report := report);
    }
    if tag == "conn" {
      var fields := ParseReportFields(tail);
      var conn := ReadConnFields(fields);
      return r.(report := AddConn(r.report, conn));
    }
    return r;
  }

  lemma {:induction false} StoppedReads(r: Reading, lines: seq<string>)
    requires r.stopped
    ensures ReadLines(r, lines) == r
    decreases |lines|
  {
    if lines != [] {
      StoppedReads(r, lines[1..]);
    }
  }

  lemma LineStep(r: Reading, body: string, start: nat, end: nat)
    requires start < |body| && start <= end <= |body| && end == start + Find(body[start..], '\n')
    ensures ReadLines(r, SplitLines(body[start..]))
         == ReadLines(ReadLine(r, body[start..end]), SplitLines(body[if end == |body| then |body| else end + 1..]))
  {
    var rest := body[start..];
    assert rest[..end - start] == body[start..end];
    var lines := SplitLines(rest);
    if end == |body| {
      assert body[|body|..] == "";
      assert lines == [body[start..end]] + [];
      assert lines[1..] == [];
    } else {
      assert rest[end - start + 1..] == body[end + 1..];
      assert lines == [body[start..end]] + SplitLines(body[end + 1..]);
      assert lines[1..] == SplitLines(body[end + 1..]);
    }
  }

  /** The reader: one line at a time, until something that is not a report shows. */
  method ReadReport(name: string, body: string) returns (report: Report)
    ensures report == ReadBody(name, body)
  {
    var r := Reading(Report(false, "", name, 0, 0, []), false);
    ghost var start := r;
    var lineStart := 0;
    assert body[0..] == body;
    while lineStart < |body|
      invariant 0 <= lineStart <= |body| && !r.stopped
      invariant ReadLines(r, SplitLines(body[lineStart..])) == ReadLines(start, SplitLines(body))
    {
      var lineEnd := FindFrom(body, '\n', lineStart);
      LineStep(r, body, lineStart, lineEnd);
      r := ReadOneLine(r, body[lineStart..lineEnd]);
      lineStart := if lineEnd == |body| then |body| else lineEnd + 1;
      if r.stopped {
        StoppedReads(r, SplitLines(body[lineStart..]));
        return r.report;
      }
    }
    assert body[|body|..] == "";
    report := r.report;
  }
}
