/** The 252-byte command packets: what sendPacket writes, at an advancing offset into a
    zeroed array, and what readPacket makes of a datagram.  Four-byte fields are stored as
    they lie in memory, low byte first; floats are carried as their bit patterns.
 */
module Packets {
  import opened Words

  const PACKET_SIZE := 252
  const MAGIC: seq<Byte> := [73, 78, 71, 86, 0]       // "INGV\0"
  const SOFTWARE_VERSION: Quad := [50, 46, 49, 53]    // "2.15"

  type Quad = s: seq<Byte> | |s| == 4 witness [0, 0, 0, 0]
  type Mac = s: seq<Byte> | |s| == 6 witness [0, 0, 0, 0, 0, 0]

  const DISCOVERY: Byte := 1
  const DISCOVERY_REPLY: Byte := 2
  const PING: Byte := 3
  const PONG: Byte := 4
  const SENDGPS: Byte := 7
  const OK: Byte := 8
  const SETSYSLOG: Byte := 9
  const REBOOT: Byte := 10
  const GETINFO: Byte := 11
  const GETINFO_REPLY: Byte := 12

  /** The fields of a GETINFO reply. */
  datatype Info = Info(mac: Mac, syslogServer: Word32, threshold: Word32, uptime: Word32, unixts: Word32,
                       softwareVersion: Quad, freeRam: Word32, latency: Word32, ntpServer: Word32,
                       httpBaseAddress: seq<Byte>, platformName: seq<Byte>, accelerometerName: seq<Byte>,
                       statProbeSpeed: Word32)

  /** What can be sent: a discovery reply, a GETINFO reply, or a bare type. */
  datatype Outgoing = Discovery(mac: Mac, tag: seq<Byte>) | InfoReply(info: Info) | Bare(ty: Byte)
  {
    function Type(): Byte {
      match this
      case Discovery(_, _) => DISCOVERY_REPLY
      case InfoReply(_) => GETINFO_REPLY
      case Bare(t) => t
    }
  }

  // ----- words and strings in memory -----

  function Store32(w: Word32): Quad {
    [w % 256, w / 0x100 % 256, w / 0x1_0000 % 256, w / 0x100_0000]
  }

  function Load32(q: Quad): Word32 {
    q[0] as int + 0x100 * (q[1] as int) + 0x1_0000 * (q[2] as int) + 0x100_0000 * (q[3] as int)
  }

  lemma LoadStore(w: Word32)
    ensures Load32(Store32(w)) == w
  {
    assert w / 0x1_0000 == w / 0x100 / 0x100 && w / 0x100_0000 == w / 0x1_0000 / 0x100;
  }

  function Zeros(n: nat): (z: seq<Byte>)
    ensures |z| == n && forall i :: 0 <= i < n ==> z[i] == 0
  {
    seq(n, _ => 0)
  }

  function Min(a: nat, b: nat): nat {
    if a < b then a else b
  }

  /** The C string at the start of s. */
  function CString(s: seq<Byte>): (t: seq<Byte>)
    ensures t <= s && 0 !in t && (|t| < |s| ==> s[|t|] == 0)
  {
    UpTo(s, 0)
  }

  /** The n bytes that strncpy writes for s.c_str(). */
  function StrncpyBytes(s: seq<Byte>, n: nat): (b: seq<Byte>)
    ensures |b| == n
  {
    var c := CString(s);
    if |c| >= n then c[..n] else c + Zeros(n - |c|)
  }

  /** The bytes that stay of a string field: its cut length and one byte more. */
  function StringField(s: seq<Byte>, n: nat): (b: seq<Byte>)
    ensures |b| == Min(|s|, n) + 1
  {
    StrncpyBytes(s, n)[..Min(|s|, n)] + [0]
  }

  // ----- the layout -----

  /** Fields of fixed width before the strings: 38 bytes. */
  function AppendNumbers(out: seq<Byte>, i: Info): (b: seq<Byte>)
    ensures |b| == |out| + 38
  {
    out + i.mac + Store32(i.syslogServer) + Store32(i.threshold) + Store32(i.uptime) + Store32(i.unixts)
    + i.softwareVersion + Store32(i.freeRam) + Store32(i.latency) + Store32(i.ntpServer)
  }

  /** The strings, and the probe speed behind them. */
  function AppendStrings(out: seq<Byte>, i: Info): (b: seq<Byte>)
    ensures |b| <= |out| + 204
  {
    out + StringField(i.httpBaseAddress, 169) + StringField(i.platformName, 19)
    + StringField(i.accelerometerName, 9) + Store32(i.statProbeSpeed)
  }

  function Tag(tag: seq<Byte>): (b: seq<Byte>)
    ensures |b| <= 8
  {
    CString(tag)[..Min(|CString(tag)|, 8)]
  }

  /** The bytes of a packet up to the last field: at most 248. */
  function Layout(p: Outgoing): (b: seq<Byte>)
    ensures |b| <= 248
  {
    var head := MAGIC + [p.Type()];
    match p
    case Discovery(mac, tag) => head + mac + SOFTWARE_VERSION + Tag(tag)
    case InfoReply(i) => AppendStrings(AppendNumbers(head, i), i)
    case Bare(_) => head
  }

  /** A prefix followed by zeros up to the packet size. */
  function Framed(out: seq<Byte>): (b: seq<Byte>)
    requires |out| <= PACKET_SIZE
    ensures |b| == PACKET_SIZE
  {
    out + Zeros(PACKET_SIZE - |out|)
  }

  function Encode(p: Outgoing): (b: seq<Byte>)
    ensures |b| == PACKET_SIZE
  {
    Framed(Layout(p))
  }

  // ----- writing -----

  method Memcpy(buf: array<Byte>, offset: nat, src: seq<Byte>, ghost out: seq<Byte>)
    requires buf.Length == PACKET_SIZE && offset == |out| && |out| + |src| <= PACKET_SIZE
    requires buf[..] == Framed(out)
    modifies buf
    ensures buf[..] == Framed(out + src)
  {
    forall k | 0 <= k < |src| { buf[offset + k] := src[k]; }
  }

  method Strncpy(buf: array<Byte>, offset: nat, s: seq<Byte>, n: nat, ghost out: seq<Byte>)
    requires buf.Length == PACKET_SIZE && offset == |out| && |out| + n < PACKET_SIZE
    requires buf[..] == Framed(out)
    modifies buf
    ensures buf[..] == Framed(out + StringField(s, n))
  {
    ghost var before := buf[..];
    var src := StrncpyBytes(s, n);
    forall k | 0 <= k < n { buf[offset + k] := src[k]; }
    assert buf[..] == before[..offset] + src + before[offset + n..];
    StringFieldFits(s, n, out);
  }

  /** What strncpy pads beyond the cut length is zero already. */
  lemma StringFieldFits(s: seq<Byte>, n: nat, out: seq<Byte>)
    requires |out| + n < PACKET_SIZE
    ensures var f := Framed(out);
            f[..|out|] + StrncpyBytes(s, n) + f[|out| + n..] == Framed(out + StringField(s, n))
  {
    var src, m, o := StrncpyBytes(s, n), Min(|s|, n), |out|;
    assert forall k :: m <= k < n ==> src[k] == 0;
    var f, g, w := Framed(out), Framed(out + StringField(s, n)), StringField(s, n);
    var h := f[..o] + src + f[o + n..];
    assert forall k :: 0 <= k < o ==> h[k] == out[k] == g[k];
    assert forall k :: 0 <= k < m ==> w[k] == src[k];
    assert forall k :: 0 <= k < m + 1 ==> g[o + k] == w[k];
    assert forall k :: 0 <= k < n ==> h[o + k] == src[k];
    assert forall k :: o + m + 1 <= k < PACKET_SIZE ==> g[k] == 0;
    hide *;
    forall k | 0 <= k < PACKET_SIZE ensures h[k] == g[k] {
      if o <= k < o + n {
        assert h[o + (k - o)] == src[k - o];
        if k <= o + m { assert g[o + (k - o)] == w[k - o]; }
      }
    }
  }

  /** sendPacket: every write stays inside the array, at most 248 bytes are used, and the
      datagram is the layout. */
  method SendPacket(p: Outgoing) returns (sent: seq<Byte>)
    ensures sent == Encode(p)
  {
    var pktbuf := new Byte[PACKET_SIZE](_ => 0);
    EmptyFrame(pktbuf[..]);
    hide StringField, Store32, Framed, CString, AppendNumbers, AppendStrings, Tag;
    Memcpy(pktbuf, 0, MAGIC, []);
    assert [] + MAGIC == MAGIC;
    Memcpy(pktbuf, 5, [p.Type()], MAGIC);
    ghost var head := MAGIC + [p.Type()];
    match p {
      case Discovery(mac, tag) =>
        Memcpy(pktbuf, 6, mac, head);
        Memcpy(pktbuf, 12, SOFTWARE_VERSION, head + mac);
        Memcpy(pktbuf, 16, Tag(tag), head + mac + SOFTWARE_VERSION);
      case InfoReply(i) =>
        SendNumbers(pktbuf, i, head);
        SendStrings(pktbuf, i, AppendNumbers(head, i));
      case Bare(_) =>
    }
    sent := pktbuf[..];
  }

  lemma EmptyFrame(b: seq<Byte>)
    requires |b| == PACKET_SIZE && forall k :: 0 <= k < PACKET_SIZE ==> b[k] == 0
    ensures b == Framed([])
  {
  }

  method SendNumbers(pktbuf: array<Byte>, i: Info, ghost head: seq<Byte>)
    requires pktbuf.Length == PACKET_SIZE && |head| == 6 && pktbuf[..] == Framed(head)
    modifies pktbuf
    ensures pktbuf[..] == Framed(AppendNumbers(head, i))
  {
    hide Store32, Framed;
    var offset := 6;
    ghost var out := head;
    Memcpy(pktbuf, offset, i.mac, out);
    offset, out := offset + 6, out + i.mac;
    Memcpy(pktbuf, offset, Store32(i.syslogServer), out);
    offset, out := offset + 4, out + Store32(i.syslogServer);
    Memcpy(pktbuf, offset, Store32(i.threshold), out);
    offset, out := offset + 4, out + Store32(i.threshold);
    Memcpy(pktbuf, offset, Store32(i.uptime), out);
    offset, out := offset + 4, out + Store32(i.uptime);
    Memcpy(pktbuf, offset, Store32(i.unixts), out);
    offset, out := offset + 4, out + Store32(i.unixts);
    Memcpy(pktbuf, offset, i.softwareVersion, out);
    offset, out := offset + 4, out + i.softwareVersion;
    Memcpy(pktbuf, offset, Store32(i.freeRam), out);
    offset, out := offset + 4, out + Store32(i.freeRam);
    Memcpy(pktbuf, offset, Store32(i.latency), out);
    offset, out := offset + 4, out + Store32(i.latency);
    Memcpy(pktbuf, offset, Store32(i.ntpServer), out);
  }

  method SendStrings(pktbuf: array<Byte>, i: Info, ghost numbers: seq<Byte>)
    requires pktbuf.Length == PACKET_SIZE && |numbers| == 44 && pktbuf[..] == Framed(numbers)
    modifies pktbuf
    ensures pktbuf[..] == Framed(AppendStrings(numbers, i))
  {
    hide StringField, Store32, Framed;
    var offset := 44;
    ghost var out := numbers;
    Strncpy(pktbuf, offset, i.httpBaseAddress, 169, out);
    offset, out := offset + Min(|i.httpBaseAddress|, 169) + 1, out + StringField(i.httpBaseAddress, 169);
    Strncpy(pktbuf, offset, i.platformName, 19, out);
    offset, out := offset + Min(|i.platformName|, 19) + 1, out + StringField(i.platformName, 19);
    Strncpy(pktbuf, offset, i.accelerometerName, 9, out);
    offset, out := offset + Min(|i.accelerometerName|, 9) + 1, out + StringField(i.accelerometerName, 9);
    Memcpy(pktbuf, offset, Store32(i.statProbeSpeed), out);
  }

  // ----- reading a GETINFO reply back -----

  datatype Strings = Strings(http: seq<Byte>, platform: seq<Byte>, accelerometer: seq<Byte>, probeSpeed: Word32)

  datatype Split = Split(text: seq<Byte>, rest: seq<Byte>)

  /** A C string and what follows its NUL. */
  function TakeString(b: seq<Byte>): Option<Split> {
    var t := CString(b);
    if |t| == |b| then None else Some(Split(t, b[|t| + 1..]))
  }

  /** Three C strings one after the other, then the probe speed. */
  function DecodeStrings(b: seq<Byte>): Option<Strings> {
    match TakeString(b)
    case None => None
    case Some(http) =>
      match TakeString(http.rest)
      case None => None
      case Some(platform) =>
        match TakeString(platform.rest)
        case None => None
        case Some(accelerometer) =>
          if |accelerometer.rest| < 4 then None
          else Some(Strings(http.text, platform.text, accelerometer.text, Load32(accelerometer.rest[..4])))
  }

  /** A reader of the layout that sendPacket writes: numbers at fixed offsets, then strings. */
  function DecodeInfo(b: seq<Byte>): Option<Info> {
    if |b| != PACKET_SIZE || b[..5] != MAGIC || b[5] != GETINFO_REPLY then None
    else match DecodeStrings(b[44..])
      case None => None
      case Some(s) =>
        Some(Info(b[6..12], Load32(b[12..16]), Load32(b[16..20]), Load32(b[20..24]), Load32(b[24..28]), b[28..32],
                  Load32(b[32..36]), Load32(b[36..40]), Load32(b[40..44]),
                  s.http, s.platform, s.accelerometer, s.probeSpeed))
  }

  function CutTo(s: seq<Byte>, n: nat): seq<Byte> {
    s[..Min(|s|, n)]
  }

  function CutStrings(i: Info): Info {
    i.(httpBaseAddress := CutTo(i.httpBaseAddress, 169), platformName := CutTo(i.platformName, 19),
       accelerometerName := CutTo(i.accelerometerName, 9))
  }

  /** No NUL among the characters that fit. */
  predicate NulFree(i: Info) {
    && 0 !in CutTo(i.httpBaseAddress, 169)
    && 0 !in CutTo(i.platformName, 19)
    && 0 !in CutTo(i.accelerometerName, 9)
  }

  /** What a reader finds in a string field: the cut string up to its first NUL. */
  lemma FieldString(s: seq<Byte>, n: nat, rest: seq<Byte>)
    ensures var found, cut := TakeString(StringField(s, n) + rest), CutTo(s, n);
            && found.Some?
            && (0 !in cut ==> found == Some(Split(cut, rest)))
            && (0 in cut ==> found.value.text != cut)
  {
    var c, m, f := CString(s), Min(|s|, n), StringField(s, n);
    var t := if |c| >= m then CutTo(s, n) else c;
    assert forall k :: 0 <= k < |t| ==> t[k] == c[k] == s[k];
    assert forall k :: 0 <= k < m ==> f[k] == StrncpyBytes(s, n)[k];
    var g := f + rest;
    assert g[..|t|] == t && g[|t|] == 0;
    UpToIs(g, t, 0);
    if |c| < m {
      assert CutTo(s, n)[|c|] == 0;
    } else {
      assert g[|t| + 1..] == rest;
    }
  }

  /** The strings of a packet, and what precedes them. */
  lemma LayoutParts(i: Info)
    ensures var b := Encode(InfoReply(i));
            && b[..44] == AppendNumbers(MAGIC + [GETINFO_REPLY], i)
            && b[44..] == StringField(i.httpBaseAddress, 169) + (StringField(i.platformName, 19)
                            + (StringField(i.accelerometerName, 9)
                               + (Store32(i.statProbeSpeed) + b[|Layout(InfoReply(i))|..])))
  {
    hide AppendNumbers, Store32, StringField;
  }

  lemma NumbersReadBack(i: Info, b: seq<Byte>)
    requires b == AppendNumbers(MAGIC + [GETINFO_REPLY], i)
    ensures b[..5] == MAGIC && b[5] == GETINFO_REPLY && b[6..12] == i.mac
    ensures Load32(b[12..16]) == i.syslogServer && Load32(b[16..20]) == i.threshold && Load32(b[20..24]) == i.uptime
    ensures Load32(b[24..28]) == i.unixts && b[28..32] == i.softwareVersion && Load32(b[32..36]) == i.freeRam
    ensures Load32(b[36..40]) == i.latency && Load32(b[40..44]) == i.ntpServer
  {
    NumberSlices(i, b);
    hide Store32, Load32, AppendNumbers;
    LoadStore(i.syslogServer);
    LoadStore(i.threshold);
    LoadStore(i.uptime);
    LoadStore(i.unixts);
    LoadStore(i.freeRam);
    LoadStore(i.latency);
    LoadStore(i.ntpServer);
  }

  lemma NumberSlices(i: Info, b: seq<Byte>)
    requires b == AppendNumbers(MAGIC + [GETINFO_REPLY], i)
    ensures b[..5] == MAGIC && b[5] == GETINFO_REPLY && b[6..12] == i.mac
    ensures b[12..16] == Store32(i.syslogServer) && b[16..20] == Store32(i.threshold) && b[20..24] == Store32(i.uptime)
    ensures b[24..28] == Store32(i.unixts) && b[28..32] == i.softwareVersion && b[32..36] == Store32(i.freeRam)
    ensures b[36..40] == Store32(i.latency) && b[40..44] == Store32(i.ntpServer)
  {
    hide Store32;
  }

  /** Reading a GETINFO reply recovers every field, with the strings cut to 169, 19 and 9
      characters, exactly when no NUL is among the characters kept. */
  lemma InfoRoundTrip(i: Info)
    ensures DecodeInfo(Encode(InfoReply(i))) == Some(CutStrings(i)) <==> NulFree(i)
  {
    var b := Encode(InfoReply(i));
    LayoutParts(i);
    NumbersReadBack(i, b[..44]);
    SlicesOfPrefix(b);
    StringsReadBack(i);
    hide Load32, Encode, DecodeStrings, NulFree, AppendNumbers, StringField, Store32;
  }

  lemma StringsReadBack(i: Info)
    ensures var c := CutStrings(i);
            NulFree(i) <==> DecodeStrings(Encode(InfoReply(i))[44..])
                              == Some(Strings(c.httpBaseAddress, c.platformName, c.accelerometerName, i.statProbeSpeed))
  {
    hide StringField, Store32, Load32, CString, AppendNumbers, Encode, Layout, TakeString;
    LayoutParts(i);
    LoadStore(i.statProbeSpeed);
    var tail := Encode(InfoReply(i))[|Layout(InfoReply(i))|..];
    var r3 := Store32(i.statProbeSpeed) + tail;
    var r2 := StringField(i.accelerometerName, 9) + r3;
    var r1 := StringField(i.platformName, 19) + r2;
    assert r3[..4] == Store32(i.statProbeSpeed);
    FieldString(i.httpBaseAddress, 169, r1);
    FieldString(i.platformName, 19, r2);
    FieldString(i.accelerometerName, 9, r3);
  }

  lemma SlicesOfPrefix(b: seq<Byte>)
    requires |b| == PACKET_SIZE
    ensures b[..44][..5] == b[..5] && b[..44][6..12] == b[6..12]
    ensures b[..44][12..16] == b[12..16] && b[..44][16..20] == b[16..20]
    ensures b[..44][20..24] == b[20..24] && b[..44][24..28] == b[24..28] && b[..44][28..32] == b[28..32]
    ensures b[..44][32..36] == b[32..36] && b[..44][36..40] == b[36..40] && b[..44][40..44] == b[40..44]
  {
  }

  // ----- receiving -----

  /** What readPacket understands of a packet. */
  datatype Command =
    | SendGps(mac: Mac, latitude: Word32, longitude: Word32)
    | SetSyslog(server: Word32)
    | Plain(ty: Byte)
  {
    function Type(): Byte {
      match this
      case SendGps(_, _, _) => SENDGPS
      case SetSyslog(_) => SETSYSLOG
      case Plain(t) => t
    }
  }

  /** Utils::reverseFloat on a bit pattern. */
  function ReverseFloat(w: Word32): Word32 {
    var q := Store32(w);
    Load32([q[3], q[2], q[1], q[0]])
  }

  /** A datagram is cut to the buffer; only full packets with the magic bytes are taken. */
  function ReadPacket(datagram: seq<Byte>): Option<Command> {
    var b := CutTo(datagram, PACKET_SIZE);
    if |b| == PACKET_SIZE && b[..5] == MAGIC then
      if b[5] == SENDGPS then Some(SendGps(b[6..12], ReverseFloat(Load32(b[12..16])), ReverseFloat(Load32(b[16..20]))))
      else if b[5] == SETSYSLOG then Some(SetSyslog(Load32(b[6..10])))
      else Some(Plain(b[5]))
    else None
  }

  /** A client's SENDGPS packet: IEEE 754 values in network byte order. */
  function BigEndian(w: Word32): Quad {
    [w / 0x100_0000, w / 0x1_0000 % 256, w / 0x100 % 256, w % 256]
  }

  lemma GpsReadBack(mac: Mac, latitude: Word32, longitude: Word32, tail: seq<Byte>)
    requires |tail| >= PACKET_SIZE - 20
    ensures ReadPacket(MAGIC + [SENDGPS] + mac + BigEndian(latitude) + BigEndian(longitude) + tail)
         == Some(SendGps(mac, latitude, longitude))
  {
    var d := MAGIC + [SENDGPS] + mac + BigEndian(latitude) + BigEndian(longitude) + tail;
    var b := CutTo(d, PACKET_SIZE);
    hide BigEndian, Load32, Store32, ReverseFloat;
    var h6 := MAGIC + [SENDGPS];
    var h12 := h6 + mac;
    var h16 := h12 + BigEndian(latitude);
    var h20 := h16 + BigEndian(longitude);
    assert h20 <= b && h16 <= h20 && h12 <= h16 && h6 <= h12;
    PrefixSlice(b, h6, 0, 5);
    PrefixSlice(b, h6, 5, 6);
    PrefixSlice(b, h12, 6, 12);
    PrefixSlice(b, h16, 12, 16);
    PrefixSlice(b, h20, 16, 20);
    assert b[5] == b[5..6][0] == SENDGPS;
    assert b[..5] == b[0..5] == MAGIC && h12[6..12] == mac;
    assert h16[12..16] == BigEndian(latitude) && h20[16..20] == BigEndian(longitude);
    ReverseBigEndian(latitude);
    ReverseBigEndian(longitude);
  }

  lemma PrefixSlice(b: seq<Byte>, h: seq<Byte>, i: nat, j: nat)
    requires h <= b && i <= j <= |h|
    ensures b[i..j] == h[i..j]
  {
    assert b[..|h|][i..j] == b[i..j];
  }

  /** The syslog address is taken as it lies in memory, the way a GETINFO reply shows it. */
  lemma SyslogReadBack(server: Word32, tail: seq<Byte>)
    requires |tail| >= PACKET_SIZE - 10
    ensures ReadPacket(MAGIC + [SETSYSLOG] + Store32(server) + tail) == Some(SetSyslog(server))
  {
    var d := MAGIC + [SETSYSLOG] + Store32(server) + tail;
    var b, h6 := CutTo(d, PACKET_SIZE), MAGIC + [SETSYSLOG];
    var h10 := h6 + Store32(server);
    hide Load32, Store32, ReverseFloat;
    assert h10 <= b && h6 <= h10;
    PrefixSlice(b, h6, 0, 5);
    PrefixSlice(b, h6, 5, 6);
    PrefixSlice(b, h10, 6, 10);
    assert b[5] == b[5..6][0] == SETSYSLOG;
    assert b[..5] == b[0..5] == MAGIC && h10[6..10] == Store32(server);
    LoadStore(server);
  }

  lemma ReverseBigEndian(w: Word32)
    ensures ReverseFloat(Load32(BigEndian(w))) == w
  {
    var q := BigEndian(w);
    StoreLoad(q);
    LoadStore(w);
    assert [q[3], q[2], q[1], q[0]] == Store32(w);
    hide Load32, Store32;
  }

  lemma StoreLoad(q: Quad)
    ensures Store32(Load32(q)) == q
  {
    var w := Load32(q);
    assert w / 0x100 == q[1] as int + 0x100 * (q[2] as int) + 0x1_0000 * (q[3] as int);
    assert w / 0x1_0000 == q[2] as int + 0x100 * (q[3] as int);
  }

  /** A discovery reply shows the MAC, the version and the first eight characters of the tag. */
  lemma DiscoveryReadBack(mac: Mac, tag: seq<Byte>)
    ensures var b, t := Encode(Discovery(mac, tag)), CString(tag);
            && b[6..12] == mac && b[12..16] == SOFTWARE_VERSION
            && CString(b[16..]) == t[..Min(|t|, 8)]
  {
    var b, t := Encode(Discovery(mac, tag)), CString(tag);
    var c := t[..Min(|t|, 8)];
    var h6 := MAGIC + [DISCOVERY_REPLY];
    var h12 := h6 + mac;
    var h16 := h12 + SOFTWARE_VERSION;
    assert Layout(Discovery(mac, tag)) == h16 + c;
    assert h16 <= b && h12 <= h16;
    PrefixSlice(b, h12, 6, 12);
    PrefixSlice(b, h16, 12, 16);
    assert h12[6..12] == mac && h16[12..16] == SOFTWARE_VERSION;
    assert b[16..] == c + Zeros(PACKET_SIZE - 16 - |c|);
    assert b[16..][|c|] == 0;
    assert forall k :: 0 <= k < |c| ==> c[k] == t[k] && t[k] in t;
    UpToIs(b[16..], c, 0);
  }

  /** What one device sends, another reads as the same type. */
  lemma SentIsRead(p: Outgoing)
    requires p.Type() != SENDGPS && p.Type() != SETSYSLOG
    ensures ReadPacket(Encode(p)) == Some(Plain(p.Type()))
  {
    var b := Encode(p);
    EncodeHead(p);
    assert CutTo(b, PACKET_SIZE) == b;
    hide Encode, Load32, ReverseFloat;
  }

  lemma EncodeHead(p: Outgoing)
    ensures Encode(p)[..5] == MAGIC && Encode(p)[5] == p.Type()
  {
    hide Store32, StringField, Tag;
    var head := MAGIC + [p.Type()];
    assert head <= Layout(p);
    assert head <= Encode(p);
    assert Encode(p)[..6] == head;
  }

  // ----- packets by their bytes -----

  /** A four-byte field, low byte first. */
  function Word(b: seq<Byte>, k: nat): nat
    requires k + 4 <= |b|
  {
    b[k] as int + 0x100 * (b[k + 1] as int) + 0x1_0000 * (b[k + 2] as int) + 0x100_0000 * (b[k + 3] as int)
  }

  /** A four-byte field, high byte first. */
  function NetworkWord(b: seq<Byte>, k: nat): nat
    requires k + 4 <= |b|
  {
    0x100_0000 * (b[k] as int) + 0x1_0000 * (b[k + 1] as int) + 0x100 * (b[k + 2] as int) + b[k + 3] as int
  }

  /** A full packet, at least, that starts with "INGV" and a NUL. */
  predicate Magic(b: seq<Byte>) {
    |b| >= 252 && b[..5] == [73, 78, 71, 86, 0]
  }

  /** Exactly the full datagrams with the magic bytes are read: byte 5 is the type, a position comes
      in network byte order, a syslog address low byte first. */
  lemma ReadExactly(b: seq<Byte>)
    ensures ReadPacket(b).Some? <==> Magic(b)
    ensures Magic(b) ==>
              ReadPacket(b).value ==
                if b[5] == 7 then SendGps(b[6..12], NetworkWord(b, 12), NetworkWord(b, 16))
                else if b[5] == 9 then SetSyslog(Word(b, 6))
                else Plain(b[5])
  {
    var c := CutTo(b, PACKET_SIZE);
    if |b| >= PACKET_SIZE {
      assert c[..5] == b[..5] && c[5] == b[5] && c[6..12] == b[6..12] && c[6..10] == b[6..10];
      assert c[12..16] == b[12..16] && c[16..20] == b[16..20];
      Reversed(b[12..16]);
      Reversed(b[16..20]);
      assert Load32(b[6..10]) == Word(b, 6);
      hide Load32, ReverseFloat, CutTo;
    }
  }

  lemma Reversed(q: Quad)
    ensures ReverseFloat(Load32(q)) == NetworkWord(q, 0)
  {
    StoreLoad(q);
    hide Store32;
  }

  /** Every packet sent is one that is read, with its type in byte 5. */
  lemma SentHead(p: Outgoing)
    ensures |Encode(p)| == 252 && Magic(Encode(p)) && Encode(p)[5] == p.Type()
  {
    EncodeHead(p);
    hide Encode;
  }

  /** Where a GETINFO reply has its fields. */
  lemma InfoBytes(i: Info)
    ensures var b := Encode(InfoReply(i));
            && b[5] == 12 && b[6..12] == i.mac && Word(b, 12) == i.syslogServer && Word(b, 16) == i.threshold
            && Word(b, 20) == i.uptime && Word(b, 24) == i.unixts && b[28..32] == i.softwareVersion
            && Word(b, 32) == i.freeRam && Word(b, 36) == i.latency && Word(b, 40) == i.ntpServer
    ensures NulFree(i) ==>
              var b := Encode(InfoReply(i));
              var text := CutTo(i.httpBaseAddress, 169) + [0] + CutTo(i.platformName, 19) + [0]
                          + CutTo(i.accelerometerName, 9) + [0];
              44 + |text| <= 248 && b[44..44 + |text|] == text && Word(b, 44 + |text|) == i.statProbeSpeed
  {
    SentHead(InfoReply(i));
    hide *;
    NumberBytes(i);
    if NulFree(i) { TextBytes(i); }
  }

  lemma NumberBytes(i: Info)
    ensures var b := Encode(InfoReply(i));
            && b[5] == 12 && b[6..12] == i.mac && Word(b, 12) == i.syslogServer && Word(b, 16) == i.threshold
            && Word(b, 20) == i.uptime && Word(b, 24) == i.unixts && b[28..32] == i.softwareVersion
            && Word(b, 32) == i.freeRam && Word(b, 36) == i.latency && Word(b, 40) == i.ntpServer
  {
    var b := Encode(InfoReply(i));
    SentHead(InfoReply(i));
    LayoutParts(i);
    NumbersReadBack(i, b[..44]);
    SlicesOfPrefix(b);
    FieldWords(b);
    hide Encode, AppendNumbers, Store32, Load32, StringField, Word, Magic;
  }

  lemma TextBytes(i: Info)
    requires NulFree(i)
    ensures var b := Encode(InfoReply(i));
            var text := CutTo(i.httpBaseAddress, 169) + [0] + CutTo(i.platformName, 19) + [0]
                        + CutTo(i.accelerometerName, 9) + [0];
            44 + |text| <= 248 && b[44..44 + |text|] == text && Word(b, 44 + |text|) == i.statProbeSpeed
  {
    hide *;
    var b, w := Encode(InfoReply(i)), Store32(i.statProbeSpeed);
    var t1, t2, t3 := CutTo(i.httpBaseAddress, 169), CutTo(i.platformName, 19), CutTo(i.accelerometerName, 9);
    var tail := TextParts(i, b, w);
    StringBytes(b, t1 + [0], t2 + [0], t3 + [0], w, tail);
    assert t1 + [0] + t2 + [0] + t3 + [0] == (t1 + [0]) + (t2 + [0]) + (t3 + [0]);
    LoadStore(i.statProbeSpeed);
    FieldWords(b);
  }

  lemma TextParts(i: Info, b: seq<Byte>, w: seq<Byte>) returns (tail: seq<Byte>)
    requires NulFree(i) && b == Encode(InfoReply(i)) && w == Store32(i.statProbeSpeed)
    ensures |b| == 252 && |w| == 4
    ensures b[44..] == CutTo(i.httpBaseAddress, 169) + [0]
                       + (CutTo(i.platformName, 19) + [0] + (CutTo(i.accelerometerName, 9) + [0] + (w + tail)))
  {
    LayoutParts(i);
    WholeField(i.httpBaseAddress, 169);
    WholeField(i.platformName, 19);
    WholeField(i.accelerometerName, 9);
    tail := b[|Layout(InfoReply(i))|..];
    hide Encode, Store32, StringField, CutTo, Layout;
  }

  lemma StringBytes(b: seq<Byte>, t1: seq<Byte>, t2: seq<Byte>, t3: seq<Byte>, w: seq<Byte>, tail: seq<Byte>)
    requires |b| == 252 && |w| == 4 && b[44..] == t1 + (t2 + (t3 + (w + tail)))
    ensures var text := t1 + t2 + t3;
            44 + |text| <= 248 && b[44..44 + |text|] == text && b[44 + |text|..44 + |text| + 4] == w
  {
    var text, c := t1 + t2 + t3, b[44..];
    assert c == text + w + tail;
    assert c[..|text|] == text && c[|text|..|text| + 4] == w;
  }

  lemma FieldWords(b: seq<Byte>)
    requires |b| == 252
    ensures forall k {:trigger Word(b, k)} :: 0 <= k <= 248 ==> Word(b, k) == Load32(b[k..k + 4])
  {
  }

  lemma WholeField(s: seq<Byte>, n: nat)
    requires 0 !in CutTo(s, n)
    ensures StringField(s, n) == CutTo(s, n) + [0]
  {
  }}
