/** The command protocol: what a device does with a packet, and a network of devices that
    all reply to the port on which all of them listen.  Release build: no RESET or TRACE.

    Datagrams may be delivered in any order and may be addressed to or from anybody; they
    are not duplicated.
 */
module CommandInterface {
  import opened Words
  import opened Packets

  const CMD_INTERFACE_PORT: Word16 := 62001

  datatype Device = Device(mac: Mac, tag: seq<Byte>, latitude: Word32, longitude: Word32,
                           syslogServer: Word32, syslogEnabled: bool)
  {
    /** Log::setSyslogServer. */
    function WithSyslog(server: Word32): Device {
      if server == 0 then this.(syslogEnabled := false) else this.(syslogServer := server, syslogEnabled := true)
    }
  }

  /** Everything a GETINFO reply takes from elsewhere. */
  datatype Readings = Readings(threshold: Word32, uptime: Word32, unixts: Word32, freeRam: Word32, latency: Word32,
                               ntpServer: Word32, httpBaseAddress: seq<Byte>, platformName: seq<Byte>,
                               accelerometerName: seq<Byte>, statProbeSpeed: Word32)

  function InfoOf(d: Device, r: Readings): Info {
    Info(d.mac, d.syslogServer, r.threshold, r.uptime, r.unixts, SOFTWARE_VERSION, r.freeRam, r.latency, r.ntpServer,
         r.httpBaseAddress, r.platformName, r.accelerometerName, r.statProbeSpeed)
  }

  datatype Reaction = Reaction(device: Device, replies: seq<Outgoing>)

  /** The switch of checkCommandPacket.  REBOOT falls through into GETINFO when the call that
      reboots returns. */
  function React(d: Device, c: Command, r: Readings, rebootReturns: bool): Reaction {
    match c
    case SendGps(mac, latitude, longitude) =>
      if mac != d.mac then Reaction(d, [])
      else Reaction(d.(latitude := latitude, longitude := longitude), [Bare(OK)])
    case SetSyslog(server) => Reaction(d.WithSyslog(server), [Bare(OK)])
    case Plain(t) =>
      if t == DISCOVERY then Reaction(d, [Discovery(d.mac, d.tag)])
      else if t == PING then Reaction(d, [Bare(PONG)])
      else if t == REBOOT then Reaction(d, [Bare(OK)] + if rebootReturns then [InfoReply(InfoOf(d, r))] else [])
      else if t == GETINFO then Reaction(d, [InfoReply(InfoOf(d, r))])
      else Reaction(d, [])
  }

  predicate IsReply(t: Byte) {
    t == DISCOVERY_REPLY || t == PONG || t == OK || t == GETINFO_REPLY
  }

  predicate IsCommandType(t: Byte) {
    t == DISCOVERY || t == PING || t == SENDGPS || t == SETSYSLOG || t == REBOOT || t == GETINFO
  }

  /** Replies never trigger replies; a command triggers at most two, and two only for a REBOOT
      that returns; every reply has a reply type; identity never changes and the position only
      by a SENDGPS that names this device. */
  lemma ReactionBounds(d: Device, c: Command, r: Readings, rebootReturns: bool)
    ensures var x := React(d, c, r, rebootReturns);
            && (!IsCommandType(c.Type()) ==> x == Reaction(d, []))
            && |x.replies| <= 2 && (|x.replies| == 2 <==> c == Plain(REBOOT) && rebootReturns)
            && (forall p :: p in x.replies ==> IsReply(p.Type()))
            && x.device.mac == d.mac && x.device.tag == d.tag
            && ((x.device.latitude, x.device.longitude) != (d.latitude, d.longitude) ==>
                  c == SendGps(d.mac, x.device.latitude, x.device.longitude))
  {
  }

  /** What a device does with a datagram. */
  function Respond(d: Device, datagram: seq<Byte>, r: Readings, rebootReturns: bool): Reaction {
    match ReadPacket(datagram) case None => Reaction(d, []) case Some(c) => React(d, c, r, rebootReturns)
  }

  // ----- the dispatcher as an object -----

  datatype Sent = Sent(to: Word32, port: Word16, bytes: seq<Byte>)

  class Dispatcher {
    var device: Device

    constructor (device: Device)
      ensures this.device == device
    {
      this.device := device;
    }

    /** sendPacket addresses the sender of the command, at the command port. */
    method Reply(p: Outgoing, source: Word32) returns (s: Sent)
      ensures s == Sent(source, 62001, Encode(p))
    {
      var bytes := SendPacket(p);
      s := Sent(source, CMD_INTERFACE_PORT, bytes);
    }

    method CheckCommandPacket(datagram: seq<Byte>, source: Word32, r: Readings, rebootReturns: bool)
      returns (sent: seq<Sent>)
      modifies this
      ensures var x := Respond(old(device), datagram, r, rebootReturns);
              && device == x.device && |sent| == |x.replies|
              && forall i :: 0 <= i < |sent| ==> sent[i] == Sent(source, 62001, Encode(x.replies[i]))
    {
      hide Encode;
      sent := [];
      var c := ReadPacket(datagram);
      hide ReadPacket;
      if c.None? { return; }
      match c.value {
        case SendGps(mac, latitude, longitude) =>
          if mac != device.mac { return; }
          device := device.(longitude := longitude);
          device := device.(latitude := latitude);
          var s := Reply(Bare(OK), source);
          sent := [s];
        case SetSyslog(server) =>
          device := device.WithSyslog(server);
          var s := Reply(Bare(OK), source);
          sent := [s];
        case Plain(t) =>
          if t == DISCOVERY {
            var s := Reply(Discovery(device.mac, device.tag), source);
            sent := [s];
          } else if t == PING {
            var s := Reply(Bare(PONG), source);
            sent := [s];
          } else if t == REBOOT || t == GETINFO {
            if t == REBOOT {
              var s := Reply(Bare(OK), source);
              sent := [s];
              if !rebootReturns { return; }
            }
            var s := Reply(InfoReply(InfoOf(device, r)), source);
            sent := sent + [s];
          }
      }
    }
  }

  // ----- from the bytes of a datagram to the bytes of the answers -----

  /** A packet of this type. */
  predicate IsPacket(b: seq<Byte>, ty: Byte) {
    |b| == 252 && Magic(b) && b[5] == ty
  }

  /** Datagrams that are too short, have other magic bytes or none of the six command types are
      ignored. */
  lemma OthersAreIgnored(d: Device, b: seq<Byte>, r: Readings, rebootReturns: bool)
    requires Magic(b) ==> b[5] !in {1, 3, 7, 9, 10, 11}
    ensures Respond(d, b, r, rebootReturns) == Reaction(d, [])
  {
    ReadExactly(b);
    hide ReadPacket;
  }

  /** A PING is answered by a PONG. */
  lemma PingIsAnswered(d: Device, b: seq<Byte>, r: Readings, rebootReturns: bool)
    requires Magic(b) && b[5] == 3
    ensures var x := Respond(d, b, r, rebootReturns);
            x.device == d && |x.replies| == 1 && IsPacket(Encode(x.replies[0]), 4)
  {
    ReadExactly(b);
    SentHead(Bare(PONG));
    hide ReadPacket, Encode, Magic;
  }

  /** A DISCOVERY is answered by a packet with the MAC, the version and eight characters of the tag. */
  lemma DiscoveryIsAnswered(d: Device, b: seq<Byte>, r: Readings, rebootReturns: bool)
    requires Magic(b) && b[5] == 1
    ensures var x := Respond(d, b, r, rebootReturns);
            && x.device == d && |x.replies| == 1
            && var y, tag := Encode(x.replies[0]), UpTo(d.tag, 0);
               && IsPacket(y, 2) && y[6..12] == d.mac && y[12..16] == [50, 46, 49, 53]
               && UpTo(y[16..], 0) == if |tag| < 8 then tag else tag[..8]
  {
    ReadExactly(b);
    SentHead(Discovery(d.mac, d.tag));
    DiscoveryReadBack(d.mac, d.tag);
    hide ReadPacket, Encode, Magic;
  }

  /** A SETSYSLOG is answered by OK.  Address zero disables syslog and is not stored; any other is
      what bytes 12 to 15 of every later GETINFO reply show. */
  lemma SyslogIsStored(d: Device, b: seq<Byte>, request: seq<Byte>, r: Readings, rebootReturns: bool)
    requires Magic(b) && b[5] == 9 && Magic(request) && request[5] == 11
    ensures var x := Respond(d, b, r, rebootReturns);
            var y := Respond(x.device, request, r, rebootReturns);
            && |x.replies| == 1 && IsPacket(Encode(x.replies[0]), 8)
            && x.device == (if b[6..10] == [0, 0, 0, 0] then d.(syslogEnabled := false)
                            else d.(syslogServer := Word(b, 6), syslogEnabled := true))
            && |y.replies| == 1 && (b[6..10] != [0, 0, 0, 0] ==> Encode(y.replies[0])[12..16] == b[6..10])
  {
    var x := Respond(d, b, r, rebootReturns);
    ReadExactly(b);
    ZeroAddress(b);
    SentHead(Bare(OK));
    GetInfoIsAnswered(x.device, request, r, rebootReturns);
    hide ReadPacket, Encode, Magic, NulFree, Word, CutTo, DecodeInfo, CutStrings, InfoOf;
    if b[6..10] != [0, 0, 0, 0] {
      SameWord(b, 6, Encode(Respond(x.device, request, r, rebootReturns).replies[0]), 12);
    }
  }

  lemma ZeroAddress(b: seq<Byte>)
    requires |b| >= 10
    ensures Word(b, 6) == 0 <==> b[6..10] == [0, 0, 0, 0]
  {
    assert b[6..10] == [b[6], b[7], b[8], b[9]];
  }

  lemma SameWord(b: seq<Byte>, i: nat, c: seq<Byte>, j: nat)
    requires i + 4 <= |b| && j + 4 <= |c|
    ensures Word(b, i) == Word(c, j) ==> b[i..i + 4] == c[j..j + 4]
  {
    assert Word(b, i) == Load32(b[i..i + 4]) && Word(c, j) == Load32(c[j..j + 4]);
    StoreLoad(b[i..i + 4]);
    StoreLoad(c[j..j + 4]);
    hide Word, Load32, Store32;
  }

  /** A REBOOT is answered by OK; if the call that reboots returns, a GETINFO reply follows. */
  lemma RebootIsAnswered(d: Device, b: seq<Byte>, request: seq<Byte>, r: Readings, rebootReturns: bool)
    requires Magic(b) && b[5] == 10 && Magic(request) && request[5] == 11
    ensures var x, y := Respond(d, b, r, rebootReturns), Respond(d, request, r, rebootReturns);
            && x.device == d && |x.replies| == (if rebootReturns then 2 else 1)
            && IsPacket(Encode(x.replies[0]), 8)
            && (rebootReturns ==> x.replies[1..] == y.replies)
  {
    ReadExactly(b);
    ReadExactly(request);
    SentHead(Bare(OK));
    hide ReadPacket, Encode, Magic;
  }

  /** A GETINFO request is answered with the device's identity and readings: numbers at fixed
      offsets, then three cut strings, each with a NUL, then the probe speed. */
  lemma GetInfoIsAnswered(d: Device, b: seq<Byte>, r: Readings, rebootReturns: bool)
    requires Magic(b) && b[5] == 11
    ensures var x := Respond(d, b, r, rebootReturns);
            && x.device == d && |x.replies| == 1
            && var y := Encode(x.replies[0]);
               && IsPacket(y, 12) && y[6..12] == d.mac && Word(y, 12) == d.syslogServer
               && Word(y, 16) == r.threshold && Word(y, 20) == r.uptime && Word(y, 24) == r.unixts
               && y[28..32] == [50, 46, 49, 53] && Word(y, 32) == r.freeRam && Word(y, 36) == r.latency
               && Word(y, 40) == r.ntpServer
               && (NulFree(InfoOf(d, r)) ==>
                     var text := CutTo(r.httpBaseAddress, 169) + [0] + CutTo(r.platformName, 19) + [0]
                                 + CutTo(r.accelerometerName, 9) + [0];
                     44 + |text| <= 248 && y[44..44 + |text|] == text && Word(y, 44 + |text|) == r.statProbeSpeed)
               && (NulFree(InfoOf(d, r)) ==> DecodeInfo(y) == Some(CutStrings(InfoOf(d, r))))
  {
    ReadExactly(b);
    SentHead(InfoReply(InfoOf(d, r)));
    InfoBytes(InfoOf(d, r));
    InfoRoundTrip(InfoOf(d, r));
    hide ReadPacket, Encode, Magic, NulFree, Word, DecodeInfo, CutTo;
  }

  /** A client that names the device sets its position bit for bit and reads an OK; a client
      that names another one changes nothing and gets no reply. */
  lemma GpsIsStored(d: Device, b: seq<Byte>, r: Readings, rebootReturns: bool)
    requires Magic(b) && b[5] == 7
    ensures var x := Respond(d, b, r, rebootReturns);
            if b[6..12] == d.mac then
              && x.device == d.(latitude := NetworkWord(b, 12), longitude := NetworkWord(b, 16))
              && |x.replies| == 1 && IsPacket(Encode(x.replies[0]), 8)
            else x == Reaction(d, [])
  {
    ReadExactly(b);
    SentHead(Bare(OK));
    hide ReadPacket, Encode, Magic, NetworkWord;
  }

  // ----- a network of devices -----

  datatype Datagram = Datagram(src: Word32, dst: Word32, port: Word16, bytes: seq<Byte>)

  datatype Network = Network(devices: map<Word32, Device>, inFlight: seq<Datagram>)

  /** Which datagram arrives next, and what its receiver reads meanwhile. */
  datatype Delivery = Delivery(i: nat, readings: Readings, rebootReturns: bool)

  function Answer(d: Datagram, ps: seq<Outgoing>): (ds: seq<Datagram>)
    ensures |ds| == |ps|
    ensures forall i :: 0 <= i < |ps| ==> ds[i] == Datagram(d.dst, d.src, 62001, Encode(ps[i]))
  {
    hide Encode;
    if ps == [] then []
    else Answer(d, ps[..|ps| - 1]) + [Datagram(d.dst, d.src, CMD_INTERFACE_PORT, Encode(ps[|ps| - 1]))]
  }

  function Deliver(n: Network, e: Delivery): Network
    requires e.i < |n.inFlight|
  {
    var d := n.inFlight[e.i];
    var rest := n.inFlight[..e.i] + n.inFlight[e.i + 1..];
    if d.dst in n.devices && d.port == CMD_INTERFACE_PORT && ReadPacket(d.bytes).Some? then
      var x := React(n.devices[d.dst], ReadPacket(d.bytes).value, e.readings, e.rebootReturns);
      Network(n.devices[d.dst := x.device], rest + Answer(d, x.replies))
    else n.(inFlight := rest)
  }

  /** A datagram to the command port of a device has the effect that the dispatcher has, and its
      answers go back to the sender's command port; any other is lost without effect. */
  lemma DeliveryIsDispatch(n: Network, e: Delivery)
    requires e.i < |n.inFlight|
    ensures var d, n' := n.inFlight[e.i], Deliver(n, e);
            var others := n.inFlight[..e.i] + n.inFlight[e.i + 1..];
            if d.dst in n.devices && d.port == 62001 then
              var x := Respond(n.devices[d.dst], d.bytes, e.readings, e.rebootReturns);
              && n'.devices == n.devices[d.dst := x.device]
              && |n'.inFlight| == |others| + |x.replies| && n'.inFlight[..|others|] == others
              && forall i :: 0 <= i < |x.replies| ==>
                   n'.inFlight[|others| + i] == Datagram(d.dst, d.src, 62001, Encode(x.replies[i]))
            else n' == n.(inFlight := others)
  {
    hide React, ReadPacket, Encode;
  }

  predicate IsCommand(d: Datagram) {
    ReadPacket(d.bytes).Some? && IsCommandType(ReadPacket(d.bytes).value.Type())
  }

  function Commands(ds: seq<Datagram>): (k: nat)
    ensures k <= |ds|
  {
    if ds == [] then 0 else Commands(ds[..|ds| - 1]) + if IsCommand(ds[|ds| - 1]) then 1 else 0
  }

  lemma {:induction false} CommandsConcat(ds: seq<Datagram>, es: seq<Datagram>)
    ensures Commands(ds + es) == Commands(ds) + Commands(es)
  {
    hide IsCommand;
    if es == [] {
      assert ds + es == ds;
    } else {
      assert (ds + es)[..|ds + es| - 1] == ds + es[..|es| - 1];
      CommandsConcat(ds, es[..|es| - 1]);
    }
  }

  lemma {:induction false} RepliesAreNoCommands(d: Datagram, ps: seq<Outgoing>)
    requires forall p :: p in ps ==> IsReply(p.Type())
    ensures Commands(Answer(d, ps)) == 0
  {
    hide ReadPacket, Encode;
    if ps != [] {
      var p := ps[|ps| - 1];
      assert p in ps;
      RepliesAreNoCommands(d, ps[..|ps| - 1]);
      SentIsRead(p);
      var ds := Answer(d, ps);
      assert ds[..|ds| - 1] == Answer(d, ps[..|ps| - 1]);
    }
  }

  /** One delivery uses up a datagram; only a command adds any, and no commands. */
  lemma DeliverStep(n: Network, e: Delivery)
    requires e.i < |n.inFlight|
    ensures var c, ds, ds' := IsCommand(n.inFlight[e.i]), n.inFlight, Deliver(n, e).inFlight;
            && Commands(ds') == Commands(ds) - (if c then 1 else 0)
            && |ds| - 1 <= |ds'| <= |ds| - 1 + (if c then 2 else 0)
  {
    var ds, d := n.inFlight, n.inFlight[e.i];
    var l, r := ds[..e.i], ds[e.i + 1..];
    assert ds == l + [d] + r;
    CommandsConcat(l + [d], r);
    CommandsConcat(l, [d]);
    CommandsConcat(l, r);
    assert Commands([d]) == (if IsCommand(d) then 1 else 0) by { assert [d][..0] == []; hide IsCommand; }
    if d.dst in n.devices && d.port == CMD_INTERFACE_PORT && ReadPacket(d.bytes).Some? {
      var c := ReadPacket(d.bytes).value;
      ReactionBounds(n.devices[d.dst], c, e.readings, e.rebootReturns);
      var x := React(n.devices[d.dst], c, e.readings, e.rebootReturns);
      hide React, ReadPacket, Commands;
      RepliesAreNoCommands(d, x.replies);
      CommandsConcat(l + r, Answer(d, x.replies));
    }
  }

  /** The deliveries can be made one after the other. */
  predicate Possible(n: Network, es: seq<Delivery>)
    decreases |es|
  {
    es == [] || (es[0].i < |n.inFlight| && Possible(Deliver(n, es[0]), es[1..]))
  }

  function Run(n: Network, es: seq<Delivery>): Network
    requires Possible(n, es)
    decreases |es|
  {
    if es == [] then n else Run(Deliver(n, es[0]), es[1..])
  }

  /** How many datagrams the devices send during a run. */
  function SentDuring(n: Network, es: seq<Delivery>): int
    requires Possible(n, es)
    decreases |es|
  {
    if es == [] then 0
    else |Deliver(n, es[0]).inFlight| - (|n.inFlight| - 1) + SentDuring(Deliver(n, es[0]), es[1..])
  }

  /** In any network and any order of delivery, every command causes at most two further
      packets in all, and the traffic dies out: |in flight| + 2 * |commands| strictly decreases. */
  lemma {:induction false} TrafficQuiesces(n: Network, es: seq<Delivery>)
    requires Possible(n, es)
    ensures var m := Run(n, es);
            && 0 <= SentDuring(n, es) <= 2 * (Commands(n.inFlight) - Commands(m.inFlight))
            && |es| + |m.inFlight| == |n.inFlight| + SentDuring(n, es)
            && |es| + |m.inFlight| + 2 * Commands(m.inFlight) <= |n.inFlight| + 2 * Commands(n.inFlight)
    decreases |es|
  {
    if es != [] {
      DeliverStep(n, es[0]);
      hide Deliver, Commands;
      TrafficQuiesces(Deliver(n, es[0]), es[1..]);
    }
  }

  /** Without commands in flight the devices are silent and nothing about them changes. */
  lemma {:induction false} RepliesChangeNothing(n: Network, es: seq<Delivery>)
    requires Possible(n, es) && Commands(n.inFlight) == 0
    ensures Run(n, es).devices == n.devices && SentDuring(n, es) == 0
    decreases |es|
  {
    TrafficQuiesces(n, es);
    if es != [] {
      DeliverStep(n, es[0]);
      var d := n.inFlight[es[0].i];
      assert !IsCommand(d);
      if d.dst in n.devices && ReadPacket(d.bytes).Some? {
        ReactionBounds(n.devices[d.dst], ReadPacket(d.bytes).value, es[0].readings, es[0].rebootReturns);
      }
      hide React, ReadPacket, Commands;
      assert Deliver(n, es[0]).devices == n.devices;
      RepliesChangeNothing(Deliver(n, es[0]), es[1..]);
    }
  }
}
