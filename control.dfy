/** The tunnel's control protocol: messages on channel 0 whose first payload
    octet is an action code (ice.h), and the Map request that opens a data
    channel between a local and a remote port. */
module Control {
  import opened Common
  import opened Frame

  // p2pActions, in declaration order
  const MAP := 0
  const SHUT := 1
  const PING := 2
  const FREE := 3
  const PONG := 4

  // TunnelProtocols, in declaration order
  const UDP := 0
  const TCP := 1
  const RTSP := 2

  /** Length of a Map request body: action, channel, two ports, protocol. */
  const MAP_LEN := 7

  /** The body of a Map request asking the peer to open channel `channel`
      towards `remotePort`, answering from `localPort` (portMapInternal and
      socketListenCb): each field is cut to the width the C `char`s hold. */
  function MapRequest(channel: int, localPort: nat, remotePort: nat, proto: int): (m: seq<byte>)
    requires localPort < 65536 && remotePort < 65536
    ensures |m| == MAP_LEN && m[0] == MAP && m[1] == Lo(channel)
  {
    [MAP, Lo(channel), Hi(localPort), Lo(localPort), Hi(remotePort), Lo(remotePort), Lo(proto)]
  }

  /** What the receiver reads out of a Map request: the channel and protocol
      octets as signed `char`s, the ports big-endian. */
  datatype MapFields = MapFields(channel: int, srcPort: nat, dstPort: nat, proto: int)

  function ReadMap(packet: seq<byte>): (f: MapFields)
    requires |packet| >= MAP_LEN
    ensures f.srcPort < 65536 && f.dstPort < 65536
    ensures -128 <= f.channel < 128 && -128 <= f.proto < 128
  {
    MapFields(SignedChar(packet[1]), Be16(packet[2], packet[3]), Be16(packet[4], packet[5]), SignedChar(packet[6]))
  }

  /** Map round trip: the peer reads back the channel, both ports and the
      protocol that the requester wrote. */
  lemma MapRoundTrip(channel: int, localPort: nat, remotePort: nat, proto: int)
    requires 0 <= channel < 128 && 0 <= proto < 128
    requires localPort < 65536 && remotePort < 65536
    ensures ReadMap(MapRequest(channel, localPort, remotePort, proto))
         == MapFields(channel, localPort, remotePort, proto)
  {
    Be16RoundTrip(localPort);
    Be16RoundTrip(remotePort);
  }

  /** A control message as the receiver classifies it. */
  datatype Command =
    | Map(fields: MapFields)
    | MapTooShort
    | Shut(channel: int)
    | Ping
    | Pong
    | Ignored(action: int)

  /** The receiver's classification of a control frame of `size` payload
      octets. `view` is the reassembly buffer from the payload onwards: a
      frame shorter than the fields it is read for is read from whatever
      the buffer still holds past its end, as the source does. */
  function Classify(view: seq<byte>, size: int): (c: Command)
    requires |view| >= MAP_LEN
    ensures c.Map? <==> view[0] == MAP && size >= MAP_LEN
    ensures c.Map? ==> c.fields == ReadMap(view)
    ensures c.MapTooShort? <==> view[0] == MAP && size < MAP_LEN
    ensures c.Shut? <==> view[0] == SHUT
    ensures c.Shut? ==> c.channel == SignedChar(view[1])
    ensures c.Ping? <==> view[0] == PING
    ensures c.Pong? <==> view[0] == PONG
    ensures c.Ignored? <==> view[0] == FREE || view[0] > PONG
  {
    var action := SignedChar(view[0]);
    if action == MAP then (if size < MAP_LEN then MapTooShort else Map(ReadMap(view)))
    else if action == SHUT then Shut(SignedChar(view[1]))
    else if action == PING then Ping
    else if action == PONG then Pong
    else Ignored(action)
  }

  /** The frame a requester sends is classified by the peer as the Map it asked for. */
  lemma MapRequestClassified(channel: int, localPort: nat, remotePort: nat, proto: int, stale: seq<byte>)
    requires 0 <= channel < 128 && 0 <= proto < 128
    requires localPort < 65536 && remotePort < 65536
    ensures Classify(MapRequest(channel, localPort, remotePort, proto) + stale, MAP_LEN)
         == Map(MapFields(channel, localPort, remotePort, proto))
  {
    var m := MapRequest(channel, localPort, remotePort, proto);
    MapRoundTrip(channel, localPort, remotePort, proto);
    assert (m + stale)[..MAP_LEN] == m;
    assert ReadMap(m + stale) == ReadMap(m);
  }

  /** The Shut request that closeChannelAndSocket sends for a channel. */
  function ShutFrame(channel: int): (bytes: seq<byte>)
    ensures bytes == Encode(0, [SHUT, Lo(channel)])
  {
    [0, 0, 2, SHUT, Lo(channel)]
  }

  /** The peer classifies a whole Shut frame as a Shut of the channel it
      names, whatever its buffer holds past the two payload octets. */
  lemma ShutFrameClassified(channel: int, stale: seq<byte>)
    requires 0 <= channel < 128 && |stale| >= MAP_LEN - 2
    ensures ShutFrame(channel)[HEADER_LEN..] == [SHUT, Lo(channel)]
    ensures Classify([SHUT, Lo(channel)] + stale, 2) == Shut(channel)
  {
    assert ([SHUT, Lo(channel)] + stale)[1] == Lo(channel) == channel;
  }

  // ---------------------------------------------------------------- channel guards

  /** The Map guard of ice.c:619 as written: it tests the frame's own channel
      (always 0 here) where the requested channel was meant. */
  predicate MapGuardAsWritten(newChannel: int, frameChannel: int)
  {
    !(newChannel <= 0 || frameChannel >= MAX_CH)
  }

  /** Channels 50..127 pass the guard as written, yet index past the end of
      the 50-slot channel table. */
  lemma MapGuardAsWrittenOverflows(newChannel: int)
    requires MAX_CH <= newChannel < 128
    ensures MapGuardAsWritten(newChannel, 0)
    ensures newChannel >= MAX_CH
  {
  }

  /** The channel a Map request may open: a data channel inside the table. */
  predicate MapChannelOk(newChannel: int)
  {
    0 < newChannel < MAX_CH
  }

  /** As written, a Shut request closes the slot its (signed) channel octet
      names, without a bound check: octets 0x32..0xFF give indices -128..-1
      and 50..127, all outside the table. */
  function ShutIndexAsWritten(channelOctet: byte): (i: int)
    ensures i < 0 <==> channelOctet >= 128
    ensures MAX_CH <= i <==> MAX_CH <= channelOctet < 128
    ensures 0 <= i < MAX_CH ==> i == channelOctet
  {
    SignedChar(channelOctet)
  }

  lemma ShutIndexAsWrittenOutside()
    ensures ShutIndexAsWritten(0x80) == -128
    ensures ShutIndexAsWritten(0x7F) == 127 >= MAX_CH
  {
  }

  /** The slot a Shut request closes, when its channel is inside the table. */
  function ShutTarget(channel: int): (r: Option<int>)
    ensures r.Some? <==> 0 <= channel < MAX_CH
    ensures r.Some? ==> r.value == channel
  {
    if 0 <= channel < MAX_CH then Some(channel) else None
  }
}
