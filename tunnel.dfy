/** The tunnel agent of ice.c: a table of ICE_MAX_CH channel slots, each
    tied to a local socket, multiplexed over the single reliable Transport
    stream; a reassembly buffer for the frames that arrive on that stream;
    the shared flow-control flag; the keepalive timestamp; and the list of
    listening services. */
module Tunnel {
  import opened Common
  import opened Frame
  import opened Control
  import opened Rtsp
  import opened Io

  /** ICE_TIMEOUT: seconds of silence after which the status callback hears "timeout". */
  const ICE_TIMEOUT := 30
  /** ICE_TIMEOUT_INTERVAL: the keepalive timer period, in seconds. */
  const ICE_TIMEOUT_INTERVAL := 5

  /** One slot of the channel table (struct connectionInfo). `watched` is a
      registered read watch (gsource), `connection` a held GSocketConnection,
      `handler` a connected "reliable-transport-writable" handler, and
      `children` the slots of the RTP channels an RTSP channel mapped
      (rtpChList), newest first. */
  datatype Conn = Conn(
    channel: int,
    sock: int,
    src: Addr,
    dst: Addr,
    proto: int,
    watched: bool,
    connection: bool,
    buffer: seq<byte>,
    sentBytes: int,
    unsentBytes: int,
    handler: bool,
    children: seq<int>)

  /** A slot as iceNew leaves it: no socket, no watch, nothing pending. The
      fields iceNew leaves uninitialised are given fixed values here
      (channel 0, no protocol, unset addresses, zeroed buffer). */
  function FreeSlot(): (c: Conn)
    ensures c.sock == -1 && !c.watched && !c.connection && !c.handler
    ensures c.unsentBytes == 0 && c.children == [] && |c.buffer| == BUFFER_LEN
  {
    Conn(0, -1, Addr(Unset, 0), Addr(Unset, 0), -1, false, false,
         seq(BUFFER_LEN, _ => 0), 0, 0, false, [])
  }

  /** A listening service (struct iceAgentClient). */
  datatype Service = Service(remotePort: int, localPort: int, proto: int)

  /** The invariant every slot keeps. */
  ghost predicate SlotOk(c: Conn)
  {
    |c.buffer| == BUFFER_LEN
    && c.sock >= -1
    && (c.watched ==> c.sock >= 0)
    && 0 <= c.sentBytes && 0 <= c.unsentBytes && c.sentBytes + c.unsentBytes <= BUFFER_LEN
    && (c.handler ==> c.unsentBytes > 0)
    && (forall k :: 0 <= k < |c.children| ==> 1 <= c.children[k] < MAX_CH)
  }

  /** The sockets a run of slots holds open, in slot order. */
  function OpenSocks(cs: seq<Conn>): seq<int>
    decreases |cs|
  {
    if cs == [] then []
    else OpenSocks(cs[..|cs| - 1]) + (if cs[|cs| - 1].sock != -1 then [cs[|cs| - 1].sock] else [])
  }

  /** What the keepalive timer does after `elapsed` seconds of silence. */
  datatype Keepalive = ReportTimeout | SendPing | Wait

  /** timeoutCb's rule: with a status callback, more than ICE_TIMEOUT
      seconds of silence is reported (on every tick); otherwise more than
      ICE_TIMEOUT_INTERVAL / 2 seconds (2, in integer division) sends a Ping. */
  function KeepaliveAction(elapsed: int, hasStatusCallback: bool): (k: Keepalive)
    ensures k.ReportTimeout? <==> elapsed > ICE_TIMEOUT && hasStatusCallback
    ensures k.SendPing? <==> elapsed > 2 && !(elapsed > ICE_TIMEOUT && hasStatusCallback)
    ensures k.Wait? <==> elapsed <= 2
  {
    if elapsed > ICE_TIMEOUT && hasStatusCallback then ReportTimeout
    else if elapsed > ICE_TIMEOUT_INTERVAL / 2 then SendPing
    else Wait
  }

  /** niceCanWriteCb's bookkeeping as written: the send result is added to
      the sent count and taken from the unsent count, whatever its sign. */
  function CanWriteAsWritten(sentBytes: int, unsentBytes: int, result: int): (after: (int, int))
    ensures after.0 + after.1 == sentBytes + unsentBytes
    ensures result < 0 ==> after.0 < sentBytes && after.1 > unsentBytes
  {
    (sentBytes + result, unsentBytes - result)
  }

  /** A Transport error (-1) on the first resend of a frame moves the send
      offset one octet before the buffer and makes the next resend one
      octet longer than what is left of the frame. */
  lemma CanWriteAsWrittenErrorUnderflows()
    ensures CanWriteAsWritten(0, 10, -1) == (-1, 11)
  {
  }

  /** The corrected step of niceCanWriteCb: an error accepts nothing. */
  function CanWriteStep(result: int): (k: nat)
    ensures result >= 0 ==> k == result
    ensures result < 0 ==> k == 0
  {
    if result < 0 then 0 else result
  }

  /** The rtpChList prepend of ice.c:727 and ice.c:736 as written: the
      list always grows by one, newest first, and it names slots of the
      table only if the result of portMapInternal is one. */
  function ChildrenAfterAsWritten(children: seq<int>, r: int): (cs: seq<int>)
    ensures |cs| == |children| + 1 && cs[1..] == children
    ensures (forall k :: 0 <= k < |cs| ==> 1 <= cs[k] < MAX_CH)
            <==> 1 <= r < MAX_CH && forall k :: 0 <= k < |children| ==> 1 <= children[k] < MAX_CH
  {
    var cs := [r] + children;
    assert cs[0] == r && forall k :: 0 <= k < |children| ==> cs[k + 1] == children[k];
    cs
  }

  /** When no slot is free (or the Map request or the socket fails),
      portMapInternal gives -1 and the list as written records slot -1, one
      before the start of the table, which a later close dereferences. */
  lemma ChildrenAfterAsWrittenRecordsNoSlot(children: seq<int>)
    ensures ChildrenAfterAsWritten(children, -1)[0] == -1 < 0
  {
  }

  /** The prepend, corrected: only a slot that was mapped is recorded. */
  function ChildrenAfter(children: seq<int>, r: int): (cs: seq<int>)
    ensures 1 <= r < MAX_CH ==> cs == [r] + children
    ensures !(1 <= r < MAX_CH) ==> cs == children
    ensures (forall k :: 0 <= k < |children| ==> 1 <= children[k] < MAX_CH)
            ==> forall k :: 0 <= k < |cs| ==> 1 <= cs[k] < MAX_CH
  {
    if 1 <= r < MAX_CH then [r] + children else children
  }

  /** A slot mapped for an RTP flow: a watched UDP socket bound to
      `remotePort` on any address, sending to `localPort` on 127.0.0.1. */
  predicate RtpChild(c: Conn, localPort: nat, remotePort: nat)
  {
    c.proto == UDP && c.watched && c.sock >= 0
    && c.src == Addr(AnyHost, remotePort) && c.dst == Addr(Loopback, localPort)
  }

  /** What the agent's contracts compare before and after a step: the
      channel table and the three logs of the environment. */
  datatype Snapshot = Snapshot(table: seq<Conn>, wire: seq<byte>, written: seq<(int, seq<byte>)>, closed: seq<int>)

  /** A slot after closeChannelAndSocket: its socket, watch and connection
      are gone, everything else stays. */
  function Released(c: Conn): Conn
  {
    c.(sock := -1, watched := false, connection := false)
  }

  /** Indices of the channel table. */
  predicate Slots(order: seq<int>)
  {
    forall k :: 0 <= k < |order| ==> 0 <= order[k] < MAX_CH
  }

  /** The slots closeChannelAndSocket is applied to when slot i, holding
      `c`, is closed with its children: an RTSP slot's children in list
      order (newest first), then the slot itself. */
  function CloseOrder(c: Conn, i: int): (order: seq<int>)
    ensures |order| >= 1 && order[|order| - 1] == i
    ensures SlotOk(c) && 0 <= i < MAX_CH ==> Slots(order)
  {
    (if c.proto == RTSP then c.children else []) + [i]
  }

  /** The descriptors closed when the slots of `order` are closed one after
      the other, starting from table `t`: a slot's socket, if it has one,
      the first time the slot comes up; a slot closed before has none. */
  function ClosedSocks(t: seq<Conn>, order: seq<int>): seq<int>
    requires |t| == MAX_CH && Slots(order)
    decreases |order|
  {
    if order == [] then []
    else
      var last := order[|order| - 1];
      ClosedSocks(t, order[..|order| - 1])
      + (if last !in order[..|order| - 1] && t[last].sock != -1 then [t[last].sock] else [])
  }

  /** One notice accepted length per closed slot, none longer than a Shut frame. */
  predicate NoticesFit(order: seq<int>, accepted: seq<nat>)
  {
    |accepted| == |order| && forall k :: 0 <= k < |accepted| ==> accepted[k] <= 5
  }

  /** The Shut notices of a close with notice, in order: for each slot the
      part of its Shut frame the Transport accepted. */
  function Notices(t: seq<Conn>, order: seq<int>, accepted: seq<nat>): seq<byte>
    requires |t| == MAX_CH && Slots(order) && NoticesFit(order, accepted)
    decreases |order|
  {
    if order == [] then []
    else
      var n := |order| - 1;
      Notices(t, order[..n], accepted[..n]) + ShutFrame(t[order[n]].channel)[..accepted[n]]
  }

  /** The Shut requests a close with notice asks the peer for, one per slot. */
  function ShutRequests(t: seq<Conn>, order: seq<int>): (fs: seq<Frame>)
    requires |t| == MAX_CH && Slots(order)
    ensures |fs| == |order|
    ensures forall k :: 0 <= k < |order| ==> fs[k] == Frame(0, [SHUT, Lo(t[order[k]].channel)])
  {
    seq(|order|, k requires 0 <= k < |order| => Frame(0, [SHUT, Lo(t[order[k]].channel)]))
  }

  /** What closing slot i with its children does, from snapshot `b` to
      snapshot `a` (the RTSP clean-up and closeChannelAndSocket with notice):
      the slot and, for an RTSP slot, every child lose their socket, watch
      and connection, the slot's child list is emptied, no other slot
      changes; each open socket is closed once, in order; and unless a send
      is pending each closed slot's Shut notice is offered to the Transport,
      in order. `accepted` is how much of each notice went out. */
  ghost predicate Closing(b: Snapshot, a: Snapshot, i: int, pending: bool, accepted: seq<nat>)
  {
    |b.table| == MAX_CH && |a.table| == MAX_CH && 0 <= i < MAX_CH
    && var order := CloseOrder(b.table[i], i);
    Slots(order) && NoticesFit(order, accepted)
    && a.table[i] == Released(b.table[i]).(children := if b.table[i].proto == RTSP then [] else b.table[i].children)
    && (forall j :: 0 <= j < MAX_CH && j != i ==> a.table[j] == if j in order then Released(b.table[j]) else b.table[j])
    && a.closed == b.closed + ClosedSocks(b.table, order)
    && a.wire == b.wire + (if pending then [] else Notices(b.table, order, accepted))
  }

  /** What initSocket leaves in a slot that had no socket: only the socket,
      the watch and the connection change; a watched slot has a socket and
      a known protocol; an unknown protocol changes nothing; a UDP slot
      that is not watched has no socket; no connection is gained. */
  ghost predicate SocketOpened(before: Conn, after: Conn)
  {
    after == before.(sock := after.sock, watched := after.watched, connection := after.connection)
    && (after.watched ==> after.sock >= 0 && before.proto in {UDP, TCP, RTSP})
    && (before.proto !in {UDP, TCP, RTSP} ==> after == before)
    && (!after.watched && before.proto == UDP ==> after.sock == -1)
    && (after.connection ==> before.connection)
  }

  /** What mapping the RTP pair of `ports` for RTSP slot `ch` leaves, from
      table `before` to table `after`: the two results are recorded (newest
      first) among the slot's children, each is -1 or a newly opened RTP
      slot for its pair of ports, and a slot that had a socket keeps all but
      its children. */
  ghost predicate PairMapped(ch: int, ports: RtpPorts, first: int, second: int, before: seq<Conn>, after: seq<Conn>)
    requires |before| == MAX_CH && |after| == MAX_CH && 1 <= ch < MAX_CH
  {
    var m := RtpMappings(ports);
    after[ch].children == ChildrenAfter(ChildrenAfter(before[ch].children, first), second)
    && (first == -1 || (1 <= first < MAX_CH && before[first].sock == -1 && RtpChild(after[first], m[0].0, m[0].1)))
    && (second == -1 || (1 <= second < MAX_CH && before[second].sock == -1 && RtpChild(after[second], m[1].0, m[1].1)))
    && (before[ch].sock != -1 ==> after[ch] == before[ch].(children := after[ch].children))
  }

  /** What the RTSP inspection of a payload leaves, from table `before` to
      table `after`: nothing changes unless the text announces both ports,
      in which case the RTP pair is mapped (`mapped` holds the two results);
      apart from slot ch, only slots that had no socket change. */
  ghost predicate Inspected(before: seq<Conn>, after: seq<Conn>, ch: int, payload: seq<byte>, mapped: seq<int>)
    requires |before| == MAX_CH && |after| == MAX_CH && 1 <= ch < MAX_CH
  {
    var ports := Inspect(InspectedText(payload));
    (ports.None? ==> mapped == [] && after == before)
    && (ports.Some? ==> |mapped| == 2 && PairMapped(ch, ports.value, mapped[0], mapped[1], before, after))
    && (forall j :: 0 <= j < MAX_CH && j != ch && after[j] != before[j] ==> before[j].sock == -1)
  }

  /** What a data frame for channel ch does before its delivery, from
      snapshot `b` to snapshot `ready` by way of the table `inited` after
      the socket set-up: a slot without a socket gets one (initSocket), then
      an RTSP slot's text is inspected (see Inspected). */
  ghost predicate Prepared(b: Snapshot, inited: seq<Conn>, ready: Snapshot, ch: int, payload: seq<byte>, mapped: seq<int>)
  {
    |b.table| == MAX_CH && |inited| == MAX_CH && |ready.table| == MAX_CH && 1 <= ch < MAX_CH
    // initSocket, for a slot without a socket
    && (b.table[ch].sock == -1 ==>
          SocketOpened(b.table[ch], inited[ch]) && forall j :: 0 <= j < MAX_CH && j != ch ==> inited[j] == b.table[j])
    && (b.table[ch].sock != -1 ==> inited == b.table)
    // the RTSP inspection
    && (b.table[ch].proto == RTSP ==> Inspected(inited, ready.table, ch, payload, mapped))
    && (b.table[ch].proto == RTSP && Inspect(InspectedText(payload)).None? ==> ready.wire == b.wire && ready.closed == b.closed)
    && (b.table[ch].proto != RTSP ==> ready.table == inited && mapped == [] && ready.wire == b.wire)
    && ready.written == b.written
  }

  /** The delivery of a data frame's payload to slot ch, from snapshot
      `b` to snapshot `a`: the payload is written whole to the slot's
      socket and nothing else changes, or a write fails (always, for a slot
      without a socket) and the slot is closed with its children (see
      Closing). */
  ghost predicate Delivery(b: Snapshot, a: Snapshot, pending: bool, ch: int, payload: seq<byte>, delivered: bool, accepted: seq<nat>)
  {
    |b.table| == MAX_CH && |a.table| == MAX_CH && 1 <= ch < MAX_CH
    && |b.written| <= |a.written| && a.written[..|b.written|] == b.written
    && (delivered ==>
          a.table == b.table && a.wire == b.wire && a.closed == b.closed
          && Bytes(a.written[|b.written|..]) == payload
          && forall k :: |b.written| <= k < |a.written| ==> a.written[k].0 == b.table[ch].sock)
    && (!delivered ==> |payload| > 0 && Closing(b, a, ch, pending, accepted))
    && (b.table[ch].sock < 0 && |payload| > 0 ==> !delivered)
  }

  /** What a data frame for channel ch does, from snapshot `b` to snapshot
      `a`: it is Prepared up to snapshot `ready`, then delivered. */
  ghost predicate DataHandled(b: Snapshot, a: Snapshot, pending: bool, ch: int, payload: seq<byte>, delivered: bool,
                              inited: seq<Conn>, ready: Snapshot, mapped: seq<int>, accepted: seq<nat>)
  {
    Prepared(b, inited, ready, ch, payload, mapped) && Delivery(ready, a, pending, ch, payload, delivered, accepted)
  }

  /** A control frame that makes niceRecvCb return at once: a Map request
      too short to hold its fields, or one for a channel outside the data
      channels or whose slot already has a socket (the guard corrected; see
      MapGuardAsWritten). */
  predicate Stops(view: seq<byte>, size: int, table: seq<Conn>)
    requires |view| >= MAP_LEN && |table| == MAX_CH
  {
    var cmd := Classify(view, size);
    cmd.MapTooShort? || (cmd.Map? && !(MapChannelOk(cmd.fields.channel) && table[cmd.fields.channel].sock == -1))
  }

  /** What a control frame of `size` payload octets does, from snapshot `b`
      to snapshot `a`; `view` is the reassembly buffer from the payload on.
      `stop` is Stops. An accepted Map request sets up the slot's
      addresses, channel and protocol, then opens its socket (SocketOpened).
      Shut closes the named slot without notice, when the slot is inside
      the table (corrected; see ShutIndexAsWritten). Ping is answered with
      Pong on channel 0 unless a send is pending (`accepted` is how much of
      it went out). Nothing else changes. */
  ghost predicate ControlHandled(view: seq<byte>, size: int, b: Snapshot, a: Snapshot, pending: bool, stop: bool, accepted: nat)
  {
    |view| >= MAP_LEN && |b.table| == MAX_CH && |a.table| == MAX_CH
    && (stop <==> Stops(view, size, b.table))
    && var cmd := Classify(view, size);
    (cmd.Map? && !stop ==>
       var f := cmd.fields;
       SocketOpened(b.table[f.channel].(dst := Addr(Loopback, f.dstPort), src := Addr(AnyHost, f.srcPort),
                                        channel := f.channel, proto := f.proto),
                    a.table[f.channel]))
    && (cmd.Shut? && 0 <= cmd.channel < MAX_CH ==>
          a.table[cmd.channel] == Released(b.table[cmd.channel])
          && a.closed == b.closed + (if b.table[cmd.channel].sock != -1 then [b.table[cmd.channel].sock] else []))
    && (forall j :: 0 <= j < MAX_CH && !(cmd.Map? && !stop && j == cmd.fields.channel) && !(cmd.Shut? && j == cmd.channel)
          ==> a.table[j] == b.table[j])
    && accepted <= 4
    && (cmd.Ping? && !pending ==> a.wire == b.wire + Encode(0, [PONG])[..accepted])
    && (!(cmd.Ping? && !pending) ==> a.wire == b.wire)
    && a.written == b.written
  }

  /** How one turn of the reassembly loop ended. */
  datatype Status = NeedMore | BadHeader | Whole

  /** How a frame arrival ended. */
  datatype Outcome =
    | Idle              // an empty arrival: nothing is done
    | Consumed          // every byte was taken in
    | BadLength         // a header declared an unacceptable length: the buffer is emptied
    | Abandoned(from: nat) // a control frame was refused, and the arrival's bytes from `from` on are lost

  class Agent {
    /** The Transport and the local sockets. */
    const env: Env
    /** Whether an onStatusChanged callback was given. */
    const hasStatusCallback: bool
    /** The channel table. */
    const conns: array<Conn>
    /** The reassembly buffer and its two cursors. */
    const recvBuffer: array<byte>
    var readedBytes: int
    var packetSize: int
    /** Set while a channel's frame is only partly accepted by the Transport. */
    var pendingSend: bool
    /** The slot whose frame is pending, when pendingSend is set. */
    ghost var writer: int
    /** The time of the last frame received (None: the keepalive is not started, or stopped). */
    var timestamp: Option<int>
    /** socketServiceList, newest first. */
    var services: seq<Service>
    /** iceStop has run. */
    var stopped: bool

    /** The cursors describe the buffer: fewer than three octets and no
        length yet, or a header whose declared length is acceptable. */
    ghost predicate ReaderOk()
      reads this`readedBytes, this`packetSize, recvBuffer
    {
      recvBuffer.Length == BUFFER_LEN
      && 0 <= readedBytes <= BUFFER_LEN
      && ((readedBytes < HEADER_LEN && packetSize == 0)
          || (readedBytes >= HEADER_LEN && packetSize == DeclaredSize(recvBuffer[1], recvBuffer[2])
              && SizeOk(packetSize)))
    }

    /** Every slot is sound, channel 0 is never allocated, and exactly the
        pending writer has a writable handler. */
    ghost predicate TableOk()
      reads this`pendingSend, this`writer, conns
    {
      conns.Length == MAX_CH
      && (forall i :: 0 <= i < MAX_CH ==> SlotOk(conns[i]))
      && conns[0].sock == -1
      && (forall i :: 0 <= i < MAX_CH ==> (conns[i].handler <==> pendingSend && i == writer))
    }

    /** TableOk, for every slot but `i`. */
    ghost predicate TableOkExcept(i: int)
      reads this`pendingSend, this`writer, conns
    {
      conns.Length == MAX_CH
      && (forall j :: 0 <= j < MAX_CH && j != i ==> SlotOk(conns[j]))
      && (i != 0 ==> conns[0].sock == -1)
      && (forall j :: 0 <= j < MAX_CH && j != i ==> (conns[j].handler <==> pendingSend && j == writer))
    }

    ghost predicate Valid()
      reads this`readedBytes, this`packetSize, this`pendingSend, this`writer, conns, recvBuffer
    {
      ReaderOk() && TableOk()
    }

    /** The received octets not yet dispatched as frames: the bytes after
        the frame just dispatched, or everything held when no frame is
        complete. */
    ghost function Pending(): seq<byte>
      reads this`readedBytes, this`packetSize, recvBuffer
      requires ReaderOk()
    {
      if readedBytes >= packetSize + HEADER_LEN then recvBuffer[packetSize + HEADER_LEN..readedBytes]
      else recvBuffer[..readedBytes]
    }

    /** iceNew: every slot free, empty reassembly buffer, nothing pending,
        keepalive not started. */
    constructor (env: Env, hasStatusCallback: bool)
      ensures Valid() && !stopped
      ensures this.env == env && this.hasStatusCallback == hasStatusCallback
      ensures fresh(conns) && fresh(recvBuffer)
      ensures forall i :: 0 <= i < MAX_CH ==> conns[i] == FreeSlot()
      ensures readedBytes == 0 && packetSize == 0 && Pending() == []
      ensures !pendingSend && timestamp == None && services == []
    {
      this.env := env;
      this.hasStatusCallback := hasStatusCallback;
      conns := new Conn[MAX_CH](_ => FreeSlot());
      recvBuffer := new byte[BUFFER_LEN](_ => 0);
      readedBytes := 0;
      packetSize := 0;
      pendingSend := false;
      writer := -1;
      timestamp := None;
      services := [];
      stopped := false;
    }

    /** The free-slot search of socketListenCb and portMapInternal: the
        lowest index from 1 whose socket is -1, or MAX_CH when there is none. */
    method FindFree() returns (i: int)
      requires conns.Length == MAX_CH
      ensures 1 <= i <= MAX_CH
      ensures i < MAX_CH ==> conns[i].sock == -1
      ensures forall j :: 1 <= j < i ==> conns[j].sock != -1
    {
      i := 1;
      while i < MAX_CH
        invariant 1 <= i <= MAX_CH
        invariant forall j :: 1 <= j < i ==> conns[j].sock != -1
      {
        if conns[i].sock == -1 {
          return;
        }
        i := i + 1;
      }
    }

    /** iceSend: frame `msg` on `channel` and hand it to the Transport,
        unless a send is pending. `accepted` is how much of the frame the
        Transport took. The report is corrected (see SendResult). */
    method Send(channel: int, msg: seq<byte>) returns (r: int, ghost accepted: nat)
      requires 1 <= |msg| <= MAX_PAYLOAD
      modifies env
      ensures accepted <= |msg| + HEADER_LEN
      ensures env.wire == old(env.wire) + Encode(channel, msg)[..accepted]
      ensures pendingSend ==> accepted == 0 && r == 0
      ensures r >= |msg| <==> accepted == |msg| + HEADER_LEN
      ensures env.written == old(env.written) && env.closed == old(env.closed)
    {
      if pendingSend {
        return 0, 0;
      }
      var frame := Encode(channel, msg);
      var sent := env.TransportSend(frame);
      accepted := if sent < 0 then 0 else sent;
      r := SendResult(sent, |msg|);
    }

    /** closeChannelAndSocket: optionally ask the peer to close the channel
        too (only when no send is pending; the result is not checked), then
        close the slot's socket and drop its watch and its connection. The
        slot's buffer, pending bytes, handler and children are left as they are. */
    method CloseChannel(i: int, notify: bool) returns (ghost accepted: nat)
      requires Valid() && 0 <= i < MAX_CH
      modifies conns, env
      ensures Valid()
      ensures conns[i] == old(conns[i]).(sock := -1, watched := false, connection := false)
      ensures forall j :: 0 <= j < MAX_CH && j != i ==> conns[j] == old(conns[j])
      ensures accepted <= 5
      ensures notify && !pendingSend ==> env.wire == old(env.wire) + ShutFrame(old(conns[i]).channel)[..accepted]
      ensures !(notify && !pendingSend) ==> env.wire == old(env.wire)
      ensures env.closed == old(env.closed) + (if old(conns[i]).sock != -1 then [old(conns[i]).sock] else [])
      ensures env.written == old(env.written)
    {
      accepted := 0;
      var c := conns[i];
      if notify && !pendingSend {
        var sent := env.TransportSend(ShutFrame(c.channel));
        accepted := if sent < 0 then 0 else sent;
      }
      if c.sock != -1 {
        env.Close(c.sock);
      }
      SetSlot(i, c.(sock := -1, watched := false, connection := false));
    }
  
    /** Store a slot: the one place the table is written, so the table
        invariant is argued once. */
    method SetSlot(i: int, c: Conn)
      requires ReaderOk() && 0 <= i < MAX_CH && TableOkExcept(i)
      requires SlotOk(c) && (i == 0 ==> c.sock == -1) && (c.handler <==> pendingSend && i == writer)
      modifies conns
      ensures Valid()
      ensures conns[i] == c
      ensures forall j :: 0 <= j < MAX_CH && j != i ==> conns[j] == old(conns[j])
    {
      conns[i] := c;
    }

    /** The table and the environment's logs, as the contracts compare them. */
    ghost function Now(): Snapshot
      reads conns, env
    {
      Snapshot(conns[..], env.wire, env.written, env.closed)
    }

    /** The RTSP clean-up of socketRecvCb and niceRecvCb: an RTSP channel
        forgets its RTP children and closes each of them, asking the peer to
        close them too; then the channel itself is closed the same way (see
        Closing). */
    method CloseWithChildren(i: int) returns (ghost accepted: seq<nat>)
      requires Valid() && 0 <= i < MAX_CH
      modifies conns, env
      ensures Valid()
      ensures Closing(old(Now()), Now(), i, pendingSend, accepted)
      ensures env.written == old(env.written)
    {
      ghost var before := Now();
      var order := [i];
      if conns[i].proto == RTSP {
        order := conns[i].children + [i];
        SetSlot(i, conns[i].(children := []));
      }
      ghost var u := conns[..];
      assert u == before.table[i := u[i]];
      assert order == CloseOrder(before.table[i], i);
      accepted := CloseAll(order);
      ghost var after := Now();
      assert forall j :: 0 <= j < MAX_CH ==> after.table[j] == if j in order then Released(u[j]) else u[j];
      ClosingFrom(before, u, after, i, pendingSend, accepted);
    }

    /** closeChannelAndSocket with notice on each slot of `order`, in turn. */
    method CloseAll(order: seq<int>) returns (ghost accepted: seq<nat>)
      requires Valid() && Slots(order)
      modifies conns, env
      ensures Valid()
      ensures NoticesFit(order, accepted)
      ensures forall j :: 0 <= j < MAX_CH ==> conns[j] == if j in order then Released(old(conns[j])) else old(conns[j])
      ensures env.closed == old(env.closed) + ClosedSocks(old(conns[..]), order)
      ensures env.wire == old(env.wire) + (if pendingSend then [] else Notices(old(conns[..]), order, accepted))
      ensures env.written == old(env.written)
    {
      ghost var b := Now();
      accepted := [];
      var k := 0;
      assert Notices(b.table, order[..0], accepted) == [] && ClosedSocks(b.table, order[..0]) == [];
      while k < |order|
        invariant 0 <= k <= |order| && NoticesFit(order[..k], accepted)
        invariant Valid()
        invariant CloseProgress(b, order[..k], accepted)
      {
        accepted := CloseNext(b, order, k, accepted);
        k := k + 1;
      }
      assert order[..k] == order;
    }

    /** The table and logs after the slots of `done` were closed with
        notice, one after the other, from snapshot `b`. */
    ghost predicate CloseProgress(b: Snapshot, done: seq<int>, accepted: seq<nat>)
      reads this`pendingSend, conns, env
      requires |b.table| == MAX_CH && Slots(done) && NoticesFit(done, accepted)
    {
      conns.Length == MAX_CH
      && (forall j :: 0 <= j < MAX_CH ==> conns[j] == if j in done then Released(b.table[j]) else b.table[j])
      && env.closed == b.closed + ClosedSocks(b.table, done)
      && (pendingSend ==> env.wire == b.wire)
      && (!pendingSend ==> env.wire == b.wire + Notices(b.table, done, accepted))
      && env.written == b.written
    }

    /** Step k of CloseAll: slot order[k] is closed with notice. */
    method CloseNext(ghost b: Snapshot, order: seq<int>, k: nat, ghost accepted: seq<nat>) returns (ghost accepted': seq<nat>)
      requires Valid() && |b.table| == MAX_CH && Slots(order) && k < |order| && NoticesFit(order[..k], accepted)
      requires CloseProgress(b, order[..k], accepted)
      modifies conns, env
      ensures Valid() && NoticesFit(order[..k + 1], accepted')
      ensures CloseProgress(b, order[..k + 1], accepted')
    {
      var t := b.table;
      assert order[..k + 1] == order[..k] + [order[k]];
      ClosedSocksStep(t, order, k);
      assert conns[order[k]].channel == t[order[k]].channel;
      assert conns[order[k]].sock == if order[k] in order[..k] then -1 else t[order[k]].sock;
      ghost var gone := if order[k] !in order[..k] && t[order[k]].sock != -1 then [t[order[k]].sock] else [];
      ConcatAssoc(b.closed, ClosedSocks(t, order[..k]), gone);
      var a := CloseChannel(order[k], true);
      NoticesStep(t, order, k, accepted, a);
      if !pendingSend {
        ConcatAssoc(b.wire, Notices(t, order[..k], accepted), ShutFrame(t[order[k]].channel)[..a]);
      }
      accepted' := accepted + [a];
    }

    /** initSocket for a slot without a socket: a UDP slot gets a datagram
        socket bound to its source address; a TCP or RTSP slot gets a stream
        socket connected to its destination (when the connection fails the
        socket stays in the slot, unwatched); any other protocol fails. On
        success the socket is watched. */
    method InitSocket(i: int) returns (ok: bool)
      requires Valid() && 1 <= i < MAX_CH && conns[i].sock == -1
      modifies conns, env
      ensures Valid()
      ensures forall j :: 0 <= j < MAX_CH && j != i ==> conns[j] == old(conns[j])
      ensures ok <==> conns[i].watched
      ensures SocketOpened(old(conns[i]), conns[i])
      ensures old(conns[i]).proto != UDP || ok ==> env.closed == old(env.closed)
      ensures |old(env.closed)| <= |env.closed| <= |old(env.closed)| + 1 && env.closed[..|old(env.closed)|] == old(env.closed)
      ensures env.wire == old(env.wire) && env.written == old(env.written)
    {
      var c := conns[i];
      ok := false;
      if c.proto == UDP {
        var fd := env.NewSocket();
        if fd != -1 {
          var bound := env.Bind(fd, c.src);
          if bound {
            c := c.(sock := fd, watched := true);
            ok := true;
          } else {
            env.Close(fd);
            c := c.(connection := false);
          }
        }
      } else if c.proto == TCP || c.proto == RTSP {
        var fd := env.NewSocket();
        if fd != -1 {
          // a stream socket whose connect fails stays in the slot, unwatched
          var connected := env.Connect(fd, c.dst);
          c := c.(sock := fd, watched := connected);
          ok := connected;
        }
      }
      SetSlot(i, c);
    }

    /** The UDP branch of portMapInternal: take the lowest free slot, ask the
        peer to map it, then open and bind a datagram socket on `remotePort`
        and watch it. Returns the slot, or -1 when no slot is free, the
        request was not wholly sent, or the socket could not be set up; a
        failure changes no slot's socket. */
    method MapUdp(localPort: nat, remotePort: nat) returns (r: int)
      requires Valid() && localPort < 65536 && remotePort < 65536
      modifies conns, env
      ensures Valid()
      ensures r == -1 || 1 <= r < MAX_CH
      ensures r >= 1 ==> old(conns[r]).sock == -1 && forall j :: 1 <= j < r ==> old(conns[j]).sock != -1
      ensures r >= 1 ==> conns[r] == old(conns[r]).(channel := r, sock := conns[r].sock, src := Addr(AnyHost, remotePort),
                                                    dst := Addr(Loopback, localPort), proto := UDP, watched := true,
                                                    connection := false)
      ensures r >= 1 ==> env.wire == old(env.wire) + Encode(0, MapRequest(r, localPort, remotePort, UDP))
      ensures (forall j :: 1 <= j < MAX_CH ==> old(conns[j]).sock != -1) ==> r == -1 && env.wire == old(env.wire)
      ensures forall j :: 0 <= j < MAX_CH && j != r ==> conns[j].sock == old(conns[j]).sock && conns[j].watched == old(conns[j]).watched
      ensures forall j :: 0 <= j < MAX_CH ==> conns[j].children == old(conns[j]).children
      ensures forall j :: 0 <= j < MAX_CH && conns[j] != old(conns[j]) ==> old(conns[j]).sock == -1
      ensures env.written == old(env.written)
    {
      var i := FindFree();
      if i == MAX_CH {
        return -1;
      }
      var request := MapRequest(i, localPort, remotePort, UDP);
      var s, _ := Send(0, request);
      if s < MAP_LEN {
        return -1;
      }
      var c := conns[i].(src := Addr(AnyHost, remotePort));
      r := -1;
      var fd := env.NewSocket();
      if fd != -1 {
        var bound := env.Bind(fd, c.src);
        if bound {
          c := c.(sock := fd, dst := Addr(Loopback, localPort), channel := i, proto := UDP,
                  connection := false, watched := true);
          r := i;
        } else {
          env.Close(fd);
          c := c.(connection := false);
        }
      }
      SetSlot(i, c);
    }

    /** The TCP/RTSP branch of portMapInternal: listen on `localPort` and,
        when that works, record the service (newest first); connections it
        accepts are handled by Accept. */
    method Listen(localPort: nat, remotePort: nat, proto: int) returns (r: int)
      modifies this`services
      ensures r == 0 || r == -1
      ensures r == 0 ==> services == [Service(remotePort, localPort, proto)] + old(services)
      ensures r == -1 ==> services == old(services)
      ensures readedBytes == old(readedBytes) && packetSize == old(packetSize) && pendingSend == old(pendingSend)
      ensures writer == old(writer) && timestamp == old(timestamp) && stopped == old(stopped)
    {
      var ok := env.Listen(localPort);
      if !ok {
        return -1;
      }
      services := [Service(remotePort, localPort, proto)] + services;
      r := 0;
    }

    /** portMapInternal: UDP maps a slot at once (the slot, or -1); TCP and
        RTSP start a listener (0, or -1); any other protocol is refused (-1). */
    method PortMap(localPort: nat, remotePort: nat, proto: int) returns (r: int)
      requires Valid() && localPort < 65536 && remotePort < 65536
      modifies this`services, conns, env
      ensures Valid()
      ensures proto == UDP ==> r == -1 || 1 <= r < MAX_CH
      ensures proto == UDP && r >= 1 ==> conns[r].sock >= 0 && conns[r].watched && conns[r].proto == UDP
      ensures proto == UDP && r >= 1 ==> env.wire == old(env.wire) + Encode(0, MapRequest(r, localPort, remotePort, UDP))
      ensures proto == UDP ==> services == old(services)
      ensures proto == TCP || proto == RTSP ==> (r == 0 || r == -1) && (forall j :: 0 <= j < MAX_CH ==> conns[j] == old(conns[j]))
      ensures (proto == TCP || proto == RTSP) && r == 0 ==> services == [Service(remotePort, localPort, proto)] + old(services)
      ensures proto !in {UDP, TCP, RTSP} ==> r == -1 && services == old(services)
      ensures r == -1 ==> services == old(services) && forall j :: 0 <= j < MAX_CH ==> conns[j].sock == old(conns[j]).sock
      ensures readedBytes == old(readedBytes) && packetSize == old(packetSize) && pendingSend == old(pendingSend)
      ensures writer == old(writer) && timestamp == old(timestamp) && stopped == old(stopped)
    {
      if proto == UDP {
        r := MapUdp(localPort, remotePort);
      } else if proto == TCP || proto == RTSP {
        r := Listen(localPort, remotePort, proto);
      } else {
        r := -1;
      }
    }

    /** icePortMap: whether portMapInternal succeeded. */
    method IcePortMap(localPort: nat, remotePort: nat, proto: int) returns (ok: bool)
      requires Valid() && localPort < 65536 && remotePort < 65536
      modifies this`services, conns, env
      ensures Valid()
      ensures ok ==> proto in {UDP, TCP, RTSP}
      ensures !ok ==> services == old(services) && forall j :: 0 <= j < MAX_CH ==> conns[j].sock == old(conns[j]).sock
    {
      var r := PortMap(localPort, remotePort, proto);
      ok := r >= 0;
    }

    /** socketListenCb: a connection accepted by a listening service takes
        the lowest free slot, once the peer has been sent a Map request for
        it; without a free slot, or when the request is not wholly sent, the
        connection is refused and the table is unchanged. */
    method Accept(svc: Service, fd: int) returns (ok: bool, ghost slot: int)
      requires Valid() && fd >= 0
      requires 0 <= svc.localPort < 65536 && 0 <= svc.remotePort < 65536
      modifies conns, env
      ensures Valid()
      ensures ok ==> 1 <= slot < MAX_CH && old(conns[slot]).sock == -1
                     && (forall j :: 1 <= j < slot ==> old(conns[j]).sock != -1)
      ensures ok ==> conns[slot] == old(conns[slot]).(src := Addr(Loopback, svc.localPort), dst := Addr(Loopback, svc.remotePort),
                                                     sock := fd, channel := slot, proto := svc.proto,
                                                     connection := true, watched := true)
      ensures ok ==> env.wire == old(env.wire) + Encode(0, MapRequest(slot, svc.localPort, svc.remotePort, svc.proto))
      ensures forall j :: 0 <= j < MAX_CH && (!ok || j != slot) ==> conns[j] == old(conns[j])
      ensures (forall j :: 1 <= j < MAX_CH ==> old(conns[j]).sock != -1) ==> !ok
    {
      var i := FindFree();
      slot := i;
      if i == MAX_CH {
        return false, slot;
      }
      var s, _ := Send(0, MapRequest(i, svc.localPort, svc.remotePort, svc.proto));
      if s < MAP_LEN {
        return false, slot;
      }
      SetSlot(i, conns[i].(src := Addr(Loopback, svc.localPort), dst := Addr(Loopback, svc.remotePort),
                           sock := fd, channel := i, proto := svc.proto, connection := true, watched := true));
      ok := true;
    }

    /** The keepalive start in candidateGatheringDoneCb: the timestamp is
        set (and the timer started) only if it is not set already. */
    method StartKeepalive(now: int)
      modifies this`timestamp
      ensures timestamp == if old(timestamp).None? then Some(now) else old(timestamp)
      ensures readedBytes == old(readedBytes) && packetSize == old(packetSize) && pendingSend == old(pendingSend)
      ensures writer == old(writer) && services == old(services) && stopped == old(stopped)
    {
      if timestamp.None? {
        timestamp := Some(now);
      }
    }

    /** timeoutCb at time `now`: no timestamp stops the timer; otherwise the
        action of KeepaliveAction for the silence since the timestamp is
        taken (reporting "timeout" or sending a Ping on channel 0) and the
        timer keeps running. */
    method Tick(now: int) returns (keep: bool, reported: bool, ghost accepted: nat)
      modifies env
      ensures keep <==> timestamp.Some?
      ensures reported <==> timestamp.Some? && KeepaliveAction(now - timestamp.value, hasStatusCallback).ReportTimeout?
      ensures accepted <= 4
      ensures timestamp.Some? && KeepaliveAction(now - timestamp.value, hasStatusCallback).SendPing? && !pendingSend
              ==> env.wire == old(env.wire) + Encode(0, [PING])[..accepted]
      ensures !(timestamp.Some? && KeepaliveAction(now - timestamp.value, hasStatusCallback).SendPing? && !pendingSend)
              ==> env.wire == old(env.wire)
      ensures env.written == old(env.written) && env.closed == old(env.closed)
    {
      accepted := 0;
      if timestamp.None? {
        return false, false, accepted;
      }
      var sec := now - timestamp.value;
      keep := true;
      reported := false;
      if sec > ICE_TIMEOUT && hasStatusCallback {
        reported := true;
      } else if sec > ICE_TIMEOUT_INTERVAL / 2 {
        var _, a := Send(0, [PING]);
        accepted := a;
      }
    }

    /** niceCanWriteCb for the pending slot: offer the Transport the octets
        still unsent; what it accepts moves from unsent to sent, and once
        nothing is unsent the shared flag is cleared and the handler
        disconnected. An error result counts as nothing accepted (corrected;
        see CanWriteAsWritten). */
    method CanWrite(i: int) returns (ghost accepted: nat)
      requires Valid() && 0 <= i < MAX_CH && conns[i].handler
      modifies this`pendingSend, conns, env
      ensures Valid()
      ensures accepted <= old(conns[i]).unsentBytes
      ensures env.wire == old(env.wire) + old(conns[i]).buffer[old(conns[i]).sentBytes..old(conns[i]).sentBytes + accepted]
      ensures conns[i] == old(conns[i]).(sentBytes := old(conns[i]).sentBytes + accepted,
                                         unsentBytes := old(conns[i]).unsentBytes - accepted,
                                         handler := accepted < old(conns[i]).unsentBytes)
      ensures pendingSend <==> accepted < old(conns[i]).unsentBytes
      ensures forall j :: 0 <= j < MAX_CH && j != i ==> conns[j] == old(conns[j])
      ensures readedBytes == old(readedBytes) && packetSize == old(packetSize)
      ensures timestamp == old(timestamp) && services == old(services) && stopped == old(stopped)
      ensures env.written == old(env.written) && env.closed == old(env.closed)
    {
      var c := conns[i];
      accepted := 0;
      assert old(env.wire) + c.buffer[c.sentBytes..c.sentBytes] == old(env.wire);
      if c.unsentBytes > 0 {
        var sent := env.TransportSend(c.buffer[c.sentBytes..c.sentBytes + c.unsentBytes]);
        var k := CanWriteStep(sent);
        assert c.buffer[c.sentBytes..c.sentBytes + c.unsentBytes][..k] == c.buffer[c.sentBytes..c.sentBytes + k];
        accepted := k;
        c := c.(unsentBytes := c.unsentBytes - k, sentBytes := c.sentBytes + k);
        if c.unsentBytes == 0 {
          pendingSend := false;
          c := c.(handler := false);
        }
        SetSlot(i, c);
      }
    }

    /** socketRecvCb for a watched slot. While a send is pending nothing is
        read (the source sleeps 10 ms and keeps the watch). Otherwise up to
        MAX_PAYLOAD octets are read and forwarded (see Forward). End of
        stream or a read error closes the channel (and an RTSP channel's
        children) and drops the watch; "try again" changes nothing. */
    method SocketReadable(i: int) returns (keep: bool, ghost data: seq<byte>, ghost accepted: nat, ghost notices: seq<nat>)
      requires Valid() && 1 <= i < MAX_CH && conns[i].watched
      modifies this`pendingSend, this`writer, conns, env
      ensures Valid()
      ensures old(pendingSend) ==> keep && data == [] && conns[i] == old(conns[i]) && env.wire == old(env.wire)
      ensures |data| <= MAX_PAYLOAD && accepted <= |data| + HEADER_LEN
      ensures |data| > 0 ==> keep && env.wire == old(env.wire) + Encode(old(conns[i]).channel, data)[..accepted]
      ensures |data| > 0 && accepted == |data| + HEADER_LEN ==>
                conns[i] == old(conns[i]).(buffer := Encode(old(conns[i]).channel, data) + old(conns[i]).buffer[|data| + HEADER_LEN..],
                                           unsentBytes := 0)
                && !pendingSend
      ensures |data| > 0 && accepted < |data| + HEADER_LEN ==>
                conns[i] == old(conns[i]).(buffer := Encode(old(conns[i]).channel, data) + old(conns[i]).buffer[|data| + HEADER_LEN..],
                                           sentBytes := accepted, unsentBytes := |data| + HEADER_LEN - accepted, handler := true)
                && pendingSend && writer == i
      ensures !keep ==> data == [] && !pendingSend && Closing(old(Now()), Now(), i, false, notices)
      ensures keep && data == [] ==> conns[i] == old(conns[i]) && env.wire == old(env.wire) && pendingSend == old(pendingSend)
      ensures keep ==> forall j :: 0 <= j < MAX_CH && j != i ==> conns[j] == old(conns[j])
      ensures readedBytes == old(readedBytes) && packetSize == old(packetSize)
      ensures timestamp == old(timestamp) && services == old(services) && stopped == old(stopped)
      ensures env.written == old(env.written)
    {
      data := [];
      accepted := 0;
      notices := [];
      if pendingSend {
        return true, data, accepted, notices;
      }
      var res := env.RecvFrom(conns[i].sock, MAX_PAYLOAD);
      if res.Got? {
        data := res.data;
        accepted := Forward(i, res.data);
        keep := true;
      } else if res.Eof? || res.Failed? {
        notices := CloseWithChildren(i);
        keep := false;
      } else {
        keep := true;
      }
    }

    /** The forwarding half of socketRecvCb: `data`, read from slot i's
        socket, is framed in the slot's buffer and offered to the Transport.
        What the Transport does not accept is recorded as unsent and the
        shared flag is set, with the slot's writable handler connected,
        until CanWrite has sent it all. */
    method Forward(i: int, data: seq<byte>) returns (ghost accepted: nat)
      requires Valid() && 1 <= i < MAX_CH && !pendingSend && 1 <= |data| <= MAX_PAYLOAD
      modifies this`pendingSend, this`writer, conns, env
      ensures Valid()
      ensures accepted <= |data| + HEADER_LEN
      ensures env.wire == old(env.wire) + Encode(old(conns[i]).channel, data)[..accepted]
      ensures accepted == |data| + HEADER_LEN ==>
                conns[i] == old(conns[i]).(buffer := Encode(old(conns[i]).channel, data) + old(conns[i]).buffer[|data| + HEADER_LEN..],
                                           unsentBytes := 0)
                && !pendingSend
      ensures accepted < |data| + HEADER_LEN ==>
                conns[i] == old(conns[i]).(buffer := Encode(old(conns[i]).channel, data) + old(conns[i]).buffer[|data| + HEADER_LEN..],
                                           sentBytes := accepted, unsentBytes := |data| + HEADER_LEN - accepted, handler := true)
                && pendingSend && writer == i
      ensures forall j :: 0 <= j < MAX_CH && j != i ==> conns[j] == old(conns[j])
      ensures readedBytes == old(readedBytes) && packetSize == old(packetSize)
      ensures timestamp == old(timestamp) && services == old(services) && stopped == old(stopped)
      ensures env.written == old(env.written) && env.closed == old(env.closed)
    {
      var c := conns[i];
      var frame := Encode(c.channel, data);
      c := c.(buffer := frame + c.buffer[|frame|..]);
      var sent := env.TransportSend(frame);
      if sent < 0 {
        accepted := 0;
        pendingSend := true;
        writer := i;
        c := c.(sentBytes := 0, unsentBytes := |frame|, handler := true);
      } else if sent < |frame| {
        accepted := sent;
        pendingSend := true;
        writer := i;
        c := c.(sentBytes := sent, unsentBytes := |frame| - sent, handler := true);
      } else {
        accepted := sent;
        c := c.(unsentBytes := 0);
      }
      SetSlot(i, c);
    }

    /** A Map request for `channel` is carried out: the channel is a data
        channel of the table (corrected guard, see MapGuardAsWritten) and
        its slot has no socket. */
    predicate MapAccepted(channel: int)
      reads conns
      requires conns.Length == MAX_CH
    {
      MapChannelOk(channel) && conns[channel].sock == -1
    }

    /** The control branch of niceRecvCb for a frame of `size` payload
        octets; `view` is the reassembly buffer from the payload on (see
        ControlHandled). */
    method HandleControl(view: seq<byte>, size: int) returns (stop: bool, ghost accepted: nat)
      requires Valid() && |view| >= MAP_LEN
      modifies conns, env
      ensures Valid()
      ensures ControlHandled(view, size, old(Now()), Now(), pendingSend, stop, accepted)
    {
      accepted := 0;
      stop := false;
      var cmd := Classify(view, size);
      match cmd {
        case MapTooShort =>
          stop := true;
        case Map(f) =>
          if !MapChannelOk(f.channel) || conns[f.channel].sock != -1 {
            stop := true;
          } else {
            SetSlot(f.channel, conns[f.channel].(dst := Addr(Loopback, f.dstPort), src := Addr(AnyHost, f.srcPort),
                                                 channel := f.channel, proto := f.proto));
            var _ := InitSocket(f.channel);
          }
        case Shut(n) =>
          var target := ShutTarget(n);
          if target.Some? {
            var _ := CloseChannel(target.value, false);
          }
        case Ping =>
          var _, a := Send(0, [PONG]);
          accepted := a;
        case Pong =>
        case Ignored(_) =>
      }
    }

    /** portMapInternal called from the RTSP inspection: map a UDP channel
        and record it among `ch`'s children when it was mapped (corrected;
        see ChildrenAfterAsWritten). */
    method OpenRtpChild(ch: int, localPort: nat, remotePort: nat) returns (r: int)
      requires Valid() && 1 <= ch < MAX_CH && localPort < 65536 && remotePort < 65536
      modifies conns, env
      ensures Valid()
      ensures r == -1 || (1 <= r < MAX_CH && old(conns[r]).sock == -1 && RtpChild(conns[r], localPort, remotePort))
      ensures conns[ch].children == ChildrenAfter(old(conns[ch]).children, r)
      ensures old(conns[ch]).sock != -1 ==> conns[ch] == old(conns[ch]).(children := ChildrenAfter(old(conns[ch]).children, r))
      ensures forall j :: 0 <= j < MAX_CH && j != ch && conns[j] != old(conns[j]) ==> old(conns[j]).sock == -1
      ensures forall j :: 0 <= j < MAX_CH && j != r ==> conns[j].sock == old(conns[j]).sock
      ensures env.written == old(env.written)
    {
      r := MapUdp(localPort, remotePort);
      SetSlot(ch, conns[ch].(children := ChildrenAfter(conns[ch].children, r)));
    }

    /** The RTSP inspection of niceRecvCb: when the frame's text announces
        client and server ports, UDP channels are mapped for them (see
        OpenRtpPair); `mapped` holds the two results. Any other text
        changes nothing. */
    method InspectRtsp(ch: int, payload: seq<byte>) returns (ghost mapped: seq<int>)
      requires Valid() && 1 <= ch < MAX_CH
      modifies conns, env
      ensures Valid()
      ensures Inspected(old(conns[..]), conns[..], ch, payload, mapped)
      ensures Inspect(InspectedText(payload)).None? ==> env.wire == old(env.wire) && env.closed == old(env.closed)
      ensures env.written == old(env.written)
    {
      mapped := [];
      var ports := Inspect(InspectedText(payload));
      if ports.Some? {
        var first, second := OpenRtpPair(ch, ports.value);
        mapped := [first, second];
      }
    }

    /** The two portMapInternal calls of the RTSP inspection: the announced
        pair of ports, then the pair one above it. */
    method OpenRtpPair(ch: int, ports: RtpPorts) returns (first: int, second: int)
      requires Valid() && 1 <= ch < MAX_CH
      modifies conns, env
      ensures Valid()
      ensures PairMapped(ch, ports, first, second, old(conns[..]), conns[..])
      ensures forall j :: 0 <= j < MAX_CH && j != ch && conns[j] != old(conns[j]) ==> old(conns[j]).sock == -1
      ensures env.written == old(env.written)
    {
      var m := RtpMappings(ports);
      first := OpenRtpChild(ch, m[0].0, m[0].1);
      second := OpenRtpChild(ch, m[1].0, m[1].1);
    }

    /** The data branch's delivery in niceRecvCb: the payload is written to
        the slot's socket (see WriteAll); a write error closes the channel
        (and an RTSP channel's children, asking the peer to close them too)
        and gives up on the rest. */
    method Deliver(ch: int, payload: seq<byte>) returns (delivered: bool, ghost notices: seq<nat>)
      requires Valid() && 1 <= ch < MAX_CH
      modifies conns, env
      ensures Valid()
      ensures Delivery(old(Now()), Now(), pendingSend, ch, payload, delivered, notices)
    {
      notices := [];
      delivered := env.WriteAll(conns[ch].sock, payload, conns[ch].dst);
      if !delivered {
        notices := CloseWithChildren(ch);
      }
    }

    /** A data-channel frame of niceRecvCb (see DataHandled): `inited` is
        the table after the socket set-up, `ready` the table and logs before
        the delivery, `mapped` the results of the RTSP inspection and
        `notices` what went out of the Shut notices of a failed delivery. */
    method HandleData(ch: int, payload: seq<byte>)
      returns (delivered: bool, ghost inited: seq<Conn>, ghost ready: Snapshot, ghost mapped: seq<int>, ghost notices: seq<nat>)
      requires Valid() && 1 <= ch < MAX_CH
      modifies conns, env
      ensures Valid()
      ensures DataHandled(old(Now()), Now(), pendingSend, ch, payload, delivered, inited, ready, mapped, notices)
    {
      inited, mapped := Prepare(ch, payload);
      ready := Now();
      delivered, notices := Deliver(ch, payload);
    }

    /** The first half of a data frame: a slot without a socket gets one,
        then an RTSP slot's text is inspected (see Prepared). */
    method Prepare(ch: int, payload: seq<byte>) returns (ghost inited: seq<Conn>, ghost mapped: seq<int>)
      requires Valid() && 1 <= ch < MAX_CH
      modifies conns, env
      ensures Valid()
      ensures Prepared(old(Now()), inited, Now(), ch, payload, mapped)
    {
      if conns[ch].sock == -1 {
        var _ := InitSocket(ch);
      }
      inited := conns[..];
      mapped := [];
      if conns[ch].proto == RTSP {
        mapped := InspectRtsp(ch, payload);
      }
    }

    /** niceRecvCb: take in an arrival of octets from the Transport. The
        loop reassembles frames in recvBuffer and dispatches each whole one,
        in order (see Turn). `frames` are the frames dispatched, which are
        exactly the frames the reference reading Decode finds in the pending
        octets followed by the arrival:
          - Consumed: all of the arrival was taken in and what is left
            pending is the unfinished tail;
          - BadLength: a header declared an unacceptable length, so the
            buffer is emptied and the rest of the arrival dropped;
          - Abandoned(k): a refused Map request ended the call, and the
            arrival's octets from k on were never taken in.
        Every frame renews a running keepalive timestamp. */
    method Receive(chunk: seq<byte>, now: int) returns (outcome: Outcome, ghost frames: seq<Frame>)
      requires Valid()
      modifies this`readedBytes, this`packetSize, this`timestamp, conns, recvBuffer, env
      ensures Valid()
      ensures |chunk| == 0 <==> outcome.Idle?
      ensures outcome.Idle? ==> frames == [] && Pending() == old(Pending())
      ensures outcome.Consumed? ==> Decode(old(Pending()) + chunk) == Decoded(frames, Pending(), false)
      ensures outcome.BadLength? ==> Decode(old(Pending()) + chunk) == Decoded(frames, [], true) && Pending() == []
      ensures outcome.Abandoned? ==>
                outcome.from <= |chunk| && Decode(old(Pending()) + chunk) == Then(frames, Decode(Pending() + chunk[outcome.from..]))
      ensures outcome.Abandoned? ==>
                frames != [] && RouteOf(frames[|frames| - 1].channel).Control?
                && (frames[|frames| - 1].payload == [] || frames[|frames| - 1].payload[0] == MAP)
      ensures frames == [] ==> timestamp == old(timestamp)
      ensures frames != [] ==> timestamp == if old(timestamp).Some? then Some(now) else None
    {
      frames := [];
      if |chunk| == 0 {
        return Idle, frames;
      }
      var pos := 0;
      assert chunk[0..] == chunk;
      while true
        invariant Valid()
        invariant 0 <= pos <= |chunk|
        invariant Decode(old(Pending()) + chunk) == Then(frames, Decode(Pending() + chunk[pos..]))
        invariant frames == [] ==> timestamp == old(timestamp)
        invariant frames != [] ==> timestamp == if old(timestamp).Some? then Some(now) else None
        decreases |Pending()| + |chunk| - pos
      {
        ghost var rest := Pending() + chunk[pos..];
        var next, status, stop, frame, held := Turn(chunk, pos, now);
        if status == NeedMore {
          assert held + chunk[next..] == held;
          IncompleteDecodesToItself(held);
          assert frames + [] == frames;
          return Consumed, frames;
        } else if status == BadHeader {
          DecodeBadHeader(held + chunk[next..]);
          assert frames + [] == frames;
          return BadLength, frames;
        }
        DecodeFront(held, chunk[next..]);
        ThenThen(frames, [frame], Decode(Pending() + chunk[next..]));
        frames := frames + [frame];
        pos := next;
        if stop {
          return Abandoned(pos), frames;
        }
      }
    }

    /** One turn of niceRecvCb's loop: reassemble (see Reassemble); on a
        whole frame renew a running keepalive timestamp and dispatch the
        frame. `stop` is true when a refused Map request ends the call. */
    method Turn(chunk: seq<byte>, pos: nat, now: int) returns (next: nat, status: Status, stop: bool, frame: Frame, ghost held: seq<byte>)
      requires Valid() && pos <= |chunk|
      modifies this`readedBytes, this`packetSize, this`timestamp, conns, recvBuffer, env
      ensures Valid() && pos <= next <= |chunk|
      ensures old(Pending()) + chunk[pos..] == held + chunk[next..]
      ensures status == NeedMore ==> next == |chunk| && Incomplete(held) && Pending() == held
      ensures status == BadHeader ==> |held| >= HEADER_LEN && !SizeOk(DeclaredSize(held[1], held[2])) && Pending() == []
      ensures status == Whole ==> WholeAtFront(held) && frame == FirstFrame(held) && Pending() == AfterFirst(held)
      ensures status == Whole ==> timestamp == if old(timestamp).Some? then Some(now) else None
      ensures status != Whole ==> timestamp == old(timestamp) && !stop
      ensures stop ==> RouteOf(frame.channel).Control? && (frame.payload == [] || frame.payload[0] == MAP)
      ensures status == Whole ==>
                (stop <==> RouteOf(frame.channel).Control? && Stops(recvBuffer[HEADER_LEN..], packetSize, old(conns[..])))
    {
      stop := false;
      frame := Frame(0, []);
      next, status, held := Reassemble(chunk, pos);
      if status != Whole {
        return;
      }
      frame := Frame(recvBuffer[0], recvBuffer[HEADER_LEN..packetSize + HEADER_LEN]);
      if timestamp.Some? {
        timestamp := Some(now);
      }
      var refused, _, _, _, _, _, _ := Dispatch(frame);
      stop := refused;
    }

    /** The dispatch of a whole frame in niceRecvCb, by its channel octet read
        as a signed `char`: channel 0 to HandleControl (which reads the
        buffer from the payload on), 1..49 to HandleData, anything else is
        dropped. `stop` is HandleControl's; the ghost results are those of
        HandleControl and HandleData. */
    method Dispatch(frame: Frame)
      returns (stop: bool, ghost accepted: nat, ghost delivered: bool, ghost inited: seq<Conn>, ghost ready: Snapshot,
               ghost mapped: seq<int>, ghost notices: seq<nat>)
      requires Valid() && readedBytes >= packetSize + HEADER_LEN
      requires frame == Frame(recvBuffer[0], recvBuffer[HEADER_LEN..packetSize + HEADER_LEN])
      modifies conns, env
      ensures Valid()
      ensures stop <==> RouteOf(frame.channel).Control? && Stops(recvBuffer[HEADER_LEN..], packetSize, old(conns[..]))
      ensures stop ==> frame.payload == [] || frame.payload[0] == MAP
      ensures RouteOf(frame.channel).Control? ==>
                ControlHandled(recvBuffer[HEADER_LEN..], packetSize, old(Now()), Now(), pendingSend, stop, accepted)
      ensures RouteOf(frame.channel).Data? ==>
                DataHandled(old(Now()), Now(), pendingSend, RouteOf(frame.channel).channel, frame.payload,
                            delivered, inited, ready, mapped, notices)
      ensures RouteOf(frame.channel).Dropped? ==> Now() == old(Now())
    {
      stop, accepted, delivered, inited, ready, mapped, notices := false, 0, false, [], Now(), [], [];
      match RouteOf(frame.channel) {
        case Control =>
          stop, accepted := HandleControl(recvBuffer[HEADER_LEN..], packetSize);
        case Data(ch) =>
          delivered, inited, ready, mapped, notices := HandleData(ch, frame.payload);
        case Dropped =>
      }
    }

    /** One turn of niceRecvCb's loop up to the dispatch: the pending
        octets are moved to the front (Compact), as much of the arrival from
        `pos` on as fits is copied in (CopyIn), and the header is read.
        `held` is what the buffer then holds, and `next` is where the
        arrival's unread part starts:
          - NeedMore: no whole frame yet, and all of the arrival is held;
          - BadHeader: an unacceptable length, both cursors reset to 0;
          - Whole: a frame is at the front of the buffer; what follows it
            is now pending. */
    method Reassemble(chunk: seq<byte>, pos: nat) returns (next: nat, status: Status, ghost held: seq<byte>)
      requires ReaderOk() && pos <= |chunk|
      modifies this`readedBytes, this`packetSize, recvBuffer
      ensures ReaderOk() && pos <= next <= |chunk|
      ensures old(Pending()) + chunk[pos..] == held + chunk[next..]
      ensures status == NeedMore ==> next == |chunk| && Incomplete(held) && Pending() == held
      ensures status == BadHeader ==>
                |held| >= HEADER_LEN && !SizeOk(DeclaredSize(held[1], held[2])) && readedBytes == 0 && Pending() == []
      ensures status == Whole ==>
                readedBytes >= packetSize + HEADER_LEN && WholeAtFront(held)
                && FirstFrame(held) == Frame(recvBuffer[0], recvBuffer[HEADER_LEN..packetSize + HEADER_LEN])
                && Pending() == AfterFirst(held)
    {
      next := Gather(chunk, pos);
      held := recvBuffer[..readedBytes];
      if readedBytes < HEADER_LEN {
        return next, NeedMore, held;
      }
      packetSize := DeclaredSize(recvBuffer[1], recvBuffer[2]);
      if !SizeOk(packetSize) {
        readedBytes := 0;
        packetSize := 0;
        return next, BadHeader, held;
      }
      if readedBytes < packetSize + HEADER_LEN {
        return next, NeedMore, held;
      }
      status := Whole;
      assert held[1] == recvBuffer[1] && held[2] == recvBuffer[2] && WholeAtFront(held);
      assert held[HEADER_LEN..packetSize + HEADER_LEN] == recvBuffer[HEADER_LEN..packetSize + HEADER_LEN];
    }

    /** The first half of a turn of niceRecvCb's loop: the pending octets
        are moved to the front (Compact), then as much of the arrival from
        `pos` on as fits is copied in behind them (CopyIn). Only a full
        buffer leaves part of the arrival unread. */
    method Gather(chunk: seq<byte>, pos: nat) returns (next: nat)
      requires ReaderOk() && pos <= |chunk|
      modifies this`readedBytes, this`packetSize, recvBuffer
      ensures recvBuffer.Length == BUFFER_LEN && 0 <= readedBytes <= BUFFER_LEN && pos <= next <= |chunk|
      ensures old(Pending()) + chunk[pos..] == recvBuffer[..readedBytes] + chunk[next..]
      ensures next < |chunk| ==> readedBytes == BUFFER_LEN
      ensures readedBytes < HEADER_LEN ==> packetSize == 0
    {
      Compact();
      // the header, if any, is now at the front, so the arrival is copied in
      var c := CopyIn(chunk, pos);
      next := pos + c;
      assert chunk[pos..] == chunk[pos..next] + chunk[next..];
    }

    /** The top of niceRecvCb's loop: once the frame at the front has been
        dispatched, the octets after it move to the front of the buffer and
        readedBytes drops by exactly packetSize + 3 (both cursors reset when
        nothing follows); otherwise nothing changes. Either way the buffer
        then starts with the pending octets. */
    method Compact()
      requires ReaderOk()
      modifies this`readedBytes, this`packetSize, recvBuffer
      ensures recvBuffer.Length == BUFFER_LEN && 0 <= readedBytes <= BUFFER_LEN
      ensures recvBuffer[..readedBytes] == old(Pending())
      ensures old(readedBytes) >= old(packetSize) + HEADER_LEN ==>
                readedBytes == old(readedBytes) - (old(packetSize) + HEADER_LEN) && packetSize == 0
      ensures old(readedBytes) < old(packetSize) + HEADER_LEN ==>
                readedBytes == old(readedBytes) && packetSize == old(packetSize) && recvBuffer[..] == old(recvBuffer[..])
      ensures readedBytes < HEADER_LEN ==> packetSize == 0
      ensures readedBytes >= HEADER_LEN && packetSize != 0 ==> readedBytes < packetSize + HEADER_LEN
      ensures pendingSend == old(pendingSend) && writer == old(writer) && timestamp == old(timestamp)
      ensures services == old(services) && stopped == old(stopped)
    {
      if readedBytes == packetSize + HEADER_LEN {
        readedBytes := 0;
        packetSize := 0;
      } else if readedBytes > packetSize + HEADER_LEN {
        var from := packetSize + HEADER_LEN;
        var count := readedBytes - from;
        forall k | 0 <= k < count {
          recvBuffer[k] := recvBuffer[from + k];
        }
        readedBytes := count;
        packetSize := 0;
      }
    }

    /** The copy of niceRecvCb's loop: as much of the arrival from `pos` on
        as the buffer has room for is appended to the held octets. */
    method CopyIn(chunk: seq<byte>, pos: nat) returns (c: nat)
      requires recvBuffer.Length == BUFFER_LEN && 0 <= readedBytes <= BUFFER_LEN && pos <= |chunk|
      modifies this`readedBytes, this`packetSize, recvBuffer
      ensures c == CopyCount(old(readedBytes), |chunk| - pos) && pos + c <= |chunk|
      ensures readedBytes == old(readedBytes) + c
      ensures recvBuffer[..readedBytes] == old(recvBuffer[..readedBytes]) + chunk[pos..pos + c]
      ensures packetSize == old(packetSize) && pendingSend == old(pendingSend) && writer == old(writer)
      ensures timestamp == old(timestamp) && services == old(services) && stopped == old(stopped)
    {
      c := CopyCount(readedBytes, |chunk| - pos);
      var at := readedBytes;
      forall k | 0 <= k < c {
        recvBuffer[at + k] := chunk[pos + k];
      }
      readedBytes := at + c;
    }

    /** iceStop (and iceFree, which adds only the freeing of memory): the
        services are dropped, every open socket is closed and unwatched and
        every held connection released, without asking the peer to close
        anything; the keepalive stops. */
    method Stop()
      requires Valid()
      modifies this`services, this`timestamp, this`stopped, conns, env
      ensures Valid() && stopped && timestamp == None && services == []
      ensures forall j :: 0 <= j < MAX_CH ==> conns[j] == old(conns[j]).(sock := -1, watched := false, connection := false)
      ensures env.closed == old(env.closed) + OpenSocks(old(conns[..]))
      ensures env.wire == old(env.wire) && env.written == old(env.written)
      ensures pendingSend == old(pendingSend) && readedBytes == old(readedBytes) && packetSize == old(packetSize)
    {
      services := [];
      ReleaseAll();
      timestamp := None;
      stopped := true;
    }

    /** The slot loop of iceStop: each slot in turn is closed without notice. */
    method ReleaseAll()
      requires Valid()
      modifies conns, env
      ensures Valid()
      ensures forall j :: 0 <= j < MAX_CH ==> conns[j] == old(conns[j]).(sock := -1, watched := false, connection := false)
      ensures env.closed == old(env.closed) + OpenSocks(old(conns[..]))
      ensures env.wire == old(env.wire) && env.written == old(env.written)
    {
      var i := 0;
      while i < MAX_CH
        invariant 0 <= i <= MAX_CH
        invariant Valid()
        invariant forall j :: 0 <= j < i ==> conns[j] == old(conns[j]).(sock := -1, watched := false, connection := false)
        invariant forall j :: i <= j < MAX_CH ==> conns[j] == old(conns[j])
        invariant env.closed == old(env.closed) + OpenSocks(old(conns[..])[..i])
        invariant env.wire == old(env.wire) && env.written == old(env.written)
      {
        OpenSocksStep(old(conns[..]), i);
        var _ := CloseChannel(i, false);
        i := i + 1;
      }
      assert old(conns[..])[..MAX_CH] == old(conns[..]);
    }
  }

  /** One more slot closed: ClosedSocks grows by that slot's socket, unless
      the slot came up before or has none. */
  lemma ClosedSocksStep(t: seq<Conn>, order: seq<int>, k: nat)
    requires |t| == MAX_CH && Slots(order) && k < |order|
    ensures ClosedSocks(t, order[..k + 1])
         == ClosedSocks(t, order[..k]) + (if order[k] !in order[..k] && t[order[k]].sock != -1 then [t[order[k]].sock] else [])
  {
    assert order[..k + 1][..k] == order[..k];
  }

  /** One more notice: Notices grows by the accepted part of that slot's Shut frame. */
  lemma NoticesStep(t: seq<Conn>, order: seq<int>, k: nat, accepted: seq<nat>, a: nat)
    requires |t| == MAX_CH && Slots(order) && k < |order| && NoticesFit(order[..k], accepted) && a <= 5
    ensures NoticesFit(order[..k + 1], accepted + [a])
    ensures Notices(t, order[..k + 1], accepted + [a]) == Notices(t, order[..k], accepted) + ShutFrame(t[order[k]].channel)[..a]
  {
    assert order[..k + 1][..k] == order[..k];
    assert (accepted + [a])[..k] == accepted;
  }

  /** The sockets closed and the notices sent depend only on the slots'
      sockets and channels. */
  lemma {:induction false} ClosingUsesSocksAndChannels(t: seq<Conn>, u: seq<Conn>, order: seq<int>, accepted: seq<nat>)
    requires |t| == MAX_CH && |u| == MAX_CH && Slots(order) && NoticesFit(order, accepted)
    requires forall j :: 0 <= j < MAX_CH ==> u[j].sock == t[j].sock && u[j].channel == t[j].channel
    ensures ClosedSocks(u, order) == ClosedSocks(t, order)
    ensures Notices(u, order, accepted) == Notices(t, order, accepted)
    decreases |order|
  {
    if order != [] {
      var n := |order| - 1;
      assert Slots(order[..n]) && NoticesFit(order[..n], accepted[..n]);
      ClosingUsesSocksAndChannels(t, u, order[..n], accepted[..n]);
    }
  }

  /** Closing, from what CloseAll leaves once the slot's child list was
      emptied (table `u`). */
  lemma ClosingFrom(b: Snapshot, u: seq<Conn>, a: Snapshot, i: int, pending: bool, accepted: seq<nat>)
    requires |b.table| == MAX_CH && |a.table| == MAX_CH && 0 <= i < MAX_CH && SlotOk(b.table[i])
    requires u == b.table[i := if b.table[i].proto == RTSP then b.table[i].(children := []) else b.table[i]]
    requires NoticesFit(CloseOrder(b.table[i], i), accepted)
    requires forall j :: 0 <= j < MAX_CH ==> a.table[j] == if j in CloseOrder(b.table[i], i) then Released(u[j]) else u[j]
    requires a.closed == b.closed + ClosedSocks(u, CloseOrder(b.table[i], i))
    requires a.wire == b.wire + (if pending then [] else Notices(u, CloseOrder(b.table[i], i), accepted))
    ensures Closing(b, a, i, pending, accepted)
  {
    ClosingUsesSocksAndChannels(b.table, u, CloseOrder(b.table[i], i), accepted);
  }

  /** Whole notices read back: when every Shut notice went out whole, the
      peer reads the notices as exactly one Shut request per closed slot,
      in order, each carrying that slot's channel. */
  lemma NoticesReadAsShut(t: seq<Conn>, order: seq<int>, accepted: seq<nat>)
    requires |t| == MAX_CH && Slots(order) && NoticesFit(order, accepted)
    requires forall k :: 0 <= k < |accepted| ==> accepted[k] == 5
    ensures Decode(Notices(t, order, accepted)) == Decoded(ShutRequests(t, order), [], false)
  {
    WholeNotices(t, order, accepted);
    StreamRoundTrip(ShutRequests(t, order));
  }

  /** Whole notices are the Shut requests, framed one after the other. */
  lemma {:induction false} WholeNotices(t: seq<Conn>, order: seq<int>, accepted: seq<nat>)
    requires |t| == MAX_CH && Slots(order) && NoticesFit(order, accepted)
    requires forall k :: 0 <= k < |accepted| ==> accepted[k] == 5
    ensures Notices(t, order, accepted) == EncodeAll(ShutRequests(t, order))
    decreases |order|
  {
    if order == [] {
      assert ShutRequests(t, order) == [];
    } else {
      var n := |order| - 1;
      var f := Frame(0, [SHUT, Lo(t[order[n]].channel)]);
      assert Slots(order[..n]) && NoticesFit(order[..n], accepted[..n]);
      WholeNotices(t, order[..n], accepted[..n]);
      assert ShutRequests(t, order) == ShutRequests(t, order[..n]) + [f];
      EncodeAllSnoc(ShutRequests(t, order[..n]), f);
      assert ShutFrame(t[order[n]].channel)[..accepted[n]] == Encode(f.channel, f.payload);
    }
  }

  /** A Map request as MapUdp and Accept frame it makes the peer's loop
      stop exactly when the requested channel is not a data channel or the
      peer's slot for it already has a socket. */
  lemma MapRequestStops(channel: int, localPort: nat, remotePort: nat, proto: int, stale: seq<byte>, table: seq<Conn>)
    requires 0 <= channel < 128 && 0 <= proto < 128 && localPort < 65536 && remotePort < 65536
    requires |table| == MAX_CH
    ensures Stops(MapRequest(channel, localPort, remotePort, proto) + stale, MAP_LEN, table)
        <==> !(MapChannelOk(channel) && table[channel].sock == -1)
  {
    MapRequestClassified(channel, localPort, remotePort, proto, stale);
  }

  lemma OpenSocksStep(cs: seq<Conn>, i: nat)
    requires i < |cs|
    ensures OpenSocks(cs[..i + 1]) == OpenSocks(cs[..i]) + (if cs[i].sock != -1 then [cs[i].sock] else [])
  {
    assert cs[..i + 1][..i] == cs[..i];
  }
}
