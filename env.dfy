/** The world outside the tunnel agent: the reliable ICE Transport stream
    (libnice) and the local sockets of the mapped connections. Each call
    chooses its outcome freely within what the corresponding C call can
    return; what the call passes on is recorded in logs that the agent's
    contracts refer to. */
module Io {
  import opened Common

  /** A local host address: unset (an uninitialised slot), INADDR_ANY or 127.0.0.1. */
  datatype IpHost = Unset | AnyHost | Loopback

  datatype Addr = Addr(host: IpHost, port: int)

  /** What recvfrom on a local socket gives: data, end of stream, "try
      again" (EAGAIN/EWOULDBLOCK) or another error. */
  datatype RecvResult = Got(data: seq<byte>) | Eof | Again | Failed

  /** The octets of a log of writes, in order. */
  function Bytes(ws: seq<(int, seq<byte>)>): seq<byte>
    decreases |ws|
  {
    if ws == [] then [] else Bytes(ws[..|ws| - 1]) + ws[|ws| - 1].1
  }

  lemma BytesSnoc(ws: seq<(int, seq<byte>)>, w: (int, seq<byte>))
    ensures Bytes(ws + [w]) == Bytes(ws) + w.1
  {
    assert (ws + [w])[..|ws|] == ws;
  }

  /** One more write of the next `n` octets of `data` extends what a log
      holds of `data` since `before` by those octets. */
  lemma BytesStep(before: seq<(int, seq<byte>)>, w: seq<(int, seq<byte>)>, fd: int, data: seq<byte>, sent: nat, n: nat)
    requires |before| <= |w| && sent + n <= |data|
    requires Bytes(w[|before|..]) == data[..sent]
    ensures Bytes((w + [(fd, data[sent..][..n])])[|before|..]) == data[..sent + n]
  {
    assert (w + [(fd, data[sent..][..n])])[|before|..] == w[|before|..] + [(fd, data[sent..][..n])];
    BytesSnoc(w[|before|..], (fd, data[sent..][..n]));
    assert data[..sent] + data[sent..][..n] == data[..sent + n];
  }

  /** The results sendto() may give for a buffer of `n` octets. */
  predicate SendToOutcome(fd: int, n: nat, r: int)
  {
    (r == -1 || 1 <= r <= n) && (fd < 0 ==> r == -1)
  }

  class Env {
    /** Every octet the Transport accepted, in order. */
    var wire: seq<byte>
    /** Every write to a local socket: the descriptor and the octets. */
    var written: seq<(int, seq<byte>)>
    /** Every descriptor closed, in order. */
    var closed: seq<int>

    constructor ()
      ensures wire == [] && written == [] && closed == []
    {
      wire := [];
      written := [];
      closed := [];
    }

    /** nice_agent_send on the reliable stream: -1 on error, otherwise the
        number of leading octets accepted. */
    method TransportSend(data: seq<byte>) returns (r: int)
      modifies this
      ensures -1 <= r <= |data|
      ensures wire == old(wire) + data[..if r < 0 then 0 else r]
      ensures written == old(written) && closed == old(closed)
    {
      r :| -1 <= r <= |data|;
      wire := wire + data[..if r < 0 then 0 else r];
    }

    /** socket(): a new descriptor, or -1. */
    method NewSocket() returns (fd: int)
      ensures fd >= -1
    {
      fd :| fd >= -1;
    }

    /** bind() of a descriptor to a local address. */
    method Bind(fd: int, addr: Addr) returns (ok: bool)
      ensures fd < 0 ==> !ok
    {
      ok :| fd < 0 ==> !ok;
    }

    /** connect() of a stream descriptor to an address. */
    method Connect(fd: int, addr: Addr) returns (ok: bool)
      ensures fd < 0 ==> !ok
    {
      ok :| fd < 0 ==> !ok;
    }

    /** Adding a listening address to a GSocketService. */
    method Listen(port: int) returns (ok: bool)
    {
      ok :| true;
    }

    /** sendto() of a non-empty buffer: -1 on an error, otherwise a number
        of leading octets written. The EAGAIN busy-retry of the caller
        happens inside: "try again" is never returned. */
    method SendTo(fd: int, data: seq<byte>, dst: Addr) returns (r: int)
      requires |data| > 0
      modifies this
      ensures r == -1 || 1 <= r <= |data|
      ensures fd < 0 ==> r == -1
      ensures written == old(written) + (if r > 0 then [(fd, data[..r])] else [])
      ensures wire == old(wire) && closed == old(closed)
    {
      assert SendToOutcome(fd, |data|, -1);
      r :| SendToOutcome(fd, |data|, r);
      assert SendToOutcome(fd, |data|, r);
      if r > 0 {
        written := written + [(fd, data[..r])];
      }
    }

    /** The sendto loop of niceRecvCb: write the whole of `data` to `fd`,
        piece by piece, until it is all written (ok) or a write fails. */
    method WriteAll(fd: int, data: seq<byte>, dst: Addr) returns (ok: bool)
      modifies this
      ensures |old(written)| <= |written| && written[..|old(written)|] == old(written)
      ensures ok ==> Bytes(written[|old(written)|..]) == data
      ensures forall k :: |old(written)| <= k < |written| ==> written[k].0 == fd
      ensures !ok ==> |data| > 0
      ensures fd < 0 && |data| > 0 ==> !ok
      ensures wire == old(wire) && closed == old(closed)
    {
      ghost var before := written;
      var sent := 0;
      ok := true;
      while sent < |data|
        invariant 0 <= sent <= |data|
        invariant |before| <= |written| && written[..|before|] == before
        invariant Bytes(written[|before|..]) == data[..sent]
        invariant forall k :: |before| <= k < |written| ==> written[k].0 == fd
        invariant wire == old(wire) && closed == old(closed)
        invariant fd < 0 ==> sent == 0
        decreases |data| - sent
      {
        ghost var w := written;
        var r := SendTo(fd, data[sent..], dst);
        if r == -1 {
          ok := false;
          break;
        }
        BytesStep(before, w, fd, data, sent, r);
        sent := sent + r;
      }
      if ok {
        assert data[..sent] == data;
      }
    }

    /** recvfrom() of at most `max` octets without blocking. */
    method RecvFrom(fd: int, max: nat) returns (res: RecvResult)
      ensures res.Got? ==> 1 <= |res.data| <= max
      ensures fd < 0 ==> res.Failed?
    {
      res :| (res.Got? ==> 1 <= |res.data| <= max) && (fd < 0 ==> res.Failed?);
    }

    /** close(). */
    method Close(fd: int)
      modifies this
      ensures closed == old(closed) + [fd]
      ensures wire == old(wire) && written == old(written)
    {
      closed := closed + [fd];
    }
  }
}
