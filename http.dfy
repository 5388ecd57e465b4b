/** Reading an HTTP response into a fixed buffer and taking its status code
    (section 3.1.2 of RFC 7230: the three-digit code follows "HTTP/1.1 " at
    offset 9). Both the TLS client (secure.c, httpsReceive) and the plain
    client (web.c, httpReceive) read until the peer stops or the buffer is
    full. */
module Http {
  import opened Common

  /** The size of the response buffer (secure.h). */
  const HTTP_MAX_RESP := 8192
  const HTTP_VERSION := "HTTP/1.1"

  /** What one read call (SSL_read or recv) reports: the octets the peer
      has sent that are waiting (at least one), "try again" (EAGAIN or
      SSL_ERROR_WANT_READ), end of stream, or another error. */
  datatype Recv = Data(bytes: seq<byte>) | Again | Closed | Failed

  /** A read that ends the stream: end of stream, an error, or a read of
      no octets (which the clients treat as the end). */
  predicate Ends(r: Recv)
  {
    r.Closed? || r.Failed? || r == Data([])
  }

  /** The octets a read delivers. */
  function Piece(r: Recv): (p: seq<byte>)
    ensures r.Data? ==> p == r.bytes
    ensures !r.Data? ==> p == []
  {
    if r.Data? then r.bytes else []
  }

  /** Every octet the peer delivers before the stream ends, in order. A
      script that runs out ends the stream. */
  function Stream(script: seq<Recv>): seq<byte>
    decreases |script|
  {
    if script == [] || Ends(script[0]) then [] else Piece(script[0]) + Stream(script[1..])
  }

  /** What ends up in the buffer: the stream, cut to the HTTP_MAX_RESP - 1
      octets the reads may fill (one octet is kept for the terminator). */
  function Received(script: seq<Recv>): (r: seq<byte>)
    ensures |r| <= HTTP_MAX_RESP - 1 && r <= Stream(script)
    ensures |Stream(script)| <= HTTP_MAX_RESP - 1 ==> r == Stream(script)
  {
    if |Stream(script)| <= HTTP_MAX_RESP - 1 then Stream(script) else Stream(script)[..HTTP_MAX_RESP - 1]
  }

  /** The status test of both clients on the buffer read as a C string:
      the text must begin with "HTTP/1.1" (strstr finds it at offset 0) and
      be longer than 11 characters; the code is atoi of the text from
      offset 9. Otherwise -1. */
  function StatusOf(response: seq<byte>): (code: int)
    ensures IndexOf(Chars(CString(response)), HTTP_VERSION) != Some(0) ==> code == -1
  {
    var text := Chars(CString(response));
    if IndexOf(text, HTTP_VERSION) == Some(0) && |text| > 11 then Atoi(text[9..]) else -1
  }

  /** What the read loop keeps true of the buffer `b` (which held `orig`
      before the first read) with `offset` octets read: they are a prefix of
      the stream `full`, and unless the buffer is full they and the octets
      still to come (`rest`) make up the whole stream; with `terminate` a
      NUL follows them, without it the rest of the buffer is as it was. */
  ghost predicate Filled(b: seq<byte>, orig: seq<byte>, offset: nat, terminate: bool, rest: seq<byte>, full: seq<byte>)
  {
    |b| == |orig| == HTTP_MAX_RESP && offset <= HTTP_MAX_RESP - 1
    && b[..offset] <= full
    && (offset < HTTP_MAX_RESP - 1 ==> b[..offset] + rest == full)
    && (terminate && offset > 0 ==> b[offset] == 0)
    && (!terminate ==> b[offset..] == orig[offset..])
    && (offset == 0 ==> b[0] == orig[0])
  }

  /** The read loop of httpsReceive and httpReceive. Each read asks for at
      most HTTP_MAX_RESP - (offset + 1) octets; "try again" reads again;
      end of stream, an error, or a full buffer (a read of 0 octets) ends
      the loop. With `terminate` (httpsReceive) a NUL is written after the
      data of every read; without it (httpReceive) the rest of the buffer
      is left as it was. */
  method ReadResponse(buf: array<byte>, script: seq<Recv>, terminate: bool) returns (offset: nat)
    requires buf.Length == HTTP_MAX_RESP
    modifies buf
    ensures offset < HTTP_MAX_RESP && buf[..offset] <= Stream(script)
    ensures offset < HTTP_MAX_RESP - 1 ==> buf[..offset] == Stream(script)
    ensures terminate && offset > 0 ==> buf[offset] == 0
    ensures !terminate ==> buf[offset..] == old(buf[offset..])
    ensures offset == 0 ==> buf[0] == old(buf[0])
  {
    ghost var rests := Rests(script);
    ghost var rest := rests[0];
    offset := 0;
    var i := 0;
    var more := true;
    while more && i < |script|
      invariant 0 <= i <= |script|
      invariant Filled(buf[..], old(buf[..]), offset, terminate, rest, rests[0])
      invariant more ==> rest == rests[i]
      invariant !more && offset < HTTP_MAX_RESP - 1 ==> rest == []
      decreases |script| - i, more
    {
      var stop;
      offset, stop, rest := ReadOnce(buf, offset, script[i], terminate, old(buf[..]), rest, rests[i + 1], rests[0]);
      more := !stop;
      if more {
        i := i + 1;
      }
    }
    Finished(buf[..], old(buf[..]), offset, terminate, rest, rests[0]);
  }

  /** When the loop is over, the octets read are the whole stream unless
      the buffer is full. */
  lemma Finished(b: seq<byte>, orig: seq<byte>, offset: nat, terminate: bool, rest: seq<byte>, full: seq<byte>)
    requires Filled(b, orig, offset, terminate, rest, full)
    requires offset < HTTP_MAX_RESP - 1 ==> rest == []
    ensures offset < HTTP_MAX_RESP && b[..offset] <= full
    ensures offset < HTTP_MAX_RESP - 1 ==> b[..offset] == full
  {
    if offset < HTTP_MAX_RESP - 1 {
      assert b[..offset] + [] == b[..offset];
    }
  }

  /** The stream from each read on: `r[i]` is what the reads from `i` on
      deliver. */
  ghost function Rests(script: seq<Recv>): (r: seq<seq<byte>>)
    ensures |r| == |script| + 1 && r[0] == Stream(script) && r[|script|] == []
    ensures forall i {:trigger script[i]} :: 0 <= i < |script| ==>
      r[i] == if Ends(script[i]) then [] else Piece(script[i]) + r[i + 1]
  {
    StreamSteps(script);
    assert script[0..] == script;
    seq(|script| + 1, i requires 0 <= i <= |script| => Stream(script[i..]))
  }

  lemma StreamSteps(script: seq<Recv>)
    ensures forall i {:trigger script[i]} :: 0 <= i < |script| ==>
      Stream(script[i..]) == if Ends(script[i]) then [] else Piece(script[i]) + Stream(script[i + 1..])
  {
    forall i | 0 <= i < |script|
      ensures Stream(script[i..]) == if Ends(script[i]) then [] else Piece(script[i]) + Stream(script[i + 1..])
    {
      assert script[i..][0] == script[i] && script[i..][1..] == script[i + 1..];
    }
  }

  /** What the loop leaves in the buffer, a prefix of the stream that is
      all of it unless the buffer is full, is what the reads may fill. */
  lemma AllReceived(got: seq<byte>, script: seq<Recv>)
    requires |got| <= HTTP_MAX_RESP - 1 && got <= Stream(script)
    requires |got| < HTTP_MAX_RESP - 1 ==> got == Stream(script)
    ensures got == Received(script)
  {
  }

  /** Taking the first `n` octets of the next piece `d` of a stream keeps
      what was taken a prefix of the stream. */
  lemma PrefixStep(pre: seq<byte>, d: seq<byte>, n: nat, tail: seq<byte>, full: seq<byte>)
    requires pre + d + tail == full && n <= |d|
    ensures pre + d[..n] <= full
    ensures n == |d| ==> pre + d[..n] + tail == full
  {
    assert (pre + d[..n]) + (d[n..] + tail) == full;
  }

  /** One read at `offset` and what the client does with its outcome,
      giving the new offset: the read asks for HTTP_MAX_RESP - (offset + 1)
      octets, so with the buffer full it delivers none and the loop stops;
      otherwise the octets it delivers are taken in (`Deliver`), "try
      again" changes nothing, and a read that ends the stream stops the
      loop. `rest` is the stream from this read on and `tail` the stream
      after it. */
  method ReadOnce(buf: array<byte>, offset: nat, r: Recv, terminate: bool,
                  ghost orig: seq<byte>, ghost rest: seq<byte>, ghost tail: seq<byte>, ghost full: seq<byte>)
    returns (after: nat, stop: bool, ghost next: seq<byte>)
    requires Filled(buf[..], orig, offset, terminate, rest, full)
    requires rest == if Ends(r) then [] else Piece(r) + tail
    modifies buf
    ensures stop == (Ends(r) || offset == HTTP_MAX_RESP - 1) && (stop ==> after == offset)
    ensures next == if stop then rest else tail
    ensures Filled(buf[..], orig, after, terminate, next, full)
  {
    after, stop := offset, Ends(r) || offset == HTTP_MAX_RESP - 1;
    next := if stop then rest else tail;
    if stop {
    } else if r.Data? {
      ghost var pre := buf[..];
      var n := Deliver(buf, offset, r.bytes, HTTP_MAX_RESP - (offset + 1), terminate, tail, full);
      after := offset + n;
      assert !terminate ==> buf[after..] == orig[after..] by {
        if !terminate {
          assert pre[offset..] == orig[offset..];
          assert forall k :: after <= k < HTTP_MAX_RESP ==> buf[k] == pre[k] == pre[offset..][k - offset];
        }
      }
    }
  }

  /** One successful read: up to `room` octets of `d` copied in at
      `offset`, then (with `terminate`) the NUL after them. When `d` is the
      next piece of a stream `full` that goes on with `tail`, what the
      buffer holds stays a prefix of the stream, and the whole of `d` fits
      unless the buffer is then full. */
  method Deliver(buf: array<byte>, offset: nat, d: seq<byte>, room: nat, terminate: bool, ghost tail: seq<byte>, ghost full: seq<byte>)
    returns (n: nat)
    requires 0 < room && offset + room == buf.Length - 1 && d != []
    requires buf[..offset] + d + tail == full
    modifies buf
    ensures n == if |d| <= room then |d| else room
    ensures 0 < n && buf[..offset + n] == old(buf[..offset]) + d[..n]
    ensures buf[..offset + n] <= full
    ensures offset + n < buf.Length - 1 ==> buf[..offset + n] + tail == full
    ensures terminate ==> buf[offset + n] == 0
    ensures !terminate ==> forall k :: offset + n <= k < buf.Length ==> buf[k] == old(buf[k])
  {
    ghost var pre := buf[..offset];
    n := if |d| <= room then |d| else room;
    CopyInto(buf, offset, d[..n]);
    if terminate {
      buf[offset + n] := 0;
      assert buf[..offset + n] == old(buf[..offset]) + d[..n];
    }
    PrefixStep(pre, d, n, tail, full);
  }

  /** The copy a read makes of the octets it delivers into the buffer at `at`. */
  method CopyInto(buf: array<byte>, at: nat, data: seq<byte>)
    requires at + |data| <= buf.Length
    modifies buf
    ensures buf[..at + |data|] == old(buf[..at]) + data
    ensures forall k :: at + |data| <= k < buf.Length ==> buf[k] == old(buf[k])
  {
    forall k | at <= k < at + |data| {
      buf[k] := data[k - at];
    }
  }

  /** httpsReceive: the received octets and the status code, which is read
      only when more than 11 octets arrived (`initial` is what the fresh
      buffer holds before the first read). */
  method HttpsReceive(script: seq<Recv>, initial: seq<byte>) returns (response: array<byte>, offset: nat, status: int)
    requires |initial| == HTTP_MAX_RESP
    ensures response.Length == HTTP_MAX_RESP && offset < HTTP_MAX_RESP
    ensures response[..offset] == Received(script) && (offset > 0 ==> response[offset] == 0)
    ensures status == StatusOf(Received(script))
  {
    response := new byte[HTTP_MAX_RESP](k requires 0 <= k < HTTP_MAX_RESP => initial[k]);
    offset := ReadResponse(response, script, true);
    AllReceived(response[..offset], script);
    if offset > 11 {
      CStringStops(response[..], offset);
      StatusOfSameString(response[..], response[..offset]);
      status := StatusOf(response[..]);
    } else {
      ShortStatus(Received(script));
      status := -1;
    }
  }

  /** httpReceive as written: the buffer is never NUL-terminated, so the
      status test reads on from the received octets into whatever the
      buffer held before. */
  method HttpReceiveAsWritten(script: seq<Recv>, initial: seq<byte>) returns (status: int)
    requires |initial| == HTTP_MAX_RESP
    ensures status == StatusOf(Received(script) + initial[|Received(script)|..])
  {
    var response := ReadUnterminated(script, initial);
    status := StatusOf(response[..]);
  }

  /** The reads of httpReceive into a fresh buffer that holds `initial`:
      the received octets, then what the buffer held past them. */
  method ReadUnterminated(script: seq<Recv>, initial: seq<byte>) returns (response: array<byte>)
    requires |initial| == HTTP_MAX_RESP
    ensures |Received(script)| <= |initial|
    ensures response[..] == Received(script) + initial[|Received(script)|..]
  {
    response := new byte[HTTP_MAX_RESP](k requires 0 <= k < HTTP_MAX_RESP => initial[k]);
    assert response[..] == initial;
    var offset := ReadResponse(response, script, false);
    AllReceived(response[..offset], script);
    assert |Received(script)| == offset;
    assert response[offset..] == initial[offset..];
    assert response[..] == response[..offset] + response[offset..];
  }

  /** httpReceive with the buffer kept NUL-terminated, as httpsReceive
      keeps it: the status code depends on the received octets only. */
  method HttpReceive(script: seq<Recv>, initial: seq<byte>) returns (status: int)
    requires |initial| == HTTP_MAX_RESP
    ensures status == StatusOf(Received(script))
  {
    var response := new byte[HTTP_MAX_RESP](k requires 0 <= k < HTTP_MAX_RESP => initial[k]);
    response[0] := 0;
    var offset := ReadResponse(response, script, true);
    AllReceived(response[..offset], script);
    CStringStops(response[..], offset);
    StatusOfSameString(response[..], response[..offset]);
    status := StatusOf(response[..]);
  }

  /** A text of at most 11 octets has no status code. */
  lemma ShortStatus(response: seq<byte>)
    requires |response| <= 11
    ensures StatusOf(response) == -1
  {
  }

  lemma StatusOfSameString(a: seq<byte>, b: seq<byte>)
    requires CString(a) == CString(b)
    ensures StatusOf(a) == StatusOf(b)
  {
  }

  /** A NUL right after the data ends the C string there. */
  lemma {:induction false} CStringStops(s: seq<byte>, n: nat)
    requires n < |s| && s[n] == 0
    ensures CString(s) == CString(s[..n])
    decreases n
  {
    if n > 0 && s[0] != 0 {
      assert s[1..][n - 1] == 0;
      CStringStops(s[1..], n - 1);
      assert s[..n][1..] == s[1..][..n - 1];
    }
  }

  /** A string as octets, each character cut to its low eight bits. */
  function Octets(s: string): (bs: seq<byte>)
    ensures |bs| == |s| && forall k :: 0 <= k < |s| ==> bs[k] == s[k] as int % 256
  {
    seq(|s|, k requires 0 <= k < |s| => s[k] as int % 256)
  }

  /** A response whose status line is "HTTP/1.1 " and a code of three
      digits or more yields that code. */
  lemma StatusOfLine(code: nat, rest: string)
    requires 100 <= code
    requires rest == [] || !IsDigit(rest[0])
    requires Text8(rest)
    ensures StatusOf(Octets(HTTP_VERSION + " " + Decimal(code) + rest)) == code
  {
    DecimalWidth(code);
    AtoiDecimal(code, rest);
    StatusOfDigits(Decimal(code), rest, code);
  }

  /** The status line "HTTP/1.1 " followed by at least three digits. */
  lemma StatusOfDigits(ds: string, rest: string, code: int)
    requires |ds| >= 3 && AllDigits(ds)
    requires Text8(rest)
    requires Atoi(ds + rest) == code
    ensures StatusOf(Octets(HTTP_VERSION + " " + ds + rest)) == code
  {
    var text := HTTP_VERSION + " " + ds + rest;
    assert Text8(HTTP_VERSION + " ");
    Text8Concat(HTTP_VERSION + " ", ds);
    Text8Concat(HTTP_VERSION + " " + ds, rest);
    OctetsText(text);
    assert text[..|HTTP_VERSION|] == HTTP_VERSION;
    AfterVersion(ds, rest);
    StatusOfText(Octets(text), text);
  }

  /** A text of 8-bit characters without NUL. */
  predicate Text8(s: string)
  {
    forall k :: 0 <= k < |s| ==> 0 < s[k] as int < 256
  }

  lemma Text8Concat(a: string, b: string)
    requires Text8(a) && (Text8(b) || AllDigits(b))
    ensures Text8(a + b)
  {
    forall k | 0 <= k < |a + b|
      ensures 0 < (a + b)[k] as int < 256
    {
      if k >= |a| {
        assert (a + b)[k] == b[k - |a|];
      }
    }
  }

  /** Octets of a NUL-free 8-bit string read back as that string. */
  lemma OctetsText(text: string)
    requires Text8(text)
    ensures CString(Octets(text)) == Octets(text) && Chars(Octets(text)) == text
  {
    var bs := Octets(text);
    forall k | 0 <= k < |bs|
      ensures bs[k] == text[k] as int && bs[k] != 0
    {
    }
    NoNul(bs);
    assert Chars(bs) == text;
  }

  lemma AfterVersion(ds: string, rest: string)
    ensures (HTTP_VERSION + " " + ds + rest)[9..] == ds + rest
  {
  }

  lemma StatusOfText(bs: seq<byte>, text: string)
    requires CString(bs) == bs && Chars(bs) == text
    requires IndexOf(text, HTTP_VERSION) == Some(0) && |text| > 11
    ensures StatusOf(bs) == Atoi(text[9..])
  {
  }

  lemma {:induction false} NoNul(bs: seq<byte>)
    requires forall k :: 0 <= k < |bs| ==> bs[k] != 0
    ensures CString(bs) == bs
    decreases |bs|
  {
    if bs != [] {
      NoNul(bs[1..]);
    }
  }

  lemma DecimalWidth(n: nat)
    requires n >= 100
    ensures |Decimal(n)| >= 3
  {
    DecimalLength(n);
    DecimalLength(n / 10);
  }

  lemma DecimalLength(n: nat)
    ensures |Decimal(n)| == if n < 10 then 1 else |Decimal(n / 10)| + 1
  {
  }

  /** Finding: with the buffer left unterminated, a "HTTP/1.1 200" reply
      read into a buffer that happened to hold '7' and then NUL after it is
      taken for status 2007; the terminated read gives 200. */
  lemma UnterminatedStatus(initial: seq<byte>)
    requires |initial| == HTTP_MAX_RESP && initial[12] == '7' as int && initial[13] == 0
    ensures var reply := [Data(Octets("HTTP/1.1 200"))];
      StatusOf(Received(reply) + initial[|Received(reply)|..]) == 2007
      && StatusOf(Received(reply)) == 200
  {
    ReceivedSingle(Octets("HTTP/1.1 200"));
    Line200();
    StatusOfLine(200, []);
    StaleDigit(initial);
  }

  lemma DecimalLiterals()
    ensures Decimal(200) == "200" && Decimal(2007) == "2007"
  {
    assert Decimal(2) == "2";
    assert Decimal(20) == "20";
    assert Decimal(200) == "200";
  }

  /** A script of one read delivering a short reply receives that reply. */
  lemma ReceivedSingle(bs: seq<byte>)
    requires 0 < |bs| <= HTTP_MAX_RESP - 1
    ensures Received([Data(bs)]) == bs
  {
    assert [Data(bs)][1..] == [];
    assert Stream([Data(bs)]) == bs + Stream([]);
  }

  lemma Line200()
    ensures "HTTP/1.1 200" == HTTP_VERSION + " " + Decimal(200) + []
  {
    DecimalLiterals();
  }

  lemma Line2007()
    ensures "HTTP/1.1 2007" == HTTP_VERSION + " " + Decimal(2007) + []
  {
    DecimalLiterals();
  }

  /** The stale '7' and NUL after the 12 received octets extend the C string
      to "HTTP/1.1 2007". */
  lemma StaleDigit(initial: seq<byte>)
    requires |initial| == HTTP_MAX_RESP && initial[12] == '7' as int && initial[13] == 0
    ensures StatusOf(Octets("HTTP/1.1 200") + initial[12..]) == 2007
  {
    StaleFront(initial);
    SameStatus(Octets("HTTP/1.1 200") + initial[12..], Octets("HTTP/1.1 2007"), 13);
    Line2007();
    StatusOfLine(2007, []);
  }

  /** A buffer holding a NUL-free text and then a NUL has that text's status. */
  lemma SameStatus(buf: seq<byte>, text: seq<byte>, n: nat)
    requires n < |buf| && buf[n] == 0 && buf[..n] == text
    requires forall k :: 0 <= k < |text| ==> text[k] != 0
    ensures StatusOf(buf) == StatusOf(text)
  {
    CStringStops(buf, n);
    NoNul(text);
    StatusOfSameString(buf, text);
  }

  lemma StaleFront(initial: seq<byte>)
    requires |initial| == HTTP_MAX_RESP && initial[12] == '7' as int && initial[13] == 0
    ensures var joined := Octets("HTTP/1.1 200") + initial[12..];
      joined[13] == 0 && joined[..13] == Octets("HTTP/1.1 2007")
  {
  }
}
