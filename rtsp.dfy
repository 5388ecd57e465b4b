/** Inspection of RTSP traffic crossing a tunnel channel (niceRecvCb): when
    a frame's text carries both "client_port=" and "server_port=" (the
    Transport header of a SETUP reply, section 12.39 of RFC 2326), the agent
    opens two extra UDP channels for the RTP and RTCP flows. */
module Rtsp {
  import opened Common

  const CLIENT_MARKER := "client_port="
  const SERVER_MARKER := "server_port="

  /** The text the inspection sees in a frame's payload: the last octet is
      overwritten with NUL to end the string, so the text stops before it
      (or at an earlier NUL). An empty payload yields no text. */
  function InspectedText(payload: seq<byte>): (text: string)
    ensures |payload| == 0 ==> text == []
    ensures |payload| > 0 ==> |text| < |payload|
    ensures forall k :: 0 <= k < |text| ==> text[k] as int == payload[k] && text[k] != '\0'
  {
    if |payload| == 0 then [] else Chars(CString(payload[..|payload| - 1]))
  }

  /** The number of characters before the first ';' or '-' (or the end). */
  function FieldRun(s: string): (n: nat)
    ensures n <= |s|
    ensures forall k :: 0 <= k < n ==> s[k] != ';' && s[k] != '-'
    ensures n < |s| ==> s[n] == ';' || s[n] == '-'
  {
    if s == [] || s[0] == ';' || s[0] == '-' then 0 else 1 + FieldRun(s[1..])
  }

  datatype RtpPorts = RtpPorts(client: int, server: int)

  /** The port atoi reads from a field, when the field is not empty. */
  function PortOf(field: string): (r: Option<int>)
  {
    if FieldRun(field) == 0 then None else Some(Atoi(field))
  }

  /** The text that follows the first occurrence of a marker. */
  function FieldAfter(text: string, marker: string): (r: Option<string>)
    ensures r.Some? <==> IndexOf(text, marker).Some?
  {
    var found := IndexOf(text, marker);
    if found.None? then None else Some(text[found.value + |marker|..])
  }

  /** The port read after the first occurrence of a marker. */
  function PortAfter(text: string, marker: string): (r: Option<int>)
    ensures r.Some? ==> IndexOf(text, marker).Some?
  {
    var field := FieldAfter(text, marker);
    if field.None? then None else PortOf(field.value)
  }

  /** The RTP ports announced by a text: both markers present and both
      fields non-empty. The fields need not be digits: atoi reads 0 from a
      field with none. */
  function Inspect(text: string): (r: Option<RtpPorts>)
    ensures r.Some? <==> PortAfter(text, CLIENT_MARKER).Some? && PortAfter(text, SERVER_MARKER).Some?
    ensures r.Some? ==> r.value == RtpPorts(PortAfter(text, CLIENT_MARKER).value, PortAfter(text, SERVER_MARKER).value)
  {
    var c := PortAfter(text, CLIENT_MARKER);
    var s := PortAfter(text, SERVER_MARKER);
    if c.Some? && s.Some? then Some(RtpPorts(c.value, s.value)) else None
  }

  lemma FieldRunOfDecimal(n: nat, rest: string)
    requires rest == [] || rest[0] == ';' || rest[0] == '-'
    ensures FieldRun(Decimal(n) + rest) == |Decimal(n)|
  {
    var ds := Decimal(n);
    forall k | 0 <= k < |ds|
      ensures ds[k] != ';' && ds[k] != '-'
    {
      assert IsDigit(ds[k]);
    }
    FieldRunOver(ds, rest);
  }

  lemma {:induction false} FieldRunOver(s: string, rest: string)
    requires forall k :: 0 <= k < |s| ==> s[k] != ';' && s[k] != '-'
    requires rest == [] || rest[0] == ';' || rest[0] == '-'
    ensures FieldRun(s + rest) == |s|
    decreases |s|
  {
    if s != [] {
      assert (s + rest)[1..] == s[1..] + rest;
      FieldRunOver(s[1..], rest);
    }
  }

  /** `port`, printed in decimal, follows the first occurrence of `marker`
      (which starts at `k`) and is ended by ';', '-' or the end of the text. */
  predicate PrintedAfter(text: string, marker: string, k: nat, port: nat)
  {
    IndexOf(text, marker) == Some(k) && PrintedAt(text, k + |marker|, port)
  }

  /** `port`, printed in decimal, starts at offset `i` of the text and is
      ended by ';', '-' or the end of the text. */
  predicate PrintedAt(text: string, i: nat, port: nat)
  {
    FieldIs(text, i, Decimal(port))
  }

  /** `digits` start at offset `i` of the text and are followed by ';', '-'
      or the end of the text. */
  predicate FieldIs(text: string, i: nat, digits: string)
  {
    i + |digits| <= |text|
    && text[i..i + |digits|] == digits
    && (i + |digits| == |text| || text[i + |digits|] == ';' || text[i + |digits|] == '-')
  }

  lemma FieldSplit(text: string, i: nat, digits: string)
    requires FieldIs(text, i, digits)
    ensures text[i..] == digits + text[i + |digits|..]
    ensures text[i + |digits|..] == [] || text[i + |digits|..][0] == ';' || text[i + |digits|..][0] == '-'
  {
    assert text[i..] == text[i..i + |digits|] + text[i + |digits|..];
  }

  lemma PortAfterDecimal(text: string, marker: string, k: nat, port: nat)
    requires PrintedAfter(text, marker, k, port)
    ensures PortAfter(text, marker) == Some(port)
  {
    var i := k + |marker|;
    PortOfPrinted(text, i, port);
    FieldAfterAt(text, marker, k);
    PortAfterOfField(text, marker, text[i..], port);
  }

  lemma PortAfterOfField(text: string, marker: string, field: string, port: int)
    requires FieldAfter(text, marker) == Some(field)
    requires PortOf(field) == Some(port)
    ensures PortAfter(text, marker) == Some(port)
  {
  }

  lemma FieldAfterAt(text: string, marker: string, k: nat)
    requires IndexOf(text, marker) == Some(k)
    ensures FieldAfter(text, marker) == Some(text[k + |marker|..])
  {
  }

  lemma PortOfPrinted(text: string, i: nat, port: nat)
    requires PrintedAt(text, i, port)
    ensures PortOf(text[i..]) == Some(port)
  {
    FieldSplit(text, i, Decimal(port));
    ReadPrinted(text[i..], Decimal(port), text[i + |Decimal(port)|..], port);
  }

  lemma ReadPrinted(field: string, digits: string, rest: string, port: nat)
    requires digits == Decimal(port) && field == digits + rest
    requires rest == [] || rest[0] == ';' || rest[0] == '-'
    ensures PortOf(field) == Some(port)
  {
    FieldRunOfDecimal(port, rest);
    AtoiDecimal(port, rest);
  }

  /** A SETUP reply whose Transport header gives client and server ports
      makes the inspection report exactly those ports. */
  lemma InspectTransport(text: string, a: nat, b: nat, client: nat, server: nat)
    requires PrintedAfter(text, CLIENT_MARKER, a, client)
    requires PrintedAfter(text, SERVER_MARKER, b, server)
    ensures Inspect(text) == Some(RtpPorts(client, server))
  {
    PortAfterDecimal(text, CLIENT_MARKER, a, client);
    PortAfterDecimal(text, SERVER_MARKER, b, server);
    InspectOfPorts(text, client, server);
  }

  lemma InspectOfPorts(text: string, client: int, server: int)
    requires PortAfter(text, CLIENT_MARKER) == Some(client)
    requires PortAfter(text, SERVER_MARKER) == Some(server)
    ensures Inspect(text) == Some(RtpPorts(client, server))
  {
  }

  /** A text lacking either marker opens no channel. */
  lemma InspectNeedsBoth(text: string)
    requires IndexOf(text, CLIENT_MARKER).None? || IndexOf(text, SERVER_MARKER).None?
    ensures Inspect(text).None?
  {
  }

  /** The text strstr scans as written. `buffer` is the reassembly buffer
      from the payload's first octet on and `size` the frame's length. The
      NUL goes at offset size - 1: a non-empty payload is scanned up to its
      last octet, exactly as InspectedText says; for an empty payload the
      NUL lands on the header's last octet instead, and the scan runs over
      the octets after the frame (the next frame's, or stale ones) up to the
      first NUL. Reading past the buffer's end is not modelled: the text
      stops there. */
  function InspectedTextAsWritten(buffer: seq<byte>, size: nat): (text: string)
    requires size <= |buffer|
    ensures size > 0 ==> text == InspectedText(buffer[..size])
    ensures size == 0 ==> |text| <= |buffer| && forall k :: 0 <= k < |text| ==> text[k] as int == buffer[k] && text[k] != '\0'
    ensures size == 0 && |text| < |buffer| ==> buffer[|text|] == 0
  {
    if size > 0 then InspectedText(buffer[..size]) else Chars(CString(buffer))
  }

  /** As written, an empty RTSP frame followed in the buffer by a Transport
      text giving client and server ports, ended by a NUL, opens the RTP
      pair for those ports, though the frame itself announces nothing. */
  lemma EmptyFrameReadsOnAsWritten(buffer: seq<byte>, text: string, a: nat, b: nat, client: nat, server: nat)
    requires |text| < |buffer| && buffer[|text|] == 0
    requires forall k :: 0 <= k < |text| ==> buffer[k] == text[k] as int && text[k] != '\0'
    requires PrintedAfter(text, CLIENT_MARKER, a, client)
    requires PrintedAfter(text, SERVER_MARKER, b, server)
    ensures Inspect(InspectedTextAsWritten(buffer, 0)) == Some(RtpPorts(client, server))
    ensures Inspect(InspectedText(buffer[..0])).None?
  {
    TerminatedText(buffer, text);
    InspectTransport(text, a, b, client, server);
  }

  /** Octets spelling a NUL-free text and then a NUL are read as that text. */
  lemma TerminatedText(buffer: seq<byte>, text: string)
    requires |text| < |buffer| && buffer[|text|] == 0
    requires forall k :: 0 <= k < |text| ==> buffer[k] == text[k] as int && text[k] != '\0'
    ensures Chars(CString(buffer)) == text
  {
    var r := CString(buffer);
    if |r| < |text| {
      assert false;
    }
    if |r| > |text| {
      assert false;
    }
  }

  /** The two UDP mappings the inspection asks for, as the unsigned short
      local and remote ports portMapInternal receives: the announced pair
      and the pair one above it. */
  function RtpMappings(ports: RtpPorts): (m: seq<(nat, nat)>)
    ensures |m| == 2
    ensures m[0] == (Port16(ports.client), Port16(ports.server))
    ensures m[1] == (Port16(ports.client + 1), Port16(ports.server + 1))
    ensures forall k :: 0 <= k < 2 ==> m[k].0 < 65536 && m[k].1 < 65536
  {
    [(Port16(ports.client), Port16(ports.server)), (Port16(ports.client + 1), Port16(ports.server + 1))]
  }
}
