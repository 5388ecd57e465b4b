# Tunnel multiplexer of the IoT connectivity library, in Dafny

The library lets a client reach TCP, UDP and RTSP services on a remote
device across NATs. It carries many local connections over one reliable
ICE Transport stream (libnice). This project models the core of that
library and proves properties of the model:

- **Frame** (`frame.dfy`): the frame format `[channel][length, big-endian][payload]`. `Decode` is the
  reference reading of a byte stream as frames. Its lemmas give the round
  trips and show that reassembly does not depend on how the stream is cut
  into pieces.
- **Control** (`control.dfy`): the control messages on channel 0 (Map, Shut, Ping, Free, Pong).
  It covers the Map request's seven octets and how a receiver classifies a
  control frame.
- **Rtsp** (`rtsp.dfy`): the inspection of RTSP traffic. A SETUP reply that announces
  `client_port=` and `server_port=` makes the agent open two RTP channels.
- **Io** (`env.dfy`): the world outside the agent, meaning the Transport and the local sockets.
  A class whose methods choose any outcome the corresponding C call can
  return, and log what was sent, written and closed.
- **Tunnel** (`tunnel.dfy`): the agent of `ice.c` as a class. It holds the 50-slot channel table
  (an array), the 1550-octet reassembly buffer (an array) and its cursors,
  the shared pending-send flag, the keepalive timestamp and the listening
  services. Its methods model:
  - port mapping, accepting a connection and closing a channel;
  - flow control (`niceCanWriteCb`) and the keepalive timer;
  - forwarding from local sockets, and the reassembly and dispatch loop of `niceRecvCb`.

  The reassembly loop is proved against `Frame.Decode`.
- **Sdp** (`sdp.dfy`): the one-line session description the peers exchange (ufrag, password,
  candidates) and `iceSetRemoteSdp`'s reading of it. A round-trip lemma
  connects the two.
- **PemUrl** (`pemurl.dfy`): `pemToUrl`, the percent-encoding of a PEM text.
- **Http** (`http.dfy`): the read loops of `httpsReceive` and `httpReceive`, and their status-code
  extraction.
- **Web** (`serverlist.dfy`): `getJSONVal`, `parseList` (working in place on the response buffer)
  and the server list with its `iotcServerListDeleteFirst`/`Free`.
- **Ssdp** (`ssdp.dfy`): LAN discovery. It covers the IP and uuid a client reads from an
  announcement, the discovered list, the four resource strings a device
  advertises and the rule that re-registers them when the device's IP changes.

A C `char` is taken as signed, as with gcc on x86. Integers are
unbounded. Every narrowing the code performs is written out:
- a channel to one octet;
- a port to an unsigned short;
- a priority to a `guint32`.

Three points of the tunnel's behaviour that are easy to misread:
- **Ping after the timeout.** The keepalive sends a Ping whenever more than `ICE_TIMEOUT_INTERVAL/2`
  = 2 whole seconds passed. It does so also past the 30-second timeout when no status callback
  was given (`Tunnel.KeepaliveAction`, ice.c:137-153).
- **Failed connect.** A stream socket whose `connect` fails stays in its slot, unwatched.
  The channel is not left free (`Tunnel.Agent.InitSocket`, ice.c:497-505).
- **Length bound.** The sender never frames more than 1547 payload octets: `socketRecvCb`
  reads at most `BUFFER_LEN - 3` octets after the 3-octet header (ice.c:402-408). The
  receiver's test accepts lengths up to `BUFFER_LEN` = 1550 (ice.c:575). A frame longer than
  1547 octets cannot fit the 1550-octet reassembly buffer with its header, so it never
  completes (finding below). The model's receiver refuses lengths above 1547.

## Model

| member | source | states |
|---|---|---|
| Common.SignedChar | ice.c:572 | a `char` read from an octet is negative exactly for octets of 128 and above, and keeps the octet modulo 256 |
| Common.Be16RoundTrip | ice.c:1036-1037 | a 16-bit length written as two octets, high first, reads back as itself |
| Common.Port16 | ice.c:1009 | the unsigned-short conversion of a port keeps every value below 65536 |
| Common.CString | secure.c:401 | the C string of a buffer is the prefix before the first NUL, holds no NUL, and is followed by a NUL when shorter than the buffer |
| Common.IndexOf | ice.c:700-702 | strstr returns an offset where the pattern occurs |
| Common.IndexOfFirst | ice.c:700-702 | no occurrence starts before the offset strstr returns |
| Common.IndexOfNone | ice.c:700 | strstr finds nothing only when the pattern occurs nowhere |
| Common.DigitRun | ice.c:716-717 | the digit run atoi reads is all digits and ends at a non-digit or the end |
| Common.Decimal | ice.c:205 | "%u" prints at least one digit, only digits, whose value is the number |
| Common.AtoiDecimal | ice.c:997 | atoi reads back the number "%u" printed, whatever non-digit text follows |
| Frame.Encode | ice.c:1030-1037 | a frame is the channel's low octet, the payload length in two octets and the payload, three octets longer than the payload |
| Frame.SendResultAsWritten | ice.c:1043 | as written, the report reaches the payload length as soon as more octets than the payload's length were accepted, one short of the whole frame included, and is negative only when nothing was accepted |
| Frame.SendResultAsWrittenAcceptsPartial | ice.c:1043 | a 10-octet Map frame of which only 8 octets are accepted is reported as a whole 7-octet send |
| Frame.SendResult | ice.c:1030-1045 | the corrected report reaches the payload length exactly when the whole frame was accepted, and is negative exactly when not even the header was |
| Frame.DeclaredSize | ice.c:573 | the declared length is negative exactly when the high octet is 128 or more, and is the big-endian value otherwise |
| Frame.Decode | ice.c:536-605 | a stream read as frames; a rejected length discards the rest |
| Frame.RestIncomplete | ice.c:556-596 | what is left after reading holds no whole frame and fits the 1550-octet buffer |
| Frame.DecodeEncoded | ice.c:571-598 | a framed message followed by any bytes is read as that message first |
| Frame.FrameRoundTrip | ice.c:1030-1045 | the receiver reads back exactly the channel octet and payload the sender framed |
| Frame.StreamRoundTrip | ice.c:1030-1045 | a stream of framed messages reads back as exactly those messages |
| Frame.EncodeAllSnoc | ice.c:1030-1037 | framing one more message appends its frame to the stream |
| Frame.DecodeAppend | ice.c:536-596 | reading more bytes never changes the frames already read |
| Frame.DecodeFront | ice.c:590-605 | a whole frame at the front of the held bytes is read first |
| Frame.DecodeBadHeader | ice.c:575-582 | a complete header with an unacceptable length fails the reading and keeps nothing |
| Frame.FailurePersists | ice.c:575-582 | after an unacceptable length more bytes add no frame |
| Frame.ChunkIndependence | ice.c:520-605 | reading piece by piece fails exactly when reading the whole stream fails, agrees with it without a failure, and extends its frames otherwise |
| Frame.RouteOf | ice.c:606-803 | channel octet 0 goes to control, 1..49 to a data channel, every other octet (signed) is dropped |
| Frame.CopyCount | ice.c:558-562 | the copy takes the whole arrival or fills the buffer to 1550 octets |
| Frame.OversizeStallsAsWritten | ice.c:575 | a length of 1548..1550 passes the test as written yet never completes, and a full buffer copies nothing more |
| Frame.OversizeExample | ice.c:575 | the header [1, 0x06, 0x0C] declares 1548, accepted as written and refused by the corrected test |
| Control.MapRequest | ice.c:1070-1083 | a Map request is 7 octets starting with the Map action and the channel's low octet |
| Control.ReadMap | ice.c:618-633 | the receiver reads 16-bit ports and signed channel and protocol octets |
| Control.MapRoundTrip | ice.c:631-633 | the peer reads back the channel, both ports and the protocol the requester wrote |
| Control.Classify | ice.c:606-683 | a control frame is a Map (7 octets or more), a short Map, a Shut with its signed channel, a Ping, a Pong, or ignored, each exactly by its action octet |
| Control.MapRequestClassified | ice.c:611-633 | the frame a requester sends is classified by the peer as the Map it asked for |
| Control.ShutFrame | ice.c:338-358 | the Shut notice is the framed 2-octet payload [Shut, channel] on channel 0 |
| Control.ShutFrameClassified | ice.c:338-358 | the peer classifies a Shut notice's payload as a Shut for that channel, whatever stale octets follow in its buffer |
| Control.MapGuardAsWrittenOverflows | ice.c:619 | channels 50..127 pass the Map guard as written though they lie outside the table |
| Control.ShutIndexAsWritten | ice.c:652-653 | as written, the slot index is negative exactly for channel octets 128 and above, past the table exactly for octets 50..127, and the octet itself inside the table |
| Control.ShutIndexAsWrittenOutside | ice.c:652-653 | octets 0x80 and 0x7F name slots -128 and 127, outside the table |
| Control.ShutTarget | ice.c:648-657 | the corrected Shut closes a slot exactly when its channel is inside the table, and that slot |
| Rtsp.InspectedText | ice.c:697-698 | the inspected text is shorter than the payload, stops before its last octet or first NUL, and agrees with it octet by octet |
| Rtsp.FieldRun | ice.c:707-714 | the port field runs up to the first ';' or '-' or the end |
| Rtsp.FieldAfter | ice.c:700-704 | there is a field after a marker exactly when strstr finds the marker |
| Rtsp.Inspect | ice.c:700-717 | the ports are reported exactly when both markers are found with non-empty fields, and they are atoi of those fields |
| Rtsp.InspectTransport | ice.c:700-717 | a Transport header printing client and server ports makes the inspection report exactly those ports |
| Rtsp.InspectNeedsBoth | ice.c:700 | a text lacking either marker opens no channel |
| Rtsp.InspectedTextAsWritten | ice.c:694-702 | as written, a non-empty payload is scanned up to its last octet, as InspectedText says, but for an empty one the scan reads the octets after the frame up to a NUL |
| Rtsp.EmptyFrameReadsOnAsWritten | ice.c:697-702 | an empty RTSP frame followed in the buffer by a Transport text with both ports opens the RTP pair as written, though the frame announces nothing |
| Rtsp.RtpMappings | ice.c:727-736 | the two UDP mappings are the announced pair and the pair one above it, as unsigned shorts |
| Io.Env.TransportSend | ice.c:1043 | the Transport takes a leading part of the frame, or reports -1 and takes nothing |
| Io.Env.SendTo | ice.c:746-751 | sendto writes a non-empty leading part of the buffer or fails; "try again" is retried inside |
| Io.Env.WriteAll | ice.c:745-798 | the loop writes exactly the payload to the slot's socket, in order, unless a write fails |
| Tunnel.FreeSlot | ice.c:868-882 | a slot starts with no socket, no watch, no connection, no handler, nothing pending and no children |
| Tunnel.KeepaliveAction | ice.c:137-153 | "timeout" is reported after more than 30 s with a status callback; otherwise a Ping is sent after more than 2 s; otherwise nothing |
| Tunnel.CanWriteAsWritten | ice.c:318-319 | the counters as written keep their sum, and an error result moves them backwards |
| Tunnel.CanWriteAsWrittenErrorUnderflows | ice.c:318-319 | a Transport error on the first resend of 10 octets leaves -1 sent and 11 unsent |
| Tunnel.CanWriteStep | ice.c:316-319 | the corrected step counts an error as nothing accepted |
| Tunnel.ChildrenAfterAsWritten | ice.c:727-729 | as written, every result is put in front of the children, and the children all name data slots exactly when the result and every earlier child do |
| Tunnel.ChildrenAfterAsWrittenRecordsNoSlot | ice.c:727 | a failed mapping (-1) is recorded as a child, naming slot -1 |
| Tunnel.ChildrenAfter | ice.c:721-738 | only a mapped data slot is recorded, and the children stay inside the table |
| Tunnel.Agent.constructor | ice.c:868-882 | every slot is free, the reassembly buffer is empty, nothing is pending, no timer and no service |
| Tunnel.Agent.FindFree | ice.c:1055-1064 | the lowest data slot without a socket, or 50 when every one has a socket |
| Tunnel.Agent.Send | ice.c:1030-1045 | the Transport gets a prefix of the frame; nothing is sent while a send is pending; the report reaches the payload length exactly when the whole frame went out |
| Tunnel.Agent.CloseChannel | ice.c:337-385 | the slot loses its socket, watch and connection and nothing else changes; the Shut notice goes out only when asked and no send is pending; an open socket is closed |
| Tunnel.Agent.CloseWithChildren | ice.c:440-461 | for an RTSP slot its children and then the slot are closed, head of the child list first; unless a send is pending their Shut notices go on the wire in that order; their open sockets are closed in that order; the closed slots are released and the RTSP slot's child list emptied; every other slot is unchanged and nothing is written to a socket |
| Tunnel.Agent.CloseAll | ice.c:757-773 | the slots of an order are released in that order; their open sockets are closed once each, in order; their Shut notices go on the wire in order unless a send is pending; every other slot is unchanged |
| Tunnel.Agent.CloseNext | ice.c:759-770 | one more slot of the order closed keeps the closing state in step with the order |
| Tunnel.ClosingFrom | ice.c:757-773 | closing the children and the slot after emptying the child list is the closing CloseWithChildren states |
| Tunnel.ClosingUsesSocksAndChannels | ice.c:337-385 | the sockets closed and the notices sent depend only on the slots' sockets and channels |
| Tunnel.WholeNotices | ice.c:338-358 | notices wholly accepted are the frames of one Shut request per closed slot, in order |
| Tunnel.NoticesReadAsShut | ice.c:338-358 | the peer reads wholly accepted notices as exactly those Shut requests, one per closed slot, in order |
| Tunnel.Agent.InitSocket | ice.c:468-518 | a UDP, TCP or RTSP slot gets a socket and a watch or reports failure; a UDP slot whose bind fails is left without a socket; any other protocol changes nothing |
| Tunnel.Agent.MapUdp | ice.c:1112-1186 | the lowest free slot is mapped and a Map request for it is framed on channel 0, or -1 with nothing sent when the table is full |
| Tunnel.Agent.Listen | ice.c:1187-1229 | a listening service is added at the head of the list, or -1 with the list unchanged |
| Tunnel.Agent.PortMap | ice.c:1110-1231 | UDP maps a watched slot and sends its Map request; TCP and RTSP listen and leave the table alone; any other protocol gives -1 |
| Tunnel.Agent.IcePortMap | ice.c:1233-1236 | success only for UDP, TCP or RTSP; a failure leaves services and sockets as they were |
| Tunnel.Agent.Accept | ice.c:1047-1107 | an accepted connection takes the lowest free slot with loopback addresses and its Map request is sent; with no free slot nothing changes |
| Tunnel.Agent.StartKeepalive | ice.c:185-193 | the timestamp is set once, at the first gathering |
| Tunnel.Agent.Tick | ice.c:130-155 | the timer stops when there is no timestamp; otherwise it reports "timeout" or sends a Ping exactly as KeepaliveAction says |
| Tunnel.Agent.CanWrite | ice.c:311-335 | the Transport gets the next unsent octets of the slot's buffer; the counters move by what was accepted; the pending flag clears exactly when everything went out |
| Tunnel.Agent.SocketReadable | ice.c:387-466 | while a send is pending nothing is read and nothing changes; read data is framed on the slot's channel and a prefix of the frame goes on the wire, the rest kept in the slot with the pending flag set; end of stream or an error closes the slot with its children exactly as CloseWithChildren does, notices included, and removes the watch; other slots are unchanged when the slot stays open |
| Tunnel.Agent.Forward | ice.c:402-439 | the Transport gets a prefix of the data's frame; an unsent rest is kept in the slot and sets the pending flag |
| Tunnel.Agent.HandleControl | ice.c:606-683 | the loop stops exactly when a Map is short or the table refuses it; an accepted Map sets the slot's addresses, channel and protocol and opens its socket as InitSocket does; Shut releases the named slot and closes its open socket with no notice; Ping puts a prefix of a Pong frame on the wire unless a send is pending; every other slot and the wire are unchanged |
| Tunnel.Agent.OpenRtpChild | ice.c:721-729 | a UDP RTP slot is mapped for the ports, and the RTSP slot's children grow by it exactly when it was mapped |
| Tunnel.Agent.InspectRtsp | ice.c:690-743 | a payload announcing both ports maps the RTP pair and the pair above it, recording both results as children; any other payload changes no slot, the wire or the closed sockets; only free slots are taken |
| Tunnel.Agent.OpenRtpPair | ice.c:715-739 | both mappings take free slots as RTP children for the announced ports and the ports above them, and the RTSP slot's children grow by the slots actually mapped, second in front |
| Tunnel.Agent.Deliver | ice.c:745-798 | the payload is written whole, in order, to the slot's socket with no other change; or, for a non-empty payload, a write fails and the slot is closed with its children exactly as CloseWithChildren does; a payload for a slot without a socket is never delivered |
| Tunnel.Agent.HandleData | ice.c:684-798 | a slot without a socket first gets one as InitSocket does; an RTSP payload then goes through InspectRtsp; then the payload is delivered or the slot closed as Deliver says |
| Tunnel.Agent.Prepare | ice.c:686-743 | a slot without a socket gets one as InitSocket does, and an RTSP payload is inspected as InspectRtsp does; no other slot gets a socket and nothing is written |
| Tunnel.Agent.Receive | ice.c:520-805 | the frames dispatched and the octets kept are exactly Decode of the pending octets followed by the arrival; a rejected length empties the buffer; a stop leaves the arrival's rest untaken after a last frame on channel 0 that is empty or a Map; an empty arrival changes nothing; a frame renews a running timestamp |
| Tunnel.Agent.Turn | ice.c:536-605 | one turn of the loop: it needs more bytes and keeps them, rejects a header and empties the buffer, or takes the whole frame at the front, renews a running timestamp and dispatches it; it stops exactly when Dispatch stops |
| Tunnel.Agent.Dispatch | ice.c:606-803 | the loop stops exactly when a control frame is a short Map or a Map the table refuses, and then the payload is empty or starts with the Map action; a control frame has HandleControl's effects, a data frame HandleData's, and a dropped channel changes nothing |
| Tunnel.MapRequestStops | ice.c:611-633 | a Map request the peer receives stops its loop exactly when its channel is outside 1..49 or the slot already has a socket |
| Tunnel.Agent.Reassemble | ice.c:540-596 | the held octets followed by the rest of the arrival are unchanged, and the turn ends needing more, with a bad header, or with a whole frame at the front |
| Tunnel.Agent.Gather | ice.c:540-567 | the buffer holds the pending octets and as much of the arrival as fits |
| Tunnel.Agent.Compact | ice.c:540-554 | the frame already dispatched is dropped from the front and the buffer holds exactly the pending octets |
| Tunnel.Agent.CopyIn | ice.c:556-567 | the arrival is appended up to the buffer's capacity |
| Tunnel.Agent.Stop | ice.c:1238-1286 | every slot is closed without notice, every open socket is closed in slot order, the timer and the services are gone |
| Tunnel.Agent.ReleaseAll | ice.c:1254-1268 | every slot loses its socket, watch and connection, and the open sockets are closed in slot order |
| Sdp.TypeOf | ice.c:976-989 | the strcmp search finds the type with that name, or none when no type has it |
| Sdp.Fields | ice.c:205 | a candidate prints as five fields |
| Sdp.LocalSdp | ice.c:194-206 | the description is "ufrag pwd" and one " foundation,priority,ip,port,type" word per candidate, cut to 1023 characters, and whole when it fits |
| Sdp.ClipAppend | ice.c:202-206 | each snprintf at the running offset extends the cut text by the cut piece |
| Sdp.SdpTextPrefix | ice.c:202-206 | the description of the first candidates starts the description of all of them |
| Sdp.SplitSet | ice.c:941 | g_strsplit_set gives at least one piece |
| Sdp.SplitSetJoin | ice.c:941 | words free of separators, joined by a separator, split back into themselves |
| Sdp.PiecesJoin | ice.c:964 | five comma-free fields joined by commas split back into those five fields |
| Sdp.Foundation | ice.c:995-996 | the foundation keeps at most 32 characters and is whole when shorter |
| Sdp.Unsigned32 | ice.c:997 | the priority is stored modulo 2^32 |
| Sdp.ReadCandidate | ice.c:962-1012 | a candidate is refused exactly when its type name is unknown or its address is refused; otherwise it keeps the address and the type |
| Sdp.WordStep | ice.c:949-1013 | empty words are skipped; the first two words are the credentials; each later word adds one candidate at the front, ends the loop, or fails the parse |
| Sdp.ScanWords | ice.c:949-1014 | the word loop never changes credentials it already has |
| Sdp.ParseSdp | ice.c:932-1028 | a description is accepted only with at least one candidate |
| Sdp.ScanKeepsEarlier | ice.c:1012 | candidates are only ever put in front of those already read |
| Sdp.SetRemoteSdp | ice.c:932-1028 | iceSetRemoteSdp's loops compute ParseSdp |
| Sdp.WordFields | ice.c:964-974 | a printed candidate word has no separator and splits back into its five fields |
| Sdp.ReadWord | ice.c:964-1012 | the peer reads a candidate it can represent back as itself |
| Sdp.TypeOfName | ice.c:976-981 | every type is found by its own name |
| Sdp.ScanCandidates | ice.c:949-1013 | with the credentials known, candidate words are read in reverse order |
| Sdp.SdpWords | ice.c:941 | a printed description splits into the ufrag, the password and one word per candidate |
| Sdp.SdpRoundTrip | ice.c:932-1028 | a printed description is read back as its credentials and its candidates, newest first |
| PemUrl.Escape | secure.c:575-600 | the four special characters become a three-character escape starting with '%', every other character stays |
| PemUrl.EncodeLength | secure.c:567-571 | the output is two characters longer per escaped character |
| PemUrl.EncodeHasNoSpecial | secure.c:574-601 | no line feed, '+', '/' or space remains in the output |
| PemUrl.DecodeEncode | secure.c:574-601 | percent-decoding the output of a text without '%' gives the text back |
| PemUrl.Count | secure.c:567-570 | the counting loop counts the characters to escape |
| PemUrl.Put | secure.c:575-600 | one character's writes append its escape at the offset |
| PemUrl.PemToUrl | secure.c:563-605 | the buffer is sized for the output and its NUL and holds exactly the encoded text and a NUL |
| Http.Received | secure.c:375-394 | the buffer holds a prefix of the stream of at most 8191 octets, the whole stream when it fits |
| Http.StatusOf | secure.c:401-410 | a buffer whose C string does not start with "HTTP/1.1" has status -1 |
| Http.ReadResponse | secure.c:375-394 | the read loop keeps a prefix of the stream, the whole stream unless the buffer is full, NUL-terminated when asked |
| Http.ReadOnce | secure.c:376-384 | one read appends what it delivers; end of stream, an error or a full buffer stop the loop |
| Http.HttpsReceive | secure.c:370-411 | the response is the received octets, NUL-terminated, and the status is read from them |
| Http.HttpReceiveAsWritten | web.c:251-278 | as written, the status is read from the received octets followed by what the buffer held past them |
| Http.ReadUnterminated | web.c:256-270 | the read loop without terminator leaves the received octets followed by the buffer's earlier contents |
| Http.HttpReceive | web.c:251-278 | with the buffer terminated, the status is read from the received octets only |
| Http.ShortStatus | secure.c:401 | a text of at most 11 octets has no status |
| Http.StatusOfLine | secure.c:401-405 | a response "HTTP/1.1 " and a code of three or more digits has that code |
| Http.UnterminatedStatus | web.c:256-270 | a "HTTP/1.1 200" reply read into a buffer holding a stale '7' reports 2007 as written and 200 corrected |
| Web.Key | web.c:41-44 | the key is the quoted field, a colon and a quote |
| Web.JsonVal | web.c:38-55 | no value without a field or without the key |
| Web.JsonValQuoteFree | web.c:48-53 | a value holds no double quote |
| Web.JsonValOf | web.c:38-55 | an object holding the key first and then a quote-free value and a quote yields exactly that value |
| Web.JsonValAt | web.c:45-53 | the value lies between the first occurrence of the key and the next quote |
| Web.GetJsonVal | web.c:38-55 | getJSONVal returns JsonVal and leaves the buffer as it found it |
| Web.JsonValAsWritten | web.c:45-47 | when getJSONVal as written returns, it returns JsonVal |
| Web.MissingKeyAsWritten | web.c:45-47 | the object "{}" sends getJSONVal as written through a wild pointer, while JsonVal gives none |
| Web.ObjectServer | web.c:88-96 | an object yields a server exactly when it has all three fields, with their values |
| Web.ObjectEnd | web.c:74-85 | an object ends at a '}' followed by more text |
| Web.ObjectEndFinds | web.c:74-85 | a '}' followed by more text always ends an object, at or before it |
| Web.ObjectShape | web.c:86-113 | an object read either stops the walk with a NUL after it, or puts a ',' after it and the walk goes on |
| Web.WritesAfterBraces | web.c:86-113 | parseList writes only right after a '}', inside the response |
| Web.ListRestored | web.c:112 | with a ',' already after every object read, the buffer is restored |
| Web.Parse | web.c:64-72 | a response without "\n\n[" yields no server and no write |
| Web.Marks | web.c:86-113 | the buffer keeps every character except the ',' and NUL positions written |
| Web.ReadObject | web.c:86-91 | the NUL goes after the object's '}' and its fields are read |
| Web.TakeObject | web.c:86-114 | an object read extends the list and puts back the ',', or stops with the NUL left |
| Web.Advance | web.c:73-114 | one iteration of the walk |
| Web.ParseList | web.c:57-116 | the list holds the servers Parse gives and the buffer is left as Marks says |
| Web.ObjectReads | web.c:88-96 | an object written with the three fields, whose values hold no '"' or '}', is read back as that server |
| Web.ListRoundTrip | web.c:57-116 | a list written as the server writes it after a head without the marker is read back as exactly its servers, with nothing cut |
| Web.ServerList.constructor | web.c:61 | the list starts empty |
| Web.ServerList.Append | web.c:104-110 | a server is linked at the end |
| Web.ServerList.DeleteFirst | web.c:417-426 | the head is unlinked and freed; an empty list is left alone |
| Web.ServerList.Free | web.c:428-433 | every entry is freed, head first, and the list is empty |
| Ssdp.HostOf | sssdp.c:255-261 | the IP read from a LOCATION has at most 50 characters |
| Ssdp.AddressOf | sssdp.c:255-260 | at most 50 characters up to the first '/' are read |
| Ssdp.CutPort | sssdp.c:256-258 | cutting at the last ':' never lengthens the address |
| Ssdp.UuidOf | sssdp.c:262-267 | the uuid has 1 to 20 characters, and a USN without "uuid:" gives none |
| Ssdp.ReadsStopAtSeparators | sssdp.c:255-267 | the IP read holds no '/' and the uuid no ':' |
| Ssdp.Found | sssdp.c:252-276 | an entry is added exactly when there is a LOCATION and both the IP of the first one and the uuid can be read; its type is the whole USN |
| Ssdp.Discovery.constructor | sssdp.c:329 | the discovered list starts empty |
| Ssdp.Discovery.ResourceAvailable | sssdp.c:243-282 | a readable announcement is put at the head of the list; any other leaves the list as it was |
| Ssdp.HostOfLocation | sssdp.c:110 | the IP read from an advertised LOCATION, with any path, is the device's IP |
| Ssdp.UuidOfUsn | sssdp.c:262-267 | the uuid read from "uuid:U" followed by ':' or nothing is U cut to 20 characters |
| Ssdp.AdvertisedUuid | sssdp.c:111-114 | both advertised USNs are read back as the device's uuid |
| Ssdp.FoundAdvertised | sssdp.c:110-114 | a client hearing the device-type announcement records the device's uuid, USN and IP |
| Ssdp.DecimalOfPort | sssdp.c:110 | a port below 65536 prints in at most five digits |
| Ssdp.Snprintf | sssdp.c:110-114 | snprintf keeps fewer characters than the bound, a prefix of the text, and the whole text when it fits |
| Ssdp.TextLengths | sssdp.c:110-114 | the lengths of the four resource strings |
| Ssdp.BoundsWhole | sssdp.c:110-114 | every snprintf bound is large enough for the whole text |
| Ssdp.BuffersFitAsWritten | sssdp.c:105-114 | with the allocations as written, the four strings fit exactly when the schema has at most 17 characters |
| Ssdp.BuffersFit | sssdp.c:105-114 | allocated to their bounds, all four buffers hold their whole text |
| Ssdp.ReplaceKeepsAddress | sssdp.c:139 | a device with an IP takes a new one exactly when one is reported and it differs |
| Ssdp.Device.constructor | sssdp.c:174-212 | missing names become empty strings and the two resources are registered under ids 1 and 2 |
| Ssdp.Device.AddResource | sssdp.c:121-124 | a resource is stored under the next id |
| Ssdp.Device.RemoveResource | sssdp.c:116-119 | the resource with that id is removed |
| Ssdp.Device.UpdateResources | sssdp.c:103-131 | the old resources are removed and the group advertises exactly the two resources for the current IP under two new ids |
| Ssdp.Device.RefreshIp | sssdp.c:132-150 | on a change of address the IP is replaced and the resources re-registered; otherwise nothing changes |

## Left out

- The libnice agent itself is not part of this model: candidate gathering, connectivity checks, state callbacks, `isSameLan` and the statistics. The Transport is the class `Io.Env`, whose send accepts any leading part of a frame.
- Whether an address text is a valid IP address (`nice_address_set_from_string`) is a parameter `addrOk` of the SDP reading.
- `nice_agent_set_remote_credentials` and `nice_agent_set_remote_candidates` are not modelled. `Sdp.ParseSdp` stops at what is handed to them.
- Socket, bind, connect, sendto, recvfrom and close results are free choices of `Io.Env`. The busy retry on EAGAIN in the sendto loop is folded into one `SendTo` call, because a retry writes nothing.
- Time is a parameter (`now`), and the GLib timers and watches are booleans in the slot.
- Memory allocation never fails in the model. The fields that `iceNew` leaves uninitialised get fixed values (`Tunnel.FreeSlot`). `pemToUrl` returning NULL when malloc fails is not modelled.
- The Map and Shut guards, the RTP child prepend, the inspection of an empty RTSP frame, the frame length bound, the flow-control counters, iceSend's report, getJSONVal's NULL test, the SSDP buffer sizes and httpReceive's missing terminator are modelled corrected. The code as written is modelled beside each one (see Findings). Memory corruption past those points is not modelled.
- atoi overflow is not modelled: `Common.Atoi` is unbounded, and the narrowing to a port or a priority is explicit.
- PEM characters are Dafny characters. Octets above 127 and encodings are not modelled.
- SSL_read and recv are one read script (`Http.Recv`). TLS, sockets and request sending are not modelled.
- `parseList`: strdup and malloc failure are not modelled. The marker is the three characters line feed, line feed, '[' (the C literal's `\[` is read as `[`).
- `Web.ServerList.Free`: the caller's pointer is not reset by `iotcServerListFree`. The model's list is emptied, and the freed entries are logged in `released`.
- The gssdp resource group is a map from id to resource, with an id counter. Announcing, searching and the description HTTP response (`sssdpListenCb`, `sssdpRecvCb`) are not modelled.
- `getMyLocalIP` is a parameter of `Ssdp.Device.RefreshIp`. The 60-second re-arming of the timer is not modelled.
- `startSSDPServer`'s failure paths (no IP, no port, no client or group) are not modelled. The constructor requires a port. The `oldIP == NULL` branch of the IP-change rule cannot be reached after a successful start, so `Device.ip` is always a string.
- `stopDiscovery` handing the list to the callback, and the discovery browser setup, are not modelled.
- `sscanf` is modelled on the NUL-free strings the callback receives.
- The other entry points of the library (MQTT signalling, `library.c`, the device and client mains) are not part of this model.

## Findings

| source | as written | input that shows it | evidently intended | confidence | as-written member | corrected member |
|---|---|---|---|---|---|---|
| ice.c:619 | the Map guard tests the frame's channel `ch` (always 0 here) instead of `newCh` against ICE_MAX_CH | a Map request for channel 100 passes the guard and indexes `conns[100]` in a 50-slot table | `newCh >= ICE_MAX_CH` refuses the request | not executed | Control.MapGuardAsWrittenOverflows | Tunnel.Agent.HandleControl |
| ice.c:652-653 | Shut closes `conns[newCh]` for any signed channel octet | a Shut with channel octet 0x80 closes `conns[-128]` | only slots 0..49 are closed | not executed | Control.ShutIndexAsWrittenOutside | Control.ShutTarget |
| ice.c:727 | the result of portMapInternal is used as a slot index and recorded even when it is -1 | an RTSP reply announcing ports while the table is full records `&conns[-1]` as a child | only a mapped slot is recorded | not executed | Tunnel.ChildrenAfterAsWrittenRecordsNoSlot | Tunnel.ChildrenAfter |
| ice.c:575 | lengths up to BUFFER_LEN (1550) are accepted, but a frame needs length + 3 octets of the 1550-octet buffer | header [1, 0x06, 0x0C] declares 1548; the frame never completes and the tunnel stalls | lengths up to 1547 (BUFFER_LEN - 3) | not executed | Frame.OversizeExample | Frame.RestIncomplete |
| ice.c:318-319 | the send result is subtracted and added even when it is -1 | a resend of 10 octets that fails leaves sentBytes -1 and unsentBytes 11 | an error accepts nothing | not executed | Tunnel.CanWriteAsWrittenErrorUnderflows | Tunnel.Agent.CanWrite |
| ice.c:1043 | iceSend reports the accepted octets of the whole frame minus one | 8 of the 10 octets of a Map frame accepted: 7 is reported, which callers read as the whole request | the payload octets accepted (accepted - 3) | not executed | Frame.SendResultAsWrittenAcceptsPartial | Tunnel.Agent.Send |
| web.c:45-47 | the key length is added to strstr's result before the NULL test | the object "{}" for any field: the NULL test passes and the next strstr reads from a wild pointer | test strstr's result before adding | not executed | Web.MissingKeyAsWritten | Web.GetJsonVal |
| sssdp.c:107-113 | the device-type and device USN buffers are allocated without the schema's length while the snprintf bounds count it | a schema of 18 characters overruns the device-type buffer | allocate what the bounds allow | not executed | Ssdp.BuffersFitAsWritten | Ssdp.Device.UpdateResources |
| web.c:262-270 | httpReceive never NUL-terminates the buffer, so the status is read past the received octets | reply "HTTP/1.1 200" into a buffer holding '7' then NUL after it: status 2007 | terminate after each read, as httpsReceive does | not executed | Http.UnterminatedStatus | Http.HttpReceive |
| ice.c:697-702 | for an empty RTSP payload the NUL goes on the header's last octet and strstr scans the octets after the frame | an empty frame on an RTSP channel followed in the buffer by "client_port=5;server_port=6" and a NUL opens the RTP pair for 5 and 6 | the inspection reads only the payload, as the comment at ice.c:694-696 states | not executed | Rtsp.EmptyFrameReadsOnAsWritten | Rtsp.InspectedText |
