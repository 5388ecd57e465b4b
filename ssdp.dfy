/** SSDP on the local network (sssdp.c). A device advertises two resources
    (section 1 of the UPnP Device Architecture 1.0): its root device and its
    device type, each with a unique service name (USN) and a LOCATION URL
    holding its IP. A client collects the devices it hears about in a
    newest-first list, taking the IP from the LOCATION URL and the uuid from
    the USN. */
module Ssdp {
  import opened Common

  function Min(a: nat, b: nat): nat
  {
    if a <= b then a else b
  }

  // ---------------------------------------------------------------- scanning

  /** How many characters a "%[^c]" conversion with no width consumes: the
      longest prefix of `s` without `c`. */
  function RunWithout(s: string, c: char): (n: nat)
    ensures n <= |s|
  {
    if s == [] || s[0] == c then 0 else 1 + RunWithout(s[1..], c)
  }

  /** The run holds no `c`, and stops at a `c` or at the end. */
  lemma {:induction false} RunWithoutStops(s: string, c: char)
    ensures forall k :: 0 <= k < RunWithout(s, c) ==> s[k] != c
    ensures RunWithout(s, c) < |s| ==> s[RunWithout(s, c)] == c
    decreases |s|
  {
    if s != [] && s[0] != c {
      RunWithoutStops(s[1..], c);
      forall k | 1 <= k < RunWithout(s, c)
        ensures s[k] != c
      {
        assert s[k] == s[1..][k - 1];
      }
    }
  }

  /** A run without `c` ends where `c` follows it or the text ends. */
  lemma {:induction false} RunWithoutPrefix(a: string, b: string, c: char)
    requires forall k :: 0 <= k < |a| ==> a[k] != c
    requires b == [] || b[0] == c
    ensures RunWithout(a + b, c) == |a|
    decreases |a|
  {
    if a == [] {
      assert a + b == b;
    } else {
      assert (a + b)[1..] == a[1..] + b;
      RunWithoutPrefix(a[1..], b, c);
    }
  }

  /** strrchr: the offset of the last `c` in `s`, if any. */
  function LastIndex(s: string, c: char): (r: Option<nat>)
    ensures r.Some? ==> r.value < |s| && s[r.value] == c
    decreases |s|
  {
    if s == [] then None
    else if s[|s| - 1] == c then Some(|s| - 1)
    else LastIndex(s[..|s| - 1], c)
  }

  /** No `c` follows the one strrchr finds, and it finds none only when
      there is none. */
  lemma {:induction false} LastIndexLast(s: string, c: char)
    ensures LastIndex(s, c).Some? ==> forall k :: LastIndex(s, c).value < k < |s| ==> s[k] != c
    ensures LastIndex(s, c).None? ==> forall k :: 0 <= k < |s| ==> s[k] != c
    decreases |s|
  {
    if s != [] && s[|s| - 1] != c {
      LastIndexLast(s[..|s| - 1], c);
    }
  }

  /** The last `c` is the one no other `c` follows. */
  lemma {:induction false} LastIndexAt(s: string, c: char, i: nat)
    requires i < |s| && s[i] == c
    requires forall k :: i < k < |s| ==> s[k] != c
    ensures LastIndex(s, c) == Some(i)
    decreases |s|
  {
    if i < |s| - 1 {
      LastIndexAt(s[..|s| - 1], c, i);
    }
  }

  // ---------------------------------------------------------------- discovery

  /** The IP of a LOCATION URL as resourceAvailableCb takes it with
      sscanf(location, "%*[^:]://%50[^/]", ip) and strrchr: the scheme is a
      non-empty run of characters other than ':', the first ':' must start
      "://", then one to 50 characters up to the first '/' are read and
      whatever follows their last ':' (the port) is cut off. */
  function HostOf(location: string): (r: Option<string>)
    ensures r.Some? ==> |r.value| <= 50
  {
    match AfterScheme(location)
    case None => None
    case Some(rest) => AddressOf(rest)
  }

  /** "%*[^:]://": what follows the scheme and "://", when the location
      starts that way. */
  function AfterScheme(location: string): Option<string>
  {
    var i := RunWithout(location, ':');
    if i == 0 || |location| < i + 3 || location[i..i + 3] != "://" then None
    else Some(location[i + 3..])
  }

  /** "%50[^/]" and the cut at the last ':'. */
  function AddressOf(rest: string): (r: Option<string>)
    ensures r.Some? ==> |r.value| <= 50
  {
    var n := Min(50, RunWithout(rest, '/'));
    if n == 0 then None else Some(CutPort(rest[..n]))
  }

  /** strrchr(ip, ':') and the NUL written there. */
  function CutPort(address: string): (r: string)
    ensures |r| <= |address|
  {
    match LastIndex(address, ':')
    case None => address
    case Some(colon) => address[..colon]
  }

  /** The uuid of a USN as resourceAvailableCb takes it with
      sscanf(usn, "uuid:%20[^:]", uuid): the USN must start "uuid:", and one
      to 20 characters up to the next ':' are read. */
  function UuidOf(usn: string): (r: Option<string>)
    ensures r.Some? ==> 1 <= |r.value| <= 20
    ensures |usn| < 5 || usn[..5] != "uuid:" ==> r.None?
  {
    if |usn| < 5 || usn[..5] != "uuid:" then None
    else
      var n := Min(20, RunWithout(usn[5..], ':'));
      if n == 0 then None else Some(usn[5..5 + n])
  }

  /** The IP read holds no '/', and the uuid no ':'. */
  lemma ReadsStopAtSeparators(location: string, usn: string)
    ensures HostOf(location).Some? ==> forall k :: 0 <= k < |HostOf(location).value| ==> HostOf(location).value[k] != '/'
    ensures UuidOf(usn).Some? ==> forall k :: 0 <= k < |UuidOf(usn).value| ==> UuidOf(usn).value[k] != ':'
  {
    if AfterScheme(location).Some? {
      RunWithoutStops(AfterScheme(location).value, '/');
    }
    if |usn| >= 5 {
      RunWithoutStops(usn[5..], ':');
    }
  }

  /** One entry of the discovered list (struct deviceDiscoveredList without
      its link): the type field holds the whole USN. */
  datatype Discovered = Discovered(uuid: string, urnDeviceType: string, ip: string)

  /** What resourceAvailableCb adds for an announcement: nothing when there
      is no LOCATION or when the IP or the uuid cannot be read; only the
      first LOCATION is looked at. */
  function Found(usn: string, locations: seq<string>): (r: Option<Discovered>)
    ensures r.Some? <==> locations != [] && HostOf(locations[0]).Some? && UuidOf(usn).Some?
    ensures r.Some? ==> r.value.urnDeviceType == usn
  {
    if locations == [] then None
    else match (HostOf(locations[0]), UuidOf(usn))
      case (Some(ip), Some(uuid)) => Some(Discovered(uuid, usn, ip))
      case _ => None
  }

  /** The discovery context's list (ctx->list), newest entry first. */
  class Discovery {
    var list: seq<Discovered>

    /** startSSDPDiscovery starts from the empty list. */
    constructor ()
      ensures list == []
    {
      list := [];
    }

    /** resourceAvailableCb: an announcement that can be read is put at
        the head of the list; any other leaves the list as it was. */
    method ResourceAvailable(usn: string, locations: seq<string>)
      modifies this
      ensures Found(usn, locations).None? ==> list == old(list)
      ensures Found(usn, locations).Some? ==> list == [Found(usn, locations).value] + old(list)
    {
      if locations != [] {
        var ip := HostOf(locations[0]);
        if ip.None? {
          return;
        }
        var uuid := UuidOf(usn);
        if uuid.None? {
          return;
        }
        list := [Discovered(uuid.value, usn, ip.value)] + list;
      }
    }
  }

  // ---------------------------------------------------------------- advertisement

  /** The search target of the root-device resource. */
  const RootDeviceTarget: string := "upnp:rootdevice"

  /** "http://%s:%d": the LOCATION of both resources; the port is a
      16-bit unsigned value, printed in decimal. */
  function Location(ip: string, port: nat): string
  {
    "http://" + ip + ":" + Decimal(port)
  }

  /** "uuid:%s::upnp:rootdevice" */
  function RootDeviceUsn(uuid: string): string
  {
    "uuid:" + uuid + "::" + RootDeviceTarget
  }

  /** "urn:%s:device:%s:1": the search target of the device resource. */
  function DeviceType(schema: string, urnDeviceType: string): string
  {
    "urn:" + schema + ":device:" + urnDeviceType + ":1"
  }

  /** "uuid:%s::urn:%s:device:%s:1" */
  function DeviceUsn(uuid: string, schema: string, urnDeviceType: string): string
  {
    "uuid:" + uuid + "::" + DeviceType(schema, urnDeviceType)
  }

  /** A port printed with "%d" has at most five digits. */
  lemma {:induction false} DecimalOfPort(n: nat, digits: nat, limit: nat)
    requires n < limit
    requires digits >= 1 && (digits == 1 ==> limit <= 10)
    requires limit <= Pow10(digits)
    ensures |Decimal(n)| <= digits
    decreases digits
  {
    if n >= 10 {
      assert digits > 1;
      assert n / 10 < Pow10(digits - 1);
      DecimalOfPort(n / 10, digits - 1, Pow10(digits - 1));
    }
  }

  function Pow10(k: nat): (p: nat)
    ensures p >= 1
  {
    if k == 0 then 1 else 10 * Pow10(k - 1)
  }

  /** A scheme without ':' followed by "://" is skipped. */
  lemma AfterSchemeOf(scheme: string, tail: string)
    requires 1 <= |scheme| && forall k :: 0 <= k < |scheme| ==> scheme[k] != ':'
    ensures AfterScheme(scheme + ("://" + tail)) == Some(tail)
  {
    var rest := "://" + tail;
    var location := scheme + rest;
    RunWithoutPrefix(scheme, rest, ':');
    assert location[|scheme|..] == rest;
    assert location[|scheme|..|scheme| + 3] == rest[..3] == "://";
    assert location[|scheme| + 3..] == rest[3..] == tail;
  }

  /** An address of one to 50 characters without '/', followed by nothing
      or by a path, is read whole. */
  lemma AddressOfText(address: string, path: string)
    requires 1 <= |address| <= 50 && forall k :: 0 <= k < |address| ==> address[k] != '/'
    requires path == [] || path[0] == '/'
    ensures AddressOf(address + path) == Some(CutPort(address))
  {
    RunWithoutPrefix(address, path, '/');
    assert (address + path)[..|address|] == address;
  }

  /** The address "IP:port" of a LOCATION: no '/', and its last ':' is the
      one before the port. */
  lemma AddressWithPort(ip: string, digits: string)
    requires forall k :: 0 <= k < |ip| ==> ip[k] != '/'
    requires AllDigits(digits)
    ensures var address := ip + ":" + digits;
      (forall k :: 0 <= k < |address| ==> address[k] != '/') &&
      CutPort(address) == ip
  {
    var address := ip + ":" + digits;
    forall k | |ip| < k < |address|
      ensures address[k] != ':' && address[k] != '/'
    {
      assert address[k] == digits[k - |ip| - 1];
      assert IsDigit(digits[k - |ip| - 1]);
    }
    LastIndexAt(address, ':', |ip|);
    assert address[..|ip|] == ip;
  }

  lemma LocationParts(ip: string, port: nat, path: string)
    ensures Location(ip, port) + path == "http" + ("://" + (ip + ":" + Decimal(port) + path))
  {
    var d := Decimal(port);
    calc {
      Location(ip, port) + path;
      ("http://" + ip + ":" + d) + path;
      { assert "http://" == "http" + "://"; }
      ((("http" + "://") + ip) + ":" + d) + path;
      { ConcatAssoc("http", "://", ip); }
      (("http" + ("://" + ip)) + ":" + d) + path;
      { ConcatAssoc("http", "://" + ip, ":"); ConcatAssoc("http", "://" + ip + ":", d);
        ConcatAssoc("http", "://" + ip + ":" + d, path); }
      "http" + ("://" + ip + ":" + d + path);
      { ConcatAssoc("://", ip, ":"); ConcatAssoc("://", ip + ":", d); ConcatAssoc("://", ip + ":" + d, path); }
      "http" + ("://" + (ip + ":" + d + path));
    }
  }

  /** "http://IP:port" followed by a path, written out in parts. */
  lemma HostOfHttp(ip: string, digits: string, path: string)
    requires forall k :: 0 <= k < |ip| ==> ip[k] != '/'
    requires AllDigits(digits) && |ip| + 1 + |digits| <= 50
    requires path == [] || path[0] == '/'
    ensures HostOf("http" + ("://" + (ip + ":" + digits + path))) == Some(ip)
  {
    AddressWithPort(ip, digits);
    AfterSchemeOf("http", ip + ":" + digits + path);
    AddressOfText(ip + ":" + digits, path);
  }

  /** The IP a client reads from the LOCATION a device advertises, with any
      path after it, is the device's IP, as long as the address and the port
      fit in the 50 characters read and the IP holds no '/'. */
  lemma HostOfLocation(ip: string, port: nat, path: string)
    requires forall k :: 0 <= k < |ip| ==> ip[k] != '/'
    requires |ip| + 1 + |Decimal(port)| <= 50
    requires path == [] || path[0] == '/'
    ensures HostOf(Location(ip, port) + path) == Some(ip)
  {
    LocationParts(ip, port, path);
    HostOfHttp(ip, Decimal(port), path);
  }

  /** The uuid a client reads from a USN "uuid:U" followed by ':' or
      nothing is U, cut to its first 20 characters. */
  lemma UuidOfUsn(uuid: string, rest: string)
    requires 1 <= |uuid| && forall k :: 0 <= k < |uuid| ==> uuid[k] != ':'
    requires rest == [] || rest[0] == ':'
    ensures UuidOf("uuid:" + uuid + rest) == Some(uuid[..Min(20, |uuid|)])
  {
    var usn := "uuid:" + uuid + rest;
    assert usn[..5] == "uuid:";
    assert usn[5..] == uuid + rest;
    RunWithoutPrefix(uuid, rest, ':');
    var n := Min(20, |uuid|);
    assert usn[5..5 + n] == (uuid + rest)[..n] == uuid[..n];
  }

  /** Both USNs a device advertises are read back as its uuid. */
  lemma AdvertisedUuid(uuid: string, schema: string, urnDeviceType: string)
    requires 1 <= |uuid| <= 20 && forall k :: 0 <= k < |uuid| ==> uuid[k] != ':'
    ensures UuidOf(RootDeviceUsn(uuid)) == Some(uuid)
    ensures UuidOf(DeviceUsn(uuid, schema, urnDeviceType)) == Some(uuid)
  {
    assert RootDeviceUsn(uuid) == "uuid:" + uuid + ("::" + RootDeviceTarget);
    UuidOfUsn(uuid, "::" + RootDeviceTarget);
    assert DeviceUsn(uuid, schema, urnDeviceType) == "uuid:" + uuid + ("::" + DeviceType(schema, urnDeviceType));
    UuidOfUsn(uuid, "::" + DeviceType(schema, urnDeviceType));
    assert uuid[..|uuid|] == uuid;
  }

  /** A client that hears a device's device-type announcement adds an entry
      with the device's uuid, its USN and its IP. */
  lemma FoundAdvertised(uuid: string, schema: string, urnDeviceType: string,
                        ip: string, port: nat, path: string, others: seq<string>)
    requires 1 <= |uuid| <= 20 && forall k :: 0 <= k < |uuid| ==> uuid[k] != ':'
    requires forall k :: 0 <= k < |ip| ==> ip[k] != '/'
    requires |ip| + 1 + |Decimal(port)| <= 50
    requires path == [] || path[0] == '/'
    ensures var usn := DeviceUsn(uuid, schema, urnDeviceType);
      Found(usn, [Location(ip, port) + path] + others) == Some(Discovered(uuid, usn, ip))
  {
    AdvertisedUuid(uuid, schema, urnDeviceType);
    HostOfLocation(ip, port, path);
  }

  // ---------------------------------------------------------------- buffers

  /** The C string snprintf(buf, bound, ...) leaves for the formatted `text`
      (bound > 0): at most bound - 1 characters, followed in the buffer by a
      NUL. */
  function Snprintf(bound: nat, text: string): (s: string)
    requires bound > 0
    ensures |s| < bound && s <= text
    ensures |text| < bound ==> s == text
  {
    text[..Min(|text|, bound - 1)]
  }

  /** One buffer of updateSSDPResources: the bytes malloc gave it, the bound
      passed to snprintf and the text formatted into it. */
  datatype Buffer = Buffer(alloc: nat, bound: nat, text: string)

  /** snprintf stays inside the allocation: the characters it keeps and
      the NUL fit. */
  predicate Fits(b: Buffer)
  {
    b.bound > 0 && |Snprintf(b.bound, b.text)| + 1 <= b.alloc
  }

  /** snprintf keeps the whole text. */
  predicate Whole(b: Buffer)
  {
    b.bound > 0 && Snprintf(b.bound, b.text) == b.text
  }

  /** The four buffers as sssdp.c:107-114 size them: the allocations of the
      device-type and device USN buffers leave out the schema's length while
      their snprintf bounds count it. */
  function BuffersAsWritten(ip: string, port: nat, uuid: string, schema: string, urnDeviceType: string): seq<Buffer>
  {
    [Buffer(14 + |ip|, 14 + |ip|, Location(ip, port)),
     Buffer(23 + |uuid|, 23 + |uuid|, RootDeviceUsn(uuid)),
     Buffer(32 + |urnDeviceType|, 15 + |schema| + |urnDeviceType|, DeviceType(schema, urnDeviceType)),
     Buffer(39 + |uuid| + |urnDeviceType|, 22 + |uuid| + |schema| + |urnDeviceType|,
            DeviceUsn(uuid, schema, urnDeviceType))]
  }

  /** The four buffers sized by their snprintf bounds. */
  function Buffers(ip: string, port: nat, uuid: string, schema: string, urnDeviceType: string): seq<Buffer>
  {
    [Buffer(14 + |ip|, 14 + |ip|, Location(ip, port)),
     Buffer(23 + |uuid|, 23 + |uuid|, RootDeviceUsn(uuid)),
     Buffer(15 + |schema| + |urnDeviceType|, 15 + |schema| + |urnDeviceType|, DeviceType(schema, urnDeviceType)),
     Buffer(22 + |uuid| + |schema| + |urnDeviceType|, 22 + |uuid| + |schema| + |urnDeviceType|,
            DeviceUsn(uuid, schema, urnDeviceType))]
  }

  /** The lengths of the four texts; the port has at most five digits. */
  lemma TextLengths(ip: string, port: nat, uuid: string, schema: string, urnDeviceType: string)
    requires port < 65536
    ensures 8 + |ip| <= |Location(ip, port)| <= 13 + |ip|
    ensures |RootDeviceUsn(uuid)| == 22 + |uuid|
    ensures |DeviceType(schema, urnDeviceType)| == 14 + |schema| + |urnDeviceType|
    ensures |DeviceUsn(uuid, schema, urnDeviceType)| == 21 + |uuid| + |schema| + |urnDeviceType|
  {
    DecimalOfPort(port, 5, 65536);
  }

  /** A buffer whose bound leaves room for the whole text fits exactly when
      its allocation does too. */
  lemma FitsWhole(b: Buffer)
    requires 0 < |b.text| + 1 <= b.bound
    ensures Whole(b)
    ensures Fits(b) <==> |b.text| + 1 <= b.alloc
  {
  }

  /** Every snprintf bound of updateSSDPResources is large enough for the
      whole text: the port has at most five digits, and the other bounds are
      exact. */
  lemma BoundsWhole(ip: string, port: nat, uuid: string, schema: string, urnDeviceType: string)
    requires port < 65536
    ensures forall i :: 0 <= i < 4 ==> Whole(Buffers(ip, port, uuid, schema, urnDeviceType)[i])
    ensures forall i :: 0 <= i < 4 ==> Whole(BuffersAsWritten(ip, port, uuid, schema, urnDeviceType)[i])
  {
    TextLengths(ip, port, uuid, schema, urnDeviceType);
    var bs := Buffers(ip, port, uuid, schema, urnDeviceType);
    var ws := BuffersAsWritten(ip, port, uuid, schema, urnDeviceType);
    FitsWhole(bs[0]); FitsWhole(bs[1]); FitsWhole(bs[2]); FitsWhole(bs[3]);
    FitsWhole(ws[0]); FitsWhole(ws[1]); FitsWhole(ws[2]); FitsWhole(ws[3]);
  }

  /** With the allocations as written, every snprintf of updateSSDPResources
      stays inside its buffer exactly when the schema has at most 17
      characters; a longer schema overruns the device-type buffer. */
  lemma BuffersFitAsWritten(ip: string, port: nat, uuid: string, schema: string, urnDeviceType: string)
    requires port < 65536
    ensures (forall i :: 0 <= i < 4 ==> Fits(BuffersAsWritten(ip, port, uuid, schema, urnDeviceType)[i]))
            <==> |schema| <= 17
    ensures |schema| > 17 ==> !Fits(BuffersAsWritten(ip, port, uuid, schema, urnDeviceType)[2])
  {
    TextLengths(ip, port, uuid, schema, urnDeviceType);
    var ws := BuffersAsWritten(ip, port, uuid, schema, urnDeviceType);
    FitsWhole(ws[0]); FitsWhole(ws[1]); FitsWhole(ws[2]); FitsWhole(ws[3]);
  }

  /** Sized by their bounds, all four buffers hold their whole text. */
  lemma BuffersFit(ip: string, port: nat, uuid: string, schema: string, urnDeviceType: string)
    requires port < 65536
    ensures forall i :: 0 <= i < 4 ==>
      Fits(Buffers(ip, port, uuid, schema, urnDeviceType)[i]) &&
      Snprintf(Buffers(ip, port, uuid, schema, urnDeviceType)[i].bound,
               Buffers(ip, port, uuid, schema, urnDeviceType)[i].text)
        == Buffers(ip, port, uuid, schema, urnDeviceType)[i].text
  {
    TextLengths(ip, port, uuid, schema, urnDeviceType);
    var bs := Buffers(ip, port, uuid, schema, urnDeviceType);
    FitsWhole(bs[0]); FitsWhole(bs[1]); FitsWhole(bs[2]); FitsWhole(bs[3]);
  }

  // ---------------------------------------------------------------- the device

  /** A resource of a gssdp resource group: search target, USN, LOCATION. */
  datatype Resource = Resource(target: string, usn: string, location: string)

  /** The group's resources after updateSSDPResources has added the root
      device under `rootId` and the device type under `deviceId`. */
  function Advertised(rootId: nat, deviceId: nat, ip: string, port: nat,
                      uuid: string, schema: string, urnDeviceType: string): map<nat, Resource>
  {
    map[rootId := Resource(RootDeviceTarget, RootDeviceUsn(uuid), Location(ip, port)),
        deviceId := Resource(DeviceType(schema, urnDeviceType), DeviceUsn(uuid, schema, urnDeviceType),
                             Location(ip, port))]
  }

  /** The IP-change rule of updateSSDPResourcesTimeoutCb: take the new IP
      when there is no old one, or when there is a new one and it differs. */
  function ReplaceIp(oldIp: Option<string>, newIp: Option<string>): (r: bool)
  {
    oldIp.None? || (newIp.Some? && oldIp.value != newIp.value)
  }

  /** A device that has an IP keeps one: the rule replaces it only by
      another address, never by none, and never by the same one. */
  lemma ReplaceKeepsAddress(oldIp: string, newIp: Option<string>)
    ensures ReplaceIp(Some(oldIp), newIp) <==> newIp.Some? && newIp.value != oldIp
  {
  }

  /** The advertising device (struct deviceInfo): its IP, port and names,
      the ids of its two resources (0 before the first registration) and
      its gssdp resource group. The group is modelled as a map from id to
      resource, with gssdp's id counter `lastId`. */
  class Device {
    var ip: string
    const port: nat
    const uuid: string
    const schema: string
    const urnDeviceType: string
    var resourceRootDevice: nat
    var resourceDevice: nat
    var group: map<nat, Resource>
    var lastId: nat

    /** The group advertises exactly the device's two resources, with its
        current IP, or nothing before the first registration. */
    ghost predicate Valid()
      reads this
    {
      port < 65536 &&
      ((resourceRootDevice == 0 && resourceDevice == 0 && group == map[]) ||
       (0 < resourceRootDevice < resourceDevice <= lastId &&
        group == Advertised(resourceRootDevice, resourceDevice, ip, port, uuid, schema, urnDeviceType)))
    }

    /** startSSDPServer once it has an IP and a description port: missing
        names become empty strings, no resource is registered yet, then
        updateSSDPResources registers both. */
    constructor (ip: string, port: nat, urnDeviceType: Option<string>, schema: Option<string>, uuid: Option<string>)
      requires 0 < port < 65536
      ensures Valid()
      ensures this.ip == ip && this.port == port
      ensures this.urnDeviceType == (if urnDeviceType.Some? then urnDeviceType.value else "")
      ensures this.schema == (if schema.Some? then schema.value else "")
      ensures this.uuid == (if uuid.Some? then uuid.value else "")
      ensures resourceRootDevice == 1 && resourceDevice == 2
      ensures group == Advertised(1, 2, this.ip, port, this.uuid, this.schema, this.urnDeviceType)
    {
      this.ip := ip;
      this.port := port;
      this.urnDeviceType := if urnDeviceType.Some? then urnDeviceType.value else "";
      this.schema := if schema.Some? then schema.value else "";
      this.uuid := if uuid.Some? then uuid.value else "";
      resourceRootDevice := 0;
      resourceDevice := 0;
      group := map[];
      lastId := 0;
      new;
      UpdateResources();
    }

    /** gssdp_resource_group_add_resource_simple: the resource is stored
        under the next id. */
    method AddResource(target: string, usn: string, location: string) returns (id: nat)
      modifies this
      ensures id == old(lastId) + 1 && lastId == id
      ensures group == old(group)[id := Resource(target, usn, location)]
      ensures ip == old(ip) && resourceRootDevice == old(resourceRootDevice) && resourceDevice == old(resourceDevice)
    {
      lastId := lastId + 1;
      id := lastId;
      group := group[id := Resource(target, usn, location)];
    }

    /** gssdp_resource_group_remove_resource */
    method RemoveResource(id: nat)
      modifies this
      ensures group == old(group) - {id}
      ensures ip == old(ip) && lastId == old(lastId)
      ensures resourceRootDevice == old(resourceRootDevice) && resourceDevice == old(resourceDevice)
    {
      group := group - {id};
    }

    /** updateSSDPResources: the four strings are formatted for the current
        IP, the resources registered before are removed and the two
        resources are registered again under new ids. */
    method UpdateResources()
      requires port < 65536
      requires (resourceRootDevice == 0 && resourceDevice == 0 && group == map[]) ||
               (0 < resourceRootDevice < resourceDevice <= lastId &&
                group.Keys == {resourceRootDevice, resourceDevice})
      modifies this
      ensures Valid()
      ensures ip == old(ip) && lastId == old(lastId) + 2
      ensures resourceRootDevice == old(lastId) + 1 && resourceDevice == old(lastId) + 2
      ensures group == Advertised(resourceRootDevice, resourceDevice, ip, port, uuid, schema, urnDeviceType)
    {
      var buffers := Buffers(ip, port, uuid, schema, urnDeviceType);
      BuffersFit(ip, port, uuid, schema, urnDeviceType);
      var location := Snprintf(buffers[0].bound, Location(ip, port));
      var rootDevice := Snprintf(buffers[1].bound, RootDeviceUsn(uuid));
      var deviceType := Snprintf(buffers[2].bound, DeviceType(schema, urnDeviceType));
      var device := Snprintf(buffers[3].bound, DeviceUsn(uuid, schema, urnDeviceType));
      assert buffers[0].text == Location(ip, port);

      if resourceRootDevice > 0 {
        RemoveResource(resourceRootDevice);
      }
      if resourceDevice > 0 {
        RemoveResource(resourceDevice);
      }
      assert group == map[];
      resourceRootDevice := AddResource(RootDeviceTarget, rootDevice, location);
      resourceDevice := AddResource(deviceType, device, location);
    }

    /** updateSSDPResourcesTimeoutCb with the address the host reports now
        (None when it has none): on a change of address the IP is replaced
        and the resources are registered again; otherwise nothing changes. */
    method RefreshIp(newIp: Option<string>)
      requires Valid()
      modifies this
      ensures Valid()
      ensures ReplaceIp(Some(old(ip)), newIp) ==>
        newIp.Some? && ip == newIp.value && lastId == old(lastId) + 2 &&
        resourceRootDevice == old(lastId) + 1 && resourceDevice == old(lastId) + 2
      ensures !ReplaceIp(Some(old(ip)), newIp) ==>
        ip == old(ip) && group == old(group) && lastId == old(lastId) &&
        resourceRootDevice == old(resourceRootDevice) && resourceDevice == old(resourceDevice)
    {
      if ReplaceIp(Some(ip), newIp) {
        ip := newIp.value;
        UpdateResources();
      }
    }
  }
}
