/** The server list of the web client (web.c): getJSONVal reads one
    string field out of a JSON object, parseList turns the body of the
    server-list response into a linked list of servers, and
    iotcServerListDeleteFirst / iotcServerListFree release it. Both parsers
    work in place on the response buffer, writing a NUL into it and putting
    back (or not) the character it replaced. */
module Web {
  import opened Common

  /** One entry of struct iotcServerList, without its link. */
  datatype Server = Server(ip: string, username: string, password: string)

  // ---------------------------------------------------------------- C strings in a buffer

  /** The position of the first NUL at or after `at`, or the end. */
  function NulFrom(s: string, at: nat): (e: nat)
    requires at <= |s|
    ensures at <= e <= |s| && (e < |s| ==> s[e] == '\0')
    ensures forall k :: at <= k < e ==> s[k] != '\0'
    decreases |s| - at
  {
    if at == |s| || s[at] == '\0' then at else NulFrom(s, at + 1)
  }

  /** The C string that starts at `at`. */
  function CText(s: string, at: nat): (t: string)
    requires at <= |s|
    ensures |t| == NulFrom(s, at) - at
    ensures forall k :: 0 <= k < |t| ==> t[k] == s[at + k] != '\0'
  {
    s[at..NulFrom(s, at)]
  }

  /** A C string starting inside another one ends where that one does. */
  lemma {:induction false} NulFromMid(s: string, at: nat, j: nat)
    requires at <= |s| && at <= j <= NulFrom(s, at)
    ensures NulFrom(s, j) == NulFrom(s, at)
    decreases j - at
  {
    if at < j {
      NulFromMid(s, at + 1, j);
    }
  }

  /** Buffers that agree on where their NULs are from `at` on hold C
      strings of the same length there. */
  lemma {:induction false} NulFromSame(a: string, b: string, at: nat)
    requires |a| == |b| && at <= |a|
    requires forall k :: at <= k < |a| ==> (a[k] == '\0') == (b[k] == '\0')
    ensures NulFrom(a, at) == NulFrom(b, at)
    decreases |a| - at
  {
    if at < |a| && a[at] != '\0' {
      NulFromSame(a, b, at + 1);
    }
  }

  /** Writing a NUL inside a C string cuts it there. */
  lemma CTextCut(s: string, at: nat, e: nat)
    requires at <= |s| && at <= e < NulFrom(s, at)
    ensures CText(s[e := '\0'], at) == s[at..e]
  {
    NulFromStops(s[e := '\0'], at, e);
  }

  /** NulFrom finds the first NUL. */
  lemma {:induction false} NulFromStops(s: string, at: nat, e: nat)
    requires at <= e < |s| && s[e] == '\0'
    requires forall k :: at <= k < e ==> s[k] != '\0'
    ensures NulFrom(s, at) == e
    decreases e - at
  {
    if at < e {
      NulFromStops(s, at + 1, e);
    }
  }

  // ---------------------------------------------------------------- getJSONVal

  /** The text getJSONVal looks for: the quoted field name, a colon and the
      opening quote of the value (the buffer of strlen(field) + 5 bytes holds
      it and its NUL exactly). */
  function Key(field: string): (k: string)
    ensures |k| == |field| + 4 && k[0] == '"' && k[|k| - 1] == '"'
  {
    "\"" + field + "\":\""
  }

  /** What getJSONVal returns for the JSON object `obj`: the text between
      the first occurrence of the key and the next double quote; nothing
      when there is no field name, no key or no closing quote. */
  function JsonVal(obj: string, field: Option<string>): (r: Option<string>)
    ensures field.None? ==> r.None?
    ensures field.Some? && IndexOf(obj, Key(field.value)).None? ==> r.None?
  {
    if field.None? then None
    else
      var key := Key(field.value);
      match IndexOf(obj, key)
      case None => None
      case Some(p) =>
        match IndexFrom(obj, "\"", p + |key|)
        case None => None
        case Some(q) =>
          Some(obj[p + |key|..q])
  }

  /** A value never holds a double quote: it ends at the first one. */
  lemma JsonValQuoteFree(obj: string, field: Option<string>)
    requires JsonVal(obj, field).Some?
    ensures forall k :: 0 <= k < |JsonVal(obj, field).value| ==> JsonVal(obj, field).value[k] != '"'
  {
    var key := Key(field.value);
    QuoteFree(obj, IndexOf(obj, key).value + |key|);
  }

  /** IndexFrom skips no double quote. */
  lemma QuoteFree(obj: string, from: nat)
    requires IndexFrom(obj, "\"", from).Some?
    ensures var q := IndexFrom(obj, "\"", from).value;
      forall k :: from <= k < q ==> obj[k] != '"'
  {
    var q := IndexFrom(obj, "\"", from).value;
    IndexFromSkips(obj, "\"", from);
    forall k | from <= k < q
      ensures obj[k] != '"'
    {
      assert !OccursAt(obj, "\"", k);
      assert obj[k..k + 1] == [obj[k]];
    }
  }

  /** The converse: an object holding the key, a quote-free value and the
      closing quote, with no earlier occurrence of the key, yields that value. */
  lemma JsonValOf(pre: string, field: string, v: string, post: string)
    requires forall k :: 0 <= k < |v| ==> v[k] != '"'
    requires forall k :: 0 <= k < |pre| ==> !OccursAt(pre + Key(field) + v + "\"" + post, Key(field), k)
    ensures JsonVal(pre + Key(field) + v + "\"" + post, Some(field)) == Some(v)
  {
    var key := Key(field);
    var obj := pre + key + v + "\"" + post;
    var start := |pre| + |key|;
    var q := start + |v|;
    assert obj[|pre|..start] == key;
    assert obj[start..q] == v;
    assert obj[q] == '"';
    JsonValAt(obj, field, |pre|, q);
  }

  /** JsonVal finds the value between the first occurrence of the key at
      `p` and the first double quote after it, at `q`. */
  lemma JsonValAt(obj: string, field: string, p: nat, q: nat)
    requires OccursAt(obj, Key(field), p) && forall k :: 0 <= k < p ==> !OccursAt(obj, Key(field), k)
    requires p + |Key(field)| <= q < |obj| && obj[q] == '"'
    requires forall k :: p + |Key(field)| <= k < q ==> obj[k] != '"'
    ensures JsonVal(obj, Some(field)) == Some(obj[p + |Key(field)|..q])
  {
    var key := Key(field);
    IndexFromFirst(obj, key, 0, p);
    assert obj[q..q + 1] == "\"";
    forall k | p + |key| <= k < q
      ensures !OccursAt(obj, "\"", k)
    {
      assert obj[k..k + 1] == [obj[k]];
    }
    IndexFromFirst(obj, "\"", p + |key|, q);
  }

  /** strstr from `i` finds `p` when `p` is the first occurrence from `i`. */
  lemma {:induction false} IndexFromFirst<T>(s: seq<T>, pat: seq<T>, i: nat, p: nat)
    requires i <= p && OccursAt(s, pat, p)
    requires forall k :: i <= k < p ==> !OccursAt(s, pat, k)
    ensures IndexFrom(s, pat, i) == Some(p)
    decreases p - i
  {
    if i < p {
      assert !OccursAt(s, pat, i);
      IndexFromFirst(s, pat, i + 1, p);
    }
  }

  /** The writes of getJSONVal: a NUL over the closing quote at `q` cuts
      the value out of the C string at `at`, and putting the quote back
      restores the buffer. */
  lemma CutValue(s: string, at: nat, start: nat, q: nat)
    requires at <= |s| && start <= q && IndexFrom(CText(s, at), "\"", start) == Some(q)
    ensures at + q < NulFrom(s, at) && s[at + q] == '"'
    ensures CText(s[at + q := '\0'], at + start) == CText(s, at)[start..q]
  {
    var obj := CText(s, at);
    assert obj[q..q + 1] == "\"";
    assert obj[q] == s[at + q];
    CutInside(s, at, start, q);
  }

  /** A NUL written at `at + q` inside the C string at `at` ends the C
      string at `at + start` there. */
  lemma CutInside(s: string, at: nat, start: nat, q: nat)
    requires at <= |s| && start <= q && at + q < NulFrom(s, at)
    ensures CText(s[at + q := '\0'], at + start) == CText(s, at)[start..q]
  {
    NulFromMid(s, at, at + start);
    CTextCut(s, at + start, at + q);
  }

  /** Writing a character and then the old one back leaves the text as it was. */
  lemma PutBack(s: string, i: nat, c: char)
    requires i < |s|
    ensures s[i := c][i := s[i]] == s
  {
  }

  /** getJSONVal on the C string that starts at `at` in `buf`. It writes a
      NUL over the closing quote so that strdup copies the value alone, then
      puts the quote back: the buffer ends as it began. */
  method GetJsonVal(buf: array<char>, at: nat, field: Option<string>, ghost obj: string) returns (r: Option<string>)
    requires at <= buf.Length && obj == CText(buf[..], at)
    modifies buf
    ensures buf[..] == old(buf[..])
    ensures r == JsonVal(obj, field)
  {
    if field.None? {
      return None;
    }
    var key := Key(field.value);
    var obj := CText(buf[..], at);
    var found := IndexOf(obj, key);
    if found.None? {
      return None;
    }
    var start := found.value + |key|;
    var close := IndexFrom(obj, "\"", start);
    if close.None? {
      return None;
    }
    var e := at + close.value;
    ghost var before := buf[..];
    CutValue(before, at, start, close.value);
    PutBack(before, e, '\0');
    buf[e] := '\0';
    assert buf[..] == before[e := '\0'];
    r := Some(CText(buf[..], at + start));
    buf[e] := '"';
  }

  // ---------------------------------------------------------------- the as-written NULL test (web.c:45-47)

  /** The outcome of getJSONVal as written: a result, or a read through a
      wild pointer. */
  datatype Outcome = Returned(value: Option<string>) | WildRead

  /** getJSONVal as written adds strlen(completeField) to strstr's result
      before testing it for NULL, so a missing key is never caught: the
      pointer is NULL plus the key's length and the next strstr reads through
      it. */
  function JsonValAsWritten(obj: string, field: Option<string>): (r: Outcome)
    ensures r.Returned? ==> r.value == JsonVal(obj, field)
  {
    if field.None? then Returned(None)
    else if IndexOf(obj, Key(field.value)).None? then WildRead
    else Returned(JsonVal(obj, field))
  }

  /** An object without the key, such as "{}" for any field, makes the
      as-written lookup read through a wild pointer where the corrected one
      answers that the field is absent. */
  lemma MissingKeyAsWritten(field: string)
    ensures JsonValAsWritten("{}", Some(field)) == WildRead
    ensures JsonVal("{}", Some(field)) == None
  {
    assert IndexFrom("{}", Key(field), 0) == None;
  }

  // ---------------------------------------------------------------- parseList, specified

  /** Where the JSON array starts in the response: after the blank line. */
  const Marker: string := "\n\n["

  /** The server of one object, when it has all three fields. */
  function ObjectServer(obj: string): (r: Option<Server>)
    ensures r.Some? <==> JsonVal(obj, Some("srv_ip")).Some? && JsonVal(obj, Some("srv_username")).Some?
                         && JsonVal(obj, Some("srv_psw")).Some?
    ensures r.Some? ==> r.value == Server(JsonVal(obj, Some("srv_ip")).value,
                                          JsonVal(obj, Some("srv_username")).value,
                                          JsonVal(obj, Some("srv_psw")).value)
  {
    var ip := JsonVal(obj, Some("srv_ip"));
    var user := JsonVal(obj, Some("srv_username"));
    var pass := JsonVal(obj, Some("srv_psw"));
    if ip.None? || user.None? || pass.None? then None
    else Some(Server(ip.value, user.value, pass.value))
  }

  /** What parseList produces: the servers, the positions where the ','
      after an object was put back, and the position where a NUL is left
      behind when an object lacks a field. */
  datatype Parsed = Parsed(servers: seq<Server>, commas: set<nat>, cut: Option<nat>)

  /** The objects of the response text `t` from position `json`: each
      object ends at the next '}', and the walk stops at the end of the text,
      when no '}' is left, when the '}' is the last character, or at the
      first object that lacks a field. */
  function ParseObjects(t: string, json: nat): (r: Parsed)
    decreases |t| - json, 1
  {
    match ObjectEnd(t, json)
    case None => Parsed([], {}, None)
    case Some(e) => ParseObject(t, json, e)
  }

  /** The '}' that ends the object starting at `json`, unless the walk
      stops there. */
  function ObjectEnd(t: string, json: nat): (r: Option<nat>)
    ensures r.Some? ==> json <= r.value && r.value + 1 < |t| && t[r.value] == '}'
  {
    if json >= |t| then None
    else match IndexOf(t[json..], "}")
      case None => None
      case Some(k) =>
        assert t[json..][k..k + 1] == "}";
        if json + k + 1 >= |t| then None else Some(json + k)
  }

  /** An object end is found whenever a '}' is followed by more text. */
  lemma ObjectEndFinds(t: string, json: nat, k: nat)
    requires json <= k < |t| - 1 && t[k] == '}'
    ensures ObjectEnd(t, json).Some? && ObjectEnd(t, json).value <= k
  {
    match IndexOf(t[json..], "}")
    case None =>
      NoBrace(t, json);
    case Some(i) =>
      if json + i > k {
        IndexOfFirst(t[json..], "}");
        assert t[json..][k - json..k - json + 1] == "}";
        assert OccursAt(t[json..], "}", k - json);
      }
  }

  /** strstr finds no '}' only when there is none. */
  lemma NoBrace(t: string, json: nat)
    requires json <= |t| && IndexOf(t[json..], "}").None?
    ensures forall k :: json <= k < |t| ==> t[k] != '}'
  {
    IndexOfNone(t[json..], "}");
    forall k | json <= k < |t|
      ensures t[k] != '}'
    {
      assert !OccursAt(t[json..], "}", k - json);
      assert t[json..][k - json..k - json + 1] == [t[k]];
    }
  }

  /** The object [json, e] and the objects after it. */
  function ParseObject(t: string, json: nat, e: nat): (r: Parsed)
    requires json <= e && e + 1 < |t|
    decreases |t| - json, 0
  {
    match ObjectServer(t[json..e + 1])
    case None => Parsed([], {}, Some(e + 1))
    case Some(s) =>
      var rest := ParseObjects(t, e + 2);
      Parsed([s] + rest.servers, {e + 1} + rest.commas, rest.cut)
  }

  /** One object read: it either ends the walk with a NUL after its '}'
      or puts a ',' back there and the walk goes on after it. */
  lemma ObjectShape(t: string, json: nat, e: nat)
    requires ObjectEnd(t, json) == Some(e)
    ensures var p := ParseObjects(t, json);
      (p.commas == {} && p.cut == Some(e + 1)) ||
      (p.commas == {e + 1} + ParseObjects(t, e + 2).commas && p.cut == ParseObjects(t, e + 2).cut)
  {
    assert ParseObjects(t, json) == ParseObject(t, json, e);
  }

  /** The NUL parseList leaves and the ',' it puts back, as one object read
      adds them to those of the objects after it. */
  predicate AfterBraces(t: string, json: nat, p: Parsed)
  {
    (forall k :: k in p.commas ==> json < k < |t| && t[k - 1] == '}') &&
    (p.cut.Some? ==> json < p.cut.value < |t| && t[p.cut.value - 1] == '}' &&
                     forall k :: k in p.commas ==> k < p.cut.value)
  }

  lemma AfterBracesStep(t: string, json: nat, e: nat, p: Parsed, rest: Parsed)
    requires json <= e && e + 1 < |t| && t[e] == '}'
    requires (p.commas == {} && p.cut == Some(e + 1)) ||
             (p.commas == {e + 1} + rest.commas && p.cut == rest.cut)
    requires AfterBraces(t, e + 2, rest)
    ensures AfterBraces(t, json, p)
  {
  }

  /** parseList writes only inside the response and only right after the
      '}' of an object: each ',' it puts back and the NUL it leaves follow
      a '}', and the NUL comes after every ','. */
  lemma {:induction false} WritesAfterBraces(t: string, json: nat)
    ensures AfterBraces(t, json, ParseObjects(t, json))
    decreases |t| - json
  {
    match ObjectEnd(t, json)
    case None =>
    case Some(e) =>
      ObjectShape(t, json, e);
      WritesAfterBraces(t, e + 2);
      AfterBracesStep(t, json, e, ParseObjects(t, json), ParseObjects(t, e + 2));
  }

  /** When a ',' already followed each object read, as in a well-formed
      array, parseList gives the buffer back as it found it unless an object
      lacked a field. */
  lemma ListRestored(s: string, p: Parsed)
    requires forall k :: k in p.commas ==> k < |s| && s[k] == ','
    ensures Marks(s, p.commas, None) == s
  {
  }

  /** parseList on the response text `t`. */
  function Parse(t: string): (r: Parsed)
    ensures IndexOf(t, Marker).None? ==> r == Parsed([], {}, None)
  {
    match IndexOf(t, Marker)
    case None => Parsed([], {}, None)
    case Some(p) => ParseObjects(t, p + 3)
  }

  /** The buffer `s` as parseList leaves it: a ',' at each position in
      `commas`, a NUL at `cut`, and the rest as it was. */
  function Marks(s: string, commas: set<nat>, cut: Option<nat>): (m: string)
    ensures |m| == |s|
    ensures forall k :: 0 <= k < |s| && k !in commas && cut != Some(k) ==> m[k] == s[k]
  {
    seq(|s|, k requires 0 <= k < |s| => if k in commas then ',' else if cut == Some(k) then '\0' else s[k])
  }

  // ---------------------------------------------------------------- the list

  /** The linked list of servers, head first. `released` records the
      entries freed so far. */
  class ServerList {
    var servers: seq<Server>
    ghost var released: seq<Server>

    constructor ()
      ensures servers == [] && released == []
    {
      servers := [];
      released := [];
    }

    /** Linking a new node after `last`. */
    method Append(s: Server)
      modifies this
      ensures servers == old(servers) + [s] && released == old(released)
    {
      servers := servers + [s];
    }

    /** iotcServerListDeleteFirst: the head is unlinked and freed; an empty
      list is left alone. */
    method DeleteFirst()
      modifies this
      ensures old(servers) == [] ==> servers == [] && released == old(released)
      ensures old(servers) != [] ==> servers == old(servers)[1..] && released == old(released) + [old(servers)[0]]
    {
      if servers != [] {
        released := released + [servers[0]];
        servers := servers[1..];
      }
    }

    /** iotcServerListFree: every entry is freed, head first. */
    method Free()
      modifies this
      ensures servers == [] && released == old(released) + old(servers)
    {
      ghost var freed: seq<Server> := [];
      while servers != []
        invariant old(servers) == freed + servers && released == old(released) + freed
        decreases |servers|
      {
        ghost var head := servers[0];
        assert servers == [head] + servers[1..];
        DeleteFirst();
        freed := freed + [head];
      }
    }
  }

  // ---------------------------------------------------------------- parseList, in place

  /** The body of one iteration of parseList up to the allocation: the
      object [json, end] is cut off with a NUL after its '}' and its three
      fields are read. */
  method ReadObject(buf: array<char>, json: nat, end: nat, ghost obj: string) returns (s: Option<Server>)
    requires json <= end && json <= buf.Length && end + 1 < NulFrom(buf[..], json)
    requires obj == buf[json..end + 1]
    modifies buf
    ensures buf[..] == old(buf[..])[end + 1 := '\0']
    ensures s == ObjectServer(obj)
  {
    ghost var before := buf[..];
    buf[end + 1] := '\0';
    CTextCut(before, json, end + 1);
    assert CText(buf[..], json) == obj;
    var ip := GetJsonVal(buf, json, Some("srv_ip"), obj);
    var user := GetJsonVal(buf, json, Some("srv_username"), obj);
    var pass := GetJsonVal(buf, json, Some("srv_psw"), obj);
    if ip.None? || user.None? || pass.None? {
      return None;
    }
    s := Some(Server(ip.value, user.value, pass.value));
  }

  /** What the buffer holds between iterations: the response with ','
      written back after each object read so far, and the NUL left after
      an object that lacked a field. */
  ghost predicate Walked(b: string, orig: string, json: nat, len: nat, commas: set<nat>, cut: Option<nat>)
  {
    |b| == |orig| && len == NulFrom(orig, 0) && json <= len &&
    (forall k :: k in commas ==> k < json) && (cut.Some? ==> json < cut.value < len) &&
    b == Marks(orig, commas, cut)
  }

  /** Between iterations the response still ends where it did, and the text
      from `json` on is the original one. */
  lemma WalkedText(b: string, orig: string, json: nat, len: nat, commas: set<nat>)
    requires Walked(b, orig, json, len, commas, None)
    ensures |CText(b, 0)| == |CText(orig, 0)| == len
    ensures NulFrom(b, json) == len && CText(b, json) == CText(orig, 0)[json..]
  {
    NulFromSame(b, orig, 0);
    NulFromMid(orig, 0, json);
    NulFromMid(b, 0, json);
  }

  /** An object read: the ',' goes back after it and the walk moves on. */
  lemma WalkedStep(b: string, orig: string, json: nat, len: nat, commas: set<nat>, e: nat)
    requires Walked(b, orig, json, len, commas, None) && json <= e && e + 1 < len
    ensures Walked(b[e + 1 := '\0'][e + 1 := ','], orig, e + 2, len, commas + {e + 1}, None)
  {
  }

  /** An object lacking a field: the NUL stays after it. */
  lemma WalkedCut(b: string, orig: string, json: nat, len: nat, commas: set<nat>, e: nat)
    requires Walked(b, orig, json, len, commas, None) && json <= e && e + 1 < len
    ensures Walked(b[e + 1 := '\0'], orig, json, len, commas, Some(e + 1))
  {
  }

  /** Where the walk finds no further object, nothing more is parsed. */
  lemma NoObject(t: string, json: nat)
    requires ObjectEnd(t, json).None?
    ensures ParseObjects(t, json) == Parsed([], {}, None)
  {
  }

  /** The loop's bookkeeping: what is left to parse, added to what was
      parsed already, is the whole result. */
  ghost predicate Progress(whole: Parsed, rest: Parsed, got: seq<Server>, commas: set<nat>)
  {
    whole.servers == got + rest.servers && whole.commas == commas + rest.commas && whole.cut == rest.cut
  }

  /** Before the first object nothing is parsed yet. */
  lemma ProgressStart(whole: Parsed)
    ensures Progress(whole, whole, [], {})
  {
    assert [] + whole.servers == whole.servers;
    assert {} + whole.commas == whole.commas;
  }

  /** One object read: the bookkeeping moves past it. */
  lemma {:induction false} ProgressStep(whole: Parsed, t: string, json: nat, e: nat, s: Server, got: seq<Server>, commas: set<nat>)
    requires ObjectEnd(t, json) == Some(e) && Progress(whole, ParseObjects(t, json), got, commas)
    requires ObjectServer(t[json..e + 1]) == Some(s)
    ensures Progress(whole, ParseObjects(t, e + 2), got + [s], commas + {e + 1})
  {
    var rest := ParseObjects(t, e + 2);
    assert ParseObjects(t, json) == ParseObject(t, json, e);
    assert ParseObject(t, json, e) == Parsed([s] + rest.servers, {e + 1} + rest.commas, rest.cut);
    assert got + ([s] + rest.servers) == got + [s] + rest.servers;
    assert commas + ({e + 1} + rest.commas) == commas + {e + 1} + rest.commas;
  }

  /** An object lacking a field ends the walk, with the NUL left after it. */
  lemma ObjectLacking(t: string, json: nat, e: nat)
    requires ObjectEnd(t, json) == Some(e) && ObjectServer(t[json..e + 1]).None?
    ensures ParseObjects(t, json) == Parsed([], {}, Some(e + 1))
  {
    assert ParseObjects(t, json) == ParseObject(t, json, e);
  }

  /** When the walk stops, the list and the buffer are what the
      specification says. */
  lemma Finish(orig: string, b: string, whole: Parsed, json: nat, len: nat, got: seq<Server>, commas: set<nat>, cut: Option<nat>)
    requires Walked(b, orig, json, len, commas, cut)
    requires Progress(whole, Parsed([], {}, cut), got, commas)
    ensures got == whole.servers
    ensures b == Marks(orig, whole.commas, whole.cut)
  {
  }

  /** The body of parseList's loop once the object [json, e] is found:
      it is read, and either its server is appended and the ',' put back
      after it (`ok`), or the walk stops with the NUL left there. */
  method TakeObject(buf: array<char>, list: ServerList, json: nat, e: nat, ghost t: string, ghost orig: string,
                    ghost len: nat, ghost commas: set<nat>, ghost whole: Parsed)
    returns (ok: bool)
    requires Walked(buf[..], orig, json, len, commas, None) && t == CText(orig, 0)
    requires ObjectEnd(t, json) == Some(e)
    requires Progress(whole, ParseObjects(t, json), list.servers, commas)
    modifies buf, list
    ensures ok ==> Walked(buf[..], orig, e + 2, len, commas + {e + 1}, None)
    ensures ok ==> Progress(whole, ParseObjects(t, e + 2), list.servers, commas + {e + 1})
    ensures !ok ==> Walked(buf[..], orig, json, len, commas, Some(e + 1))
    ensures !ok ==> Progress(whole, Parsed([], {}, Some(e + 1)), list.servers, commas)
    ensures list.released == old(list.released)
  {
    WalkedText(buf[..], orig, json, len, commas);
    ghost var walked := buf[..];
    var server := ReadObject(buf, json, e, t[json..e + 1]);
    if server.None? {
      ObjectLacking(t, json, e);
      WalkedCut(walked, orig, json, len, commas, e);
      return false;
    }
    ProgressStep(whole, t, json, e, server.value, list.servers, commas);
    list.Append(server.value);
    buf[e + 1] := ',';
    WalkedStep(walked, orig, json, len, commas, e);
    return true;
  }

  /** One iteration of parseList's loop from the object starting at
      `json`: it stops (`done`) when no object is left or the object lacks a
      field, and otherwise appends the object's server and moves past it. */
  method Advance(buf: array<char>, list: ServerList, json: nat, ghost t: string, ghost orig: string, ghost len: nat,
                 ghost commas: set<nat>, ghost whole: Parsed)
    returns (next: nat, done: bool, ghost commas': set<nat>, ghost cut: Option<nat>)
    requires Walked(buf[..], orig, json, len, commas, None) && t == CText(orig, 0) && json < len
    requires Progress(whole, ParseObjects(t, json), list.servers, commas)
    modifies buf, list
    ensures Walked(buf[..], orig, next, len, commas', cut)
    ensures !done ==> json < next && cut == None && Progress(whole, ParseObjects(t, next), list.servers, commas')
    ensures done ==> next == json && Progress(whole, Parsed([], {}, cut), list.servers, commas')
    ensures list.released == old(list.released)
  {
    WalkedText(buf[..], orig, json, len, commas);
    var objEnd := IndexOf(CText(buf[..], json), "}");
    assert ObjectEnd(t, json) == if objEnd.None? || json + objEnd.value + 1 >= len then None else Some(json + objEnd.value);
    if objEnd.None? || json + objEnd.value + 1 >= |CText(buf[..], 0)| {
      NoObject(t, json);
      return json, true, commas, None;
    }
    var e := json + objEnd.value;
    var ok := TakeObject(buf, list, json, e, t, orig, len, commas, whole);
    if ok {
      return e + 2, false, commas + {e + 1}, None;
    }
    return json, true, commas, Some(e + 1);
  }

  /** parseList on the response buffer `buf`. It returns the servers of the
      objects in document order and leaves a ',' after each object read
      (where the NUL was put back), and a NUL after the '}' of an object
      that lacked a field. */
  method ParseList(buf: array<char>) returns (list: ServerList)
    modifies buf
    ensures fresh(list)
    ensures list.servers == Parse(CText(old(buf[..]), 0)).servers && list.released == []
    ensures buf[..] == Marks(old(buf[..]), Parse(CText(old(buf[..]), 0)).commas, Parse(CText(old(buf[..]), 0)).cut)
  {
    ghost var orig := buf[..];
    ghost var t := CText(orig, 0);
    ghost var len := NulFrom(orig, 0);
    ghost var whole := Parse(t);
    list := new ServerList();
    var marker := IndexOf(CText(buf[..], 0), Marker);
    if marker.None? {
      return;
    }
    var json := marker.value + 3;
    ghost var commas: set<nat> := {};
    ghost var cut: Option<nat> := None;
    var done := false;
    assert whole == ParseObjects(t, json);
    ProgressStart(whole);
    while !done && json < |CText(buf[..], 0)|
      invariant Walked(buf[..], orig, json, len, commas, cut)
      invariant !done ==> cut == None && Progress(whole, ParseObjects(t, json), list.servers, commas)
      invariant done ==> Progress(whole, Parsed([], {}, cut), list.servers, commas)
      invariant fresh(list) && list.released == []
      decreases len - json, !done
    {
      WalkedText(buf[..], orig, json, len, commas);
      json, done, commas, cut := Advance(buf, list, json, t, orig, len, commas, whole);
    }
    if !done {
      WalkedText(buf[..], orig, json, len, commas);
      NoObject(t, json);
    }
    Finish(orig, buf[..], whole, json, len, list.servers, commas, cut);
  }

  // ---------------------------------------------------------------- the list as the server writes it

  /** One field of an object: its key, its value and the closing quote. */
  function Field(name: string, value: string): (r: string)
    ensures |r| == |name| + |value| + 5
  {
    Key(name) + value + "\""
  }

  /** A server as one object of the server-list response. */
  function ObjectText(s: Server): string
  {
    "{" + (Field("srv_ip", s.ip) + ("," + (Field("srv_username", s.username) + ("," + (Field("srv_psw", s.password) + "}")))))
  }

  /** The objects of `servers`, in order, separated by ','. */
  function Items(servers: seq<Server>): string
  {
    if servers == [] then ""
    else if |servers| == 1 then ObjectText(servers[0])
    else ObjectText(servers[0]) + ("," + Items(servers[1..]))
  }

  /** A server-list response: a header that does not hold the blank line
      before '[', then the array of the servers' objects. */
  function ListText(head: string, servers: seq<Server>): string
  {
    head + (Marker + (Items(servers) + "]"))
  }

  /** A value the list can carry whole: a '"' would end the value and a
      '}' the object. */
  predicate Plain(v: string)
  {
    forall k :: 0 <= k < |v| ==> v[k] != '"' && v[k] != '}'
  }

  predicate PlainServer(s: Server)
  {
    Plain(s.ip) && Plain(s.username) && Plain(s.password)
  }

  /** A field name no key can be confused with. */
  predicate Bare(name: string)
  {
    forall k :: 0 <= k < |name| ==> name[k] != '"' && name[k] != ':' && name[k] != ',' && name[k] != '}'
  }

  /** The characters a key found at `k` puts there. */
  lemma KeyChars(s: string, g: string, k: nat)
    ensures OccursAt(s, Key(g), k) ==>
      k + |g| + 4 <= |s| && s[k] == '"' && (forall j :: 0 <= j < |g| ==> s[k + 1 + j] == g[j]) &&
      s[k + |g| + 1] == '"' && s[k + |g| + 2] == ':' && s[k + |g| + 3] == '"'
  {
    var key := Key(g);
    if OccursAt(s, key, k) {
      assert s[k..k + |key|] == key;
      forall j | 0 <= j < |key|
        ensures s[k + j] == key[j]
      {
        assert s[k..k + |key|][j] == s[k + j];
      }
      assert forall j :: 0 <= j < |g| ==> key[1 + j] == g[j];
      assert key[|g| + 1] == '"' && key[|g| + 2] == ':';
    }
  }

  /** The characters of a field followed by a ','. */
  lemma FieldChars(f: string, v: string, rest: string)
    requires rest != [] && rest[0] == ','
    ensures var s := Field(f, v) + rest;
      s[0] == '"' && s[|f| + 1] == '"' && s[|f| + 2] == ':' && s[|f| + 3] == '"' &&
      s[|f| + 4 + |v|] == '"' && s[|f| + 5 + |v|] == ',' &&
      (forall j :: 1 <= j <= |f| ==> s[j] == f[j - 1]) &&
      (forall j :: |f| + 4 <= j < |f| + 4 + |v| ==> s[j] == v[j - |f| - 4])
  {
    var s := Field(f, v) + rest;
    assert s == "\"" + f + "\":\"" + v + "\"" + rest;
  }

  /** No key of another name starts inside a field followed by a ','. */
  lemma FieldNoKey(f: string, v: string, g: string, rest: string)
    requires Bare(f) && Bare(g) && g != [] && f != g
    requires forall j :: 0 <= j < |v| ==> v[j] != '"'
    requires rest != [] && rest[0] == ','
    ensures forall k :: 0 <= k < |Field(f, v)| ==> !OccursAt(Field(f, v) + rest, Key(g), k)
  {
    var s := Field(f, v) + rest;
    FieldChars(f, v, rest);
    forall k | 0 <= k < |Field(f, v)|
      ensures !OccursAt(s, Key(g), k)
    {
      KeyChars(s, g, k);
      if k == 0 && |g| < |f| {
        assert s[|g| + 1] == f[|g|];
      } else if k == 0 && |g| == |f| {
        var j :| 0 <= j < |f| && f[j] != g[j];
        assert s[j + 1] == f[j];
      } else if k == 0 {
        assert s[|f| + 1] == '"' && g[|f|] != '"';
      } else if k == |f| + 3 && |g| < |v| {
        assert s[k + |g| + 1] == v[|g|];
      } else if k == |f| + 3 && |g| > |v| {
        assert s[k + 1 + |v|] == '"' && g[|v|] != '"';
      }
    }
  }

  /** The same, for a field found at `at` inside `obj`. */
  lemma FieldNoKeyAt(obj: string, at: nat, f: string, v: string, g: string, rest: string)
    requires Bare(f) && Bare(g) && g != [] && f != g
    requires forall j :: 0 <= j < |v| ==> v[j] != '"'
    requires rest != [] && rest[0] == ','
    requires at <= |obj| && obj[at..] == Field(f, v) + rest
    ensures forall k :: at <= k < at + |Field(f, v)| ==> !OccursAt(obj, Key(g), k)
  {
    FieldNoKey(f, v, g, rest);
    forall k | at <= k < at + |Field(f, v)|
      ensures !OccursAt(obj, Key(g), k)
    {
      if OccursAt(obj, Key(g), k) {
        assert obj[at..][k - at..k - at + |Key(g)|] == obj[k..k + |Key(g)|];
        assert OccursAt(obj[at..], Key(g), k - at);
      }
    }
  }

  /** A field found at `at` holds its key there and its value up to the
      first '"' after the key. */
  lemma FieldAt(obj: string, at: nat, f: string, v: string, rest: string)
    requires forall j :: 0 <= j < |v| ==> v[j] != '"'
    requires at <= |obj| && obj[at..] == Field(f, v) + rest
    ensures OccursAt(obj, Key(f), at)
    ensures var q := at + |Key(f)| + |v|;
      q < |obj| && obj[q] == '"' && obj[at + |Key(f)|..q] == v &&
      forall k :: at + |Key(f)| <= k < q ==> obj[k] != '"'
  {
    var key := Key(f);
    var x := Field(f, v) + rest;
    assert x == key + (v + ("\"" + rest));
    assert obj[at..at + |key|] == x[..|key|] == key;
    var q := at + |key| + |v|;
    assert obj[at + |key|..q] == x[|key|..|key| + |v|] == v;
    assert obj[q] == x[|key| + |v|] == '"';
  }

  /** A key starts with a '"'. */
  lemma NotKeyAt(obj: string, g: string, k: nat)
    requires k < |obj| && obj[k] != '"'
    ensures !OccursAt(obj, Key(g), k)
  {
    KeyChars(obj, g, k);
  }

  /** The field names of the list hold no character that could make one
      key be found inside another field. */
  lemma NamesBare()
    ensures Bare("srv_ip") && Bare("srv_username") && Bare("srv_psw")
  {
  }

  /** getJSONVal reads the value of a field found at `at` when no key of
      that name starts before it. */
  lemma FieldRead(obj: string, at: nat, f: string, v: string, rest: string)
    requires forall j :: 0 <= j < |v| ==> v[j] != '"'
    requires at <= |obj| && obj[at..] == Field(f, v) + rest
    requires forall k :: 0 <= k < at ==> !OccursAt(obj, Key(f), k)
    ensures JsonVal(obj, Some(f)) == Some(v)
  {
    FieldAt(obj, at, f, v, rest);
    JsonValAt(obj, f, at, at + |Key(f)| + |v|);
  }

  /** Where the three fields of a server's object start. */
  lemma ObjectLayout(s: Server)
    ensures var f1 := Field("srv_ip", s.ip);
      var f2 := Field("srv_username", s.username);
      var f3 := Field("srv_psw", s.password);
      var obj := ObjectText(s);
      var p2 := 2 + |f1|;
      var p3 := p2 + |f2| + 1;
      obj[0] == '{' && obj[p2 - 1] == ',' && obj[p3 - 1] == ',' &&
      obj[1..] == f1 + ("," + (f2 + ("," + (f3 + "}")))) &&
      obj[p2..] == f2 + ("," + (f3 + "}")) &&
      obj[p3..] == f3 + "}"
  {
    var f1 := Field("srv_ip", s.ip);
    var f2 := Field("srv_username", s.username);
    var f3 := Field("srv_psw", s.password);
    var x2 := f2 + ("," + (f3 + "}"));
    var x1 := f1 + ("," + x2);
    var obj := ObjectText(s);
    assert obj[1..] == x1;
    assert obj[2 + |f1|..] == x1[|f1| + 1..] == x2;
    assert obj[3 + |f1| + |f2|..] == x2[|f2| + 1..];
  }

  /** The server's ip is read back from its object. */
  lemma ReadsIp(s: Server)
    requires PlainServer(s)
    ensures JsonVal(ObjectText(s), Some("srv_ip")) == Some(s.ip)
  {
    var obj := ObjectText(s);
    ObjectLayout(s);
    NotKeyAt(obj, "srv_ip", 0);
    FieldRead(obj, 1, "srv_ip", s.ip, "," + (Field("srv_username", s.username) + ("," + (Field("srv_psw", s.password) + "}"))));
  }

  /** The server's user name is read back from its object. */
  lemma ReadsUsername(s: Server)
    requires PlainServer(s)
    ensures JsonVal(ObjectText(s), Some("srv_username")) == Some(s.username)
  {
    var obj := ObjectText(s);
    var f1 := Field("srv_ip", s.ip);
    var r2 := "," + (Field("srv_psw", s.password) + "}");
    var p2 := 2 + |f1|;
    ObjectLayout(s);
    NamesBare();
    FieldNoKeyAt(obj, 1, "srv_ip", s.ip, "srv_username", "," + (Field("srv_username", s.username) + r2));
    forall k | 0 <= k < p2
      ensures !OccursAt(obj, Key("srv_username"), k)
    {
      if k == 0 || k == p2 - 1 {
        NotKeyAt(obj, "srv_username", k);
      }
    }
    FieldRead(obj, p2, "srv_username", s.username, r2);
  }

  /** The server's password is read back from its object. */
  lemma ReadsPassword(s: Server)
    requires PlainServer(s)
    ensures JsonVal(ObjectText(s), Some("srv_psw")) == Some(s.password)
  {
    var obj := ObjectText(s);
    var f1 := Field("srv_ip", s.ip);
    var f2 := Field("srv_username", s.username);
    var r2 := "," + (Field("srv_psw", s.password) + "}");
    var p2 := 2 + |f1|;
    var p3 := p2 + |f2| + 1;
    ObjectLayout(s);
    NamesBare();
    FieldNoKeyAt(obj, 1, "srv_ip", s.ip, "srv_psw", "," + (f2 + r2));
    FieldNoKeyAt(obj, p2, "srv_username", s.username, "srv_psw", r2);
    forall k | 0 <= k < p3
      ensures !OccursAt(obj, Key("srv_psw"), k)
    {
      if k == 0 || k == p2 - 1 || k == p3 - 1 {
        NotKeyAt(obj, "srv_psw", k);
      }
    }
    FieldRead(obj, p3, "srv_psw", s.password, "}");
  }

  /** getJSONVal reads each field of a server's object back. */
  lemma ObjectReads(s: Server)
    requires PlainServer(s)
    ensures ObjectServer(ObjectText(s)) == Some(s)
  {
    ReadsIp(s);
    ReadsUsername(s);
    ReadsPassword(s);
  }

  /** No '}' inside a field of a bare name and a plain value. */
  lemma FieldNoBrace(f: string, v: string)
    requires Bare(f) && Plain(v)
    ensures forall k :: 0 <= k < |Field(f, v)| ==> Field(f, v)[k] != '}'
  {
    FieldChars(f, v, ",");
  }

  /** The first '}' of a server's object is the one that closes it. */
  lemma ObjectCloses(s: Server, rest: string)
    requires PlainServer(s)
    ensures ObjectText(s) != []
    ensures IndexOf(ObjectText(s) + rest, "}") == Some(|ObjectText(s)| - 1)
  {
    var f1 := Field("srv_ip", s.ip);
    var f2 := Field("srv_username", s.username);
    var f3 := Field("srv_psw", s.password);
    NamesBare();
    FieldNoBrace("srv_ip", s.ip);
    FieldNoBrace("srv_username", s.username);
    FieldNoBrace("srv_psw", s.password);
    var o := ObjectText(s);
    var x := o + rest;
    assert x[|o| - 1..|o|] == "}";
    forall k | 0 <= k < |o| - 1
      ensures !OccursAt(x, "}", k)
    {
      assert x[k..k + 1] == [o[k]];
      var p2 := 2 + |f1|;
      var p3 := p2 + |f2| + 1;
      if 1 <= k < p2 - 1 {
        assert o[k] == f1[k - 1];
      } else if p2 <= k < p3 - 1 {
        assert o[k] == f2[k - p2];
      } else if p3 <= k {
        assert o[k] == f3[k - p3];
      }
    }
    IndexFromFirst(x, "}", 0, |o| - 1);
  }

  /** The walk stops at the ']' that closes the array. */
  lemma ArrayEnd(t: string, json: nat)
    requires json <= |t| && t[json..] == "]"
    ensures ParseObjects(t, json) == Parsed([], {}, None)
  {
    var x := t[json..];
    assert x[0..1] == "]";
    assert IndexFrom(x, "}", 1) == None;
    assert IndexOf(x, "}") == None;
    assert ObjectEnd(t, json) == None;
  }

  /** The object `o` at `json`, whose first '}' closes it, ends at `e`;
      the text after the character that follows it starts at `next`. */
  lemma ObjectSpan(t: string, json: nat, o: string, tail: string, e: nat, next: nat)
    requires o != [] && tail != [] && IndexOf(o + tail, "}") == Some(|o| - 1)
    requires json <= |t| && t[json..] == o + tail
    requires e == json + |o| - 1 && next == e + 2
    ensures ObjectEnd(t, json) == Some(e)
    ensures t[json..e + 1] == o
    ensures t[next..] == tail[1..]
  {
    assert t[json..e + 1] == t[json..][..|o|];
    assert t[next..] == t[json..][|o| + 1..];
  }

  /** The walk from `json`, when the object `o` there ends at `e` and has
      all its fields, goes on at `next`, past the character after it. */
  lemma ObjectRead(t: string, json: nat, o: string, e: nat, next: nat, s: Server)
    requires ObjectEnd(t, json) == Some(e) && t[json..e + 1] == o && ObjectServer(o) == Some(s) && next == e + 2
    ensures ParseObjects(t, json).servers == [s] + ParseObjects(t, next).servers
    ensures ParseObjects(t, json).cut == ParseObjects(t, next).cut
  {
    assert ParseObjects(t, json) == ParseObject(t, json, e);
  }

  /** The objects of a well-formed array from `json` on are read whole,
      in order, and the walk ends without leaving a NUL. */
  lemma {:induction false} ObjectsFrom(t: string, json: nat, servers: seq<Server>)
    requires json <= |t| && t[json..] == Items(servers) + "]"
    requires forall i :: 0 <= i < |servers| ==> PlainServer(servers[i])
    ensures ParseObjects(t, json).servers == servers && ParseObjects(t, json).cut == None
    decreases |servers|
  {
    if servers == [] {
      ArrayEnd(t, json);
    } else {
      var o := ObjectText(servers[0]);
      var tail := if |servers| == 1 then "]" else "," + (Items(servers[1..]) + "]");
      assert t[json..] == o + tail;
      var e := json + |o| - 1;
      var next := e + 2;
      ObjectCloses(servers[0], tail);
      assert o != [] && tail != [];
      assert IndexOf(o + tail, "}") == Some(|o| - 1);
      assert json <= |t|;
      ObjectSpan(t, json, o, tail, e, next);
      ObjectReads(servers[0]);
      ObjectRead(t, json, o, e, next, servers[0]);
      if |servers| == 1 {
        assert next == |t|;
        assert ParseObjects(t, next) == Parsed([], {}, None);
      } else {
        ObjectsFrom(t, next, servers[1..]);
        assert servers == [servers[0]] + servers[1..];
      }
    }
  }

  /** strstr finds the blank line before '[' where the header ends. */
  lemma MarkerAfter(head: string, rest: string)
    requires forall k :: 0 <= k < |head| ==> !OccursAt(head + Marker, Marker, k)
    ensures IndexOf(head + (Marker + rest), Marker) == Some(|head|)
  {
    var t := head + (Marker + rest);
    var hm := head + Marker;
    assert t == hm + rest;
    assert t[..|hm|] == hm;
    forall k | 0 <= k < |head|
      ensures !OccursAt(t, Marker, k)
    {
      assert t[k..k + 3] == t[..|hm|][k..k + 3] == hm[k..k + 3];
      assert !OccursAt(hm, Marker, k);
    }
    assert t[|head|..|head| + 3] == hm[|head|..] == Marker;
    IndexFromFirst(t, Marker, 0, |head|);
  }

  /** Round trip: parseList reads back, in order, the servers of a
      response written as a JSON array of their objects, and leaves no NUL
      behind, whenever no value holds a '"' or a '}'. */
  lemma ListRoundTrip(head: string, servers: seq<Server>)
    requires forall k :: 0 <= k < |head| ==> !OccursAt(head + Marker, Marker, k)
    requires forall i :: 0 <= i < |servers| ==> PlainServer(servers[i])
    ensures Parse(ListText(head, servers)).servers == servers
    ensures Parse(ListText(head, servers)).cut == None
  {
    var t := ListText(head, servers);
    MarkerAfter(head, Items(servers) + "]");
    assert Parse(t) == ParseObjects(t, |head| + 3);
    assert t[|head| + 3..] == Items(servers) + "]";
    ObjectsFrom(t, |head| + 3, servers);
  }
}
