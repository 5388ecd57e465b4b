/** The one-line session description the tunnel peers exchange (ice.c):
        "ufrag pwd foundation,priority,ip,port,type foundation,..."
    candidateGatheringDoneCb writes it into a 1024-octet buffer and
    iceSetRemoteSdp reads it back. */
module Sdp {
  import opened Common

  /** The size of the buffer the description is printed into. */
  const SDP_LEN := 1024
  /** libnice's NICE_CANDIDATE_MAX_FOUNDATION (32 characters and a NUL). */
  const MAX_FOUNDATION := 33
  /** The separators of the description's words (g_strsplit_set's set). */
  const SEPARATORS: set<char> := {' ', '\t', '\n'}

  /** candidateTypeName, in libnice's NiceCandidateType order. */
  datatype CandidateType = Host | ServerReflexive | PeerReflexive | Relayed

  function TypeName(t: CandidateType): string
  {
    match t
    case Host => "host"
    case ServerReflexive => "srflx"
    case PeerReflexive => "prflx"
    case Relayed => "relay"
  }

  /** The strcmp search through candidateTypeName. */
  function TypeOf(name: string): (r: Option<CandidateType>)
    ensures r.Some? ==> TypeName(r.value) == name
    ensures r.None? ==> forall t: CandidateType :: TypeName(t) != name
  {
    if name == "host" then Some(Host)
    else if name == "srflx" then Some(ServerReflexive)
    else if name == "prflx" then Some(PeerReflexive)
    else if name == "relay" then Some(Relayed)
    else None
  }

  /** A local candidate as the serialiser reads it: the address already
      printed by nice_address_to_string. */
  datatype Candidate = Candidate(foundation: string, priority: nat, ip: string, port: nat, ctype: CandidateType)

  /** `fs` joined with `sep` between neighbours. */
  function Join(fs: seq<string>, sep: char): string
    requires |fs| >= 1
    decreases |fs|
  {
    if |fs| == 1 then fs[0] else fs[0] + [sep] + Join(fs[1..], sep)
  }

  /** The five fields of the " %s,%u,%s,%u,%s" format. */
  function Fields(c: Candidate): (fs: seq<string>)
    ensures |fs| == 5
  {
    [c.foundation, Decimal(c.priority), c.ip, Decimal(c.port), TypeName(c.ctype)]
  }

  /** The word a candidate is printed as. */
  function Word(c: Candidate): string
  {
    Join(Fields(c), ',')
  }

  function Words(cs: seq<Candidate>): (ws: seq<string>)
    ensures |ws| == |cs| && forall k :: 0 <= k < |cs| ==> ws[k] == Word(cs[k])
  {
    seq(|cs|, k requires 0 <= k < |cs| => Word(cs[k]))
  }

  /** The whole description, before it is cut to the buffer: the ufrag, the
      password and the candidates' words, separated by spaces. */
  function SdpText(ufrag: string, pwd: string, cands: seq<Candidate>): string
  {
    Join([ufrag, pwd] + Words(cands), ' ')
  }

  /** The first `n` characters of `s`, or all of it when shorter. */
  function Prefix(s: string, n: nat): (r: string)
    ensures |r| <= n && r <= s
    ensures |s| <= n ==> r == s
  {
    if |s| <= n then s else s[..n]
  }

  /** What snprintf(buf, room, "%s", s) leaves in a buffer with `room`
      octets: at most room - 1 characters (the NUL takes the last one). */
  function Clip(s: string, room: nat): string
    requires room >= 1
  {
    Prefix(s, room - 1)
  }

  /** The description printing of candidateGatheringDoneCb: "ufrag pwd",
      then " foundation,priority,ip,port,type" for each candidate while the
      printed length is below SDP_LEN. The result is the whole description
      cut to the SDP_LEN - 1 characters the buffer can hold. */
  method LocalSdp(ufrag: string, pwd: string, cands: seq<Candidate>) returns (sdp: string)
    ensures sdp == Prefix(SdpText(ufrag, pwd, cands), SDP_LEN - 1)
    ensures |SdpText(ufrag, pwd, cands)| < SDP_LEN ==> sdp == SdpText(ufrag, pwd, cands)
  {
    var head := ufrag + " " + pwd;
    SdpTextHead(ufrag, pwd);
    sdp := Clip(head, SDP_LEN);
    var offset := |head|;
    var k := 0;
    while k < |cands| && offset < SDP_LEN
      invariant 0 <= k <= |cands|
      invariant offset == |SdpText(ufrag, pwd, cands[..k])|
      invariant sdp == Prefix(SdpText(ufrag, pwd, cands[..k]), SDP_LEN - 1)
    {
      var piece := " " + Word(cands[k]);
      SdpTextSnoc(ufrag, pwd, cands, k);
      ClipAppend(SdpText(ufrag, pwd, cands[..k]), piece);
      sdp := sdp + Clip(piece, SDP_LEN - offset);
      offset := offset + |piece|;
      k := k + 1;
    }
    if k < |cands| {
      SdpTextPrefix(ufrag, pwd, cands, k);
      PrefixOfLonger(SdpText(ufrag, pwd, cands[..k]), SdpText(ufrag, pwd, cands), SDP_LEN - 1);
    } else {
      assert cands[..k] == cands;
    }
  }

  lemma SdpTextHead(ufrag: string, pwd: string)
    ensures SdpText(ufrag, pwd, []) == ufrag + " " + pwd
  {
    assert [ufrag, pwd] + Words([]) == [ufrag, pwd];
    assert [ufrag, pwd][1..] == [pwd];
    assert Join([ufrag, pwd], ' ') == ufrag + [' '] + pwd;
  }

  lemma SdpTextSnoc(ufrag: string, pwd: string, cands: seq<Candidate>, k: nat)
    requires k < |cands|
    ensures SdpText(ufrag, pwd, cands[..k + 1]) == SdpText(ufrag, pwd, cands[..k]) + (" " + Word(cands[k]))
  {
    var fs := [ufrag, pwd] + Words(cands[..k]);
    assert [ufrag, pwd] + Words(cands[..k + 1]) == fs + [Word(cands[k])];
    JoinSnoc(fs, Word(cands[k]), ' ');
  }

  /** Printing a piece behind a text that still fits extends the cut text
      by what fits of the piece. */
  lemma ClipAppend(text: string, piece: string)
    requires |text| < SDP_LEN
    ensures Prefix(text, SDP_LEN - 1) + Clip(piece, SDP_LEN - |text|) == Prefix(text + piece, SDP_LEN - 1)
  {
    if |text + piece| > SDP_LEN - 1 {
      assert (text + piece)[..SDP_LEN - 1] == text + piece[..SDP_LEN - 1 - |text|];
    }
  }

  lemma PrefixOfLonger(a: string, b: string, n: nat)
    requires a <= b && |a| >= n
    ensures Prefix(a, n) == Prefix(b, n)
  {
    assert a[..n] == b[..n];
  }

  lemma {:induction false} JoinSnoc(fs: seq<string>, w: string, sep: char)
    requires |fs| >= 1
    ensures Join(fs + [w], sep) == Join(fs, sep) + [sep] + w
    decreases |fs|
  {
    if |fs| == 1 {
      assert (fs + [w])[1..] == [w];
    } else {
      assert (fs + [w])[1..] == fs[1..] + [w];
      JoinSnoc(fs[1..], w, sep);
    }
  }

  lemma {:induction false} JoinPrefix(fs: seq<string>, m: nat, sep: char)
    requires 1 <= m <= |fs|
    ensures Join(fs[..m], sep) <= Join(fs, sep)
    decreases |fs|
  {
    if m == |fs| {
      assert fs[..m] == fs;
    } else if m > 1 {
      assert fs[..m][1..] == fs[1..][..m - 1];
      JoinPrefix(fs[1..], m - 1, sep);
    }
  }

  /** The description of the first k candidates starts the description of all of them. */
  lemma SdpTextPrefix(ufrag: string, pwd: string, cands: seq<Candidate>, k: nat)
    requires k <= |cands|
    ensures SdpText(ufrag, pwd, cands[..k]) <= SdpText(ufrag, pwd, cands)
  {
    var fs := [ufrag, pwd] + Words(cands);
    assert fs[..k + 2] == [ufrag, pwd] + Words(cands[..k]);
    JoinPrefix(fs, k + 2, ' ');
  }

  // ---------------------------------------------------------------- splitting

  /** g_strsplit_set(s, seps, 0): the pieces between separator characters,
      empty pieces included. (GLib returns no pieces at all for an empty
      string where this gives one empty piece; the parser skips empty
      pieces, so the two read the same.) */
  function SplitSet(s: string, seps: set<char>): (r: seq<string>)
    ensures |r| >= 1
    decreases |s|
  {
    if s == [] then [[]]
    else
      var rest := SplitSet(s[1..], seps);
      if s[0] in seps then [[]] + rest else [[s[0]] + rest[0]] + rest[1..]
  }

  /** `s` holds none of the characters of `seps`. */
  predicate Free(s: string, seps: set<char>)
  {
    forall k :: 0 <= k < |s| ==> s[k] !in seps
  }

  /** A text without separators is one piece. */
  lemma {:induction false} SplitSetWhole(a: string, seps: set<char>)
    requires Free(a, seps)
    ensures SplitSet(a, seps) == [a]
    decreases |a|
  {
    if a != [] {
      SplitSetWhole(a[1..], seps);
      assert [a[0]] + a[1..] == a;
    }
  }

  /** Splitting at a separator splits each side on its own. */
  lemma {:induction false} SplitSetAt(a: string, sep: char, b: string, seps: set<char>)
    requires sep in seps
    ensures SplitSet(a + [sep] + b, seps) == SplitSet(a, seps) + SplitSet(b, seps)
    decreases |a|
  {
    var s := a + [sep] + b;
    if a == [] {
      assert s[1..] == b;
    } else {
      assert s[1..] == a[1..] + [sep] + b;
      SplitSetAt(a[1..], sep, b, seps);
    }
  }

  /** Words free of separators, joined by a separator, split back into themselves. */
  lemma {:induction false} SplitSetJoin(fs: seq<string>, sep: char, seps: set<char>)
    requires |fs| >= 1 && sep in seps
    requires forall k :: 0 <= k < |fs| ==> Free(fs[k], seps)
    ensures SplitSet(Join(fs, sep), seps) == fs
    decreases |fs|
  {
    SplitSetWhole(fs[0], seps);
    if |fs| > 1 {
      SplitSetJoin(fs[1..], sep, seps);
      SplitSetAt(fs[0], sep, Join(fs[1..], sep), seps);
    }
  }

  /** Joining words free of `seps` with a character outside `seps` keeps them out. */
  lemma {:induction false} FreeJoin(fs: seq<string>, sep: char, seps: set<char>)
    requires |fs| >= 1 && sep !in seps
    requires forall k :: 0 <= k < |fs| ==> Free(fs[k], seps)
    ensures Free(Join(fs, sep), seps)
    decreases |fs|
  {
    if |fs| > 1 {
      FreeJoin(fs[1..], sep, seps);
      FreeAppend(fs[0] + [sep], Join(fs[1..], sep), seps);
      FreeAppend(fs[0], [sep], seps);
    }
  }

  lemma FreeAppend(a: string, b: string, seps: set<char>)
    requires Free(a, seps) && Free(b, seps)
    ensures Free(a + b, seps)
  {
    forall k | 0 <= k < |a + b|
      ensures (a + b)[k] !in seps
    {
      if k < |a| {
        assert (a + b)[k] == a[k];
      } else {
        assert (a + b)[k] == b[k - |a|];
      }
    }
  }

  /** The first occurrence of `c` in `s`, or |s| when there is none. */
  function FindChar(s: string, c: char): (r: nat)
    ensures r <= |s|
    ensures r < |s| ==> s[r] == c
    ensures forall k :: 0 <= k < r ==> s[k] != c
    decreases |s|
  {
    if s == [] then 0 else if s[0] == c then 0 else 1 + FindChar(s[1..], c)
  }

  /** g_strsplit(s, sep, n) for n >= 1: at most n pieces, the last one
      holding the rest of the text; no pieces for an empty text. */
  function SplitN(s: string, sep: char, n: nat): (r: seq<string>)
    requires n >= 1
  {
    if s == [] then [] else Pieces(s, sep, n)
  }

  function Pieces(s: string, sep: char, n: nat): (r: seq<string>)
    requires n >= 1
    ensures 1 <= |r| <= n
    decreases n
  {
    var k := FindChar(s, sep);
    if n == 1 || k == |s| then [s] else [s[..k]] + Pieces(s[k + 1..], sep, n - 1)
  }

  lemma PiecesStep(a: string, sep: char, b: string, n: nat)
    requires n >= 2 && Free(a, {sep})
    ensures Pieces(a + [sep] + b, sep, n) == [a] + Pieces(b, sep, n - 1)
  {
    var s := a + [sep] + b;
    var k := FindChar(s, sep);
    assert s[|a|] == sep;
    assert forall j :: 0 <= j < |a| ==> s[j] == a[j];
    assert k == |a|;
    assert s[..k] == a && s[k + 1..] == b;
  }

  lemma PiecesLast(a: string, sep: char, n: nat)
    requires n >= 1 && Free(a, {sep})
    ensures Pieces(a, sep, n) == [a]
  {
    assert FindChar(a, sep) == |a|;
  }

  /** Fields free of `sep`, joined by it, split back into themselves. */
  lemma {:induction false} PiecesJoin(fs: seq<string>, sep: char)
    requires |fs| >= 1
    requires forall k :: 0 <= k < |fs| ==> Free(fs[k], {sep})
    ensures Pieces(Join(fs, sep), sep, |fs|) == fs
    decreases |fs|
  {
    if |fs| == 1 {
      PiecesLast(fs[0], sep, 1);
    } else {
      var rest := Join(fs[1..], sep);
      assert Pieces(rest, sep, |fs| - 1) == fs[1..] by {
        forall k | 0 <= k < |fs| - 1
          ensures Free(fs[1..][k], {sep})
        {
          assert fs[1..][k] == fs[k + 1];
        }
        PiecesJoin(fs[1..], sep);
      }
      assert Pieces(Join(fs, sep), sep, |fs|) == [fs[0]] + Pieces(rest, sep, |fs| - 1) by {
        PiecesStep(fs[0], sep, rest, |fs|);
      }
      assert [fs[0]] + fs[1..] == fs;
    }
  }

  /** A candidate as iceSetRemoteSdp hands it to libnice. */
  datatype RemoteCandidate = RemoteCandidate(foundation: string, priority: nat, ip: string, port: nat, ctype: CandidateType)

  /** The remote credentials and candidates, newest first. */
  datatype RemoteSdp = RemoteSdp(ufrag: string, pwd: string, candidates: seq<RemoteCandidate>)

  /** strncpy into the 33-octet foundation, whose last octet is then zeroed. */
  function Foundation(s: string): (r: string)
    ensures |r| <= MAX_FOUNDATION - 1 && r <= s
    ensures |s| < MAX_FOUNDATION ==> r == s
  {
    Prefix(s, MAX_FOUNDATION - 1)
  }

  /** An int stored into a guint32. */
  function Unsigned32(n: int): (u: nat)
    ensures u < 0x1_0000_0000
    ensures 0 <= n < 0x1_0000_0000 ==> u == n
  {
    n % 0x1_0000_0000
  }

  /** The reading of a candidate's five fields: the type must be one of the
      four names and the address one libnice accepts (`addrOk` stands for
      nice_address_set_from_string); the priority is atoi's value as a
      guint32 and the port atoi's value as a 16-bit port. */
  function ReadCandidate(fields: seq<string>, addrOk: string -> bool): (r: Option<RemoteCandidate>)
    requires |fields| == 5
    ensures r.None? <==> TypeOf(fields[4]).None? || !addrOk(fields[2])
    ensures r.Some? ==> r.value.ip == fields[2] && TypeName(r.value.ctype) == fields[4]
  {
    var t := TypeOf(fields[4]);
    if t.None? || !addrOk(fields[2]) then None
    else Some(RemoteCandidate(Foundation(fields[0]), Unsigned32(Atoi(fields[1])), fields[2],
                              Port16(Atoi(fields[3])), t.value))
  }

  /** What the word loop has gathered so far. */
  datatype Scan = Scan(ufrag: Option<string>, pwd: Option<string>, cands: seq<RemoteCandidate>)

  /** What one word does to the word loop: go on with a new state, end
      the loop, or fail the description. */
  datatype Step = Next(st: Scan) | Done(st: Scan) | Fail

  /** One pass of the word loop of iceSetRemoteSdp: an empty word is
      skipped; the first two words are the ufrag and the password; every
      later word is a candidate, split at its first four commas. A word
      with fewer than five fields ends the loop (keeping what was read); an
      unreadable candidate fails the whole description. Candidates are
      prepended. */
  function WordStep(w: string, st: Scan, addrOk: string -> bool): (r: Step)
    ensures r.Next? && w == [] ==> r.st == st
    ensures r.Done? ==> r.st == st
    ensures !r.Fail? && st.ufrag.Some? ==> r.st.ufrag == st.ufrag
    ensures !r.Fail? && st.pwd.Some? ==> r.st.pwd == st.pwd
    ensures r.Fail? ==> w != [] && st.ufrag.Some? && st.pwd.Some?
    ensures r.Next? && st.ufrag.Some? && st.pwd.Some? && w != [] ==> |r.st.cands| == |st.cands| + 1 && r.st.cands[1..] == st.cands
  {
    if w == [] then Next(st)
    else if st.ufrag.None? then Next(st.(ufrag := Some(w)))
    else if st.pwd.None? then Next(st.(pwd := Some(w)))
    else
      var fields := SplitN(w, ',', 5);
      if |fields| != 5 then Done(st)
      else
        var c := ReadCandidate(fields, addrOk);
        if c.None? then Fail else Next(st.(cands := [c.value] + st.cands))
  }

  /** The word loop over all the words. Candidates come out newest first. */
  function ScanWords(words: seq<string>, st: Scan, addrOk: string -> bool): (r: Option<Scan>)
    ensures r.Some? && st.ufrag.Some? ==> r.value.ufrag == st.ufrag
    ensures r.Some? && st.pwd.Some? ==> r.value.pwd == st.pwd
    decreases |words|
  {
    if words == [] then Some(st)
    else
      match WordStep(words[0], st, addrOk)
      case Next(next) => ScanWords(words[1..], next, addrOk)
      case Done(last) => Some(last)
      case Fail => None
  }

  /** iceSetRemoteSdp's reading of a description: None when a candidate is
      unreadable, or the ufrag, the password or every candidate is missing;
      otherwise what is handed to libnice (whose own acceptance is not part
      of this model). */
  function ParseSdp(sdp: string, addrOk: string -> bool): (r: Option<RemoteSdp>)
    ensures r.Some? ==> r.value.candidates != []
  {
    var s := ScanWords(SplitSet(sdp, SEPARATORS), Scan(None, None, []), addrOk);
    if s.None? || s.value.ufrag.None? || s.value.pwd.None? || s.value.cands == [] then None
    else Some(RemoteSdp(s.value.ufrag.value, s.value.pwd.value, s.value.cands))
  }

  /** The word loop only ever puts candidates in front of those it had. */
  lemma {:induction false} ScanKeepsEarlier(words: seq<string>, st: Scan, addrOk: string -> bool)
    requires ScanWords(words, st, addrOk).Some?
    ensures var cs := ScanWords(words, st, addrOk).value.cands;
      |st.cands| <= |cs| && cs[|cs| - |st.cands|..] == st.cands
    decreases |words|
  {
    if words != [] {
      var step := WordStep(words[0], st, addrOk);
      if step.Next? {
        ScanKeepsEarlier(words[1..], step.st, addrOk);
        assert ScanWords(words, st, addrOk) == ScanWords(words[1..], step.st, addrOk);
        SuffixStep(ScanWords(words, st, addrOk).value.cands, step.st.cands, st.cands);
      }
    }
  }

  /** A suffix of a suffix: the candidates before a step are a suffix of
      those after it. */
  lemma SuffixStep(cs: seq<RemoteCandidate>, mid: seq<RemoteCandidate>, earlier: seq<RemoteCandidate>)
    requires |mid| <= |cs| && cs[|cs| - |mid|..] == mid
    requires mid == earlier || (|mid| == |earlier| + 1 && mid[1..] == earlier)
    ensures |earlier| <= |cs| && cs[|cs| - |earlier|..] == earlier
  {
    if mid != earlier {
      assert cs[|cs| - |earlier|..] == cs[|cs| - |mid|..][1..];
    }
  }

  lemma ScanWordsAt(words: seq<string>, i: nat, st: Scan, addrOk: string -> bool)
    requires i < |words|
    ensures ScanWords(words[i..], st, addrOk) ==
      match WordStep(words[i], st, addrOk)
      case Next(next) => ScanWords(words[i + 1..], next, addrOk)
      case Done(last) => Some(last)
      case Fail => None
  {
    assert words[i..][1..] == words[i + 1..];
  }

  /** iceSetRemoteSdp: split the description into words and run the word
      loop, then check that the credentials and a candidate were found. */
  method SetRemoteSdp(sdp: string, addrOk: string -> bool) returns (r: Option<RemoteSdp>)
    ensures r == ParseSdp(sdp, addrOk)
  {
    var words := SplitSet(sdp, SEPARATORS);
    var ufrag: Option<string> := None;
    var pwd: Option<string> := None;
    var cands: seq<RemoteCandidate> := [];
    var i := 0;
    while i < |words|
      invariant 0 <= i <= |words|
      invariant ScanWords(words, Scan(None, None, []), addrOk) == ScanWords(words[i..], Scan(ufrag, pwd, cands), addrOk)
    {
      var w := words[i];
      ghost var st := Scan(ufrag, pwd, cands);
      ScanWordsAt(words, i, st, addrOk);
      if w != [] {
        if ufrag.None? {
          ufrag := Some(w);
        } else if pwd.None? {
          pwd := Some(w);
        } else {
          var fields := SplitN(w, ',', 5);
          if |fields| != 5 {
            break;
          }
          var c := ReadCandidate(fields, addrOk);
          if c.None? {
            return None;
          }
          cands := [c.value] + cands;
        }
      }
      assert WordStep(w, st, addrOk) == Next(Scan(ufrag, pwd, cands));
      i := i + 1;
    }
    if ufrag.None? || pwd.None? || cands == [] {
      return None;
    }
    r := Some(RemoteSdp(ufrag.value, pwd.value, cands));
  }

  // ---------------------------------------------------------------- round trip

  /** A field the parser reads back unchanged: no separator, and no comma
      where the reader splits at commas. */
  predicate PlainField(s: string)
  {
    Free(s, SEPARATORS) && Free(s, {','})
  }

  /** A candidate the description carries faithfully: plain foundation of
      at most 32 characters, plain address that libnice accepts, a
      priority atoi can read (below 2^31) and a 16-bit port. */
  predicate Faithful(c: Candidate, addrOk: string -> bool)
  {
    PlainField(c.foundation) && |c.foundation| < MAX_FOUNDATION
    && PlainField(c.ip) && addrOk(c.ip)
    && c.priority < 0x8000_0000 && c.port < 65536
  }

  /** What the peer reads a candidate as. */
  function Remote(c: Candidate): RemoteCandidate
  {
    RemoteCandidate(c.foundation, c.priority, c.ip, c.port, c.ctype)
  }

  /** The candidates as the peer reads them, in the local order. */
  function Remotes(cs: seq<Candidate>): (rs: seq<RemoteCandidate>)
    ensures |rs| == |cs| && forall k :: 0 <= k < |cs| ==> rs[k] == Remote(cs[k])
  {
    seq(|cs|, k requires 0 <= k < |cs| => Remote(cs[k]))
  }

  function Reverse<T>(s: seq<T>): (r: seq<T>)
    ensures |r| == |s|
    ensures forall k :: 0 <= k < |s| ==> r[k] == s[|s| - 1 - k]
    decreases |s|
  {
    if s == [] then [] else Reverse(s[1..]) + [s[0]]
  }

  lemma DigitsPlain(s: string)
    requires AllDigits(s)
    ensures PlainField(s)
  {
  }

  lemma DecimalPlain(n: nat)
    ensures PlainField(Decimal(n))
  {
    DigitsPlain(Decimal(n));
  }

  lemma TypeNamePlain(t: CandidateType)
    ensures PlainField(TypeName(t))
  {
    match t
    case Host =>
    case ServerReflexive =>
    case PeerReflexive =>
    case Relayed =>
  }

  lemma FieldsPlain(c: Candidate, addrOk: string -> bool)
    requires Faithful(c, addrOk)
    ensures forall k :: 0 <= k < 5 ==> PlainField(Fields(c)[k])
  {
    DecimalPlain(c.priority);
    DecimalPlain(c.port);
    TypeNamePlain(c.ctype);
  }

  /** The peer splits a candidate's word back into its five fields. */
  lemma WordFields(c: Candidate, addrOk: string -> bool)
    requires Faithful(c, addrOk)
    ensures Free(Word(c), SEPARATORS)
    ensures SplitN(Word(c), ',', 5) == Fields(c)
  {
    FieldsPlain(c, addrOk);
    FreeJoin(Fields(c), ',', SEPARATORS);
    PiecesJoin(Fields(c), ',');
    assert Fields(c)[1..][1..][1..][1..] == [TypeName(c.ctype)];
    assert Word(c) != [];
  }

  /** The peer reads a faithful candidate back as itself. */
  lemma ReadWord(c: Candidate, addrOk: string -> bool)
    requires Faithful(c, addrOk)
    ensures Word(c) != [] && |SplitN(Word(c), ',', 5)| == 5
    ensures ReadCandidate(SplitN(Word(c), ',', 5), addrOk) == Some(Remote(c))
  {
    WordFields(c, addrOk);
    ReadFields(c, addrOk);
  }

  lemma ReadFields(c: Candidate, addrOk: string -> bool)
    requires |c.foundation| < MAX_FOUNDATION && addrOk(c.ip)
    requires c.priority < 0x8000_0000 && c.port < 65536
    ensures ReadCandidate(Fields(c), addrOk) == Some(Remote(c))
  {
    var fs := Fields(c);
    assert Unsigned32(Atoi(fs[1])) == c.priority by {
      AtoiOfDecimal(c.priority);
    }
    assert Port16(Atoi(fs[3])) == c.port by {
      AtoiOfDecimal(c.port);
    }
    assert TypeOf(fs[4]) == Some(c.ctype) by {
      TypeOfName(c.ctype);
    }
    ReadAs(fs, c, addrOk);
  }

  lemma ReadAs(fs: seq<string>, c: Candidate, addrOk: string -> bool)
    requires |fs| == 5 && fs[0] == c.foundation && fs[2] == c.ip
    requires |c.foundation| < MAX_FOUNDATION && addrOk(c.ip)
    requires Unsigned32(Atoi(fs[1])) == c.priority && Port16(Atoi(fs[3])) == c.port
    requires TypeOf(fs[4]) == Some(c.ctype)
    ensures ReadCandidate(fs, addrOk) == Some(Remote(c))
  {
  }

  lemma TypeOfName(t: CandidateType)
    ensures TypeOf(TypeName(t)) == Some(t)
  {
    match t
    case Host =>
    case ServerReflexive =>
    case PeerReflexive =>
    case Relayed =>
  }

  lemma AtoiOfDecimal(n: nat)
    ensures Atoi(Decimal(n)) == n
  {
    var d := Decimal(n);
    assert DigitRun(d) == |d| by {
      DigitRunOfDigitsThen(d, []);
      assert d + [] == d;
    }
    assert Atoi(d) == DigitsValue(d[..DigitRun(d)]) by {
      AtoiOfDigits(d);
    }
    assert d[..|d|] == d;
  }

  /** `w` is a candidate word the reader turns into `r`. */
  predicate ReadsAs(w: string, r: RemoteCandidate, addrOk: string -> bool)
  {
    w != [] && |SplitN(w, ',', 5)| == 5 && ReadCandidate(SplitN(w, ',', 5), addrOk) == Some(r)
  }

  /** The word loop, once the credentials are known, reads candidate words
      back newest first, in front of what it had. */
  lemma {:induction false} ScanCandidates(ws: seq<string>, rs: seq<RemoteCandidate>, st: Scan, addrOk: string -> bool)
    requires |ws| == |rs| && st.ufrag.Some? && st.pwd.Some?
    requires forall k :: 0 <= k < |ws| ==> ReadsAs(ws[k], rs[k], addrOk)
    ensures ScanWords(ws, st, addrOk) == Some(st.(cands := Reverse(rs) + st.cands))
    decreases |ws|
  {
    if ws == [] {
      assert Reverse(rs) + st.cands == st.cands;
    } else {
      var next := st.(cands := [rs[0]] + st.cands);
      assert ScanWords(ws, st, addrOk) == ScanWords(ws[1..], next, addrOk) by {
        assert ReadsAs(ws[0], rs[0], addrOk);
      }
      ScanCandidates(ws[1..], rs[1..], next, addrOk);
      ReverseCons(rs, st.cands);
    }
  }

  lemma ReverseCons<T>(s: seq<T>, acc: seq<T>)
    requires s != []
    ensures Reverse(s) + acc == Reverse(s[1..]) + ([s[0]] + acc)
  {
  }

  /** A printed description splits into the ufrag, the password and one
      word per candidate. */
  lemma SdpWords(ufrag: string, pwd: string, cands: seq<Candidate>, addrOk: string -> bool)
    requires Free(ufrag, SEPARATORS) && Free(pwd, SEPARATORS)
    requires forall k :: 0 <= k < |cands| ==> Faithful(cands[k], addrOk)
    ensures SplitSet(SdpText(ufrag, pwd, cands), SEPARATORS) == [ufrag, pwd] + Words(cands)
  {
    var fs := [ufrag, pwd] + Words(cands);
    forall k | 0 <= k < |fs|
      ensures Free(fs[k], SEPARATORS)
    {
      if k >= 2 {
        WordFields(cands[k - 2], addrOk);
      }
    }
    SplitSetJoin(fs, ' ', SEPARATORS);
  }

  /** SDP round trip: a description printed by candidateGatheringDoneCb that
      fits its buffer is read back by iceSetRemoteSdp as the same
      credentials and the same candidates, in reverse order. */
  lemma SdpRoundTrip(ufrag: string, pwd: string, cands: seq<Candidate>, addrOk: string -> bool)
    requires ufrag != [] && pwd != [] && Free(ufrag, SEPARATORS) && Free(pwd, SEPARATORS)
    requires cands != [] && forall k :: 0 <= k < |cands| ==> Faithful(cands[k], addrOk)
    ensures ParseSdp(SdpText(ufrag, pwd, cands), addrOk) == Some(RemoteSdp(ufrag, pwd, Reverse(Remotes(cands))))
  {
    SdpWords(ufrag, pwd, cands, addrOk);
    var ws := [ufrag, pwd] + Words(cands);
    assert ws[1..][1..] == Words(cands);
    forall k | 0 <= k < |cands|
      ensures ReadsAs(Words(cands)[k], Remotes(cands)[k], addrOk)
    {
      ReadWord(cands[k], addrOk);
    }
    ScanCandidates(Words(cands), Remotes(cands), Scan(Some(ufrag), Some(pwd), []), addrOk);
    assert Reverse(Remotes(cands)) + [] == Reverse(Remotes(cands));
    assert ScanWords(ws, Scan(None, None, []), addrOk) == ScanWords(ws[1..], Scan(Some(ufrag), None, []), addrOk);
  }
}
