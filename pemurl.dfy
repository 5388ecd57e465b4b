/** pemToUrl (secure.c): a PEM text made safe for a URL query by
    percent-encoding the four characters of a PEM block that are not
    allowed there unescaped (section 2.1 of RFC 3986): line feed, '+', '/'
    and space become "%0A", "%2B", "%2F" and "%20". */
module PemUrl {

  /** The characters pemToUrl escapes. */
  predicate Special(c: char)
  {
    c == '\n' || c == '+' || c == '/' || c == ' '
  }

  /** The output for one input character. */
  function Escape(c: char): (e: string)
    ensures Special(c) ==> |e| == 3 && e[0] == '%'
    ensures !Special(c) ==> e == [c]
  {
    if c == '\n' then "%0A"
    else if c == '+' then "%2B"
    else if c == '/' then "%2F"
    else if c == ' ' then "%20"
    else [c]
  }

  /** The encoded text: each character replaced by its escape. */
  function UrlEncode(s: string): string
  {
    if s == [] then [] else Escape(s[0]) + UrlEncode(s[1..])
  }

  /** How many characters of `s` are escaped. */
  function CountSpecial(s: string): nat
  {
    if s == [] then 0 else (if Special(s[0]) then 1 else 0) + CountSpecial(s[1..])
  }

  lemma {:induction false} EncodeAppend(a: string, b: string)
    ensures UrlEncode(a + b) == UrlEncode(a) + UrlEncode(b)
    decreases |a|
  {
    if a == [] {
      assert a + b == b;
    } else {
      assert (a + b)[0] == a[0] && (a + b)[1..] == a[1..] + b;
      EncodeAppend(a[1..], b);
    }
  }

  lemma {:induction false} CountAppend(a: string, b: string)
    ensures CountSpecial(a + b) == CountSpecial(a) + CountSpecial(b)
    decreases |a|
  {
    if a == [] {
      assert a + b == b;
    } else {
      assert (a + b)[0] == a[0] && (a + b)[1..] == a[1..] + b;
      CountAppend(a[1..], b);
    }
  }

  /** Growing a prefix by one character. */
  lemma PrefixStep(s: string, i: nat)
    requires i < |s|
    ensures UrlEncode(s[..i + 1]) == UrlEncode(s[..i]) + Escape(s[i])
    ensures CountSpecial(s[..i + 1]) == CountSpecial(s[..i]) + (if Special(s[i]) then 1 else 0)
  {
    assert s[..i + 1] == s[..i] + [s[i]];
    EncodeAppend(s[..i], [s[i]]);
    CountAppend(s[..i], [s[i]]);
    assert UrlEncode([s[i]]) == Escape(s[i]) + UrlEncode([]);
  }

  /** One step of the fill loop: the output for the first `i + 1`
      characters, and room for it in a buffer sized for all of `text`. */
  lemma FillStep(text: string, i: nat)
    requires i < |text|
    ensures UrlEncode(text[..i + 1]) == UrlEncode(text[..i]) + Escape(text[i])
    ensures 2 * CountSpecial(text[..i]) + |Escape(text[i])| - 1 == 2 * CountSpecial(text[..i + 1])
    ensures i + 2 * CountSpecial(text[..i]) + |Escape(text[i])| <= |text| + 2 * CountSpecial(text)
  {
    PrefixStep(text, i);
    CountAppend(text[..i + 1], text[i + 1..]);
    assert text[..i + 1] + text[i + 1..] == text;
  }

  /** Each escaped character adds two characters to the output. */
  lemma {:induction false} EncodeLength(s: string)
    ensures |UrlEncode(s)| == |s| + 2 * CountSpecial(s)
    decreases |s|
  {
    if s != [] {
      EncodeLength(s[1..]);
    }
  }

  /** None of the four characters appears unescaped in the output. */
  lemma {:induction false} EncodeHasNoSpecial(s: string)
    ensures forall k :: 0 <= k < |UrlEncode(s)| ==> !Special(UrlEncode(s)[k])
    decreases |s|
  {
    if s != [] {
      EncodeHasNoSpecial(s[1..]);
      var e := Escape(s[0]);
      assert UrlEncode(s) == e + UrlEncode(s[1..]);
      forall k | 0 <= k < |UrlEncode(s)|
        ensures !Special(UrlEncode(s)[k])
      {
        if k >= |e| {
          assert UrlEncode(s)[k] == UrlEncode(s[1..])[k - |e|];
        }
      }
    }
  }

  // ---------------------------------------------------------------- decoding

  predicate IsHex(c: char)
  {
    '0' <= c <= '9' || 'A' <= c <= 'F' || 'a' <= c <= 'f'
  }

  function HexValue(c: char): (v: nat)
    requires IsHex(c)
    ensures v < 16
  {
    if '0' <= c <= '9' then c as int - '0' as int
    else if 'A' <= c <= 'F' then c as int - 'A' as int + 10
    else c as int - 'a' as int + 10
  }

  /** Percent-decoding (section 2.1 of RFC 3986): "%" and two hexadecimal
      digits stand for the octet they spell; every other character stands
      for itself. */
  function PercentDecode(t: string): string
    decreases |t|
  {
    if t == [] then []
    else if |t| >= 3 && t[0] == '%' && IsHex(t[1]) && IsHex(t[2]) then
      [(16 * HexValue(t[1]) + HexValue(t[2])) as char] + PercentDecode(t[3..])
    else [t[0]] + PercentDecode(t[1..])
  }

  /** The escape of a character other than '%' decodes back to it. */
  lemma DecodeEscape(c: char, rest: string)
    requires c != '%'
    ensures PercentDecode(Escape(c) + rest) == [c] + PercentDecode(rest)
  {
    var t := Escape(c) + rest;
    if Special(c) {
      assert t[3..] == rest;
    } else {
      assert t[1..] == rest;
    }
  }

  /** For a text without '%', decoding the output gives the text back. */
  lemma {:induction false} DecodeEncode(s: string)
    requires forall k :: 0 <= k < |s| ==> s[k] != '%'
    ensures PercentDecode(UrlEncode(s)) == s
    decreases |s|
  {
    if s != [] {
      DecodeEncode(s[1..]);
      DecodeEscape(s[0], UrlEncode(s[1..]));
      assert [s[0]] + s[1..] == s;
    }
  }

  // ---------------------------------------------------------------- pemToUrl

  /** The writes of the fill loop for one input character `c` at
      position `at` of the output: the escape's three characters, or `c`
      itself; `extra` is how far the offset of later characters grows. */
  method Put(out: array<char>, at: nat, c: char) returns (extra: nat)
    requires at + |Escape(c)| <= out.Length
    modifies out
    ensures extra == |Escape(c)| - 1
    ensures out[..at + |Escape(c)|] == old(out[..at]) + Escape(c)
  {
    if c == '\n' {
      out[at] := '%';
      out[at + 1] := '0';
      out[at + 2] := 'A';
      extra := 2;
    } else if c == '+' {
      out[at] := '%';
      out[at + 1] := '2';
      out[at + 2] := 'B';
      extra := 2;
    } else if c == '/' {
      out[at] := '%';
      out[at + 1] := '2';
      out[at + 2] := 'F';
      extra := 2;
    } else if c == ' ' {
      out[at] := '%';
      out[at + 1] := '2';
      out[at + 2] := '0';
      extra := 2;
    } else {
      out[at] := c;
      extra := 0;
    }
  }

  /** The counting loop of pemToUrl. */
  method Count(pem: string) returns (count: nat)
    ensures count == CountSpecial(pem)
  {
    count := 0;
    var i := 0;
    while i < |pem|
      invariant i <= |pem| && count == CountSpecial(pem[..i])
    {
      PrefixStep(pem, i);
      if pem[i] == '\n' || pem[i] == '+' || pem[i] == '/' || pem[i] == ' ' {
        count := count + 1;
      }
      i := i + 1;
    }
    assert pem[..i] == pem;
  }

  /** After the fill loop the whole buffer holds the output and the NUL. */
  lemma FillDone(pem: string, out: string, filled: nat)
    requires filled <= |out| == |pem| + 2 * CountSpecial(pem) + 1
    requires out[..filled] == UrlEncode(pem + ['\0'])
    ensures out == UrlEncode(pem) + ['\0']
  {
    EncodeLength(pem + ['\0']);
    CountAppend(pem, ['\0']);
    assert out[..filled] == out;
    EncodeAppend(pem, ['\0']);
    assert UrlEncode(['\0']) == ['\0'] + UrlEncode([]);
  }

  /** pemToUrl: one pass counts the characters to escape, the buffer is
      sized for them and the terminating NUL, and a second pass copies the
      C string including its NUL, writing three characters for each escape.
      `pem` is the C string, so it holds no NUL. */
  method PemToUrl(pem: string) returns (out: array<char>)
    requires forall k :: 0 <= k < |pem| ==> pem[k] != '\0'
    ensures out.Length == |pem| + 2 * CountSpecial(pem) + 1
    ensures out[..] == UrlEncode(pem) + ['\0']
  {
    var count := Count(pem);
    out := new char[|pem| + count * 2 + 1];
    // the C string with its terminator, as the second loop reads it
    ghost var text := pem + ['\0'];
    assert CountSpecial(text) == count by {
      CountAppend(pem, ['\0']);
    }
    var offset := 0;
    var i := 0;
    while i <= |pem|
      invariant i <= |pem| + 1
      invariant offset == 2 * CountSpecial(text[..i])
      invariant i + offset <= out.Length && out[..i + offset] == UrlEncode(text[..i])
    {
      FillStep(text, i);
      var c := if i < |pem| then pem[i] else '\0';
      assert c == text[i];
      var extra := Put(out, i + offset, c);
      offset := offset + extra;
      i := i + 1;
    }
    assert text[..i] == text;
    FillDone(pem, out[..], i + offset);
  }
}
