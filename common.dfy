/** Shared vocabulary of the model: octets as C sees them, optional values,
    and the few libc text routines the tunnel and its helpers rely on
    (strstr, atoi, printing an unsigned number with "%u"). */
module Common {

  datatype Option<T> = None | Some(value: T)

  lemma ConcatAssoc<T>(x: seq<T>, y: seq<T>, z: seq<T>)
    ensures x + (y + z) == (x + y) + z
  {
  }

  /** One octet of a C buffer. */
  type byte = x: int | 0 <= x < 256

  /** The value that a C `char` holding octet `b` has on a platform where
      `char` is signed (two's complement), as with gcc on x86. */
  function SignedChar(b: byte): (v: int)
    ensures -128 <= v < 128
    ensures v >= 0 <==> b < 128
    ensures v % 256 == b
  {
    if b < 128 then b else b - 256
  }

  /** `(unsigned char)n`: the low octet of an integer. */
  function Lo(n: int): byte
  {
    n % 256
  }

  /** The low octet of an octet is the octet itself. */
  lemma LoOfByte(b: byte)
    ensures Lo(b) == b
  {
  }

  /** `(unsigned char)(n >> 8)`: the second-lowest octet of an integer. */
  function Hi(n: int): byte
  {
    (n / 256) % 256
  }

  /** The big-endian 16-bit number held in two octets. */
  function Be16(hi: byte, lo: byte): nat
  {
    hi * 256 + lo
  }

  /** Writing a 16-bit number as two octets, high first, and reading it back gives the number. */
  lemma Be16RoundTrip(n: int)
    requires 0 <= n < 65536
    ensures Be16(Hi(n), Lo(n)) == n
    ensures Hi(n) < 128 <==> n < 32768
  {
  }

  /** `(unsigned short)n`: an int converted to a 16-bit port number. */
  function Port16(n: int): (p: nat)
    ensures p < 65536
    ensures 0 <= n < 65536 ==> p == n
  {
    n % 65536
  }

  /** The octets of a buffer read as characters. */
  function Chars(bs: seq<byte>): (s: string)
    ensures |s| == |bs|
    ensures forall k :: 0 <= k < |bs| ==> s[k] as int == bs[k]
  {
    seq(|bs|, k requires 0 <= k < |bs| => bs[k] as char)
  }

  /** The C string that starts at the front of `s`: everything before the
      first NUL, or all of `s` when it holds none. */
  function CString(s: seq<byte>): (r: seq<byte>)
    ensures |r| <= |s| && r == s[..|r|]
    ensures forall k :: 0 <= k < |r| ==> r[k] != 0
    ensures |r| < |s| ==> s[|r|] == 0
  {
    if s == [] || s[0] == 0 then [] else [s[0]] + CString(s[1..])
  }

  // ---------------------------------------------------------------- strstr

  /** `pat` occurs in `s` at offset `k`. */
  predicate OccursAt<T(==)>(s: seq<T>, pat: seq<T>, k: int)
  {
    0 <= k && k + |pat| <= |s| && s[k..k + |pat|] == pat
  }

  /** strstr: the offset of the first occurrence of `pat` in `s`, if any
      (IndexOfFirst and IndexOfNone state that it is the first). */
  function IndexOf<T(==)>(s: seq<T>, pat: seq<T>): (r: Option<nat>)
    ensures r.Some? ==> OccursAt(s, pat, r.value)
  {
    IndexFrom(s, pat, 0)
  }

  function IndexFrom<T(==)>(s: seq<T>, pat: seq<T>, i: nat): (r: Option<nat>)
    ensures r.Some? ==> i <= r.value && OccursAt(s, pat, r.value)
    decreases |s| - i
  {
    if i + |pat| > |s| then None
    else if s[i..i + |pat|] == pat then Some(i)
    else IndexFrom(s, pat, i + 1)
  }

  lemma {:induction false} IndexFromSkips<T>(s: seq<T>, pat: seq<T>, i: nat)
    ensures forall k :: i <= k && (IndexFrom(s, pat, i).None? || k < IndexFrom(s, pat, i).value)
                        ==> !OccursAt(s, pat, k)
    decreases |s| - i
  {
    if i + |pat| <= |s| && s[i..i + |pat|] != pat {
      IndexFromSkips(s, pat, i + 1);
    }
  }

  /** No occurrence of `pat` starts before the one strstr finds. */
  lemma IndexOfFirst<T>(s: seq<T>, pat: seq<T>)
    requires IndexOf(s, pat).Some?
    ensures forall k :: 0 <= k < IndexOf(s, pat).value ==> !OccursAt(s, pat, k)
  {
    IndexFromSkips(s, pat, 0);
  }

  /** strstr finds nothing only when `pat` occurs nowhere. */
  lemma IndexOfNone<T>(s: seq<T>, pat: seq<T>)
    requires IndexOf(s, pat).None?
    ensures forall k :: !OccursAt(s, pat, k)
  {
    IndexFromSkips(s, pat, 0);
  }

  // ---------------------------------------------------------------- atoi and "%u"

  predicate IsDigit(c: char)
  {
    '0' <= c <= '9'
  }

  /** isspace() in the C locale. */
  predicate IsSpace(c: char)
  {
    c == ' ' || c == '\t' || c == '\n' || c == '\r' || c == '\U{0B}' || c == '\U{0C}'
  }

  predicate AllDigits(s: string)
  {
    forall k :: 0 <= k < |s| ==> IsDigit(s[k])
  }

  /** The length of the run of decimal digits at the front of `s`. */
  function DigitRun(s: string): (n: nat)
    ensures n <= |s|
    ensures AllDigits(s[..n])
    ensures n < |s| ==> !IsDigit(s[n])
  {
    if s == [] || !IsDigit(s[0]) then 0 else 1 + DigitRun(s[1..])
  }

  /** The number a string of decimal digits denotes. */
  function DigitsValue(ds: string): nat
    requires AllDigits(ds)
  {
    if ds == [] then 0
    else DigitsValue(ds[..|ds| - 1]) * 10 + (ds[|ds| - 1] as int - '0' as int)
  }

  function SkipSpaces(s: string): (t: string)
    ensures |t| <= |s| && t == s[|s| - |t|..]
    ensures t == [] || !IsSpace(t[0])
  {
    if s != [] && IsSpace(s[0]) then SkipSpaces(s[1..]) else s
  }

  /** atoi: leading white space, an optional sign, then the longest run of
      digits; 0 when there are none. Overflow is not modelled. */
  function Atoi(s: string): int
  {
    var t := SkipSpaces(s);
    if t != [] && (t[0] == '-' || t[0] == '+') then
      var ds := t[1..][..DigitRun(t[1..])];
      var v: int := DigitsValue(ds);
      if t[0] == '-' then -v else v
    else
      DigitsValue(t[..DigitRun(t)])
  }

  function DigitChar(d: nat): (c: char)
    requires d < 10
    ensures IsDigit(c) && c as int - '0' as int == d
  {
    ('0' as int + d) as char
  }

  /** printf("%u", n): the decimal digits of `n`, without leading zeros. */
  function Decimal(n: nat): (r: string)
    ensures 1 <= |r| && AllDigits(r)
    ensures DigitsValue(r) == n
  {
    var r := (if n < 10 then [] else Decimal(n / 10)) + [DigitChar(n % 10)];
    assert r[..|r| - 1] == (if n < 10 then [] else Decimal(n / 10));
    r
  }

  lemma DigitRunOfDigitsThen(ds: string, rest: string)
    requires AllDigits(ds)
    requires rest == [] || !IsDigit(rest[0])
    ensures DigitRun(ds + rest) == |ds|
    decreases |ds|
  {
    if ds != [] {
      assert (ds + rest)[1..] == ds[1..] + rest;
      DigitRunOfDigitsThen(ds[1..], rest);
    }
  }

  /** atoi reads back what "%u" printed, whatever non-digit text follows it. */
  lemma AtoiDecimal(n: nat, rest: string)
    requires rest == [] || !IsDigit(rest[0])
    ensures Atoi(Decimal(n) + rest) == n
  {
    var s := Decimal(n) + rest;
    AtoiOfDigits(s);
    DigitRunOfDigitsThen(Decimal(n), rest);
    assert s[..|Decimal(n)|] == Decimal(n);
  }

  /** A text starting with a digit is read by atoi as its leading digit run. */
  lemma AtoiOfDigits(s: string)
    requires s != [] && IsDigit(s[0])
    ensures Atoi(s) == DigitsValue(s[..DigitRun(s)])
  {
    assert !IsSpace(s[0]);
    assert SkipSpaces(s) == s;
  }
}
