/** The browser's `btoa` and `atob`: base64 in the standard alphabet of
    section 4 of RFC 4648, over strings whose code units are Latin-1 (each
    character stands for one byte). `atob` follows the forgiving-base64 decode
    of the WHATWG Infra standard: it skips ASCII whitespace, accepts missing
    padding, and ignores the unused low bits of the last group. */
module Base64 {
  import opened Wrappers
  import opened JsValues
  import SeqOps

  /** Every character is a single Latin-1 code unit (at most U+00FF). */
  predicate IsLatin1(s: string)
  {
    forall i :: 0 <= i < |s| ==> s[i] as int < 256
  }

  /** The character with value `v` in the alphabet of section 4 of RFC 4648. */
  function Digit(v: nat): (c: char)
    requires v < 64
    ensures c != '=' && c != '-' && c != '_'
  {
    if v < 26 then ('A' as int + v) as char
    else if v < 52 then ('a' as int + (v - 26)) as char
    else if v < 62 then ('0' as int + (v - 52)) as char
    else if v == 62 then '+'
    else '/'
  }

  /** Membership in the 64-character alphabet. */
  predicate IsDigit(c: char)
  {
    'A' <= c <= 'Z' || 'a' <= c <= 'z' || '0' <= c <= '9' || c == '+' || c == '/'
  }

  predicate AllDigits(s: string)
  {
    forall i :: 0 <= i < |s| ==> IsDigit(s[i])
  }

  /** The value of an alphabet character: the inverse of `Digit`. */
  function ValueOf(c: char): (v: nat)
    requires IsDigit(c)
    ensures v < 64 && Digit(v) == c
  {
    if 'A' <= c <= 'Z' then c as int - 'A' as int
    else if 'a' <= c <= 'z' then c as int - 'a' as int + 26
    else if '0' <= c <= '9' then c as int - '0' as int + 52
    else if c == '+' then 62
    else 63
  }

  lemma {:induction false} DigitValue(v: nat)
    requires v < 64
    ensures IsDigit(Digit(v)) && ValueOf(Digit(v)) == v
  {
  }

  /** The four 6-bit values of a group of three bytes, most significant first. */
  function Sextets(b0: int, b1: int, b2: int): (v: seq<int>)
    requires 0 <= b0 < 256 && 0 <= b1 < 256 && 0 <= b2 < 256
    ensures |v| == 4 && forall i :: 0 <= i < 4 ==> 0 <= v[i] < 64
  {
    [b0 / 4, b0 % 4 * 16 + b1 / 16, b1 % 16 * 4 + b2 / 64, b2 % 64]
  }

  /** The three bytes carried by four 6-bit values, most significant first. */
  function Octets(v0: int, v1: int, v2: int, v3: int): (b: seq<int>)
    requires 0 <= v0 < 64 && 0 <= v1 < 64 && 0 <= v2 < 64 && 0 <= v3 < 64
    ensures |b| == 3 && forall i :: 0 <= i < 3 ==> 0 <= b[i] < 256
  {
    [v0 * 4 + v1 / 16, v1 % 16 * 16 + v2 / 4, v2 % 4 * 64 + v3]
  }

  /** Regrouping three bytes into 6-bit values and back loses nothing. */
  lemma {:induction false} OctetsOfSextets(b0: int, b1: int, b2: int)
    requires 0 <= b0 < 256 && 0 <= b1 < 256 && 0 <= b2 < 256
    ensures var v := Sextets(b0, b1, b2); Octets(v[0], v[1], v[2], v[3]) == [b0, b1, b2]
  {
    var v := Sextets(b0, b1, b2);
    assert v[1] / 16 == b0 % 4 && v[1] % 16 == b1 / 16;
    assert v[2] / 4 == b1 % 16 && v[2] % 4 == b2 / 64;
  }

  function DigitsOf(v: seq<int>): (r: string)
    requires forall i :: 0 <= i < |v| ==> 0 <= v[i] < 64
    ensures |r| == |v| && AllDigits(r)
    ensures forall i :: 0 <= i < |v| ==> ValueOf(r[i]) == v[i]
  {
    seq(|v|, i requires 0 <= i < |v| => DigitValue(v[i]); Digit(v[i]))
  }

  function CharsOf(b: seq<int>): (r: string)
    requires forall i :: 0 <= i < |b| ==> 0 <= b[i] < 256
    ensures |r| == |b| && IsLatin1(r)
    ensures forall i :: 0 <= i < |b| ==> r[i] as int == b[i]
  {
    seq(|b|, i requires 0 <= i < |b| => b[i] as char)
  }

  /** The alphabet characters of the encoding, without `=` padding: four
      characters per three bytes, and two or three for a final one or two
      bytes (whose missing bits count as zero; see `FirstGroup`). */
  function EncodeDigits(s: string): (r: string)
    requires IsLatin1(s)
    ensures AllDigits(r)
    decreases |s|
  {
    if |s| == 0 then ""
    else
      var n := if |s| < 3 then |s| else 3;
      FirstGroup(s) + EncodeDigits(s[n..])
  }

  /** Four characters per three bytes, and two or three for a final one or
      two bytes. */
  lemma {:induction false} EncodeDigitsLength(s: string)
    requires IsLatin1(s)
    ensures |EncodeDigits(s)| == |s| / 3 * 4 + (if |s| % 3 == 0 then 0 else |s| % 3 + 1)
    decreases |s|
  {
    if |s| >= 3 {
      EncodeDigitsLength(s[3..]);
    }
  }

  /** The `=` padding that completes the last group of four characters. */
  function Padding(n: nat): (p: string)
    ensures |p| == (if n % 3 == 0 then 0 else 3 - n % 3)
    ensures forall i :: 0 <= i < |p| ==> p[i] == '='
  {
    if n % 3 == 1 then "==" else if n % 3 == 2 then "=" else ""
  }

  /** The padding brings the unpadded encoding of `n` bytes to a whole number
      of groups of four; it is what a length short of that needs. */
  lemma {:induction false} PaddingCompletesGroup(n: nat, len: nat)
    requires len == n / 3 * 4 + (if n % 3 == 0 then 0 else n % 3 + 1)
    ensures (len + |Padding(n)|) % 4 == 0
    ensures (4 - len % 4) % 4 == |Padding(n)|
  {
    var q, r := n / 3, n % 3;
    var c := if r == 0 then 0 else r + 1;
    assert len == q * 4 + c && c < 4;
    assert len % 4 == c by {
      assert len - c == q * 4;
    }
    assert c + |Padding(n)| == (if r == 0 then 0 else 4);
  }

  /** The unpadded encoding of `n` bytes followed by its padding: whole
      groups of four, each character in the alphabet or `=`. */
  lemma {:induction false} PaddedEncoding(d: string, n: nat)
    requires AllDigits(d) && |d| == n / 3 * 4 + (if n % 3 == 0 then 0 else n % 3 + 1)
    ensures |d + Padding(n)| % 4 == 0
    ensures forall i :: 0 <= i < |d + Padding(n)| ==> IsDigit((d + Padding(n))[i]) || (d + Padding(n))[i] == '='
  {
    PaddingCompletesGroup(n, |d|);
    var t := d + Padding(n);
    forall i | 0 <= i < |t| ensures IsDigit(t[i]) || t[i] == '=' {
      if i < |d| { assert t[i] == d[i]; } else { assert t[i] == Padding(n)[i - |d|]; }
    }
  }

  /** `btoa(s)`: throws `InvalidCharacterError` when some character is above
      U+00FF; otherwise the padded encoding, a whole number of four-character
      groups over the alphabet and `=`. */
  function Btoa(s: string): (r: Result<string, JsException>)
    ensures r.Failure? <==> exists i :: 0 <= i < |s| && s[i] as int > 255
    ensures r.Failure? ==> r.error == InvalidCharacterError
    ensures r.Success? ==> |r.value| % 4 == 0
    ensures r.Success? ==> forall i :: 0 <= i < |r.value| ==> IsDigit(r.value[i]) || r.value[i] == '='
  {
    if IsLatin1(s) then
      EncodeDigitsLength(s);
      PaddedEncoding(EncodeDigits(s), |s|);
      Success(EncodeDigits(s) + Padding(|s|))
    else Failure(InvalidCharacterError)
  }

  /** ASCII whitespace as the Infra standard defines it: tab, line feed,
      form feed, carriage return and space. */
  predicate IsAsciiWhitespace(c: char)
  {
    c == '\t' || c == '\n' || c == '\U{000C}' || c == '\r' || c == ' '
  }

  /** The characters `atob` keeps: all but ASCII whitespace. */
  predicate NotWhitespace(c: char)
  {
    !IsAsciiWhitespace(c)
  }

  /** Drops one or two trailing `=`, as forgiving-base64 does for an input
      whose length is a multiple of four. */
  function DropPadding(s: string): (r: string)
    ensures r <= s && |s| - 2 <= |r|
    ensures forall i :: |r| <= i < |s| ==> s[i] == '='
  {
    if |s| >= 2 && s[|s| - 2..] == "==" then s[..|s| - 2]
    else if |s| >= 1 && s[|s| - 1] == '=' then s[..|s| - 1]
    else s
  }

  /** Bytes from alphabet characters: three per group of four, one for a final
      two, two for a final three; the unused low bits are ignored. */
  function DecodeDigits(s: string): (r: string)
    requires AllDigits(s) && |s| % 4 != 1
    ensures IsLatin1(r)
    decreases |s|
  {
    if |s| == 0 then ""
    else
      var n := if |s| < 4 then |s| else 4;
      GroupBytes(s[..n]) + DecodeDigits(s[n..])
  }

  /** The number of bytes `n` alphabet characters carry: three per four, and
      one or two more for a final two or three. */
  function DecodedLength(n: nat): nat
  {
    n / 4 * 3 + (if n % 4 == 0 then 0 else n % 4 - 1)
  }

  /** How many bytes `DecodeDigits` produces. */
  lemma {:induction false} DecodeDigitsLength(s: string)
    requires AllDigits(s) && |s| % 4 != 1
    ensures |DecodeDigits(s)| == DecodedLength(|s|)
    decreases |s|
  {
    if |s| >= 4 {
      DecodeDigitsLength(s[4..]);
    }
  }

  /** More characters (of a decodable count) carry more bytes. */
  lemma {:induction false} DecodedLengthGrows(m: nat, n: nat)
    requires m < n && m % 4 != 1 && n % 4 != 1
    ensures DecodedLength(m) < DecodedLength(n)
  {
  }

  /** The forgiving-base64 decode of a text already stripped of whitespace:
      when the length is a multiple of four drop one or two trailing `=`;
      fail with `InvalidCharacterError` when the length leaves remainder 1
      or any character is outside the alphabet; otherwise decode. */
  function ForgivingDecode(t: string): (r: Result<string, JsException>)
    ensures r.Failure? ==> r.error == InvalidCharacterError
    ensures r.Success? ==> IsLatin1(r.value)
  {
    DecodeUnpadded(if |t| % 4 == 0 then DropPadding(t) else t)
  }

  /** The last steps of the decode, once padding is dropped: a lone final
      character or one outside the alphabet fails. */
  function DecodeUnpadded(u: string): (r: Result<string, JsException>)
    ensures r.Failure? ==> r.error == InvalidCharacterError
    ensures r.Success? ==> IsLatin1(r.value) && AllDigits(u) && |u| % 4 != 1
  {
    if |u| % 4 == 1 || !AllDigits(u) then Failure(InvalidCharacterError)
    else Success(DecodeDigits(u))
  }

  /** `atob(s)`: strip ASCII whitespace, then decode forgivingly. */
  function Atob(s: string): (r: Result<string, JsException>)
    ensures r.Failure? ==> r.error == InvalidCharacterError
    ensures r.Success? ==> IsLatin1(r.value)
  {
    ForgivingDecode(SeqOps.Filter(s, NotWhitespace))
  }

  /** Alphabet characters followed by at most two `=`: a successful decode
      decodes exactly those characters, and it succeeds whenever no lone
      character is left and the padding, if any, completes a group of four. */
  lemma {:induction false} ForgivingDecodeOfDigits(d: string, p: string)
    requires AllDigits(d) && (p == "" || p == "=" || p == "==")
    ensures ForgivingDecode(d + p).Success? ==>
      |d| % 4 != 1 && ForgivingDecode(d + p).value == DecodeDigits(d)
    ensures (p == "" || |d + p| % 4 == 0) && |d| % 4 != 1 ==>
      ForgivingDecode(d + p) == Success(DecodeDigits(d))
  {
    if |d + p| % 4 == 0 {
      DecodeWholeGroups(d, p);
    } else if p == "" {
      assert d + p == d;
    } else {
      DecodeMisplacedPadding(d, p);
    }
  }

  /** Padding that completes the last group is dropped before decoding. */
  lemma {:induction false} DecodeWholeGroups(d: string, p: string)
    requires AllDigits(d) && (p == "" || p == "=" || p == "==") && |d + p| % 4 == 0
    ensures ForgivingDecode(d + p) == DecodeUnpadded(d)
  {
    assert d == [] || IsDigit(d[|d| - 1]);
    DropPaddingAppend(d, p);
  }

  /** Padding that does not complete a group is refused. */
  lemma {:induction false} DecodeMisplacedPadding(d: string, p: string)
    requires p != [] && p[|p| - 1] == '=' && |d + p| % 4 != 0
    ensures ForgivingDecode(d + p).Failure?
  {
    var t := d + p;
    assert t[|t| - 1] == '=';
    assert !AllDigits(t);
  }

  /** The bytes one leading group of two to four characters decodes to. */
  function GroupBytes(h: string): (r: string)
    requires AllDigits(h) && 2 <= |h| <= 4
    ensures |r| == |h| - 1
  {
    var b := Octets(ValueOf(h[0]), ValueOf(h[1]),
                    if |h| > 2 then ValueOf(h[2]) else 0, if |h| > 3 then ValueOf(h[3]) else 0);
    CharsOf(b)[..|h| - 1]
  }

  /** Decoding proceeds group by group from the front. */
  lemma {:induction false} DecodeFirstGroup(h: string, rest: string)
    requires AllDigits(h) && 2 <= |h| <= 4 && (|h| < 4 ==> rest == [])
    requires AllDigits(rest) && |rest| % 4 != 1
    ensures AllDigits(h + rest) && |h + rest| % 4 != 1
    ensures DecodeDigits(h + rest) == GroupBytes(h) + DecodeDigits(rest)
  {
    var t := h + rest;
    forall i | 0 <= i < |t| ensures IsDigit(t[i]) {
      if i < |h| { assert t[i] == h[i]; } else { assert t[i] == rest[i - |h|]; }
    }
    var n := if |t| < 4 then |t| else 4;
    assert n == |h|;
    assert t[..n] == h && t[n..] == rest;
  }

  /** The characters for one to three bytes (missing bytes zero) decode back
      to those bytes. */
  lemma {:induction false} GroupBytesOfSextets(b0: int, b1: int, b2: int, n: nat)
    requires 0 <= b0 < 256 && 0 <= b1 < 256 && 0 <= b2 < 256 && 1 <= n <= 3
    requires (n < 3 ==> b2 == 0) && (n < 2 ==> b1 == 0)
    ensures var h := DigitsOf(Sextets(b0, b1, b2))[..n + 1];
      AllDigits(h) && GroupBytes(h) == CharsOf([b0, b1, b2])[..n]
  {
    var v := Sextets(b0, b1, b2);
    var h := DigitsOf(v)[..n + 1];
    OctetsOfSextets(b0, b1, b2);
    assert n < 3 ==> v[3] == 0;
    assert n < 2 ==> v[2] == 0;
    assert ValueOf(h[0]) == v[0] && ValueOf(h[1]) == v[1];
    assert Octets(ValueOf(h[0]), ValueOf(h[1]), if |h| > 2 then ValueOf(h[2]) else 0,
                  if |h| > 3 then ValueOf(h[3]) else 0) == Octets(v[0], v[1], v[2], v[3]);
  }

  /** The leading group `btoa` writes for the first one to three bytes of `s`. */
  function FirstGroup(s: string): (h: string)
    requires IsLatin1(s) && |s| > 0
    ensures AllDigits(h) && |h| == (if |s| < 3 then |s| else 3) + 1
    ensures GroupBytes(h) == s[..|h| - 1]
  {
    var n := if |s| < 3 then |s| else 3;
    var b0, b1, b2 := s[0] as int, if n > 1 then s[1] as int else 0, if n > 2 then s[2] as int else 0;
    GroupBytesOfSextets(b0, b1, b2, n);
    var c := CharsOf([b0, b1, b2]);
    assert c[..n] == s[..n] by {
      forall i | 0 <= i < n ensures c[i] == s[i] {
        assert c[i] as int == s[i] as int;
      }
    }
    DigitsOf(Sextets(b0, b1, b2))[..n + 1]
  }

  /** A leading group that decodes to `a`, followed by characters that
      decode to `b`, decodes to `a + b`. */
  lemma {:induction false} DecodeJoin(a: string, b: string, h: string, rest: string)
    requires AllDigits(h) && |h| == |a| + 1 && 1 <= |a| <= 3 && (|a| < 3 ==> rest == [])
    requires GroupBytes(h) == a
    requires AllDigits(rest) && |rest| % 4 != 1 && DecodeDigits(rest) == b
    ensures AllDigits(h + rest) && |h + rest| % 4 != 1
    ensures DecodeDigits(h + rest) == a + b
  {
    DecodeFirstGroup(h, rest);
  }

  /** Decoding the unpadded encoding gives back the original bytes. */
  lemma {:induction false} DecodeEncodeDigits(s: string)
    requires IsLatin1(s)
    ensures |EncodeDigits(s)| % 4 != 1
    ensures DecodeDigits(EncodeDigits(s)) == s
    decreases |s|
  {
    if |s| > 0 {
      var n := if |s| < 3 then |s| else 3;
      var h, rest := FirstGroup(s), EncodeDigits(s[n..]);
      assert EncodeDigits(s) == h + rest;
      DecodeEncodeDigits(s[n..]);
      assert n < 3 ==> s[n..] == [];
      DecodeJoin(s[..n], s[n..], h, rest);
      assert s[..n] + s[n..] == s;
    }
  }

  /** Dropping padding from a string that ends in at most two `=` after a
      character other than `=` leaves that string. */
  lemma {:induction false} DropPaddingAppend(d: string, p: string)
    requires d == [] || d[|d| - 1] != '='
    requires p == "" || p == "=" || p == "=="
    ensures DropPadding(d + p) == d
  {
    var t := d + p;
    if p == "==" {
      assert t[|t| - 2..] == p && t[..|t| - 2] == d;
    } else if p == "=" {
      assert t[..|t| - 1] == d;
      if |t| >= 2 {
        assert t[|t| - 2] == d[|d| - 1];
      }
    } else if |t| >= 2 {
      assert t == d && t[|t| - 2..][1] == d[|d| - 1];
    }
  }

  /** `atob(btoa(s)) == s` for every Latin-1 string `s`. */
  lemma {:induction false} AtobBtoa(s: string)
    requires IsLatin1(s)
    ensures Btoa(s).Success? && Atob(Btoa(s).value) == Success(s)
  {
    var d, p := EncodeDigits(s), Padding(|s|);
    var t := d + p;
    assert Btoa(s).value == t;
    forall c | c in t ensures NotWhitespace(c) {
      var i :| 0 <= i < |t| && t[i] == c;
      assert IsDigit(t[i]) || t[i] == '=';
    }
    SeqOps.FilterKeepsAll(t, NotWhitespace);
    DecodeEncodeDigits(s);
    ForgivingDecodeOfDigits(d, p);
  }

  /** A character that is neither whitespace, `=` nor in the alphabet makes
      `atob` throw. */
  lemma {:induction false} AtobRejectsForeignCharacter(s: string, i: nat)
    requires i < |s| && !IsDigit(s[i]) && s[i] != '=' && !IsAsciiWhitespace(s[i])
    ensures Atob(s) == Failure(InvalidCharacterError)
  {
    var t := SeqOps.Filter(s, NotWhitespace);
    assert s[i] in t;
    var u := if |t| % 4 == 0 then DropPadding(t) else t;
    var k :| 0 <= k < |t| && t[k] == s[i];
    assert k < |u| && u[k] == s[i];
  }
}
