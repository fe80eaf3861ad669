/** The URL-safe wrappers around `btoa`/`atob`: the base64url alphabet of
    section 5 of RFC 4648 (`-` and `_` in place of `+` and `/`), with the
    padding left off as section 3.2 allows. */
module UrlSafe {
  import opened Wrappers
  import opened JsValues
  import opened Base64

  /** `s.replace(/x/g, y)` for a single character `x`. */
  function ReplaceAll(s: string, x: char, y: char): (r: string)
    ensures |r| == |s|
    ensures forall i :: 0 <= i < |s| ==> r[i] == if s[i] == x then y else s[i]
    ensures x != y ==> forall i :: 0 <= i < |r| ==> r[i] != x
  {
    seq(|s|, i requires 0 <= i < |s| => if s[i] == x then y else s[i])
  }

  /** `s.replace(/=+$/, "")`: removes the run of `=` at the end. */
  function StripTrailingEquals(s: string): (r: string)
    ensures r <= s
    ensures r == [] || r[|r| - 1] != '='
    ensures forall i :: |r| <= i < |s| ==> s[i] == '='
    decreases |s|
  {
    if s != [] && s[|s| - 1] == '=' then StripTrailingEquals(s[..|s| - 1]) else s
  }

  /** A character of the base64url alphabet. */
  predicate IsUrlDigit(c: char)
  {
    'A' <= c <= 'Z' || 'a' <= c <= 'z' || '0' <= c <= '9' || c == '-' || c == '_'
  }

  /** `encodeURLSafe(s)`: throws exactly when `btoa` does; otherwise a string
      over the base64url alphabet, hence without `+`, `/` or any `=`. */
  function EncodeURLSafe(s: string): (r: Result<string, JsException>)
    ensures r.Failure? <==> exists i :: 0 <= i < |s| && s[i] as int > 255
    ensures r.Failure? ==> r == Btoa(s)
    ensures r.Success? ==> forall i :: 0 <= i < |r.value| ==> IsUrlDigit(r.value[i])
    ensures r.Success? ==> forall i :: 0 <= i < |r.value| ==> r.value[i] !in "+/="
  {
    match Btoa(s)
    case Failure(e) => Failure(e)
    case Success(b) =>
      var u := StripTrailingEquals(ReplaceAll(ReplaceAll(b, '+', '-'), '/', '_'));
      Success(u)
  }

  /** A run of `n` padding characters. */
  function Equals(n: nat): (r: string)
    ensures |r| == n && forall i :: 0 <= i < n ==> r[i] == '='
  {
    seq(n, _ => '=')
  }

  /** `s` followed by as many `=` as bring its length to a multiple of four:
      only `=` is added, and at most three of them. */
  function Repadded(s: string): (r: string)
    ensures |r| % 4 == 0
    ensures |s| <= |r| <= |s| + 3 && r[..|s|] == s
    ensures forall i :: |s| <= i < |r| ==> r[i] == '='
  {
    s + Equals((4 - |s| % 4) % 4)
  }

  /** What `decodeURLSafe` hands to `atob`: the alphabet substitution undone
      and the padding put back. */
  function ToStandardBase64(s: string): (r: string)
    ensures |r| % 4 == 0
  {
    Repadded(ReplaceAll(ReplaceAll(s, '-', '+'), '_', '/'))
  }

  /** `decodeURLSafe(s)`: substitutes back, re-pads in a loop, then `atob`. */
  method DecodeURLSafe(s: string) returns (r: Result<string, JsException>)
    ensures r == Atob(ToStandardBase64(s))
  {
    var str := ReplaceAll(ReplaceAll(s, '-', '+'), '_', '/');
    ghost var unpadded := str;
    ghost var need := (4 - |unpadded| % 4) % 4;
    ghost var added := 0;
    while |str| % 4 != 0
      invariant added <= need && |str| == |unpadded| + added
      invariant str == unpadded + Equals(added)
      decreases need - added
    {
      assert Equals(added) + "=" == Equals(added + 1);
      str, added := str + "=", added + 1;
    }
    assert added == need;
    assert str == ToStandardBase64(s);
    r := Atob(str);
  }

  /** On strings over the standard alphabet the substitution of
      `decodeURLSafe` undoes the one of `encodeURLSafe`. */
  lemma {:induction false} SubstitutionInverse(d: string)
    requires AllDigits(d)
    ensures ReplaceAll(ReplaceAll(ReplaceAll(ReplaceAll(d, '+', '-'), '/', '_'), '-', '+'), '_', '/') == d
  {
  }

  /** Replacing a character distributes over concatenation. */
  lemma {:induction false} ReplaceAllAppend(a: string, b: string, x: char, y: char)
    ensures ReplaceAll(a + b, x, y) == ReplaceAll(a, x, y) + ReplaceAll(b, x, y)
  {
  }

  /** The standard alphabet rewritten into the URL-safe one. */
  function UrlAlphabet(d: string): string
  {
    ReplaceAll(ReplaceAll(d, '+', '-'), '/', '_')
  }

  /** `encodeURLSafe` is the unpadded encoding in the URL-safe alphabet. */
  lemma {:induction false} EncodeURLSafeUnpadded(s: string)
    requires IsLatin1(s)
    ensures EncodeURLSafe(s) == Success(UrlAlphabet(EncodeDigits(s)))
  {
    var d, p := EncodeDigits(s), Padding(|s|);
    assert Btoa(s).value == d + p;
    var d1 := ReplaceAll(d, '+', '-');
    ReplaceAllAppend(d, p, '+', '-');
    assert ReplaceAll(p, '+', '-') == p;
    ReplaceAllAppend(d1, p, '/', '_');
    assert ReplaceAll(p, '/', '_') == p;
    StripPaddingRun(UrlAlphabet(d), p);
  }

  /** Re-padding an unpadded encoding of `n` bytes adds exactly the padding
      `btoa` adds. */
  lemma {:induction false} RepaddedEncoding(d: string, n: nat)
    requires |d| == n / 3 * 4 + (if n % 3 == 0 then 0 else n % 3 + 1)
    ensures Repadded(d) == d + Padding(n)
  {
    PaddingCompletesGroup(n, |d|);
    assert Equals(|Padding(n)|) == Padding(n);
  }

  /** Substituting back and re-padding the URL-safe form restores `btoa(s)`. */
  lemma {:induction false} ToStandardOfUnpadded(s: string)
    requires IsLatin1(s)
    ensures ToStandardBase64(UrlAlphabet(EncodeDigits(s))) == EncodeDigits(s) + Padding(|s|)
  {
    var d := EncodeDigits(s);
    var back := ReplaceAll(ReplaceAll(UrlAlphabet(d), '-', '+'), '_', '/');
    assert back == d by {
      SubstitutionInverse(d);
    }
    EncodeDigitsLength(s);
    RepaddedEncoding(d, |s|);
  }

  /** The token `encodeURLSafe` gives for `s` turns back into `btoa(s)`. */
  lemma {:induction false} ToStandardOfEncode(s: string)
    requires IsLatin1(s)
    ensures EncodeURLSafe(s).Success? && Btoa(s).Success?
    ensures ToStandardBase64(EncodeURLSafe(s).value) == Btoa(s).value
  {
    EncodeURLSafeUnpadded(s);
    ToStandardOfUnpadded(s);
  }

  /** Stripping a run of `=` appended to a string that does not end in `=`
      gives that string. */
  lemma {:induction false} StripPaddingRun(d: string, p: string)
    requires d == [] || d[|d| - 1] != '='
    requires forall i :: 0 <= i < |p| ==> p[i] == '='
    ensures StripTrailingEquals(d + p) == d
    decreases |p|
  {
    if p == [] {
      assert d + p == d;
    } else {
      assert (d + p)[..|d + p| - 1] == d + p[..|p| - 1];
      StripPaddingRun(d, p[..|p| - 1]);
    }
  }

  /** `decodeURLSafe(encodeURLSafe(s)) == s` for every Latin-1 string `s`. */
  lemma {:induction false} UrlSafeRoundTrip(s: string)
    requires IsLatin1(s)
    ensures EncodeURLSafe(s).Success?
    ensures Atob(ToStandardBase64(EncodeURLSafe(s).value)) == Success(s)
  {
    ToStandardOfEncode(s);
    AtobBtoa(s);
  }
}
