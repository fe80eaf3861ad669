/** The share link: the sidebar puts the export token unescaped into
    `?workspace=<token>`, and the workspace manager reads it back with
    `URLSearchParams.get("workspace")` before calling `importWorkspace`.
    Form decoding turns `+` into a space, and `atob` then drops that space,
    so a token holding `+` does not survive the trip. The URL-safe alphabet
    has no `+`, and its tokens do. */
module ShareLink {
  import opened Wrappers
  import opened JsValues
  import opened Base64
  import opened UrlSafe
  import SeqOps
  import opened WorkspaceModel
  import opened WorkspaceShare

  /** The value `URLSearchParams` yields for a query value without percent
      escapes: every `+` reads as a space. */
  function FormDecode(v: string): (r: string)
    requires forall i :: 0 <= i < |v| ==> v[i] != '%'
    ensures |r| == |v| && (forall i :: 0 <= i < |r| ==> r[i] != '+')
    ensures forall i :: 0 <= i < |v| ==> r[i] == (if v[i] == '+' then ' ' else v[i])
  {
    ReplaceAll(v, '+', ' ')
  }

  /** The text `importWorkspace` decodes from a link carrying a `btoa` token,
      as the link is built and read today. */
  function TextReadFromLink(token: string): (r: Result<string, JsException>)
    requires forall i :: 0 <= i < |token| ==> token[i] != '%'
    ensures r.Failure? ==> r.error == InvalidCharacterError
    ensures r.Success? ==> IsLatin1(r.value)
    ensures (forall i :: 0 <= i < |token| ==> token[i] != '+') ==> r == Atob(token)
  {
    assert (forall i :: 0 <= i < |token| ==> token[i] != '+') ==> FormDecode(token) == token by {
      if forall i :: 0 <= i < |token| ==> token[i] != '+' {
        FormDecodeKeepsPlusFree(token);
      }
    }
    Atob(FormDecode(token))
  }

  /** A value that holds no `+` reads back unchanged from the query. */
  lemma {:induction false} FormDecodeKeepsPlusFree(v: string)
    requires forall i :: 0 <= i < |v| ==> v[i] != '%' && v[i] != '+'
    ensures FormDecode(v) == v
  {
  }

  /** Characters of form-decoded base64 digits, whitespace removed, are
      base64 digits again, and at least one fewer when a `+` was there. */
  lemma {:induction false} DecodedDigitsShrink(d: string)
    requires AllDigits(d) && '+' in d
    ensures var d2 := SeqOps.Filter(FormDecode(d), NotWhitespace);
      AllDigits(d2) && |d2| < |d|
  {
    var f := FormDecode(d);
    var keep := NotWhitespace;
    var d2 := SeqOps.Filter(f, keep);
    forall i | 0 <= i < |d2| ensures IsDigit(d2[i]) {
      assert d2[i] in f && keep(d2[i]);
      var j :| 0 <= j < |f| && f[j] == d2[i];
      assert IsDigit(d[j]);
    }
    var k :| 0 <= k < |d| && d[k] == '+';
    assert f[k] == ' ';
    SeqOps.FilterDropShortens(f, keep, ' ');
  }

  /** Form decoding a token of digits and padding, then removing whitespace,
      drops the former `+` characters and keeps the padding. */
  lemma {:induction false} PlusReadAsSpace(d: string, p: string)
    requires AllDigits(d) && '+' in d && (p == "" || p == "=" || p == "==")
    ensures forall i :: 0 <= i < |d + p| ==> (d + p)[i] != '%'
    ensures var d2 := SeqOps.Filter(FormDecode(d), NotWhitespace);
      && AllDigits(d2) && |d2| < |d|
      && SeqOps.Filter(FormDecode(d + p), NotWhitespace) == d2 + p
  {
    forall i | 0 <= i < |d + p| ensures (d + p)[i] != '%' {
      if i < |d| { assert (d + p)[i] == d[i]; } else { assert (d + p)[i] == p[i - |d|]; }
    }
    var fd := FormDecode(d);
    ReplaceAllAppend(d, p, '+', ' ');
    assert FormDecode(p) == p;
    assert FormDecode(d + p) == fd + p;
    SeqOps.FilterAppend(fd, p, NotWhitespace);
    SeqOps.FilterKeepsAll(p, NotWhitespace);
    DecodedDigitsShrink(d);
  }

  /** Fewer alphabet characters carry fewer bytes. */
  lemma {:induction false} FewerDigitsFewerBytes(d: string, d2: string)
    requires AllDigits(d) && |d| % 4 != 1 && AllDigits(d2) && |d2| % 4 != 1 && |d2| < |d|
    ensures |DecodeDigits(d2)| < |DecodeDigits(d)|
  {
    DecodeDigitsLength(d);
    DecodeDigitsLength(d2);
    DecodedLengthGrows(|d2|, |d|);
  }

  /** As the link is built and read today: whenever the `btoa` token of the
      shared text holds a `+`, the text read back is not the text shared. */
  lemma {:induction false} PlusCorruptsLink(text: string)
    requires IsLatin1(text)
    requires '+' in Btoa(text).value
    ensures TextReadFromLink(Btoa(text).value) != Success(text)
  {
    var d, p := EncodeDigits(text), Padding(|text|);
    var token := d + p;
    assert Btoa(text).value == token;
    assert '+' in d by {
      var i :| 0 <= i < |token| && token[i] == '+';
      assert i < |d|;
      assert d[i] == '+';
    }
    PlusReadAsSpace(d, p);
    var d2 := SeqOps.Filter(FormDecode(d), NotWhitespace);
    ForgivingDecodeOfDigits(d2, p);
    assert TextReadFromLink(token) == ForgivingDecode(d2 + p);
    DecodeEncodeDigits(text);
    if ForgivingDecode(d2 + p).Success? {
      FewerDigitsFewerBytes(d, d2);
    }
  }

  /** `btoa(">>>")` is `Pj4+`: the three bytes 0x3E carry the sextets 15,
      35, 56 and 62. */
  lemma {:induction false} EncodeThreeBytes()
    ensures Btoa(">>>") == Success("Pj4+")
  {
    var s := ">>>";
    assert IsLatin1(s);
    var v := Sextets(62, 62, 62);
    assert v == [15, 35, 56, 62];
    assert Digit(15) == 'P' && Digit(35) == 'j' && Digit(56) == '4' && Digit(62) == '+';
    assert DigitsOf(v) == "Pj4+";
    assert FirstGroup(s) == "Pj4+";
    assert s[3..] == "";
    assert EncodeDigits(s) == FirstGroup(s) + EncodeDigits(s[3..]);
    assert EncodeDigits(s) == "Pj4+";
    assert Padding(|s|) == "";
    assert Btoa(s) == Success(EncodeDigits(s) + Padding(|s|));
  }

  /** Whitespace removal drops the space that form decoding left in `Pj4 `. */
  lemma {:induction false} UnspaceThreeDigits()
    ensures SeqOps.Filter("Pj4 ", NotWhitespace) == "Pj4"
  {
    var s := "Pj4 ";
    assert s[1..] == "j4 " && s[1..][1..] == "4 " && s[1..][1..][1..] == " " && s[1..][1..][1..][1..] == "";
    assert SeqOps.Filter(" ", NotWhitespace) == "";
    assert SeqOps.Filter("4 ", NotWhitespace) == "4";
    assert SeqOps.Filter("j4 ", NotWhitespace) == "j4";
  }

  /** `atob("Pj4")` is `>>`: the sextets 15, 35 and 56 carry the bytes 0x3E
      and 0x3E. */
  lemma {:induction false} DecodeThreeDigits()
    ensures AllDigits("Pj4") && DecodeDigits("Pj4") == ">>"
  {
    assert ValueOf('P') == 15 && ValueOf('j') == 35 && ValueOf('4') == 56;
    assert Octets(15, 35, 56, 0) == [62, 62, 0];
    assert GroupBytes("Pj4") == ">>";
    assert "Pj4"[..3] == "Pj4" && "Pj4"[3..] == "";
  }

  /** The link reads `Pj4+` as `Pj4 `, which `atob` decodes to `>>`. */
  lemma {:induction false} ReadThreeDigits()
    ensures TextReadFromLink("Pj4+") == Success(">>")
  {
    assert FormDecode("Pj4+") == "Pj4 ";
    UnspaceThreeDigits();
    DecodeThreeDigits();
  }

  /** One text that shows it: `btoa(">>>")` is `Pj4+`, and the link reads it
      back as `>>`. */
  lemma {:induction false} PlusCorruptsThreeBytes()
    ensures Btoa(">>>") == Success("Pj4+")
    ensures TextReadFromLink("Pj4+") == Success(">>")
  {
    EncodeThreeBytes();
    ReadThreeDigits();
  }

  /** The corrected token for a link: the URL-safe encoding, which holds no
      `+`, `/` or `=`. */
  function LinkToken(text: string): (r: Result<string, JsException>)
    ensures r.Failure? <==> !IsLatin1(text)
    ensures r.Success? ==> forall i :: 0 <= i < |r.value| ==> r.value[i] !in "+/=%"
  {
    EncodeURLSafe(text)
  }

  /** The corrected reading of a link: form decoding, then the URL-safe
      decoding. */
  function TextReadFromUrlSafeLink(v: string): (r: Result<string, JsException>)
    requires forall i :: 0 <= i < |v| ==> v[i] != '%'
    ensures r.Failure? ==> r.error == InvalidCharacterError
    ensures r.Success? ==> IsLatin1(r.value)
    ensures (forall i :: 0 <= i < |v| ==> v[i] != '+') ==> r == Atob(ToStandardBase64(v))
  {
    assert (forall i :: 0 <= i < |v| ==> v[i] != '+') ==> FormDecode(v) == v by {
      if forall i :: 0 <= i < |v| ==> v[i] != '+' {
        FormDecodeKeepsPlusFree(v);
      }
    }
    Atob(ToStandardBase64(FormDecode(v)))
  }

  /** A URL-safe token reads back from the query as the standard token
      `btoa` writes for the same text. */
  lemma {:induction false} LinkTokenReadsAsStandard(text: string)
    requires IsLatin1(text)
    ensures LinkToken(text).Success? && Btoa(text).Success?
    ensures ToStandardBase64(FormDecode(LinkToken(text).value)) == Btoa(text).value
  {
    ToStandardOfEncode(text);
    FormDecodeKeepsPlusFree(LinkToken(text).value);
  }

  /** With the corrected link, every Latin-1 text comes back as shared. */
  lemma {:induction false} UrlSafeLinkRoundTrip(text: string)
    requires IsLatin1(text)
    ensures LinkToken(text).Success?
    ensures TextReadFromUrlSafeLink(LinkToken(text).value) == Success(text)
  {
    LinkTokenReadsAsStandard(text);
    AtobBtoa(text);
  }

  /** With the corrected link, sharing a workspace and opening the link
      imports its name and flights under fresh ids, whatever its token holds. */
  lemma {:induction false} LinkImportRoundTrip(ws: seq<Workspace>, id: string, codec: JsonCodec, ids: nat -> string, now: int)
    requires HasWorkspace(ws, id)
    requires RoundTrips(codec, ShareableOf(Find(ws, id).value))
    requires Truthy(Find(ws, id).value.name)
    requires IsLatin1(codec.stringify(ShareableOf(Find(ws, id).value)))
    ensures var w := Find(ws, id).value;
      var v := LinkToken(codec.stringify(ShareableOf(w)));
      && v.Success?
      && var r := Imported(ToStandardBase64(FormDecode(v.value)), codec, ids, now);
      && r.Success?
      && r.value.name == w.name
      && |r.value.flights| == |w.flights|
      && (forall k :: 0 <= k < |w.flights| ==>
            r.value.flights[k].fields == w.flights[k].fields && r.value.flights[k].id == ids(k))
      && r.value.id == ids(|w.flights|)
      && r.value.createdAt == now
  {
    var text := codec.stringify(ShareableOf(Find(ws, id).value));
    LinkTokenReadsAsStandard(text);
    ExportImportRoundTrip(ws, id, codec, ids, now);
    assert Export(ws, id, codec).value == Btoa(text).value;
  }
}
