/** Normalisation of scanned text before it is looked at: `extractQr` in
    `src/components/dashboard/StudentDashboard.tsx` and the same steps at the
    head of `handleScanResult` in `src/components/ProfessionalQRScanner.tsx`.

    `decodeURIComponent` and `new URL(...)` are parameters: partial
    functions, `None` standing for a thrown error. The URL parser returns
    the two parts of a URL the code reads: its search parameters, already
    decoded and in order, and its pathname. */
module ScanText {
  import opened Common
  import Seqs

  /** The parts of a parsed URL that the normaliser reads. */
  datatype Url = Url(searchParams: seq<(string, string)>, pathname: string)

  /** `decodeURIComponent`; `None` when it throws a URIError. */
  type Decoder = string -> Option<string>

  /** `new URL(s)`; `None` when it throws a TypeError. */
  type UrlParser = string -> Option<Url>

  // ---------------------------------------------------------------------
  // the three cleaning steps
  // ---------------------------------------------------------------------

  /** The class `[\u200E\u200F\u202A-\u202E]`: left-to-right and
      right-to-left marks and the directional embeddings and overrides. */
  predicate IsBidiMark(c: char) {
    var n := c as int;
    n == 0x200E || n == 0x200F || (0x202A <= n <= 0x202E)
  }

  predicate NotBidiMark(c: char) { !IsBidiMark(c) }

  predicate NoBidiMarks(s: string) { forall k :: 0 <= k < |s| ==> !IsBidiMark(s[k]) }

  /** `s.replace(/[\u200E\u200F\u202A-\u202E]/g, "")`. */
  function StripBidi(s: string): (r: string)
    ensures NoBidiMarks(r)
    ensures forall c :: c in r <==> c in s && !IsBidiMark(c)
    ensures NoBidiMarks(s) ==> r == s
  {
    var r := Filter(s, NotBidiMark);
    assert forall k :: 0 <= k < |r| ==> r[k] in r;
    r
  }

  /** `try { s = decodeURIComponent(s) } catch {}`. */
  function DecodeOrKeep(s: string, decode: Decoder): (r: string)
    ensures decode(s).None? ==> r == s
    ensures decode(s).Some? ==> r == decode(s).value
  {
    match decode(s)
    case Some(d) => d
    case None => s
  }

  /** A decoder that, like `decodeURIComponent`, returns text holding no
      '%' escape unchanged. */
  ghost predicate DecodesPlainText(decode: Decoder) {
    forall s :: '%' !in s ==> decode(s) == Some(s)
  }

  /** The text after trimming, stripping marks and decoding: what both
      normalisers hold before they look for a URL. */
  function Prepared(raw: string, decode: Decoder): string {
    DecodeOrKeep(StripBidi(Trim(raw)), decode)
  }

  // ---------------------------------------------------------------------
  // recognising and reading a URL
  // ---------------------------------------------------------------------

  /** `c` matches the pattern character `p` under the `i` flag; for the
      ASCII letters of "https://" that is the letter in either case. */
  predicate SameIgnoringCase(c: char, p: char) {
    c == p || ('a' <= p <= 'z' && c as int == p as int - 32)
  }

  predicate StartsWithIgnoringCase(s: string, prefix: string) {
    |prefix| <= |s| && forall k :: 0 <= k < |prefix| ==> SameIgnoringCase(s[k], prefix[k])
  }

  /** `/^https?:\/\//i.test(s)`. */
  predicate IsHttpUrl(s: string) {
    StartsWithIgnoringCase(s, "http://") || StartsWithIgnoringCase(s, "https://")
  }

  /** `searchParams.get(name)`: the value of the first parameter with that
      name, `None` for `null`. */
  function SearchParam(params: seq<(string, string)>, name: string): (r: Option<string>)
    ensures r.None? <==> forall k :: 0 <= k < |params| ==> params[k].0 != name
    ensures r.Some? ==> exists k :: 0 <= k < |params| && params[k] == (name, r.value)
                                    && forall j :: 0 <= j < k ==> params[j].0 != name
    decreases |params|
  {
    if |params| == 0 then None
    else if params[0].0 == name then Some(params[0].1)
    else
      var r := SearchParam(params[1..], name);
      assert forall k :: 1 <= k < |params| ==> params[k] == params[1..][k - 1];
      if r.Some? then
        var k :| 0 <= k < |params[1..]| && params[1..][k] == (name, r.value)
                 && forall j :: 0 <= j < k ==> params[1..][j].0 != name;
        assert params[k + 1] == (name, r.value);
        r
      else r
  }

  /** Whether a `string | null` is truthy: present and not empty. */
  predicate Truthy(v: Option<string>) { v.Some? && v.value != "" }

  /** `a || b` on two `string | null` values. */
  function OrElse(a: Option<string>, b: Option<string>): (r: Option<string>)
    ensures Truthy(a) ==> r == a
    ensures !Truthy(a) ==> r == b
  {
    if Truthy(a) then a else b
  }

  predicate NonEmpty(s: string) { s != "" }

  /** `pathname.split("/").filter(Boolean)`. */
  function Segments(pathname: string): (r: seq<string>)
    ensures forall k :: 0 <= k < |r| ==> r[k] != ""
    ensures forall x :: x in r <==> x in Split(pathname, '/') && x != ""
    ensures forall x :: multiset(r)[x] == if x != "" then multiset(Split(pathname, '/'))[x] else 0
  {
    var r := Seqs.FilterSeq(Split(pathname, '/'), NonEmpty);
    Seqs.FilterSeqCount(Split(pathname, '/'), NonEmpty);
    assert forall k :: 0 <= k < |r| ==> r[k] in r;
    r
  }

  /** The last segment is the path's last non-empty '/'-piece. */
  lemma LastSegmentIsLastPiece(pathname: string, k: int)
    requires var pieces := Split(pathname, '/');
      0 <= k < |pieces| && pieces[k] != "" && forall j :: k < j < |pieces| ==> pieces[j] == ""
    ensures var r := Segments(pathname);
      |r| > 0 && r[|r| - 1] == Split(pathname, '/')[k]
  {
    var pieces := Split(pathname, '/');
    assert Segments(pathname) == Seqs.FilterSeq(pieces, NonEmpty);
    Seqs.FilterSeqLast(pieces, NonEmpty, k);
  }

  /** What the URL branch extracts, if anything: the trimmed `qr` (or
      `code`) parameter when truthy, else the trimmed last non-empty path
      segment, else nothing. */
  function FromUrl(u: Url): (r: Option<string>)
    ensures r.None? <==> !Truthy(OrElse(SearchParam(u.searchParams, "qr"), SearchParam(u.searchParams, "code")))
                         && Segments(u.pathname) == []
  {
    var byParam := OrElse(SearchParam(u.searchParams, "qr"), SearchParam(u.searchParams, "code"));
    if Truthy(byParam) then Some(Trim(byParam.value))
    else
      var parts := Segments(u.pathname);
      if |parts| > 0 then Some(Trim(parts[|parts| - 1])) else None
  }

  // ---------------------------------------------------------------------
  // the two normalisers
  // ---------------------------------------------------------------------

  /** `extractQr(raw)`: a total function of the text and the two partial
      library functions. Its result is either the prepared text or what the
      URL branch extracted from it. */
  function ExtractQr(raw: string, decode: Decoder, parseUrl: UrlParser): (r: string)
    ensures var s := Prepared(raw, decode);
      r == s || (IsHttpUrl(s) && parseUrl(s).Some? && FromUrl(parseUrl(s).value) == Some(r))
  {
    var s := Prepared(raw, decode);
    if IsHttpUrl(s) then
      match parseUrl(s)
      case Some(u) => FromUrl(u).GetOr(s)
      case None => s
    else s
  }

  /** The normalisation at the head of the scanner's `handleScanResult`,
      written as its chain of reassignments to `cleaned`. */
  function ScannerNormalise(decodedText: string, decode: Decoder, parseUrl: UrlParser): string {
    var cleaned := Trim(decodedText);
    var cleaned := StripBidi(cleaned);
    var cleaned := DecodeOrKeep(cleaned, decode);
    if !IsHttpUrl(cleaned) then cleaned
    else match parseUrl(cleaned)
      case None => cleaned
      case Some(u) =>
        var byParam := OrElse(SearchParam(u.searchParams, "qr"), SearchParam(u.searchParams, "code"));
        if Truthy(byParam) then Trim(byParam.value)
        else
          var parts := Segments(u.pathname);
          if |parts| > 0 then Trim(parts[|parts| - 1]) else cleaned
  }

  /** A character none of the three cleaning steps touches. */
  predicate Quiet(c: char) { !IsJsSpace(c) && !IsBidiMark(c) && c != '%' }

  /** Non-URL text made of quiet characters passes the normalisation
      unchanged. */
  lemma QuietTextUnchanged(s: string, decode: Decoder, parseUrl: UrlParser)
    requires forall k :: 0 <= k < |s| ==> Quiet(s[k])
    requires !IsHttpUrl(s)
    requires DecodesPlainText(decode)
    ensures ScannerNormalise(s, decode, parseUrl) == s
  {
    assert Trim(s) == s;
    assert StripBidi(s) == s;
    assert '%' !in s;
  }

  /** The scanner and the student dashboard normalise alike. */
  lemma ScannerNormaliseEqualsExtractQr(text: string, decode: Decoder, parseUrl: UrlParser)
    ensures ScannerNormalise(text, decode, parseUrl) == ExtractQr(text, decode, parseUrl)
  {
  }

  // ---------------------------------------------------------------------
  // properties of extractQr
  // ---------------------------------------------------------------------

  /** Totality: when decoding throws, the mark-stripped text is carried on;
      when URL parsing throws, the prepared text is the result. */
  lemma FailuresFallBack(raw: string, decode: Decoder, parseUrl: UrlParser)
    ensures decode(StripBidi(Trim(raw))).None? ==> Prepared(raw, decode) == StripBidi(Trim(raw))
    ensures parseUrl(Prepared(raw, decode)).None? ==> ExtractQr(raw, decode, parseUrl) == Prepared(raw, decode)
  {
  }

  /** Marks are stripped before decoding: the decoder is only ever applied
      to mark-free text, so two decoders that agree on mark-free text give
      the same result on every input. */
  lemma DecoderSeesNoBidiMarks(raw: string, decode1: Decoder, decode2: Decoder, parseUrl: UrlParser)
    requires forall s :: NoBidiMarks(s) ==> decode1(s) == decode2(s)
    ensures ExtractQr(raw, decode1, parseUrl) == ExtractQr(raw, decode2, parseUrl)
  {
    assert NoBidiMarks(StripBidi(Trim(raw)));
    assert Prepared(raw, decode1) == Prepared(raw, decode2);
  }

  /** Text that does not start with http:// or https:// (in any case) comes
      back trimmed, mark-stripped and decoded, and no URL is parsed. */
  lemma NonUrlUnchanged(raw: string, decode: Decoder, parseUrl1: UrlParser, parseUrl2: UrlParser)
    requires !IsHttpUrl(Prepared(raw, decode))
    ensures ExtractQr(raw, decode, parseUrl1) == DecodeOrKeep(StripBidi(Trim(raw)), decode)
    ensures ExtractQr(raw, decode, parseUrl1) == ExtractQr(raw, decode, parseUrl2)
  {
  }

  /** A URL with a non-empty `qr` parameter yields that value trimmed,
      whatever its `code` parameter and path. */
  lemma QrParamWins(raw: string, decode: Decoder, parseUrl: UrlParser, qr: string)
    requires IsHttpUrl(Prepared(raw, decode))
    requires parseUrl(Prepared(raw, decode)).Some?
    requires SearchParam(parseUrl(Prepared(raw, decode)).value.searchParams, "qr") == Some(qr)
    requires qr != ""
    ensures ExtractQr(raw, decode, parseUrl) == Trim(qr)
  {
  }

  /** `code` is read only when `qr` is absent or empty; a non-empty `code`
      is then returned trimmed. */
  lemma CodeParamWhenQrEmpty(raw: string, decode: Decoder, parseUrl: UrlParser, code: string)
    requires IsHttpUrl(Prepared(raw, decode))
    requires parseUrl(Prepared(raw, decode)).Some?
    requires var ps := parseUrl(Prepared(raw, decode)).value.searchParams;
      SearchParam(ps, "qr") in {None, Some("")} && SearchParam(ps, "code") == Some(code)
    requires code != ""
    ensures ExtractQr(raw, decode, parseUrl) == Trim(code)
  {
  }

  /** With neither parameter truthy, the last non-empty path segment is
      returned trimmed; with no such segment the prepared text is. */
  lemma LastPathSegment(raw: string, decode: Decoder, parseUrl: UrlParser)
    requires IsHttpUrl(Prepared(raw, decode))
    requires parseUrl(Prepared(raw, decode)).Some?
    requires var ps := parseUrl(Prepared(raw, decode)).value.searchParams;
      !Truthy(SearchParam(ps, "qr")) && !Truthy(SearchParam(ps, "code"))
    ensures var parts := Segments(parseUrl(Prepared(raw, decode)).value.pathname);
      && (|parts| > 0 ==> ExtractQr(raw, decode, parseUrl) == Trim(parts[|parts| - 1]))
      && (|parts| == 0 ==> ExtractQr(raw, decode, parseUrl) == Prepared(raw, decode))
  {
  }
}
