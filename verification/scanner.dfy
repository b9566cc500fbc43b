/** The decision half of `handleScanResult` in
    `src/components/ProfessionalQRScanner.tsx`: after normalising the
    scanned text, it needs a professor id, needs a '|' in the text, derives
    the lecture key from the text's first '|'-piece and that id, and
    verifies the signed credential. Toasts are not modelled; the outcome
    says which callback, if any, is called and with what. */
module Scanner {
  import opened Common
  import Decimal
  import CryptoUtils
  import ScanText
  import LocalDb

  datatype ScanOutcome =
    | MissingProfessor            // no professor id: nothing verified, no callback
    | UnsupportedFormat           // no '|' in the text: no callback
    | Rejected(error: string)     // `onError(error)`
    | Accepted(lectureId: string) // `onScanSuccess(lectureId)`

  /** Whether the optional `professorId` prop is truthy. */
  predicate Present(professorId: Option<string>) { professorId.Some? && professorId.value != "" }

  /** The lecture id the scanner reads off the text: its first '|'-piece. */
  function ScannedLectureId(cleaned: string): string { Split(cleaned, '|')[0] }

  /** The key the scanner verifies with: the professor's key for the
      text's first '|'-piece, a piece with no '|' in it. */
  function ScanKey(cleaned: string, professorId: string): (key: string)
    ensures StartsWith(key, CryptoUtils.KeyPrefix + professorId + "_")
    ensures |key| >= |ScannedLectureId(cleaned)|
    ensures key[|key| - |ScannedLectureId(cleaned)|..] == ScannedLectureId(cleaned)
    ensures '|' !in key[|key| - |ScannedLectureId(cleaned)|..]
  {
    CryptoUtils.GetLectureSecretKey(ScannedLectureId(cleaned), professorId)
  }

  /** `handleScanResult(decodedText)` with the component's `professorId`
      prop, at clock `now`. */
  function HandleScanResult(decodedText: string, professorId: Option<string>, now: int, mac: CryptoUtils.Mac,
                            decode: ScanText.Decoder, parseUrl: ScanText.UrlParser): (o: ScanOutcome)
    ensures o == MissingProfessor <==> !Present(professorId)
    ensures var cleaned := ScanText.ScannerNormalise(decodedText, decode, parseUrl);
      o == UnsupportedFormat <==> Present(professorId) && '|' !in cleaned
    ensures var cleaned := ScanText.ScannerNormalise(decodedText, decode, parseUrl);
      Present(professorId) && '|' in cleaned ==>
        var v := CryptoUtils.VerifySecureQRPayload(cleaned, ScanKey(cleaned, professorId.value), now, mac);
        && (o.Accepted? <==> v.valid)
        && (o.Accepted? ==> o.lectureId == v.lectureId && o.lectureId != "")
        && (o.Rejected? ==> o.error == v.reason.value.Message())
  {
    var cleaned := ScanText.ScannerNormalise(decodedText, decode, parseUrl);
    if !Present(professorId) then MissingProfessor
    else
      var parts := Split(cleaned, '|');
      SplitCountsSeparator(cleaned, '|');
      if |parts| < 2 then UnsupportedFormat
      else
        var key := CryptoUtils.GetLectureSecretKey(parts[0], professorId.value);
        var v := CryptoUtils.VerifySecureQRPayload(cleaned, key, now, mac);
        if !v.valid then Rejected(v.reason.value.Message())
        else Accepted(v.lectureId)
  }

  // ---------------------------------------------------------------------
  // credentials from the professor's display
  // ---------------------------------------------------------------------

  /** A character `genId` ids are made of. */
  predicate IsIdChar(c: char) { CryptoUtils.IsAlphanumeric(c) || c == '_' || c == '-' }

  /** A non-empty id of such characters, as `genId` makes. */
  predicate PlainId(s: string) { |s| > 0 && forall k :: 0 <= k < |s| ==> IsIdChar(s[k]) }

  /** Printable ASCII other than space, '%' and ':': untouched by trimming,
      mark stripping and decoding. */
  predicate Tame(c: char) { '!' <= c <= '~' && c != '%' && c != ':' }

  predicate AllTame(s: string) { forall k :: 0 <= k < |s| ==> Tame(s[k]) }

  lemma AllTameConcat(a: string, b: string)
    requires AllTame(a) && AllTame(b)
    ensures AllTame(a + b)
  {
    forall k | 0 <= k < |a + b| ensures Tame((a + b)[k]) {
      if k >= |a| {
        assert (a + b)[k] == b[k - |a|];
      }
    }
  }

  /** The text the professor's display encodes: a credential created under
      the key of `lectureId` and `signerId`. */
  function Displayed(lectureId: string, signerId: string, issuedAt: int, randomValues: seq<CryptoUtils.Byte>,
                     mac: CryptoUtils.Mac): string
    requires |randomValues| == CryptoUtils.NonceLength
  {
    CryptoUtils.CreateSecureQRPayload(lectureId, CryptoUtils.GetLectureSecretKey(lectureId, signerId),
                                      issuedAt, randomValues, mac)
  }

  /** The signed part of a credential for a plain lecture id is tame and
      at least twelve characters long. */
  lemma SignedPartTame(lectureId: string, issuedAt: int, nonce: string)
    requires PlainId(lectureId)
    requires |nonce| == CryptoUtils.NonceLength
    requires forall k :: 0 <= k < |nonce| ==> CryptoUtils.IsAlphanumeric(nonce[k])
    ensures AllTame(CryptoUtils.SignedPart(lectureId, issuedAt, nonce))
    ensures |CryptoUtils.SignedPart(lectureId, issuedAt, nonce)| >= 12
  {
    var ts := Decimal.IntToString(issuedAt);
    assert AllTame(lectureId) && AllTame(ts) && AllTame(nonce) && AllTame("|");
    AllTameConcat(lectureId, "|");
    AllTameConcat(lectureId + "|", ts);
    AllTameConcat(lectureId + "|" + ts, "|");
    AllTameConcat(lectureId + "|" + ts + "|", nonce);
  }

  /** `signed:sig` with a tame signed part of twelve or more characters and
      a hex signature is quiet throughout and not a URL. */
  lemma SignedTextQuiet(signed: string, sig: string)
    requires AllTame(signed) && |signed| >= 12
    requires CryptoUtils.IsHexDigest(sig)
    ensures var p := signed + ":" + sig;
      (forall k :: 0 <= k < |p| ==> ScanText.Quiet(p[k])) && !ScanText.IsHttpUrl(p)
  {
    var p := signed + ":" + sig;
    forall k | 0 <= k < |p| ensures ScanText.Quiet(p[k]) {
      if k < |signed| {
        assert p[k] == signed[k];
      } else if k > |signed| {
        assert p[k] == sig[k - |signed| - 1];
      }
    }
    assert p[4] == signed[4] && p[5] == signed[5];
  }

  /** A credential created for a plain lecture id passes the scanner's
      normalisation unchanged. */
  lemma DisplayedNormalises(lectureId: string, signerId: string, issuedAt: int,
                            randomValues: seq<CryptoUtils.Byte>, mac: CryptoUtils.Mac,
                            decode: ScanText.Decoder, parseUrl: ScanText.UrlParser)
    requires |randomValues| == CryptoUtils.NonceLength
    requires PlainId(lectureId)
    requires CryptoUtils.HexMac(mac)
    requires ScanText.DecodesPlainText(decode)
    ensures var p := Displayed(lectureId, signerId, issuedAt, randomValues, mac);
      ScanText.ScannerNormalise(p, decode, parseUrl) == p
  {
    var key := CryptoUtils.GetLectureSecretKey(lectureId, signerId);
    var nonce := CryptoUtils.GenerateSecureRandom(CryptoUtils.NonceLength, randomValues);
    var signed := CryptoUtils.SignedPart(lectureId, issuedAt, nonce);
    var sig := mac(key, signed);
    var p := Displayed(lectureId, signerId, issuedAt, randomValues, mac);
    assert p == signed + ":" + sig;
    assert CryptoUtils.IsHexDigest(sig);
    SignedPartTame(lectureId, issuedAt, nonce);
    SignedTextQuiet(signed, sig);
    ScanText.QuietTextUnchanged(p, decode, parseUrl);
  }

  /** The scanner reads the lecture id back off a displayed credential. */
  lemma DisplayedLectureId(lectureId: string, signerId: string, issuedAt: int,
                           randomValues: seq<CryptoUtils.Byte>, mac: CryptoUtils.Mac)
    requires |randomValues| == CryptoUtils.NonceLength
    requires PlainId(lectureId)
    ensures var p := Displayed(lectureId, signerId, issuedAt, randomValues, mac);
      '|' in p && ScannedLectureId(p) == lectureId
  {
    var key := CryptoUtils.GetLectureSecretKey(lectureId, signerId);
    var nonce := CryptoUtils.GenerateSecureRandom(CryptoUtils.NonceLength, randomValues);
    var signed := CryptoUtils.SignedPart(lectureId, issuedAt, nonce);
    var sig := mac(key, signed);
    var p := Displayed(lectureId, signerId, issuedAt, randomValues, mac);
    assert p == signed + ":" + sig;
    assert '|' !in lectureId by {
      assert forall k :: 0 <= k < |lectureId| ==> lectureId[k] != '|';
    }
    FirstPiece(lectureId, Decimal.IntToString(issuedAt), nonce, sig);
  }

  /** The first '|'-piece of `id|ts|nonce:sig` is `id` when `id` has no '|'. */
  lemma FirstPiece(id: string, ts: string, nonce: string, sig: string)
    requires '|' !in id
    ensures var p := id + "|" + ts + "|" + nonce + ":" + sig;
      '|' in p && Split(p, '|')[0] == id
  {
    var rest := ts + "|" + nonce + ":" + sig;
    assert id + "|" + ts + "|" + nonce + ":" + sig == id + ['|'] + rest;
    assert (id + ['|'] + rest)[|id|] == '|';
    SplitConcat(id, '|', rest);
  }

  /** Given the id that signed it, the scanner accepts a fresh displayed
      credential and reports its lecture. */
  lemma ScannerAcceptsDisplayed(lectureId: string, signerId: string, issuedAt: int,
                                randomValues: seq<CryptoUtils.Byte>, mac: CryptoUtils.Mac,
                                decode: ScanText.Decoder, parseUrl: ScanText.UrlParser, now: int)
    requires |randomValues| == CryptoUtils.NonceLength
    requires PlainId(lectureId) && signerId != ""
    requires CryptoUtils.HexMac(mac)
    requires ScanText.DecodesPlainText(decode)
    requires 0 <= now - issuedAt <= CryptoUtils.MaxAgeMs
    ensures HandleScanResult(Displayed(lectureId, signerId, issuedAt, randomValues, mac), Some(signerId),
                             now, mac, decode, parseUrl)
            == Accepted(lectureId)
  {
    var p := Displayed(lectureId, signerId, issuedAt, randomValues, mac);
    var key := CryptoUtils.GetLectureSecretKey(lectureId, signerId);
    DisplayedVerifies(lectureId, signerId, issuedAt, randomValues, mac, now);
    DisplayedNormalises(lectureId, signerId, issuedAt, randomValues, mac, decode, parseUrl);
    DisplayedLectureId(lectureId, signerId, issuedAt, randomValues, mac);
    CleanTextAccepted(p, signerId, key, lectureId, now, mac, decode, parseUrl);
  }

  /** A fresh displayed credential verifies under its signer's key. */
  lemma DisplayedVerifies(lectureId: string, signerId: string, issuedAt: int,
                          randomValues: seq<CryptoUtils.Byte>, mac: CryptoUtils.Mac, now: int)
    requires |randomValues| == CryptoUtils.NonceLength
    requires PlainId(lectureId)
    requires CryptoUtils.HexMac(mac)
    requires 0 <= now - issuedAt <= CryptoUtils.MaxAgeMs
    ensures CryptoUtils.VerifySecureQRPayload(Displayed(lectureId, signerId, issuedAt, randomValues, mac),
                                              CryptoUtils.GetLectureSecretKey(lectureId, signerId), now, mac)
            == CryptoUtils.Verification(lectureId, true, None)
  {
    assert lectureId != "" && '|' !in lectureId && ':' !in lectureId by {
      assert forall k :: 0 <= k < |lectureId| ==> lectureId[k] != '|' && lectureId[k] != ':';
    }
    CryptoUtils.VerifyCreatedPayload(lectureId, CryptoUtils.GetLectureSecretKey(lectureId, signerId),
                                     issuedAt, randomValues, mac, now);
  }

  /** As the student dashboard wires it up, the scanner's `professorId` is
      the student's own id. A credential signed with the professor's key is
      then checked against the student's key and rejected as wrongly
      signed, however fresh it is, whenever the two keys sign its signed
      part differently. */
  lemma StudentKeyRejectsDisplayed(lectureId: string, professorId: string, studentId: string, issuedAt: int,
                                   randomValues: seq<CryptoUtils.Byte>, mac: CryptoUtils.Mac,
                                   decode: ScanText.Decoder, parseUrl: ScanText.UrlParser, now: int)
    requires |randomValues| == CryptoUtils.NonceLength
    requires PlainId(lectureId) && studentId != ""
    requires CryptoUtils.HexMac(mac)
    requires ScanText.DecodesPlainText(decode)
    requires var signed := CryptoUtils.SignedPart(lectureId, issuedAt,
                                                  CryptoUtils.GenerateSecureRandom(CryptoUtils.NonceLength, randomValues));
      mac(CryptoUtils.GetLectureSecretKey(lectureId, studentId), signed)
      != mac(CryptoUtils.GetLectureSecretKey(lectureId, professorId), signed)
    ensures HandleScanResult(Displayed(lectureId, professorId, issuedAt, randomValues, mac), Some(studentId),
                             now, mac, decode, parseUrl)
            == Rejected("Invalid signature")
  {
    var signerKey := CryptoUtils.GetLectureSecretKey(lectureId, professorId);
    var studentKey := CryptoUtils.GetLectureSecretKey(lectureId, studentId);
    var p := Displayed(lectureId, professorId, issuedAt, randomValues, mac);
    assert '|' !in lectureId && ':' !in lectureId by {
      assert forall k :: 0 <= k < |lectureId| ==> lectureId[k] != '|' && lectureId[k] != ':';
    }
    CryptoUtils.CreatedPayloadFields(lectureId, signerKey, issuedAt, randomValues, mac);
    DisplayedWrongKey(lectureId, professorId, studentKey, issuedAt, randomValues, mac, now);
    DisplayedNormalises(lectureId, professorId, issuedAt, randomValues, mac, decode, parseUrl);
    DisplayedLectureId(lectureId, professorId, issuedAt, randomValues, mac);
    CleanTextRejected(p, studentId, studentKey, now, mac, decode, parseUrl);
  }

  /** A displayed credential fails verification under a key whose MAC of
      its signed part differs from the signer's. */
  lemma DisplayedWrongKey(lectureId: string, signerId: string, otherKey: string, issuedAt: int,
                          randomValues: seq<CryptoUtils.Byte>, mac: CryptoUtils.Mac, now: int)
    requires |randomValues| == CryptoUtils.NonceLength
    requires '|' !in lectureId && ':' !in lectureId
    requires CryptoUtils.HexMac(mac)
    requires var p := Displayed(lectureId, signerId, issuedAt, randomValues, mac);
      mac(otherKey, CryptoUtils.PayloadPart(p))
      != mac(CryptoUtils.GetLectureSecretKey(lectureId, signerId), CryptoUtils.PayloadPart(p))
    ensures CryptoUtils.VerifySecureQRPayload(Displayed(lectureId, signerId, issuedAt, randomValues, mac),
                                              otherKey, now, mac)
            == CryptoUtils.Reject(CryptoUtils.InvalidSignature)
  {
    var signerKey := CryptoUtils.GetLectureSecretKey(lectureId, signerId);
    var p := Displayed(lectureId, signerId, issuedAt, randomValues, mac);
    CryptoUtils.CreatedPayloadFields(lectureId, signerKey, issuedAt, randomValues, mac);
    WrongKeyRejected(p, signerKey, otherKey, now, mac);
  }

  /** On text the normalisation leaves alone, a verification that
      succeeds under the key of the text's first '|'-piece is an acceptance. */
  lemma CleanTextAccepted(p: string, id: string, key: string, lectureId: string, now: int,
                          mac: CryptoUtils.Mac, decode: ScanText.Decoder, parseUrl: ScanText.UrlParser)
    requires ScanText.ScannerNormalise(p, decode, parseUrl) == p
    requires '|' in p && id != ""
    requires key == CryptoUtils.GetLectureSecretKey(ScannedLectureId(p), id)
    requires CryptoUtils.VerifySecureQRPayload(p, key, now, mac) == CryptoUtils.Verification(lectureId, true, None)
    ensures HandleScanResult(p, Some(id), now, mac, decode, parseUrl) == Accepted(lectureId)
  {
  }

  /** On text the normalisation leaves alone, a wrong signature under the
      key of the text's first '|'-piece is reported as such. */
  lemma CleanTextRejected(p: string, id: string, key: string, now: int,
                          mac: CryptoUtils.Mac, decode: ScanText.Decoder, parseUrl: ScanText.UrlParser)
    requires ScanText.ScannerNormalise(p, decode, parseUrl) == p
    requires '|' in p && id != ""
    requires key == CryptoUtils.GetLectureSecretKey(ScannedLectureId(p), id)
    requires CryptoUtils.VerifySecureQRPayload(p, key, now, mac) == CryptoUtils.Reject(CryptoUtils.InvalidSignature)
    ensures HandleScanResult(p, Some(id), now, mac, decode, parseUrl) == Rejected("Invalid signature")
  {
  }

  /** A text signed under one key fails verification under a key whose MAC
      differs, with the reason "Invalid signature". */
  lemma WrongKeyRejected(s: string, signerKey: string, otherKey: string, now: int, mac: CryptoUtils.Mac)
    requires CryptoUtils.PayloadPart(s) != ""
    requires CryptoUtils.SignaturePart(s) == Some(mac(signerKey, CryptoUtils.PayloadPart(s)))
    requires mac(signerKey, CryptoUtils.PayloadPart(s)) != ""
    requires mac(otherKey, CryptoUtils.PayloadPart(s)) != mac(signerKey, CryptoUtils.PayloadPart(s))
    ensures CryptoUtils.VerifySecureQRPayload(s, otherKey, now, mac) == CryptoUtils.Reject(CryptoUtils.InvalidSignature)
  {
  }

  // ---------------------------------------------------------------------
  // the scanner given the lecture's own professor
  // ---------------------------------------------------------------------

  /** The scanner with its `professorId` taken from the lecture the text
      names, as the key derivation intends: the professor id stored with
      the lecture whose id is the text's first '|'-piece. An unknown
      lecture leaves no professor, so nothing is verified. */
  function ScanWithLectureProfessor(decodedText: string, db: LocalDb.DB, now: int, mac: CryptoUtils.Mac,
                                    decode: ScanText.Decoder, parseUrl: ScanText.UrlParser): (o: ScanOutcome)
    ensures var cleaned := ScanText.ScannerNormalise(decodedText, decode, parseUrl);
      var lecture := LocalDb.LectureById(db, ScannedLectureId(cleaned));
      && (lecture.None? ==> o == MissingProfessor)
      && (o.Accepted? ==>
            && lecture.Some? && lecture.value.id == ScannedLectureId(cleaned)
            && CryptoUtils.VerifySecureQRPayload(cleaned, ScanKey(cleaned, lecture.value.professorId), now, mac)
               == CryptoUtils.Verification(o.lectureId, true, None))
  {
    var cleaned := ScanText.ScannerNormalise(decodedText, decode, parseUrl);
    var lecture := LocalDb.LectureById(db, ScannedLectureId(cleaned));
    var professorId := if lecture.Some? then Some(lecture.value.professorId) else None;
    HandleScanResult(decodedText, professorId, now, mac, decode, parseUrl)
  }

  /** End to end: a fresh credential shown for a stored lecture, signed with
      that lecture's professor's key, is accepted for that lecture. */
  lemma LectureProfessorAcceptsDisplayed(db: LocalDb.DB, lecture: LocalDb.Lecture, issuedAt: int,
                                         randomValues: seq<CryptoUtils.Byte>, mac: CryptoUtils.Mac,
                                         decode: ScanText.Decoder, parseUrl: ScanText.UrlParser, now: int)
    requires |randomValues| == CryptoUtils.NonceLength
    requires LocalDb.LectureById(db, lecture.id) == Some(lecture)
    requires PlainId(lecture.id) && lecture.professorId != ""
    requires CryptoUtils.HexMac(mac)
    requires ScanText.DecodesPlainText(decode)
    requires 0 <= now - issuedAt <= CryptoUtils.MaxAgeMs
    ensures ScanWithLectureProfessor(Displayed(lecture.id, lecture.professorId, issuedAt, randomValues, mac),
                                     db, now, mac, decode, parseUrl)
            == Accepted(lecture.id)
  {
    DisplayedNormalises(lecture.id, lecture.professorId, issuedAt, randomValues, mac, decode, parseUrl);
    DisplayedLectureId(lecture.id, lecture.professorId, issuedAt, randomValues, mac);
    ScannerAcceptsDisplayed(lecture.id, lecture.professorId, issuedAt, randomValues, mac, decode, parseUrl, now);
  }
}
