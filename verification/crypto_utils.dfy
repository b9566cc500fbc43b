/** The signed rotating credential of `src/lib/cryptoUtils.ts`: a payload
    `lectureId|timestamp|nonce:signature` whose signature is HMAC-SHA256
    (section 2 of RFC 2104 over the SHA-256 of FIPS 180-4 section 6.2)
    rendered as lower-case hex, checked by re-signing and by a 15-second
    freshness window.

    The MAC is a parameter `mac(key, message)`: any deterministic function.
    The clock (`Date.now()`) and the random bytes (`crypto.getRandomValues`)
    are parameters too. */
module CryptoUtils {
  import opened Common
  import opened Decimal

  type Byte = b: int | 0 <= b < 256

  /** (key, message) -> signature. */
  type Mac = (string, string) -> string

  predicate IsLowerHex(c: char) { '0' <= c <= '9' || 'a' <= c <= 'f' }

  /** What `hmacSha256` returns: 32 bytes as 64 lower-case hex digits. */
  predicate IsHexDigest(s: string) {
    |s| == 64 && forall k :: 0 <= k < |s| ==> IsLowerHex(s[k])
  }

  /** A MAC whose every output is a hex digest, as HMAC-SHA256 is. */
  ghost predicate HexMac(mac: Mac) {
    forall key, msg :: IsHexDigest(mac(key, msg))
  }

  // ---------------------------------------------------------------------
  // generateSecureRandom
  // ---------------------------------------------------------------------

  const Upper: string := "ABCDEFGHIJKLMNOPQRSTUVWXYZ"
  const Lower: string := "abcdefghijklmnopqrstuvwxyz"
  const Digits: string := "0123456789"
  /** The 62-character alphabet of `generateSecureRandom`. */
  const Alphabet: string := Upper + Lower + Digits

  predicate IsAlphanumeric(c: char) {
    'A' <= c <= 'Z' || 'a' <= c <= 'z' || '0' <= c <= '9'
  }

  function AlphabetChar(k: nat): char
    requires k < 62
  {
    if k < 26 then ('A' as int + k) as char
    else if k < 52 then ('a' as int + (k - 26)) as char
    else ('0' as int + (k - 52)) as char
  }

  lemma AlphabetLayout()
    ensures |Alphabet| == 62
    ensures forall k :: 0 <= k < 62 ==> Alphabet[k] == AlphabetChar(k)
  {
    forall k | 0 <= k < 26 ensures Upper[k] == AlphabetChar(k) {
      assert k == 0 || k == 1 || k == 2 || k == 3 || k == 4 || k == 5 || k == 6 || k == 7 || k == 8 || k == 9
        || k == 10 || k == 11 || k == 12 || k == 13 || k == 14 || k == 15 || k == 16 || k == 17 || k == 18
        || k == 19 || k == 20 || k == 21 || k == 22 || k == 23 || k == 24 || k == 25;
    }
    forall k | 0 <= k < 26 ensures Lower[k] == AlphabetChar(k + 26) {
      assert k == 0 || k == 1 || k == 2 || k == 3 || k == 4 || k == 5 || k == 6 || k == 7 || k == 8 || k == 9
        || k == 10 || k == 11 || k == 12 || k == 13 || k == 14 || k == 15 || k == 16 || k == 17 || k == 18
        || k == 19 || k == 20 || k == 21 || k == 22 || k == 23 || k == 24 || k == 25;
    }
    forall k | 0 <= k < 10 ensures Digits[k] == AlphabetChar(k + 52) {
      assert k == 0 || k == 1 || k == 2 || k == 3 || k == 4 || k == 5 || k == 6 || k == 7 || k == 8 || k == 9;
    }
  }

  /** `generateSecureRandom(length)` given the `length` random bytes it draws:
      each byte picks the alphabet character at its value modulo 62. */
  function GenerateSecureRandom(length: nat, randomValues: seq<Byte>): (r: string)
    requires |randomValues| == length
    ensures |r| == length
    ensures forall k :: 0 <= k < |r| ==> IsAlphanumeric(r[k])
  {
    AlphabetLayout();
    seq(length, k requires 0 <= k < length => Alphabet[randomValues[k] % 62])
  }

  /** Position of an alphanumeric character in the alphabet. */
  function AlphabetIndex(c: char): (k: nat)
    requires IsAlphanumeric(c)
    ensures k < 62 && AlphabetChar(k) == c
  {
    if 'A' <= c <= 'Z' then c as int - 'A' as int
    else if 'a' <= c <= 'z' then c as int - 'a' as int + 26
    else c as int - '0' as int + 52
  }

  /** Every alphanumeric string of the requested length is a possible
      output: the generator covers the whole alphabet. */
  lemma EveryAlphanumericStringReachable(t: string)
    requires forall k :: 0 <= k < |t| ==> IsAlphanumeric(t[k])
    ensures exists rv: seq<Byte> :: |rv| == |t| && GenerateSecureRandom(|t|, rv) == t
  {
    AlphabetLayout();
    var rv: seq<Byte> := seq(|t|, k requires 0 <= k < |t| => AlphabetIndex(t[k]) as Byte);
    var g := GenerateSecureRandom(|t|, rv);
    forall k | 0 <= k < |t| ensures g[k] == t[k] {
      var i := AlphabetIndex(t[k]);
      assert rv[k] == i && i % 62 == i;
      assert g[k] == Alphabet[i] == AlphabetChar(i);
    }
    assert g == t;
  }

  // ---------------------------------------------------------------------
  // createSecureQRPayload
  // ---------------------------------------------------------------------

  const NonceLength := 8
  /** Largest accepted age of a credential, in milliseconds. */
  const MaxAgeMs := 15000

  /** The signed part `lectureId|timestamp|nonce`. */
  function SignedPart(lectureId: string, timestamp: int, nonce: string): string {
    lectureId + "|" + IntToString(timestamp) + "|" + nonce
  }

  /** `createSecureQRPayload(lectureId, secretKey)` at clock `now` with the
      eight random bytes of the nonce. */
  function CreateSecureQRPayload(lectureId: string, secretKey: string, now: int,
                                 randomValues: seq<Byte>, mac: Mac): string
    requires |randomValues| == NonceLength
  {
    var nonce := GenerateSecureRandom(NonceLength, randomValues);
    var payload := SignedPart(lectureId, now, nonce);
    payload + ":" + mac(secretKey, payload)
  }

  // ---------------------------------------------------------------------
  // verifySecureQRPayload
  // ---------------------------------------------------------------------

  datatype Reason = InvalidFormat | InvalidSignature | MalformedPayload | Expired {
    /** The `reason` string the source reports. */
    function Message(): string {
      match this
      case InvalidFormat => "Invalid format"
      case InvalidSignature => "Invalid signature"
      case MalformedPayload => "Malformed payload"
      case Expired => "Expired"
    }
  }

  /** `{ lectureId, valid, reason? }`. */
  datatype Verification = Verification(lectureId: string, valid: bool, reason: Option<Reason>)

  function Reject(reason: Reason): Verification {
    Verification("", false, Some(reason))
  }

  /** `const [payload, signature] = s.split(':')`: only the first two pieces
      are kept. */
  function PayloadPart(s: string): string { Split(s, ':')[0] }
  function SignaturePart(s: string): Option<string> { At(Split(s, ':'), 1) }

  /** Both pieces are present and non-empty. */
  predicate WellFormed(s: string) {
    PayloadPart(s) != "" && SignaturePart(s).Some? && SignaturePart(s).value != ""
  }

  /** The signature piece is the MAC of the payload piece under `key`. */
  predicate SignedWith(s: string, key: string, mac: Mac) {
    SignaturePart(s) == Some(mac(key, PayloadPart(s)))
  }

  /** The first two '|'-pieces of the payload: lecture id and timestamp. */
  function ClaimedLecture(s: string): string { Split(PayloadPart(s), '|')[0] }
  function ClaimedTime(s: string): Option<int> { ParseIntDecimalAt(Split(PayloadPart(s), '|'), 1) }

  /** A non-empty lecture id and a timestamp that parses. */
  predicate FieldsParse(s: string) { ClaimedLecture(s) != "" && ClaimedTime(s).Some? }

  /** The timestamp lies at most 15000 ms before `now`, and not after it. */
  predicate Fresh(s: string, now: int)
    requires ClaimedTime(s).Some?
  {
    0 <= now - ClaimedTime(s).value <= MaxAgeMs
  }

  /** `verifySecureQRPayload(s, secretKey)` at clock `now`. The checks run in
      order and the first one that fails names the reason. */
  function VerifySecureQRPayload(s: string, secretKey: string, now: int, mac: Mac): (r: Verification)
    ensures r.reason == Some(InvalidFormat) <==> !WellFormed(s)
    ensures r.reason == Some(InvalidSignature) <==> WellFormed(s) && !SignedWith(s, secretKey, mac)
    ensures r.reason == Some(MalformedPayload) <==>
      WellFormed(s) && SignedWith(s, secretKey, mac) && !FieldsParse(s)
    ensures r.reason == Some(Expired) <==>
      WellFormed(s) && SignedWith(s, secretKey, mac) && FieldsParse(s) && !Fresh(s, now)
    ensures r.valid <==> WellFormed(s) && SignedWith(s, secretKey, mac) && FieldsParse(s) && Fresh(s, now)
    ensures r.valid <==> r.reason.None?
    ensures !r.valid ==> r.lectureId == ""
    ensures r.valid ==> r.lectureId != "" && '|' !in r.lectureId && ':' !in r.lectureId
    ensures r.valid ==> SignaturePart(s) == Some(mac(secretKey, PayloadPart(s)))
    ensures r.valid ==> r.lectureId == Split(PayloadPart(s), '|')[0]
    ensures r.valid ==>
      var ts := ParseIntDecimalAt(Split(PayloadPart(s), '|'), 1);
      ts.Some? && 0 <= now - ts.value <= MaxAgeMs
  {
    var payload := PayloadPart(s);
    var signature := SignaturePart(s);
    if payload == "" || signature.None? || signature.value == "" then Reject(InvalidFormat)
    else if signature.value != mac(secretKey, payload) then Reject(InvalidSignature)
    else
      var fields := Split(payload, '|');
      var lectureId := fields[0];
      var timestamp := ParseIntDecimalAt(fields, 1);
      if lectureId == "" || timestamp.None? then Reject(MalformedPayload)
      else
        var age := now - timestamp.value;
        if age < 0 || age > MaxAgeMs then Reject(Expired)
        else
          SplitKeepsAbsent(payload, '|', ':');
          Verification(lectureId, true, None)
  }

  // ---------------------------------------------------------------------
  // getLectureSecretKey
  // ---------------------------------------------------------------------

  const KeyPrefix: string := "LECTURE_SECRET_"

  /** `getLectureSecretKey(lectureId, professorId)`. */
  function GetLectureSecretKey(lectureId: string, professorId: string): (key: string)
    ensures |key| == |KeyPrefix| + |professorId| + 1 + |lectureId|
    ensures StartsWith(key, KeyPrefix + professorId + "_")
    ensures key[|key| - |lectureId|..] == lectureId
  {
    KeyPrefix + professorId + "_" + lectureId
  }

  /** For one professor, different lectures get different keys. */
  lemma SecretKeySeparatesLectures(l1: string, l2: string, professorId: string)
    requires l1 != l2
    ensures GetLectureSecretKey(l1, professorId) != GetLectureSecretKey(l2, professorId)
  {
  }

  /** For one lecture, different professors get different keys. */
  lemma SecretKeySeparatesProfessors(lectureId: string, p1: string, p2: string)
    requires p1 != p2
    ensures GetLectureSecretKey(lectureId, p1) != GetLectureSecretKey(lectureId, p2)
  {
    var k1 := GetLectureSecretKey(lectureId, p1);
    var k2 := GetLectureSecretKey(lectureId, p2);
    var n := |KeyPrefix|;
    if |p1| == |p2| {
      assert k1[n..n + |p1|] == p1;
      assert k2[n..n + |p2|] == p2;
    }
  }

  // ---------------------------------------------------------------------
  // properties of the protocol
  // ---------------------------------------------------------------------

  /** A created credential splits as `[signed part, signature]` on ':' and its
      signed part as `[lectureId, timestamp, nonce]` on '|', with an
      eight-character alphanumeric nonce and the MAC of the signed part as
      signature. */
  lemma CreatedPayloadShape(lectureId: string, secretKey: string, now: int,
                            randomValues: seq<Byte>, mac: Mac)
    requires |randomValues| == NonceLength
    requires '|' !in lectureId && ':' !in lectureId
    requires HexMac(mac)
    ensures var nonce := GenerateSecureRandom(NonceLength, randomValues);
      var signed := SignedPart(lectureId, now, nonce);
      && |nonce| == 8
      && (forall k :: 0 <= k < |nonce| ==> IsAlphanumeric(nonce[k]))
      && Split(CreateSecureQRPayload(lectureId, secretKey, now, randomValues, mac), ':')
         == [signed, mac(secretKey, signed)]
      && Split(signed, '|') == [lectureId, IntToString(now), nonce]
  {
    var nonce := GenerateSecureRandom(NonceLength, randomValues);
    var signed := SignedPart(lectureId, now, nonce);
    var sig := mac(secretKey, signed);
    var ts := IntToString(now);
    assert '|' !in ts && ':' !in ts;
    assert '|' !in nonce && ':' !in nonce;
    assert ':' !in sig by { assert IsHexDigest(sig); }
    assert signed == lectureId + ['|'] + ts + ['|'] + nonce;
    Split3(lectureId, ts, nonce, '|');
    assert ':' !in signed;
    Split2(signed, sig, ':');
  }

  /** What the verifier reads back from a created credential. */
  lemma CreatedPayloadFields(lectureId: string, secretKey: string, issuedAt: int,
                             randomValues: seq<Byte>, mac: Mac)
    requires |randomValues| == NonceLength
    requires '|' !in lectureId && ':' !in lectureId
    requires HexMac(mac)
    ensures var s := CreateSecureQRPayload(lectureId, secretKey, issuedAt, randomValues, mac);
      var signed := PayloadPart(s);
      && signed == SignedPart(lectureId, issuedAt, GenerateSecureRandom(NonceLength, randomValues))
      && SignaturePart(s) == Some(mac(secretKey, signed))
      && mac(secretKey, signed) != ""
      && Split(signed, '|')[0] == lectureId
      && ParseIntDecimalAt(Split(signed, '|'), 1) == Some(issuedAt)
  {
    CreatedPayloadShape(lectureId, secretKey, issuedAt, randomValues, mac);
    DecimalRoundTrip(issuedAt);
    var nonce := GenerateSecureRandom(NonceLength, randomValues);
    var signed := SignedPart(lectureId, issuedAt, nonce);
    assert IsHexDigest(mac(secretKey, signed));
  }

  /** Round trip: a credential created for a non-empty lecture id free of the
      two delimiters verifies, under the same key, to that lecture id
      whenever it is between 0 and 15000 ms old. */
  lemma VerifyCreatedPayload(lectureId: string, secretKey: string, issuedAt: int,
                             randomValues: seq<Byte>, mac: Mac, now: int)
    requires |randomValues| == NonceLength
    requires lectureId != "" && '|' !in lectureId && ':' !in lectureId
    requires HexMac(mac)
    requires 0 <= now - issuedAt <= MaxAgeMs
    ensures VerifySecureQRPayload(CreateSecureQRPayload(lectureId, secretKey, issuedAt, randomValues, mac),
                                  secretKey, now, mac)
            == Verification(lectureId, true, None)
  {
    CreatedPayloadFields(lectureId, secretKey, issuedAt, randomValues, mac);
  }

  /** Freshness is exactly the window [0, 15000] ms: a correctly signed,
      well-formed credential is rejected as expired iff its age is negative
      or above 15000. */
  lemma ExpiredExactlyOutsideWindow(lectureId: string, secretKey: string, issuedAt: int,
                                    randomValues: seq<Byte>, mac: Mac, now: int)
    requires |randomValues| == NonceLength
    requires lectureId != "" && '|' !in lectureId && ':' !in lectureId
    requires HexMac(mac)
    ensures var r := VerifySecureQRPayload(
              CreateSecureQRPayload(lectureId, secretKey, issuedAt, randomValues, mac), secretKey, now, mac);
      && (r.reason == Some(Expired) <==> now - issuedAt < 0 || now - issuedAt > MaxAgeMs)
      && (r.valid <==> 0 <= now - issuedAt <= MaxAgeMs)
  {
    CreatedPayloadFields(lectureId, secretKey, issuedAt, randomValues, mac);
  }

  /** A credential without a non-empty payload and signature is rejected as
      "Invalid format" whatever the MAC: the MAC is never consulted. */
  lemma FormatCheckedBeforeMac(s: string, secretKey: string, now: int, mac1: Mac, mac2: Mac)
    requires PayloadPart(s) == "" || SignaturePart(s).None? || SignaturePart(s) == Some("")
    ensures VerifySecureQRPayload(s, secretKey, now, mac1) == Reject(InvalidFormat)
    ensures VerifySecureQRPayload(s, secretKey, now, mac2) == Reject(InvalidFormat)
  {
  }

  /** A wrong signature is reported as such at every clock value: the
      signature is checked before parsing and freshness. */
  lemma WrongSignatureWhateverTime(s: string, secretKey: string, mac: Mac, now: int)
    requires PayloadPart(s) != "" && SignaturePart(s).Some? && SignaturePart(s).value != ""
    requires SignaturePart(s).value != mac(secretKey, PayloadPart(s))
    ensures VerifySecureQRPayload(s, secretKey, now, mac) == Reject(InvalidSignature)
  {
  }

  /** Anything after a second ':' is ignored by the verifier. */
  lemma TextAfterSecondColonIgnored(payload: string, signature: string, rest: string,
                                    secretKey: string, now: int, mac: Mac)
    requires ':' !in payload && ':' !in signature
    ensures VerifySecureQRPayload(payload + ":" + signature + ":" + rest, secretKey, now, mac)
         == VerifySecureQRPayload(payload + ":" + signature, secretKey, now, mac)
  {
    var s1 := payload + ":" + signature + ":" + rest;
    var s2 := payload + ":" + signature;
    assert s1 == payload + [':'] + (signature + [':'] + rest);
    SplitConcat(payload, ':', signature + [':'] + rest);
    SplitConcat(signature, ':', rest);
    Split2(payload, signature, ':');
    assert PayloadPart(s1) == payload == PayloadPart(s2);
    assert SignaturePart(s1) == Some(signature) == SignaturePart(s2);
  }

  /** A lecture id containing ':' never comes back from the round trip: a
      verified lecture id never contains ':'. */
  lemma ColonInLectureIdChangesResult(lectureId: string, secretKey: string, issuedAt: int,
                                      randomValues: seq<Byte>, mac: Mac, now: int)
    requires |randomValues| == NonceLength
    requires ':' in lectureId
    ensures VerifySecureQRPayload(CreateSecureQRPayload(lectureId, secretKey, issuedAt, randomValues, mac),
                                  secretKey, now, mac).lectureId != lectureId
  {
  }

  /** With exactly one ':' in the lecture id the credential made for it does
      not verify at all: the verifier takes the id's tail, up to the real
      signature, as the signature. */
  lemma ColonInLectureIdBreaksRoundTrip(a: string, b: string, secretKey: string, issuedAt: int,
                                        randomValues: seq<Byte>, mac: Mac, now: int)
    requires |randomValues| == NonceLength
    requires ':' !in a && ':' !in b
    requires HexMac(mac)
    ensures !VerifySecureQRPayload(CreateSecureQRPayload(a + ":" + b, secretKey, issuedAt, randomValues, mac),
                                   secretKey, now, mac).valid
  {
    var nonce := GenerateSecureRandom(NonceLength, randomValues);
    var signed := SignedPart(a + ":" + b, issuedAt, nonce);
    var sig := mac(secretKey, signed);
    var tail := b + "|" + IntToString(issuedAt) + "|" + nonce;
    assert ':' !in IntToString(issuedAt) && ':' !in nonce;
    assert ':' !in tail;
    assert ':' !in sig by { assert IsHexDigest(sig); }
    var s := signed + ":" + sig;
    assert s == a + [':'] + (tail + [':'] + sig);
    SplitConcat(a, ':', tail + [':'] + sig);
    Split2(tail, sig, ':');
    assert SignaturePart(s) == Some(tail);
    assert '|' in tail by { assert tail[|b|] == '|'; }
    assert IsHexDigest(mac(secretKey, a));
    assert '|' !in mac(secretKey, a);
  }

  /** A lecture id containing '|' does not survive the round trip either: a
      verified lecture id never contains '|'. */
  lemma BarInLectureIdChangesResult(lectureId: string, secretKey: string, issuedAt: int,
                                    randomValues: seq<Byte>, mac: Mac, now: int)
    requires |randomValues| == NonceLength
    requires '|' in lectureId
    ensures VerifySecureQRPayload(CreateSecureQRPayload(lectureId, secretKey, issuedAt, randomValues, mac),
                                  secretKey, now, mac).lectureId != lectureId
  {
  }
}
