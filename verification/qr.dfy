/** The window-counter signer of `src/lib/qr.ts`: the configured secret, the
    window index `floor(now / interval)` and an HMAC over `base|window`
    compared by plain string equality. */
module Qr {
  import opened Common
  import opened Decimal
  import CryptoUtils

  /** `getQrSecret()` given the configured `VITE_QR_SECRET` (absent = None). */
  function GetQrSecret(configured: Option<string>): (secret: Option<string>)
    ensures secret.None? <==> configured.None? || configured.value == ""
    ensures secret.Some? ==> secret == configured
  {
    match configured
    case Some(raw) => if |raw| > 0 then Some(raw) else None
    case None => None
  }

  /** `getWindowCounter(intervalMs)` at clock `now`: the index of the
      interval that contains `now`. */
  function GetWindowCounter(now: int, intervalMs: int): (w: int)
    requires intervalMs > 0
    ensures w * intervalMs <= now < (w + 1) * intervalMs
  {
    now / intervalMs
  }

  lemma MulStrictMonotone(a: int, b: int, m: int)
    requires m > 0 && a * m < b * m
    ensures a < b
  {
  }

  /** The window index only ever moves forward as the clock does. */
  lemma WindowCounterMonotone(now1: int, now2: int, intervalMs: int)
    requires intervalMs > 0 && now1 <= now2
    ensures GetWindowCounter(now1, intervalMs) <= GetWindowCounter(now2, intervalMs)
  {
    var w1 := GetWindowCounter(now1, intervalMs);
    var w2 := GetWindowCounter(now2, intervalMs);
    MulStrictMonotone(w1, w2 + 1, intervalMs);
  }

  /** The window index is the only w with w * interval <= now < (w+1) * interval. */
  lemma WindowCounterUnique(now: int, intervalMs: int, w: int)
    requires intervalMs > 0
    requires w * intervalMs <= now < (w + 1) * intervalMs
    ensures GetWindowCounter(now, intervalMs) == w
  {
    var v := GetWindowCounter(now, intervalMs);
    MulStrictMonotone(v, w + 1, intervalMs);
    MulStrictMonotone(w, v + 1, intervalMs);
  }

  /** The signed message `${base}|${windowCounter}`. */
  function WindowMessage(base: string, windowCounter: int): string {
    base + "|" + IntToString(windowCounter)
  }

  /** `signPayload(base, windowCounter, secret)`. */
  function SignPayload(base: string, windowCounter: int, secret: string, mac: CryptoUtils.Mac): string {
    mac(secret, WindowMessage(base, windowCounter))
  }

  /** `verifyPayload(base, windowCounter, signature, secret)`. */
  function VerifyPayload(base: string, windowCounter: int, signature: string, secret: string,
                         mac: CryptoUtils.Mac): bool {
    SignPayload(base, windowCounter, secret, mac) == signature
  }

  /** The signed message reads back as its base and its window: split on
      '|' it is `[base, decimal(window)]`, and the second piece parses to
      the window. */
  lemma WindowMessageDecodes(base: string, windowCounter: int)
    requires '|' !in base
    ensures var parts := Split(WindowMessage(base, windowCounter), '|');
      && parts == [base, IntToString(windowCounter)]
      && ParseIntDecimal(parts[1]) == Some(windowCounter)
  {
    Split2(base, IntToString(windowCounter), '|');
    DecimalRoundTrip(windowCounter);
  }

  /** Distinct (base, window) pairs are signed as distinct messages. */
  lemma WindowMessageInjective(b1: string, w1: int, b2: string, w2: int)
    requires '|' !in b1 && '|' !in b2
    requires (b1, w1) != (b2, w2)
    ensures WindowMessage(b1, w1) != WindowMessage(b2, w2)
  {
    WindowMessageDecodes(b1, w1);
    WindowMessageDecodes(b2, w2);
  }

  /** A signature produced by `signPayload` verifies. */
  lemma VerifyAcceptsOwnSignature(base: string, windowCounter: int, secret: string, mac: CryptoUtils.Mac)
    ensures VerifyPayload(base, windowCounter, SignPayload(base, windowCounter, secret, mac), secret, mac)
  {
  }

  /** When no other message shares the signed message's MAC under this
      secret, a signature for one window is rejected for every other window:
      `verifyPayload` is true exactly for the window that was signed. */
  lemma VerifyRejectsOtherWindows(base: string, signed: int, checked: int, secret: string,
                                  mac: CryptoUtils.Mac)
    requires '|' !in base
    requires forall m :: m != WindowMessage(base, signed) ==> mac(secret, m) != mac(secret, WindowMessage(base, signed))
    ensures VerifyPayload(base, checked, SignPayload(base, signed, secret, mac), secret, mac)
            <==> checked == signed
  {
    if checked != signed {
      WindowMessageInjective(base, checked, base, signed);
    }
  }
}
