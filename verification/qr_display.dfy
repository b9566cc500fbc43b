/** The rotating plain code of `src/components/QRCodeDisplay.tsx`: the text
    drawn at each refresh (`generate`) and the seconds countdown beside it.
    The clock is the parameter `now`; timers and rendering are not
    modelled. */
module QrDisplay {
  import opened Common
  import opened Decimal
  import Qr
  import Security

  const DefaultRefreshIntervalMs := 5000

  /** The text `generate` encodes at clock `now`:
      `${baseData}|${Math.floor(now / refreshIntervalMs)}`. */
  function DisplayPayload(baseData: string, now: int, refreshIntervalMs: int): (payload: string)
    requires refreshIntervalMs > 0
    ensures '|' !in baseData ==>
      var parts := Split(payload, '|');
      && parts[0] == baseData
      && |parts| == 2
      && ParseIntDecimal(parts[1]) == Some(Qr.GetWindowCounter(now, refreshIntervalMs))
  {
    var payload := Qr.WindowMessage(baseData, Qr.GetWindowCounter(now, refreshIntervalMs));
    if '|' !in baseData then
      Qr.WindowMessageDecodes(baseData, Qr.GetWindowCounter(now, refreshIntervalMs));
      payload
    else payload
  }

  /** Two instants show the same text exactly when they fall in the same
      refresh window. */
  lemma PayloadChangesExactlyAcrossWindows(baseData: string, now1: int, now2: int, refreshIntervalMs: int)
    requires refreshIntervalMs > 0
    ensures DisplayPayload(baseData, now1, refreshIntervalMs) == DisplayPayload(baseData, now2, refreshIntervalMs)
            <==> Qr.GetWindowCounter(now1, refreshIntervalMs) == Qr.GetWindowCounter(now2, refreshIntervalMs)
  {
    var w1 := Qr.GetWindowCounter(now1, refreshIntervalMs);
    var w2 := Qr.GetWindowCounter(now2, refreshIntervalMs);
    var p1 := DisplayPayload(baseData, now1, refreshIntervalMs);
    var p2 := DisplayPayload(baseData, now2, refreshIntervalMs);
    if p1 == p2 {
      var n := |baseData| + 1;
      assert p1[n..] == IntToString(w1);
      assert p2[n..] == IntToString(w2);
      IntToStringInjective(w1, w2);
    }
  }

  /** Every instant of one window [w * I, (w + 1) * I) shows the same text. */
  lemma PayloadConstantWithinWindow(baseData: string, w: int, now: int, refreshIntervalMs: int)
    requires refreshIntervalMs > 0
    requires w * refreshIntervalMs <= now < (w + 1) * refreshIntervalMs
    ensures DisplayPayload(baseData, now, refreshIntervalMs) == DisplayPayload(baseData, w * refreshIntervalMs, refreshIntervalMs)
  {
    Qr.WindowCounterUnique(now, refreshIntervalMs, w);
    Qr.WindowCounterUnique(w * refreshIntervalMs, refreshIntervalMs, w);
  }

  /** With the default interval and a '|'-free lecture id as base, the
      displayed text passes the prefix and window checks of
      `validateQRCode` at the instant it is shown, and then passes as a
      whole exactly when the lecture is open at the second clock read. */
  lemma DisplayedPayloadValidates(lectureId: string, now: int, lectureNow: int,
                                  lecture: Option<Security.LectureWindow>)
    requires '|' !in lectureId
    ensures var payload := DisplayPayload(lectureId, now, DefaultRefreshIntervalMs);
      && StartsWith(payload, lectureId + "|")
      && Security.QrWindowOf(payload) == Some(now / Security.QrCheckWindowMs)
      && (Security.ValidateQRCode(payload, lectureId, now, lectureNow, lecture)
          <==> Security.LectureOpen(lecture, lectureNow))
  {
    var w := Qr.GetWindowCounter(now, DefaultRefreshIntervalMs);
    var payload := DisplayPayload(lectureId, now, DefaultRefreshIntervalMs);
    assert payload == lectureId + "|" + IntToString(w);
    assert payload[..|lectureId| + 1] == lectureId + "|";
    Qr.WindowMessageDecodes(lectureId, w);
    AutoRoundTrip(w);
  }

  /** A text shown at `shownAt` still passes the window check at `checkedAt`
      exactly when the two instants are at most one 5-second window apart. */
  lemma DisplayedPayloadWindowTolerance(lectureId: string, shownAt: int, checkedAt: int, lectureNow: int,
                                        lecture: Option<Security.LectureWindow>)
    requires '|' !in lectureId
    ensures Security.ValidateQRCode(DisplayPayload(lectureId, shownAt, DefaultRefreshIntervalMs), lectureId,
                                    checkedAt, lectureNow, lecture)
            <==> Security.Abs(checkedAt / 5000 - shownAt / 5000) <= 1 && Security.LectureOpen(lecture, lectureNow)
  {
    DisplayedPayloadValidates(lectureId, shownAt, lectureNow, lecture);
  }

  // ---------------------------------------------------------------------
  // countdown
  // ---------------------------------------------------------------------

  /** `Math.ceil(refreshIntervalMs / 1000)`: the countdown's starting value. */
  function CountdownStart(refreshIntervalMs: int): (t: int)
    requires refreshIntervalMs > 0
    ensures t >= 1
    ensures (t - 1) * 1000 < refreshIntervalMs <= t * 1000
  {
    (refreshIntervalMs + 999) / 1000
  }

  /** One tick of the one-second countdown:
      `t <= 1 ? Math.ceil(refreshIntervalMs / 1000) : t - 1`. */
  function CountdownTick(t: int, refreshIntervalMs: int): (next: int)
    requires refreshIntervalMs > 0
    ensures 1 <= t <= CountdownStart(refreshIntervalMs) ==> 1 <= next <= CountdownStart(refreshIntervalMs)
    ensures next < t || t <= 1
  {
    if t <= 1 then CountdownStart(refreshIntervalMs) else t - 1
  }

  /** The countdown after n ticks. */
  function CountdownAfter(t: int, n: nat, refreshIntervalMs: int): int
    requires refreshIntervalMs > 0
    decreases n
  {
    if n == 0 then t else CountdownAfter(CountdownTick(t, refreshIntervalMs), n - 1, refreshIntervalMs)
  }

  /** From its start the countdown steps down by one each second to 1 and
      then wraps back to the start: it is periodic with period equal to the
      start value, and stays in [1, start]. */
  lemma {:induction false} CountdownCycles(refreshIntervalMs: int, t: int, k: nat)
    requires refreshIntervalMs > 0
    requires 1 <= t <= CountdownStart(refreshIntervalMs)
    requires k <= t
    ensures k < t ==> CountdownAfter(t, k, refreshIntervalMs) == t - k
    ensures k == t ==> CountdownAfter(t, k, refreshIntervalMs) == CountdownStart(refreshIntervalMs)
    decreases k
  {
    if k > 0 {
      if t > 1 {
        CountdownCycles(refreshIntervalMs, t - 1, k - 1);
      } else {
        assert CountdownAfter(CountdownStart(refreshIntervalMs), 0, refreshIntervalMs)
               == CountdownStart(refreshIntervalMs);
      }
    }
  }
}
