/** The pure rules of `SecurityManager` and the validators of
    `src/lib/security.ts`: the IP allow-list, input sanitising, the plain QR
    window check, e-mail and password validation. */
module Security {
  import opened Common
  import opened Decimal

  // ---------------------------------------------------------------------
  // validateIPAddress
  // ---------------------------------------------------------------------

  /** The base address of a `base/mask` range: the first '/'-piece. */
  function CidrBase(range: string): string {
    Split(range, '/')[0]
  }

  /** One allow-list entry as the code matches it: with a '/', the address
      must start with the base cut just before its last '.' (the mask is
      never read; with no '.' at all, `slice(0, -1)` drops the base's last
      character); without one, the address must equal the entry. */
  predicate RangeMatchesAsWritten(ip: string, range: string) {
    if '/' in range then
      var base := CidrBase(range);
      StartsWith(ip, SliceTo(base, LastIndexOf(base, '.')))
    else ip == range
  }

  /** The same match keeping the final '.' of the base, so that a
      `a.b.c.0/24` entry admits exactly the addresses `a.b.c.*`. */
  predicate RangeMatches(ip: string, range: string) {
    if '/' in range then
      var base := CidrBase(range);
      var dot := LastIndexOf(base, '.');
      StartsWith(ip, if dot >= 0 then base[..dot + 1] else base)
    else ip == range
  }

  /** `ranges.some(range => matches(ip, range))`. */
  function AnyRangeMatches(ranges: seq<string>, ip: string, matches: (string, string) -> bool): (ok: bool)
    ensures ok <==> exists i :: 0 <= i < |ranges| && matches(ip, ranges[i])
    decreases |ranges|
  {
    if |ranges| == 0 then false
    else
      var rest := AnyRangeMatches(ranges[1..], ip, matches);
      assert forall i :: 1 <= i < |ranges| ==> ranges[i] == ranges[1..][i - 1];
      matches(ip, ranges[0]) || rest
  }

  /** `validateIPAddress(ip)` exactly as written. */
  function ValidateIPAddressAsWritten(allowedIPRanges: seq<string>, ip: string): (ok: bool)
    ensures |allowedIPRanges| == 0 ==> ok
    ensures |allowedIPRanges| > 0 ==>
      (ok <==> exists i :: 0 <= i < |allowedIPRanges| && RangeMatchesAsWritten(ip, allowedIPRanges[i]))
  {
    |allowedIPRanges| == 0 || AnyRangeMatches(allowedIPRanges, ip, RangeMatchesAsWritten)
  }

  /** `validateIPAddress(ip)` with the range prefix corrected. */
  function ValidateIPAddress(allowedIPRanges: seq<string>, ip: string): (ok: bool)
    ensures |allowedIPRanges| == 0 ==> ok
    ensures |allowedIPRanges| > 0 ==>
      (ok <==> exists i :: 0 <= i < |allowedIPRanges| && RangeMatches(ip, allowedIPRanges[i]))
  {
    |allowedIPRanges| == 0 || AnyRangeMatches(allowedIPRanges, ip, RangeMatches)
  }

  /** The last '.' of `prefix + "." + last` is the one before `last`. */
  lemma LastDot(prefix: string, last: string)
    requires '.' !in last
    ensures LastIndexOf(prefix + "." + last, '.') == |prefix|
  {
    var s := prefix + "." + last;
    var r := LastIndexOf(s, '.');
    assert s[|prefix|] == '.';
    assert s[|prefix| + 1..] == last;
  }

  /** A range `base/mask` reads its base whatever the mask is. */
  lemma CidrBaseOf(base: string, mask: string)
    requires '/' !in base
    ensures CidrBase(base + "/" + mask) == base
  {
    SplitConcat(base, '/', mask);
  }

  /** With a mask the code compares only against the base cut before its
      last '.', and the mask takes no part: for `prefix.last/mask` the
      entry matches exactly the addresses starting with `prefix`. */
  lemma CidrMatchIsPrefixBeforeLastDot(ip: string, prefix: string, last: string, mask: string)
    requires '/' !in prefix && '/' !in last && '.' !in last
    ensures RangeMatchesAsWritten(ip, prefix + "." + last + "/" + mask) <==> StartsWith(ip, prefix)
  {
    var base := prefix + "." + last;
    assert '/' in base + "/" + mask by { assert (base + "/" + mask)[|base|] == '/'; }
    CidrBaseOf(base, mask);
    LastDot(prefix, last);
    assert base[..|prefix|] == prefix;
  }

  /** Without a '/', an entry is a single address. */
  lemma ExactEntryIsEquality(ip: string, range: string)
    requires '/' !in range
    ensures RangeMatchesAsWritten(ip, range) <==> ip == range
    ensures RangeMatches(ip, range) <==> ip == range
  {
  }

  /** `192.168.1.0/24` admits `192.168.10.5`, an address outside the /24. */
  lemma CidrPrefixAdmitsNeighbour()
    ensures RangeMatchesAsWritten("192.168.10.5", "192.168.1.0/24")
    ensures !RangeMatches("192.168.10.5", "192.168.1.0/24")
  {
    CidrMatchIsPrefixBeforeLastDot("192.168.10.5", "192.168.1", "0", "24");
    assert "192.168.1" + "." + "0" + "/" + "24" == "192.168.1.0/24";
    assert "192.168.10.5"[..9] == "192.168.1";
    QuadMatchesFirstThreeOctets("192", "168", "10", "5", "192", "168", "1", "0", "24");
    assert Quad("192", "168", "10", "5") == "192.168.10.5";
    assert Quad("192", "168", "1", "0") + "/" + "24" == "192.168.1.0/24";
  }

  /** A dotted address `a.b.c.d`. */
  function Quad(a: string, b: string, c: string, d: string): string {
    a + "." + b + "." + c + "." + d
  }

  lemma SplitQuad(a: string, b: string, c: string, d: string)
    requires '.' !in a && '.' !in b && '.' !in c && '.' !in d
    ensures Split(Quad(a, b, c, d), '.') == [a, b, c, d]
  {
    SplitAppend(a + "." + b + "." + c, '.', d);
    Split3(a, b, c, '.');
    SplitNoSep(d, '.');
  }

  /** The corrected prefix of a dotted `/mask` entry is its first three
      octets and their dot. */
  lemma CorrectedQuadPrefix(b1: string, b2: string, b3: string, b4: string, mask: string)
    requires '.' !in b4
    requires '/' !in b1 && '/' !in b2 && '/' !in b3 && '/' !in b4
    ensures var range := Quad(b1, b2, b3, b4) + "/" + mask;
      forall ip :: RangeMatches(ip, range) <==> StartsWith(ip, b1 + "." + b2 + "." + b3 + ".")
  {
    var tri := b1 + "." + b2 + "." + b3;
    var base := Quad(b1, b2, b3, b4);
    var range := base + "/" + mask;
    assert '/' !in base;
    assert '/' in range by { assert range[|base|] == '/'; }
    CidrBaseOf(base, mask);
    LastDot(tri, b4);
    assert base[..|tri| + 1] == tri + ".";
  }

  /** A dotted address starts with `b1.b2.b3.` exactly when its first three
      octets are b1, b2, b3. */
  lemma QuadStartsWith(o1: string, o2: string, o3: string, o4: string,
                       b1: string, b2: string, b3: string)
    requires '.' !in o1 && '.' !in o2 && '.' !in o3 && '.' !in o4
    requires '.' !in b1 && '.' !in b2 && '.' !in b3
    ensures StartsWith(Quad(o1, o2, o3, o4), b1 + "." + b2 + "." + b3 + ".")
            <==> o1 == b1 && o2 == b2 && o3 == b3
  {
    var ip := Quad(o1, o2, o3, o4);
    var tri := b1 + "." + b2 + "." + b3;
    if StartsWith(ip, tri + ".") {
      var rest := ip[|tri| + 1..];
      assert ip == tri + "." + rest;
      SplitQuad(o1, o2, o3, o4);
      SplitAppend(tri, '.', rest);
      Split3(b1, b2, b3, '.');
      var ps := Split(ip, '.');
      assert ps == [b1, b2, b3] + Split(rest, '.');
      assert ps[0] == b1 && ps[1] == b2 && ps[2] == b3;
    }
    if o1 == b1 && o2 == b2 && o3 == b3 {
      assert ip == tri + "." + o4;
      assert ip[..|tri| + 1] == tri + ".";
    }
  }

  /** The corrected match of a dotted address against a dotted `/mask`
      entry holds exactly when the first three octets agree. */
  lemma QuadMatchesFirstThreeOctets(o1: string, o2: string, o3: string, o4: string,
                                    b1: string, b2: string, b3: string, b4: string, mask: string)
    requires '.' !in o1 && '.' !in o2 && '.' !in o3 && '.' !in o4
    requires '.' !in b1 && '.' !in b2 && '.' !in b3 && '.' !in b4
    requires '/' !in b1 && '/' !in b2 && '/' !in b3 && '/' !in b4
    ensures RangeMatches(Quad(o1, o2, o3, o4), Quad(b1, b2, b3, b4) + "/" + mask)
            <==> o1 == b1 && o2 == b2 && o3 == b3
  {
    CorrectedQuadPrefix(b1, b2, b3, b4, mask);
    QuadStartsWith(o1, o2, o3, o4, b1, b2, b3);
  }

  // ---------------------------------------------------------------------
  // sanitizeInput
  // ---------------------------------------------------------------------

  const MaxInputLength := 1000

  /** The characters `sanitizeInput` deletes. */
  predicate IsStripped(c: char) { c == '<' || c == '>' || c == '\'' || c == '"' }

  /** Kept by `replace(/[<>]/g, '')`. */
  predicate NotAngle(c: char) { c != '<' && c != '>' }

  /** Kept by `replace(/['"]/g, '')`. */
  predicate NotQuote(c: char) { c != '\'' && c != '"' }

  /** Kept by both deletions. */
  predicate Kept(c: char) { !IsStripped(c) }

  /** Cutting a text short keeps only characters it had. */
  lemma TakeKeepsMembers(s: string, n: nat)
    ensures forall c :: c in Take(s, n) ==> c in s
  {
    forall c | c in Take(s, n) ensures c in s {
      var k :| 0 <= k < |Take(s, n)| && Take(s, n)[k] == c;
      assert s[k] == c;
    }
  }

  /** `sanitizeInput(input)`: trimmed, angle brackets and quotes deleted,
      cut to 1000 UTF-16 code units. */
  function SanitizeInput(input: string): (r: string)
    ensures |r| <= Utf16Length(r) <= MaxInputLength
    ensures forall c :: c in r ==> !IsStripped(c) && c in input
    ensures r == Take(Filter(Trim(input), Kept), MaxInputLength)
  {
    var noTags := Filter(Trim(input), NotAngle);
    var noQuotes := Filter(noTags, NotQuote);
    FilterTwice(Trim(input), NotAngle, NotQuote, Kept);
    TakeKeepsMembers(noQuotes, MaxInputLength);
    TakeFits(noQuotes, MaxInputLength);
    Take(noQuotes, MaxInputLength)
  }

  /** Input that is already clean (no surrounding whitespace, none of the
      stripped characters, at most 1000 code units long) passes through
      unchanged. */
  lemma SanitizeKeepsCleanInput(input: string)
    requires Utf16Length(input) <= MaxInputLength
    requires |input| == 0 || (!IsJsSpace(input[0]) && !IsJsSpace(input[|input| - 1]))
    requires forall k :: 0 <= k < |input| ==> !IsStripped(input[k])
    ensures SanitizeInput(input) == input
  {
    assert Trim(input) == input;
    assert forall k :: 0 <= k < |input| ==> Kept(input[k]);
    assert Filter(input, Kept) == input;
    TakeFits(input, MaxInputLength);
  }

  /** Text made only of characters outside the Basic Multilingual Plane
      keeps at most 500 of them: each takes two of the 1000 code units. */
  lemma SanitizeCutsWideText(input: string)
    requires AllWide(input)
    ensures SanitizeInput(input) == input[..if |input| <= 500 then |input| else 500]
  {
    assert |input| == 0 || (!IsJsSpace(input[0]) && !IsJsSpace(input[|input| - 1]));
    assert Trim(input) == input;
    assert forall k :: 0 <= k < |input| ==> Kept(input[k]);
    assert Filter(input, Kept) == input;
    TakeWideText(input, 500);
    assert Take(input, MaxInputLength) == input[..|Take(input, MaxInputLength)|];
  }

  /** Deleting the stripped characters of "a <" keeps the space before the
      bracket. */
  lemma BracketDeletedFromExample()
    ensures Filter("a <", Kept) == "a "
  {
    assert "a <"[1..] == " <" && " <"[1..] == "<" && "<"[1..] == "";
    assert Filter("<", Kept) == "";
    assert Filter(" <", Kept) == " ";
  }

  /** Input without surrounding whitespace is only filtered and cut. */
  lemma SanitizeUntrimmed(input: string)
    requires |input| > 0 && !IsJsSpace(input[0]) && !IsJsSpace(input[|input| - 1])
    ensures SanitizeInput(input) == Take(Filter(input, Kept), MaxInputLength)
  {
  }

  /** Deleting the trailing bracket of "a <" leaves its space in place. */
  lemma SanitizeLeavesSpace()
    ensures SanitizeInput("a <") == "a "
  {
    var input := "a <";
    assert !IsJsSpace(input[0]) && !IsJsSpace(input[|input| - 1]);
    SanitizeUntrimmed(input);
    BracketDeletedFromExample();
    TakeWhole("a ", MaxInputLength);
  }

  /** A second pass trims that space. */
  lemma SanitizeTrimsSpace()
    ensures SanitizeInput("a ") == "a"
  {
    assert "a "[..1] == "a";
    assert TrimEnd("a ") == "a";
    assert Trim("a ") == "a";
    assert Filter("a", NotAngle) == "a";
    assert Filter("a", NotQuote) == "a";
    TakeWhole("a", MaxInputLength);
  }

  /** Trimming happens before the deletions, so deleting a character can
      expose whitespace that stays: sanitising is not idempotent. */
  lemma SanitizeNotIdempotent()
    ensures SanitizeInput("a <") == "a "
    ensures SanitizeInput(SanitizeInput("a <")) != SanitizeInput("a <")
  {
    SanitizeLeavesSpace();
    SanitizeTrimsSpace();
  }

  // ---------------------------------------------------------------------
  // validateQRCode (the part before and after the lecture lookup)
  // ---------------------------------------------------------------------

  /** The window length the plain QR check assumes. */
  const QrCheckWindowMs := 5000

  /** What the lookup of the lecture row returns; `None` when there is no
      row or the lookup fails. */
  datatype LectureWindow = LectureWindow(isActive: bool, startTime: int, endTime: int)

  function Abs(x: int): nat { if x < 0 then -x else x }

  /** `parseInt(qrData.split('|')[1])`; `None` is NaN. */
  function QrWindowOf(qrData: string): Option<int> {
    ParseIntAutoAt(Split(qrData, '|'), 1)
  }

  /** The lecture is active and `now` lies in [start, end]. */
  predicate LectureOpen(lecture: Option<LectureWindow>, now: int) {
    lecture.Some? && lecture.value.isActive && lecture.value.startTime <= now <= lecture.value.endTime
  }

  /** `validateQRCode(qrData, lectureId)` as written.  The code reads the
      clock twice: `windowNow` for the window check, and `lectureNow`, after
      the lecture lookup, for the open-lecture check.
      `Math.abs(current - NaN) > 1` is false, so a window that does not
      parse passes the window check. */
  function ValidateQRCodeAsWritten(qrData: string, lectureId: string, windowNow: int, lectureNow: int,
                                   lecture: Option<LectureWindow>): (ok: bool)
    ensures ok ==> StartsWith(qrData, lectureId + "|")
    ensures ok ==> LectureOpen(lecture, lectureNow)
    ensures ok && QrWindowOf(qrData).Some? ==>
      Abs(windowNow / QrCheckWindowMs - QrWindowOf(qrData).value) <= 1
    ensures (StartsWith(qrData, lectureId + "|") && LectureOpen(lecture, lectureNow)
             && QrWindowOf(qrData).None?) ==> ok
  {
    if !StartsWith(qrData, lectureId + "|") then false
    else
      var timeWindow := QrWindowOf(qrData);
      var currentWindow := windowNow / QrCheckWindowMs;
      if timeWindow.Some? && Abs(currentWindow - timeWindow.value) > 1 then false
      else LectureOpen(lecture, lectureNow)
  }

  /** `validateQRCode` with a window that must be a number. */
  function ValidateQRCode(qrData: string, lectureId: string, windowNow: int, lectureNow: int,
                          lecture: Option<LectureWindow>): (ok: bool)
    ensures ok ==> StartsWith(qrData, lectureId + "|")
    ensures ok ==> LectureOpen(lecture, lectureNow)
    ensures ok ==> QrWindowOf(qrData).Some?
                   && Abs(windowNow / QrCheckWindowMs - QrWindowOf(qrData).value) <= 1
    ensures ok ==> ValidateQRCodeAsWritten(qrData, lectureId, windowNow, lectureNow, lecture)
  {
    && StartsWith(qrData, lectureId + "|")
    && QrWindowOf(qrData).Some?
    && Abs(windowNow / QrCheckWindowMs - QrWindowOf(qrData).value) <= 1
    && LectureOpen(lecture, lectureNow)
  }

  /** The two versions differ only on a window that does not parse. */
  lemma ValidateQRCodeAgreesOnNumericWindows(qrData: string, lectureId: string, windowNow: int,
                                             lectureNow: int, lecture: Option<LectureWindow>)
    requires QrWindowOf(qrData).Some?
    ensures ValidateQRCode(qrData, lectureId, windowNow, lectureNow, lecture)
            == ValidateQRCodeAsWritten(qrData, lectureId, windowNow, lectureNow, lecture)
  {
  }

  /** `parseInt` of text that starts with a letter is NaN. */
  lemma LetterStartIsNaN(s: string)
    requires |s| > 0 && 'a' <= s[0] <= 'z'
    ensures ParseIntAuto(s).None?
  {
    assert TrimStart(s) == s;
  }

  /** `lectureId|later` has the lecture's prefix and a window that does not
      parse. */
  lemma LaterHasNoWindow(lectureId: string)
    requires '|' !in lectureId
    ensures QrWindowOf(lectureId + "|later").None?
    ensures StartsWith(lectureId + "|later", lectureId + "|")
  {
    assert lectureId + "|later" == lectureId + ['|'] + "later";
    Split2(lectureId, "later", '|');
    LetterStartIsNaN("later");
    assert (lectureId + "|later")[..|lectureId| + 1] == lectureId + "|";
  }

  /** `lectureId|later` passes the code's window check for an open lecture,
      although "later" names no window. */
  lemma NonNumericWindowAccepted(lectureId: string, windowNow: int, lectureNow: int, lecture: LectureWindow)
    requires '|' !in lectureId
    requires lecture.isActive && lecture.startTime <= lectureNow <= lecture.endTime
    ensures ValidateQRCodeAsWritten(lectureId + "|later", lectureId, windowNow, lectureNow, Some(lecture))
    ensures !ValidateQRCode(lectureId + "|later", lectureId, windowNow, lectureNow, Some(lecture))
  {
    LaterHasNoWindow(lectureId);
  }

  // ---------------------------------------------------------------------
  // validateEmail
  // ---------------------------------------------------------------------

  /** The regular expression `^[^\s@]+@[^\s@]+\.[^\s@]+$` as positions:
      one '@' after a non-empty local part, a '.' with at least one
      character on each side inside the domain, and no whitespace. */
  ghost predicate EmailPattern(email: string) {
    exists at, dot :: 0 < at && at + 1 < dot < |email| - 1
      && email[at] == '@' && email[dot] == '.'
      && forall k :: 0 <= k < |email| ==> !IsJsSpace(email[k]) && (email[k] == '@' ==> k == at)
  }

  /** `validateEmail(email)`, by scanning for the '@'. */
  function ValidateEmail(email: string): bool {
    var at := IndexOf(email, '@');
    && at > 0
    && '@' !in email[at + 1..]
    && (forall k | 0 <= k < |email| :: !IsJsSpace(email[k]))
    && at + 3 <= |email|
    && '.' in email[at + 2..|email| - 1]
  }

  /** The scan accepts exactly the addresses the pattern matches. */
  lemma ValidateEmailMatchesPattern(email: string)
    ensures ValidateEmail(email) <==> EmailPattern(email)
  {
    var at := IndexOf(email, '@');
    if ValidateEmail(email) {
      var seg := email[at + 2..|email| - 1];
      var j :| 0 <= j < |seg| && seg[j] == '.';
      var dot := at + 2 + j;
      assert email[dot] == '.';
      forall k | 0 <= k < |email| && email[k] == '@'
        ensures k == at
      {
      }
    }
    if EmailPattern(email) {
      var a, dot :| 0 < a && a + 1 < dot < |email| - 1
        && email[a] == '@' && email[dot] == '.'
        && forall k :: 0 <= k < |email| ==> !IsJsSpace(email[k]) && (email[k] == '@' ==> k == a);
      assert at == a;
      assert email[dot] in email[at + 2..|email| - 1];
    }
  }

  // ---------------------------------------------------------------------
  // validatePassword
  // ---------------------------------------------------------------------

  const MinPasswordLength := 8
  const SpecialChars: string := "!@#$%^&*"

  /** The five password rules, in the order the code checks them. */
  datatype PasswordRule = MinLength | Uppercase | Lowercase | Digit | Special {
    /** The error the code reports when the rule fails. */
    function Message(): string {
      match this
      case MinLength => "كلمة المرور يجب أن تكون 8 أحرف على الأقل"
      case Uppercase => "كلمة المرور يجب أن تحتوي على حرف كبير واحد على الأقل"
      case Lowercase => "كلمة المرور يجب أن تحتوي على حرف صغير واحد على الأقل"
      case Digit => "كلمة المرور يجب أن تحتوي على رقم واحد على الأقل"
      case Special => "كلمة المرور يجب أن تحتوي على رمز خاص واحد على الأقل"
    }

    function Rank(): nat {
      match this
      case MinLength => 0
      case Uppercase => 1
      case Lowercase => 2
      case Digit => 3
      case Special => 4
    }
  }

  const PasswordRules: seq<PasswordRule> := [MinLength, Uppercase, Lowercase, Digit, Special]

  /** The rule table lists every rule once, in rank order. */
  lemma RulesListed()
    ensures forall rule: PasswordRule :: rule in PasswordRules
    ensures forall i, j :: 0 <= i < j < |PasswordRules| ==> PasswordRules[i].Rank() < PasswordRules[j].Rank()
  {
    forall rule: PasswordRule ensures rule in PasswordRules {
      assert PasswordRules[rule.Rank()] == rule;
    }
  }

  predicate HasCharIn(p: string, lo: char, hi: char) {
    exists i :: 0 <= i < |p| && lo <= p[i] <= hi
  }

  /** Whether `password` satisfies one rule. */
  predicate Satisfies(password: string, rule: PasswordRule) {
    match rule
    case MinLength => Utf16Length(password) >= MinPasswordLength
    case Uppercase => HasCharIn(password, 'A', 'Z')
    case Lowercase => HasCharIn(password, 'a', 'z')
    case Digit => HasCharIn(password, '0', '9')
    case Special => exists i :: 0 <= i < |password| && password[i] in SpecialChars
  }

  datatype PasswordCheck = PasswordCheck(isValid: bool, errors: seq<PasswordRule>)

  /** The first of strictly rank-ordered rules can go in front of any
      rank-ordered selection of the others. */
  lemma RankedCons(rules: seq<PasswordRule>, rest: seq<PasswordRule>)
    requires |rules| > 0
    requires forall i, j :: 0 <= i < j < |rules| ==> rules[i].Rank() < rules[j].Rank()
    requires forall r :: r in rest ==> r in rules[1..]
    requires forall i, j :: 0 <= i < j < |rest| ==> rest[i].Rank() < rest[j].Rank()
    ensures forall i, j :: 0 <= i < j < |[rules[0]] + rest| ==>
      ([rules[0]] + rest)[i].Rank() < ([rules[0]] + rest)[j].Rank()
  {
    var out := [rules[0]] + rest;
    forall i, j | 0 <= i < j < |out| ensures out[i].Rank() < out[j].Rank() {
      assert out[j] == rest[j - 1] && rest[j - 1] in rules[1..];
      var m :| 0 <= m < |rules[1..]| && rules[1..][m] == out[j];
      assert rules[m + 1] == out[j];
      if i > 0 {
        assert out[i] == rest[i - 1];
      }
    }
  }

  /** The rules in `rules` that fail `holds` (for a password, the rules it
      does not satisfy), in order. */
  function FailedRules(rules: seq<PasswordRule>, holds: PasswordRule -> bool): (failed: seq<PasswordRule>)
    requires forall i, j :: 0 <= i < j < |rules| ==> rules[i].Rank() < rules[j].Rank()
    ensures forall r :: r in failed <==> r in rules && !holds(r)
    ensures forall i, j :: 0 <= i < j < |failed| ==> failed[i].Rank() < failed[j].Rank()
    decreases |rules|
  {
    if |rules| == 0 then []
    else
      var rest := FailedRules(rules[1..], holds);
      assert forall r :: r in rules <==> r == rules[0] || r in rules[1..];
      if holds(rules[0]) then rest
      else
        RankedCons(rules, rest);
        [rules[0]] + rest
  }

  /** No rule fails exactly when all five rules hold. */
  lemma NoFailedRules(password: string, errors: seq<PasswordRule>)
    requires forall rule :: rule in errors <==> !Satisfies(password, rule)
    ensures |errors| == 0 <==>
      (Satisfies(password, MinLength) && Satisfies(password, Uppercase) && Satisfies(password, Lowercase)
       && Satisfies(password, Digit) && Satisfies(password, Special))
  {
    if |errors| > 0 {
      assert errors[0] in errors;
    } else {
      assert MinLength !in errors && Uppercase !in errors && Lowercase !in errors;
      assert Digit !in errors && Special !in errors;
    }
  }

  /** `validatePassword(password)`. */
  function ValidatePassword(password: string): (r: PasswordCheck)
    ensures r.isValid <==> |r.errors| == 0
    ensures r.isValid <==>
      && Utf16Length(password) >= MinPasswordLength
      && HasCharIn(password, 'A', 'Z')
      && HasCharIn(password, 'a', 'z')
      && HasCharIn(password, '0', '9')
      && (exists i :: 0 <= i < |password| && password[i] in SpecialChars)
    ensures forall rule :: rule in r.errors <==> !Satisfies(password, rule)
    ensures forall i, j :: 0 <= i < j < |r.errors| ==> r.errors[i].Rank() < r.errors[j].Rank()
  {
    RulesListed();
    var holds := rule => Satisfies(password, rule);
    var errors := FailedRules(PasswordRules, holds);
    assert forall rule :: rule in errors <==> !Satisfies(password, rule) by {
      forall rule ensures rule in errors <==> !Satisfies(password, rule) {
        assert rule in PasswordRules && holds(rule) == Satisfies(password, rule);
      }
    }
    NoFailedRules(password, errors);
    PasswordCheck(|errors| == 0, errors)
  }

  /** Length counts UTF-16 code units: two characters outside the Basic
      Multilingual Plane make a six-character password eight units long. */
  lemma WidePasswordAccepted()
    ensures ValidatePassword("Aa1!\U{1F600}\U{1F600}").isValid
  {
    var p := "Aa1!\U{1F600}\U{1F600}";
    assert Utf16Length(p[4..]) == 4;
    assert Utf16Length(p) == 8;
    assert 'A' <= p[0] <= 'Z' && 'a' <= p[1] <= 'z' && '0' <= p[2] <= '9' && p[3] in SpecialChars;
  }
}
