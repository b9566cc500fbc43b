/** Shared vocabulary: the optional value, JavaScript string operations that
    the application relies on (split, join, trim, startsWith, slice,
    lastIndexOf) and character filters.  A `string` is a sequence of Unicode
    characters; where JavaScript counts length in UTF-16 code units, the
    model counts with `Utf16Length`. */
module Common {

  /** A value that may be absent (JavaScript `null` / `undefined`). */
  datatype Option<T> = None | Some(value: T) {
    function GetOr(default: T): T {
      match this
      case Some(v) => v
      case None => default
    }
  }

  /** A JavaScript call that either returns a value or throws. */
  datatype Fallible<T> = Returned(value: T) | Threw

  // ---------------------------------------------------------------------
  // split / join on a one-character separator
  // ---------------------------------------------------------------------

  /** `s.split(sep)` for a one-character separator: the maximal separator-free
      pieces, always at least one. */
  function Split(s: string, sep: char): (parts: seq<string>)
    ensures |parts| >= 1
    ensures forall i :: 0 <= i < |parts| ==> sep !in parts[i]
    decreases |s|
  {
    if |s| == 0 then [""]
    else if s[0] == sep then [""] + Split(s[1..], sep)
    else
      var rest := Split(s[1..], sep);
      [[s[0]] + rest[0]] + rest[1..]
  }

  /** Splitting introduces no character that was not in the input. */
  lemma {:induction false} SplitKeepsAbsent(s: string, sep: char, c: char)
    requires c !in s
    ensures forall i :: 0 <= i < |Split(s, sep)| ==> c !in Split(s, sep)[i]
    decreases |s|
  {
    if |s| > 0 {
      assert c !in s[1..];
      SplitKeepsAbsent(s[1..], sep, c);
    }
  }

  /** `parts.join(sep)`. */
  function Join(parts: seq<string>, sep: char): string
    decreases |parts|
  {
    if |parts| == 0 then ""
    else if |parts| == 1 then parts[0]
    else parts[0] + [sep] + Join(parts[1..], sep)
  }

  /** The element at an index, or JavaScript's `undefined` past the end. */
  function At(parts: seq<string>, i: nat): Option<string> {
    if i < |parts| then Some(parts[i]) else None
  }

  /** Splitting a separator-free string gives it back whole. */
  lemma {:induction false} SplitNoSep(s: string, sep: char)
    requires sep !in s
    ensures Split(s, sep) == [s]
    decreases |s|
  {
    if |s| > 0 {
      assert sep !in s[1..];
      SplitNoSep(s[1..], sep);
      assert [s[0]] + s[1..] == s;
    }
  }

  /** A string holding the separator splits into at least two pieces. */
  lemma {:induction false} SplitHasMany(s: string, sep: char)
    requires sep in s
    ensures |Split(s, sep)| >= 2
    decreases |s|
  {
    if s[0] != sep {
      assert sep in s[1..];
      SplitHasMany(s[1..], sep);
    }
  }

  /** `s.split(sep)` has more than one piece exactly when the separator
      occurs in `s`. */
  lemma SplitCountsSeparator(s: string, sep: char)
    ensures sep in s <==> |Split(s, sep)| >= 2
  {
    if sep in s {
      SplitHasMany(s, sep);
    } else {
      SplitNoSep(s, sep);
    }
  }

  /** The first piece of `a + sep + b` is `a` and the remaining pieces are
      those of `b`. */
  lemma {:induction false} SplitConcat(a: string, sep: char, b: string)
    requires sep !in a
    ensures Split(a + [sep] + b, sep) == [a] + Split(b, sep)
    decreases |a|
  {
    if |a| == 0 {
      assert a + [sep] + b == [sep] + b;
      assert ([sep] + b)[1..] == b;
    } else {
      var s := a + [sep] + b;
      assert s[0] == a[0];
      assert s[1..] == a[1..] + [sep] + b;
      assert sep !in a[1..];
      SplitConcat(a[1..], sep, b);
      assert [a[0]] + a[1..] == a;
    }
  }

  /** `Split` undoes `Join`: joining separator-free pieces and splitting
      again gives the pieces back. */
  lemma {:induction false} SplitJoin(parts: seq<string>, sep: char)
    requires |parts| >= 1
    requires forall i :: 0 <= i < |parts| ==> sep !in parts[i]
    ensures Split(Join(parts, sep), sep) == parts
    decreases |parts|
  {
    if |parts| == 1 {
      SplitNoSep(parts[0], sep);
    } else {
      SplitJoin(parts[1..], sep);
      SplitConcat(parts[0], sep, Join(parts[1..], sep));
      assert [parts[0]] + parts[1..] == parts;
    }
  }

  /** `Join` undoes `Split`. */
  lemma {:induction false} JoinSplit(s: string, sep: char)
    ensures Join(Split(s, sep), sep) == s
    decreases |s|
  {
    if |s| > 0 {
      JoinSplit(s[1..], sep);
      var rest := Split(s[1..], sep);
      if s[0] == sep {
        assert Split(s, sep) == [""] + rest;
        assert ([""] + rest)[1..] == rest;
        assert "" + [sep] + s[1..] == s;
      } else {
        if |rest| == 1 {
          assert [s[0]] + rest[0] == s;
        } else {
          var ps := [[s[0]] + rest[0]] + rest[1..];
          assert ps[1..] == rest[1..];
          assert Join(rest, sep) == rest[0] + [sep] + Join(rest[1..], sep);
          assert [s[0]] + s[1..] == s;
        }
      }
    }
  }

  /** Joining three separator-free pieces with a separator and splitting
      gives the pieces back; the shape of every credential string. */
  lemma Split3(a: string, b: string, c: string, sep: char)
    requires sep !in a && sep !in b && sep !in c
    ensures Split(a + [sep] + b + [sep] + c, sep) == [a, b, c]
  {
    var bc := b + [sep] + c;
    SplitNoSep(c, sep);
    SplitConcat(b, sep, c);
    assert Split(bc, sep) == [b, c];
    SplitConcat(a, sep, bc);
    assert a + [sep] + b + [sep] + c == a + [sep] + bc;
  }

  /** Two pieces. */
  lemma Split2(a: string, b: string, sep: char)
    requires sep !in a && sep !in b
    ensures Split(a + [sep] + b, sep) == [a, b]
  {
    SplitNoSep(b, sep);
    SplitConcat(a, sep, b);
  }

  /** Splitting at one separator occurrence splits each side independently. */
  lemma {:induction false} SplitAppend(a: string, sep: char, b: string)
    ensures Split(a + [sep] + b, sep) == Split(a, sep) + Split(b, sep)
    decreases |a|
  {
    if |a| == 0 {
      assert a + [sep] + b == [sep] + b;
      assert ([sep] + b)[1..] == b;
    } else {
      var s := a + [sep] + b;
      assert s[0] == a[0];
      assert s[1..] == a[1..] + [sep] + b;
      SplitAppend(a[1..], sep, b);
    }
  }

  // ---------------------------------------------------------------------
  // prefixes, searching, slicing
  // ---------------------------------------------------------------------

  /** `s.indexOf(c)`: the first position of `c`, or -1. */
  function IndexOf(s: string, c: char): (r: int)
    ensures -1 <= r < |s|
    ensures r >= 0 ==> s[r] == c && c !in s[..r]
    ensures r == -1 <==> c !in s
    decreases |s|
  {
    if |s| == 0 then -1
    else if s[0] == c then 0
    else
      var r := IndexOf(s[1..], c);
      assert [s[0]] + s[1..] == s;
      if r < 0 then -1 else r + 1
  }

  /** `s.startsWith(prefix)`. */
  predicate StartsWith(s: string, prefix: string) {
    |prefix| <= |s| && s[..|prefix|] == prefix
  }

  /** `s.lastIndexOf(c)`: the last position of `c`, or -1. */
  function LastIndexOf(s: string, c: char): (r: int)
    ensures -1 <= r < |s|
    ensures r >= 0 ==> s[r] == c && c !in s[r + 1..]
    ensures r == -1 <==> c !in s
    decreases |s|
  {
    if |s| == 0 then -1
    else if s[|s| - 1] == c then |s| - 1
    else
      var r := LastIndexOf(s[..|s| - 1], c);
      assert s[..|s| - 1] + [s[|s| - 1]] == s;
      r
  }

  /** `s.slice(0, end)`: a negative end counts from the end of the string,
      and the position is clamped into [0, |s|]. */
  function SliceTo(s: string, end: int): (r: string)
    ensures end >= 0 ==> r == s[..if end <= |s| then end else |s|]
    ensures end < 0 ==> r == s[..if |s| + end >= 0 then |s| + end else 0]
  {
    var e := if end < 0 then |s| + end else end;
    var e' := if e < 0 then 0 else if e > |s| then |s| else e;
    s[..e']
  }

  // ---------------------------------------------------------------------
  // whitespace and trimming
  // ---------------------------------------------------------------------

  /** ECMAScript WhiteSpace and LineTerminator characters: what `trim` removes
      and what the regular-expression class `\s` matches. */
  predicate IsJsSpace(c: char) {
    var n := c as int;
    || (0x09 <= n <= 0x0D) || n == 0x20 || n == 0xA0 || n == 0x1680
    || (0x2000 <= n <= 0x200A)
    || n == 0x2028 || n == 0x2029 || n == 0x202F || n == 0x205F
    || n == 0x3000 || n == 0xFEFF
  }

  /** Leading whitespace removed. */
  function TrimStart(s: string): (r: string)
    ensures |r| <= |s| && r == s[|s| - |r|..]
    ensures forall k :: 0 <= k < |s| - |r| ==> IsJsSpace(s[k])
    ensures |r| > 0 ==> !IsJsSpace(r[0])
    decreases |s|
  {
    if |s| > 0 && IsJsSpace(s[0]) then TrimStart(s[1..]) else s
  }

  /** Trailing whitespace removed. */
  function TrimEnd(s: string): (r: string)
    ensures |r| <= |s| && r == s[..|r|]
    ensures forall k :: |r| <= k < |s| ==> IsJsSpace(s[k])
    ensures |r| > 0 ==> !IsJsSpace(r[|r| - 1])
    decreases |s|
  {
    if |s| > 0 && IsJsSpace(s[|s| - 1]) then TrimEnd(s[..|s| - 1]) else s
  }

  /** `s.trim()`. */
  function Trim(s: string): (r: string)
    ensures |r| <= |s|
    ensures |r| > 0 ==> !IsJsSpace(r[0]) && !IsJsSpace(r[|r| - 1])
    ensures forall c :: c in r ==> c in s
    ensures (forall k :: 0 <= k < |s| ==> !IsJsSpace(s[k])) ==> r == s
    ensures |s| == 0 || (!IsJsSpace(s[0]) && !IsJsSpace(s[|s| - 1])) ==> r == s
  {
    var t := TrimStart(s);
    var r := TrimEnd(t);
    assert |r| > 0 ==> r[0] == t[0];
    r
  }

  /** Where the piece `trim` keeps starts and ends. */
  lemma TrimBounds(s: string) returns (i: nat, j: nat)
    ensures i <= j <= |s| && Trim(s) == s[i..j]
    ensures forall k :: 0 <= k < i ==> IsJsSpace(s[k])
    ensures forall k :: j <= k < |s| ==> IsJsSpace(s[k])
  {
    var t := TrimStart(s);
    var r := TrimEnd(t);
    i := |s| - |t|;
    j := i + |r|;
    assert t == s[i..];
    assert Trim(s) == s[i..j] by {
      assert r == t[..|r|];
    }
    forall k | j <= k < |s| ensures IsJsSpace(s[k]) {
      assert s[k] == t[k - i];
    }
  }

  /** `trim` keeps one contiguous piece of its input and drops only
      whitespace on either side of it. */
  lemma TrimKeepsMiddle(s: string)
    ensures
      exists i, j :: 0 <= i <= j <= |s| && Trim(s) == s[i..j]
                     && (forall k :: 0 <= k < i ==> IsJsSpace(s[k])) && (forall k :: j <= k < |s| ==> IsJsSpace(s[k]))
  {
    var i, j := TrimBounds(s);
  }

  // ---------------------------------------------------------------------
  // character filters
  // ---------------------------------------------------------------------

  /** The characters of `s` that satisfy `keep`, in order (a global
      `replace` of a character class by the empty string). */
  function Filter(s: string, keep: char -> bool): (r: string)
    ensures |r| <= |s|
    ensures forall c :: c in r <==> c in s && keep(c)
    ensures (forall k :: 0 <= k < |s| ==> keep(s[k])) ==> r == s
    decreases |s|
  {
    if |s| == 0 then ""
    else
      var rest := Filter(s[1..], keep);
      assert forall c :: c in s <==> c == s[0] || c in s[1..];
      if keep(s[0]) then [s[0]] + rest else rest
  }

  /** Two filters in a row are one filter by both tests. */
  lemma {:induction false} FilterTwice(s: string, first: char -> bool, second: char -> bool, both: char -> bool)
    requires forall c :: both(c) == (first(c) && second(c))
    ensures Filter(Filter(s, first), second) == Filter(s, both)
    decreases |s|
  {
    if |s| > 0 {
      FilterTwice(s[1..], first, second, both);
      if first(s[0]) {
        assert Filter(s, first) == [s[0]] + Filter(s[1..], first);
        assert Filter(s, first)[1..] == Filter(s[1..], first);
      }
    }
  }

  // ---------------------------------------------------------------------
  // lengths in UTF-16 code units
  // ---------------------------------------------------------------------

  /** The UTF-16 code units JavaScript spends on `c`: a surrogate pair for a
      character outside the Basic Multilingual Plane, one unit otherwise. */
  function Utf16Width(c: char): (w: nat)
    ensures w == 1 || w == 2
    ensures w == 2 <==> c as int >= 0x1_0000
  {
    if c as int >= 0x1_0000 then 2 else 1
  }

  /** `s.length`: the number of UTF-16 code units of `s`. */
  function Utf16Length(s: string): (n: nat)
    ensures |s| <= n <= 2 * |s|
  {
    if |s| == 0 then 0 else Utf16Width(s[0]) + Utf16Length(s[1..])
  }

  /** `s.substring(0, n)` for n >= 0: the longest prefix of `s` that fits in
      `n` code units (`TakeFits`). */
  function Take(s: string, n: nat): (r: string)
    ensures |r| <= |s| && r == s[..|r|]
  {
    if |s| == 0 || n < Utf16Width(s[0]) then ""
    else
      var rest := Take(s[1..], n - Utf16Width(s[0]));
      var r := [s[0]] + rest;
      assert r == s[..|r|] by {
        assert forall k :: 1 <= k < |r| ==> r[k] == rest[k - 1] == s[1..][k - 1];
      }
      r
  }

  /** The prefix `substring(0, n)` keeps fits in `n` code units, the next
      character would not fit, and the whole text is kept exactly when it
      fits. */
  lemma {:induction false} TakeFits(s: string, n: nat)
    ensures Utf16Length(Take(s, n)) <= n
    ensures |Take(s, n)| < |s| ==> n < Utf16Length(Take(s, n)) + Utf16Width(s[|Take(s, n)|])
    ensures Take(s, n) == s <==> Utf16Length(s) <= n
  {
    if |s| > 0 && Utf16Width(s[0]) <= n {
      var rest := Take(s[1..], n - Utf16Width(s[0]));
      TakeFits(s[1..], n - Utf16Width(s[0]));
      assert Take(s, n) == [s[0]] + rest;
      assert ([s[0]] + rest)[1..] == rest;
      assert Utf16Length(Take(s, n)) == Utf16Width(s[0]) + Utf16Length(rest);
      if |Take(s, n)| < |s| {
        assert s[1..][|rest|] == s[|Take(s, n)|];
      }
    }
  }

  /** A text of at most `n / 2` characters fits whatever its characters. */
  lemma TakeWhole(s: string, n: nat)
    requires 2 * |s| <= n
    ensures Take(s, n) == s
  {
    TakeFits(s, n);
  }

  /** `substring` takes a first character that fits, then cuts the rest
      with what is left. */
  lemma TakeCons(s: string, n: nat)
    requires |s| > 0 && Utf16Width(s[0]) <= n
    ensures Take(s, n) == [s[0]] + Take(s[1..], n - Utf16Width(s[0]))
  {
  }

  /** Every character of `s` lies outside the Basic Multilingual Plane. */
  predicate AllWide(s: string) {
    forall k :: 0 <= k < |s| ==> s[k] as int >= 0x1_0000
  }

  /** A wide first character takes two code units of the budget. */
  lemma TakeWideStep(s: string, n: nat)
    requires AllWide(s) && |s| > 0
    ensures AllWide(s[1..])
    ensures n < 2 ==> Take(s, n) == ""
    ensures n >= 2 ==> |Take(s, n)| == 1 + |Take(s[1..], n - 2)|
  {
    assert Utf16Width(s[0]) == 2;
    assert forall k :: 0 <= k < |s[1..]| ==> s[1..][k] == s[k + 1];
    if n >= 2 {
      TakeCons(s, n);
    }
  }

  /** On text made only of characters outside the Basic Multilingual Plane,
      `substring(0, 2 * h)` keeps the first `h` characters. */
  lemma {:induction false} TakeWideText(s: string, h: nat)
    requires AllWide(s)
    ensures |Take(s, 2 * h)| == if |s| <= h then |s| else h
  {
    if |s| > 0 {
      TakeWideStep(s, 2 * h);
      if h > 0 {
        TakeWideText(s[1..], h - 1);
      }
    }
  }
}
