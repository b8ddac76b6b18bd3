/**
 * Character classes and string operations shared by the parsers: the ASCII
 * subset of Python's `str.lower`/`str.upper`, `str.isspace` and `str.strip`,
 * decimal digit strings, substring containment (`p in s`), filtering and
 * joining.
 */
module Text {

  // ---------------------------------------------------------------------
  // Character classes

  predicate IsAsciiUpper(c: char) { 'A' <= c <= 'Z' }

  predicate IsAsciiLower(c: char) { 'a' <= c <= 'z' }

  predicate IsAsciiLetter(c: char) { IsAsciiUpper(c) || IsAsciiLower(c) }

  predicate IsAsciiDigit(c: char) { '0' <= c <= '9' }

  /** Python's `\w` restricted to ASCII. */
  predicate IsWordChar(c: char) { IsAsciiLetter(c) || IsAsciiDigit(c) || c == '_' }

  /** Python's `str.isspace` for a single character (the full Unicode set). */
  predicate IsSpace(c: char)
  {
    || '\t' <= c <= '\r'
    || '\U{1C}' <= c <= ' '
    || c == '\U{85}' || c == '\U{A0}' || c == '\U{1680}'
    || '\U{2000}' <= c <= '\U{200A}'
    || c == '\U{2028}' || c == '\U{2029}' || c == '\U{202F}' || c == '\U{205F}'
    || c == '\U{3000}'
  }

  function ToLowerAscii(c: char): (r: char)
    ensures IsAsciiUpper(c) ==> IsAsciiLower(r)
    ensures !IsAsciiUpper(c) ==> r == c
  {
    if IsAsciiUpper(c) then (c as int + 32) as char else c
  }

  function ToUpperAscii(c: char): (r: char)
    ensures IsAsciiLower(c) ==> IsAsciiUpper(r)
    ensures !IsAsciiLower(c) ==> r == c
  {
    if IsAsciiLower(c) then (c as int - 32) as char else c
  }

  function LowerAscii(s: string): (r: string)
    ensures |r| == |s|
    ensures forall i :: 0 <= i < |s| ==> r[i] == ToLowerAscii(s[i])
  {
    seq(|s|, i requires 0 <= i < |s| => ToLowerAscii(s[i]))
  }

  function UpperAscii(s: string): (r: string)
    ensures |r| == |s|
    ensures forall i :: 0 <= i < |s| ==> r[i] == ToUpperAscii(s[i])
  {
    seq(|s|, i requires 0 <= i < |s| => ToUpperAscii(s[i]))
  }

  lemma LowerOfUpper(s: string)
    ensures LowerAscii(UpperAscii(s)) == LowerAscii(s)
    ensures LowerAscii(LowerAscii(s)) == LowerAscii(s)
  {
  }

  // ---------------------------------------------------------------------
  // Trimming, taking and filtering

  /** `s` without its longest prefix of characters satisfying `p`. */
  function TrimStart(p: char -> bool, s: string): (r: string)
    ensures |r| <= |s|
    ensures r == [] || !p(r[0])
    ensures forall i :: 0 <= i < |s| - |r| ==> p(s[i])
  {
    if |s| > 0 && p(s[0]) then TrimStart(p, s[1..]) else s
  }

  /** `s` without its longest suffix of characters satisfying `p`. */
  function TrimEnd(p: char -> bool, s: string): (r: string)
    ensures |r| <= |s|
    ensures r == [] || !p(r[|r| - 1])
    ensures forall i :: |r| <= i < |s| ==> p(s[i])
  {
    if |s| > 0 && p(s[|s| - 1]) then TrimEnd(p, s[..|s| - 1]) else s
  }

  /** `TrimStart` keeps a suffix of its input. */
  lemma {:induction false} TrimStartIsSuffix(p: char -> bool, s: string)
    ensures TrimStart(p, s) == s[|s| - |TrimStart(p, s)|..]
  {
    if |s| > 0 && p(s[0]) {
      TrimStartIsSuffix(p, s[1..]);
    }
  }

  /** `TrimEnd` keeps a prefix of its input. */
  lemma {:induction false} TrimEndIsPrefix(p: char -> bool, s: string)
    ensures TrimEnd(p, s) == s[..|TrimEnd(p, s)|]
  {
    if |s| > 0 && p(s[|s| - 1]) {
      TrimEndIsPrefix(p, s[..|s| - 1]);
    }
  }

  /** The longest prefix of `s` whose characters all satisfy `p`. */
  function TakeWhile(p: char -> bool, s: string): (r: string)
    ensures |r| <= |s| && r == s[..|r|]
    ensures forall i :: 0 <= i < |r| ==> p(r[i])
    ensures |r| < |s| ==> !p(s[|r|])
  {
    if |s| > 0 && p(s[0]) then [s[0]] + TakeWhile(p, s[1..]) else []
  }

  /**
   * `r` is `s` with a run of characters satisfying `p` cut off at each end:
   * a slice `s[i..j]` with everything before `i` and from `j` on in `p`.
   */
  ghost predicate CutAtEnds(p: char -> bool, s: string, r: string)
  {
    exists i, j :: 0 <= i <= j <= |s| && r == s[i..j] && CutOffPart(p, s, i, j)
  }

  ghost predicate CutOffPart(p: char -> bool, s: string, i: int, j: int)
    requires 0 <= i <= j <= |s|
  {
    && (forall k :: 0 <= k < i ==> p(s[k]))
    && (forall k :: j <= k < |s| ==> p(s[k]))
  }

  /** Trimming `p` from the start and then from the end cuts `s` at both ends. */
  lemma TrimBothCuts(p: char -> bool, s: string)
    ensures CutAtEnds(p, s, TrimEnd(p, TrimStart(p, s)))
  {
    var t := TrimStart(p, s);
    var r := TrimEnd(p, t);
    TrimStartIsSuffix(p, s);
    TrimEndIsPrefix(p, t);
    CutOfTrims(p, s, t, r);
  }

  /** A suffix of `s` that drops only `p`s, cut down to a prefix that drops only `p`s, is a cut of `s`. */
  lemma CutOfTrims(p: char -> bool, s: string, t: string, r: string)
    requires |t| <= |s| && t == s[|s| - |t|..] && (forall k :: 0 <= k < |s| - |t| ==> p(s[k]))
    requires |r| <= |t| && r == t[..|r|] && (forall k :: |r| <= k < |t| ==> p(t[k]))
    ensures CutAtEnds(p, s, r)
  {
    var i := |s| - |t|;
    var j := i + |r|;
    assert r == s[i..j];
    assert forall k :: j <= k < |s| ==> s[k] == t[k - i];
    assert CutOffPart(p, s, i, j);
  }

  /** A cut whose ends are not in `p` is the only one: the cut-off runs are the longest ones. */
  lemma CutAtEndsUnique(p: char -> bool, s: string, r1: string, r2: string)
    requires CutAtEnds(p, s, r1) && (r1 == [] || (!p(r1[0]) && !p(r1[|r1| - 1])))
    requires CutAtEnds(p, s, r2) && (r2 == [] || (!p(r2[0]) && !p(r2[|r2| - 1])))
    ensures r1 == r2
  {
    var i1, j1 :| 0 <= i1 <= j1 <= |s| && r1 == s[i1..j1] && CutOffPart(p, s, i1, j1);
    var i2, j2 :| 0 <= i2 <= j2 <= |s| && r2 == s[i2..j2] && CutOffPart(p, s, i2, j2);
    SliceEnds(s, i1, j1, r1);
    SliceEnds(s, i2, j2, r2);
    SameSlice(p, s, i1, j1, i2, j2);
  }

  lemma SliceEnds(s: string, i: int, j: int, r: string)
    requires 0 <= i <= j <= |s| && r == s[i..j]
    ensures i < j ==> r != [] && s[i] == r[0] && s[j - 1] == r[|r| - 1]
  {
  }

  /** Two cuts whose ends are not in `p`, given by their bounds, are the same slice. */
  lemma SameSlice(p: char -> bool, s: string, i1: int, j1: int, i2: int, j2: int)
    requires 0 <= i1 <= j1 <= |s| && CutOffPart(p, s, i1, j1) && (i1 == j1 || (!p(s[i1]) && !p(s[j1 - 1])))
    requires 0 <= i2 <= j2 <= |s| && CutOffPart(p, s, i2, j2) && (i2 == j2 || (!p(s[i2]) && !p(s[j2 - 1])))
    ensures s[i1..j1] == s[i2..j2]
  {
    if i1 < j1 && i2 < j2 {
      SameCut(p, s, i1, j1, i2, j2);
    }
  }

  /** Two cuts whose first and last characters are not in `p` start and end at the same place. */
  lemma SameCut(p: char -> bool, s: string, i1: int, j1: int, i2: int, j2: int)
    requires 0 <= i1 < j1 <= |s| && CutOffPart(p, s, i1, j1) && !p(s[i1]) && !p(s[j1 - 1])
    requires 0 <= i2 < j2 <= |s| && CutOffPart(p, s, i2, j2) && !p(s[i2]) && !p(s[j2 - 1])
    ensures i1 == i2 && j1 == j2
  {
  }

  /**
   * Python's `str.strip()` with no argument: the text between its leading
   * and its trailing whitespace.
   */
  function Strip(s: string): (r: string)
    ensures |r| <= |s|
    ensures r == [] || (!IsSpace(r[0]) && !IsSpace(r[|r| - 1]))
  {
    var t := TrimStart(IsSpace, s);
    TrimEndIsPrefix(IsSpace, t);
    assert TrimEnd(IsSpace, t) != [] ==> TrimEnd(IsSpace, t)[0] == t[0];
    TrimEnd(IsSpace, t)
  }

  /**
   * `Strip` removes exactly the leading and the trailing whitespace: its
   * result is a slice of `s` with only whitespace cut off, and it is the
   * only such slice that neither starts nor ends with whitespace.
   */
  lemma StripCutsAtEnds(s: string)
    ensures CutAtEnds(IsSpace, s, Strip(s))
    ensures forall r :: CutAtEnds(IsSpace, s, r) && (r == [] || (!IsSpace(r[0]) && !IsSpace(r[|r| - 1]))) ==>
      r == Strip(s)
  {
    TrimBothCuts(IsSpace, s);
    forall r | CutAtEnds(IsSpace, s, r) && (r == [] || (!IsSpace(r[0]) && !IsSpace(r[|r| - 1])))
      ensures r == Strip(s)
    {
      CutAtEndsUnique(IsSpace, s, r, Strip(s));
    }
  }

  /** A header cell as the file checks compare it: `h.strip().lower()`. */
  function StripLower(h: string): string
  {
    LowerAscii(Strip(h))
  }

  /** Text that neither starts nor ends with whitespace is left as it is by `Strip`. */
  lemma StripKeepsTrimmed(s: string)
    requires s == [] || (!IsSpace(s[0]) && !IsSpace(s[|s| - 1]))
    ensures Strip(s) == s
  {
  }

  /** The elements of `s` that satisfy `p`, in their original order. */
  function Filter<T>(p: T -> bool, s: seq<T>): (r: seq<T>)
    ensures |r| <= |s|
    ensures forall i :: 0 <= i < |r| ==> p(r[i]) && r[i] in s
  {
    if s == [] then [] else (if p(s[0]) then [s[0]] else []) + Filter(p, s[1..])
  }

  lemma {:induction false} FilterConcat<T>(p: T -> bool, a: seq<T>, b: seq<T>)
    ensures Filter(p, a + b) == Filter(p, a) + Filter(p, b)
  {
    if a == [] {
      assert a + b == b;
    } else {
      assert (a + b)[0] == a[0];
      assert (a + b)[1..] == a[1..] + b;
      FilterConcat(p, a[1..], b);
    }
  }

  lemma {:induction false} FilterKeepsAll<T>(p: T -> bool, s: seq<T>)
    requires forall i :: 0 <= i < |s| ==> p(s[i])
    ensures Filter(p, s) == s
  {
    if s != [] {
      FilterKeepsAll(p, s[1..]);
    }
  }

  /** `Filter` keeps every element that satisfies `p`. */
  lemma {:induction false} FilterHas<T>(p: T -> bool, s: seq<T>, x: T)
    requires x in s && p(x)
    ensures x in Filter(p, s)
  {
    if s[0] != x {
      FilterHas(p, s[1..], x);
    }
  }

  /** The first index of `c` in `s`, or `|s|` when `c` does not occur. */
  function IndexOf(s: string, c: char): (r: nat)
    ensures r <= |s|
    ensures r < |s| ==> s[r] == c
    ensures forall k :: 0 <= k < r ==> s[k] != c
  {
    if s == [] then 0 else if s[0] == c then 0 else 1 + IndexOf(s[1..], c)
  }

  /** The first `c` in `a + [c] + b` is the one after `a`, when `a` has none. */
  lemma IndexOfAfter(a: string, c: char, b: string)
    requires c !in a
    ensures IndexOf(a + [c] + b, c) == |a|
  {
    var s := a + [c] + b;
    assert s[|a|] == c;
    assert forall k :: 0 <= k < |a| ==> s[k] == a[k];
  }

  // ---------------------------------------------------------------------
  // Substrings

  /** Python's `p in s` on strings. */
  predicate Contains(s: string, p: string)
    decreases |s|
  {
    p <= s || (|s| > 0 && Contains(s[1..], p))
  }

  /** `p` occurs in `s` starting at index `i`. */
  predicate OccursAt(s: string, p: string, i: int)
  {
    0 <= i <= |s| - |p| && s[i..i + |p|] == p
  }

  /** `Contains` is the usual substring relation. */
  lemma {:induction false} ContainsAt(s: string, p: string)
    ensures Contains(s, p) <==> exists i :: OccursAt(s, p, i)
  {
    if p <= s {
      assert OccursAt(s, p, 0);
    } else if |s| > 0 {
      ContainsAt(s[1..], p);
      if exists i :: OccursAt(s, p, i) {
        var i :| OccursAt(s, p, i);
        OccursAfterFirst(s, p, i);
      }
      if exists i :: OccursAt(s[1..], p, i) {
        var i :| OccursAt(s[1..], p, i);
        OccursAfterFirst(s, p, i + 1);
      }
    } else {
      assert forall i :: !OccursAt(s, p, i);
    }
  }

  /** An occurrence past the first character is one in the rest of the string. */
  lemma OccursAfterFirst(s: string, p: string, i: int)
    requires |s| > 0 && !(p <= s) && 0 < i
    ensures OccursAt(s, p, i) <==> OccursAt(s[1..], p, i - 1)
    ensures !OccursAt(s, p, 0)
  {
    if 0 <= i - 1 <= |s[1..]| - |p| {
      assert s[1..][i - 1..i - 1 + |p|] == s[i..i + |p|];
    }
  }

  /** The empty string is contained in every string. */
  lemma EmptyIsContained(s: string)
    ensures Contains(s, "")
  {
  }

  // ---------------------------------------------------------------------
  // Decimal digits

  predicate AllDigits(s: string)
  {
    forall i :: 0 <= i < |s| ==> IsAsciiDigit(s[i])
  }

  function DigitValue(c: char): (r: nat)
    requires IsAsciiDigit(c)
    ensures r < 10
  {
    c as int - '0' as int
  }

  function DigitChar(n: nat): (c: char)
    requires n < 10
    ensures IsAsciiDigit(c) && DigitValue(c) == n
  {
    ('0' as int + n) as char
  }

  /** Python's `int(s)` on a string of ASCII digits (0 for the empty string). */
  function DigitsValue(s: string): nat
    requires AllDigits(s)
  {
    if s == [] then 0 else DigitsValue(s[..|s| - 1]) * 10 + DigitValue(s[|s| - 1])
  }

  function Pow10(n: nat): (r: nat)
    ensures r >= 1
  {
    if n == 0 then 1 else 10 * Pow10(n - 1)
  }

  lemma {:induction false} DigitsValueBound(s: string)
    requires AllDigits(s)
    ensures DigitsValue(s) < Pow10(|s|)
  {
    if s != [] {
      DigitsValueBound(s[..|s| - 1]);
    }
  }

  /** Python's `str(n)`: the decimal form of `n`, without leading zeros. */
  function NatToString(n: nat): (r: string)
    ensures |r| > 0 && AllDigits(r)
    ensures r[0] == '0' ==> n == 0
    ensures DigitsValue(r) == n
  {
    if n < 10 then [DigitChar(n)]
    else
      var prefix := NatToString(n / 10);
      var r := prefix + [DigitChar(n % 10)];
      assert r[..|r| - 1] == prefix;
      r
  }

  /** `n` in exactly `width` digits, with leading zeros (`%0<width>d`). */
  function ZeroPadded(n: nat, width: nat): (r: string)
    requires n < Pow10(width)
    ensures |r| == width && AllDigits(r)
    ensures DigitsValue(r) == n
  {
    if width == 0 then []
    else
      var prefix := ZeroPadded(n / 10, width - 1);
      var r := prefix + [DigitChar(n % 10)];
      assert r[..|r| - 1] == prefix;
      r
  }

  // ---------------------------------------------------------------------
  // Joining

  /** Python's `sep.join(parts)`. */
  function Join(sep: string, parts: seq<string>): (r: string)
    ensures parts == [] ==> r == []
    ensures |parts| == 1 ==> r == parts[0]
  {
    if parts == [] then []
    else if |parts| == 1 then parts[0]
    else parts[0] + sep + Join(sep, parts[1..])
  }
}
