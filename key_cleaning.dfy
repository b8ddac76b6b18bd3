/**
 * Normalisation of transaction references and declaration identifiers
 * (logic/key_cleaning.py): `re.sub(r"[^a-z]+", "", s.lower())`.
 */
module KeyCleaning {
  import opened Text

  /**
   * The a–z letters in `c.lower()`. Only three kinds of character produce
   * any: the ASCII letters, U+0130 (whose lower case is "i" followed by a
   * combining dot, which is then dropped) and the Kelvin sign U+212A
   * (whose lower case is "k").
   */
  function KeyLetters(c: char): (r: string)
    ensures |r| <= 1
    ensures IsAsciiLetter(c) ==> r == [ToLowerAscii(c)]
  {
    if IsAsciiLetter(c) then [ToLowerAscii(c)]
    else if c == '\U{0130}' then "i"
    else if c == '\U{212A}' then "k"
    else []
  }

  /** `clean_key`: the lower-cased letters of `s`, in order. */
  function CleanKey(s: string): (r: string)
    ensures |r| <= |s|
    ensures forall i :: 0 <= i < |r| ==> IsAsciiLower(r[i])
  {
    if s == [] then [] else KeyLetters(s[0]) + CleanKey(s[1..])
  }

  lemma {:induction false} CleanKeyConcat(a: string, b: string)
    ensures CleanKey(a + b) == CleanKey(a) + CleanKey(b)
  {
    if a == [] {
      assert a + b == b;
    } else {
      assert (a + b)[0] == a[0];
      assert (a + b)[1..] == a[1..] + b;
      CleanKeyConcat(a[1..], b);
    }
  }

  /**
   * On ASCII text, cleaning is exactly "lower-case, then keep the a–z
   * characters", so every letter survives, in its original order.
   */
  lemma {:induction false} CleanKeyIsLowerThenFilter(s: string)
    requires forall i :: 0 <= i < |s| ==> s[i] < '\U{80}'
    ensures CleanKey(s) == Filter(IsAsciiLower, LowerAscii(s))
  {
    if s != [] {
      CleanKeyIsLowerThenFilter(s[1..]);
      assert LowerAscii(s)[1..] == LowerAscii(s[1..]);
    }
  }

  /** A string is left unchanged by cleaning exactly when it is all a–z. */
  lemma {:induction false} CleanKeyFixpoint(s: string)
    ensures CleanKey(s) == s <==> forall i :: 0 <= i < |s| ==> IsAsciiLower(s[i])
  {
    if s != [] {
      CleanKeyFixpoint(s[1..]);
      if !IsAsciiLower(s[0]) {
        assert CleanKey(s) != s by {
          if |KeyLetters(s[0])| == 0 {
            assert |CleanKey(s)| <= |s[1..]|;
          } else {
            assert CleanKey(s)[0] == KeyLetters(s[0])[0];
          }
        }
      } else {
        assert CleanKey(s) == [s[0]] + CleanKey(s[1..]);
        if CleanKey(s) == s {
          assert CleanKey(s[1..]) == s[1..];
        }
      }
    }
  }

  /** Cleaning is idempotent. */
  lemma CleanKeyIdempotent(s: string)
    ensures CleanKey(CleanKey(s)) == CleanKey(s)
  {
    CleanKeyFixpoint(CleanKey(s));
  }

  /** Cleaning ignores ASCII case. */
  lemma {:induction false} CleanKeyIgnoresCase(s: string)
    ensures CleanKey(UpperAscii(s)) == CleanKey(s)
    ensures CleanKey(LowerAscii(s)) == CleanKey(s)
  {
    if s != [] {
      CleanKeyIgnoresCase(s[1..]);
      assert UpperAscii(s)[1..] == UpperAscii(s[1..]);
      assert LowerAscii(s)[1..] == LowerAscii(s[1..]);
    }
  }

  lemma {:induction false} CleanKeyOfNonLetters(s: string)
    requires forall i :: 0 <= i < |s| ==> !IsAsciiLetter(s[i]) && s[i] < '\U{80}'
    ensures CleanKey(s) == []
  {
    if s != [] {
      CleanKeyOfNonLetters(s[1..]);
    }
  }

  lemma CleanKeyOfTestParts(foo: string, noise: string, bar: string)
    requires foo == "foo" && noise == " &8_\\ " && bar == "bar"
    ensures CleanKey(foo + noise + bar) == "foobar"
  {
    CleanKeyConcat(foo + noise, bar);
    CleanKeyConcat(foo, noise);
    NoiseCleansAway(noise);
    LowerWordsStay(foo, bar);
  }

  lemma NoiseCleansAway(noise: string)
    requires noise == " &8_\\ "
    ensures CleanKey(noise) == []
  {
    CleanKeyOfNonLetters(noise);
  }

  lemma LowerWordsStay(foo: string, bar: string)
    requires foo == "foo" && bar == "bar"
    ensures CleanKey(foo) == foo && CleanKey(bar) == bar && foo + bar == "foobar"
  {
    CleanKeyFixpoint(foo);
    CleanKeyFixpoint(bar);
  }

  /** The source's test of non-letter removal. */
  lemma CleanKeyRemovesNonLetters()
    ensures CleanKey("foo &8_\\ bar") == "foobar"
  {
    assert "foo &8_\\ bar" == "foo" + " &8_\\ " + "bar";
    CleanKeyOfTestParts("foo", " &8_\\ ", "bar");
  }

  /** The source's test of case-insensitivity. */
  lemma CleanKeyLowersCapitals()
    ensures CleanKey("fOoBAr") == "foobar"
  {
    CleanKeyIgnoresCase("fOoBAr");
    assert LowerAscii("fOoBAr") == "foobar";
    CleanKeyFixpoint("foobar");
  }
}
