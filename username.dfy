/**
 * The Minecraft username rule of the whitelist form, the regular expression
 * `^(?![0-9_]+$)(?![0-9]+$)(?![_]+$)[a-zA-Z0-9_]{3,16}$`, modelled piece by
 * piece: three negative lookaheads at the start of the string, each of the
 * form `[k]+$`, followed by the bounded repetition `[a-zA-Z0-9_]{3,16}$`.
 */
module Username {

  /** The character classes that occur in the expression. */
  datatype CharClass = Digit | Underscore | DigitOrUnderscore | Word

  predicate IsAsciiLetter(c: char) {
    'a' <= c <= 'z' || 'A' <= c <= 'Z'
  }

  predicate InClass(c: char, k: CharClass) {
    match k
    case Digit => '0' <= c <= '9'
    case Underscore => c == '_'
    case DigitOrUnderscore => '0' <= c <= '9' || c == '_'
    case Word => IsAsciiLetter(c) || '0' <= c <= '9' || c == '_'
  }

  predicate AllIn(s: string, k: CharClass) {
    forall i :: 0 <= i < |s| ==> InClass(s[i], k)
  }

  /** `s` matches `[k]+$` from its first character. */
  predicate MatchesPlus(s: string, k: CharClass)
    decreases |s|
  {
    |s| >= 1 && InClass(s[0], k) && (|s| == 1 || MatchesPlus(s[1..], k))
  }

  /** `s` matches `[k]{lo,hi}$` from its first character. */
  predicate MatchesRange(s: string, k: CharClass, lo: nat, hi: nat)
    decreases |s|
  {
    if s == [] then lo == 0
    else hi >= 1 && InClass(s[0], k) && MatchesRange(s[1..], k, if lo == 0 then 0 else lo - 1, hi - 1)
  }

  /** `usernameRegex.test(s)`. */
  predicate UsernameRegexTest(s: string) {
    && !MatchesPlus(s, DigitOrUnderscore)
    && !MatchesPlus(s, Digit)
    && !MatchesPlus(s, Underscore)
    && MatchesRange(s, Word, 3, 16)
  }

  /** A `+` repetition matches exactly the non-empty strings over its class. */
  lemma {:induction false} MatchesPlusIff(s: string, k: CharClass)
    ensures MatchesPlus(s, k) <==> |s| >= 1 && AllIn(s, k)
  {
    if |s| > 1 {
      MatchesPlusIff(s[1..], k);
      assert AllIn(s, k) <==> InClass(s[0], k) && AllIn(s[1..], k) by {
        if InClass(s[0], k) && AllIn(s[1..], k) {
          forall i | 0 <= i < |s| ensures InClass(s[i], k) {
            if i > 0 { assert s[i] == s[1..][i - 1]; }
          }
        }
      }
    }
  }

  /** A `{lo,hi}` repetition matches exactly the strings over its class whose length is in [lo, hi]. */
  lemma {:induction false} MatchesRangeIff(s: string, k: CharClass, lo: nat, hi: nat)
    ensures MatchesRange(s, k, lo, hi) <==> lo <= |s| <= hi && AllIn(s, k)
  {
    if s != [] && hi >= 1 {
      MatchesRangeIff(s[1..], k, if lo == 0 then 0 else lo - 1, hi - 1);
      assert AllIn(s, k) <==> InClass(s[0], k) && AllIn(s[1..], k) by {
        if InClass(s[0], k) && AllIn(s[1..], k) {
          forall i | 0 <= i < |s| ensures InClass(s[i], k) {
            if i > 0 { assert s[i] == s[1..][i - 1]; }
          }
        }
      }
    }
  }

  /** The `[0-9]+$` and `_+$` lookaheads never reject anything the `[0-9_]+$` one accepts. */
  lemma LookaheadsSubsumed(s: string)
    ensures MatchesPlus(s, Digit) ==> MatchesPlus(s, DigitOrUnderscore)
    ensures MatchesPlus(s, Underscore) ==> MatchesPlus(s, DigitOrUnderscore)
  {
    MatchesPlusIff(s, Digit);
    MatchesPlusIff(s, Underscore);
    MatchesPlusIff(s, DigitOrUnderscore);
  }

  /** The expression accepts a username exactly when it has 3 to 16 characters,
      all from [A-Za-z0-9_], and at least one of them is an ASCII letter. */
  lemma UsernameRule(s: string)
    ensures UsernameRegexTest(s) <==>
      && 3 <= |s| <= 16
      && AllIn(s, Word)
      && exists i :: 0 <= i < |s| && IsAsciiLetter(s[i])
  {
    MatchesPlusIff(s, Digit);
    MatchesPlusIff(s, Underscore);
    MatchesPlusIff(s, DigitOrUnderscore);
    MatchesRangeIff(s, Word, 3, 16);
    if 3 <= |s| <= 16 && AllIn(s, Word) {
      assert AllIn(s, DigitOrUnderscore) <==> !exists i :: 0 <= i < |s| && IsAsciiLetter(s[i]) by {
        if !AllIn(s, DigitOrUnderscore) {
          var i :| 0 <= i < |s| && !InClass(s[i], DigitOrUnderscore);
          assert InClass(s[i], Word);
        }
      }
    }
  }

  /** The names the form accepts: "abc" and "a_1". */
  lemma AcceptedExamples()
    ensures UsernameRegexTest("abc")
    ensures UsernameRegexTest("a_1")
  {
    UsernameRule("abc");
    assert IsAsciiLetter("abc"[0]);
    UsernameRule("a_1");
    assert IsAsciiLetter("a_1"[0]);
  }

  /** The names the form rejects: all digits, all underscores, digits and
      underscores only, too short and too long. */
  lemma RejectedExamples()
    ensures !UsernameRegexTest("12345")
    ensures !UsernameRegexTest("___")
    ensures !UsernameRegexTest("1_2")
    ensures !UsernameRegexTest("ab")
    ensures !UsernameRegexTest("aaaaaaaaaaaaaaaaa")
  {
    NoLetterRejected("12345");
    NoLetterRejected("___");
    NoLetterRejected("1_2");
    UsernameRule("ab");
    UsernameRule("aaaaaaaaaaaaaaaaa");
  }

  lemma NoLetterRejected(s: string)
    requires AllIn(s, DigitOrUnderscore)
    ensures !UsernameRegexTest(s)
  {
    UsernameRule(s);
    forall i | 0 <= i < |s| ensures !IsAsciiLetter(s[i]) {
      assert InClass(s[i], DigitOrUnderscore);
    }
  }
}
