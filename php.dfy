/**
 * The few PHP built-ins the sync code leans on: `strtolower`, `empty()`,
 * `strpos(...) !== false`, `str_replace($needle, '', ...)` and the decimal
 * text of an integer that string concatenation and PDO bindings produce.
 */
module Php {
  import opened Wrappers

  /** `strtolower` on one character (ASCII letters only). */
  function LowerChar(c: char): char
  {
    if 'A' <= c <= 'Z' then (c as int + 32) as char else c
  }

  /** `strtolower`. */
  function Lower(s: string): (r: string)
    ensures |r| == |s|
    ensures forall i :: 0 <= i < |s| ==> r[i] == LowerChar(s[i])
  {
    seq(|s|, i requires 0 <= i < |s| => LowerChar(s[i]))
  }

  /** Two strings that `strtolower` cannot tell apart. */
  predicate EqualsIgnoringCase(s: string, t: string)
  {
    |s| == |t| && forall i :: 0 <= i < |s| ==> LowerChar(s[i]) == LowerChar(t[i])
  }

  /** Lowering a lower-case word is the identity, and a string lowers to such a
      word exactly when it equals it up to case. */
  lemma LowerMatchesWord(s: string, word: string)
    requires Lower(word) == word
    ensures Lower(s) == word <==> EqualsIgnoringCase(s, word)
  {
    if EqualsIgnoringCase(s, word) {
      forall i | 0 <= i < |s| ensures Lower(s)[i] == word[i] {
        assert LowerChar(word[i]) == Lower(word)[i];
      }
    }
  }

  /** `strtolower` is idempotent. */
  lemma LowerIdempotent(s: string)
    ensures Lower(Lower(s)) == Lower(s)
  {
    forall i | 0 <= i < |s| ensures Lower(Lower(s))[i] == Lower(s)[i] {
    }
  }

  /** PHP's `empty()` on a string that may be null or absent. */
  predicate Empty(v: Option<string>)
  {
    v == None || v == Some("") || v == Some("0")
  }

  /** PHP's `empty()` on a string that is present. */
  predicate EmptyString(s: string)
  {
    s == "" || s == "0"
  }

  /** PHP's string conversion of null: the empty string. */
  function Text(v: Option<string>): string
  {
    v.GetOr("")
  }

  predicate StartsWith(s: string, prefix: string)
  {
    |prefix| <= |s| && s[..|prefix|] == prefix
  }

  predicate EndsWith(s: string, suffix: string)
  {
    |suffix| <= |s| && s[|s| - |suffix|..] == suffix
  }

  /** Taking one element more, then dropping it again, gives the shorter prefix. */
  lemma PrefixStep<T>(s: seq<T>, i: nat)
    requires i < |s|
    ensures s[..i + 1][..i] == s[..i] && s[..i + 1][i] == s[i]
  {
  }

  lemma ConcatStartsAndEnds(a: string, b: string)
    ensures StartsWith(a + b, a) && EndsWith(a + b, b)
  {
    assert (a + b)[..|a|] == a;
    assert (a + b)[|a + b| - |b|..] == b;
  }

  lemma StartsWithExtend(s: string, more: string, prefix: string)
    requires StartsWith(s, prefix)
    ensures StartsWith(s + more, prefix)
  {
    assert (s + more)[..|prefix|] == s[..|prefix|];
  }

  /** `strpos($s, $needle) !== false`. */
  predicate Contains(s: string, needle: string)
    decreases |s|
  {
    StartsWith(s, needle) || (s != [] && Contains(s[1..], needle))
  }

  /** No text shorter than the needle contains it. */
  lemma {:induction false} ShortDoesNotContain(s: string, needle: string)
    requires |s| < |needle|
    ensures !Contains(s, needle)
  {
    if s != [] {
      ShortDoesNotContain(s[1..], needle);
    }
  }

  /**
   * `str_replace($needle, '', $s)`: scanning left to right, every occurrence of
   * `needle` that does not overlap an earlier removed one is dropped, in a
   * single pass (text that comes together after a removal is not rescanned).
   */
  function RemoveAll(s: string, needle: string): (r: string)
    requires needle != []
    ensures |r| <= |s|
    decreases |s|
  {
    if StartsWith(s, needle) then RemoveAll(s[|needle|..], needle)
    else if s == [] then []
    else [s[0]] + RemoveAll(s[1..], needle)
  }

  /** Text without the needle passes through `str_replace` unchanged. */
  lemma {:induction false} RemoveAllAbsent(s: string, needle: string)
    requires needle != [] && !Contains(s, needle)
    ensures RemoveAll(s, needle) == s
  {
    if s != [] {
      RemoveAllAbsent(s[1..], needle);
    }
  }

  /** A leading occurrence is dropped and the scan resumes right after it. */
  lemma RemoveAllLeading(needle: string, s: string)
    requires needle != []
    ensures RemoveAll(needle + s, needle) == RemoveAll(s, needle)
  {
    assert (needle + s)[..|needle|] == needle;
    assert (needle + s)[|needle|..] == s;
  }

  /** A character that does not begin an occurrence is kept. */
  lemma RemoveAllKeeps(c: char, s: string, needle: string)
    requires needle != [] && !StartsWith([c] + s, needle)
    ensures RemoveAll([c] + s, needle) == [c] + RemoveAll(s, needle)
  {
    assert ([c] + s)[1..] == s;
  }

  /** The removal is one pass: pieces that meet after a removal stay. */
  lemma RemoveAllIsOnePass()
    ensures RemoveAll("jQjQuery(uery(", "jQuery(") == "jQuery("
  {
    var n := "jQuery(";
    var rest := "uery(";
    assert "jQjQuery(uery(" == ['j'] + (['Q'] + (n + rest));
    assert !StartsWith(['j'] + (['Q'] + (n + rest)), n) by {
      assert (['j'] + (['Q'] + (n + rest)))[2] != n[2];
    }
    RemoveAllKeeps('j', ['Q'] + (n + rest), n);
    assert !StartsWith(['Q'] + (n + rest), n) by {
      assert (['Q'] + (n + rest))[0] != n[0];
    }
    RemoveAllKeeps('Q', n + rest, n);
    RemoveAllLeading(n, rest);
    RemoveAllAbsent(rest, n) by {
      ShortDoesNotContain(rest, n);
    }
    RejoinedCallback();
  }

  lemma RejoinedCallback()
    ensures ['j'] + (['Q'] + "uery(") == "jQuery("
  {
  }

  function DigitChar(d: nat): char
    requires d < 10
  {
    "0123456789"[d]
  }

  /** Decimal text of a natural number. */
  function NatText(n: nat): (r: string)
    ensures r != []
  {
    if n < 10 then [DigitChar(n)] else NatText(n / 10) + [DigitChar(n % 10)]
  }

  /** Decimal text of an integer, as PHP's `.` and PDO's string binding write it. */
  function IntText(n: int): (r: string)
    ensures r != []
  {
    if n < 0 then "-" + NatText(-n) else NatText(n)
  }
}
