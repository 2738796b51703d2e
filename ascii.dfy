/**
 * The two string primitives the Gmail validator relies on: PHP's `strtolower`,
 * taken as ASCII-only lower-casing, and the anchored suffix test that
 * `preg_match('/...$/', $value)` performs for a literal pattern.
 */
module Ascii {

  /** An ASCII upper-case letter, 'A' to 'Z'. */
  predicate IsUpper(c: char) {
    'A' <= c <= 'Z'
  }

  /** `strtolower` on one character: an ASCII capital becomes its small letter, anything else is kept. */
  function LowerChar(c: char): (r: char)
    ensures !IsUpper(r)
    ensures IsUpper(c) ==> 'a' <= r <= 'z' && r as int - c as int == 'a' as int - 'A' as int
    ensures !IsUpper(c) ==> r == c
  {
    if IsUpper(c) then (c as int - 'A' as int + 'a' as int) as char else c
  }

  /** `strtolower` on a string: the same length, every character lowered in place. */
  function ToLowerAscii(s: string): (r: string)
    ensures |r| == |s|
    ensures forall i :: 0 <= i < |s| ==> r[i] == LowerChar(s[i])
  {
    if s == [] then [] else [LowerChar(s[0])] + ToLowerAscii(s[1..])
  }

  /** `preg_match` with a literal pattern anchored by `$`: `s` ends with `suffix`. */
  predicate EndsWith(s: string, suffix: string) {
    |suffix| <= |s| && s[|s| - |suffix|..] == suffix
  }

  /** `s` ends with `suffix` once both are compared through `LowerChar`, character by character. */
  predicate EndsWithIgnoringCase(s: string, suffix: string) {
    |suffix| <= |s| &&
    forall i :: 0 <= i < |suffix| ==> LowerChar(s[|s| - |suffix| + i]) == LowerChar(suffix[i])
  }

  /** A string that has no ASCII capital in it. */
  predicate NoUpper(s: string) {
    forall i :: 0 <= i < |s| ==> !IsUpper(s[i])
  }

  /** Lower-casing leaves no capital behind. */
  lemma ToLowerAsciiNoUpper(s: string)
    ensures NoUpper(ToLowerAscii(s))
  {
  }

  /** A string without capitals is its own lower-case form. */
  lemma {:induction false} ToLowerAsciiFixesNoUpper(s: string)
    requires NoUpper(s)
    ensures ToLowerAscii(s) == s
  {
    if s != [] {
      ToLowerAsciiFixesNoUpper(s[1..]);
    }
  }

  /** Lower-casing twice is lower-casing once. */
  lemma ToLowerAsciiIdempotent(s: string)
    ensures ToLowerAscii(ToLowerAscii(s)) == ToLowerAscii(s)
  {
    ToLowerAsciiNoUpper(s);
    ToLowerAsciiFixesNoUpper(ToLowerAscii(s));
  }

  /** `t` is the lower-case form of `s` as soon as the two agree character by character. */
  lemma ToLowerAsciiPointwise(s: string, t: string)
    requires |s| == |t| && forall i :: 0 <= i < |s| ==> LowerChar(s[i]) == t[i]
    ensures ToLowerAscii(s) == t
  {
  }

  /** Lower-casing commutes with concatenation, since it works character by character. */
  lemma ToLowerAsciiConcat(a: string, b: string)
    ensures ToLowerAscii(a + b) == ToLowerAscii(a) + ToLowerAscii(b)
  {
    var l, r := ToLowerAscii(a + b), ToLowerAscii(a) + ToLowerAscii(b);
    assert |l| == |r|;
    forall i | 0 <= i < |l| ensures l[i] == r[i] {
      if i < |a| {
        assert (a + b)[i] == a[i];
      } else {
        assert (a + b)[i] == b[i - |a|];
      }
    }
  }

  /** The suffix test, character by character. */
  lemma EndsWithAt(s: string, suffix: string)
    ensures EndsWith(s, suffix) <==>
      |suffix| <= |s| && forall i :: 0 <= i < |suffix| ==> s[|s| - |suffix| + i] == suffix[i]
  {
    if |suffix| <= |s| {
      var tail := s[|s| - |suffix|..];
      assert forall i :: 0 <= i < |suffix| ==> tail[i] == s[|s| - |suffix| + i];
    }
  }

  /** Only the last `|suffix|` characters decide the suffix test: text in front of them never matters. */
  lemma EndsWithPrefixIrrelevant(p: string, s: string, suffix: string)
    requires |suffix| <= |s|
    ensures EndsWith(p + s, suffix) <==> EndsWith(s, suffix)
  {
    assert (p + s)[|p + s| - |suffix|..] == s[|s| - |suffix|..];
  }

  /** Lower-casing then testing a lower-case suffix is the same as the case-blind character test. */
  lemma {:induction false} LoweredEndsWith(s: string, suffix: string)
    requires NoUpper(suffix)
    ensures EndsWith(ToLowerAscii(s), suffix) <==> EndsWithIgnoringCase(s, suffix)
  {
    var t := ToLowerAscii(s);
    EndsWithAt(t, suffix);
    if |suffix| <= |s| {
      forall i | 0 <= i < |suffix|
        ensures (t[|t| - |suffix| + i] == suffix[i]) == (LowerChar(s[|s| - |suffix| + i]) == LowerChar(suffix[i]))
      {
        assert t[|t| - |suffix| + i] == LowerChar(s[|s| - |suffix| + i]);
        assert LowerChar(suffix[i]) == suffix[i];
      }
    }
  }
}
