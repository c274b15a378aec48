/** The string operations the components rely on: `trim`, `toLowerCase`, `includes`, number-to-text. */
module Text {

  /**
   * ECMAScript WhiteSpace and LineTerminator code points, which `String.prototype.trim`
   * removes: TAB, VT, FF, SP, NBSP, ZWNBSP, the Unicode space separators, LF, CR, LS and PS.
   */
  predicate IsJsWhitespace(c: char) {
    var n := c as int;
    n == 0x09 || n == 0x0B || n == 0x0C || n == 0x20 || n == 0xA0 || n == 0xFEFF
    || n == 0x1680 || (0x2000 <= n <= 0x200A) || n == 0x202F || n == 0x205F || n == 0x3000
    || n == 0x0A || n == 0x0D || n == 0x2028 || n == 0x2029
  }

  predicate AllWhitespace(s: string) {
    forall i :: 0 <= i < |s| ==> IsJsWhitespace(s[i])
  }

  /** Length of the whitespace run at the start of `s`. */
  function LeadingWhitespace(s: string): (n: nat)
    ensures n <= |s|
    ensures AllWhitespace(s[..n])
    ensures n < |s| ==> !IsJsWhitespace(s[n])
  {
    if |s| == 0 || !IsJsWhitespace(s[0]) then 0
    else
      var n := 1 + LeadingWhitespace(s[1..]);
      assert forall i :: 0 <= i < n ==> IsJsWhitespace(s[..n][i]) by {
        forall i | 0 <= i < n ensures IsJsWhitespace(s[..n][i]) {
          if i > 0 { assert s[..n][i] == s[1..][..n - 1][i - 1]; }
        }
      }
      n
  }

  /** Length of the whitespace run at the end of `s`. */
  function TrailingWhitespace(s: string): (n: nat)
    ensures n <= |s|
    ensures AllWhitespace(s[|s| - n..])
    ensures n < |s| ==> !IsJsWhitespace(s[|s| - n - 1])
  {
    if |s| == 0 || !IsJsWhitespace(s[|s| - 1]) then 0
    else
      var init := s[..|s| - 1];
      var n := 1 + TrailingWhitespace(init);
      var tail := s[|s| - n..];
      assert forall i :: 0 <= i < n ==> IsJsWhitespace(tail[i]) by {
        forall i | 0 <= i < n ensures IsJsWhitespace(tail[i]) {
          if i < n - 1 { assert tail[i] == init[|init| - (n - 1)..][i]; }
        }
      }
      n
  }

  /** `String.prototype.trim`: `s` without its leading and trailing whitespace. */
  function Trim(s: string): (r: string)
    ensures |r| <= |s|
    ensures r == [] <==> AllWhitespace(s)
    ensures r != [] ==> !IsJsWhitespace(r[0]) && !IsJsWhitespace(r[|r| - 1])
  {
    var a := LeadingWhitespace(s);
    var rest := s[a..];
    var b := TrailingWhitespace(rest);
    var r := s[a..|s| - b];
    assert r == rest[..|rest| - b];
    assert r == [] ==> AllWhitespace(s) by {
      if r == [] {
        assert a == |s|;
        assert s[..a] == s;
      }
    }
    r
  }

  /** What `trim` removes is whitespace from the two ends, nothing else: the leading run and a trailing run. */
  lemma TrimRemovesOnlyOuterWhitespace(s: string)
    ensures LeadingWhitespace(s) + |Trim(s)| <= |s|
    ensures s[LeadingWhitespace(s)..LeadingWhitespace(s) + |Trim(s)|] == Trim(s)
    ensures AllWhitespace(s[..LeadingWhitespace(s)])
    ensures AllWhitespace(s[LeadingWhitespace(s) + |Trim(s)|..])
  {
    var a := LeadingWhitespace(s);
    var rest := s[a..];
    var b := TrailingWhitespace(rest);
    assert |Trim(s)| == |rest| - b;
    SuffixOfSuffix(s, a, |rest| - b);
  }

  /** A suffix of a suffix is a suffix of the whole string. */
  lemma SuffixOfSuffix(s: string, a: nat, i: nat)
    requires a + i <= |s|
    ensures s[a..][i..] == s[a + i..]
  {
  }

  /** Trimming a trimmed string changes nothing. */
  lemma TrimIdempotent(s: string)
    ensures Trim(Trim(s)) == Trim(s)
  {
    var r := Trim(s);
    if r != [] {
      assert LeadingWhitespace(r) == 0;
      assert r[0..] == r;
      assert TrailingWhitespace(r) == 0;
      assert r[..|r|] == r;
    }
  }

  /** `toLowerCase` on one character; only the ASCII letters are mapped. */
  function ToLowerChar(c: char): char {
    if 'A' <= c <= 'Z' then (c as int + 32) as char else c
  }

  function ToLower(s: string): (r: string)
    ensures |r| == |s|
    ensures forall i :: 0 <= i < |s| ==> r[i] == ToLowerChar(s[i])
  {
    if |s| == 0 then "" else [ToLowerChar(s[0])] + ToLower(s[1..])
  }

  /** `String.prototype.includes`: `sub` occurs in `s` at some position. */
  predicate Contains(s: string, sub: string)
    decreases |s|
  {
    sub <= s || (|s| > 0 && Contains(s[1..], sub))
  }

  /** `includes` finds every contiguous occurrence. */
  lemma {:induction false} OccurrenceIsContained(s: string, sub: string, i: nat)
    requires i + |sub| <= |s| && s[i..i + |sub|] == sub
    ensures Contains(s, sub)
    decreases i
  {
    if i > 0 {
      assert s[1..][i - 1..i - 1 + |sub|] == s[i..i + |sub|];
      OccurrenceIsContained(s[1..], sub, i - 1);
    } else {
      assert s[..|sub|] == sub;
    }
  }

  /** `sub` occurs in `s` starting at position `i`. */
  predicate OccursAt(s: string, sub: string, i: int) {
    0 <= i && i + |sub| <= |s| && s[i..i + |sub|] == sub
  }

  /** `includes` is true only when the search text occurs somewhere, contiguously. */
  lemma {:induction false} ContainedHasOccurrence(s: string, sub: string)
    requires Contains(s, sub)
    ensures exists i :: OccursAt(s, sub, i)
    decreases |s|
  {
    if sub <= s {
      assert OccursAt(s, sub, 0);
    } else {
      ContainedHasOccurrence(s[1..], sub);
      var i :| OccursAt(s[1..], sub, i);
      assert s[i + 1..i + 1 + |sub|] == s[1..][i..i + |sub|];
      assert OccursAt(s, sub, i + 1);
    }
  }

  /** `includes` is true exactly when the search text occurs contiguously. */
  lemma ContainsIffOccurs(s: string, sub: string)
    ensures Contains(s, sub) <==> exists i :: OccursAt(s, sub, i)
  {
    if Contains(s, sub) {
      ContainedHasOccurrence(s, sub);
    }
    if exists i :: OccursAt(s, sub, i) {
      var i :| OccursAt(s, sub, i);
      OccurrenceIsContained(s, sub, i);
    }
  }

  /** `s.split(sep)[0]`: everything before the first `sep`, or all of `s` when there is none. */
  function SplitFirst(s: string, sep: char): (r: string)
    ensures r <= s
    ensures sep !in r
    ensures |r| < |s| ==> s[|r|] == sep
  {
    if |s| == 0 || s[0] == sep then ""
    else [s[0]] + SplitFirst(s[1..], sep)
  }

  lemma {:induction false} SplitFirstAt(a: string, sep: char, b: string)
    requires sep !in a
    ensures SplitFirst(a + [sep] + b, sep) == a
  {
    var r := SplitFirst(a + [sep] + b, sep);
    var s := a + [sep] + b;
    assert s[|a|] == sep;
    assert r == s[..|r|];
    assert a == s[..|a|];
  }
}
