/**
 * The PHP string built-ins the core relies on, on strings read as byte
 * sequences: trim(), empty(), substr() and strrpos().
 */
module PhpText {
  import opened Wrappers

  /** The bytes trim() strips by default: " \t\n\r\0\x0B". */
  predicate IsTrimChar(c: char)
  {
    c == ' ' || c == '\t' || c == '\n' || c == '\r' || c == '\0' || c == '\U{000B}'
  }

  /** PHP's empty() on a string: the empty string and the string "0". */
  predicate IsPhpEmpty(s: string)
  {
    s == "" || s == "0"
  }

  /** `sub` occurs in `s` at offset `i`. */
  predicate IsSubstringAt(sub: string, s: string, i: int)
  {
    0 <= i && i + |sub| <= |s| && s[i..i + |sub|] == sub
  }

  ghost predicate IsSubstring(sub: string, s: string)
  {
    exists i :: IsSubstringAt(sub, s, i)
  }

  /** The number of trim bytes at the front of `s`. */
  function LeadingTrim(s: string): (n: nat)
    ensures n <= |s|
    ensures forall k :: 0 <= k < n ==> IsTrimChar(s[k])
    ensures n < |s| ==> !IsTrimChar(s[n])
  {
    if |s| > 0 && IsTrimChar(s[0]) then 1 + LeadingTrim(s[1..]) else 0
  }

  /** The number of trim bytes at the back of `s`. */
  function TrailingTrim(s: string): (n: nat)
    ensures n <= |s|
    ensures forall k :: |s| - n <= k < |s| ==> IsTrimChar(s[k])
    ensures n < |s| ==> !IsTrimChar(s[|s| - 1 - n])
  {
    if |s| > 0 && IsTrimChar(s[|s| - 1]) then 1 + TrailingTrim(s[..|s| - 1]) else 0
  }

  /** PHP trim(): strip trim bytes from both ends. */
  function Trim(s: string): string
  {
    var lo := LeadingTrim(s);
    var rest := s[lo..];
    rest[..|rest| - TrailingTrim(rest)]
  }

  /**
   * What trim() leaves: the substring of `s` at offset LeadingTrim(s);
   * everything outside it is a trim byte, and it neither starts nor ends with
   * one.
   */
  lemma TrimCorrect(s: string)
    ensures IsSubstringAt(Trim(s), s, LeadingTrim(s))
    ensures forall k :: 0 <= k < LeadingTrim(s) ==> IsTrimChar(s[k])
    ensures forall k :: LeadingTrim(s) + |Trim(s)| <= k < |s| ==> IsTrimChar(s[k])
    ensures Trim(s) != [] ==> !IsTrimChar(Trim(s)[0]) && !IsTrimChar(Trim(s)[|Trim(s)| - 1])
  {
    var lo := LeadingTrim(s);
    var rest := s[lo..];
    var n := TrailingTrim(rest);
    var r := Trim(s);
    assert r == s[lo..lo + |r|];
    forall k | lo + |r| <= k < |s| ensures IsTrimChar(s[k]) {
      assert s[k] == rest[k - lo];
    }
    if r != [] {
      assert r[0] == rest[0];
    }
  }

  /** A string with no trim byte at either end is its own trim. */
  lemma TrimOfTrimmed(s: string)
    requires s == [] || (!IsTrimChar(s[0]) && !IsTrimChar(s[|s| - 1]))
    ensures Trim(s) == s
  {
    assert s[0..] == s;
  }

  /** trim() is idempotent. */
  lemma TrimIdempotent(s: string)
    ensures Trim(Trim(s)) == Trim(s)
  {
    TrimCorrect(s);
    TrimOfTrimmed(Trim(s));
  }

  /**
   * trim() is determined by its result: whatever `core` is wrapped in, if the
   * wrapping is trim bytes only and `core` has no trim byte at either end,
   * trimming gives back `core`.
   */
  lemma {:induction false} TrimStripsOuter(pre: string, core: string, post: string)
    requires forall k :: 0 <= k < |pre| ==> IsTrimChar(pre[k])
    requires forall k :: 0 <= k < |post| ==> IsTrimChar(post[k])
    requires core == [] || (!IsTrimChar(core[0]) && !IsTrimChar(core[|core| - 1]))
    ensures Trim(pre + core + post) == core
  {
    var s := pre + core + post;
    var lo := LeadingTrim(s);
    if core == [] {
      assert s == pre + post;
      assert forall k :: 0 <= k < |s| ==> IsTrimChar(s[k]) by {
        forall k | 0 <= k < |s| ensures IsTrimChar(s[k]) {
          if k < |pre| { assert s[k] == pre[k]; } else { assert s[k] == post[k - |pre|]; }
        }
      }
      assert lo == |s|;
    } else {
      assert s[|pre|] == core[0];
      assert forall k :: 0 <= k < |pre| ==> s[k] == pre[k];
      assert lo == |pre|;
      var rest := s[lo..];
      assert rest == core + post;
      var n := TrailingTrim(rest);
      assert rest[|rest| - 1 - |post|] == core[|core| - 1];
      assert forall k :: 0 <= k < |post| ==> rest[|core| + k] == post[k];
      assert n == |post|;
      assert rest[..|rest| - n] == core;
    }
  }

  /** A string that trim() leaves alone starts and ends with a byte trim() keeps. */
  lemma TrimmedEnds(s: string)
    requires Trim(s) == s
    ensures s != [] ==> !IsTrimChar(s[0]) && !IsTrimChar(s[|s| - 1])
  {
    TrimCorrect(s);
  }

  /** Trimming a string made only of trim bytes gives the empty string. */
  lemma TrimAllBlank(s: string)
    requires forall k :: 0 <= k < |s| ==> IsTrimChar(s[k])
    ensures Trim(s) == ""
  {
    TrimStripsOuter(s, "", "");
    assert s + "" + "" == s;
  }

  function Min(a: int, b: int): int { if a <= b then a else b }

  function Max(a: int, b: int): int { if a >= b then a else b }

  /**
   * PHP substr($s, $start, $length) for an offset inside the string (or just
   * past its end): at most `length` bytes from `start`; a negative length
   * instead leaves that many bytes off the end of the string.
   */
  function Substr(s: string, start: nat, length: int): (r: string)
    requires start <= |s|
    ensures IsSubstringAt(r, s, start)
    ensures 0 <= length ==> |r| == Min(length, |s| - start)
    ensures length < 0 ==> |r| == Max(0, |s| - start + length)
  {
    if length >= 0 then s[start..Min(start + length, |s|)]
    else s[start..Max(start, |s| + length)]
  }

  /** PHP strrpos($s, $c) for one byte: the offset of its last occurrence, or false. */
  function LastIndexOf(s: string, c: char): (r: Option<nat>)
    ensures r.Some? ==> r.value < |s| && s[r.value] == c
    ensures r.Some? ==> forall k :: r.value < k < |s| ==> s[k] != c
    ensures r.None? ==> forall k :: 0 <= k < |s| ==> s[k] != c
  {
    if |s| == 0 then None
    else if s[|s| - 1] == c then Some(|s| - 1)
    else LastIndexOf(s[..|s| - 1], c)
  }

  /** A substring of a substring is a substring. */
  lemma SubstringOfSubstring(a: string, b: string, c: string, i: int, j: int)
    requires IsSubstringAt(a, b, i) && IsSubstringAt(b, c, j)
    ensures IsSubstringAt(a, c, i + j)
  {
    forall k | 0 <= k < |a| ensures c[i + j..i + j + |a|][k] == a[k] {
      assert a[k] == b[i + k] == c[j + i + k];
    }
  }
}
