/**
 * Character classes and the string helpers built on them.
 *
 * `\d`, `\p{Lu}`, `\s` and `str.lower` are Unicode-aware in Python; this model
 * fixes them to their ASCII members (see README, "Left out").
 */
module Chars {

  /** `\d` */
  predicate IsDigit(c: char) { '0' <= c <= '9' }

  /** `\p{Lu}` */
  predicate IsUpper(c: char) { 'A' <= c <= 'Z' }

  /** `\s`, and the characters `str.strip` and `str.split` treat as blanks:
      space, \t \n \v \f \r, and the separators \x1c..\x1f. */
  predicate IsSpace(c: char) { c == ' ' || '\t' <= c <= '\r' || '\U{1C}' <= c <= '\U{1F}' }

  /** `str.lower` on one character. */
  function Lower(c: char): (d: char)
    ensures IsSpace(d) <==> IsSpace(c)
    ensures !IsUpper(d)
  {
    if IsUpper(c) then (c as int + 32) as char else c
  }

  function LowerString(s: string): (r: string)
    ensures |r| == |s|
    ensures forall i :: 0 <= i < |s| ==> r[i] == Lower(s[i])
  {
    seq(|s|, i requires 0 <= i < |s| => Lower(s[i]))
  }

  /** True when no character of `s` is upper-case. */
  predicate NoUpper(s: string)
  {
    forall i :: 0 <= i < |s| ==> !IsUpper(s[i])
  }

  /** True when no character of `s` is whitespace. */
  predicate NoSpace(s: string) { forall i :: 0 <= i < |s| ==> !IsSpace(s[i]) }

  /** Drops leading whitespace. */
  function TrimStart(s: string): (r: string)
    ensures |r| <= |s| && r == s[|s| - |r|..]
    ensures r != [] ==> !IsSpace(r[0])
    ensures forall i :: 0 <= i < |s| - |r| ==> IsSpace(s[i])
  {
    if s != [] && IsSpace(s[0]) then TrimStart(s[1..]) else s
  }

  /** Drops trailing whitespace. */
  function TrimEnd(s: string): (r: string)
    ensures |r| <= |s| && r == s[..|r|]
    ensures r != [] ==> !IsSpace(r[|r| - 1])
    ensures forall i :: |r| <= i < |s| ==> IsSpace(s[i])
  {
    if s != [] && IsSpace(s[|s| - 1]) then TrimEnd(s[..|s| - 1]) else s
  }

  /** `str.strip()`: the longest infix of `s` that neither starts nor ends with whitespace. */
  function Strip(s: string): (r: string)
    ensures r == [] || (!IsSpace(r[0]) && !IsSpace(r[|r| - 1]))
    ensures |TrimStart(s)| >= |r| && r == s[|s| - |TrimStart(s)|..|s| - |TrimStart(s)| + |r|]
    ensures forall i :: 0 <= i < |s| && !(|s| - |TrimStart(s)| <= i < |s| - |TrimStart(s)| + |r|) ==> IsSpace(s[i])
  {
    var t := TrimStart(s);
    var r := TrimEnd(t);
    Trimmed(s, t, r);
    r
  }

  /** When `t` is a suffix of `s` past a whitespace prefix, and `r` a prefix of `t` before a whitespace
      suffix, `r` is the infix of `s` at the end of that prefix, and every character of `s` outside it is
      whitespace. */
  lemma Trimmed(s: string, t: string, r: string)
    requires |t| <= |s| && t == s[|s| - |t|..] && forall i :: 0 <= i < |s| - |t| ==> IsSpace(s[i])
    requires t != [] ==> !IsSpace(t[0])
    requires |r| <= |t| && r == t[..|r|] && forall i :: |r| <= i < |t| ==> IsSpace(t[i])
    requires r != [] ==> !IsSpace(r[|r| - 1])
    ensures r == [] || (!IsSpace(r[0]) && !IsSpace(r[|r| - 1]))
    ensures r == s[|s| - |t|..|s| - |t| + |r|]
    ensures forall i :: 0 <= i < |s| && !(|s| - |t| <= i < |s| - |t| + |r|) ==> IsSpace(s[i])
  {
    var k := |s| - |t|;
    if r != [] {
      assert r[0] == t[0];
    }
    forall i | k + |r| <= i < |s|
      ensures IsSpace(s[i])
    {
      assert s[i] == t[i - k];
    }
  }

  /** Stripping a string without upper-case characters leaves none. */
  lemma StripKeepsNoUpper(s: string)
    requires NoUpper(s)
    ensures NoUpper(Strip(s))
  {
    var t := TrimStart(s);
    assert NoUpper(t) by {
      forall k | 0 <= k < |t| ensures !IsUpper(t[k]) {
        assert t[k] == s[|s| - |t| + k];
      }
    }
    var r := TrimEnd(t);
    forall k | 0 <= k < |r| ensures !IsUpper(r[k]) {
      assert r[k] == t[k];
    }
  }
}

/** The label normalisation shared by the preprocessing and download scripts. */
module Labels {
  import opened Chars

  /** `.astype(str).str.lower().str.strip()` on one label. */
  function NormalizeLabel(raw: string): (r: string)
    ensures r == [] || (!IsSpace(r[0]) && !IsSpace(r[|r| - 1]))
    ensures NoUpper(r)
  {
    var lowered := LowerString(raw);
    StripKeepsNoUpper(lowered);
    Strip(lowered)
  }

  /** `.isin(["ham", "spam"])` */
  predicate IsKnownLabel(s: string) { s == "ham" || s == "spam" }

  /** A raw label the scripts keep: one that normalises to "ham" or "spam". */
  predicate Kept(raw: string) { IsKnownLabel(NormalizeLabel(raw)) }
}
