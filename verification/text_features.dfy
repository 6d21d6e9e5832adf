/**
 * The text features computed for each SMS, identically at preprocessing time
 * and when serving a prediction: digit count, upper-case ratio, URL count,
 * distinct URL domains, and the cleaned text whose length and word count are
 * features too.
 */
module TextFeatures {
  import opened Chars
  import opened Schema

  /** The two foreign libraries the helpers call: BeautifulSoup's text extraction
      (`get_text(separator=" ")`) and `tldextract.extract`, reduced to its
      (domain, suffix) pair. */
  datatype TextLibs = TextLibs(htmlText: string -> string, extractDomain: string -> (string, string))

  // ---------------------------------------------------------------- counting

  /** The number of characters of `s` that satisfy `p`, the length of a `findall` of a one-character class. */
  function CountMatching(s: string, p: char -> bool): (n: nat)
    ensures n <= |s|
    ensures n == 0 <==> forall i :: 0 <= i < |s| ==> !p(s[i])
    ensures n == |s| <==> forall i :: 0 <= i < |s| ==> p(s[i])
  {
    if s == [] then 0
    else CountMatching(s[..|s| - 1], p) + (if p(s[|s| - 1]) then 1 else 0)
  }

  /** The positions of `s` whose character satisfies `p`. */
  ghost function Positions(s: string, p: char -> bool): set<nat>
  {
    set i: nat | i < |s| && p(s[i])
  }

  /** The count is the number of matching positions. */
  lemma {:induction false} CountMatchingPositions(s: string, p: char -> bool)
    ensures CountMatching(s, p) == |Positions(s, p)|
  {
    if s != [] {
      var prefix := s[..|s| - 1];
      CountMatchingPositions(prefix, p);
      var last: nat := |s| - 1;
      if p(s[last]) {
        assert Positions(s, p) == Positions(prefix, p) + {last};
      } else {
        assert Positions(s, p) == Positions(prefix, p);
      }
    } else {
      assert Positions(s, p) == {};
    }
  }

  /** Counting distributes over concatenation. */
  lemma {:induction false} CountMatchingAppend(s: string, t: string, p: char -> bool)
    ensures CountMatching(s + t, p) == CountMatching(s, p) + CountMatching(t, p)
  {
    if t == [] {
      assert s + t == s;
    } else {
      CountMatchingAppend(s, t[..|t| - 1], p);
      assert (s + t)[..|s + t| - 1] == s + t[..|t| - 1];
    }
  }

  /** `count_digits(s)`: the number of digits in `s`. */
  function CountDigits(s: string): (n: nat)
    ensures n <= |s|
    ensures n == 0 <==> forall i :: 0 <= i < |s| ==> !IsDigit(s[i])
  {
    CountMatching(s, IsDigit)
  }

  lemma Ratio(part: nat, whole: nat)
    requires 0 < whole && part <= whole
    ensures 0.0 <= part as real / whole as real <= 1.0
    ensures part as real / whole as real * whole as real == part as real
    ensures part as real / whole as real == 0.0 <==> part == 0
    ensures part as real / whole as real == 1.0 <==> part == whole
  {
    var q := part as real / whole as real;
    assert q * whole as real == part as real;
  }

  /** `upper_ratio(s)`: the share of upper-case characters, 0.0 for the empty string. */
  function UpperRatio(s: string): (r: real)
    ensures 0.0 <= r <= 1.0
    ensures s == [] ==> r == 0.0
    ensures s != [] ==> r * (|s| as real) == CountMatching(s, IsUpper) as real
    ensures r == 0.0 <==> forall i :: 0 <= i < |s| ==> !IsUpper(s[i])
    ensures r == 1.0 <==> s != [] && forall i :: 0 <= i < |s| ==> IsUpper(s[i])
  {
    if s == [] then 0.0
    else
      var upper := CountMatching(s, IsUpper);
      // `max(len(s), 1)` is `len(s)` here
      Ratio(upper, |s|);
      upper as real / |s| as real
  }

  /** The example of the feature tests: two of four characters are upper-case. */
  lemma UpperRatioOfMixedCase()
    ensures UpperRatio("ABcd") == 0.5
  {
    assert "ABcd"[..3] == "ABc" && "ABc"[..2] == "AB" && "AB"[..1] == "A" && "A"[..0] == "";
  }

  // ------------------------------------------------------------ whitespace

  /** `re.sub(r"\s+", " ", s)`: every maximal run of whitespace becomes one space. */
  function Squeeze(s: string): (r: string)
    decreases |s|
    ensures s != [] ==> r != [] && (IsSpace(r[0]) <==> IsSpace(s[0]))
    ensures SpacesArePlain(r) && NoAdjacentSpaces(r)
  {
    if s == [] then []
    else if IsSpace(s[0]) then [' '] + Squeeze(TrimStart(s[1..]))
    else [s[0]] + Squeeze(s[1..])
  }

  /** `r` ends in whitespace exactly when the non-empty `s` does. */
  predicate EndsAlike(r: string, s: string)
  {
    s != [] ==> r != [] && (IsSpace(r[|r| - 1]) <==> IsSpace(s[|s| - 1]))
  }

  /** A trailing whitespace run becomes one trailing space, and a text that ends in a word still does. */
  lemma {:induction false} SqueezeLast(s: string)
    decreases |s|
    ensures EndsAlike(Squeeze(s), s)
  {
    if s != [] && IsSpace(s[0]) {
      var t := TrimStart(s[1..]);
      SqueezeLast(t);
      SqueezeLastAfterSpace(s);
    } else if s != [] {
      SqueezeLast(s[1..]);
      SqueezeLastAfterWord(s);
    }
  }

  lemma SqueezeLastAfterSpace(s: string)
    requires s != [] && IsSpace(s[0])
    requires EndsAlike(Squeeze(TrimStart(s[1..])), TrimStart(s[1..]))
    ensures EndsAlike(Squeeze(s), s)
  {
    var t := TrimStart(s[1..]);
    TrimStartLast(s[1..]);
    if |s| > 1 {
      assert s[1..][|s| - 2] == s[|s| - 1];
    }
    ConsEndsAlike(' ', Squeeze(t), s, t);
  }

  lemma SqueezeLastAfterWord(s: string)
    requires s != [] && !IsSpace(s[0])
    requires EndsAlike(Squeeze(s[1..]), s[1..])
    ensures EndsAlike(Squeeze(s), s)
  {
    if |s| > 1 {
      assert s[1..][|s| - 2] == s[|s| - 1];
    }
    ConsEndsAlike(s[0], Squeeze(s[1..]), s, s[1..]);
  }

  /** What is left after dropping leading whitespace ends where the text does; when nothing is left, the
      text ends in whitespace. */
  lemma TrimStartLast(x: string)
    ensures TrimStart(x) != [] ==> TrimStart(x)[|TrimStart(x)| - 1] == x[|x| - 1]
    ensures TrimStart(x) == [] && x != [] ==> IsSpace(x[|x| - 1])
  {
  }

  /** A character in front of `u`, where `u` ends like `t` and `t` ends like `s` (or is empty, and then so
      is `u` and the character ends like `s`). */
  lemma ConsEndsAlike(c: char, u: string, s: string, t: string)
    requires s != [] && EndsAlike(u, t)
    requires t != [] ==> t[|t| - 1] == s[|s| - 1]
    requires t == [] ==> u == [] && (IsSpace(c) <==> IsSpace(s[|s| - 1]))
    ensures EndsAlike([c] + u, s)
  {
    if u != [] {
      assert ([c] + u)[|u|] == u[|u| - 1];
    }
  }

  /** Every whitespace character of `s` is the plain space. */
  predicate SpacesArePlain(s: string)
  {
    forall i :: 0 <= i < |s| && IsSpace(s[i]) ==> s[i] == ' '
  }

  /** No two whitespace characters of `s` are adjacent. */
  predicate NoAdjacentSpaces(s: string)
  {
    forall i :: 0 <= i < |s| - 1 ==> !IsSpace(s[i]) || !IsSpace(s[i + 1])
  }

  /** The shape of a cleaned text: stripped, single plain spaces between words. */
  predicate Normal(s: string)
  {
    && (s == [] || (!IsSpace(s[0]) && !IsSpace(s[|s| - 1])))
    && SpacesArePlain(s)
    && NoAdjacentSpaces(s)
  }

  /** The characters of `s` that are not whitespace, in order. */
  function NonSpaces(s: string): (r: string)
    ensures |r| <= |s|
    ensures NoSpace(r)
  {
    if s == [] then [] else NonSpaces(s[..|s| - 1]) + (if IsSpace(s[|s| - 1]) then [] else [s[|s| - 1]])
  }

  lemma {:induction false} NonSpacesAppend(s: string, t: string)
    ensures NonSpaces(s + t) == NonSpaces(s) + NonSpaces(t)
  {
    if t == [] {
      assert s + t == s;
    } else {
      NonSpacesAppend(s, t[..|t| - 1]);
      assert (s + t)[..|s + t| - 1] == s + t[..|t| - 1];
    }
  }

  lemma NonSpacesCons(c: char, t: string)
    ensures NonSpaces([c] + t) == (if IsSpace(c) then [] else [c]) + NonSpaces(t)
  {
    NonSpacesAppend([c], t);
    assert [c][..0] == [];
  }

  /** Dropping leading whitespace keeps the text. */
  lemma {:induction false} NonSpacesTrimStart(t: string)
    ensures NonSpaces(TrimStart(t)) == NonSpaces(t)
  {
    if t != [] && IsSpace(t[0]) {
      NonSpacesTrimStart(t[1..]);
      NonSpacesDropSpace(t);
    }
  }

  /** A leading whitespace character is not part of the text. */
  lemma NonSpacesDropSpace(t: string)
    requires t != [] && IsSpace(t[0])
    ensures NonSpaces(t) == NonSpaces(t[1..])
  {
    assert t == [t[0]] + t[1..];
    NonSpacesCons(t[0], t[1..]);
  }

  /** Dropping trailing whitespace keeps the text. */
  lemma {:induction false} NonSpacesTrimEnd(t: string)
    ensures NonSpaces(TrimEnd(t)) == NonSpaces(t)
  {
    if t != [] && IsSpace(t[|t| - 1]) {
      NonSpacesTrimEnd(t[..|t| - 1]);
    }
  }

  /** Squeezing keeps every non-whitespace character, in order. */
  lemma {:induction false} SqueezeKeepsText(s: string)
    decreases |s|
    ensures NonSpaces(Squeeze(s)) == NonSpaces(s)
  {
    if s != [] {
      var rest := s[1..];
      assert s == [s[0]] + rest;
      NonSpacesCons(s[0], rest);
      if IsSpace(s[0]) {
        var t := TrimStart(rest);
        SqueezeKeepsText(t);
        NonSpacesCons(' ', Squeeze(t));
        NonSpacesTrimStart(rest);
      } else {
        SqueezeKeepsText(rest);
        NonSpacesCons(s[0], Squeeze(rest));
      }
    }
  }

  /** Squeezing text that is already squeezed changes nothing. */
  lemma {:induction false} SqueezeFixed(s: string)
    requires SpacesArePlain(s) && NoAdjacentSpaces(s)
    ensures Squeeze(s) == s
  {
    if s != [] {
      SqueezeFixed(s[1..]);
      if IsSpace(s[0]) {
        assert TrimStart(s[1..]) == s[1..];
      }
    }
  }

  /** The whitespace-collapse tail of `clean_text`: `re.sub(r"\s+", " ", s).strip()`. */
  function Normalize(s: string): (r: string)
    ensures Normal(r)
  {
    var squeezed := Squeeze(s);
    StripKeepsSqueezed(squeezed);
    Strip(squeezed)
  }

  /** Stripping squeezed text gives a cleaned text. */
  lemma StripKeepsSqueezed(t: string)
    requires SpacesArePlain(t) && NoAdjacentSpaces(t)
    ensures Normal(Strip(t))
  {
    var u := TrimStart(t);
    SliceKeepsSqueezed(t, |t| - |u|, |t|);
    assert u == t[|t| - |u|..|t|];
    SliceKeepsSqueezed(u, 0, |TrimEnd(u)|);
    assert TrimEnd(u) == u[0..|TrimEnd(u)|];
  }

  /** Any slice of squeezed text is squeezed. */
  lemma SliceKeepsSqueezed(t: string, a: nat, b: nat)
    requires SpacesArePlain(t) && NoAdjacentSpaces(t) && a <= b <= |t|
    ensures SpacesArePlain(t[a..b]) && NoAdjacentSpaces(t[a..b])
  {
    assert forall k :: 0 <= k < b - a ==> t[a..b][k] == t[a + k];
  }

  /** Normalising keeps every non-whitespace character, in order. */
  lemma NormalizeKeepsText(s: string)
    ensures NonSpaces(Normalize(s)) == NonSpaces(s)
  {
    SqueezeKeepsText(s);
    NonSpacesTrimStart(Squeeze(s));
    NonSpacesTrimEnd(TrimStart(Squeeze(s)));
  }

  /** Normalising is idempotent. */
  lemma NormalizeIdempotent(s: string)
    ensures Normalize(Normalize(s)) == Normalize(s)
  {
    var r := Normalize(s);
    SqueezeFixed(r);
    assert TrimStart(r) == r;
    assert TrimEnd(r) == r;
  }

  // ------------------------------------------------------------------ words

  /** Every element of `ws` is a word: non-empty and free of whitespace. */
  predicate ProperWords(ws: seq<string>)
  {
    forall k :: 0 <= k < |ws| ==> ws[k] != [] && NoSpace(ws[k])
  }

  /** A word in front of words gives words. */
  lemma ProperWordsCons(w: string, ws: seq<string>)
    requires w != [] && NoSpace(w) && ProperWords(ws)
    ensures ProperWords([w] + ws)
  {
    assert forall k :: 0 < k < |ws| + 1 ==> ([w] + ws)[k] == ws[k - 1];
  }

  /** The words after the first are words. */
  lemma ProperWordsTail(ws: seq<string>)
    requires ProperWords(ws) && ws != []
    ensures ProperWords(ws[1..])
  {
    assert forall k :: 0 <= k < |ws| - 1 ==> ws[1..][k] == ws[k + 1];
  }

  /** `s.split()`: the maximal runs of non-whitespace characters of `s`, in order. */
  function Words(s: string): (ws: seq<string>)
    decreases |s|
    ensures |ws| <= |s|
    ensures ProperWords(ws)
  {
    var t := TrimStart(s);
    if t == [] then []
    else
      var n := RunEnd(t, 0);
      assert n > 0 by { assert !IsSpace(t[0]); }
      var w := t[..n];
      assert NoSpace(w) by { assert forall i :: 0 <= i < n ==> w[i] == t[i]; }
      var rest := Words(t[n..]);
      ProperWordsCons(w, rest);
      [w] + rest
  }

  /** The number of word starts in `s`, a word starting at each non-whitespace character that is the
      first of `s` or follows whitespace; `afterSpace` says whether what precedes `s` is whitespace or
      nothing. */
  function WordStarts(s: string, afterSpace: bool): (n: nat)
    ensures n <= |s|
  {
    if s == [] then 0
    else (if afterSpace && !IsSpace(s[0]) then 1 else 0) + WordStarts(s[1..], IsSpace(s[0]))
  }

  /** `len(s.split())`: the number of words, counted by where they start. */
  function WordCount(s: string): (n: nat)
    ensures n <= |s|
  {
    WordStarts(s, true)
  }

  /** `" ".join(ws)` */
  function JoinWords(ws: seq<string>): string
  {
    if ws == [] then [] else if |ws| == 1 then ws[0] else ws[0] + " " + JoinWords(ws[1..])
  }

  /** Joining a word in front of further words puts one space after it. */
  lemma JoinWordsCons(w: string, ws: seq<string>)
    requires ws != []
    ensures JoinWords([w] + ws) == w + " " + JoinWords(ws)
  {
    assert ([w] + ws)[1..] == ws;
  }

  /** The run that starts at `j` is pinned down by where the first whitespace after it is. */
  lemma RunEndUnique(s: string, j: nat, e: nat)
    requires j <= e <= |s|
    requires forall k :: j <= k < e ==> !IsSpace(s[k])
    requires e == |s| || IsSpace(s[e])
    ensures RunEnd(s, j) == e
  {
  }

  /** `TrimStart` drops exactly the whitespace before the first other character. */
  lemma TrimStartAt(s: string, a: nat)
    requires a <= |s|
    requires forall i :: 0 <= i < a ==> IsSpace(s[i])
    requires a == |s| || !IsSpace(s[a])
    ensures TrimStart(s) == s[a..]
  {
    var r := TrimStart(s);
    assert r != [] ==> r[0] == s[|s| - |r|];
    assert |s| - |r| == a;
  }

  /** Dropping the leading whitespace does not change the words. */
  lemma WordsOfTrimStart(s: string)
    ensures Words(TrimStart(s)) == Words(s)
  {
    var t := TrimStart(s);
    assert TrimStart(t) == t;
  }

  /** One leading whitespace character does not change the words. */
  lemma WordsSkipSpace(s: string)
    requires s != [] && IsSpace(s[0])
    ensures Words(s) == Words(s[1..])
  {
    WordsOfTrimStart(s);
    WordsOfTrimStart(s[1..]);
  }

  /** A word followed by whitespace, or by nothing, is the first word. */
  lemma WordsCons(w: string, r: string)
    requires w != [] && NoSpace(w)
    requires r == [] || IsSpace(r[0])
    ensures Words(w + r) == [w] + Words(r)
  {
    var s := w + r;
    assert TrimStart(s) == s;
    RunEndUnique(s, 0, |w|);
    assert s[..|w|] == w && s[|w|..] == r;
  }

  /** A text that starts with a word: that word, then the words of the rest. */
  lemma FirstWord(s: string) returns (w: string, r: string)
    requires s != [] && !IsSpace(s[0])
    ensures s == w + r && w != [] && NoSpace(w) && (r == [] || IsSpace(r[0]))
    ensures Words(s) == [w] + Words(r)
  {
    var n := RunEnd(s, 0);
    w, r := s[..n], s[n..];
    assert s == w + r;
    assert NoSpace(w) by { assert forall i :: 0 <= i < n ==> w[i] == s[i]; }
    WordsCons(w, r);
  }

  /** Whitespace only has no words. */
  lemma WordsOfSpaces(s: string)
    requires forall i :: 0 <= i < |s| ==> IsSpace(s[i])
    ensures Words(s) == []
  {
    TrimStartAt(s, |s|);
  }

  lemma AppendAssoc(a: string, b: string, c: string)
    ensures (a + b) + c == a + (b + c)
  {
  }

  /** One trailing whitespace character does not change the words. */
  lemma {:induction false} WordsSnocSpace(u: string, c: char)
    requires IsSpace(c)
    decreases |u|
    ensures Words(u + [c]) == Words(u)
  {
    if u == [] {
      WordsOfSpaces([c]);
    } else if IsSpace(u[0]) {
      WordsSnocSpace(u[1..], c);
      TrailingAfterSpace(u, c);
    } else {
      var w, r := FirstWord(u);
      WordsSnocSpace(r, c);
      TrailingAfterWord(w, r, c);
    }
  }

  /** The step of `WordsSnocSpace` over a leading whitespace character. */
  lemma TrailingAfterSpace(u: string, c: char)
    requires u != [] && IsSpace(u[0])
    requires Words(u[1..] + [c]) == Words(u[1..])
    ensures Words(u + [c]) == Words(u)
  {
    assert (u + [c])[1..] == u[1..] + [c];
    WordsSkipSpace(u);
    WordsSkipSpace(u + [c]);
  }

  /** The step of `WordsSnocSpace` over a leading word. */
  lemma TrailingAfterWord(w: string, r: string, c: char)
    requires w != [] && NoSpace(w) && (r == [] || IsSpace(r[0])) && IsSpace(c)
    requires Words(r + [c]) == Words(r)
    ensures Words((w + r) + [c]) == Words(w + r)
  {
    AppendAssoc(w, r, [c]);
    assert (r + [c])[0] == (if r == [] then c else r[0]);
    WordsCons(w, r + [c]);
    WordsCons(w, r);
  }

  /** Dropping the trailing whitespace does not change the words. */
  lemma {:induction false} WordsOfTrimEnd(s: string)
    ensures Words(TrimEnd(s)) == Words(s)
  {
    if s != [] && IsSpace(s[|s| - 1]) {
      var init := s[..|s| - 1];
      WordsOfTrimEnd(init);
      assert s == init + [s[|s| - 1]];
      WordsOfTrimEndStep(init, s[|s| - 1]);
    }
  }

  /** One trailing space more: the step of `WordsOfTrimEnd`. */
  lemma WordsOfTrimEndStep(init: string, c: char)
    requires IsSpace(c)
    requires Words(TrimEnd(init)) == Words(init)
    ensures Words(TrimEnd(init + [c])) == Words(init + [c])
  {
    TrimEndSpace(init, c);
    WordsSnocSpace(init, c);
  }

  /** Trimming the end drops one more trailing space. */
  lemma TrimEndSpace(init: string, c: char)
    requires IsSpace(c)
    ensures TrimEnd(init + [c]) == TrimEnd(init)
  {
    assert (init + [c])[..|init + [c]| - 1] == init;
  }

  /** Squeezing copies a leading word unchanged. */
  lemma {:induction false} SqueezeWord(w: string, r: string)
    requires NoSpace(w)
    ensures Squeeze(w + r) == w + Squeeze(r)
  {
    if w == [] {
      assert w + r == r;
    } else {
      SqueezeWord(w[1..], r);
      assert (w + r)[1..] == w[1..] + r;
    }
  }

  /** Collapsing whitespace runs keeps the words: each run becomes a separator, and none is lost. */
  lemma {:induction false} WordsOfSqueeze(s: string)
    decreases |s|
    ensures Words(Squeeze(s)) == Words(s)
  {
    if s != [] {
      if IsSpace(s[0]) {
        var t := TrimStart(s[1..]);
        var q := Squeeze(t);
        assert ([' '] + q)[1..] == q;
        WordsSkipSpace([' '] + q);
        WordsOfSqueeze(t);
        WordsOfTrimStart(s[1..]);
        WordsSkipSpace(s);
      } else {
        var w, rest := FirstWord(s);
        SqueezeWord(w, rest);
        WordsOfSqueeze(rest);
        WordsCons(w, Squeeze(rest));
      }
    }
  }

  /** Normalising keeps the words. */
  lemma WordsOfNormalize(s: string)
    ensures Words(Normalize(s)) == Words(s)
  {
    WordsOfSqueeze(s);
    WordsOfTrimStart(Squeeze(s));
    WordsOfTrimEnd(TrimStart(Squeeze(s)));
  }

  /** In a cleaned text, the whitespace after the first word is one space followed by a cleaned text. */
  lemma NormalAfterWord(r: string, w: string, rest: string)
    requires Normal(r) && r == w + rest && w != [] && rest != [] && IsSpace(rest[0])
    ensures rest == [' '] + rest[1..] && rest[1..] != [] && Normal(rest[1..])
  {
    var a := |w| + 1;
    assert r[a - 1] == rest[0];
    assert a < |r|;
    assert rest[1..] == r[a..|r|];
    SliceKeepsSqueezed(r, a, |r|);
  }

  /** A cleaned text is its words joined by single spaces. */
  lemma {:induction false} NormalIsJoinedWords(r: string)
    requires Normal(r)
    decreases |r|
    ensures JoinWords(Words(r)) == r
  {
    if r != [] {
      var w, rest := FirstWord(r);
      if rest == [] {
        assert r == w;
      } else {
        NormalAfterWord(r, w, rest);
        var tail := rest[1..];
        WordsSkipSpace(rest);
        NormalIsJoinedWords(tail);
        JoinWordsCons(w, Words(tail));
      }
    }
  }

  /** `re.sub(r"\s+", " ", s).strip()` is `" ".join(s.split())`: the words of `s`, in order, each
      whitespace run between two of them replaced by one space. */
  lemma NormalizeJoinsWords(s: string)
    ensures Normalize(s) == JoinWords(Words(s))
  {
    NormalIsJoinedWords(Normalize(s));
    WordsOfNormalize(s);
  }

  /** Splitting undoes joining, for words that are non-empty and hold no whitespace. */
  lemma {:induction false} WordsOfJoinWords(ws: seq<string>)
    requires ProperWords(ws)
    ensures Words(JoinWords(ws)) == ws
  {
    if |ws| == 1 {
      WordsOfOneWord(ws[0]);
    } else if |ws| > 1 {
      ProperWordsTail(ws);
      WordsOfJoinWords(ws[1..]);
      WordsOfJoinWordsStep(ws);
    }
  }

  /** A single word splits into itself. */
  lemma WordsOfOneWord(w: string)
    requires w != [] && NoSpace(w)
    ensures Words(w) == [w]
  {
    WordsCons(w, []);
    assert w + [] == w;
  }

  /** The step of `WordsOfJoinWords`: the first word, one space, then the joined rest. */
  lemma WordsOfJoinWordsStep(ws: seq<string>)
    requires ProperWords(ws) && |ws| > 1
    requires Words(JoinWords(ws[1..])) == ws[1..]
    ensures Words(JoinWords(ws)) == ws
  {
    JoinWordsSplit(ws);
    WordsOfWordThenSpace(ws[0], JoinWords(ws[1..]));
    assert ws == [ws[0]] + ws[1..];
  }

  /** Joining two or more words: the first, one space, then the rest joined. */
  lemma JoinWordsSplit(ws: seq<string>)
    requires |ws| > 1
    ensures JoinWords(ws) == ws[0] + ([' '] + JoinWords(ws[1..]))
  {
    AppendAssoc(ws[0], " ", JoinWords(ws[1..]));
  }

  /** A word, one space, then more text: the word, then the words of that text. */
  lemma WordsOfWordThenSpace(w: string, j: string)
    requires w != [] && NoSpace(w)
    ensures Words(w + ([' '] + j)) == [w] + Words(j)
  {
    WordsCons(w, [' '] + j);
    assert ([' '] + j)[1..] == j;
    WordsSkipSpace([' '] + j);
  }

  /** Joining words puts one space between each two of them and no other whitespace. */
  lemma {:induction false} SpacesOfJoinWords(ws: seq<string>)
    requires ProperWords(ws) && ws != []
    ensures CountMatching(JoinWords(ws), IsSpace) + 1 == |ws|
  {
    assert CountMatching(ws[0], IsSpace) == 0;
    if |ws| > 1 {
      ProperWordsTail(ws);
      SpacesOfJoinWords(ws[1..]);
      CountMatchingAppend(ws[0] + " ", JoinWords(ws[1..]), IsSpace);
      CountMatchingAppend(ws[0], " ", IsSpace);
    }
  }

  /** Inside a word no further word starts: only the word's first character can be a start. */
  lemma {:induction false} WordStartsOverWord(w: string, r: string, afterSpace: bool)
    requires w != [] && NoSpace(w)
    ensures WordStarts(w + r, afterSpace) == (if afterSpace then 1 else 0) + WordStarts(r, false)
  {
    assert (w + r)[1..] == w[1..] + r;
    if |w| > 1 {
      WordStartsOverWord(w[1..], r, false);
    } else {
      assert w[1..] + r == r;
    }
  }

  /** Counting the word starts counts the words. */
  lemma {:induction false} WordStartsCountsWords(s: string)
    decreases |s|
    ensures WordStarts(s, true) == |Words(s)|
  {
    if s != [] {
      if IsSpace(s[0]) {
        WordStartsCountsWords(s[1..]);
        WordsSkipSpace(s);
      } else {
        var w, r := FirstWord(s);
        WordStartsOverWord(w, r, true);
        WordStartsCountsWords(r);
      }
    }
  }

  /** The count of word starts is the number of words `split()` gives. */
  lemma WordCountIsWords(s: string)
    ensures WordCount(s) == |Words(s)|
  {
    WordStartsCountsWords(s);
  }

  /** In a non-empty cleaned text the words are what the single spaces separate: one more than the spaces. */
  lemma WordCountOfNormal(s: string)
    requires Normal(s) && s != []
    ensures WordCount(s) == CountMatching(s, IsSpace) + 1
  {
    NormalIsJoinedWords(s);
    SpacesOfJoinWords(Words(s));
    WordCountIsWords(s);
  }

  // ------------------------------------------------------------------- URLs

  /** The characters of `s` from `i` on, lower-cased, begin with `p` (`re.IGNORECASE`). */
  predicate LiteralAt(s: string, i: nat, p: string)
  {
    i + |p| <= |s| && forall k :: 0 <= k < |p| ==> Lower(s[i + k]) == p[k]
  }

  /** The literal heads of the URL pattern contain no whitespace. */
  lemma HeadsHaveNoSpace()
    ensures NoSpace("https://") && NoSpace("http://") && NoSpace("www.")
  {
    forall k | 0 <= k < 8 ensures !IsSpace("https://"[k]) {
      assert k in {0, 1, 2, 3, 4, 5, 6, 7};
    }
    forall k | 0 <= k < 4 ensures !IsSpace("www."[k]) {
      assert k in {0, 1, 2, 3};
    }
    assert "http://" == "https://"[..4] + "https://"[5..];
  }

  lemma LiteralHasNoSpace(s: string, i: nat, p: string)
    requires LiteralAt(s, i, p) && NoSpace(p)
    ensures i + |p| <= |s|
    ensures forall k :: i <= k < i + |p| ==> !IsSpace(s[k])
  {
    forall k | i <= k < i + |p| ensures !IsSpace(s[k]) {
      assert Lower(s[i + (k - i)]) == p[k - i];
    }
  }

  /** A literal found at `i` starts with the character at `i`. */
  lemma LiteralFirst(s: string, i: nat, p: string)
    requires LiteralAt(s, i, p) && p != []
    ensures Lower(s[i]) == p[0]
  {
    assert Lower(s[i + 0]) == p[0];
  }

  /** The length of the literal head of `https?://\S+|www\.\S+` found at `i`, or 0 when there is none. */
  function HeadLength(s: string, i: nat): (n: nat)
    ensures n == 0 || n == 4 || n == 7 || n == 8
  {
    if LiteralAt(s, i, "https://") then 8
    else if LiteralAt(s, i, "http://") then 7
    else if LiteralAt(s, i, "www.") then 4
    else 0
  }

  /** The head of a URL is free of whitespace. */
  lemma HeadHasNoSpace(s: string, i: nat)
    requires HeadLength(s, i) > 0
    ensures i + HeadLength(s, i) <= |s|
    ensures forall k :: i <= k < i + HeadLength(s, i) ==> !IsSpace(s[k])
  {
    HeadsHaveNoSpace();
    if LiteralAt(s, i, "https://") {
      LiteralHasNoSpace(s, i, "https://");
    } else if LiteralAt(s, i, "http://") {
      LiteralHasNoSpace(s, i, "http://");
    } else {
      LiteralHasNoSpace(s, i, "www.");
    }
  }

  /** A match of `https?://\S+|www\.\S+` starts at `i`: a head, then at least one non-whitespace character. */
  predicate UrlAt(s: string, i: nat)
  {
    HeadLength(s, i) > 0 && i + HeadLength(s, i) < |s| && !IsSpace(s[i + HeadLength(s, i)])
  }

  /** Where a greedy `\S+` that starts at `j` stops: the next whitespace, or the end. */
  function RunEnd(s: string, j: nat): (e: nat)
    requires j <= |s|
    decreases |s| - j
    ensures j <= e <= |s|
    ensures forall k :: j <= k < e ==> !IsSpace(s[k])
    ensures e == |s| || IsSpace(s[e])
  {
    if j == |s| || IsSpace(s[j]) then j else RunEnd(s, j + 1)
  }

  /** The half-open range of positions one match covers. */
  datatype Span = Span(start: nat, end: nat)

  /** Position `j` lies inside one of the spans. */
  predicate Covered(m: seq<Span>, j: nat)
  {
    exists k :: 0 <= k < |m| && m[k].start <= j < m[k].end
  }

  /** `URL_RE.findall(s)` resumed at `i`: each match starts at the leftmost position where a URL starts
      and runs to the end of its whitespace-free run; the scan resumes where the match ended. */
  function Matches(s: string, i: nat): (m: seq<Span>)
    requires i <= |s|
    decreases |s| - i
    ensures |m| <= |s| - i
    ensures forall k :: 0 <= k < |m| ==> i <= m[k].start < m[k].end <= |s|
    ensures forall k :: 0 <= k < |m| ==> UrlAt(s, m[k].start) && m[k].end == RunEnd(s, m[k].start)
    ensures forall k, l :: 0 <= k < l < |m| ==> m[k].end <= m[l].start
  {
    if i == |s| then []
    else if UrlAt(s, i) then
      HeadHasNoSpace(s, i);
      var e := RunEnd(s, i);
      [Span(i, e)] + Matches(s, e)
    else
      Matches(s, i + 1)
  }

  /** The scan at a URL start: one match, then the scan resumes where the match ended. */
  lemma MatchesAtUrl(s: string, i: nat)
    requires i < |s| && UrlAt(s, i)
    ensures i < RunEnd(s, i)
    ensures Matches(s, i) == [Span(i, RunEnd(s, i))] + Matches(s, RunEnd(s, i))
  {
    HeadHasNoSpace(s, i);
  }

  /** The scan at a position where no URL starts moves one character on. */
  lemma MatchesSkip(s: string, i: nat)
    requires i < |s| && !UrlAt(s, i)
    ensures Matches(s, i) == Matches(s, i + 1)
  {
  }

  lemma CoveredCons(first: Span, rest: seq<Span>, j: nat)
    requires Covered(rest, j)
    ensures Covered([first] + rest, j)
  {
    var k :| 0 <= k < |rest| && rest[k].start <= j < rest[k].end;
    assert ([first] + rest)[k + 1] == rest[k];
  }

  /** No URL start is skipped: every position where a URL starts lies inside some match. */
  lemma {:induction false} MatchesComplete(s: string, i: nat)
    requires i <= |s|
    decreases |s| - i, 1
    ensures CoversUrls(s, Matches(s, i), i)
  {
    if i < |s| {
      if UrlAt(s, i) {
        MatchesCompleteAtUrl(s, i);
      } else {
        MatchesCompleteSkip(s, i);
      }
    }
  }

  lemma {:induction false} MatchesCompleteSkip(s: string, i: nat)
    requires i < |s| && !UrlAt(s, i)
    decreases |s| - i, 0
    ensures CoversUrls(s, Matches(s, i), i)
  {
    MatchesComplete(s, i + 1);
    MatchesSkip(s, i);
  }

  lemma {:induction false} MatchesCompleteAtUrl(s: string, i: nat)
    requires i < |s| && UrlAt(s, i)
    decreases |s| - i, 0
    ensures CoversUrls(s, Matches(s, i), i)
  {
    HeadHasNoSpace(s, i);
    var e := RunEnd(s, i);
    var rest := Matches(s, e);
    MatchesComplete(s, e);
    var m := Matches(s, i);
    assert m == [Span(i, e)] + rest;
    forall j | i <= j < |s| && UrlAt(s, j) ensures Covered(m, j) {
      if j >= e {
        CoveredCons(Span(i, e), rest, j);
      } else {
        assert m[0].start <= j < m[0].end;
      }
    }
  }

  /** `count_urls(s)`: the number of non-overlapping URL matches. */
  function CountUrls(s: string): (n: nat)
    ensures n <= |s|
  {
    |Matches(s, 0)|
  }

  /** A greedy match runs to the next whitespace, so a whitespace-free stretch holds at most one match. */
  lemma {:induction false} MatchesInToken(s: string, i: nat)
    requires i <= |s| && RunEnd(s, i) == |s|
    decreases |s| - i
    ensures |Matches(s, i)| <= 1
  {
    if i < |s| {
      if UrlAt(s, i) {
        UrlRunsToEnd(s, i);
      } else {
        MatchesInToken(s, i + 1);
        MatchesSkip(s, i);
      }
    }
  }

  lemma UrlRunsToEnd(s: string, i: nat)
    requires i < |s| && UrlAt(s, i) && RunEnd(s, i) == |s|
    ensures |Matches(s, i)| == 1
  {
    MatchesAtUrl(s, i);
    assert Matches(s, |s|) == [];
  }

  /** A whitespace-free token contains at most one URL. */
  lemma TokenHasAtMostOneUrl(s: string)
    requires NoSpace(s)
    ensures CountUrls(s) <= 1
  {
    MatchesInToken(s, 0);
  }

  /** The matched texts themselves, as `findall` returns them. */
  function Urls(s: string): (urls: seq<string>)
    ensures |urls| == CountUrls(s)
    ensures forall k :: 0 <= k < |urls| ==> urls[k] != [] && NoSpace(urls[k])
  {
    var m := Matches(s, 0);
    SpansAreTokens(s, m);
    seq(|m|, k requires 0 <= k < |m| => s[m[k].start..m[k].end])
  }

  /** The text of every match is a non-empty whitespace-free token. */
  lemma SpansAreTokens(s: string, m: seq<Span>)
    requires forall k :: 0 <= k < |m| ==> m[k].start < m[k].end <= |s|
    requires forall k :: 0 <= k < |m| ==> m[k].end == RunEnd(s, m[k].start)
    ensures forall k :: 0 <= k < |m| ==> s[m[k].start..m[k].end] != [] && NoSpace(s[m[k].start..m[k].end])
  {
    forall k | 0 <= k < |m|
      ensures s[m[k].start..m[k].end] != [] && NoSpace(s[m[k].start..m[k].end])
    {
      var a, e := m[k].start, m[k].end;
      forall j | 0 <= j < e - a ensures !IsSpace(s[a..e][j]) {
        assert s[a..e][j] == s[a + j];
      }
    }
  }

  /** `".".join(p for p in [domain, suffix] if p)` */
  function JoinDomain(parts: (string, string)): (d: string)
    ensures d == [] <==> parts.0 == [] && parts.1 == []
  {
    if parts.0 != [] && parts.1 != [] then parts.0 + "." + parts.1 else parts.0 + parts.1
  }

  /** The non-empty registered domains of the given URLs. */
  function Domains(libs: TextLibs, urls: seq<string>): (d: set<string>)
    ensures |d| <= |urls|
  {
    if urls == [] then {}
    else
      var domain := JoinDomain(libs.extractDomain(urls[|urls| - 1]));
      Domains(libs, urls[..|urls| - 1]) + (if domain != [] then {domain} else {})
  }

  /** The domain set holds exactly the non-empty domains of the URLs. */
  lemma {:induction false} DomainsMembers(libs: TextLibs, urls: seq<string>)
    ensures forall x :: x in Domains(libs, urls) ==> x != []
    ensures forall k :: 0 <= k < |urls| && JoinDomain(libs.extractDomain(urls[k])) != [] ==>
      JoinDomain(libs.extractDomain(urls[k])) in Domains(libs, urls)
    ensures forall x :: x in Domains(libs, urls) ==>
      exists k :: 0 <= k < |urls| && JoinDomain(libs.extractDomain(urls[k])) == x
  {
    if urls != [] {
      var previous := urls[..|urls| - 1];
      DomainsMembers(libs, previous);
      assert forall k :: 0 <= k < |previous| ==> previous[k] == urls[k];
    }
  }

  lemma DomainsStep(libs: TextLibs, urls: seq<string>, k: nat)
    requires k < |urls|
    ensures Domains(libs, urls[..k + 1]) == Domains(libs, urls[..k]) +
      (if JoinDomain(libs.extractDomain(urls[k])) != [] then {JoinDomain(libs.extractDomain(urls[k]))} else {})
  {
    assert urls[..k + 1][..k] == urls[..k];
  }

  /** The value `num_domains(s)` returns: how many distinct non-empty domains the URLs of `s` have. */
  function DomainCount(libs: TextLibs, s: string): (n: nat)
    ensures n <= CountUrls(s)
  {
    |Domains(libs, Urls(s))|
  }

  /** `num_domains(s)`: collects the domains of the URL matches in a set and returns its size. */
  method NumDomains(libs: TextLibs, s: string) returns (n: nat)
    ensures n == DomainCount(libs, s)
    ensures n <= CountUrls(s)
  {
    n := CollectDomains(libs, Urls(s));
  }

  /** The loop of `num_domains`: adds each URL's non-empty domain to a set, then takes the set's size. */
  method CollectDomains(libs: TextLibs, urls: seq<string>) returns (n: nat)
    ensures n == |Domains(libs, urls)|
    ensures n <= |urls|
  {
    var domains: set<string> := {};
    for k := 0 to |urls|
      invariant domains == Domains(libs, urls[..k])
    {
      var domain := JoinDomain(libs.extractDomain(urls[k]));
      DomainsStep(libs, urls, k);
      if domain != [] {
        domains := domains + {domain};
      }
    }
    assert urls[..|urls|] == urls;
    n := |domains|;
  }

  /** Three URLs of which two share a domain count two domains, as in the feature tests. */
  lemma SharedDomainCountedOnce(libs: TextLibs, urls: seq<string>)
    requires |urls| == 3
    requires JoinDomain(libs.extractDomain(urls[0])) == JoinDomain(libs.extractDomain(urls[2])) != []
    requires JoinDomain(libs.extractDomain(urls[1])) != []
    requires JoinDomain(libs.extractDomain(urls[1])) != JoinDomain(libs.extractDomain(urls[0]))
    ensures |Domains(libs, urls)| == 2
  {
    var a, b := JoinDomain(libs.extractDomain(urls[0])), JoinDomain(libs.extractDomain(urls[1]));
    assert urls[..2][..1] == urls[..1];
    assert Domains(libs, urls[..1]) == {a};
    assert Domains(libs, urls[..2]) == {a, b};
    assert Domains(libs, urls) == {a, b};
  }

  // ----------------------------------------------------- URL substitution

  /** No URL starts anywhere in `t`. */
  predicate NoUrl(t: string)
  {
    forall p :: 0 <= p < |t| ==> !UrlAt(t, p)
  }

  /** A URL starts with `h` (of `http`) or `w` (of `www.`), in either case. */
  lemma UrlStartsWithLetter(t: string, p: nat)
    requires UrlAt(t, p)
    ensures Lower(t[p]) == 'h' || Lower(t[p]) == 'w'
  {
    if LiteralAt(t, p, "https://") {
      LiteralFirst(t, p, "https://");
    } else if LiteralAt(t, p, "http://") {
      LiteralFirst(t, p, "http://");
    } else {
      LiteralFirst(t, p, "www.");
    }
  }

  /** Two texts that agree on `|lit|` characters agree on whether `lit` is there. */
  lemma LiteralSameWindow(t: string, p: nat, u: string, q: nat, lit: string)
    requires p + |lit| <= |t| && q + |lit| <= |u|
    requires u[q..q + |lit|] == t[p..p + |lit|]
    ensures LiteralAt(t, p, lit) <==> LiteralAt(u, q, lit)
  {
    if LiteralAt(t, p, lit) {
      forall k | 0 <= k < |lit| ensures Lower(u[q + k]) == lit[k] {
        assert u[q + k] == u[q..q + |lit|][k] == t[p..p + |lit|][k] == t[p + k];
      }
    }
    if LiteralAt(u, q, lit) {
      forall k | 0 <= k < |lit| ensures Lower(t[p + k]) == lit[k] {
        assert u[q + k] == u[q..q + |lit|][k] == t[p..p + |lit|][k] == t[p + k];
      }
    }
  }

  lemma SliceOfSlice(t: string, a: nat, b: nat, i: nat, j: nat)
    requires a <= b <= |t| && i <= j <= b - a
    ensures t[a..b][i..j] == t[a + i..a + j]
  {
    assert forall k :: 0 <= k < j - i ==> t[a..b][i..j][k] == t[a + i..a + j][k];
  }

  /** The `www.` case of UrlAtSameWindow. */
  lemma WwwSameWindow(t: string, p: nat, u: string, q: nat)
    requires HeadLength(t, p) == 4 && p + 5 <= |t| && q + 5 <= |u|
    requires u[q..q + 5] == t[p..p + 5]
    ensures HeadLength(u, q) == 4
  {
    assert u[q] == t[p];
    SliceOfSlice(u, q, q + 5, 0, 4);
    SliceOfSlice(t, p, p + 5, 0, 4);
    LiteralSameWindow(t, p, u, q, "www.");
    LiteralFirst(t, p, "www.");
    if LiteralAt(u, q, "https://") {
      LiteralFirst(u, q, "https://");
    } else if LiteralAt(u, q, "http://") {
      LiteralFirst(u, q, "http://");
    }
  }

  /** Two texts that agree on a window of `n` characters agree on whether a literal of at most `n` characters is there. */
  lemma LiteralInWindow(t: string, p: nat, u: string, q: nat, n: nat, lit: string)
    requires |lit| <= n && p + n <= |t| && q + n <= |u|
    requires u[q..q + n] == t[p..p + n]
    ensures LiteralAt(t, p, lit) <==> LiteralAt(u, q, lit)
  {
    SliceOfSlice(u, q, q + n, 0, |lit|);
    SliceOfSlice(t, p, p + n, 0, |lit|);
    LiteralSameWindow(t, p, u, q, lit);
  }

  /** The `http://` and `https://` cases of UrlAtSameWindow. */
  lemma HttpSameWindow(t: string, p: nat, u: string, q: nat)
    requires HeadLength(t, p) >= 7 && p + HeadLength(t, p) + 1 <= |t| && q + HeadLength(t, p) + 1 <= |u|
    requires u[q..q + HeadLength(t, p) + 1] == t[p..p + HeadLength(t, p) + 1]
    ensures HeadLength(u, q) == HeadLength(t, p)
  {
    var n := HeadLength(t, p) + 1;
    LiteralInWindow(t, p, u, q, n, "https://");
    LiteralInWindow(t, p, u, q, n, "http://");
  }

  /** Whether a URL starts at a position depends only on its head and the one character after it. */
  lemma UrlAtSameWindow(t: string, p: nat, u: string, q: nat)
    requires UrlAt(t, p)
    requires q + HeadLength(t, p) < |u|
    requires u[q..q + HeadLength(t, p) + 1] == t[p..p + HeadLength(t, p) + 1]
    ensures UrlAt(u, q)
  {
    var h := HeadLength(t, p);
    var w := t[p..p + h + 1];
    assert u[q + h] == w[h] && t[p + h] == w[h];
    if h == 4 {
      WwwSameWindow(t, p, u, q);
    } else {
      HttpSameWindow(t, p, u, q);
    }
  }

  /** A URL inside a slice is a URL of the whole text. */
  lemma UrlInSlice(t: string, a: nat, b: nat, q: nat)
    requires a <= b <= |t| && UrlAt(t[a..b], q)
    ensures UrlAt(t, a + q)
  {
    var h := HeadLength(t[a..b], q);
    SliceOfSlice(t, a, b, q, q + h + 1);
    UrlAtSameWindow(t[a..b], q, t, a + q);
  }

  /** A URL whose head and following character lie inside a slice is a URL of the slice. */
  lemma UrlWithinSlice(t: string, p: nat, a: nat, b: nat)
    requires UrlAt(t, p) && a <= p && p + HeadLength(t, p) < b <= |t|
    ensures UrlAt(t[a..b], p - a)
  {
    var h := HeadLength(t, p);
    SliceOfSlice(t, a, b, p - a, p - a + h + 1);
    UrlAtSameWindow(t, p, t[a..b], p - a);
  }

  /** The head of a URL and the character after it are not whitespace. */
  lemma UrlWindowHasNoSpace(t: string, p: nat)
    requires UrlAt(t, p)
    ensures forall k :: p <= k <= p + HeadLength(t, p) ==> !IsSpace(t[k])
  {
    HeadHasNoSpace(t, p);
  }

  /** The text `URL_RE.sub` puts in place of each match. */
  const UrlToken: string := " <url> "

  /** `s[from..]` with each span replaced by the URL token. */
  function Replace(s: string, m: seq<Span>, from: nat): string
    requires from <= |s|
    requires forall k :: 0 <= k < |m| ==> from <= m[k].start <= m[k].end <= |s|
    requires forall k, l :: 0 <= k < l < |m| ==> m[k].end <= m[l].start
    decreases |m|
  {
    if m == [] then s[from..]
    else s[from..m[0].start] + UrlToken + Replace(s, m[1..], m[0].end)
  }

  /** `URL_RE.sub(" <url> ", s)` */
  function SubUrls(s: string): string
  {
    Replace(s, Matches(s, 0), 0)
  }

  /** A URL cannot start inside the token. */
  lemma NoUrlInToken(t: string, p: nat, at: nat)
    requires at <= p < at + |UrlToken| <= |t| && t[at..at + |UrlToken|] == UrlToken
    ensures !UrlAt(t, p)
  {
    assert t[p] == UrlToken[p - at];
    if UrlAt(t, p) {
      UrlStartsWithLetter(t, p);
    }
  }

  /** Spans in order, inside `s[from..]`. */
  predicate OrderedSpans(s: string, m: seq<Span>, from: nat)
  {
    && from <= |s|
    && (forall k :: 0 <= k < |m| ==> from <= m[k].start <= m[k].end <= |s|)
    && (forall k, l :: 0 <= k < l < |m| ==> m[k].end <= m[l].start)
  }

  /** Every URL start from `from` on is covered by a span. */
  predicate CoversUrls(s: string, m: seq<Span>, from: nat)
  {
    forall j :: from <= j < |s| && UrlAt(s, j) ==> Covered(m, j)
  }

  /** No URL starts in the text kept before the first span: it would have been the first match. */
  lemma NoUrlBeforeFirstSpan(s: string, m: seq<Span>, from: nat, r: string, p: nat)
    requires OrderedSpans(s, m, from) && CoversUrls(s, m, from) && m != []
    requires |r| > m[0].start - from && r[..m[0].start - from] == s[from..m[0].start]
    requires IsSpace(r[m[0].start - from])
    requires p < m[0].start - from
    ensures !UrlAt(r, p)
  {
    var x := m[0].start - from;
    if UrlAt(r, p) {
      UrlWindowHasNoSpace(r, p);
      assert p + HeadLength(r, p) < x by {
        assert IsSpace(r[x]);
      }
      UrlWithinSlice(r, p, 0, x);
      assert r[0..x] == s[from..m[0].start];
      UrlInSlice(s, from, m[0].start, p);
    }
  }

  /** The spans after the first still cover every URL start after the first span. */
  lemma CoversUrlsTail(s: string, m: seq<Span>, from: nat)
    requires OrderedSpans(s, m, from) && CoversUrls(s, m, from) && m != []
    ensures OrderedSpans(s, m[1..], m[0].end) && CoversUrls(s, m[1..], m[0].end)
  {
    var e := m[0].end;
    forall j | e <= j < |s| && UrlAt(s, j) ensures Covered(m[1..], j) {
      var k :| 0 <= k < |m| && m[k].start <= j < m[k].end;
      assert k != 0;
      assert m[1..][k - 1] == m[k];
    }
  }

  /** When every URL start from `from` on is covered by a span, replacing the spans leaves no URL. */
  lemma {:induction false} ReplaceLeavesNoUrl(s: string, m: seq<Span>, from: nat)
    requires OrderedSpans(s, m, from) && CoversUrls(s, m, from)
    decreases |m|
    ensures NoUrl(Replace(s, m, from))
  {
    var r := Replace(s, m, from);
    if m == [] {
      forall p | 0 <= p < |r| ensures !UrlAt(r, p) {
        if UrlAt(r, p) {
          assert s[from..|s|] == r;
          UrlInSlice(s, from, |s|, p);
        }
      }
    } else {
      var a, e := m[0].start, m[0].end;
      var x, rest := s[from..a], Replace(s, m[1..], e);
      CoversUrlsTail(s, m, from);
      ReplaceLeavesNoUrl(s, m[1..], e);
      assert r == x + UrlToken + rest;
      var skip := |x| + |UrlToken|;
      assert r[|x|..skip] == UrlToken && r[skip..|r|] == rest;
      forall p | 0 <= p < |r| ensures !UrlAt(r, p) {
        if p < |x| {
          NoUrlBeforeFirstSpan(s, m, from, r, p);
        } else if p < skip {
          NoUrlInToken(r, p, |x|);
        } else if UrlAt(r, p) {
          UrlWindowHasNoSpace(r, p);
          UrlWithinSlice(r, p, skip, |r|);
        }
      }
    }
  }

  /** After substitution no URL is left. */
  lemma SubUrlsLeavesNoUrl(s: string)
    ensures NoUrl(SubUrls(s))
  {
    MatchesComplete(s, 0);
    ReplaceLeavesNoUrl(s, Matches(s, 0), 0);
  }

  /** An infix of a text without URLs has none either. */
  lemma NoUrlInfix(t: string, a: nat, b: nat)
    requires NoUrl(t) && a <= b <= |t|
    ensures NoUrl(t[a..b])
    ensures forall r :: r == t[a..b] ==> NoUrl(r)
  {
    forall p | 0 <= p < b - a ensures !UrlAt(t[a..b], p) {
      if UrlAt(t[a..b], p) {
        UrlInSlice(t, a, b, p);
      }
    }
  }

  /** As long as `Squeeze(t)` shows no whitespace, it shows the characters of `t` unchanged. */
  lemma {:induction false} SqueezeKeepsLeadingRun(t: string, n: nat)
    requires n < |Squeeze(t)|
    requires forall k :: 0 <= k <= n ==> !IsSpace(Squeeze(t)[k])
    decreases |t|
    ensures n < |t| && Squeeze(t)[..n + 1] == t[..n + 1]
  {
    var r := Squeeze(t);
    assert !IsSpace(r[0]);
    var rest := Squeeze(t[1..]);
    assert r == [t[0]] + rest;
    if n > 0 {
      forall k | 0 <= k <= n - 1 ensures !IsSpace(rest[k]) {
        assert rest[k] == r[k + 1];
      }
      SqueezeKeepsLeadingRun(t[1..], n - 1);
      assert r[..n + 1] == [t[0]] + rest[..n];
      assert t[..n + 1] == [t[0]] + t[1..][..n];
    }
  }

  /** Collapsing whitespace creates no URL. */
  lemma {:induction false} SqueezeLeavesNoUrl(t: string)
    requires NoUrl(t)
    decreases |t|
    ensures NoUrl(Squeeze(t))
  {
    var r := Squeeze(t);
    if t != [] {
      var tail := if IsSpace(t[0]) then TrimStart(t[1..]) else t[1..];
      var offset := |t| - |tail|;
      assert tail == t[offset..|t|];
      NoUrlInfix(t, offset, |t|);
      SqueezeLeavesNoUrl(tail);
      assert r[1..|r|] == Squeeze(tail);
      forall p | 0 <= p < |r| ensures !UrlAt(r, p) {
        if UrlAt(r, p) {
          UrlWindowHasNoSpace(r, p);
          var h := HeadLength(r, p);
          if p == 0 {
            SqueezeKeepsLeadingRun(t, h);
            assert t[0..h + 1] == r[0..h + 1];
            UrlAtSameWindow(r, 0, t, 0);
          } else {
            UrlWithinSlice(r, p, 1, |r|);
          }
        }
      }
    }
  }

  /** Substituting the URL token into lower-case text keeps it lower-case. */
  lemma {:induction false} ReplaceKeepsNoUpper(s: string, m: seq<Span>, from: nat)
    requires OrderedSpans(s, m, from) && NoUpper(s)
    decreases |m|
    ensures NoUpper(Replace(s, m, from))
  {
    if m != [] {
      ReplaceKeepsNoUpper(s, m[1..], m[0].end);
      var x, rest := s[from..m[0].start], Replace(s, m[1..], m[0].end);
      assert NoUpper(UrlToken) by {
        forall i | 0 <= i < |UrlToken| ensures !IsUpper(UrlToken[i]) {
          assert i in {0, 1, 2, 3, 4, 5, 6};
        }
      }
      assert NoUpper(x);
      var r := x + UrlToken + rest;
      forall i | 0 <= i < |r| ensures !IsUpper(r[i]) {
        if i < |x| {
          assert r[i] == x[i];
        } else if i < |x| + |UrlToken| {
          assert r[i] == UrlToken[i - |x|];
        } else {
          assert r[i] == rest[i - |x| - |UrlToken|];
        }
      }
    }
  }

  /** Collapsing whitespace into plain spaces keeps lower-case text lower-case. */
  lemma {:induction false} SqueezeKeepsNoUpper(t: string)
    requires NoUpper(t)
    decreases |t|
    ensures NoUpper(Squeeze(t))
  {
    if t != [] {
      var tail := if IsSpace(t[0]) then TrimStart(t[1..]) else t[1..];
      assert tail == t[|t| - |tail|..];
      SqueezeKeepsNoUpper(tail);
      var r := Squeeze(t);
      forall i | 0 <= i < |r| ensures !IsUpper(r[i]) {
        if i > 0 {
          assert r[i] == Squeeze(tail)[i - 1];
        }
      }
    }
  }

  /** `clean_text(s)`: the text of the HTML, lower-cased, each URL replaced by ` <url> `, whitespace runs
      collapsed to one space and the ends stripped. */
  function CleanText(libs: TextLibs, s: string): (r: string)
    ensures Normal(r)
  {
    Normalize(SubUrls(LowerString(libs.htmlText(s))))
  }

  /** Stripping the ends creates no URL. */
  lemma StripLeavesNoUrl(u: string)
    requires NoUrl(u)
    ensures NoUrl(Strip(u))
  {
    var offset := |u| - |TrimStart(u)|;
    NoUrlInfix(u, offset, offset + |Strip(u)|);
  }

  /** Normalising whitespace creates no URL. */
  lemma NormalizeLeavesNoUrl(t: string)
    requires NoUrl(t)
    ensures NoUrl(Normalize(t))
  {
    SqueezeLeavesNoUrl(t);
    StripLeavesNoUrl(Squeeze(t));
  }

  /** Normalising whitespace keeps lower-case text lower-case. */
  lemma NormalizeKeepsNoUpper(t: string)
    requires NoUpper(t)
    ensures NoUpper(Normalize(t))
  {
    SqueezeKeepsNoUpper(t);
    StripKeepsNoUpper(Squeeze(t));
  }

  /** Cleaned text holds no URL: each one became the token. */
  lemma CleanTextLeavesNoUrl(libs: TextLibs, s: string)
    ensures NoUrl(CleanText(libs, s))
  {
    var lowered := LowerString(libs.htmlText(s));
    SubUrlsLeavesNoUrl(lowered);
    NormalizeLeavesNoUrl(SubUrls(lowered));
  }

  /** Cleaned text holds no upper-case letter. */
  lemma CleanTextIsLowerCase(libs: TextLibs, s: string)
    ensures NoUpper(CleanText(libs, s))
  {
    var lowered := LowerString(libs.htmlText(s));
    ReplaceKeepsNoUpper(lowered, Matches(lowered, 0), 0);
    NormalizeKeepsNoUpper(SubUrls(lowered));
  }

  /** Cleaned text is the words of the substituted text, joined by single spaces. */
  lemma CleanTextJoinsWords(libs: TextLibs, s: string)
    ensures CleanText(libs, s) == JoinWords(Words(SubUrls(LowerString(libs.htmlText(s)))))
    ensures Words(CleanText(libs, s)) == Words(SubUrls(LowerString(libs.htmlText(s))))
  {
    NormalizeJoinsWords(SubUrls(LowerString(libs.htmlText(s))));
    WordsOfNormalize(SubUrls(LowerString(libs.htmlText(s))));
  }

  /** Cleaning keeps every non-whitespace character of the substituted text, in order. */
  lemma CleanTextKeepsText(libs: TextLibs, s: string)
    ensures NonSpaces(CleanText(libs, s)) == NonSpaces(SubUrls(LowerString(libs.htmlText(s))))
  {
    NormalizeKeepsText(SubUrls(LowerString(libs.htmlText(s))));
  }

  // --------------------------------------------------------------- features

  /** The dictionary literal of `build_features`: each value under its feature name. */
  function FeatureMap(charLen: real, wordLen: real, numDigits: real, numUrls: real, numDomains: real,
                      upperRatio: real): (f: map<string, real>)
    ensures f.Keys == {"char_len", "word_len", "num_digits", "num_urls", "num_domains", "upper_ratio"}
    ensures f["char_len"] == charLen && f["word_len"] == wordLen && f["num_digits"] == numDigits
    ensures f["num_urls"] == numUrls && f["num_domains"] == numDomains && f["upper_ratio"] == upperRatio
  {
    map[
      "char_len" := charLen,
      "word_len" := wordLen,
      "num_digits" := numDigits,
      "num_urls" := numUrls,
      "num_domains" := numDomains,
      "upper_ratio" := upperRatio]
  }

  /** `build_features(text)`: the six model inputs, by name. */
  function BuildFeatures(libs: TextLibs, text: string): (f: map<string, real>)
    ensures f.Keys == {"char_len", "word_len", "num_digits", "num_urls", "num_domains", "upper_ratio"}
    ensures HasFeatureColumns(f)
  {
    var clean := CleanText(libs, text);
    FeatureMap(|clean| as real, WordCount(clean) as real, CountDigits(text) as real, CountUrls(text) as real,
      DomainCount(libs, text) as real, UpperRatio(text))
  }

  /** Every feature column has a value, and nothing else does. */
  lemma BuildFeaturesCoversSchema(libs: TextLibs, text: string)
    ensures forall c :: c in BuildFeatures(libs, text) <==> c in FeatureColumns
  {
  }

  /** The ranges of the features: no more words than characters, digits and URLs bounded by the
      length, no more distinct domains than URLs, and a ratio between 0 and 1. */
  lemma FeatureBounds(libs: TextLibs, text: string)
    ensures var f := BuildFeatures(libs, text);
      && 0.0 <= f["word_len"] <= f["char_len"]
      && 0.0 <= f["num_digits"] <= |text| as real
      && 0.0 <= f["num_domains"] <= f["num_urls"] <= |text| as real
      && 0.0 <= f["upper_ratio"] <= 1.0
  {
  }

  /** The word count of a non-empty cleaned text is one more than its number of spaces. */
  lemma WordLenCountsSpaces(libs: TextLibs, text: string)
    requires CleanText(libs, text) != []
    ensures BuildFeatures(libs, text)["word_len"] ==
      (CountMatching(CleanText(libs, text), IsSpace) + 1) as real
  {
    WordCountOfNormal(CleanText(libs, text));
  }
}
