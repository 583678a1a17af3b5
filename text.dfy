/** The Python string operations the core relies on: `str.isspace`, `str.lower`,
    `str.split()`, `str.split(',')`, `str.strip()` and `str.endswith`. */
module Text {

  /** The characters Python's `str.isspace` accepts; `split()` and `strip()` cut on exactly these. */
  predicate IsSpace(c: char) {
    c == ' ' || '\t' <= c <= '\r' || '\U{1c}' <= c <= '\U{1f}' || c == '\U{85}' || c == '\U{a0}'
    || c == '\U{1680}' || '\U{2000}' <= c <= '\U{200a}' || c == '\U{2028}' || c == '\U{2029}'
    || c == '\U{202f}' || c == '\U{205f}' || c == '\U{3000}'
  }

  predicate NoSpace(s: string) {
    forall i :: 0 <= i < |s| ==> !IsSpace(s[i])
  }

  /** `str.lower` on one character; only the ASCII letters are mapped. */
  function LowerChar(c: char): (d: char)
    ensures IsSpace(d) <==> IsSpace(c)
    ensures d == ',' <==> c == ','
    ensures !('A' <= d <= 'Z')
  {
    if 'A' <= c <= 'Z' then (c as int + 32) as char else c
  }

  function Lower(s: string): (t: string)
    ensures |t| == |s|
  {
    seq(|s|, i requires 0 <= i < |s| => LowerChar(s[i]))
  }

  lemma LowerIdempotent(s: string)
    ensures Lower(Lower(s)) == Lower(s)
  {
  }

  lemma LowerAppend(a: string, b: string)
    ensures Lower(a + b) == Lower(a) + Lower(b)
  {
    assert forall i :: 0 <= i < |a + b| ==> Lower(a + b)[i] == (Lower(a) + Lower(b))[i];
  }

  /** Lower-casing keeps whitespace and commas where they are and leaves no ASCII capital. */
  lemma LowerKeepsClasses(s: string)
    ensures forall k :: 0 <= k < |s| ==> (IsSpace(Lower(s)[k]) <==> IsSpace(s[k]))
    ensures forall k :: 0 <= k < |s| ==> !('A' <= Lower(s)[k] <= 'Z')
    ensures ',' in Lower(s) <==> ',' in s
  {
    var t := Lower(s);
    assert forall k :: 0 <= k < |s| ==> t[k] == LowerChar(s[k]);
    if ',' in t {
      var k :| 0 <= k < |t| && t[k] == ',';
      assert s[k] == ',';
    }
    if ',' in s {
      var k :| 0 <= k < |s| && s[k] == ',';
      assert t[k] == ',';
    }
  }

  lemma LowerSlice(s: string, lo: nat, hi: nat)
    requires lo <= hi <= |s|
    ensures Lower(s)[lo..hi] == Lower(s[lo..hi])
  {
    assert forall i :: 0 <= i < hi - lo ==> Lower(s)[lo..hi][i] == Lower(s[lo..hi])[i];
  }

  /** `s.endswith(suffix)`. */
  predicate EndsWith(s: string, suffix: string) {
    |suffix| <= |s| && s[|s| - |suffix|..] == suffix
  }

  // ---------------------------------------------------------------------------
  // str.split() with no separator

  /** Length of the run of non-space characters that starts `s`. */
  function WordLength(s: string): (n: nat)
    ensures n <= |s| && NoSpace(s[..n])
    ensures n < |s| ==> IsSpace(s[n])
    ensures s != [] && !IsSpace(s[0]) ==> n > 0
  {
    if s == [] || IsSpace(s[0]) then 0 else 1 + WordLength(s[1..])
  }

  /** `s.split()`: the maximal runs of non-space characters, in order. */
  function Words(s: string): seq<string>
    decreases |s|
  {
    if s == [] then []
    else if IsSpace(s[0]) then Words(s[1..])
    else
      var n := WordLength(s);
      [s[..n]] + Words(s[n..])
  }

  /** Every word is non-empty and holds no whitespace. */
  lemma {:induction false} WordsAreWords(s: string)
    ensures forall i :: 0 <= i < |Words(s)| ==> Words(s)[i] != [] && NoSpace(Words(s)[i])
    decreases |s|
  {
    if s != [] {
      if IsSpace(s[0]) {
        WordsAreWords(s[1..]);
      } else {
        var n := WordLength(s);
        WordsAreWords(s[n..]);
        assert Words(s) == [s[..n]] + Words(s[n..]);
      }
    }
  }

  /** A run with no whitespace is one word from start to end. */
  lemma {:induction false} WordLengthOfWord(w: string)
    requires NoSpace(w)
    ensures WordLength(w) == |w|
  {
    if w != [] {
      WordLengthOfWord(w[1..]);
    }
  }

  /** `w.split() == [w]` for a non-empty `w` without whitespace, so together with
      `WordsAppend` the words of any text are fixed. */
  lemma WordsOfWord(w: string)
    requires w != [] && NoSpace(w)
    ensures Words(w) == [w]
  {
    WordLengthOfWord(w);
    assert w[..|w|] == w && w[|w|..] == [];
  }

  lemma {:induction false} WordLengthBeforeSpace(x: string, c: char, y: string)
    requires IsSpace(c)
    ensures WordLength(x + [c] + y) == WordLength(x)
  {
    if x != [] && !IsSpace(x[0]) {
      assert (x + [c] + y)[1..] == x[1..] + [c] + y;
      WordLengthBeforeSpace(x[1..], c, y);
    }
  }

  /** Text that starts with a word: that word, then the words of the rest. */
  lemma WordsOfWordStart(s: string)
    requires s != [] && !IsSpace(s[0])
    ensures Words(s) == [s[..WordLength(s)]] + Words(s[WordLength(s)..])
  {
  }

  /** Leading whitespace contributes no word. */
  lemma WordsOfSpaceStart(s: string)
    requires s != [] && IsSpace(s[0])
    ensures Words(s) == Words(s[1..])
  {
  }

  /** The slices of `a + [c] + b` around the first word of `a`. */
  lemma WordStartSlices(a: string, c: char, b: string, n: nat)
    requires n <= |a|
    ensures (a + [c] + b)[..n] == a[..n] && (a + [c] + b)[n..] == a[n..] + [c] + b
  {
  }

  /** The step of `WordsAppend` when `a` starts with whitespace. */
  lemma WordsAppendSpace(a: string, c: char, b: string)
    requires IsSpace(c) && a != [] && IsSpace(a[0])
    requires Words(a[1..] + [c] + b) == Words(a[1..]) + Words(b)
    ensures Words(a + [c] + b) == Words(a) + Words(b)
  {
    var s := a + [c] + b;
    WordStartSlices(a, c, b, 1);
    assert s[0] == a[0];
    WordsOfSpaceStart(s);
    WordsOfSpaceStart(a);
  }

  /** The step of `WordsAppend` when `a` starts with a word. */
  lemma WordsAppendWord(a: string, c: char, b: string)
    requires IsSpace(c) && a != [] && !IsSpace(a[0])
    requires Words(a[WordLength(a)..] + [c] + b) == Words(a[WordLength(a)..]) + Words(b)
    ensures Words(a + [c] + b) == Words(a) + Words(b)
  {
    var s := a + [c] + b;
    var n := WordLength(a);
    WordLengthBeforeSpace(a, c, b);
    WordStartSlices(a, c, b, n);
    assert s[0] == a[0];
    WordsOfWordStart(s);
    WordsOfWordStart(a);
    var p, q := Words(a[n..]), Words(b);
    assert Words(s) == [a[..n]] + (p + q);
    assert [a[..n]] + (p + q) == ([a[..n]] + p) + q;
  }

  /** Splitting text joined by one whitespace character splits each side on its own. */
  lemma {:induction false} WordsAppend(a: string, c: char, b: string)
    requires IsSpace(c)
    ensures Words(a + [c] + b) == Words(a) + Words(b)
    decreases |a|
  {
    if a == [] {
      var s := a + [c] + b;
      assert s[0] == c && s[1..] == b;
      assert Words(s) == Words(b);
    } else if IsSpace(a[0]) {
      WordsAppend(a[1..], c, b);
      WordsAppendSpace(a, c, b);
    } else {
      WordsAppend(a[WordLength(a)..], c, b);
      WordsAppendWord(a, c, b);
    }
  }

  // ---------------------------------------------------------------------------
  // str.split(',')

  /** The index of the first comma at or after `i`, or |s|. */
  function NextComma(s: string, i: nat): (j: nat)
    requires i <= |s|
    ensures i <= j <= |s|
    ensures forall k :: i <= k < j ==> s[k] != ','
    ensures j < |s| ==> s[j] == ','
    decreases |s| - i
  {
    if i == |s| || s[i] == ',' then i else NextComma(s, i + 1)
  }

  /** `s.split(',')`: the pieces between commas, empty pieces included; never empty. */
  function SplitComma(s: string): (parts: seq<string>)
    ensures |parts| >= 1
    decreases |s|
  {
    var j := NextComma(s, 0);
    if j == |s| then [s] else [s[..j]] + SplitComma(s[j + 1..])
  }

  /** Text without a comma is one piece. */
  lemma SplitCommaOfPiece(s: string)
    requires ',' !in s
    ensures SplitComma(s) == [s]
  {
    assert NextComma(s, 0) == |s|;
  }

  /** No piece contains the separator. */
  lemma {:induction false} SplitCommaNoComma(s: string)
    ensures forall i :: 0 <= i < |SplitComma(s)| ==> ',' !in SplitComma(s)[i]
    decreases |s|
  {
    var j := NextComma(s, 0);
    assert ',' !in s[..j];
    if j < |s| {
      SplitCommaNoComma(s[j + 1..]);
    }
  }

  /** `','.join(parts)`. */
  function JoinComma(parts: seq<string>): string
    requires |parts| >= 1
  {
    if |parts| == 1 then parts[0] else parts[0] + [','] + JoinComma(parts[1..])
  }

  /** Joining the pieces back with commas gives the original text. */
  lemma {:induction false} JoinSplitComma(s: string)
    ensures JoinComma(SplitComma(s)) == s
    decreases |s|
  {
    var j := NextComma(s, 0);
    if j < |s| {
      var rest := SplitComma(s[j + 1..]);
      JoinSplitComma(s[j + 1..]);
      assert SplitComma(s) == [s[..j]] + rest;
      assert s == s[..j] + [','] + s[j + 1..];
    }
  }

  /** A comma placed after `a` is the first one unless `a` already has one. */
  lemma {:induction false} NextCommaAppend(a: string, b: string, i: nat)
    requires i <= |a|
    ensures NextComma(a + [','] + b, i) == NextComma(a, i)
    decreases |a| - i
  {
    var s := a + [','] + b;
    if i < |a| {
      assert s[i] == a[i];
      NextCommaAppend(a, b, i + 1);
    } else {
      assert s[i] == ',';
    }
  }

  lemma CommaJoinSlices(a: string, b: string, j: nat)
    requires j < |a|
    ensures (a + [','] + b)[..j] == a[..j]
    ensures (a + [','] + b)[j + 1..] == a[j + 1..] + [','] + b
  {
  }

  /** Splitting text joined by a comma splits each side on its own. */
  lemma {:induction false} SplitCommaAppend(a: string, b: string)
    ensures SplitComma(a + [','] + b) == SplitComma(a) + SplitComma(b)
    decreases |a|
  {
    var j := NextComma(a, 0);
    NextCommaAppend(a, b, 0);
    if j == |a| {
      assert (a + [','] + b)[..j] == a && (a + [','] + b)[j + 1..] == b;
      assert SplitComma(a + [','] + b) == [a] + SplitComma(b);
    } else {
      var rest := a[j + 1..];
      CommaJoinSlices(a, b, j);
      SplitCommaAppend(rest, b);
      var p, q := SplitComma(rest), SplitComma(b);
      assert SplitComma(a + [','] + b) == [a[..j]] + (p + q);
      assert [a[..j]] + (p + q) == ([a[..j]] + p) + q;
    }
  }

  // ---------------------------------------------------------------------------
  // str.strip()

  /** The index of the first non-space character at or after `i`, or |s|. */
  function SkipSpaces(s: string, i: nat): (j: nat)
    requires i <= |s|
    ensures i <= j <= |s|
    ensures forall k :: i <= k < j ==> IsSpace(s[k])
    ensures j < |s| ==> !IsSpace(s[j])
    decreases |s| - i
  {
    if i == |s| || !IsSpace(s[i]) then i else SkipSpaces(s, i + 1)
  }

  /** The end of `s[lo..hi]` once its trailing whitespace is dropped. */
  function TrimEnd(s: string, lo: nat, hi: nat): (j: nat)
    requires lo <= hi <= |s|
    ensures lo <= j <= hi
    ensures forall k :: j <= k < hi ==> IsSpace(s[k])
    ensures j > lo ==> !IsSpace(s[j - 1])
    decreases hi - lo
  {
    if hi == lo || !IsSpace(s[hi - 1]) then hi else TrimEnd(s, lo, hi - 1)
  }

  /** `s.strip()`: the text with leading and trailing whitespace removed. */
  function Strip(s: string): (t: string)
    ensures t == [] || (!IsSpace(t[0]) && !IsSpace(t[|t| - 1]))
  {
    var lo := SkipSpaces(s, 0);
    s[lo..TrimEnd(s, lo, |s|)]
  }

  /** Stripping removes whitespace only, and only at the two ends. */
  lemma StripRemovesOnlyEnds(s: string)
    ensures exists lo, hi :: 0 <= lo <= hi <= |s| && Strip(s) == s[lo..hi] &&
              (forall k :: 0 <= k < lo ==> IsSpace(s[k])) && (forall k :: hi <= k < |s| ==> IsSpace(s[k]))
  {
    var lo := SkipSpaces(s, 0);
    var hi := TrimEnd(s, lo, |s|);
    assert Strip(s) == s[lo..hi];
  }

  /** Text without whitespace is its own strip. */
  lemma StripNoSpace(s: string)
    requires NoSpace(s)
    ensures Strip(s) == s
  {
    assert SkipSpaces(s, 0) == 0;
    assert TrimEnd(s, 0, |s|) == |s|;
  }

  /** Stripping only removes characters. */
  lemma StripKeepsCharacters(s: string)
    ensures forall c :: c in Strip(s) ==> c in s
  {
    var lo := SkipSpaces(s, 0);
    var hi := TrimEnd(s, lo, |s|);
    forall c | c in Strip(s)
      ensures c in s
    {
      var k :| 0 <= k < hi - lo && s[lo..hi][k] == c;
      assert s[lo + k] == c;
    }
  }

  /** Lower-casing never creates or removes whitespace, so the scans find the same ends. */
  lemma {:induction false} SkipSpacesLower(s: string, i: nat)
    requires i <= |s|
    ensures SkipSpaces(Lower(s), i) == SkipSpaces(s, i)
    decreases |s| - i
  {
    if i < |s| {
      assert Lower(s)[i] == LowerChar(s[i]);
      SkipSpacesLower(s, i + 1);
    }
  }

  lemma {:induction false} TrimEndLower(s: string, lo: nat, hi: nat)
    requires lo <= hi <= |s|
    ensures TrimEnd(Lower(s), lo, hi) == TrimEnd(s, lo, hi)
    decreases hi - lo
  {
    if lo < hi {
      assert Lower(s)[hi - 1] == LowerChar(s[hi - 1]);
      TrimEndLower(s, lo, hi - 1);
    }
  }

  /** Stripping and lower-casing commute. */
  lemma StripLower(s: string)
    ensures Strip(Lower(s)) == Lower(Strip(s))
  {
    SkipSpacesLower(s, 0);
    var lo := SkipSpaces(s, 0);
    TrimEndLower(s, lo, |s|);
    var hi := TrimEnd(s, lo, |s|);
    assert Strip(Lower(s)) == Lower(s)[lo..hi];
    assert Strip(s) == s[lo..hi];
    LowerSlice(s, lo, hi);
  }

  /** Lower-casing never creates or removes commas, so `split(',')` sees the same pieces. */
  lemma {:induction false} NextCommaLower(s: string, i: nat)
    requires i <= |s|
    ensures NextComma(Lower(s), i) == NextComma(s, i)
    decreases |s| - i
  {
    if i < |s| {
      assert Lower(s)[i] == LowerChar(s[i]);
      NextCommaLower(s, i + 1);
    }
  }

  /** Every piece lower-cased. */
  function LowerEach(parts: seq<string>): (r: seq<string>)
    ensures |r| == |parts| && forall i :: 0 <= i < |parts| ==> r[i] == Lower(parts[i])
  {
    if parts == [] then [] else [Lower(parts[0])] + LowerEach(parts[1..])
  }

  lemma {:induction false} SplitCommaLower(s: string)
    ensures SplitComma(Lower(s)) == LowerEach(SplitComma(s))
    decreases |s|
  {
    var j := NextComma(s, 0);
    NextCommaLower(s, 0);
    var low := Lower(s);
    if j == |s| {
      assert SplitComma(low) == [low];
      assert SplitComma(s) == [s];
    } else {
      var rest := s[j + 1..];
      LowerSlice(s, 0, j);
      LowerSlice(s, j + 1, |s|);
      assert low[..j] == Lower(s[..j]) && low[j + 1..] == Lower(rest);
      SplitCommaLower(rest);
      var parts := SplitComma(rest);
      assert SplitComma(low) == [Lower(s[..j])] + LowerEach(parts);
      assert SplitComma(s) == [s[..j]] + parts;
      assert ([s[..j]] + parts)[1..] == parts;
    }
  }
}
