/** The string primitives the indexer relies on, as Python defines them for
    `str`: `split()` with no separator, `split(maxsplit=1)`, `strip()` and
    `split(sep)` with a one-character separator. */
module Text {

  /** Python's `str.isspace` table, which `split()` and `strip()` use to find
      separators: ASCII tab..carriage return, the four information separators,
      space, and the Unicode space characters. */
  predicate IsWhitespace(c: char) {
    || c == ' '
    || ('\t' <= c <= '\r')
    || ('\U{1c}' <= c <= '\U{1f}')
    || c == '\U{85}' || c == '\U{a0}' || c == '\U{1680}'
    || ('\U{2000}' <= c <= '\U{200a}')
    || c == '\U{2028}' || c == '\U{2029}' || c == '\U{202f}' || c == '\U{205f}'
    || c == '\U{3000}'
  }

  predicate NoWhitespace(s: string) {
    forall i :: 0 <= i < |s| ==> !IsWhitespace(s[i])
  }

  predicate AllWhitespace(s: string) {
    forall i :: 0 <= i < |s| ==> IsWhitespace(s[i])
  }

  /** Length of the run of non-whitespace characters that begins `s`. */
  function WordLength(s: string): (n: nat)
    ensures n <= |s|
    ensures NoWhitespace(s[..n])
    ensures n == |s| || IsWhitespace(s[n])
  {
    if |s| == 0 || IsWhitespace(s[0]) then 0 else 1 + WordLength(s[1..])
  }

  // ---------------------------------------------------------------------------
  // str.split() with no arguments

  /** The whitespace-delimited tokens of `s`, left to right; runs of whitespace
      separate tokens and leading or trailing whitespace yields no token. */
  function Split(s: string): (r: seq<string>)
    ensures forall k :: 0 <= k < |r| ==> r[k] != [] && NoWhitespace(r[k])
    decreases |s|
  {
    if |s| == 0 then []
    else if IsWhitespace(s[0]) then Split(s[1..])
    else
      var n := WordLength(s);
      [s[..n]] + Split(s[n..])
  }

  lemma SplitUnfold(s: string)
    requires |s| > 0
    ensures IsWhitespace(s[0]) ==> Split(s) == Split(s[1..])
    ensures !IsWhitespace(s[0]) ==> Split(s) == [s[..WordLength(s)]] + Split(s[WordLength(s)..])
  {
  }

  /** `s[i..j]` is a maximal run of non-whitespace characters of `s`. */
  ghost predicate IsTokenAt(s: string, i: int, j: int) {
    && 0 <= i < j <= |s|
    && (i == 0 || IsWhitespace(s[i - 1]))
    && (j == |s| || IsWhitespace(s[j]))
    && NoWhitespace(s[i..j])
  }

  /** Token positions of a suffix `s[d..]` are those of `s`, shifted by `d`,
      provided the suffix starts at a token boundary. */
  lemma TokenShift(s: string, d: nat, i: int, j: int)
    requires d <= |s| && 0 <= i
    requires 1 <= i || d == 0 || IsWhitespace(s[d - 1])
    ensures IsTokenAt(s[d..], i, j) <==> IsTokenAt(s, d + i, d + j)
    ensures 0 <= i <= j <= |s| - d ==> s[d..][i..j] == s[d + i..d + j]
  {
    if 0 <= i <= j <= |s| - d {
      assert s[d..][i..j] == s[d + i..d + j];
      if 0 < i {
        assert s[d..][i - 1] == s[d + i - 1];
      }
      if j < |s| - d {
        assert s[d..][j] == s[d + j];
      }
    }
  }

  lemma {:induction false} SplitTokensAreTokens(s: string, t: string)
    requires t in Split(s)
    ensures exists i, j :: IsTokenAt(s, i, j) && s[i..j] == t
    decreases |s|
  {
    if IsWhitespace(s[0]) {
      SplitTokensAreTokens(s[1..], t);
      var i, j :| IsTokenAt(s[1..], i, j) && s[1..][i..j] == t;
      TokenShift(s, 1, i, j);
    } else {
      var n := WordLength(s);
      if t == s[..n] {
        assert IsTokenAt(s, 0, n) && s[0..n] == t;
      } else {
        assert t in Split(s[n..]);
        SplitTokensAreTokens(s[n..], t);
        var i, j :| IsTokenAt(s[n..], i, j) && s[n..][i..j] == t;
        assert s[n..][i] == s[n + i];
        TokenShift(s, n, i, j);
      }
    }
  }

  /** A token starting at 0 ends where the leading word ends. */
  lemma FirstTokenIsLeadingWord(s: string, j: int)
    requires IsTokenAt(s, 0, j)
    ensures j == WordLength(s)
  {
    var n := WordLength(s);
    assert forall k :: 0 <= k < j ==> s[0..j][k] == s[k];
    assert forall k :: 0 <= k < n ==> s[..n][k] == s[k];
  }

  lemma TokenAfterLeadingSpace(s: string, i: int, j: int)
    requires IsTokenAt(s, i, j) && IsWhitespace(s[0])
    ensures 1 <= i && IsTokenAt(s[1..], i - 1, j - 1) && s[1..][i - 1..j - 1] == s[i..j]
  {
    assert s[i..j][0] == s[i];
    TokenShift(s, 1, i - 1, j - 1);
  }

  lemma TokenAfterLeadingWord(s: string, i: int, j: int)
    requires IsTokenAt(s, i, j) && 0 < i
    ensures WordLength(s) < i
    ensures IsTokenAt(s[WordLength(s)..], i - WordLength(s), j - WordLength(s))
    ensures s[WordLength(s)..][i - WordLength(s)..j - WordLength(s)] == s[i..j]
  {
    var n := WordLength(s);
    assert forall k :: 0 <= k < n ==> !IsWhitespace(s[k]) by {
      assert forall k :: 0 <= k < n ==> s[..n][k] == s[k];
    }
    assert IsWhitespace(s[i - 1]);
    TokenShift(s, n, i - n, j - n);
  }

  lemma {:induction false} TokensAreSplitTokens(s: string, i: int, j: int)
    requires IsTokenAt(s, i, j)
    ensures s[i..j] in Split(s)
    decreases |s|
  {
    var t := s[i..j];
    if IsWhitespace(s[0]) {
      TokenAfterLeadingSpace(s, i, j);
      TokensAreSplitTokens(s[1..], i - 1, j - 1);
      SplitUnfold(s);
    } else if i == 0 {
      FirstTokenIsLeadingWord(s, j);
      SplitUnfold(s);
    } else {
      TokenAfterLeadingWord(s, i, j);
      var n := WordLength(s);
      TokensAreSplitTokens(s[n..], i - n, j - n);
      SplitUnfold(s);
    }
  }

  /** `split()` returns exactly the maximal whitespace-free runs of `s`. */
  lemma SplitFindsExactlyTheTokens(s: string, t: string)
    ensures t in Split(s) <==> exists i, j :: IsTokenAt(s, i, j) && s[i..j] == t
  {
    if t in Split(s) {
      SplitTokensAreTokens(s, t);
    }
    if exists i, j :: IsTokenAt(s, i, j) && s[i..j] == t {
      var i, j :| IsTokenAt(s, i, j) && s[i..j] == t;
      TokensAreSplitTokens(s, i, j);
    }
  }

  // ---------------------------------------------------------------------------
  // Facts about split() on concatenations

  lemma {:induction false} SplitAllWhitespace(s: string)
    ensures Split(s) == [] <==> AllWhitespace(s)
    decreases |s|
  {
    if |s| > 0 {
      SplitAllWhitespace(s[1..]);
      if IsWhitespace(s[0]) {
        assert AllWhitespace(s) <==> AllWhitespace(s[1..]);
      }
    }
  }

  /** Leading whitespace contributes no token. */
  lemma {:induction false} SplitSkipsLeading(w: string, x: string)
    requires AllWhitespace(w)
    ensures Split(w + x) == Split(x)
    decreases |w|
  {
    if |w| > 0 {
      assert (w + x)[0] == w[0];
      assert (w + x)[1..] == w[1..] + x;
      assert Split(w + x) == Split((w + x)[1..]);
      SplitSkipsLeading(w[1..], x);
    } else {
      assert w + x == x;
    }
  }

  /** `WordLength` only looks as far as the first whitespace character. */
  lemma {:induction false} WordLengthAppend(x: string, y: string)
    requires WordLength(x) < |x| || y == [] || IsWhitespace(y[0])
    ensures WordLength(x + y) == WordLength(x)
    decreases |x|
  {
    if |x| == 0 {
    } else if !IsWhitespace(x[0]) {
      assert (x + y)[1..] == x[1..] + y;
      WordLengthAppend(x[1..], y);
    }
  }

  /** A whitespace-free word followed by a separator (or nothing) is the first
      token. */
  lemma SplitWordThen(t: string, x: string)
    requires t != [] && NoWhitespace(t)
    requires x == [] || IsWhitespace(x[0])
    ensures Split(t + x) == [t] + Split(x)
  {
    assert WordLength(t) == |t|;
    WordLengthAppend(t, x);
    assert (t + x)[..|t|] == t;
    assert (t + x)[|t|..] == x;
  }

  /** Trailing whitespace contributes no token. */
  lemma {:induction false} SplitDropsTrailing(x: string, w: string)
    requires AllWhitespace(w)
    ensures Split(x + w) == Split(x)
    decreases |x|
  {
    if |x| == 0 {
      assert x + w == w;
      SplitAllWhitespace(w);
    } else if IsWhitespace(x[0]) {
      assert (x + w)[1..] == x[1..] + w;
      SplitDropsTrailing(x[1..], w);
    } else {
      var n := WordLength(x);
      WordLengthAppend(x, w);
      assert (x + w)[..n] == x[..n];
      assert (x + w)[n..] == x[n..] + w;
      SplitDropsTrailing(x[n..], w);
    }
  }

  // ---------------------------------------------------------------------------
  // str.strip() with no arguments

  /** Length of the run of whitespace that begins `s`. */
  function SpaceLength(s: string): (n: nat)
    ensures n <= |s|
    ensures AllWhitespace(s[..n])
    ensures n == |s| || !IsWhitespace(s[n])
  {
    if |s| == 0 || !IsWhitespace(s[0]) then 0 else 1 + SpaceLength(s[1..])
  }

  /** Length of the run of whitespace that ends `s`. */
  function TrailingSpaceLength(s: string): (n: nat)
    ensures n <= |s|
    ensures AllWhitespace(s[|s| - n..])
    ensures n == |s| || !IsWhitespace(s[|s| - n - 1])
    decreases |s|
  {
    if |s| == 0 || !IsWhitespace(s[|s| - 1]) then 0
    else
      var n := TrailingSpaceLength(s[..|s| - 1]);
      assert s[|s| - 1 - n..] == s[..|s| - 1][|s| - 1 - n..] + [s[|s| - 1]];
      1 + n
  }

  /** `s` without its leading whitespace (`str.lstrip()`). */
  function TrimLeft(s: string): (r: string)
    ensures |r| <= |s| && r == s[|s| - |r|..]
    ensures AllWhitespace(s[..|s| - |r|])
    ensures r == [] || !IsWhitespace(r[0])
  {
    s[SpaceLength(s)..]
  }

  /** `s` without its trailing whitespace (`str.rstrip()`). */
  function TrimRight(s: string): (r: string)
    ensures |r| <= |s| && r == s[..|r|]
    ensures AllWhitespace(s[|r|..])
    ensures r == [] || !IsWhitespace(r[|r| - 1])
  {
    s[..|s| - TrailingSpaceLength(s)]
  }

  /** `str.strip()`: `s` without its leading and trailing whitespace. */
  function Strip(s: string): (r: string)
    ensures |r| <= |s|
    ensures r == [] || (!IsWhitespace(r[0]) && !IsWhitespace(r[|r| - 1]))
  {
    var a := TrimLeft(s);
    var r := TrimRight(a);
    assert r != [] ==> r[0] == a[0];
    r
  }

  /** The stripped string is the slice of `s` that starts after the leading
      whitespace and leaves only whitespace after it; with the end conditions
      of `Strip` this determines it. */
  lemma StripIsSlice(s: string)
    ensures SpaceLength(s) + |Strip(s)| <= |s|
    ensures Strip(s) == s[SpaceLength(s)..SpaceLength(s) + |Strip(s)|]
    ensures AllWhitespace(s[..SpaceLength(s)])
    ensures AllWhitespace(s[SpaceLength(s) + |Strip(s)|..])
  {
    StripIsInner(s);
    StripLeavesSpace(s);
  }

  lemma StripIsInner(s: string)
    ensures SpaceLength(s) + |Strip(s)| <= |s|
    ensures Strip(s) == s[SpaceLength(s)..SpaceLength(s) + |Strip(s)|]
  {
    var i := SpaceLength(s);
    var r := TrimRight(s[i..]);
    SliceOfSuffix(s, i, i + |r|);
  }

  lemma StripLeavesSpace(s: string)
    ensures SpaceLength(s) + |Strip(s)| <= |s|
    ensures AllWhitespace(s[SpaceLength(s) + |Strip(s)|..])
  {
    var i := SpaceLength(s);
    var r := TrimRight(s[i..]);
    SliceOfSuffix(s, i, i + |r|);
  }

  lemma SliceOfSuffix(s: string, i: nat, j: nat)
    requires i <= j <= |s|
    ensures s[i..][..j - i] == s[i..j]
    ensures s[i..][j - i..] == s[j..]
  {
  }

  lemma SplitTrimLeft(s: string)
    ensures Split(TrimLeft(s)) == Split(s)
  {
    var a := TrimLeft(s);
    assert s == s[..|s| - |a|] + a;
    SplitSkipsLeading(s[..|s| - |a|], a);
  }

  lemma SplitTrimRight(s: string)
    ensures Split(TrimRight(s)) == Split(s)
  {
    var r := TrimRight(s);
    assert s == r + s[|r|..];
    SplitDropsTrailing(r, s[|r|..]);
  }

  /** Stripping removes no token. */
  lemma StripKeepsTokens(s: string)
    ensures Split(Strip(s)) == Split(s)
  {
    SplitTrimLeft(s);
    SplitTrimRight(TrimLeft(s));
  }

  lemma StripIsIdempotent(s: string)
    ensures Strip(Strip(s)) == Strip(s)
  {
    var r := Strip(s);
    assert TrimLeft(r) == r;
    assert TrimRight(r) == r;
  }

  // ---------------------------------------------------------------------------
  // str.split(maxsplit=1)

  /** `s.split(maxsplit=1)`: no field for a blank string, else the first token
      and, when anything but whitespace follows it, that remainder with its
      leading whitespace removed (trailing whitespace is kept). */
  function SplitOnce(s: string): (r: seq<string>)
    ensures |r| <= 2
    ensures forall k :: 0 <= k < |r| ==> r[k] != []
    ensures |r| >= 1 ==> NoWhitespace(r[0])
    ensures |r| == 2 ==> !IsWhitespace(r[1][0])
  {
    var a := TrimLeft(s);
    if a == [] then []
    else
      var n := WordLength(a);
      var rest := TrimLeft(a[n..]);
      if rest == [] then [a[..n]] else [a[..n], rest]
  }

  lemma SplitOnceAgreesWithSplit(s: string)
    ensures |SplitOnce(s)| == if |Split(s)| < 2 then |Split(s)| else 2
    ensures |SplitOnce(s)| >= 1 ==> SplitOnce(s)[0] == Split(s)[0]
    ensures |SplitOnce(s)| == 2 ==> Split(s) == [SplitOnce(s)[0]] + Split(SplitOnce(s)[1])
    ensures |SplitOnce(s)| == 2 ==> SplitOnce(s)[1] != [] && !IsWhitespace(SplitOnce(s)[1][0])
  {
    var a := TrimLeft(s);
    SplitTrimLeft(s);
    if a != [] {
      var n := WordLength(a);
      assert Split(a) == [a[..n]] + Split(a[n..]);
      var rest := TrimLeft(a[n..]);
      SplitTrimLeft(a[n..]);
      SplitAllWhitespace(rest);
    }
  }

  /** The second field of `s.split(maxsplit=1)` is the part of `s` that starts
      at its second token: a suffix of `s` whose prefix holds the first token
      and nothing else. */
  lemma SplitOnceRemainderIsSuffix(s: string)
    requires |SplitOnce(s)| == 2
    ensures |SplitOnce(s)[1]| < |s|
    ensures SplitOnce(s)[1] == s[|s| - |SplitOnce(s)[1]|..]
    ensures Split(s[..|s| - |SplitOnce(s)[1]|]) == [SplitOnce(s)[0]]
  {
    SplitOnceRemainderAt(s);
    SplitOnceFirstTokenBefore(s);
  }

  lemma SplitOnceRemainderAt(s: string)
    requires |SplitOnce(s)| == 2
    ensures |SplitOnce(s)[1]| < |s|
    ensures SplitOnce(s)[1] == s[|s| - |SplitOnce(s)[1]|..]
  {
    var k, n, m := SplitOnceBounds(s);
  }

  lemma SplitOnceFirstTokenBefore(s: string)
    requires |SplitOnce(s)| == 2
    ensures Split(s[..|s| - |SplitOnce(s)[1]|]) == [SplitOnce(s)[0]]
  {
    var k, n, m := SplitOnceBounds(s);
    assert |SplitOnce(s)[1]| == |s| - (k + n + m);
    WordBetweenSpaces(s, k, n, m);
  }

  /** Whitespace, a word and more whitespace split into that word alone. */
  lemma WordBetweenSpaces(s: string, k: nat, n: nat, m: nat)
    requires k + n + m <= |s| && 1 <= n && 1 <= m
    requires AllWhitespace(s[..k]) && NoWhitespace(s[k..k + n]) && AllWhitespace(s[k + n..k + n + m])
    ensures Split(s[..k + n + m]) == [s[k..k + n]]
  {
    var word, space := s[k..k + n], s[k + n..k + n + m];
    ConcatSlices(s, k, k + n, k + n + m);
    SplitWordThenSpace(word, space);
    SplitSkipsLeading(s[..k], word + space);
  }

  lemma ConcatSlices<T>(s: seq<T>, a: nat, b: nat, c: nat)
    requires a <= b <= c <= |s|
    ensures s[..c] == s[..a] + (s[a..b] + s[b..c])
  {
  }

  /** Where `s.split(maxsplit=1)` has two fields, `s` is leading whitespace
      (`k` characters), the first field (`n`), whitespace (`m`) and the
      second field. */
  lemma SplitOnceBounds(s: string) returns (k: nat, n: nat, m: nat)
    requires |SplitOnce(s)| == 2
    ensures k + n + m < |s| && 1 <= n && 1 <= m
    ensures SplitOnce(s) == [s[k..k + n], s[k + n + m..]]
    ensures AllWhitespace(s[..k]) && NoWhitespace(s[k..k + n]) && AllWhitespace(s[k + n..k + n + m])
  {
    SplitOnceUnfold(s);
    k := SpaceLength(s);
    n := WordLength(s[k..]);
    m := SpaceLength(s[k..][n..]);
    NestedSlices(s, k, n, m);
  }

  lemma SplitOnceUnfold(s: string)
    requires |SplitOnce(s)| == 2
    ensures var k := SpaceLength(s);
            var n := WordLength(s[k..]);
            var m := SpaceLength(s[k..][n..]);
            && k + n < |s| && 1 <= n && 1 <= m
            && SplitOnce(s) == [s[k..][..n], s[k..][n..][m..]]
  {
  }

  lemma NestedSlices<T>(s: seq<T>, k: nat, n: nat, m: nat)
    requires k + n + m <= |s|
    ensures s[k..][..n] == s[k..k + n]
    ensures s[k..][n..] == s[k + n..]
    ensures s[k + n..][..m] == s[k + n..k + n + m]
    ensures s[k + n..][m..] == s[k + n + m..]
  {
  }

  /** A word followed by whitespace splits into that word alone. */
  lemma SplitWordThenSpace(t: string, w: string)
    requires t != [] && NoWhitespace(t)
    requires w != [] && AllWhitespace(w)
    ensures Split(t + w) == [t]
  {
    SplitWordThen(t, w);
    SplitAllWhitespace(w);
  }

  /** A word, a space and a text that starts with a non-whitespace character
      split into exactly that word and that text. */
  lemma SplitOnceWordSpace(f: string, text: string)
    requires f != [] && NoWhitespace(f)
    requires text != [] && !IsWhitespace(text[0])
    ensures SplitOnce(f + " " + text) == [f, text]
  {
    var line := f + " " + text;
    assert line[0] == f[0];
    assert TrimLeft(line) == line;
    WordLengthAppend(f, " " + text);
    assert line == f + (" " + text);
    assert WordLength(f) == |f|;
    assert line[..|f|] == f;
    assert line[|f|..] == " " + text;
    assert (" " + text)[1..] == text;
    assert TrimLeft(" " + text) == text;
  }

  // ---------------------------------------------------------------------------
  // str.split(sep) for a one-character separator, and its inverse str.join

  /** `s.split(sep)`: the pieces between occurrences of `sep`, empty pieces
      included, so there is always one more piece than separators. */
  function SplitOn(s: string, sep: char): (r: seq<string>)
    ensures |r| >= 1
    ensures forall k :: 0 <= k < |r| ==> sep !in r[k]
  {
    if |s| == 0 then [[]]
    else if s[0] == sep then [[]] + SplitOn(s[1..], sep)
    else
      var r := SplitOn(s[1..], sep);
      [[s[0]] + r[0]] + r[1..]
  }

  /** `sep.join(ts)`. */
  function JoinWith(ts: seq<string>, sep: string): string
  {
    if |ts| == 0 then []
    else if |ts| == 1 then ts[0]
    else ts[0] + sep + JoinWith(ts[1..], sep)
  }

  lemma JoinCons(a: string, rest: seq<string>, sep: string)
    requires |rest| >= 1
    ensures JoinWith([a] + rest, sep) == a + sep + JoinWith(rest, sep)
  {
    assert ([a] + rest)[1..] == rest;
  }

  /** Joining the pieces with the separator gives back the string. */
  lemma {:induction false} JoinSplitOn(s: string, sep: char)
    ensures JoinWith(SplitOn(s, sep), [sep]) == s
    decreases |s|
  {
    if |s| == 0 {
    } else if s[0] == sep {
      JoinSplitOn(s[1..], sep);
      JoinCons([], SplitOn(s[1..], sep), [sep]);
      assert s == [sep] + s[1..];
    } else {
      var r := SplitOn(s[1..], sep);
      JoinSplitOn(s[1..], sep);
      if |r| == 1 {
        assert s == [s[0]] + s[1..];
      } else {
        JoinCons([s[0]] + r[0], r[1..], [sep]);
        JoinCons(r[0], r[1..], [sep]);
        assert r == [r[0]] + r[1..];
        assert s == [s[0]] + s[1..];
      }
    }
  }

  lemma {:induction false} SplitOnNoSeparator(s: string, sep: char)
    requires sep !in s
    ensures SplitOn(s, sep) == [s]
    decreases |s|
  {
    if |s| > 0 {
      assert sep !in s[1..];
      SplitOnNoSeparator(s[1..], sep);
      assert s == [s[0]] + s[1..];
    }
  }

  lemma {:induction false} SplitOnFirstSeparator(a: string, b: string, sep: char)
    requires sep !in a
    ensures SplitOn(a + [sep] + b, sep) == [a] + SplitOn(b, sep)
    decreases |a|
  {
    if |a| == 0 {
      assert (a + [sep] + b)[1..] == b;
    } else {
      assert (a + [sep] + b)[1..] == a[1..] + [sep] + b;
      assert sep !in a[1..];
      SplitOnFirstSeparator(a[1..], b, sep);
      assert a == [a[0]] + a[1..];
    }
  }

  /** Splitting separator-free pieces joined by the separator gives back the
      pieces. */
  lemma {:induction false} SplitOnJoin(ps: seq<string>, sep: char)
    requires |ps| >= 1
    requires forall k :: 0 <= k < |ps| ==> sep !in ps[k]
    ensures SplitOn(JoinWith(ps, [sep]), sep) == ps
    decreases |ps|
  {
    if |ps| == 1 {
      SplitOnNoSeparator(ps[0], sep);
    } else {
      SplitOnJoin(ps[1..], sep);
      SplitOnFirstSeparator(ps[0], JoinWith(ps[1..], [sep]), sep);
      assert ps == [ps[0]] + ps[1..];
    }
  }

  /** Tokens joined by whitespace split back into the same tokens. */
  lemma {:induction false} SplitJoin(ts: seq<string>, sep: string)
    requires forall k :: 0 <= k < |ts| ==> ts[k] != [] && NoWhitespace(ts[k])
    requires sep != [] && AllWhitespace(sep)
    ensures Split(JoinWith(ts, sep)) == ts
    decreases |ts|
  {
    if |ts| == 1 {
      SplitWordThen(ts[0], []);
      assert ts[0] + [] == ts[0];
    } else if |ts| > 1 {
      SplitJoin(ts[1..], sep);
      SplitSkipsLeading(sep, JoinWith(ts[1..], sep));
      SplitWordThen(ts[0], sep + JoinWith(ts[1..], sep));
      assert ts[0] + sep + JoinWith(ts[1..], sep) == ts[0] + (sep + JoinWith(ts[1..], sep));
      assert ts == [ts[0]] + ts[1..];
    }
  }

  // ---------------------------------------------------------------------------
  // read() on a file opened in text mode: universal newlines

  /** The text `read()` returns for the decoded characters `s` of a file opened
      in text mode: every `"\r\n"` and every lone `"\r"` becomes `"\n"`. */
  function TranslateNewlines(s: string): (r: string)
    ensures '\r' !in r
    ensures |r| <= |s|
    decreases |s|
  {
    if |s| == 0 then []
    else if s[0] == '\r' then
      if |s| > 1 && s[1] == '\n' then "\n" + TranslateNewlines(s[2..])
      else "\n" + TranslateNewlines(s[1..])
    else [s[0]] + TranslateNewlines(s[1..])
  }

  /** Characters up to the first carriage return are passed through as they
      are. */
  lemma {:induction false} TranslatePlainPrefix(a: string, t: string)
    requires '\r' !in a
    ensures TranslateNewlines(a + t) == a + TranslateNewlines(t)
    decreases |a|
  {
    if |a| == 0 {
      assert a + t == t;
    } else {
      assert (a + t)[0] == a[0] && a[0] in a;
      assert (a + t)[1..] == a[1..] + t;
      assert '\r' !in a[1..];
      TranslateOrdinary(a + t);
      TranslatePlainPrefix(a[1..], t);
      assert a == [a[0]] + a[1..];
    }
  }

  /** A character other than a carriage return is passed through. */
  lemma TranslateOrdinary(s: string)
    requires |s| > 0 && s[0] != '\r'
    ensures TranslateNewlines(s) == [s[0]] + TranslateNewlines(s[1..])
  {
  }

  /** Text without carriage returns reads back unchanged. */
  lemma TranslatePlain(s: string)
    requires '\r' !in s
    ensures TranslateNewlines(s) == s
  {
    TranslatePlainPrefix(s, []);
    assert s + [] == s;
  }

  /** The three line breaks text mode recognises. */
  predicate IsLineEnd(e: string)
  {
    e == "\n" || e == "\r\n" || e == "\r"
  }

  /** Each of the three line endings reads as one `"\n"`, provided a lone
      `"\r"` is not directly followed by a `"\n"` (the two would be one
      `"\r\n"`). */
  lemma TranslateLineEnd(eol: string, rest: string)
    requires IsLineEnd(eol)
    requires eol == "\r" ==> rest == [] || rest[0] != '\n'
    ensures TranslateNewlines(eol + rest) == "\n" + TranslateNewlines(rest)
  {
    var s := eol + rest;
    assert s[0] == eol[0];
    if eol == "\r\n" {
      assert s[1] == '\n' && s[2..] == rest;
    } else {
      assert s[1..] == rest;
      if eol == "\r" && |s| > 1 {
        assert s[1] == rest[0];
      }
    }
  }

  /** The contents of a file whose k-th line is `lines[k]` and whose k-th line
      break is `eols[k]`; the last line has no break after it. */
  function JoinLines(lines: seq<string>, eols: seq<string>): string
    decreases |lines|
  {
    if |lines| == 0 then []
    else if |lines| == 1 || |eols| == 0 then lines[0]
    else lines[0] + (eols[0] + JoinLines(lines[1..], eols[1..]))
  }

  /** `lines` and `eols` describe a file unambiguously: one break between
      consecutive lines, no break character inside a line, and no lone
      `"\r"` before an empty line that ends in `"\n"` (that `"\r\n"` is a
      single break). */
  predicate WellEnded(lines: seq<string>, eols: seq<string>)
  {
    && |eols| == |lines| - 1
    && (forall k :: 0 <= k < |lines| ==> '\r' !in lines[k] && '\n' !in lines[k])
    && (forall k :: 0 <= k < |eols| ==> IsLineEnd(eols[k]))
    && (forall k :: 0 <= k < |eols| - 1 ==> eols[k] == "\r" && lines[k + 1] == [] ==> eols[k + 1] != "\n")
  }

  lemma WellEndedTail(lines: seq<string>, eols: seq<string>)
    requires WellEnded(lines, eols) && |lines| > 1
    ensures WellEnded(lines[1..], eols[1..])
  {
    forall k | 0 <= k < |eols| - 2
      ensures eols[1..][k] == "\r" && lines[1..][k + 1] == [] ==> eols[1..][k + 1] != "\n"
    {
      assert eols[1..][k] == eols[k + 1] && lines[1..][k + 1] == lines[k + 2];
    }
  }

  /** What follows the first line break never starts with a `"\n"` that would
      merge with a lone `"\r"` break. */
  lemma AfterFirstBreak(lines: seq<string>, eols: seq<string>)
    requires WellEnded(lines, eols) && |lines| > 1
    ensures var rest := JoinLines(lines[1..], eols[1..]);
            eols[0] == "\r" ==> rest == [] || rest[0] != '\n'
  {
    var rest := JoinLines(lines[1..], eols[1..]);
    if lines[1] != [] {
      assert rest[..|lines[1]|] == lines[1];
      assert rest[0] == lines[1][0] && lines[1][0] in lines[1];
    } else if |lines| > 2 {
      assert rest == [] + (eols[1] + JoinLines(lines[2..], eols[2..]));
      assert rest[0] == eols[1][0];
    }
  }

  /** Lines that hold no line-break character, each break being `"\n"`,
      `"\r\n"` or `"\r"` independently of the others, read back as the same
      lines joined by `"\n"`. */
  lemma {:induction false} TranslateJoin(lines: seq<string>, eols: seq<string>)
    requires WellEnded(lines, eols)
    ensures TranslateNewlines(JoinLines(lines, eols)) == JoinWith(lines, "\n")
    decreases |lines|
  {
    if |lines| == 1 {
      TranslatePlain(lines[0]);
    } else {
      var rest := JoinLines(lines[1..], eols[1..]);
      WellEndedTail(lines, eols);
      TranslateJoin(lines[1..], eols[1..]);
      JoinUnfold(lines, "\n");
      AfterFirstBreak(lines, eols);
      TranslateLine(lines[0], eols[0], rest);
    }
  }

  lemma JoinUnfold(ts: seq<string>, sep: string)
    requires |ts| > 1
    ensures JoinWith(ts, sep) == ts[0] + (sep + JoinWith(ts[1..], sep))
  {
  }

  /** A line without carriage returns and its line ending read as the line and
      `"\n"`. */
  lemma TranslateLine(line: string, eol: string, rest: string)
    requires '\r' !in line
    requires IsLineEnd(eol)
    requires eol == "\r" ==> rest == [] || rest[0] != '\n'
    ensures TranslateNewlines(line + (eol + rest)) == line + ("\n" + TranslateNewlines(rest))
  {
    TranslatePlainPrefix(line, eol + rest);
    TranslateLineEnd(eol, rest);
  }

  /** The number of leading characters that are not line-break characters. */
  function LineLength(s: string): (n: nat)
    ensures n <= |s|
    ensures forall i :: 0 <= i < n ==> s[i] != '\r' && s[i] != '\n'
    ensures n == |s| || s[n] == '\r' || s[n] == '\n'
  {
    if |s| == 0 || s[0] == '\r' || s[0] == '\n' then 0 else 1 + LineLength(s[1..])
  }

  /** Every text is a file of lines: it cuts into lines and line breaks that
      describe it unambiguously, so `TranslateJoin` covers every input of
      `TranslateNewlines`. */
  lemma {:induction false} CutLines(s: string) returns (lines: seq<string>, eols: seq<string>)
    ensures WellEnded(lines, eols)
    ensures JoinLines(lines, eols) == s
    decreases |s|
  {
    if LineLength(s) == |s| {
      lines, eols := [s], [];
      assert forall c :: c in s ==> c != '\r' && c != '\n';
    } else {
      var line, e, rest := FirstLine(s);
      var ls, es := CutLines(rest);
      BreakBefore(line, e, ls, es);
      lines, eols := [line] + ls, [e] + es;
    }
  }

  /** A text holding a line break cuts into its first line, that break and
      the rest. */
  lemma FirstLine(s: string) returns (line: string, e: string, rest: string)
    requires LineLength(s) < |s|
    ensures '\r' !in line && '\n' !in line && IsLineEnd(e)
    ensures e == "\r" ==> rest == [] || rest[0] != '\n'
    ensures s == line + (e + rest) && |rest| < |s|
  {
    var n := LineLength(s);
    e := if s[n] == '\r' && n + 1 < |s| && s[n + 1] == '\n' then "\r\n" else [s[n]];
    line, rest := s[..n], s[n + |e|..];
    assert forall c :: c in line ==> c != '\r' && c != '\n';
    assert s[n..n + |e|] == e;
    CutAt(s, n, n + |e|);
  }

  lemma CutAt(s: string, i: nat, j: nat)
    requires i <= j <= |s|
    ensures s == s[..i] + (s[i..j] + s[j..])
  {
    assert s[..i] + (s[i..j] + s[j..]) == s[..j] + s[j..];
  }

  /** A line and a break put in front of a well-ended file give a well-ended
      file, unless a lone `"\r"` would meet a leading `"\n"`. */
  lemma BreakBefore(line: string, e: string, ls: seq<string>, es: seq<string>)
    requires '\r' !in line && '\n' !in line && IsLineEnd(e)
    requires WellEnded(ls, es)
    requires e == "\r" ==> JoinLines(ls, es) == [] || JoinLines(ls, es)[0] != '\n'
    ensures WellEnded([line] + ls, [e] + es)
    ensures JoinLines([line] + ls, [e] + es) == line + (e + JoinLines(ls, es))
  {
    var lines, eols := [line] + ls, [e] + es;
    assert lines[1..] == ls && eols[1..] == es;
    if |ls| > 1 && e == "\r" && ls[0] == [] {
      assert JoinLines(ls, es) == [] + (es[0] + JoinLines(ls[1..], es[1..]));
    }
    forall k | 0 <= k < |eols| - 1
      ensures eols[k] == "\r" && lines[k + 1] == [] ==> eols[k + 1] != "\n"
    {
      if k > 0 {
        assert eols[k] == es[k - 1] && lines[k + 1] == ls[k] && eols[k + 1] == es[k];
      }
    }
  }

  /** Reading in text mode replaces each line break of the file by `"\n"` and
      changes nothing else, whatever mix of `"\n"`, `"\r\n"` and lone `"\r"`
      the file uses. */
  lemma ReadLines(s: string) returns (lines: seq<string>, eols: seq<string>)
    ensures WellEnded(lines, eols)
    ensures s == JoinLines(lines, eols)
    ensures TranslateNewlines(s) == JoinWith(lines, "\n")
  {
    lines, eols := CutLines(s);
    TranslateJoin(lines, eols);
  }
}
