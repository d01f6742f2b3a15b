/**
 * The JavaScript string operations the widgets use: `trim`, `toLowerCase`,
 * `replace(/\s+/g, " ")`, `includes`, `startsWith` and `split` with a
 * non-empty separator. A string here is a sequence of Unicode scalar values,
 * not of UTF-16 code units as in JavaScript: a character outside the Basic
 * Multilingual Plane is one element here and two in JavaScript, and a lone
 * surrogate cannot be written at all.
 */
module JsText {
  import opened Wrappers

  /** The characters matched by `\s` and removed by `trim`, apart from the range U+2000..U+200A. */
  const SpaceChars: set<char> := {
    '\t', '\n', '\U{000B}', '\U{000C}', '\r', ' ', '\U{00A0}', '\U{1680}',
    '\U{2028}', '\U{2029}', '\U{202F}', '\U{205F}', '\U{3000}', '\U{FEFF}'
  }

  /** WhiteSpace and LineTerminator of ECMAScript: what `\s` matches and `trim` removes. */
  predicate IsWhitespace(c: char) {
    c in SpaceChars || '\U{2000}' <= c <= '\U{200A}'
  }

  /** `toLowerCase` on one character, for the ASCII letters. */
  function LowerChar(c: char): (r: char)
    ensures 'A' <= c <= 'Z' ==> 'a' <= r <= 'z' && r as int == c as int + 32
    ensures !('A' <= c <= 'Z') ==> r == c
    ensures !('A' <= r <= 'Z')
    ensures IsWhitespace(r) == IsWhitespace(c)
  {
    if 'A' <= c <= 'Z' then (c as int - 'A' as int + 'a' as int) as char else c
  }

  function ToLowerCase(s: string): (r: string)
    ensures |r| == |s|
    ensures forall i :: 0 <= i < |s| ==> r[i] == LowerChar(s[i])
  {
    seq(|s|, i requires 0 <= i < |s| => LowerChar(s[i]))
  }

  /** Removes the leading whitespace. */
  function TrimStart(s: string): (r: string)
    ensures |r| <= |s| && r == s[|s| - |r|..]
    ensures r == [] || !IsWhitespace(r[0])
    ensures forall i :: 0 <= i < |s| - |r| ==> IsWhitespace(s[i])
  {
    if s != [] && IsWhitespace(s[0]) then TrimStart(s[1..]) else s
  }

  /** Removes the trailing whitespace. */
  function TrimEnd(s: string): (r: string)
    ensures |r| <= |s| && r == s[..|r|]
    ensures r == [] || !IsWhitespace(r[|r| - 1])
    ensures forall i :: |r| <= i < |s| ==> IsWhitespace(s[i])
  {
    if s != [] && IsWhitespace(s[|s| - 1]) then TrimEnd(s[..|s| - 1]) else s
  }

  /** `String.prototype.trim`. */
  function Trim(s: string): (r: string)
    ensures r == [] || (!IsWhitespace(r[0]) && !IsWhitespace(r[|r| - 1]))
  {
    TrimEnd(TrimStart(s))
  }

  /** Trimming a string without capitals leaves none. */
  lemma TrimNoUpper(s: string)
    requires NoUpper(s)
    ensures NoUpper(Trim(s))
  {
    var a := TrimStart(s);
    NoUpperSlice(s, |s| - |a|, |s|);
    assert a == s[|s| - |a|..|s|];
    NoUpperSlice(a, 0, |TrimEnd(a)|);
    assert TrimEnd(a) == a[0..|TrimEnd(a)|];
  }

  /** A slice of a string without capitals has none. */
  lemma NoUpperSlice(s: string, i: int, j: int)
    requires NoUpper(s) && 0 <= i <= j <= |s|
    ensures NoUpper(s[i..j])
  {
    forall k | 0 <= k < j - i
      ensures !('A' <= s[i..j][k] <= 'Z')
    {
      assert s[i..j][k] == s[i + k];
    }
  }

  /** A character that is not a capital, in front of a string without capitals. */
  lemma NoUpperCons(c: char, t: string)
    requires !('A' <= c <= 'Z') && NoUpper(t)
    ensures NoUpper([c] + t)
  {
    forall k | 0 < k < |t| + 1
      ensures !('A' <= ([c] + t)[k] <= 'Z')
    {
      assert ([c] + t)[k] == t[k - 1];
    }
  }

  /** `s.replace(/\s+/g, " ")`: every maximal run of whitespace becomes one space. */
  function CollapseWhitespace(s: string): (r: string)
    decreases |s|
  {
    if s == [] then []
    else if IsWhitespace(s[0]) then " " + CollapseWhitespace(TrimStart(s))
    else [s[0]] + CollapseWhitespace(s[1..])
  }

  /** No ASCII capital letter occurs in `s`. */
  predicate NoUpper(s: string) {
    forall i :: 0 <= i < |s| ==> !('A' <= s[i] <= 'Z')
  }

  /** Whitespace in `t` is single spaces, never two in a row. */
  predicate SingleSpaced(t: string) {
    forall i :: 0 <= i < |t| && IsWhitespace(t[i]) ==>
      t[i] == ' ' && (i + 1 < |t| ==> !IsWhitespace(t[i + 1]))
  }

  function StartsWith(s: string, prefix: string): bool {
    |prefix| <= |s| && s[..|prefix|] == prefix
  }

  /** `t` occurs in `s` starting at position `j`. */
  predicate MatchesAt(s: string, t: string, j: int) {
    0 <= j && j + |t| <= |s| && s[j..j + |t|] == t
  }

  /** `s.indexOf(t)`: the first position at which `t` occurs in `s`. */
  function IndexOf(s: string, t: string): (r: Option<nat>)
    ensures r.Some? ==> MatchesAt(s, t, r.value)
    ensures r.Some? ==> forall j :: 0 <= j < r.value ==> !MatchesAt(s, t, j)
    ensures r.None? ==> forall j :: !MatchesAt(s, t, j)
  {
    if |s| < |t| then None
    else if s[..|t|] == t then Some(0)
    else
      var r := IndexOf(s[1..], t);
      assert forall j :: 1 <= j ==> (MatchesAt(s, t, j) <==> MatchesAt(s[1..], t, j - 1));
      if r.None? then None else Some(r.value + 1)
  }

  /** `s.includes(t)`. */
  predicate Contains(s: string, t: string) {
    IndexOf(s, t).Some?
  }

  /** `s.split(sep)` for a non-empty separator. */
  function Split(s: string, sep: string): (r: seq<string>)
    requires |sep| > 0
    ensures |r| >= 1
    decreases |s|
  {
    match IndexOf(s, sep)
    case None => [s]
    case Some(i) => [s[..i]] + Split(s[i + |sep|..], sep)
  }

  /** `parts.join(sep)`. */
  function Join(parts: seq<string>, sep: string): string
    requires |parts| >= 1
  {
    if |parts| == 1 then parts[0] else parts[0] + sep + Join(parts[1..], sep)
  }

  function Last<T>(s: seq<T>): T
    requires |s| > 0
  {
    s[|s| - 1]
  }

  // ---------------------------------------------------------------------------
  // Lemmas

  /** An occurrence of `t` at `k` with none before it is what `indexOf` finds. */
  lemma IndexOfAt(s: string, t: string, k: nat)
    requires MatchesAt(s, t, k)
    requires forall j :: 0 <= j < k ==> !MatchesAt(s, t, j)
    ensures IndexOf(s, t) == Some(k)
  {
  }

  /** A string contains every substring of a substring it contains. */
  lemma ContainsWindow(s: string, t: string, k: nat, u: string)
    requires Contains(s, t)
    requires k + |u| <= |t| && t[k..k + |u|] == u
    ensures Contains(s, u)
  {
    var i := IndexOf(s, t).value;
    assert s[i..i + |t|] == t;
    forall m | 0 <= m < |u|
      ensures s[i + k + m] == u[m]
    {
      assert s[i + k + m] == s[i..i + |t|][k + m];
      assert u[m] == t[k..k + |u|][m];
    }
    assert s[i + k..i + k + |u|] == u;
    assert MatchesAt(s, u, i + k);
  }

  /** `includes` of a one-character string is membership of the character. */
  lemma ContainsChar(s: string, c: char)
    ensures Contains(s, [c]) <==> c in s
  {
    if c in s {
      var j :| 0 <= j < |s| && s[j] == c;
      assert s[j..j + 1] == [c];
      assert MatchesAt(s, [c], j);
    }
    if Contains(s, [c]) {
      var i := IndexOf(s, [c]).value;
      assert s[i..i + 1] == [c];
      assert s[i] == s[i..i + 1][0];
    }
  }

  /** `split` yields at least two pieces exactly when the separator occurs. */
  lemma {:induction false} SplitHasTwoPieces(s: string, sep: string)
    requires |sep| > 0
    ensures |Split(s, sep)| >= 2 <==> Contains(s, sep)
  {
  }

  /** `split` then `join` with the same separator gives back the string. */
  lemma {:induction false} JoinSplit(s: string, sep: string)
    requires |sep| > 0
    ensures Join(Split(s, sep), sep) == s
    decreases |s|
  {
    match IndexOf(s, sep)
    case None =>
    case Some(i) =>
      var rest := s[i + |sep|..];
      SplitStep(s, sep, i);
      JoinSplit(rest, sep);
      JoinStep(s[..i], Split(rest, sep), sep);
  }

  /** One step of `split`: the text before the first separator, then the split of the rest. */
  lemma SplitStep(s: string, sep: string, i: nat)
    requires |sep| > 0 && IndexOf(s, sep) == Some(i)
    ensures Split(s, sep) == [s[..i]] + Split(s[i + |sep|..], sep)
    ensures s == s[..i] + sep + s[i + |sep|..]
  {
    CutAt(s, sep, i);
  }

  /** A string is the text before an occurrence, the occurrence and the text after it. */
  lemma CutAt(s: string, t: string, i: int)
    requires MatchesAt(s, t, i)
    ensures s == s[..i] + t + s[i + |t|..]
  {
    assert s[i..] == t + s[i + |t|..] by {
      assert s[i..] == s[i..][..|t|] + s[i..][|t|..];
    }
    assert s == s[..i] + s[i..];
  }

  /** One step of `join`. */
  lemma JoinStep(head: string, tail: seq<string>, sep: string)
    requires |tail| >= 1
    ensures Join([head] + tail, sep) == head + sep + Join(tail, sep)
  {
    assert ([head] + tail)[1..] == tail;
  }



  /** No piece produced by `split` contains the separator. */
  lemma {:induction false} SplitPiecesAvoidSeparator(s: string, sep: string)
    requires |sep| > 0
    ensures forall p :: p in Split(s, sep) ==> !Contains(p, sep)
    decreases |s|
  {
    match IndexOf(s, sep)
    case None =>
    case Some(i) =>
      var rest := s[i + |sep|..];
      SplitStep(s, sep, i);
      SplitPiecesAvoidSeparator(rest, sep);
      HeadAvoidsSeparator(s, sep, i);
  }

  /** The text before the first occurrence of `sep` does not contain `sep`. */
  lemma HeadAvoidsSeparator(s: string, sep: string, i: nat)
    requires |sep| > 0 && IndexOf(s, sep) == Some(i)
    ensures !Contains(s[..i], sep)
  {
    var head := s[..i];
    forall j | 0 <= j
      ensures !MatchesAt(head, sep, j)
    {
      if MatchesAt(head, sep, j) {
        assert j < i;
        assert s[j..j + |sep|] == head[j..j + |sep|];
        assert MatchesAt(s, sep, j);
      }
    }
  }


  /** The first piece of `split` is the whole string when the separator does not occur. */
  lemma SplitWithoutSeparator(s: string, sep: string)
    requires |sep| > 0 && !Contains(s, sep)
    ensures Split(s, sep) == [s]
  {
  }

  /** Splitting `a + sep + b`, where `sep` first occurs right after `a`. */
  lemma SplitAt(a: string, sep: string, b: string)
    requires |sep| > 0
    requires forall j :: 0 <= j < |a| ==> !MatchesAt(a + sep + b, sep, j)
    ensures Split(a + sep + b, sep) == [a] + Split(b, sep)
  {
    var s := a + sep + b;
    assert s[|a|..|a| + |sep|] == sep;
    assert MatchesAt(s, sep, |a|);
    IndexOfAt(s, sep, |a|);
    assert s[..|a|] == a;
    assert s[|a| + |sep|..] == b;
  }

  /** Collapsing keeps a non-blank first character and turns a blank one into a space. */
  lemma CollapseHead(s: string)
    requires s != []
    ensures CollapseWhitespace(s) != []
    ensures CollapseWhitespace(s)[0] == if IsWhitespace(s[0]) then ' ' else s[0]
  {
  }

  /** Collapsing keeps a non-blank last character. */
  lemma {:induction false} CollapseLast(s: string)
    requires s != [] && !IsWhitespace(s[|s| - 1])
    ensures var r := CollapseWhitespace(s); r != [] && r[|r| - 1] == s[|s| - 1]
    decreases |s|
  {
    if IsWhitespace(s[0]) {
      var t := TrimStart(s);
      assert t != [] && t[|t| - 1] == s[|s| - 1];
      CollapseLast(t);
    } else if |s| > 1 {
      CollapseLast(s[1..]);
    }
  }

  /** Collapsing brings in no letter: the only character it introduces is a space. */
  lemma {:induction false} CollapseNoUpper(s: string)
    requires NoUpper(s)
    ensures NoUpper(CollapseWhitespace(s))
    decreases |s|
  {
    if s != [] {
      var t := if IsWhitespace(s[0]) then TrimStart(s) else s[1..];
      NoUpperSlice(s, |s| - |t|, |s|);
      assert t == s[|s| - |t|..|s|];
      CollapseNoUpper(t);
      NoUpperCons(if IsWhitespace(s[0]) then ' ' else s[0], CollapseWhitespace(t));
    }
  }

  /** After collapsing, every whitespace run is a single space. */
  lemma {:induction false} CollapseSingleSpaced(s: string)
    ensures SingleSpaced(CollapseWhitespace(s))
    decreases |s|
  {
    if s != [] {
      if IsWhitespace(s[0]) {
        var t := TrimStart(s);
        CollapseSingleSpaced(t);
        if t != [] {
          CollapseHead(t);
        }
        SingleSpacedCons(' ', CollapseWhitespace(t));
      } else {
        CollapseSingleSpaced(s[1..]);
        SingleSpacedCons(s[0], CollapseWhitespace(s[1..]));
      }
    }
  }

  /** Putting a non-blank character, or a space before a non-blank start, in front keeps a string single-spaced. */
  lemma SingleSpacedCons(c: char, t: string)
    requires SingleSpaced(t)
    requires IsWhitespace(c) ==> c == ' ' && (t == [] || !IsWhitespace(t[0]))
    ensures SingleSpaced([c] + t)
  {
    var r := [c] + t;
    forall i | 0 <= i < |r| && IsWhitespace(r[i])
      ensures r[i] == ' ' && (i + 1 < |r| ==> !IsWhitespace(r[i + 1]))
    {
      if i > 0 {
        assert r[i] == t[i - 1];
      }
      if i + 1 < |r| {
        assert r[i + 1] == t[i];
      }
    }
  }

  /** Dropping the first character keeps a string single-spaced. */
  lemma SingleSpacedTail(t: string)
    requires t != [] && SingleSpaced(t)
    ensures SingleSpaced(t[1..])
  {
    forall i | 0 <= i < |t[1..]| && IsWhitespace(t[1..][i])
      ensures t[1..][i] == ' ' && (i + 1 < |t[1..]| ==> !IsWhitespace(t[1..][i + 1]))
    {
      assert t[1..][i] == t[i + 1];
    }
  }

  /** A single-spaced string is left as it is by collapsing. */
  lemma {:induction false} CollapseFixed(t: string)
    requires SingleSpaced(t)
    ensures CollapseWhitespace(t) == t
    decreases |t|
  {
    if t != [] {
      SingleSpacedTail(t);
      CollapseFixed(t[1..]);
      if IsWhitespace(t[0]) {
        LoneSpace(t);
      }
      assert t == [t[0]] + t[1..];
    }
  }

  /** A whitespace character that is not followed by whitespace is a space that `trim` drops alone. */
  lemma LoneSpace(t: string)
    requires t != [] && SingleSpaced(t) && IsWhitespace(t[0])
    ensures t[0] == ' ' && TrimStart(t) == t[1..]
  {
    var u := t[1..];
    if u != [] {
      assert u[0] == t[1];
    }
  }

  // ---------------------------------------------------------------------------
  // Lemmas: the first and the last piece of `split`

  /** The first piece of `split` is the text before the left-most separator, or the whole string. */
  lemma SplitFirstPiece(s: string, sep: string)
    requires |sep| > 0
    ensures var h := Split(s, sep)[0];
      && |h| <= |s| && s[..|h|] == h
      && (forall j :: 0 <= j < |h| ==> !MatchesAt(s, sep, j))
      && (h == s || MatchesAt(s, sep, |h|))
  {
  }

  /**
   * When `x` holds no separator and `c` is a character the separator lacks,
   * the first piece of splitting `x + [c] + rest` reaches past `c`.
   */
  lemma SplitHeadPast(x: string, c: char, rest: string, sep: string)
    requires |sep| > 0 && c !in sep && !Contains(x, sep)
    ensures StartsWith(Split(x + [c] + rest, sep)[0], x + [c])
  {
    var s := x + [c] + rest;
    forall j | 0 <= j <= |x|
      ensures !MatchesAt(s, sep, j)
    {
      if j + |sep| <= |x| {
        assert !MatchesAt(x, sep, j);
        assert s[j..j + |sep|] == x[j..j + |sep|];
      } else if j + |sep| <= |s| {
        assert s[j..j + |sep|][|x| - j] == c;
      }
    }
    SplitFirstPiece(s, sep);
    var h := Split(s, sep)[0];
    assert |h| > |x|;
    assert h[..|x| + 1] == s[..|x| + 1] == x + [c];
  }

  /** A string that starts with `x` and then `c`, where `x` lacks `c`, splits at `c` into `x` first. */
  lemma HeadBeforeChar(p: string, x: string, c: char)
    requires StartsWith(p, x + [c]) && c !in x
    ensures Split(p, [c])[0] == x
  {
    var b := p[|x| + 1..];
    assert p == x + [c] + b;
    forall j | 0 <= j < |x|
      ensures !MatchesAt(x + [c] + b, [c], j)
    {
      assert (x + [c] + b)[j..j + 1] == [x[j]];
    }
    SplitAt(x, [c], b);
  }

  /**
   * `r` ends `s`, holds no separator, and is either all of `s` or preceded by
   * a separator: it is the text after the last separator.
   */
  predicate IsLastPiece(s: string, sep: string, r: string) {
    && |r| <= |s| && s[|s| - |r|..] == r
    && !Contains(r, sep)
    && (r == s || (|r| + |sep| <= |s| && MatchesAt(s, sep, |s| - |r| - |sep|)))
  }

  /** The last piece of `split` is the text after the last separator, or the whole string. */
  lemma {:induction false} SplitLastPiece(s: string, sep: string)
    requires |sep| > 0
    ensures IsLastPiece(s, sep, Last(Split(s, sep)))
    decreases |s|
  {
    match IndexOf(s, sep)
    case None =>
      WholeIsLastPiece(s, sep);
    case Some(i) =>
      var rest := s[i + |sep|..];
      SplitLastStep(s, sep, i);
      SplitLastPiece(rest, sep);
      LastPieceLifts(s, sep, i, Last(Split(rest, sep)));
  }

  /** Without a separator, the whole string is the last piece. */
  lemma WholeIsLastPiece(s: string, sep: string)
    requires |sep| > 0 && !Contains(s, sep)
    ensures Last(Split(s, sep)) == s && IsLastPiece(s, sep, s)
  {
    assert s[|s| - |s|..] == s;
  }

  /** The last piece of `split` is the last piece of the text after the first separator. */
  lemma SplitLastStep(s: string, sep: string, i: nat)
    requires |sep| > 0 && IndexOf(s, sep) == Some(i)
    ensures MatchesAt(s, sep, i)
    ensures Last(Split(s, sep)) == Last(Split(s[i + |sep|..], sep))
  {
    SplitStep(s, sep, i);
    LastCons(s[..i], Split(s[i + |sep|..], sep));
  }

  lemma LastCons<T>(x: T, p: seq<T>)
    requires |p| > 0
    ensures Last([x] + p) == Last(p)
  {
  }

  /** The step of `SplitLastPiece`: a last piece of the text after a separator is one of the whole. */
  lemma LastPieceLifts(s: string, sep: string, i: nat, r: string)
    requires MatchesAt(s, sep, i) && IsLastPiece(s[i + |sep|..], sep, r)
    ensures IsLastPiece(s, sep, r)
  {
    var k := i + |sep|;
    SuffixOfSuffix(s, k, |r|);
    if r != s[k..] {
      MatchesShift(s, k, sep, |s[k..]| - |r| - |sep|);
    }
  }

  /** A suffix of a suffix of `s` is a suffix of `s`. */
  lemma SuffixOfSuffix(s: string, k: nat, n: nat)
    requires k <= |s| && n <= |s| - k
    ensures s[|s| - n..] == s[k..][|s| - k - n..]
  {
  }

  /** An occurrence in `s[k..]` is an occurrence in `s`, `k` places later. */
  lemma MatchesShift(s: string, k: nat, t: string, j: int)
    requires k <= |s| && MatchesAt(s[k..], t, j)
    ensures MatchesAt(s, t, k + j)
  {
    assert s[k + j..k + j + |t|] == s[k..][j..j + |t|];
  }

  // ---------------------------------------------------------------------------
  // Lemmas: case folding

  /** `c` and `d` are the same character, or the same ASCII letter in two cases. */
  predicate EqualIgnoringCase(c: char, d: char) {
    || c == d
    || ('A' <= c <= 'Z' && d as int == c as int + 32)
    || ('A' <= d <= 'Z' && c as int == d as int + 32)
  }

  /** Two characters lower to the same character exactly when they differ at most in case. */
  lemma LowerCharFolds(c: char, d: char)
    ensures LowerChar(c) == LowerChar(d) <==> EqualIgnoringCase(c, d)
  {
  }

  /** Two strings lower to the same string exactly when they differ at most in the case of letters. */
  lemma LowerCaseFolds(s: string, t: string)
    ensures ToLowerCase(s) == ToLowerCase(t) <==>
      |s| == |t| && forall i :: 0 <= i < |s| ==> EqualIgnoringCase(s[i], t[i])
  {
    if ToLowerCase(s) == ToLowerCase(t) {
      forall i | 0 <= i < |s|
        ensures EqualIgnoringCase(s[i], t[i])
      {
        assert ToLowerCase(s)[i] == ToLowerCase(t)[i];
        LowerCharFolds(s[i], t[i]);
      }
    }
    if |s| == |t| && forall i :: 0 <= i < |s| ==> EqualIgnoringCase(s[i], t[i]) {
      forall i | 0 <= i < |s|
        ensures ToLowerCase(s)[i] == ToLowerCase(t)[i]
      {
        LowerCharFolds(s[i], t[i]);
      }
    }
  }

  /** Lowering leaves no capitals, changes nothing in a string without them, and is idempotent. */
  lemma LowerCaseIdempotent(s: string)
    ensures NoUpper(ToLowerCase(s))
    ensures NoUpper(s) ==> ToLowerCase(s) == s
    ensures ToLowerCase(ToLowerCase(s)) == ToLowerCase(s)
  {
  }

  // ---------------------------------------------------------------------------
  // Lemmas: what the whitespace operations keep

  /** The characters of `s` that are not whitespace, in order. */
  function NonSpace(s: string): (r: string)
    ensures |r| <= |s|
    ensures forall i :: 0 <= i < |r| ==> !IsWhitespace(r[i])
  {
    if s == [] then []
    else if IsWhitespace(s[0]) then NonSpace(s[1..])
    else [s[0]] + NonSpace(s[1..])
  }

  lemma {:induction false} NonSpaceAppend(a: string, b: string)
    ensures NonSpace(a + b) == NonSpace(a) + NonSpace(b)
  {
    if a == [] {
      assert a + b == b;
    } else {
      assert (a + b)[0] == a[0];
      assert (a + b)[1..] == a[1..] + b;
      NonSpaceAppend(a[1..], b);
    }
  }

  /** Lowering commutes with dropping the whitespace. */
  lemma {:induction false} NonSpaceLower(s: string)
    ensures NonSpace(ToLowerCase(s)) == ToLowerCase(NonSpace(s))
  {
    if s != [] {
      var l := ToLowerCase(s);
      assert l[1..] == ToLowerCase(s[1..]);
      NonSpaceLower(s[1..]);
      if !IsWhitespace(s[0]) {
        var t := NonSpace(s[1..]);
        assert ToLowerCase([s[0]] + t) == [LowerChar(s[0])] + ToLowerCase(t);
      }
    }
  }

  /** `trimStart` drops only whitespace. */
  lemma {:induction false} NonSpaceTrimStart(s: string)
    ensures NonSpace(TrimStart(s)) == NonSpace(s)
  {
    if s != [] && IsWhitespace(s[0]) {
      NonSpaceTrimStart(s[1..]);
    }
  }

  /** `trimEnd` drops only whitespace. */
  lemma {:induction false} NonSpaceTrimEnd(s: string)
    ensures NonSpace(TrimEnd(s)) == NonSpace(s)
  {
    if s != [] && IsWhitespace(s[|s| - 1]) {
      var init := s[..|s| - 1];
      NonSpaceTrimEnd(init);
      assert s == init + [s[|s| - 1]];
      NonSpaceAppend(init, [s[|s| - 1]]);
    }
  }

  /** `trim` drops only whitespace. */
  lemma NonSpaceTrim(s: string)
    ensures NonSpace(Trim(s)) == NonSpace(s)
  {
    NonSpaceTrimStart(s);
    NonSpaceTrimEnd(TrimStart(s));
  }

  /** Collapsing whitespace runs keeps every other character, in order. */
  lemma {:induction false} NonSpaceCollapse(s: string)
    ensures NonSpace(CollapseWhitespace(s)) == NonSpace(s)
    decreases |s|
  {
    if s != [] {
      if IsWhitespace(s[0]) {
        var t := TrimStart(s);
        assert |t| < |s|;
        NonSpaceCollapse(t);
        NonSpaceTrimStart(s);
        var c := CollapseWhitespace(t);
        assert (" " + c)[1..] == c;
      } else {
        NonSpaceCollapse(s[1..]);
        var c := CollapseWhitespace(s[1..]);
        assert ([s[0]] + c)[1..] == c;
      }
    }
  }

  // ---------------------------------------------------------------------------
  // Lemmas: whitespace runs

  /** `s` is a run of whitespace. */
  predicate AllWhitespace(s: string) {
    forall i :: 0 <= i < |s| ==> IsWhitespace(s[i])
  }

  /** `s` holds no whitespace. */
  predicate NoWhitespace(s: string) {
    forall i :: 0 <= i < |s| ==> !IsWhitespace(s[i])
  }

  /** `trimStart` removes exactly the leading run. */
  lemma {:induction false} TrimStartRun(w: string, b: string)
    requires AllWhitespace(w) && (b == [] || !IsWhitespace(b[0]))
    ensures TrimStart(w + b) == b
  {
    if w == [] {
      assert w + b == b;
    } else {
      assert (w + b)[1..] == w[1..] + b;
      TrimStartRun(w[1..], b);
    }
  }

  /** `trimEnd` removes exactly the trailing run. */
  lemma {:induction false} TrimEndRun(b: string, w: string)
    requires AllWhitespace(w) && (b == [] || !IsWhitespace(b[|b| - 1]))
    ensures TrimEnd(b + w) == b
  {
    if w == [] {
      assert b + w == b;
    } else {
      var init := w[..|w| - 1];
      assert (b + w)[..|b + w| - 1] == b + init;
      TrimEndRun(b, init);
    }
  }

  /** Text without whitespace is left as it is by the collapse. */
  lemma {:induction false} CollapseNoSpace(a: string)
    requires NoWhitespace(a)
    ensures CollapseWhitespace(a) == a
  {
    if a != [] {
      CollapseNoSpace(a[1..]);
    }
  }

  /** A run of whitespace after a word becomes one space. */
  lemma {:induction false} CollapseRun(a: string, w: string, b: string)
    requires NoWhitespace(a) && |w| > 0 && AllWhitespace(w) && (b == [] || !IsWhitespace(b[0]))
    ensures CollapseWhitespace(a + w + b) == a + " " + CollapseWhitespace(b)
  {
    if a == [] {
      assert a + w + b == w + b;
      TrimStartRun(w, b);
    } else {
      assert (a + w + b)[1..] == a[1..] + w + b;
      CollapseRun(a[1..], w, b);
    }
  }
}
