/** String primitives of ECMAScript that the core relies on: `trim`, `trimStart`,
    `indexOf`, `startsWith`, `includes`, ASCII `toLowerCase`, and the regular-expression
    rewrite `replace(/\s+/g, ' ')`. Strings are sequences of characters. */
module Text {

  /** The characters matched by `\s` in an ECMAScript regular expression, which are also
      the ones `String.prototype.trim` removes: the WhiteSpace and LineTerminator code points. */
  predicate IsWhitespace(c: char) {
    ('\t' <= c <= '\r') || c == ' ' || c == '\U{00A0}' || c == '\U{1680}'
    || ('\U{2000}' <= c <= '\U{200A}') || c == '\U{2028}' || c == '\U{2029}'
    || c == '\U{202F}' || c == '\U{205F}' || c == '\U{3000}' || c == '\U{FEFF}'
  }

  predicate IsBlank(s: string) {
    forall i :: 0 <= i < |s| ==> IsWhitespace(s[i])
  }

  /** Neither starts nor ends with whitespace. */
  predicate Tight(s: string) {
    s == [] || (!IsWhitespace(s[0]) && !IsWhitespace(s[|s| - 1]))
  }

  function TrimStart(s: string): (r: string)
    ensures |r| <= |s|
  {
    if s != [] && IsWhitespace(s[0]) then TrimStart(s[1..]) else s
  }

  /** `trimStart` removes a blank prefix and stops at the first other character. */
  lemma {:induction false} TrimStartSpec(s: string)
    ensures var r := TrimStart(s);
      |r| <= |s| && r == s[|s| - |r|..] && IsBlank(s[..|s| - |r|]) && (r == [] || !IsWhitespace(r[0]))
  {
    if s != [] && IsWhitespace(s[0]) {
      TrimStartSpec(s[1..]);
      var r := TrimStart(s);
      assert s[..|s| - |r|] == [s[0]] + s[1..][..|s[1..]| - |r|];
    } else {
      assert s[..0] == [];
    }
  }

  function TrimEnd(s: string): (r: string)
    ensures |r| <= |s|
  {
    if s != [] && IsWhitespace(s[|s| - 1]) then TrimEnd(s[..|s| - 1]) else s
  }

  /** `trimEnd` removes a blank suffix and stops at the last other character. */
  lemma {:induction false} TrimEndSpec(s: string)
    ensures var r := TrimEnd(s);
      |r| <= |s| && r == s[..|r|] && IsBlank(s[|r|..]) && (r == [] || !IsWhitespace(r[|r| - 1]))
  {
    if s != [] && IsWhitespace(s[|s| - 1]) {
      TrimEndSpec(s[..|s| - 1]);
      var r := TrimEnd(s);
      assert s[|r|..] == s[..|s| - 1][|r|..] + [s[|s| - 1]];
    } else {
      assert s[|s|..] == [];
    }
  }

  /** `String.prototype.trim`. */
  function Trim(s: string): string {
    TrimEnd(TrimStart(s))
  }

  /** What `trim` returns neither starts nor ends with whitespace, and is empty exactly when
      the input is blank. */
  lemma TrimSpec(s: string)
    ensures Tight(Trim(s))
    ensures Trim(s) == [] <==> IsBlank(s)
  {
    var t := TrimStart(s);
    TrimStartSpec(s);
    TrimEndSpec(t);
    TrimStartKeepsTail(s);
    TrimEndOfNonWhitespaceStart(t);
  }

  lemma TrimStartKeepsTail(s: string)
    ensures TrimStart(s) == [] <==> IsBlank(s)
  {
    TrimStartSpec(s);
    var r := TrimStart(s);
    if r == [] {
      assert s[..|s|] == s;
    } else {
      assert !IsWhitespace(s[|s| - |r|]);
    }
  }

  lemma TrimEndOfNonWhitespaceStart(t: string)
    requires t == [] || !IsWhitespace(t[0])
    ensures TrimEnd(t) == [] <==> t == []
    ensures TrimEnd(t) != [] ==> TrimEnd(t)[0] == t[0]
  {}

  lemma TrimStartOfNonWhitespace(s: string)
    requires s == [] || !IsWhitespace(s[0])
    ensures TrimStart(s) == s
  {}

  lemma TrimEndOfNonWhitespace(s: string)
    requires s == [] || !IsWhitespace(s[|s| - 1])
    ensures TrimEnd(s) == s
  {}

  lemma TrimOfTight(s: string)
    requires Tight(s)
    ensures Trim(s) == s
  {
    TrimStartOfNonWhitespace(s);
    TrimEndOfNonWhitespace(s);
  }

  /** Leading whitespace is skipped whatever follows it. */
  lemma {:induction false} TrimStartSkipsBlank(a: string, m: string)
    requires IsBlank(a)
    ensures TrimStart(a + m) == TrimStart(m)
  {
    if a != [] {
      assert (a + m)[0] == a[0];
      assert (a + m)[1..] == a[1..] + m;
      TrimStartSkipsBlank(a[1..], m);
    } else {
      assert a + m == m;
    }
  }

  lemma {:induction false} TrimEndSkipsBlank(m: string, b: string)
    requires IsBlank(b)
    ensures TrimEnd(m + b) == TrimEnd(m)
  {
    if b != [] {
      assert (m + b)[..|m + b| - 1] == m + b[..|b| - 1];
      TrimEndSkipsBlank(m, b[..|b| - 1]);
    } else {
      assert m + b == m;
    }
  }

  /** Trimming removes exactly the blank margins around a tight core. */
  lemma TrimAround(a: string, m: string, b: string)
    requires IsBlank(a) && IsBlank(b) && Tight(m)
    ensures Trim(a + m + b) == m
  {
    assert a + m + b == a + (m + b);
    TrimStartSkipsBlank(a, m + b);
    if m == [] {
      assert m + b == b;
      TrimStartKeepsTail(b);
    } else {
      TrimStartOfNonWhitespace(m + b);
      TrimEndSkipsBlank(m, b);
      TrimEndOfNonWhitespace(m);
    }
  }

  /** A non-blank tail keeps everything before it when trimming the end. */
  lemma {:induction false} TrimEndKeepsHead(a: string, b: string)
    requires !IsBlank(b)
    ensures TrimEnd(a + b) == a + TrimEnd(b)
  {
    if IsWhitespace(b[|b| - 1]) {
      assert (a + b)[..|a + b| - 1] == a + b[..|b| - 1];
      assert !IsBlank(b[..|b| - 1]) by {
        var i :| 0 <= i < |b| && !IsWhitespace(b[i]);
        assert b[..|b| - 1][i] == b[i];
      }
      TrimEndKeepsHead(a, b[..|b| - 1]);
    }
  }

  function StartsWith(s: string, prefix: string): bool {
    |prefix| <= |s| && s[..|prefix|] == prefix
  }

  /** `s.indexOf(pat, from)` for a non-empty pattern: the first position at or after `from`
      where `pat` occurs, or -1. */
  function IndexOf(s: string, pat: string, from: nat): (r: int)
    requires |pat| > 0
    ensures r == -1 || (from <= r && r + |pat| <= |s|)
    decreases |s| - from
  {
    if from + |pat| > |s| then -1
    else if OccursAt(s, pat, from) then from
    else IndexOf(s, pat, from + 1)
  }

  /** The position found is an occurrence, and no occurrence comes before it. */
  lemma {:induction false} IndexOfSpec(s: string, pat: string, from: nat)
    requires |pat| > 0
    ensures var r := IndexOf(s, pat, from);
      && (r == -1 || OccursAt(s, pat, r))
      && (forall i :: from <= i && (r == -1 || i < r) ==> !OccursAt(s, pat, i))
    decreases |s| - from
  {
    if from + |pat| > |s| {
      forall i | from <= i ensures !OccursAt(s, pat, i) {
        OccursAtBound(s, pat, i);
      }
    } else if !OccursAt(s, pat, from) {
      IndexOfSpec(s, pat, from + 1);
    }
  }

  /** `pat` occurs in `s` at position `i`, compared character by character. */
  predicate OccursAt(s: string, pat: string, i: nat)
    decreases |pat|
  {
    if |pat| == 0 then i <= |s| else i < |s| && s[i] == pat[0] && OccursAt(s, pat[1..], i + 1)
  }

  lemma {:induction false} OccursAtBound(s: string, pat: string, i: nat)
    ensures OccursAt(s, pat, i) ==> i + |pat| <= |s|
    decreases |pat|
  {
    if |pat| > 0 {
      OccursAtBound(s, pat[1..], i + 1);
    }
  }

  /** The character-wise match is the match of the slice. */
  lemma {:induction false} OccursAtSlice(s: string, pat: string, i: nat)
    ensures OccursAt(s, pat, i) <==> i + |pat| <= |s| && s[i..i + |pat|] == pat
    decreases |pat|
  {
    if |pat| > 0 {
      OccursAtSlice(s, pat[1..], i + 1);
      if i + |pat| <= |s| {
        var w := s[i..i + |pat|];
        assert w[0] == s[i] && w[1..] == s[i + 1..i + |pat|];
        if s[i] == pat[0] && s[i + 1..i + |pat|] == pat[1..] {
          assert w == [w[0]] + w[1..] == [pat[0]] + pat[1..] == pat;
        }
      }
    }
  }

  /** A match inside `y` is a match at the shifted position in `x + y`. */
  lemma {:induction false} OccursAtShift(x: string, y: string, pat: string, i: nat)
    ensures OccursAt(x + y, pat, |x| + i) == OccursAt(y, pat, i)
    decreases |pat|
  {
    if |pat| > 0 {
      if i < |y| {
        OccursAtShift(x, y, pat[1..], i + 1);
        assert (x + y)[|x| + i] == y[i];
      }
    }
  }

  /** The position of `pat` in `s` depends only on the part of `s` from `from` on. */
  lemma {:induction false} IndexOfShift(x: string, y: string, pat: string, from: nat)
    requires |pat| > 0
    ensures IndexOf(x + y, pat, |x| + from) == (if IndexOf(y, pat, from) == -1 then -1 else |x| + IndexOf(y, pat, from))
    decreases |y| - from
  {
    if |x| + from + |pat| <= |x + y| {
      OccursAtShift(x, y, pat, from);
      if !OccursAt(y, pat, from) {
        IndexOfShift(x, y, pat, from + 1);
      }
    }
  }

  /** `s.indexOf(c, from)` for a one-character needle. */
  function IndexOfChar(s: string, c: char, from: nat): (r: int)
    ensures r == -1 || (from <= r < |s| && s[r] == c)
    decreases |s| - from
  {
    if from >= |s| then -1
    else if s[from] == c then from
    else IndexOfChar(s, c, from + 1)
  }

  /** `s.indexOf(a + b, from)` for a two-character needle. */
  function IndexOfPair(s: string, a: char, b: char, from: nat): (r: int)
    ensures r == -1 || (from <= r && r + 1 < |s| && s[r] == a && s[r + 1] == b)
    decreases |s| - from
  {
    if from + 1 >= |s| then -1
    else if s[from] == a && s[from + 1] == b then from
    else IndexOfPair(s, a, b, from + 1)
  }

  /** No earlier position holds the character. */
  lemma {:induction false} IndexOfCharFirst(s: string, c: char, from: nat)
    ensures var r := IndexOfChar(s, c, from);
      forall i :: from <= i < |s| && (r == -1 || i < r) ==> s[i] != c
    decreases |s| - from
  {
    if from < |s| && s[from] != c {
      IndexOfCharFirst(s, c, from + 1);
    }
  }

  /** No earlier position starts the pair. */
  lemma {:induction false} IndexOfPairFirst(s: string, a: char, b: char, from: nat)
    ensures var r := IndexOfPair(s, a, b, from);
      forall i :: from <= i && i + 1 < |s| && (r == -1 || i < r) ==> !(s[i] == a && s[i + 1] == b)
    decreases |s| - from
  {
    if from + 1 < |s| && !(s[from] == a && s[from + 1] == b) {
      IndexOfPairFirst(s, a, b, from + 1);
    }
  }

  /** The specialised searches are `IndexOf` on one- and two-character needles. */
  lemma {:induction false} IndexOfCharIsIndexOf(s: string, c: char, from: nat)
    ensures IndexOfChar(s, c, from) == IndexOf(s, [c], from)
    decreases |s| - from
  {
    if from < |s| {
      assert OccursAt(s, [c], from) == (s[from] == c) by {
        assert [c][1..] == [];
      }
      if s[from] != c {
        IndexOfCharIsIndexOf(s, c, from + 1);
      }
    }
  }

  lemma {:induction false} IndexOfPairIsIndexOf(s: string, a: char, b: char, from: nat)
    ensures IndexOfPair(s, a, b, from) == IndexOf(s, [a, b], from)
    decreases |s| - from
  {
    if from + 1 < |s| {
      assert OccursAt(s, [a, b], from) == (s[from] == a && s[from + 1] == b) by {
        assert [a, b][1..] == [b];
        assert [b][1..] == [];
        assert OccursAt(s, [b], from + 1) == (s[from + 1] == b);
      }
      if !(s[from] == a && s[from + 1] == b) {
        IndexOfPairIsIndexOf(s, a, b, from + 1);
      }
    }
  }

  /** A search from inside `y` gives the same answer in `x + y`, shifted by `|x|`. */
  lemma {:induction false} IndexOfCharShift(x: string, y: string, c: char, from: nat)
    ensures IndexOfChar(x + y, c, |x| + from) == (if IndexOfChar(y, c, from) == -1 then -1 else |x| + IndexOfChar(y, c, from))
    decreases |y| - from
  {
    if from < |y| {
      assert (x + y)[|x| + from] == y[from];
      if y[from] != c {
        IndexOfCharShift(x, y, c, from + 1);
      }
    }
  }

  lemma {:induction false} IndexOfPairShift(x: string, y: string, a: char, b: char, from: nat)
    ensures IndexOfPair(x + y, a, b, |x| + from) == (if IndexOfPair(y, a, b, from) == -1 then -1 else |x| + IndexOfPair(y, a, b, from))
    decreases |y| - from
  {
    if from + 1 < |y| {
      assert (x + y)[|x| + from] == y[from] && (x + y)[|x| + from + 1] == y[from + 1];
      if !(y[from] == a && y[from + 1] == b) {
        IndexOfPairShift(x, y, a, b, from + 1);
      }
    }
  }

  /** `s.includes(pat)` for a non-empty pattern. */
  predicate Contains(s: string, pat: string)
    requires |pat| > 0
  {
    IndexOf(s, pat, 0) != -1
  }

  lemma ContainsAt(s: string, pat: string, i: nat)
    requires |pat| > 0 && i + |pat| <= |s| && s[i..i + |pat|] == pat
    ensures Contains(s, pat)
  {
    OccursAtSlice(s, pat, i);
    IndexOfSpec(s, pat, 0);
  }

  /** Every occurrence of one character replaced by another, as `replace(/x/g, y)` does
      for a single-character `x` and `y`. */
  function ReplaceChar(s: string, from: char, to: char): (r: string)
    ensures |r| == |s|
    ensures forall i :: 0 <= i < |s| ==> r[i] == (if s[i] == from then to else s[i])
  {
    if s == [] then [] else [if s[0] == from then to else s[0]] + ReplaceChar(s[1..], from, to)
  }

  /** Replacing characters acts on each part of a concatenation separately. */
  lemma {:induction false} ReplaceCharAppend(a: string, b: string, from: char, to: char)
    ensures ReplaceChar(a + b, from, to) == ReplaceChar(a, from, to) + ReplaceChar(b, from, to)
  {
    if a != [] {
      ReplaceCharAppend(a[1..], b, from, to);
      ConcatCons(a, b);
      var x := [if a[0] == from then to else a[0]];
      ConcatAssoc(x, ReplaceChar(a[1..], from, to), ReplaceChar(b, from, to));
    } else {
      ConcatEmpty(b);
      ConcatEmpty(ReplaceChar(b, from, to));
    }
  }

  function LowerChar(c: char): char {
    if 'A' <= c <= 'Z' then (c as int - 'A' as int + 'a' as int) as char else c
  }

  /** `toLowerCase` restricted to the ASCII letters. */
  function ToLowerAscii(s: string): (r: string)
    ensures |r| == |s|
    ensures forall i :: 0 <= i < |s| ==> r[i] == LowerChar(s[i])
  {
    if s == [] then [] else [LowerChar(s[0])] + ToLowerAscii(s[1..])
  }

  lemma LowerKeepsWhitespace(c: char)
    ensures IsWhitespace(LowerChar(c)) <==> IsWhitespace(c)
  {}

  lemma {:induction false} LowerCommutesWithTrim(s: string)
    ensures ToLowerAscii(Trim(s)) == Trim(ToLowerAscii(s))
  {
    LowerCommutesWithTrimStart(s);
    LowerCommutesWithTrimEnd(TrimStart(s));
  }

  lemma {:induction false} LowerCommutesWithTrimStart(s: string)
    ensures ToLowerAscii(TrimStart(s)) == TrimStart(ToLowerAscii(s))
  {
    if s != [] {
      LowerKeepsWhitespace(s[0]);
      assert ToLowerAscii(s)[1..] == ToLowerAscii(s[1..]);
      if IsWhitespace(s[0]) {
        LowerCommutesWithTrimStart(s[1..]);
      }
    }
  }

  lemma {:induction false} LowerCommutesWithTrimEnd(s: string)
    ensures ToLowerAscii(TrimEnd(s)) == TrimEnd(ToLowerAscii(s))
  {
    if s != [] {
      LowerKeepsWhitespace(s[|s| - 1]);
      assert ToLowerAscii(s)[..|s| - 1] == ToLowerAscii(s[..|s| - 1]);
      if IsWhitespace(s[|s| - 1]) {
        LowerCommutesWithTrimEnd(s[..|s| - 1]);
      }
    }
  }

  /** `s.replace(/\s+/g, ' ')`: every maximal run of whitespace becomes one space. A
      whitespace character followed by another one is dropped; the last one of a run
      becomes a space. */
  function Collapse(s: string): string {
    if s == [] then [] else CollapseHead(s) + Collapse(s[1..])
  }

  function CollapseHead(s: string): string
    requires s != []
  {
    if !IsWhitespace(s[0]) then [s[0]]
    else if |s| > 1 && IsWhitespace(s[1]) then []
    else " "
  }

  /** The longest prefix of `s` without whitespace. */
  function Word(s: string): (w: string)
    ensures |w| <= |s| && w == s[..|w|]
    ensures forall i :: 0 <= i < |w| ==> !IsWhitespace(w[i])
    ensures |w| < |s| ==> IsWhitespace(s[|w|])
  {
    if s == [] || IsWhitespace(s[0]) then [] else [s[0]] + Word(s[1..])
  }

  /** The whitespace-separated words of `s`, an independent description of what the
      whitespace-normalising rewrites keep. */
  function Words(s: string): seq<string>
    decreases |s|
  {
    var t := TrimStart(s);
    if t == [] then []
    else
      var w := Word(t);
      [w] + Words(t[|w|..])
  }

  /** Every word is non-empty and free of whitespace. */
  predicate ProperWords(ws: seq<string>) {
    forall k :: 0 <= k < |ws| ==> ws[k] != [] && forall i :: 0 <= i < |ws[k]| ==> !IsWhitespace(ws[k][i])
  }

  lemma {:induction false} WordsAreProper(s: string)
    ensures ProperWords(Words(s))
    decreases |s|
  {
    var t := TrimStart(s);
    TrimStartSpec(s);
    if t != [] {
      var w := Word(t);
      WordsAreProper(t[|w|..]);
    }
  }

  /** The words joined by single spaces. */
  function JoinWords(ws: seq<string>): string {
    if ws == [] then [] else if |ws| == 1 then ws[0] else ws[0] + " " + JoinWords(ws[1..])
  }

  lemma TrimStartIdempotent(s: string)
    ensures TrimStart(TrimStart(s)) == TrimStart(s)
  {
    TrimStartSpec(s);
    TrimStartOfNonWhitespace(TrimStart(s));
  }

  lemma WordsOfTrimStart(s: string)
    ensures Words(TrimStart(s)) == Words(s)
  {
    TrimStartIdempotent(s);
  }

  /** Collapsing distributes over a split just after a non-whitespace character. */
  lemma {:induction false} CollapseAppend(x: string, y: string)
    requires x != [] && !IsWhitespace(x[|x| - 1])
    ensures Collapse(x + y) == Collapse(x) + Collapse(y)
  {
    assert (x + y)[0] == x[0];
    assert (x + y)[1..] == x[1..] + y;
    assert CollapseHead(x + y) == CollapseHead(x) by {
      if |x| > 1 {
        assert (x + y)[1] == x[1];
      }
    }
    if |x| == 1 {
      assert x[1..] + y == y;
      assert x[1..] == [];
    } else {
      CollapseAppend(x[1..], y);
    }
  }

  /** A word is copied unchanged by collapsing. */
  lemma {:induction false} CollapseWord(w: string, r: string)
    requires forall i :: 0 <= i < |w| ==> !IsWhitespace(w[i])
    ensures Collapse(w + r) == w + Collapse(r)
  {
    if w != [] {
      assert (w + r)[0] == w[0];
      assert (w + r)[1..] == w[1..] + r;
      CollapseWord(w[1..], r);
    } else {
      assert w + r == r;
    }
  }

  /** A run of whitespace before a non-whitespace character (or the end) becomes one space. */
  lemma {:induction false} CollapseRun(b: string, v: string)
    requires b != [] && IsBlank(b)
    requires v == [] || !IsWhitespace(v[0])
    ensures Collapse(b + v) == " " + Collapse(v)
  {
    assert (b + v)[0] == b[0];
    assert (b + v)[1..] == b[1..] + v;
    if |b| == 1 {
      assert b[1..] + v == v;
      assert |b + v| > 1 ==> (b + v)[1] == v[0];
    } else {
      assert (b + v)[1] == b[1];
      CollapseRun(b[1..], v);
    }
  }

  lemma CollapseBlank(b: string)
    requires b != [] && IsBlank(b)
    ensures Collapse(b) == " "
  {
    CollapseRun(b, []);
    assert b + [] == b;
  }

  /** Trimming the start of a string that ends with non-whitespace keeps that end. */
  lemma NonBlankTrimStart(x: string)
    requires x != [] && !IsWhitespace(x[|x| - 1])
    ensures TrimStart(x) != [] && TrimStart(x)[|TrimStart(x)| - 1] == x[|x| - 1]
  {
    TrimStartKeepsTail(x);
  }

  /** Trimming the start of `x + y` stops inside `x` when `x` ends with non-whitespace. */
  lemma {:induction false} TrimStartPrefix(x: string, y: string)
    requires x != [] && !IsWhitespace(x[|x| - 1])
    ensures TrimStart(x + y) == TrimStart(x) + y
  {
    assert (x + y)[0] == x[0];
    if IsWhitespace(x[0]) {
      assert |x| > 1;
      assert (x + y)[1..] == x[1..] + y;
      TrimStartPrefix(x[1..], y);
    }
  }

  lemma ConcatAssoc<T>(a: seq<T>, b: seq<T>, c: seq<T>)
    ensures a + (b + c) == a + b + c
  {}

  /** The empty sequence is a unit of concatenation. */
  lemma ConcatEmpty<T>(a: seq<T>)
    ensures a + [] == a && [] + a == a
  {}

  /** Dropping part of the first part of a concatenation leaves the rest of it, then the
      second part. */
  lemma TakeDrop<T>(a: seq<T>, b: seq<T>)
    ensures (a + b)[..|a|] == a && (a + b)[|a|..] == b
  {
  }

  lemma DropConcat<T>(a: seq<T>, b: seq<T>, k: nat)
    requires k <= |a|
    ensures (a + b)[k..] == a[k..] + b
  {}

  /** A concatenation starts with the first part's head, followed by its tail and the rest. */
  lemma ConcatCons<T>(a: seq<T>, b: seq<T>)
    requires a != []
    ensures (a + b)[0] == a[0] && (a + b)[1..] == a[1..] + b
  {}

  lemma JoinWordsCons(w: string, ws: seq<string>)
    requires ws != []
    ensures JoinWords([w] + ws) == w + " " + JoinWords(ws)
  {
    assert ([w] + ws)[0] == w;
    assert ([w] + ws)[1..] == ws;
  }

  /** The whitespace gap before the next word of a string that ends in a word. */
  lemma GapBeforeWord(r: string)
    requires r != [] && IsWhitespace(r[0]) && !IsWhitespace(r[|r| - 1])
    ensures var r' := TrimStart(r);
      Tight(r') && r' != [] && |r'| < |r| && Collapse(r) == " " + Collapse(r') && Words(r) == Words(r')
  {
    var r' := TrimStart(r);
    var b := r[..|r| - |r'|];
    TrimStartSpec(r);
    assert r == b + r';
    NonBlankTrimStart(r);
    CollapseRun(b, r');
    WordsOfTrimStart(r);
  }

  /** On a tight string, collapsing whitespace is joining its words with single spaces. */
  lemma {:induction false} CollapseTight(u: string)
    requires Tight(u)
    ensures Collapse(u) == JoinWords(Words(u))
    ensures u != [] ==> Words(u) != []
    decreases |u|
  {
    if u != [] {
      var w := Word(u);
      var r := u[|w|..];
      FirstWord(u);
      if r != [] {
        GapBeforeWord(r);
        var r' := TrimStart(r);
        CollapseTight(r');
        JoinWordsCons(w, Words(r'));
        var j := JoinWords(Words(r'));
        calc {
          Collapse(u);
          w + Collapse(r);
          w + (" " + j);
          { ConcatAssoc(w, " ", j); }
          w + " " + j;
          JoinWords([w] + Words(r'));
          JoinWords(Words(u));
        }
      }
    }
  }

  /** A tight non-empty string is its first word followed by the rest. */
  lemma FirstWord(u: string)
    requires Tight(u) && u != []
    ensures var w := Word(u); var r := u[|w|..];
      w != [] && u == w + r && Words(u) == [w] + Words(r) && Collapse(u) == w + Collapse(r)
      && (r == [] ==> Words(r) == [] && Collapse(r) == [])
      && (r != [] ==> IsWhitespace(r[0]) && !IsWhitespace(r[|r| - 1]))
  {
    var w := Word(u);
    var r := u[|w|..];
    assert u == w + r;
    TrimStartOfNonWhitespace(u);
    CollapseWord(w, r);
    if r != [] {
      assert r[0] == u[|w|] && r[|r| - 1] == u[|u| - 1];
    }
  }

  /** `replace(/\s+/g, ' ')` after `trim()` (the order used for message keys) gives the
      words joined by single spaces. */
  lemma CollapseOfTrim(s: string)
    ensures Collapse(Trim(s)) == JoinWords(Words(s))
  {
    var t := TrimStart(s);
    var u := TrimEnd(t);
    var b := t[|u|..];
    assert Tight(u) && IsBlank(b) && t == u + b by {
      TrimStartSpec(s);
      TrimEndSpec(t);
      TrimEndOfNonWhitespaceStart(t);
    }
    assert Words(s) == Words(u) by {
      WordsOfTrimStart(s);
      WordsOfTightPrefix(u, b);
    }
    CollapseTight(u);
  }

  /** Trailing whitespace contributes no word. */
  lemma {:induction false} WordsOfTightPrefix(u: string, b: string)
    requires Tight(u) && IsBlank(b)
    ensures Words(u + b) == Words(u)
    decreases |u|
  {
    if u == [] {
      assert u + b == b;
      TrimStartKeepsTail(b);
    } else {
      var w := Word(u);
      var r := u[|w|..];
      FirstWord(u);
      FirstWordBeforeBlank(u, b);
      if r == [] {
        assert r + b == b;
        TrimStartKeepsTail(b);
      } else {
        GapBeforeWord(r);
        var r' := TrimStart(r);
        TrimStartPrefix(r, b);
        WordsOfTrimStart(r + b);
        WordsOfTightPrefix(r', b);
      }
    }
  }

  lemma FirstWordBeforeBlank(u: string, b: string)
    requires Tight(u) && u != [] && IsBlank(b)
    ensures var w := Word(u); Words(u + b) == [w] + Words(u[|w|..] + b)
  {
    WordOfConcat(u, b);
    WordsUnfold(u + b);
  }

  /** The first word of `u + b` is that of `u`, and what follows it is the rest of `u`, then `b`. */
  lemma WordOfConcat(u: string, b: string)
    requires Tight(u) && u != [] && IsBlank(b)
    ensures (u + b)[0] == u[0]
    ensures Word(u + b) == Word(u) && (u + b)[|Word(u)|..] == u[|Word(u)|..] + b
  {
    WordPrefix(u, b);
    ConcatCons(u, b);
    DropConcat(u, b, |Word(u)|);
  }

  /** The words of a string that starts with non-whitespace: its first word, then the rest. */
  lemma WordsUnfold(x: string)
    requires x != [] && !IsWhitespace(x[0])
    ensures Words(x) == [Word(x)] + Words(x[|Word(x)|..])
  {
    TrimStartOfNonWhitespace(x);
  }

  lemma {:induction false} WordPrefix(u: string, b: string)
    requires u != [] && !IsWhitespace(u[|u| - 1])
    requires b == [] || IsWhitespace(b[0])
    ensures Word(u + b) == Word(u)
  {
    assert (u + b)[0] == u[0];
    assert (u + b)[1..] == u[1..] + b;
    if !IsWhitespace(u[0]) {
      if |u| > 1 {
        WordPrefix(u[1..], b);
      } else {
        assert u[1..] + b == b;
      }
    }
  }

  /** `replace(/\s+/g, ' ').trim()` (the order used for display text) gives the same. */
  lemma TrimOfCollapse(s: string)
    ensures Trim(Collapse(s)) == JoinWords(Words(s))
  {
    CollapseOfTrim(s);
    TrimSpec(s);
    if IsBlank(s) {
      if s != [] {
        CollapseBlank(s);
      }
      TrimSpec(Collapse(s));
    } else {
      var t := TrimStart(s);
      var a := s[..|s| - |t|];
      var u := TrimEnd(t);
      var b := t[|u|..];
      TrimParts(s);
      CollapseFramed(a, u, b);
    }
  }

  /** A string is its leading blank run, its trimmed core and its trailing blank run. */
  lemma TrimParts(s: string)
    ensures var t := TrimStart(s); var u := TrimEnd(t);
      |u| <= |t| <= |s| && s == s[..|s| - |t|] + (u + t[|u|..])
      && IsBlank(s[..|s| - |t|]) && IsBlank(t[|u|..]) && Tight(u) && u == Trim(s)
  {
    var t := TrimStart(s);
    TrimStartSpec(s);
    var u := TrimEnd(t);
    TrimEndSpec(t);
    TrimEndOfNonWhitespaceStart(t);
    ThreeParts(s, t, u);
    assert Tight(u) by {
      assert u == [] || (u[0] == t[0] && !IsWhitespace(u[|u| - 1]));
    }
  }

  /** A sequence is what comes before its suffix `t`, then the prefix `u` of `t`, then the
      rest of `t`. */
  lemma ThreeParts<T>(s: seq<T>, t: seq<T>, u: seq<T>)
    requires |u| <= |t| <= |s| && t == s[|s| - |t|..] && u == t[..|u|]
    ensures s == s[..|s| - |t|] + (u + t[|u|..])
  {
    assert u + t[|u|..] == t;
  }

  /** Trimming keeps a first character that is not whitespace. */
  lemma TrimKeepsFirst(s: string)
    requires s != [] && !IsWhitespace(s[0])
    ensures Trim(s) != [] && Trim(s)[0] == s[0]
  {
    TrimParts(s);
    TrimSpec(s);
    assert !IsBlank(s);
  }

  /** Collapsing a tight string between two blank runs: each run becomes at most one space. */
  lemma CollapseFramed(a: string, u: string, b: string)
    requires IsBlank(a) && Tight(u) && u != [] && IsBlank(b)
    ensures Collapse(a + (u + b))
      == (if a == [] then "" else " ") + Collapse(u) + (if b == [] then "" else " ")
    ensures Trim(Collapse(a + (u + b))) == Collapse(u)
  {
    var lead: string := if a == [] then "" else " ";
    var trail: string := if b == [] then "" else " ";
    var m := Collapse(u);
    assert Collapse(u + b) == m + trail by {
      if b == [] {
        assert u + b == u;
      } else {
        CollapseAppend(u, b);
        CollapseBlank(b);
      }
    }
    assert Collapse(a + (u + b)) == lead + (m + trail) by {
      if a == [] {
        assert a + (u + b) == u + b;
      } else {
        assert (u + b)[0] == u[0];
        CollapseRun(a, u + b);
      }
    }
    assert lead + (m + trail) == lead + m + trail;
    TrimOfFramed(lead, m, trail, u);
  }

  lemma TrimOfFramed(lead: string, m: string, trail: string, u: string)
    requires lead == "" || lead == " "
    requires trail == "" || trail == " "
    requires Tight(u) && m == Collapse(u)
    ensures Trim(lead + m + trail) == m
  {
    assert Tight(m) by {
      CollapseTight(u);
      WordsAreProper(u);
      JoinWordsTight(Words(u));
    }
    TrimAround(lead, m, trail);
  }

  /** Joined words neither start nor end with whitespace, and every whitespace character in
      them is a single space between two non-whitespace characters. */
  lemma {:induction false} JoinWordsTight(ws: seq<string>)
    requires ProperWords(ws)
    ensures ws != [] ==> JoinWords(ws) != [] && JoinWords(ws)[0] == ws[0][0]
    ensures Tight(JoinWords(ws))
    ensures SingleSpaced(JoinWords(ws))
  {
    if |ws| > 1 {
      JoinWordsTight(ws[1..]);
      var rest := JoinWords(ws[1..]);
      var j := ws[0] + " " + rest;
      assert forall i :: 0 <= i < |ws[0]| ==> j[i] == ws[0][i];
      forall i | 0 <= i < |j| && IsWhitespace(j[i])
        ensures j[i] == ' ' && 0 < i < |j| - 1 && !IsWhitespace(j[i + 1])
      {
        if i > |ws[0]| {
          assert j[i] == rest[i - |ws[0]| - 1];
          if i + 1 < |j| {
            assert j[i + 1] == rest[i - |ws[0]|];
          }
        } else if i == |ws[0]| {
          assert j[i + 1] == rest[0];
        }
      }
    } else if |ws| == 1 {
      assert JoinWords(ws) == ws[0];
    }
  }

  /** Every whitespace character is a space with non-whitespace on both sides. */
  predicate SingleSpaced(s: string) {
    forall i :: 0 <= i < |s| && IsWhitespace(s[i]) ==> s[i] == ' ' && 0 < i < |s| - 1 && !IsWhitespace(s[i + 1])
  }

  /** A text has no words exactly when it is blank. */
  lemma WordsBlank(value: string)
    ensures Words(value) == [] <==> IsBlank(value)
  {
    TrimSpec(value);
    TrimStartSpec(value);
    TrimStartIsBlank(value);
  }

  /** Only a blank text trims at the start to nothing. */
  lemma TrimStartIsBlank(value: string)
    ensures TrimStart(value) == [] <==> IsBlank(value)
  {
    TrimStartSpec(value);
    if TrimStart(value) == [] {
      assert value[..|value|] == value;
    }
  }

  /** `replace(/c/g, rep)` for a one-character pattern. */
  function ReplaceAll(s: string, c: char, rep: string): string {
    if s == [] then [] else (if s[0] == c then rep else [s[0]]) + ReplaceAll(s[1..], c, rep)
  }

  lemma {:induction false} ReplaceAllAppend(a: string, b: string, c: char, rep: string)
    ensures ReplaceAll(a + b, c, rep) == ReplaceAll(a, c, rep) + ReplaceAll(b, c, rep)
  {
    if a != [] {
      ReplaceAllAppend(a[1..], b, c, rep);
      assert (a + b)[1..] == a[1..] + b;
    } else {
      assert a + b == b;
    }
  }

  /** `String(n)` for a non-negative integer. */
  function DecimalString(n: nat): (s: string)
    ensures s != [] && forall i :: 0 <= i < |s| ==> '0' <= s[i] <= '9'
    decreases n
  {
    if n < 10 then [Digit(n)] else DecimalString(n / 10) + [Digit(n % 10)]
  }

  function Digit(d: nat): (c: char)
    requires d < 10
    ensures '0' <= c <= '9'
  {
    (48 + d) as char
  }

  /** The value of a text of decimal digits. */
  function DigitsValue(s: string): nat
    requires forall i :: 0 <= i < |s| ==> '0' <= s[i] <= '9'
  {
    if s == [] then 0 else DigitsValue(s[..|s| - 1]) * 10 + (s[|s| - 1] as int - 48)
  }

  /** Reading the digits back gives the number. */
  lemma {:induction false} DecimalRoundTrip(n: nat)
    ensures DigitsValue(DecimalString(n)) == n
    decreases n
  {
    if n >= 10 {
      DecimalRoundTrip(n / 10);
      var s := DecimalString(n);
      assert s[..|s| - 1] == DecimalString(n / 10);
    }
  }

  /** Different numbers have different decimal texts. */
  lemma DecimalInjective(a: nat, b: nat)
    ensures DecimalString(a) == DecimalString(b) <==> a == b
  {
    DecimalRoundTrip(a);
    DecimalRoundTrip(b);
  }
}
