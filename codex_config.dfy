/** The reconciler of the Codex `config.toml`: the text pipeline that removes an earlier
    managed `notify` block, comments out hand-written `notify = ...` assignments, and inserts
    a fresh managed block at the TOML root, before the first table header. */
module CodexConfig {
  import opened Wrappers
  import opened Text
  import Reconcile

  const ManagedStart: string := "# >>> agent-task-notifier managed notify"
  const ManagedEnd: string := "# <<< agent-task-notifier managed notify"

  // ---------------------------------------------------------------- lines

  /** Holds no character that `splitLines` treats as a line break. */
  predicate OneLine(l: string) {
    forall i :: 0 <= i < |l| ==> l[i] != '\n' && l[i] != '\r'
  }

  predicate AllOneLine(ls: seq<string>) {
    forall i :: 0 <= i < |ls| ==> OneLine(ls[i])
  }

  predicate NoCarriageReturn(s: string) {
    forall i :: 0 <= i < |s| ==> s[i] != '\r'
  }

  /** `replace(/\r\n/g, '\n')`: each CRLF pair, read left to right, becomes one LF. */
  function ReplaceCrLf(s: string): (r: string)
    ensures |r| <= |s|
  {
    if s == [] then []
    else if s[0] == '\r' && |s| >= 2 && s[1] == '\n' then "\n" + ReplaceCrLf(s[2..])
    else [s[0]] + ReplaceCrLf(s[1..])
  }

  /** The two rewrites `splitLines` applies before splitting: CRLF, then every CR left over,
      become LF. */
  function NormalizeBreaks(s: string): (r: string)
    ensures NoCarriageReturn(r)
  {
    ReplaceChar(ReplaceCrLf(s), '\r', '\n')
  }

  /** Character by character: a CRLF pair and a lone CR each become one LF, every other
      character is kept. */
  lemma NormalizeBreaksSpec(c: char, s: string)
    ensures NormalizeBreaks([]) == []
    ensures c == '\r' && s != [] && s[0] == '\n' ==> NormalizeBreaks([c] + s) == "\n" + NormalizeBreaks(s[1..])
    ensures c == '\r' && (s == [] || s[0] != '\n') ==> NormalizeBreaks([c] + s) == "\n" + NormalizeBreaks(s)
    ensures c != '\r' ==> NormalizeBreaks([c] + s) == [c] + NormalizeBreaks(s)
  {
    var x := [c] + s;
    assert x[1..] == s;
    if c == '\r' && s != [] && s[0] == '\n' {
      assert x[2..] == s[1..];
    }
  }

  /** Text without carriage returns is left alone. */
  lemma {:induction false} NormalizeBreaksIdentity(s: string)
    requires NoCarriageReturn(s)
    ensures NormalizeBreaks(s) == s
  {
    if s != [] {
      NormalizeBreaksIdentity(s[1..]);
      NormalizeBreaksSpec(s[0], s[1..]);
      assert [s[0]] + s[1..] == s;
    }
  }

  /** `split('\n')`: the pieces between line feeds, always at least one. */
  function Split(s: string): (ls: seq<string>)
    ensures |ls| >= 1
  {
    if s == [] then [[]]
    else if s[0] == '\n' then [[]] + Split(s[1..])
    else var rest := Split(s[1..]); [[s[0]] + rest[0]] + rest[1..]
  }

  /** `join(sep)`. */
  function Join(ls: seq<string>, sep: string): string {
    if ls == [] then [] else if |ls| == 1 then ls[0] else ls[0] + sep + Join(ls[1..], sep)
  }

  /** `splitLines`: no lines for the empty text, otherwise the pieces between normalised
      line breaks. */
  function SplitLines(text: string): (ls: seq<string>)
    ensures ls == [] <==> text == []
    ensures AllOneLine(ls)
  {
    if text == [] then []
    else
      SplitOneLine(NormalizeBreaks(text));
      Split(NormalizeBreaks(text))
  }

  lemma {:induction false} SplitOneLine(s: string)
    requires NoCarriageReturn(s)
    ensures AllOneLine(Split(s))
  {
    if s != [] {
      SplitOneLine(s[1..]);
      var rest := Split(s[1..]);
      if s[0] != '\n' {
        var ls := Split(s);
        assert ls[0] == [s[0]] + rest[0];
        forall i | 0 <= i < |ls|
          ensures OneLine(ls[i])
        {
          if i > 0 {
            assert ls[i] == rest[i];
          }
        }
      }
    }
  }

  lemma JoinTwo(a: string, ls: seq<string>, sep: string)
    requires ls != []
    ensures Join([a] + ls, sep) == a + sep + Join(ls, sep)
  {
    assert ([a] + ls)[1..] == ls;
  }

  /** Joining the pieces of a split gives the text back. */
  lemma {:induction false} JoinSplit(s: string)
    ensures Join(Split(s), "\n") == s
  {
    if s != [] {
      JoinSplit(s[1..]);
      var rest := Split(s[1..]);
      if s[0] == '\n' {
        JoinTwo([], rest, "\n");
        assert s == "\n" + s[1..];
      } else if |rest| == 1 {
        assert s == [s[0]] + s[1..];
      } else {
        JoinTwo([s[0]] + rest[0], rest[1..], "\n");
        JoinTwo(rest[0], rest[1..], "\n");
        assert [rest[0]] + rest[1..] == rest;
        assert s == [s[0]] + s[1..];
      }
    }
  }

  /** A piece without line feeds, and a line feed after it, start a split. */
  lemma {:induction false} SplitAfterLine(l: string, t: string)
    requires OneLine(l)
    ensures Split(l + t) == [l + Split(t)[0]] + Split(t)[1..]
  {
    if l != [] {
      assert (l + t)[0] == l[0] && l[0] != '\n';
      assert (l + t)[1..] == l[1..] + t;
      SplitAfterLine(l[1..], t);
      var rest := Split(l[1..] + t);
      assert Split(l + t) == [[l[0]] + rest[0]] + rest[1..];
      assert rest[0] == l[1..] + Split(t)[0];
      assert rest[1..] == Split(t)[1..];
      assert [l[0]] + (l[1..] + Split(t)[0]) == l + Split(t)[0];
    } else {
      assert l + t == t;
      assert l + Split(t)[0] == Split(t)[0];
      assert [Split(t)[0]] + Split(t)[1..] == Split(t);
    }
  }

  /** Splitting the join of one-line pieces gives the pieces back. */
  lemma {:induction false} SplitJoin(ls: seq<string>)
    requires ls != [] && AllOneLine(ls)
    ensures Split(Join(ls, "\n")) == ls
  {
    if |ls| == 1 {
      SplitAfterLine(ls[0], []);
      assert Split([]) == [[]];
      assert ls[0] + [] == ls[0];
    } else {
      SplitJoin(ls[1..]);
      var t := Join(ls[1..], "\n");
      assert ls[0] + "\n" + t == ls[0] + ("\n" + t);
      SplitAfterLine(ls[0], "\n" + t);
      assert ("\n" + t)[0] == '\n' && ("\n" + t)[1..] == t;
      assert Split("\n" + t) == [[]] + Split(t);
      assert ls[0] + [] == ls[0];
      assert [ls[0]] + ls[1..] == ls;
    }
  }

  /** Joined lines are empty exactly for no lines or one empty line. */
  lemma JoinEmpty(ls: seq<string>, sep: string)
    requires sep != []
    ensures Join(ls, sep) == [] <==> ls == [] || ls == [[]]
  {
  }

  /** `splitLines` loses nothing but the line-break normalisation. */
  lemma SplitLinesJoin(text: string)
    ensures Join(SplitLines(text), "\n") == NormalizeBreaks(text)
  {
    if text != [] {
      JoinSplit(NormalizeBreaks(text));
    }
  }

  /** Splitting joined one-line pieces gives them back, unless the join is empty. */
  lemma SplitLinesOfJoin(ls: seq<string>)
    requires AllOneLine(ls)
    ensures SplitLines(Join(ls, "\n")) == if Join(ls, "\n") == [] then [] else ls
  {
    var t := Join(ls, "\n");
    JoinEmpty(ls, "\n");
    if t != [] {
      JoinNoCarriageReturn(ls);
      NormalizeBreaksIdentity(t);
      SplitJoin(ls);
    }
  }

  lemma {:induction false} JoinNoCarriageReturn(ls: seq<string>)
    requires AllOneLine(ls)
    ensures NoCarriageReturn(Join(ls, "\n"))
  {
    if |ls| > 1 {
      JoinNoCarriageReturn(ls[1..]);
    }
  }

  /** Joining concatenated non-empty line lists puts one separator between them. */
  lemma {:induction false} JoinAppend(a: seq<string>, b: seq<string>, sep: string)
    requires a != [] && b != []
    ensures Join(a + b, sep) == Join(a, sep) + sep + Join(b, sep)
  {
    if |a| > 1 {
      JoinAppend(a[1..], b, sep);
      assert (a + b)[1..] == a[1..] + b;
    } else {
      assert (a + b)[1..] == b;
    }
  }

  // ---------------------------------------------------------------- removeManagedBlock

  /** The lines `removeManagedBlock` keeps, scanning `lines` with the block flag `inBlock`:
      a line whose trim is the start marker opens a block, every line up to and including the
      next line whose trim is the end marker is dropped. */
  function Kept(lines: seq<string>, inBlock: bool): seq<string> {
    if lines == [] then []
    else if !inBlock && Trim(lines[0]) == ManagedStart then Kept(lines[1..], true)
    else if inBlock then Kept(lines[1..], Trim(lines[0]) != ManagedEnd)
    else [lines[0]] + Kept(lines[1..], false)
  }

  /** Every line kept is a line of the input, so what holds of all input lines holds of
      the kept ones. */
  lemma {:induction false} KeptKeeps(lines: seq<string>, inBlock: bool, p: string -> bool)
    requires forall i :: 0 <= i < |lines| ==> p(lines[i])
    ensures forall i :: 0 <= i < |Kept(lines, inBlock)| ==> p(Kept(lines, inBlock)[i])
  {
    if lines != [] {
      KeptKeeps(lines[1..], (!inBlock && Trim(lines[0]) == ManagedStart) || (inBlock && Trim(lines[0]) != ManagedEnd), p);
      assert forall i :: 0 <= i < |lines[1..]| ==> p(lines[1..][i]);
    }
  }

  /** No kept line is a start marker: outside a block one opens a block, inside a block
      every line is dropped. */
  lemma {:induction false} KeptHasNoStart(lines: seq<string>, inBlock: bool)
    ensures forall i :: 0 <= i < |Kept(lines, inBlock)| ==> Trim(Kept(lines, inBlock)[i]) != ManagedStart
  {
    if lines != [] {
      KeptHasNoStart(lines[1..], (!inBlock && Trim(lines[0]) == ManagedStart) || (inBlock && Trim(lines[0]) != ManagedEnd));
    }
  }

  /** What `removeManagedBlock` returns. */
  function WithoutManagedBlock(text: string): string {
    Join(Kept(SplitLines(text), false), "\n")
  }

  method RemoveManagedBlock(text: string) returns (r: string)
    ensures r == WithoutManagedBlock(text)
  {
    var lines := SplitLines(text);
    var nextLines: seq<string> := [];
    var inManagedBlock := false;
    for i := 0 to |lines|
      invariant nextLines + Kept(lines[i..], inManagedBlock) == Kept(lines, false)
    {
      assert lines[i..][1..] == lines[i + 1..];
      var line := lines[i];
      if !inManagedBlock && Trim(line) == ManagedStart {
        inManagedBlock := true;
        continue;
      }
      if inManagedBlock {
        if Trim(line) == ManagedEnd {
          inManagedBlock := false;
        }
        continue;
      }
      nextLines := nextLines + [line];
    }
    assert lines[|lines|..] == [];
    assert nextLines + [] == nextLines;
    r := Join(nextLines, "\n");
  }

  /** Lines before any start marker are kept as they are. */
  lemma {:induction false} KeptPrefix(a: seq<string>, b: seq<string>)
    requires forall i :: 0 <= i < |a| ==> Trim(a[i]) != ManagedStart
    ensures Kept(a + b, false) == a + Kept(b, false)
  {
    if a != [] {
      KeptPrefix(a[1..], b);
      ConcatCons(a, b);
      ConcatAssoc([a[0]], a[1..], Kept(b, false));
      assert [a[0]] + a[1..] == a;
    } else {
      ConcatEmpty(b);
      ConcatEmpty(Kept(b, false));
    }
  }

  /** Without a start marker nothing is removed. */
  lemma NoBlockKeepsAll(lines: seq<string>)
    requires forall i :: 0 <= i < |lines| ==> Trim(lines[i]) != ManagedStart
    ensures Kept(lines, false) == lines
  {
    KeptPrefix(lines, []);
    ConcatEmpty(lines);
  }

  /** Inside a block every line before the end marker is dropped. */
  lemma {:induction false} KeptInside(m: seq<string>, b: seq<string>)
    requires forall i :: 0 <= i < |m| ==> Trim(m[i]) != ManagedEnd
    ensures Kept(m + b, true) == Kept(b, true)
  {
    if m != [] {
      KeptInside(m[1..], b);
      ConcatCons(m, b);
    } else {
      ConcatEmpty(b);
    }
  }

  /** A start marker, the lines after it up to the first end marker, and that end marker
      are removed together; the scan then goes on outside a block. */
  lemma RemovesClosedBlock(s: string, m: seq<string>, e: string, b: seq<string>)
    requires Trim(s) == ManagedStart && Trim(e) == ManagedEnd
    requires forall i :: 0 <= i < |m| ==> Trim(m[i]) != ManagedEnd
    ensures Kept([s] + m + [e] + b, false) == Kept(b, false)
  {
    var x := [s] + m + [e] + b;
    assert x[1..] == m + ([e] + b);
    KeptInside(m, [e] + b);
    assert ([e] + b)[1..] == b;
    assert Kept([e] + b, true) == Kept(b, false);
  }

  /** A start marker with no end marker after it removes everything to the end. */
  lemma RemovesOpenBlock(s: string, m: seq<string>)
    requires Trim(s) == ManagedStart
    requires forall i :: 0 <= i < |m| ==> Trim(m[i]) != ManagedEnd
    ensures Kept([s] + m, false) == []
  {
    assert ([s] + m)[1..] == m + [];
    KeptInside(m, []);
    assert Kept([], true) == [];
  }
  // ---------------------------------------------------------------- commentLegacyNotifyAssignments

  function CountChar(s: string, c: char): nat {
    if s == [] then 0 else (if s[0] == c then 1 else 0) + CountChar(s[1..], c)
  }

  /** `countBracketDelta`: opening minus closing square brackets. */
  function CountBracketDelta(line: string): int {
    CountChar(line, '[') - CountChar(line, ']')
  }

  /** `/^notify\s*=/` on text whose leading whitespace is already gone: the word, optional
      whitespace, then `=`. */
  predicate NotifyAssignment(t: string) {
    StartsWith(t, "notify") && var u := TrimStart(t[6..]); u != [] && u[0] == '='
  }

  /** `isLegacyNotifyStart`. */
  predicate IsLegacyNotifyStart(line: string) {
    var t := TrimStart(line);
    !StartsWith(t, "#") && NotifyAssignment(t)
  }

  /** Every line of the form `<blank>notify<blank>=<anything>` starts a legacy assignment. */
  lemma LegacyFromShape(lead: string, gap: string, rest: string)
    requires IsBlank(lead) && IsBlank(gap)
    ensures IsLegacyNotifyStart(lead + "notify" + gap + "=" + rest)
  {
    var x := "notify" + gap + "=" + rest;
    assert lead + "notify" + gap + "=" + rest == lead + x;
    TrimStartSkipsBlank(lead, x);
    TrimStartOfNonWhitespace(x);
    assert x[..6] == "notify";
    assert x[6..] == gap + ("=" + rest);
    TrimStartSkipsBlank(gap, "=" + rest);
    TrimStartOfNonWhitespace("=" + rest);
  }

  /** A line commented out by the reconciler is never matched again. */
  lemma CommentedNeverMatches(line: string)
    ensures !IsLegacyNotifyStart("# " + line)
  {
    TrimStartOfNonWhitespace("# " + line);
  }

  /** Where the inner scan of `commentLegacyNotifyAssignments` stops: from line `end` with
      bracket balance `balance`, it moves on while the balance is positive and a line
      remains, adding that line's delta. */
  function RunEnd(lines: seq<string>, end: nat, balance: int): (e: nat)
    requires end < |lines|
    ensures end <= e < |lines|
    decreases |lines| - end
  {
    if balance > 0 && end + 1 < |lines| then
      RunEnd(lines, end + 1, balance + CountBracketDelta(lines[end + 1]))
    else end
  }

  /** The run scan reads only the lines from where it starts. */
  lemma {:induction false} RunEndOfTail(a: seq<string>, b: seq<string>, end: nat, balance: int)
    requires end < |a| == |b| && a[end..] == b[end..]
    ensures RunEnd(a, end, balance) == RunEnd(b, end, balance)
    decreases |a| - end
  {
    if balance > 0 && end + 1 < |a| {
      assert a[end + 1] == a[end..][1] == b[end + 1];
      assert a[end + 1..] == a[end..][1..];
      assert b[end + 1..] == b[end..][1..];
      RunEndOfTail(a, b, end + 1, balance + CountBracketDelta(a[end + 1]));
    }
  }

  /** The balance the inner scan holds on reaching line `j`, starting from line `k` with
      balance `b`. */
  function BalanceAt(lines: seq<string>, k: nat, b: int, j: nat): int
    requires k <= j < |lines|
    decreases j - k
  {
    if j == k then b else BalanceAt(lines, k + 1, b + CountBracketDelta(lines[k + 1]), j)
  }

  /** A scan that passes line `j` goes on from there as a scan started at `j` would. */
  lemma {:induction false} RunThrough(lines: seq<string>, k: nat, b: int, j: nat)
    requires k <= j < |lines| && j <= RunEnd(lines, k, b)
    ensures RunEnd(lines, k, b) == RunEnd(lines, j, BalanceAt(lines, k, b, j))
    decreases j - k
  {
    if j > k {
      RunThrough(lines, k + 1, b + CountBracketDelta(lines[k + 1]), j);
    }
  }

  /** A larger starting balance never ends the scan earlier. */
  lemma {:induction false} RunMonotone(lines: seq<string>, k: nat, b: int, c: int)
    requires k < |lines| && b <= c
    ensures RunEnd(lines, k, b) <= RunEnd(lines, k, c)
    decreases |lines| - k
  {
    if b > 0 && k + 1 < |lines| {
      RunMonotone(lines, k + 1, b + CountBracketDelta(lines[k + 1]), c + CountBracketDelta(lines[k + 1]));
    }
  }

  /** A legacy start inside a run has a run that ends within the enclosing one: the
      enclosing scan reaches it with a positive balance on top of that line's own delta. */
  lemma RunInside(lines: seq<string>, index: nat, j: nat)
    requires index < j < |lines| && j <= RunEnd(lines, index, CountBracketDelta(lines[index]))
    ensures RunEnd(lines, j, CountBracketDelta(lines[j])) <= RunEnd(lines, index, CountBracketDelta(lines[index]))
  {
    var d := CountBracketDelta(lines[index]);
    var e := RunEnd(lines, index, d);
    RunThrough(lines, index, d, j - 1);
    var prior := BalanceAt(lines, index, d, j - 1);
    assert prior > 0;
    assert e == RunEnd(lines, j, prior + CountBracketDelta(lines[j]));
    RunMonotone(lines, j, CountBracketDelta(lines[j]), prior + CountBracketDelta(lines[j]));
  }

  /** Line `i` belongs to the bracket run of a legacy start at or before it. */
  predicate InRun(lines: seq<string>, i: nat)
    requires i < |lines|
  {
    exists j :: 0 <= j <= i && IsLegacyNotifyStart(lines[j]) && i <= RunEnd(lines, j, CountBracketDelta(lines[j]))
  }

  /** Line `i` after commenting: prefixed with `# ` exactly when it is in a run. */
  function CommentedLine(lines: seq<string>, i: nat): string
    requires i < |lines|
  {
    if InRun(lines, i) then "# " + lines[i] else lines[i]
  }

  /** What `commentLegacyNotifyAssignments` makes of the lines. */
  function CommentedLines(lines: seq<string>): (r: seq<string>)
    ensures |r| == |lines|
  {
    seq(|lines|, k requires 0 <= k < |lines| => CommentedLine(lines, k))
  }

  /** What `commentLegacyNotifyAssignments` returns. */
  function CommentedText(text: string): string {
    Join(CommentedLines(SplitLines(text)), "\n")
  }

  /** Every run started before line `index` ends before it. */
  predicate RunsEndBefore(lines: seq<string>, index: nat) {
    forall j :: 0 <= j < index && j < |lines| && IsLegacyNotifyStart(lines[j]) ==>
      RunEnd(lines, j, CountBracketDelta(lines[j])) < index
  }

  /** Outside every earlier run, a line that is no legacy start is kept. */
  lemma PlainStep(lines: seq<string>, index: nat)
    requires index < |lines| && !IsLegacyNotifyStart(lines[index]) && RunsEndBefore(lines, index)
    ensures !InRun(lines, index) && RunsEndBefore(lines, index + 1)
  {
  }

  /** Outside every earlier run, a legacy start opens a run whose lines are all commented,
      and no run reaches past it. */
  lemma RunStep(lines: seq<string>, index: nat)
    requires index < |lines| && IsLegacyNotifyStart(lines[index]) && RunsEndBefore(lines, index)
    ensures var e := RunEnd(lines, index, CountBracketDelta(lines[index]));
      (forall k :: index <= k <= e ==> InRun(lines, k)) && RunsEndBefore(lines, e + 1)
  {
    var e := RunEnd(lines, index, CountBracketDelta(lines[index]));
    forall j | index < j <= e && IsLegacyNotifyStart(lines[j])
      ensures RunEnd(lines, j, CountBracketDelta(lines[j])) <= e
    {
      RunInside(lines, index, j);
    }
  }

  /** The `for` loop of `commentLegacyNotifyAssignments`: prefixes `# ` to the lines
      `from` to `to - 1` of `output` in place. */
  method CommentOutRange(output: array<string>, from: nat, to: nat)
    requires from <= to <= output.Length
    modifies output
    ensures forall k :: from <= k < to ==> output[k] == "# " + old(output[k])
    ensures forall k :: 0 <= k < output.Length && !(from <= k < to) ==> output[k] == old(output[k])
  {
    for pointer := from to to
      invariant forall k :: from <= k < pointer ==> output[k] == "# " + old(output[k])
      invariant forall k :: 0 <= k < output.Length && !(from <= k < pointer) ==> output[k] == old(output[k])
    {
      output[pointer] := "# " + output[pointer];
    }
  }

  /** The inner `while` loop of `commentLegacyNotifyAssignments`: from a legacy start at
      `index`, the last line that still belongs to its bracket run. */
  method ScanRun(output: array<string>, index: nat) returns (end: nat)
    requires index < output.Length
    ensures end == RunEnd(output[..], index, CountBracketDelta(output[index]))
  {
    end := index;
    var bracketBalance := CountBracketDelta(output[index]);
    while bracketBalance > 0 && end + 1 < output.Length
      invariant index <= end < output.Length
      invariant RunEnd(output[..], end, bracketBalance) == RunEnd(output[..], index, CountBracketDelta(output[index]))
      decreases output.Length - end
    {
      end := end + 1;
      bracketBalance := bracketBalance + CountBracketDelta(output[end]);
    }
  }

  method CommentLegacyNotifyAssignments(text: string) returns (r: string)
    ensures r == CommentedText(text)
  {
    var lines := SplitLines(text);
    var output := new string[|lines|](k requires 0 <= k < |lines| => lines[k]);
    var index := 0;
    while index < output.Length
      invariant 0 <= index <= output.Length == |lines|
      invariant RunsEndBefore(lines, index)
      invariant forall k :: 0 <= k < index ==> output[k] == CommentedLine(lines, k)
      invariant forall k :: index <= k < output.Length ==> output[k] == lines[k]
      decreases output.Length - index
    {
      var line := output[index];
      if !IsLegacyNotifyStart(line) {
        PlainStep(lines, index);
        index := index + 1;
        continue;
      }
      var end := ScanRun(output, index);
      assert output[index..] == lines[index..];
      RunEndOfTail(output[..], lines, index, CountBracketDelta(line));
      RunStep(lines, index);
      CommentOutRange(output, index, end + 1);
      index := end + 1;
    }
    assert output[..] == CommentedLines(lines);
    r := Join(output[..], "\n");
  }



  /** A legacy start is always commented out. */
  lemma LegacyStartCommented(lines: seq<string>, i: nat)
    requires i < |lines| && IsLegacyNotifyStart(lines[i])
    ensures CommentedLines(lines)[i] == "# " + lines[i]
  {
    assert InRun(lines, i);
  }

  /** No line is a legacy start after commenting. */
  lemma NoLegacyAfterCommenting(lines: seq<string>)
    ensures forall i :: 0 <= i < |lines| ==> !IsLegacyNotifyStart(CommentedLines(lines)[i])
  {
    forall i | 0 <= i < |lines|
      ensures !IsLegacyNotifyStart(CommentedLines(lines)[i])
    {
      if IsLegacyNotifyStart(lines[i]) {
        LegacyStartCommented(lines, i);
        CommentedNeverMatches(lines[i]);
      } else if InRun(lines, i) {
        CommentedNeverMatches(lines[i]);
      }
    }
  }

  /** Without legacy starts commenting changes nothing. */
  lemma NoLegacyUnchanged(lines: seq<string>)
    requires forall i :: 0 <= i < |lines| ==> !IsLegacyNotifyStart(lines[i])
    ensures CommentedLines(lines) == lines
  {
  }

  /** Commenting twice comments nothing more. */
  lemma CommentingIdempotent(lines: seq<string>)
    ensures CommentedLines(CommentedLines(lines)) == CommentedLines(lines)
  {
    NoLegacyAfterCommenting(lines);
    NoLegacyUnchanged(CommentedLines(lines));
  }

  /** Commented lines stay single lines. */
  lemma CommentedOneLine(lines: seq<string>)
    requires AllOneLine(lines)
    ensures AllOneLine(CommentedLines(lines))
  {
    forall i | 0 <= i < |lines|
      ensures OneLine(CommentedLines(lines)[i])
    {
      assert OneLine(lines[i]);
    }
  }

  /** The same on text: a second `commentLegacyNotifyAssignments` returns its input. */
  lemma CommentedTextIdempotent(text: string)
    ensures CommentedText(CommentedText(text)) == CommentedText(text)
  {
    var c := CommentedLines(SplitLines(text));
    CommentedOneLine(SplitLines(text));
    SplitLinesOfJoin(c);
    CommentingIdempotent(SplitLines(text));
  }

  // ---------------------------------------------------------------- buildManagedBlock

  /** `escapeTomlBasicString`: backslashes are doubled first, then quotes are escaped. */
  function EscapeTomlBasicString(value: string): string {
    ReplaceAll(ReplaceAll(value, '\\', "\\\\"), '"', "\\\"")
  }

  /** The escape of one character. */
  function EscapeChar(c: char): string {
    if c == '\\' then "\\\\" else if c == '"' then "\\\"" else [c]
  }

  /** The two passes amount to escaping character by character: the backslashes the
      second pass adds are not doubled again. */
  lemma EscapeUnfold(value: string)
    requires value != []
    ensures EscapeTomlBasicString(value) == EscapeChar(value[0]) + EscapeTomlBasicString(value[1..])
  {
    var c := value[0];
    var head := if c == '\\' then "\\\\" else [c];
    assert ReplaceAll(value, '\\', "\\\\") == head + ReplaceAll(value[1..], '\\', "\\\\");
    ReplaceAllAppend(head, ReplaceAll(value[1..], '\\', "\\\\"), '"', "\\\"");
    if c == '\\' {
      assert ReplaceAll(head, '"', "\\\"") == head;
    } else {
      assert ReplaceAll(head, '"', "\\\"") == EscapeChar(c);
    }
  }

  /** Reads the body of a TOML basic string up to its closing quote, decoding the escapes
      `\\` and `\"` (TOML v1.0.0, section "String", basic strings); the other escape
      sequences are not read. Yields the body and what follows the closing quote. */
  function ReadBasic(s: string): Option<(string, string)> {
    if s == [] then None
    else if s[0] == '"' then Some(([], s[1..]))
    else if s[0] == '\\' then
      if |s| >= 2 && (s[1] == '\\' || s[1] == '"') then
        match ReadBasic(s[2..])
        case None => None
        case Some(r) => Some(([s[1]] + r.0, r.1))
      else None
    else
      match ReadBasic(s[1..])
      case None => None
      case Some(r) => Some(([s[0]] + r.0, r.1))
  }

  /** A TOML reader gives the escaped value back, and stops at the quote after it. */
  lemma {:induction false} ReadEscaped(value: string, rest: string)
    ensures ReadBasic(EscapeTomlBasicString(value) + "\"" + rest) == Some((value, rest))
  {
    if value == [] {
      assert EscapeTomlBasicString(value) + "\"" + rest == "\"" + rest;
      assert ("\"" + rest)[1..] == rest;
    } else {
      var c := value[0];
      var tail := EscapeTomlBasicString(value[1..]) + "\"" + rest;
      EscapeUnfold(value);
      ReadEscaped(value[1..], rest);
      ConcatAssoc(EscapeChar(c), EscapeTomlBasicString(value[1..]) + "\"", rest);
      ConcatAssoc(EscapeChar(c), EscapeTomlBasicString(value[1..]), "\"");
      ReadBasicChar(c, tail, (value[1..], rest));
      assert [c] + value[1..] == value;
    }
  }

  /** One escaped character is read back as itself. */
  lemma ReadBasicChar(c: char, tail: string, r: (string, string))
    requires ReadBasic(tail) == Some(r)
    ensures ReadBasic(EscapeChar(c) + tail) == Some(([c] + r.0, r.1))
  {
    var x := EscapeChar(c) + tail;
    if c == '\\' || c == '"' {
      assert x[0] == '\\' && x[1] == c && x[2..] == tail;
    } else {
      assert x[0] == c && x[1..] == tail;
    }
  }

  /** Escaping adds no line break. */
  lemma {:induction false} EscapeOneLine(value: string)
    requires OneLine(value)
    ensures OneLine(EscapeTomlBasicString(value))
  {
    if value != [] {
      EscapeUnfold(value);
      EscapeOneLine(value[1..]);
    }
  }

  const NotifyLead: string := "notify = [\"bash\", \""

  /** The managed `notify` assignment. */
  function NotifyLine(scriptPath: string): string {
    NotifyLead + EscapeTomlBasicString(scriptPath) + "\"]"
  }

  /** `buildManagedBlock`. */
  function BuildManagedBlock(scriptPath: string): string {
    Join([ManagedStart, NotifyLine(scriptPath), ManagedEnd], "\n")
  }

  /** The three block lines are single lines when the script path is. */
  lemma BlockLinesOneLine(scriptPath: string)
    requires OneLine(scriptPath)
    ensures AllOneLine([ManagedStart, NotifyLine(scriptPath), ManagedEnd])
  {
    var e := EscapeTomlBasicString(scriptPath);
    EscapeOneLine(scriptPath);
    var n := NotifyLine(scriptPath);
    assert OneLine(n) by {
      forall i | 0 <= i < |n|
        ensures n[i] != '\n' && n[i] != '\r'
      {
        if |NotifyLead| <= i < |NotifyLead| + |e| {
          assert n[i] == e[i - |NotifyLead|];
        }
      }
    }
    MarkersOneLine();
  }

  /** The block is three lines, the start marker, the assignment and the end marker (for a
      script path without line breaks), and the assignment's second string reads back as
      the script path. */
  lemma ManagedBlockLines(scriptPath: string)
    requires OneLine(scriptPath)
    ensures SplitLines(BuildManagedBlock(scriptPath)) == [ManagedStart, NotifyLine(scriptPath), ManagedEnd]
    ensures ReadBasic(NotifyLine(scriptPath)[|NotifyLead|..]) == Some((scriptPath, "]"))
  {
    var e := EscapeTomlBasicString(scriptPath);
    var n := NotifyLine(scriptPath);
    BlockLinesOneLine(scriptPath);
    SplitLinesOfJoin([ManagedStart, n, ManagedEnd]);
    assert n[|NotifyLead|..] == e + "\"" + "]";
    ReadEscaped(scriptPath, "]");
  }

  /** The markers are single lines. */
  lemma MarkersOneLine()
    ensures OneLine(ManagedStart) && OneLine(ManagedEnd)
  {
  }

  /** What the second reconcile needs of the three block lines: only the first is a start
      marker, only the last an end marker, and none is a table header. */
  lemma ManagedBlockMarkers(scriptPath: string)
    ensures Trim(ManagedStart) == ManagedStart && Trim(ManagedEnd) == ManagedEnd
    ensures Trim(NotifyLine(scriptPath)) != ManagedStart && Trim(NotifyLine(scriptPath)) != ManagedEnd
    ensures ManagedStart != ManagedEnd
    ensures !IsTableHeaderLine(ManagedStart) && !IsTableHeaderLine(NotifyLine(scriptPath)) && !IsTableHeaderLine(ManagedEnd)
  {
    TrimOfTight(ManagedStart);
    TrimOfTight(ManagedEnd);
    var n := NotifyLine(scriptPath);
    assert n[0] == 'n' && n[|n| - 1] == ']';
    TrimOfTight(n);
    assert ManagedStart[2] != ManagedEnd[2];
    TrimStartOfNonWhitespace(ManagedStart);
    TrimStartOfNonWhitespace(ManagedEnd);
    TrimStartOfNonWhitespace(n);
  }

  // ---------------------------------------------------------------- insertManagedBlockAtRoot

  /** `isTableHeaderLine`: after leading whitespace, a `[` that is not a comment. */
  predicate IsTableHeaderLine(line: string) {
    var t := TrimStart(line);
    !StartsWith(t, "#") && StartsWith(t, "[")
  }

  predicate BlankLine(line: string) {
    Trim(line) == []
  }

  /** The lines after the leading blank ones. */
  function LeadingTrimmed(lines: seq<string>): (r: seq<string>)
    ensures |r| <= |lines| && r == lines[|lines| - |r|..]
    ensures forall i :: 0 <= i < |lines| - |r| ==> BlankLine(lines[i])
    ensures r == [] || !BlankLine(r[0])
  {
    if lines != [] && BlankLine(lines[0]) then LeadingTrimmed(lines[1..]) else lines
  }

  /** The lines before the trailing blank ones. */
  function TrailingTrimmed(lines: seq<string>): (r: seq<string>)
    ensures |r| <= |lines| && r == lines[..|r|]
    ensures forall i :: |r| <= i < |lines| ==> BlankLine(lines[i])
    ensures r == [] || !BlankLine(r[|r| - 1])
  {
    if lines != [] && BlankLine(lines[|lines| - 1]) then TrailingTrimmed(lines[..|lines| - 1]) else lines
  }

  method TrimLeadingBlankLines(lines: seq<string>) returns (r: seq<string>)
    ensures r == LeadingTrimmed(lines)
  {
    var start := 0;
    while start < |lines| && Trim(lines[start]) == []
      invariant 0 <= start <= |lines|
      invariant LeadingTrimmed(lines[start..]) == LeadingTrimmed(lines)
    {
      assert lines[start..][1..] == lines[start + 1..];
      start := start + 1;
    }
    r := lines[start..];
  }

  method TrimTrailingBlankLines(lines: seq<string>) returns (r: seq<string>)
    ensures r == TrailingTrimmed(lines)
  {
    var end := |lines|;
    assert lines[..end] == lines;
    while end > 0 && Trim(lines[end - 1]) == []
      invariant 0 <= end <= |lines|
      invariant TrailingTrimmed(lines[..end]) == TrailingTrimmed(lines)
    {
      TrailingStep(lines, end);
      end := end - 1;
    }
    TrailingStop(lines, end);
    r := lines[..end];
  }

  lemma TrailingStop(lines: seq<string>, end: nat)
    requires end <= |lines| && (end == 0 || !BlankLine(lines[end - 1]))
    ensures TrailingTrimmed(lines[..end]) == lines[..end]
  {
    if end > 0 {
      assert lines[..end][end - 1] == lines[end - 1];
    }
  }

  lemma TrailingStep(lines: seq<string>, end: nat)
    requires 0 < end <= |lines| && BlankLine(lines[end - 1])
    ensures TrailingTrimmed(lines[..end]) == TrailingTrimmed(lines[..end - 1])
  {
    assert lines[..end][..end - 1] == lines[..end - 1];
  }

  /** `findIndex(isTableHeaderLine)` from position `from`. */
  function FirstTableFrom(lines: seq<string>, from: nat): (k: int)
    requires from <= |lines|
    ensures k == -1 || (from <= k < |lines| && IsTableHeaderLine(lines[k]))
    ensures forall i :: from <= i < |lines| && (k == -1 || i < k) ==> !IsTableHeaderLine(lines[i])
    decreases |lines| - from
  {
    if from == |lines| then -1
    else if IsTableHeaderLine(lines[from]) then from
    else FirstTableFrom(lines, from + 1)
  }

  /** `insertManagedBlockAtRoot`. */
  function InsertManagedBlockAtRoot(text: string, managedBlock: string): string {
    var lines := SplitLines(text);
    var firstTableIndex := FirstTableFrom(lines, 0);
    if firstTableIndex == -1 then
      var trimmed := TrimEnd(text);
      if trimmed == [] then managedBlock + "\n" else trimmed + "\n\n" + managedBlock + "\n"
    else
      var before := TrailingTrimmed(lines[..firstTableIndex]);
      var after := LeadingTrimmed(lines[firstTableIndex..]);
      TrimEnd(Join(Sections(before, managedBlock, after), "\n\n")) + "\n"
  }

  /** `buildNextConfigText`. */
  function BuildNextConfigText(originalText: string, scriptPath: string): string {
    InsertManagedBlockAtRoot(CommentedText(WithoutManagedBlock(originalText)), BuildManagedBlock(scriptPath))
  }

  // ---------------------------------------------------------------- trailing whitespace

  /** A blank tail after a line's last visible character survives `trimStart`. */
  lemma TrimStartBlankTail(h: string, w: string)
    requires h != [] && !IsWhitespace(h[|h| - 1]) && IsBlank(w)
    ensures TrimStart(h) != [] && TrimStart(h + w) == TrimStart(h) + w
    ensures !IsWhitespace(TrimStart(h)[|TrimStart(h)| - 1])
    ensures Trim(h + w) == Trim(h)
  {
    NonBlankTrimStart(h);
    TrimStartPrefix(h, w);
    TrimEndSkipsBlank(TrimStart(h), w);
  }

  /** A one-character prefix test looks at the first character only. */
  lemma StartsWithCharAppend(t: string, w: string, c: char)
    requires t != []
    ensures StartsWith(t + w, [c]) <==> StartsWith(t, [c])
  {
    assert (t + w)[..1] == t[..1];
  }

  lemma NotifyAssignmentAppend(t: string, w: string)
    requires t != [] && !IsWhitespace(t[|t| - 1]) && IsBlank(w)
    requires NotifyAssignment(t)
    ensures NotifyAssignment(t + w)
  {
    assert (t + w)[..6] == t[..6];
    var u := t[6..];
    assert u != [] && u[|u| - 1] == t[|t| - 1];
    assert (t + w)[6..] == u + w;
    TrimStartPrefix(u, w);
  }

  /** Trimming a line's end changes neither its trim, nor whether it is a table header, and
      cannot make it a legacy start. */
  lemma TrimEndLine(l: string)
    ensures Trim(TrimEnd(l)) == Trim(l)
    ensures IsTableHeaderLine(TrimEnd(l)) <==> IsTableHeaderLine(l)
    ensures IsLegacyNotifyStart(TrimEnd(l)) ==> IsLegacyNotifyStart(l)
    ensures OneLine(l) ==> OneLine(TrimEnd(l))
  {
    var h := TrimEnd(l);
    TrimEndSpec(l);
    var w := l[|h|..];
    assert l == h + w;
    if h == [] {
      TrimEndBlankLine(l);
    } else {
      TrimEndKeptLine(h, w);
    }
  }

  /** A blank line trims to nothing, with or without its end trimmed. */
  lemma TrimEndBlankLine(l: string)
    requires TrimEnd(l) == [] && IsBlank(l)
    ensures Trim(TrimEnd(l)) == Trim(l)
    ensures !IsTableHeaderLine(l) && !IsTableHeaderLine(TrimEnd(l)) && !IsLegacyNotifyStart(TrimEnd(l))
  {
    TrimStartKeepsTail(l);
    TrimSpec(l);
  }

  /** A line that does not end in whitespace keeps its start, and so its kind, when a blank
      tail is added. */
  lemma TrimEndKeptLine(h: string, w: string)
    requires h != [] && !IsWhitespace(h[|h| - 1]) && IsBlank(w)
    ensures Trim(h + w) == Trim(h)
    ensures IsTableHeaderLine(h) <==> IsTableHeaderLine(h + w)
    ensures IsLegacyNotifyStart(h) ==> IsLegacyNotifyStart(h + w)
  {
    TrimStartBlankTail(h, w);
    var t := TrimStart(h);
    StartsWithCharAppend(t, w, '#');
    StartsWithCharAppend(t, w, '[');
    if IsLegacyNotifyStart(h) {
      NotifyAssignmentAppend(t, w);
    }
  }

  /** The lines of `TrimEnd(Join(ls, "\n"))`: trailing blank lines dropped, then the end
      of the last line trimmed. */
  function TrimEndLines(ls: seq<string>): (r: seq<string>)
    requires ls != []
    ensures 1 <= |r| <= |ls|
    ensures forall i :: 0 <= i < |r| - 1 ==> r[i] == ls[i]
    ensures r[|r| - 1] == TrimEnd(ls[|r| - 1])
  {
    if |ls| > 1 && BlankLine(ls[|ls| - 1]) then TrimEndLines(ls[..|ls| - 1])
    else ls[..|ls| - 1] + [TrimEnd(ls[|ls| - 1])]
  }

  lemma {:induction false} TrimEndJoin(ls: seq<string>)
    requires ls != []
    ensures TrimEnd(Join(ls, "\n")) == Join(TrimEndLines(ls), "\n")
  {
    if |ls| > 1 {
      var init := ls[..|ls| - 1];
      var last := ls[|ls| - 1];
      assert ls == init + [last];
      JoinAppend(init, [last], "\n");
      assert Join(ls, "\n") == Join(init, "\n") + ("\n" + last);
      if BlankLine(last) {
        TrimSpec(last);
        assert IsBlank("\n" + last);
        TrimEndSkipsBlank(Join(init, "\n"), "\n" + last);
        TrimEndJoin(init);
      } else {
        TrimSpec(last);
        TrimEndKeepsHead(Join(init, "\n") + "\n", last);
        JoinAppend(init, [TrimEnd(last)], "\n");
      }
    }
  }

  /** Trimming the end twice trims nothing more. */
  lemma TrimEndIdempotent(s: string)
    ensures TrimEnd(TrimEnd(s)) == TrimEnd(s)
  {
    TrimEndSpec(s);
    TrimEndOfNonWhitespace(TrimEnd(s));
  }

  lemma TrimEndLinesIdempotent(ls: seq<string>)
    requires ls != []
    ensures TrimEndLines(TrimEndLines(ls)) == TrimEndLines(ls)
  {
    var r := TrimEndLines(ls);
    var last := r[|r| - 1];
    assert TrimEnd(last) == last by {
      TrimEndIdempotent(ls[|r| - 1]);
    }
    assert !(|r| > 1 && BlankLine(last)) by {
      TrimEndJoinLast(ls);
    }
    assert TrimEndLines(r) == r[..|r| - 1] + [TrimEnd(last)];
    assert r[..|r| - 1] + [last] == r;
  }

  /** The last line left is empty only when it is the only one. */
  lemma {:induction false} TrimEndJoinLast(ls: seq<string>)
    requires ls != []
    ensures |TrimEndLines(ls)| > 1 ==> !BlankLine(TrimEndLines(ls)[|TrimEndLines(ls)| - 1])
  {
    if |ls| > 1 && BlankLine(ls[|ls| - 1]) {
      TrimEndJoinLast(ls[..|ls| - 1]);
    } else if |ls| > 1 {
      var last := ls[|ls| - 1];
      TrimEndLine(last);
    }
  }

  // ---------------------------------------------------------------- layout of the result

  /** A line the reconciler leaves outside its managed block. */
  predicate CleanLine(l: string) {
    OneLine(l) && Trim(l) != ManagedStart && !IsLegacyNotifyStart(l)
  }

  predicate CleanLines(ls: seq<string>) {
    forall i :: 0 <= i < |ls| ==> CleanLine(ls[i])
  }

  /** Text without carriage returns, start markers and legacy assignments: what is left
      once the managed block is removed and the legacy assignments are commented out. */
  predicate Clean(c: string) {
    NoCarriageReturn(c) && CleanLines(SplitLines(c))
  }

  /** The lines `insertManagedBlockAtRoot` places before and after the three block lines.
      Without a table header: the text with its end trimmed and one blank line, or nothing
      for blank text; then one empty line for the final line break. With a header: the
      lines before it without trailing blank lines and one blank line, or nothing; then a
      blank line, the lines from the header on with the end of the text trimmed, and one
      empty line for the final line break. */
  function Layout(c: string): (seq<string>, seq<string>) {
    var lines := SplitLines(c);
    var k := FirstTableFrom(lines, 0);
    if k == -1 then
      if TrimEnd(c) == [] then ([], [[]]) else (TrimEndLines(lines) + [[]], [[]])
    else
      var before := TrailingTrimmed(lines[..k]);
      (if before == [] then [] else before + [[]], [[]] + TrimEndLines(lines[k..]) + [[]])
  }

  lemma HeaderNotBlank(l: string)
    requires IsTableHeaderLine(l)
    ensures !BlankLine(l) && !IsBlank(l)
  {
    TrimEndOfNonWhitespaceStart(TrimStart(l));
    TrimSpec(l);
  }

  lemma JoinHeadNotBlank(ls: seq<string>, sep: string)
    requires ls != [] && !IsBlank(ls[0])
    ensures !IsBlank(Join(ls, sep))
  {
    var i :| 0 <= i < |ls[0]| && !IsWhitespace(ls[0][i]);
    assert Join(ls, sep)[i] == ls[0][i];
  }

  lemma JoinSnocBlank(a: seq<string>)
    requires a != []
    ensures Join(a + [[]], "\n") == Join(a, "\n") + "\n"
  {
    JoinAppend(a, [[]], "\n");
  }

  lemma JoinSepBlank(a: seq<string>, b: seq<string>)
    requires a != [] && b != []
    ensures Join(a + [[]] + b, "\n") == Join(a, "\n") + "\n\n" + Join(b, "\n")
  {
    assert a + [[]] + b == a + ([[]] + b);
    JoinAppend(a, [[]] + b, "\n");
    JoinTwo([], b, "\n");
  }

  /** A text without carriage returns is the join of its lines. */
  lemma JoinOfSplitLines(c: string)
    requires NoCarriageReturn(c)
    ensures Join(SplitLines(c), "\n") == c
  {
    SplitLinesJoin(c);
    NormalizeBreaksIdentity(c);
  }

  /** Regrouping the line breaks around the block and the lines after it. */
  lemma RegroupBreaks(j: string, p: string)
    ensures (j + "\n\n" + p) + "\n" == j + "\n" + ("\n" + (p + "\n"))
  {
    assert (j + "\n\n" + p) + "\n" == j + ("\n\n" + (p + "\n"));
  }

  /** The block lines `m` followed by the lines from the first header on. */
  lemma BlockThenTail(m: seq<string>, after: seq<string>)
    requires m != [] && after != [] && IsTableHeaderLine(after[0])
    ensures TrimEnd(Join(m, "\n") + "\n\n" + Join(after, "\n")) + "\n"
      == Join(m + ([[]] + TrimEndLines(after) + [[]]), "\n")
  {
    var j := Join(m, "\n");
    var post := TrimEndLines(after);
    var tail := [[]] + post + [[]];
    assert TrimEnd(j + "\n\n" + Join(after, "\n")) == j + "\n\n" + Join(post, "\n") by {
      HeaderNotBlank(after[0]);
      JoinHeadNotBlank(after, "\n");
      TrimEndKeepsHead(j + "\n\n", Join(after, "\n"));
      TrimEndJoin(after);
    }
    assert Join(tail, "\n") == "\n" + (Join(post, "\n") + "\n") by {
      JoinSnocBlank(post);
      assert tail == [[]] + (post + [[]]);
      JoinTwo([], post + [[]], "\n");
    }
    assert Join(m + tail, "\n") == j + "\n" + Join(tail, "\n") by {
      JoinAppend(m, tail, "\n");
    }
    RegroupBreaks(j, Join(post, "\n"));
  }

  /** `insertManagedBlockAtRoot` without a table header. */
  lemma InsertWithoutHeader(c: string, m: seq<string>)
    requires NoCarriageReturn(c) && m != [] && FirstTableFrom(SplitLines(c), 0) == -1
    ensures InsertManagedBlockAtRoot(c, Join(m, "\n")) == Join(Layout(c).0 + m + Layout(c).1, "\n")
  {
    JoinSnocBlank(m);
    if TrimEnd(c) == [] {
      ConcatEmpty(m);
    } else {
      var lines := SplitLines(c);
      var tl := TrimEndLines(lines);
      JoinOfSplitLines(c);
      TrimEndJoin(lines);
      ConcatAssoc(tl + [[]], m, [[]]);
      JoinSepBlank(tl, m + [[]]);
      ConcatAssoc(TrimEnd(c) + "\n\n", Join(m, "\n"), "\n");
    }
  }

  /** The sections the header case joins: the lines before the header (when there are
      any), the block and the lines from the header on. */
  function Sections(before: seq<string>, block: string, after: seq<string>): seq<string> {
    (if before != [] then [Join(before, "\n")] else []) + [block] + (if after != [] then [Join(after, "\n")] else [])
  }

  lemma JoinPair(a: string, b: string, sep: string)
    ensures Join([a, b], sep) == a + sep + b
  {
    assert [a, b][1..] == [b];
  }

  lemma JoinTriple(a: string, b: string, c: string, sep: string)
    ensures Join([a, b, c], sep) == a + sep + b + sep + c
  {
    assert [a, b, c][1..] == [b, c];
    JoinPair(b, c, sep);
  }

  lemma SectionsWithoutBefore(m: seq<string>, after: seq<string>)
    requires m != [] && after != [] && IsTableHeaderLine(after[0])
    ensures TrimEnd(Join(Sections([], Join(m, "\n"), after), "\n\n")) + "\n"
      == Join([] + m + ([[]] + TrimEndLines(after) + [[]]), "\n")
  {
    var j := Join(m, "\n");
    var x := Join(after, "\n");
    assert Join(Sections([], j, after), "\n\n") == j + "\n\n" + x by {
      assert Sections([], j, after) == [j, x];
      JoinPair(j, x, "\n\n");
    }
    BlockThenTail(m, after);
    assert [] + m == m;
  }

  lemma SectionsWithBefore(before: seq<string>, m: seq<string>, after: seq<string>)
    requires before != [] && m != [] && after != [] && IsTableHeaderLine(after[0])
    ensures TrimEnd(Join(Sections(before, Join(m, "\n"), after), "\n\n")) + "\n"
      == Join(before + [[]] + m + ([[]] + TrimEndLines(after) + [[]]), "\n")
  {
    var b := Join(before, "\n");
    var j := Join(m, "\n");
    var x := Join(after, "\n");
    var l := before + [[]] + m;
    assert Join(Sections(before, j, after), "\n\n") == Join(l, "\n") + "\n\n" + x by {
      assert Sections(before, j, after) == [b, j, x];
      JoinTriple(b, j, x, "\n\n");
      JoinSepBlank(before, m);
    }
    BlockThenTail(l, after);
  }

  /** `insertManagedBlockAtRoot` with a table header. */
  lemma InsertWithHeader(c: string, m: seq<string>)
    requires m != [] && FirstTableFrom(SplitLines(c), 0) != -1
    ensures InsertManagedBlockAtRoot(c, Join(m, "\n")) == Join(Layout(c).0 + m + Layout(c).1, "\n")
  {
    var lines := SplitLines(c);
    var k := FirstTableFrom(lines, 0);
    var before := TrailingTrimmed(lines[..k]);
    var after := lines[k..];
    HeaderNotBlank(lines[k]);
    assert after[0] == lines[k];
    assert LeadingTrimmed(after) == after;
    if before == [] {
      SectionsWithoutBefore(m, after);
    } else {
      SectionsWithBefore(before, m, after);
    }
  }

  /** The inserted text is the join of the layout around the three block lines. */
  lemma InsertedLines(c: string, scriptPath: string)
    requires NoCarriageReturn(c)
    ensures InsertManagedBlockAtRoot(c, BuildManagedBlock(scriptPath))
      == Join(Layout(c).0 + [ManagedStart, NotifyLine(scriptPath), ManagedEnd] + Layout(c).1, "\n")
  {
    var m := [ManagedStart, NotifyLine(scriptPath), ManagedEnd];
    if FirstTableFrom(SplitLines(c), 0) == -1 {
      InsertWithoutHeader(c, m);
    } else {
      InsertWithHeader(c, m);
    }
  }

  // ---------------------------------------------------------------- the layout is stable

  lemma CleanEmptyLine()
    ensures CleanLine([])
  {
    assert |ManagedStart| > 0;
  }

  lemma CleanTrimEnd(l: string)
    requires CleanLine(l)
    ensures CleanLine(TrimEnd(l))
  {
    TrimEndLine(l);
  }

  /** Each line `TrimEndLines` keeps is the input line or that line with its end trimmed. */
  lemma TrimEndLinesLine(ls: seq<string>, i: nat)
    requires ls != [] && i < |TrimEndLines(ls)|
    ensures TrimEndLines(ls)[i] == ls[i] || TrimEndLines(ls)[i] == TrimEnd(ls[i])
  {
  }

  lemma TrimEndLinesOneLine(ls: seq<string>)
    requires ls != [] && AllOneLine(ls)
    ensures AllOneLine(TrimEndLines(ls))
  {
    var r := TrimEndLines(ls);
    forall i | 0 <= i < |r|
      ensures OneLine(r[i])
    {
      TrimEndLinesLine(ls, i);
      assert OneLine(ls[i]);
      TrimEndLine(ls[i]);
    }
  }

  lemma TrimEndLinesClean(ls: seq<string>)
    requires ls != [] && CleanLines(ls)
    ensures CleanLines(TrimEndLines(ls))
  {
    var r := TrimEndLines(ls);
    forall i | 0 <= i < |r|
      ensures CleanLine(r[i])
    {
      TrimEndLinesLine(ls, i);
      assert CleanLine(ls[i]);
      CleanTrimEnd(ls[i]);
    }
  }

  lemma TrimEndLinesHeaders(ls: seq<string>)
    requires ls != []
    ensures (forall i :: 0 <= i < |ls| ==> !IsTableHeaderLine(ls[i]))
      ==> forall i :: 0 <= i < |TrimEndLines(ls)| ==> !IsTableHeaderLine(TrimEndLines(ls)[i])
    ensures IsTableHeaderLine(ls[0]) ==> IsTableHeaderLine(TrimEndLines(ls)[0])
  {
    var r := TrimEndLines(ls);
    forall i | 0 <= i < |r|
      ensures IsTableHeaderLine(r[i]) <==> IsTableHeaderLine(ls[i])
    {
      TrimEndLinesLine(ls, i);
      TrimEndLine(ls[i]);
    }
  }

  /** Dropping one trailing blank line does not change the trimmed lines. */
  lemma TrimEndLinesSnocBlank(ls: seq<string>)
    requires ls != []
    ensures TrimEndLines(ls + [[]]) == TrimEndLines(ls)
  {
    assert (ls + [[]])[..|ls|] == ls;
  }

  /** The line of a first header, found by its position. */
  lemma FirstTableAt(ls: seq<string>, k: nat)
    requires k < |ls| && IsTableHeaderLine(ls[k])
    requires forall i :: 0 <= i < k ==> !IsTableHeaderLine(ls[i])
    ensures FirstTableFrom(ls, 0) == k
  {
  }

  predicate NoHeaders(ls: seq<string>) {
    forall i :: 0 <= i < |ls| ==> !IsTableHeaderLine(ls[i])
  }

  lemma NoHeadersConcat(a: seq<string>, b: seq<string>)
    requires NoHeaders(a) && NoHeaders(b)
    ensures NoHeaders(a + b)
  {
    forall i | 0 <= i < |a + b|
      ensures !IsTableHeaderLine((a + b)[i])
    {
      if i < |a| {
        assert (a + b)[i] == a[i];
      } else {
        assert (a + b)[i] == b[i - |a|];
      }
    }
  }

  lemma OneLinesConcat(a: seq<string>, b: seq<string>)
    requires AllOneLine(a) && AllOneLine(b)
    ensures AllOneLine(a + b)
  {
    forall i | 0 <= i < |a + b|
      ensures OneLine((a + b)[i])
    {
      if i < |a| {
        assert (a + b)[i] == a[i];
      } else {
        assert (a + b)[i] == b[i - |a|];
      }
    }
  }

  lemma CleanLinesConcat(a: seq<string>, b: seq<string>)
    requires CleanLines(a) && CleanLines(b)
    ensures CleanLines(a + b)
  {
    forall i | 0 <= i < |a + b|
      ensures CleanLine((a + b)[i])
    {
      if i < |a| {
        assert (a + b)[i] == a[i];
      } else {
        assert (a + b)[i] == b[i - |a|];
      }
    }
  }

  lemma EmptyLines()
    ensures AllOneLine([[]]) && NoHeaders([[]]) && CleanLines([[]])
  {
    CleanEmptyLine();
    assert !IsTableHeaderLine([]);
  }

  /** `Layout` of a text with no header whose end trims to something. */
  lemma LayoutWithoutHeader(x: string, ls: seq<string>)
    requires SplitLines(x) == ls && ls != [] && FirstTableFrom(ls, 0) == -1 && TrimEnd(x) != []
    ensures Layout(x) == (TrimEndLines(ls) + [[]], [[]])
  {
  }

  lemma StableBlank(c: string)
    requires NoCarriageReturn(c) && FirstTableFrom(SplitLines(c), 0) == -1 && TrimEnd(c) == []
    ensures Layout(Join(Layout(c).0 + Layout(c).1, "\n")) == Layout(c)
  {
    assert Layout(c).0 + Layout(c).1 == [[]];
  }

  lemma TrimEndTwoBreaks(x: string)
    ensures TrimEnd(TrimEnd(x) + "\n\n") == TrimEnd(x)
  {
    assert IsBlank("\n\n");
    TrimEndSkipsBlank(TrimEnd(x), "\n\n");
    TrimEndIdempotent(x);
  }

  /** The text between the layout parts without a header: the trimmed text and a blank line. */
  lemma JoinWithoutHeader(c: string)
    requires NoCarriageReturn(c) && c != []
    ensures Join(TrimEndLines(SplitLines(c)) + [[]] + [[]], "\n") == TrimEnd(c) + "\n\n"
  {
    var lines := SplitLines(c);
    JoinSepBlank(TrimEndLines(lines), [[]]);
    JoinOfSplitLines(c);
    TrimEndJoin(lines);
  }

  lemma LinesWithoutHeader(lines: seq<string>)
    requires lines != [] && AllOneLine(lines) && NoHeaders(lines)
    ensures var l := TrimEndLines(lines) + [[]] + [[]];
      SplitLines(Join(l, "\n")) == l && NoHeaders(l) && TrimEndLines(l) == TrimEndLines(lines)
  {
    var tl := TrimEndLines(lines);
    var l := tl + [[]] + [[]];
    TrimEndLinesOneLine(lines);
    TrimEndLinesHeaders(lines);
    EmptyLines();
    OneLinesConcat(tl, [[]]);
    OneLinesConcat(tl + [[]], [[]]);
    SplitLinesOfJoin(l);
    NoHeadersConcat(tl, [[]]);
    NoHeadersConcat(tl + [[]], [[]]);
    TrimEndLinesSnocBlank(tl + [[]]);
    TrimEndLinesSnocBlank(tl);
    TrimEndLinesIdempotent(lines);
  }

  lemma StableWithoutHeader(c: string)
    requires NoCarriageReturn(c) && FirstTableFrom(SplitLines(c), 0) == -1 && TrimEnd(c) != []
    ensures Layout(Join(Layout(c).0 + Layout(c).1, "\n")) == Layout(c)
  {
    var lines := SplitLines(c);
    var tl := TrimEndLines(lines);
    var l := tl + [[]] + [[]];
    assert Layout(c) == (tl + [[]], [[]]);
    assert Layout(c).0 + Layout(c).1 == l;
    var r := Join(l, "\n");
    JoinWithoutHeader(c);
    TrimEndTwoBreaks(c);
    LinesWithoutHeader(lines);
    LayoutWithoutHeader(r, l);
  }

  /** The lines before the header, trimmed, then the blank separator line: trimming the
      trailing blank lines again gives the trimmed lines back. */
  lemma TrailingBlankPair(before: seq<string>)
    requires before == [] || !BlankLine(before[|before| - 1])
    ensures TrailingTrimmed((if before == [] then [] else before + [[]]) + [[]]) == before
  {
    EmptyLines();
    if before == [] {
      var e: seq<string> := [[]];
      assert e[..0] == [];
    } else {
      var a := before + [[]] + [[]];
      assert a[..|before| + 1] == before + [[]];
      assert (before + [[]])[..|before|] == before;
    }
  }

  lemma LinesWithHeader(before: seq<string>, after: seq<string>)
    requires AllOneLine(before) && NoHeaders(before) && (before == [] || !BlankLine(before[|before| - 1]))
    requires AllOneLine(after) && after != [] && IsTableHeaderLine(after[0])
    ensures var a := (if before == [] then [] else before + [[]]) + [[]];
      var b := TrimEndLines(after) + [[]];
      SplitLines(Join(a + b, "\n")) == a + b && FirstTableFrom(a + b, 0) == |a|
      && TrailingTrimmed((a + b)[..|a|]) == before && TrimEndLines((a + b)[|a|..]) == TrimEndLines(after)
  {
    var a := (if before == [] then [] else before + [[]]) + [[]];
    var b := TrimEndLines(after) + [[]];
    LinesWithHeaderSplit(before, after, a, b);
    LinesWithHeaderParts(before, after, a, b);
  }

  /** The rebuilt lines split back into themselves, and their first header is the first
      line after the separator. */
  lemma LinesWithHeaderSplit(before: seq<string>, after: seq<string>, a: seq<string>, b: seq<string>)
    requires AllOneLine(before) && NoHeaders(before)
    requires AllOneLine(after) && after != [] && IsTableHeaderLine(after[0])
    requires a == (if before == [] then [] else before + [[]]) + [[]]
    requires b == TrimEndLines(after) + [[]]
    ensures SplitLines(Join(a + b, "\n")) == a + b && FirstTableFrom(a + b, 0) == |a|
  {
    var pre := if before == [] then [] else before + [[]];
    var p := TrimEndLines(after);
    EmptyLines();
    TrimEndLinesOneLine(after);
    TrimEndLinesHeaders(after);
    assert AllOneLine(a) && NoHeaders(a) by {
      if before != [] {
        OneLinesConcat(before, [[]]);
        NoHeadersConcat(before, [[]]);
      }
      OneLinesConcat(pre, [[]]);
      NoHeadersConcat(pre, [[]]);
    }
    assert SplitLines(Join(a + b, "\n")) == a + b by {
      OneLinesConcat(p, [[]]);
      OneLinesConcat(a, b);
      JoinEmpty(a + b, "\n");
      SplitLinesOfJoin(a + b);
    }
    assert (a + b)[|a|] == p[0];
    FirstTableAt(a + b, |a|);
  }

  /** The rebuilt lines cut at the separator give back the trimmed lines before the header
      and the trimmed lines from it. */
  lemma LinesWithHeaderParts(before: seq<string>, after: seq<string>, a: seq<string>, b: seq<string>)
    requires before == [] || !BlankLine(before[|before| - 1])
    requires after != []
    requires a == (if before == [] then [] else before + [[]]) + [[]]
    requires b == TrimEndLines(after) + [[]]
    ensures TrailingTrimmed((a + b)[..|a|]) == before && TrimEndLines((a + b)[|a|..]) == TrimEndLines(after)
  {
    TakeDrop(a, b);
    TrailingBlankPair(before);
    TrimEndLinesSnocBlank(TrimEndLines(after));
    TrimEndLinesIdempotent(after);
  }

  /** `Layout` of a text with a header at line `k`. */
  lemma LayoutWithHeader(x: string, ls: seq<string>, k: int)
    requires SplitLines(x) == ls && 0 <= k && FirstTableFrom(ls, 0) == k
    ensures Layout(x) == (if TrailingTrimmed(ls[..k]) == [] then [] else TrailingTrimmed(ls[..k]) + [[]],
      [[]] + TrimEndLines(ls[k..]) + [[]])
  {
  }

  /** The parts of the header case satisfy what `LinesWithHeader` needs. */
  lemma HeaderParts(lines: seq<string>, k: nat, before: seq<string>, after: seq<string>)
    requires AllOneLine(lines) && k < |lines| && FirstTableFrom(lines, 0) == k
    requires before == TrailingTrimmed(lines[..k]) && after == lines[k..]
    ensures AllOneLine(before) && NoHeaders(before) && (before == [] || !BlankLine(before[|before| - 1]))
    ensures AllOneLine(after) && after != [] && IsTableHeaderLine(after[0])
  {
    forall i | 0 <= i < |before|
      ensures OneLine(before[i]) && !IsTableHeaderLine(before[i])
    {
      assert before[i] == lines[i];
    }
    forall i | 0 <= i < |after|
      ensures OneLine(after[i])
    {
      assert after[i] == lines[k + i];
    }
  }

  lemma RegroupAroundBlank(pre: seq<string>, p: seq<string>)
    ensures pre + ([[]] + p + [[]]) == (pre + [[]]) + (p + [[]])
  {
  }

  lemma StableWithHeader(c: string)
    requires FirstTableFrom(SplitLines(c), 0) != -1
    ensures Layout(Join(Layout(c).0 + Layout(c).1, "\n")) == Layout(c)
  {
    var lines := SplitLines(c);
    var k := FirstTableFrom(lines, 0);
    var before := TrailingTrimmed(lines[..k]);
    var after := lines[k..];
    var pre := if before == [] then [] else before + [[]];
    var a := pre + [[]];
    var b := TrimEndLines(after) + [[]];
    var post := [[]] + TrimEndLines(after) + [[]];
    assert Layout(c) == (pre, post) by {
      LayoutWithHeader(c, lines, k);
    }
    RegroupAroundBlank(pre, TrimEndLines(after));
    var r := Join(a + b, "\n");
    assert Layout(r) == (pre, post) by {
      HeaderParts(lines, k, before, after);
      LinesWithHeader(before, after);
      LayoutWithHeader(r, a + b, |a|);
    }
  }

  /** Inserting into the text between the layout parts gives the same layout again. */
  lemma LayoutStable(c: string)
    requires NoCarriageReturn(c)
    ensures Layout(Join(Layout(c).0 + Layout(c).1, "\n")) == Layout(c)
  {
    if FirstTableFrom(SplitLines(c), 0) != -1 {
      StableWithHeader(c);
    } else if TrimEnd(c) == [] {
      StableBlank(c);
    } else {
      StableWithoutHeader(c);
    }
  }

  // ---------------------------------------------------------------- idempotence

  lemma CleanSlices(lines: seq<string>, k: nat)
    requires CleanLines(lines) && k <= |lines|
    ensures CleanLines(lines[..k]) && CleanLines(lines[k..])
  {
    forall i | 0 <= i < k
      ensures CleanLine(lines[..k][i])
    {
      assert lines[..k][i] == lines[i];
    }
    forall i | 0 <= i < |lines| - k
      ensures CleanLine(lines[k..][i])
    {
      assert lines[k..][i] == lines[k + i];
    }
  }

  /** The layout of clean text is made of clean lines. */
  lemma LayoutClean(c: string)
    requires Clean(c)
    ensures CleanLines(Layout(c).0) && CleanLines(Layout(c).1)
  {
    var lines := SplitLines(c);
    var k := FirstTableFrom(lines, 0);
    EmptyLines();
    if k == -1 {
      if TrimEnd(c) != [] {
        assert Layout(c) == (TrimEndLines(lines) + [[]], [[]]) by {
          LayoutWithoutHeader(c, lines);
        }
        TrimEndLinesClean(lines);
        CleanLinesConcat(TrimEndLines(lines), [[]]);
      }
    } else {
      var before := TrailingTrimmed(lines[..k]);
      var p := TrimEndLines(lines[k..]);
      assert Layout(c) == (if before == [] then [] else before + [[]], [[]] + p + [[]]) by {
        LayoutWithHeader(c, lines, k);
      }
      CleanSlices(lines, k);
      CleanSlices(lines[..k], |before|);
      TrimEndLinesClean(lines[k..]);
      if before != [] {
        CleanLinesConcat(before, [[]]);
      }
      CleanLinesConcat([[]], p);
      CleanLinesConcat([[]] + p, [[]]);
    }
  }

  /** Removing a closed three-line block between clean lines leaves those lines. */
  lemma RemoveBetween(pre: seq<string>, st: string, n: string, en: string, post: seq<string>)
    requires CleanLines(pre) && CleanLines(post)
    requires Trim(st) == ManagedStart && Trim(n) != ManagedEnd && Trim(en) == ManagedEnd
    ensures Kept(pre + [st, n, en] + post, false) == pre + post
  {
    assert pre + [st, n, en] + post == pre + ([st, n, en] + post);
    assert Kept(pre + ([st, n, en] + post), false) == pre + Kept([st, n, en] + post, false) by {
      KeptPrefix(pre, [st, n, en] + post);
    }
    assert Kept([st, n, en] + post, false) == post by {
      assert [st, n, en] + post == [st] + [n] + [en] + post;
      RemovesClosedBlock(st, [n], en, post);
      NoBlockKeepsAll(post);
    }
  }

  /** Removing the managed block from the inserted lines leaves the layout parts. */
  lemma RemoveLayout(pre: seq<string>, scriptPath: string, post: seq<string>)
    requires CleanLines(pre) && CleanLines(post)
    ensures Kept(pre + [ManagedStart, NotifyLine(scriptPath), ManagedEnd] + post, false) == pre + post
  {
    ManagedBlockMarkers(scriptPath);
    RemoveBetween(pre, ManagedStart, NotifyLine(scriptPath), ManagedEnd, post);
  }

  /** Commenting out legacy assignments changes no clean text. */
  lemma CommentedClean(lines: seq<string>)
    requires CleanLines(lines)
    ensures CommentedText(Join(lines, "\n")) == Join(lines, "\n")
  {
    var r := Join(lines, "\n");
    assert AllOneLine(lines);
    SplitLinesOfJoin(lines);
    JoinNoCarriageReturn(lines);
    NoLegacyUnchanged(SplitLines(r));
    JoinOfSplitLines(r);
  }

  /** A line that reads as the start marker once `# ` is put in front of it. */
  predicate HidesMarker(l: string) {
    Trim("# " + l) == ManagedStart
  }

  /** Commenting turns no line into a start marker: once the managed block is removed, no
      line of a legacy assignment's bracket run reads as the marker without its `# `. */
  predicate NoHiddenMarker(text: string) {
    var lines := SplitLines(WithoutManagedBlock(text));
    forall i :: 0 <= i < |lines| && InRun(lines, i) ==> !HidesMarker(lines[i])
  }

  /** What commenting keeps of the lines it is given. */
  lemma CommentedLinesClean(lines: seq<string>)
    requires AllOneLine(lines)
    requires forall i :: 0 <= i < |lines| ==> Trim(lines[i]) != ManagedStart
    requires forall i :: 0 <= i < |lines| && InRun(lines, i) ==> !HidesMarker(lines[i])
    ensures CleanLines(CommentedLines(lines))
  {
    var r := CommentedLines(lines);
    NoLegacyAfterCommenting(lines);
    CommentedOneLine(lines);
    forall i | 0 <= i < |r|
      ensures CleanLine(r[i])
    {
      assert r[i] == CommentedLine(lines, i);
    }
  }

  /** The text the managed block is inserted into is clean. */
  lemma CleanAfterCommenting(original: string)
    requires NoHiddenMarker(original)
    ensures Clean(CommentedText(WithoutManagedBlock(original)))
  {
    var lines := SplitLines(original);
    var kept := Kept(lines, false);
    var p := (l: string) => OneLine(l);
    assert forall i :: 0 <= i < |kept| ==> p(kept[i]) by {
      assert forall i :: 0 <= i < |lines| ==> p(lines[i]);
      KeptKeeps(lines, false, p);
    }
    KeptHasNoStart(lines, false);
    var w := Join(kept, "\n");
    assert AllOneLine(kept);
    SplitLinesOfJoin(kept);
    var c := CommentedLines(SplitLines(w));
    CommentedLinesClean(SplitLines(w));
    assert AllOneLine(c);
    SplitLinesOfJoin(c);
    JoinNoCarriageReturn(c);
  }

  /** The reconciled text is the layout of the cleaned text around the three block lines,
      and no line outside the block is a start marker or a legacy assignment. */
  lemma BuildNextLayout(original: string, scriptPath: string)
    requires OneLine(scriptPath) && NoHiddenMarker(original)
    ensures var c := CommentedText(WithoutManagedBlock(original));
      var m := [ManagedStart, NotifyLine(scriptPath), ManagedEnd];
      var t := BuildNextConfigText(original, scriptPath);
      t == Join(Layout(c).0 + m + Layout(c).1, "\n")
      && SplitLines(t) == Layout(c).0 + m + Layout(c).1
      && CleanLines(Layout(c).0) && CleanLines(Layout(c).1)
  {
    var c := CommentedText(WithoutManagedBlock(original));
    var m := [ManagedStart, NotifyLine(scriptPath), ManagedEnd];
    var pre := Layout(c).0;
    var post := Layout(c).1;
    CleanAfterCommenting(original);
    LayoutClean(c);
    InsertedLines(c, scriptPath);
    assert AllOneLine(pre + m + post) by {
      BlockLinesOneLine(scriptPath);
      OneLinesConcat(pre, m);
      OneLinesConcat(pre + m, post);
    }
    JoinEmpty(pre + m + post, "\n");
    SplitLinesOfJoin(pre + m + post);
  }

  /** Reconciling a reconciled config changes nothing, so the second run writes nothing. */
  lemma BuildNextIdempotent(original: string, scriptPath: string)
    requires OneLine(scriptPath) && NoHiddenMarker(original)
    ensures var t := BuildNextConfigText(original, scriptPath);
      BuildNextConfigText(t, scriptPath) == t
  {
    var c := CommentedText(WithoutManagedBlock(original));
    var m := [ManagedStart, NotifyLine(scriptPath), ManagedEnd];
    var pre := Layout(c).0;
    var post := Layout(c).1;
    var t := BuildNextConfigText(original, scriptPath);
    BuildNextLayout(original, scriptPath);
    var r := Join(pre + post, "\n");
    assert WithoutManagedBlock(t) == r by {
      RemoveLayout(pre, scriptPath, post);
    }
    assert CommentedText(r) == r && NoCarriageReturn(r) by {
      CleanLinesConcat(pre, post);
      CommentedClean(pre + post);
      JoinNoCarriageReturn(pre + post);
    }
    assert InsertManagedBlockAtRoot(r, BuildManagedBlock(scriptPath)) == t by {
      InsertedLines(r, scriptPath);
      assert NoCarriageReturn(c) by {
        CleanAfterCommenting(original);
      }
      LayoutStable(c);
    }
  }

  /** A config without managed block and without legacy assignments reaches the insertion
      unchanged, apart from its line breaks being normalised. */
  lemma CleanConfigKept(original: string)
    requires CleanLines(SplitLines(original))
    ensures CommentedText(WithoutManagedBlock(original)) == NormalizeBreaks(original)
  {
    var lines := SplitLines(original);
    NoBlockKeepsAll(lines);
    SplitLinesJoin(original);
    var w := Join(lines, "\n");
    CommentedClean(lines);
  }

  // ---------------------------------------------------------------- reconcile

  /** `ensureConfiguredInternal` for the Codex config: building the next text never fails. */
  function ReconcileCodexConfig(scriptSync: Option<string>, read: Reconcile.ReadOutcome, scriptPath: string,
                                writeError: Option<string>): Reconcile.Outcome
  {
    Reconcile.EnsureConfigured(scriptSync, read, (s: string) => Success(BuildNextConfigText(s, scriptPath)), writeError)
  }

  /** Once a run has written the config, the next run over the written text reports
      `unchanged` and writes nothing. */
  lemma SecondReconcileUnchanged(original: string, scriptPath: string, writeError: Option<string>)
    requires OneLine(scriptPath) && NoHiddenMarker(original)
    ensures ReconcileCodexConfig(None, Reconcile.Read(BuildNextConfigText(original, scriptPath)), scriptPath, writeError)
      == Reconcile.Outcome(Reconcile.Unchanged, None)
  {
    BuildNextIdempotent(original, scriptPath);
  }
}
