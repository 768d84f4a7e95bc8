/** How `AgentOutputParser` behaves on whole frames and on frames cut into chunks: a frame
    split anywhere after its `ESC ]` decodes as if fed whole, a split between `ESC` and `]`
    loses it, and a foreign sequence that is never terminated absorbs the following frame. */
module ParserStream {
  import opened Text
  import opened Types
  import opened Serialization
  import opened Parser

  /** Text with neither a BEL nor an ESC in it, so it can neither end nor open a sequence. */
  predicate Plain(c: string) {
    forall i :: 0 <= i < |c| ==> c[i] != Bel && c[i] != Esc
  }

  /** The two terminators. */
  predicate IsTerminator(t: string) {
    t == [Bel] || t == St
  }

  /** A complete sequence with content `c`. */
  function Frame(c: string, t: string): string {
    OscPrefix + c + t
  }

  /** The terminator search passes over characters that are neither BEL nor ESC. */
  lemma {:induction false} TerminatorSkip(buf: string, from: nat, k: nat)
    requires from <= k <= |buf|
    requires forall i :: from <= i < k ==> buf[i] != Bel && buf[i] != Esc
    ensures Terminator(buf, from) == Terminator(buf, k)
    decreases k - from
  {
    if from < k {
      TerminatorSkip(buf, from + 1, k);
    }
  }

  /** The search for a sequence start passes over characters that are not ESC. */
  lemma {:induction false} NextSequenceSkip(buf: string, cursor: nat, k: nat)
    requires cursor <= k <= |buf|
    requires forall i :: cursor <= i < k ==> buf[i] != Esc
    ensures NextSequence(buf, cursor) == NextSequence(buf, k)
    decreases k - cursor
  {
    if cursor < k {
      NextSequenceSkip(buf, cursor + 1, k);
    }
  }

  /** With no `ESC ]` from the cursor on, the rest of the buffer is dropped and nothing more
      is collected. */
  lemma NoStartDiscards(buf: string, cursor: nat, found: seq<string>)
    requires forall i :: cursor <= i && i + 1 < |buf| ==> !(buf[i] == Esc && buf[i + 1] == ']')
    ensures ScanFrom(buf, cursor, found) == ScanResult(found, [])
  {
    NextSequenceIsIndexOf(buf, cursor);
    IndexOfPairFirst(buf, Esc, ']', cursor);
  }

  /** A whole frame yields exactly its content and leaves nothing behind. */
  lemma ScanFrame(c: string, t: string)
    requires Plain(c) && IsTerminator(t)
    ensures Scan(Frame(c, t)) == ScanResult([c], [])
  {
    var f := Frame(c, t);
    var e := 2 + |c|;
    assert f[0] == Esc && f[1] == ']';
    assert f[e..] == t;
    assert f[2..e] == c;
    TerminatorSkip(f, 2, e);
    assert Terminator(f, e) == EndsAt(e, |t|);
    assert Delimit(f, 0) == Closed(0, e, |t|);
    assert ScanFrom(f, 0, []) == ScanFrom(f, |f|, [c]);
  }

  /** A proper prefix of a frame that holds its `ESC ]` has no terminator yet: it yields
      nothing and is kept whole. */
  lemma ScanPartialFrame(c: string, t: string, k: nat)
    requires Plain(c) && IsTerminator(t) && 2 <= k < |Frame(c, t)|
    ensures Scan(Frame(c, t)[..k]) == ScanResult([], Frame(c, t)[..k])
  {
    var x := Frame(c, t)[..k];
    var e := 2 + |c|;
    assert x[0] == Esc && x[1] == ']';
    if k <= e {
      TerminatorSkip(x, 2, k);
    } else {
      TerminatorSkip(x, 2, e);
      assert k == e + 1 && x[e] == Esc;
    }
    assert Terminator(x, 2) == Unterminated;
    assert x[0..] == x;
  }

  /** A frame fed in two chunks split after its `ESC ]`: the first feed yields nothing and
      keeps the chunk, and the second sees the whole frame. */
  lemma SplitAfterPrefix(codec: Codec, c: string, t: string, k: nat)
    requires Plain(c) && IsTerminator(t) && 2 <= k <= |Frame(c, t)|
    ensures var f := Frame(c, t);
      var first := Scan(f[..k]);
      var second := Scan(first.rest + f[k..]);
      Events(codec, first.contents) + Events(codec, second.contents) == Events(codec, [c])
      && second.rest == []
  {
    var f := Frame(c, t);
    ScanFrame(c, t);
    if k < |f| {
      ScanPartialFrame(c, t, k);
      assert f[..k] + f[k..] == f;
    } else {
      assert f[..k] == f && f[k..] == [];
      assert f + [] == f;
      var x := Events(codec, [c]);
      assert x + [] == x;
    }
  }

  /** A frame split between its `ESC` and its `]` is lost: the lone `ESC` is dropped with
      the rest of a buffer that holds no sequence start, and the second chunk has none
      either. */
  lemma SplitInsidePrefix(c: string, t: string)
    requires Plain(c) && IsTerminator(t)
    ensures var f := Frame(c, t);
      Scan(f[..1]) == ScanResult([], []) && Scan(f[1..]) == ScanResult([], [])
      && Scan(f).contents == [c]
  {
    var f := Frame(c, t);
    ScanFrame(c, t);
    var y := f[1..];
    var e := 1 + |c|;
    assert y[e..] == t;
    NextSequenceSkip(y, 0, e);
    if t == St {
      assert y[e + 1] == '\\';
      assert NextSequence(y, e) == NextSequence(y, e + 1);
    }
  }

  /** The terminator after a frame's `ESC ]` is the frame's own. */
  lemma FrameTerminator(c: string, t: string)
    requires Plain(c) && IsTerminator(t)
    ensures Terminator(Frame(c, t), 2) == EndsAt(2 + |c|, |t|)
  {
    var f := Frame(c, t);
    var e := 2 + |c|;
    assert f[e..] == t;
    TerminatorSkip(f, 2, e);
  }

  /** A terminator found inside `x` is found at the same place in `x + y`. */
  lemma {:induction false} TerminatorPrefix(x: string, y: string, from: nat)
    requires Terminator(x, from).EndsAt?
    ensures Terminator(x + y, from) == Terminator(x, from)
    decreases |x| - from
  {
    assert (x + y)[from] == x[from];
    if from + 1 < |x| {
      assert (x + y)[from + 1] == x[from + 1];
    }
    if !TerminatorAt(x, from) {
      TerminatorPrefix(x, y, from + 1);
    }
  }

  /** What the scan needs to know of a frame: it opens with `ESC ]`, its content follows, and
      the terminator after the content ends the frame. */
  lemma FrameShape(c: string, t: string)
    requires Plain(c) && IsTerminator(t)
    ensures var f := Frame(c, t);
      |f| == 2 + |c| + |t| && f[0] == Esc && f[1] == ']' && f[2..2 + |c|] == c
      && Terminator(f, 2) == EndsAt(2 + |c|, |t|)
  {
    FrameTerminator(c, t);
  }

  /** A whole frame at the start of a buffer is collected, and the scan resumes after it. */
  lemma ScanLeadingFrame(x: string, c: string, l: nat, y: string)
    requires |x| == 2 + |c| + l && x[0] == Esc && x[1] == ']' && x[2..2 + |c|] == c
    requires Terminator(x, 2) == EndsAt(2 + |c|, l)
    ensures ScanFrom(x + y, 0, []) == ScanFrom(x + y, |x|, [c])
  {
    var buf := x + y;
    TerminatorPrefix(x, y, 2);
    assert buf[0] == Esc && buf[1] == ']';
    var step := NextSequence(buf, 0);
    assert step == Closed(0, 2 + |c|, l);
    assert buf[2..2 + |c|] == c;
    ScanFromClosed(buf, 0, step, c, [], |x|, [c]);
  }

  /** A whole frame at the end of a buffer is collected, and nothing is left. */
  lemma ScanTrailingFrame(x: string, y: string, c: string, l: nat, found: seq<string>)
    requires |y| == 2 + |c| + l && y[0] == Esc && y[1] == ']' && y[2..2 + |c|] == c
    requires Terminator(y, 2) == EndsAt(2 + |c|, l)
    ensures ScanFrom(x + y, |x|, found) == ScanResult(found + [c], [])
  {
    var buf := x + y;
    TerminatorShift(x, y, 2);
    assert buf[|x|] == Esc && buf[|x| + 1] == ']';
    var step := NextSequence(buf, |x|);
    assert step == Closed(|x|, |x| + 2 + |c|, l);
    assert buf[|x| + 2..|x| + 2 + |c|] == c;
    assert step.start + 2 == |x| + 2 && step.end == |x| + 2 + |c|;
    assert c == buf[step.start + 2..step.end];
    assert |buf| == step.end + step.length;
    ScanFromClosed(buf, |x|, step, c, found, |buf|, found + [c]);
  }

  /** Two whole frames in a row yield their two contents and leave nothing behind. */
  lemma ScanTwoFrames(f: string, t: string, n: string, t': string)
    requires Plain(f) && Plain(n) && IsTerminator(t) && IsTerminator(t')
    ensures Scan(Frame(f, t) + Frame(n, t')) == ScanResult([f, n], [])
  {
    FrameShape(f, t);
    FrameShape(n, t');
    ScanLeadingFrame(Frame(f, t), f, |t|, Frame(n, t'));
    ScanTrailingFrame(Frame(f, t), Frame(n, t'), n, |t'|, [f]);
    assert [f] + [n] == [f, n];
  }

  /** A content that yields no payload adds nothing in front of the next one's. */
  lemma EventsSkip(codec: Codec, f: string, n: string)
    requires Emitted(TryParseStructuredEvent(codec, Trim(f))) == []
    ensures Events(codec, [f, n]) == Events(codec, [n])
  {
    EventsSnoc(codec, [], f);
    EventsSnoc(codec, [f], n);
    EventsSnoc(codec, [], n);
    assert [] + [f] == [f] && [f] + [n] == [f, n] && [] + [n] == [n];
  }

  /** A complete sequence whose content is not a notification, then a complete frame: each is
      closed by its own terminator, so the foreign content is collected and ignored and the
      frame after it is read as if it came alone. */
  lemma ForeignThenFrame(codec: Codec, f: string, t: string, n: string, t': string)
    requires Plain(f) && Plain(n) && IsTerminator(t) && IsTerminator(t')
    requires Emitted(TryParseStructuredEvent(codec, Trim(f))) == []
    ensures Scan(Frame(f, t) + Frame(n, t')) == ScanResult([f, n], [])
    ensures Events(codec, [f, n]) == Events(codec, [n])
  {
    ScanTwoFrames(f, t, n, t');
    EventsSkip(codec, f, n);
  }

  /** `ESC ]` + `c` with no terminator, then a complete frame with content `n`: the search for
      the first sequence's terminator runs into the second frame's BEL, so the scan yields one
      content that holds both. */
  lemma ForeignSwallows(c: string, n: string)
    requires Plain(c) && Plain(n)
    ensures Scan(OscPrefix + c + Frame(n, [Bel])) == ScanResult([c + OscPrefix + n], [])
  {
    var buf := OscPrefix + c + Frame(n, [Bel]);
    var m := 2 + |c|;
    var e := m + 2 + |n|;
    assert buf[0] == Esc && buf[1] == ']';
    TerminatorSkip(buf, 2, m);
    assert buf[m] == Esc && buf[m + 1] == ']';
    assert Terminator(buf, m) == Terminator(buf, m + 1);
    TerminatorSkip(buf, m + 1, e);
    assert buf[e] == Bel && e + 1 == |buf|;
    assert buf[2..e] == c + OscPrefix + n;
    assert ScanFrom(buf, 0, []) == ScanFrom(buf, |buf|, [c + OscPrefix + n]);
  }

  /** So the later frame's payload is never seen when the foreign content does not begin
      like a notification, although that frame alone would be read. */
  lemma ForeignSwallowsEvents(codec: Codec, c: string, n: string)
    requires Plain(c) && Plain(n)
    requires c != [] && !IsWhitespace(c[0]) && c[0] != '7'
    ensures Events(codec, Scan(OscPrefix + c + Frame(n, [Bel])).contents) == []
    ensures Scan(Frame(n, [Bel])).contents == [n]
  {
    ForeignSwallows(c, n);
    ScanFrame(n, [Bel]);
    var x := c + OscPrefix + n;
    assert x[0] == c[0];
    TrimKeepsFirst(x);
    TryParseSpec(codec, Trim(x));
    assert [x][1..] == [];
  }
}
