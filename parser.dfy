/** The terminal-stream decoder `AgentOutputParser` (src/parser.ts). Output arrives in chunks;
    the parser keeps the unfinished tail of an OSC control sequence (ECMA-48 section 8.3.89,
    `ESC ]`, ended by BEL or by the string terminator `ESC \` of section 8.3.143) and hands
    every structured notification inside a complete sequence to its `onStructured` callback.
    Here the callback's calls are the sequence of payloads a `Feed` returns. */
module Parser {
  import opened Wrappers
  import opened Text
  import opened Json
  import opened Types
  import Base64
  import opened Serialization

  const Esc: char := '\U{1B}'
  const Bel: char := '\U{07}'
  const OscPrefix: string := [Esc, ']']
  const St: string := [Esc, '\\']
  const StructuredTitle: string := "AGENT_TASK_EVENT_V1"
  const NotifyPrefix: string := "777;notify;"

  /** `isSource`: the wire literal of one of the sources. */
  function SourceOf(v: Option<Json>): Option<Source> {
    if v == Some(JString("codex")) then Some(Codex)
    else if v == Some(JString("claude")) then Some(Claude)
    else if v == Some(JString("opencode")) then Some(OpenCode)
    else None
  }

  /** `isEventType`. */
  function EventOf(v: Option<Json>): Option<EventType> {
    if v == Some(JString("turn_complete")) then Some(TurnComplete)
    else if v == Some(JString("approval_requested")) then Some(ApprovalRequested)
    else if v == Some(JString("stop")) then Some(Stop)
    else if v == Some(JString("subagent_stop")) then Some(SubagentStop)
    else None
  }

  /** `isStatus`. */
  function StatusOf(v: Option<Json>): Option<Status> {
    if v == Some(JString("success")) then Some(Status.Success)
    else if v == Some(JString("info")) then Some(Info)
    else if v == Some(JString("warning")) then Some(Warning)
    else None
  }

  /** Each recogniser accepts exactly the wire literals of its type, and yields the value the
      literal names. */
  lemma RecognisedLiterals(v: Option<Json>)
    ensures SourceOf(v).Some? ==> v == Some(JString(SourceName(SourceOf(v).value)))
    ensures SourceOf(v).None? ==> forall s :: v != Some(JString(SourceName(s)))
    ensures EventOf(v).Some? ==> v == Some(JString(EventName(EventOf(v).value)))
    ensures EventOf(v).None? ==> forall e :: v != Some(JString(EventName(e)))
    ensures StatusOf(v).Some? ==> v == Some(JString(StatusName(StatusOf(v).value)))
    ensures StatusOf(v).None? ==> forall s :: v != Some(JString(StatusName(s)))
  {
  }

  /** `maybeString`: a present, non-empty string, else absent. */
  function MaybeString(v: Option<Json>): (r: Option<string>)
    ensures r.Some? <==> v.Some? && v.value.JString? && v.value.s != []
    ensures r.Some? ==> v == Some(JString(r.value))
  {
    if v.Some? && v.value.JString? && |v.value.s| > 0 then Some(v.value.s) else None
  }

  /** The conditions `validatePayload` checks, in its own terms. */
  predicate Acceptable(v: Json) {
    v.JObject?
    && Prop(v, "version") == Some(JNumber(Finite(1.0)))
    && SourceOf(Prop(v, "source")).Some?
    && EventOf(Prop(v, "event")).Some?
    && StatusOf(Prop(v, "status")).Some?
    && Prop(v, "message").Some? && Prop(v, "message").value.JString?
    && Prop(v, "createdAt").Some? && Prop(v, "createdAt").value.JNumber?
    && Prop(v, "createdAt").value.n.Finite?
  }

  /** `validatePayload`: an object with version 1, known source, event and status literals,
      a string message (possibly empty) and a finite `createdAt`; the optional string fields
      are kept only when they are non-empty strings. */
  function ValidatePayload(v: Json): Option<Payload> {
    if !v.JObject? then None
    else if Prop(v, "version") != Some(JNumber(Finite(1.0))) then None
    else
      var source, event, status := SourceOf(Prop(v, "source")), EventOf(Prop(v, "event")), StatusOf(Prop(v, "status"));
      if source.None? || event.None? || status.None? then None
      else
        var message, createdAt := Prop(v, "message"), Prop(v, "createdAt");
        if !(message.Some? && message.value.JString?) then None
        else if !(createdAt.Some? && createdAt.value.JNumber? && createdAt.value.n.Finite?) then None
        else Some(Payload(
          source.value, event.value, status.value,
          MaybeString(Prop(v, "title")),
          message.value.s,
          createdAt.value.n.r,
          MaybeString(Prop(v, "sessionId")),
          MaybeString(Prop(v, "taskId")),
          MaybeString(Prop(v, "turnId")),
          MaybeString(Prop(v, "dedupeKey"))))
  }

  /** A value is accepted exactly when it meets every condition, and what is accepted has
      no empty optional field. */
  lemma ValidatePayloadAccepts(v: Json)
    ensures ValidatePayload(v).Some? <==> Acceptable(v)
    ensures ValidatePayload(v).Some? ==> WellFormed(ValidatePayload(v).value)
  {
  }

  /** Every field of an accepted value is read from the key of the same name. */
  lemma ValidatePayloadFields(v: Json)
    requires Acceptable(v)
    ensures ValidatePayload(v).Some?
    ensures var p := ValidatePayload(v).value;
      Prop(v, "source") == Some(JString(SourceName(p.source)))
      && Prop(v, "event") == Some(JString(EventName(p.event)))
      && Prop(v, "status") == Some(JString(StatusName(p.status)))
      && Prop(v, "message") == Some(JString(p.message))
      && Prop(v, "createdAt") == Some(JNumber(Finite(p.createdAt)))
      && p.title == MaybeString(Prop(v, "title"))
      && p.sessionId == MaybeString(Prop(v, "sessionId"))
      && p.taskId == MaybeString(Prop(v, "taskId"))
      && p.turnId == MaybeString(Prop(v, "turnId"))
      && p.dedupeKey == MaybeString(Prop(v, "dedupeKey"))
  {
    RecognisedLiterals(Prop(v, "source"));
    RecognisedLiterals(Prop(v, "event"));
    RecognisedLiterals(Prop(v, "status"));
  }

  /** A value whose fields spell out a payload is accepted as that payload. */
  lemma ValidateOf(v: Json, p: Payload)
    requires v.JObject? && Prop(v, "version") == Some(JNumber(Finite(1.0)))
    requires Prop(v, "source") == Some(JString(SourceName(p.source)))
    requires Prop(v, "event") == Some(JString(EventName(p.event)))
    requires Prop(v, "status") == Some(JString(StatusName(p.status)))
    requires Prop(v, "message") == Some(JString(p.message))
    requires Prop(v, "createdAt") == Some(JNumber(Finite(p.createdAt)))
    requires p.title == MaybeString(Prop(v, "title")) && p.sessionId == MaybeString(Prop(v, "sessionId"))
    requires p.taskId == MaybeString(Prop(v, "taskId")) && p.turnId == MaybeString(Prop(v, "turnId"))
    requires p.dedupeKey == MaybeString(Prop(v, "dedupeKey"))
    ensures ValidatePayload(v) == Some(p)
  {
    assert SourceOf(Prop(v, "source")) == Some(p.source) by {
      match p.source
      case Codex => case Claude => case OpenCode =>
    }
    assert EventOf(Prop(v, "event")) == Some(p.event) by {
      match p.event
      case TurnComplete => case ApprovalRequested => case Stop => case SubagentStop =>
    }
    assert StatusOf(Prop(v, "status")) == Some(p.status) by {
      match p.status
      case Success => case Info => case Warning =>
    }
  }

  /** `decodeBase64Url`: empty input is refused; otherwise the URL-safe characters are mapped
      back, the padding restored and the bytes decoded as UTF-8. An empty decoded text counts
      as a failure too, since the caller tests the result for truthiness. */
  function DecodeBase64Url(codec: Codec, input: string): (r: Option<string>)
    ensures input == [] ==> r.None?
    ensures r.Some? ==> r.value != []
  {
    var bytes := Base64.DecodeUrl(input);
    if bytes.None? then None
    else
      var text := codec.utf8Decode(bytes.value);
      if text == [] then None else Some(text)
  }

  /** What `tryParseStructuredEvent` does with the trimmed content of one sequence: nothing
      for a sequence that is not a notification, a debug reason for a notification that is
      refused, or the payload. */
  datatype Outcome = NotStructured | Skipped(reason: string) | Structured(payload: Payload)

  /** `tryParseStructuredEvent`: only content that starts with `777;notify;` is a
      notification. The prefix is compared one character at a time. */
  function TryParseStructuredEvent(codec: Codec, content: string): Outcome {
    MatchNotifyPrefix(codec, content, 0)
  }

  function MatchNotifyPrefix(codec: Codec, content: string, i: nat): Outcome
    requires i <= |NotifyPrefix| && i <= |content|
    decreases |content| - i
  {
    if i == |NotifyPrefix| then ParseNotification(codec, content[i..])
    else if i < |content| && content[i] == NotifyPrefix[i] then MatchNotifyPrefix(codec, content, i + 1)
    else NotStructured
  }

  /** The notification after `777;notify;`: a title up to the first `;`, which must be the
      structured title, then the base64url payload, trimmed. */
  function ParseNotification(codec: Codec, rest: string): Outcome {
    var splitIndex := IndexOfChar(rest, ';', 0);
    if splitIndex == -1 then Skipped("Structured OSC skipped: missing title separator")
    else if rest[..splitIndex] != StructuredTitle then
      Skipped("Structured OSC skipped: unexpected title \"" + rest[..splitIndex] + "\"")
    else
      var encoded := Trim(rest[splitIndex + 1..]);
      var decoded := DecodeBase64Url(codec, encoded);
      if decoded.None? then Skipped("Structured OSC skipped: base64 decode failed")
      else
        var parsed := codec.parse(decoded.value);
        if parsed.None? then Skipped("Structured OSC skipped: invalid JSON payload")
        else
          var payload := ValidatePayload(parsed.value);
          if payload.None? then Skipped("Structured OSC skipped: schema validation failed")
          else Structured(payload.value)
  }

  /** The character-wise comparison is `startsWith`. */
  lemma {:induction false} MatchNotifyPrefixIsStartsWith(codec: Codec, content: string, i: nat)
    requires i <= |NotifyPrefix| && i <= |content| && content[..i] == NotifyPrefix[..i]
    ensures MatchNotifyPrefix(codec, content, i)
      == if StartsWith(content, NotifyPrefix) then ParseNotification(codec, content[|NotifyPrefix|..]) else NotStructured
    decreases |NotifyPrefix| - i
  {
    if i < |NotifyPrefix| {
      if i < |content| && content[i] == NotifyPrefix[i] {
        assert content[..i + 1] == content[..i] + [content[i]];
        assert NotifyPrefix[..i + 1] == NotifyPrefix[..i] + [NotifyPrefix[i]];
        MatchNotifyPrefixIsStartsWith(codec, content, i + 1);
      } else if |NotifyPrefix| <= |content| {
        assert content[..|NotifyPrefix|][i] != NotifyPrefix[i];
      }
    } else {
      assert NotifyPrefix[..i] == NotifyPrefix;
    }
  }

  /** Content that does not start with `777;notify;` is not a notification; any other content
      is read as one. */
  lemma TryParseSpec(codec: Codec, content: string)
    ensures TryParseStructuredEvent(codec, content)
      == if StartsWith(content, NotifyPrefix) then ParseNotification(codec, content[|NotifyPrefix|..]) else NotStructured
  {
    MatchNotifyPrefixIsStartsWith(codec, content, 0);
  }

  function Emitted(o: Outcome): (r: seq<Payload>)
    ensures |r| <= 1
    ensures r != [] <==> o.Structured?
  {
    if o.Structured? then [o.payload] else []
  }

  /** Where a sequence ends: at a BEL (length 1) or at an ST (length 2). */
  datatype Terminated = Unterminated | EndsAt(end: nat, length: nat)

  /** A BEL, or the ESC of an ST, at position `i`. */
  predicate TerminatorAt(buf: string, i: nat) {
    i < |buf| && (buf[i] == Bel || (i + 1 < |buf| && buf[i] == Esc && buf[i + 1] == '\\'))
  }

  /** The first terminator at or after `from`, found by scanning one character at a time. */
  function Terminator(buf: string, from: nat): (r: Terminated)
    ensures r.EndsAt? ==> from <= r.end && 1 <= r.length <= 2 && r.end + r.length <= |buf|
    ensures r.EndsAt? && r.length == 1 ==> buf[r.end] == Bel
    ensures r.EndsAt? && r.length == 2 ==> buf[r.end] == Esc && buf[r.end + 1] == '\\'
    decreases |buf| - from
  {
    if from >= |buf| then Unterminated
    else if buf[from] == Bel then EndsAt(from, 1)
    else if buf[from] == Esc && from + 1 < |buf| && buf[from + 1] == '\\' then EndsAt(from, 2)
    else Terminator(buf, from + 1)
  }

  /** No terminator starts before the one found, and none at all when none is found. */
  lemma {:induction false} TerminatorFirst(buf: string, from: nat)
    ensures var r := Terminator(buf, from);
      forall i :: from <= i && (r.Unterminated? || i < r.end) ==> !TerminatorAt(buf, i)
    decreases |buf| - from
  {
    if from < |buf| && !TerminatorAt(buf, from) {
      TerminatorFirst(buf, from + 1);
    }
  }

  /** `processBuffer` looks for a BEL and for an ST separately and takes whichever comes
      first; that is the first terminator. */
  lemma {:induction false} TerminatorIsFirstOf(buf: string, from: nat)
    ensures var belEnd, stEnd := IndexOfChar(buf, Bel, from), IndexOfPair(buf, Esc, '\\', from);
      Terminator(buf, from) ==
        if belEnd != -1 && (stEnd == -1 || belEnd < stEnd) then EndsAt(belEnd, 1)
        else if stEnd != -1 then EndsAt(stEnd, 2)
        else Unterminated
    decreases |buf| - from
  {
    if from < |buf| && !TerminatorAt(buf, from) {
      TerminatorIsFirstOf(buf, from + 1);
    }
  }

  /** The terminator search from inside `y` is the same in `x + y`, shifted by `|x|`. */
  lemma {:induction false} TerminatorShift(x: string, y: string, from: nat)
    ensures var r := Terminator(y, from);
      Terminator(x + y, |x| + from) == if r.Unterminated? then Unterminated else EndsAt(|x| + r.end, r.length)
    decreases |y| - from
  {
    if from < |y| {
      assert (x + y)[|x| + from] == y[from];
      if from + 1 < |y| {
        assert (x + y)[|x| + from + 1] == y[from + 1];
      }
      TerminatorShift(x, y, from + 1);
    }
  }

  /** A retained buffer: empty, or the start `ESC ]` of a sequence that has no terminator yet. */
  predicate Pending(b: string) {
    b == [] || (|b| >= 2 && b[0] == Esc && b[1] == ']' && Terminator(b, 2).Unterminated?)
  }

  /** What the scan meets next: no sequence start, a start at `start` with no terminator
      after it, or a complete sequence whose terminator of `length` characters is at `end`. */
  datatype Step = NoStart | Open(start: nat) | Closed(start: nat, end: nat, length: nat)

  /** The sequence opening at `o`, delimited by the first terminator after its `ESC ]`. */
  function Delimit(buf: string, o: nat): (r: Step)
    ensures r.Open? || r.Closed?
    ensures r.start == o
    ensures r.Closed? ==> o + 2 <= r.end && 1 <= r.length && r.end + r.length <= |buf|
  {
    var term := Terminator(buf, o + 2);
    if term.Unterminated? then Open(o) else Closed(o, term.end, term.length)
  }

  /** The first sequence start `ESC ]` at or after `cursor`, found one character at a time. */
  function NextSequence(buf: string, cursor: nat): (r: Step)
    ensures !r.NoStart? ==> cursor <= r.start && r.start + 1 < |buf| && buf[r.start] == Esc && buf[r.start + 1] == ']'
    ensures r.Closed? ==> r.start + 2 <= r.end && 1 <= r.length && r.end + r.length <= |buf|
    decreases |buf| - cursor
  {
    if cursor + 1 >= |buf| then NoStart
    else if buf[cursor] == Esc && buf[cursor + 1] == ']' then Delimit(buf, cursor)
    else NextSequence(buf, cursor + 1)
  }

  /** What follows a start is delimited by the first terminator after it. */
  lemma {:induction false} NextSequenceDelimits(buf: string, cursor: nat)
    ensures var r := NextSequence(buf, cursor);
      !r.NoStart? ==> r == Delimit(buf, r.start)
    decreases |buf| - cursor
  {
    if cursor + 1 < |buf| && !(buf[cursor] == Esc && buf[cursor + 1] == ']') {
      NextSequenceDelimits(buf, cursor + 1);
    }
  }

  /** The scan finds the start that `indexOf(OSC_PREFIX, cursor)` finds. */
  lemma {:induction false} NextSequenceIsIndexOf(buf: string, cursor: nat)
    ensures var o := IndexOfPair(buf, Esc, ']', cursor);
      NextSequence(buf, cursor) == if o == -1 then NoStart else Delimit(buf, o)
    decreases |buf| - cursor
  {
    if cursor + 1 < |buf| && !(buf[cursor] == Esc && buf[cursor + 1] == ']') {
      NextSequenceIsIndexOf(buf, cursor + 1);
    }
  }

  /** One search of the `processBuffer` loop: the prefix, then the nearer of BEL and ST. */
  method FindSequence(buffer: string, cursor: nat) returns (step: Step)
    ensures step == NextSequence(buffer, cursor)
  {
    NextSequenceIsIndexOf(buffer, cursor);
    var oscStart := IndexOfPair(buffer, Esc, ']', cursor);
    if oscStart == -1 {
      return NoStart;
    }
    var contentStart := oscStart + |OscPrefix|;
    TerminatorIsFirstOf(buffer, contentStart);
    var belEnd := IndexOfChar(buffer, Bel, contentStart);
    var stEnd := IndexOfPair(buffer, Esc, '\\', contentStart);
    if belEnd != -1 && (stEnd == -1 || belEnd < stEnd) {
      step := Closed(oscStart, belEnd, 1);
    } else if stEnd != -1 {
      step := Closed(oscStart, stEnd, 2);
    } else {
      step := Open(oscStart);
    }
  }

  /** What `processBuffer` meets in a buffer: the contents of its complete sequences, in
      order and before trimming, and the tail it keeps. */
  datatype ScanResult = ScanResult(contents: seq<string>, rest: string)

  /** `processBuffer` from `cursor` on, after collecting the contents `found`: the content
      between each `ESC ]` and its terminator is collected, and only the tail from an
      unterminated sequence start is kept. */
  function ScanFrom(buf: string, cursor: nat, found: seq<string>): ScanResult
    decreases |buf| - cursor
  {
    match NextSequence(buf, cursor)
    case NoStart => ScanResult(found, [])
    case Open(o) => ScanResult(found, buf[o..])
    case Closed(o, e, l) => ScanFrom(buf, e + l, found + [buf[o + 2..e]])
  }

  /** One closed sequence: its content is collected and the scan goes on past its
      terminator. */
  lemma ScanFromClosed(buf: string, cursor: nat, step: Step, raw: string, found: seq<string>, cursor': nat, found': seq<string>)
    requires step == NextSequence(buf, cursor) && step.Closed?
    requires raw == buf[step.start + 2..step.end]
    requires cursor' == step.end + step.length && found' == found + [raw]
    ensures ScanFrom(buf, cursor, found) == ScanFrom(buf, cursor', found')
  {
    assert ScanFrom(buf, cursor, found) == ScanFrom(buf, step.end + step.length, found + [buf[step.start + 2..step.end]]);
  }

  /** No further start, or one without a terminator: the scan stops with what it found. */
  lemma ScanFromStops(buf: string, cursor: nat, step: Step, found: seq<string>)
    requires step == NextSequence(buf, cursor) && !step.Closed?
    ensures ScanFrom(buf, cursor, found) == ScanResult(found, if step.Open? then buf[step.start..] else [])
  {
  }

  /** The payloads of a run of sequence contents: each content is trimmed and interpreted,
      and the structured ones are kept in order. */
  function Events(codec: Codec, contents: seq<string>): seq<Payload> {
    if contents == [] then []
    else Events(codec, contents[..|contents| - 1]) + Emitted(TryParseStructuredEvent(codec, Trim(contents[|contents| - 1])))
  }

  /** One more content adds its payload, if any, at the end. */
  lemma EventsSnoc(codec: Codec, a: seq<string>, c: string)
    ensures Events(codec, a + [c]) == Events(codec, a) + Emitted(TryParseStructuredEvent(codec, Trim(c)))
  {
    assert (a + [c])[..|a|] == a;
  }

  /** The payloads of two runs are those of the first followed by those of the second. */
  lemma {:induction false} EventsAppend(codec: Codec, a: seq<string>, b: seq<string>)
    ensures Events(codec, a + b) == Events(codec, a) + Events(codec, b)
    decreases |b|
  {
    if b == [] {
      assert a + b == a;
    } else {
      var b' := b[..|b| - 1];
      var c := b[|b| - 1];
      assert b == b' + [c];
      assert a + b == (a + b') + [c];
      EventsAppend(codec, a, b');
      EventsSnoc(codec, a + b', c);
      EventsSnoc(codec, b', c);
      ConcatAssoc(Events(codec, a), Events(codec, b'), Emitted(TryParseStructuredEvent(codec, Trim(c))));
    }
  }


  /** The contents collected before `cursor` stay in front of those found after it. */
  lemma {:induction false} ScanFromFound(buf: string, cursor: nat, a: seq<string>, b: seq<string>)
    ensures var r := ScanFrom(buf, cursor, b);
      ScanFrom(buf, cursor, a + b) == ScanResult(a + r.contents, r.rest)
    decreases |buf| - cursor
  {
    var step := NextSequence(buf, cursor);
    if step.Closed? {
      var raw := buf[step.start + 2..step.end];
      var next := step.end + step.length;
      ScanFromClosed(buf, cursor, step, raw, a + b, next, (a + b) + [raw]);
      ScanFromClosed(buf, cursor, step, raw, b, next, b + [raw]);
      ScanFromFound(buf, next, a, b + [raw]);
      assert (a + b) + [raw] == a + (b + [raw]);
    } else {
      ScanFromStops(buf, cursor, step, a + b);
      ScanFromStops(buf, cursor, step, b);
    }
  }

  /** What the scan keeps is a pending buffer. */
  lemma {:induction false} ScanFromPending(buf: string, cursor: nat, found: seq<string>)
    ensures Pending(ScanFrom(buf, cursor, found).rest)
    decreases |buf| - cursor
  {
    NextSequenceDelimits(buf, cursor);
    match NextSequence(buf, cursor)
    case NoStart =>
    case Open(o) => PendingSuffix(buf, o);
    case Closed(o, e, l) => ScanFromPending(buf, e + l, found + [buf[o + 2..e]]);
  }

  /** What the scan keeps is a suffix of the buffer from the cursor on. */
  lemma {:induction false} ScanFromSuffix(buf: string, cursor: nat, found: seq<string>)
    ensures var r := ScanFrom(buf, cursor, found).rest;
      r == [] || (|buf| - |r| >= cursor && r == buf[|buf| - |r|..])
    decreases |buf| - cursor
  {
    var step := NextSequence(buf, cursor);
    if step.Closed? {
      var raw := buf[step.start + 2..step.end];
      var next := step.end + step.length;
      ScanFromClosed(buf, cursor, step, raw, found, next, found + [raw]);
      ScanFromSuffix(buf, next, found + [raw]);
    } else {
      ScanFromStops(buf, cursor, step, found);
      if step.Open? {
        assert |buf| - |buf[step.start..]| == step.start;
      }
    }
  }

  /** One complete sequence met by the `processBuffer` loop: the scan moves on to `cursor'`
      past its terminator, with its content `raw` collected, towards the same result. */
  lemma ScanStep(buf: string, cursor: nat, step: Step, raw: string, found: seq<string>, cursor': nat, found': seq<string>,
                 target: ScanResult)
    requires step == NextSequence(buf, cursor) && step.Closed?
    requires raw == buf[step.start + 2..step.end]
    requires cursor' == step.end + step.length && found' == found + [raw]
    requires ScanFrom(buf, cursor, found) == target
    ensures ScanFrom(buf, cursor', found') == target
  {
    ScanFromClosed(buf, cursor, step, raw, found, cursor', found');
  }

  /** The payloads emitted so far, extended by those of one more content. */
  lemma EventsStep(codec: Codec, found: seq<string>, raw: string, emitted: seq<Payload>, e: seq<Payload>,
                   found': seq<string>, emitted': seq<Payload>)
    requires emitted == Events(codec, found)
    requires e == Emitted(TryParseStructuredEvent(codec, Trim(raw)))
    requires found' == found + [raw] && emitted' == emitted + e
    ensures emitted' == Events(codec, found')
  {
    EventsSnoc(codec, found, raw);
  }

  /** The tail from an unterminated sequence start is a pending buffer. */
  lemma PendingSuffix(buf: string, o: nat)
    requires o + 1 < |buf| && buf[o] == Esc && buf[o + 1] == ']'
    requires Terminator(buf, o + 2).Unterminated?
    ensures Pending(buf[o..])
  {
    var x, y := buf[..o], buf[o..];
    assert buf == x + y;
    TerminatorShift(x, y, 2);
  }

  /** The whole of `processBuffer` on a buffer. */
  function Scan(buf: string): (r: ScanResult)
    ensures Pending(r.rest)
  {
    ScanFromPending(buf, 0, []);
    ScanFrom(buf, 0, [])
  }

  class AgentOutputParser {
    const codec: Codec
    var streamBuffer: string

    ghost predicate Valid()
      reads this
    {
      Pending(streamBuffer)
    }

    constructor(codec: Codec)
      ensures Valid() && streamBuffer == [] && this.codec == codec
    {
      this.codec := codec;
      streamBuffer := [];
    }

    /** `feed`: appends the chunk and scans the whole buffer; the payloads found are returned
        in order, and only a pending sequence start is kept. */
    method Feed(chunk: string) returns (emitted: seq<Payload>)
      modifies this
      ensures Valid()
      ensures var r := Scan(old(streamBuffer) + chunk);
        emitted == Events(codec, r.contents) && streamBuffer == r.rest
    {
      streamBuffer := streamBuffer + chunk;
      emitted := ProcessBuffer();
    }

    /** `flush`: drops whatever is pending. */
    method Flush()
      modifies this
      ensures Valid() && streamBuffer == []
    {
      streamBuffer := [];
    }

    /** `processBuffer`: scans the buffer from the start; every complete sequence is handed to
        `tryParseStructuredEvent`, and only an unterminated sequence start is kept. */
    method ProcessBuffer() returns (emitted: seq<Payload>)
      modifies this
      ensures Valid()
      ensures var r := Scan(old(streamBuffer));
        emitted == Events(codec, r.contents) && streamBuffer == r.rest
    {
      var buffer := streamBuffer;
      var remaining: string := [];
      var cursor: nat := 0;
      emitted := [];
      ghost var found: seq<string> := [];
      ghost var target := Scan(buffer);
      while cursor < |buffer|
        invariant ScanFrom(buffer, cursor, found) == target
        invariant emitted == Events(codec, found)
        invariant remaining == []
        decreases |buffer| - cursor
      {
        var step := FindSequence(buffer, cursor);
        if step.NoStart? {
          break;
        }
        if step.Open? {
          remaining := buffer[step.start..];
          break;
        }
        var raw := buffer[step.start + 2..step.end];
        var content := Trim(raw);
        var e := Emitted(TryParseStructuredEvent(codec, content));
        ghost var cursor0, found0, emitted0 := cursor, found, emitted;
        emitted := emitted + e;
        found := found + [raw];
        cursor := step.end + step.length;
        ScanStep(buffer, cursor0, step, raw, found0, cursor, found, target);
        EventsStep(codec, found0, raw, emitted0, e, found, emitted);
      }
      if cursor >= |buffer| {
        assert NextSequence(buffer, cursor) == NoStart;
      }
      streamBuffer := remaining;
    }
  }
}
