/** The plugin and the extension together: a frame built by the OpenCode plugin and read by
    `AgentOutputParser` yields exactly the payload the plugin built, whole or cut into two
    chunks after its `ESC ]`. What is assumed of the runtime is that UTF-8 and JSON text
    round-trip. */
module FrameRoundTrip {
  import opened Wrappers
  import opened Json
  import opened Text
  import opened Types
  import opened Serialization
  import Base64
  import opened Parser
  import opened ParserStream
  import opened OpenCodeNotifier

  /** The encoded part of a frame is non-empty URL-safe base64. */
  lemma EncodedShape(codec: Codec, j: Json)
    requires Utf8RoundTrips(codec) && JsonRoundTrips(codec) && Wire(j)
    ensures var enc := EncodeBase64Url(codec, codec.stringify(j));
      enc != [] && UrlText(enc)
      && Base64.DecodeUrl(enc) == Some(codec.utf8Encode(codec.stringify(j)))
  {
    var bytes := codec.utf8Encode(codec.stringify(j));
    EncodeNonEmpty(codec, codec.stringify(j));
    Base64.UrlRoundTrip(bytes);
    Base64.EncodeUrlAlphabet(bytes);
  }

  /** Text of URL-safe base64 characters. */
  predicate UrlText(enc: string) {
    forall i :: 0 <= i < |enc| ==> Base64.IsUrlChar(enc[i])
  }

  /** The fixed head of every frame the plugin writes. */
  function Head(): string {
    NotifyPrefix + StructuredTitle + ";"
  }

  lemma PlainContent(enc: string)
    requires UrlText(enc)
    ensures Plain(Head() + enc)
  {
    var h, c := Head(), Head() + enc;
    forall i | 0 <= i < |c|
      ensures c[i] != Bel && c[i] != Esc
    {
      if i >= |h| {
        assert c[i] == enc[i - |h|];
        assert Base64.IsUrlChar(enc[i - |h|]);
      }
    }
  }

  /** The frame content holds neither BEL nor ESC, so the frame is one whole sequence. */
  lemma BuiltFrameScans(codec: Codec, j: Json)
    requires Utf8RoundTrips(codec) && JsonRoundTrips(codec) && Wire(j)
    ensures Plain(FrameContent(codec, j))
    ensures BuildOsc(codec, j) == Frame(FrameContent(codec, j), [Bel])
    ensures Scan(BuildOsc(codec, j)) == ScanResult([FrameContent(codec, j)], [])
  {
    var enc := EncodeBase64Url(codec, codec.stringify(j));
    EncodedShape(codec, j);
    assert FrameContent(codec, j) == Head() + enc;
    PlainContent(enc);
    ScanFrame(FrameContent(codec, j), [Bel]);
  }

  /** Non-empty URL-safe text has no whitespace to trim. */
  lemma UrlTight(enc: string)
    requires enc != [] && UrlText(enc)
    ensures Trim(enc) == enc && Trim(Head() + enc) == Head() + enc
  {
    assert Base64.IsUrlChar(enc[0]) && Base64.IsUrlChar(enc[|enc| - 1]);
    TrimOfTight(enc);
    var c := Head() + enc;
    assert c[|c| - 1] == enc[|enc| - 1];
    TrimOfTight(c);
  }

  /** The title of a built frame is the structured title, and the payload follows it. */
  lemma TitleSplit(enc: string)
    ensures var rest := StructuredTitle + ";" + enc; var n := |StructuredTitle|;
      IndexOfChar(rest, ';', 0) == n && rest[..n] == StructuredTitle && rest[n + 1..] == enc
  {
    var rest := StructuredTitle + ";" + enc;
    var n := |StructuredTitle|;
    assert rest[n] == ';';
    IndexOfCharFirst(rest, ';', 0);
    assert forall i :: 0 <= i < n ==> rest[i] == StructuredTitle[i];
    assert rest[..n] == StructuredTitle;
    assert rest[n + 1..] == enc;
  }

  /** What follows `777;notify;` in a built frame parses to what validation makes of the
      value. */
  lemma NotificationParses(codec: Codec, enc: string, text: string, j: Json)
    requires enc != [] && UrlText(enc) && text != []
    requires Base64.DecodeUrl(enc).Some? && codec.utf8Decode(Base64.DecodeUrl(enc).value) == text
    requires codec.parse(text) == Some(j)
    ensures ParseNotification(codec, StructuredTitle + ";" + enc)
      == if ValidatePayload(j).Some? then Structured(ValidatePayload(j).value)
         else Skipped("Structured OSC skipped: schema validation failed")
  {
    UrlTight(enc);
    TitleSplit(enc);
    assert DecodeBase64Url(codec, enc) == Some(text);
  }

  lemma SplitConcat(a: string, b: string)
    ensures (a + b)[..|a|] == a && (a + b)[|a|..] == b
  {
  }

  /** Content made of the fixed head and an encoding of JSON text parses to what validation
      makes of the value. */
  lemma ContentParses(codec: Codec, enc: string, text: string, j: Json)
    requires enc != [] && UrlText(enc) && text != []
    requires Base64.DecodeUrl(enc).Some? && codec.utf8Decode(Base64.DecodeUrl(enc).value) == text
    requires codec.parse(text) == Some(j)
    ensures TryParseStructuredEvent(codec, Trim(Head() + enc))
      == if ValidatePayload(j).Some? then Structured(ValidatePayload(j).value)
         else Skipped("Structured OSC skipped: schema validation failed")
  {
    var c := Head() + enc;
    var rest := StructuredTitle + ";" + enc;
    UrlTight(enc);
    TryParseSpec(codec, c);
    ConcatAssoc(NotifyPrefix + StructuredTitle, ";", enc);
    ConcatAssoc(NotifyPrefix, StructuredTitle, ";" + enc);
    ConcatAssoc(StructuredTitle, ";", enc);
    assert c == NotifyPrefix + rest;
    SplitConcat(NotifyPrefix, rest);
    NotificationParses(codec, enc, text, j);
  }

  /** The content of a built frame parses back to what validation makes of the payload. */
  lemma BuiltContentParses(codec: Codec, j: Json)
    requires Utf8RoundTrips(codec) && JsonRoundTrips(codec) && Wire(j)
    ensures var c := FrameContent(codec, j);
      TryParseStructuredEvent(codec, Trim(c))
      == if ValidatePayload(j).Some? then Structured(ValidatePayload(j).value)
         else Skipped("Structured OSC skipped: schema validation failed")
  {
    var enc := EncodeBase64Url(codec, codec.stringify(j));
    EncodedShape(codec, j);
    assert codec.utf8Decode(codec.utf8Encode(codec.stringify(j))) == codec.stringify(j);
    assert FrameContent(codec, j) == Head() + enc;
    ContentParses(codec, enc, codec.stringify(j), j);
  }

  /** A built frame, fed whole, yields the validated payload and leaves nothing pending. */
  lemma BuiltFrameEvents(codec: Codec, j: Json)
    requires Utf8RoundTrips(codec) && JsonRoundTrips(codec) && Wire(j)
    ensures var r := Scan(BuildOsc(codec, j));
      r.rest == []
      && Events(codec, r.contents) == if ValidatePayload(j).Some? then [ValidatePayload(j).value] else []
  {
    BuiltFrameScans(codec, j);
    BuiltContentParses(codec, j);
    assert [FrameContent(codec, j)][1..] == [];
  }

  /** An approval request reaches the extension as the payload the plugin meant. */
  lemma ApprovalDelivered(codec: Codec, event: Json, timestamp: nat)
    requires Utf8RoundTrips(codec) && JsonRoundTrips(codec)
    ensures var r := Scan(BuildOsc(codec, ApprovalPayload(event, timestamp)));
      r.rest == [] && Events(codec, r.contents) == [Payload(
        OpenCode, ApprovalRequested, Warning, Some("OpenCode: Approval Requested"), ApprovalMessageOf(event),
        timestamp as real, SessionIdOf(event), PermissionIdOf(event), None,
        Some("opencode:approval_requested:" + OrEmpty(SessionIdOf(event)) + ":" + ApprovalToken(event, timestamp)))]
  {
    ApprovalValidates(event, timestamp);
    BuiltFrameEvents(codec, ApprovalPayload(event, timestamp));
  }

  /** A turn completion reaches the extension as the payload the plugin meant. */
  lemma TurnCompleteDelivered(codec: Codec, sessionId: Option<string>, token: string, timestamp: nat)
    requires Utf8RoundTrips(codec) && JsonRoundTrips(codec)
    ensures var r := Scan(BuildOsc(codec, TurnCompletePayload(sessionId, token, timestamp)));
      r.rest == [] && Events(codec, r.contents) == [Payload(
        OpenCode, TurnComplete, Status.Success, Some("OpenCode: Turn Complete"), TurnCompleteMessage,
        timestamp as real, if Truthy(sessionId) then sessionId else None, None, None,
        Some("opencode:turn_complete:" + OrEmpty(sessionId) + ":" + token))]
  {
    TurnCompleteValidates(sessionId, token, timestamp);
    BuiltFrameEvents(codec, TurnCompletePayload(sessionId, token, timestamp));
  }

  /** Cut into two chunks anywhere after its `ESC ]`, a built frame yields the same events
      as fed whole; cut between `ESC` and `]`, it yields nothing. */
  lemma BuiltFrameSplit(codec: Codec, j: Json, k: nat)
    requires Utf8RoundTrips(codec) && JsonRoundTrips(codec) && Wire(j)
    requires k <= |BuildOsc(codec, j)|
    ensures var f := BuildOsc(codec, j);
      var first := Scan(f[..k]);
      var second := Scan(first.rest + f[k..]);
      var whole := Events(codec, Scan(f).contents);
      (k >= 2 ==> Events(codec, first.contents) + Events(codec, second.contents) == whole && second.rest == [])
      && (k == 1 ==> first.contents == [] && second.contents == [])
  {
    var c := FrameContent(codec, j);
    BuiltFrameScans(codec, j);
    if k >= 2 {
      SplitAfterPrefix(codec, c, [Bel], k);
    } else if k == 1 {
      SplitInsidePrefix(c, [Bel]);
    }
  }
}
