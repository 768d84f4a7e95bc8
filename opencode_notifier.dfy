/** The OpenCode plugin (adapters/opencode/agent-task-notifier.js): it maps OpenCode events to
    version-1 payloads, encodes them as OSC notification frames, and gives the turn-complete
    events of one session a shared token for 1.5 seconds so that repeated idle signals
    collapse into one notification. The clock is a parameter; the emission through a shell
    script is not modelled. */
module OpenCodeNotifier {
  import opened Wrappers
  import opened Json
  import opened Types
  import opened Serialization
  import Base64
  import opened Parser
  import opened Text

  const TurnCompleteMessage: string := "OpenCode finished current turn"
  const ApprovalMessage: string := "OpenCode requires approval"
  const DuplicateIdleWindowMs: int := 1500
  const TurnTokenTtlMs: int := 10 * 60 * 1000
  const UnknownSession: string := "__unknown__"

  /** `encodeBase64Url`: standard base64 of the UTF-8 bytes, made URL-safe and unpadded. */
  function EncodeBase64Url(codec: Codec, value: string): string {
    Base64.EncodeUrl(codec.utf8Encode(value))
  }

  /** The content of the frame `buildOsc` writes, between `ESC ]` and BEL. */
  function FrameContent(codec: Codec, payload: Json): string {
    NotifyPrefix + StructuredTitle + ";" + EncodeBase64Url(codec, codec.stringify(payload))
  }

  /** `buildOsc`: the payload as an OSC 777 notification closed by BEL. */
  function BuildOsc(codec: Codec, payload: Json): (r: string)
    ensures r == OscPrefix + FrameContent(codec, payload) + [Bel]
  {
    var encoded := EncodeBase64Url(codec, codec.stringify(payload));
    RegroupOsc(encoded);
    [Esc] + "]777;notify;" + StructuredTitle + ";" + encoded + [Bel]
  }

  lemma RegroupOsc(x: string)
    ensures [Esc] + "]777;notify;" + StructuredTitle + ";" + x + [Bel] == OscPrefix + (NotifyPrefix + StructuredTitle + ";" + x) + [Bel]
  {
    assert [Esc] + "]777;notify;" == OscPrefix + NotifyPrefix;
  }

  /** The token stored for a session and the time it was issued. */
  datatype TurnToken = TurnToken(token: string, timestamp: int)

  /** `sessionId ?? "__unknown__"`. */
  function SessionKey(sessionId: Option<string>): string {
    if sessionId.Some? then sessionId.value else UnknownSession
  }

  /** The entries `pruneTurnTokens` keeps: those at most ten minutes old. */
  function PrunedTokens(m: map<string, TurnToken>, now: int): (r: map<string, TurnToken>)
    ensures forall k :: k in r <==> k in m && now - m[k].timestamp <= TurnTokenTtlMs
    ensures forall k :: k in r ==> r[k] == m[k]
  {
    map k | k in m && now - m[k].timestamp <= TurnTokenTtlMs :: m[k]
  }

  /** The token `resolveTurnToken` returns and the map it leaves. */
  datatype Resolution = Resolution(token: string, tokens: map<string, TurnToken>)

  function Resolve(m: map<string, TurnToken>, sessionId: Option<string>, timestamp: nat): Resolution {
    var p := PrunedTokens(m, timestamp);
    var key := SessionKey(sessionId);
    if key in p && timestamp - p[key].timestamp <= DuplicateIdleWindowMs then Resolution(p[key].token, p)
    else
      var token := DecimalString(timestamp);
      Resolution(token, p[key := TurnToken(token, timestamp)])
  }

  /** Inside the reuse window the stored token comes back and its time is not refreshed;
      otherwise the clock reading becomes the token and is stored with the time. Other
      sessions keep their entries unless they expired. */
  lemma ResolveSpec(m: map<string, TurnToken>, sessionId: Option<string>, timestamp: nat)
    ensures var r := Resolve(m, sessionId, timestamp); var key := SessionKey(sessionId);
      var reuse := key in m && timestamp - m[key].timestamp <= DuplicateIdleWindowMs;
      (reuse ==> r.token == m[key].token && r.tokens[key] == m[key])
      && (!reuse ==> r.token == DecimalString(timestamp) && r.tokens[key] == TurnToken(r.token, timestamp))
      && (forall k :: k != key ==> (k in r.tokens <==> k in m && timestamp - m[k].timestamp <= TurnTokenTtlMs))
      && (forall k :: k != key && k in r.tokens ==> r.tokens[k] == m[k])
  {
  }

  /** Reuse without refresh: idle signals at t, t + 1000 and t + 2000 of one session share the
      first token for the second signal, but the third, being 2000 ms after the stored time,
      gets a new one. */
  lemma ReuseDoesNotRefresh(sessionId: Option<string>, t: nat)
    ensures var r0 := Resolve(map[], sessionId, t);
      var r1 := Resolve(r0.tokens, sessionId, t + 1000);
      var r2 := Resolve(r1.tokens, sessionId, t + 2000);
      r1.token == r0.token && r2.token == DecimalString(t + 2000) && r2.token != r0.token
  {
    var key := SessionKey(sessionId);
    var r0 := Resolve(map[], sessionId, t);
    assert r0.tokens == map[key := TurnToken(DecimalString(t), t)];
    var r1 := Resolve(r0.tokens, sessionId, t + 1000);
    assert r1.tokens == r0.tokens;
    DecimalInjective(t, t + 2000);
  }

  /** The module-level `sessionTurnTokens` map of the plugin. */
  class TurnTokens {
    var sessionTurnTokens: map<string, TurnToken>

    constructor()
      ensures sessionTurnTokens == map[]
    {
      sessionTurnTokens := map[];
    }

    /** `pruneTurnTokens`: visits every entry and deletes those older than ten minutes. */
    method PruneTurnTokens(timestamp: int)
      modifies this
      ensures sessionTurnTokens == PrunedTokens(old(sessionTurnTokens), timestamp)
    {
      ghost var original := sessionTurnTokens;
      var keys := sessionTurnTokens.Keys;
      while keys != {}
        invariant keys <= original.Keys
        invariant forall k :: k in sessionTurnTokens <==>
          k in original && (k in keys || timestamp - original[k].timestamp <= TurnTokenTtlMs)
        invariant forall k :: k in sessionTurnTokens ==> sessionTurnTokens[k] == original[k]
        decreases |keys|
      {
        var k :| k in keys;
        if timestamp - sessionTurnTokens[k].timestamp > TurnTokenTtlMs {
          sessionTurnTokens := sessionTurnTokens - {k};
        }
        keys := keys - {k};
      }
      assert sessionTurnTokens == PrunedTokens(original, timestamp);
    }

    /** `resolveTurnToken`. */
    method ResolveTurnToken(sessionId: Option<string>, timestamp: nat) returns (token: string)
      modifies this
      ensures Resolution(token, sessionTurnTokens) == Resolve(old(sessionTurnTokens), sessionId, timestamp)
    {
      PruneTurnTokens(timestamp);
      var key := SessionKey(sessionId);
      if key in sessionTurnTokens && timestamp - sessionTurnTokens[key].timestamp <= DuplicateIdleWindowMs {
        return sessionTurnTokens[key].token;
      }
      token := DecimalString(timestamp);
      sessionTurnTokens := sessionTurnTokens[key := TurnToken(token, timestamp)];
    }

    /** `buildTurnCompleteEvent`. */
    method BuildTurnCompleteEvent(event: Json, timestamp: nat) returns (payload: Json)
      modifies this
      ensures var r := Resolve(old(sessionTurnTokens), SessionIdOf(event), timestamp);
        payload == TurnCompletePayload(SessionIdOf(event), r.token, timestamp)
        && sessionTurnTokens == r.tokens
    {
      var sessionId := SessionIdOf(event);
      var token := ResolveTurnToken(sessionId, timestamp);
      payload := TurnCompletePayload(sessionId, token, timestamp);
    }

    /** `toAgentEvent`: the payload for an event the plugin reports, nothing for any other;
        only turn-complete events touch the token map. */
    method ToAgentEvent(event: Json, timestamp: nat) returns (payload: Option<Json>)
      modifies this
      ensures Classify(event) == Ignored ==> payload == None && sessionTurnTokens == old(sessionTurnTokens)
      ensures Classify(event) == PermissionAsked ==>
        payload == Some(ApprovalPayload(event, timestamp)) && sessionTurnTokens == old(sessionTurnTokens)
      ensures Classify(event) == TurnEnded ==>
        var r := Resolve(old(sessionTurnTokens), SessionIdOf(event), timestamp);
        payload == Some(TurnCompletePayload(SessionIdOf(event), r.token, timestamp))
        && sessionTurnTokens == r.tokens
    {
      match Classify(event)
      case Ignored => payload := None;
      case PermissionAsked => payload := Some(ApprovalPayload(event, timestamp));
      case TurnEnded =>
        var p := BuildTurnCompleteEvent(event, timestamp);
        payload := Some(p);
    }
  }

  /** What `toAgentEvent` makes of an event. */
  datatype Reaction = TurnEnded | PermissionAsked | Ignored

  /** The guards of `toAgentEvent`: anything that is not an object is ignored; `session.idle`,
      and `session.status` with an idle status, end a turn; the two permission events ask
      for approval. */
  function Classify(event: Json): Reaction {
    if !(event.JObject? || event.JArray?) then Ignored
    else
      var kind := Prop(event, "type");
      if kind == Some(JString("session.idle")) then TurnEnded
      else if kind == Some(JString("session.status"))
        && PropOf(PropOf(Prop(event, "properties"), "status"), "type") == Some(JString("idle")) then TurnEnded
      else if kind == Some(JString("permission.updated")) || kind == Some(JString("permission.asked")) then PermissionAsked
      else Ignored
  }

  /** `event?.properties ?? {}` read at key `k`: a missing or null `properties` reads as an
      empty object. */
  function Property(event: Json, k: string): Option<Json> {
    PropOf(Prop(event, "properties"), k)
  }

  function SessionIdOf(event: Json): Option<string> {
    MaybeString(Property(event, "sessionID"))
  }

  /** `maybeString(properties.id) ?? maybeString(properties.permissionID)`. */
  function PermissionIdOf(event: Json): Option<string> {
    var id := MaybeString(Property(event, "id"));
    if id.Some? then id else MaybeString(Property(event, "permissionID"))
  }

  function ApprovalMessageOf(event: Json): string {
    var m := MaybeString(Property(event, "message"));
    if m.Some? then m.value else ApprovalMessage
  }

  /** `permissionId ?? String(timestamp)`. */
  function ApprovalToken(event: Json, timestamp: nat): string {
    var pid := PermissionIdOf(event);
    if pid.Some? then pid.value else DecimalString(timestamp)
  }

  function OrEmpty(o: Option<string>): string {
    if o.Some? then o.value else ""
  }

  /** JavaScript truthiness of an optional string. */
  predicate Truthy(o: Option<string>) {
    o.Some? && o.value != []
  }

  /** `if (x) payload.key = x` on an object that has no member `key` yet, which is how the
      plugin uses it: a truthy value is appended as the last member. */
  function AddIfPresent(ms: seq<(string, Json)>, key: string, o: Option<string>): seq<(string, Json)> {
    if Truthy(o) then ms + [(key, JString(o.value))] else ms
  }

  /** On an object without the key, appending is the property write. */
  lemma AddIfPresentIsWrite(ms: seq<(string, Json)>, key: string, o: Option<string>)
    requires Get(ms, key).None?
    ensures Truthy(o) ==> AddIfPresent(ms, key, o) == Set(ms, key, JString(o.value))
    ensures !Truthy(o) ==> AddIfPresent(ms, key, o) == ms
  {
    if Truthy(o) {
      SetAbsent(ms, key, JString(o.value));
    }
  }

  /** The fields every payload of the plugin starts with, in the order of the object literal. */
  function Common(event: string, status: string, title: string, message: string, timestamp: nat, dedupeKey: string): seq<(string, Json)> {
    [("version", JNumber(Finite(1.0))),
     ("source", JString("opencode")),
     ("event", JString(event)),
     ("status", JString(status)),
     ("title", JString(title)),
     ("message", JString(message)),
     ("createdAt", JNumber(Finite(timestamp as real))),
     ("dedupeKey", JString(dedupeKey))]
  }

  /** The object `buildTurnCompleteEvent` returns for a session id and a token. */
  function TurnCompletePayload(sessionId: Option<string>, token: string, timestamp: nat): Json {
    var dedupeKey := "opencode:turn_complete:" + OrEmpty(sessionId) + ":" + token;
    JObject(AddIfPresent(
      Common("turn_complete", "success", "OpenCode: Turn Complete", TurnCompleteMessage, timestamp, dedupeKey),
      "sessionId", sessionId))
  }

  /** `buildApprovalEvent`. */
  function ApprovalPayload(event: Json, timestamp: nat): Json {
    var sessionId := SessionIdOf(event);
    var permissionId := PermissionIdOf(event);
    var dedupeKey := "opencode:approval_requested:" + OrEmpty(sessionId) + ":" + ApprovalToken(event, timestamp);
    var o := Common("approval_requested", "warning", "OpenCode: Approval Requested", ApprovalMessageOf(event), timestamp, dedupeKey);
    JObject(AddIfPresent(AddIfPresent(o, "sessionId", sessionId), "taskId", permissionId))
  }

  /** The common fields survive `JSON.stringify`: their numbers are finite and their keys
      are distinct names. */
  lemma CommonWire(event: string, status: string, title: string, message: string, timestamp: nat, dedupeKey: string)
    ensures WireMembers(Common(event, status, title, message, timestamp, dedupeKey))
  {
    var ms := Common(event, status, title, message, timestamp, dedupeKey);
    NamesWire(ms);
  }

  /** Appending a name that is not there yet keeps a payload serialisable. */
  lemma AddIfPresentWire(ms: seq<(string, Json)>, key: string, o: Option<string>)
    requires WireMembers(ms) && !IsIndexKey(key) && Get(ms, key).None?
    ensures WireMembers(AddIfPresent(ms, key, o))
  {
    AddIfPresentIsWrite(ms, key, o);
    if Truthy(o) {
      SetWire(ms, key, JString(o.value));
    }
  }

  /** What the common fields read back as. */
  lemma CommonGets(ms: seq<(string, Json)>, event: string, status: string, title: string, message: string, timestamp: nat, dedupeKey: string)
    requires ms == Common(event, status, title, message, timestamp, dedupeKey)
    ensures Get(ms, "version") == Some(JNumber(Finite(1.0)))
    ensures Get(ms, "source") == Some(JString("opencode"))
    ensures Get(ms, "event") == Some(JString(event))
    ensures Get(ms, "status") == Some(JString(status))
    ensures Get(ms, "title") == Some(JString(title))
    ensures Get(ms, "message") == Some(JString(message))
    ensures Get(ms, "createdAt") == Some(JNumber(Finite(timestamp as real)))
    ensures Get(ms, "dedupeKey") == Some(JString(dedupeKey))
  {
    GetFirst(ms, "version", 0);
    GetFirst(ms, "source", 1);
    GetFirst(ms, "event", 2);
    GetFirst(ms, "status", 3);
    GetFirst(ms, "title", 4);
    GetFirst(ms, "message", 5);
    GetFirst(ms, "createdAt", 6);
    GetFirst(ms, "dedupeKey", 7);
  }

  /** The common fields carry no session, task or turn id. */
  lemma CommonWithoutIds(ms: seq<(string, Json)>, event: string, status: string, title: string, message: string, timestamp: nat, dedupeKey: string)
    requires ms == Common(event, status, title, message, timestamp, dedupeKey)
    ensures Get(ms, "sessionId") == None && Get(ms, "taskId") == None && Get(ms, "turnId") == None
  {
    assert Get(ms, "sessionId") == None by { GetSpec(ms, "sessionId"); }
    assert Get(ms, "taskId") == None by { GetSpec(ms, "taskId"); }
    assert Get(ms, "turnId") == None by { GetSpec(ms, "turnId"); }
  }

  /** A conditional append adds the key exactly when the value is truthy and the key is not
      there yet, and touches no other key. */
  lemma AddIfPresentGets(ms: seq<(string, Json)>, key: string, o: Option<string>)
    ensures forall k ::
      Get(AddIfPresent(ms, key, o), k)
      == (if Get(ms, k).Some? then Get(ms, k) else if k == key && Truthy(o) then Some(JString(o.value)) else None)
  {
    if Truthy(o) {
      GetSnoc(ms, key, JString(o.value));
    }
  }

  /** Appending the optional session id and task id to the common fields keeps every field
      already there and adds each of the two only when it is truthy. */
  lemma OptionalFields(c: seq<(string, Json)>, sessionId: Option<string>, taskId: Option<string>)
    requires Get(c, "sessionId") == None && Get(c, "taskId") == None && Get(c, "turnId") == None
    ensures var ms := AddIfPresent(AddIfPresent(c, "sessionId", sessionId), "taskId", taskId);
      (forall k :: Get(c, k).Some? ==> Get(ms, k) == Get(c, k))
      && Get(ms, "sessionId") == (if Truthy(sessionId) then Some(JString(sessionId.value)) else None)
      && Get(ms, "taskId") == (if Truthy(taskId) then Some(JString(taskId.value)) else None)
      && Get(ms, "turnId") == None
      && (WireMembers(c) ==> WireMembers(ms))
  {
    var c1 := AddIfPresent(c, "sessionId", sessionId);
    AddIfPresentGets(c, "sessionId", sessionId);
    AddIfPresentGets(c1, "taskId", taskId);
    if WireMembers(c) {
      AddIfPresentWire(c, "sessionId", sessionId);
      AddIfPresentWire(c1, "taskId", taskId);
    }
  }

  /** An object made of fields that spell out a payload, followed by its optional session
      id and task id, is accepted as that payload. */
  lemma ValidatesFrom(c: seq<(string, Json)>, sessionId: Option<string>, taskId: Option<string>, p: Payload)
    requires Get(c, "version") == Some(JNumber(Finite(1.0)))
    requires Get(c, "source") == Some(JString(SourceName(p.source)))
    requires Get(c, "event") == Some(JString(EventName(p.event)))
    requires Get(c, "status") == Some(JString(StatusName(p.status)))
    requires p.title.Some? && p.title.value != [] && Get(c, "title") == Some(JString(p.title.value))
    requires Get(c, "message") == Some(JString(p.message))
    requires Get(c, "createdAt") == Some(JNumber(Finite(p.createdAt)))
    requires p.dedupeKey.Some? && p.dedupeKey.value != [] && Get(c, "dedupeKey") == Some(JString(p.dedupeKey.value))
    requires Get(c, "sessionId") == None && Get(c, "taskId") == None && Get(c, "turnId") == None
    requires p.sessionId == (if Truthy(sessionId) then sessionId else None)
    requires p.taskId == (if Truthy(taskId) then taskId else None) && p.turnId == None
    ensures ValidatePayload(JObject(AddIfPresent(AddIfPresent(c, "sessionId", sessionId), "taskId", taskId))) == Some(p)
  {
    var ms := AddIfPresent(AddIfPresent(c, "sessionId", sessionId), "taskId", taskId);
    OptionalFields(c, sessionId, taskId);
    KeptField(c, ms, "version");
    KeptField(c, ms, "source");
    KeptField(c, ms, "event");
    KeptField(c, ms, "status");
    KeptField(c, ms, "title");
    KeptField(c, ms, "message");
    KeptField(c, ms, "createdAt");
    KeptField(c, ms, "dedupeKey");
    ValidateOf(JObject(ms), p);
  }

  /** A field of the common part reads the same after the optional ids. */
  lemma KeptField(c: seq<(string, Json)>, ms: seq<(string, Json)>, k: string)
    requires forall k :: Get(c, k).Some? ==> Get(ms, k) == Get(c, k)
    requires Get(c, k).Some?
    ensures Get(ms, k) == Get(c, k)
  {
  }

  /** Every turn-complete payload passes `validatePayload`, as this exact event: no task id,
      the session id only when there is one, and the session and token in its dedupe key. */
  lemma TurnCompleteValidates(sessionId: Option<string>, token: string, timestamp: nat)
    ensures var v := TurnCompletePayload(sessionId, token, timestamp);
      Wire(v)
      && ValidatePayload(v) == Some(Payload(
        OpenCode, TurnComplete, Status.Success, Some("OpenCode: Turn Complete"), TurnCompleteMessage,
        timestamp as real, if Truthy(sessionId) then sessionId else None, None, None,
        Some("opencode:turn_complete:" + OrEmpty(sessionId) + ":" + token)))
  {
    var dedupeKey := "opencode:turn_complete:" + OrEmpty(sessionId) + ":" + token;
    var c := Common("turn_complete", "success", "OpenCode: Turn Complete", TurnCompleteMessage, timestamp, dedupeKey);
    CommonWire("turn_complete", "success", "OpenCode: Turn Complete", TurnCompleteMessage, timestamp, dedupeKey);
    CommonGets(c, "turn_complete", "success", "OpenCode: Turn Complete", TurnCompleteMessage, timestamp, dedupeKey);
    CommonWithoutIds(c, "turn_complete", "success", "OpenCode: Turn Complete", TurnCompleteMessage, timestamp, dedupeKey);
    OptionalFields(c, sessionId, None);
    ValidatesFrom(c, sessionId, None, Payload(
      OpenCode, TurnComplete, Status.Success, Some("OpenCode: Turn Complete"), TurnCompleteMessage,
      timestamp as real, if Truthy(sessionId) then sessionId else None, None, None, Some(dedupeKey)));
  }

  /** Every approval payload passes `validatePayload`: the task id is the permission id when
      there is one, the message falls back to the default, and the dedupe key carries the
      session and the permission id, or the clock reading without one. */
  lemma ApprovalValidates(event: Json, timestamp: nat)
    ensures var v := ApprovalPayload(event, timestamp);
      Wire(v)
      && ValidatePayload(v) == Some(Payload(
        OpenCode, ApprovalRequested, Warning, Some("OpenCode: Approval Requested"), ApprovalMessageOf(event),
        timestamp as real, SessionIdOf(event), PermissionIdOf(event), None,
        Some("opencode:approval_requested:" + OrEmpty(SessionIdOf(event)) + ":" + ApprovalToken(event, timestamp))))
  {
    var sessionId, permissionId := SessionIdOf(event), PermissionIdOf(event);
    var dedupeKey := "opencode:approval_requested:" + OrEmpty(sessionId) + ":" + ApprovalToken(event, timestamp);
    var c := Common("approval_requested", "warning", "OpenCode: Approval Requested", ApprovalMessageOf(event), timestamp, dedupeKey);
    CommonWire("approval_requested", "warning", "OpenCode: Approval Requested", ApprovalMessageOf(event), timestamp, dedupeKey);
    CommonGets(c, "approval_requested", "warning", "OpenCode: Approval Requested", ApprovalMessageOf(event), timestamp, dedupeKey);
    CommonWithoutIds(c, "approval_requested", "warning", "OpenCode: Approval Requested", ApprovalMessageOf(event), timestamp, dedupeKey);
    OptionalFields(c, sessionId, permissionId);
    assert sessionId == (if Truthy(sessionId) then sessionId else None);
    assert permissionId == (if Truthy(permissionId) then permissionId else None);
    ValidatesFrom(c, sessionId, permissionId, Payload(
      OpenCode, ApprovalRequested, Warning, Some("OpenCode: Approval Requested"), ApprovalMessageOf(event),
      timestamp as real, sessionId, permissionId, None, Some(dedupeKey)));
  }
}
