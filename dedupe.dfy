/** The duplicate-notification filter `EventDedupe` (src/dedupe.ts). It remembers when each
    event key was last let through, suppresses a repeat inside the configured window, and
    forgets old keys lazily on every call. The clock and the window provider are read once
    per call; here both are parameters. */
module Dedupe {
  import opened Text
  import opened Types

  /** Hold-off for keys, in milliseconds: old entries are dropped once they are older than
      four windows and at least a minute. */
  const MinRetention: int := 60000

  /** `trim().toLowerCase().replace(/\s+/g, ' ')`. */
  function NormalizeMessage(m: string): string {
    Collapse(ToLowerAscii(Trim(m)))
  }

  /** `buildKey`: the terminal id and the event's own dedupe key when it has a non-empty one,
      otherwise the terminal id, the three literals and the normalised message. */
  function BuildKey(e: AgentEvent): string {
    var p := e.payload;
    if p.dedupeKey.Some? && p.dedupeKey.value != [] then e.terminalId + ":" + p.dedupeKey.value
    else
      e.terminalId + ":" + SourceName(p.source) + ":" + EventName(p.event) + ":"
      + StatusName(p.status) + ":" + NormalizeMessage(p.message)
  }

  /** The normalised message is the message's lower-cased words joined by single spaces. */
  lemma NormalizeIsWords(m: string)
    ensures NormalizeMessage(m) == JoinWords(Words(ToLowerAscii(m)))
  {
    LowerCommutesWithTrim(m);
    CollapseOfTrim(ToLowerAscii(m));
  }

  /** Two events without a dedupe key whose messages have the same words up to ASCII case,
      and which agree on terminal and literals, get the same key. */
  lemma SameWordsSameKey(e1: AgentEvent, e2: AgentEvent)
    requires e1.payload.dedupeKey.None? && e2.payload.dedupeKey.None?
    requires e1.terminalId == e2.terminalId
    requires e1.payload.source == e2.payload.source && e1.payload.event == e2.payload.event
    requires e1.payload.status == e2.payload.status
    requires Words(ToLowerAscii(e1.payload.message)) == Words(ToLowerAscii(e2.payload.message))
    ensures BuildKey(e1) == BuildKey(e2)
  {
    NormalizeIsWords(e1.payload.message);
    NormalizeIsWords(e2.payload.message);
  }

  /** Different non-empty dedupe keys on the same terminal give different keys. */
  lemma DistinctDedupeKeys(e1: AgentEvent, e2: AgentEvent)
    requires e1.terminalId == e2.terminalId
    requires e1.payload.dedupeKey.Some? && e1.payload.dedupeKey.value != []
    requires e2.payload.dedupeKey.Some? && e2.payload.dedupeKey.value != []
    requires e1.payload.dedupeKey != e2.payload.dedupeKey
    ensures BuildKey(e1) != BuildKey(e2)
  {
    var h := e1.terminalId + ":";
    var k1, k2 := e1.payload.dedupeKey.value, e2.payload.dedupeKey.value;
    assert BuildKey(e1) == h + k1 && BuildKey(e2) == h + k2;
    assert (h + k1)[|h|..] == k1 && (h + k2)[|h|..] == k2;
  }

  /** A JavaScript number as the window provider may return it (a `number` setting): a
      finite value, one of the two infinities, or NaN. Timestamps are whole milliseconds. */
  datatype JsNumber = Num(r: real) | PosInfinity | NegInfinity | NaN

  function RMax(a: real, b: real): real {
    if a >= b then a else b
  }

  /** `a < b` for a finite `a`: false whenever `b` is NaN. */
  predicate Less(a: real, b: JsNumber) {
    match b
    case Num(r) => a < r
    case PosInfinity => true
    case NegInfinity => false
    case NaN => false
  }

  /** `Math.max(0, w)`: NaN stays NaN, and a negative value or -Infinity becomes 0. */
  function ClampWindow(w: JsNumber): (c: JsNumber)
    ensures c != NegInfinity && (c.Num? ==> c.r >= 0.0)
    ensures w.Num? && w.r >= 0.0 ==> c == w
    ensures w == PosInfinity || w == NaN ==> c == w
    ensures w == NegInfinity || (w.Num? && w.r < 0.0) ==> c == Num(0.0)
  {
    match w
    case Num(r) => Num(RMax(0.0, r))
    case NegInfinity => Num(0.0)
    case _ => w
  }

  /** `now - Math.max(windowMs * 4, 60_000)`: entries older than this are forgotten. An
      infinite window gives -Infinity and a NaN window gives NaN, below which nothing lies. */
  function Threshold(now: int, windowMs: JsNumber): JsNumber {
    match windowMs
    case Num(r) => Num(now as real - RMax(4.0 * r, MinRetention as real))
    case NegInfinity => Num(now as real - MinRetention as real)
    case PosInfinity => NegInfinity
    case NaN => NaN
  }

  /** The entries `prune` keeps: those not older than the threshold. */
  function Pruned(m: map<string, int>, now: int, windowMs: JsNumber): (r: map<string, int>)
    ensures forall k :: k in r <==> k in m && !Less(m[k] as real, Threshold(now, windowMs))
    ensures forall k :: k in r ==> r[k] == m[k]
  {
    map k | k in m && !Less(m[k] as real, Threshold(now, windowMs)) :: m[k]
  }

  /** An infinite or NaN window prunes nothing. */
  lemma PruneNothing(m: map<string, int>, now: int, windowMs: JsNumber)
    requires windowMs == PosInfinity || windowMs == NaN
    ensures Pruned(m, now, windowMs) == m
  {
  }

  /** An entry that would still suppress a repeat under a clamped window is never pruned. */
  lemma PruneKeepsSuppressors(m: map<string, int>, now: int, windowMs: JsNumber, k: string)
    requires windowMs == ClampWindow(windowMs) && k in m && Less((now - m[k]) as real, windowMs)
    ensures k in Pruned(m, now, windowMs) && Pruned(m, now, windowMs)[k] == m[k]
  {
  }

  /** The decision of `shouldEmit` and the map it leaves, for a key, a clock reading and a
      window as the provider returns it. */
  datatype Decision = Decision(emit: bool, timestamps: map<string, int>)

  function Decide(m: map<string, int>, key: string, now: int, windowSetting: JsNumber): (d: Decision)
    ensures var w := ClampWindow(windowSetting); var p := Pruned(m, now, w);
      (d.emit <==> !(key in p && Less((now - p[key]) as real, w)))
      && (d.emit ==> d.timestamps == p[key := now])
      && (!d.emit ==> d.timestamps == p)
  {
    var w := ClampWindow(windowSetting);
    var p := Pruned(m, now, w);
    if key in p && Less((now - p[key]) as real, w) then Decision(false, p) else Decision(true, p[key := now])
  }

  /** A suppressed event leaves the time of the earlier one in place, so a stream of
      repeats cannot keep extending the window. */
  lemma SuppressedDoesNotExtend(m: map<string, int>, key: string, now: int, windowSetting: JsNumber)
    requires !Decide(m, key, now, windowSetting).emit
    ensures key in m && Decide(m, key, now, windowSetting).timestamps[key] == m[key]
    ensures Less((now - m[key]) as real, ClampWindow(windowSetting))
  {
  }

  /** With a clock that never runs backwards, a window of zero or less lets every event
      through. */
  lemma ZeroWindowEmits(m: map<string, int>, key: string, now: int, windowSetting: JsNumber)
    requires windowSetting == NegInfinity || (windowSetting.Num? && windowSetting.r <= 0.0)
    requires forall k :: k in m ==> m[k] <= now
    ensures Decide(m, key, now, windowSetting).emit
  {
  }

  /** A NaN window lets every event through, stamps it, and forgets nothing. */
  lemma NaNWindowEmits(m: map<string, int>, key: string, now: int)
    ensures Decide(m, key, now, NaN) == Decision(true, m[key := now])
  {
    PruneNothing(m, now, NaN);
  }

  /** An infinite window suppresses every repeat of a key ever recorded, and forgets
      nothing. */
  lemma InfiniteWindowSuppresses(m: map<string, int>, key: string, now: int)
    ensures Decide(m, key, now, PosInfinity) == if key in m then Decision(false, m) else Decision(true, m[key := now])
  {
    PruneNothing(m, now, PosInfinity);
  }

  /** A fractional window of half a millisecond suppresses a repeat in the same millisecond
      and lets through one a millisecond later. */
  lemma FractionalWindowExample(key: string)
    ensures var d0 := Decide(map[], key, 0, Num(0.5));
      var d1 := Decide(d0.timestamps, key, 0, Num(0.5));
      var d2 := Decide(d1.timestamps, key, 1, Num(0.5));
      d0.emit && !d1.emit && d2.emit
  {
    var d0 := Decide(map[], key, 0, Num(0.5));
    assert d0.timestamps == map[key := 0];
    var d1 := Decide(d0.timestamps, key, 0, Num(0.5));
    assert d1.timestamps == map[key := 0];
  }

  /** The 3000 ms example: an event at 0 passes, its repeat at 2999 is suppressed, and the
      repeat at 3001 passes again. */
  lemma WindowExample(key: string)
    ensures var d0 := Decide(map[], key, 0, Num(3000.0));
      var d1 := Decide(d0.timestamps, key, 2999, Num(3000.0));
      var d2 := Decide(d1.timestamps, key, 3001, Num(3000.0));
      d0.emit && !d1.emit && d2.emit
  {
    var d0 := Decide(map[], key, 0, Num(3000.0));
    assert d0.timestamps == map[key := 0];
    var d1 := Decide(d0.timestamps, key, 2999, Num(3000.0));
    assert d1.timestamps == map[key := 0];
  }

  class EventDedupe {
    var eventTimestamps: map<string, int>

    constructor()
      ensures eventTimestamps == map[]
    {
      eventTimestamps := map[];
    }

    /** `shouldEmit`: prune with the clamped window, then suppress a key seen inside the
        window or record the key at the current time. */
    method ShouldEmit(event: AgentEvent, now: int, windowSetting: JsNumber) returns (emit: bool)
      modifies this
      ensures Decision(emit, eventTimestamps) == Decide(old(eventTimestamps), BuildKey(event), now, windowSetting)
    {
      var windowMs := ClampWindow(windowSetting);
      Prune(now, windowMs);
      var key := BuildKey(event);
      if key in eventTimestamps && Less((now - eventTimestamps[key]) as real, windowMs) {
        return false;
      }
      eventTimestamps := eventTimestamps[key := now];
      return true;
    }

    /** `prune`: visits every entry and deletes the ones older than the threshold. */
    method Prune(now: int, windowMs: JsNumber)
      modifies this
      ensures eventTimestamps == Pruned(old(eventTimestamps), now, windowMs)
    {
      var threshold := Threshold(now, windowMs);
      ghost var original := eventTimestamps;
      var keys := eventTimestamps.Keys;
      while keys != {}
        invariant keys <= original.Keys
        invariant forall k :: k in eventTimestamps <==> k in original && (k in keys || !Less(original[k] as real, threshold))
        invariant forall k :: k in eventTimestamps ==> eventTimestamps[k] == original[k]
        decreases |keys|
      {
        var k :| k in keys;
        if Less(eventTimestamps[k] as real, threshold) {
          eventTimestamps := eventTimestamps - {k};
        }
        keys := keys - {k};
      }
      assert eventTimestamps == Pruned(original, now, windowMs);
    }
  }
}
