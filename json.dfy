/** JSON values (RFC 8259) as the notifier sees them after `JSON.parse`: a tagged union whose
    objects are ordered sequences of members. Property reads and writes follow ECMAScript
    object semantics: a read of a missing key is `undefined` (here `None`), a write of an
    existing key keeps its position, and a write of a new key appends it. ECMAScript lists an
    object's array-index keys ("0", "1", ...) first, in ascending order, so a sequence of
    members is the order `JSON.stringify` writes only when it is `Shaped`; every key the
    notifier writes is a name, never an index. */
module Json {
  import opened Wrappers

  /** A JSON number as an ECMAScript double: finite, or one of the infinities and NaN that
      `JSON.parse` produces for literals outside the double range. */
  datatype Num = Finite(r: real) | NonFinite

  datatype Json =
    | JNull
    | JBool(b: bool)
    | JNumber(n: Num)
    | JString(s: string)
    | JArray(items: seq<Json>)
    | JObject(members: seq<(string, Json)>)

  /** `Object.keys` of a member list. */
  function Keys(ms: seq<(string, Json)>): (ks: seq<string>)
    ensures |ks| == |ms|
    ensures forall i :: 0 <= i < |ms| ==> ks[i] == ms[i].0
  {
    if ms == [] then [] else [ms[0].0] + Keys(ms[1..])
  }

  /** The value stored under key `k`, `None` for a missing key. */
  function Get(ms: seq<(string, Json)>, k: string): Option<Json> {
    if ms == [] then None
    else if ms[0].0 == k then Some(ms[0].1)
    else Get(ms[1..], k)
  }

  /** A read finds the first member with the key, and misses only when no member has it. */
  lemma {:induction false} GetSpec(ms: seq<(string, Json)>, k: string)
    ensures Get(ms, k).None? <==> (forall i :: 0 <= i < |ms| ==> ms[i].0 != k)
    ensures Get(ms, k).Some? ==>
      exists i :: 0 <= i < |ms| && ms[i] == (k, Get(ms, k).value) && forall j :: 0 <= j < i ==> ms[j].0 != k
  {
    if ms != [] && ms[0].0 != k {
      GetSpec(ms[1..], k);
      if Get(ms, k).Some? {
        var i :| 0 <= i < |ms[1..]| && ms[1..][i] == (k, Get(ms, k).value) && forall j :: 0 <= j < i ==> ms[1..][j].0 != k;
        assert ms[i + 1] == (k, Get(ms, k).value);
      }
    }
  }

  /** `o[k] = v`: replaces the value of an existing key where it stands, else appends. */
  function Set(ms: seq<(string, Json)>, k: string, v: Json): (r: seq<(string, Json)>)
    ensures Get(r, k) == Some(v)
    ensures forall k' :: k' != k ==> Get(r, k') == Get(ms, k')
  {
    if ms == [] then [(k, v)]
    else if ms[0].0 == k then [(k, v)] + ms[1..]
    else [ms[0]] + Set(ms[1..], k, v)
  }

  /** A write keeps the key order: an existing key stays in place, a new one comes last. */
  lemma {:induction false} SetKeys(ms: seq<(string, Json)>, k: string, v: Json)
    ensures Get(ms, k).Some? ==> Keys(Set(ms, k, v)) == Keys(ms)
    ensures Get(ms, k).None? ==> Keys(Set(ms, k, v)) == Keys(ms) + [k]
  {
    if ms != [] && ms[0].0 != k {
      SetKeys(ms[1..], k, v);
      assert Keys(Set(ms, k, v)) == [ms[0].0] + Keys(Set(ms[1..], k, v));
    }
  }

  /** ECMAScript property access `v.k` on any JSON value: only objects have the keys read
      by the core, every other value yields `undefined`. */
  function Prop(v: Json, k: string): (r: Option<Json>)
    ensures r.Some? ==> v.JObject?
  {
    if v.JObject? then Get(v.members, k) else None
  }

  /** Optional chaining `v?.k` on a possibly-missing value. */
  function PropOf(v: Option<Json>, k: string): (r: Option<Json>)
    ensures v.None? ==> r.None?
  {
    if v.Some? then Prop(v.value, k) else None
  }

  /** `isRecord`: a truthy, non-array object. */
  predicate IsRecord(v: Json) {
    v.JObject?
  }

  /** Every number in the value is finite; these are the values that survive
      `JSON.stringify` followed by `JSON.parse` unchanged. */
  predicate AllFinite(j: Json)
    decreases j
  {
    match j
    case JNumber(n) => n.Finite?
    case JArray(a) => forall i :: 0 <= i < |a| ==> AllFinite(a[i])
    case JObject(ms) => forall i :: 0 <= i < |ms| ==> AllFinite(ms[i].1)
    case _ => true
  }

  /** Setting a key twice keeps only the second value, in the same place. */
  lemma {:induction false} SetSet(ms: seq<(string, Json)>, k: string, v: Json, w: Json)
    ensures Set(Set(ms, k, v), k, w) == Set(ms, k, w)
  {
    if ms != [] && ms[0].0 != k {
      SetSet(ms[1..], k, v, w);
      assert Set(ms, k, v)[1..] == Set(ms[1..], k, v);
    }
  }

  /** Writing back the value a key already holds changes nothing. */
  lemma {:induction false} SetExisting(ms: seq<(string, Json)>, k: string)
    requires Get(ms, k).Some?
    ensures Set(ms, k, Get(ms, k).value) == ms
  {
    if ms[0].0 != k {
      SetExisting(ms[1..], k);
    }
  }

  /** Every member value is free of non-finite numbers. */
  predicate FiniteMembers(ms: seq<(string, Json)>) {
    forall i :: 0 <= i < |ms| ==> AllFinite(ms[i].1)
  }

  /** Writing a finite value keeps an object finite. */
  lemma {:induction false} SetFinite(ms: seq<(string, Json)>, k: string, v: Json)
    requires FiniteMembers(ms) && AllFinite(v)
    ensures FiniteMembers(Set(ms, k, v))
  {
    if ms != [] && ms[0].0 != k {
      SetFinite(ms[1..], k, v);
      var r := Set(ms, k, v);
      assert r == [ms[0]] + Set(ms[1..], k, v);
      forall i | 0 <= i < |r|
        ensures AllFinite(r[i].1)
      {
        if i > 0 {
          assert r[i] == Set(ms[1..], k, v)[i - 1];
        }
      }
    }
  }

  /** A read returns the value of the first member with the key. */
  lemma {:induction false} GetFirst(ms: seq<(string, Json)>, k: string, i: nat)
    requires i < |ms| && ms[i].0 == k
    requires forall j :: 0 <= j < i ==> ms[j].0 != k
    ensures Get(ms, k) == Some(ms[i].1)
  {
    if i > 0 {
      GetFirst(ms[1..], k, i - 1);
    }
  }

  /** A member appended at the end is read only when no earlier member has its key. */
  lemma {:induction false} GetSnoc(ms: seq<(string, Json)>, k: string, v: Json)
    ensures forall k' :: Get(ms + [(k, v)], k') == if Get(ms, k').Some? then Get(ms, k') else if k' == k then Some(v) else None
  {
    if ms != [] {
      GetSnoc(ms[1..], k, v);
      assert (ms + [(k, v)])[1..] == ms[1..] + [(k, v)];
    }
  }

  /** Writing a key that is not there yet appends it. */
  lemma {:induction false} SetAbsent(ms: seq<(string, Json)>, k: string, v: Json)
    requires Get(ms, k).None?
    ensures Set(ms, k, v) == ms + [(k, v)]
  {
    if ms != [] {
      SetAbsent(ms[1..], k, v);
      assert [ms[0]] + (ms[1..] + [(k, v)]) == ms + [(k, v)];
    }
  }

  /** A value read from a finite object is finite. */
  lemma {:induction false} GetFinite(ms: seq<(string, Json)>, k: string)
    requires FiniteMembers(ms) && Get(ms, k).Some?
    ensures AllFinite(Get(ms, k).value)
  {
    if ms[0].0 != k {
      GetFinite(ms[1..], k);
    }
  }

  // ---------------------------------------------------------------- ECMAScript key order

  predicate IsDigit(c: char) {
    '0' <= c <= '9'
  }

  /** The value of a string of decimal digits. */
  function DecimalValue(k: string): nat {
    if k == [] then 0
    else DecimalValue(k[..|k| - 1]) * 10 + (if IsDigit(k[|k| - 1]) then k[|k| - 1] as int - '0' as int else 0)
  }

  /** A key that names an array index: a decimal numeral without leading zeros below
      2^32 - 1 (section 6.1.7 of ECMA-262). */
  predicate IsIndexKey(k: string) {
    k != [] && IsDigit(k[0]) && (forall i :: 0 <= i < |k| ==> IsDigit(k[i]))
    && (k[0] == '0' ==> |k| == 1) && DecimalValue(k) < 0xFFFF_FFFF
  }

  /** The key order of an ECMAScript object: no key twice, and the index keys before every
      other key, in ascending numeric order. */
  predicate OrderedKeys(ks: seq<string>) {
    (forall i, j :: 0 <= i < j < |ks| ==> ks[i] != ks[j])
    && (forall i, j :: 0 <= i < j < |ks| && IsIndexKey(ks[j]) ==> IsIndexKey(ks[i]) && DecimalValue(ks[i]) < DecimalValue(ks[j]))
  }

  /** Every object in the value has its members in ECMAScript key order, so `JSON.parse`
      of what `JSON.stringify` writes lists them in the same order. */
  predicate Shaped(j: Json)
    decreases j
  {
    match j
    case JArray(a) => forall i :: 0 <= i < |a| ==> Shaped(a[i])
    case JObject(ms) => OrderedKeys(Keys(ms)) && forall i :: 0 <= i < |ms| ==> Shaped(ms[i].1)
    case _ => true
  }

  /** A value that survives `JSON.stringify` followed by `JSON.parse` unchanged: its numbers
      are finite and its objects are in key order. */
  predicate Wire(j: Json) {
    AllFinite(j) && Shaped(j)
  }

  /** An object that survives the round trip. */
  predicate WireMembers(ms: seq<(string, Json)>) {
    Wire(JObject(ms))
  }

  /** Every member of a write is the member written or one of the members before. */
  lemma {:induction false} SetMembers(ms: seq<(string, Json)>, k: string, v: Json)
    ensures forall i :: 0 <= i < |Set(ms, k, v)| ==> Set(ms, k, v)[i] == (k, v) || Set(ms, k, v)[i] in ms
  {
    if ms != [] && ms[0].0 != k {
      SetMembers(ms[1..], k, v);
      var r := Set(ms, k, v);
      assert r == [ms[0]] + Set(ms[1..], k, v);
      forall i | 0 <= i < |r|
        ensures r[i] == (k, v) || r[i] in ms
      {
        if i > 0 {
          assert r[i] == Set(ms[1..], k, v)[i - 1];
        }
      }
    }
  }

  /** Writing a value that survives the round trip under a key that is not an index keeps an
      object that survives it: an existing key stays where it is, and a new one is appended
      after keys that are all different from it. */
  lemma SetWire(ms: seq<(string, Json)>, k: string, v: Json)
    requires WireMembers(ms) && Wire(v) && !IsIndexKey(k)
    ensures WireMembers(Set(ms, k, v))
  {
    var r := Set(ms, k, v);
    SetMembers(ms, k, v);
    SetKeys(ms, k, v);
    GetSpec(ms, k);
    forall i | 0 <= i < |r|
      ensures AllFinite(r[i].1) && Shaped(r[i].1)
    {
      if r[i] != (k, v) {
        var m :| 0 <= m < |ms| && ms[m] == r[i];
      }
    }
    var ks := Keys(ms);
    if Get(ms, k).None? {
      assert Keys(r) == ks + [k];
      assert OrderedKeys(Keys(r));
    }
  }

  /** A value read from an object that survives the round trip survives it too. */
  lemma GetWire(ms: seq<(string, Json)>, k: string)
    requires WireMembers(ms) && Get(ms, k).Some?
    ensures Wire(Get(ms, k).value)
  {
    GetSpec(ms, k);
    var i :| 0 <= i < |ms| && ms[i] == (k, Get(ms, k).value) && forall j :: 0 <= j < i ==> ms[j].0 != k;
    assert AllFinite(ms[i].1) && Shaped(ms[i].1);
  }

  /** An object whose keys are distinct names, none of them an index, and whose values
      survive the round trip survives it too. */
  lemma NamesWire(ms: seq<(string, Json)>)
    requires forall i :: 0 <= i < |ms| ==> ms[i].0 != [] && !IsDigit(ms[i].0[0]) && Wire(ms[i].1)
    requires forall i, j :: 0 <= i < j < |ms| ==> ms[i].0 != ms[j].0
    ensures WireMembers(ms)
  {
  }
}
