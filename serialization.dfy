/** The text codecs the core delegates to the runtime: `JSON.parse`, `JSON.stringify` (compact,
    and with two-space indentation), and UTF-8 through `Buffer`. They are parameters of the
    model; what the core relies on about them is stated as hypotheses. */
module Serialization {
  import opened Wrappers
  import opened Json
  import Base64

  datatype Codec = Codec(
    parse: string -> Option<Json>,
    stringify: Json -> string,
    stringifyIndented: Json -> string,
    utf8Encode: string -> seq<Base64.byte>,
    utf8Decode: seq<Base64.byte> -> string)

  /** `Buffer.from(s, 'utf8').toString('utf8')` gives `s` back (characters are Unicode scalar
      values), and no bytes decode to the empty text. */
  ghost predicate Utf8RoundTrips(c: Codec) {
    (forall s :: c.utf8Decode(c.utf8Encode(s)) == s) && c.utf8Decode([]) == []
  }

  /** `JSON.parse` builds ECMAScript objects: in whatever it returns, no object has a key
      twice (a later duplicate replaces the earlier value) and array-index keys come first
      in ascending order. */
  ghost predicate ParseShaped(c: Codec) {
    forall t :: c.parse(t).Some? ==> Shaped(c.parse(t).value)
  }

  /** `JSON.parse(JSON.stringify(j))` gives `j` back when every number in it is finite and
      its objects are in ECMAScript key order, and serialised text is never empty. Numbers
      are compared as exact reals. */
  ghost predicate JsonRoundTrips(c: Codec) {
    forall j :: Wire(j) ==> c.parse(c.stringify(j)) == Some(j) && c.stringify(j) != []
  }

  /** The same for `JSON.stringify(j, null, 2)` followed by a newline; an object is
      serialised starting with its opening brace. */
  ghost predicate IndentedRoundTrips(c: Codec) {
    forall j :: Wire(j) ==>
      c.parse(c.stringifyIndented(j) + "\n") == Some(j)
      && (j.JObject? ==> c.stringifyIndented(j) != [] && c.stringifyIndented(j)[0] == '{')
  }

  /** Only the empty text encodes to no bytes. */
  lemma EncodeNonEmpty(c: Codec, s: string)
    requires Utf8RoundTrips(c) && s != []
    ensures c.utf8Encode(s) != []
  {
    assert c.utf8Decode(c.utf8Encode(s)) == s;
  }
}
