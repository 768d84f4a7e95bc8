/** Base64 (section 4 of RFC 4648) and its URL-safe, unpadded form (section 5). The source
    encodes with Node's `Buffer.toString('base64')` followed by character rewrites, and
    decodes the URL-safe form by mapping it back and restoring the padding. */
module Base64 {
  import opened Wrappers

  type byte = x: int | 0 <= x < 256

  /** The 64 characters of the standard alphabet, in value order. */
  function Char(v: int): (c: char)
    requires 0 <= v < 64
  {
    if v < 26 then ('A' as int + v) as char
    else if v < 52 then ('a' as int + v - 26) as char
    else if v < 62 then ('0' as int + v - 52) as char
    else if v == 62 then '+'
    else '/'
  }

  /** The value of an alphabet character, -1 for any other character (the pad `=` too). */
  function Val(c: char): (v: int)
    ensures -1 <= v < 64
  {
    if 'A' <= c <= 'Z' then c as int - 'A' as int
    else if 'a' <= c <= 'z' then c as int - 'a' as int + 26
    else if '0' <= c <= '9' then c as int - '0' as int + 52
    else if c == '+' then 62
    else if c == '/' then 63
    else -1
  }

  lemma ValOfChar(v: int)
    requires 0 <= v < 64
    ensures Val(Char(v)) == v
  {}

  function Encode1(b0: byte): (r: string)
  {
    [Char(b0 / 4), Char((b0 % 4) * 16), '=', '=']
  }

  function Encode2(b0: byte, b1: byte): (r: string)
  {
    [Char(b0 / 4), Char((b0 % 4) * 16 + b1 / 16), Char((b1 % 16) * 4), '=']
  }

  function Encode3(b0: byte, b1: byte, b2: byte): (r: string)
  {
    [Char(b0 / 4), Char((b0 % 4) * 16 + b1 / 16), Char((b1 % 16) * 4 + b2 / 64), Char(b2 % 64)]
  }

  /** Standard padded base64: every three bytes become four characters, and a final group
      of one or two bytes is completed with `=`. */
  function Encode(b: seq<byte>): (s: string)
    decreases |b|
  {
    if |b| == 0 then []
    else if |b| == 1 then Encode1(b[0])
    else if |b| == 2 then Encode2(b[0], b[1])
    else Encode3(b[0], b[1], b[2]) + Encode(b[3..])
  }

  /** Strict decoding of standard padded base64: the length is a multiple of four, only the
      last group may carry one or two `=`, and every other character is in the alphabet.
      Unused low bits of a final group are ignored. */
  function Decode(s: string): (r: Option<seq<byte>>)
    decreases |s|
  {
    if |s| == 0 then Some([])
    else if |s| < 4 then None
    else if |s| == 4 then DecodeLast(s)
    else
      var head := DecodeFull(s[..4]);
      var rest := Decode(s[4..]);
      if head.None? || rest.None? then None else Some(head.value + rest.value)
  }

  /** Four alphabet characters: three bytes. */
  function DecodeFull(q: string): (r: Option<seq<byte>>)
    requires |q| == 4
  {
    var v0, v1, v2, v3 := Val(q[0]), Val(q[1]), Val(q[2]), Val(q[3]);
    if v0 < 0 || v1 < 0 || v2 < 0 || v3 < 0 then None
    else Some([v0 * 4 + v1 / 16, (v1 % 16) * 16 + v2 / 4, (v2 % 4) * 64 + v3])
  }

  /** The final group: two characters and `==` give one byte, three characters and `=`
      give two, four characters give three. */
  function DecodeLast(q: string): (r: Option<seq<byte>>)
    requires |q| == 4
  {
    var v0, v1, v2 := Val(q[0]), Val(q[1]), Val(q[2]);
    if v0 < 0 || v1 < 0 then None
    else if q[2] == '=' && q[3] == '=' then Some([v0 * 4 + v1 / 16])
    else if v2 >= 0 && q[3] == '=' then Some([v0 * 4 + v1 / 16, (v1 % 16) * 16 + v2 / 4])
    else DecodeFull(q)
  }

  /** The characters of standard base64 output: the alphabet and the pad. */
  predicate IsStdChar(c: char) {
    Val(c) >= 0 || c == '='
  }

  /** Alphabet characters, then exactly `p` pad characters. */
  predicate PaddedShape(s: string, p: nat) {
    p <= |s|
    && (forall i :: 0 <= i < |s| - p ==> Val(s[i]) >= 0)
    && (forall i :: |s| - p <= i < |s| ==> s[i] == '=')
  }

  /** Encoding yields four characters per started group of three bytes, padded with as many
      `=` as the last group lacks bytes, and nothing but alphabet characters otherwise. */
  lemma {:induction false} EncodeShape(b: seq<byte>)
    ensures |Encode(b)| % 4 == 0
    ensures b == [] <==> Encode(b) == []
    ensures PaddedShape(Encode(b), PadCount(|b|))
    decreases |b|
  {
    if |b| == 1 {
      Group1(b[0]);
      ShapeOfPartial(Encode1(b[0]), 2);
    } else if |b| == 2 {
      Group2(b[0], b[1]);
      ShapeOfPartial(Encode2(b[0], b[1]), 1);
    } else if |b| >= 3 {
      EncodeShape(b[3..]);
      ShapeOfGroups(b);
    }
  }

  /** A full group in front of a well-shaped encoding keeps the shape. */
  lemma ShapeOfGroups(b: seq<byte>)
    requires |b| >= 3
    requires |Encode(b[3..])| % 4 == 0 && PaddedShape(Encode(b[3..]), PadCount(|b| - 3))
    ensures |Encode(b)| % 4 == 0 && Encode(b) != [] && PaddedShape(Encode(b), PadCount(|b|))
  {
    var g, t := Encode3(b[0], b[1], b[2]), Encode(b[3..]);
    assert Encode(b) == g + t;
    Group3(b[0], b[1], b[2]);
    assert PadCount(|b|) == PadCount(|b| - 3);
    AddGroup(|t|);
    GroupThenShape(g, t, PadCount(|b| - 3));
  }

  lemma ShapeOfPartial(g: string, p: nat)
    requires |g| == 4 && 1 <= p <= 2
    requires forall i :: 0 <= i < 4 - p ==> Val(g[i]) >= 0
    requires forall i :: 4 - p <= i < 4 ==> g[i] == '='
    ensures PaddedShape(g, p)
  {}

  /** Restoring the padding of a text stripped of `p` pad characters adds back exactly `p`. */
  lemma PadRestore(n: nat, p: nat)
    requires n % 4 == 0 && p <= 2 && p <= n
    ensures (4 - (n - p) % 4) % 4 == p
  {
    var q := n / 4;
    assert n == 4 * q;
    if p > 0 {
      assert n - p == 4 * (q - 1) + (4 - p);
    }
  }

  lemma AddGroup(n: nat)
    requires n % 4 == 0
    ensures (4 + n) % 4 == 0
  {}

  lemma GroupThenShape(g: string, t: string, p: nat)
    requires |g| == 4 && forall i :: 0 <= i < 4 ==> Val(g[i]) >= 0
    requires PaddedShape(t, p)
    ensures PaddedShape(g + t, p)
  {
    assert forall i :: 4 <= i < |g + t| ==> (g + t)[i] == t[i - 4];
  }

  /** The number of `=` that padding adds for `n` bytes. */
  function PadCount(n: nat): (p: nat)
    ensures p <= 2
    ensures (n + p) % 3 == 0
  {
    var p := if n % 3 == 1 then 2 else if n % 3 == 2 then 1 else 0;
    FillsGroup(n, p);
    p
  }

  lemma FillsGroup(n: nat, p: nat)
    requires p == if n % 3 == 0 then 0 else 3 - n % 3
    ensures (n + p) % 3 == 0
  {
    var q := n / 3;
    assert n == 3 * q + n % 3;
    assert n + p == 3 * (q + if n % 3 == 0 then 0 else 1);
  }

  lemma Group3(b0: byte, b1: byte, b2: byte)
    ensures var g := Encode3(b0, b1, b2);
      Val(g[0]) * 4 + Val(g[1]) / 16 == b0
      && (Val(g[1]) % 16) * 16 + Val(g[2]) / 4 == b1
      && (Val(g[2]) % 4) * 64 + Val(g[3]) == b2
      && Val(g[0]) >= 0 && Val(g[1]) >= 0 && Val(g[2]) >= 0 && Val(g[3]) >= 0
  {
    ValOfChar(b0 / 4);
    ValOfChar((b0 % 4) * 16 + b1 / 16);
    ValOfChar((b1 % 16) * 4 + b2 / 64);
    ValOfChar(b2 % 64);
  }

  lemma Group2(b0: byte, b1: byte)
    ensures var g := Encode2(b0, b1);
      Val(g[0]) * 4 + Val(g[1]) / 16 == b0
      && (Val(g[1]) % 16) * 16 + Val(g[2]) / 4 == b1
      && Val(g[0]) >= 0 && Val(g[1]) >= 0 && Val(g[2]) >= 0
  {
    ValOfChar(b0 / 4);
    ValOfChar((b0 % 4) * 16 + b1 / 16);
    ValOfChar((b1 % 16) * 4);
  }

  lemma Group1(b0: byte)
    ensures var g := Encode1(b0);
      Val(g[0]) * 4 + Val(g[1]) / 16 == b0
      && Val(g[0]) >= 0 && Val(g[1]) >= 0
  {
    ValOfChar(b0 / 4);
    ValOfChar((b0 % 4) * 16);
  }

  /** Decoding inverts encoding. */
  lemma {:induction false} DecodeEncode(b: seq<byte>)
    ensures Decode(Encode(b)) == Some(b)
    decreases |b|
  {
    if |b| == 1 {
      DecodeGroup1(b[0]);
      assert b == [b[0]];
    } else if |b| == 2 {
      DecodeGroup2(b[0], b[1]);
      assert b == [b[0], b[1]];
    } else if |b| >= 3 {
      DecodeEncode(b[3..]);
      DecodeGroup3(b[0], b[1], b[2], Encode(b[3..]));
      SplitGroup(b);
    }
  }

  lemma SplitGroup<T>(b: seq<T>)
    requires |b| >= 3
    ensures b == [b[0], b[1], b[2]] + b[3..]
  {
  }

  lemma DecodeGroup1(b0: byte)
    ensures Decode(Encode1(b0)) == Some([b0])
  {
    Group1(b0);
  }

  lemma DecodeGroup2(b0: byte, b1: byte)
    ensures Decode(Encode2(b0, b1)) == Some([b0, b1])
  {
    Group2(b0, b1);
  }

  lemma DecodeQuad(b0: byte, b1: byte, b2: byte)
    ensures DecodeFull(Encode3(b0, b1, b2)) == Some([b0, b1, b2])
    ensures DecodeLast(Encode3(b0, b1, b2)) == Some([b0, b1, b2])
  {
    Group3(b0, b1, b2);
  }

  /** A full group in front of a decodable text decodes to its three bytes in front. */
  lemma DecodeGroup3(b0: byte, b1: byte, b2: byte, t: string)
    requires Decode(t).Some?
    ensures Decode(Encode3(b0, b1, b2) + t) == Some([b0, b1, b2] + Decode(t).value)
  {
    var g := Encode3(b0, b1, b2);
    DecodeQuad(b0, b1, b2);
    var s := g + t;
    assert s[..4] == g && s[4..] == t;
    if t == [] {
      assert s == g;
      assert [b0, b1, b2] + Decode(t).value == [b0, b1, b2];
    }
  }

  /** The URL-safe alphabet of section 5 of RFC 4648: `+` becomes `-`, `/` becomes `_`. */
  function ToUrlChar(c: char): char {
    if c == '+' then '-' else if c == '/' then '_' else c
  }

  function FromUrlChar(c: char): char {
    if c == '-' then '+' else if c == '_' then '/' else c
  }

  /** `replace(/\+/g, '-').replace(/\//g, '_')`. */
  function ToUrl(s: string): (r: string)
    ensures |r| == |s|
    ensures forall i :: 0 <= i < |s| ==> r[i] == ToUrlChar(s[i])
  {
    if s == [] then [] else [ToUrlChar(s[0])] + ToUrl(s[1..])
  }

  /** `replace(/-/g, '+').replace(/_/g, '/')`. */
  function FromUrl(s: string): (r: string)
    ensures |r| == |s|
    ensures forall i :: 0 <= i < |s| ==> r[i] == FromUrlChar(s[i])
  {
    if s == [] then [] else [FromUrlChar(s[0])] + FromUrl(s[1..])
  }

  /** `replace(/=+$/g, '')`: the run of `=` at the end removed. */
  function StripPadding(s: string): (r: string)
    ensures |r| <= |s| && r == s[..|r|]
    ensures forall i :: |r| <= i < |s| ==> s[i] == '='
    ensures r == [] || r[|r| - 1] != '='
  {
    if s != [] && s[|s| - 1] == '=' then StripPadding(s[..|s| - 1]) else s
  }

  function Repeat(c: char, n: nat): (r: string)
    ensures |r| == n
    ensures forall i :: 0 <= i < n ==> r[i] == c
  {
    if n == 0 then [] else [c] + Repeat(c, n - 1)
  }

  /** The `=` the parser appends so that the length becomes a multiple of four. */
  function RestorePadding(s: string): (r: string)
    ensures |r| % 4 == 0
    ensures |s| <= |r| < |s| + 4
    ensures r[..|s|] == s
    ensures forall i :: |s| <= i < |r| ==> r[i] == '='
  {
    s + Repeat('=', (4 - |s| % 4) % 4)
  }

  /** The adapter's `encodeBase64Url`, on the bytes of the text. */
  function EncodeUrl(b: seq<byte>): (s: string)
  {
    StripPadding(ToUrl(Encode(b)))
  }

  /** The parser's `decodeBase64Url` up to the UTF-8 step: empty input is refused outright,
      otherwise the URL-safe characters are mapped back and the padding restored. */
  function DecodeUrl(s: string): (r: Option<seq<byte>>)
    ensures s == [] ==> r.None?
  {
    if s == [] then None
    else Decode(RestorePadding(FromUrl(s)))
  }

  /** Stripping removes exactly the pad characters of the standard encoding. */
  lemma StrippedLength(b: seq<byte>)
    ensures |EncodeUrl(b)| == |Encode(b)| - PadCount(|b|)
  {
    EncodeShape(b);
    var e := Encode(b);
    UrlShape(e, PadCount(|b|));
    StripOf(ToUrl(e), |e| - PadCount(|b|));
  }

  /** The URL-safe mapping keeps the pad characters and maps no alphabet character to one. */
  lemma UrlShape(e: string, p: nat)
    requires PaddedShape(e, p)
    ensures var m, k := ToUrl(e), |e| - p;
      k <= |m| && (k == 0 || m[k - 1] != '=') && forall i :: k <= i < |m| ==> m[i] == '='
  {
    var m, k := ToUrl(e), |e| - p;
    if k > 0 {
      assert Val(e[k - 1]) >= 0;
      assert m[k - 1] == ToUrlChar(e[k - 1]);
    }
    forall i | k <= i < |m|
      ensures m[i] == '='
    {
      assert m[i] == ToUrlChar(e[i]);
    }
  }

  /** Stripping a text whose last `|m| - k` characters are `=`, preceded by another one. */
  lemma {:induction false} StripOf(m: string, k: nat)
    requires k <= |m| && (k == 0 || m[k - 1] != '=')
    requires forall i :: k <= i < |m| ==> m[i] == '='
    ensures StripPadding(m) == m[..k]
    decreases |m|
  {
    if |m| > k {
      StripOf(m[..|m| - 1], k);
      assert m[..|m| - 1][..k] == m[..k];
    } else {
      assert m[..k] == m;
    }
  }

  /** URL-safe output holds neither `+`, `/` nor `=`. */
  lemma EncodeUrlAlphabet(b: seq<byte>)
    ensures forall i :: 0 <= i < |EncodeUrl(b)| ==>
      EncodeUrl(b)[i] != '+' && EncodeUrl(b)[i] != '/' && EncodeUrl(b)[i] != '='
    ensures forall i :: 0 <= i < |EncodeUrl(b)| ==> IsUrlChar(EncodeUrl(b)[i])
  {
    EncodeShape(b);
    StrippedLength(b);
  }

  /** The characters of URL-safe base64 output. */
  predicate IsUrlChar(c: char) {
    ('A' <= c <= 'Z') || ('a' <= c <= 'z') || ('0' <= c <= '9') || c == '-' || c == '_'
  }

  /** The parser's padding restore and decoding invert the adapter's encoding for every
      non-empty byte string; the empty one encodes to the empty text, which the parser
      refuses. */
  lemma UrlRoundTrip(b: seq<byte>)
    ensures b != [] ==> DecodeUrl(EncodeUrl(b)) == Some(b)
    ensures b == [] ==> EncodeUrl(b) == [] && DecodeUrl(EncodeUrl(b)) == None
  {
    if b != [] {
      UnmapStripped(b);
      RestoreStripped(b);
      DecodeEncode(b);
    } else {
      StrippedLength(b);
    }
  }

  lemma UnmapStripped(b: seq<byte>)
    ensures FromUrl(EncodeUrl(b)) == Encode(b)[..|EncodeUrl(b)|]
  {
    StrippedLength(b);
    EncodeShape(b);
    var e := Encode(b);
    var u := EncodeUrl(b);
    assert u == ToUrl(e)[..|u|];
    UnmapPrefix(e, |u|);
  }

  /** Mapping back a prefix of URL-safe text gives the prefix of the standard text. */
  lemma UnmapPrefix(e: string, k: nat)
    requires k <= |e| && forall i :: 0 <= i < k ==> Val(e[i]) >= 0
    ensures FromUrl(ToUrl(e)[..k]) == e[..k]
  {
    ToUrlTake(e, k);
    UnmapAll(e[..k]);
  }

  /** The URL-safe mapping acts character by character, so it commutes with taking a prefix. */
  lemma ToUrlTake(e: string, k: nat)
    requires k <= |e|
    ensures ToUrl(e)[..k] == ToUrl(e[..k])
  {
    var l, r := ToUrl(e)[..k], ToUrl(e[..k]);
    forall i | 0 <= i < k
      ensures l[i] == r[i]
    {
      assert l[i] == ToUrlChar(e[i]);
      assert r[i] == ToUrlChar(e[..k][i]);
    }
  }

  lemma {:induction false} UnmapAll(e: string)
    requires forall i :: 0 <= i < |e| ==> Val(e[i]) >= 0
    ensures FromUrl(ToUrl(e)) == e
  {
    if e != [] {
      UnmapAll(e[1..]);
      UnmapChar(e[0]);
      var u := ToUrl(e);
      assert u[1..] == ToUrl(e[1..]);
    }
  }

  lemma UnmapChar(c: char)
    requires Val(c) >= 0
    ensures FromUrlChar(ToUrlChar(c)) == c
  {}

  lemma RestoreStripped(b: seq<byte>)
    ensures RestorePadding(Encode(b)[..|EncodeUrl(b)|]) == Encode(b)
  {
    StrippedLength(b);
    EncodeShape(b);
    RestoreOfShape(Encode(b), PadCount(|b|));
  }

  /** Restoring the padding of a padded text cut before its pad characters. */
  lemma RestoreOfShape(e: string, p: nat)
    requires |e| % 4 == 0 && p <= 2 && PaddedShape(e, p)
    ensures RestorePadding(e[..|e| - p]) == e
  {
    PadRestore(|e|, p);
    RestoreOf(e, |e| - p);
  }

  lemma RestoreOf(e: string, k: nat)
    requires k <= |e| && (4 - k % 4) % 4 == |e| - k
    requires forall i :: k <= i < |e| ==> e[i] == '='
    ensures RestorePadding(e[..k]) == e
  {
    var r := RestorePadding(e[..k]);
    assert |r| == |e|;
    assert forall i :: 0 <= i < |e| ==> r[i] == e[i];
  }
}
