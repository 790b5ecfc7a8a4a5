/** The base64url codec of section 5 of RFC 4648, built as in the source from btoa and atob. */
module Base64Url {
  import opened Common

  type byte = x: int | 0 <= x < 256

  /** The standard alphabet. */
  function Char64(n: int): (c: char)
    requires 0 <= n < 64
  {
    if n < 26 then ('A' as int + n) as char
    else if n < 52 then ('a' as int + n - 26) as char
    else if n < 62 then ('0' as int + n - 52) as char
    else if n == 62 then '+' else '/'
  }

  predicate InAlphabet(c: char) {
    'A' <= c <= 'Z' || 'a' <= c <= 'z' || '0' <= c <= '9' || c == '+' || c == '/'
  }

  function Value64(c: char): (n: int)
    requires InAlphabet(c)
    ensures 0 <= n < 64 && Char64(n) == c
  {
    if 'A' <= c <= 'Z' then c as int - 'A' as int
    else if 'a' <= c <= 'z' then c as int - 'a' as int + 26
    else if '0' <= c <= '9' then c as int - '0' as int + 52
    else if c == '+' then 62 else 63
  }

  lemma Value64Inverts(n: int)
    requires 0 <= n < 64
    ensures InAlphabet(Char64(n)) && Value64(Char64(n)) == n
  {
  }

  predicate AllInAlphabet(s: string) {
    forall i :: 0 <= i < |s| ==> InAlphabet(s[i])
  }

  // ------------------------------------------------------------ groups of three bytes and four characters

  /** The four characters of three bytes. */
  function Group(x: byte, y: byte, z: byte): (s: string)
    ensures |s| == 4
  {
    [Char64(x / 4), Char64(x % 4 * 16 + y / 16), Char64(y % 16 * 4 + z / 64), Char64(z % 64)]
  }

  /** A last byte, or the last two, without padding. */
  function GroupOfOne(x: byte): (s: string)
    ensures |s| == 2
  {
    [Char64(x / 4), Char64(x % 4 * 16)]
  }

  function GroupOfTwo(x: byte, y: byte): (s: string)
    ensures |s| == 3
  {
    [Char64(x / 4), Char64(x % 4 * 16 + y / 16), Char64(y % 16 * 4)]
  }

  /** The characters of the bytes, without padding. */
  function RawEncode(b: seq<byte>): (s: string)
    ensures |s| % 4 != 1 && (s == "" <==> b == [])
  {
    if |b| == 0 then ""
    else if |b| == 1 then GroupOfOne(b[0])
    else if |b| == 2 then GroupOfTwo(b[0], b[1])
    else
      var rest := RawEncode(b[3..]);
      assert (4 + |rest|) % 4 == |rest| % 4;
      Group(b[0], b[1], b[2]) + rest
  }

  function Padding(length: nat): string {
    if length % 4 == 2 then "==" else if length % 4 == 3 then "=" else ""
  }

  /** btoa. */
  function Btoa(b: seq<byte>): string {
    RawEncode(b) + Padding(|RawEncode(b)|)
  }

  /** The bytes of whole and partial groups; leftover bits are dropped. */
  function RawDecode(s: string): seq<byte>
    requires AllInAlphabet(s) && |s| % 4 != 1
  {
    if |s| == 0 then []
    else
      var first := Value64(s[0]) * 4 + Value64(s[1]) / 16;
      if |s| == 2 then [first]
      else
        var second := Value64(s[1]) % 16 * 16 + Value64(s[2]) / 4;
        if |s| == 3 then [first, second]
        else [first, second, Value64(s[2]) % 4 * 64 + Value64(s[3])] + RawDecode(s[4..])
  }

  function WithoutWhitespace(s: string): string {
    if s == "" then ""
    else
      (if s[0] in {'\t', '\n', '\U{0C}', '\r', ' '} then "" else [s[0]]) + WithoutWhitespace(s[1..])
  }

  function DropLast(s: string, c: char): string {
    if s != "" && s[|s| - 1] == c then s[..|s| - 1] else s
  }

  /** atob: the forgiving decoder, which throws on lengths and characters it cannot read. */
  function Atob(text: string): Option<seq<byte>> {
    var compact := WithoutWhitespace(text);
    var s := if |compact| % 4 == 0 then DropLast(DropLast(compact, '='), '=') else compact;
    if |s| % 4 == 1 || !AllInAlphabet(s) then None else Some(RawDecode(s))
  }

  // ------------------------------------------------------------ the url-safe variant

  /** Every occurrence of one character replaced by another. */
  function Replaced(s: string, from: char, to: char): (r: string)
    ensures |r| == |s| && forall i :: 0 <= i < |s| ==> r[i] == if s[i] == from then to else s[i]
  {
    seq(|s|, i requires 0 <= i < |s| => if s[i] == from then to else s[i])
  }

  function WithoutTrailing(s: string, c: char): string {
    if s != "" && s[|s| - 1] == c then WithoutTrailing(s[..|s| - 1], c) else s
  }

  function UrlEncode(b: seq<byte>): string {
    WithoutTrailing(Replaced(Replaced(Btoa(b), '+', '-'), '/', '_'), '=')
  }

  function Repadded(s: string): string {
    if |s| % 4 == 0 then s else if |s| % 4 == 1 then s + "===" else if |s| % 4 == 2 then s + "==" else s + "="
  }

  function UrlDecode(s: string): Option<seq<byte>> {
    Atob(Repadded(Replaced(Replaced(s, '-', '+'), '_', '/')))
  }

  // ------------------------------------------------------------ round trip

  lemma {:induction false} RawEncodeAlphabet(b: seq<byte>)
    ensures AllInAlphabet(RawEncode(b))
  {
    hide Char64, InAlphabet;
    forall n | 0 <= n < 64 ensures InAlphabet(Char64(n)) {
      Value64Inverts(n);
    }
    if |b| >= 3 {
      RawEncodeAlphabet(b[3..]);
    }
  }

  lemma GroupRoundTrip(x: byte, y: byte, z: byte)
    ensures var p, q, r, s := x / 4, x % 4 * 16 + y / 16, y % 16 * 4 + z / 64, z % 64;
      && 0 <= p < 64 && 0 <= q < 64 && 0 <= r < 64 && 0 <= s < 64
      && p * 4 + q / 16 == x && q % 16 * 16 + r / 4 == y && r % 4 * 64 + s == z
  {
  }

  lemma DecodeGroup(p: int, q: int, r: int, s: int, rest: string)
    requires 0 <= p < 64 && 0 <= q < 64 && 0 <= r < 64 && 0 <= s < 64
    requires AllInAlphabet(rest) && |rest| % 4 != 1
    ensures var text := [Char64(p), Char64(q), Char64(r), Char64(s)] + rest;
      && AllInAlphabet(text) && |text| % 4 != 1
      && RawDecode(text) == [p * 4 + q / 16, q % 16 * 16 + r / 4, r % 4 * 64 + s] + RawDecode(rest)
  {
    var text := [Char64(p), Char64(q), Char64(r), Char64(s)] + rest;
    Value64Inverts(p);
    Value64Inverts(q);
    Value64Inverts(r);
    Value64Inverts(s);
    assert text[0] == Char64(p) && text[1] == Char64(q) && text[2] == Char64(r) && text[3] == Char64(s);
    assert text[4..] == rest;
  }

  lemma DecodeThree(p: int, q: int, r: int)
    requires 0 <= p < 64 && 0 <= q < 64 && 0 <= r < 64
    ensures var text := [Char64(p), Char64(q), Char64(r)];
      AllInAlphabet(text) && RawDecode(text) == [p * 4 + q / 16, q % 16 * 16 + r / 4]
  {
    Value64Inverts(p);
    Value64Inverts(q);
    Value64Inverts(r);
  }

  lemma DecodeTwo(x: byte, y: byte)
    ensures 0 <= x % 4 * 16 + y / 16 < 64
    ensures var text := [Char64(x / 4), Char64(x % 4 * 16 + y / 16), Char64(y % 16 * 4)];
      AllInAlphabet(text) && RawDecode(text) == [x, y]
  {
    var p, q, r := x / 4, x % 4 * 16 + y / 16, y % 16 * 4;
    assert 0 <= q < 64 && p * 4 + q / 16 == x && q % 16 * 16 + r / 4 == y by {
      GroupRoundTrip(x, y, 0);
    }
    DecodeThree(p, q, r);
  }

  lemma TwoBytesRoundTrip(b: seq<byte>)
    requires |b| == 2
    ensures AllInAlphabet(RawEncode(b)) && RawDecode(RawEncode(b)) == b
  {
    DecodeTwo(b[0], b[1]);
    assert b == [b[0], b[1]];
  }

  lemma OneByteRoundTrip(b: seq<byte>)
    requires |b| == 1
    ensures AllInAlphabet(RawEncode(b)) && RawDecode(RawEncode(b)) == b
  {
    var x := b[0];
    Value64Inverts(x / 4);
    Value64Inverts(x % 4 * 16);
    GroupRoundTrip(x, 0, 0);
    assert b == [x];
  }

  lemma TripleRoundTrip(x: byte, y: byte, z: byte, rest: string)
    requires AllInAlphabet(rest) && |rest| % 4 != 1
    ensures var text := Group(x, y, z) + rest;
      AllInAlphabet(text) && |text| % 4 != 1 && RawDecode(text) == [x, y, z] + RawDecode(rest)
  {
    hide Char64, InAlphabet, RawDecode;
    GroupRoundTrip(x, y, z);
    DecodeGroup(x / 4, x % 4 * 16 + y / 16, y % 16 * 4 + z / 64, z % 64, rest);
  }

  lemma RoundTripStep(b: seq<byte>, rest: string)
    requires |b| >= 3 && rest == RawEncode(b[3..]) && AllInAlphabet(rest) && RawDecode(rest) == b[3..]
    ensures AllInAlphabet(RawEncode(b)) && RawDecode(RawEncode(b)) == b
  {
    TripleRoundTrip(b[0], b[1], b[2], rest);
    assert RawEncode(b) == Group(b[0], b[1], b[2]) + rest;
    assert b == [b[0], b[1], b[2]] + b[3..];
  }

  lemma {:induction false} RawRoundTrip(b: seq<byte>)
    ensures AllInAlphabet(RawEncode(b)) && RawDecode(RawEncode(b)) == b
  {
    if |b| == 1 {
      OneByteRoundTrip(b);
    } else if |b| == 2 {
      TwoBytesRoundTrip(b);
    } else if |b| >= 3 {
      RawRoundTrip(b[3..]);
      RoundTripStep(b, RawEncode(b[3..]));
    }
  }

  /** A character of the url-safe alphabet. */
  predicate UrlSafe(c: char) {
    'A' <= c <= 'Z' || 'a' <= c <= 'z' || '0' <= c <= '9' || c == '-' || c == '_'
  }

  function Swapped(s: string): string {
    Replaced(Replaced(s, '+', '-'), '/', '_')
  }

  lemma SwapBack(s: string)
    requires AllInAlphabet(s)
    ensures Replaced(Replaced(Swapped(s), '-', '+'), '_', '/') == s
    ensures forall i :: 0 <= i < |s| ==> UrlSafe(Swapped(s)[i])
  {
  }

  /** Encoding is the unpadded text in the url-safe alphabet. */
  lemma UrlEncodeIsUnpadded(b: seq<byte>)
    ensures UrlEncode(b) == Swapped(RawEncode(b))
    ensures forall i :: 0 <= i < |UrlEncode(b)| ==> UrlSafe(UrlEncode(b)[i])
    ensures UrlEncode(b) == "" <==> b == []
  {
    RawEncodeAlphabet(b);
    var raw := RawEncode(b);
    var pad := Padding(|raw|);
    SwapBack(raw);
    assert Swapped(raw + pad) == Swapped(raw) + pad;
    StripPadding(Swapped(raw), pad);
  }

  lemma StripPadding(s: string, pad: string)
    requires pad in {"", "=", "=="} && (s == "" || s[|s| - 1] != '=')
    ensures WithoutTrailing(s + pad, '=') == s
  {
    assert WithoutTrailing(s, '=') == s;
    if pad == "" {
      assert s + pad == s;
    } else {
      assert (s + "=")[..|s|] == s;
      assert (s + "==")[..|s| + 1] == s + "=";
      assert WithoutTrailing(s + "=", '=') == s;
    }
  }

  lemma {:induction false} NoWhitespaceToRemove(s: string)
    requires forall i :: 0 <= i < |s| ==> InAlphabet(s[i]) || s[i] == '='
    ensures WithoutWhitespace(s) == s
  {
    if s != "" {
      NoWhitespaceToRemove(s[1..]);
      assert s == [s[0]] + s[1..];
    }
  }

  /** Removing up to two padding characters from a repadded text gives the text back. */
  lemma PaddingComesOff(raw: string)
    requires AllInAlphabet(raw) && |raw| % 4 != 1
    ensures |Repadded(raw)| % 4 == 0 && DropLast(DropLast(Repadded(raw), '='), '=') == raw
  {
    assert DropLast(raw, '=') == raw;
    if |raw| % 4 == 2 {
      assert Repadded(raw)[..|raw| + 1] == raw + "=";
      assert (raw + "=")[..|raw|] == raw;
    } else if |raw| % 4 == 3 {
      assert Repadded(raw)[..|raw|] == raw;
    }
  }

  lemma AtobReadsPadded(raw: string)
    requires AllInAlphabet(raw) && |raw| % 4 != 1
    ensures Atob(Repadded(raw)) == Some(RawDecode(raw))
  {
    NoWhitespaceToRemove(Repadded(raw));
    PaddingComesOff(raw);
  }

  /** Every byte string survives encoding and decoding, through padding removal and restoration. */
  lemma Base64UrlRoundTrip(b: seq<byte>)
    ensures UrlDecode(UrlEncode(b)) == Some(b)
  {
    RawRoundTrip(b);
    UrlEncodeIsUnpadded(b);
    SwapBack(RawEncode(b));
    AtobReadsPadded(RawEncode(b));
  }

  // ------------------------------------------------------------ the texts themselves

  /** Table 1 of RFC 4648: three runs of consecutive characters, and two characters more. */
  lemma AlphabetIs(n: int)
    requires 0 <= n < 63
    ensures Char64(0) == 'A' && Char64(25) == 'Z' && Char64(26) == 'a' && Char64(51) == 'z'
    ensures Char64(52) == '0' && Char64(61) == '9' && Char64(62) == '+' && Char64(63) == '/'
    ensures n !in {25, 51, 61, 62} ==> Char64(n + 1) as int == Char64(n) as int + 1
  {
  }

  lemma DivisionIs(n: int, d: int, q: int, r: int)
    requires d > 0 && n == q * d + r && 0 <= r < d
    ensures n / d == q && n % d == r
  {
    var k := n / d - q;
    assert k * d == r - n % d;
    if k != 0 {
      MultipleIsFar(k, d);
    }
  }

  lemma MultipleIsFar(k: int, d: int)
    requires d > 0 && k != 0
    ensures k * d >= d || k * d <= -d
  {
    if k > 0 {
      assert (k - 1) * d >= 0;
    } else {
      assert (-k - 1) * d >= 0;
    }
  }

  lemma SixBitDigits(x: byte, y: byte, z: byte, n: int)
    requires n == x * 0x1_0000 + y * 0x100 + z
    ensures n / 0x4_0000 == x / 4 && n / 0x1000 % 64 == x % 4 * 16 + y / 16
    ensures n / 64 % 64 == y % 16 * 4 + z / 64 && n % 64 == z % 64
  {
    var p, q, r := x / 4, x % 4 * 16 + y / 16, y % 16 * 4 + z / 64;
    DivisionIs(n, 64, p * 0x1000 + q * 64 + r, z % 64);
    DivisionIs(p * 0x1000 + q * 64 + r, 64, p * 64 + q, r);
    DivisionIs(n, 0x1000, p * 64 + q, r * 64 + z % 64);
    DivisionIs(p * 64 + q, 64, p, q);
    DivisionIs(n, 0x4_0000, p, q * 0x1000 + r * 64 + z % 64);
  }

  /** Three bytes are one number of 24 bits, written as four digits to the base 64 (section 4 of RFC 4648). */
  lemma GroupIsPositional(x: byte, y: byte, z: byte)
    ensures var n := x * 0x1_0000 + y * 0x100 + z;
      && 0 <= n / 0x4_0000 < 64
      && Group(x, y, z) == [Char64(n / 0x4_0000), Char64(n / 0x1000 % 64), Char64(n / 64 % 64), Char64(n % 64)]
  {
    hide Char64;
    SixBitDigits(x, y, z, x * 0x1_0000 + y * 0x100 + z);
  }

  /** Encoding goes group by group; a last partial group is filled up with zero bits and cut. */
  lemma EncodingByGroups(b: seq<byte>)
    ensures RawEncode(b) ==
      if |b| == 0 then ""
      else if |b| == 1 then Group(b[0], 0, 0)[..2]
      else if |b| == 2 then Group(b[0], b[1], 0)[..3]
      else Group(b[0], b[1], b[2]) + RawEncode(b[3..])
  {
    hide Char64;
    if |b| == 1 {
      assert b[0] % 4 * 16 + 0 / 16 == b[0] % 4 * 16;
    }
  }

  lemma EightBitDigits(p: int, q: int, r: int, t: int, n: int)
    requires 0 <= p < 64 && 0 <= q < 64 && 0 <= r < 64 && 0 <= t < 64
    requires n == p * 0x4_0000 + q * 0x1000 + r * 64 + t
    ensures n / 0x1_0000 == p * 4 + q / 16 && n / 0x100 % 0x100 == q % 16 * 16 + r / 4 && n % 0x100 == r % 4 * 64 + t
  {
    var x, y, z := p * 4 + q / 16, q % 16 * 16 + r / 4, r % 4 * 64 + t;
    DivisionIs(n, 0x100, x * 0x100 + y, z);
    DivisionIs(x * 0x100 + y, 0x100, x, y);
    DivisionIs(n, 0x1_0000, x, y * 0x100 + z);
  }

  /**
    Decoding reads four digits as three bytes of the same number, whatever characters stand there; two or three
    digits are read as if zeros followed, and the bytes that these reach into are dropped.
   */
  lemma DecodingByGroups(s: string)
    requires AllInAlphabet(s) && |s| % 4 != 1 && s != ""
    ensures var n := Value64(s[0]) * 0x4_0000 + Value64(s[1]) * 0x1000
                   + (if |s| > 2 then Value64(s[2]) * 64 else 0) + (if |s| > 3 then Value64(s[3]) else 0);
      RawDecode(s) == if |s| == 2 then [n / 0x1_0000]
                      else if |s| == 3 then [n / 0x1_0000, n / 0x100 % 0x100]
                      else [n / 0x1_0000, n / 0x100 % 0x100, n % 0x100] + RawDecode(s[4..])
  {
    hide Value64, RawDecode, InAlphabet;
    var p, q := Value64(s[0]), Value64(s[1]);
    var r, t := if |s| > 2 then Value64(s[2]) else 0, if |s| > 3 then Value64(s[3]) else 0;
    OneGroupDecoded(s, p, q, r, t);
    EightBitDigits(p, q, r, t, p * 0x4_0000 + q * 0x1000 + r * 64 + t);
  }

  lemma OneGroupDecoded(s: string, p: int, q: int, r: int, t: int)
    requires AllInAlphabet(s) && |s| % 4 != 1 && s != "" && p == Value64(s[0]) && q == Value64(s[1])
    requires r == (if |s| > 2 then Value64(s[2]) else 0) && t == (if |s| > 3 then Value64(s[3]) else 0)
    ensures RawDecode(s) == if |s| == 2 then [p * 4 + q / 16]
                            else if |s| == 3 then [p * 4 + q / 16, q % 16 * 16 + r / 4]
                            else [p * 4 + q / 16, q % 16 * 16 + r / 4, r % 4 * 64 + t] + RawDecode(s[4..])
  {
    hide Value64, InAlphabet;
  }

  /** btoa fills the text up to whole groups with '='. */
  lemma BtoaIsPadded(b: seq<byte>)
    ensures RawEncode(b) <= Btoa(b) && |Btoa(b)| % 4 == 0 && |Btoa(b)| <= |RawEncode(b)| + 2
    ensures forall i :: |RawEncode(b)| <= i < |Btoa(b)| ==> Btoa(b)[i] == '='
  {
    hide RawEncode;
  }

  lemma WithoutWhitespaceIs(s: string, c: char)
    ensures WithoutWhitespace("") == ""
    ensures WithoutWhitespace([c] + s) == (if c as int in {9, 10, 12, 13, 32} then "" else [c]) + WithoutWhitespace(s)
  {
    assert ([c] + s)[1..] == s;
  }

  lemma PaddingDropped(body: string, pad: string)
    requires pad in {"", "=", "=="} && (body == "" || body[|body| - 1] != '=')
    ensures DropLast(DropLast(body + pad, '='), '=') == body
  {
    if pad == "=" {
      assert (body + "=")[..|body|] == body;
    } else if pad == "==" {
      assert (body + "==")[..|body| + 1] == body + "=" && (body + "=")[..|body|] == body;
    } else {
      assert body + pad == body;
    }
  }

  lemma DroppedIsPadding(s: string) returns (pad: string)
    ensures pad in {"", "=", "=="} && s == DropLast(DropLast(s, '='), '=') + pad
  {
    var once := DropLast(s, '=');
    pad := if once == s then "" else if DropLast(once, '=') == once then "=" else "==";
  }

  /** atob reads exactly a text that is, up to white space, unpadded or fully padded characters of the alphabet. */
  lemma AtobReads(text: string, b: seq<byte>)
    ensures Atob(text) == Some(b) <==>
      exists body, pad ::
        && WithoutWhitespace(text) == body + pad && pad in {"", "=", "=="} && (pad != "" ==> (|body| + |pad|) % 4 == 0)
        && AllInAlphabet(body) && |body| % 4 != 1 && b == RawDecode(body)
  {
    hide WithoutWhitespace, RawDecode, DropLast;
    var compact := WithoutWhitespace(text);
    forall body, pad | compact == body + pad && pad in {"", "=", "=="} && AllInAlphabet(body)
      ensures DropLast(DropLast(compact, '='), '=') == body && (pad == "" ==> compact == body)
    {
      PaddingDropped(body, pad);
    }
    if Atob(text) == Some(b) {
      var pad := DroppedIsPadding(compact);
      if |compact| % 4 != 0 {
        assert compact == compact + "";
      }
    }
  }
}
