/** Signed session cookies (web/src/lib/session-signing.ts). Texts are UTF-16, as in the source. */
module Session {
  import opened Common
  import opened Base64Url

  // ------------------------------------------------------------ texts

  type CodeUnit = x: int | 0 <= x < 0x1_0000

  type Text = seq<CodeUnit>

  const BYTE_ORDER_MARK: CodeUnit := 0xFEFF

  const REPLACEMENT: CodeUnit := 0xFFFD

  predicate High(u: CodeUnit) {
    0xD800 <= u < 0xDC00
  }

  predicate Low(u: CodeUnit) {
    0xDC00 <= u < 0xE000
  }

  /** Every surrogate is half of a pair. */
  predicate WellFormed(p: Text) {
    forall i {:trigger p[i]} :: 0 <= i < |p| ==>
      && (High(p[i]) ==> i + 1 < |p| && Low(p[i + 1]))
      && (Low(p[i]) ==> i > 0 && High(p[i - 1]))
  }

  /** What an encoder makes of a text: each unpaired surrogate becomes the replacement character. */
  function Repaired(p: Text): (r: Text)
    ensures |r| == |p|
  {
    if p == [] then []
    else if |p| > 1 && High(p[0]) && Low(p[1]) then p[..2] + Repaired(p[2..])
    else
      [if High(p[0]) || Low(p[0]) then REPLACEMENT else p[0]] + Repaired(p[1..])
  }

  /** What a decoder makes of a text: one leading byte order mark is swallowed. */
  function WithoutMark(p: Text): Text {
    if p != [] && p[0] == BYTE_ORDER_MARK then p[1..] else p
  }

  /** A tail that does not begin in the middle of a pair is as well formed as the whole text. */
  lemma WellFormedTail(p: Text, n: nat)
    requires 0 < n <= |p| && !High(p[n - 1]) && WellFormed(p)
    ensures WellFormed(p[n..])
  {
    var rest := p[n..];
    forall i | 0 <= i < |rest|
      ensures High(rest[i]) ==> i + 1 < |rest| && Low(rest[i + 1])
      ensures Low(rest[i]) ==> i > 0 && High(rest[i - 1])
    {
      assert rest[i] == p[i + n];
    }
  }

  lemma {:induction false} WellFormedNeedsNoRepair(p: Text)
    requires WellFormed(p)
    ensures Repaired(p) == p
  {
    if p != [] {
      var n := if |p| > 1 && High(p[0]) && Low(p[1]) then 2 else 1;
      assert !High(p[n - 1]);
      WellFormedTail(p, n);
      WellFormedNeedsNoRepair(p[n..]);
      assert p == p[..n] + p[n..];
    }
  }

  lemma {:induction false} RepairedIsWellFormed(p: Text)
    ensures WellFormed(Repaired(p))
    ensures p != [] ==> !Low(Repaired(p)[0])
  {
    if p != [] {
      var n := if |p| > 1 && High(p[0]) && Low(p[1]) then 2 else 1;
      RepairedIsWellFormed(p[n..]);
      var head, rest := Repaired(p)[..n], Repaired(p[n..]);
      assert Repaired(p) == head + rest;
      forall i | 0 <= i < |p|
        ensures High(Repaired(p)[i]) ==> i + 1 < |p| && Low(Repaired(p)[i + 1])
        ensures Low(Repaired(p)[i]) ==> i > 0 && High(Repaired(p)[i - 1])
      {
        if i >= n {
          assert Repaired(p)[i] == rest[i - n];
        }
      }
    }
  }

  /** A text survives an encoder exactly when it is well formed. */
  lemma RepairKeepsExactlyWellFormed(p: Text)
    ensures Repaired(p) == p <==> WellFormed(p)
  {
    RepairedIsWellFormed(p);
    if WellFormed(p) {
      WellFormedNeedsNoRepair(p);
    }
  }

  /** Exactly the unpaired surrogates are replaced, each by U+FFFD, and everything else is kept. */
  lemma {:induction false} RepairedIs(p: Text, i: nat)
    requires i < |p|
    ensures Repaired(p)[i] ==
      if (0xD800 <= p[i] <= 0xDBFF && !(i + 1 < |p| && 0xDC00 <= p[i + 1] <= 0xDFFF))
         || (0xDC00 <= p[i] <= 0xDFFF && !(i > 0 && 0xD800 <= p[i - 1] <= 0xDBFF))
      then 0xFFFD else p[i]
    decreases |p|
  {
    var n := if |p| > 1 && High(p[0]) && Low(p[1]) then 2 else 1;
    assert Repaired(p) == Repaired(p)[..n] + Repaired(p[n..]);
    if i >= n {
      RepairedIs(p[n..], i - n);
      assert p[n..][i - n] == p[i];
    }
  }

  /** Exactly one leading U+FEFF is swallowed. */
  lemma WithoutMarkIs(p: Text)
    ensures p == (if p != [] && p[0] == 0xFEFF then [0xFEFF] else []) + WithoutMark(p)
  {
  }

  // ------------------------------------------------------------ the platform

  /** HMAC-SHA256 under a secret, and the UTF-8 encoder and decoder. */
  datatype Platform = Platform(
    hmac: (string, seq<byte>) -> seq<byte>,
    encode: Text -> seq<byte>,
    decode: seq<byte> -> Text)

  /** What the code relies on: signatures are not empty, and UTF-8 loses only what is named here. */
  ghost predicate Sound(platform: Platform) {
    && (forall secret, b {:trigger platform.hmac(secret, b)} :: platform.hmac(secret, b) != [])
    && (forall p {:trigger platform.encode(p)} ::
      && (platform.encode(p) == [] <==> p == [])
      && platform.decode(platform.encode(p)) == WithoutMark(Repaired(p)))
  }

  function TwoBytes(p: Text): (b: seq<byte>)
    ensures b == [] <==> p == []
  {
    if p == [] then [] else [p[0] / 0x100, p[0] % 0x100] + TwoBytes(p[1..])
  }

  function FromTwoBytes(b: seq<byte>): Text {
    if |b| < 2 then [] else [(b[0] as int) * 0x100 + b[1]] + FromTwoBytes(b[2..])
  }

  lemma {:induction false} TwoBytesReadBack(p: Text)
    ensures FromTwoBytes(TwoBytes(p)) == p
  {
    if p != [] {
      TwoBytesReadBack(p[1..]);
      assert TwoBytes(p)[2..] == TwoBytes(p[1..]);
    }
  }

  function FixedHmac(secret: string, b: seq<byte>): (sig: seq<byte>)
    ensures sig != []
  {
    [0]
  }

  function EncodeTwoBytes(p: Text): (b: seq<byte>)
    ensures b == [] <==> p == []
    ensures DecodeTwoBytes(b) == WithoutMark(Repaired(p))
  {
    TwoBytesReadBack(Repaired(p));
    TwoBytes(Repaired(p))
  }

  function DecodeTwoBytes(b: seq<byte>): Text {
    WithoutMark(FromTwoBytes(b))
  }

  /** Platforms that meet the laws exist; one encodes each unit of the repaired text in two bytes. */
  lemma SoundPlatformsExist()
    ensures Sound(Platform(FixedHmac, EncodeTwoBytes, DecodeTwoBytes))
  {
  }

  // ------------------------------------------------------------ what is signed and verified

  function Signed(platform: Platform, secret: string, payload: Text): string {
    var b := platform.encode(payload);
    UrlEncode(b) + "." + UrlEncode(platform.hmac(secret, b))
  }

  /** The position of the last occurrence of c, or -1. */
  function LastIndexOf(s: string, c: char): (i: int)
    ensures -1 <= i < |s|
    ensures i >= 0 ==> s[i] == c
    ensures forall j :: i < j < |s| ==> s[j] != c
  {
    if s == "" then -1
    else if s[|s| - 1] == c then |s| - 1
    else LastIndexOf(s[..|s| - 1], c)
  }

  /** None where the source returns null; the secret is None where fetching it throws. */
  function Verified(platform: Platform, secret: Option<string>, signed: string): Option<Text> {
    var dot := LastIndexOf(signed, '.');
    if dot <= 0 || dot == |signed| - 1 then None
    else
      Checked(platform, secret, UrlDecode(signed[..dot]), UrlDecode(signed[dot + 1..]))
  }

  function Checked(platform: Platform, secret: Option<string>, payload: Option<seq<byte>>, sig: Option<seq<byte>>)
    : Option<Text>
  {
    if payload.None? || sig.None? || secret.None? then None
    else if sig.value != platform.hmac(secret.value, payload.value) then None
    else Some(platform.decode(payload.value))
  }

  /** The two sides, neither empty, of the last dot of a text. */
  predicate Splits(signed: string, left: string, right: string) {
    signed == left + "." + right && '.' !in right && left != "" && right != ""
  }

  /** The signed text consists of a payload and the payload's signature, both encoded, around its last dot. */
  ghost predicate Carries(platform: Platform, secret: string, signed: string, b: seq<byte>) {
    exists left, right :: Splits(signed, left, right)
      && UrlDecode(left) == Some(b) && UrlDecode(right) == Some(platform.hmac(secret, b))
  }

  const FALLBACK_DEV_SECRET := "fastbuild-dev-only-session-secret-do-not-use-in-production"

  class Signer {
    const platform: Platform
    const configured: Option<string>
    const isProd: bool
    var warnedAboutFallback: bool
    var warnings: nat

    /** The fallback warning has been printed once if the flag is up, and never otherwise. */
    ghost predicate Valid()
      reads this
    {
      warnings == if warnedAboutFallback then 1 else 0
    }

    predicate Configured() {
      configured.Some? && configured.value != ""
    }

    /** None where the source throws. */
    function Secret(): Option<string> {
      if Configured() then configured else if isProd then None else Some(FALLBACK_DEV_SECRET)
    }

    constructor (platform: Platform, configured: Option<string>, isProd: bool)
      ensures Valid() && !warnedAboutFallback
      ensures this.platform == platform && this.configured == configured && this.isProd == isProd
    {
      this.platform, this.configured, this.isProd := platform, configured, isProd;
      warnedAboutFallback, warnings := false, 0;
    }

    method GetSecret() returns (secret: Option<string>)
      requires Valid()
      modifies this`warnedAboutFallback, this`warnings
      ensures Valid()
      ensures secret == Secret()
      ensures configured.Some? && configured.value != "" ==> secret == configured
      ensures (configured.None? || configured.value == "") && isProd ==> secret == None
      ensures (configured.None? || configured.value == "") && !isProd ==>
        secret == Some("fastbuild-dev-only-session-secret-do-not-use-in-production")
      ensures warnings - old(warnings)
           == if (configured.None? || configured.value == "") && !isProd && !old(warnedAboutFallback) then 1 else 0
      ensures warnedAboutFallback <==>
        old(warnedAboutFallback) || ((configured.None? || configured.value == "") && !isProd)
    {
      if configured.Some? && |configured.value| > 0 {
        return configured;
      }
      if isProd {
        return None;
      }
      if !warnedAboutFallback {
        warnings := warnings + 1;
        warnedAboutFallback := true;
      }
      return Some(FALLBACK_DEV_SECRET);
    }

    method SignSession(payload: Text) returns (signed: Option<string>)
      requires Valid()
      modifies this`warnedAboutFallback, this`warnings
      ensures Valid()
      ensures Secret().None? <==> signed.None?
      ensures Secret().Some? ==> signed == Some(Signed(platform, Secret().value, payload))
      ensures
        if (configured.None? || configured.value == "") && isProd then signed == None
        else
          var secret := if configured.Some? && configured.value != "" then configured.value
                        else "fastbuild-dev-only-session-secret-do-not-use-in-production";
          signed == Some(UrlEncode(platform.encode(payload)) + "."
                         + UrlEncode(platform.hmac(secret, platform.encode(payload))))
    {
      var secret := GetSecret();
      if secret.None? {
        return None;
      }
      var payloadBytes := platform.encode(payload);
      var sig := platform.hmac(secret.value, payloadBytes);
      var left := Base64UrlEncode(payloadBytes);
      var right := Base64UrlEncode(sig);
      return Some(left + "." + right);
    }

    method VerifySession(signed: Option<string>) returns (payload: Option<Text>)
      requires Valid()
      modifies this`warnedAboutFallback, this`warnings
      ensures Valid()
      ensures payload == if signed.None? then None else Verified(platform, Secret(), signed.value)
      ensures signed.None? || ((configured.None? || configured.value == "") && isProd) ==> payload == None
      ensures signed.Some? && !((configured.None? || configured.value == "") && isProd) ==>
        var secret := if configured.Some? && configured.value != "" then configured.value
                      else "fastbuild-dev-only-session-secret-do-not-use-in-production";
        forall p :: payload == Some(p) <==>
          exists left, right, b ::
            && signed.value == left + "." + right && '.' !in right && left != "" && right != ""
            && UrlDecode(left) == Some(b) && UrlDecode(right) == Some(platform.hmac(secret, b))
            && p == platform.decode(b)
    {
      hide UrlDecode, Checked, LastIndexOf;
      if signed.Some? && Secret().Some? {
        AcceptedByHalves(platform, Secret().value, signed.value);
      } else if signed.Some? {
        NothingWithoutSecret(platform, signed.value);
      }
      if signed.None? || signed.value == "" {
        return None;
      }
      var text := signed.value;
      var dot := LastIndexOf(text, '.');
      if dot <= 0 || dot == |text| - 1 {
        return None;
      }
      var payloadBuf := Base64UrlDecode(text[..dot]);
      var sigBuf := Base64UrlDecode(text[dot + 1..]);
      payload := CheckSignature(payloadBuf, sigBuf);
    }

    method CheckSignature(payloadBuf: Option<seq<byte>>, sigBuf: Option<seq<byte>>) returns (payload: Option<Text>)
      requires Valid()
      modifies this`warnedAboutFallback, this`warnings
      ensures Valid()
      ensures payload == Checked(platform, Secret(), payloadBuf, sigBuf)
    {
      if payloadBuf.None? || sigBuf.None? {
        return None;
      }
      var secret := GetSecret();
      if secret.None? {
        return None;
      }
      var ok := sigBuf.value == platform.hmac(secret.value, payloadBuf.value);
      if !ok {
        return None;
      }
      return Some(platform.decode(payloadBuf.value));
    }
  }

  // ------------------------------------------------------------ the two loops of the codec

  /** One character a byte, as String.fromCharCode and charCodeAt see it. */
  function Latin1(b: seq<byte>): (s: string)
    ensures |s| == |b| && forall i :: 0 <= i < |b| ==> s[i] as int == b[i]
  {
    seq(|b|, i requires 0 <= i < |b| => b[i] as char)
  }

  function CharCodes(s: string): (b: seq<byte>)
    requires forall i :: 0 <= i < |s| ==> s[i] as int < 256
    ensures |b| == |s| && forall i :: 0 <= i < |s| ==> b[i] == s[i] as int
  {
    seq(|s|, i requires 0 <= i < |s| => s[i] as int)
  }

  method Base64UrlEncode(bytes: seq<byte>) returns (text: string)
    ensures text == UrlEncode(bytes)
  {
    var bin := "";
    for i := 0 to |bytes|
      invariant bin == Latin1(bytes[..i])
    {
      bin := bin + [bytes[i] as char];
    }
    assert CharCodes(bin) == bytes;
    text := WithoutTrailing(Replaced(Replaced(Btoa(CharCodes(bin)), '+', '-'), '/', '_'), '=');
  }

  method Base64UrlDecode(s: string) returns (bytes: Option<seq<byte>>)
    ensures bytes == UrlDecode(s)
  {
    var pad := if |s| % 4 == 0 then "" else seq(4 - |s| % 4, _ => '=');
    PadRestores(Replaced(Replaced(s, '-', '+'), '_', '/'), pad);
    var decoded := Atob(Replaced(Replaced(s, '-', '+'), '_', '/') + pad);
    if decoded.None? {
      return None;
    }
    var view := ViewOf(Latin1(decoded.value));
    assert CharCodes(Latin1(decoded.value)) == decoded.value;
    return Some(view[..]);
  }

  /** A fresh buffer filled with the character codes of a binary string. */
  method ViewOf(bin: string) returns (view: array<byte>)
    requires forall i :: 0 <= i < |bin| ==> bin[i] as int < 256
    ensures fresh(view) && view[..] == CharCodes(bin)
  {
    view := new byte[|bin|](_ => 0);
    for i := 0 to |bin|
      invariant forall j :: 0 <= j < i ==> view[j] == bin[j] as int
    {
      view[i] := bin[i] as int;
    }
  }

  lemma PadRestores(s: string, pad: string)
    requires pad == if |s| % 4 == 0 then "" else seq(4 - |s| % 4, _ => '=')
    ensures s + pad == Repadded(s)
  {
    if |s| % 4 == 1 {
      assert pad == "===";
    } else if |s| % 4 == 2 {
      assert pad == "==";
    } else if |s| % 4 == 3 {
      assert pad == "=";
    }
  }

  // ------------------------------------------------------------ the round trip

  /** A text with one dot after which there is none splits in one way. */
  lemma SplitIsUnique(left: string, right: string)
    requires '.' !in right
    ensures var text := left + "." + right;
      var dot := LastIndexOf(text, '.');
      dot == |left| && text[..dot] == left && text[dot + 1..] == right
  {
    var text := left + "." + right;
    assert text[|left|] == '.';
    var dot := LastIndexOf(text, '.');
    assert forall j :: |left| < j < |text| ==> text[j] == right[j - |left| - 1];
  }

  lemma SplitsAt(signed: string, dot: nat)
    requires 0 < dot < |signed| - 1 && signed[dot] == '.'
    requires forall j :: dot < j < |signed| ==> signed[j] != '.'
    ensures Splits(signed, signed[..dot], signed[dot + 1..])
  {
    var right := signed[dot + 1..];
    assert forall j :: 0 <= j < |right| ==> right[j] == signed[dot + 1 + j];
    assert signed == signed[..dot] + [signed[dot]] + right;
  }

  /** What a text carries is decided by the two sides of its last dot. */
  lemma CarriesAtLastDot(platform: Platform, secret: string, signed: string, b: seq<byte>)
    ensures Carries(platform, secret, signed, b) <==>
      var dot := LastIndexOf(signed, '.');
      && 0 < dot < |signed| - 1
      && UrlDecode(signed[..dot]) == Some(b)
      && UrlDecode(signed[dot + 1..]) == Some(platform.hmac(secret, b))
  {
    var dot := LastIndexOf(signed, '.');
    forall left, right | Splits(signed, left, right)
      ensures 0 < dot < |signed| - 1 && left == signed[..dot] && right == signed[dot + 1..]
    {
      SplitIsUnique(left, right);
    }
    if 0 < dot < |signed| - 1 {
      SplitsAt(signed, dot);
    }
  }

  /** A signed text carries the encoded payload, unless the payload is empty, when it carries nothing. */
  lemma SignedCarries(platform: Platform, secret: string, payload: Text, b: seq<byte>)
    requires Sound(platform)
    ensures Carries(platform, secret, Signed(platform, secret, payload), b)
      <==> payload != [] && b == platform.encode(payload)
  {
    var encoded := platform.encode(payload);
    var sig := platform.hmac(secret, encoded);
    var signed := Signed(platform, secret, payload);
    UrlEncodeIsUnpadded(encoded);
    UrlEncodeIsUnpadded(sig);
    Base64UrlRoundTrip(encoded);
    Base64UrlRoundTrip(sig);
    assert '.' !in UrlEncode(sig);
    SplitIsUnique(UrlEncode(encoded), UrlEncode(sig));
    CarriesAtLastDot(platform, secret, signed, b);
  }

  /** A text comes through encoder and decoder unchanged exactly when it is well formed and has no leading mark. */
  lemma DecodesToItselfExactly(platform: Platform, p: Text)
    requires Sound(platform)
    ensures platform.decode(platform.encode(p)) == p <==> WellFormed(p) && (p == [] || p[0] != BYTE_ORDER_MARK)
  {
    RepairKeepsExactlyWellFormed(p);
    assert platform.decode(platform.encode(p)) == WithoutMark(Repaired(p));
    if p != [] && p[0] == BYTE_ORDER_MARK {
      assert Repaired(p)[0] == p[0];
    }
  }

  /** Verification accepts exactly the texts that carry a payload with its signature, and returns that payload. */
  lemma AcceptedExactlyWhenSigned(platform: Platform, secret: string, signed: string, p: Text)
    ensures Verified(platform, Some(secret), signed) == Some(p)
      <==> exists b :: Carries(platform, secret, signed, b) && p == platform.decode(b)
  {
    forall b {
      CarriesAtLastDot(platform, secret, signed, b);
    }
    if Verified(platform, Some(secret), signed) == Some(p) {
      assert Carries(platform, secret, signed, UrlDecode(signed[..LastIndexOf(signed, '.')]).value);
    }
  }

  lemma NothingWithoutSecret(platform: Platform, signed: string)
    ensures Verified(platform, None, signed) == None
  {
  }

  lemma AcceptedByHalves(platform: Platform, secret: string, signed: string)
    ensures forall p :: Verified(platform, Some(secret), signed) == Some(p) <==>
      exists left, right, b ::
        && signed == left + "." + right && '.' !in right && left != "" && right != ""
        && UrlDecode(left) == Some(b) && UrlDecode(right) == Some(platform.hmac(secret, b))
        && p == platform.decode(b)
  {
    hide Verified, UrlDecode;
    forall p
      ensures Verified(platform, Some(secret), signed) == Some(p) <==>
        exists b :: Carries(platform, secret, signed, b) && p == platform.decode(b)
    {
      AcceptedExactlyWhenSigned(platform, secret, signed, p);
    }
  }

  /** Of a signed payload its repaired form comes back, without a leading mark, and of the empty payload nothing. */
  lemma PayloadComesBackRepaired(platform: Platform, secret: string, payload: Text)
    requires Sound(platform)
    ensures Verified(platform, Some(secret), Signed(platform, secret, payload))
         == if payload == [] then None else Some(WithoutMark(Repaired(payload)))
  {
    hide Verified, Signed, Carries, Repaired, WithoutMark;
    var signed := Signed(platform, secret, payload);
    var encoded := platform.encode(payload);
    assert platform.decode(encoded) == WithoutMark(Repaired(payload));
    SignedCarries(platform, secret, payload, encoded);
    AcceptedExactlyWhenSigned(platform, secret, signed, platform.decode(encoded));
    var r := Verified(platform, Some(secret), signed);
    if payload == [] && r.Some? {
      AcceptedExactlyWhenSigned(platform, secret, signed, r.value);
      var b :| Carries(platform, secret, signed, b) && r.value == platform.decode(b);
      SignedCarries(platform, secret, payload, b);
    }
  }

  /** Signing and then verifying gives the payload back exactly for the texts named on the right. */
  lemma SessionRoundTrip(platform: Platform, secret: string, payload: Text)
    requires Sound(platform)
    ensures Verified(platform, Some(secret), Signed(platform, secret, payload)) == Some(payload) <==>
      && payload != [] && payload[0] != 0xFEFF
      && forall i {:trigger payload[i]} :: 0 <= i < |payload| ==>
           && (0xD800 <= payload[i] <= 0xDBFF ==> i + 1 < |payload| && 0xDC00 <= payload[i + 1] <= 0xDFFF)
           && (0xDC00 <= payload[i] <= 0xDFFF ==> i > 0 && 0xD800 <= payload[i - 1] <= 0xDBFF)
  {
    hide Verified, Signed, Repaired;
    PayloadComesBackRepaired(platform, secret, payload);
    DecodesToItselfExactly(platform, payload);
    assert platform.decode(platform.encode(payload)) == WithoutMark(Repaired(payload));
  }
}
