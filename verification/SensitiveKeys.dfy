/** Which field names count as credentials. */
module SensitiveKeys {
  import opened Common

  /** Go's Unicode tables, as far as key canonicalization uses them. */
  datatype Unicode = Unicode(lower: char -> char, letterOrDigit: char -> bool)

  function Canonicalized(u: Unicode, s: string): string {
    if s == "" then ""
    else
      var c := u.lower(s[0]);
      (if u.letterOrDigit(c) then [c] else []) + Canonicalized(u, s[1..])
  }

  function CanonicalKey(u: Unicode, key: string): string {
    Canonicalized(u, TrimSpace(key))
  }

  /** strings.HasSuffix. */
  predicate HasSuffix(s: string, suffix: string) {
    |s| >= |suffix| && s[|s| - |suffix|..] == suffix
  }

  /** strings.TrimSuffix. */
  function TrimSuffix(s: string, suffix: string): string {
    if HasSuffix(s, suffix) then s[..|s| - |suffix|] else s
  }

  const SENSITIVE_EXACT: set<string> := {"passwordconfirmation", "mfacode", "pin", "recoverycode", "verificationcode"}
  const SENSITIVE_QUERY_EXACT: set<string> := {"code", "key", "sig"}

  predicate HasSensitiveSuffix(key: string) {
    key != "" &&
    match key[|key| - 1]
    case 'd' => HasSuffix(key, "password") || HasSuffix(key, "passwd") || HasSuffix(key, "sessionid")
                || HasSuffix(key, "accesskeyid")
    case 'e' => HasSuffix(key, "cookie") || HasSuffix(key, "signature")
    case 'f' => HasSuffix(key, "csrf")
    case 'h' => HasSuffix(key, "auth")
    case 'l' => HasSuffix(key, "credential")
    case 'n' => HasSuffix(key, "token") || HasSuffix(key, "authorization")
    case 'p' => HasSuffix(key, "otp")
    case 's' => HasSuffix(key, "credentials")
    case 't' => HasSuffix(key, "secret")
    case 'y' => HasSuffix(key, "apikey") || HasSuffix(key, "privatekey") || HasSuffix(key, "signingkey")
                || HasSuffix(key, "secretaccesskey") || HasSuffix(key, "encryptionkey")
    case _ => false
  }

  function TrimSensitiveQualifier(key: string): string {
    if key == "" then ""
    else
      match key[|key| - 1]
      case 'e' => TrimSuffix(key, "value")
      case 'h' => TrimSuffix(key, "hash")
      case 'r' => TrimSuffix(key, "header")
      case 't' => TrimSuffix(key, "plaintext")
      case _ => ""
  }

  predicate IsSensitiveKey(u: Unicode, raw: string) {
    var key := CanonicalKey(u, raw);
    key != "" &&
    (key in SENSITIVE_EXACT || HasSensitiveSuffix(key)
     || (TrimSensitiveQualifier(key) != "" && HasSensitiveSuffix(TrimSensitiveQualifier(key))))
  }

  predicate IsSensitiveQueryKey(u: Unicode, raw: string) {
    IsSensitiveKey(u, raw) || CanonicalKey(u, raw) in SENSITIVE_QUERY_EXACT
  }

  // ------------------------------------------------------------ the plain tests

  const ACCOUNT_WORDS: set<string> :=
    {"password", "passwd", "sessionid", "accesskeyid", "credential", "credentials", "otp"}
  const SIGNATURE_WORDS: set<string> := {"cookie", "signature", "csrf", "auth", "token", "authorization", "secret"}
  const KEY_WORDS: set<string> := {"apikey", "privatekey", "signingkey", "secretaccesskey", "encryptionkey"}

  const SUFFIXES: set<string> := ACCOUNT_WORDS + SIGNATURE_WORDS + KEY_WORDS

  const QUALIFIERS: set<string> := {"value", "hash", "header", "plaintext"}

  predicate HasAnySuffix(key: string, suffixes: set<string>) {
    exists suffix :: suffix in suffixes && HasSuffix(key, suffix)
  }

  lemma SuffixFixesLastCharacter(key: string, suffix: string)
    requires suffix != "" && HasSuffix(key, suffix)
    ensures key != "" && key[|key| - 1] == suffix[|suffix| - 1]
  {
    assert key[|key| - |suffix|..][|suffix| - 1] == key[|key| - 1];
  }

  lemma AccountWordIsDispatched(key: string, suffix: string)
    requires suffix in ACCOUNT_WORDS && HasSuffix(key, suffix)
    ensures HasSensitiveSuffix(key)
  {
    hide HasSuffix;
    SuffixFixesLastCharacter(key, suffix);
  }

  lemma SignatureWordIsDispatched(key: string, suffix: string)
    requires suffix in SIGNATURE_WORDS && HasSuffix(key, suffix)
    ensures HasSensitiveSuffix(key)
  {
    hide HasSuffix;
    SuffixFixesLastCharacter(key, suffix);
  }

  lemma KeyWordIsDispatched(key: string, suffix: string)
    requires suffix in KEY_WORDS && HasSuffix(key, suffix)
    ensures HasSensitiveSuffix(key)
  {
    hide HasSuffix;
    SuffixFixesLastCharacter(key, suffix);
  }

  /** Dispatching on the last character loses no suffix: it is the plain test against all of them. */
  lemma DispatchIsPlainSuffixTest(key: string)
    ensures HasSensitiveSuffix(key) <==> HasAnySuffix(key, SUFFIXES)
  {
    if HasAnySuffix(key, SUFFIXES) {
      var suffix :| suffix in SUFFIXES && HasSuffix(key, suffix);
      if suffix in ACCOUNT_WORDS {
        AccountWordIsDispatched(key, suffix);
      } else if suffix in SIGNATURE_WORDS {
        SignatureWordIsDispatched(key, suffix);
      } else {
        KeyWordIsDispatched(key, suffix);
      }
    }
  }

  lemma QualifierIsDispatched(key: string, qualifier: string)
    requires qualifier in QUALIFIERS && HasSuffix(key, qualifier)
    ensures TrimSensitiveQualifier(key) == TrimSuffix(key, qualifier)
  {
    SuffixFixesLastCharacter(key, qualifier);
  }

  /** A key is a credential exactly when it is listed, ends in a credential word, or does so before one qualifier. */
  lemma SensitiveMeansPlainly(u: Unicode, raw: string)
    ensures var key := CanonicalKey(u, raw);
      IsSensitiveKey(u, raw) <==>
        || key in SENSITIVE_EXACT
        || HasAnySuffix(key, SUFFIXES)
        || exists q :: q in QUALIFIERS && HasSuffix(key, q) && HasAnySuffix(TrimSuffix(key, q), SUFFIXES)
  {
    hide CanonicalKey, HasSensitiveSuffix;
    var key := CanonicalKey(u, raw);
    DispatchIsPlainSuffixTest(key);
    DispatchIsPlainSuffixTest(TrimSensitiveQualifier(key));
    forall q | q in QUALIFIERS && HasSuffix(key, q) ensures TrimSensitiveQualifier(key) == TrimSuffix(key, q) {
      QualifierIsDispatched(key, q);
    }
  }

  /** The words themselves. */
  lemma CredentialWordsAre(word: string)
    ensures word in SUFFIXES <==> word in {
      "password", "passwd", "sessionid", "accesskeyid", "cookie", "signature", "csrf", "auth", "credential",
      "credentials", "token", "authorization", "otp", "secret", "apikey", "privatekey", "signingkey",
      "secretaccesskey", "encryptionkey"}
    ensures word in SENSITIVE_EXACT <==>
      word in {"passwordconfirmation", "mfacode", "pin", "recoverycode", "verificationcode"}
    ensures word in QUALIFIERS <==> word in {"value", "hash", "header", "plaintext"}
  {
  }

  /** Query parameters have three names more. */
  lemma QuerySensitiveMeansPlainly(u: Unicode, raw: string)
    ensures IsSensitiveQueryKey(u, raw) <==> IsSensitiveKey(u, raw) || CanonicalKey(u, raw) in {"code", "key", "sig"}
  {
    hide IsSensitiveKey, CanonicalKey;
  }

  /** The canonical form consists of the lower-case forms that are letters or digits, in order. */
  lemma {:induction false} CanonicalGrows(u: Unicode, s: string, c: char)
    ensures Canonicalized(u, "") == ""
    ensures Canonicalized(u, s + [c])
         == Canonicalized(u, s) + (if u.letterOrDigit(u.lower(c)) then [u.lower(c)] else "")
  {
    if s != "" {
      assert (s + [c])[1..] == s[1..] + [c];
      CanonicalGrows(u, s[1..], c);
    }
  }

  lemma SuffixIs(s: string, suffix: string, head: string)
    ensures HasSuffix(s, suffix) <==> exists front :: s == front + suffix
    ensures TrimSuffix(head + suffix, suffix) == head
    ensures !HasSuffix(s, suffix) ==> TrimSuffix(s, suffix) == s
  {
    if HasSuffix(s, suffix) {
      assert s == s[..|s| - |suffix|] + suffix;
    }
  }

  /** Lower-case ASCII letters are letters in lower case. */
  predicate KnowsAscii(u: Unicode) {
    forall c :: 'a' <= c <= 'z' ==> u.lower(c) == c && u.letterOrDigit(c)
  }

  lemma {:induction false} LettersAreCanonical(u: Unicode, s: string)
    requires KnowsAscii(u) && forall i :: 0 <= i < |s| ==> 'a' <= s[i] <= 'z'
    ensures Canonicalized(u, s) == s
  {
    if s != "" {
      LettersAreCanonical(u, s[1..]);
    }
  }

  lemma PasswordIsSensitive(u: Unicode)
    requires KnowsAscii(u)
    ensures IsSensitiveKey(u, "password")
  {
    var word := "password";
    TrimSpaceFixpoint(word);
    LettersAreCanonical(u, word);
    hide Canonicalized, TrimSensitiveQualifier, TrimSpace;
    assert HasSuffix(word, "password") && word[|word| - 1] == 'd';
  }
}
