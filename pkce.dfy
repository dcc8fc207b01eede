/** lib/pkce.ts: the PKCE helpers. `base64url` turns a digest into unpadded
    base64url text; `randomString` draws a code verifier. The random bytes that
    `crypto.getRandomValues` would supply are a parameter; `sha256` is not modelled. */
module Pkce {
  import opened JsString

  type Byte = x: int | 0 <= x < 256

  /** Character `k` of `A`..`Z`, `a`..`z`, `0`..`9`. */
  function AlphaNumChar(k: nat): char
    requires k < 62
  {
    if k < 26 then ('A' as int + k) as char
    else if k < 52 then ('a' as int + k - 26) as char
    else ('0' as int + k - 52) as char
  }

  /** `A`..`Z`, `a`..`z` and `0`..`9`, in that order: the 62 characters every
      alphabet below starts with. */
  function AlphaNum(): (s: string)
    ensures |s| == 62 && forall k :: 0 <= k < 62 ==> s[k] == AlphaNumChar(k)
  {
    seq(62, k requires 0 <= k < 62 => AlphaNumChar(k))
  }

  /** The standard alphabet of section 4 of RFC 4648. */
  const StdAlphabet: string := AlphaNum() + "+/"
  /** The URL- and filename-safe alphabet of section 5 of RFC 4648. */
  const UrlAlphabet: string := AlphaNum() + "-_"
  const Pad: char := '='

  /** The characters of a base64 encoding with alphabet `alpha`, before any
      padding: 4 characters per full 3-byte group, then 2 or 3 for a partial one. */
  function EncodeGroups(b: seq<Byte>, alpha: string): (r: string)
    requires |alpha| == 64
    ensures |r| == (4 * |b| + 2) / 3
    ensures forall k :: 0 <= k < |r| ==> r[k] in alpha
  {
    if |b| >= 3 then
      [alpha[b[0] / 4], alpha[(b[0] % 4) * 16 + b[1] / 16], alpha[(b[1] % 16) * 4 + b[2] / 64], alpha[b[2] % 64]]
      + EncodeGroups(b[3..], alpha)
    else if |b| == 2 then
      [alpha[b[0] / 4], alpha[(b[0] % 4) * 16 + b[1] / 16], alpha[(b[1] % 16) * 4]]
    else if |b| == 1 then
      [alpha[b[0] / 4], alpha[(b[0] % 4) * 16]]
    else
      ""
  }

  /** Number of `=` that complete the last quantum (section 3.2 of RFC 4648). */
  function PadCount(n: nat): nat {
    if n % 3 == 0 then 0 else 3 - n % 3
  }

  /** Base64 of section 4 of RFC 4648, padded: what `Buffer.toString("base64")` returns. */
  function Base64(b: seq<Byte>): string {
    EncodeGroups(b, StdAlphabet) + seq(PadCount(|b|), _ => Pad)
  }

  /** `s.replace(/x/g, y)` for single characters `x` and `y`. */
  function ReplaceAll(s: string, x: char, y: char): string {
    MapChars(c => if c == x then y else c, s)
  }

  /** `s.replace(/c+$/g, "")`: drops the run of `c` at the end. */
  function DropTrailing(s: string, c: char): (r: string)
    ensures |r| <= |s| && r == s[..|r|]
    ensures r == [] || r[|r| - 1] != c
    ensures forall k :: |r| <= k < |s| ==> s[k] == c
  {
    if s != [] && s[|s| - 1] == c then DropTrailing(s[..|s| - 1], c) else s
  }

  /** `base64url` of lib/pkce.ts: standard base64 with `+` and `/` replaced and the
      padding stripped. */
  function Base64Url(b: seq<Byte>): string {
    DropTrailing(ReplaceAll(ReplaceAll(Base64(b), '+', '-'), '/', '_'), Pad)
  }

  /** The unpadded base64url encoding exactly as section 5 of RFC 4648 defines it,
      an independent reference for `Base64Url`. */
  function RfcBase64Url(b: seq<Byte>): string {
    EncodeGroups(b, UrlAlphabet)
  }

  function UrlSafe(c: char): char {
    if c == '+' then '-' else if c == '/' then '_' else c
  }

  lemma UrlAlphabetIsMappedStd()
    ensures |StdAlphabet| == |UrlAlphabet| == 64
    ensures forall k :: 0 <= k < 64 ==> UrlSafe(StdAlphabet[k]) == UrlAlphabet[k]
    ensures Pad !in UrlAlphabet
  {
    assert forall k :: 0 <= k < 62 ==> StdAlphabet[k] == AlphaNum()[k] == UrlAlphabet[k];
  }

  lemma ReplaceTwiceIsUrlSafe(s: string)
    ensures ReplaceAll(ReplaceAll(s, '+', '-'), '/', '_') == MapChars(UrlSafe, s)
  {
  }

  lemma MapCharsConcat(f: char -> char, s: string, t: string)
    ensures MapChars(f, s + t) == MapChars(f, s) + MapChars(f, t)
  {
  }

  /** Mapping the characters of an encoding maps its alphabet. */
  lemma {:induction false} EncodeGroupsUrlSafe(b: seq<Byte>)
    ensures MapChars(UrlSafe, EncodeGroups(b, StdAlphabet)) == EncodeGroups(b, UrlAlphabet)
    decreases |b|
  {
    UrlAlphabetIsMappedStd();
    if |b| >= 3 {
      EncodeGroupsUrlSafe(b[3..]);
      var head := [StdAlphabet[b[0] / 4], StdAlphabet[(b[0] % 4) * 16 + b[1] / 16],
                   StdAlphabet[(b[1] % 16) * 4 + b[2] / 64], StdAlphabet[b[2] % 64]];
      var tail := EncodeGroups(b[3..], StdAlphabet);
      assert EncodeGroups(b, StdAlphabet) == head + tail;
      assert MapChars(UrlSafe, head + tail) == MapChars(UrlSafe, head) + MapChars(UrlSafe, tail);
    }
  }

  /** `base64url` agrees with the unpadded encoding of section 5 of RFC 4648. */
  lemma Base64UrlIsRfc(b: seq<Byte>)
    ensures Base64Url(b) == RfcBase64Url(b)
  {
    var body := EncodeGroups(b, StdAlphabet);
    var pad := seq(PadCount(|b|), _ => Pad);
    var url := EncodeGroups(b, UrlAlphabet);
    ReplaceTwiceIsUrlSafe(body + pad);
    MapCharsConcat(UrlSafe, body, pad);
    EncodeGroupsUrlSafe(b);
    assert MapChars(UrlSafe, pad) == pad;
    UrlAlphabetIsMappedStd();
    DropPadding(url, |pad|);
  }

  lemma {:induction false} DropPadding(s: string, n: nat)
    requires Pad !in s
    ensures DropTrailing(s + seq(n, _ => Pad), Pad) == s
  {
    if n > 0 {
      var t := s + seq(n, _ => Pad);
      assert t[..|t| - 1] == s + seq(n - 1, _ => Pad);
      DropPadding(s, n - 1);
    } else {
      assert s + seq(0, _ => Pad) == s;
    }
  }

  /** The output is URL-safe text without padding: no `+`, `/` or `=`, and
      ceil(4n/3) characters for n bytes. */
  lemma Base64UrlShape(b: seq<Byte>)
    ensures var r := Base64Url(b);
      && |r| == (4 * |b| + 2) / 3
      && '+' !in r && '/' !in r && '=' !in r
      && forall k :: 0 <= k < |r| ==> r[k] in UrlAlphabet
  {
    Base64UrlIsRfc(b);
    UrlAlphabetIsMappedStd();
    var r := Base64Url(b);
    assert forall c :: c in UrlAlphabet ==> c != '+' && c != '/' && c != '=';
  }

  /** The 66 characters `randomString` draws from. */
  const VerifierChars: string := AlphaNum() + "-._~"

  /** Default length of a code verifier. */
  const DefaultVerifierLength: nat := 64

  /** `unreserved` of section 4.1 of RFC 7636: ALPHA / DIGIT / "-" / "." / "_" / "~". */
  predicate IsUnreserved(c: char) {
    ('A' <= c <= 'Z') || ('a' <= c <= 'z') || ('0' <= c <= '9') || c == '-' || c == '.' || c == '_' || c == '~'
  }

  /** A `code_verifier` of section 4.1 of RFC 7636: 43 to 128 unreserved characters. */
  predicate IsCodeVerifier(s: string) {
    43 <= |s| <= 128 && forall k :: 0 <= k < |s| ==> IsUnreserved(s[k])
  }

  /** The alphabet is exactly the unreserved set, each character once. */
  lemma VerifierCharsAreUnreserved()
    ensures |VerifierChars| == 66
    ensures forall k :: 0 <= k < |VerifierChars| ==> IsUnreserved(VerifierChars[k])
    ensures forall c :: IsUnreserved(c) ==> c in VerifierChars
    ensures forall j, k :: 0 <= j < k < |VerifierChars| ==> VerifierChars[j] != VerifierChars[k]
  {
    assert forall k :: 0 <= k < 62 ==> VerifierChars[k] == AlphaNum()[k];
    forall c | IsUnreserved(c) ensures c in VerifierChars {
      if 'A' <= c <= 'Z' {
        assert VerifierChars[c as int - 'A' as int] == c;
      } else if 'a' <= c <= 'z' {
        assert VerifierChars[c as int - 'a' as int + 26] == c;
      } else if '0' <= c <= '9' {
        assert VerifierChars[c as int - '0' as int + 52] == c;
      } else {
        assert c == VerifierChars[62] || c == VerifierChars[63] || c == VerifierChars[64] || c == VerifierChars[65];
      }
    }
  }

  /** `randomString(len)`: character `i` is `chars[bytes[i] % 66]`, where `bytes`
      stands for the `len` values `crypto.getRandomValues` fills in. */
  method RandomString(random: seq<Byte>, len: nat := DefaultVerifierLength) returns (out: string)
    requires |random| == len
    ensures |out| == len
    ensures forall k :: 0 <= k < len ==> out[k] == VerifierChars[random[k] % |VerifierChars|]
    ensures forall k :: 0 <= k < len ==> IsUnreserved(out[k])
    ensures 43 <= len <= 128 ==> IsCodeVerifier(out)
  {
    VerifierCharsAreUnreserved();
    out := "";
    for i := 0 to len
      invariant |out| == i
      invariant forall k :: 0 <= k < i ==> out[k] == VerifierChars[random[k] % |VerifierChars|]
    {
      out := out + [VerifierChars[random[i] % |VerifierChars|]];
    }
  }

  /** The default length is a valid verifier length, so a default call yields
      a code verifier. */
  lemma DefaultLengthIsValid(s: string)
    requires |s| == DefaultVerifierLength
    requires forall k :: 0 <= k < |s| ==> IsUnreserved(s[k])
    ensures IsCodeVerifier(s)
  {
  }
}
