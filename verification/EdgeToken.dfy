/**
  The edge node credential: a printed selector and secret, parsed back strictly. The secret's text is base64url
  (section 5 of RFC 4648) without padding, accepted in its canonical form only (section 3.5).
 */
module EdgeToken {
  import opened Base
  import opened Text

  const SECRET_BYTES: nat := 32
  const DOT: nat := 46
  const UNDERSCORE: nat := 95
  const UPPER_A: nat := 65
  const PREFIX: Text := [118, 116, 101, 49, 46]
  const TOKEN_LENGTH: nat := |PREFIX| + 36 + 1 + 43

  type Byte = x: nat | x < 256

  type Six = x: nat | x < 64

  // ------------------------------------------------------------- bytes in groups of six bits

  function GroupSix(a: Byte, b: Byte, c: Byte): (t: seq<Six>)
    ensures |t| == 4
  {
    [a / 4, a % 4 * 16 + b / 16, b % 16 * 4 + c / 64, c % 64]
  }

  function LastSix(a: Byte, b: Byte): (t: seq<Six>)
    ensures |t| == 3
  {
    [a / 4, a % 4 * 16 + b / 16, b % 16 * 4]
  }

  // Whole groups of three bytes and a last one of two, which is the shape of 32 bytes.
  function ToSix(bytes: seq<Byte>): (t: seq<Six>)
    requires |bytes| % 3 == 2
    ensures 3 * |t| == 4 * |bytes| + 1 && |t| % 4 == 3
  {
    if |bytes| == 2 then LastSix(bytes[0], bytes[1])
    else GroupSix(bytes[0], bytes[1], bytes[2]) + ToSix(bytes[3..])
  }

  function GroupBytes(p: Six, q: Six, r: Six, s: Six): (bytes: seq<Byte>)
    ensures |bytes| == 3
  {
    [p * 4 + q / 16, q % 16 * 16 + r / 4, r % 4 * 64 + s]
  }

  // The low bits of the last six belong to no byte and are dropped.
  function LastBytes(p: Six, q: Six, r: Six): (bytes: seq<Byte>)
    ensures |bytes| == 2
  {
    [p * 4 + q / 16, q % 16 * 16 + r / 4]
  }

  function FromSix(t: seq<Six>): (bytes: seq<Byte>)
    requires |t| % 4 == 3
    ensures 4 * |bytes| == 3 * |t| - 1 && |bytes| % 3 == 2
  {
    if |t| == 3 then LastBytes(t[0], t[1], t[2]) else GroupBytes(t[0], t[1], t[2], t[3]) + FromSix(t[4..])
  }

  lemma Packed(hi: nat, lo: nat)
    ensures lo < 4 ==> (hi * 4 + lo) / 4 == hi && (hi * 4 + lo) % 4 == lo
    ensures lo < 16 ==> (hi * 16 + lo) / 16 == hi && (hi * 16 + lo) % 16 == lo
    ensures lo < 64 ==> (hi * 64 + lo) / 64 == hi && (hi * 64 + lo) % 64 == lo
  {}

  lemma GroupRoundTrip(a: Byte, b: Byte, c: Byte)
    ensures var t := GroupSix(a, b, c); GroupBytes(t[0], t[1], t[2], t[3]) == [a, b, c]
  {
    Packed(a % 4, b / 16);
    Packed(b % 16, c / 64);
  }

  lemma LastRoundTrip(a: Byte, b: Byte)
    ensures var t := LastSix(a, b); LastBytes(t[0], t[1], t[2]) == [a, b]
  {
    Packed(a % 4, b / 16);
    Packed(b % 16, 0);
  }

  lemma FromSixOfGroup(g: seq<Six>, rest: seq<Six>)
    requires |g| == 4 && |rest| % 4 == 3
    ensures FromSix(g + rest) == GroupBytes(g[0], g[1], g[2], g[3]) + FromSix(rest)
  {
    assert (g + rest)[4..] == rest;
  }

  lemma {:induction false} FromSixOfToSix(bytes: seq<Byte>)
    requires |bytes| % 3 == 2
    ensures FromSix(ToSix(bytes)) == bytes
  {
    var a, b := bytes[0], bytes[1];
    if |bytes| == 2 {
      LastRoundTrip(a, b);
      assert bytes == [a, b];
    } else {
      var c, rest := bytes[2], bytes[3..];
      GroupRoundTrip(a, b, c);
      FromSixOfGroup(GroupSix(a, b, c), ToSix(rest));
      FromSixOfToSix(rest);
      assert bytes == [a, b, c] + rest;
    }
  }

  lemma GroupIsCanonical(p: Six, q: Six, r: Six, s: Six)
    ensures var bytes := GroupBytes(p, q, r, s); GroupSix(bytes[0], bytes[1], bytes[2]) == [p, q, r, s]
  {
    Packed(p, q / 16);
    Packed(q % 16, r / 4);
    Packed(r % 4, s);
  }

  lemma LastIsCanonical(p: Six, q: Six, r: Six)
    ensures var bytes := LastBytes(p, q, r); LastSix(bytes[0], bytes[1]) == [p, q, r / 4 * 4]
  {
    Packed(p, q / 16);
    Packed(q % 16, r / 4);
  }

  lemma ToSixOfGroup(g: seq<Byte>, rest: seq<Byte>)
    requires |g| == 3 && |rest| % 3 == 2
    ensures ToSix(g + rest) == GroupSix(g[0], g[1], g[2]) + ToSix(rest)
  {
    assert (g + rest)[3..] == rest;
  }

  // Only the dropped bits are lost, and they come back as zeros.
  lemma {:induction false} ToSixOfFromSix(t: seq<Six>)
    requires |t| % 4 == 3
    ensures ToSix(FromSix(t)) == t[..|t| - 1] + [t[|t| - 1] / 4 * 4]
  {
    if |t| == 3 {
      LastIsCanonical(t[0], t[1], t[2]);
      assert t[..2] == [t[0], t[1]];
    } else {
      var rest := t[4..];
      ToSixOfFromSix(rest);
      GroupIsCanonical(t[0], t[1], t[2], t[3]);
      ToSixOfGroup(GroupBytes(t[0], t[1], t[2], t[3]), FromSix(rest));
      assert [t[0], t[1], t[2], t[3]] + rest[..|rest| - 1] == t[..|t| - 1];
    }
  }

  // ---------------------------------------------------------------------------- base64url

  predicate IsLetter(c: nat) {
    || UPPER_A <= c < UPPER_A + 26 || LOWER_A <= c < LOWER_A + 26 || ZERO <= c < ZERO + 10
    || c == DASH || c == UNDERSCORE
  }

  function Letter(v: Six): (c: nat)
    ensures IsLetter(c) && Sextet(c) == v
  {
    if v < 26 then UPPER_A + v
    else if v < 52 then LOWER_A + v - 26
    else if v < 62 then ZERO + v - 52
    else if v == 62 then DASH else UNDERSCORE
  }

  function Sextet(c: nat): Six
    requires IsLetter(c)
  {
    if c == DASH then 62
    else if c == UNDERSCORE then 63
    else if c < UPPER_A then 52 + c - ZERO
    else if c < LOWER_A then c - UPPER_A
    else 26 + c - LOWER_A
  }

  predicate AllLetters(t: Text) { forall i :: 0 <= i < |t| ==> IsLetter(t[i]) }

  function Letters(s: seq<Six>): (t: Text)
    ensures |t| == |s| && AllLetters(t)
  {
    seq(|s|, i requires 0 <= i < |s| => Letter(s[i]))
  }

  function Sextets(t: Text): (s: seq<Six>)
    requires AllLetters(t)
    ensures |s| == |t| && forall i :: 0 <= i < |t| ==> s[i] == Sextet(t[i])
  {
    seq(|t|, i requires 0 <= i < |t| => Sextet(t[i]))
  }

  lemma LettersRoundTrip(s: seq<Six>)
    ensures Sextets(Letters(s)) == s
  {}

  lemma SextetsRoundTrip(t: Text)
    requires AllLetters(t)
    ensures Letters(Sextets(t)) == t
  {}

  function Encode(bytes: seq<Byte>): (t: Text)
    requires |bytes| % 3 == 2
    ensures 3 * |t| == 4 * |bytes| + 1 && |t| % 4 == 3 && AllLetters(t)
  {
    Letters(ToSix(bytes))
  }

  function Decode(t: Text): (bytes: seq<Byte>)
    requires |t| % 4 == 3 && AllLetters(t)
    ensures 4 * |bytes| == 3 * |t| - 1 && |bytes| % 3 == 2
  {
    FromSix(Sextets(t))
  }

  lemma DecodeOfEncode(bytes: seq<Byte>)
    requires |bytes| % 3 == 2
    ensures Decode(Encode(bytes)) == bytes
  {
    LettersRoundTrip(ToSix(bytes));
    FromSixOfToSix(bytes);
  }

  // Decoding and encoding again gives the same text exactly when no dropped bit was set.
  lemma EncodeOfDecodeIff(t: Text)
    requires |t| % 4 == 3 && AllLetters(t)
    ensures Encode(Decode(t)) == t <==> Sextet(t[|t| - 1]) % 4 == 0
  {
    var s, n := Sextets(t), |t| - 1;
    ToSixOfFromSix(s);
    SextetsRoundTrip(t);
    LettersRoundTrip(ToSix(Decode(t)));
    assert ToSix(Decode(t))[n] == s[n] / 4 * 4;
    if s[n] % 4 == 0 { assert s[..n] + [s[n]] == s; }
  }

  // ------------------------------------------------------------------------------- tokens

  type Secret = s: seq<Byte> | |s| == SECRET_BYTES witness seq(32, _ => 0)

  // The digest of a domain, the selector and the secret's text, taken to be collision free.
  datatype Digest = Digest(selector: Uuid, secret: Text)

  datatype Presented = Presented(selector: Uuid, digest: Digest)

  function PrintToken(selector: Uuid, secret: Secret): (t: Text)
    ensures |t| == TOKEN_LENGTH
  {
    PREFIX + UuidText(selector) + [DOT] + Encode(secret)
  }

  // What issuing a credential prints once and what it stores.
  function Issue(selector: Uuid, secret: Secret): (Text, Digest) {
    (PrintToken(selector, secret), Digest(selector, Encode(secret)))
  }

  predicate Shaped(raw: Text) {
    && |raw| == TOKEN_LENGTH
    && raw[..5] == PREFIX && raw[41] == DOT
    && HasDashes(raw[5..41]) && IsHex(Undashed(raw[5..41]))
    && AllLetters(raw[42..])
  }

  // None: malformed.
  function ParseToken(raw: Text): Option<Presented> {
    if !Shaped(raw) then None
    else
      var selector, secret := ParseUuid(raw[5..41]), raw[42..];
      var decoded := Decode(secret);
      if selector.None? || |decoded| != SECRET_BYTES then None
      else if Encode(decoded) != secret then None
      else Some(Presented(selector.value, Digest(selector.value, secret)))
  }

  lemma PrintedParts(selector: Uuid, letters: Text)
    requires |letters| == 43
    ensures var raw := PREFIX + UuidText(selector) + [DOT] + letters;
      raw[..5] == PREFIX && raw[5..41] == UuidText(selector) && raw[41] == DOT && raw[42..] == letters
  {}

  lemma UuidTextIsShaped(selector: Uuid)
    ensures HasDashes(UuidText(selector)) && IsHex(Undashed(UuidText(selector)))
  {
    DashesRoundTrip(Hex(selector, UUID_HEX_DIGITS));
  }

  // A printed token parses to its selector and to the digest that was stored for it.
  lemma IssuedTokenAuthenticates(selector: Uuid, secret: Secret)
    ensures ParseToken(Issue(selector, secret).0) == Some(Presented(selector, Issue(selector, secret).1))
  {
    PrintedParts(selector, Encode(secret));
    UuidTextIsShaped(selector);
    UuidRoundTrip(selector);
    DecodeOfEncode(secret);
  }

  // Every accepted text is exactly what printing its selector and its secret gives.
  lemma AcceptedTokenIsPrinted(raw: Text) returns (secret: Secret)
    requires ParseToken(raw).Some?
    ensures raw == PrintToken(ParseToken(raw).value.selector, secret)
    ensures ParseToken(raw).value.digest == Digest(ParseToken(raw).value.selector, Encode(secret))
  {
    secret := Decode(raw[42..]);
    ParsedUuidIsCanonical(raw[5..41]);
    assert raw == raw[..5] + raw[5..41] + [raw[41]] + raw[42..];
  }

  // Of the texts of the right shape exactly those with clear trailing bits are accepted.
  lemma AcceptedIffCanonical(raw: Text)
    ensures ParseToken(raw).Some? <==> Shaped(raw) && Sextet(raw[TOKEN_LENGTH - 1]) % 4 == 0
  {
    if Shaped(raw) { EncodeOfDecodeIff(raw[42..]); }
  }

  // Two issued credentials share a token or a stored digest only if they are the same credential.
  lemma TokensAreDistinct(a: Uuid, x: Secret, b: Uuid, y: Secret)
    requires Issue(a, x).0 == Issue(b, y).0 || Issue(a, x).1 == Issue(b, y).1
    ensures a == b && x == y
  {
    IssuedTokenAuthenticates(a, x);
    IssuedTokenAuthenticates(b, y);
    DecodeOfEncode(x);
    DecodeOfEncode(y);
  }
}
