/** Canonical text of numbers and UUIDs, as sequences of code points, with their parsers. */
module Text {
  import opened Base

  type Text = seq<nat>

  const DASH: nat := 45
  const ZERO: nat := 48
  const LOWER_A: nat := 97

  // -------------------------------------------------------------------------- decimal

  function Digits(n: nat): (t: Text)
    ensures t != [] && forall c :: c in t ==> ZERO <= c < ZERO + 10
  {
    if n < 10 then [ZERO + n] else Digits(n / 10) + [ZERO + n % 10]
  }

  function Decimal(n: int): (t: Text)
    ensures forall c :: c in t ==> c == DASH || ZERO <= c < ZERO + 10
  {
    if n < 0 then [DASH] + Digits(-n) else Digits(n)
  }

  ghost function DigitsValue(t: Text): int {
    if t == [] then 0 else DigitsValue(t[..|t| - 1]) * 10 + (t[|t| - 1] - ZERO)
  }

  lemma {:induction false} DigitsRoundTrip(n: nat)
    ensures DigitsValue(Digits(n)) == n
  {
    if n < 10 {
      assert [ZERO + n][..0] == [];
    } else {
      DigitsRoundTrip(n / 10);
      assert (Digits(n / 10) + [ZERO + n % 10])[..|Digits(n / 10)|] == Digits(n / 10);
    }
  }

  lemma DecimalInjective(m: int, n: int)
    requires Decimal(m) == Decimal(n)
    ensures m == n
  {
    assert Decimal(m)[0] == DASH <==> m < 0 by { assert Digits(Abs(m))[0] in Digits(Abs(m)); }
    assert Decimal(n)[0] == DASH <==> n < 0 by { assert Digits(Abs(n))[0] in Digits(Abs(n)); }
    assert m < 0 ==> Decimal(m)[1..] == Digits(-m) && Decimal(n)[1..] == Digits(-n);
    DigitsRoundTrip(Abs(m));
    DigitsRoundTrip(Abs(n));
  }

  function Abs(n: int): nat { if n < 0 then -n else n }

  // ------------------------------------------------------------------------------ hex

  function Pow16(w: nat): (p: nat)
    ensures p > 0
  {
    if w == 0 then 1 else 16 * Pow16(w - 1)
  }

  function HexDigit(d: nat): nat
    requires d < 16
  {
    if d < 10 then ZERO + d else LOWER_A + d - 10
  }

  predicate IsHexDigit(c: nat) { ZERO <= c < ZERO + 10 || LOWER_A <= c < LOWER_A + 6 }

  function HexDigitValue(c: nat): nat { if c < LOWER_A then Max(0, c - ZERO) else c - LOWER_A + 10 }

  predicate IsHex(t: Text) { forall c :: c in t ==> IsHexDigit(c) }

  function Hex(n: nat, w: nat): (t: Text)
    ensures |t| == w && IsHex(t)
  {
    if w == 0 then [] else Hex(n / 16, w - 1) + [HexDigit(n % 16)]
  }

  function HexValue(t: Text): nat {
    if t == [] then 0 else HexValue(t[..|t| - 1]) * 16 + HexDigitValue(t[|t| - 1])
  }

  lemma HexDigitOfValue(c: nat)
    requires IsHexDigit(c)
    ensures HexDigitValue(c) < 16 && HexDigit(HexDigitValue(c)) == c
  {
  }

  lemma LowDigit(q: nat, d: nat)
    requires d < 16
    ensures (q * 16 + d) / 16 == q && (q * 16 + d) % 16 == d
  {
  }

  lemma HexValueOfDigit(d: nat)
    requires d < 16
    ensures HexDigitValue(HexDigit(d)) == d
  {
  }

  lemma HexValueOfMore(t: Text, d: nat)
    requires d < 16
    ensures HexValue(t + [HexDigit(d)]) == HexValue(t) * 16 + d
  {
    HexValueOfDigit(d);
    assert (t + [HexDigit(d)])[..|t|] == t;
  }

  lemma Shorter(n: nat, p: nat)
    requires n < 16 * p
    ensures n / 16 < p && n == n / 16 * 16 + n % 16
  {
  }

  lemma {:induction false} HexValueOfHex(n: nat, w: nat)
    requires n < Pow16(w)
    ensures HexValue(Hex(n, w)) == n
  {
    if w > 0 {
      Shorter(n, Pow16(w - 1));
      HexValueOfHex(n / 16, w - 1);
      HexValueOfMore(Hex(n / 16, w - 1), n % 16);
    }
  }

  lemma {:induction false} HexOfHexValue(t: Text)
    requires IsHex(t)
    ensures HexValue(t) < Pow16(|t|) && Hex(HexValue(t), |t|) == t
  {
    if t != [] {
      var n := |t| - 1;
      assert forall c :: c in t[..n] ==> c in t;
      HexOfHexValue(t[..n]);
      assert t[n] in t;
      HexDigitOfValue(t[n]);
      LowDigit(HexValue(t[..n]), HexDigitValue(t[n]));
      assert t == t[..n] + [t[n]];
    }
  }

  // ----------------------------------------------------------------------------- uuid

  const UUID_HEX_DIGITS: nat := 32

  type Uuid = x: nat | x < Pow16(UUID_HEX_DIGITS) witness 0

  // 8-4-4-4-12 lower-case hexadecimal digits.
  function Dashed(h: Text): (t: Text)
    requires |h| == 32
    ensures |t| == 36
  {
    h[..8] + [DASH] + h[8..12] + [DASH] + h[12..16] + [DASH] + h[16..20] + [DASH] + h[20..]
  }

  function Undashed(t: Text): (h: Text)
    requires |t| == 36
    ensures |h| == 32
  {
    t[..8] + t[9..13] + t[14..18] + t[19..23] + t[24..]
  }

  predicate HasDashes(t: Text) {
    |t| == 36 && t[8] == DASH && t[13] == DASH && t[18] == DASH && t[23] == DASH
  }

  lemma DashesRoundTrip(h: Text)
    requires |h| == 32
    ensures HasDashes(Dashed(h)) && Undashed(Dashed(h)) == h
  {
    var t := Dashed(h);
    assert t[..8] == h[..8] && t[9..13] == h[8..12] && t[14..18] == h[12..16];
    assert t[19..23] == h[16..20] && t[24..] == h[20..];
    assert h[..8] + h[8..12] + h[12..16] + h[16..20] + h[20..] == h;
  }

  lemma UndashedRoundTrip(t: Text)
    requires HasDashes(t)
    ensures Dashed(Undashed(t)) == t
  {
    var h := Undashed(t);
    assert h[..8] == t[..8] && h[8..12] == t[9..13] && h[12..16] == t[14..18];
    assert h[16..20] == t[19..23] && h[20..] == t[24..];
    assert t[..8] + [t[8]] + t[9..13] + [t[13]] + t[14..18] + [t[18]] + t[19..23] + [t[23]] + t[24..] == t;
  }

  function UuidText(id: Uuid): (t: Text)
    ensures |t| == 36
  {
    Dashed(Hex(id, UUID_HEX_DIGITS))
  }

  // Only the canonical lower-case form.
  function ParseUuid(t: Text): Option<Uuid> {
    if !HasDashes(t) || !IsHex(Undashed(t)) then None
    else
      HexOfHexValue(Undashed(t));
      Some(HexValue(Undashed(t)))
  }

  lemma UuidRoundTrip(id: Uuid)
    ensures ParseUuid(UuidText(id)) == Some(id)
  {
    DashesRoundTrip(Hex(id, UUID_HEX_DIGITS));
    HexValueOfHex(id, UUID_HEX_DIGITS);
  }

  lemma ParsedUuidIsCanonical(t: Text)
    ensures ParseUuid(t).Some? ==> UuidText(ParseUuid(t).value) == t
  {
    if ParseUuid(t).Some? {
      HexOfHexValue(Undashed(t));
      UndashedRoundTrip(t);
    }
  }

  lemma UuidTextCharacters(id: Uuid)
    ensures forall c :: c in UuidText(id) ==> c == DASH || IsHexDigit(c)
  {
    var h := Hex(id, UUID_HEX_DIGITS);
    forall c | c in UuidText(id) && c != DASH ensures c in h {
      var i :| 0 <= i < 36 && UuidText(id)[i] == c;
    }
  }
}
