/** Text as the ledger turns it into digest input and reads digests back:
    `str(n)` of an integer, `str.encode()` of ASCII text, and the lower-case
    hexadecimal text `hexdigest()` returns. */
module Text {

  type byte = x: int | 0 <= x < 256

  predicate IsAscii(s: string) {
    forall i :: 0 <= i < |s| ==> s[i] as int < 128
  }

  /** Text made of ASCII characters only, as `json.dumps` produces with its
      default `ensure_ascii=True` and as `str(n)` produces for an int. */
  type Ascii = s: string | IsAscii(s)

  /** `s.encode()`: UTF-8 encodes an ASCII character as the one byte that
      holds its code point. */
  function Encode(s: Ascii): (r: seq<byte>)
    ensures |r| == |s|
    ensures forall i :: 0 <= i < |s| ==> r[i] == s[i] as int
  {
    seq(|s|, i requires 0 <= i < |s| => s[i] as int)
  }

  /** `bytes.decode()` of ASCII bytes. */
  function Decode(b: seq<byte>): (r: Ascii)
    requires forall i :: 0 <= i < |b| ==> b[i] < 128
    ensures |r| == |b|
  {
    seq(|b|, i requires 0 <= i < |b| => b[i] as char)
  }

  /** Encoding loses nothing: different texts make different bytes. */
  lemma DecodeEncode(s: Ascii)
    ensures Decode(Encode(s)) == s
  {
  }

  predicate IsDigit(c: char) {
    '0' <= c <= '9'
  }

  function DigitChar(d: nat): (c: char)
    requires d < 10
    ensures IsDigit(c)
  {
    ('0' as int + d) as char
  }

  function DigitValue(c: char): (d: nat)
    requires IsDigit(c)
    ensures d < 10
  {
    c as int - '0' as int
  }

  /** The decimal digits of `n`, most significant first, without leading
      zeros (`"0"` for zero). */
  function Digits(n: nat): (r: string)
    ensures |r| > 0
    ensures forall i :: 0 <= i < |r| ==> IsDigit(r[i])
    ensures r[0] == '0' ==> r == "0"
  {
    if n < 10 then [DigitChar(n)] else Digits(n / 10) + [DigitChar(n % 10)]
  }

  /** The number a string of decimal digits denotes. */
  function DigitsValue(s: string): (r: nat)
    requires forall i :: 0 <= i < |s| ==> IsDigit(s[i])
  {
    if |s| == 0 then 0 else DigitsValue(s[..|s| - 1]) * 10 + DigitValue(s[|s| - 1])
  }

  lemma {:induction false} DigitsRoundTrip(n: nat)
    ensures DigitsValue(Digits(n)) == n
  {
    if n >= 10 {
      var s := Digits(n);
      assert s[..|s| - 1] == Digits(n / 10);
      DigitsRoundTrip(n / 10);
    }
  }

  /** `str(n)` (and `f'{n}'`) of a Python int. */
  function Decimal(n: int): (r: string)
    ensures IsDecimal(r) && IsAscii(r)
    ensures r[0] == '-' <==> n < 0
    ensures r[0] == '0' ==> r == "0"
    ensures r[0] == '-' ==> r[1] != '0'
  {
    if n < 0 then "-" + Digits(-n) else Digits(n)
  }

  predicate IsDecimal(s: string) {
    |s| > 0 &&
    if s[0] == '-' then |s| > 1 && forall i :: 1 <= i < |s| ==> IsDigit(s[i])
    else forall i :: 0 <= i < |s| ==> IsDigit(s[i])
  }

  /** `int(s)` of a decimal text. */
  function ParseDecimal(s: string): (r: int)
    requires IsDecimal(s)
  {
    if s[0] == '-' then 0 - DigitsValue(s[1..]) else DigitsValue(s)
  }

  /** `int(str(n)) == n`: the text of an int denotes that int, so two
      different ints never print alike. */
  lemma DecimalRoundTrip(n: int)
    ensures IsDecimal(Decimal(n)) && IsAscii(Decimal(n))
    ensures ParseDecimal(Decimal(n)) == n
  {
    if n < 0 {
      DigitsRoundTrip(-n);
      assert Decimal(n)[1..] == Digits(-n);
    } else {
      DigitsRoundTrip(n);
    }
  }

  predicate IsHexDigit(c: char) {
    '0' <= c <= '9' || 'a' <= c <= 'f'
  }

  /** What `hashlib.sha256(...).hexdigest()` returns: 64 lower-case hex
      digits, four bits each. */
  type HexDigest = s: string | |s| == 64 && forall i :: 0 <= i < |s| ==> IsHexDigit(s[i])
    witness seq(64, _ => '0')

  function HexDigitValue(c: char): (d: nat)
    requires IsHexDigit(c)
    ensures d < 16
    ensures d == 0 <==> c == '0'
  {
    if '0' <= c <= '9' then c as int - '0' as int else c as int - 'a' as int + 10
  }

  function Pow16(k: nat): (r: nat)
    ensures r > 0
  {
    if k == 0 then 1 else 16 * Pow16(k - 1)
  }

  /** The number a hex text denotes, most significant digit first. */
  function HexValue(s: string): (r: nat)
    requires forall i :: 0 <= i < |s| ==> IsHexDigit(s[i])
    ensures r < Pow16(|s|)
  {
    if |s| == 0 then 0
    else
      var d, rest := HexDigitValue(s[0]), HexValue(s[1..]);
      LeadingDigitBound(d, Pow16(|s| - 1), rest);
      d * Pow16(|s| - 1) + rest
  }

  lemma LeadingDigitBound(d: nat, p: nat, rest: nat)
    requires d < 16 && rest < p
    ensures p <= (d + 1) * p <= 16 * p
    ensures d * p + rest < (d + 1) * p
  {
  }

  /** A hex text starts with `k` zero digits exactly when the number it
      denotes is below 16 to the power of the remaining digits. */
  lemma {:induction false} LeadingZerosBelowTarget(s: string, k: nat)
    requires forall i :: 0 <= i < |s| ==> IsHexDigit(s[i])
    requires k <= |s|
    ensures (forall i :: 0 <= i < k ==> s[i] == '0') <==> HexValue(s) < Pow16(|s| - k)
  {
    if k > 0 {
      if s[0] == '0' {
        LeadingZerosBelowTarget(s[1..], k - 1);
        assert forall i :: 1 <= i < k ==> s[i] == s[1..][i - 1];
      } else {
        var d, p := HexDigitValue(s[0]), Pow16(|s| - 1);
        assert HexValue(s) == d * p + HexValue(s[1..]);
        assert d * p >= p by { LeadingDigitBound(d - 1, p, 0); }
        Pow16Monotone(|s| - k, |s| - 1);
      }
    }
  }

  lemma {:induction false} Pow16Monotone(a: nat, b: nat)
    requires a <= b
    ensures Pow16(a) <= Pow16(b)
  {
    if a < b { Pow16Monotone(a, b - 1); }
  }
}
