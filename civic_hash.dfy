/** The password fingerprint of the civic-issue tracker (`simpleHash`,
    script.js): a 32-bit wrapping polynomial string hash rendered in decimal. */
module CivicHash {
  import JsText

  const TWO_32: int := 0x1_0000_0000
  const MIN_INT32: int := -0x8000_0000
  const MAX_INT32: int := 0x7FFF_FFFF

  predicate IsInt32(n: int) { MIN_INT32 <= n <= MAX_INT32 }

  /** ECMAScript ToInt32: the signed 32-bit integer congruent to `n` modulo 2^32. */
  function ToInt32(n: int): (r: int)
    ensures IsInt32(r)
    ensures (n - r) % TWO_32 == 0
    ensures IsInt32(n) ==> r == n
  {
    (n - MIN_INT32) % TWO_32 + MIN_INT32
  }

  /** `h << 5` on a number: both operands go through ToInt32. */
  function ShiftLeft5(h: int): int {
    ToInt32(ToInt32(h) * 32)
  }

  /** One loop step: `hash = ((hash << 5) - hash) + char; hash = hash & hash`.
      The subtraction and addition are exact on doubles at these magnitudes;
      `x & x` is ToInt32(x). */
  function Step(h: int, code: int): int {
    ToInt32(ShiftLeft5(h) - h + code)
  }

  /** The value of `hash` after the loop has consumed the code units `s`. */
  function HashOf(s: seq<int>): int
  {
    if s == [] then 0 else Step(HashOf(s[..|s| - 1]), s[|s| - 1])
  }

  /** Digits of a natural number, most significant first, without leading zeros. */
  function NatToDecimal(n: nat): (r: string)
    ensures |r| >= 1
    ensures forall i :: 0 <= i < |r| ==> '0' <= r[i] <= '9'
    ensures n > 0 ==> r[0] != '0'
  {
    if n < 10 then [('0' as int + n) as char]
    else NatToDecimal(n / 10) + [('0' as int + n % 10) as char]
  }

  /** `Number.prototype.toString()` on an integral number. */
  function IntToDecimal(n: int): string {
    if n < 0 then "-" + NatToDecimal(-n) else NatToDecimal(n)
  }

  /** Reads a run of decimal digits back. */
  function ParseDigits(s: string): int {
    if s == [] then 0 else ParseDigits(s[..|s| - 1]) * 10 + (s[|s| - 1] as int - '0' as int)
  }

  /** Reads an optionally signed decimal numeral back. */
  function ParseDecimal(s: string): int {
    if |s| > 0 && s[0] == '-' then -ParseDigits(s[1..]) else ParseDigits(s)
  }

  /** `simpleHash(str)`: the loop of script.js over the UTF-16 code units
      of `str` (`str.length` of them, read by `charCodeAt`). */
  method SimpleHash(str: string) returns (r: string)
    ensures r == IntToDecimal(HashOf(JsText.Utf16(str)))
  {
    var units := JsText.Utf16(str);
    var hash := 0;
    for i := 0 to |units|
      invariant hash == HashOf(units[..i])
    {
      assert units[..i + 1][..i] == units[..i];
      var code := units[i];
      hash := (ShiftLeft5(hash) - hash) + code;
      hash := ToInt32(hash);
    }
    assert units[..|units|] == units;
    r := IntToDecimal(hash);
  }

  /** The fingerprint as a function, for the specifications that use it. */
  function HashText(s: string): string {
    IntToDecimal(HashOf(JsText.Utf16(s)))
  }

  lemma ModuloShift(x: int, k: int)
    ensures (x + k * TWO_32) % TWO_32 == x % TWO_32
  {
  }

  /** ToInt32 depends only on the residue modulo 2^32. */
  lemma ToInt32Congruent(a: int, b: int)
    requires (a - b) % TWO_32 == 0
    ensures ToInt32(a) == ToInt32(b)
  {
    var k := (a - b) / TWO_32;
    assert a == b + k * TWO_32;
    ModuloShift(b - MIN_INT32, k);
    assert a - MIN_INT32 == (b - MIN_INT32) + k * TWO_32;
  }

  /** Each loop step maps `h` to wrap32(31 * h + code). */
  lemma StepIsWrapped31(h: int, code: int)
    requires IsInt32(h)
    ensures Step(h, code) == ToInt32(31 * h + code)
  {
    var s := ToInt32(h * 32);
    assert (h * 32 - s) % TWO_32 == 0;
    ToInt32Congruent(s - h + code, 31 * h + code);
  }

  /** The hash of any string is a signed 32-bit integer, the result of the
      recurrence h' = wrap32(31 h + code) from h = 0. */
  lemma {:induction false} HashRecurrence(s: seq<int>, c: int)
    ensures IsInt32(HashOf(s))
    ensures HashOf(s + [c]) == ToInt32(31 * HashOf(s) + c)
  {
    assert (s + [c])[..|s + [c]| - 1] == s;
    if s != [] {
      HashRecurrence(s[..|s| - 1], s[|s| - 1]);
      assert s[..|s| - 1] + [s[|s| - 1]] == s;
    }
    StepIsWrapped31(HashOf(s), c);
  }

  /** The empty password hashes to "0". */
  lemma HashOfEmpty()
    ensures HashText("") == "0"
  {
  }

  lemma {:induction false} ParseNatToDecimal(n: nat)
    ensures ParseDigits(NatToDecimal(n)) == n
  {
    if n >= 10 {
      var s := NatToDecimal(n);
      assert s[..|s| - 1] == NatToDecimal(n / 10);
      ParseNatToDecimal(n / 10);
    }
  }

  /** The decimal rendering is read back to the same integer. */
  lemma DecimalRoundTrip(n: int)
    ensures ParseDecimal(IntToDecimal(n)) == n
  {
    if n < 0 {
      var s := IntToDecimal(n);
      assert s[1..] == NatToDecimal(-n);
      ParseNatToDecimal(-n);
    } else {
      ParseNatToDecimal(n);
    }
  }

  /** Distinct hash values give distinct stored fingerprints. */
  lemma DecimalInjective(a: int, b: int)
    requires IntToDecimal(a) == IntToDecimal(b)
    ensures a == b
  {
    DecimalRoundTrip(a);
    DecimalRoundTrip(b);
  }
}
