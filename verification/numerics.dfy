/** The Rust primitive conversions the authentication layer relies on:
    the `as` casts between integer widths, `u32::to_string` and
    `str::parse::<i64>`. Integers are unbounded here, so every width and
    every wrap-around is written out. */
module Numerics {
  import opened Results

  const U32_LIMIT: int := 0x1_0000_0000
  const USIZE_LIMIT: int := 0x1_0000_0000_0000_0000
  const I32_MIN: int := -0x8000_0000
  const I32_MAX: int := 0x7FFF_FFFF
  const I64_MIN: int := -0x8000_0000_0000_0000
  const I64_MAX: int := 0x7FFF_FFFF_FFFF_FFFF

  type U32 = x: int | 0 <= x < U32_LIMIT
  /** `usize` on the 64-bit targets the server is built for. */
  type Usize = x: int | 0 <= x < USIZE_LIMIT
  type I32 = x: int | I32_MIN <= x <= I32_MAX
  type I64 = x: int | I64_MIN <= x <= I64_MAX

  /** `x as usize` for a two's-complement `x`: keeps the low 64 bits, so a
      negative value wraps to a large one. */
  function AsUsize(x: int): (r: Usize)
    ensures 0 <= x < USIZE_LIMIT ==> r == x
    ensures x < 0 && -USIZE_LIMIT <= x ==> r == x + USIZE_LIMIT
  {
    x % USIZE_LIMIT
  }

  /** `x as u32` for an `i32`: a negative id wraps to the top half of `u32`. */
  function AsU32(x: I32): (r: U32)
    ensures 0 <= x ==> r == x
    ensures x < 0 ==> r == x + U32_LIMIT
  {
    x % U32_LIMIT
  }

  predicate IsDigit(c: char) {
    '0' <= c <= '9'
  }

  predicate AllDigits(s: string) {
    forall i :: 0 <= i < |s| ==> IsDigit(s[i])
  }

  function DigitChar(d: nat): (c: char)
    requires d < 10
    ensures IsDigit(c)
    ensures c as int - '0' as int == d
  {
    ('0' as int + d) as char
  }

  /** The number a string of decimal digits denotes, most significant first. */
  function DigitsValue(s: string): nat
    requires AllDigits(s)
  {
    if |s| == 0 then 0
    else DigitsValue(s[..|s| - 1]) * 10 + (s[|s| - 1] as int - '0' as int)
  }

  /** `n.to_string()` for an unsigned integer: shortest decimal, no sign. */
  function NatToString(n: nat): (s: string)
    ensures |s| > 0 && AllDigits(s)
    ensures DigitsValue(s) == n
    ensures |s| > 1 ==> s[0] != '0'
  {
    if n < 10 then [DigitChar(n)]
    else
      var prefix := NatToString(n / 10);
      var s := prefix + [DigitChar(n % 10)];
      assert s[..|s| - 1] == prefix;
      s
  }

  /** The digits after an optional sign, parsed as a magnitude; empty or
      non-digit input fails. */
  function ParseMagnitude(ds: string): Option<nat> {
    if |ds| > 0 && AllDigits(ds) then Some(DigitsValue(ds)) else None
  }

  /** The grammar of an integer literal, stated apart from the parser:
      the text after an optional sign is a non-empty run of ASCII digits. */
  function Unsigned(s: string): string {
    if |s| > 0 && (s[0] == '+' || s[0] == '-') then s[1..] else s
  }

  predicate WellFormedInteger(s: string) {
    |Unsigned(s)| > 0 && AllDigits(Unsigned(s))
  }

  /** The value a well-formed literal denotes. */
  function SignedValue(s: string): int
    requires WellFormedInteger(s)
  {
    (if s[0] == '-' then -1 else 1) * DigitsValue(Unsigned(s))
  }

  /** `s.parse::<i64>()`: an optional leading `+` or `-`, then one or more
      ASCII digits and nothing else; a value outside the `i64` range is
      an overflow error. */
  function ParseI64(s: string): (r: Option<I64>)
    ensures r.Some? <==> WellFormedInteger(s) && I64_MIN <= SignedValue(s) <= I64_MAX
    ensures r.Some? ==> r.value == SignedValue(s)
    ensures r.Some? ==> IsDigit(s[0]) || ((s[0] == '+' || s[0] == '-') && |s| > 1)
    ensures r.Some? ==> forall i :: 1 <= i < |s| ==> IsDigit(s[i])
  {
    if |s| == 0 then None
    else if (s[0] == '+' || s[0] == '-') && |s| == 1 then None
    else
      var negative := s[0] == '-';
      var digits := if s[0] == '+' || s[0] == '-' then s[1..] else s;
      match ParseMagnitude(digits)
      case None => None
      case Some(m) =>
        var v: int := if negative then 0 - m as int else m;
        if I64_MIN <= v <= I64_MAX then Some(v) else None
  }

  /** A leading zero does not change a run of digits' value. */
  lemma {:induction false} DigitsValueLeadingZero(ds: string)
    requires AllDigits(ds)
    ensures AllDigits("0" + ds)
    ensures DigitsValue("0" + ds) == DigitsValue(ds)
  {
    var t := "0" + ds;
    assert AllDigits(t) by {
      forall i | 0 <= i < |t|
        ensures IsDigit(t[i])
      {
        if i > 0 {
          assert t[i] == ds[i - 1];
        }
      }
    }
    if |ds| > 0 {
      var init := ds[..|ds| - 1];
      assert t[..|t| - 1] == "0" + init;
      DigitsValueLeadingZero(init);
    }
  }

  /** Leading zeros are accepted and ignored, so the parse is not
      injective: "0036" reads as 36, like "36". */
  lemma ParseIgnoresLeadingZero(ds: string)
    requires |ds| > 0 && AllDigits(ds)
    ensures ParseI64("0" + ds) == ParseI64(ds)
  {
    DigitsValueLeadingZero(ds);
    assert ("0" + ds)[0] == '0';
  }

  /** Reading back what `to_string` wrote gives the number back, for every
      value `i64` can hold. */
  lemma ParseNatToString(n: nat)
    requires n <= I64_MAX
    ensures ParseI64(NatToString(n)) == Some(n)
  {
  }

  /** A leading minus sign negates, down to `i64::MIN` inclusive. */
  lemma ParseNegative(n: nat)
    requires n <= -I64_MIN
    ensures ParseI64("-" + NatToString(n)) == Some(-(n as int))
  {
  }

  /** One past `i64::MAX` is an overflow, not a wrap-around. */
  lemma ParseOverflow()
    ensures ParseI64(NatToString(I64_MAX + 1)) == None
  {
  }

  /** Distinct numbers have distinct decimal forms, so a subject string
      names exactly one id. */
  lemma NatToStringInjective(m: nat, n: nat)
    requires NatToString(m) == NatToString(n)
    ensures m == n
  {
  }
}
