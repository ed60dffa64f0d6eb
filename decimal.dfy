/** Decimal text and the numeric parsers the pipeline relies on:
    `U256::from_dec_str` for token amounts, the `Display` of `U256`, and the
    standard library's `FromStr` for the primitive integers `u64` (timestamps)
    and `i32` (page counters). */
module Decimal {
  import opened Wrappers

  const U256_LIMIT: nat := 0x1_0000_0000_0000_0000_0000_0000_0000_0000_0000_0000_0000_0000_0000_0000_0000_0000
  const U64_LIMIT: nat := 0x1_0000_0000_0000_0000
  const I32_MAX: int := 0x7FFF_FFFF
  /** The magnitude of `i32::MIN`. */
  const I32_MIN_MAGNITUDE: int := 0x8000_0000

  /** An unsigned 256-bit integer, as `ethereum_types::U256`. */
  type U256 = n: nat | n < U256_LIMIT
  type U64 = n: nat | n < U64_LIMIT
  type I32 = n: int | -I32_MIN_MAGNITUDE <= n <= I32_MAX

  predicate IsDigit(c: char)
  {
    '0' <= c <= '9'
  }

  function DigitValue(c: char): (d: nat)
    requires IsDigit(c)
    ensures d < 10
  {
    c as int - '0' as int
  }

  function DigitChar(d: nat): (c: char)
    requires d < 10
    ensures IsDigit(c) && DigitValue(c) == d
  {
    ('0' as int + d) as char
  }

  predicate AllDigits(s: string)
  {
    forall i :: 0 <= i < |s| ==> IsDigit(s[i])
  }

  /** The number a string of decimal digits denotes, most significant first. */
  function Value(s: string): nat
    requires AllDigits(s)
    decreases |s|
  {
    if s == [] then 0 else Value(s[..|s| - 1]) * 10 + DigitValue(s[|s| - 1])
  }

  /** Decimal text as `Display` writes an unsigned integer: at least one
      digit, and no leading zero unless the number is zero. */
  predicate IsCanonical(s: string)
  {
    |s| > 0 && AllDigits(s) && (s[0] == '0' ==> |s| == 1)
  }

  /** The `Display` of an unsigned integer: exact base-10 digits, with no
      sign, separator or exponent. */
  function Render(n: nat): (s: string)
    ensures IsCanonical(s) && Value(s) == n
    decreases n
  {
    if n < 10 then [DigitChar(n)]
    else
      var s := Render(n / 10) + [DigitChar(n % 10)];
      assert s[..|s| - 1] == Render(n / 10);
      s
  }

  lemma {:induction false} ValueOfSnoc(p: string, c: char)
    requires AllDigits(p) && IsDigit(c)
    ensures AllDigits(p + [c]) && Value(p + [c]) == Value(p) * 10 + DigitValue(c)
  {
    assert (p + [c])[..|p|] == p;
  }

  /** Appending digits never makes a number smaller. */
  lemma {:induction false} ValueOfPrefix(q: string, r: string)
    requires AllDigits(q + r)
    ensures AllDigits(q) && Value(q) <= Value(q + r)
    decreases |r|
  {
    assert forall i :: 0 <= i < |q| ==> (q + r)[i] == q[i];
    if r != [] {
      var r' := r[..|r| - 1];
      assert (q + r)[..|q + r| - 1] == q + r';
      ValueOfPrefix(q, r');
    } else {
      assert q + r == q;
    }
  }

  /** A canonical numeral with more than one digit starts with a non-zero
      digit, so it denotes at least ten. */
  lemma {:induction false} CanonicalAtLeastTen(s: string)
    requires IsCanonical(s) && |s| >= 2
    ensures Value(s[..|s| - 1]) >= 1
  {
    var p := s[..|s| - 1];
    assert AllDigits(p);
    ValueOfPrefix(p[..1], p[1..]);
    assert p[..1] + p[1..] == p;
    assert p[..1][..0] == [];
  }

  /** Digit strings of one length are equal when their values are. */
  lemma {:induction false} SameLengthSameValue(a: string, b: string)
    requires AllDigits(a) && AllDigits(b) && |a| == |b| && Value(a) == Value(b)
    ensures a == b
    decreases |a|
  {
    if |a| > 0 {
      var k := |a| - 1;
      var pa, pb := a[..k], b[..k];
      assert AllDigits(pa) && AllDigits(pb);
      assert Value(pa) * 10 + DigitValue(a[k]) == Value(pb) * 10 + DigitValue(b[k]);
      assert DigitValue(a[k]) == DigitValue(b[k]) && Value(pa) == Value(pb);
      SameLengthSameValue(pa, pb);
      assert a == pa + [a[k]] && b == pb + [b[k]];
    }
  }

  /** Rendering undoes parsing on canonical text: "1000" reads as 1000 and
      renders as "1000". Together with the contract of `Render`, decimal
      text and numbers are in one-to-one correspondence. */
  lemma {:induction false} CanonicalRoundTrip(s: string)
    requires IsCanonical(s)
    ensures Render(Value(s)) == s
    decreases |s|
  {
    if |s| >= 2 {
      var p := s[..|s| - 1];
      CanonicalAtLeastTen(s);
      assert IsCanonical(p);
      CanonicalRoundTrip(p);
      assert Value(s) / 10 == Value(p);
      assert Value(s) % 10 == DigitValue(s[|s| - 1]);
      assert DigitChar(DigitValue(s[|s| - 1])) == s[|s| - 1];
      assert s == p + [s[|s| - 1]];
    } else {
      assert s == [s[0]];
      assert s[..0] == [];
      assert DigitChar(DigitValue(s[0])) == s[0];
    }
  }

  /** The checked digit loop shared by `U256::from_dec_str` and the standard
      library's integer parsers: it reads digits left to right, rejects a
      non-digit when it reaches it, and fails as soon as the value read so
      far passes `limit`. */
  function Accumulate(digits: string, acc: nat, limit: nat): (r: Result<nat, IntErrorKind>)
    requires acc <= limit
    ensures r.Ok? ==> acc <= r.value <= limit
    ensures r.Err? ==> r.error == InvalidDigit || r.error == PosOverflow
    decreases |digits|
  {
    if digits == [] then Ok(acc)
    else if !IsDigit(digits[0]) then Err(InvalidDigit)
    else if acc * 10 + DigitValue(digits[0]) > limit then Err(PosOverflow)
    else Accumulate(digits[1..], acc * 10 + DigitValue(digits[0]), limit)
  }

  /** The digit loop succeeds exactly on all-digit input whose value fits,
      and then yields that value; on all-digit input it can only overflow. */
  lemma {:induction false} AccumulateValue(p: string, digits: string, limit: nat)
    requires AllDigits(p) && Value(p) <= limit
    ensures Accumulate(digits, Value(p), limit).Ok?
            <==> AllDigits(p + digits) && Value(p + digits) <= limit
    ensures Accumulate(digits, Value(p), limit).Ok?
            ==> Accumulate(digits, Value(p), limit).value == Value(p + digits)
    ensures AllDigits(digits) && Accumulate(digits, Value(p), limit).Err?
            ==> Accumulate(digits, Value(p), limit).error == PosOverflow
    decreases |digits|
  {
    if digits == [] {
      assert p + digits == p;
    } else if !IsDigit(digits[0]) {
      assert (p + digits)[|p|] == digits[0];
    } else {
      var c := digits[0];
      ValueOfSnoc(p, c);
      assert p + digits == (p + [c]) + digits[1..];
      if Value(p) * 10 + DigitValue(c) > limit {
        if AllDigits(p + digits) {
          ValueOfPrefix(p + [c], digits[1..]);
        }
      } else {
        AccumulateValue(p + [c], digits[1..], limit);
        assert AllDigits(digits) ==> AllDigits(digits[1..]);
      }
    }
  }

  /** `U256::from_dec_str`: every byte must be a decimal digit
      (`InvalidCharacter` otherwise), and the value must fit in 256 bits
      (`InvalidLength` otherwise). */
  function ParseU256(s: string): (r: Result<U256, Error>)
    ensures r.Ok? <==> AllDigits(s) && Value(s) < U256_LIMIT
    ensures r.Ok? ==> r.value == Value(s)
    ensures r.Err? ==> r.error == AmountError(if AllDigits(s) then InvalidLength else InvalidCharacter)
  {
    if !AllDigits(s) then Err(AmountError(InvalidCharacter))
    else
      AccumulateValue([], s, U256_LIMIT - 1);
      assert [] + s == s;
      match Accumulate(s, 0, U256_LIMIT - 1)
      case Ok(v) => Ok(v)
      case Err(_) => Err(AmountError(InvalidLength))
  }

  /** Every 256-bit amount survives rendering and parsing back. */
  lemma AmountRoundTrip(n: U256, text: string)
    requires text == Render(n)
    ensures ParseU256(text) == Ok(n)
  {
  }

  /** Canonical amount text survives parsing and rendering back. */
  lemma {:induction false} AmountTextRoundTrip(s: string)
    requires IsCanonical(s) && ParseU256(s).Ok?
    ensures Render(ParseU256(s).value) == s
  {
    CanonicalRoundTrip(s);
  }

  /** The text of an integer literal as the standard library reads it: an
      optional sign (`-` only for a signed type), then at least one digit. */
  predicate IsIntegerLiteral(s: string, signed: bool)
  {
    if |s| > 0 && (s[0] == '+' || (signed && s[0] == '-')) then |s| > 1 && AllDigits(s[1..])
    else |s| > 0 && AllDigits(s)
  }

  function LiteralValue(s: string, signed: bool): int
    requires IsIntegerLiteral(s, signed)
  {
    if s[0] == '+' then Value(s[1..])
    else if signed && s[0] == '-' then -(Value(s[1..]) as int)
    else Value(s)
  }

  /** `FromStr` of a primitive integer type whose values are
      `-negLimit ..= posLimit`; the type is signed exactly when `negLimit`
      is positive. */
  function ParsePrimitive(s: string, posLimit: nat, negLimit: nat): (r: Result<int, Error>)
    ensures r.Ok? ==> -(negLimit as int) <= r.value <= posLimit
    ensures r.Err? ==> r.error.IntError?
  {
    if |s| == 0 then Err(IntError(Empty))
    else if (s[0] == '+' || s[0] == '-') && |s| == 1 then Err(IntError(InvalidDigit))
    else if s[0] == '-' && negLimit > 0 then
      match Accumulate(s[1..], 0, negLimit)
      case Ok(m) => Ok(-(m as int))
      case Err(k) => Err(IntError(if k == PosOverflow then NegOverflow else k))
    else
      match Accumulate(if s[0] == '+' then s[1..] else s, 0, posLimit)
      case Ok(v) => Ok(v)
      case Err(k) => Err(IntError(k))
  }

  /** The standard library's integer parser accepts exactly the literals
      whose value is in range, and reads them exactly. */
  lemma {:induction false} ParsePrimitiveCorrect(s: string, posLimit: nat, negLimit: nat)
    ensures ParsePrimitive(s, posLimit, negLimit).Ok?
            <==> IsIntegerLiteral(s, negLimit > 0)
                 && -(negLimit as int) <= LiteralValue(s, negLimit > 0) <= posLimit
    ensures ParsePrimitive(s, posLimit, negLimit).Ok?
            ==> ParsePrimitive(s, posLimit, negLimit).value == LiteralValue(s, negLimit > 0)
  {
    if |s| > 0 {
      var digits := if s[0] == '+' || (negLimit > 0 && s[0] == '-') then s[1..] else s;
      assert [] + digits == digits;
      if s[0] == '-' && negLimit > 0 {
        AccumulateValue([], digits, negLimit);
      } else {
        AccumulateValue([], digits, posLimit);
        if s[0] == '-' {
          assert !IsDigit(s[0]);
        }
      }
    }
  }

  /** `u64::from_str`. */
  function ParseU64(s: string): (r: Result<U64, Error>)
    ensures r.Ok? <==> IsIntegerLiteral(s, false) && LiteralValue(s, false) < U64_LIMIT
    ensures r.Ok? ==> r.value == LiteralValue(s, false)
    ensures r.Err? ==> r.error.IntError?
  {
    ParsePrimitiveCorrect(s, U64_LIMIT - 1, 0);
    match ParsePrimitive(s, U64_LIMIT - 1, 0)
    case Ok(v) => Ok(v)
    case Err(e) => Err(e)
  }

  /** `i32::from_str`. */
  function ParseI32(s: string): (r: Result<I32, Error>)
    ensures r.Ok? <==> IsIntegerLiteral(s, true)
                       && -I32_MIN_MAGNITUDE <= LiteralValue(s, true) <= I32_MAX
    ensures r.Ok? ==> r.value == LiteralValue(s, true)
    ensures r.Err? ==> r.error.IntError?
  {
    ParsePrimitiveCorrect(s, I32_MAX, I32_MIN_MAGNITUDE);
    match ParsePrimitive(s, I32_MAX, I32_MIN_MAGNITUDE)
    case Ok(v) => Ok(v)
    case Err(e) => Err(e)
  }
}
