/** Rust's `str::parse::<i64>`, which the commands use for every numeric id
    they read: an optional sign, one or more ASCII digits, nothing else, and
    a value inside the signed 64-bit range. */
module IntParse {
  import opened Wrappers

  const I64Min: int := -0x8000_0000_0000_0000
  const I64Max: int := 0x7FFF_FFFF_FFFF_FFFF

  predicate InI64(n: int)
  {
    I64Min <= n <= I64Max
  }

  predicate IsDigit(c: char)
  {
    '0' <= c <= '9'
  }

  predicate AllDigits(s: string)
  {
    forall i :: 0 <= i < |s| ==> IsDigit(s[i])
  }

  /** The value of a digit string, most significant digit first. */
  function DigitsValue(s: string): nat
    requires AllDigits(s)
  {
    if |s| == 0 then 0
    else DigitsValue(s[..|s| - 1]) * 10 + (s[|s| - 1] as int - '0' as int)
  }

  /** The text shape `parse` accepts before the range check. */
  predicate WellFormed(s: string)
  {
    if |s| > 0 && (s[0] == '+' || s[0] == '-') then |s| > 1 && AllDigits(s[1..])
    else |s| > 0 && AllDigits(s)
  }

  /** The value a well-formed text denotes, before the range check. */
  function Denoted(s: string): int
    requires WellFormed(s)
  {
    if s[0] == '-' then 0 - DigitsValue(s[1..])
    else if s[0] == '+' then DigitsValue(s[1..])
    else DigitsValue(s)
  }

  /** `s.parse::<i64>()`: `None` is the `Err` the commands turn into
      "Wrong ... ID format." */
  function ParseI64(s: string): (r: Option<int>)
    ensures r.Some? <==> WellFormed(s) && InI64(Denoted(s))
    ensures r.Some? ==> r.value == Denoted(s)
  {
    if WellFormed(s) && InI64(Denoted(s)) then Some(Denoted(s)) else None
  }

  function DigitChar(d: int): (c: char)
    requires 0 <= d < 10
    ensures IsDigit(c) && c as int - '0' as int == d
  {
    ('0' as int + d) as char
  }

  /** Decimal text of a natural number, without leading zeros. */
  function ShowNat(n: nat): (s: string)
    ensures |s| > 0 && AllDigits(s)
    ensures |s| > 1 ==> s[0] != '0'
  {
    if n < 10 then [DigitChar(n)] else ShowNat(n / 10) + [DigitChar(n % 10)]
  }

  /** Decimal text of an integer, as `i64::to_string` prints it. */
  function ShowInt(n: int): (s: string)
    ensures |s| > 0
  {
    if n < 0 then "-" + ShowNat(-n) else ShowNat(n)
  }

  lemma {:induction false} DigitsShowNat(n: nat)
    ensures DigitsValue(ShowNat(n)) == n
    decreases n
  {
    var s := ShowNat(n);
    if n >= 10 {
      DigitsShowNat(n / 10);
      assert s[..|s| - 1] == ShowNat(n / 10);
    }
  }

  /** Every 64-bit value is read back from its printed form, and the
      printed form of any other integer is rejected. */
  lemma ParseShow(n: int)
    ensures ParseI64(ShowInt(n)) == if InI64(n) then Some(n) else None
  {
    var s := ShowInt(n);
    if n < 0 {
      DigitsShowNat(-n);
      assert s[1..] == ShowNat(-n);
    } else {
      DigitsShowNat(n);
    }
  }

  /** Texts that are not numbers at all are rejected. */
  lemma RejectsNonNumbers()
    ensures ParseI64("") == None && ParseI64("-") == None && ParseI64("+") == None
    ensures ParseI64("12a") == None && ParseI64(" 1") == None
  {
    assert !IsDigit("12a"[2]);
    assert !IsDigit(" 1"[0]);
  }
}
