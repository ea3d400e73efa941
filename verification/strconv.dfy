/** Go's `strconv.Atoi` on a 64-bit platform, and its inverse `strconv.Itoa`.
    `Atoi` accepts an optional sign followed by at least one ASCII digit and
    nothing else, and rejects values outside the int64 range. Go tells a
    syntax error from a range error; the cleaner only wraps whichever error it
    gets, so the model reports both as `None`. */
module Strconv {
  import opened Wrappers
  import opened Strings

  const MinInt64: int := -0x8000_0000_0000_0000
  const MaxInt64: int := 0x7FFF_FFFF_FFFF_FFFF

  /** The digits after an optional leading '+' or '-'. */
  function Unsigned(s: string): string {
    if |s| > 0 && (s[0] == '+' || s[0] == '-') then s[1..] else s
  }

  function Atoi(s: string): (r: Option<int>)
    ensures r.Some? ==> MinInt64 <= r.value <= MaxInt64
    ensures r.Some? <==> |Unsigned(s)| > 0 && AllDigits(Unsigned(s))
                         && MinInt64 <= Signed(s, DecimalValue(Unsigned(s))) <= MaxInt64
    ensures r.Some? ==> r.value == Signed(s, DecimalValue(Unsigned(s)))
  {
    var digits := Unsigned(s);
    if |digits| == 0 || !AllDigits(digits) then None
    else
      var v := Signed(s, DecimalValue(digits));
      if v < MinInt64 || v > MaxInt64 then None else Some(v)
  }

  /** The magnitude `m` with the sign written at the head of `s`. */
  function Signed(s: string, m: nat): int {
    if |s| > 0 && s[0] == '-' then -(m as int) else m
  }

  /** The shortest decimal digits of `n`. */
  function NatDigits(n: nat): (s: string)
    ensures |s| > 0 && AllDigits(s)
    ensures |s| > 1 ==> s[0] != '0'
  {
    if n < 10 then [DigitChar(n)]
    else NatDigits(n / 10) + [DigitChar(n % 10)]
  }

  /** `strconv.Itoa`: a '-' for negative numbers, then the shortest digits
      of the magnitude. */
  function Itoa(n: int): (s: string)
    ensures |s| > 0
  {
    if n < 0 then "-" + NatDigits(-n) else NatDigits(n)
  }

  lemma {:induction false} DecimalValueNatDigits(n: nat)
    ensures DecimalValue(NatDigits(n)) == n
  {
    if n >= 10 {
      var s := NatDigits(n);
      assert s[..|s| - 1] == NatDigits(n / 10);
      DecimalValueNatDigits(n / 10);
    }
  }

  /** Every int64 survives formatting and parsing. */
  lemma AtoiItoa(n: int)
    requires MinInt64 <= n <= MaxInt64
    ensures Atoi(Itoa(n)) == Some(n)
  {
    var s := Itoa(n);
    if n < 0 {
      assert Unsigned(s) == NatDigits(-n);
      DecimalValueNatDigits(-n);
    } else {
      assert Unsigned(s) == NatDigits(n);
      DecimalValueNatDigits(n);
    }
  }

  /** `Atoi` rejects the empty string, a lone sign and a letter. */
  lemma AtoiRejects()
    ensures Atoi("") == None
    ensures Atoi("-") == None
    ensures Atoi("1a") == None
  {
    assert !IsDigit("1a"[1]);
  }
}
