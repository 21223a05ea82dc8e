/** The thread-count rule of the CPU backend's constructor
    (server/bleep/src/semantic/embedder.rs:100-104): the value of
    `NUM_OMP_THREADS`, parsed as an integer, and 1 when the variable is unset
    or does not parse.

    The parse target is the parameter type of ort's `with_intra_threads`,
    which is `i16`; the parser is Rust's `str::parse` for a signed integer:
    an optional `+` or `-`, then one or more ASCII decimal digits, no
    surrounding whitespace, and the value within the type's range. */
module ThreadCount {
  import opened Common

  const I16_MIN: int := -0x8000
  const I16_MAX: int := 0x7FFF

  /** The thread count used when the variable is unset or unparseable. */
  const DEFAULT_THREADS: int := 1

  predicate IsDigit(c: char) {
    '0' <= c <= '9'
  }

  predicate AllDigits(s: string) {
    forall i :: 0 <= i < |s| ==> IsDigit(s[i])
  }

  function DigitValue(c: char): (d: nat)
    requires IsDigit(c)
    ensures d < 10
  {
    c as int - '0' as int
  }

  /** The value of a string of decimal digits, most significant first. */
  function DigitsValue(s: string): nat
    requires AllDigits(s)
  {
    if s == [] then 0 else DigitsValue(s[..|s| - 1]) * 10 + DigitValue(s[|s| - 1])
  }

  predicate IsSign(c: char) {
    c == '+' || c == '-'
  }

  /** The digits after an optional leading sign. */
  function Unsigned(s: string): string {
    if |s| > 0 && IsSign(s[0]) then s[1..] else s
  }

  /** The shape `str::parse` accepts: optional sign, then at least one digit. */
  predicate WellFormed(s: string) {
    |Unsigned(s)| > 0 && AllDigits(Unsigned(s))
  }

  /** The mathematical value of a well-formed numeral. */
  function Value(s: string): int
    requires WellFormed(s)
  {
    if s[0] == '-' then -(DigitsValue(Unsigned(s)) as int) else DigitsValue(Unsigned(s))
  }

  /** Reference meaning of `str::parse::<i16>`: the numeral's value when the
      text is well formed and the value fits, nothing otherwise. */
  function Parse(s: string): Option<int> {
    if WellFormed(s) && I16_MIN <= Value(s) <= I16_MAX then Some(Value(s)) else None
  }

  /** A longer digit string is worth at least as much as its prefix. */
  lemma {:induction false} PrefixValueBelow(t: string, k: nat)
    requires AllDigits(t) && k <= |t|
    ensures AllDigits(t[..k]) && DigitsValue(t[..k]) <= DigitsValue(t)
    decreases |t|
  {
    if k < |t| {
      var init := t[..|t| - 1];
      assert init[..k] == t[..k];
      PrefixValueBelow(init, k);
      assert DigitsValue(t) == DigitsValue(init) * 10 + DigitValue(t[|t| - 1]);
    } else {
      assert t[..k] == t;
    }
  }

  /** Appending a digit multiplies by ten and adds the digit. */
  lemma AppendDigit(t: string, c: char)
    requires AllDigits(t) && IsDigit(c)
    ensures AllDigits(t + [c]) && DigitsValue(t + [c]) == DigitsValue(t) * 10 + DigitValue(c)
  {
  }

  /** Rust's signed `from_str_radix` with radix 10, digit by digit with
      overflow checking, for `i16`. Its result is the reference parse. */
  method ParseI16(s: string) returns (r: Option<int>)
    ensures r == Parse(s)
    ensures r.Some? ==> I16_MIN <= r.value <= I16_MAX
  {
    if |s| == 0 {
      return None;
    }
    var negative := false;
    var digits := s;
    if IsSign(s[0]) {
      if |s| == 1 {
        return None;
      }
      negative := s[0] == '-';
      digits := s[1..];
    }
    assert digits == Unsigned(s) && |digits| > 0;
    var acc: int := 0;
    var i := 0;
    while i < |digits|
      invariant i <= |digits|
      invariant AllDigits(digits[..i])
      invariant acc == (if negative then -(DigitsValue(digits[..i]) as int) else DigitsValue(digits[..i]))
      invariant I16_MIN <= acc <= I16_MAX
    {
      if !IsDigit(digits[i]) {
        return None;
      }
      var d := DigitValue(digits[i]);
      AppendDigit(digits[..i], digits[i]);
      assert digits[..i + 1] == digits[..i] + [digits[i]];
      var next := if negative then acc * 10 - d else acc * 10 + d;
      if next < I16_MIN || next > I16_MAX {
        if AllDigits(digits) {
          PrefixValueBelow(digits, i + 1);
        }
        return None;
      }
      acc := next;
      i := i + 1;
    }
    assert digits[..i] == digits;
    return Some(acc);
  }

  /** The thread count given the variable's value (`None` when `env::var`
      fails: unset or not Unicode). */
  method IntraThreads(env: Option<string>) returns (n: int)
    ensures env.Some? && Parse(env.value).Some? ==> n == Parse(env.value).value
    ensures env.None? || Parse(env.value).None? ==> n == DEFAULT_THREADS
    ensures I16_MIN <= n <= I16_MAX
  {
    match env
    case None =>
      n := DEFAULT_THREADS;
    case Some(v) =>
      var parsed := ParseI16(v);
      n := if parsed.Some? then parsed.value else DEFAULT_THREADS;
  }

  /** The canonical decimal digits of a natural number. */
  function Digits(n: nat): (s: string)
    ensures |s| > 0
  {
    var last := ['0' + (n % 10) as char];
    if n < 10 then last else Digits(n / 10) + last
  }

  lemma {:induction false} DigitsValueOfDigits(n: nat)
    ensures AllDigits(Digits(n)) && DigitsValue(Digits(n)) == n
  {
    if n >= 10 {
      DigitsValueOfDigits(n / 10);
      var s := Digits(n);
      assert s[..|s| - 1] == Digits(n / 10);
    }
  }

  /** The canonical decimal text of an integer, with `-` for negatives. */
  function Decimal(n: int): string {
    if n < 0 then "-" + Digits(-n) else Digits(n)
  }

  /** Every thread count `i16` can hold is recovered by parsing its decimal
      text, so setting `NUM_OMP_THREADS` to a number selects that number. */
  lemma DecimalRoundTrip(n: int)
    requires I16_MIN <= n <= I16_MAX
    ensures Parse(Decimal(n)) == Some(n)
  {
    if n < 0 {
      DigitsValueOfDigits(-n);
      assert Unsigned(Decimal(n)) == Digits(-n);
    } else {
      DigitsValueOfDigits(n);
      assert Unsigned(Decimal(n)) == Digits(n);
    }
  }

  /** Text that is empty, a bare sign, padded with spaces or out of range
      falls back to the default. */
  lemma FallbackCases()
    ensures Parse("") == None && Parse("+") == None && Parse("-") == None
    ensures Parse(" 4") == None && Parse("4 ") == None
    ensures Parse("32768") == None && Parse("-32769") == None
  {
    assert !IsDigit(' ');
    assert " 4"[0] == ' ' && "4 "[1] == ' ';
    assert Unsigned("32768") == "32768";
    assert DigitsValue("32768") == 32768 by {
      assert "32768"[..4] == "3276" && "3276"[..3] == "327" && "327"[..2] == "32" && "32"[..1] == "3";
    }
    assert Unsigned("-32769") == "32769";
    assert DigitsValue("32769") == 32769 by {
      assert "32769"[..4] == "3276" && "3276"[..3] == "327" && "327"[..2] == "32" && "32"[..1] == "3";
    }
  }
}
