/** The argument check of the arithmetic programs: parse with wrap-around, print again, compare. */
module Decimal {
  import opened Kernel

  predicate IsDigit(c: char) { '0' <= c <= '9' }

  function DigitOf(c: char): (d: nat)
    requires IsDigit(c)
    ensures d < 10
  {
    c as int - '0' as int
  }

  function DigitChar(d: nat): (c: char)
    requires d < 10
    ensures IsDigit(c) && DigitOf(c) == d
  {
    (d + '0' as int) as char
  }

  predicate AllDigits(s: string) { forall i :: 0 <= i < |s| ==> IsDigit(s[i]) }

  /** The number that a string of digits denotes, without any bound. */
  function Value(s: string): nat
    requires AllDigits(s)
    decreases |s|
  {
    if s == [] then 0 else 10 * Value(s[..|s| - 1]) + DigitOf(s[|s| - 1])
  }

  /** Each digit more makes it ten times the number plus the digit. */
  lemma {:induction false} ValueOfOneMore(s: string, c: char)
    requires AllDigits(s) && '0' <= c <= '9'
    ensures AllDigits(s + [c]) && Value(s + [c]) == 10 * Value(s) + (c as int - 48) && Value("") == 0
  {
    assert (s + [c])[..|s|] == s;
  }

  /** What `%llu` prints. */
  function Print(n: nat): (s: string)
    ensures AllDigits(s) && |s| > 0
    decreases n
  {
    if n < 10 then [DigitChar(n)] else Print(n / 10) + [DigitChar(n % 10)]
  }

  /** The numerals that `%llu` can print: digits, at least one, and no leading zero. */
  predicate Canonical(s: string) {
    |s| > 0 && AllDigits(s) && (s[0] == '0' ==> |s| == 1)
  }

  // ----- printing and reading are inverse to each other -----

  lemma {:induction false} PrintReadsBack(n: nat)
    ensures Canonical(Print(n)) && Value(Print(n)) == n && (n > 0 ==> Print(n)[0] != '0')
    decreases n
  {
    var s := Print(n);
    if n < 10 {
      assert s[..0] == "";
    } else {
      PrintReadsBack(n / 10);
      assert s[..|s| - 1] == Print(n / 10);
    }
  }

  lemma {:induction false} ValueIsPositive(s: string)
    requires Canonical(s) && s[0] != '0'
    ensures Value(s) > 0
    decreases |s|
  {
    if |s| > 1 { ValueIsPositive(s[..|s| - 1]); }
  }

  /** A canonical numeral is the only one with its value. */
  lemma {:induction false} ReadPrintsBack(s: string)
    requires Canonical(s)
    ensures Print(Value(s)) == s
    decreases |s|
  {
    var init := s[..|s| - 1];
    if |s| == 1 {
      assert init == "" && Value(init) == 0;
    } else {
      ValueIsPositive(init);
      ReadPrintsBack(init);
      assert s == init + [s[|s| - 1]];
    }
  }

  // ----- the conversion -----

  /** One step of the unsigned 64-bit accumulation has the same remainder as the unbounded one. */
  lemma {:induction false} WrapStep(v: nat, d: nat)
    ensures ((v % U64_RANGE) * 10 % U64_RANGE + d) % U64_RANGE == (10 * v + d) % U64_RANGE
  {
    var q, r := v / U64_RANGE, v % U64_RANGE;
    var q2, r2 := (r * 10) / U64_RANGE, (r * 10) % U64_RANGE;
    assert 10 * v + d == (r2 + d) + U64_RANGE * (10 * q + q2);
    AddMultiple(r2 + d, 10 * q + q2);
  }

  lemma {:induction false} AddMultiple(a: nat, k: nat)
    ensures (a + U64_RANGE * k) % U64_RANGE == a % U64_RANGE
  {
    if k > 0 {
      AddMultiple(a, k - 1);
      assert a + U64_RANGE * k == (a + U64_RANGE * (k - 1)) + U64_RANGE;
    }
  }

  /** The number modulo 2^64, or 0 as soon as something is not a digit. */
  function Parsed(s: string): nat {
    if AllDigits(s) then Value(s) % U64_RANGE else 0
  }

  method ConvertToULL(str: string) returns (no: nat)
    ensures no == Parsed(str)
  {
    no := 0;
    var i := 0;
    while i < |str|
      invariant 0 <= i <= |str| && AllDigits(str[..i])
      invariant no == Value(str[..i]) % U64_RANGE
    {
      no := no * 10 % U64_RANGE;
      if str[i] < '0' || str[i] > '9' {
        no := 0;
        break;
      }
      WrapStep(Value(str[..i]), DigitOf(str[i]));
      assert str[..i + 1][..i] == str[..i];
      no := (no + DigitOf(str[i])) % U64_RANGE;
      i := i + 1;
    }
    assert i == |str| ==> str[..i] == str;
  }

  // ----- the check -----

  predicate Accepts(s: string) { Print(Parsed(s)) == s }

  /**
   The check accepts exactly the canonical numerals below 2^64: it turns down the empty string, anything
   but digits, leading zeros, and every numeral that overflows, whatever its remainder.
   */
  lemma {:induction false} AcceptsIff(s: string)
    ensures Accepts(s) <==> Canonical(s) && Value(s) < U64_RANGE
    ensures Accepts(s) <==> exists n: nat :: n < U64_RANGE && s == Print(n)
    ensures Accepts(s) ==> Parsed(s) == Value(s)
  {
    if Accepts(s) {
      PrintReadsBack(Parsed(s));
    } else if Canonical(s) && Value(s) < U64_RANGE {
      ReadPrintsBack(s);
    } else if n: nat :| n < U64_RANGE && s == Print(n) {
      PrintReadsBack(n);
    }
  }

  /** An overflowing numeral is not taken for the small number it wraps to. */
  lemma {:induction false} OverflowIsRejected(s: string)
    requires AllDigits(s) && Value(s) >= U64_RANGE
    ensures Parsed(s) < Value(s) && !Accepts(s)
  {
    AcceptsIff(s);
  }

  // ----- the stage and the pipeline of stages -----

  /** The numeral that the program prints or hands to the next program; None is the error exit. */
  function Doubled(s: string): Option<string> {
    if Accepts(s) then Some(Print(2 * Parsed(s) % U64_RANGE)) else None
  }

  method Double(arg: string) returns (result: Option<string>)
    ensures result == Doubled(arg)
  {
    var no := ConvertToULL(arg);
    if Print(no) != arg {
      return None;
    }
    result := Some(Print(2 * no % U64_RANGE));
  }

  lemma {:induction false} DoubledIsAccepted(s: string)
    requires Accepts(s)
    ensures var r := Doubled(s);
            r.Some? && AllDigits(r.value) && Accepts(r.value) && Value(r.value) == 2 * Value(s) % U64_RANGE
  {
    AcceptsIff(s);
    PrintReadsBack(2 * Parsed(s) % U64_RANGE);
    AcceptsIff(Print(2 * Parsed(s) % U64_RANGE));
  }

  /** The result is twice the argument exactly when that fits in 64 bits; an accepted argument never fails. */
  lemma {:induction false} DoubledIsTwiceIff(s: string)
    requires Accepts(s)
    ensures Doubled(s).Some? && AllDigits(Doubled(s).value)
    ensures Value(Doubled(s).value) == 2 * Value(s) <==> Value(s) < 0x8000_0000_0000_0000
  {
    AcceptsIff(s);
    DoubledIsAccepted(s);
  }

  function Pow2(k: nat): nat { if k == 0 then 1 else 2 * Pow2(k - 1) }

  /** `k` programs in a row, each started by the one before it. */
  function Chain(s: string, k: nat): Option<string>
    decreases k
  {
    if k == 0 then Some(s)
    else match Doubled(s)
      case None => None
      case Some(t) => Chain(t, k - 1)
  }

  /** Every program accepts what the one before it printed, so only the first can fail. */
  lemma {:induction false} ChainComputes(s: string, k: nat)
    requires Accepts(s)
    ensures Chain(s, k) == Some(Print(Pow2(k) * Value(s) % U64_RANGE))
    decreases k
  {
    hide Accepts, Doubled, Value, AllDigits, Print;
    AcceptsIff(s);
    if k == 0 {
      ReadPrintsBack(s);
    } else {
      DoubledIsAccepted(s);
      ChainComputes(Doubled(s).value, k - 1);
      PowerStep(Value(s), k);
    }
  }

  lemma {:induction false} PowerStep(v: nat, k: nat)
    requires k > 0
    ensures Pow2(k - 1) * (2 * v % U64_RANGE) % U64_RANGE == Pow2(k) * v % U64_RANGE
  {
    WrapFactor(Pow2(k - 1), 2 * v);
    assert Pow2(k - 1) * (2 * v) == Pow2(k) * v;
  }

  lemma {:induction false} WrapFactor(a: nat, b: nat)
    ensures a * (b % U64_RANGE) % U64_RANGE == a * b % U64_RANGE
  {
    var q, r := b / U64_RANGE, b % U64_RANGE;
    assert a * b == a * r + U64_RANGE * (a * q) by {
      assert b == U64_RANGE * q + r;
    }
    AddMultiple(a * r, a * q);
  }

  lemma {:induction false} ChainFailsIff(s: string, k: nat)
    ensures Chain(s, k) == None <==> k > 0 && !Accepts(s)
  {
    if Accepts(s) { ChainComputes(s, k); }
  }
}
