/**
  The kernel's decimal frequency format (mantissa and exponent), with the two
  conversions in each direction that the library can be built with. Doubles are
  modelled by exact reals, and the C library's log10 by its result.
 */
module Frequency {

  function Pow10(n: nat): (r: real)
    ensures r >= 1.0
  {
    if n == 0 then 1.0 else 10.0 * Pow10(n - 1)
  }

  /** pow(10, e) */
  function PowInt(e: int): (r: real)
    ensures r > 0.0
  {
    if e >= 0 then Pow10(e) else 1.0 / Pow10(-e)
  }

  /** The conversion to a C integer, towards zero. */
  function Truncate(x: real): int {
    if x >= 0.0 then x.Floor else -(-x).Floor
  }

  /** e == floor(log10(x)) */
  ghost predicate IsLog10(x: real, e: int) {
    PowInt(e) <= x < PowInt(e + 1)
  }

  /** How often the build without libm divides by ten. */
  function Shifts(x: real): nat
    decreases x.Floor
  {
    if x > 1000000000.0 then
      assert x == x / 10.0 + 9.0 * x / 10.0;
      1 + Shifts(x / 10.0)
    else 0
  }

  /** A number in the kernel's format. */
  class IwFreq {
    var m: int
    var e: int

    constructor ()
      ensures m == 0 && e == 0
    {
      m, e := 0, 0;
    }

    /** iw_float2freq built without libm. */
    method FromFloatNoLibm(input: real)
      modifies this
      ensures e == Shifts(input) && m == Truncate(input / Pow10(e))
    {
      var x := input;
      e := 0;
      while x > 1000000000.0
        invariant 0 <= e && x * Pow10(e) == input
        invariant e + Shifts(x) == Shifts(input)
        decreases x.Floor
      {
        x := x / 10.0;
        e := e + 1;
      }
      m := Truncate(x);
      Divide(input, x, Pow10(e));
    }

    /** iw_float2freq built with libm; `log` is what floor(log10(input)) returned. */
    method FromFloatLibm(input: real, log: int)
      modifies this
      ensures (m, e) == LibmFormat(input, log)
      ensures 9 <= log && IsLog10(input, log) ==>
        100000000 <= m < 1000000000 && e == log - 8 && 0.0 <= input - Decode(m, e) < Pow10(log - 6)
      ensures 1.0 <= input < 1000000000.0 && input.Floor as real == input && IsLog10(input, log) ==>
        Decode(m, e) == input
    {
      if 9 <= log && IsLog10(input, log) {
        LibmAccuracy(input, log);
      }
      if IsLog10(input, log) && 1.0 <= input < 1000000000.0 && input.Floor as real == input {
        BothExact(input, log);
      }
      e := log;
      if e > 8 {
        m := (input / PowInt(e - 6)).Floor * 100;
        e := e - 8;
      } else {
        m := Truncate(input);
        e := 0;
      }
    }

    /** iw_freq2float built without libm. */
    method ToFloatNoLibm() returns (res: real)
      ensures res == m as real * if e >= 0 then Pow10(e) else 1.0
    {
      var i := 0;
      res := m as real;
      while i < e
        invariant 0 <= i && (0 <= e ==> i <= e)
        invariant res == m as real * Pow10(i)
        invariant e < 0 ==> i == 0
      {
        res := res * 10.0;
        i := i + 1;
      }
    }

    /** iw_freq2float built with libm. */
    method ToFloatLibm() returns (res: real)
      ensures res == Decode(m, e)
      ensures 0 <= e ==> res == m as real * Pow10(e)
      ensures e <= 0 ==> res * Pow10(-e) == m as real
    {
      res := m as real * PowInt(e);
    }
  }

  function Decode(m: int, e: int): real {
    m as real * PowInt(e)
  }

  function LibmFormat(x: real, log: int): (int, int) {
    if log > 8 then ((x / PowInt(log - 6)).Floor * 100, log - 8) else (Truncate(x), 0)
  }

  function NoLibmFormat(x: real): (int, int) {
    (Truncate(x / Pow10(Shifts(x))), Shifts(x))
  }

  // ---- arithmetic

  lemma Divide(x: real, q: real, p: real)
    requires p > 0.0 && q * p == x
    ensures x / p == q
  {
  }

  lemma DivideBack(x: real, p: real)
    requires p > 0.0
    ensures x / p * p == x
  {
  }

  lemma DivideLess(x: real, p: real, b: real)
    requires p > 0.0
    ensures x < b * p <==> x / p < b
    ensures x <= b * p <==> x / p <= b
  {
    var q := x / p;
    assert q * p == x;
    if q < b {
      assert (b - q) * p > 0.0;
    } else if q > b {
      assert (q - b) * p > 0.0;
    }
  }

  lemma {:induction false} PowSum(a: nat, b: nat)
    ensures Pow10(a + b) == Pow10(a) * Pow10(b)
  {
    if a == 0 {
    } else {
      PowSum(a - 1, b);
    }
  }

  lemma {:induction false} PowWhole(n: nat)
    ensures Pow10(n) == Pow10(n).Floor as real
  {
    if n == 0 {
    } else {
      PowWhole(n - 1);
      assert Pow10(n) == (10 * Pow10(n - 1).Floor) as real;
    }
  }

  lemma MillionAndMore()
    ensures Pow10(2) == 100.0 && Pow10(6) == 1000000.0 && Pow10(7) == 10000000.0 && Pow10(8) == 100000000.0 &&
        Pow10(9) == 1000000000.0
  {
    assert Pow10(2) == 100.0;
    assert Pow10(4) == 10000.0;
    assert Pow10(6) == 1000000.0;
    assert Pow10(8) == 100000000.0;
  }

  // ---- accuracy

  /** x is an integer multiple of p. */
  predicate IsMultiple(x: real, p: real)
    requires p > 0.0
  {
    (x / p).Floor as real == x / p
  }

  /** With libm, a frequency of at least 10^9 keeps seven significant digits, and is exact when it has no more. */
  lemma {:induction false} LibmAccuracy(x: real, log: int)
    requires 9 <= log && IsLog10(x, log)
    ensures var (m, e) := LibmFormat(x, log);
      && 100000000 <= m < 1000000000
      && 0.0 <= x - Decode(m, e) < Pow10(log - 6)
      && (Decode(m, e) == x <==> IsMultiple(x, Pow10(log - 6)))
  {
    SevenDigits(x, log);
    LibmDecodes(x, log);
    hide Pow10, IsLog10, IsMultiple;
    FloorPart(x, Pow10(log - 6));
  }

  /** With libm, decoding gives the number rounded down to seven digits. */
  lemma {:induction false} LibmDecodes(x: real, log: int)
    requires 9 <= log && IsLog10(x, log)
    ensures var (m, e) := LibmFormat(x, log);
      && m == (x / Pow10(log - 6)).Floor * 100
      && Decode(m, e) == (x / Pow10(log - 6)).Floor as real * Pow10(log - 6)
  {
    var p := Pow10(log - 6);
    MillionAndMore();
    PowSum(2, log - 8);
    Scale((x / p).Floor, Pow10(log - 8), p);
  }

  lemma {:induction false} SevenDigits(x: real, log: int)
    requires 9 <= log && IsLog10(x, log)
    ensures 1000000 <= (x / Pow10(log - 6)).Floor < 10000000
  {
    var p := Pow10(log - 6);
    MillionAndMore();
    PowSum(6, log - 6);
    PowSum(7, log - 6);
    DivideLess(x, p, 1000000.0);
    DivideLess(x, p, 10000000.0);
  }

  lemma Scale(f: int, unit: real, p: real)
    requires p == 100.0 * unit
    ensures (f * 100) as real * unit == f as real * p
  {
    assert (f * 100) as real == f as real * 100.0;
  }

  /** Rounding x down to a multiple of p. */
  lemma FloorPart(x: real, p: real)
    requires p > 0.0
    ensures var down := (x / p).Floor as real * p;
      && down <= x < down + p
      && (down == x <==> IsMultiple(x, p))
  {
    DivideBack(x, p);
    var f := (x / p).Floor as real;
    Fraction(x / p, f, p, x, f * p);
  }

  lemma Fraction(q: real, f: real, p: real, x: real, down: real)
    requires f <= q < f + 1.0 && p > 0.0 && x == q * p && down == f * p
    ensures down <= x < down + p
    ensures down == x <==> f == q
  {
    var up, gap := f + 1.0 - q, q - f;
    assert up * p > 0.0 && up * p == down + p - x;
    assert gap * p == x - down && (gap > 0.0 ==> gap * p > 0.0);
  }

  /** Every division happened above 10^9, and none is left to do. */
  lemma {:induction false} ShiftsBound(x: real, j: nat)
    ensures x <= 1000000000.0 * Pow10(Shifts(x))
    ensures j < Shifts(x) ==> x > 1000000000.0 * Pow10(j)
    decreases Shifts(x)
  {
    if Shifts(x) > 0 {
      ShiftsBound(x / 10.0, if j > 0 then j - 1 else 0);
    }
  }

  /** Without libm, the error is below one unit of the exponent, and there is none for multiples of that unit. */
  lemma NoLibmAccuracy(x: real)
    requires x >= 0.0
    ensures var (m, e) := NoLibmFormat(x);
      && 0 <= m <= 1000000000
      && 0.0 <= x - Decode(m, e) < Pow10(e)
      && (Decode(m, e) == x <==> IsMultiple(x, Pow10(e)))
      && 0 <= e && (0 < e ==> 1000000000.0 * Pow10(e - 1) < x)
  {
    hide Shifts, Pow10, IsMultiple;
    FloorPart(x, Pow10(Shifts(x)));
    MantissaBound(x);
    if Shifts(x) > 0 {
      ShiftsBound(x, Shifts(x) - 1);
    }
  }

  /** m is x without its fraction. */
  predicate WithoutFraction(m: int, x: real) {
    if x < 0.0 then m as real - 1.0 < x <= m as real <= 0.0 else 0.0 <= m as real <= x < m as real + 1.0
  }

  /** Numbers that are small enough lose their fraction and nothing else, below zero too. */
  lemma SmallInputs(x: real, log: int)
    ensures x <= 1000000000.0 ==> NoLibmFormat(x).1 == 0 && WithoutFraction(NoLibmFormat(x).0, x)
    ensures log <= 8 ==> LibmFormat(x, log).1 == 0 && WithoutFraction(LibmFormat(x, log).0, x)
  {
    assert x <= 1000000000.0 ==> Pow10(Shifts(x)) == 1.0 && x / 1.0 == x;
  }

  lemma {:induction false} MantissaBound(x: real)
    requires x >= 0.0
    ensures 0.0 <= x / Pow10(Shifts(x)) <= 1000000000.0
  {
    ShiftsBound(x, 0);
    DivideLess(x, Pow10(Shifts(x)), 1000000000.0);
    DivideLess(x, Pow10(Shifts(x)), 0.0);
  }

  /**
    Both builds return a frequency unchanged when it has at most seven significant digits, or is an integer
    below 10^9.
   */
  lemma {:induction false} BothExact(x: real, log: int)
    requires IsLog10(x, log)
    requires (9 <= log && IsMultiple(x, Pow10(log - 6))) || (1.0 <= x < 1000000000.0 && x.Floor as real == x)
    ensures var (m, e) := LibmFormat(x, log); Decode(m, e) == x
    ensures var (m, e) := NoLibmFormat(x); Decode(m, e) == x
  {
    if 9 <= log && IsMultiple(x, Pow10(log - 6)) {
      LibmAccuracy(x, log);
      FewShifts(x, log);
      FinerMultiple(x, log - 6 - Shifts(x), Shifts(x));
      NoLibmAccuracy(x);
      hide IsMultiple, LibmFormat, NoLibmFormat, Decode, Shifts;
    } else {
      SmallLog(x, log);
    }
  }

  lemma SmallLog(x: real, log: int)
    requires IsLog10(x, log) && x < 1000000000.0
    ensures log <= 8
  {
    if 9 <= log {
      MillionAndMore();
      PowSum(9, log - 9);
    }
  }

  lemma {:induction false} FewShifts(x: real, log: int)
    requires 9 <= log && IsLog10(x, log)
    ensures Shifts(x) <= log - 8
  {
    MillionAndMore();
    PowSum(9, log - 8);
    ShiftsBound(x, log - 8);
  }

  /** A multiple of 10^(a+b) is a multiple of 10^b. */
  lemma FinerMultiple(x: real, a: nat, b: nat)
    requires IsMultiple(x, Pow10(a + b))
    ensures IsMultiple(x, Pow10(b))
  {
    hide Pow10, IsMultiple;
    var t, p, w := Pow10(a + b), Pow10(b), Pow10(a).Floor;
    assert t == w as real * p by {
      PowSum(a, b);
      PowWhole(a);
    }
    MultipleBack(x, t);
    Regroup((x / t).Floor, t, w, p, x);
  }

  lemma MultipleBack(x: real, p: real)
    requires p > 0.0 && IsMultiple(x, p)
    ensures x == (x / p).Floor as real * p
  {
    DivideBack(x, p);
  }

  lemma Regroup(k: int, t: real, w: int, p: real, x: real)
    requires p > 0.0 && t == w as real * p && x == k as real * t
    ensures IsMultiple(x, p)
  {
    assert (k * w) as real == k as real * w as real;
    Divide(x, (k * w) as real, p);
  }

  /** The two ways back agree exactly on non-negative exponents (and on zero). */
  lemma {:induction false} DecodersAgree(m: int, e: int)
    ensures (m as real * (if e >= 0 then Pow10(e) else 1.0) == Decode(m, e)) <==> e >= 0 || m == 0
  {
    if e < 0 {
      var p := Pow10(-e);
      assert p >= 10.0;
      DivideLess(1.0, p, 1.0);
      var d := 1.0 - 1.0 / p;
      assert m as real - Decode(m, e) == m as real * d;
      assert d > 0.0;
      if m as real * d == 0.0 {
        assert m as real == 0.0;
      }
    }
  }
}
