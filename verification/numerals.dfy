/** The digit strings of kernel/lib/stdio.c and their values. */
module Numerals {
  import opened Machine

  /** The digits of `v` in base `b`, most significant first; zero is one digit. */
  function Numeral(v: nat, b: nat): (ds: seq<nat>)
    requires b >= 2
    ensures |ds| >= 1
  {
    if v < b then [v]
    else
      DivPositive(v, b);
      Numeral(v / b, b) + [v % b]
  }

  /** The value of a digit string. */
  function Eval(ds: seq<nat>, b: nat): nat {
    if ds == [] then 0 else Eval(ds[..|ds| - 1], b) * b + ds[|ds| - 1]
  }

  /** Digits below the base, no leading zero unless the string is the single digit zero. */
  predicate Canonical(ds: seq<nat>, b: nat) {
    |ds| >= 1 && (forall i | 0 <= i < |ds| :: ds[i] < b) && (|ds| > 1 ==> ds[0] != 0)
  }

  /** Printing and reading back gives the number, in canonical form. */
  lemma {:induction false} NumeralRoundTrip(v: nat, b: nat)
    requires b >= 2
    ensures Eval(Numeral(v, b), b) == v && Canonical(Numeral(v, b), b)
    ensures v > 0 ==> Numeral(v, b)[0] != 0
  {
    if v < b {
      assert Eval([v], b) == Eval([], b) * b + v;
    } else {
      DivPositive(v, b);
      NumeralRoundTrip(v / b, b);
      var hi, ds := Numeral(v / b, b), Numeral(v, b);
      assert ds[..|ds| - 1] == hi && ds[0] == hi[0];
    }
  }

  lemma DivPositive(v: nat, b: nat)
    requires b >= 2 && v >= b
    ensures 0 < v / b < v && v == v / b * b + v % b && v % b < b
  {
    var q, r := v / b, v % b;
    assert v == q * b + r;
    assert q <= 0 ==> q * b <= 0;
    assert q * b >= q * 2;
  }

  lemma NumeralAppend(h: nat, d: nat, b: nat)
    requires b >= 2 && h > 0 && d < b
    ensures Numeral(h * b + d, b) == Numeral(h, b) + [d]
  {
    ModUnique(h * b + d, b, h, d);
    MulBound(h, b);
  }

  /** A canonical digit string is the one printed for its value. */
  lemma {:induction false} CanonicalUnique(ds: seq<nat>, b: nat)
    requires b >= 2 && Canonical(ds, b)
    ensures ds == Numeral(Eval(ds, b), b)
  {
    hide Numeral;
    var hi, d := ds[..|ds| - 1], ds[|ds| - 1];
    assert Eval(ds, b) == Eval(hi, b) * b + d;
    if |ds| == 1 {
      assert Eval(hi, b) * b == 0;
      OneDigit(d, b);
    } else {
      CanonicalUnique(hi, b);
      LeadingPositive(hi, b);
      NumeralAppend(Eval(hi, b), d, b);
      assert ds == hi + [d];
    }
  }

  lemma OneDigit(d: nat, b: nat)
    requires b >= 2 && d < b
    ensures Numeral(d, b) == [d]
  {
  }

  lemma {:induction false} LeadingPositive(ds: seq<nat>, b: nat)
    requires b >= 2 && |ds| >= 1 && ds[0] != 0
    ensures Eval(ds, b) > 0
  {
    if |ds| > 1 {
      LeadingPositive(ds[..|ds| - 1], b);
    }
  }

  function Power(b: nat, k: nat): nat {
    if k == 0 then 1 else b * Power(b, k - 1)
  }

  /** A number below `b^k` needs at most `k` digits. */
  lemma {:induction false} NumeralLength(v: nat, b: nat, k: nat)
    requires b >= 2 && k >= 1 && v < Power(b, k)
    ensures |Numeral(v, b)| <= k
  {
    if v >= b {
      DivPositive(v, b);
      assert Power(b, 0) == 1 && Power(b, 1) == b * Power(b, 0);
      DivBelow(v, b, Power(b, k - 1));
      NumeralLength(v / b, b, k - 1);
    }
  }

  lemma DivBelow(v: nat, b: nat, m: nat)
    requires b >= 2 && v < b * m
    ensures v / b < m
  {
    var q := v / b;
    assert v == q * b + v % b;
    assert (q - m) * b == q * b - b * m;
    MulBound(q - m, b);
  }

  lemma WordDigits(v: u32)
    ensures |Numeral(v, 10)| <= 10 && |Numeral(v, 16)| <= 8
  {
    assert Power(10, 3) == 1000 && Power(10, 6) == 1000000 && Power(10, 9) == 1000000000;
    assert Power(10, 10) == 10000000000;
    assert Power(16, 3) == 0x1000 && Power(16, 6) == 0x100_0000 && Power(16, 8) == 0x1_0000_0000;
    NumeralLength(v, 10, 10);
    NumeralLength(v, 16, 8);
  }

  // ------------------------------------------------------------------ text

  const MINUS: u8 := 0x2D
  const ZERO: u8 := 0x30

  function HexChar(d: nat): u8
    requires d < 16
  {
    if d < 10 then ZERO + d else 0x61 + d - 10
  }

  function Text(ds: seq<nat>): (s: seq<u8>)
    requires forall i | 0 <= i < |ds| :: ds[i] < 16
    ensures |s| == |ds| && forall i | 0 <= i < |ds| :: s[i] == HexChar(ds[i])
  {
    seq(|ds|, i requires 0 <= i < |ds| => HexChar(ds[i]))
  }

  const INT32_MIN: int := -0x8000_0000

  type i32 = x: int | -0x8000_0000 <= x < 0x8000_0000

  /** The value of a printed character, or 16 for a non-digit. */
  function DigitOf(c: u8): nat {
    if ZERO <= c < ZERO + 10 then c - ZERO else if 0x61 <= c < 0x67 then c - 0x61 + 10 else 16
  }

  function DigitsOf(s: seq<u8>): seq<nat> {
    seq(|s|, i requires 0 <= i < |s| => DigitOf(s[i]))
  }

  /** Read a decimal integer back. */
  function ParseInt(s: seq<u8>): Option<int> {
    var body := if s != [] && s[0] == MINUS then s[1..] else s;
    if !Canonical(DigitsOf(body), 10) then None
    else Some(if s[0] == MINUS then 0 - Eval(DigitsOf(body), 10) else Eval(DigitsOf(body), 10))
  }

  lemma TextDigits(ds: seq<nat>)
    requires forall i | 0 <= i < |ds| :: ds[i] < 16
    ensures DigitsOf(Text(ds)) == ds
  {
  }

  /** The characters printed for `v` in base `b`. */
  function NumText(v: nat, b: nat): (s: seq<u8>)
    requires 2 <= b <= 16
    ensures |s| == |Numeral(v, b)|
  {
    NumeralRoundTrip(v, b);
    Text(Numeral(v, b))
  }

  lemma NumTextStep(v: nat, b: nat)
    requires 2 <= b <= 16
    ensures v < b ==> NumText(v, b) == [HexChar(v)]
    ensures v >= b ==> v % b < 16 && NumText(v, b) == NumText(v / b, b) + [HexChar(v % b)]
  {
    NumeralRoundTrip(v, b);
    if v >= b {
      DivPositive(v, b);
      NumeralRoundTrip(v / b, b);
    }
  }

  /** The text read back as a digit string is the numeral. */
  lemma NumTextReads(v: nat, b: nat)
    requires 2 <= b <= 16
    ensures Canonical(DigitsOf(NumText(v, b)), b) && Eval(DigitsOf(NumText(v, b)), b) == v
  {
    NumeralRoundTrip(v, b);
    TextDigits(Numeral(v, b));
  }

  /** What `print_int` prints: negating INT32_MIN overflows back to itself, and no digit follows. */
  function IntText(v: i32): seq<u8> {
    if v == INT32_MIN then [MINUS] else if v < 0 then [MINUS] + NumText(-v, 10) else NumText(v, 10)
  }

  /** `print_int` prints a readable numeral for exactly the values other than INT32_MIN. */
  lemma IntTextReadsIff(v: i32)
    ensures ParseInt(IntText(v)) == Some(v) <==> v != INT32_MIN
  {
    hide NumText;
    if v == INT32_MIN {
      assert DigitsOf([MINUS][1..]) == [];
    } else if v < 0 {
      NumTextReads(-v, 10);
      assert IntText(v)[1..] == NumText(-v, 10);
    } else {
      NumTextReads(v, 10);
      assert DigitsOf(NumText(v, 10))[0] == DigitOf(NumText(v, 10)[0]);
    }
  }

  /** The characters printed, one by one, and the sign in front of a negative number. */
  lemma PrintedCharacters(d: nat, v: i32)
    requires d < 16
    ensures HexChar(d) == [0x30, 0x31, 0x32, 0x33, 0x34, 0x35, 0x36, 0x37, 0x38, 0x39, 0x61, 0x62, 0x63, 0x64, 0x65,
                           0x66][d]
    ensures v == -0x8000_0000 ==> IntText(v) == [0x2D]
    ensures -0x8000_0000 < v < 0 ==> IntText(v) == [0x2D] + NumText(-v, 10)
    ensures v >= 0 ==> IntText(v) == NumText(v, 10)
  {
  }
}
