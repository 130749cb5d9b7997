/**
  The parts of Go's `strconv` and `fmt` that the query binder relies on:
  base-0 integer parsing (`ParseInt`/`ParseUint` with base 0), `ParseBool`,
  and the decimal text `%v` prints for integers.

  Each parser is written the way the Go library computes it (a digit loop in
  64-bit unsigned arithmetic with explicit overflow guards) and is proved to
  agree with a separate mathematical definition of what a base-0 literal means.
 */
module Strconv {
  import opened Results
  import opened Values

  const TwoTo64: nat := 0x1_0000_0000_0000_0000
  const MaxUint64: nat := TwoTo64 - 1

  /**
    The digit value Go's parser gives a character: 0-9 for decimal digits,
    10-35 for ASCII letters of either case, and 36 (a digit of no base) for
    anything else.
   */
  function DigitValue(c: char): (d: nat)
    ensures d <= 36
  {
    if '0' <= c <= '9' then c as nat - '0' as nat
    else if 'a' <= c <= 'z' then c as nat - 'a' as nat + 10
    else if 'A' <= c <= 'Z' then c as nat - 'A' as nat + 10
    else 36
  }

  /**
    The value of `ds` read as digits of `base`, most significant first, or
    None when some character is not a digit of that base. The empty digit
    string reads as 0.
   */
  function DigitsValue(ds: string, base: nat): Option<nat>
  {
    if ds == [] then Some(0)
    else
      var d := DigitValue(ds[|ds| - 1]);
      match DigitsValue(ds[..|ds| - 1], base)
      case None => None
      case Some(n) => if d < base then Some(n * base + d) else None
  }

  /**
    How a base-0 literal picks its base: a `0b`, `0o` or `0x` prefix (either
    case) followed by at least one more character, else a leading `0` for
    octal, else decimal. Returns the base and the digits after the prefix.
   */
  function Base0Split(s: string): (r: (nat, string))
    requires s != []
    ensures r.0 in {2, 8, 10, 16}
    ensures |r.1| < |s| || r == (10, s)
  {
    if s[0] != '0' then (10, s)
    else if |s| >= 3 && (s[1] == 'b' || s[1] == 'B') then (2, s[2..])
    else if |s| >= 3 && (s[1] == 'o' || s[1] == 'O') then (8, s[2..])
    else if |s| >= 3 && (s[1] == 'x' || s[1] == 'X') then (16, s[2..])
    else (8, s[1..])
  }

  /** The value of an unsigned base-0 literal, or None when `s` is not one. */
  function UnsignedLiteral(s: string): Option<nat>
  {
    if s == [] then None
    else
      var (base, ds) := Base0Split(s);
      DigitsValue(ds, base)
  }

  /** The value of a base-0 literal with an optional `+` or `-` sign, or None. */
  function SignedLiteral(s: string): Option<int>
  {
    if s != [] && s[0] == '-' then
      match UnsignedLiteral(s[1..])
      case None => None
      case Some(n) => Some(-(n as int))
    else if s != [] && s[0] == '+' then
      match UnsignedLiteral(s[1..])
      case None => None
      case Some(n) => Some(n)
    else
      match UnsignedLiteral(s)
      case None => None
      case Some(n) => Some(n)
  }

  /** Go's cutoff: the smallest accumulator value whose product with `base` overflows 64 bits. */
  function Cutoff(base: nat): nat
    requires base > 0
  {
    MaxUint64 / base + 1
  }

  lemma CutoffOverflows(base: nat, n: nat)
    requires base > 0
    ensures n >= Cutoff(base) ==> n * base > MaxUint64
    ensures n < Cutoff(base) ==> n * base <= MaxUint64
  {
    var q := MaxUint64 / base;
    assert MaxUint64 == q * base + MaxUint64 % base;
    if n >= q + 1 {
      assert n * base >= (q + 1) * base;
    } else {
      assert n * base <= q * base;
    }
  }

  /** A character that is no digit of `base` makes the whole digit string invalid. */
  lemma {:induction false} InvalidDigitSpoils(ds: string, base: nat, i: nat)
    requires i < |ds| && DigitValue(ds[i]) >= base
    ensures DigitsValue(ds, base).None?
    decreases |ds|
  {
    if i < |ds| - 1 {
      InvalidDigitSpoils(ds[..|ds| - 1], base, i);
    }
  }

  lemma MulGrows(n: nat, base: nat)
    requires base >= 1
    ensures n <= n * base
  {
  }

  /** Reading more digits never makes a valid literal smaller. */
  lemma {:induction false} PrefixValueBounded(ds: string, base: nat, j: nat)
    requires j <= |ds|
    ensures DigitsValue(ds, base).Some? ==>
      DigitsValue(ds[..j], base).Some? && DigitsValue(ds[..j], base).value <= DigitsValue(ds, base).value
    decreases |ds|
  {
    if j < |ds| && DigitsValue(ds, base).Some? {
      var front := ds[..|ds| - 1];
      var d := DigitValue(ds[|ds| - 1]);
      assert DigitsValue(front, base).Some? && d < base;
      var n := DigitsValue(front, base).value;
      assert DigitsValue(ds, base).value == n * base + d;
      MulGrows(n, base);
      assert ds[..j] == front[..j];
      PrefixValueBounded(front, base, j);
    } else if j == |ds| {
      assert ds[..j] == ds;
    }
  }

  /** One more valid digit multiplies the value so far by the base and adds the digit. */
  lemma DigitStep(ds: string, base: nat, i: nat, n: nat)
    requires i < |ds| && DigitValue(ds[i]) < base
    requires DigitsValue(ds[..i], base) == Some(n)
    ensures DigitsValue(ds[..i + 1], base) == Some(n * base + DigitValue(ds[i]))
  {
    assert ds[..i + 1][..i] == ds[..i];
  }

  /** A prefix already above `maxVal` leaves the whole digit string invalid or above `maxVal`. */
  lemma TooLargeSpoils(ds: string, base: nat, j: nat, maxVal: nat)
    requires j <= |ds|
    requires DigitsValue(ds[..j], base).Some? && DigitsValue(ds[..j], base).value > maxVal
    ensures !(DigitsValue(ds, base).Some? && DigitsValue(ds, base).value <= maxVal)
  {
    PrefixValueBounded(ds, base, j);
  }

  /**
    Go's overflow test after adding a digit to the product `m`: the 64-bit
    sum wrapped (came out below `m`) or exceeds `maxVal` exactly when the true
    sum exceeds `maxVal`; otherwise the 64-bit sum is the true sum.
   */
  lemma AddDigitGuard(m: nat, d: nat, maxVal: nat)
    requires m <= MaxUint64 && d < 16 && maxVal <= MaxUint64
    ensures var n1 := (m + d) % TwoTo64;
      && ((n1 < m || n1 > maxVal) <==> m + d > maxVal)
      && (m + d <= maxVal ==> n1 == m + d)
  {
    if m + d >= TwoTo64 {
      assert (m + d) % TwoTo64 == m + d - TwoTo64;
    } else {
      assert (m + d) % TwoTo64 == m + d;
    }
  }

  /**
    The digit loop of `strconv.ParseUint` from position `i` with accumulator
    `n`: a digit of no base is a syntax error; an accumulator at or past the
    cutoff, a 64-bit wrap-around of `n * base + d` (detected, as Go does, by
    the sum coming out smaller), or a sum above `maxVal` is a range error.
   */
  function ScanDigits(ds: string, base: nat, maxVal: nat, i: nat, n: nat): (r: Result<nat, NumCause>)
    requires base in {2, 8, 10, 16}
    requires maxVal <= MaxUint64
    requires i <= |ds|
    requires DigitsValue(ds[..i], base) == Some(n) && n <= maxVal
    ensures r.Ok? <==> DigitsValue(ds, base).Some? && DigitsValue(ds, base).value <= maxVal
    ensures r.Ok? ==> r.value == DigitsValue(ds, base).value
    ensures r == Err(ErrSyntax) ==> DigitsValue(ds, base).None?
    decreases |ds| - i
  {
    if i == |ds| then
      assert ds[..i] == ds;
      Ok(n)
    else
      var d := DigitValue(ds[i]);
      if d >= base then
        InvalidDigitSpoils(ds, base, i);
        Err(ErrSyntax)
      else
        DigitStep(ds, base, i, n);
        CutoffOverflows(base, n);
        if n >= Cutoff(base) then
          TooLargeSpoils(ds, base, i + 1, maxVal);
          Err(ErrRange)
        else
          var m := n * base;
          var n1 := (m + d) % TwoTo64;
          AddDigitGuard(m, d, maxVal);
          if n1 < m || n1 > maxVal then
            TooLargeSpoils(ds, base, i + 1, maxVal);
            Err(ErrRange)
          else
            ScanDigits(ds, base, maxVal, i + 1, n1)
  }

  lemma {:induction false} Pow2Add(a: nat, b: nat)
    ensures Pow2(a + b) == Pow2(a) * Pow2(b)
    decreases a
  {
    if a > 0 {
      Pow2Add(a - 1, b);
    }
  }

  lemma Pow2SixtyFour()
    ensures Pow2(64) == TwoTo64
  {
    assert Pow2(1) == 2;
    Pow2Add(1, 1);
    assert Pow2(2) == 4;
    Pow2Add(2, 2);
    assert Pow2(4) == 0x10;
    Pow2Add(4, 4);
    assert Pow2(8) == 0x100;
    Pow2Add(8, 8);
    assert Pow2(16) == 0x1_0000;
    Pow2Add(16, 16);
    assert Pow2(32) == 0x1_0000_0000;
    Pow2Add(32, 32);
  }

  /** Every width up to 64 bits fits the 64-bit accumulator. */
  lemma Pow2AtMost64(bitSize: nat)
    requires bitSize <= 64
    ensures Pow2(bitSize) <= TwoTo64
  {
    Pow2SixtyFour();
    Pow2Add(bitSize, 64 - bitSize);
    MulGrows(Pow2(bitSize), Pow2(64 - bitSize));
  }

  /**
    `strconv.ParseUint(s, 0, bitSize)`: the prefix decides the base, then the
    digit loop runs with `maxVal = 2^bitSize - 1`. It succeeds exactly when
    `s` is an unsigned base-0 literal whose value fits in `bitSize` bits.
   */
  function ParseUint(s: string, bitSize: nat): (r: Result<nat, NumCause>)
    requires 1 <= bitSize <= 64
    ensures r.Ok? <==> UnsignedLiteral(s).Some? && InUnsignedRange(UnsignedLiteral(s).value, bitSize)
    ensures r.Ok? ==> r.value == UnsignedLiteral(s).value
    ensures r == Err(ErrSyntax) ==> UnsignedLiteral(s).None?
  {
    Pow2AtMost64(bitSize);
    if s == [] then Err(ErrSyntax)
    else
      var (base, ds) := Base0Split(s);
      assert ds[..0] == [];
      ScanDigits(ds, base, Pow2(bitSize) - 1, 0, 0)
  }

  /** The sign `ParseInt` strips: whether the text is negative, and the text after the sign. */
  function SplitSign(s: string): (r: (bool, string))
    requires s != []
    ensures r.0 <==> s[0] == '-'
    ensures r.1 == if s[0] == '+' || s[0] == '-' then s[1..] else s
  {
    if s[0] == '-' then (true, s[1..])
    else if s[0] == '+' then (false, s[1..])
    else (false, s)
  }

  /** A signed literal is the unsigned literal after its sign, negated for `-`. */
  lemma SignedLiteralSplit(s: string)
    requires s != []
    ensures var (neg, body) := SplitSign(s);
      && (SignedLiteral(s).Some? <==> UnsignedLiteral(body).Some?)
      && (SignedLiteral(s).Some? ==>
            SignedLiteral(s).value == if neg then -(UnsignedLiteral(body).value as int) else UnsignedLiteral(body).value)
  {
  }

  /**
    The magnitude check of `strconv.ParseInt`, given the sign and the result of
    `ParseUint` on the digits. A syntax error is passed on; after a range error
    the magnitude counts as `2^bitSize - 1`; a non-negative result must be
    below `half = 2^(bitSize-1)`, a negative one at most `half`.
   */
  function SignedResult(neg: bool, un: Result<nat, NumCause>, half: nat): (r: Result<int, NumCause>)
    requires half >= 2
    requires un.Ok? ==> un.value < 2 * half
    ensures r.Ok? <==> un.Ok? && (if neg then un.value <= half else un.value < half)
    ensures r.Ok? ==> r.value == if neg then -(un.value as int) else un.value
    ensures r == Err(ErrSyntax) <==> un == Err(ErrSyntax)
  {
    if un == Err(ErrSyntax) then Err(ErrSyntax)
    else
      var u := if un.Ok? then un.value else 2 * half - 1;
      if !neg && u >= half then Err(ErrRange)
      else if neg && u > half then Err(ErrRange)
      else Ok(if neg then -(u as int) else u)
  }

  /**
    The magnitude check accepts exactly the signed literals in range, given
    that `ParseUint` decided the unsigned literal after the sign.
   */
  lemma SignedResultMatches(neg: bool, un: Result<nat, NumCause>, lit: Option<nat>, signed: Option<int>, half: nat)
    requires half >= 2
    requires un.Ok? <==> lit.Some? && lit.value < 2 * half
    requires un.Ok? ==> un.value == lit.value
    requires signed.Some? <==> lit.Some?
    requires signed.Some? ==> signed.value == if neg then -(lit.value as int) else lit.value
    ensures var r := SignedResult(neg, un, half);
      && (r.Ok? <==> signed.Some? && 0 - half <= signed.value < half)
      && (r.Ok? ==> r.value == signed.value)
  {
  }

  lemma HalfWidth(bitSize: nat)
    requires bitSize >= 2
    ensures Pow2(bitSize) == 2 * Pow2(bitSize - 1)
    ensures Pow2(bitSize - 1) >= 2
  {
    assert Pow2(bitSize - 1) == 2 * Pow2(bitSize - 2);
  }

  /**
    `strconv.ParseInt(s, 0, bitSize)`: an optional sign, then `ParseUint` on
    the rest, then the magnitude check. It succeeds exactly when `s` is a
    signed base-0 literal that fits in `bitSize` bits.
   */
  function ParseInt(s: string, bitSize: nat): (r: Result<int, NumCause>)
    requires 2 <= bitSize <= 64
    ensures r.Ok? <==> SignedLiteral(s).Some? && InSignedRange(SignedLiteral(s).value, bitSize)
    ensures r.Ok? ==> r.value == SignedLiteral(s).value
  {
    if s == [] then Err(ErrSyntax)
    else
      var (neg, body) := SplitSign(s);
      var half := Pow2(bitSize - 1);
      var un := ParseUint(body, bitSize);
      HalfWidth(bitSize);
      SignedLiteralSplit(s);
      var signed := SignedLiteral(s);
      SignedResultMatches(neg, un, UnsignedLiteral(body), signed, half);
      var r := SignedResult(neg, un, half);
      assert signed.Some? ==> (InSignedRange(signed.value, bitSize) <==> 0 - half <= signed.value < half);
      r
  }

  /**
    `strconv.ParseBool`: exactly these twelve spellings are accepted, each
    spelling of true starting with `1`, `t` or `T` and each spelling of false
    with `0`, `f` or `F`; anything else is a syntax error, never a range error.
   */
  function ParseBool(s: string): (r: Result<bool, NumCause>)
    ensures r.Ok? ==> 1 <= |s| <= 5
    ensures r.Ok? && r.value ==> s[0] in "1tT"
    ensures r.Ok? && !r.value ==> s[0] in "0fF"
    ensures r.Err? ==> r.error == ErrSyntax
  {
    if s in {"1", "t", "T", "TRUE", "true", "True"} then Ok(true)
    else if s in {"0", "f", "F", "FALSE", "false", "False"} then Ok(false)
    else Err(ErrSyntax)
  }

  /** What `%v` prints for a bool. */
  function FormatBool(b: bool): string
  {
    if b then "true" else "false"
  }

  /** Reading back what `%v` printed for a bool gives the bool. */
  lemma ParseBoolFormatBool(b: bool)
    ensures ParseBool(FormatBool(b)) == Ok(b)
  {
  }

  /** Only the listed spellings parse: mixed case such as "tRUE" is a syntax error. */
  lemma ParseBoolIsCaseSensitive()
    ensures ParseBool("tRUE") == Err(ErrSyntax)
    ensures ParseBool("yes") == Err(ErrSyntax)
  {
  }

  function DecimalDigit(d: nat): (c: char)
    requires d < 10
    ensures '0' <= c <= '9' && DigitValue(c) == d
  {
    ('0' as nat + d) as char
  }

  /**
    What `%v` prints for a non-negative integer: its decimal digits, with no
    leading zero except for 0 itself.
   */
  function FormatUint(n: nat): (s: string)
    ensures s != []
    ensures forall i :: 0 <= i < |s| ==> '0' <= s[i] <= '9'
    ensures s[0] == '0' ==> n == 0
  {
    if n < 10 then [DecimalDigit(n)] else FormatUint(n / 10) + [DecimalDigit(n % 10)]
  }

  /** What `%v` prints for a signed integer: a `-` for negatives, then the decimal digits. */
  function FormatInt(i: int): (s: string)
    ensures s != []
    ensures s[0] == '-' <==> i < 0
  {
    if i < 0 then "-" + FormatUint(-i) else FormatUint(i)
  }

  /** The decimal digits `%v` prints read back, in base 10, as the number printed. */
  lemma {:induction false} DecimalDigitsValue(n: nat)
    ensures DigitsValue(FormatUint(n), 10) == Some(n)
  {
    var s := FormatUint(n);
    if n >= 10 {
      DecimalDigitsValue(n / 10);
      assert s[..|s| - 1] == FormatUint(n / 10);
    }
  }

  /** Printed decimal text is an unsigned base-0 literal with the printed value. */
  lemma UnsignedLiteralFormatUint(n: nat)
    ensures UnsignedLiteral(FormatUint(n)) == Some(n)
  {
    var s := FormatUint(n);
    if n == 0 {
      assert s == "0";
    } else {
      DecimalDigitsValue(n);
    }
  }

  /** Unsigned round trip: `ParseUint(%v of n)` gives back every `n` the width can hold. */
  lemma ParseUintFormatUint(n: nat, bitSize: nat)
    requires 1 <= bitSize <= 64
    requires InUnsignedRange(n, bitSize)
    ensures ParseUint(FormatUint(n), bitSize) == Ok(n)
  {
    UnsignedLiteralFormatUint(n);
  }

  /** Printed signed decimal text is a signed base-0 literal with the printed value. */
  lemma SignedLiteralFormatInt(i: int)
    ensures SignedLiteral(FormatInt(i)) == Some(i)
  {
    var s := FormatInt(i);
    if i < 0 {
      var u := FormatUint(-i);
      assert s == "-" + u;
      assert s[0] == '-' && s[1..] == u;
      UnsignedLiteralFormatUint(-i);
    } else {
      var u := FormatUint(i);
      assert s == u && '0' <= s[0] <= '9';
      UnsignedLiteralFormatUint(i);
    }
  }

  /** Signed round trip: `ParseInt(%v of i)` gives back every `i` the width can hold. */
  lemma ParseIntFormatInt(i: int, bitSize: nat)
    requires 2 <= bitSize <= 64
    requires InSignedRange(i, bitSize)
    ensures ParseInt(FormatInt(i), bitSize) == Ok(i)
  {
    SignedLiteralFormatInt(i);
  }
}
