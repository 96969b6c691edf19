/**
 Number printing of the log (print_number, print_signed_dec in src/intercept_log.c) with a parser
 that reads the digits back.
 */
module LogNumbers {
  import opened Bytes

  const DIGIT_CHARS := "0123456789abcdef"

  /** sizeof(digits) - 1: the digits that fit the scratch area. */
  const SCRATCH := 31

  ghost function Pow(base: nat, n: nat): nat {
    if n == 0 then 1 else base * Pow(base, n - 1)
  }

  /** The numbers whose digits fit the scratch area. */
  ghost predicate Fits(n: nat, base: nat): (fits: bool)
    ensures fits && base == 1 ==> n == 0
  {
    PowOfOne(SCRATCH);
    n < Pow(base, SCRATCH)
  }

  lemma {:induction false} PowOfOne(k: nat)
    ensures Pow(1, k) == 1
  {
    if k > 0 {
      PowOfOne(k - 1);
    }
  }

  /** The number without its last digit. */
  function Rest(n: nat, base: nat): (q: nat)
    requires 0 < base && (base == 1 ==> n == 0)
    ensures q < n || q == n == 0
  {
    DivLess(n, base);
    n / base
  }

  function LastDigit(n: nat, base: nat): (d: nat)
    requires 0 < base
    ensures d < base
  {
    n % base
  }

  ghost function Shorter(width: nat): nat {
    if width > 0 then width - 1 else 0
  }

  ghost predicate HasMore(n: nat, base: nat, width: nat)
    requires 0 < base && (base == 1 ==> n == 0)
  {
    Rest(n, base) > 0 || width > 1
  }

  /** The digits of n in the given base, padded with zeros to `width` digits. */
  ghost function Digits(n: nat, base: nat, width: nat): string
    requires 0 < base <= 16 && (base == 1 ==> n == 0)
    decreases n, width
  {
    (if HasMore(n, base, width) then Digits(Rest(n, base), base, Shorter(width)) else [])
    + [DIGIT_CHARS[LastDigit(n, base)]]
  }

  ghost function ValueOf(c: char): int {
    if '0' <= c <= '9' then c as int - '0' as int
    else if 'a' <= c <= 'f' then c as int - 'a' as int + 10
    else -1
  }

  ghost function Parse(s: string, base: nat): int {
    if |s| == 0 then 0 else Parse(s[..|s| - 1], base) * base + ValueOf(s[|s| - 1])
  }

  /** Text printed over a buffer from `at` on; at most a NUL follows it. */
  ghost predicate Printed(before: seq<char>, after: seq<char>, at: nat, text: string) {
    && |after| == |before| && at + |text| <= |before|
    && after[..at] == before[..at]
    && after[at..at + |text|] == text
    && forall i :: at + |text| < i < |before| ==> after[i] == before[i]
  }

  lemma PrintedAfter(a: seq<char>, b: seq<char>, c: seq<char>, at: nat, t: string, u: string)
    requires Printed(a, b, at, t) && Printed(b, c, at + |t|, u)
    ensures Printed(a, c, at, t + u)
  {
    assert c[..at] == c[..at + |t|][..at] && b[..at] == b[..at + |t|][..at];
    assert c[at..at + |t|] == c[..at + |t|][at..];
    assert b[at..at + |t|] == b[..at + |t|][at..];
    assert c[at..at + |t + u|] == c[at..at + |t|] + c[at + |t|..at + |t| + |u|];
  }

  // ----- arithmetic -----

  lemma MulMonotone(base: nat, a: nat, b: nat)
    requires a <= b
    ensures base * a <= base * b
  {
  }

  lemma DivMod(n: nat, base: nat)
    requires base > 0
    ensures n / base * base + n % base == n && n % base < base
  {
  }

  lemma RestAndLast(n: nat, base: nat, m: nat)
    requires 0 < base && (base == 1 ==> n == 0)
    ensures Rest(n, base) * base + LastDigit(n, base) == n
    ensures Rest(n, base) < m <==> n < base * m
  {
    DivMod(n, base);
    DivBelow(n, base, m);
  }

  lemma DivBelow(n: nat, base: nat, m: nat)
    requires base > 0
    ensures n / base < m <==> n < base * m
  {
    var q := n / base;
    DivMod(n, base);
    assert base * (q + 1) == q * base + base;
    if q < m {
      MulMonotone(base, q + 1, m);
    } else {
      MulMonotone(base, m, q);
    }
  }

  lemma {:induction false} PowPositive(base: nat, n: nat)
    requires base > 0
    ensures Pow(base, n) > 0
  {
    if n > 0 {
      PowPositive(base, n - 1);
      MulMonotone(base, 1, Pow(base, n - 1));
    }
  }

  // ----- what the digits mean -----

  lemma DigitValue(d: nat)
    requires d < 16
    ensures ValueOf(DIGIT_CHARS[d]) == d
  {
  }

  lemma ParseSnoc(s: string, c: char, base: nat)
    ensures Parse(s + [c], base) == Parse(s, base) * base + ValueOf(c)
  {
    assert (s + [c])[..|s|] == s;
  }

  /** The digits read back as the number, in every base and for every padding. */
  lemma {:induction false} DigitsParse(n: nat, base: nat, width: nat)
    requires 0 < base <= 16 && (base == 1 ==> n == 0)
    ensures Parse(Digits(n, base, width), base) == n
    decreases n, width
  {
    hide Parse, ValueOf, Rest, LastDigit;
    RestAndLast(n, base, 0);
    DigitValue(LastDigit(n, base));
    if HasMore(n, base, width) {
      DigitsParse(Rest(n, base), base, Shorter(width));
      ParseSnoc(Digits(Rest(n, base), base, Shorter(width)), DIGIT_CHARS[LastDigit(n, base)], base);
    } else {
      ParseSnoc([], DIGIT_CHARS[LastDigit(n, base)], base);
      assert Parse([], base) == 0 by { ParseEmpty(base); }
    }
  }

  lemma ParseEmpty(base: nat)
    ensures Parse([], base) == 0
  {
  }

  lemma PowStep(base: nat, k: nat)
    requires base > 0 && k > 0
    ensures Pow(base, k) == base * Pow(base, k - 1)
    ensures Pow(base, k - 1) > 0
    ensures k == 1 ==> Pow(base, k - 1) == 1
  {
    PowPositive(base, k - 1);
  }

  lemma DivLess(n: nat, base: nat)
    requires 0 < base && (base == 1 ==> n == 0)
    ensures n / base < n || n / base == n == 0
  {
    DivBelow(n, base, n);
    if base > 1 && n > 0 {
      MulMonotone(n, 2, base);
    }
  }

  lemma DigitsUnfold(n: nat, base: nat, width: nat)
    requires 0 < base <= 16 && (base == 1 ==> n == 0)
    ensures |Digits(n, base, width)| ==
      1 + if HasMore(n, base, width) then |Digits(Rest(n, base), base, Shorter(width))| else 0
  {
    hide HasMore, Shorter, Rest, LastDigit;
  }

  /** The number of digits is exact: the least that hold n and the padding asked for. */
  lemma {:induction false} DigitsLength(n: nat, base: nat, width: nat, k: nat)
    requires 0 < base <= 16 && (base == 1 ==> n == 0) && k > 0
    ensures |Digits(n, base, width)| <= k <==> n < Pow(base, k) && width <= k
    ensures |Digits(n, base, width)| >= 1
    decreases n, width
  {
    hide Pow, Digits, Rest, LastDigit;
    PowStep(base, k);
    RestAndLast(n, base, Pow(base, k - 1));
    DigitsUnfold(n, base, width);
    if HasMore(n, base, width) {
      DigitsLength(Rest(n, base), base, Shorter(width), if k > 1 then k - 1 else 1);
    }
  }

  // ----- the printers -----

  /** The width the scratch area allows. */
  function Clamp(width: nat): (w: nat)
    ensures w < SCRATCH && (width < SCRATCH ==> w == width)
  {
    if width >= SCRATCH then SCRATCH - 1 else width
  }

  ghost predicate AllDigits(s: string) {
    forall i :: 0 <= i < |s| ==> ValueOf(s[i]) >= 0
  }

  lemma {:induction false} DigitsAreDigits(n: nat, base: nat, width: nat)
    requires 0 < base <= 16 && (base == 1 ==> n == 0)
    ensures AllDigits(Digits(n, base, width))
    decreases n, width
  {
    hide Rest, LastDigit;
    DigitValue(LastDigit(n, base));
    if HasMore(n, base, width) {
      DigitsAreDigits(Rest(n, base), base, Shorter(width));
    }
  }

  lemma DigitsAll(n: nat, base: nat, width: nat)
    requires 0 < base <= 16 && Fits(n, base) && width < SCRATCH
    ensures |Digits(n, base, width)| <= SCRATCH && AllDigits(Digits(n, base, width))
  {
    hide Pow, Digits;
    DigitsLength(n, base, width, SCRATCH);
    DigitsAreDigits(n, base, width);
  }

  /** The digit loop: fills the scratch area from its end; never runs past its start. */
  method FillDigits(digits: array<char>, number: nat, base: nat, padding: nat) returns (c: nat)
    requires digits.Length == SCRATCH + 1
    requires 0 < base <= 16 && (base == 1 ==> number == 0)
    requires |Digits(number, base, padding)| <= SCRATCH
    modifies digits
    ensures c <= SCRATCH && digits[c..SCRATCH] == Digits(number, base, padding)
    ensures digits[SCRATCH] == '\0'
  {
    hide Pow, Rest, LastDigit, Digits, HasMore, Shorter;
    digits[SCRATCH] := '\0';
    c := SCRATCH;
    var n: nat, width: nat := number, padding;
    var more := true;
    ghost var goal := Digits(number, base, padding);
    assert digits[c..SCRATCH] == [];
    while more
      invariant c <= SCRATCH && digits[SCRATCH] == '\0'
      invariant base == 1 ==> n == 0
      invariant goal == (if more then Digits(n, base, width) else []) + digits[c..SCRATCH]
      decreases more, n, width
    {
      ghost var tail := digits[c..SCRATCH];
      DigitsSplit(n, base, width, goal, tail);
      c := c - 1;
      digits[c] := DIGIT_CHARS[LastDigit(n, base)];
      assert digits[c..SCRATCH] == [DIGIT_CHARS[LastDigit(n, base)]] + tail;
      more := Rest(n, base) > 0 || width > 1;
      n := Rest(n, base);
      width := if width > 0 then width - 1 else 0;
    }
  }

  /** One round of the digit loop: the last digit moves to the tail. */
  lemma DigitsSplit(n: nat, base: nat, width: nat, goal: string, tail: string)
    requires 0 < base <= 16 && (base == 1 ==> n == 0)
    requires goal == Digits(n, base, width) + tail
    ensures |Digits(n, base, width)| > 0
    ensures var rest, w := Rest(n, base), if width > 0 then width - 1 else 0;
      goal == (if rest > 0 || width > 1 then Digits(rest, base, w) else []) + ([DIGIT_CHARS[LastDigit(n, base)]] + tail)
  {
    hide Rest, LastDigit;
    var front := if HasMore(n, base, width) then Digits(Rest(n, base), base, Shorter(width)) else [];
    var last := [DIGIT_CHARS[LastDigit(n, base)]];
    assert Digits(n, base, width) == front + last;
    assert front + last + tail == front + (last + tail);
  }

  /**
   print_number: for a number that fits, exactly its digits are printed. They read back as the number, and
   are as few as hold it and the width, of which at most 30 is honoured.
   */
  method PrintNumber(dst: array<char>, at: nat, n: nat, base: nat, width: nat) returns (end: nat)
    requires 0 < base <= 16 && Fits(n, base)
    requires at + |Digits(n, base, Clamp(width))| <= dst.Length
    modifies dst
    ensures Printed(old(dst[..]), dst[..], at, Digits(n, base, Clamp(width)))
    ensures end == at + |Digits(n, base, Clamp(width))|
    ensures at <= end <= dst.Length && Parse(dst[at..end], base) == n
    ensures forall k: nat :: k > 0 ==> (end - at <= k <==> n < Pow(base, k) && (if width <= 30 then width else 30) <= k)
  {
    hide Pow, Digits, Parse;
    ghost var before := dst[..];
    ghost var text := Digits(n, base, Clamp(width));
    DigitsAll(n, base, Clamp(width));
    var digits := new char[SCRATCH + 1];
    var c := FillDigits(digits, n, base, Clamp(width));
    assert SCRATCH - c == |text|;
    assert forall i :: c <= i < SCRATCH ==> digits[i] == text[i - c];
    end := at;
    ghost var start := c;
    while digits[c] != '\0'
      invariant start <= c <= SCRATCH && end == at + (c - start) && dst.Length == |before|
      invariant digits[SCRATCH] == '\0'
      invariant forall i :: start <= i < SCRATCH ==> digits[i] == text[i - start]
      invariant forall i :: at <= i < end ==> dst[i] == text[i - at]
      invariant forall i :: 0 <= i < dst.Length && !(at <= i < end) ==> dst[i] == before[i]
      decreases SCRATCH - c
    {
      dst[end] := digits[c];
      end := end + 1;
      c := c + 1;
    }
    assert dst[at..end] == text;
    assert dst[..][..at] == before[..at];
    DigitsParse(n, base, Clamp(width));
    forall k: nat | k > 0
      ensures |text| <= k <==> n < Pow(base, k) && Clamp(width) <= k
    {
      DigitsLength(n, base, Clamp(width), k);
    }
  }

  // ----- which numbers fit -----

  lemma {:induction false} PowSplit(base: nat, m: nat, n: nat)
    ensures Pow(base, m + n) == Pow(base, m) * Pow(base, n)
  {
    hide Pow;
    PowUnfold(base, m);
    PowUnfold(base, m + n);
    if m > 0 {
      PowSplit(base, m - 1, n);
      MulAssociative(base, Pow(base, m - 1), Pow(base, n));
    }
  }

  lemma PowUnfold(base: nat, n: nat)
    ensures Pow(base, n) == if n == 0 then 1 else base * Pow(base, n - 1)
  {
  }

  lemma MulAssociative(a: nat, b: nat, c: nat)
    ensures a * (b * c) == a * b * c
  {
  }

  lemma {:induction false} PowMonotone(a: nat, b: nat, n: nat)
    requires a <= b
    ensures Pow(a, n) <= Pow(b, n)
  {
    if n > 0 {
      PowMonotone(a, b, n - 1);
      MulMonotone(a, Pow(a, n - 1), Pow(b, n - 1));
      MulMonotone(Pow(b, n - 1), a, b);
    }
  }

  lemma PowOfScratch()
    ensures Pow(5, SCRATCH) > TWO_64 && Pow(4, SCRATCH) < TWO_64
  {
    hide Pow;
    PowPieces(5);
    PowPieces(4);
  }

  lemma PowPieces(base: nat)
    ensures Pow(base, SCRATCH) == Pow(base, 16) * Pow(base, 8) * Pow(base, 4) * Pow(base, 3)
    ensures Pow(base, 16) == Pow(base, 8) * Pow(base, 8)
    ensures Pow(base, 8) == Pow(base, 4) * Pow(base, 4)
    ensures Pow(base, 4) == Pow(base, 3) * base
    ensures Pow(base, 3) == base * base * base
  {
    PowSplit(base, 28, 3);
    PowSplit(base, 24, 4);
    PowSplit(base, 16, 8);
    PowSplit(base, 8, 8);
    PowSplit(base, 4, 4);
    PowSplit(base, 3, 1);
    PowSplit(base, 2, 1);
    PowSplit(base, 1, 1);
    PowOfFirst(base);
  }

  lemma PowOfFirst(base: nat)
    ensures Pow(base, 1) == base
  {
    assert Pow(base, 0) == 1;
  }

  /** Of the bases the assertion admits, all 64-bit numbers fit exactly from base 5 on. */
  lemma FitsIff(base: nat)
    requires 0 < base <= 16
    ensures base >= 5 <==> forall n: nat :: n < TWO_64 ==> Fits(n, base)
  {
    hide Pow;
    PowOfScratch();
    if base >= 5 {
      PowMonotone(5, base, SCRATCH);
    } else {
      PowMonotone(base, 4, SCRATCH);
      assert !Fits(TWO_64 - 1, base);
    }
  }

  // ----- signed decimals -----

  ghost function SignedText(n: int): string {
    if n >= 0 then Digits(n, 10, 1) else "-" + Digits(-n, 10, 1)
  }

  ghost function ParseSigned(s: string): int {
    if |s| > 0 && s[0] == '-' then -Parse(s[1..], 10) else Parse(s, 10)
  }

  /** Every signed number reads back. */
  lemma SignedRoundTrip(n: int)
    ensures ParseSigned(SignedText(n)) == n
  {
    hide Digits, Parse;
    var m := if n >= 0 then n else -n;
    DigitsParse(m, 10, 1);
    DigitsAreDigits(m, 10, 1);
    DigitsLength(m, 10, 1, 1);
    if n < 0 {
      assert SignedText(n)[1..] == Digits(m, 10, 1);
    }
  }

  /** print_signed_dec: the magnitude is an unsigned negation, so the least number prints too. */
  method PrintSignedDec(dst: array<char>, at: nat, n: int) returns (end: nat)
    requires -TWO_64 / 2 <= n < TWO_64 / 2
    requires at + |SignedText(n)| <= dst.Length
    modifies dst
    ensures Printed(old(dst[..]), dst[..], at, SignedText(n))
    ensures end == at + |SignedText(n)|
  {
    hide Digits, Pow, Fits;
    FitsIff(10);
    end := at;
    var magnitude := n % TWO_64;
    if n < 0 {
      dst[end] := '-';
      end := end + 1;
      magnitude := (TWO_64 - magnitude) % TWO_64;
    }
    assert magnitude == if n >= 0 then n else -n;
    ghost var before := dst[..];
    end := PrintNumber(dst, end, magnitude, 10, 1);
    if n < 0 {
      PrintedAfter(old(dst[..]), before, dst[..], at, "-", Digits(magnitude, 10, 1));
    }
  }
}
