/** Printing numbers with %d and %x, and reading them back with atoi. */
module Numbers {
  import opened Base

  function Pow(base: nat, k: nat): nat {
    if k == 0 then 1 else base * Pow(base, k - 1)
  }

  lemma Shrinks(n: nat, base: nat)
    requires base >= 2 && n > 0
    ensures n / base < n
  {
    assert n == base * (n / base) + n % base;
    if n / base > 0 {
      assert base * (n / base) >= 2 * (n / base);
    }
  }

  /** The number of digits of n. */
  function Len(n: nat, base: nat): (k: nat)
    requires base >= 2
    ensures k >= 1
  {
    if n < base then 1
    else
      Shrinks(n, base);
      1 + Len(n / base, base)
  }

  function DigitChar(c: nat): char {
    if c <= 9 then (c + 48) as char else ((c - 10 + 97) % 256) as char
  }

  /** A separator belongs before the last k digits. */
  predicate EndsGroup(k: int, base: nat) {
    if base == 10 then k % 3 == 0 else k % 4 == 0
  }

  /** The text of the position k places before the end, when q is left of the number there. */
  function Piece(q: nat, base: nat, k: nat, pad: char, sep: Option<char>): string
    requires base >= 2
  {
    [if q == 0 && k > 0 then pad else DigitChar(q % base)]
    + (if sep.Some? && k > 0 && EndsGroup(k, base) then [sep.value] else "")
  }

  /**
   * The text of q in a field of d digits, of which the last stands i places before the end of the number:
   * leading zeros are padding, and separators stand between groups.
   */
  function Field(q: nat, base: nat, d: nat, i: nat, pad: char, sep: Option<char>): string
    requires base >= 2
    decreases d
  {
    if d == 0 then ""
    else Field(q / base, base, d - 1, i + 1, pad, sep) + Piece(q, base, i, pad, sep)
  }

  /** The widest field for which no power of the base overflows. */
  function MaxWidth(base: nat): nat {
    if base == 10 then 10 else 8
  }

  function Max(a: nat, b: nat): nat {
    if a < b then b else a
  }

  /** What should be printed for n. */
  function Text(n: nat, base: nat, width: nat, pad: char, sep: Option<char>): string
    requires base >= 2
  {
    Field(n, base, Max(width, Len(n, base)), 0, pad, sep)
  }

  // ----- powers and lengths -----

  lemma Commute(a: int, b: int)
    ensures a * b == b * a
  {
  }

  lemma Euclid(x: nat, d: nat)
    requires d > 0
    ensures x == d * (x / d) + x % d
  {
  }

  lemma Distribute(m: int, a: int, b: int)
    ensures m * a - m * b == m * (a - b)
  {
  }

  lemma AtLeastZero(a: nat, b: nat)
    ensures a * b >= 0
  {
  }

  lemma Times(d: nat, a: nat, b: nat)
    requires a < b
    ensures d * a + d <= d * b
  {
    Distribute(d, b, a + 1);
    AtLeastZero(d, b - a - 1);
    assert d * (a + 1) == d * a + d;
  }

  /** Quotient and remainder are unique. */
  lemma Quotient(n: nat, d: nat, q: nat, r: nat)
    requires d > 0 && n == d * q + r && r < d
    ensures n / d == q && n % d == r
  {
    var q2, r2 := n / d, n % d;
    assert n == d * q2 + r2 && 0 <= r2 < d;
    if q2 < q {
      Times(d, q2, q);
    } else if q < q2 {
      Times(d, q, q2);
    }
  }

  /** Dividing by one digit more. */
  lemma DivStep(n: nat, p: nat, b: nat)
    requires p > 0 && b > 0
    ensures b * p > 0 && n / (b * p) == n / p / b
    ensures n % (b * p) == p * (n / p % b) + n % p
  {
    var m, r1 := n / p, n % p;
    var q, r2 := m / b, m % b;
    Euclid(n, p);
    Euclid(m, b);
    Spread(p, b, q, r2);
    Times(p, r2, b);
    Commute(p, b);
    Quotient(n, b * p, q, p * r2 + r1);
  }

  lemma Spread(p: nat, b: nat, q: nat, r: nat)
    ensures p * (b * q + r) == (b * p) * q + p * r
  {
  }

  lemma {:induction false} PowPositive(base: nat, k: nat)
    requires base >= 2
    ensures Pow(base, k) > 0
  {
    if k > 0 {
      PowPositive(base, k - 1);
    }
  }

  /** A number has at most k digits exactly when it is below the k-th power. */
  lemma {:induction false} LenPow(n: nat, base: nat, k: nat)
    requires base >= 2 && k >= 1
    ensures Len(n, base) <= k <==> n < Pow(base, k)
    decreases k
  {
    PowPositive(base, k - 1);
    if k == 1 {
      assert Pow(base, 1) == base * Pow(base, 0);
      assert Pow(base, 0) == 1;
    } else if n < base {
      assert Pow(base, k) == base * Pow(base, k - 1);
      assert base * Pow(base, k - 1) >= base * 1;
    } else {
      LenPow(n / base, base, k - 1);
      Below(n, base, Pow(base, k - 1));
    }
  }

  lemma Below(n: nat, b: nat, p: nat)
    requires b > 0
    ensures n / b < p <==> n < b * p
  {
    assert n == b * (n / b) + n % b;
    if n / b < p {
      assert b * (n / b) + b <= b * p by {
        assert b * (n / b + 1) <= b * p;
      }
    } else {
      assert b * p <= b * (n / b);
    }
  }

  lemma PowFits(base: nat, k: nat)
    requires base == 10 || base == 16
    ensures k < MaxWidth(base) ==> Pow(base, k) < TWO32
    ensures k == MaxWidth(base) ==> Pow(base, k) >= TWO32
  {
    assert Pow(base, 0) == 1;
    assert Pow(base, 1) == base;
    assert Pow(base, 2) == base * base;
    assert Pow(base, 3) == base * Pow(base, 2);
    assert Pow(base, 4) == base * Pow(base, 3);
    assert Pow(base, 5) == base * Pow(base, 4);
    assert Pow(base, 6) == base * Pow(base, 5);
    assert Pow(base, 7) == base * Pow(base, 6);
    assert Pow(base, 8) == base * Pow(base, 7);
    assert Pow(base, 9) == base * Pow(base, 8);
    assert Pow(base, 10) == base * Pow(base, 9);
  }

  /** Every word has at most so many digits. */
  lemma LenFits(n: u32, base: nat)
    requires base == 10 || base == 16
    ensures Len(n, base) <= MaxWidth(base)
  {
    PowFits(base, MaxWidth(base));
    LenPow(n, base, MaxWidth(base));
  }

  /** What one turn of the digit loop works out, at the place of the k-th power. */
  lemma DigitStep(n: nat, base: nat, k: nat)
    requires base == 10 || base == 16
    ensures Pow(base, k) > 0 && Pow(base, k + 1) > 0
    ensures n % Pow(base, k + 1) / Pow(base, k) == n / Pow(base, k) % base
    ensures n % Pow(base, k + 1) - n / Pow(base, k) % base * Pow(base, k) == n % Pow(base, k)
    ensures n / Pow(base, k) / base == n / Pow(base, k + 1)
    ensures Pow(base, k) > n <==> n / Pow(base, k) == 0
    ensures Pow(base, k) != 1 <==> k > 0
    ensures Pow(base, k) / base == if k == 0 then 0 else Pow(base, k - 1)
  {
    PowPositive(base, k);
    PowPositive(base, k + 1);
    var p := Pow(base, k);
    assert Pow(base, k + 1) == base * p;
    DivStep(n, p, base);
    DivMod(n, p, base);
    Under(n, p);
    if k > 0 {
      PowPositive(base, k - 1);
      assert p == base * Pow(base, k - 1);
      Quotient(p, base, Pow(base, k - 1), 0);
    }
  }

  lemma Under(n: nat, p: nat)
    requires p > 0
    ensures p > n <==> n / p == 0
  {
    Below(n, p, 1);
  }

  lemma DivMod(n: nat, p: nat, b: nat)
    requires p > 0 && b > 0
    ensures b * p > 0 && n % (b * p) / p == n / p % b
    ensures n % (b * p) - n / p % b * p == n % p
  {
    DivStep(n, p, b);
    Quotient(n % (b * p), p, n / p % b, n % p);
  }

  // ----- overflow of the power -----

  lemma Pow2()
    ensures Pow(2, 32) == TWO32
  {
    assert Pow(2, 4) == 16;
    assert Pow(2, 8) == 16 * Pow(2, 4);
    assert Pow(2, 12) == 16 * Pow(2, 8);
    assert Pow(2, 16) == 16 * Pow(2, 12);
    assert Pow(2, 20) == 16 * Pow(2, 16);
    assert Pow(2, 24) == 16 * Pow(2, 20);
    assert Pow(2, 28) == 16 * Pow(2, 24);
    assert Pow(2, 32) == 16 * Pow(2, 28);
  }

  lemma {:induction false} PowSplit(b: nat, j: nat, k: nat)
    ensures Pow(b, j + k) == Pow(b, j) * Pow(b, k)
  {
    if j > 0 {
      PowSplit(b, j - 1, k);
      assert b * (Pow(b, j - 1) * Pow(b, k)) == b * Pow(b, j - 1) * Pow(b, k);
    }
  }

  lemma Multiple(y: nat, m: nat, a: int)
    requires m > 0 && y == m * a
    ensures y % m == 0
  {
    Quotient(y, m, a, 0);
  }

  lemma Regroup(p: int, a: int, h: int)
    ensures (p * a) * (2 * h) == (2 * p) * (a * h)
  {
  }

  lemma Associate(m: int, w: int, t: int)
    ensures (m * w) * t == m * (w * t)
  {
  }

  /** The wrapped product of an even number and a multiple of p is a multiple of 2 * p, if that divides the modulus. */
  lemma WrapMultiple(x: nat, base: nat, p: nat, w: nat, modulus: nat)
    requires p > 0 && x % p == 0 && base % 2 == 0 && modulus == 2 * p * w && modulus > 0
    ensures x * base % modulus % (2 * p) == 0
  {
    var m, h := 2 * p, base / 2;
    var a, t, y := x / p, x * base / modulus, x * base % modulus;
    Regroup(p, a, h);
    Associate(m, w, t);
    Distribute(m, a * h, w * t);
    Euclid(x * base, modulus);
    Euclid(x, p);
    assert x * base == (p * a) * (2 * h);
    Multiple(y, m, a * h - w * t);
  }

  /** Each multiplication by an even base clears one more low bit of the wrapped power. */
  lemma LowBits(x: u32, base: nat, k: nat)
    requires (base == 10 || base == 16) && k < 32 && Pow(2, k) > 0 && x % Pow(2, k) == 0
    ensures Pow(2, k + 1) > 0 && x * base % TWO32 % Pow(2, k + 1) == 0
  {
    Pow2();
    PowSplit(2, k + 1, 31 - k);
    hide Pow;
    TwicePow(k);
    WrapMultiple(x, base, Pow(2, k), Pow(2, 31 - k), TWO32);
  }

  lemma TwicePow(k: nat)
    ensures Pow(2, k + 1) == 2 * Pow(2, k)
  {
  }

  // ----- the printer -----

  /** A number that has more digits than the power found so far stands for. */
  lemma MoreDigits(n: u32, base: nat, digits: nat)
    requires (base == 10 || base == 16) && digits >= 1
    ensures Pow(base, digits - 1) > 0 && Pow(base, digits) == Pow(base, digits - 1) * base
    ensures n / Pow(base, digits - 1) >= base ==> digits < Len(n, base)
  {
    SearchEnd(n, base, digits);
    LenPow(n, base, digits);
    UnderDigits(n, base, Pow(base, digits - 1));
    Commute(base, Pow(base, digits - 1));
  }

  /** One turn of the power search, within the widest field. */
  lemma SearchStep(n: u32, base: nat, width: nat, digits: nat)
    requires (base == 10 || base == 16) && width <= MaxWidth(base) && 1 <= digits <= Max(width, Len(n, base))
    requires Pow(base, digits - 1) > 0 && (n / Pow(base, digits - 1) >= base || digits < width)
    ensures digits + 1 <= Max(width, Len(n, base)) && Pow(base, digits - 1) * base % TWO32 == Pow(base, digits)
  {
    MoreDigits(n, base, digits);
    hide Pow, Len;
    LenFits(n, base);
    PowFits(base, digits);
    Unwrapped(Pow(base, digits));
  }

  lemma Unwrapped(x: nat)
    ensures x < TWO32 ==> x % TWO32 == x
  {
  }

  /** When the search ends, the field is as wide as asked and as the number needs. */
  lemma SearchEnd(n: u32, base: nat, digits: nat)
    requires (base == 10 || base == 16) && digits >= 1
    ensures Pow(base, digits - 1) > 0
    ensures n / Pow(base, digits - 1) < base ==> Len(n, base) <= digits
  {
    PowPositive(base, digits - 1);
    LenPow(n, base, digits);
    UnderDigits(n, base, Pow(base, digits - 1));
  }

  /** Finds the power of the base that the first printed digit stands for; none if the power wraps to zero. */
  method FindPower(n: u32, base: nat, width: nat) returns (index: u32, digits: nat)
    requires base == 10 || base == 16
    ensures digits >= 1
    ensures width <= MaxWidth(base) ==> index == Pow(base, digits - 1) > 0 && digits == Max(width, Len(n, base))
    ensures index != 0 ==> digits >= width
  {
    index, digits := 1, 1;
    assert Pow(2, 0) == 1 && Pow(base, 0) == 1;
    SearchEnd(n, base, 1);
    Pow2();
    hide Pow, Len;
    while index != 0 && (n / index >= base || digits < width)
      invariant 1 <= digits <= 33 && Pow(2, digits - 1) > 0 && index % Pow(2, digits - 1) == 0
      invariant width <= MaxWidth(base) ==>
                  index == Pow(base, digits - 1) > 0 && digits <= Max(width, Len(n, base))
      decreases 33 - digits
    {
      LowBits(index, base, digits - 1);
      if width <= MaxWidth(base) {
        SearchStep(n, base, width, digits);
        SearchEnd(n, base, digits + 1);
      }
      index := index * base % TWO32;
      digits := digits + 1;
    }
    SearchEnd(n, base, digits);
  }

  lemma UnderDigits(n: nat, base: nat, p: nat)
    requires p > 0 && base > 0
    ensures n / p < base <==> n < base * p
  {
    Below(n, p, base);
    assert p * base == base * p;
  }

  function PadChar(padder: Option<char>): char {
    if padder.None? then ' ' else padder.value
  }

  /** Turns of the digit loop that are left. */
  function Turns(index: nat, base: nat): nat
    requires base >= 2
  {
    if index == 0 then 0 else Len(index, base)
  }

  /** The number left when the last k digits are dropped. */
  function Dropped(n: nat, base: nat, k: nat): nat
    requires base >= 2
  {
    PowPositive(base, k);
    n / Pow(base, k)
  }

  /** Its last k digits. */
  function Low(n: nat, base: nat, k: nat): nat
    requires base >= 2
  {
    PowPositive(base, k);
    n % Pow(base, k)
  }

  lemma DropStep(n: nat, base: nat, k: nat)
    requires base == 10 || base == 16
    ensures Dropped(n, base, k) / base == Dropped(n, base, k + 1)
    ensures Dropped(n, base, k) == 0 <==> Pow(base, k) > n
  {
    DigitStep(n, base, k);
  }

  /** One more position of a field. */
  lemma FieldStep(n: nat, base: nat, width: nat, k: nat, pad: char, sep: Option<char>)
    requires (base == 10 || base == 16) && k < width
    ensures Field(Dropped(n, base, k), base, width - k, k, pad, sep) ==
            Field(Dropped(n, base, k + 1), base, width - k - 1, k + 1, pad, sep)
            + Piece(Dropped(n, base, k), base, k, pad, sep)
  {
    DropStep(n, base, k);
    hide Dropped;
  }

  function Ends(k: int, base: nat): nat {
    if EndsGroup(k, base) then 1 else 0
  }

  /** The ends of groups at the places from lo to hi. */
  function Marks(lo: int, hi: int, base: nat): nat
    decreases hi - lo
  {
    if lo >= hi then 0 else Ends(lo, base) + Marks(lo + 1, hi, base)
  }

  /** As many of them as there are separators. */
  function MarksIf(sep: Option<char>, lo: int, hi: int, base: nat): nat {
    if sep.Some? then Marks(lo, hi, base) else 0
  }

  lemma {:induction false} FewerMarks(lo: int, lo': int, hi: int, base: nat)
    requires lo <= lo'
    ensures Marks(lo', hi, base) <= Marks(lo, hi, base)
    decreases lo' - lo
  {
    if lo < lo' {
      FewerMarks(lo + 1, lo', hi, base);
    }
  }

  /** Each three decimal places, or four hexadecimal ones, hold the end of one group. */
  lemma OneGroup(lo: int, hi: int, base: nat)
    ensures base == 10 && lo + 3 <= hi ==> Marks(lo, hi, base) == 1 + Marks(lo + 3, hi, base)
    ensures base == 16 && lo + 4 <= hi ==> Marks(lo, hi, base) == 1 + Marks(lo + 4, hi, base)
  {
    MarksStep(lo, hi, base);
    MarksStep(lo + 1, hi, base);
    MarksStep(lo + 2, hi, base);
    MarksStep(lo + 3, hi, base);
    OneEnd(lo, base);
    hide Marks, EndsGroup, Ends;
  }

  lemma OneEnd(lo: int, base: nat)
    ensures base == 10 ==> Ends(lo, base) + Ends(lo + 1, base) + Ends(lo + 2, base) == 1
    ensures base == 16 ==> Ends(lo, base) + Ends(lo + 1, base) + Ends(lo + 2, base) + Ends(lo + 3, base) == 1
  {
  }

  lemma MarksStep(lo: int, hi: int, base: nat)
    ensures lo < hi ==> Marks(lo, hi, base) == Ends(lo, base) + Marks(lo + 1, hi, base)
  {
  }

  /** What fits in a word is shorter than a field of more places than a word can fill, wherever its groups end. */
  lemma TooShort(sep: Option<char>, len: nat, end: int, width: nat, base: nat)
    requires (base == 10 || base == 16) && 1 <= len <= MaxWidth(base) < width
    ensures len + MarksIf(sep, end - len + 1, end, base) < width + MarksIf(sep, 1, width, base)
  {
    var g, m := if base == 10 then 3 else 4, if base == 10 then 3 else 2;
    FewerMarks(end - m * g, end - len + 1, end, base);
    assert Marks(end, end, base) == 0;
    hide Marks, EndsGroup;
    OneGroup(end - 3 * g, end, base);
    OneGroup(end - 2 * g, end, base);
    OneGroup(end - g, end, base);
    OneGroup(1, width, base);
    OneGroup(1 + g, width, base);
    OneGroup(1 + 2 * g, width, base);
  }

  /** A field has a character for each place and a separator at each end of a group but the last. */
  lemma {:induction false} FieldLength(q: nat, base: nat, d: nat, i: nat, pad: char, sep: Option<char>)
    requires base >= 2
    ensures |Field(q, base, d, i, pad, sep)| == d + MarksIf(sep, Max(i, 1), i + d, base)
    decreases d
  {
    if d > 0 {
      hide Field, Piece, EndsGroup;
      var q' := q / base;
      FieldUnfolds(q, q', base, d, i, pad, sep);
      PieceLength(q, base, i, pad, sep);
      FieldLength(q', base, d - 1, i + 1, pad, sep);
    }
  }

  lemma FieldUnfolds(q: nat, q': nat, base: nat, d: nat, i: nat, pad: char, sep: Option<char>)
    requires base >= 2 && d > 0 && q' == q / base
    ensures Field(q, base, d, i, pad, sep) == Field(q', base, d - 1, i + 1, pad, sep) + Piece(q, base, i, pad, sep)
  {
  }

  lemma PieceLength(q: nat, base: nat, k: nat, pad: char, sep: Option<char>)
    requires base >= 2
    ensures |Piece(q, base, k, pad, sep)| == 1 + if sep.Some? && k > 0 && EndsGroup(k, base) then 1 else 0
  {
    hide DigitChar;
  }

  lemma FirstDigit(n: nat, base: nat, digits: nat)
    requires (base == 10 || base == 16) && digits >= 1 && Len(n, base) <= digits
    ensures Low(n, base, digits) == n && Dropped(n, base, digits) == 0
  {
    PowPositive(base, digits);
    LenPow(n, base, digits);
    Quotient(n, Pow(base, digits), 0, n);
  }

  lemma Remains(rem: nat, index: nat, c: nat)
    requires index > 0 && c <= rem / index
    ensures c * index <= rem
  {
    if c < rem / index {
      Times(index, c, rem / index);
    }
  }

  /** The digit that a turn of the loop prints, cut to a byte. */
  function DigitAt(rem: nat, index: nat): nat
    requires index > 0
  {
    rem / index % 256
  }

  /** What it leaves of the number. */
  function Rest(rem: nat, index: nat): nat
    requires index > 0
  {
    Remains(rem, index, DigitAt(rem, index));
    rem - DigitAt(rem, index) * index
  }

  function Down(index: nat, base: nat): nat
    requires base > 0
  {
    index / base
  }

  /** What one turn of the digit loop does to the number that is left. */
  lemma EmitStep(n: nat, base: nat, k: nat, rem: nat)
    requires base == 10 || base == 16
    requires rem == Low(n, base, k + 1)
    ensures Pow(base, k) > 0 && DigitAt(rem, Pow(base, k)) == Dropped(n, base, k) % base
    ensures Rest(rem, Pow(base, k)) == Low(n, base, k)
    ensures Pow(base, k) != 1 <==> k > 0
    ensures if k == 0 then Down(Pow(base, k), base) == 0 else Down(Pow(base, k), base) == Pow(base, k - 1) > 0
  {
    DigitStep(n, base, k);
    if k > 0 {
      PowPositive(base, k - 1);
    }
  }

  /** One turn's output. */
  method PrintDigit(n: u32, c: nat, index: nat, down: nat, digits: int, base: nat, padder: Option<char>,
                    sepr: Option<char>) returns (s: string)
    requires base == 10 || base == 16
    ensures digits >= 0 && c == Dropped(n, base, digits) % base && index == Pow(base, digits)
            && down == (if digits == 0 then 0 else Pow(base, digits - 1)) ==>
              s == Piece(Dropped(n, base, digits), base, digits, PadChar(padder), sepr)
    ensures |s| == 1 + if sepr.Some? && EndsGroup(digits, base) && down >= 1 then 1 else 0
  {
    if digits >= 0 {
      DropStep(n, base, digits);
      DigitStep(n, base, digits);
      if digits > 0 {
        PowPositive(base, digits - 1);
      }
    }
    hide Dropped, Pow;
    if c == 0 && index > n && index != 1 {
      s := [PadChar(padder)];
    } else {
      s := [DigitChar(c)];
    }
    if EndsGroup(digits, base) && down >= 1 && sepr.Some? {
      s := s + [sepr.value];
    }
  }

  /** The digit loop has printed all but the last k positions of the field. */
  ghost predicate Printing(n: nat, base: nat, width: nat, k: nat, rem: nat, index: nat, out: string, pad: char,
                           sep: Option<char>)
    requires base >= 2
  {
    && k <= width && rem == Low(n, base, k)
    && (if k == 0 then index == 0 else index == Pow(base, k - 1) > 0)
    && out == Field(Dropped(n, base, k), base, width - k, k, pad, sep)
  }

  lemma PrintingStarts(n: nat, base: nat, width: nat, first: nat, pad: char, sep: Option<char>)
    requires (base == 10 || base == 16) && width >= Len(n, base) && first == Pow(base, width - 1) > 0
    ensures Printing(n, base, width, width, n, first, "", pad, sep)
  {
    FirstDigit(n, base, width);
  }

  /** One turn prints one position. */
  lemma PrintingTurn(n: nat, base: nat, width: nat, k: nat, rem: nat, index: nat, out: string, pad: char,
                     sep: Option<char>)
    requires (base == 10 || base == 16) && Printing(n, base, width, k + 1, rem, index, out, pad, sep)
    ensures index == Pow(base, k) > 0 && DigitAt(rem, index) == Dropped(n, base, k) % base
    ensures Down(index, base) == if k == 0 then 0 else Pow(base, k - 1)
    ensures Printing(n, base, width, k, Rest(rem, index), Down(index, base),
                     out + Piece(Dropped(n, base, k), base, k, pad, sep), pad, sep)
  {
    EmitStep(n, base, k, rem);
    FieldStep(n, base, width, k, pad, sep);
  }

  lemma PrintingEnds(n: nat, base: nat, width: nat, k: nat, rem: nat, out: string, pad: char, sep: Option<char>)
    requires base >= 2 && Printing(n, base, width, k, rem, 0, out, pad, sep)
    ensures out == Field(n, base, width, 0, pad, sep)
  {
    Whole(n, base);
  }

  /** How long the text is when the places from digits on have been printed; the last one gets no separator. */
  predicate Counted(len: nat, index: nat, digits: int, width: nat, base: nat, sep: Option<char>) {
    len == width - digits + MarksIf(sep, if index == 0 then digits + 1 else digits, width, base)
  }

  lemma CountedTurn(len: nat, more: nat, index: nat, down: nat, digits: int, width: nat, base: nat, sep: Option<char>)
    requires index >= 1 && digits <= width && Counted(len, index, digits, width, base, sep)
    requires more == 1 + if sep.Some? && EndsGroup(digits - 1, base) && down >= 1 then 1 else 0
    ensures Counted(len + more, down, digits - 1, width, base, sep)
  {
    hide EndsGroup;
  }

  lemma CountedEnd(len: nat, digits: int, width: nat, base: nat, sep: Option<char>)
    requires Counted(len, 0, digits, width, base, sep)
    ensures len == width - digits + MarksIf(sep, digits + 1, width, base)
  {
  }

  /** Prints the digits from a power of the base down. */
  method Emit(n: u32, base: nat, first: u32, width: nat, padder: Option<char>, sepr: Option<char>) returns (out: string)
    requires (base == 10 || base == 16) && first > 0
    ensures width >= Len(n, base) && first == Pow(base, width - 1) ==>
              out == Field(n, base, width, 0, PadChar(padder), sepr)
    ensures |out| == Len(first, base) + MarksIf(sepr, width - Len(first, base) + 1, width, base)
  {
    ghost var exact := width >= Len(n, base) && first == Pow(base, width - 1);
    var rem: nat, index: nat, digits: int := n, first, width;
    out := "";
    if exact {
      PrintingStarts(n, base, width, first, PadChar(padder), sepr);
    }
    TurnsEnd(base);
    assert Counted(0, first, width, width, base, sepr);
    assert Turns(first, base) == Len(first, base);
    hide Pow, Len, Field, DigitChar, Dropped, PadChar, Turns, DigitAt, Rest, Down, Piece, Printing, EndsGroup,
      Counted, Marks;
    while index >= 1
      invariant exact ==> digits >= 0 && Printing(n, base, width, digits, rem, index, out, PadChar(padder), sepr)
      invariant exact ==> (digits == 0 <==> index == 0)
      invariant Turns(index, base) - digits == Len(first, base) - width && (index == 0 <==> Turns(index, base) == 0)
      invariant digits <= width && Counted(|out|, index, digits, width, base, sepr)
      decreases index
    {
      var c := DigitAt(rem, index);
      TurnsStep(index, base);
      if exact {
        PrintingTurn(n, base, width, digits - 1, rem, index, out, PadChar(padder), sepr);
        if digits > 1 {
          PowPositive(base, digits - 2);
        }
      }
      var down := Down(index, base);
      var piece := PrintDigit(n, c, index, down, digits - 1, base, padder, sepr);
      CountedTurn(|out|, |piece|, index, down, digits, width, base, sepr);
      out := out + piece;
      rem, index, digits := Rest(rem, index), down, digits - 1;
    }
    CountedEnd(|out|, digits, width, base, sepr);
    if exact {
      PrintingEnds(n, base, width, digits, rem, out, PadChar(padder), sepr);
    }
  }

  lemma Whole(n: nat, base: nat)
    requires base >= 2
    ensures Dropped(n, base, 0) == n && Pow(base, 0) == 1
  {
  }

  lemma TurnsEnd(base: nat)
    requires base >= 2
    ensures Turns(0, base) == 0
  {
  }

  lemma TurnsStep(index: nat, base: nat)
    requires base >= 2 && index > 0
    ensures Turns(index, base) == 1 + Turns(Down(index, base), base) && Down(index, base) < index
  {
    Below(index, base, index);
    Times(index, 1, base);
    assert base * index == index * base;
  }

  /**
   * Prints a number; none stands for the division by zero of a power that wrapped to nothing. The text is right
   * exactly when the field is no wider than the widest.
   */
  method Format(n: u32, base: nat, width: nat, padder: Option<char>, sepr: Option<char>) returns (r: Option<string>)
    requires base == 10 || base == 16
    ensures r == Some(Text(n, base, width, PadChar(padder), sepr)) <==> width <= MaxWidth(base)
  {
    var index, digits := FindPower(n, base, width);
    if index == 0 {
      return None;
    }
    var out := Emit(n, base, index, digits, padder, sepr);
    if width > MaxWidth(base) {
      LenFits(index, base);
      var places := Max(width, Len(n, base));
      FieldLength(n, base, places, 0, PadChar(padder), sepr);
      TooShort(sepr, Len(index, base), digits, places, base);
    }
    return Some(out);
  }

  // ----- what the text says -----

  /** What a digit stands for; other characters stand for nothing. */
  function DigitOf(c: char): nat {
    if '0' <= c <= '9' then c as nat - '0' as nat
    else if 'a' <= c <= 'f' then c as nat - 'a' as nat + 10
    else 99
  }

  /** The number that a text denotes in a base. */
  function Denoted(t: string, base: nat): nat {
    if t == "" then 0 else Denoted(t[..|t| - 1], base) * base + DigitOf(t[|t| - 1])
  }

  predicate AllDigits(t: string, base: nat) {
    forall k :: 0 <= k < |t| ==> DigitOf(t[k]) < base
  }

  lemma DigitIs(c: nat)
    requires c < 16
    ensures DigitOf(DigitChar(c)) == c && (c > 0 ==> DigitChar(c) != '0')
  {
  }

  lemma {:induction false} PlainField(q: nat, base: nat, d: nat, i: nat, pad: char)
    requires base == 10 || base == 16
    ensures |Field(q, base, d, i, pad, None)| == d
    decreases d
  {
    if d > 0 {
      PlainField(q / base, base, d - 1, i + 1, pad);
    }
  }

  lemma PieceIs(q: nat, base: nat, k: nat, pad: char)
    requires base == 10 || base == 16
    ensures q > 0 || k == 0 ==> Piece(q, base, k, pad, None) == [DigitChar(q % base)]
    ensures q == 0 && k > 0 ==> Piece(q, base, k, pad, None) == [pad]
  {
  }

  /** One digit more. */
  lemma DenotedMore(t: string, base: nat, c: nat)
    requires AllDigits(t, base) && c < base <= 16
    ensures Denoted(t + [DigitChar(c)], base) == Denoted(t, base) * base + c && AllDigits(t + [DigitChar(c)], base)
  {
    DigitIs(c);
    assert (t + [DigitChar(c)])[..|t|] == t;
    hide DigitChar, DigitOf;
  }

  lemma LenStep(n: nat, base: nat)
    requires base >= 2
    ensures Len(n, base) == if n < base then 1 else 1 + Len(n / base, base)
  {
  }

  lemma SmallDigit(n: nat, base: nat)
    requires n < base
    ensures n % base == n && n / base == 0
  {
  }

  /** The digits of a number denote it, and the first is zero only if it is. */
  ghost predicate Spells(t: string, base: nat, n: nat) {
    AllDigits(t, base) && Denoted(t, base) == n && t != "" && (n > 0 ==> t[0] != '0')
  }

  lemma OneDigit(n: nat, base: nat)
    requires n < base <= 16
    ensures Spells([DigitChar(n)], base, n)
  {
    DigitIs(n);
    DenotedMore("", base, n);
    assert "" + [DigitChar(n)] == [DigitChar(n)];
    hide DigitChar, DigitOf;
  }

  lemma MoreSpelled(t: string, base: nat, q: nat, c: nat)
    requires Spells(t, base, q) && q > 0 && c < base <= 16
    ensures Spells(t + [DigitChar(c)], base, q * base + c)
  {
    hide DigitChar, AllDigits, Denoted;
    DenotedMore(t, base, c);
  }

  /** As many digits as the number has spell it, in any padding. */
  lemma {:induction false} DigitsSpell(n: nat, base: nat, i: nat, pad: char)
    requires (base == 10 || base == 16) && (n > 0 || i == 0)
    ensures Spells(Field(n, base, Len(n, base), i, pad, None), base, n)
    decreases n
  {
    hide *;
    LenStep(n, base);
    FieldUnfolds(n, n / base, base, Len(n, base), i, pad, None);
    PieceIs(n, base, i, pad);
    if n < base {
      SmallDigit(n, base);
      PlainField(0, base, 0, i + 1, pad);
      OneDigit(n, base);
      assert "" + [DigitChar(n)] == [DigitChar(n)];
    } else {
      Shrinks(n, base);
      AtLeastOne(n, base);
      Euclid(n, base);
      Commute(base, n / base);
      DigitsSpell(n / base, base, i + 1, pad);
      MoreSpelled(Field(n / base, base, Len(n / base, base), i + 1, pad, None), base, n / base, n % base);
    }
  }

  lemma AtLeastOne(n: nat, base: nat)
    requires 0 < base <= n
    ensures n / base > 0
  {
    Below(n, base, 1);
  }

  /** A zero that is not the last character is padding. */
  lemma {:induction false} AllPadding(d: nat, i: nat, base: nat, pad: char)
    requires base >= 2 && i > 0
    ensures Field(0, base, d, i, pad, None) == seq(d, _ => pad)
    decreases d
  {
    if d > 0 {
      Under(0, base);
      AllPadding(d - 1, i + 1, base, pad);
    }
  }

  function Blanks(n: nat, pad: char): (r: string)
    ensures |r| == n
  {
    seq(n, _ => pad)
  }

  lemma BlanksAre(n: nat, pad: char)
    ensures Blanks(n, pad) == seq(n, _ => pad)
  {
  }

  lemma AllBlanks(d: nat, i: nat, base: nat, pad: char)
    requires base >= 2 && i > 0
    ensures Field(0, base, d, i, pad, None) == Blanks(d, pad)
  {
    AllPadding(d, i, base, pad);
  }

  lemma MaxWidths(base: nat)
    ensures MaxWidth(base) == if base == 10 then 10 else 8
  {
  }

  /** A wider field has padding in front of the digits. */
  lemma {:induction false} PaddedField(q: nat, base: nat, d: nat, i: nat, pad: char)
    requires (base == 10 || base == 16) && d >= Len(q, base) && (q > 0 || i == 0)
    ensures Field(q, base, d, i, pad, None) ==
            Blanks(d - Len(q, base), pad) + Field(q, base, Len(q, base), i, pad, None)
    decreases q
  {
    hide *;
    LenStep(q, base);
    FieldUnfolds(q, q / base, base, d, i, pad, None);
    FieldUnfolds(q, q / base, base, Len(q, base), i, pad, None);
    if q < base {
      SmallDigit(q, base);
      AllBlanks(d - 1, i + 1, base, pad);
      PlainField(0, base, 0, i + 1, pad);
      assert Field(q, base, d, i, pad, None) == Blanks(d - 1, pad) + Piece(q, base, i, pad, None);
      assert "" + Piece(q, base, i, pad, None) == Piece(q, base, i, pad, None);
    } else {
      Shrinks(q, base);
      AtLeastOne(q, base);
      PaddedField(q / base, base, d - 1, i + 1, pad);
      JoinThree(Blanks(d - Len(q, base), pad), Field(q / base, base, Len(q / base, base), i + 1, pad, None),
                Piece(q, base, i, pad, None));
    }
  }

  lemma JoinThree(a: string, b: string, c: string)
    ensures (a + b) + c == a + (b + c)
  {
  }

  /** What is printed without separators: padding, then the digits of the number, with no zero in front of them. */
  lemma TextIs(n: u32, base: nat, width: nat, pad: char) returns (digits: string)
    requires base == 10 || base == 16
    ensures Spells(digits, base, n)
    ensures |digits| <= if base == 10 then 10 else 8
    ensures Text(n, base, width, pad, None) ==
            if width <= |digits| then digits else seq(width - |digits|, _ => pad) + digits
  {
    hide *;
    digits := Field(n, base, Len(n, base), 0, pad, None);
    DigitsSpell(n, base, 0, pad);
    PlainField(n, base, Len(n, base), 0, pad);
    LenFits(n, base);
    MaxWidths(base);
    TextUnfolds(n, base, width, pad);
    if width > Len(n, base) {
      PaddedField(n, base, width, 0, pad);
      BlanksAre(width - Len(n, base), pad);
    }
  }

  lemma TextUnfolds(n: nat, base: nat, width: nat, pad: char)
    requires base >= 2
    ensures Text(n, base, width, pad, None) ==
            Field(n, base, if width <= Len(n, base) then Len(n, base) else width, 0, pad, None)
  {
    hide Field, Len;
  }

  /** A text with a separator in front of its last g characters, the g characters before those, and so on. */
  function Grouped(t: string, g: nat, c: char): string
    requires g > 0
  {
    if |t| <= g then t else Grouped(t[..|t| - g], g, c) + [c] + t[|t| - g..]
  }

  /** The same, where the last group has r characters. */
  function GroupedTo(t: string, g: nat, r: nat, c: char): string
    requires g > 0
  {
    if |t| <= r then t else Grouped(t[..|t| - r], g, c) + [c] + t[|t| - r..]
  }

  /** One character more in the last group. */
  lemma GroupedMore(t: string, g: nat, r: nat, c: char, x: char)
    requires g > 0
    ensures GroupedTo(t + [x], g, r + 1, c) == GroupedTo(t, g, r, c) + [x]
  {
    if |t| > r {
      assert (t + [x])[..|t| - r] == t[..|t| - r] && (t + [x])[|t| - r..] == t[|t| - r..] + [x];
    }
  }

  lemma GroupedNew(t: string, g: nat, c: char, x: char)
    requires g > 0
    ensures GroupedTo(t, g, g, c) == Grouped(t, g, c)
    ensures GroupedTo(t + [x], g, 1, c) == if t == "" then [x] else Grouped(t, g, c) + [c] + [x]
  {
    assert (t + [x])[..|t|] == t && (t + [x])[|t|..] == [x];
  }

  function GroupSize(base: nat): nat {
    if base == 10 then 3 else 4
  }

  /** Characters in the group that the position belongs to, from there on to the left. */
  function LeftInGroup(i: nat, base: nat): nat {
    GroupSize(base) - i % GroupSize(base)
  }

  lemma NextInGroup(i: nat, base: nat)
    ensures EndsGroup(i + 1, base) ==> LeftInGroup(i, base) == 1 && LeftInGroup(i + 1, base) == GroupSize(base)
    ensures !EndsGroup(i + 1, base) ==> LeftInGroup(i, base) == LeftInGroup(i + 1, base) + 1
    ensures LeftInGroup(0, base) == GroupSize(base)
  {
  }

  /** The separator behind a position that ends a group in the middle of the number. */
  function Behind(d: nat, i: nat, base: nat, c: char): string {
    if d > 0 && i > 0 && EndsGroup(i, base) then [c] else ""
  }

  lemma PieceSeparated(q: nat, base: nat, i: nat, d: nat, pad: char, c: char)
    requires base >= 2 && d > 0
    ensures Piece(q, base, i, pad, Some(c)) == Piece(q, base, i, pad, None) + Behind(d, i, base, c)
    ensures |Piece(q, base, i, pad, None)| == 1
  {
    hide DigitChar, EndsGroup;
  }

  /** One position more of a grouped text. */
  lemma GroupedTurn(plain: string, x: char, base: nat, d: nat, i: nat, c: char)
    requires |plain| == d
    ensures GroupedTo(plain, GroupSize(base), LeftInGroup(i + 1, base), c) + Behind(d, i + 1, base, c) + [x] ==
            GroupedTo(plain + [x], GroupSize(base), LeftInGroup(i, base), c)
  {
    NextInGroup(i, base);
    hide Grouped, GroupedTo, EndsGroup, LeftInGroup;
    if EndsGroup(i + 1, base) {
      GroupedNew(plain, GroupSize(base), c, x);
      GroupedNothing(GroupSize(base), c);
    } else {
      GroupedMore(plain, GroupSize(base), LeftInGroup(i + 1, base), c, x);
      assert GroupedTo(plain, GroupSize(base), LeftInGroup(i + 1, base), c) + "" ==
             GroupedTo(plain, GroupSize(base), LeftInGroup(i + 1, base), c);
    }
  }

  /** A separated field is the plain one, grouped. */
  lemma {:induction false} FieldGrouped(q: nat, base: nat, d: nat, i: nat, pad: char, c: char)
    requires base == 10 || base == 16
    ensures GroupSize(base) > 0
    ensures Field(q, base, d, i, pad, Some(c)) ==
            GroupedTo(Field(q, base, d, i, pad, None), GroupSize(base), LeftInGroup(i, base), c) + Behind(d, i, base, c)
    decreases d
  {
    GroupSizes(base);
    if d == 0 {
      hide Grouped, GroupSize, LeftInGroup, EndsGroup;
    } else {
      hide *;
      FieldGrouped(q / base, base, d - 1, i + 1, pad, c);
      PlainField(q / base, base, d - 1, i + 1, pad);
      FieldUnfolds(q, q / base, base, d, i, pad, None);
      FieldUnfolds(q, q / base, base, d, i, pad, Some(c));
      PieceSeparated(q, base, i, d, pad, c);
      var plain, piece := Field(q / base, base, d - 1, i + 1, pad, None), Piece(q, base, i, pad, None);
      GroupedTurn(plain, piece[0], base, d - 1, i, c);
      assert piece == [piece[0]];
      JoinThree(GroupedTo(plain, GroupSize(base), LeftInGroup(i + 1, base), c) + Behind(d - 1, i + 1, base, c),
                piece, Behind(d, i, base, c));
    }
  }

  lemma GroupedNothing(g: nat, c: char)
    requires g > 0
    ensures Grouped("", g, c) == ""
  {
  }

  lemma GroupSizes(base: nat)
    ensures GroupSize(base) > 0
  {
  }

  /** Separators stand before the last three digits, six, and so on; in hexadecimal before four, eight, and so on. */
  lemma TextGrouped(n: u32, base: nat, width: nat, pad: char, c: char)
    requires base == 10 || base == 16
    ensures Text(n, base, width, pad, Some(c)) ==
            Grouped(Text(n, base, width, pad, None), if base == 10 then 3 else 4, c)
  {
    var d := Max(width, Len(n, base));
    FieldGrouped(n, base, d, 0, pad, c);
    NextInGroup(0, base);
    hide Field, Grouped, GroupedTo, LeftInGroup, Len, EndsGroup;
    var plain := Field(n, base, d, 0, pad, None);
    GroupedNew(plain, GroupSize(base), c, ' ');
    assert GroupedTo(plain, GroupSize(base), LeftInGroup(0, base), c) + "" == Grouped(plain, GroupSize(base), c);
  }

  // ----- the reader -----

  predicate IsDigit(c: char) {
    '0' <= c <= '9'
  }

  /** The digits that a text starts with. */
  function Leading(s: string): (r: string)
    ensures r <= s && forall i :: 0 <= i < |r| ==> IsDigit(r[i])
  {
    if s != "" && IsDigit(s[0]) then [s[0]] + Leading(s[1..]) else ""
  }

  /** The number that digits denote. */
  function Value(s: string): nat
    requires forall i :: 0 <= i < |s| ==> IsDigit(s[i])
  {
    if s == "" then 0
    else
      assert IsDigit(s[|s| - 1]);
      Value(s[..|s| - 1]) * 10 + (s[|s| - 1] as nat - 48)
  }

  /** Two's complement in 32 bits. */
  function Signed(n: int): int {
    var m := n % TWO32;
    if m < 0x8000_0000 then m else m - TWO32
  }

  /** The one number of 32 bits, with a sign, that differs by a multiple of 2^32. */
  lemma SignedIs(v: int, x: int)
    ensures Signed(v) == x <==> -0x8000_0000 <= x < 0x8000_0000 && (v - x) % 0x1_0000_0000 == 0
  {
    assert v == TWO32 * (v / TWO32) + v % TWO32;
    if (v - x) % TWO32 == 0 {
      var k := (v - x) / TWO32;
      assert v == x + k * TWO32;
      Shifted(x, k);
    }
  }

  lemma SignedStep(v: int, d: int)
    ensures Signed(Signed(v) * 10 + d) == Signed(v * 10 + d)
  {
    var k := (Signed(v) - v) / TWO32;
    assert Signed(v) == v + k * TWO32;
    assert Signed(v) * 10 + d == v * 10 + d + 10 * k * TWO32;
    Shifted(v * 10 + d, 10 * k);
  }

  lemma Shifted(n: int, k: int)
    ensures (n + k * TWO32) % TWO32 == n % TWO32
  {
  }

  lemma LeadingIs(s: string, i: nat)
    requires i <= |s| && (forall k :: 0 <= k < i ==> IsDigit(s[k])) && (i < |s| ==> !IsDigit(s[i]))
    ensures Leading(s) == s[..i]
  {
    if i > 0 {
      LeadingIs(s[1..], i - 1);
    }
  }

  /** Reads the leading digits, in 32 bits. */
  method Atoi(s: string) returns (n: int)
    ensures n == Signed(Value(Leading(s)))
  {
    n := 0;
    var i := 0;
    while i < |s| && IsDigit(s[i])
      invariant 0 <= i <= |s| && forall k :: 0 <= k < i ==> IsDigit(s[k])
      invariant n == Signed(Value(s[..i]))
    {
      SignedStep(Value(s[..i]), s[i] as nat - 48);
      assert s[..i + 1][..i] == s[..i];
      n := Signed(n * 10 + (s[i] as int - 48));
      i := i + 1;
    }
    LeadingIs(s, i);
  }

  /** A zero-padded field of digits denotes its number. */
  lemma {:induction false} ZeroField(q: nat, d: nat, i: nat)
    ensures forall k :: 0 <= k < |Field(q, 10, d, i, '0', None)| ==> IsDigit(Field(q, 10, d, i, '0', None)[k])
    ensures q < Pow(10, d) ==> Value(Field(q, 10, d, i, '0', None)) == q
  {
    if d > 0 {
      ZeroField(q / 10, d - 1, i + 1);
      Below(q, 10, Pow(10, d - 1));
      var rest, all := Field(q / 10, 10, d - 1, i + 1, '0', None), Field(q, 10, d, i, '0', None);
      assert all == rest + [DigitChar(q % 10)];
      assert all[..|all| - 1] == rest;
    }
  }

  /** Padding appears only in fields wider than their number. */
  lemma {:induction false} SamePadding(q: nat, d: nat, i: nat, pad: char)
    requires Len(q, 10) >= d && (q > 0 || i == 0 || d == 0)
    ensures Field(q, 10, d, i, pad, None) == Field(q, 10, d, i, '0', None)
  {
    if d > 1 {
      SamePadding(q / 10, d - 1, i + 1, pad);
    }
  }

  /** A field wider than its number starts with padding. */
  lemma {:induction false} StartsPadded(q: nat, d: nat, i: nat, pad: char)
    requires d > 0 && (if i == 0 then d > Len(q, 10) else d > Len(q, 10) || q == 0)
    ensures Field(q, 10, d, i, pad, None) != "" && Field(q, 10, d, i, pad, None)[0] == pad
  {
    if d > 1 {
      StartsPadded(q / 10, d - 1, i + 1, pad);
    }
  }

  lemma AllLeading(s: string)
    requires forall i :: 0 <= i < |s| ==> IsDigit(s[i])
    ensures Leading(s) == s
  {
    LeadingIs(s, |s|);
  }

  /** Text without blanks reads back as its number. */
  lemma ReadDigits(n: u32, width: nat, pad: char)
    requires pad == '0' || width <= Len(n, 10)
    ensures Value(Leading(Text(n, 10, width, pad, None))) == n
  {
    var d := Max(width, Len(n, 10));
    LenPow(n, 10, d);
    ZeroField(n, d, 0);
    if pad != '0' {
      SamePadding(n, d, 0, pad);
    }
    hide Field, Len, Pow, Leading, Value;
    AllLeading(Text(n, 10, width, pad, None));
  }

  /** Text that starts with a blank reads as zero. */
  lemma ReadBlank(n: u32, width: nat)
    requires width > Len(n, 10)
    ensures Value(Leading(Text(n, 10, width, ' ', None))) == 0
  {
    StartsPadded(n, width, 0, ' ');
    hide Field, Len;
  }

  /**
   * Printing and reading back: the number returns exactly when it is below 2^31 and no blank stands before it,
   * which is so with zero padding, with a field no wider than the number, and for zero itself.
   */
  lemma PrintThenRead(n: u32, width: nat, pad: char)
    requires pad == ' ' || pad == '0'
    ensures Signed(Value(Leading(Text(n, 10, width, pad, None)))) == n <==>
            n < 0x8000_0000 && (pad == '0' || width <= Len(n, 10) || n == 0)
  {
    hide Text, Value, Leading, Len;
    if pad == '0' || width <= Len(n, 10) {
      ReadDigits(n, width, pad);
    } else {
      ReadBlank(n, width);
    }
  }
}
