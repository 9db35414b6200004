/** Numbers as text: itob and strlen of lib/libk/string.c, and the padded form printed by lib/libk/output.c. */
module NumberText {
  import opened Words

  const DIGITS := "0123456789ABCDEF"

  /** The buffer of itob, with its last cell for the terminator. */
  const BUFFER := 50

  function Pow(base: nat, k: nat): nat {
    if k == 0 then 1 else base * Pow(base, k - 1)
  }

  /** The digits of a number, most significant first. */
  function Digits(num: nat, base: nat): (s: string)
    requires 2 <= base <= 16
    decreases num
  {
    if num < base then [DIGITS[num]] else Digits(num / base, base) + [DIGITS[num % base]]
  }

  predicate IsDigit(c: char, base: nat) {
    base <= 16 && c in DIGITS[..base]
  }

  function DigitValue(c: char): (d: nat)
    ensures forall k :: 0 <= k < 16 && DIGITS[k] == c ==> d == k
  {
    if '0' <= c <= '9' then c as int - '0' as int
    else if 'A' <= c <= 'F' then c as int - 'A' as int + 10
    else 0
  }

  /** The number a text stands for. */
  function Value(s: string, base: nat): nat {
    if s == [] then 0 else Value(s[..|s| - 1], base) * base + DigitValue(s[|s| - 1])
  }

  /** A text a reader would accept: digits of the base, and no zero in front of anything else. */
  predicate Numeral(s: string, base: nat) {
    && s != [] && (forall c <- s :: IsDigit(c, base))
    && (s[0] == '0' ==> |s| == 1)
  }

  lemma DigitOf(base: nat, d: nat)
    requires 2 <= base <= 16 && d < base
    ensures IsDigit(DIGITS[d], base) && DigitValue(DIGITS[d]) == d
    ensures DIGITS[d] != '\0' && (DIGITS[d] == '0' <==> d == 0)
  {
    assert DIGITS[..base][d] == DIGITS[d];
    assert DigitValue('0') == 0;
  }

  /* ---- arithmetic ---- */

  lemma Recompose(n: nat, b: nat)
    requires b >= 2
    ensures n == n / b * b + n % b && n % b < b && (n > 0 ==> n / b < n) && (n >= b ==> n / b >= 1)
  {
  }

  lemma Decompose(v: nat, b: nat, d: nat)
    requires d < b && b >= 2
    ensures (v * b + d) / b == v && (v * b + d) % b == d
  {
    var n := v * b + d;
    Recompose(n, b);
    SameQuotient(n / b, n % b, v, d, b);
  }

  lemma SameQuotient(q: nat, r: nat, v: nat, d: nat, b: nat)
    requires r < b && d < b && q * b + r == v * b + d
    ensures q == v && r == d
  {
    assert (v + 1) * b == v * b + b && (q + 1) * b == q * b + b;
    if q > v {
      ProductGrows(v + 1, q, b, b);
    } else if q < v {
      ProductGrows(q + 1, v, b, b);
    }
  }

  lemma BelowProduct(n: nat, b: nat, p: nat)
    requires b >= 2
    ensures n / b < p <==> n < b * p
  {
    Recompose(n, b);
    var q := n / b;
    hide *;
    if q < p {
      ProductGrows(q + 1, p, b, b);
      assert (q + 1) * b == q * b + b;
    } else {
      ProductGrows(p, q, b, b);
    }
    assert p * b == b * p;
  }

  lemma ProductGrows(a: nat, b: nat, c: nat, d: nat)
    requires a <= b && c <= d
    ensures a * c <= b * d
  {
    assert a * c <= a * d;
    assert a * d <= b * d;
  }

  lemma ReadOn(s: string, c: char, base: nat)
    ensures Value(s + [c], base) == Value(s, base) * base + DigitValue(c)
  {
    assert (s + [c])[..|s|] == s;
  }

  /* ---- digits and value ---- */

  /** The digits of a number are a numeral for it. */
  lemma {:induction false} DigitsReadBack(num: nat, base: nat)
    requires 2 <= base <= 16
    ensures Numeral(Digits(num, base), base) && Value(Digits(num, base), base) == num
    ensures num > 0 ==> Digits(num, base)[0] != '0'
    decreases num
  {
    hide Value, DigitValue, IsDigit;
    Recompose(num, base);
    DigitOf(base, num % base);
    if num < base {
      ReadOn([], DIGITS[num], base);
      assert [] + [DIGITS[num]] == [DIGITS[num]];
      NothingRead(base);
      SmallDivision(num, base);
    } else {
      DigitsReadBack(num / base, base);
      ReadOn(Digits(num / base, base), DIGITS[num % base], base);
    }
  }

  lemma NothingRead(base: nat)
    ensures Value([], base) == 0
  {
  }

  lemma SmallDivision(num: nat, base: nat)
    requires num < base
    ensures num % base == num && num / base == 0
  {
  }

  lemma DigitsUnfold(num: nat, base: nat)
    requires 2 <= base <= 16
    ensures Digits(num, base) == (if num < base then [] else Digits(num / base, base)) + [DIGITS[num % base]]
    ensures num < base <==> num / base == 0
  {
    Recompose(num, base);
    if num < base {
      SmallDivision(num, base);
    }
  }

  /** No other numeral stands for the number. */
  lemma {:induction false} NumeralIsDigits(s: string, base: nat)
    requires 2 <= base <= 16 && Numeral(s, base)
    ensures s == Digits(Value(s, base), base)
    ensures Value(s, base) == 0 ==> s == "0"
    decreases |s|
  {
    hide Numeral, DigitValue, Digits, Value;
    var d := LastDigit(s, base);
    var rest := s[..|s| - 1];
    DigitOf(base, d);
    ReadOn(rest, DIGITS[d], base);
    NothingRead(base);
    if rest == [] {
      SmallDivision(d, base);
      DigitsUnfold(d, base);
    } else {
      NumeralIsDigits(rest, base);
      var v := Value(rest, base);
      LeadIsNotZero(s, base, v);
      Decompose(v, base, d);
      ProductGrows(1, v, base, base);
      DigitsUnfold(v * base + d, base);
    }
  }

  lemma LastDigit(s: string, base: nat) returns (d: nat)
    requires base <= 16 && Numeral(s, base)
    ensures d < base && s != [] && s == s[..|s| - 1] + [DIGITS[d]] && (|s| > 1 ==> Numeral(s[..|s| - 1], base))
  {
    var c := s[|s| - 1];
    assert c in s && IsDigit(c, base);
    d :| 0 <= d < base && DIGITS[..base][d] == c;
  }

  lemma LeadIsNotZero(s: string, base: nat, v: nat)
    requires Numeral(s, base) && |s| > 1 && (v == 0 ==> s[..|s| - 1] == "0")
    ensures v > 0
  {
    assert s[..|s| - 1][0] == s[0];
  }

  /** The text has at most k digits if and only if the number is below the k-th power of the base. */
  lemma {:induction false} DigitCountIff(num: nat, base: nat, k: nat)
    requires 2 <= base <= 16 && k >= 1
    ensures |Digits(num, base)| <= k <==> num < Pow(base, k)
    decreases k
  {
    DigitsUnfold(num, base);
    PowOne(base);
    if num < base {
      PowGrows(base, 1, k);
    } else {
      DigitsUnfold(num / base, base);
      if k > 1 {
        DigitCountIff(num / base, base, k - 1);
        BelowProduct(num, base, Pow(base, k - 1));
      }
    }
  }

  lemma PowOne(base: nat)
    ensures Pow(base, 1) == base
  {
    assert Pow(base, 0) == 1;
  }

  lemma {:induction false} PowGrows(base: nat, j: nat, k: nat)
    requires base >= 1 && j <= k
    ensures 1 <= Pow(base, j) <= Pow(base, k)
    decreases k
  {
    if j < k {
      PowGrows(base, j, k - 1);
      ProductGrows(1, base, Pow(base, k - 1), Pow(base, k - 1));
    } else if j > 0 {
      PowGrows(base, j - 1, k - 1);
      ProductGrows(1, base, Pow(base, k - 1), Pow(base, k - 1));
    }
  }

  lemma {:induction false} PowOfLarger(b: nat, c: nat, k: nat)
    requires b <= c
    ensures Pow(b, k) <= Pow(c, k)
  {
    if k > 0 {
      PowOfLarger(b, c, k - 1);
      ProductGrows(b, c, Pow(b, k - 1), Pow(c, k - 1));
    }
  }

  lemma {:induction false} PowAdds(base: nat, j: nat, k: nat)
    ensures Pow(base, j + k) == Pow(base, j) * Pow(base, k)
  {
    if j > 0 {
      PowAdds(base, j - 1, k);
      assert Pow(base, j + k) == base * Pow(base, j + k - 1);
    }
  }

  lemma Powers()
    ensures Pow(2, 49) == 0x2_0000_0000_0000 && Pow(3, 49) >= TWO_TO_64 && Pow(16, 16) == TWO_TO_64
  {
    hide Pow;
    PowOne(2);
    PowAdds(2, 1, 1);
    PowAdds(2, 2, 1);
    PowAdds(2, 3, 3);
    PowAdds(2, 6, 6);
    PowAdds(2, 12, 12);
    PowAdds(2, 24, 24);
    PowAdds(2, 48, 1);
    PowOne(3);
    PowAdds(3, 1, 1);
    PowAdds(3, 2, 1);
    PowAdds(3, 3, 3);
    PowAdds(3, 6, 6);
    PowAdds(3, 12, 12);
    PowAdds(3, 24, 24);
    PowAdds(3, 48, 1);
    PowOne(16);
    PowAdds(16, 1, 1);
    PowAdds(16, 2, 2);
    PowAdds(16, 4, 4);
    PowAdds(16, 8, 8);
  }

  /** Every 64-bit number fits the buffer in base 3 to 16, and takes at most 16 digits in base 16; in base 2 exactly
      the numbers below the 49th power of two fit. */
  lemma FitsBuffer(num: u64, base: nat)
    requires 2 <= base <= 16
    ensures base >= 3 ==> |Digits(num, base)| < BUFFER
    ensures base == 16 ==> |Digits(num, base)| <= 16
    ensures base == 2 ==> (|Digits(num, base)| < BUFFER <==> num < 0x2_0000_0000_0000)
  {
    hide Pow, Digits;
    Powers();
    DigitCountIff(num, base, 49);
    if base >= 3 {
      PowOfLarger(3, base, 49);
    }
    if base == 16 {
      DigitCountIff(num, 16, 16);
    }
  }

  lemma SampleNumbers()
    ensures Digits(0, 16) == "0" && Digits(2026, 10) == "2026" && Digits(0x1A, 16) == "1A" && Value("1A", 16) == 26
  {
    assert Digits(2, 10) == "2" && Digits(20, 10) == "20" && Digits(202, 10) == "202";
    assert Digits(1, 16) == "1";
    DigitsReadBack(26, 16);
  }

  /* ---- the routines ---- */

  /** Quotient and remainder of one turn of the loop. */
  function Divided(n: nat, base: nat): (qr: (nat, nat))
    requires base > 0
  {
    (n / base, n % base)
  }

  lemma ItobStep(num: nat, n: nat, base: nat, done: string)
    requires 2 <= base <= 16 && Digits(num, base) == Digits(n, base) + done
    ensures var (q, r) := Divided(n, base);
            && |done| < |Digits(num, base)| && r < base && (q > 0 ==> q < n)
            && Digits(num, base) == (if q == 0 then [] else Digits(q, base)) + ([DIGITS[r]] + done)
  {
    hide Digits;
    Recompose(n, base);
    DigitsUnfold(n, base);
    var head := if n < base then [] else Digits(n / base, base);
    ConcatRegroups(head, DIGITS[n % base], done);
  }

  lemma ConcatRegroups(head: string, c: char, tail: string)
    ensures head + [c] + tail == head + ([c] + tail) && |head + [c] + tail| > |tail|
  {
  }

  lemma Pushed(b: seq<char>, str: nat, was: string)
    requires |b| == BUFFER && str < 49 && b[str + 1..49] == was
    ensures b[str..49] == [b[str]] + was
  {
  }

  /** The text ends at the terminator, in the last cell; the cells before it are left alone. */
  method Itob(buffer: array<char>, num: u64, base: nat) returns (str: nat)
    requires buffer.Length == BUFFER && 2 <= base <= 16 && |Digits(num, base)| < BUFFER
    modifies buffer
    ensures str < 49 && buffer[49] == '\0' && buffer[str..49] == Digits(num, base)
    ensures buffer[..str] == old(buffer[..str])
  {
    hide Digits, Divided;
    str := 49;
    buffer[str] := '\0';
    var n: nat := num;
    var more := true;
    while more
      invariant str <= 49 && buffer[49] == '\0' && buffer[..str] == old(buffer[..str])
      invariant Digits(num, base) == (if more then Digits(n, base) else []) + buffer[str..49]
      invariant more || str < 49
      decreases more, n
    {
      ItobStep(num, n, base, buffer[str..49]);
      ghost var was := buffer[str..49];
      var (rest, digit) := Divided(n, base);
      str := str - 1;
      buffer[str] := DIGITS[digit];
      Pushed(buffer[..], str, was);
      n := rest;
      more := n != 0;
    }
  }

  /** The length of the text that starts at str: the distance to the first terminator. */
  method Strlen(buffer: array<char>, str: nat) returns (len: nat)
    requires exists k :: str <= k < buffer.Length && buffer[k] == '\0'
    ensures str + len < buffer.Length && buffer[str + len] == '\0' && '\0' !in buffer[str..str + len]
  {
    len := 0;
    while buffer[str + len] != '\0'
      invariant str + len < buffer.Length && '\0' !in buffer[str..str + len]
      invariant exists k :: str + len <= k < buffer.Length && buffer[k] == '\0'
      decreases buffer.Length - len
    {
      len := len + 1;
    }
  }

  lemma {:induction false} NoTerminatorInside(num: nat, base: nat)
    requires 2 <= base <= 16
    ensures '\0' !in Digits(num, base)
    decreases num
  {
    DigitsUnfold(num, base);
    Recompose(num, base);
    DigitOf(base, num % base);
    if num >= base {
      NoTerminatorInside(num / base, base);
    }
  }

  ghost function Zeros(n: nat): string {
    seq(n, _ => '0')
  }

  lemma {:induction false} ZerosInFront(n: nat, s: string, base: nat)
    ensures Value(Zeros(n) + s, base) == Value(s, base)
    decreases |s| + n
  {
    if s != [] {
      var rest := s[..|s| - 1];
      ZerosInFront(n, rest, base);
      assert s == rest + [s[|s| - 1]];
      assert Zeros(n) + s == Zeros(n) + rest + [s[|s| - 1]];
      ReadOn(Zeros(n) + rest, s[|s| - 1], base);
      ReadOn(rest, s[|s| - 1], base);
    } else if n > 0 {
      ZerosInFront(n - 1, s, base);
      assert Zeros(n) + s == Zeros(n - 1) + s + ['0'];
      ReadOn(Zeros(n - 1) + s, '0', base);
      assert DigitValue('0') == 0;
    }
  }

  /** The format %a: always 16 characters, which read back as the number. */
  method PrintPadded(buffer: array<char>, num: u64) returns (out: string)
    requires buffer.Length == BUFFER
    modifies buffer
    ensures |out| == 16 && Value(out, 16) == num && forall c <- out :: IsDigit(c, 16)
  {
    hide Digits, Value, IsDigit;
    FitsBuffer(num, 16);
    DigitsReadBack(num, 16);
    NoTerminatorInside(num, 16);
    DigitOf(16, 0);
    var str := Itob(buffer, num, 16);
    var len := Strlen(buffer, str);
    LengthIs(buffer[..], str, len);
    var offsetZeros: int := 16 - len;
    out := [];
    for i := 0 to offsetZeros
      invariant out == Zeros(i)
    {
      out := out + ['0'];
    }
    ZerosInFront(offsetZeros, Digits(num, 16), 16);
    for i := 0 to len
      invariant out == Zeros(offsetZeros) + buffer[str..str + i]
    {
      out := out + [buffer[str + i]];
    }
  }

  lemma LengthIs(b: seq<char>, str: nat, len: nat)
    requires |b| == BUFFER && str < 49 && b[49] == '\0' && '\0' !in b[str..49]
    requires str + len < 50 && b[str + len] == '\0' && '\0' !in b[str..str + len]
    ensures str + len == 49
  {
    forall j | str <= j < 49 ensures b[j] != '\0' {
      assert b[str..49][j - str] == b[j];
    }
  }
}
