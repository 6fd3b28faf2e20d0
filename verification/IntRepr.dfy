/** Integers as strings: two's complement in binary, and sign and magnitude in bases 2 to 36. */
module IntRepr {
  import opened Sequences
  import opened Wrappers
  import opened Arith

  datatype Error = InsufficientWidth | BaseTooLarge | BaseTooSmall

  const DIGITS: string := "0123456789ABCDEFGHIJKLMNOPQRSTUVWXYZ"

  function Pow(b: nat, n: nat): (p: nat)
    requires b > 0
    ensures p > 0
  {
    if n == 0 then 1 else MulPositive(b, Pow(b, n - 1)); b * Pow(b, n - 1)
  }

  lemma {:induction false} PowMono(b: nat, m: nat, n: nat)
    requires b > 1 && m < n
    ensures b * Pow(b, m) <= Pow(b, n)
    decreases n
  {
    if m + 1 == n {
    } else {
      PowMono(b, m, n - 1);
      MulMono(1, b, Pow(b, n - 1));
    }
  }

  /** m lies below b^k exactly when its length is at most k. */
  lemma PowBetween(b: nat, m: nat, len: nat, k: nat)
    requires b > 1 && len > 0 && Pow(b, len - 1) <= m < Pow(b, len)
    ensures m < Pow(b, k) <==> len <= k
  {
    if len < k {
      PowMono(b, len, k);
      MulMono(1, b, Pow(b, len));
    } else if k < len - 1 {
      PowMono(b, k, len - 1);
      MulMono(1, b, Pow(b, k));
    }
  }

  // ----- reading digits back -----

  function DigitValue(c: char): (v: int) {
    if '0' <= c <= '9' then c as int - '0' as int
    else if 'A' <= c <= 'Z' then c as int - 'A' as int + 10
    else -1
  }

  /** The digits are 0 to 9, then A to Z. */
  lemma DigitsReadBack(i: nat)
    requires i < 36
    ensures DIGITS[i] as int == if i < 10 then '0' as int + i else 'A' as int + (i - 10)
    ensures DigitValue(DIGITS[i]) == i
  {
  }

  /** The value of a digit string, most significant digit first. */
  function Value(s: string, b: nat): (v: int) {
    if s == [] then 0 else Value(s[..|s| - 1], b) * b + DigitValue(s[|s| - 1])
  }

  ghost predicate InBase(s: string, b: nat) {
    forall k :: 0 <= k < |s| ==> 0 <= DigitValue(s[k]) < b
  }

  /** Parsing with an optional sign, as int(s, b) does for such strings. */
  function Parse(s: string, b: nat): (v: int) {
    if s != [] && s[0] == '-' then -Value(s[1..], b) else Value(s, b)
  }

  lemma {:induction false} ValueConcat(s: string, t: string, b: nat)
    requires b > 0
    ensures Value(s + t, b) == Value(s, b) * Pow(b, |t|) + Value(t, b)
    decreases |t|
  {
    if t == [] {
      assert s + t == s;
    } else {
      var init := t[..|t| - 1];
      assert (s + t)[..|s + t| - 1] == s + init;
      ValueConcat(s, init, b);
      Distribute(Value(s, b) * Pow(b, |init|), Value(init, b), b);
      MulAssoc(Value(s, b), Pow(b, |init|), b);
      assert Pow(b, |init|) * b == Pow(b, |t|);
    }
  }

  lemma {:induction false} ValueZeros(n: int, b: nat)
    ensures Value(Repeat('0', n), b) == 0
    decreases n
  {
    if n <= 0 {
    } else {
      assert Repeat('0', n)[..n - 1] == Repeat('0', n - 1);
      ValueZeros(n - 1, b);
    }
  }

  lemma {:induction false} ValueOnes(n: nat)
    ensures Value(Repeat('1', n), 2) == Pow(2, n) - 1
  {
    if n == 0 {
    } else {
      assert Repeat('1', n)[..n - 1] == Repeat('1', n - 1);
      ValueOnes(n - 1);
    }
  }

  lemma {:induction false} ValueBound(s: string, b: nat)
    requires b > 0 && InBase(s, b)
    ensures 0 <= Value(s, b) < Pow(b, |s|)
  {
    if s == [] {
    } else {
      ValueBound(s[..|s| - 1], b);
      MulLeSuccessor(Value(s[..|s| - 1], b), Pow(b, |s| - 1), b);
      MulMono(0, Value(s[..|s| - 1], b), b);
      assert Pow(b, |s| - 1) * b == Pow(b, |s|);
    }
  }

  lemma LastDigit(s: string, b: nat)
    requires b > 0 && s != [] && InBase(s, b)
    ensures Value(s, b) / b == Value(s[..|s| - 1], b)
    ensures Value(s, b) % b == DigitValue(s[|s| - 1])
  {
    DivModUnique(Value(s, b), Value(s[..|s| - 1], b), DigitValue(s[|s| - 1]), b);
  }

  lemma DigitInjective(c: char, d: char)
    requires DigitValue(c) == DigitValue(d) >= 0
    ensures c == d
  {
  }

  /** Digit strings of one length are determined by their value. */
  lemma {:induction false} ValueInjective(s: string, t: string, b: nat)
    requires b > 0 && InBase(s, b) && InBase(t, b) && |s| == |t| && Value(s, b) == Value(t, b)
    ensures s == t
  {
    if s == [] {
    } else {
      var n := |s| - 1;
      LastDigit(s, b);
      LastDigit(t, b);
      ValueInjective(s[..n], t[..n], b);
      DigitInjective(s[n], t[n]);
      assert s == s[..n] + [s[n]] && t == t[..n] + [t[n]];
    }
  }

  /** The canonical digits of a positive number; none for zero. */
  function Digits(n: nat, b: nat): (s: string)
    requires 2 <= b <= 36
  {
    if n == 0 then []
    else
      Shorter(n, b);
      Digits(n / b, b) + [DIGITS[n % b]]
  }

  /** Dropping the last digit of a positive number leaves a smaller number. */
  lemma Shorter(n: nat, b: nat)
    requires b >= 2 && n > 0
    ensures 0 <= n / b < n && 0 <= n % b < b && n == (n / b) * b + n % b
  {
    DivBound(n, b, n);
    DivBound(n, b, 0);
    MulLeSuccessor(1, b, n);
    DivModDef(n, b);
  }

  lemma {:induction false} DigitsValue(n: nat, b: nat)
    requires 2 <= b <= 36
    ensures InBase(Digits(n, b), b) && Value(Digits(n, b), b) == n
    ensures n > 0 ==> |Digits(n, b)| > 0
    decreases n
  {
    if n == 0 {
    } else {
      Shorter(n, b);
      DigitsValue(n / b, b);
      DigitsReadBack(n % b);
      OneMore(Digits(n / b, b), DIGITS[n % b], b);
    }
  }

  /** A digit appended to a digit string. */
  lemma OneMore(s: string, c: char, b: nat)
    requires 0 <= DigitValue(c) < b && InBase(s, b)
    ensures InBase(s + [c], b) && Value(s + [c], b) == Value(s, b) * b + DigitValue(c)
  {
    assert (s + [c])[..|s|] == s;
  }

  /** The first digit is not zero, and the length is the least that fits. */
  lemma {:induction false} DigitsFirst(n: nat, b: nat)
    requires 2 <= b <= 36 && n > 0
    ensures var s := Digits(n, b);
            |s| > 0 && DigitValue(s[0]) > 0 && Pow(b, |s| - 1) <= n
    decreases n
  {
    Shorter(n, b);
    var q, d := n / b, n % b;
    DigitsReadBack(d);
    assert Digits(n, b) == Digits(q, b) + [DIGITS[d]];
    if q == 0 {
      assert Digits(0, b) == [];
      assert [] + [DIGITS[d]] == [DIGITS[d]];
      assert Pow(b, 0) == 1;
    } else {
      DigitsFirst(q, b);
      FirstKept(Digits(q, b), DIGITS[d], b, q, n);
    }
  }

  /** The lower bound of a number with one more digit. */
  lemma FirstKept(s: string, c: char, b: nat, q: nat, n: nat)
    requires b > 0 && s != [] && Pow(b, |s| - 1) <= q && q * b <= n
    ensures (s + [c])[0] == s[0] && Pow(b, |s + [c]| - 1) <= n
  {
    MulMono(Pow(b, |s| - 1), q, b);
  }

  lemma DigitsFacts(n: nat, b: nat)
    requires 2 <= b <= 36
    ensures var s := Digits(n, b);
            && InBase(s, b) && Value(s, b) == n
            && (n > 0 ==> |s| > 0 && DigitValue(s[0]) > 0 && Pow(b, |s| - 1) <= n < Pow(b, |s|))
  {
    DigitsValue(n, b);
    if n > 0 {
      DigitsFirst(n, b);
      ValueBound(Digits(n, b), b);
    }
  }

  /** A number in [b^(k-1), b^k) has k digits. */
  lemma DigitsLength(n: nat, b: nat, k: nat)
    requires 2 <= b <= 36 && k > 0 && Pow(b, k - 1) <= n < Pow(b, k)
    ensures |Digits(n, b)| == k
  {
    DigitsFacts(n, b);
    PowBetween(b, n, |Digits(n, b)|, k - 1);
    PowBetween(b, n, |Digits(n, b)|, k);
  }

  lemma ParsePlain(s: string, b: nat)
    requires InBase(s, b)
    ensures Parse(s, b) == Value(s, b)
  {
    assert DigitValue('-') == -1;
  }

  lemma ParseNegative(s: string, b: nat)
    ensures Parse(['-'] + s, b) == -Value(s, b)
  {
    assert (['-'] + s)[1..] == s;
  }

  lemma PaddedValue(n: int, s: string, b: nat)
    requires b > 0 && InBase(s, b)
    ensures InBase(Repeat('0', n) + s, b) && Value(Repeat('0', n) + s, b) == Value(s, b)
  {
    ValueZeros(n, b);
    ValueConcat(Repeat('0', n), s, b);
  }

  // ----- binary_repr -----

  /** Bits of the magnitude, one less at the boundary -2^k. */
  function PosWidth(num: int): (w: nat)
    requires num < 0
  {
    var len := |Digits(-num, 2)|;
    DigitsFacts(-num, 2);
    if Pow(2, len - 1) == -num then len - 1 else len
  }

  /** The two's complement of num has one bit more than PosWidth. */
  lemma PosWidthFits(num: int)
    requires num < 0
    ensures Pow(2, PosWidth(num)) <= Pow(2, PosWidth(num) + 1) + num < Pow(2, PosWidth(num) + 1)
    ensures forall k: nat :: PosWidth(num) <= k <==> -num <= Pow(2, k)
  {
    var len := |Digits(-num, 2)|;
    DigitsFacts(-num, 2);
    assert Pow(2, len) == 2 * Pow(2, len - 1) && Pow(2, len + 1) == 2 * Pow(2, len);
    forall k: nat
      ensures PosWidth(num) <= k <==> -num <= Pow(2, k)
    {
      LeastWidth(-num, len, k);
    }
  }

  /** A number of len bits fits into k bits if k is enough, or it is the boundary value 2^k. */
  lemma LeastWidth(n: nat, len: nat, k: nat)
    requires len > 0 && Pow(2, len - 1) <= n < Pow(2, len)
    ensures (if Pow(2, len - 1) == n then len - 1 else len) <= k <==> n <= Pow(2, k)
  {
    PowBetween(2, n, len, k);
    if n == Pow(2, k) {
      PowBetween(2, n, len, k + 1);
      assert Pow(2, k + 1) == 2 * Pow(2, k);
    }
  }

  function TwosComplement(num: int): (n: nat)
    requires num < 0
  {
    PosWidthFits(num);
    Pow(2, PosWidth(num) + 1) + num
  }

  function BinaryRepr(num: int, width: Option<int>): (r: Result<string, Error>) {
    if num == 0 then
      Success(Repeat('0', if width.Some? && width.value != 0 then width.value else 1))
    else if num > 0 then
      var binary := Digits(num, 2);
      var outwidth := if width.None? then |binary| else Max(|binary|, width.value);
      if width.Some? && width.value < |binary| then Failure(InsufficientWidth)
      else Success(Repeat('0', outwidth - |binary|) + binary)
    else if width.None? then Success(['-'] + Digits(-num, 2))
    else
      var binary := Digits(TwosComplement(num), 2);
      var outwidth := Max(|binary|, width.value);
      if width.value < |binary| then Failure(InsufficientWidth)
      else Success(Repeat('1', outwidth - |binary|) + binary)
  }

  lemma TwosComplementLength(num: int)
    requires num < 0
    ensures |Digits(TwosComplement(num), 2)| == PosWidth(num) + 1
    ensures Pow(2, |Digits(TwosComplement(num), 2)|) + num == TwosComplement(num)
  {
    PosWidthFits(num);
    DigitsLength(TwosComplement(num), 2, PosWidth(num) + 1);
  }

  /** With a width, zero is always accepted and any other number exactly in the two's complement or unsigned range. */
  ghost predicate Accepted(num: int, width: int) {
    num == 0 || (width >= 1 && 0 - Pow(2, width - 1) <= num < Pow(2, width))
  }

  lemma BinaryReprAccepts(num: int, width: int)
    ensures BinaryRepr(num, Some(width)).Success? <==> Accepted(num, width)
  {
    if num > 0 {
      DigitsFacts(num, 2);
      if width >= 1 {
        PowBetween(2, num, |Digits(num, 2)|, width);
      }
    } else if num < 0 {
      TwosComplementLength(num);
      PosWidthFits(num);
      if width >= 1 {
        assert PosWidth(num) <= width - 1 <==> -num <= Pow(2, width - 1);
      }
    }
  }

  /** Accepted numbers print as exactly width bits whose unsigned value is num mod 2^width. */
  lemma BinaryReprBits(num: int, width: int)
    requires width >= 1 && Accepted(num, width)
    ensures BinaryRepr(num, Some(width)).Success?
    ensures var s := BinaryRepr(num, Some(width)).value;
            |s| == width && InBase(s, 2) && Value(s, 2) == num % Pow(2, width)
  {
    BinaryReprAccepts(num, width);
    if num == 0 {
      PaddedValue(width, [], 2);
      assert Repeat('0', width) + [] == Repeat('0', width);
      DivModUnique(0, 0, 0, Pow(2, width));
    } else if num > 0 {
      DigitsFacts(num, 2);
      PaddedValue(width - |Digits(num, 2)|, Digits(num, 2), 2);
      DivModUnique(num, 0, num, Pow(2, width));
    } else {
      TwosComplementLength(num);
      NegativeBits(num, width);
      DivModUnique(num, -1, num + Pow(2, width), Pow(2, width));
    }
  }

  lemma NegativeBits(num: int, width: nat)
    requires num < 0 && width >= |Digits(TwosComplement(num), 2)|
    ensures var binary := Digits(TwosComplement(num), 2);
            var s := Repeat('1', width - |binary|) + binary;
            && |s| == width && InBase(s, 2) && Value(s, 2) == num + Pow(2, width)
            && 0 <= num + Pow(2, width) < Pow(2, width)
  {
    TwosComplementLength(num);
    DigitsValue(TwosComplement(num), 2);
    FilledWithOnes(Digits(TwosComplement(num), 2), num, width);
  }

  lemma FilledWithOnes(binary: string, num: int, width: nat)
    requires InBase(binary, 2) && width >= |binary| && Value(binary, 2) == Pow(2, |binary|) + num
    ensures var s := Repeat('1', width - |binary|) + binary;
            && |s| == width && InBase(s, 2) && Value(s, 2) == num + Pow(2, width)
            && 0 <= num + Pow(2, width) < Pow(2, width)
  {
    OnesPrefix(width - |binary|, binary, width);
    ValueBound(Repeat('1', width - |binary|) + binary, 2);
  }

  lemma OnesPrefix(k: nat, s: string, width: nat)
    requires InBase(s, 2) && width == k + |s|
    ensures InBase(Repeat('1', k) + s, 2)
    ensures Value(Repeat('1', k) + s, 2) == Pow(2, width) - Pow(2, |s|) + Value(s, 2)
  {
    ValueOnes(k);
    ValueConcat(Repeat('1', k), s, 2);
    OnesTimes(k, |s|);
  }

  lemma OnesTimes(k: nat, m: nat)
    ensures (Pow(2, k) - 1) * Pow(2, m) == Pow(2, k + m) - Pow(2, m)
  {
    PowSum(k, m);
    Distribute(Pow(2, k), -1, Pow(2, m));
  }

  lemma {:induction false} PowSum(m: nat, n: nat)
    ensures Pow(2, m) * Pow(2, n) == Pow(2, m + n)
    decreases m
  {
    if m == 0 {
    } else {
      PowSum(m - 1, n);
      MulAssoc(2, Pow(2, m - 1), Pow(2, n));
    }
  }

  /** Two accepted numbers print alike exactly when they are congruent modulo 2^width. */
  lemma BinaryReprCollision(num: int, num': int, width: int)
    requires width >= 1 && Accepted(num, width) && Accepted(num', width)
    ensures BinaryRepr(num, Some(width)) == BinaryRepr(num', Some(width))
       <==> num % Pow(2, width) == num' % Pow(2, width)
  {
    BinaryReprBits(num, width);
    BinaryReprBits(num', width);
    if num % Pow(2, width) == num' % Pow(2, width) {
      ValueInjective(BinaryRepr(num, Some(width)).value, BinaryRepr(num', Some(width)).value, 2);
    }
  }

  /** Without a width the sign and magnitude parse back. */
  lemma BinaryReprParses(num: int)
    ensures BinaryRepr(num, None).Success?
    ensures Parse(BinaryRepr(num, None).value, 2) == num
  {
    if num == 0 {
      PaddedValue(1, [], 2);
      assert Repeat('0', 1) + [] == Repeat('0', 1);
      ParsePlain(Repeat('0', 1), 2);
    } else if num > 0 {
      DigitsValue(num, 2);
      assert Repeat('0', 0) + Digits(num, 2) == Digits(num, 2);
      ParsePlain(Digits(num, 2), 2);
    } else {
      DigitsValue(-num, 2);
      ParseNegative(Digits(-num, 2), 2);
    }
  }

  /** The least number of bits for a positive number: they start with a 1. */
  ghost predicate LeastBits(s: string, n: nat) {
    && s != [] && s[0] == '1' && (forall k :: 0 <= k < |s| ==> s[k] == '0' || s[k] == '1')
    && Pow(2, |s| - 1) <= n < Pow(2, |s|)
  }

  lemma BitChar(c: char)
    requires 0 <= DigitValue(c) < 2
    ensures c == '0' || c == '1'
    ensures DigitValue(c) > 0 ==> c == '1'
  {
  }

  lemma AllBits(s: string)
    requires InBase(s, 2)
    ensures forall k :: 0 <= k < |s| ==> s[k] == '0' || s[k] == '1'
  {
    forall k | 0 <= k < |s|
      ensures s[k] == '0' || s[k] == '1'
    {
      BitChar(s[k]);
    }
  }

  lemma DigitsAreLeast(n: nat)
    requires n > 0
    ensures LeastBits(Digits(n, 2), n)
  {
    DigitsFacts(n, 2);
    AllBits(Digits(n, 2));
    BitChar(Digits(n, 2)[0]);
  }

  /** Without a width: a minus sign exactly for negative numbers, then the least number of bits, at least one. */
  lemma BinaryReprShape(num: int)
    ensures BinaryRepr(num, None).Success?
    ensures var s := BinaryRepr(num, None).value;
            && (num == 0 ==> s == "0")
            && (num > 0 ==> LeastBits(s, num))
            && (num < 0 ==> s != [] && s[0] == '-' && LeastBits(s[1..], -num))
  {
    if num == 0 {
    } else if num > 0 {
      DigitsAreLeast(num);
      assert Repeat('0', 0) + Digits(num, 2) == Digits(num, 2);
    } else {
      DigitsAreLeast(-num);
      assert (['-'] + Digits(-num, 2))[1..] == Digits(-num, 2);
    }
  }

  /** Zero is as many zeros as the width says; a width of 0 counts as missing, and a negative one leaves nothing. */
  lemma BinaryReprZero(width: int)
    ensures BinaryRepr(0, Some(width)).Success?
    ensures var s := BinaryRepr(0, Some(width)).value;
            && |s| == (if width == 0 then 1 else if width < 0 then 0 else width)
            && forall k :: 0 <= k < |s| ==> s[k] == '0'
  {
  }

  // ----- base_repr -----

  /** ''.join(reversed(parts)). */
  function JoinReversed(parts: seq<string>): (s: string) {
    if parts == [] then [] else parts[|parts| - 1] + JoinReversed(parts[..|parts| - 1])
  }

  lemma JoinAppend(parts: seq<string>, part: string)
    ensures JoinReversed(parts + [part]) == part + JoinReversed(parts)
  {
    assert (parts + [part])[..|parts|] == parts;
  }

  function Magnitude(n: int): nat {
    if n < 0 then -n else n
  }

  /** The text base_repr should give: sign, padding zeros, canonical digits; a lone 0 if nothing else is there. */
  function BaseText(number: int, b: nat, padding: int): (s: string)
    requires 2 <= b <= 36
  {
    if number == 0 && padding == 0 then "0"
    else (if number < 0 then "-" else "") + (Repeat('0', padding) + Digits(Magnitude(number), b))
  }

  /** The division loop: least significant digit first. */
  method DivisionDigits(number: nat, b: nat) returns (res: seq<string>)
    requires 2 <= b <= 36
    ensures JoinReversed(res) == Digits(number, b)
    ensures res == [] <==> number == 0
  {
    var num: nat := number;
    res := [];
    while num != 0
      invariant Digits(number, b) == Digits(num, b) + JoinReversed(res)
      invariant res == [] <==> num == number
      invariant num <= number
    {
      Shorter(num, b);
      JoinAppend(res, [DIGITS[num % b]]);
      res := res + [[DIGITS[num % b]]];
      num := num / b;
    }
  }

  method BaseRepr(number: int, b: int, padding: int) returns (r: Result<string, Error>)
    ensures b > 36 ==> r == Failure(BaseTooLarge)
    ensures b < 2 ==> r == Failure(BaseTooSmall)
    ensures 2 <= b <= 36 ==> r == Success(BaseText(number, b, padding))
    ensures 2 <= b <= 36 && padding >= 0 ==> Parse(r.value, b) == number
  {
    if b > |DIGITS| {
      return Failure(BaseTooLarge);
    } else if b < 2 {
      return Failure(BaseTooSmall);
    }
    ghost var body := Repeat('0', padding) + Digits(Magnitude(number), b);
    var res := DivisionDigits(Magnitude(number), b);
    if padding != 0 {
      JoinAppend(res, Repeat('0', padding));
      res := res + [Repeat('0', padding)];
    }
    assert JoinReversed(res) == body;
    if number < 0 {
      JoinAppend(res, "-");
      res := res + ["-"];
    }
    r := Success(if res == [] then "0" else JoinReversed(res));
    assert r.value == BaseText(number, b, padding) by {
      assert [] + body == body;
    }
    if padding >= 0 {
      BaseTextParses(number, b, padding);
    }
  }

  /** Parsing the text in its base gives the number back. */
  lemma BaseTextParses(number: int, b: nat, padding: nat)
    requires 2 <= b <= 36
    ensures Parse(BaseText(number, b, padding), b) == number
  {
    var digits := Digits(Magnitude(number), b);
    DigitsValue(Magnitude(number), b);
    PaddedValue(padding, digits, b);
    var body := Repeat('0', padding) + digits;
    if number == 0 && padding == 0 {
      PaddedValue(1, [], b);
      assert Repeat('0', 1) + [] == "0";
      ParsePlain("0", b);
    } else {
      BaseTextIs(number, b, padding);
      ParseNegative(body, b);
      ParsePlain(body, b);
    }
  }

  /** A number other than zero shows exactly the padding zeros before its first significant digit. */
  lemma BaseTextLeadingZeros(number: int, b: nat, padding: nat)
    requires 2 <= b <= 36 && number != 0
    ensures var s := BaseText(number, b, padding);
            var sign := if number < 0 then 1 else 0;
            && |s| > sign + padding
            && (forall k :: sign <= k < sign + padding ==> s[k] == '0')
            && DigitValue(s[sign + padding]) > 0
            && (number < 0 ==> s[0] == '-')
            && InBase(s[sign..], b)
  {
    DigitsFacts(Magnitude(number), b);
    var digits := Digits(Magnitude(number), b);
    var body := Repeat('0', padding) + digits;
    PaddedFirst(padding, digits, b);
    BaseTextIs(number, b, padding);
    if number < 0 {
      ShiftByOne('-', body);
    } else {
      assert body[0..] == body;
    }
  }

  /** Zero has no digits of its own: it shows the padding zeros, or a single one where there is no padding. */
  lemma BaseTextZero(b: nat, padding: int)
    requires 2 <= b <= 36
    ensures var s := BaseText(0, b, padding);
            && |s| == (if padding == 0 then 1 else if padding < 0 then 0 else padding)
            && forall k :: 0 <= k < |s| ==> s[k] == '0'
  {
    assert Digits(0, b) == [];
  }

  /** For any other number a negative padding is none. */
  lemma BaseTextNegativePadding(number: int, b: nat, padding: int)
    requires 2 <= b <= 36 && number != 0 && padding < 0
    ensures BaseText(number, b, padding) == BaseText(number, b, 0)
  {
    assert Repeat('0', padding) == Repeat('0', 0);
  }

  lemma PaddedFirst(n: nat, digits: string, b: nat)
    requires InBase(digits, b) && digits != [] && DigitValue(digits[0]) > 0
    ensures var body := Repeat('0', n) + digits;
            && |body| > n && (forall k :: 0 <= k < n ==> body[k] == '0')
            && DigitValue(body[n]) > 0 && InBase(body, b)
  {
    var body := Repeat('0', n) + digits;
    assert body[n] == digits[0];
    forall k | 0 <= k < |body|
      ensures 0 <= DigitValue(body[k]) < b
    {
      if k < n {
        assert body[k] == '0' && 0 <= DigitValue(digits[0]) < b;
      } else {
        assert body[k] == digits[k - n];
      }
    }
  }

  lemma BaseTextIs(number: int, b: nat, padding: nat)
    requires 2 <= b <= 36 && (number != 0 || padding != 0)
    ensures var body := Repeat('0', padding) + Digits(Magnitude(number), b);
            BaseText(number, b, padding) == if number < 0 then ['-'] + body else body
  {
    var body := Repeat('0', padding) + Digits(Magnitude(number), b);
    assert [] + body == body;
  }

  lemma ShiftByOne(c: char, s: string)
    ensures ([c] + s)[1..] == s
    ensures forall k :: 1 <= k <= |s| ==> ([c] + s)[k] == s[k - 1]
  {
  }
}
