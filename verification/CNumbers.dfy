/** Numbers as the C library reads them from text: `strtol` in base ten, and
    `atoi` and `atol` on top of it. The end of the sequence stands for the
    terminating NUL. */
module CNumbers {
  import opened Bytes

  const LONG_MAX := 0x7FFF_FFFF_FFFF_FFFF
  const UINT_MODULUS := 0x1_0000_0000
  const INT_MAX := 0x7FFF_FFFF
  const PLUS: byte := 43
  const MINUS: byte := 45

  predicate White(b: byte) {
    b == 32 || 9 <= b <= 13
  }

  predicate Digit(b: byte) {
    48 <= b <= 57
  }

  /** The first index from i on that holds no white space, or `|s|`. */
  function SkipWhite(s: seq<byte>, i: nat): (k: nat)
    requires i <= |s|
    ensures i <= k <= |s|
    ensures forall j :: i <= j < k ==> White(s[j])
    ensures k < |s| ==> !White(s[k])
    decreases |s| - i
  {
    if i == |s| || !White(s[i]) then i else SkipWhite(s, i + 1)
  }

  /** The digits from i on, read behind the value `acc`. */
  function Digits(s: seq<byte>, i: nat, acc: nat): nat
    requires i <= |s|
    decreases |s| - i
  {
    if i == |s| || !Digit(s[i]) then acc else Digits(s, i + 1, acc * 10 + (s[i] as int - 48))
  }

  /** White space, an optional sign, digits; no digits mean zero. */
  function Number(s: seq<byte>): int {
    var w := SkipWhite(s, 0);
    if w < |s| && s[w] == MINUS then 0 - Digits(s, w + 1, 0)
    else if w < |s| && s[w] == PLUS then Digits(s, w + 1, 0)
    else Digits(s, w, 0)
  }

  /** `strtol` and `atol`: out of range values become the nearest long. */
  function Atol(s: seq<byte>): (n: int)
    ensures -LONG_MAX - 1 <= n <= LONG_MAX
    ensures -LONG_MAX - 1 <= Number(s) <= LONG_MAX ==> n == Number(s)
    ensures Number(s) > LONG_MAX ==> n == LONG_MAX
    ensures Number(s) < -LONG_MAX - 1 ==> n == -LONG_MAX - 1
  {
    var v := Number(s);
    if v > LONG_MAX then LONG_MAX else if v < -LONG_MAX - 1 then -LONG_MAX - 1 else v
  }

  /** Conversion of a long to an int keeps the low 32 bits. */
  function ToInt(n: int): (r: int)
    ensures -INT_MAX - 1 <= r <= INT_MAX
    ensures exists k: int :: n == r + k * UINT_MODULUS
    ensures -INT_MAX - 1 <= n <= INT_MAX ==> r == n
  {
    var m := n % UINT_MODULUS;
    assert n == m + n / UINT_MODULUS * UINT_MODULUS == m - UINT_MODULUS + (n / UINT_MODULUS + 1) * UINT_MODULUS;
    if m > INT_MAX then m - UINT_MODULUS else m
  }

  function Atoi(s: seq<byte>): int {
    ToInt(Atol(s))
  }

  lemma {:induction false} SkipWhiteIs(s: seq<byte>, i: nat, k: nat)
    requires i <= k <= |s| && forall j :: i <= j < k ==> White(s[j])
    requires k < |s| ==> !White(s[k])
    ensures SkipWhite(s, i) == k
  {
  }

  lemma {:induction false} DigitsLocal(s: seq<byte>, x: seq<byte>, i: nat, acc: nat)
    requires i < |s| && !Digit(s[|s| - 1])
    ensures Digits(s + x, i, acc) == Digits(s, i, acc)
    decreases |s| - i
  {
    if Digit(s[i]) {
      DigitsLocal(s, x, i + 1, acc * 10 + (s[i] as int - 48));
    }
  }

  /** A number is settled by its text once a byte that is not white space has
      been followed by white space. */
  lemma NumberLocal(s: seq<byte>, x: seq<byte>)
    requires SkipWhite(s, 0) < |s| && White(s[|s| - 1])
    ensures Number(s + x) == Number(s)
  {
    var w := SkipWhite(s, 0);
    SkipWhiteIs(s + x, 0, w);
    DigitsLocal(s, x, w, 0);
    DigitsLocal(s, x, w + 1, 0);
  }

  lemma AtoiLocal(s: seq<byte>, x: seq<byte>)
    requires SkipWhite(s, 0) < |s| && White(s[|s| - 1])
    ensures Atoi(s + x) == Atoi(s)
  {
    hide Number, SkipWhite, ToInt;
    NumberLocal(s, x);
  }

  /** Behind nothing but white space the number is whatever follows. */
  lemma NumberBehindWhite(s: seq<byte>, d: byte)
    requires forall i :: 0 <= i < |s| ==> White(s[i])
    requires Digit(d)
    ensures Number(s) == 0 && Number(s + [d]) == d as int - 48
  {
    SkipWhiteIs(s, 0, |s|);
    SkipWhiteIs(s + [d], 0, |s|);
    assert Digits(s + [d], |s| + 1, d as int - 48) == d as int - 48;
  }

  lemma {:induction false} DigitsShift(w: seq<byte>, s: seq<byte>, i: nat, acc: nat)
    requires i <= |s|
    ensures Digits(w + s, |w| + i, acc) == Digits(s, i, acc)
    decreases |s| - i
  {
    if i < |s| && Digit(s[i]) {
      DigitsShift(w, s, i + 1, acc * 10 + (s[i] as int - 48));
    }
  }

  /** White space in front of a text does not change its number. */
  lemma WhiteSkipped(w: seq<byte>, s: seq<byte>)
    requires forall i :: 0 <= i < |w| ==> White(w[i])
    ensures Number(w + s) == Number(s) && Atoi(w + s) == Atoi(s)
  {
    var k := SkipWhite(s, 0);
    SkipWhiteIs(w + s, 0, |w| + k);
    DigitsShift(w, s, k, 0);
    if k < |s| {
      DigitsShift(w, s, k + 1, 0);
    }
  }

  /** Two bytes make no number beyond 99. */
  lemma ShortNumber(s: seq<byte>)
    requires |s| <= 2
    ensures -99 <= Number(s) <= 99 && Atoi(s) == Number(s)
  {
    ShortDigits(s, SkipWhite(s, 0));
    if SkipWhite(s, 0) < |s| {
      ShortDigits(s, SkipWhite(s, 0) + 1);
    }
  }

  lemma ShortDigits(s: seq<byte>, i: nat)
    requires |s| <= 2 && i <= |s|
    ensures Digits(s, i, 0) <= 99
  {
    if i < |s| && Digit(s[i]) {
      var d := s[i] as int - 48;
      assert Digits(s, i, 0) == Digits(s, i + 1, d);
      assert i + 1 < |s| && Digit(s[i + 1]) ==> Digits(s, i + 1, d) == d * 10 + (s[i + 1] as int - 48);
    }
  }

  // ----- Printed numbers are read back

  function Decimal(n: nat): (r: seq<byte>)
    ensures r != [] && forall i :: 0 <= i < |r| ==> Digit(r[i])
  {
    if n < 10 then [48 + n] else Decimal(n / 10) + [48 + n % 10]
  }

  lemma {:induction false} DigitsSnoc(s: seq<byte>, d: byte, i: nat, acc: nat)
    requires i <= |s| && Digit(d) && forall j :: i <= j < |s| ==> Digit(s[j])
    ensures Digits(s + [d], i, acc) == Digits(s, i, acc) * 10 + (d as int - 48)
    decreases |s| - i
  {
    if i < |s| {
      DigitsSnoc(s, d, i + 1, acc * 10 + (s[i] as int - 48));
    } else {
      assert Digits(s + [d], i + 1, acc * 10 + (d as int - 48)) == acc * 10 + (d as int - 48);
    }
  }

  lemma {:induction false} DigitsOfDecimal(n: nat)
    ensures Digits(Decimal(n), 0, 0) == n
  {
    if n < 10 {
      assert Digits([48 + n], 1, n) == n;
    } else {
      DigitsOfDecimal(n / 10);
      DigitsSnoc(Decimal(n / 10), 48 + n % 10, 0, 0);
    }
  }

  lemma NumberOfDecimal(n: nat)
    ensures Number(Decimal(n)) == n
  {
    hide Decimal;
    DigitsOfDecimal(n);
    SkipWhiteIs(Decimal(n), 0, 0);
  }

  lemma {:induction false} DigitsStop(s: seq<byte>, x: seq<byte>, i: nat, acc: nat)
    requires i <= |s| && (x == [] || !Digit(x[0]))
    ensures Digits(s + x, i, acc) == Digits(s, i, acc)
    decreases |s| - i
  {
    if i < |s| && Digit(s[i]) {
      DigitsStop(s, x, i + 1, acc * 10 + (s[i] as int - 48));
    }
  }

  /** A printed number ends at the first byte that is no digit. */
  lemma NumberOfPrinted(n: nat, x: seq<byte>)
    requires x == [] || !Digit(x[0])
    ensures Number(Decimal(n) + x) == n && SkipWhite(Decimal(n) + x, 0) == 0
  {
    hide Decimal;
    DigitsOfDecimal(n);
    DigitsStop(Decimal(n), x, 0, 0);
    assert (Decimal(n) + x)[0] == Decimal(n)[0];
    SkipWhiteIs(Decimal(n) + x, 0, 0);
  }

  /** The value of a digit string, its last digit counting once. */
  function Value(ds: seq<byte>): nat
    requires forall i :: 0 <= i < |ds| ==> 48 <= ds[i] <= 57
  {
    if ds == [] then 0 else Value(ds[..|ds| - 1]) * 10 + (ds[|ds| - 1] as int - 48)
  }

  lemma {:induction false} DigitsValue(ds: seq<byte>)
    requires forall i :: 0 <= i < |ds| ==> 48 <= ds[i] <= 57
    ensures Digits(ds, 0, 0) == Value(ds)
    decreases |ds|
  {
    if ds != [] {
      var n := |ds| - 1;
      assert ds == ds[..n] + [ds[n]];
      DigitsValue(ds[..n]);
      DigitsSnoc(ds[..n], ds[n], 0, 0);
    }
  }

  /** What a text means: blanks, tabs and line ends in front do not count, one
      sign is taken, then the digits up to the first byte that is none; no
      digits mean zero. */
  lemma NumberMeaning(w: seq<byte>, sign: seq<byte>, ds: seq<byte>, x: seq<byte>)
    requires forall i :: 0 <= i < |w| ==> w[i] in {9, 10, 11, 12, 13, 32}
    requires sign in {[], [43], [45]}
    requires forall i :: 0 <= i < |ds| ==> 48 <= ds[i] <= 57
    requires x != [] ==> !(48 <= x[0] <= 57)
    requires sign == ds == [] && x != [] ==> x[0] !in {9, 10, 11, 12, 13, 32, 43, 45}
    ensures Number(w + (sign + (ds + x))) == if sign == [45] then 0 - Value(ds) else Value(ds)
  {
    hide Digits, Number;
    WhiteSkipped(w, sign + (ds + x));
    SignedNumber(sign, ds, x);
  }

  lemma NumberStart(t: seq<byte>)
    requires t != [] ==> !White(t[0])
    ensures Number(t) ==
            if t != [] && t[0] == MINUS then 0 - Digits(t, 1, 0)
            else if t != [] && t[0] == PLUS then Digits(t, 1, 0)
            else Digits(t, 0, 0)
  {
    SkipWhiteIs(t, 0, 0);
  }

  lemma DigitsBehind(sign: seq<byte>, ds: seq<byte>, x: seq<byte>)
    requires (forall i :: 0 <= i < |ds| ==> 48 <= ds[i] <= 57) && (x != [] ==> !(48 <= x[0] <= 57))
    ensures Digits(sign + (ds + x), |sign|, 0) == Value(ds)
  {
    hide Digits, Value;
    DigitsShift(sign, ds + x, 0, 0);
    DigitsStop(ds, x, 0, 0);
    DigitsValue(ds);
  }

  lemma SignedNumber(sign: seq<byte>, ds: seq<byte>, x: seq<byte>)
    requires sign in {[], [43], [45]} && (forall i :: 0 <= i < |ds| ==> 48 <= ds[i] <= 57)
    requires x != [] ==> !(48 <= x[0] <= 57)
    requires sign == ds == [] && x != [] ==> x[0] !in {9, 10, 11, 12, 13, 32, 43, 45}
    ensures Number(sign + (ds + x)) == if sign == [45] then 0 - Value(ds) else Value(ds)
  {
    hide Digits, Value, Number;
    var t := sign + (ds + x);
    DigitsBehind(sign, ds, x);
    if sign == [] {
      if ds != [] {
        assert t[0] == ds[0];
      } else {
        assert t == x;
      }
    } else {
      assert t[0] == sign[0] && |sign| == 1;
    }
    NumberStart(t);
  }
}
