/**
 * The identity-number checksum of utils.py: one upper-case letter, the digit 1 or 2,
 * eight more digits; the letter stands for a two-digit code, and the number is valid
 * when the weighted sum of the code's two digits and the nine digits is a multiple of 10.
 */
module IdNumber {
  import opened Wrappers
  import opened PyText

  /** `LETTER_MAP`: the code of each letter (I, O, W, X, Y, Z are out of alphabetical order). */
  const LetterMap: map<char, nat> := map[
    'A' := 10, 'B' := 11, 'C' := 12, 'D' := 13, 'E' := 14, 'F' := 15, 'G' := 16, 'H' := 17, 'I' := 34,
    'J' := 18, 'K' := 19, 'L' := 20, 'M' := 21, 'N' := 22, 'O' := 35, 'P' := 23, 'Q' := 24, 'R' := 25,
    'S' := 26, 'T' := 27, 'U' := 28, 'V' := 29, 'W' := 32, 'X' := 30, 'Y' := 31, 'Z' := 33
  ]

  /** The weights of A1, A2 and d1..d9. */
  const Weights: seq<nat> := [1, 9, 8, 7, 6, 5, 4, 3, 2, 1, 1]

  predicate IsUpper(c: char) {
    'A' <= c <= 'Z'
  }

  /** `ID_RE.fullmatch(s)` for `\b([A-Z])[12]\d{8}\b`: the word boundaries hold at both ends of such a string. */
  predicate WellShaped(s: string) {
    && |s| == 10
    && IsUpper(s[0])
    && (s[1] == '1' || s[1] == '2')
    && forall i :: 2 <= i < 10 ==> IsDigit(s[i])
  }

  /** `[int(x) for x in t]`. */
  function Values(t: string): (vs: seq<nat>)
    requires forall i :: 0 <= i < |t| ==> IsDigit(t[i])
    ensures |vs| == |t| && forall i :: 0 <= i < |t| ==> vs[i] == DigitValue(t[i])
  {
    if |t| == 0 then [] else [DigitValue(t[0])] + Values(t[1..])
  }

  /** `sum(w * d for w, d in zip(ws, ds))` over the pairs from index `k` on; `zip` stops at the shorter list. */
  function ZipSum(ws: seq<nat>, ds: seq<nat>, k: nat): nat
    decreases |ws| - k
  {
    if k >= |ws| || k >= |ds| then 0 else ws[k] * ds[k] + ZipSum(ws, ds, k + 1)
  }

  /** `validate_tw_id(s)`. */
  function ValidateTwId(s: string): bool {
    if !WellShaped(s) then false
    else
      var nums := Values(s[1..]);
      if s[0] !in LetterMap then false
      else
        var code := LetterMap[s[0]];
        var digits := [code / 10, code % 10] + nums;
        ZipSum(Weights, digits, 0) % 10 == 0
  }

  /** The weighted sum written out position by position. */
  function Checksum(s: string): nat
    requires WellShaped(s) && s[0] in LetterMap
  {
    var code := LetterMap[s[0]];
    var v := Values(s[1..]);
    code / 10 + 9 * (code % 10)
      + 8 * v[0] + 7 * v[1] + 6 * v[2] + 5 * v[3] + 4 * v[4] + 3 * v[5] + 2 * v[6] + v[7] + v[8]
  }

  /** `LETTER_MAP` is defined on exactly the letters A..Z, so `code is None` never happens once the shape matched. */
  lemma LetterMapTotal(c: char)
    ensures c in LetterMap <==> IsUpper(c)
    ensures c in LetterMap ==> 10 <= LetterMap[c] <= 35
  {
    if IsUpper(c) {
      assert c == 'A' || c == 'B' || c == 'C' || c == 'D' || c == 'E' || c == 'F' || c == 'G'
        || c == 'H' || c == 'I' || c == 'J' || c == 'K' || c == 'L' || c == 'M' || c == 'N'
        || c == 'O' || c == 'P' || c == 'Q' || c == 'R' || c == 'S' || c == 'T' || c == 'U'
        || c == 'V' || c == 'W' || c == 'X' || c == 'Y' || c == 'Z';
    }
  }

  /** The letters in the order of their codes: the letter of code `n` is `ByCode[n - 10]`. */
  const ByCode: string := "ABCDEFGHJKLMNPQRSTUVXYWZIO"

  /** Every code lies in 10..35 and leads back to its letter. */
  lemma LetterMapInverse(c: char)
    requires c in LetterMap
    ensures 10 <= LetterMap[c] <= 35 && ByCode[LetterMap[c] - 10] == c
  {
    LetterMapTotal(c);
    if c <= 'E' {
      LetterCodesAtoE(c);
    } else if c <= 'I' {
      LetterCodesFtoI(c);
    } else if c <= 'R' {
      LetterCodesJtoR(c);
    } else {
      LetterCodesStoZ(c);
    }
  }

  /** `LetterMapInverse` for the letters `A` to `E`. */
  lemma LetterCodesAtoE(c: char)
    requires 'A' <= c <= 'E'
    ensures c in LetterMap && 10 <= LetterMap[c] <= 35 && ByCode[LetterMap[c] - 10] == c
  {
    assert c == 'A' || c == 'B' || c == 'C' || c == 'D' || c == 'E';
  }

  /** `LetterMapInverse` for the letters `F` to `I`. */
  lemma LetterCodesFtoI(c: char)
    requires 'F' <= c <= 'I'
    ensures c in LetterMap && 10 <= LetterMap[c] <= 35 && ByCode[LetterMap[c] - 10] == c
  {
    assert c == 'F' || c == 'G' || c == 'H' || c == 'I';
  }

  /** `LetterMapInverse` for the letters `J` to `R`. */
  lemma LetterCodesJtoR(c: char)
    requires 'J' <= c <= 'R'
    ensures c in LetterMap && 10 <= LetterMap[c] <= 35 && ByCode[LetterMap[c] - 10] == c
  {
    assert c == 'J' || c == 'K' || c == 'L' || c == 'M' || c == 'N' || c == 'O' || c == 'P'
      || c == 'Q' || c == 'R';
  }

  /** `LetterMapInverse` for the letters `S` to `Z`. */
  lemma LetterCodesStoZ(c: char)
    requires 'S' <= c <= 'Z'
    ensures c in LetterMap && 10 <= LetterMap[c] <= 35 && ByCode[LetterMap[c] - 10] == c
  {
    assert c == 'S' || c == 'T' || c == 'U' || c == 'V' || c == 'W' || c == 'X' || c == 'Y'
      || c == 'Z';
  }

  /** Different letters have different codes: the codes are the numbers 10..35, each once. */
  lemma LetterMapInjective(c: char, d: char)
    requires c in LetterMap && d in LetterMap && c != d
    ensures LetterMap[c] != LetterMap[d]
  {
    LetterMapInverse(c);
    LetterMapInverse(d);
  }

  /** `validate_tw_id` holds exactly of well-shaped strings whose weighted sum is a multiple of 10. */
  lemma ValidateTwIdSpec(s: string)
    ensures ValidateTwId(s) <==> WellShaped(s) && Checksum(s) % 10 == 0
  {
    if WellShaped(s) {
      LetterMapTotal(s[0]);
      var code := LetterMap[s[0]];
      var ds := [code / 10, code % 10] + Values(s[1..]);
      ZipSumEleven(ds);
    }
  }

  /** The zipped sum over the eleven weights, position by position. */
  lemma ZipSumEleven(ds: seq<nat>)
    requires |ds| == 11
    ensures ZipSum(Weights, ds, 0) == ds[0] + 9 * ds[1] + 8 * ds[2] + 7 * ds[3] + 6 * ds[4] + 5 * ds[5]
      + 4 * ds[6] + 3 * ds[7] + 2 * ds[8] + ds[9] + ds[10]
  {
    var w := Weights;
    assert ZipSum(w, ds, 11) == 0;
    assert ZipSum(w, ds, 10) == ds[10];
    assert ZipSum(w, ds, 9) == ds[9] + ds[10];
    assert ZipSum(w, ds, 8) == 2 * ds[8] + ZipSum(w, ds, 9);
    assert ZipSum(w, ds, 7) == 3 * ds[7] + ZipSum(w, ds, 8);
    assert ZipSum(w, ds, 6) == 4 * ds[6] + ZipSum(w, ds, 7);
    assert ZipSum(w, ds, 5) == 5 * ds[5] + ZipSum(w, ds, 6);
    assert ZipSum(w, ds, 4) == 6 * ds[4] + ZipSum(w, ds, 5);
    assert ZipSum(w, ds, 3) == 7 * ds[3] + ZipSum(w, ds, 4);
    assert ZipSum(w, ds, 2) == 8 * ds[2] + ZipSum(w, ds, 3);
    assert ZipSum(w, ds, 1) == 9 * ds[1] + ZipSum(w, ds, 2);
  }

  /** The weighted sum of the letter code and the first eight digits: everything but the check digit. */
  function PartialSum(p: string): nat
    requires |p| == 9 && IsUpper(p[0]) && (p[1] == '1' || p[1] == '2')
    requires forall i :: 2 <= i < 9 ==> IsDigit(p[i])
  {
    LetterMapTotal(p[0]);
    var code := LetterMap[p[0]];
    var v := Values(p[1..]);
    code / 10 + 9 * (code % 10) + 8 * v[0] + 7 * v[1] + 6 * v[2] + 5 * v[3] + 4 * v[4] + 3 * v[5] + 2 * v[6] + v[7]
  }

  /**
   * The last weight is 1, so a well-shaped prefix of nine characters has exactly one
   * check digit value that makes the number valid.
   */
  lemma CheckDigitUnique(p: string, c: char)
    requires |p| == 9 && IsUpper(p[0]) && (p[1] == '1' || p[1] == '2')
    requires forall i :: 2 <= i < 9 ==> IsDigit(p[i])
    requires IsDigit(c)
    ensures ValidateTwId(p + [c]) <==> DigitValue(c) == (10 - PartialSum(p) % 10) % 10
  {
    var s := p + [c];
    assert WellShaped(s);
    ValidateTwIdSpec(s);
    LetterMapTotal(s[0]);
    assert s[1..] == p[1..] + [c];
    var v := Values(s[1..]);
    var u := Values(p[1..]);
    assert forall i :: 0 <= i < 8 ==> v[i] == u[i];
    assert v[8] == DigitValue(c);
    assert Checksum(s) == PartialSum(p) + DigitValue(c);
    CheckDigitArith(PartialSum(p), DigitValue(c));
  }

  lemma CheckDigitArith(partial: nat, v: nat)
    requires v <= 9
    ensures (partial + v) % 10 == 0 <==> v == (10 - partial % 10) % 10
  {
  }

  /**
   * Changing one digit whose weight is odd and not 5 (d2, d6, d8 or d9) to a digit of
   * another value always turns a valid number into an invalid one.
   */
  lemma SingleDigitChangeDetected(s: string, t: string, q: nat)
    requires ValidateTwId(s) && WellShaped(t)
    requires q == 2 || q == 6 || q == 8 || q == 9
    requires forall k :: 0 <= k < 10 && k != q ==> t[k] == s[k]
    requires DigitValue(t[q]) != DigitValue(s[q])
    ensures !ValidateTwId(t)
  {
    ValidateTwIdSpec(s);
    ChecksumChange(s, t, q);
    ValidateTwIdSpec(t);
  }

  lemma ChecksumChange(s: string, t: string, q: nat)
    requires WellShaped(s) && WellShaped(t) && Checksum(s) % 10 == 0
    requires q == 2 || q == 6 || q == 8 || q == 9
    requires forall k :: 0 <= k < 10 && k != q ==> t[k] == s[k]
    requires DigitValue(t[q]) != DigitValue(s[q])
    ensures t[0] in LetterMap && Checksum(t) % 10 != 0
  {
    LetterMapTotal(s[0]);
    var vs := Values(s[1..]);
    var vt := Values(t[1..]);
    assert forall k :: 0 <= k < 9 && k != q - 1 ==> vs[k] == vt[k];
    var a, b := vs[q - 1], vt[q - 1];
    WeightDetects(Checksum(s), a, b);
    if q == 2 {
      assert Checksum(t) == Checksum(s) - 7 * a + 7 * b;
    } else if q == 6 {
      assert Checksum(t) == Checksum(s) - 3 * a + 3 * b;
    } else {
      assert Checksum(t) == Checksum(s) - a + b;
    }
  }

  /** Weights 1, 3 and 7 are prime to 10, so they turn any change of one digit into a change of the sum modulo 10. */
  lemma WeightDetects(x: int, a: int, b: int)
    requires x % 10 == 0 && 0 <= a <= 9 && 0 <= b <= 9 && a != b
    ensures (x - a + b) % 10 != 0
    ensures (x - 3 * a + 3 * b) % 10 != 0
    ensures (x - 7 * a + 7 * b) % 10 != 0
  {
    var q, d := x / 10, b - a;
    assert x == 10 * q;
    SmallChangeModTen(q, d);
    assert x - a + b == 10 * q + d;
    assert x - 3 * a + 3 * b == 10 * q + 3 * d;
    assert x - 7 * a + 7 * b == 10 * q + 7 * d;
  }

  /** A non-zero change of at most 9, times 1, 3 or 7, is never a multiple of 10, whatever multiple of 10 it is added to. */
  lemma SmallChangeModTen(q: int, d: int)
    requires -9 <= d <= 9 && d != 0
    ensures (10 * q + d) % 10 != 0 && (10 * q + 3 * d) % 10 != 0 && (10 * q + 7 * d) % 10 != 0
  {
    ModTenShift(q, d);
    ModTenShift(q, 3 * d);
    ModTenShift(q, 7 * d);
    SmallMultiplesModTen(d);
  }

  lemma ModTenShift(q: int, x: int)
    ensures (10 * q + x) % 10 == x % 10
  {
  }

  /** 1, 3 and 7 are prime to 10, so none of them times a non-zero digit difference is a multiple of 10. */
  lemma SmallMultiplesModTen(d: int)
    requires -9 <= d <= 9 && d != 0
    ensures d % 10 != 0 && (3 * d) % 10 != 0 && (7 * d) % 10 != 0
  {
    assert d == -9 || d == -8 || d == -7 || d == -6 || d == -5 || d == -4 || d == -3 || d == -2 || d == -1
      || d == 1 || d == 2 || d == 3 || d == 4 || d == 5 || d == 6 || d == 7 || d == 8 || d == 9;
  }

  /**
   * For the other digit positions the checksum does not catch every single-digit
   * error: A123456789 and A128456789 differ only in the digit of weight 6, and both
   * are valid.
   */
  lemma SingleDigitChangeUndetected(s: string, t: string)
    requires s == "A123456789" && t == "A128456789"
    ensures ValidateTwId(s) && ValidateTwId(t)
    ensures forall k :: 0 <= k < 10 && k != 3 ==> s[k] == t[k]
  {
    ValidA123456789(s);
    ValidA128456789(t);
  }

  lemma ValidA123456789(s: string)
    requires s == "A123456789"
    ensures ValidateTwId(s)
  {
    ValidExample(s, [1, 2, 3, 4, 5, 6, 7, 8, 9]);
  }

  lemma ValidA128456789(s: string)
    requires s == "A128456789"
    ensures ValidateTwId(s)
  {
    ValidExample(s, [1, 2, 8, 4, 5, 6, 7, 8, 9]);
  }

  lemma ValidExample(s: string, v: seq<nat>)
    requires WellShaped(s) && s[0] == 'A' && |v| == 9
    requires forall i :: 0 <= i < 9 ==> DigitValue(s[i + 1]) == v[i]
    requires (1 + 8 * v[0] + 7 * v[1] + 6 * v[2] + 5 * v[3] + 4 * v[4] + 3 * v[5] + 2 * v[6] + v[7] + v[8]) % 10 == 0
    ensures ValidateTwId(s)
  {
    ChecksumOfA(s, v);
    ValidateTwIdSpec(s);
  }

  lemma CodeOfA()
    ensures 'A' in LetterMap && LetterMap['A'] == 10
  {
  }

  lemma ChecksumOfA(s: string, v: seq<nat>)
    requires WellShaped(s) && s[0] == 'A' && |v| == 9
    requires forall i :: 0 <= i < 9 ==> DigitValue(s[i + 1]) == v[i]
    ensures s[0] in LetterMap
    ensures Checksum(s) == 1 + 8 * v[0] + 7 * v[1] + 6 * v[2] + 5 * v[3] + 4 * v[4] + 3 * v[5] + 2 * v[6] + v[7] + v[8]
  {
    CodeOfA();
    var u := Values(s[1..]);
    forall i | 0 <= i < 9 ensures u[i] == v[i] {
      assert s[1..][i] == s[i + 1];
    }
    assert u == v;
  }
}
