
/**
 * The decimal-string big integer: a sign and a string of decimal digits, with schoolbook
 * kernels on digit strings and sign-directed arithmetic on top of them.
 */
module BigInts {
  import opened Options
  import opened Arithmetic

  // ---------------------------------------------------------------- digit strings

  predicate IsDigit(c: char) { '0' <= c <= '9' }

  predicate IsDigits(s: string) { forall i :: 0 <= i < |s| ==> IsDigit(s[i]) }

  /** No superfluous leading zero: the form the constructor stores. */
  predicate Canonical(s: string) { IsDigits(s) && |s| >= 1 && (|s| > 1 ==> s[0] != '0') }

  /** `Char.digitToInt()`, also written `c.toInt() - '0'.toInt()`. */
  function DigitValue(c: char): (d: int)
    ensures IsDigit(c) ==> 0 <= d <= 9
  {
    c as int - '0' as int
  }

  /** The character `StringBuilder.append(d)` adds for a one-digit number `d`. */
  function DigitChar(d: int): (c: char)
    requires 0 <= d <= 9
    ensures IsDigit(c) && DigitValue(c) == d
  {
    ('0' as int + d) as char
  }

  /**
   * `d * 10^k`, written with multiplications by the constant 10 only, so that the positional
   * arithmetic of the kernels stays linear.
   */
  function Scale(d: int, k: nat): int
  {
    if k == 0 then d else 10 * Scale(d, k - 1)
  }

  function Pow10(k: nat): (p: int)
    ensures p >= 1
  {
    if k == 0 then 1 else 10 * Pow10(k - 1)
  }

  /** The number a digit string denotes, most significant digit first; the empty string denotes 0. */
  function Val(s: string): int
  {
    if s == [] then 0 else 10 * Val(s[..|s| - 1]) + DigitValue(s[|s| - 1])
  }

  /** `String.reversed()`. */
  function Reverse(s: string): (r: string)
    ensures |r| == |s|
    ensures IsDigits(s) ==> IsDigits(r)
  {
    if s == [] then [] else Reverse(s[1..]) + [s[0]]
  }

  lemma {:induction false} ReverseAt(s: string, i: int)
    requires 0 <= i < |s|
    ensures Reverse(s)[i] == s[|s| - 1 - i]
  {
    if i < |s| - 1 {
      ReverseAt(s[1..], i);
    }
  }

  lemma {:induction false} ReverseAppend(s: string, c: char)
    ensures Reverse(s + [c]) == [c] + Reverse(s)
  {
    if s != [] {
      assert (s + [c])[1..] == s[1..] + [c];
      ReverseAppend(s[1..], c);
    }
  }

  /** `String.padEnd(n, c)`: appends copies of `c` up to length `n`. */
  function PadEnd(s: string, n: nat, c: char): (r: string)
    ensures |r| == Max(|s|, n)
    ensures forall i :: 0 <= i < |s| ==> r[i] == s[i]
    ensures forall i :: |s| <= i < |r| ==> r[i] == c
  {
    if |s| >= n then s else s + seq(n - |s|, _ => c)
  }

  /** A padded digit reads like `getOrNull(i) ?: 0`. */
  lemma PadAt(x: string, n: nat, i: nat)
    requires i < n
    ensures DigitValue(PadEnd(x, n, '0')[i]) == DigitAt(x, i)
  {
  }

  /** `String.trimStart(c)`: drops the longest prefix made of `c` only. */
  function TrimStart(s: string, c: char): (r: string)
    ensures |r| <= |s| && r == s[|s| - |r|..]
    ensures forall i :: 0 <= i < |s| - |r| ==> s[i] == c
    ensures r == [] || r[0] != c
  {
    if s != [] && s[0] == c then TrimStart(s[1..], c) else s
  }


  lemma DigitsPush(s: string, d: int)
    requires IsDigits(s) && 0 <= d <= 9
    ensures IsDigits(s + [DigitChar(d)])
  {
  }

  /** `x.getOrNull(i)?.digitToInt() ?: 0`. */
  function DigitAt(x: string, i: nat): int
  {
    if i < |x| then DigitValue(x[i]) else 0
  }

  // ---------------------------------------------------------------- positional weights

  lemma {:induction false} ScaleAdd(x: int, y: int, k: nat)
    ensures Scale(x + y, k) == Scale(x, k) + Scale(y, k)
  {
    if k > 0 {
      ScaleAdd(x, y, k - 1);
    }
  }

  /** A column identity `x1 + x2 + x3 == y1 + 10 * y2` holds at every weight. */
  lemma {:induction false} ScaleColumn(x1: int, x2: int, x3: int, y1: int, y2: int, k: nat)
    requires x1 + x2 + x3 == y1 + 10 * y2
    ensures Scale(x1, k) + Scale(x2, k) + Scale(x3, k) == Scale(y1, k) + Scale(y2, k + 1)
  {
    if k > 0 {
      ScaleColumn(x1, x2, x3, y1, y2, k - 1);
    }
  }

  lemma {:induction false} ScaleMonotone(x: int, y: int, k: nat)
    requires x <= y
    ensures Scale(x, k) <= Scale(y, k)
  {
    if k > 0 {
      ScaleMonotone(x, y, k - 1);
    }
  }

  lemma {:induction false} PowMonotone(j: nat, k: nat)
    requires j <= k
    ensures 1 <= Pow10(j) <= Pow10(k)
  {
    if j < k {
      PowMonotone(j, k - 1);
    } else if j > 0 {
      PowMonotone(0, j);
    }
  }

  lemma {:induction false} ScaleZero(k: nat)
    ensures Scale(0, k) == 0
  {
    if k > 0 {
      ScaleZero(k - 1);
    }
  }

  lemma {:induction false} ScaleOne(k: nat)
    ensures Scale(1, k) == Pow10(k)
  {
    if k > 0 {
      ScaleOne(k - 1);
    }
  }

  // ---------------------------------------------------------------- facts about Val

  lemma {:induction false} ValPrepend(c: char, s: string)
    ensures Val([c] + s) == Scale(DigitValue(c), |s|) + Val(s)
  {
    if s != [] {
      var t := [c] + s;
      assert t[..|t| - 1] == [c] + s[..|s| - 1];
      ValPrepend(c, s[..|s| - 1]);
    }
  }

  lemma ValAppend(s: string, c: char)
    ensures Val(s + [c]) == 10 * Val(s) + DigitValue(c)
  {
    assert (s + [c])[..|s|] == s;
  }

  lemma {:induction false} ValBound(s: string)
    requires IsDigits(s)
    ensures 0 <= Val(s) < Pow10(|s|)
  {
    if s != [] {
      ValBound(s[..|s| - 1]);
    }
  }

  /** A string whose first digit is not zero is at least `10^(|s|-1)`. */
  lemma LeadingDigit(s: string)
    requires IsDigits(s) && |s| >= 1 && s[0] != '0'
    ensures Val(s) >= Pow10(|s| - 1)
  {
    assert s == [s[0]] + s[1..];
    ValPrepend(s[0], s[1..]);
    ValBound(s[1..]);
    ScaleMonotone(1, DigitValue(s[0]), |s| - 1);
    ScaleOne(|s| - 1);
  }

  /** `LeadingDigit` with the length given separately. */
  lemma LeadingDigitAt(s: string, n: nat)
    requires IsDigits(s) && |s| == n >= 1 && s[0] != '0'
    ensures Val(s) >= Pow10(n - 1)
  {
    LeadingDigit(s);
  }

  /** Leading zeros add nothing. */
  lemma {:induction false} ValLeadingZeros(s: string, k: nat)
    requires k <= |s|
    requires forall i :: 0 <= i < k ==> s[i] == '0'
    ensures Val(s) == Val(s[k..])
  {
    if k > 0 {
      assert s == [s[0]] + s[1..];
      ValPrepend(s[0], s[1..]);
      ScaleZero(|s| - 1);
      assert s[1..][k - 1..] == s[k..];
      ValLeadingZeros(s[1..], k - 1);
    }
  }

  /** `trimStart('0')` keeps the value and removes every leading zero. */
  lemma TrimZeros(s: string)
    requires IsDigits(s)
    ensures var t := TrimStart(s, '0'); IsDigits(t) && Val(t) == Val(s)
    ensures var t := TrimStart(s, '0'); t == [] || Canonical(t)
  {
    var t := TrimStart(s, '0');
    ValLeadingZeros(s, |s| - |t|);
  }

  /** The only canonical string of value 0 is "0". */
  lemma CanonicalZero(s: string)
    requires Canonical(s) && Val(s) == 0
    ensures s == "0"
  {
    if |s| > 1 {
      LeadingDigit(s);
    } else {
      assert s == [] + [s[0]];
    }
  }

  /** Growing a reversed (units-first) string by one digit adds that digit at weight `10^|sb|`. */
  lemma ReversedPush(sb: string, c: char)
    ensures Val(Reverse(sb + [c])) == Scale(DigitValue(c), |sb|) + Val(Reverse(sb))
  {
    ReverseAppend(sb, c);
    ValPrepend(c, Reverse(sb));
  }

  /** The low `i` digits of `s` (all of `s` once `i >= |s|`). */
  function Low(s: string, i: nat): string
  {
    if i < |s| then s[|s| - i..] else s
  }

  /** The `i`-th digit of `s` counted from the units, or 0 past its length: `reversed().getOrNull(i)?.digitToInt() ?: 0`. */
  function LowDigit(s: string, i: nat): (d: int)
    ensures IsDigits(s) ==> 0 <= d <= 9
  {
    if i < |s| then DigitValue(s[|s| - 1 - i]) else 0
  }

  lemma DigitAtReverse(s: string, i: nat)
    ensures DigitAt(Reverse(s), i) == LowDigit(s, i)
  {
    if i < |s| {
      ReverseAt(s, i);
    }
  }

  /** One more low digit of `s`: `LowDigit(s, i)` at weight `10^i`. */
  lemma LowStep(s: string, i: nat)
    ensures Val(Low(s, i + 1)) == Val(Low(s, i)) + Scale(LowDigit(s, i), i)
  {
    if i < |s| {
      var c := s[|s| - 1 - i];
      assert |Low(s, i)| == i;
      assert Low(s, i + 1) == [c] + Low(s, i);
      ValPrepend(c, Low(s, i));
    } else {
      assert Low(s, i + 1) == Low(s, i);
      ScaleZero(i);
    }
  }

  /** One column of `addStrings`: digit `c` and carry `carry'` out satisfy `c + 10 * carry' == da + db + carry`. */
  lemma AddColumn(a: string, b: string, sb: string, carry: int, c: char, carry': int)
    requires Val(Reverse(sb)) + Scale(carry, |sb|) == Val(Low(a, |sb|)) + Val(Low(b, |sb|))
    requires DigitValue(c) + 10 * carry' == LowDigit(a, |sb|) + LowDigit(b, |sb|) + carry
    ensures Val(Reverse(sb + [c])) + Scale(carry', |sb| + 1) == Val(Low(a, |sb| + 1)) + Val(Low(b, |sb| + 1))
  {
    var i := |sb|;
    var v, v' := Val(Reverse(sb)), Val(Reverse(sb + [c]));
    var la, la', lb, lb' := Val(Low(a, i)), Val(Low(a, i + 1)), Val(Low(b, i)), Val(Low(b, i + 1));
    var sd, sda, sdb := Scale(DigitValue(c), i), Scale(LowDigit(a, i), i), Scale(LowDigit(b, i), i);
    var sc, sc' := Scale(carry, i), Scale(carry', i + 1);
    assert v' == sd + v by { ReversedPush(sb, c); }
    assert la' == la + sda by { LowStep(a, i); }
    assert lb' == lb + sdb by { LowStep(b, i); }
    assert sda + sdb + sc == sd + sc' by { ScaleColumn(LowDigit(a, i), LowDigit(b, i), carry, DigitValue(c), carry', i); }
    AddStepArith(v, v', la, la', lb, lb', sd, sda, sdb, sc, sc');
  }

  /** The linear step behind `AddColumn`, stated over plain integers so that no case split of the column functions is in scope. */
  lemma AddStepArith(v: int, v': int, la: int, la': int, lb: int, lb': int, sd: int, sda: int, sdb: int, sc: int, sc': int)
    requires v' == sd + v && la' == la + sda && lb' == lb + sdb
    requires sda + sdb + sc == sd + sc' && v + sc == la + lb
    ensures v' + sc' == la' + lb'
  {
  }

  /** One column of `subtractStrings`: `c - 10 * borrow' == da - db - borrow`. */
  lemma SubtractColumn(a: string, b: string, sb: string, borrow: int, c: char, borrow': int)
    requires Val(Reverse(sb)) + Val(Low(b, |sb|)) == Val(Low(a, |sb|)) + Scale(borrow, |sb|)
    requires DigitValue(c) + LowDigit(b, |sb|) + borrow == LowDigit(a, |sb|) + 10 * borrow'
    ensures Val(Reverse(sb + [c])) + Val(Low(b, |sb| + 1)) == Val(Low(a, |sb| + 1)) + Scale(borrow', |sb| + 1)
  {
    var i := |sb|;
    var v, v' := Val(Reverse(sb)), Val(Reverse(sb + [c]));
    var la, la', lb, lb' := Val(Low(a, i)), Val(Low(a, i + 1)), Val(Low(b, i)), Val(Low(b, i + 1));
    var sd, sda, sdb := Scale(DigitValue(c), i), Scale(LowDigit(a, i), i), Scale(LowDigit(b, i), i);
    var sw, sw' := Scale(borrow, i), Scale(borrow', i + 1);
    assert v' == sd + v by { ReversedPush(sb, c); }
    assert la' == la + sda by { LowStep(a, i); }
    assert lb' == lb + sdb by { LowStep(b, i); }
    assert sd + sdb + sw == sda + sw' by { ScaleColumn(DigitValue(c), LowDigit(b, i), borrow, LowDigit(a, i), borrow', i); }
    SubtractStepArith(v, v', la, la', lb, lb', sd, sda, sdb, sw, sw');
  }

  /** The linear step behind `SubtractColumn`. */
  lemma SubtractStepArith(v: int, v': int, la: int, la': int, lb: int, lb': int, sd: int, sda: int, sdb: int, sb: int, sb': int)
    requires v' == sd + v && la' == la + sda && lb' == lb + sdb
    requires sd + sdb + sb == sda + sb' && v + lb == la + sb
    ensures v' + lb' == la' + sb'
  {
  }

  function Max(a: int, b: int): int { if a >= b then a else b }

  // ---------------------------------------------------------------- kernels

  /** The digit loop of `addStrings`: reversed sum digits and the carry out of the last column. */
  method AddDigits(a: string, b: string) returns (sb: string, carry: int)
    requires IsDigits(a) && IsDigits(b)
    ensures |sb| == Max(|a|, |b|) && IsDigits(sb) && 0 <= carry <= 1
    ensures Val(Reverse(sb)) + Scale(carry, |sb|) == Val(a) + Val(b)
  {
    sb, carry := [], 0;
    var x, y := Reverse(a), Reverse(b);
    var maxLen := Max(|x|, |y|);
    for i := 0 to maxLen
      invariant |sb| == i && IsDigits(sb)
      invariant 0 <= carry <= 1
      invariant Val(Reverse(sb)) + Scale(carry, i) == Val(Low(a, i)) + Val(Low(b, i))
    {
      var sum := DigitAt(x, i) + DigitAt(y, i) + carry;
      assert DigitAt(x, i) == LowDigit(a, i) && DigitAt(y, i) == LowDigit(b, i) by {
        DigitAtReverse(a, i);
        DigitAtReverse(b, i);
      }
      assert 0 <= sum % 10 <= 9 && 0 <= sum / 10 <= 1 && sum % 10 + 10 * (sum / 10) == sum by { DivMod10(sum, 2); }
      AddColumn(a, b, sb, carry, DigitChar(sum % 10), sum / 10);
      assert IsDigits(sb + [DigitChar(sum % 10)]) by { DigitsPush(sb, sum % 10); }
      sb := sb + [DigitChar(sum % 10)];
      carry := sum / 10;
    }
    assert Low(a, maxLen) == a && Low(b, maxLen) == b;
  }

  /** `addStrings`: column addition with carry; a final carry becomes one more leading digit. */
  method AddStrings(a: string, b: string) returns (r: string)
    requires IsDigits(a) && IsDigits(b)
    ensures IsDigits(r) && Val(r) == Val(a) + Val(b)
    ensures Max(|a|, |b|) <= |r| <= Max(|a|, |b|) + 1
    ensures Canonical(a) && Canonical(b) ==> Canonical(r)
  {
    var sb, carry := AddDigits(a, b);
    if carry > 0 {
      ReversedPush(sb, DigitChar(carry));
      DigitsPush(sb, carry);
      ReverseAppend(sb, DigitChar(carry));
      sb := sb + [DigitChar(carry)];
      r := Reverse(sb);
    } else {
      ScaleZero(|sb|);
      r := Reverse(sb);
      if Canonical(a) && Canonical(b) {
        SumCanonical(a, b, r);
      }
    }
  }

  /** A digit string whose value reaches the weight of its first column has no leading zero. */
  lemma LeadingNonzero(s: string)
    requires IsDigits(s) && |s| >= 1 && Val(s) >= Pow10(|s| - 1)
    ensures s[0] != '0'
  {
    assert s == [s[0]] + s[1..];
    ValPrepend(s[0], s[1..]);
    ValBound(s[1..]);
    ScaleZero(|s| - 1);
  }


  /** Without a final carry the sum of canonical strings is as long as the longer one, and canonical. */
  lemma SumCanonical(a: string, b: string, r: string)
    requires Canonical(a) && Canonical(b) && IsDigits(r) && |r| == Max(|a|, |b|)
    requires Val(r) == Val(a) + Val(b)
    ensures Canonical(r)
  {
    if |r| > 1 {
      var n := |r|;
      var longer := if |a| >= |b| then a else b;
      var shorter := if |a| >= |b| then b else a;
      assert Val(longer) >= Pow10(n - 1) by { LeadingDigitAt(longer, n); }
      assert Val(shorter) >= 0 by { ValBound(shorter); }
      LeadingNonzero(r);
    }
  }


  /**
   * The digit loop of `subtractStrings`: the reversed digits it appends and the borrow left after the last
   * column, with `Val(a) - Val(b)` recovered from them.
   */
  method SubtractDigits(a: string, b: string) returns (sb: string, borrow: int)
    requires IsDigits(a) && IsDigits(b)
    ensures |sb| == Max(|a|, |b|) && IsDigits(sb) && 0 <= borrow <= 1
    ensures Val(Reverse(sb)) + Val(b) == Val(a) + Scale(borrow, |sb|)
  {
    sb, borrow := [], 0;
    var x, y := Reverse(a), Reverse(b);
    var maxLen := Max(|x|, |y|);
    var paddedX := PadEnd(x, maxLen, '0');
    var paddedY := PadEnd(y, maxLen, '0');
    for i := 0 to maxLen
      invariant |sb| == i && IsDigits(sb)
      invariant 0 <= borrow <= 1
      invariant Val(Reverse(sb)) + Val(Low(b, i)) == Val(Low(a, i)) + Scale(borrow, i)
    {
      assert DigitValue(paddedX[i]) == LowDigit(a, i) && DigitValue(paddedY[i]) == LowDigit(b, i) by {
        PadAt(x, maxLen, i);
        PadAt(y, maxLen, i);
        DigitAtReverse(a, i);
        DigitAtReverse(b, i);
      }
      var diff := DigitValue(paddedX[i]) - DigitValue(paddedY[i]) - borrow;
      var borrow' := 0;
      if diff < 0 {
        diff := diff + 10;
        borrow' := 1;
      }
      SubtractColumn(a, b, sb, borrow, DigitChar(diff), borrow');
      assert IsDigits(sb + [DigitChar(diff)]) by { DigitsPush(sb, diff); }
      borrow := borrow';
      sb := sb + [DigitChar(diff)];
    }
    assert Low(a, maxLen) == a && Low(b, maxLen) == b;
  }

  /**
   * `subtractStrings`: column subtraction with borrow, leading zeros trimmed. For `a >= b` this is the
   * difference; otherwise the final borrow is dropped and the result is the difference plus `10^max(|a|, |b|)`.
   */
  method SubtractStrings(a: string, b: string) returns (r: string)
    requires IsDigits(a) && IsDigits(b)
    ensures Canonical(r)
    ensures Val(a) >= Val(b) ==> Val(r) == Val(a) - Val(b)
    ensures Val(a) < Val(b) ==> Val(r) == Pow10(Max(|a|, |b|)) + Val(a) - Val(b)
  {
    var sb, borrow := SubtractDigits(a, b);
    var result := TrimStart(Reverse(sb), '0');
    TrimZeros(Reverse(sb));
    r := if result == [] then "0" else result;
    SubtractResult(a, b, Reverse(sb), borrow);
  }

  lemma SubtractResult(a: string, b: string, s: string, borrow: int)
    requires IsDigits(a) && IsDigits(b) && IsDigits(s) && |s| == Max(|a|, |b|)
    requires 0 <= borrow <= 1 && Val(s) + Val(b) == Val(a) + Scale(borrow, |s|)
    ensures Val(a) >= Val(b) ==> Val(s) == Val(a) - Val(b)
    ensures Val(a) < Val(b) ==> Val(s) == Pow10(|s|) + Val(a) - Val(b)
  {
    ValBound(s);
    ScaleZero(|s|);
    ScaleOne(|s|);
    BorrowOut(Val(s), Val(a), Val(b), Pow10(|s|), Scale(borrow, |s|), borrow);
  }

  /** The final borrow decides between the difference and its wrap-around. */
  lemma BorrowOut(v: int, va: int, vb: int, p: int, sc: int, borrow: int)
    requires 0 <= v < p && 0 <= borrow <= 1 && v + vb == va + sc
    requires borrow == 0 ==> sc == 0
    requires borrow == 1 ==> sc == p
    ensures va >= vb ==> v == va - vb
    ensures va < vb ==> v == p + va - vb
  {
  }

  // ---------------------------------------------------------------- comparison

  /**
   * Kotlin's `String.compareTo`: the difference of the first two characters that differ, or the
   * difference of the lengths when one string is a prefix of the other.
   */
  function LexCompare(a: string, b: string): int
  {
    if a == [] || b == [] then |a| - |b|
    else if a[0] != b[0] then a[0] as int - b[0] as int
    else LexCompare(a[1..], b[1..])
  }

  /** `compareStrings`: the longer string is larger; strings of one length compare lexicographically. */
  function CompareStrings(a: string, b: string): int
  {
    if |a| > |b| then 1 else if |a| < |b| then -1 else LexCompare(a, b)
  }

  /** A smaller leading digit decides the order of two digit strings of one length. */
  lemma LeadingDecides(a: string, b: string)
    requires IsDigits(a) && IsDigits(b) && |a| == |b| >= 1
    requires DigitValue(a[0]) < DigitValue(b[0])
    ensures Val(a) < Val(b)
  {
    var k := |a| - 1;
    assert a == [a[0]] + a[1..] && b == [b[0]] + b[1..];
    ValPrepend(a[0], a[1..]);
    ValPrepend(b[0], b[1..]);
    ValBound(a[1..]);
    ValBound(b[1..]);
    ScaleAdd(DigitValue(a[0]), 1, k);
    ScaleOne(k);
    ScaleMonotone(DigitValue(a[0]) + 1, DigitValue(b[0]), k);
  }

  /** On digit strings of one length the lexicographic order is the numeric order. */
  lemma {:induction false} LexCompareDigits(a: string, b: string)
    requires IsDigits(a) && IsDigits(b) && |a| == |b|
    ensures LexCompare(a, b) == 0 <==> a == b
    ensures LexCompare(a, b) < 0 <==> Val(a) < Val(b)
    ensures LexCompare(a, b) > 0 <==> Val(a) > Val(b)
  {
    if a != [] {
      if a[0] != b[0] {
        if a[0] < b[0] {
          LeadingDecides(a, b);
        } else {
          LeadingDecides(b, a);
        }
      } else {
        LexCompareDigits(a[1..], b[1..]);
        assert a == [a[0]] + a[1..] && b == [b[0]] + b[1..];
        ValPrepend(a[0], a[1..]);
        ValPrepend(b[0], b[1..]);
      }
    }
  }

  /** A longer canonical digit string denotes a larger number. */
  lemma LongerLarger(a: string, b: string)
    requires Canonical(a) && Canonical(b) && |a| > |b|
    ensures Val(a) > Val(b)
  {
    LeadingDigit(a);
    ValBound(b);
    PowMonotone(|b|, |a| - 1);
  }

  /** `compareStrings` orders canonical digit strings by value, and answers 0 exactly for equal strings. */
  lemma CompareStringsValue(a: string, b: string)
    requires Canonical(a) && Canonical(b)
    ensures CompareStrings(a, b) == 0 <==> a == b
    ensures CompareStrings(a, b) < 0 <==> Val(a) < Val(b)
    ensures CompareStrings(a, b) > 0 <==> Val(a) > Val(b)
  {
    if |a| > |b| {
      LongerLarger(a, b);
    } else if |a| < |b| {
      LongerLarger(b, a);
    } else {
      LexCompareDigits(a, b);
    }
  }

  /** A canonical digit string other than "0" denotes a positive number. */
  lemma NonzeroValue(b: string)
    requires Canonical(b) && b != "0"
    ensures Val(b) >= 1
  {
    LeadingDigit(b);
  }

  /**
   * The remainders of `divideStrings` are empty or canonical; against a canonical divisor other than "0"
   * `compareStrings` then decides `>=` by value, and the empty remainder always compares below.
   */
  lemma CompareRemainder(r: string, b: string)
    requires (r == [] || Canonical(r)) && Canonical(b) && b != "0"
    ensures CompareStrings(r, b) >= 0 <==> Val(r) >= Val(b)
    ensures CompareStrings(r, b) >= 0 ==> Canonical(r)
  {
    NonzeroValue(b);
    if r != [] {
      CompareStringsValue(r, b);
    }
  }

  // ---------------------------------------------------------------- multiplication

  /** The number an `IntArray` of column values denotes, most significant column first. */
  function Cells(s: seq<int>): int
  {
    if s == [] then 0 else 10 * Cells(s[..|s| - 1]) + s[|s| - 1]
  }

  predicate DigitCells(s: seq<int>) { forall k :: 0 <= k < |s| ==> 0 <= s[k] <= 9 }

  /** The first `n` columns are still 0. */
  predicate ZeroPrefix(s: seq<int>, n: int) { forall k :: 0 <= k < n && k < |s| ==> s[k] == 0 }

  /** `joinToString("")` of columns that each hold one digit. */
  function JoinDigits(s: seq<int>): (r: string)
    requires DigitCells(s)
    ensures |r| == |s| && IsDigits(r)
  {
    if s == [] then [] else JoinDigits(s[..|s| - 1]) + [DigitChar(s[|s| - 1])]
  }

  lemma {:induction false} JoinValue(s: seq<int>)
    requires DigitCells(s)
    ensures Val(JoinDigits(s)) == Cells(s)
  {
    if s != [] {
      var r := JoinDigits(s);
      assert r[..|r| - 1] == JoinDigits(s[..|s| - 1]);
      JoinValue(s[..|s| - 1]);
    }
  }

  /** Changing column `p` changes the value by the difference at that column's weight. */
  lemma {:induction false} CellsUpdate(s: seq<int>, p: int, x: int)
    requires 0 <= p < |s|
    ensures Cells(s[p := x]) == Cells(s) + Scale(x - s[p], |s| - 1 - p)
  {
    var t := s[p := x];
    if p == |s| - 1 {
      assert t[..|t| - 1] == s[..|s| - 1];
    } else {
      assert t[..|t| - 1] == s[..|s| - 1][p := x];
      CellsUpdate(s[..|s| - 1], p, x);
    }
  }

  lemma {:induction false} CellsZero(n: nat)
    ensures Cells(seq(n, _ => 0)) == 0
  {
    if n > 0 {
      assert seq(n, _ => 0)[..n - 1] == seq(n - 1, _ => 0);
      CellsZero(n - 1);
    }
  }

  lemma {:induction false} ScaleMul(d: int, x: int, k: nat)
    ensures Scale(d * x, k) == d * Scale(x, k)
  {
    if k > 0 {
      ScaleMul(d, x, k - 1);
      assert d * (10 * Scale(x, k - 1)) == 10 * (d * Scale(x, k - 1));
    }
  }

  lemma {:induction false} ScaleShift(x: int, m: nat, k: nat)
    ensures Scale(Scale(x, m), k) == Scale(x, m + k)
  {
    if k > 0 {
      ScaleShift(x, m, k - 1);
    }
  }

  lemma DigitProduct(x: int, y: int)
    requires 0 <= x <= 9 && 0 <= y <= 9
    ensures 0 <= x * y <= 81
  {
    assert x * y <= 9 * y;
  }

  /** Column division: the digit `n % 10` stays and `n / 10` is carried. */
  lemma DivMod10(n: int, hi: int)
    requires 0 <= n < 10 * hi
    ensures 0 <= n % 10 <= 9 && 0 <= n / 10 < hi && n % 10 + 10 * (n / 10) == n
  {
  }

  /**
   * One step of the inner loop of `multiplyStrings`: column `p` keeps the digit `dig` and column `p - 1`
   * receives the carry `q` of `prod + s[p] == dig + 10 * q`, which adds `prod` at column `p`'s weight.
   */
  lemma MultiplyCell(s: seq<int>, p: int, prod: int, dig: int, q: int)
    requires 1 <= p < |s| && dig + 10 * q == prod + s[p]
    ensures Cells(s[p := dig][p - 1 := s[p - 1] + q]) == Cells(s) + Scale(prod, |s| - 1 - p)
  {
    var k := |s| - 1 - p;
    CellsUpdate(s, p, dig);
    CellsUpdate(s[p := dig], p - 1, s[p - 1] + q);
    ScaleAdd(dig - s[p], 10 * q, k);
    ScaleMul(10, q, k);
  }

  /**
   * The column bounds of the inner loop of `multiplyStrings` before the step for `b[j]`: every column
   * but `p = i + j + 1` holds one digit, column `p` holds at most 18 (one digit once the row is done),
   * and no column left of `p` at or before `i` has been touched.
   */
  predicate RowColumns(s: seq<int>, i: int, j: int)
  {
    var p := i + j + 1;
    0 <= i <= p < |s| &&
    (forall k :: 0 <= k < |s| && k != p ==> 0 <= s[k] <= 9) &&
    0 <= s[p] <= (if j < 0 then 9 else 18) &&
    (forall k :: 0 <= k <= i && k < p ==> s[k] == 0)
  }

  /** The column bounds survive a step: the product of two digits plus at most 18 carries at most 9. */
  lemma RowColumnsStep(s: seq<int>, i: int, j: int, prod: int, dig: int, q: int)
    requires RowColumns(s, i, j) && j >= 0
    requires 0 <= prod <= 81 && 0 <= dig <= 9 && 0 <= q && dig + 10 * q == prod + s[i + j + 1]
    ensures RowColumns(s[i + j + 1 := dig][i + j := s[i + j] + q], i, j - 1)
  {
  }

  lemma RowColumnsStart(s: seq<int>, i: int, n: nat)
    requires 0 <= i && i + n < |s| && DigitCells(s) && ZeroPrefix(s, i + 1)
    ensures RowColumns(s, i, n - 1)
  {
  }

  lemma RowColumnsEnd(s: seq<int>, i: int)
    requires RowColumns(s, i, -1)
    ensures DigitCells(s) && ZeroPrefix(s, i)
  {
  }

  /** The partial product of digit `d` with `b[j..]` grows by `d * b[j]` at its column's weight. */
  lemma RowStep(b: string, j: int, d: int, k: nat)
    requires 0 <= j < |b|
    ensures Scale(d * Val(b[j..]), k) == Scale(d * Val(b[j + 1..]), k) + Scale(d * DigitValue(b[j]), |b| - 1 - j + k)
  {
    var m := |b| - 1 - j;
    var v, v', sd := Val(b[j..]), Val(b[j + 1..]), Scale(DigitValue(b[j]), m);
    assert v == sd + v' by {
      assert b[j..] == [b[j]] + b[j + 1..];
      ValPrepend(b[j], b[j + 1..]);
    }
    Distribute(d, sd, v');
    ScaleMul(d, DigitValue(b[j]), m);
    ScaleShift(d * DigitValue(b[j]), m, k);
    ScaleAdd(d * sd, d * v', k);
  }

  lemma Distribute(d: int, x: int, y: int)
    ensures d * (x + y) == d * x + d * y
  {
  }

  /** A finished row adds digit `a[i]` times `b` at the weight of `a[i]`. */
  lemma RowValue(a: string, b: string, i: int)
    requires 0 <= i < |a|
    ensures Val(a[i..]) * Val(b) == Val(a[i + 1..]) * Val(b) + Scale(DigitValue(a[i]) * Val(b), |a| - 1 - i)
  {
    var k := |a| - 1 - i;
    var sd := Scale(DigitValue(a[i]), k);
    assert Val(a[i..]) == sd + Val(a[i + 1..]) by {
      assert a[i..] == [a[i]] + a[i + 1..];
      ValPrepend(a[i], a[i + 1..]);
    }
    assert Scale(DigitValue(a[i]) * Val(b), k) == sd * Val(b) by { ScaleMulRight(DigitValue(a[i]), Val(b), k); }
    DistributeRight(Val(a[i..]), sd, Val(a[i + 1..]), Val(b));
  }

  lemma DistributeRight(v: int, x: int, y: int, d: int)
    requires v == x + y
    ensures v * d == y * d + x * d
  {
  }

  lemma {:induction false} ScaleMulRight(x: int, d: int, k: nat)
    ensures Scale(x * d, k) == Scale(x, k) * d
  {
    if k > 0 {
      ScaleMulRight(x, d, k - 1);
      assert (10 * Scale(x, k - 1)) * d == 10 * (Scale(x, k - 1) * d);
    }
  }

  /**
   * The inner loop of `multiplyStrings` for digit `a[i]`: it adds `a[i] * b` at the weight of `a[i]`,
   * leaves every column a single digit and touches no column left of `i`.
   */
  method MultiplyRow(a: string, b: string, result: array<int>, i: int)
    requires IsDigits(a) && IsDigits(b) && 0 <= i < |a| && result.Length == |a| + |b|
    requires DigitCells(result[..]) && ZeroPrefix(result[..], i + 1)
    modifies result
    ensures DigitCells(result[..]) && ZeroPrefix(result[..], i)
    ensures Cells(result[..]) == old(Cells(result[..])) + Scale(DigitValue(a[i]) * Val(b), |a| - 1 - i)
  {
    ghost var start := Cells(result[..]);
    var j := |b| - 1;
    RowColumnsStart(result[..], i, |b|);
    assert Val(b[|b|..]) == 0 by { assert b[|b|..] == []; }
    ScaleZero(|a| - 1 - i);
    while j >= 0
      invariant -1 <= j < |b| && RowColumns(result[..], i, j)
      invariant Cells(result[..]) == start + Scale(DigitValue(a[i]) * Val(b[j + 1..]), |a| - 1 - i)
    {
      MultiplyStep(a, b, result, i, j);
      RowStep(b, j, DigitValue(a[i]), |a| - 1 - i);
      j := j - 1;
    }
    RowColumnsEnd(result[..], i);
    assert b[0..] == b;
  }

  /**
   * The body of the inner loop of `multiplyStrings`: `a[i] * b[j]` plus column `i + j + 1` leaves its
   * last digit there and carries the rest into column `i + j`.
   */
  method MultiplyStep(a: string, b: string, result: array<int>, i: int, j: int)
    requires IsDigits(a) && IsDigits(b) && 0 <= i < |a| && 0 <= j < |b| && result.Length == |a| + |b|
    requires RowColumns(result[..], i, j)
    modifies result
    ensures RowColumns(result[..], i, j - 1)
    ensures Cells(result[..]) == old(Cells(result[..])) + Scale(DigitValue(a[i]) * DigitValue(b[j]), |a| + |b| - 2 - i - j)
  {
    ghost var s := result[..];
    var p := i + j + 1;
    ghost var prod := DigitValue(a[i]) * DigitValue(b[j]);
    assert 0 <= prod <= 81 by { DigitProduct(DigitValue(a[i]), DigitValue(b[j])); }
    var mul := DigitValue(a[i]) * DigitValue(b[j]) + result[p];
    assert 0 <= mul % 10 <= 9 && 0 <= mul / 10 < 10 && mul % 10 + 10 * (mul / 10) == mul by { DivMod10(mul, 10); }
    result[p] := mul % 10;
    result[p - 1] := result[p - 1] + mul / 10;
    assert result[..] == s[p := mul % 10][p - 1 := s[p - 1] + mul / 10];
    RowColumnsStep(s, i, j, prod, mul % 10, mul / 10);
    MultiplyCell(s, p, prod, mul % 10, mul / 10);
  }

  /** `joinToString("").trimStart('0').ifEmpty { "0" }` on columns of single digits: their canonical digit string. */
  function JoinTrimmed(s: seq<int>): (r: string)
    requires DigitCells(s)
    ensures Canonical(r) && Val(r) == Cells(s)
  {
    JoinValue(s);
    TrimZeros(JoinDigits(s));
    var trimmed := TrimStart(JoinDigits(s), '0');
    if trimmed == [] then "0" else trimmed
  }

  /** The rows `a[t..]` contribute to the product: digit `a[i]` times `b`, at the weight of `a[i]`. */
  function RowsValue(a: string, b: string, t: nat): int
    decreases |a| - t
  {
    if t >= |a| then 0 else RowsValue(a, b, t + 1) + Scale(DigitValue(a[t]) * Val(b), |a| - 1 - t)
  }

  /** The rows of `a[t..]` add up to `Val(a[t..]) * Val(b)`. */
  lemma {:induction false} RowsProduct(a: string, b: string, t: nat)
    requires t <= |a|
    ensures RowsValue(a, b, t) == Val(a[t..]) * Val(b)
    decreases |a| - t
  {
    if t < |a| {
      RowsProduct(a, b, t + 1);
      RowValue(a, b, t);
    } else {
      assert a[t..] == [];
    }
  }

  /** The nested loops of `multiplyStrings`: the columns of the product, one digit each. */
  method MultiplyColumns(a: string, b: string) returns (result: array<int>)
    requires IsDigits(a) && IsDigits(b)
    ensures fresh(result) && DigitCells(result[..]) && Cells(result[..]) == Val(a) * Val(b)
  {
    result := new int[|a| + |b|](_ => 0);
    assert DigitCells(result[..]) && Cells(result[..]) == 0 by {
      assert result[..] == seq(|a| + |b|, _ => 0);
      CellsZero(|a| + |b|);
    }
    var i := |a| - 1;
    while i >= 0
      invariant -1 <= i < |a| && result.Length == |a| + |b|
      invariant DigitCells(result[..]) && ZeroPrefix(result[..], i + 1)
      invariant Cells(result[..]) == RowsValue(a, b, i + 1)
    {
      MultiplyRow(a, b, result, i);
      i := i - 1;
    }
    assert Cells(result[..]) == Val(a) * Val(b) by {
      RowsProduct(a, b, 0);
      assert a[0..] == a;
    }
  }

  /** `multiplyStrings`: schoolbook multiplication into an array of columns, joined and trimmed. */
  method MultiplyStrings(a: string, b: string) returns (r: string)
    requires IsDigits(a) && IsDigits(b)
    ensures Canonical(r) && Val(r) == Val(a) * Val(b)
    ensures Val(a) == 0 || Val(b) == 0 ==> r == "0"
  {
    var result := MultiplyColumns(a, b);
    r := JoinTrimmed(result[..]);
    NonzeroValueIf(r);
  }

  // ---------------------------------------------------------------- division

  /** `count` copies of `v` added up: what `count` successful subtractions of `v` remove. */
  function Repeated(count: nat, v: int): int
  {
    if count == 0 then 0 else Repeated(count - 1, v) + v
  }

  lemma {:induction false} RepeatedMul(count: nat, v: int)
    ensures Repeated(count, v) == count * v
  {
    if count > 0 {
      RepeatedMul(count - 1, v);
      assert (count - 1) * v + v == count * v;
    }
  }

  /**
   * The inner loop of `divideStrings`: subtracts `b` while the remainder compares at least `b`,
   * counting the subtractions.
   */
  method SubtractWhileFits(start: string, b: string) returns (remainder: string, count: nat)
    requires (start == [] || Canonical(start)) && Canonical(b) && b != "0"
    ensures (remainder == [] || Canonical(remainder)) && 0 <= Val(remainder) < Val(b)
    ensures Val(start) == Repeated(count, Val(b)) + Val(remainder)
  {
    NonzeroValue(b);
    remainder, count := start, 0;
    ValBound(remainder);
    while CompareStrings(remainder, b) >= 0
      invariant (remainder == [] || Canonical(remainder)) && 0 <= Val(remainder)
      invariant Val(start) == Repeated(count, Val(b)) + Val(remainder)
      decreases Val(remainder)
    {
      CompareRemainder(remainder, b);
      var newRemainder := SubtractStrings(remainder, b);
      if newRemainder == remainder {
        // unreachable: each subtraction lowers the value by Val(b) >= 1
        assert false;
        break;
      }
      remainder := newRemainder;
      count := count + 1;
      ValBound(remainder);
    }
    CompareRemainder(remainder, b);
  }

  /** Appending one digit keeps a digit string. */
  lemma DigitsAppend(s: string, c: char)
    requires IsDigits(s) && IsDigit(c)
    ensures IsDigits(s + [c])
  {
  }

  /** At most nine subtractions fit, since the remainder before the digit was below the divisor. */
  lemma CountBound(count: nat, vb: int, vr: int, d: int, vr2: int)
    requires 0 <= vr < vb && 0 <= d <= 9 && 0 <= vr2 && count * vb + vr2 == 10 * vr + d
    ensures count <= 9
  {
    if count >= 10 {
      MulMonotone(10, count, vb);
    }
  }

  lemma MulMonotone(x: int, y: int, v: int)
    requires x <= y && v >= 0
    ensures x * v <= y * v
  {
    assert y * v == x * v + (y - x) * v;
  }

  /** The quotient digit `count` keeps `a[..t] == quotient * b + remainder` for one more digit of `a`. */
  lemma DivideArith(va: int, vq: int, vb: int, vr: int, d: int, count: int, vr2: int)
    requires va == vq * vb + vr && 10 * vr + d == count * vb + vr2
    ensures 10 * va + d == (10 * vq + count) * vb + vr2
  {
    assert (10 * vq + count) * vb == 10 * (vq * vb) + count * vb;
  }

  /**
   * The body of the loop of `divideStrings` for one digit `c` of the dividend: brings `c` down into the
   * remainder, trims its leading zeros and subtracts the divisor as often as it fits.
   */
  method DivideDigit(start: string, c: char, b: string) returns (remainder: string, count: nat)
    requires (start == [] || Canonical(start)) && 0 <= Val(start) < Val(b)
    requires IsDigit(c) && Canonical(b) && b != "0"
    ensures (remainder == [] || Canonical(remainder)) && 0 <= Val(remainder) < Val(b) && count <= 9
    ensures 10 * Val(start) + DigitValue(c) == count * Val(b) + Val(remainder)
  {
    assert IsDigits(start + [c]) by { DigitsAppend(start, c); }
    remainder := start + [c];
    remainder := TrimStart(remainder, '0');
    TrimZeros(start + [c]);
    assert Val(remainder) == 10 * Val(start) + DigitValue(c) by { ValAppend(start, c); }
    ghost var brought := remainder;
    remainder, count := SubtractWhileFits(remainder, b);
    assert Val(brought) == count * Val(b) + Val(remainder) by { RepeatedMul(count, Val(b)); }
    CountBound(count, Val(b), Val(start), DigitValue(c), Val(remainder));
  }

  /** The loop of `divideStrings`: one quotient digit per digit of `a`, and the final remainder. */
  method LongDivision(a: string, b: string) returns (quotient: string, remainder: string)
    requires IsDigits(a) && Canonical(b) && b != "0"
    ensures IsDigits(quotient) && (remainder == [] || Canonical(remainder))
    ensures Val(a) == Val(quotient) * Val(b) + Val(remainder) && 0 <= Val(remainder) < Val(b)
  {
    NonzeroValue(b);
    remainder, quotient := "", "";
    assert a[..0] == [];
    for t := 0 to |a|
      invariant IsDigits(quotient) && (remainder == [] || Canonical(remainder))
      invariant Val(a[..t]) == Val(quotient) * Val(b) + Val(remainder)
      invariant 0 <= Val(remainder) < Val(b)
    {
      ghost var before := remainder;
      var count;
      remainder, count := DivideDigit(remainder, a[t], b);
      assert Val(a[..t + 1]) == 10 * Val(a[..t]) + DigitValue(a[t]) by {
        assert a[..t + 1] == a[..t] + [a[t]];
        ValAppend(a[..t], a[t]);
      }
      assert Val(quotient + [DigitChar(count)]) == 10 * Val(quotient) + count by { ValAppend(quotient, DigitChar(count)); }
      DivideArith(Val(a[..t]), Val(quotient), Val(b), Val(before), DigitValue(a[t]), count, Val(remainder));
      DigitsPush(quotient, count);
      quotient := quotient + [DigitChar(count)];
    }
    assert a[..|a|] == a;
  }

  /**
   * `divideStrings`: long division digit by digit of `a`. The divisor "0" is refused (the Kotlin code
   * throws `ArithmeticException`); otherwise the quotient and remainder are canonical and satisfy
   * `a == q * b + r` with `0 <= r < b`.
   */
  method DivideStrings(a: string, b: string) returns (r: Option<(string, string)>)
    requires IsDigits(a) && Canonical(b)
    ensures r.None? <==> b == "0"
    ensures r.Some? ==> Canonical(r.value.0) && Canonical(r.value.1)
    ensures r.Some? ==> Val(a) == Val(r.value.0) * Val(b) + Val(r.value.1) && Val(r.value.1) < Val(b)
  {
    if b == "0" {
      return None;
    }
    var quotient, remainder := LongDivision(a, b);
    var q := TrimStart(quotient, '0');
    TrimZeros(quotient);
    r := Some((if q == [] then "0" else q, if remainder == [] then "0" else remainder));
  }

  // ---------------------------------------------------------------- the BigInt value

  /** A BigInt as the Kotlin class stores it: the digits of the magnitude and a sign in -1..1. */
  datatype BigInt = BigInt(digits: string, sign: int)

  /** The regular expression `-?[0-9]+` the constructor demands of its text. */
  predicate ValidFormat(value: string)
  {
    (|value| >= 1 && IsDigits(value)) || (|value| >= 2 && value[0] == '-' && IsDigits(value[1..]))
  }

  /** The integer a text of that form denotes. */
  function WrittenValue(value: string): int
  {
    if |value| >= 1 && value[0] == '-' then -Val(value[1..]) else Val(value)
  }

  /** What the constructor establishes: canonical digits, a sign in -1..1, and sign 0 only with digits "0". */
  predicate Valid(x: BigInt)
  {
    Canonical(x.digits) && -1 <= x.sign <= 1 && (x.sign == 0 ==> x.digits == "0")
  }

  /**
   * The form of every arithmetic result: a positive sign only on a nonzero magnitude. (Zero may still
   * carry sign -1, as the text "-0" gives it.)
   */
  predicate Normal(x: BigInt) { Valid(x) && (x.sign == 1 ==> x.digits != "0") }

  /** The form canonical text gives: zero, and only zero, has sign 0. */
  predicate Canon(x: BigInt) { Valid(x) && (x.sign == 0 <==> x.digits == "0") }

  /** The integer a BigInt denotes. */
  function Value(x: BigInt): int
  {
    if x.sign < 0 then -Val(x.digits) else Val(x.digits)
  }

  /** The sign the constructor gives accepted text: 0 for "0" only, -1 after a leading '-', 1 otherwise. */
  function SignOf(value: string): int
    requires |value| >= 1
  {
    if value == "0" then 0 else if value[0] == '-' then -1 else 1
  }

  /** The digits the constructor keeps: the text without '-' and leading zeros, or "0" when nothing is left. */
  function MagnitudeOf(value: string): string
  {
    var trimmed := TrimStart(TrimStart(value, '-'), '0');
    if trimmed == [] then "0" else trimmed
  }

  /** `trimStart('-')` on accepted text leaves the digits after the optional minus sign. */
  lemma MagnitudeText(value: string)
    requires ValidFormat(value)
    ensures TrimStart(value, '-') == if value[0] == '-' then value[1..] else value
  {
    if value[0] == '-' {
      assert value[1..][0] != '-';
    }
  }

  /** The kept digits are canonical and denote the magnitude of the text. */
  lemma MagnitudeValue(value: string)
    requires ValidFormat(value)
    ensures Canonical(MagnitudeOf(value))
    ensures Val(MagnitudeOf(value)) == Val(if value[0] == '-' then value[1..] else value)
  {
    var m := if value[0] == '-' then value[1..] else value;
    assert TrimStart(value, '-') == m by { MagnitudeText(value); }
    var t := TrimStart(m, '0');
    assert Val(t) == Val(m) && (t == [] || Canonical(t)) by { TrimZeros(m); }
    if t == [] {
      assert MagnitudeOf(value) == "0";
      assert Canonical("0");
      NonzeroValueIf("0");
    } else {
      assert MagnitudeOf(value) == t;
    }
  }


  /**
   * The constructor `BigInt(value: String)`: `None` where it throws IllegalArgumentException, that is
   * for text outside `-?[0-9]+`.
   */
  function Parse(value: string): (r: Option<BigInt>)
    ensures r.Some? <==> ValidFormat(value)
    ensures r.Some? ==> Valid(r.value) && Value(r.value) == WrittenValue(value)
  {
    if !ValidFormat(value) then None
    else
      MagnitudeValue(value);
      Some(BigInt(MagnitudeOf(value), SignOf(value)))
  }

  /** Canonical digits survive `trimStart('0').ifEmpty { "0" }` unchanged. */
  lemma CanonicalTrim(d: string)
    requires Canonical(d)
    ensures MagnitudeOf(d) == d
  {
    assert TrimStart(d, '-') == d by { MagnitudeText(d); }
    if d[0] == '0' {
      assert d == "0";
    }
  }

  /** The text an operator builds from canonical digits is accepted and read back with those digits. */
  lemma PrefixedText(negative: bool, d: string)
    requires Canonical(d)
    ensures var text := (if negative then "-" else "") + d;
      ValidFormat(text) && MagnitudeOf(text) == d && SignOf(text) == (if negative then -1 else if d == "0" then 0 else 1)
  {
    var text := (if negative then "-" else "") + d;
    if negative {
      assert text[0] == '-' && text[1..] == d;
      assert text != "0";
      assert TrimStart(text, '-') == d by { MagnitudeText(text); }
      assert TrimStart(d, '-') == d by { MagnitudeText(d); }
      CanonicalTrim(d);
    } else {
      assert text == d;
      CanonicalTrim(d);
    }
  }

  /**
   * `BigInt((if (negative) "-" else "") + d)` for canonical digits `d`, the way every operator builds
   * its result: it keeps `d` and is negative exactly when asked. FromDigitsParse shows it is what the
   * constructor makes of that text.
   */
  function FromDigits(negative: bool, d: string): (r: BigInt)
    requires Canonical(d)
    ensures Normal(r) && r.digits == d && (negative <==> r.sign < 0)
    ensures Value(r) == if negative then -Val(d) else Val(d)
    ensures r.sign == if negative then -1 else if Val(d) == 0 then 0 else 1
  {
    NonzeroValueIf(d);
    BigInt(d, if negative then -1 else if d == "0" then 0 else 1)
  }

  /** The constructor reads the text an operator builds as FromDigits says. */
  lemma FromDigitsParse(negative: bool, d: string)
    requires Canonical(d)
    ensures Parse((if negative then "-" else "") + d) == Some(FromDigits(negative, d))
  {
    PrefixedText(negative, d);
  }

  /** `unaryMinus`: zero digits stay as they are; otherwise the sign flips. */
  function Negate(x: BigInt): (r: BigInt)
    requires Valid(x)
    ensures Valid(r) && r.digits == x.digits && Value(r) == -Value(x)
    ensures Normal(x) ==> Normal(r)
    ensures x.digits == "0" ==> r == x
    ensures x.digits != "0" ==> r.sign == -x.sign
  {
    if x.digits == "0" then NonzeroValueIf(x.digits); x else FromDigits(!(x.sign < 0), x.digits)
  }

  /** Negating twice gives back the same BigInt. */
  lemma NegateInvolution(x: BigInt)
    requires Valid(x)
    ensures Negate(Negate(x)) == x
  {
    if x.digits != "0" {
      var n := FromDigits(!(x.sign < 0), x.digits);
      assert n.sign == -x.sign;
      assert Negate(x) == n;
    }
  }

  /** `abs`: the negation of a negative BigInt, otherwise the BigInt itself. */
  function Abs(x: BigInt): (r: BigInt)
    requires Valid(x)
    ensures Valid(r) && r.digits == x.digits && Value(r) == Val(x.digits)
    ensures r.sign == 1 || r.digits == "0"
    ensures x.sign >= 0 || x.digits == "0" ==> r == x
  {
    if x.sign < 0 then Negate(x) else x
  }

  /** `compareTo`: different signs compare by sign; equal signs by magnitude, reversed for negatives. */
  function CompareTo(x: BigInt, y: BigInt): int
  {
    if x.sign != y.sign then x.sign - y.sign
    else if x.sign > 0 then CompareStrings(x.digits, y.digits)
    else CompareStrings(y.digits, x.digits)
  }

  /** On BigInts built from canonical text, `compareTo` is the order of the values, and 0 only for equal BigInts. */
  lemma CompareToValue(x: BigInt, y: BigInt)
    requires Canon(x) && Canon(y)
    ensures CompareTo(x, y) == 0 <==> x == y
    ensures CompareTo(x, y) < 0 <==> Value(x) < Value(y)
    ensures CompareTo(x, y) > 0 <==> Value(x) > Value(y)
  {
    CompareStringsValue(x.digits, y.digits);
    CompareStringsValue(y.digits, x.digits);
    NonzeroValueIf(x.digits);
    NonzeroValueIf(y.digits);
  }

  /** The magnitude of canonical digits is 0 exactly for "0". */
  lemma NonzeroValueIf(d: string)
    requires Canonical(d)
    ensures d == "0" ==> Val(d) == 0
    ensures d != "0" ==> Val(d) >= 1
  {
    if d != "0" {
      NonzeroValue(d);
    }
  }

  /**
   * On equal magnitudes `abs() >= other.abs()` holds unless both are zero and the sign of `x` is the
   * smaller one ("-0" against "0").
   */
  lemma AbsEqualCompare(x: BigInt, y: BigInt)
    requires Valid(x) && Valid(y) && x.digits == y.digits
    ensures CompareTo(Abs(x), Abs(y)) >= 0 <==> x.digits != "0" || x.sign >= y.sign
  {
    CompareStringsValue(x.digits, y.digits);
  }

  /** `abs() >= other.abs()` in `plus` decides which magnitude is the larger one. */
  lemma AbsCompare(x: BigInt, y: BigInt)
    requires Valid(x) && Valid(y)
    ensures CompareTo(Abs(x), Abs(y)) >= 0 ==> Val(x.digits) >= Val(y.digits)
    ensures CompareTo(Abs(x), Abs(y)) < 0 ==> Val(x.digits) <= Val(y.digits)
  {
    NonzeroValueIf(x.digits);
    NonzeroValueIf(y.digits);
    if Abs(x).sign == Abs(y).sign == 1 {
      CompareStringsValue(x.digits, y.digits);
    }
  }

  /** `toString`: a '-' for a negative sign, then the digits. */
  function ToString(x: BigInt): string
  {
    (if x.sign < 0 then "-" else "") + x.digits
  }

  /** Printing and reading back gives the same BigInt for every arithmetic result. */
  lemma ParseToString(x: BigInt)
    requires Normal(x)
    ensures Parse(ToString(x)) == Some(x)
  {
    var negative := x.sign < 0;
    assert ToString(x) == (if negative then "-" else "") + x.digits;
    FromDigitsParse(negative, x.digits);
    assert FromDigits(negative, x.digits) == x;
  }


  /** Text without superfluous leading zeros reads back unchanged; "-0" included. */
  lemma ToStringParse(value: string)
    requires ValidFormat(value) && Canonical(if value[0] == '-' then value[1..] else value)
    ensures ToString(Parse(value).value) == value
  {
    var negative := value[0] == '-';
    var d := if negative then value[1..] else value;
    assert value == (if negative then "-" else "") + d;
    assert MagnitudeOf(value) == d && (SignOf(value) < 0 <==> negative) by { PrefixedText(negative, d); }
    var x := Parse(value).value;
    assert x == BigInt(d, SignOf(value));
    assert ToString(x) == (if negative then "-" else "") + d;
  }


  /** `equals`: the same digits and the same sign. */
  function Equals(x: BigInt, y: BigInt): bool
  {
    x.digits == y.digits && x.sign == y.sign
  }

  /** On BigInts built from canonical text, `equals` is equality of the values. */
  lemma EqualsValue(x: BigInt, y: BigInt)
    requires Canon(x) && Canon(y)
    ensures Equals(x, y) <==> Value(x) == Value(y)
  {
    CompareToValue(x, y);
  }

  /**
   * Zero written with a minus sign keeps sign -1: it has the value 0, yet neither `equals` nor
   * `compareTo` treats it as the zero the text "0" gives.
   */
  lemma NegativeZero(zero: string)
    requires zero == "0"
    ensures Parse("-" + zero).Some? && Parse(zero).Some?
    ensures Value(Parse("-" + zero).value) == Value(Parse(zero).value) == 0
    ensures !Equals(Parse("-" + zero).value, Parse(zero).value)
    ensures CompareTo(Parse("-" + zero).value, Parse(zero).value) < 0
  {
    assert Canonical(zero);
    var m := FromDigits(true, zero);
    var z := FromDigits(false, zero);
    FromDigitsParse(true, zero);
    FromDigitsParse(false, zero);
    assert "" + zero == zero;
    NonzeroValueIf(zero);
  }

  // ---------------------------------------------------------------- operators

  /** `BigInt("0")` and `BigInt("1")`, the constants `pow` works with. */
  const Zero: BigInt := FromDigits(false, "0")
  const One: BigInt := FromDigits(false, "1")

  /**
   * `plus`: equal signs add the magnitudes under that sign; otherwise the smaller magnitude is
   * subtracted from the larger (`abs() >= other.abs()` decides), under the sign of the larger.
   */
  method Plus(x: BigInt, y: BigInt) returns (r: BigInt)
    requires Valid(x) && Valid(y)
    ensures Normal(r) && Value(r) == Value(x) + Value(y)
    ensures Value(r) == 0 ==> r.sign == if x.sign < 0 && (y.sign < 0 || x.digits != "0") then -1 else 0
  {
    var vx, vy := Val(x.digits), Val(y.digits);
    assert vx >= 0 && (x.sign == 0 ==> vx == 0) by { ValBound(x.digits); NonzeroValueIf(x.digits); }
    assert vy >= 0 && (y.sign == 0 ==> vy == 0) by { ValBound(y.digits); NonzeroValueIf(y.digits); }
    if x.sign == y.sign {
      var sum := AddStrings(x.digits, y.digits);
      r := FromDigits(x.sign < 0, sum);
      assert Value(r) == if x.sign < 0 then -(vx + vy) else vx + vy;
    } else if CompareTo(Abs(x), Abs(y)) >= 0 {
      assert vx >= vy by { AbsCompare(x, y); }
      var difference := SubtractStrings(x.digits, y.digits);
      r := FromDigits(x.sign < 0, difference);
      assert Value(r) == if x.sign < 0 then vy - vx else vx - vy;
      if vx == vy {
        assert x.digits == y.digits by { CompareStringsValue(x.digits, y.digits); }
        AbsEqualCompare(x, y);
      }
    } else {
      assert vx <= vy by { AbsCompare(x, y); }
      var difference := SubtractStrings(y.digits, x.digits);
      r := FromDigits(y.sign < 0, difference);
      assert Value(r) == if y.sign < 0 then vx - vy else vy - vx;
      if vx == vy {
        assert x.digits == y.digits by { CompareStringsValue(x.digits, y.digits); }
        AbsEqualCompare(x, y);
      }
    }
  }

  /** `minus`: adding the negation. */
  method Minus(x: BigInt, y: BigInt) returns (r: BigInt)
    requires Valid(x) && Valid(y)
    ensures Normal(r) && Value(r) == Value(x) - Value(y)
    ensures Value(r) == 0 ==> r.sign == if x.sign < 0 && (x.digits != "0" || y.sign < 0) then -1 else 0
  {
    NonzeroValueIf(x.digits);
    NonzeroValueIf(y.digits);
    r := Plus(x, Negate(y));
  }

  /** The sign rule of a product: negative exactly when the signs differ and both are nonzero. */
  lemma SignedProduct(sx: int, sy: int, vx: int, vy: int)
    requires -1 <= sx <= 1 && -1 <= sy <= 1 && vx >= 0 && vy >= 0
    requires (sx == 0 ==> vx == 0) && (sy == 0 ==> vy == 0)
    ensures (if sx * sy < 0 then -(vx * vy) else vx * vy) == (if sx < 0 then -vx else vx) * (if sy < 0 then -vy else vy)
  {
    var p := vx * vy;
    assert (-vx) * vy == -p && vx * (-vy) == -p && (-vx) * (-vy) == p;
    assert sx * sy < 0 <==> (sx < 0 && sy > 0) || (sx > 0 && sy < 0) by {
      if sx == -1 {
        assert sx * sy == -sy;
      } else if sx == 0 {
        assert sx * sy == 0;
      } else {
        assert sx * sy == sy;
      }
    }
    if sx == 0 || sy == 0 {
      if sx == 0 { assert sx * sy == 0 && p == 0; } else { assert sx * sy == 0 && p == 0; }
    }
  }

  /** `times`: the product of the magnitudes, negative when the signs multiply to a negative number. */
  method Times(x: BigInt, y: BigInt) returns (r: BigInt)
    requires Valid(x) && Valid(y)
    ensures Normal(r) && Value(r) == Value(x) * Value(y)
    ensures r.sign == if x.sign * y.sign < 0 then -1 else if Value(r) == 0 then 0 else 1
  {
    var vx, vy := Val(x.digits), Val(y.digits);
    assert vx >= 0 && (x.sign == 0 ==> vx == 0) by { ValBound(x.digits); NonzeroValueIf(x.digits); }
    assert vy >= 0 && (y.sign == 0 ==> vy == 0) by { ValBound(y.digits); NonzeroValueIf(y.digits); }
    var product := MultiplyStrings(x.digits, y.digits);
    r := FromDigits(x.sign * y.sign < 0, product);
    assert Value(r) == if x.sign * y.sign < 0 then -(vx * vy) else vx * vy;
    SignedProduct(x.sign, y.sign, vx, vy);
  }

  function Magnitude(a: int): nat { if a < 0 then -a else a }

  /** Kotlin's integer `/`: the quotient of the magnitudes, rounded toward zero, negative when the signs differ. */
  function TruncDiv(a: int, b: int): int
    requires b != 0
  {
    var q := Magnitude(a) / Magnitude(b);
    if (a < 0) != (b < 0) then -q else q
  }

  /** Kotlin's integer `%`: the remainder of the magnitudes, with the sign of the dividend. */
  function TruncRem(a: int, b: int): int
    requires b != 0
  {
    var m := Magnitude(a) % Magnitude(b);
    if a < 0 then -m else m
  }

  /**
   * The defining properties of truncating division: quotient times divisor plus remainder gives the
   * dividend back, the remainder is smaller than the divisor in magnitude and never has the opposite
   * sign of the dividend, and the quotient never overshoots the dividend.
   */
  lemma TruncDivision(a: int, b: int)
    requires b != 0
    ensures a == TruncDiv(a, b) * b + TruncRem(a, b)
    ensures Magnitude(TruncRem(a, b)) < Magnitude(b)
    ensures a >= 0 ==> TruncRem(a, b) >= 0
    ensures a <= 0 ==> TruncRem(a, b) <= 0
    ensures Magnitude(TruncDiv(a, b) * b) <= Magnitude(a)
  {
    var A: int, B: int := Magnitude(a), Magnitude(b);
    var q: int, m: int := A / B, A % B;
    var qb := q * B;
    assert A == qb + m && 0 <= m < B && qb >= 0 by { MulNonnegative(q, B); }
    var d := TruncDiv(a, b);
    assert d == (if (a < 0) != (b < 0) then -q else q);
    assert b == (if b < 0 then -B else B);
    assert d * b == (if a < 0 then -qb else qb) by { SignedMul(q, B, (a < 0) != (b < 0), b < 0); }
  }

  /** Multiplying numbers with their signs flipped. */
  lemma SignedMul(x: int, y: int, flipX: bool, flipY: bool)
    ensures (if flipX then -x else x) * (if flipY then -y else y) == if flipX != flipY then -(x * y) else x * y
  {
    if flipX && flipY {
      assert (-x) * (-y) == x * y;
    } else if flipX {
      assert (-x) * y == -(x * y);
    } else if flipY {
      assert x * (-y) == -(x * y);
    }
  }




  lemma MulNonnegative(x: int, y: int)
    requires x >= 0 && y >= 0
    ensures x * y >= 0
  {
  }

  /** How the signed results of `div` and `rem` follow from the division of the magnitudes. */
  lemma SignedDivision(sx: int, sy: int, vx: int, vy: int, vq: int, vr: int)
    requires -1 <= sx <= 1 && (sy == -1 || sy == 1) && (sx == 0 ==> vx == 0)
    requires vx >= 0 && vy >= 1 && vx == vq * vy + vr && 0 <= vr < vy
    ensures var a, b := (if sx < 0 then -vx else vx), (if sy < 0 then -vy else vy);
      (if sx * sy < 0 then -vq else vq) == TruncDiv(a, b) && (if sx < 0 then -vr else vr) == TruncRem(a, b)
  {
    var a, b := (if sx < 0 then -vx else vx), (if sy < 0 then -vy else vy);
    assert Magnitude(a) == vx && Magnitude(b) == vy;
    assert vx == vy * vq + vr;
    ModUnique(vx, vy, vq, vr);
    if vx == 0 {
      ModUnique(vx, vy, 0, 0);
    } else if sx == -1 {
      assert sx * sy == -sy;
    } else {
      assert sx * sy == sy;
    }
  }


  /**
   * `div`: `None` where it throws ArithmeticException (a zero divisor); otherwise the quotient of the
   * magnitudes, negative when the signs multiply to a negative number.
   */
  method Div(x: BigInt, y: BigInt) returns (r: Option<BigInt>)
    requires Valid(x) && Valid(y)
    ensures r.None? <==> y.digits == "0"
    ensures r.Some? ==> Value(y) != 0 && Normal(r.value) && Value(r.value) == TruncDiv(Value(x), Value(y))
    ensures r.Some? ==> r.value.sign == if x.sign * y.sign < 0 then -1 else if Value(r.value) == 0 then 0 else 1
  {
    if y.digits == "0" {
      return None;
    }
    var vx, vy := Val(x.digits), Val(y.digits);
    assert vx >= 0 && (x.sign == 0 ==> vx == 0) by { ValBound(x.digits); NonzeroValueIf(x.digits); }
    assert vy >= 1 by { NonzeroValue(y.digits); }
    var qr := DivideStrings(x.digits, y.digits);
    assert qr.Some?;
    var vq, vr := Val(qr.value.0), Val(qr.value.1);
    assert vx == vq * vy + vr && 0 <= vr < vy by { ValBound(qr.value.1); }
    var quotient := FromDigits(x.sign * y.sign < 0, qr.value.0);
    SignedDivision(x.sign, y.sign, vx, vy, vq, vr);
    r := Some(quotient);
  }

  /**
   * `rem`: `None` where it throws ArithmeticException (a zero divisor); otherwise the remainder of the
   * magnitudes, taking the sign of the dividend unless it is zero.
   */
  method Rem(x: BigInt, y: BigInt) returns (r: Option<BigInt>)
    requires Valid(x) && Valid(y)
    ensures r.None? <==> y.digits == "0"
    ensures r.Some? ==> Value(y) != 0 && Normal(r.value) && Value(r.value) == TruncRem(Value(x), Value(y))
    ensures r.Some? ==> r.value.sign == if Value(r.value) == 0 then 0 else x.sign
  {
    if y.digits == "0" {
      return None;
    }
    var vx, vy := Val(x.digits), Val(y.digits);
    assert vx >= 0 && (x.sign == 0 ==> vx == 0) by { ValBound(x.digits); NonzeroValueIf(x.digits); }
    assert vy >= 1 by { NonzeroValue(y.digits); }
    var qr := DivideStrings(x.digits, y.digits);
    assert qr.Some?;
    var vq, vr := Val(qr.value.0), Val(qr.value.1);
    assert vx == vq * vy + vr && 0 <= vr < vy by { ValBound(qr.value.1); }
    var remainder := FromDigits(false, qr.value.1);
    SignedDivision(x.sign, y.sign, vx, vy, vq, vr);
    if remainder.digits == "0" {
      NonzeroValueIf(remainder.digits);
      r := Some(remainder);
    } else {
      assert x.sign != 0 by {
        NonzeroValueIf(remainder.digits);
        ValBound(qr.value.0);
        MulNonnegative(vq, vy);
      }
      r := Some(FromDigits(x.sign < 0, remainder.digits));
    }
  }

  /** A product is zero only when a factor is. */
  lemma ZeroFactor(a: int, b: int)
    requires a * b == 0
    ensures a == 0 || b == 0
  {
    if a != 0 && b != 0 {
      var m, n := Magnitude(a), Magnitude(b);
      MulAtLeast(m, n);
      SignedMul(m, n, a < 0, b < 0);
    }
  }

  /** `b` multiplied together `n` times. */
  function Power(b: int, n: nat): int
  {
    if n == 0 then 1 else Power(b, n - 1) * b
  }

  /**
   * How many times the loop of `pow` multiplies: it runs while the exponent is positive, and counts
   * down by one. A positive sign on the digits "0" (the text "00") still runs the loop once.
   */
  function Rounds(e: BigInt): nat
  {
    if e.sign <= 0 then 0 else if Val(e.digits) <= 1 then 1 else Val(e.digits)
  }

  /** The number of rounds is the exponent itself for every arithmetic result that is not negative. */
  lemma RoundsValue(e: BigInt)
    requires Normal(e) && e.sign >= 0
    ensures Rounds(e) == Value(e)
  {
    NonzeroValueIf(e.digits);
  }

  /** Comparing with `BigInt("0")` reads the sign. */
  lemma CompareZero(e: BigInt)
    requires Valid(e)
    ensures CompareTo(e, Zero) < 0 <==> e.sign < 0
    ensures CompareTo(e, Zero) > 0 <==> e.sign > 0
  {
    if e.sign == 0 {
      assert Canonical("0");
      CompareStringsValue("0", "0");
    }
  }

  /** Subtracting one from a positive exponent takes one round off. */
  lemma RoundsStep(e: BigInt, next: BigInt)
    requires Valid(e) && e.sign > 0 && Normal(next) && Value(next) == Value(e) - 1
    ensures Rounds(next) + 1 == Rounds(e)
  {
    NonzeroValueIf(e.digits);
    NonzeroValueIf(next.digits);
    ValBound(next.digits);
  }

  /**
   * `pow`: `None` where it throws IllegalArgumentException (an exponent below `BigInt("0")`);
   * otherwise `this` multiplied into `BigInt("1")` once per round of the loop.
   */
  method Pow(x: BigInt, exp: BigInt) returns (r: Option<BigInt>)
    requires Valid(x) && Valid(exp)
    ensures r.None? <==> exp.sign < 0
    ensures r.Some? ==> Normal(r.value) && Value(r.value) == Power(Value(x), Rounds(exp))
    ensures r.Some? && Value(r.value) == 0 ==> r.value.sign == if x.sign < 0 && Rounds(exp) == 1 then -1 else 0
  {
    CompareZero(exp);
    if CompareTo(exp, Zero) < 0 {
      return None;
    }
    var result := One;
    var base := x;
    var exponent := exp;
    ghost var k: nat := 0;
    assert Value(result) == 1 by { assert Val("1") == 1; }
    CompareZero(exponent);
    while CompareTo(exponent, Zero) > 0
      invariant Valid(exponent) && Normal(result)
      invariant k + Rounds(exponent) == Rounds(exp)
      invariant Value(result) == Power(Value(x), k)
      invariant k == 0 ==> result == One
      invariant Value(result) == 0 ==> result.sign == if x.sign < 0 && k == 1 then -1 else 0
      decreases Rounds(exponent)
    {
      ghost var before := result;
      result := Times(result, base);
      if Value(result) == 0 && k >= 1 {
        ZeroFactor(Value(before), Value(x));
        assert Value(before) == Power(Value(x), k - 1) * Value(x);
      }
      var next := Minus(exponent, One);
      assert Value(One) == 1 by { assert Val("1") == 1; }
      RoundsStep(exponent, next);
      exponent := next;
      k := k + 1;
      CompareZero(exponent);
    }
    r := Some(result);
  }
}
