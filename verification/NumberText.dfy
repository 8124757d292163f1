/** Printing and parsing numbers: `printnum` (user/lib/printfmt.c) and `strtol`
    (user/lib/string.c), with `long` of 32 bits. */
module NumberText {
  import opened Words

  // ----- Printing

  const Numerals := "0123456789abcdef"

  /** The digits of a number, most significant first. */
  function Digits(num: nat, base: nat): (t: string)
    requires 2 <= base <= 16
    ensures t != []
    decreases num
  {
    if num < base then [Numerals[num]] else Digits(num / base, base) + [Numerals[num % base]]
  }

  function Repeat(c: char, n: int): (t: string)
    ensures |t| == if n > 0 then n else 0
    ensures forall k :: 0 <= k < |t| ==> t[k] == c
  {
    seq(if n > 0 then n else 0, _ => c)
  }

  /** The number padded on the left to the field width. */
  function Printed(num: nat, base: nat, width: int, padc: char): (t: string)
    requires 2 <= base <= 16
    ensures |t| == if width > |Digits(num, base)| then width else |Digits(num, base)|
  {
    Repeat(padc, width - |Digits(num, base)|) + Digits(num, base)
  }

  /** Character by character: pads up to the width, then the digits, figures first and small letters after
      them. */
  lemma PrintedChars(num: nat, base: nat, width: int, padc: char)
    requires 2 <= base <= 16
    ensures var t := Printed(num, base, width, padc);
            var d := num % base;
            (forall k :: 0 <= k < width - |Digits(num, base)| ==> t[k] == padc)
            && t[|t| - 1] == (if d < 10 then '0' as int + d else 'a' as int + d - 10) as char
            && (num >= base ==> t[..|t| - 1] == Printed(num / base, base, width - 1, padc))
  {
    hide Repeat, Digits;
    DigitsEnd(num, base);
    var (pad, ds) := (Repeat(padc, width - |Digits(num, base)|), Digits(num, base));
    assert (pad + ds)[..|pad| + |ds| - 1] == pad + ds[..|ds| - 1];
  }

  lemma DigitsEnd(num: nat, base: nat)
    requires 2 <= base <= 16
    ensures var (ds, d) := (Digits(num, base), num % base);
            ds[|ds| - 1] == (if d < 10 then '0' as int + d else 'a' as int + d - 10) as char
            && ds[..|ds| - 1] == if num < base then [] else Digits(num / base, base)
  {
    NumeralIs(num % base);
  }

  lemma NumeralIs(d: nat)
    requires d < 16
    ensures Numerals[d] == (if d < 10 then '0' as int + d else 'a' as int + d - 10) as char
  {
  }

  /** Where `putch` puts characters. */
  class Output {
    var text: string

    constructor ()
      ensures text == []
    {
      text := [];
    }

    method Putch(c: char)
      modifies this
      ensures text == old(text) + [c]
    {
      text := text + [c];
    }

    /** `printnum`: pads before the first digit, having counted the width down by one for every
        digit still to come. */
    method PrintNum(num: nat, base: nat, width: int, padc: char)
      requires 2 <= base <= 16
      modifies this
      ensures text == old(text) + Printed(num, base, width, padc)
      decreases num
    {
      hide Repeat, Digits, Printed;
      DivideBy(num, base);
      if num >= base {
        MoreDigits(num, base, width, padc);
        PrintNum(num / base, base, width - 1, padc);
      } else {
        LastDigit(num, base, width, padc);
        Pad(width, padc);
      }
      Putch(Numerals[num % base]);
    }

    /** The padding loop of `printnum`. */
    method Pad(width: int, padc: char)
      modifies this
      ensures text == old(text) + Repeat(padc, width - 1)
    {
      hide Repeat;
      var w := width - 1;
      RepeatNone(padc, if w > 0 then 0 else w);
      while w > 0
        invariant w < width && text == old(text) + Repeat(padc, if w > 0 then width - 1 - w else width - 1)
      {
        RepeatMore(padc, width - 1 - w);
        Putch(padc);
        w := w - 1;
      }
    }
  }

  lemma RepeatNone(c: char, n: int)
    requires n <= 0
    ensures Repeat(c, n) == []
  {
  }

  lemma RepeatMore(c: char, n: nat)
    ensures Repeat(c, n) + [c] == Repeat(c, n + 1)
  {
  }

  lemma MoreDigits(num: nat, base: nat, width: int, padc: char)
    requires 2 <= base <= 16 && num >= base
    ensures Printed(num / base, base, width - 1, padc) + [Numerals[num % base]] == Printed(num, base, width, padc)
  {
  }

  lemma LastDigit(num: nat, base: nat, width: int, padc: char)
    requires 2 <= base <= 16 && num < base
    ensures Repeat(padc, width - 1) + [Numerals[num % base]] == Printed(num, base, width, padc)
  {
    DivideBy(num, base);
  }

  // ----- Parsing

  /** The character at `i`, the terminating NUL past the end. */
  function At(s: string, i: nat): (c: char) {
    if i < |s| then s[i] else '\0'
  }

  /** The value of a digit or letter; -1 for any other character. */
  function DigitValue(c: char): (d: int)
    ensures -1 <= d < 36
  {
    if '0' <= c <= '9' then c as int - '0' as int
    else if 'a' <= c <= 'z' then c as int - 'a' as int + 10
    else if 'A' <= c <= 'Z' then c as int - 'A' as int + 10
    else -1
  }

  predicate IsDigit(c: char, base: int) {
    0 <= DigitValue(c) < base
  }

  predicate IsBlank(c: char) {
    c == ' ' || c == '\t'
  }

  /** The first position at or after `i` that is not blank. */
  function AfterBlanks(s: string, i: nat): (r: nat)
    requires i <= |s|
    ensures i <= r <= |s| && !IsBlank(At(s, r)) && forall k :: i <= k < r ==> IsBlank(s[k])
    decreases |s| - i
  {
    if IsBlank(At(s, i)) then AfterBlanks(s, i + 1) else i
  }

  /** The first position at or after `i` that is not a digit in the base. */
  function AfterDigits(s: string, i: nat, base: int): (r: nat)
    requires i <= |s|
    ensures i <= r <= |s| && !IsDigit(At(s, r), base) && forall k :: i <= k < r ==> IsDigit(s[k], base)
    decreases |s| - i
  {
    if IsDigit(At(s, i), base) then AfterDigits(s, i + 1, base) else i
  }

  /** What is read before the digits: where they start, the sign, and the base in force. */
  datatype Prefix = Prefix(pos: nat, neg: bool, base: int)

  function ReadPrefix(s: string, base: int): (p: Prefix)
    ensures p.pos <= |s|
  {
    var b := AfterBlanks(s, 0);
    var neg := At(s, b) == '-';
    var i := if At(s, b) == '+' || neg then b + 1 else b;
    if (base == 0 || base == 16) && At(s, i) == '0' && At(s, i + 1) == 'x' then Prefix(i + 2, neg, 16)
    else if base == 0 && At(s, i) == '0' then Prefix(i + 1, neg, 8)
    else Prefix(i, neg, if base == 0 then 10 else base)
  }

  /** The number a string of digits denotes, without any limit of size. */
  function Value(t: string, base: int): (v: int) {
    if t == [] then 0 else Value(t[..|t| - 1], base) * base + DigitValue(t[|t| - 1])
  }

  /** `strtol`: the value and the position after the last character used. */
  function Strtol(s: string, base: int): (res: (int, nat)) {
    var p := ReadPrefix(s, base);
    var end := AfterDigits(s, p.pos, p.base);
    var v := Value(s[p.pos..end], p.base);
    (S32(if p.neg then -v else v), end)
  }

  /** One step of the accumulation, in a `long`. */
  function Accumulate(val: int, base: int, d: int): (r: int) {
    S32(val * base + d)
  }

  lemma WrapStep(v: int, base: int, d: int)
    ensures Accumulate(S32(v), base, d) == S32(v * base + d)
  {
    var m := 0x1_0000_0000;
    var k := (v - S32(v)) / m;
    assert v == S32(v) + k * m;
    assert v * base + d == S32(v) * base + d + (k * base) * m;
    WrapShift(S32(v) * base + d, k * base);
  }

  lemma WrapShift(x: int, k: int)
    ensures S32(x + k * 0x1_0000_0000) == S32(x)
  {
    assert (x + k * 0x1_0000_0000) % 0x1_0000_0000 == x % 0x1_0000_0000;
  }

  lemma WrapNegate(v: int)
    ensures S32(-S32(v)) == S32(-v)
  {
    WrapStep(v, -1, 0);
  }

  /** `strtol` as it runs.  Each step of the accumulation wraps, and the result is still the wrapped
      value of the digits. */
  method ParseLong(s: string, base: int) returns (val: int, end: nat)
    ensures (val, end) == Strtol(s, base)
  {
    hide Value, S32, AfterDigits, IsDigit;
    var i := 0;
    while IsBlank(At(s, i))
      invariant i <= |s| && AfterBlanks(s, i) == AfterBlanks(s, 0)
      decreases |s| - i
    {
      i := i + 1;
    }
    var neg := false;
    if At(s, i) == '+' {
      i := i + 1;
    } else if At(s, i) == '-' {
      i := i + 1;
      neg := true;
    }
    var b := base;
    if (base == 0 || base == 16) && At(s, i) == '0' && At(s, i + 1) == 'x' {
      i := i + 2;
      b := 16;
    } else if base == 0 && At(s, i) == '0' {
      i := i + 1;
      b := 8;
    } else if base == 0 {
      b := 10;
    }
    assert ReadPrefix(s, base) == Prefix(i, neg, b);
    val, end := ParseDigits(s, i, b);
    if neg {
      WrapNegate(Value(s[i..end], b));
      val := S32(-val);
    }
  }

  /** The digit loop of `strtol`. */
  method ParseDigits(s: string, start: nat, base: int) returns (val: int, end: nat)
    requires start <= |s|
    ensures end == AfterDigits(s, start, base) && val == S32(Value(s[start..end], base))
  {
    ValueEmpty(base);
    assert s[start..start] == [] && S32(0) == 0;
    hide S32, IsDigit, Value, Accumulate, DigitValue;
    val, end := 0, start;
    while IsDigit(At(s, end), base)
      invariant start <= end <= |s| && AfterDigits(s, end, base) == AfterDigits(s, start, base)
      invariant val == S32(Value(s[start..end], base))
      decreases |s| - end
    {
      DigitInside(s, end, base);
      assert s[start..end + 1] == s[start..end] + [s[end]];
      DigitsWrap(s[start..end], s[end], base);
      val := Accumulate(val, base, DigitValue(s[end]));
      end := end + 1;
    }
  }

  lemma DigitsWrap(t: string, c: char, base: int)
    ensures Accumulate(S32(Value(t, base)), base, DigitValue(c)) == S32(Value(t + [c], base))
  {
    hide Value, S32, Accumulate;
    WrapStep(Value(t, base), base, DigitValue(c));
    ValueSnoc(t, c, base);
  }

  lemma DigitInside(s: string, i: nat, base: int)
    requires IsDigit(At(s, i), base)
    ensures i < |s|
  {
  }

  /** The value of every digit: ten figures, then the letters, in either case. */
  lemma DigitValues(i: nat)
    requires i < 36
    ensures i < 10 ==> DigitValue(('0' as int + i) as char) == i
    ensures i >= 10 ==> DigitValue(('a' as int + i - 10) as char) == DigitValue(('A' as int + i - 10) as char) == i
  {
  }

  /** Space and tab are skipped, in any number, and nothing else. */
  lemma BlanksAre(s: string, n: nat)
    requires n <= |s| && (forall k :: 0 <= k < n ==> s[k] == ' ' || s[k] == '\t') && (n < |s| ==> s[n] != ' ' && s[n] != '\t')
    ensures AfterBlanks(s, 0) == n
  {
    var r := AfterBlanks(s, 0);
    assert r < n ==> IsBlank(At(s, r));
    assert n < r ==> IsBlank(At(s, n));
  }

  // ----- Round trip

  lemma NumeralValue(d: nat)
    requires d < 16
    ensures DigitValue(Numerals[d]) == d && Numerals[d] != 'x' && !IsBlank(Numerals[d]) && Numerals[d] != '+' && Numerals[d] != '-'
  {
  }

  /** Plain digits: no blank, sign or 'x' among them. */
  ghost predicate AllDigits(t: string, base: int) {
    forall k :: 0 <= k < |t| ==> IsDigit(t[k], base) && !IsBlank(t[k]) && t[k] != 'x' && t[k] != '+' && t[k] != '-'
  }

  lemma DivideBy(num: nat, base: nat)
    requires base >= 2
    ensures num / base * base + num % base == num && (num >= base ==> num / base < num)
    ensures num < base ==> num % base == num
  {
  }

  lemma {:induction false} DigitsRead(num: nat, base: nat)
    requires 2 <= base <= 16
    ensures Value(Digits(num, base), base) == num && AllDigits(Digits(num, base), base)
    decreases num
  {
    hide DigitValue, IsBlank, Value;
    var d := num % base;
    var c := Numerals[d];
    NumeralValue(d);
    DivideBy(num, base);
    if num >= base {
      var t := Digits(num / base, base);
      DigitsRead(num / base, base);
      ValueSnoc(t, c, base);
    } else {
      ValueSnoc([], c, base);
      ValueEmpty(base);
      assert [] + [c] == [c];
    }
  }

  lemma ValueSnoc(t: string, c: char, base: int)
    ensures Value(t + [c], base) == Value(t, base) * base + DigitValue(c)
  {
    assert (t + [c])[..|t|] == t;
  }

  lemma ValueEmpty(base: int)
    ensures Value([], base) == 0
  {
  }

  lemma {:induction false} LeadingZeros(z: string, t: string, base: int)
    requires forall k :: 0 <= k < |z| ==> z[k] == '0'
    ensures Value(z + t, base) == Value(t, base)
    decreases |t|, |z|
  {
    if t != [] {
      assert (z + t)[..|z + t| - 1] == z + t[..|t| - 1];
      LeadingZeros(z, t[..|t| - 1], base);
    } else if z != [] {
      assert z + t == z;
      assert z[..|z| - 1] + t == z[..|z| - 1];
      LeadingZeros(z[..|z| - 1], t, base);
    }
  }

  lemma {:induction false} BlanksSkipped(s: string, i: nat, n: nat)
    requires i <= n < |s| && (forall k :: 0 <= k < n ==> IsBlank(s[k])) && !IsBlank(s[n])
    ensures AfterBlanks(s, i) == n
    decreases n - i
  {
    if i < n {
      BlanksSkipped(s, i + 1, n);
    }
  }

  lemma DigitsToTheEnd(s: string, i: nat, base: int)
    requires i <= |s| && forall k :: i <= k < |s| ==> IsDigit(s[k], base)
    ensures AfterDigits(s, i, base) == |s|
  {
  }

  /** Blanks, then at least one plain digit: all of it is read. */
  lemma StrtolReads(s: string, n: nat, base: nat)
    requires 2 <= base && n < |s| && (forall k :: 0 <= k < n ==> IsBlank(s[k])) && AllDigits(s[n..], base)
    ensures Strtol(s, base) == (S32(Value(s[n..], base)), |s|)
  {
    hide IsDigit, Value, S32;
    forall k | n <= k < |s| ensures IsDigit(s[k], base) && !IsBlank(s[k]) && s[k] != 'x' && s[k] != '+' && s[k] != '-' {
      assert s[k] == s[n..][k - n];
    }
    BlanksSkipped(s, 0, n);
    assert ReadPrefix(s, base) == Prefix(n, false, base);
    DigitsToTheEnd(s, n, base);
    assert s[n..|s|] == s[n..];
  }

  /** A sign before the digits: '+' changes nothing, '-' negates the value. */
  lemma StrtolSigned(s: string, n: nat, base: nat)
    requires 2 <= base && n + 1 < |s| && (forall k :: 0 <= k < n ==> IsBlank(s[k])) && (s[n] == '+' || s[n] == '-')
    requires AllDigits(s[n + 1..], base)
    ensures var v := Value(s[n + 1..], base);
            Strtol(s, base) == (S32(if s[n] == '-' then -v else v), |s|)
  {
    hide IsDigit, Value, S32;
    DigitsFrom(s, n + 1, base);
    BlanksSkipped(s, 0, n);
    assert ReadPrefix(s, base) == Prefix(n + 1, s[n] == '-', base);
    DigitsToTheEnd(s, n + 1, base);
    assert s[n + 1..|s|] == s[n + 1..];
  }

  lemma DigitsFrom(s: string, n: nat, base: int)
    requires n <= |s| && AllDigits(s[n..], base)
    ensures forall k :: n <= k < |s| ==> IsDigit(s[k], base) && !IsBlank(s[k]) && s[k] != 'x' && s[k] != '+' && s[k] != '-'
  {
    hide IsDigit, IsBlank;
    forall k | n <= k < |s| ensures IsDigit(s[k], base) && !IsBlank(s[k]) && s[k] != 'x' && s[k] != '+' && s[k] != '-' {
      assert s[k] == s[n..][k - n];
    }
  }

  /** The prefix 0x is skipped in base 16 and chooses it in base 0. */
  lemma StrtolHex(s: string, n: nat, base: int)
    requires (base == 0 || base == 16) && n + 2 < |s| && (forall k :: 0 <= k < n ==> IsBlank(s[k]))
    requires s[n] == '0' && s[n + 1] == 'x' && AllDigits(s[n + 2..], 16)
    ensures Strtol(s, base) == (S32(Value(s[n + 2..], 16)), |s|)
  {
    hide IsDigit, Value, S32;
    DigitsFrom(s, n + 2, 16);
    BlanksSkipped(s, 0, n);
    assert ReadPrefix(s, base) == Prefix(n + 2, false, 16);
    DigitsToTheEnd(s, n + 2, 16);
    assert s[n + 2..|s|] == s[n + 2..];
  }

  /** In base 0 a leading 0 chooses base 8, any other digit base 10. */
  lemma StrtolChoosesBase(s: string, n: nat)
    requires n < |s| && (forall k :: 0 <= k < n ==> IsBlank(s[k]))
    ensures s[n] == '0' && AllDigits(s[n + 1..], 8) ==> Strtol(s, 0) == (S32(Value(s[n + 1..], 8)), |s|)
    ensures s[n] != '0' && AllDigits(s[n..], 10) ==> Strtol(s, 0) == (S32(Value(s[n..], 10)), |s|)
  {
    hide Value, S32;
    if s[n] == '0' && AllDigits(s[n + 1..], 8) {
      DigitsFrom(s, n + 1, 8);
      BlanksSkipped(s, 0, n);
      assert ReadPrefix(s, 0) == Prefix(n + 1, false, 8);
      DigitsToTheEnd(s, n + 1, 8);
      assert s[n + 1..|s|] == s[n + 1..];
    } else if s[n] != '0' && AllDigits(s[n..], 10) {
      DigitsFrom(s, n, 10);
      BlanksSkipped(s, 0, n);
      assert ReadPrefix(s, 0) == Prefix(n, false, 10);
      DigitsToTheEnd(s, n, 10);
      assert s[n..|s|] == s[n..];
    }
  }

  /** Whatever `printnum` prints, padded with blanks or zeros to any width, `strtol` reads back. */
  lemma PrintedReadsBack(num: nat, base: nat, width: int, padc: char)
    requires 2 <= base <= 16 && (padc == ' ' || padc == '0')
    ensures var t := Printed(num, base, width, padc);
            Strtol(t, base) == (S32(num), |t|) && (num < 0x8000_0000 ==> Strtol(t, base) == (num, |t|))
  {
    var ds := Digits(num, base);
    var z := Repeat(padc, width - |ds|);
    DigitsRead(num, base);
    if padc == ' ' {
      assert (z + ds)[|z|..] == ds;
      StrtolReads(z + ds, |z|, base);
    } else {
      LeadingZeros(z, ds, base);
      assert (z + ds)[0..] == z + ds;
      assert AllDigits(z + ds, base);
      StrtolReads(z + ds, 0, base);
    }
  }
}
