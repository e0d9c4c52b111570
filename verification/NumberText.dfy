/**
 Printing numbers (dos/printf.c) and reading them back (dos/strntoumax.c).
 */
module NumberText {
  import opened Widths
  import Bits

  datatype Flags = Flags(zeropad: bool, sign: bool, plus: bool, space: bool, left: bool, special: bool, large: bool)

  // ---- Digits ----

  function DigitChar(d: nat, large: bool): char
    requires d < 36
  {
    if d < 10 then '0' + d as char else if large then 'A' + (d - 10) as char else 'a' + (d - 10) as char
  }

  /** digitval. */
  function DigitVal(c: char): int {
    if '0' <= c <= '9' then c as int - '0' as int
    else if 'A' <= c <= 'Z' then c as int - 'A' as int + 10
    else if 'a' <= c <= 'z' then c as int - 'a' as int + 10
    else -1
  }

  lemma DigitBack(d: nat, large: bool)
    requires d < 36
    ensures DigitVal(DigitChar(d, large)) == d
  {
  }

  /** A number in positional notation, without leading zeros. */
  function Numeral(m: nat, base: nat, large: bool): (s: string)
    requires 2 <= base <= 36
    ensures |s| > 0
  {
    Divided(m, base);
    if m < base then [DigitChar(m, large)] else Numeral(m / base, base, large) + [DigitChar(m % base, large)]
  }

  /** What dividing by the base does. */
  lemma Divided(m: nat, base: nat)
    requires base >= 2
    ensures 0 <= m % base < base && m == (m / base) * base + m % base && (m > 0 ==> m / base < m) && 2 * (m / base) <= m
    ensures m < base ==> m / base == 0 && m % base == m
    ensures m >= base ==> m / base > 0
  {
    var q := m / base;
    Multiple(q, base);
  }

  lemma Multiple(q: int, base: nat)
    requires base >= 2
    ensures q >= 0 ==> q * base >= 2 * q
    ensures q < 0 ==> q * base < 0
  {
  }

  lemma NumeralSnoc(m: nat, base: nat, large: bool)
    requires 2 <= base <= 36 && m >= base
    ensures m % base < 36 && Numeral(m, base, large) == Numeral(m / base, base, large) + [DigitChar(m % base, large)]
  {
    Divided(m, base);
  }

  lemma ValueSnoc(s: string, c: char, base: nat)
    requires AllDigits(s, base) && 0 <= DigitVal(c) < base
    ensures AllDigits(s + [c], base) && Value(s + [c], base) == Value(s, base) * base + DigitVal(c)
  {
    assert (s + [c])[..|s|] == s;
  }

  ghost predicate AllDigits(s: string, base: nat) {
    forall i :: 0 <= i < |s| ==> 0 <= DigitVal(s[i]) < base
  }

  /** The value of a digit string. */
  function Value(s: string, base: nat): nat
    requires AllDigits(s, base)
  {
    if |s| == 0 then 0 else Value(s[..|s| - 1], base) * base + DigitVal(s[|s| - 1])
  }

  lemma {:induction false} NumeralValue(m: nat, base: nat, large: bool)
    requires 2 <= base <= 36
    ensures AllDigits(Numeral(m, base, large), base) && Value(Numeral(m, base, large), base) == m
    decreases m
  {
    if m < base {
      DigitBack(m, large);
      assert [DigitChar(m, large)][..0] == "";
    } else {
      hide DigitChar, DigitVal, Value;
      Divided(m, base);
      var q, r := m / base, m % base;
      NumeralSnoc(m, base, large);
      NumeralValue(q, base, large);
      DigitBack(r, large);
      ValueSnoc(Numeral(q, base, large), DigitChar(r, large), base);
    }
  }

  lemma {:induction false} LeadingZeros(n: nat, s: string, base: nat)
    requires AllDigits(s, base) && base >= 1
    ensures AllDigits(Fill(n, '0') + s, base) && Value(Fill(n, '0') + s, base) == Value(s, base)
    decreases |s|, n
  {
    var z := Fill(n, '0') + s;
    if |s| > 0 {
      LeadingZeros(n, s[..|s| - 1], base);
      assert z[..|z| - 1] == Fill(n, '0') + s[..|s| - 1];
    } else if n > 0 {
      LeadingZeros(n - 1, s, base);
      assert z[..|z| - 1] == Fill(n - 1, '0') + s;
    } else {
      assert z == s;
    }
  }

  /** A long has at most 32 digits. */
  lemma {:induction false} NumeralShort(m: nat, base: nat, large: bool, k: nat)
    requires 2 <= base <= 36 && k >= 1 && m < Bits.Pow2(k)
    ensures |Numeral(m, base, large)| <= k
    decreases m
  {
    if m >= base {
      assert k > 1 by { assert Bits.Pow2(1) == 2 * Bits.Pow2(0); }
      Divided(m, base);
      NumeralSnoc(m, base, large);
      hide Numeral;
      NumeralShort(m / base, base, large, k - 1);
    }
  }

  function Fill(n: int, c: char): (s: string)
    ensures |s| == (if n <= 0 then 0 else n) && forall i :: 0 <= i < |s| ==> s[i] == c
  {
    if n <= 0 then [] else seq(n, _ => c)
  }

  // ---- number ----

  function Magnitude(num: int, f: Flags): nat
    requires -0x8000_0000 <= num < 0x8000_0000
  {
    if num >= 0 then num else if f.sign then -num else num + WRAP
  }

  function SignText(num: int, f: Flags): string {
    if !f.sign then "" else if num < 0 then "-" else if f.plus then "+" else if f.space then " " else ""
  }

  function Prefix(base: nat, f: Flags): string {
    if !f.special then "" else if base == 8 then "0" else if base == 16 then (if f.large then "0X" else "0x") else ""
  }

  function Max(a: int, b: int): int {
    if a < b then b else a
  }

  /** The text number prints: padding, sign, prefix, zeros, digits, padding. */
  function Text(num: int, base: nat, size: int, precision: int, f: Flags): string
    requires -0x8000_0000 <= num < 0x8000_0000 && 2 <= base <= 36
  {
    var digits := Numeral(Magnitude(num, f), base, f.large);
    var shown := Max(precision, |digits|);
    var pad := size - |SignText(num, f)| - |Prefix(base, f)| - shown;
    Blanks(pad, f) + SignText(num, f) + Prefix(base, f) + (Zeros(pad, f) + Fill(shown - |digits|, '0') + digits) +
    Fill(if f.left then pad else -1, ' ')
  }

  /** Padding before the sign. */
  function Blanks(pad: int, f: Flags): string {
    Fill(if f.left || f.zeropad then 0 else pad, ' ')
  }

  /** Padding before the digits. */
  function Zeros(pad: int, f: Flags): string {
    Fill(if f.zeropad && !f.left then pad else 0, '0')
  }

  /** The parts that are always printed: sign, prefix, and digits with zeros up to the precision. */
  function Core(num: int, base: nat, precision: int, f: Flags): (c: (string, string))
    requires -0x8000_0000 <= num < 0x8000_0000 && 2 <= base <= 36
    ensures |c.1| >= precision && |c.1| > 0
  {
    var digits := Numeral(Magnitude(num, f), base, f.large);
    (SignText(num, f) + Prefix(base, f), Fill(precision - |digits|, '0') + digits)
  }

  /** The text is as long as the width, or as what it has to hold if that is longer. */
  lemma TextWidth(num: int, base: nat, size: int, precision: int, f: Flags)
    requires -0x8000_0000 <= num < 0x8000_0000 && 2 <= base <= 36
    ensures var c := Core(num, base, precision, f); |Text(num, base, size, precision, f)| == Max(size, |c.0| + |c.1|)
  {
    hide Numeral, SignText, Prefix;
  }

  /** It is filled up behind the digits if left-adjusted, else with zeros between prefix and digits or with blanks in front. */
  lemma TextPlaces(num: int, base: nat, size: int, precision: int, f: Flags)
    requires -0x8000_0000 <= num < 0x8000_0000 && 2 <= base <= 36
    ensures var t, c := Text(num, base, size, precision, f), Core(num, base, precision, f);
            && |t| >= |c.0 + c.1|
            && var n := |t| - |c.0 + c.1|;
               t == if f.left then c.0 + c.1 + seq(n, _ => ' ')
                    else if f.zeropad then c.0 + seq(n, _ => '0') + c.1
                    else seq(n, _ => ' ') + c.0 + c.1
  {
    hide Numeral, SignText, Prefix, Text;
    TextWidth(num, base, size, precision, f);
    var t, c := Text(num, base, size, precision, f), Core(num, base, precision, f);
    var n := |t| - |c.0 + c.1|;
    TextCore(num, base, size, precision, f);
    assert Fill(n, ' ') == seq(n, _ => ' ') && Fill(n, '0') == seq(n, _ => '0');
  }

  lemma TextCore(num: int, base: nat, size: int, precision: int, f: Flags)
    requires -0x8000_0000 <= num < 0x8000_0000 && 2 <= base <= 36
    ensures var c := Core(num, base, precision, f); var n := Max(size, |c.0| + |c.1|) - |c.0| - |c.1|;
            Text(num, base, size, precision, f) ==
            if f.left then c.0 + c.1 + Fill(n, ' ') else if f.zeropad then c.0 + Fill(n, '0') + c.1 else Fill(n, ' ') + c.0 + c.1
  {
    hide Numeral, SignText, Prefix, Fill;
    var digits := Numeral(Magnitude(num, f), base, f.large);
    var shown := Max(precision, |digits|);
    var pad := size - |SignText(num, f)| - |Prefix(base, f)| - shown;
    FillLess(pad);
    FillLess(precision - |digits|);
    FillLess(-1);
    FillLess(0);
    CoreSize(num, base, precision, f);
    Joined(SignText(num, f), Prefix(base, f), Fill(Max(pad, 0), ' '), Fill(Max(pad, 0), '0'), Fill(shown - |digits|, '0'), digits);
  }

  lemma FillLess(n: int)
    ensures forall c :: Fill(n, c) == Fill(Max(n, 0), c)
    ensures n <= 0 ==> forall c :: Fill(n, c) == ""
  {
  }

  lemma CoreSize(num: int, base: nat, precision: int, f: Flags)
    requires -0x8000_0000 <= num < 0x8000_0000 && 2 <= base <= 36
    ensures var c, d := Core(num, base, precision, f), |Numeral(Magnitude(num, f), base, f.large)|;
            |c.0| == |SignText(num, f)| + |Prefix(base, f)| && |c.1| == Max(precision, d)
  {
    hide Numeral, SignText, Prefix;
  }

  lemma Joined(s: string, p: string, b: string, z: string, k: string, d: string)
    ensures b + s + p + ("" + k + d) + "" == b + (s + p) + (k + d)
    ensures "" + s + p + (z + k + d) + "" == (s + p) + z + (k + d)
    ensures "" + s + p + ("" + k + d) + b == (s + p) + (k + d) + b
  {
    assert z + k + d == z + (k + d);
  }

  /** The digits of m, least significant first, into tmp. */
  method PutDigits(m: nat, base: nat, large: bool, tmp: array<char>) returns (i: nat)
    requires m < WRAP && 2 <= base <= 36 && tmp.Length == 66
    modifies tmp
    ensures i == |Numeral(m, base, large)| <= 32
    ensures forall k :: 0 <= k < i ==> tmp[k] == Numeral(m, base, large)[i - 1 - k]
  {
    hide Numeral;
    ZeroNumeral(base, large);
    if m == 0 {
      tmp[0] := '0';
      return 1;
    }
    LongBits();
    NumeralShort(m, base, large, 32);
    i := PutNonzero(m, base, large, tmp);
  }

  method PutNonzero(m: nat, base: nat, large: bool, tmp: array<char>) returns (i: nat)
    requires 0 < m && 2 <= base <= 36 && |Numeral(m, base, large)| <= tmp.Length
    modifies tmp
    ensures i == |Numeral(m, base, large)|
    ensures forall k :: 0 <= k < i ==> tmp[k] == Numeral(m, base, large)[i - 1 - k]
  {
    hide Numeral;
    ghost var all := Numeral(m, base, large);
    i := 0;
    var num := m;
    ghost var rest := all;
    while num != 0
      invariant 0 <= i <= |all| && 0 <= num
      invariant rest == all[..|all| - i] && (if num != 0 then rest == Numeral(num, base, large) else rest == "")
      invariant forall k :: 0 <= k < i ==> tmp[k] == all[|all| - 1 - k]
      decreases num
    {
      tmp[i], num := LastDigit(num, base, large);
      rest := rest[..|rest| - 1];
      i := i + 1;
    }
  }

  /** The last digit of n, and what the others stand for. */
  method LastDigit(n: nat, base: nat, large: bool) returns (c: char, q: nat)
    requires 2 <= base <= 36 && n > 0
    ensures var s := Numeral(n, base, large);
            c == s[|s| - 1] && q < n && s[..|s| - 1] == if q != 0 then Numeral(q, base, large) else ""
  {
    hide Numeral, DigitChar;
    Divided(n, base);
    NumeralTurn(n, base, large);
    c, q := DigitChar(n % base, large), n / base;
  }

  lemma ZeroNumeral(base: nat, large: bool)
    requires 2 <= base <= 36
    ensures Numeral(0, base, large) == "0"
  {
  }

  lemma NumeralTurn(n: nat, base: nat, large: bool)
    requires 2 <= base <= 36 && n > 0
    ensures var s := Numeral(n, base, large);
            && s[|s| - 1] == DigitChar(n % base, large) && n / base < n
            && s[..|s| - 1] == if n / base != 0 then Numeral(n / base, base, large) else ""
  {
    Divided(n, base);
    if n >= base {
      NumeralSnoc(n, base, large);
      hide Numeral, DigitChar;
      var s := Numeral(n / base, base, large);
      assert (s + [DigitChar(n % base, large)])[..|s|] == s;
    }
  }

  lemma LongBits()
    ensures Bits.Pow2(32) == WRAP
  {
    assert Bits.Pow2(8) == 256;
    assert Bits.Pow2(16) == 256 * 256;
    assert Bits.Pow2(24) == 256 * 256 * 256;
  }

  /** A loop that puts n copies of c. */
  method Pad(out0: string, n: int, c: char) returns (out: string)
    ensures out == out0 + Fill(n, c)
  {
    out := out0;
    var i := n;
    while i > 0
      invariant i <= n || n <= 0
      invariant out == out0 + Fill(n - (if i > 0 then i else 0), c)
    {
      assert Fill(n - (i - 1), c) == Fill(n - i, c) + [c];
      out := out + [c];
      i := i - 1;
    }
  }

  /** The sign of the text, the magnitude to print, and the width left for them. */
  method TakeSign(num: int, base: int, size0: int, f: Flags) returns (sign: string, m: nat, size: int)
    requires -0x8000_0000 <= num < 0x8000_0000 && 2 <= base
    ensures sign == SignText(num, f) && m == Magnitude(num, f) < WRAP && size == size0 - |sign| - |Prefix(base, f)|
  {
    size, sign := size0, "";
    m := if num < 0 then num + WRAP else num;
    if f.sign {
      if num < 0 {
        sign := "-";
        m := -num;
        size := size - 1;
      } else if f.plus {
        sign := "+";
        size := size - 1;
      } else if f.space {
        sign := " ";
        size := size - 1;
      }
    }
    if f.special {
      if base == 16 {
        size := size - 2;
      } else if base == 8 {
        size := size - 1;
      }
    }
  }

  method PutPrefix(out0: string, base: int, f: Flags) returns (out: string)
    requires 2 <= base
    ensures out == out0 + Prefix(base, f)
  {
    out := out0;
    if f.special {
      if base == 8 {
        out := out + "0";
      } else if base == 16 {
        out := out + (if f.large then "0X" else "0x");
      }
    }
  }

  /** The digits in tmp from the last one down. */
  method PutReversed(out0: string, tmp: array<char>, n: nat, ghost digits: string) returns (out: string)
    requires n == |digits| <= tmp.Length && forall k :: 0 <= k < n ==> tmp[k] == digits[n - 1 - k]
    ensures out == out0 + digits
  {
    out := out0;
    var i := n;
    while i > 0
      invariant 0 <= i <= n && out == out0 + digits[..n - i]
    {
      i := i - 1;
      assert digits[..n - i] == digits[..n - i - 1] + [tmp[i]];
      out := out + [tmp[i]];
    }
    assert digits[..n] == digits;
  }

  /** Everything before the digits and their leading zeros. */
  method PutHead(size0: int, sign: string, base: int, f: Flags) returns (out: string, size: int)
    requires 2 <= base
    ensures out == Blanks(size0, f) + sign + Prefix(base, f) + Zeros(size0, f) && size == if f.left then size0 else -1
  {
    hide Prefix;
    size, out := size0, "";
    var zeropad := f.zeropad && !f.left;
    if !zeropad && !f.left {
      out := Pad(out, size, ' ');
      size := -1;
    }
    assert out == Blanks(size0, f);
    out := out + sign;
    out := PutPrefix(out, base, f);
    if !f.left {
      out := Pad(out, size, if zeropad then '0' else ' ');
      size := -1;
    }
  }

  /** number: fails for a base it does not know. */
  method Number(num: int, base: int, size0: int, precision0: int, f: Flags) returns (ok: bool, out: string)
    requires -0x8000_0000 <= num < 0x8000_0000
    ensures ok <==> 2 <= base <= 36
    ensures ok ==> out == Text(num, base, size0, precision0, f)
  {
    if base < 2 || base > 36 {
      return false, "";
    }
    hide Numeral, Fill, SignText, Prefix, Magnitude, Blanks, Zeros, Text, Max;
    var sign, m, size := TakeSign(num, base, size0, f);
    var tmp := new char[66](_ => '0');
    var i := PutDigits(m, base, f.large, tmp);
    var precision := precision0;
    if i > precision {
      precision := i;
    }
    size := size - precision;
    TextIs(num, base, size0, precision0, f, precision, size);
    out, size := PutHead(size, sign, base, f);
    out := PutTail(out, tmp, i, precision, size, Numeral(m, base, f.large));
    ok := true;
  }

  /** Leading zeros, digits, and padding on the right. */
  method PutTail(out0: string, tmp: array<char>, i: nat, precision: int, size: int, ghost digits: string) returns (out: string)
    requires i == |digits| <= tmp.Length && forall k :: 0 <= k < i ==> tmp[k] == digits[i - 1 - k]
    ensures out == out0 + Fill(precision - i, '0') + digits + Fill(size, ' ')
  {
    hide Fill;
    out := Pad(out0, precision - i, '0');
    out := PutReversed(out, tmp, i, digits);
    out := Pad(out, size, ' ');
  }

  lemma TextIs(num: int, base: nat, size0: int, precision0: int, f: Flags, shown: int, pad: int)
    requires -0x8000_0000 <= num < 0x8000_0000 && 2 <= base <= 36
    requires var digits := Numeral(Magnitude(num, f), base, f.large);
             && shown == (if |digits| > precision0 then |digits| else precision0)
             && pad == size0 - |SignText(num, f)| - |Prefix(base, f)| - shown
    ensures var digits := Numeral(Magnitude(num, f), base, f.large);
            Text(num, base, size0, precision0, f) ==
            Blanks(pad, f) + SignText(num, f) + Prefix(base, f) + Zeros(pad, f) + Fill(shown - |digits|, '0') + digits +
            Fill(if f.left then pad else -1, ' ')
  {
    hide Numeral, SignText, Prefix, Fill, Blanks, Zeros;
    Assembled(Blanks(pad, f), SignText(num, f), Prefix(base, f), Zeros(pad, f),
              Fill(shown - |Numeral(Magnitude(num, f), base, f.large)|, '0'),
              Numeral(Magnitude(num, f), base, f.large), Fill(if f.left then pad else -1, ' '));
  }

  lemma Assembled(a: string, b: string, c: string, d: string, e: string, g: string, h: string)
    ensures a + b + c + d + e + g + h == a + b + c + (d + e + g) + h
  {
  }
}
