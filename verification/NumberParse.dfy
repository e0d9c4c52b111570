/**
 strntoumax (dos/strntoumax.c), and that it reads back what number (dos/printf.c) prints.
 */
module NumberParse {
  import opened Widths
  import opened NumberText

  predicate IsSpace(c: char) {
    c == ' ' || ('\t' <= c <= '\r')
  }

  predicate DigitIn(c: char, base: int) {
    0 <= DigitVal(c) < base
  }

  /** Number of blanks from i on, looking at n characters at most. */
  function Leading(buf: string, i: nat, n: nat): (k: nat)
    ensures k <= n
    decreases n
  {
    if n == 0 || i >= |buf| || !IsSpace(buf[i]) then 0 else 1 + Leading(buf, i + 1, n - 1)
  }

  /** Number of digits from i on, looking at n characters at most. */
  function Run(buf: string, i: nat, n: nat, base: int): (k: nat)
    ensures k <= n && i + k <= Max(i, |buf|)
    ensures forall j :: i <= j < i + k ==> j < |buf| && DigitIn(buf[j], base)
    ensures k < n && i + k < |buf| ==> !DigitIn(buf[i + k], base)
    decreases n
  {
    if n == 0 || i >= |buf| || !DigitIn(buf[i], base) then 0 else 1 + Run(buf, i + 1, n - 1, base)
  }

  lemma RunDigits(buf: string, i: nat, n: nat, base: nat)
    requires i + n <= |buf|
    ensures var k := Run(buf, i, n, base); i + k <= |buf| && AllDigits(buf[i..i + k], base)
  {
  }

  datatype Parsed = Parsed(value: nat, end: nat)

  /** A reading position, how many characters may follow, and what was seen on the way. */
  datatype Place = Place(i: nat, n: nat, minus: bool, base: nat)

  /** Blanks and a sign. A plus sign is not counted off the length. */
  function AfterSign(buf: string, base: nat, n: nat): (p: Place)
    requires n < |buf|
    ensures p.i + p.n <= |buf| && p.base == base
  {
    var a := Leading(buf, 0, n);
    if n - a > 0 && buf[a] == '-' then Place(a + 1, n - a - 1, true, base)
    else if n - a > 0 && buf[a] == '+' then Place(a + 1, n - a, false, base)
    else Place(a, n - a, false, base)
  }

  predicate HexMark(buf: string, p: Place)
    requires p.i + p.n <= |buf|
  {
    p.n >= 2 && buf[p.i] == '0' && (buf[p.i + 1] == 'x' || buf[p.i + 1] == 'X')
  }

  /** A prefix, which decides the base if none is given. */
  function AfterPrefix(buf: string, p: Place): (q: Place)
    requires p.i + p.n <= |buf|
    ensures q.i + q.n <= |buf| && (p.base != 0 ==> q.base == p.base)
  {
    if p.base == 0 then
      if HexMark(buf, p) then Place(p.i + 2, p.n - 2, p.minus, 16)
      else if p.n >= 1 && buf[p.i] == '0' then Place(p.i + 1, p.n - 1, p.minus, 8)
      else p.(base := 10)
    else if p.base == 16 && HexMark(buf, p) then Place(p.i + 2, p.n - 2, p.minus, 16)
    else p
  }

  function Signed(v: nat, minus: bool): nat {
    if minus then (WRAP64 - v % WRAP64) % WRAP64 else v % WRAP64
  }

  /** strntoumax on a buffer that is longer than the n characters it is told about. */
  function Parse(buf: string, base: nat, n: nat): Parsed
    requires n < |buf|
  {
    var p := AfterPrefix(buf, AfterSign(buf, base, n));
    var k := Run(buf, p.i, p.n, p.base);
    RunDigits(buf, p.i, p.n, p.base);
    Parsed(Signed(Value(buf[p.i..p.i + k], p.base), p.minus), p.i + k)
  }

  // ---- The code ----

  method StrNToUMax(buf: string, base0: nat, n0: nat) returns (v: nat, end: nat)
    requires n0 < |buf|
    ensures Parsed(v, end) == Parse(buf, base0, n0)
  {
    hide Value, Leading, Run, DigitIn;
    var i, n := SkipBlanks(buf, n0);
    var minus, base := false, base0;
    if n > 0 && buf[i] == '-' {
      minus := true;
      i := i + 1;
      n := n - 1;
    } else if n > 0 && buf[i] == '+' {
      i := i + 1;
    }
    assert AfterSign(buf, base0, n0) == Place(i, n, minus, base);
    i, n, base := TakePrefix(buf, i, n, base, minus);
    ParseIs(buf, base0, n0);
    hide Parse, AfterSign, AfterPrefix;
    v, end := ReadDigits(buf, i, n, base);
    if minus {
      v := (WRAP64 - v) % WRAP64;
    }
  }

  lemma ParseIs(buf: string, base: nat, n: nat)
    requires n < |buf|
    ensures var p := AfterPrefix(buf, AfterSign(buf, base, n)); var k := Run(buf, p.i, p.n, p.base);
            && p.i + k <= |buf| && AllDigits(buf[p.i..p.i + k], p.base)
            && Parse(buf, base, n) == Parsed(Signed(Value(buf[p.i..p.i + k], p.base), p.minus), p.i + k)
  {
    hide AfterSign, AfterPrefix, Value, Run, AllDigits, Signed;
    var p := AfterPrefix(buf, AfterSign(buf, base, n));
    RunDigits(buf, p.i, p.n, p.base);
  }

  method TakePrefix(buf: string, i0: nat, n0: nat, base0: nat, ghost minus: bool) returns (i: nat, n: nat, base: nat)
    requires i0 + n0 <= |buf|
    ensures Place(i, n, minus, base) == AfterPrefix(buf, Place(i0, n0, minus, base0))
  {
    i, n, base := i0, n0, base0;
    if base == 0 {
      if n >= 2 && buf[i] == '0' && (buf[i + 1] == 'x' || buf[i + 1] == 'X') {
        n := n - 2;
        i := i + 2;
        base := 16;
      } else if n >= 1 && buf[i] == '0' {
        n := n - 1;
        i := i + 1;
        base := 8;
      } else {
        base := 10;
      }
    } else if base == 16 {
      if n >= 2 && buf[i] == '0' && (buf[i + 1] == 'x' || buf[i + 1] == 'X') {
        n := n - 2;
        i := i + 2;
      }
    }
  }

  method SkipBlanks(buf: string, n0: nat) returns (i: nat, n: nat)
    requires n0 < |buf|
    ensures i == Leading(buf, 0, n0) && n == n0 - i
  {
    i, n := 0, n0;
    while n > 0 && IsSpace(buf[i])
      invariant 0 <= n <= n0 && i == n0 - n && Leading(buf, 0, n0) == i + Leading(buf, i, n)
    {
      i := i + 1;
      n := n - 1;
    }
  }

  method ReadDigits(buf: string, i0: nat, n0: nat, base: nat) returns (v: nat, i: nat)
    requires i0 + n0 <= |buf|
    ensures i == i0 + Run(buf, i0, n0, base) && AllDigits(buf[i0..i], base) && v == Value(buf[i0..i], base) % WRAP64
  {
    hide Value, Run, AllDigits;
    NoDigits(buf, i0, base);
    i, v := i0, 0;
    var n := n0;
    while n > 0 && DigitVal(buf[i]) >= 0 && DigitVal(buf[i]) < base
      invariant 0 <= n <= n0 && i == i0 + (n0 - n) && Run(buf, i0, n0, base) == (i - i0) + Run(buf, i, n, base)
      invariant AllDigits(buf[i0..i], base) && v == Value(buf[i0..i], base) % WRAP64
    {
      RunTurn(buf, i, n, base);
      MoreDigits(buf, i0, i, base);
      v := (v * base + DigitVal(buf[i])) % WRAP64;
      n := n - 1;
      i := i + 1;
    }
    RunTurn(buf, i, n, base);
  }

  lemma NoDigits(buf: string, i: nat, base: nat)
    requires i <= |buf|
    ensures AllDigits(buf[i..i], base) && Value(buf[i..i], base) == 0
  {
  }

  lemma RunTurn(buf: string, i: nat, n: nat, base: nat)
    requires i + n <= |buf|
    ensures Run(buf, i, n, base) == if n > 0 && 0 <= DigitVal(buf[i]) < base then 1 + Run(buf, i + 1, n - 1, base) else 0
  {
  }

  /** One more digit, modulo 2^64. */
  lemma MoreDigits(buf: string, i0: nat, i: nat, base: nat)
    requires i0 <= i < |buf| && 0 <= DigitVal(buf[i]) < base && AllDigits(buf[i0..i], base)
    ensures AllDigits(buf[i0..i + 1], base)
    ensures Value(buf[i0..i + 1], base) % WRAP64 == (Value(buf[i0..i], base) % WRAP64 * base + DigitVal(buf[i])) % WRAP64
  {
    hide Value, AllDigits, DigitVal;
    var s := buf[i0..i];
    ValueSnoc(s, buf[i], base);
    assert buf[i0..i + 1] == s + [buf[i]];
    AddDigit(Value(s, base), base, DigitVal(buf[i]));
  }

  lemma AddDigit(x: nat, base: nat, d: nat)
    ensures (x % WRAP64 * base + d) % WRAP64 == (x * base + d) % WRAP64
  {
    var q, r := x / WRAP64, x % WRAP64;
    var y := r * base + d;
    assert x * base + d == WRAP64 * (q * base) + y by {
      assert x * base == (WRAP64 * q + r) * base;
    }
    Wrapped(q * base, y);
  }

  lemma Wrapped(k: nat, y: nat)
    ensures (WRAP64 * k + y) % WRAP64 == y % WRAP64
  {
    var p := y / WRAP64;
    assert WRAP64 * k + y == WRAP64 * (k + p) + y % WRAP64;
  }

  // ---- Reading back ----

  lemma {:induction false} LeadingIs(buf: string, i: nat, n: nat, k: nat)
    requires i + k < |buf| && k <= n && !IsSpace(buf[i + k]) && forall j :: i <= j < i + k ==> IsSpace(buf[j])
    ensures Leading(buf, i, n) == k
    decreases k
  {
    if k > 0 { LeadingIs(buf, i + 1, n - 1, k - 1); }
  }

  lemma {:induction false} RunIs(buf: string, i: nat, n: nat, base: int, k: nat)
    requires i + k < |buf| && k <= n && !DigitIn(buf[i + k], base) && forall j :: i <= j < i + k ==> DigitIn(buf[j], base)
    ensures Run(buf, i, n, base) == k
    decreases k
  {
    if k > 0 { RunIs(buf, i + 1, n - 1, base, k - 1); }
  }

  /** The digits of the text with all their leading zeros. */
  function Body(num: int, base: nat, size: int, precision: int, f: Flags): string
    requires -0x8000_0000 <= num < 0x8000_0000 && 2 <= base <= 36
  {
    var digits := Numeral(Magnitude(num, f), base, f.large);
    var shown := Max(precision, |digits|);
    Zeros(PadOf(num, base, size, precision, f), f) + Fill(shown - |digits|, '0') + digits
  }

  function PadOf(num: int, base: nat, size: int, precision: int, f: Flags): int
    requires -0x8000_0000 <= num < 0x8000_0000 && 2 <= base <= 36
  {
    var digits := Numeral(Magnitude(num, f), base, f.large);
    size - |SignText(num, f)| - |Prefix(base, f)| - Max(precision, |digits|)
  }

  function Trailing(num: int, base: nat, size: int, precision: int, f: Flags): string
    requires -0x8000_0000 <= num < 0x8000_0000 && 2 <= base <= 36
  {
    Fill(if f.left then PadOf(num, base, size, precision, f) else -1, ' ')
  }

  lemma BodyValue(num: int, base: nat, size: int, precision: int, f: Flags)
    requires -0x8000_0000 <= num < 0x8000_0000 && 2 <= base <= 36
    ensures var b := Body(num, base, size, precision, f); |b| > 0 && AllDigits(b, base) && Value(b, base) == Magnitude(num, f)
  {
    hide Value, Numeral, Fill, AllDigits;
    var digits := Numeral(Magnitude(num, f), base, f.large);
    var shown := Max(precision, |digits|);
    var pad := PadOf(num, base, size, precision, f);
    NumeralValue(Magnitude(num, f), base, f.large);
    LeadingZeros(shown - |digits|, digits, base);
    var z := if f.zeropad && !f.left && pad > 0 then pad else 0;
    LeadingZeros(z, Fill(shown - |digits|, '0') + digits, base);
    ZerosAre(pad, f, z);
    assert Zeros(pad, f) + (Fill(shown - |digits|, '0') + digits) == Body(num, base, size, precision, f);
  }

  lemma ZerosAre(pad: int, f: Flags, z: nat)
    requires z == if f.zeropad && !f.left && pad > 0 then pad else 0
    ensures Zeros(pad, f) == Fill(z, '0')
  {
  }

  lemma TextParts(num: int, base: nat, size: int, precision: int, f: Flags)
    requires -0x8000_0000 <= num < 0x8000_0000 && 2 <= base <= 36
    ensures Text(num, base, size, precision, f) ==
            Blanks(PadOf(num, base, size, precision, f), f) + SignText(num, f) + Prefix(base, f) + Body(num, base, size, precision, f) +
            Trailing(num, base, size, precision, f)
  {
  }

  /** What was printed, as a 64-bit number. */
  function Printed(num: int, f: Flags): nat
    requires -0x8000_0000 <= num < 0x8000_0000
  {
    if f.sign && num < 0 then num + WRAP64 else Magnitude(num, f)
  }

  /** A text of blanks, sign, prefix, digits and blanks, in front of a null character. */
  lemma ParseParts(bl: string, sg: string, pf: string, body: string, tr: string, rest: string, base: nat)
    requires 2 <= base <= 36 && |body| > 0 && AllDigits(body, base) && (sg == "" || sg == "-" || sg == "+" || sg == " ")
    requires pf == "" || (pf == "0" && base == 8) || ((pf == "0x" || pf == "0X") && base == 16)
    requires (forall i :: 0 <= i < |bl| ==> bl[i] == ' ') && (forall i :: 0 <= i < |tr| ==> tr[i] == ' ')
    ensures var t := bl + sg + pf + body + tr;
            Parse(t + ['\0'] + rest, base, |t|) == Parsed(Signed(Value(body, base), sg == "-"), |bl + sg + pf + body|)
  {
    var t := bl + sg + pf + body + tr;
    var buf := t + ['\0'] + rest;
    Layout(bl, sg, pf, body, tr, rest);
    ParseBuffer(buf, bl, sg, pf, body, base, |t|);
  }

  lemma ParseBuffer(buf: string, bl: string, sg: string, pf: string, body: string, base: nat, n: nat)
    requires 2 <= base <= 36 && |body| > 0 && AllDigits(body, base) && (sg == "" || sg == "-" || sg == "+" || sg == " ")
    requires pf == "" || (pf == "0" && base == 8) || ((pf == "0x" || pf == "0X") && base == 16)
    requires forall i :: 0 <= i < |bl| ==> bl[i] == ' '
    requires |bl + sg + pf + body| <= n < |buf| && DigitVal(buf[|bl + sg + pf + body|]) < 0
    requires buf[..|bl|] == bl && buf[|bl|..|bl + sg|] == sg && buf[|bl + sg|..|bl + sg + pf + body|] == pf + body
    ensures Parse(buf, base, n) == Parsed(Signed(Value(body, base), sg == "-"), |bl + sg + pf + body|)
  {
    hide AfterSign, AfterPrefix, Parse, Value, Run, DigitVal, AllDigits, Signed;
    var at, s := |bl + sg|, pf + body;
    SignPlace(buf, bl, sg, pf, body, base, base, n);
    var p := AfterSign(buf, base, n);
    assert buf[at..at + |s|] == s;
    PrefixPlace(buf, p, pf, body, base);
    if base == 16 && pf != "" {
      ParseFrom(buf, base, base, n, at + 2, p.n - 2, sg == "-", body);
    } else {
      PrefixDigits(pf, body, base);
      ParseFrom(buf, base, base, n, at, p.n, sg == "-", s);
    }
  }

  /** With the base given, only 0x is passed over, and only in base 16. */
  lemma PrefixPlace(buf: string, p: Place, pf: string, body: string, base: nat)
    requires 2 <= base <= 36 && p.base == base && p.i + p.n <= |buf| && p.n >= |pf + body| && |body| > 0 && AllDigits(body, base)
    requires pf == "" || (pf == "0" && base == 8) || ((pf == "0x" || pf == "0X") && base == 16)
    requires p.i + |pf + body| < |buf| && buf[p.i..p.i + |pf + body|] == pf + body && DigitVal(buf[p.i + |pf + body|]) < 0
    ensures AfterPrefix(buf, p) == if base == 16 && pf != "" then Place(p.i + 2, p.n - 2, p.minus, 16) else p
    ensures base == 16 && pf != "" ==> |pf| == 2 && buf[p.i + 2..p.i + |pf + body|] == body
  {
    hide DigitVal, AllDigits;
    var s := pf + body;
    if base == 16 {
      if pf == "" {
        assert s == body;
        NoHexMark(buf, p, base, body);
      } else {
        assert buf[p.i] == s[0] && buf[p.i + 1] == s[1];
        assert buf[p.i + 2..p.i + |s|] == buf[p.i..p.i + |s|][2..] == body;
      }
    }
  }

  /** Reading the digits s from place i on. */
  lemma ParseFrom(buf: string, base0: nat, base: nat, len: nat, i: nat, n: nat, minus: bool, s: string)
    requires len < |buf| && AfterPrefix(buf, AfterSign(buf, base0, len)) == Place(i, n, minus, base)
    requires i + |s| < |buf| && |s| <= n && buf[i..i + |s|] == s && AllDigits(s, base) && DigitVal(buf[i + |s|]) < 0
    ensures Parse(buf, base0, len) == Parsed(Signed(Value(s, base), minus), i + |s|)
  {
    hide AfterSign, AfterPrefix, Value, Run;
    DigitsRun(buf, i, n, base, s);
    ParseIs(buf, base0, len);
  }

  /** Where the parts of a text are. */
  lemma Layout(bl: string, sg: string, pf: string, body: string, tr: string, rest: string)
    ensures var t := bl + sg + pf + body + tr; var buf := t + ['\0'] + rest; var at := |bl + sg|; var end := |bl + sg + pf + body|;
            && |t| < |buf| && buf[..|bl|] == bl && buf[|bl|..at] == sg && buf[at..end] == pf + body
            && buf[end] == (tr + ['\0'])[0] && end <= |t|
  {
    var buf := bl + sg + pf + body + tr + ['\0'] + rest;
    assert buf == bl + (sg + (pf + body) + (tr + ['\0'] + rest));
    assert buf == bl + sg + ((pf + body) + (tr + ['\0'] + rest));
    assert buf == bl + sg + (pf + body) + (tr + ['\0'] + rest);
  }

  lemma SignPlace(buf: string, bl: string, sg: string, pf: string, body: string, base: nat, base0: nat, n: nat)
    requires |bl + sg + pf + body| <= n < |buf| && |body| > 0 && AllDigits(body, base)
    requires sg == "" || sg == "-" || sg == "+" || sg == " "
    requires pf == "" || pf == "0" || pf == "0x" || pf == "0X"
    requires forall i :: 0 <= i < |bl| ==> bl[i] == ' '
    requires buf[..|bl|] == bl && buf[|bl|..|bl + sg|] == sg && buf[|bl + sg|..|bl + sg + pf + body|] == pf + body
    ensures var p := AfterSign(buf, base0, n);
            p.i == |bl + sg| && p.minus == (sg == "-") && p.n == n - |bl + sg| + if sg == "+" then 1 else 0
  {
    var at := |bl + sg|;
    assert buf[at] == (pf + body)[0];
    FirstDigit(pf, body, base);
    assert forall j :: 0 <= j < |bl| ==> buf[j] == bl[j];
    if |sg| == 1 { assert buf[|bl|] == sg[0]; }
    if sg == "" || sg == " " {
      LeadingIs(buf, 0, n, at);
    } else {
      LeadingIs(buf, 0, n, |bl|);
    }
  }

  /** Neither a blank nor a sign starts the digits. */
  lemma FirstDigit(pf: string, body: string, base: nat)
    requires |body| > 0 && AllDigits(body, base) && (pf == "" || pf == "0" || pf == "0x" || pf == "0X")
    ensures var c := (pf + body)[0]; !IsSpace(c) && c != '-' && c != '+'
  {
    assert DigitVal(body[0]) >= 0;
  }

  lemma PrefixDigits(pf: string, body: string, base: nat)
    requires AllDigits(body, base) && base >= 1 && (pf == "" || pf == "0")
    ensures AllDigits(pf + body, base) && Value(pf + body, base) == Value(body, base)
  {
    if pf == "0" {
      assert Fill(1, '0') == "0";
      LeadingZeros(1, body, base);
    } else {
      assert pf + body == body;
    }
  }

  /** The digits are read up to the blank or null character behind them. */
  lemma DigitsRun(buf: string, i: nat, n: nat, base: nat, s: string)
    requires i + |s| < |buf| && |s| <= n && buf[i..i + |s|] == s && AllDigits(s, base) && DigitVal(buf[i + |s|]) < 0
    ensures Run(buf, i, n, base) == |s|
  {
    forall j | i <= j < i + |s|
      ensures DigitIn(buf[j], base)
    {
      assert buf[j] == s[j - i];
    }
    RunIs(buf, i, n, base, |s|);
  }

  /** Base 16 digits do not look like a prefix. */
  lemma NoHexMark(buf: string, p: Place, base: nat, body: string)
    requires base == 16 && p.i + p.n <= |buf| && |body| > 0 && AllDigits(body, base) && p.i + |body| < |buf|
    requires buf[p.i..p.i + |body|] == body && DigitVal(buf[p.i + |body|]) < 0
    ensures !HexMark(buf, p)
  {
    if p.n >= 2 && |body| > 1 {
      assert buf[p.i + 1] == body[1];
      assert DigitVal(body[1]) < 16;
    }
  }

  /** For every base, width, precision and flags: the text is read back as the number that was printed. */
  lemma ReadBack(num: int, base: nat, size: int, precision: int, f: Flags, rest: string)
    requires -0x8000_0000 <= num < 0x8000_0000 && 2 <= base <= 36
    ensures var t := Text(num, base, size, precision, f);
            Parse(t + ['\0'] + rest, base, |t|).value == Printed(num, f)
  {
    hide Parse, Value, Body, Text, Trailing, Blanks, SignText, Prefix, Signed, Printed, AllDigits, PadOf, Magnitude;
    SignAndPrefix(num, base, f);
    SignedPrinted(num, f);
    BlanksBlank(PadOf(num, base, size, precision, f), f);
    BodyValue(num, base, size, precision, f);
    TextParts(num, base, size, precision, f);
    TrailingBlank(num, base, size, precision, f);
    ParseParts(Blanks(PadOf(num, base, size, precision, f), f), SignText(num, f), Prefix(base, f),
               Body(num, base, size, precision, f), Trailing(num, base, size, precision, f), rest, base);
  }

  // ---- Base 0: the text tells ----

  /** Hexadecimal digits behind 0x, octal ones behind 0, and decimal ones that do not start with 0. */
  ghost predicate Telling(pf: string, s: string, base: nat) {
    || ((pf == "0x" || pf == "0X") && |s| > 0 && base == 16)
    || (pf == "0" && base == 8)
    || (pf == "" && |s| > 0 && s[0] != '0' && base == 10)
  }

  /** With base 0, the text is read to its end in the base that it tells. */
  lemma ReadTelling(bl: string, sg: string, pf: string, s: string, rest: string, base: nat)
    requires Telling(pf, s, base) && AllDigits(s, base) && (sg == "" || sg == "-" || sg == "+") && forall i :: 0 <= i < |bl| ==> bl[i] == ' '
    ensures var t := bl + sg + pf + s; Parse(t + ['\0'] + rest, 0, |t|) == Parsed(Signed(Value(s, base), sg == "-"), |t|)
  {
    hide AfterSign, Parse, Value, Run, DigitVal, AllDigits, Signed;
    var t := bl + sg + pf + s;
    var buf, at := t + ['\0'] + rest, |bl + sg|;
    TellingLayout(bl, sg, pf, s, rest);
    TellingSign(buf, bl, sg, pf, s, base, |t|);
    var p := AfterSign(buf, 0, |t|);
    TellingPrefix(buf, p, pf, s, base);
    NulIsNoDigit();
    ParseFrom(buf, 0, base, |t|, at + |pf|, p.n - |pf|, sg == "-", s);
  }

  lemma NulIsNoDigit()
    ensures DigitVal('\0') < 0
  {
  }

  lemma TellingLayout(bl: string, sg: string, pf: string, s: string, rest: string)
    ensures var t := bl + sg + pf + s; var buf := t + ['\0'] + rest; var at := |bl + sg|;
            && |t| < |buf| && buf[..|bl|] == bl && buf[|bl|..at] == sg && buf[at..|t|] == pf + s
            && buf[|t|] == '\0' && buf[at + |pf|..at + |pf| + |s|] == s
  {
    var buf := bl + sg + pf + s + ['\0'] + rest;
    assert buf == bl + (sg + (pf + s) + (['\0'] + rest));
    assert buf == bl + sg + ((pf + s) + (['\0'] + rest));
    assert buf == bl + sg + pf + (s + (['\0'] + rest));
  }

  lemma TellingSign(buf: string, bl: string, sg: string, pf: string, s: string, base: nat, n: nat)
    requires Telling(pf, s, base) && AllDigits(s, base) && (sg == "" || sg == "-" || sg == "+") && forall i :: 0 <= i < |bl| ==> bl[i] == ' '
    requires n == |bl + sg + pf + s| < |buf|
    requires buf[..|bl|] == bl && buf[|bl|..|bl + sg|] == sg && buf[|bl + sg|..n] == pf + s
    ensures var p := AfterSign(buf, 0, n);
            && p.i == |bl + sg| && p.minus == (sg == "-") && p.n == |pf + s| + (if sg == "+" then 1 else 0) && p.base == 0
  {
    hide AfterSign;
    if pf == "0" {
      ZeroDigits(s);
      assert "" + ("0" + s) == pf + s;
      assert bl + sg + "" + ("0" + s) == bl + sg + pf + s;
      SignPlace(buf, bl, sg, "", "0" + s, 8, 0, n);
    } else {
      SignPlace(buf, bl, sg, pf, s, base, 0, n);
    }
  }

  lemma ZeroDigits(s: string)
    requires AllDigits(s, 8)
    ensures AllDigits("0" + s, 8)
  {
  }

  lemma TellingPrefix(buf: string, p: Place, pf: string, s: string, base: nat)
    requires Telling(pf, s, base) && AllDigits(s, base) && p.base == 0 && p.i + p.n <= |buf| && p.n >= |pf + s|
    requires p.i + |pf + s| < |buf| && buf[p.i..p.i + |pf + s|] == pf + s && buf[p.i + |pf + s|] == '\0'
    ensures AfterPrefix(buf, p) == Place(p.i + |pf|, p.n - |pf|, p.minus, base)
  {
    var w := pf + s;
    assert |w| > 0 && buf[p.i] == w[0];
    assert |w| > 1 ==> buf[p.i + 1] == w[1];
    if |s| > 0 { assert DigitIn(s[0], base); }
  }

  lemma SignAndPrefix(num: int, base: nat, f: Flags)
    ensures var sg := SignText(num, f); sg == "" || sg == "-" || sg == "+" || sg == " "
    ensures var pf := Prefix(base, f); pf == "" || (pf == "0" && base == 8) || ((pf == "0x" || pf == "0X") && base == 16)
  {
  }

  lemma SignedPrinted(num: int, f: Flags)
    requires -0x8000_0000 <= num < 0x8000_0000
    ensures Signed(Magnitude(num, f), SignText(num, f) == "-") == Printed(num, f)
  {
  }

  lemma BlanksBlank(pad: int, f: Flags)
    ensures forall i :: 0 <= i < |Blanks(pad, f)| ==> Blanks(pad, f)[i] == ' '
  {
  }

  lemma TrailingBlank(num: int, base: nat, size: int, precision: int, f: Flags)
    requires -0x8000_0000 <= num < 0x8000_0000 && 2 <= base <= 36
    ensures var tr := Trailing(num, base, size, precision, f); forall i :: 0 <= i < |tr| ==> tr[i] == ' '
  {
  }
}
