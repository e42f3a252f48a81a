/** The integer field that section 7.21.6.1 of C11 asks for, and exactly when printf.c writes it. */
module PrintfStandard {
  import opened Words
  import opened Arithmetic
  import opened PrintfSpec
  import opened PrintfTheorems

  function Times(c: char, n: int): (s: string)
    ensures |s| == if n < 0 then 0 else n
  {
    if n <= 0 then "" else seq(n, _ => c)
  }

  /** v in digits, the most significant first. */
  function Numeral(v: nat, base: nat, upper: bool): (s: string)
    requires 2 <= base <= 16
    ensures s != ""
  {
    (if v < base then "" else Numeral(v / base, base, upper))
    + [(if upper then "0123456789ABCDEF" else "0123456789abcdef")[v % base]]
  }

  function SignText(neg: bool, f: Flags): string {
    if neg then "-" else if f.plus then "+" else if f.space then " " else ""
  }

  /** No digits for a zero with an explicit precision. */
  function DigitText(v: nat, base: nat, f: Flags): string
    requires 2 <= base <= 16
  {
    if v == 0 && f.precision then "" else Numeral(v, base, f.upper)
  }

  function PrefixText(v: nat, base: nat, f: Flags): string {
    if !f.hash || v == 0 then ""
    else if base == 16 then (if f.upper then "0X" else "0x")
    else if base == 2 then "0b"
    else if base == 8 then "0" else ""
  }

  /**
   * The sign, the prefix, zeros up to the precision or, with '0' and without '-', up to the width,
   * and the digits; blanks behind with '-', otherwise in front.
   */
  function Standard(v: nat, neg: bool, base: nat, prec: nat, width: nat, f: Flags): string
    requires 2 <= base <= 16
  {
    LaidOut(SignText(neg, f), PrefixText(v, base, f), DigitText(v, base, f), prec, width, f)
  }

  function LaidOut(sign: string, prefix: string, digits: string, prec: nat, width: nat, f: Flags): string {
    var least := if f.zeropad && !f.left && width - |sign| > prec then width - |sign| else prec;
    var body := sign + prefix + Times('0', least - |digits|) + digits;
    if f.left then body + Times(' ', width - |body|) else Times(' ', width - |body|) + body
  }

  // ---- the pieces

  lemma {:induction false} CopiesAreTimes(c: char, n: int)
    ensures Copies(c, n) == Times(c, n)
  {
    CopiesAre(c, n);
  }

  lemma {:induction false} ReversedCopies(c: char, n: int)
    ensures Reversed(Copies(c, n)) == Times(c, n)
  {
    if n > 0 {
      ReversedCopies(c, n - 1);
      ReversedPush(Copies(c, n - 1), c);
    }
  }

  /** The conversion buffer backwards is the numeral, as long as there is room for it. */
  lemma {:induction false} DigitsAreNumeral(v: nat, base: nat, q: nat, room: nat, upper: bool)
    requires 2 <= q <= base <= 16 && v < Pow(q, room) && room > 0
    ensures Reversed(Digits(v, base, room, upper)) == Numeral(v, base, upper)
    decreases room
  {
    hide Pow, Digits, Reversed, Numeral, DigitChar;
    DigitsUnfold(v, base, room, upper);
    PushFront(DigitChar(v % base, upper), if v / base == 0 then "" else Digits(v / base, base, room - 1, upper));
    NumeralUnfolds(v, base, upper);
    SmallIff(v, base);
    if v / base != 0 {
      QuotientIsSmaller(v, base, q, room);
      DigitsAreNumeral(v / base, base, q, room - 1, upper);
    }
  }

  lemma PushFront(c: char, rest: string)
    ensures Reversed([c] + rest) == Reversed(rest) + [c]
    ensures Reversed("") == ""
  {
    assert ([c] + rest)[1..] == rest;
  }

  lemma NumeralUnfolds(v: nat, base: nat, upper: bool)
    requires 2 <= base <= 16
    ensures Numeral(v, base, upper) ==
            (if v < base then "" else Numeral(v / base, base, upper)) + [DigitChar(v % base, upper)]
  {
    if v % base < 10 {
    } else if upper {
      assert "0123456789ABCDEF" == "0123456789" + "ABCDEF";
    } else {
      assert "0123456789abcdef" == "0123456789" + "abcdef";
    }
  }

  lemma SmallIff(v: nat, base: nat)
    requires base > 0
    ensures v / base == 0 <==> v < base
  {
  }

  lemma QuotientIsSmaller(v: nat, base: nat, q: nat, room: nat)
    requires 2 <= q <= base && v < Pow(q, room) && room > 0 && v / base != 0
    ensures room > 1 && v / base < Pow(q, room - 1)
  {
    var p := Pow(q, room - 1);
    DivMod(v, base);
    MulLe(q, base, v / base);
    assert room == 1 ==> p == 1;
    if v / base >= p { MulLe(p, v / base, q); }
  }

  /** How many digits a number can have here, and that none is a leading zero. */
  lemma {:induction false} NumeralStart(v: nat, base: nat, upper: bool)
    requires 2 <= base <= 16
    ensures Numeral(v, base, upper)[0] == '0' <==> v == 0
    ensures v == 0 ==> |Numeral(v, base, upper)| == 1
  {
    hide Numeral, DigitChar;
    NumeralUnfolds(v, base, upper);
    ZeroDigit(v % base, upper);
    SmallIff(v, base);
    if v >= base {
      NumeralStart(v / base, base, upper);
    }
  }

  lemma ZeroDigit(d: nat, upper: bool)
    requires d < 16
    ensures DigitChar(d, upper) == '0' <==> d == 0
  {
  }

  /** The numbers whose digits are not cut off, leaving room for a sign. */
  predicate Fits32(v: nat, base: nat, neg: bool, f: Flags) {
    || ((base == 8 || base == 10 || base == 16) && v < 0x1_0000_0000_0000_0000)
    || (base == 2 && v < 0x1_0000_0000 && !Signed(neg, f))
  }

  lemma DigitTextIs(v: nat, base: nat, neg: bool, f: Flags)
    requires Fits32(v, base, neg, f)
    ensures 2 <= base <= 16
    ensures Reversed(if f.precision && v == 0 then "" else Digits(v, base, NTOA_SIZE, f.upper)) == DigitText(v, base, f)
    ensures |DigitText(v, base, f)| + |SignText(neg, f)| <= 32 && (base != 2 ==> |DigitText(v, base, f)| <= 22)
  {
    hide Pow, Digits, Numeral;
    WordsFit();
    if f.precision && v == 0 {
    } else if base == 2 {
      DigitsAreNumeral(v, 2, 2, NTOA_SIZE, f.upper);
      SameLength(v, base, f);
    } else {
      DigitsAreNumeral(v, base, 8, NTOA_SIZE, f.upper);
      DigitsAreFew(v, base, NTOA_SIZE, 22, f.upper);
    }
  }

  lemma SameLength(v: nat, base: nat, f: Flags)
    requires 2 <= base <= 16
    ensures |Reversed(Digits(v, base, NTOA_SIZE, f.upper))| <= 32
  {
  }

  // ---- the whole field

  lemma {:induction false} ReversedTwo(a: string, b: string)
    ensures Reversed(a + b) == Reversed(b) + Reversed(a)
  {
    ReversedJoin(a, b);
  }

  /** Zeros to fill up to n characters, when the buffer is large enough. */
  lemma ZeroFilledIs(b: string, n: nat)
    requires n <= NTOA_SIZE && |b| <= NTOA_SIZE
    ensures Reversed(ZeroFilled(b, n)) == Times('0', n - |b|) + Reversed(b)
    ensures |ZeroFilled(b, n)| == if n > |b| then n else |b|
  {
    hide Reversed;
    ReversedJoin(b, Copies('0', n - |b|));
    ReversedCopies('0', n - |b|);
  }

  lemma TimesJoin(c: char, m: int, n: int)
    requires n >= 0 && m >= 0
    ensures Times(c, m) + Times(c, n) == Times(c, m + n)
  {
  }

  /** Under which conditions nothing runs out of the buffer, and '-' hides no precision. */
  predicate InRoom(v: nat, neg: bool, base: nat, prec: nat, width: nat, f: Flags)
    requires 2 <= base <= 16
  {
    if f.left then prec <= |DigitText(v, base, f)|
    else prec + |SignText(neg, f)| <= 32 && (f.zeropad ==> width <= 32)
  }

  lemma PaddedIs(b: string, sign: nat, prec: u32, width: u32, f: Flags)
    requires sign <= 1 && |b| + sign <= 32 && !f.left
    requires prec + sign <= 32 && (f.zeropad ==> width <= 32)
    ensures var inner: nat := if f.zeropad && width > 0 then width - sign else width;
            var least := if f.zeropad && width - sign > prec then width - sign else prec;
            && Reversed(Padded(b, prec, inner, f)) == Times('0', least - |b|) + Reversed(b)
            && |Padded(b, prec, inner, f)| == (if least > |b| then least else |b|)
  {
    hide Reversed, Copies;
    ZeroFilledIs(b, prec);
    if f.zeropad {
      var inner: nat := if width > 0 then width - sign else width;
      ZeroFilledIs(ZeroFilled(b, prec), inner);
      var z1 := if prec > |b| then prec - |b| else 0;
      var z2 := if inner > |b| + z1 then inner - (|b| + z1) else 0;
      TimesJoin('0', z2, z1);
      assert Times('0', z2) + (Times('0', z1) + Reversed(b)) == (Times('0', z2) + Times('0', z1)) + Reversed(b);
    }
  }

  lemma SignedIs(b: string, neg: bool, f: Flags)
    requires |b| + |SignText(neg, f)| <= 32
    ensures Reversed(WithSign(b, neg, f)) == SignText(neg, f) + Reversed(b)
    ensures |WithSign(b, neg, f)| == |b| + |SignText(neg, f)|
  {
    hide Reversed;
    if neg { ReversedPush(b, '-'); } else if f.plus { ReversedPush(b, '+'); } else if f.space { ReversedPush(b, ' '); }
  }

  /** Within those conditions the field without '#' is the standard's. */
  lemma NtoaIsStandard(v: u64, neg: bool, base: nat, prec: u32, width: u32, f: Flags)
    requires Fits32(v, base, neg, f) && !f.hash && InRoom(v, neg, base, prec, width, f)
    ensures Ntoa(v, neg, base, prec, width, f) == Standard(v, neg, base, prec, width, f)
  {
    hide Reversed, Digits, Numeral, Field, Padded, WithSign, Copies, DigitText, LaidOut, InnerWidth;
    DigitTextIs(v, base, neg, f);
    assert f.(hash := false) == f;
    var b := if f.precision && v == 0 then "" else Digits(v, base, NTOA_SIZE, f.upper);
    if f.left {
      LeftField(b, neg, prec, width, f);
    } else {
      RightField(b, neg, prec, width, f);
    }
  }

  lemma LeftField(b: string, neg: bool, prec: u32, width: u32, f: Flags)
    requires f.left && |b| + |SignText(neg, f)| <= 32 && prec <= |b|
    ensures var inner := InnerWidth(neg, width, f);
            Field(WithSign(Padded(b, prec, inner, f), neg, f), inner, f)
            == LaidOut(SignText(neg, f), "", Reversed(b), prec, width, f)
  {
    hide Reversed, WithSign, SignText, Copies, Padded, Field, LaidOut;
    SignedIs(b, neg, f);
    LeftPadded(b, prec, width, f);
    NothingBefore(Reversed(b));
    LeftLaid(WithSign(b, neg, f), SignText(neg, f), "", Reversed(b), prec, width, f);
  }

  lemma RightField(b: string, neg: bool, prec: u32, width: u32, f: Flags)
    requires !f.left && |b| + |SignText(neg, f)| <= 32
    requires prec + |SignText(neg, f)| <= 32 && (f.zeropad ==> width <= 32)
    ensures var inner := InnerWidth(neg, width, f);
            Field(WithSign(Padded(b, prec, inner, f), neg, f), inner, f)
            == LaidOut(SignText(neg, f), "", Reversed(b), prec, width, f)
  {
    hide Reversed, WithSign, Copies, Padded, Field, LaidOut, SignText, Signed, InnerWidth, Times;
    InnerIs(neg, width, f);
    var s, inner := SignText(neg, f), InnerWidth(neg, width, f);
    SignLengthIs(neg, f);
    PaddedIs(b, |s|, prec, width, f);
    SignedIs(Padded(b, prec, inner, f), neg, f);
    var c := WithSign(Padded(b, prec, inner, f), neg, f);
    if f.zeropad {
      NothingBefore(Times('0', ZerosUpTo(|s|, prec, width, f) - |b|) + Reversed(b));
      ZeroLaidOut(c, s, "", Reversed(b), prec, width, inner, f);
    } else {
      NothingBefore(Times('0', prec - |b|) + Reversed(b));
      BlankLaidOut(c, s, "", Reversed(b), prec, width, f);
    }
  }

  lemma NothingBefore(a: string)
    ensures "" + a == a
  {
  }

  function ZerosUpTo(sign: nat, prec: nat, width: nat, f: Flags): nat {
    if f.zeropad && !f.left && width - sign > prec then width - sign else prec
  }

  lemma InnerIs(neg: bool, width: u32, f: Flags)
    requires !f.left
    ensures InnerWidth(neg, width, f) == if f.zeropad && width > 0 then width - |SignText(neg, f)| else width
  {
  }

  lemma ZeroLaidOut(c: string, s: string, prefix: string, digits: string, prec: nat, width: u32, inner: u32, f: Flags)
    requires f.zeropad && !f.left
    requires var least: nat := if width - |s| > prec then width - |s| else prec;
             Reversed(c) == s + (prefix + (Times('0', least - |digits|) + digits))
    ensures Field(c, inner, f) == LaidOut(s, prefix, digits, prec, width, f)
  {
    hide Reversed;
    var least: nat := if width - |s| > prec then width - |s| else prec;
    var body := s + prefix + Times('0', least - |digits|) + digits;
    assert body == Reversed(c);
    assert |body| >= width;
  }

  lemma BlankLaidOut(c: string, s: string, prefix: string, digits: string, prec: nat, width: u32, f: Flags)
    requires !f.zeropad && !f.left
    requires Reversed(c) == s + (prefix + (Times('0', prec - |digits|) + digits))
    ensures Field(c, width, f) == LaidOut(s, prefix, digits, prec, width, f)
  {
    hide Reversed;
    CopiesAreTimes(' ', width - |c|);
    assert s + prefix + Times('0', prec - |digits|) + digits == Reversed(c);
  }

  lemma LeftLaid(c: string, s: string, prefix: string, digits: string, prec: nat, width: u32, f: Flags)
    requires f.left && prec <= |digits| && Reversed(c) == s + (prefix + digits)
    ensures Field(c, width, f) == LaidOut(s, prefix, digits, prec, width, f)
  {
    hide Reversed;
    CopiesAreTimes(' ', width - |c|);
    assert Times('0', prec - |digits|) == "";
    assert s + prefix + "" + digits == Reversed(c);
  }

  lemma SignLengthIs(neg: bool, f: Flags)
    ensures |SignText(neg, f)| == if Signed(neg, f) then 1 else 0
  {
  }

  lemma LeftPadded(b: string, prec: u32, width: u32, f: Flags)
    requires f.left
    ensures Padded(b, prec, width, f) == b
  {
  }

  lemma NoTimes(c: char, n: int)
    ensures n <= 0 ==> Times(c, n) == ""
  {
  }

  // ---- and outside them it is not

  /** A blank for a sign looks like one more blank in front. */
  predicate BlankSign(neg: bool, prec: nat, width: nat, f: Flags) {
    !f.left && !f.zeropad && SignText(neg, f) == " " && prec == 32 && width > 32
  }

  lemma LaidOutLength(sign: string, digits: string, prec: nat, width: nat, f: Flags)
    ensures |LaidOut(sign, "", digits, prec, width, f)| ==
            Max(width, |sign| + Max(|digits|, prec))
  {
  }

  /** Without '-' and too wide: the buffer holds 32 digits and no sign. */
  lemma FullBuffer(b: string, neg: bool, prec: u32, width: u32, f: Flags)
    requires !f.left && !f.zeropad && |b| <= 32 && prec >= 32
    ensures Field(WithSign(Padded(b, prec, width, f), neg, f), width, f) ==
            Times(' ', width - 32) + (Times('0', 32 - |b|) + Reversed(b))
  {
    hide Reversed, Copies, ZeroFilled, WithSign, Padded, Times, Field;
    FullPadding(b, prec, width, f);
    ZeroFilledIs(b, 32);
    NoRoomForSign(ZeroFilled(b, 32), neg, f);
    BlankField(ZeroFilled(b, 32), Times('0', 32 - |b|) + Reversed(b), 32, width, f);
  }

  lemma BlankField(c: string, text: string, n: nat, width: u32, f: Flags)
    requires !f.left && !f.zeropad && |c| == n && Reversed(c) == text
    ensures Field(c, width, f) == Times(' ', width - n) + text
  {
    hide Reversed, Copies, Times;
    CopiesAreTimes(' ', width - n);
    assert Times(' ', width - n) + text + "" == Times(' ', width - n) + text;
  }

  lemma FullPadding(b: string, prec: u32, width: u32, f: Flags)
    requires !f.left && !f.zeropad && prec >= 32
    ensures Padded(b, prec, width, f) == ZeroFilled(b, 32)
  {
  }

  lemma NoRoomForSign(b: string, neg: bool, f: Flags)
    requires |b| == 32
    ensures WithSign(b, neg, f) == b
  {
  }

  lemma FullBufferDiffers(digits: string, sign: string, prec: nat, width: nat, f: Flags)
    requires !f.left && !f.zeropad && |digits| <= 32 && |sign| <= 1 && |sign| + prec > 32 && width >= |sign| + prec
    ensures Times(' ', width - 32) + (Times('0', 32 - |digits|) + digits) == LaidOut(sign, "", digits, prec, width, f)
       <==> sign == " " && prec == 32
  {
    var ours := Times(' ', width - 32) + (Times('0', 32 - |digits|) + digits);
    var theirs := LaidOut(sign, "", digits, prec, width, f);
    var body := sign + "" + Times('0', prec - |digits|) + digits;
    assert theirs == Times(' ', width - |body|) + body;
    var i := width - 33;
    assert ours[i] == ' ';
    if prec > 32 {
      assert theirs[i] == '0';
    } else {
      assert theirs[i] == sign[0];
      assert sign == [sign[0]];
      if sign == " " {
        assert Times(' ', width - 33) + " " == Times(' ', width - 32);
        assert ours == theirs;
      }
    }
  }

  /** '-' hides a precision beyond the digits. */
  lemma LeftDiffers(v: u64, neg: bool, base: nat, prec: u32, width: u32, f: Flags)
    requires Fits32(v, base, neg, f) && !f.hash && f.left && prec > |DigitText(v, base, f)|
    ensures Ntoa(v, neg, base, prec, width, f) != Standard(v, neg, base, prec, width, f)
  {
    hide Ntoa, LaidOut, DigitText, SignText, Times;
    var s, d := SignText(neg, f), DigitText(v, base, f);
    LeftNtoa(v, neg, base, prec, width, f);
    DigitTextStart(v, base, f);
    LeftLaidOut(s, d, prec, width, f, InnerWidth(neg, width, f) - |d| - |s|);
  }

  lemma DigitTextStart(v: nat, base: nat, f: Flags)
    requires 2 <= base <= 16
    ensures var d := DigitText(v, base, f); d != "" && d[0] == '0' ==> d == "0"
  {
    hide Numeral;
    NumeralStart(v, base, f.upper);
    if v == 0 && !f.precision {
      assert Numeral(v, base, f.upper) == [Numeral(v, base, f.upper)[0]];
    }
  }

  lemma LeftFilled(b: string, neg: bool, base: nat, prec: u32, width: u32, f: Flags)
    requires f.left && !f.hash
    ensures Filled(b, neg, base, prec, width, f) == WithSign(b, neg, f)
  {
    hide WithSign;
    LeftPadded(b, prec, InnerWidth(neg, width, f), f);
  }

  lemma LeftNtoa(v: u64, neg: bool, base: nat, prec: u32, width: u32, f: Flags)
    requires Fits32(v, base, neg, f) && !f.hash && f.left
    ensures var s, d := SignText(neg, f), DigitText(v, base, f);
            Ntoa(v, neg, base, prec, width, f) == s + d + Times(' ', InnerWidth(neg, width, f) - |d| - |s|)
  {
    hide Reversed, Digits, Numeral, Copies, WithSign, InnerWidth, SignText, DigitText, Times, Padded, Filled;
    DigitTextIs(v, base, neg, f);
    assert f.(hash := false) == f;
    var b := if f.precision && v == 0 then "" else Digits(v, base, NTOA_SIZE, f.upper);
    SignedIs(b, neg, f);
    LeftFilled(b, neg, base, prec, width, f);
    CopiesAreTimes(' ', InnerWidth(neg, width, f) - |b| - |SignText(neg, f)|);
  }

  lemma LeftLaidOut(s: string, d: string, prec: nat, width: nat, f: Flags, n: int)
    requires f.left && prec > |d| && (d != "" && d[0] == '0' ==> d == "0")
    ensures s + d + Times(' ', n) != LaidOut(s, "", d, prec, width, f)
  {
    var ours, theirs := s + d + Times(' ', n), LaidOut(s, "", d, prec, width, f);
    var body := s + "" + Times('0', prec - |d|) + d;
    assert theirs == body + Times(' ', width - |body|);
    if d == "0" {
      assert theirs[|s| + 1] == '0';
      assert |ours| > |s| + 1 ==> ours[|s| + 1] == ' ';
    } else if d == "" {
      assert theirs[|s|] == '0';
      assert |ours| > |s| ==> ours[|s|] == ' ';
    } else {
      assert theirs[|s|] == '0' && ours[|s|] == d[0];
    }
  }

  /** Without '#' the field is the standard's exactly under those conditions, or when the sign it drops is a blank. */
  lemma NtoaIsStandardIff(v: u64, neg: bool, base: nat, prec: u32, width: u32, f: Flags)
    requires Fits32(v, base, neg, f) && !f.hash
    ensures 2 <= base <= 16
    ensures Ntoa(v, neg, base, prec, width, f) == Standard(v, neg, base, prec, width, f)
       <==> InRoom(v, neg, base, prec, width, f) || BlankSign(neg, prec, width, f)
  {
    hide Reversed, Digits, Numeral, Ntoa, LaidOut, DigitText, InnerWidth, Signed, ShownDigits, SignText;
    if InRoom(v, neg, base, prec, width, f) {
      NtoaIsStandard(v, neg, base, prec, width, f);
    } else if f.left {
      LeftDiffers(v, neg, base, prec, width, f);
    } else {
      OutOfRoom(v, neg, base, prec, width, f);
    }
  }

  lemma OutOfRoom(v: u64, neg: bool, base: nat, prec: u32, width: u32, f: Flags)
    requires Fits32(v, base, neg, f) && !f.hash && !f.left && !InRoom(v, neg, base, prec, width, f)
    ensures Ntoa(v, neg, base, prec, width, f) == Standard(v, neg, base, prec, width, f)
       <==> BlankSign(neg, prec, width, f)
  {
    hide Reversed, Digits, Numeral, LaidOut, DigitText, Padded, Field, WithSign, Times, Ntoa;
    DigitTextIs(v, base, neg, f);
    var b := if f.precision && v == 0 then "" else Digits(v, base, NTOA_SIZE, f.upper);
    var s, d := SignText(neg, f), DigitText(v, base, f);
    assert |d| == |b|;
    NtoaLengthIff(v, neg, base, prec, width, f);
    LaidOutLength(s, d, prec, width, f);
    SignLengthIs(neg, f);
    if LengthFits(|s|, prec, width, f) {
      NtoaUnfolds(v, neg, base, prec, width, f);
      FullBuffer(b, neg, prec, width, f);
      FullBufferDiffers(d, s, prec, width, f);
    }
  }

  lemma NtoaUnfolds(v: u64, neg: bool, base: nat, prec: u32, width: u32, f: Flags)
    requires 2 <= base <= 16 && !f.hash && !f.zeropad
    ensures var b := if f.precision && v == 0 then "" else Digits(v, base, NTOA_SIZE, f.upper);
            Ntoa(v, neg, base, prec, width, f) == Field(WithSign(Padded(b, prec, width, f), neg, f), width, f)
  {
    hide Reversed, Digits;
    assert f.(hash := false) == f;
  }

  // ---- '#'

  /** Digits and zeros together. */
  function DigitCount(v: nat, neg: bool, base: nat, prec: nat, width: nat, f: Flags): nat
    requires 2 <= base <= 16
  {
    Max(|DigitText(v, base, f)|, ZerosUpTo(|SignText(neg, f)|, prec, width, f))
  }

  /** A number of digits that is neither the precision nor the width left for them, and room for all. */
  predicate PrefixFits(v: nat, neg: bool, base: nat, prec: nat, width: nat, f: Flags)
    requires 2 <= base <= 16
  {
    var n, s := DigitCount(v, neg, base, prec, width, f), |SignText(neg, f)|;
    && (f.precision || (n != prec && n != if f.zeropad && !f.left && width > 0 then width - s else width))
    && n + |PrefixText(v, base, f)| + s <= 32
  }

  /** Then a field with '#' is the standard's as well, prefix and letter case included. */
  lemma HashIsStandard(v: u64, neg: bool, base: nat, prec: u32, width: u32, f: Flags)
    requires Fits32(v, base, neg, f) && base != 10 && f.hash && v > 0 && InRoom(v, neg, base, prec, width, f)
    requires PrefixFits(v, neg, base, prec, width, f)
    ensures Ntoa(v, neg, base, prec, width, f) == Standard(v, neg, base, prec, width, f)
  {
    hide Reversed, Digits, Numeral, Field, Padded, WithSign, Copies, DigitText, LaidOut, InnerWidth, Hashed, Times,
         SignText, PrefixText;
    DigitTextIs(v, base, neg, f);
    var b := Digits(v, base, NTOA_SIZE, f.upper);
    var s, p, d, inner := SignText(neg, f), PrefixText(v, base, f), DigitText(v, base, f), InnerWidth(neg, width, f);
    SignLengthIs(neg, f);
    var digits := Padded(b, prec, inner, f);
    if f.left {
      LeftPadded(b, prec, inner, f);
      LeftInner(neg, width, f);
    } else {
      InnerIs(neg, width, f);
      PaddedIs(b, |s|, prec, width, f);
    }
    PrefixIs(digits, v, base, prec, inner, f);
    var hashed := Hashed(digits, base, prec, inner, f);
    SignedIs(hashed, neg, f);
    var c := WithSign(hashed, neg, f);
    if f.left {
      LeftLaid(c, s, p, d, prec, width, f);
    } else if f.zeropad {
      ZeroLaidOut(c, s, p, d, prec, width, inner, f);
    } else {
      BlankLaidOut(c, s, p, d, prec, width, f);
    }
  }

  lemma LeftInner(neg: bool, width: u32, f: Flags)
    requires f.left
    ensures InnerWidth(neg, width, f) == width
  {
  }

  lemma PrefixIs(b: string, v: nat, base: nat, prec: u32, inner: u32, f: Flags)
    requires f.hash && v > 0 && (base == 2 || base == 8 || base == 16)
    requires f.precision || (|b| != prec && |b| != inner)
    requires |b| + |PrefixText(v, base, f)| <= 32
    ensures Reversed(Hashed(b, base, prec, inner, f)) == PrefixText(v, base, f) + Reversed(b)
    ensures |Hashed(b, base, prec, inner, f)| == |b| + |PrefixText(v, base, f)|
  {
    hide Reversed;
    if base == 16 {
      var x := if f.upper then 'X' else 'x';
      ReversedPush(b, x);
      ReversedPush(b + [x], '0');
    } else if base == 2 {
      ReversedPush(b, 'b');
      ReversedPush(b + ['b'], '0');
    } else {
      ReversedPush(b, '0');
    }
  }
}
