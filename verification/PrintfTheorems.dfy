/** What the integer fields of printf mean to someone who reads them. */
module PrintfTheorems {
  import opened Words
  import opened Options
  import opened Arithmetic
  import opened PrintfSpec

  function Pow(b: nat, n: nat): nat {
    if n == 0 then 1 else b * Pow(b, n - 1)
  }

  /** A digit of this base. */
  predicate IsNumeral(c: char, base: nat) {
    ('0' <= c <= '9' || 'a' <= c <= 'f' || 'A' <= c <= 'F') && CharValue(c) < base
  }

  function CharValue(c: char): (d: nat)
    ensures d < 16
  {
    if '0' <= c <= '9' then c as int - '0' as int
    else if 'a' <= c <= 'f' then c as int - 'a' as int + 10
    else if 'A' <= c <= 'F' then c as int - 'A' as int + 10
    else 0
  }

  /**
   * Reading a field from the left: blanks, at most one sign, a prefix of a single 0 and the base's
   * letter, digits, blanks, and nothing else.
   */
  datatype Stage = AtStart | AfterSign | AfterZero | Inside | AfterAll | Bad

  datatype Reader = Reader(stage: Stage, neg: bool, v: nat)

  const START := Reader(AtStart, false, 0)

  predicate IsLetter(c: char, base: nat) {
    (base == 16 && (c == 'x' || c == 'X')) || (base == 2 && c == 'b')
  }

  function ReadChar(r: Reader, c: char, base: nat): Reader {
    if r.stage == Bad then r
    else if c == ' ' then if r.stage == AtStart then r else r.(stage := AfterAll)
    else if c == '-' || c == '+' then
      if r.stage == AtStart then r.(stage := AfterSign, neg := c == '-') else r.(stage := Bad)
    else if IsNumeral(c, base) then
      if r.stage == AfterAll then r.(stage := Bad)
      else Reader(if c == '0' && (r.stage == AtStart || r.stage == AfterSign) then AfterZero else Inside,
                  r.neg, r.v * base + CharValue(c))
    else if IsLetter(c, base) && r.stage == AfterZero then r.(stage := Inside)
    else r.(stage := Bad)
  }

  function Read(s: string, r: Reader, base: nat): Reader
    decreases |s|
  {
    if s == "" then r else Read(s[1..], ReadChar(r, s[0], base), base)
  }

  /** The number a field stands for: its sign and its magnitude. */
  datatype Reading = Reading(neg: bool, v: nat)

  function Finished(r: Reader): Option<Reading> {
    if r.stage == Bad then None else Some(Reading(r.neg, r.v))
  }

  /** None for anything that is not the numeral of a number. */
  function ReadField(s: string, base: nat): Option<Reading> {
    Finished(Read(s, START, base))
  }

  /** The number whose numerals are b, least significant first. */
  function ValueOf(b: string, base: nat): nat {
    if b == "" then 0 else CharValue(b[0]) + base * ValueOf(b[1..], base)
  }

  predicate Numerals(b: string, base: nat) {
    forall i :: 0 <= i < |b| ==> IsNumeral(b[i], base)
  }

  lemma DigitCharReads(d: nat, base: nat, upper: bool)
    requires d < base <= 16
    ensures IsNumeral(DigitChar(d, upper), base) && CharValue(DigitChar(d, upper)) == d
  {
  }

  lemma DivSmaller(v: nat, base: nat, p: nat)
    requires base >= 8 && v < 8 * p
    ensures v / base < p
  {
    DivMod(v, base);
    MulLe(8, base, v / base);
  }

  /** The digit buffer holds the whole value while 8^room exceeds it. */
  lemma {:induction false} DigitsHoldValue(v: nat, base: nat, room: nat, upper: bool)
    requires 8 <= base <= 16 && v < Pow(8, room)
    ensures Numerals(Digits(v, base, room, upper), base) && ValueOf(Digits(v, base, room, upper), base) == v
    decreases room
  {
    hide *;
    PowUnfolds(room);
    if room > 0 {
      DigitsUnfold(v, base, room, upper);
      DigitCharReads(v % base, base, upper);
      DivMod(v, base);
      DivSmaller(v, base, Pow(8, room - 1));
      NoNumerals(base);
      var q := v / base;
      var rest := if q == 0 then "" else Digits(q, base, room - 1, upper);
      if q != 0 {
        DigitsHoldValue(q, base, room - 1, upper);
      }
      NumeralInFront(DigitChar(v % base, upper), rest, base);
    } else {
      NoDigits(v, base, upper);
      NoNumerals(base);
    }
  }

  lemma NoDigits(v: nat, base: nat, upper: bool)
    requires 2 <= base <= 16
    ensures Digits(v, base, 0, upper) == ""
  {
  }

  lemma NumeralInFront(c: char, rest: string, base: nat)
    requires IsNumeral(c, base) && Numerals(rest, base)
    ensures Numerals([c] + rest, base) && ValueOf([c] + rest, base) == CharValue(c) + base * ValueOf(rest, base)
  {
    hide CharValue, IsNumeral;
    assert ([c] + rest)[1..] == rest;
  }

  /** No 64-bit value has more than 22 digits in these bases. */
  lemma {:induction false} DigitsAreFew(v: nat, base: nat, room: nat, few: nat, upper: bool)
    requires 8 <= base <= 16 && 0 < few <= room && v < Pow(8, few)
    ensures |Digits(v, base, room, upper)| <= few
    decreases room
  {
    hide DigitChar, Digits, Pow;
    DigitsUnfold(v, base, room, upper);
    PowUnfolds(few);
    DivSmaller(v, base, Pow(8, few - 1));
    var q := v / base;
    if q != 0 {
      if few == 1 {
        PowUnfolds(0);
      }
      DigitsAreFew(q, base, room - 1, few - 1, upper);
    }
  }

  lemma DigitsUnfold(v: nat, base: nat, room: nat, upper: bool)
    requires 2 <= base <= 16 && room > 0
    ensures Digits(v, base, room, upper) ==
            [DigitChar(v % base, upper)] + if v / base == 0 then "" else Digits(v / base, base, room - 1, upper)
  {
    hide DigitChar;
  }

  lemma PowUnfolds(n: nat)
    ensures Pow(8, n) == if n == 0 then 1 else 8 * Pow(8, n - 1)
  {
  }

  lemma PowSum(b: nat, m: nat, n: nat)
    ensures Pow(b, m + n) == Pow(b, m) * Pow(b, n)
  {
    if m > 0 {
      PowSum(b, m - 1, n);
      assert b * (Pow(b, m - 1) * Pow(b, n)) == (b * Pow(b, m - 1)) * Pow(b, n);
    }
  }

  lemma WordsFit()
    ensures Pow(8, 22) >= 0x1_0000_0000_0000_0000
    ensures Pow(8, 32) >= 0x1_0000_0000_0000_0000
    ensures Pow(2, 32) == 0x1_0000_0000
  {
    assert Pow(8, 2) == 64;
    PowSum(8, 2, 2);
    PowSum(8, 4, 4);
    PowSum(8, 8, 8);
    PowSum(8, 16, 4);
    PowSum(8, 20, 2);
    PowSum(8, 16, 16);
    assert Pow(2, 2) == 4;
    PowSum(2, 2, 2);
    PowSum(2, 4, 4);
    PowSum(2, 8, 8);
    PowSum(2, 16, 16);
  }

  lemma HalfMod(v: nat, p: nat)
    requires p > 0
    ensures v % (2 * p) == v % 2 + 2 * ((v / 2) % p)
  {
    var q, h := v / 2, (v / 2) / p;
    DivMod(q, p);
    assert v == (2 * p) * h + (v % 2 + 2 * (q % p)) by {
      assert q == q % p + p * h;
      assert 2 * (p * h) == (2 * p) * h;
    }
    DivByParts(v, 2 * p, h, v % 2 + 2 * (q % p));
  }

  /** In base 2 the buffer's 32 places hold the value modulo 2^32. */
  lemma {:induction false} BinaryDigitsHoldLowBits(v: nat, room: nat, upper: bool)
    ensures Pow(2, room) > 0
    ensures Numerals(Digits(v, 2, room, upper), 2) && ValueOf(Digits(v, 2, room, upper), 2) == v % Pow(2, room)
    decreases room
  {
    hide DigitChar, CharValue, IsNumeral;
    PowPositive(2, room);
    if room > 0 {
      PowPositive(2, room - 1);
      DigitCharReads(v % 2, 2, upper);
      HalfMod(v, Pow(2, room - 1));
      var rest := if v / 2 == 0 then "" else Digits(v / 2, 2, room - 1, upper);
      if v / 2 != 0 {
        BinaryDigitsHoldLowBits(v / 2, room - 1, upper);
      } else {
        DivByParts(0, Pow(2, room - 1), 0, 0);
      }
      assert Digits(v, 2, room, upper)[1..] == rest;
    } else {
      DivByParts(v, 1, v, 0);
    }
  }

  lemma PowPositive(b: nat, n: nat)
    requires b > 0
    ensures Pow(b, n) > 0
  {
    if n > 0 {
      PowPositive(b, n - 1);
      var p := Pow(b, n - 1);
      assert b * p >= p by { assert b * p == p + (b - 1) * p; }
    }
  }

  lemma {:induction false} ZerosAddNothing(b: string, n: int, base: nat)
    ensures ValueOf(b + Copies('0', n), base) == ValueOf(b, base)
    ensures base > 0 && Numerals(b, base) ==> Numerals(b + Copies('0', n), base)
    decreases |b|
  {
    var z := Copies('0', n);
    CopiesAre('0', n);
    if b == "" {
      ZerosAreZero(n, base);
      assert "" + z == z;
    } else {
      assert (b + z)[1..] == b[1..] + z;
      ZerosAddNothing(b[1..], n, base);
    }
  }

  lemma {:induction false} CopiesAre(c: char, n: int)
    ensures forall i :: 0 <= i < |Copies(c, n)| ==> Copies(c, n)[i] == c
  {
    if n > 0 {
      CopiesAre(c, n - 1);
    }
  }

  lemma {:induction false} CopiesFromFront(c: char, n: int)
    requires n > 0
    ensures Copies(c, n) == [c] + Copies(c, n - 1)
  {
    CopiesAre(c, n);
    CopiesAre(c, n - 1);
  }

  lemma {:induction false} ZerosAreZero(n: int, base: nat)
    ensures ValueOf(Copies('0', n), base) == 0
  {
    if n > 0 {
      ZerosAreZero(n - 1, base);
      CopiesFromFront('0', n);
      assert Copies('0', n)[1..] == Copies('0', n - 1);
    }
  }

  lemma {:induction false} ReadInTurn(s: string, t: string, r: Reader, base: nat)
    ensures Read(s + t, r, base) == Read(t, Read(s, r, base), base)
    decreases |s|
  {
    if s == "" {
      assert s + t == t;
    } else {
      assert (s + t)[1..] == s[1..] + t;
      ReadInTurn(s[1..], t, ReadChar(r, s[0], base), base);
    }
  }

  /** Blanks in front and behind say nothing, and nothing mends a bad field. */
  lemma {:induction false} BlanksSayNothing(n: int, r: Reader, base: nat)
    ensures r.stage == AtStart ==> Read(Copies(' ', n), r, base) == r
    ensures Finished(Read(Copies(' ', n), r, base)) == Finished(r)
  {
    if n > 0 {
      CopiesFromFront(' ', n);
      assert Copies(' ', n)[1..] == Copies(' ', n - 1);
      BlanksSayNothing(n - 1, ReadChar(r, ' ', base), base);
    }
  }

  lemma {:induction false} BadStaysBad(s: string, r: Reader, base: nat)
    requires r.stage == Bad
    ensures Read(s, r, base) == r
    decreases |s|
  {
    if s != "" {
      BadStaysBad(s[1..], r, base);
    }
  }

  predicate TakesDigits(r: Reader) {
    r.stage != Bad && r.stage != AfterAll
  }

  /** Numerals written most significant first read back as their value. */
  lemma {:induction false} ReversedNumeralsRead(b: string, r: Reader, base: nat)
    requires Numerals(b, base) && TakesDigits(r) && r.v == 0
    ensures var e := Read(Reversed(b), r, base); TakesDigits(e) && e.neg == r.neg && e.v == ValueOf(b, base)
    decreases |b|
  {
    hide CharValue;
    if b != "" {
      ReversedNumeralsRead(b[1..], r, base);
      ReadInTurn(Reversed(b[1..]), [b[0]], r, base);
      assert [b[0]][1..] == "";
      assert IsNumeral(b[0], base) && b[0] != '-' && b[0] != '+' && b[0] != ' ';
      assert ValueOf(b[1..], base) * base == base * ValueOf(b[1..], base);
    }
  }

  lemma {:induction false} ReversedPush(b: string, c: char)
    ensures Reversed(b + [c]) == [c] + Reversed(b)
    decreases |b|
  {
    if b == "" {
      assert "" + [c] == [c];
      assert [c][1..] == "";
    } else {
      assert (b + [c])[1..] == b[1..] + [c];
      ReversedPush(b[1..], c);
    }
  }

  /** Whether the sign still finds room behind the digits. */
  predicate SignFits(b: string) {
    |b| < NTOA_SIZE
  }

  /** A field around a body reads as its body does. */
  lemma FieldReadsAsBody(s: string, width: u32, base: nat, f: Flags)
    ensures ReadField(Field(s, width, f), base) == ReadField(Reversed(s), base)
  {
    hide Read, Finished, Reversed;
    var pre := if !f.left && !f.zeropad then Copies(' ', width - |s|) else "";
    var post := if f.left then Copies(' ', width - |s|) else "";
    var body := Reversed(s);
    NothingRead(START, base);
    NothingRead(Read(body, START, base), base);
    BlanksSayNothing(width - |s|, START, base);
    BlanksSayNothing(width - |s|, Read(body, START, base), base);
    ReadInTurn(pre + body, post, START, base);
    ReadInTurn(pre, body, START, base);
  }

  lemma NothingRead(r: Reader, base: nat)
    ensures Read("", r, base) == r
  {
  }

  /** The sign character, when it has found room, is the first to be read. */
  lemma SignIsFirst(b: string, neg: bool, base: nat, f: Flags) returns (r: Reader)
    requires base >= 2
    ensures TakesDigits(r) && r.v == 0 && r.neg == (neg && SignFits(b)) && (r.stage == AtStart || r.stage == AfterSign)
    ensures Read(Reversed(WithSign(b, neg, f)), START, base) == Read(Reversed(b), r, base)
  {
    var s := WithSign(b, neg, f);
    if s != b {
      var c := s[|s| - 1];
      assert s == b + [c];
      ReversedPush(b, c);
      assert ([c] + Reversed(b))[1..] == Reversed(b);
      r := ReadChar(START, c, base);
    } else {
      r := START;
    }
  }

  /** A field around numerals b with an optional sign reads as the value of b. */
  lemma SignedFieldReads(b: string, neg: bool, width: u32, base: nat, f: Flags)
    requires Numerals(b, base) && base >= 2
    ensures ReadField(Field(WithSign(b, neg, f), width, f), base) == Some(Reading(neg && SignFits(b), ValueOf(b, base)))
  {
    hide CharValue, ValueOf, Read, WithSign, Field, Numerals;
    FieldReadsAsBody(WithSign(b, neg, f), width, base, f);
    var r := SignIsFirst(b, neg, base, f);
    ReversedNumeralsRead(b, r, base);
  }

  /** The digits of an integer field, zeros included, before prefix and sign. */
  function FieldDigits(v: u64, neg: bool, base: nat, prec: u32, width: u32, f: Flags): string
    requires 2 <= base <= 16
  {
    var b := if f.precision && v == 0 then "" else Digits(v, base, NTOA_SIZE, f.upper);
    Padded(b, prec, InnerWidth(neg, width, f), f)
  }

  lemma PaddedKeepsValue(b: string, prec: u32, width: u32, f: Flags, base: nat)
    requires Numerals(b, base) && base > 0
    ensures Numerals(Padded(b, prec, width, f), base) && ValueOf(Padded(b, prec, width, f), base) == ValueOf(b, base)
  {
    hide ValueOf, Numerals;
    ZerosAddNothing(b, Min(prec, NTOA_SIZE) - |b|, base);
    var b1 := ZeroFilled(b, prec);
    ZerosAddNothing(b1, Min(width, NTOA_SIZE) - |b1|, base);
  }

  /**
   * Without '#', whatever the other flags, the field of a value in base 8, 10 or 16 reads back
   * as that value, and as negative exactly when it was and its digits left room for the sign.
   */
  lemma NtoaReadsBack(v: u64, neg: bool, base: nat, prec: u32, width: u32, f: Flags)
    requires base == 8 || base == 10 || base == 16
    requires !f.hash
    ensures ReadField(Ntoa(v, neg, base, prec, width, f), base) ==
            Some(Reading(neg && SignFits(FieldDigits(v, neg, base, prec, width, f)), v))
  {
    hide ValueOf, Numerals, Padded, Field, WithSign, ReadField, Digits, Pow;
    var g := f;
    var b := if f.precision && v == 0 then "" else Digits(v, base, NTOA_SIZE, f.upper);
    WordsFit();
    DigitsHoldValue(v, base, NTOA_SIZE, f.upper);
    NoNumerals(base);
    PaddedKeepsValue(b, prec, InnerWidth(neg, width, f), f, base);
    SignedFieldReads(Padded(b, prec, InnerWidth(neg, width, f), f), neg, InnerWidth(neg, width, f), base, f);
    assert f.(hash := false) == f;
  }

  lemma NoNumerals(base: nat)
    ensures Numerals("", base) && ValueOf("", base) == 0
  {
  }

  /** %b shows the low 32 bits only. */
  lemma BinaryFieldReadsBack(v: u64, prec: u32, width: u32, f: Flags)
    requires !f.hash
    ensures ReadField(Ntoa(v, false, 2, prec, width, f), 2) == Some(Reading(false, v % 0x1_0000_0000))
  {
    hide ValueOf, Numerals, Padded, Field, WithSign, ReadField, Digits, Pow;
    var b := if f.precision && v == 0 then "" else Digits(v, 2, NTOA_SIZE, f.upper);
    WordsFit();
    BinaryDigitsHoldLowBits(v, NTOA_SIZE, f.upper);
    NoNumerals(2);
    PaddedKeepsValue(b, prec, InnerWidth(false, width, f), f, 2);
    SignedFieldReads(Padded(b, prec, InnerWidth(false, width, f), f), false, InnerWidth(false, width, f), 2, f);
    assert f.(hash := false) == f;
  }

  function NumberRead(r: Reading): int {
    if r.neg then 0 - r.v else r.v
  }

  /** A signed number in base 10. */
  lemma SignedReadsBack(v: int, prec: u32, width: u32, f: Flags)
    requires 0 - WORD < v < WORD && !f.hash
    ensures var r := ReadField(Ntoa(if v < 0 then -v else v, v < 0, 10, prec, width, f), 10);
            && r.Some?
            && (NumberRead(r.value) == v <==>
                v >= 0 || f.left || (prec < 32 && (f.zeropad ==> width <= 32)))
  {
    hide Ntoa, ReadField, FieldDigits;
    var a := if v < 0 then -v else v;
    NtoaReadsBack(a, v < 0, 10, prec, width, f);
    if v < 0 {
      DigitsLeaveRoomIff(a, true, 10, prec, width, f);
    }
  }

  lemma ValueDigits(v: u64, base: nat, upper: bool)
    requires base == 8 || base == 10 || base == 16
    ensures |Digits(v, base, NTOA_SIZE, upper)| <= 22
  {
    WordsFit();
    DigitsAreFew(v, base, NTOA_SIZE, 22, upper);
  }

  /** A sign finds room exactly when neither the precision nor the zero-padded width fills the buffer. */
  lemma DigitsLeaveRoomIff(v: u64, neg: bool, base: nat, prec: u32, width: u32, f: Flags)
    requires base == 8 || base == 10 || base == 16
    ensures SignFits(FieldDigits(v, neg, base, prec, width, f)) <==>
            f.left || (prec < 32 && (f.zeropad ==> InnerWidth(neg, width, f) < 32))
  {
    hide Digits;
    ValueDigits(v, base, f.upper);
  }

  /** Digits shown: none for a zero with an explicit precision, and at least the applied precision. */
  function ShownDigits(v: u64, base: nat, prec: u32, f: Flags): nat
    requires 2 <= base <= 16
  {
    var d := if f.precision && v == 0 then 0 else |Digits(v, base, NTOA_SIZE, f.upper)|;
    if f.left then d else Max(d, prec)
  }

  function SignLength(neg: bool, f: Flags): nat {
    if Signed(neg, f) then 1 else 0
  }

  /** What is shown fits the buffer, or blanks make up for what does not. */
  predicate LengthFits(sign: nat, prec: u32, width: u32, f: Flags) {
    || f.left
    || ((f.zeropad ==> width <= NTOA_SIZE)
        && (sign + prec <= NTOA_SIZE || (!f.zeropad && width >= sign + prec)))
  }

  /** The field has the width, or the length of sign and digits when they need more, exactly under that condition. */
  lemma NtoaLengthIff(v: u64, neg: bool, base: nat, prec: u32, width: u32, f: Flags)
    requires base == 8 || base == 10 || base == 16 || (base == 2 && !Signed(neg, f))
    requires !f.hash
    ensures |Ntoa(v, neg, base, prec, width, f)| == Max(width, SignLength(neg, f) + ShownDigits(v, base, prec, f))
       <==> LengthFits(SignLength(neg, f), prec, width, f)
  {
    hide Digits, Reversed, Field, WithSign, Padded, InnerWidth, LengthFits, SignLength;
    SignIsShort(neg, f);
    if base != 2 { ValueDigits(v, base, f.upper); }
    assert f.(hash := false) == f;
    var b := if f.precision && v == 0 then "" else Digits(v, base, NTOA_SIZE, f.upper);
    FieldLength(b, neg, prec, width, f);
  }

  lemma SignIsShort(neg: bool, f: Flags)
    ensures SignLength(neg, f) <= if Signed(neg, f) then 1 else 0
  {
  }

  lemma FieldLength(b: string, neg: bool, prec: u32, width: u32, f: Flags)
    requires |b| + SignLength(neg, f) <= NTOA_SIZE
    ensures var w := InnerWidth(neg, width, f);
            (|Field(WithSign(Padded(b, prec, w, f), neg, f), w, f)| ==
             Max(width, SignLength(neg, f) + if f.left then |b| else Max(|b|, prec)))
            <==> LengthFits(SignLength(neg, f), prec, width, f)
  {
    hide Reversed;
  }

  // ---- '#'

  /** '%#2x' of 0x12: the digits fill the width, so they are taken away for the prefix and never come back. */
  lemma HashCanEatTheNumber()
    ensures Ntoa(0x12, false, 16, 0, 2, NO_FLAGS.(hash := true)) == "0x"
  {
    var f := NO_FLAGS.(hash := true);
    var b := Digits(0x12, 16, NTOA_SIZE, false);
    assert Digits(1, 16, NTOA_SIZE - 1, false) == "1";
    assert b == "21";
    assert ZeroFilled(b, 0) == b;
    assert Dropped(b, 2) == "";
    assert Hashed(b, 16, 0, 2, f) == "x0";
    assert Filled(b, false, 16, 0, 2, f) == "x0";
    assert Reversed("x0") == "0x" by { assert "x0"[1..] == "0" && "0"[1..] == ""; }
  }

  lemma {:induction false} ValueSplits(a: string, b: string, base: nat)
    ensures ValueOf(a + b, base) == ValueOf(a, base) + Pow(base, |a|) * ValueOf(b, base)
    decreases |a|
  {
    hide CharValue;
    if a == "" {
      assert a + b == b;
    } else {
      ValueSplits(a[1..], b, base);
      assert (a + b)[1..] == a[1..] + b && (a + b)[0] == a[0];
      hide ValueOf;
      ValueUnfolds(a, base);
      ValueUnfolds(a + b, base);
      Distribute(base, ValueOf(a[1..], base), Pow(base, |a| - 1), ValueOf(b, base));
    }
  }

  lemma ValueUnfolds(b: string, base: nat)
    requires b != ""
    ensures ValueOf(b, base) == CharValue(b[0]) + base * ValueOf(b[1..], base)
  {
  }

  lemma Distribute(b: nat, x: nat, p: nat, q: nat)
    ensures b * (x + p * q) == b * x + (b * p) * q
  {
    assert b * (p * q) == (b * p) * q;
  }

  /** Dropping the last characters of the buffer keeps the value exactly when they stood for nothing. */
  lemma DropKeepsValueIff(b: string, n: nat, base: nat)
    requires base > 0
    ensures var k := if n >= |b| then 0 else |b| - n;
            Dropped(b, n) == b[..k] &&
            (ValueOf(Dropped(b, n), base) == ValueOf(b, base) <==> ValueOf(b[k..], base) == 0)
  {
    hide ValueOf;
    var k := if n >= |b| then 0 else |b| - n;
    assert b == b[..k] + b[k..];
    ValueSplits(b[..k], b[k..], base);
    PowPositive(base, k);
    if ValueOf(b[k..], base) != 0 {
      Positive(Pow(base, k), ValueOf(b[k..], base));
    }
    assert b[..0] == "";
  }

  lemma Positive(x: nat, y: nat)
    requires x > 0 && y > 0
    ensures x * y > 0
  {
  }

  /** The first digit of a number is not zero. */
  lemma {:induction false} TopDigitNonzero(v: nat, base: nat, room: nat, upper: bool)
    requires 8 <= base <= 16 && 0 < v < Pow(8, room)
    ensures var b := Digits(v, base, room, upper);
            b != "" && CharValue(b[|b| - 1]) != 0
    decreases room
  {
    hide *;
    DigitCharReads(v % base, base, upper);
    RoomForDigit(v, base, room);
    TopDigit(v, base, room, upper);
    if v / base != 0 {
      TopDigitNonzero(v / base, base, room - 1, upper);
    } else {
      DivMod(v, base);
    }
  }

  lemma RoomForDigit(v: nat, base: nat, room: nat)
    requires 8 <= base <= 16 && 0 < v < Pow(8, room)
    ensures room > 0 && v / base < Pow(8, room - 1)
  {
    if room > 0 {
      DivMod(v, base);
      DivSmaller(v, base, Pow(8, room - 1));
    }
  }

  lemma TopDigit(v: nat, base: nat, room: nat, upper: bool)
    requires 2 <= base <= 16 && room > 0
    ensures var b := Digits(v, base, room, upper);
            var rest := if v / base == 0 then "" else Digits(v / base, base, room - 1, upper);
            b != "" && b[|b| - 1] == if rest == "" then DigitChar(v % base, upper) else rest[|rest| - 1]
  {
    hide DigitChar;
  }

  lemma {:induction false} ZeroValueIff(s: string, base: nat)
    requires base > 0
    ensures ValueOf(s, base) == 0 <==> forall i :: 0 <= i < |s| ==> CharValue(s[i]) == 0
    decreases |s|
  {
    hide CharValue;
    if s != "" {
      ZeroValueIff(s[1..], base);
      if ValueOf(s[1..], base) != 0 {
        Positive(base, ValueOf(s[1..], base));
        var i :| 0 <= i < |s[1..]| && CharValue(s[1..][i]) != 0;
        assert s[i + 1] == s[1..][i];
      } else {
        forall i | 0 < i < |s| ensures CharValue(s[i]) == 0 { assert s[1..][i - 1] == s[i]; }
      }
    }
  }

  /** Of digits followed by zeros, dropping n at the top loses nothing exactly if they are all filled-in zeros. */
  lemma DropOnlyZerosIff(d: string, z: nat, n: nat, base: nat)
    requires base > 0 && d != "" && CharValue(d[|d| - 1]) != 0
    ensures ValueOf(Dropped(d + Copies('0', z), n), base) == ValueOf(d, base) <==> n <= z
  {
    hide CharValue, ValueOf;
    var b := d + Copies('0', z);
    CopiesAre('0', z);
    ZeroReads();
    ZerosAddNothing(d, z, base);
    DropKeepsValueIff(b, n, base);
    var k := if n >= |b| then 0 else |b| - n;
    ZeroValueIff(b[k..], base);
    if n > z {
      assert b[k..][|d| - 1 - k] == d[|d| - 1];
    } else {
      forall i | 0 <= i < |b[k..]| ensures b[k..][i] == '0' {
        assert b[k..][i] == b[k + i];
      }
    }
  }

  lemma ZeroReads()
    ensures CharValue('0') == 0
  {
  }

  lemma PaddedIsZeroFilled(b: string, prec: u32, width: u32, f: Flags)
    ensures exists z: nat :: Padded(b, prec, width, f) == b + Copies('0', z)
  {
    var z1 := Max(0, Min(prec, NTOA_SIZE) - |b|);
    var b1 := b + Copies('0', z1);
    var z2 := Max(0, Min(width, NTOA_SIZE) - |b1|);
    ZerosJoin(z1, z2);
    assert b1 + Copies('0', z2) == b + (Copies('0', z1) + Copies('0', z2));
    assert b == b + Copies('0', 0);
    assert ZeroFilled(b, prec) == b1;
    if f.left {
      assert Padded(b, prec, width, f) == b + Copies('0', 0);
    } else if f.zeropad {
      assert Padded(b, prec, width, f) == b + Copies('0', z1 + z2);
    } else {
      assert Padded(b, prec, width, f) == b + Copies('0', z1);
    }
  }

  lemma {:induction false} ZerosJoin(m: nat, n: nat)
    ensures Copies('0', m) + Copies('0', n) == Copies('0', m + n)
  {
    if n > 0 {
      ZerosJoin(m, n - 1);
    } else {
      assert Copies('0', m) + "" == Copies('0', m);
    }
  }

  /** What '#' puts behind the digits, as far as it finds room; the buffer is read backwards. */
  function PrefixOf(base: nat, f: Flags, used: nat): string {
    var letter := if base == 16 then (if f.upper then "X" else "x") else if base == 2 then "b" else "";
    if used + |letter| < NTOA_SIZE then letter + "0" else if used < NTOA_SIZE then letter else ""
  }

  /** A prefix that is whole, or missing, changes nothing; one without its zero spoils the field. */
  lemma PrefixReads(base: nat, f: Flags, used: nat, r: Reader)
    requires base == 2 || base == 8 || base == 16
    requires (r.stage == AtStart || r.stage == AfterSign) && r.v == 0
    ensures var e := Read(Reversed(PrefixOf(base, f, used)), r, base);
            if base != 8 && used == NTOA_SIZE - 1 then e.stage == Bad
            else TakesDigits(e) && e.v == 0 && e.neg == r.neg
  {
    hide Reversed, Read, ReadChar;
    var p := PrefixOf(base, f, used);
    var z := ReadChar(r, '0', base);
    ReadShort(p, r, base);
    assert z == Reader(AfterZero, r.neg, 0) by { ReadZero(r, base); }
    if p != "" && p[0] != '0' {
      ReadLetter(r, p[0], base);
      ReadLetter(z, p[0], base);
    }
  }

  /** A text of at most two characters, read backwards. */
  lemma ReadShort(p: string, r: Reader, base: nat)
    requires |p| <= 2
    ensures Read(Reversed(p), r, base) ==
            if |p| == 2 then ReadChar(ReadChar(r, p[1], base), p[0], base)
            else if |p| == 1 then ReadChar(r, p[0], base) else r
  {
    hide ReadChar;
    if |p| == 2 {
      assert p[1..] == [p[1]] && p[1..][1..] == "" && Reversed(p[1..]) == [p[1]];
      assert Reversed(p) == [p[1], p[0]] && Reversed(p)[1..] == [p[0]] && [p[0]][1..] == "";
      var r1 := ReadChar(r, p[1], base);
      assert Read([p[0]], r1, base) == ReadChar(r1, p[0], base);
    } else if |p| == 1 {
      assert p[1..] == "" && Reversed(p) == [p[0]] && Reversed(p)[1..] == "";
    }
  }

  lemma ReadZero(r: Reader, base: nat)
    requires base >= 2 && TakesDigits(r) && (r.stage == AtStart || r.stage == AfterSign) && r.v == 0
    ensures ReadChar(r, '0', base) == Reader(AfterZero, r.neg, 0)
  {
  }

  /** The prefix's letter belongs behind a zero and nowhere else. */
  lemma ReadLetter(r: Reader, c: char, base: nat)
    requires (base == 16 && (c == 'x' || c == 'X')) || (base == 2 && c == 'b')
    ensures r.stage == AfterZero ==> ReadChar(r, c, base) == r.(stage := Inside)
    ensures r.stage == AtStart || r.stage == AfterSign ==> ReadChar(r, c, base).stage == Bad
  {
  }

  lemma {:induction false} ReversedJoin(a: string, b: string)
    ensures Reversed(a + b) == Reversed(b) + Reversed(a)
    decreases |a|
  {
    if a == "" {
      assert a + b == b;
    } else {
      assert (a + b)[1..] == a[1..] + b;
      ReversedJoin(a[1..], b);
    }
  }

  /** The digits that '#' takes away before it adds its prefix. */
  function Taken(b: string, base: nat, prec: u32, width: u32, f: Flags): nat {
    if !f.precision && b != "" && (|b| == prec || |b| == width) then if base == 16 then 2 else 1 else 0
  }

  lemma HashedIs(b: string, base: nat, prec: u32, width: u32, f: Flags)
    requires (base == 2 || base == 8 || base == 16) && f.hash && |b| <= NTOA_SIZE
    ensures var rest := Dropped(b, Taken(b, base, prec, width, f));
            Hashed(b, base, prec, width, f) == rest + PrefixOf(base, f, |rest|)
  {
    var rest := Dropped(b, Taken(b, base, prec, width, f));
    assert Dropped(b, 0) == b;
    assert rest + "" == rest;
    assert rest + "x" + "0" == rest + "x0" && rest + "X" + "0" == rest + "X0" && rest + "b" + "0" == rest + "b0";
    assert "" + "0" == "0";
  }

  lemma DroppedNumerals(b: string, n: nat, base: nat)
    requires Numerals(b, base)
    ensures Numerals(Dropped(b, n), base)
  {
  }

  /** A '#' field reads as what is left of the digits, unless its prefix lost the zero. */
  lemma HashedFieldReads(rest: string, base: nat, width: u32, f: Flags)
    requires (base == 2 || base == 8 || base == 16) && Numerals(rest, base)
    ensures ReadField(Field(WithSign(rest + PrefixOf(base, f, |rest|), false, f), width, f), base) ==
            if base != 8 && |rest| == NTOA_SIZE - 1 then None else Some(Reading(false, ValueOf(rest, base)))
  {
    hide CharValue, ValueOf, Read, Reversed, WithSign, Field, PrefixOf, Numerals;
    var p := PrefixOf(base, f, |rest|);
    FieldReadsAsBody(WithSign(rest + p, false, f), width, base, f);
    var r := SignIsFirst(rest + p, false, base, f);
    ReversedJoin(rest, p);
    ReadInTurn(Reversed(p), Reversed(rest), r, base);
    PrefixReads(base, f, |rest|, r);
    var e := Read(Reversed(p), r, base);
    if e.stage == Bad {
      BadStaysBad(Reversed(rest), e, base);
    } else {
      ReversedNumeralsRead(rest, e, base);
    }
  }

  /** The value shown: all of it, or in base 2 its low 32 bits. */
  function Shown(v: u64, base: nat): nat {
    if base == 2 then v % 0x1_0000_0000 else v
  }

  lemma DigitsShow(v: u64, base: nat, upper: bool)
    requires base == 2 || base == 8 || base == 16
    ensures var d := Digits(v, base, NTOA_SIZE, upper);
            && Numerals(d, base) && ValueOf(d, base) == Shown(v, base)
            && (v > 0 && |d| < NTOA_SIZE ==> d != "" && CharValue(d[|d| - 1]) != 0)
            && (base != 2 ==> |d| < NTOA_SIZE)
  {
    hide ValueOf, Numerals, Digits, Pow, CharValue;
    WordsFit();
    if base == 2 {
      BinaryDigitsHoldLowBits(v, NTOA_SIZE, upper);
      if v > 0 && |Digits(v, base, NTOA_SIZE, upper)| < NTOA_SIZE {
        TopBitNonzero(v, NTOA_SIZE, upper);
      }
    } else {
      DigitsHoldValue(v, base, NTOA_SIZE, upper);
      ValueDigits(v, base, upper);
      if v > 0 { TopDigitNonzero(v, base, NTOA_SIZE, upper); }
    }
  }

  lemma {:induction false} TopBitNonzero(v: nat, room: nat, upper: bool)
    requires v > 0 && |Digits(v, 2, room, upper)| < room
    ensures var b := Digits(v, 2, room, upper); b != "" && CharValue(b[|b| - 1]) != 0
    decreases room
  {
    hide DigitChar, CharValue, IsNumeral;
    DigitCharReads(v % 2, 2, upper);
    DivMod(v, 2);
    if v / 2 != 0 {
      TopBitNonzero(v / 2, room - 1, upper);
    }
  }

  /**
   * With '#', the field of a positive value in base 2, 8 or 16 reads back as the value it shows if
   * and only if the digits taken away for the prefix are only zeros filled in before them, and
   * the digits left are not the 31 that leave room for the prefix's letter and not for its zero.
   */
  lemma HashReadsBackIff(v: u64, base: nat, prec: u32, width: u32, f: Flags)
    requires base == 2 || base == 8 || base == 16
    requires f.hash && v > 0
    ensures var b := FieldDigits(v, false, base, prec, width, f);
            var n := Taken(b, base, prec, InnerWidth(false, width, f), f);
            ReadField(Ntoa(v, false, base, prec, width, f), base) == Some(Reading(false, Shown(v, base))) <==>
              n <= |b| - |Digits(v, base, NTOA_SIZE, f.upper)| && (base == 8 || |b| - n != NTOA_SIZE - 1)
  {
    hide ValueOf, Numerals, Padded, Field, ReadField, Digits, Pow, CharValue, Hashed, WithSign, PrefixOf;
    var d := Digits(v, base, NTOA_SIZE, f.upper);
    DigitsShow(v, base, f.upper);
    var w := InnerWidth(false, width, f);
    var b := FieldDigits(v, false, base, prec, width, f);
    PaddedKeepsValue(d, prec, w, f, base);
    PaddedIsZeroFilled(d, prec, w, f);
    PaddedFits(d, prec, w, f);
    var z: nat :| Padded(d, prec, w, f) == d + Copies('0', z);
    var n := Taken(b, base, prec, w, f);
    HashedIs(b, base, prec, w, f);
    var rest := Dropped(b, n);
    DroppedNumerals(b, n, base);
    HashedFieldReads(rest, base, w, f);
    if |d| < NTOA_SIZE {
      DropOnlyZerosIff(d, z, n, base);
    } else if n == 0 {
      assert rest == b;
    }
  }

  lemma PaddedFits(b: string, prec: u32, width: u32, f: Flags)
    requires |b| <= NTOA_SIZE
    ensures |Padded(b, prec, width, f)| <= NTOA_SIZE
  {
  }
}
