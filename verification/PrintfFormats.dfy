/** What a format string asks for, character by character, and what each specifier then writes. */
module PrintfFormats {
  import opened Words
  import opened Options
  import opened Arithmetic
  import opened PrintfSpec
  import opened PrintfTheorems
  import opened PrintfStandard

  // ---- flags, numbers and modifiers

  predicate AreFlags(s: string) {
    forall i :: 0 <= i < |s| ==> s[i] in "0-+ #"
  }

  predicate AreDigits(s: string) {
    forall i :: 0 <= i < |s| ==> '0' <= s[i] <= '9'
  }

  /** The number that digits stand for, the first one weighing most. */
  function Decimal(s: string): nat
    requires AreDigits(s)
  {
    if s == "" then 0 else 10 * Decimal(s[..|s| - 1]) + (s[|s| - 1] as int - '0' as int)
  }

  /** f with the flags whose characters are in s. */
  function Seen(f: Flags, s: string): Flags {
    Flags(f.zeropad || '0' in s, f.left || '-' in s, f.plus || '+' in s, f.space || ' ' in s, f.hash || '#' in s,
          f.upper, f.precision)
  }

  /** Each flag is on exactly when its character is there. */
  lemma {:induction false} FlagsAre(s: string, rest: string, f: Flags)
    requires AreFlags(s) && (rest != "" ==> rest[0] !in "0-+ #")
    ensures ParseFlags(s + rest, f) == (Seen(f, s), rest)
    decreases |s|
  {
    if s == "" {
      assert s + rest == rest;
    } else {
      assert s[0] in "0-+ #";
      OneFlag(s[0], s[1..] + rest, f);
      assert s + rest == [s[0]] + (s[1..] + rest);
      FlagsAre(s[1..], rest, Seen(f, [s[0]]));
      SeenTwice(f, s[0], s[1..]);
      assert s == [s[0]] + s[1..];
    }
  }

  lemma OneFlag(c: char, rest: string, f: Flags)
    requires c in "0-+ #"
    ensures ParseFlags([c] + rest, f) == ParseFlags(rest, Seen(f, [c]))
  {
    assert ([c] + rest)[1..] == rest;
  }

  lemma SeenTwice(f: Flags, c: char, s: string)
    ensures Seen(Seen(f, [c]), s) == Seen(f, [c] + s)
  {
    forall x: char ensures x in [c] + s <==> x in [c] || x in s { }
  }

  /** A run of digits is read as its number, modulo 2^32. */
  lemma NumberIs(s: string, rest: string)
    requires AreDigits(s) && (rest != "" ==> !('0' <= rest[0] <= '9'))
    ensures Atoi(s + rest, 0) == (Decimal(s) % 0x1_0000_0000, rest)
  {
    hide Atoi;
    NumberFrom("", s, rest);
    assert "" + s == s;
    assert Decimal("") == 0;
  }

  lemma {:induction false} NumberFrom(done: string, s: string, rest: string)
    requires AreDigits(done) && AreDigits(s) && (rest != "" ==> !('0' <= rest[0] <= '9'))
    ensures AreDigits(done + s)
    ensures Atoi(s + rest, Decimal(done) % 0x1_0000_0000) == (Decimal(done + s) % 0x1_0000_0000, rest)
    decreases |s|
  {
    if s == "" {
      assert s + rest == rest && done + s == done;
    } else {
      assert AreDigits(s[1..]) && AreDigits(done + [s[0]]);
      var d, next := s[0] as int - '0' as int, done + [s[0]];
      assert next + s[1..] == done + s;
      TimesTen(Decimal(done), d);
      OneDigit(done, s, rest);
      hide Atoi, Decimal;
      NumberFrom(next, s[1..], rest);
    }
  }

  lemma OneDigit(done: string, s: string, rest: string)
    requires AreDigits(done) && AreDigits(s) && s != ""
    ensures var d := s[0] as int - '0' as int;
            && Decimal(done + [s[0]]) == 10 * Decimal(done) + d
            && forall acc: u32 :: Atoi(s + rest, acc) == Atoi(s[1..] + rest, (acc * 10 + d) % 0x1_0000_0000)
  {
    var next := done + [s[0]];
    assert next[..|next| - 1] == done && (s + rest)[1..] == s[1..] + rest;
  }

  lemma TimesTen(n: nat, d: nat)
    requires d < 10
    ensures (n % 0x1_0000_0000 * 10 + d) % 0x1_0000_0000 == (10 * n + d) % 0x1_0000_0000
  {
    var q, r := n / 0x1_0000_0000, n % 0x1_0000_0000;
    var k := (10 * r + d) / 0x1_0000_0000;
    DivByParts(10 * n + d, 0x1_0000_0000, 10 * q + k, (10 * r + d) % 0x1_0000_0000);
  }

  /** What each modifier says of the argument's width in bits. */
  predicate IsModifier(mod: string) {
    mod == "" || mod == "h" || mod == "hh" || mod == "l" || mod == "ll" || mod == "j" || mod == "z" || mod == "t"
  }

  function BitsOf(mod: string): nat {
    if mod == "hh" then 8 else if mod == "h" then 16 else if mod == "" then 32 else 64
  }

  function SizeBits(size: Size): nat {
    match size
    case CharSize => 8
    case ShortSize => 16
    case IntSize => 32
    case LongSize => 64
  }

  lemma ModifierIs(mod: string, c: char, rest: string)
    requires IsModifier(mod) && c !in "hljzt"
    ensures ParseSize(mod + [c] + rest).1 == [c] + rest && SizeBits(ParseSize(mod + [c] + rest).0) == BitsOf(mod)
  {
    var s := mod + [c] + rest;
    if mod == "" {
      assert s == [c] + rest;
    } else if |mod| == 1 {
      assert s[0] == mod[0] && s[1] == c && s[1..] == [c] + rest;
    } else {
      assert s[0] == mod[0] && s[1] == mod[1] && s[2..] == [c] + rest;
    }
  }

  /** A character that ends a specification: no flag, digit, dot, star or modifier. */
  predicate Ends(c: char) {
    c !in "0-+ #" && !('0' <= c <= '9') && c != '.' && c != '*' && c !in "hljzt"
  }

  predicate IsWidth(s: string) {
    AreDigits(s) && (s != "" ==> s[0] != '0')
  }

  predicate IsPrecision(p: Option<string>) {
    p.Some? ==> AreDigits(p.value)
  }

  /** A whole specification behind its '%': flags, width, precision, modifier, specifier. */
  function Specification(flags: string, width: string, prec: Option<string>, mod: string, c: char): string {
    flags + width + (match prec case None => "" case Some(p) => "." + p) + mod + [c]
  }

  /** What a number in a format is taken for. */
  function Count(digits: string): u32
    requires AreDigits(digits)
  {
    Decimal(digits) % 0x1_0000_0000
  }

  function PrecisionCount(p: Option<string>): u32
    requires IsPrecision(p)
  {
    match p case None => 0 case Some(digits) => Count(digits)
  }

  lemma WidthIs(s: string, rest: string, args: seq<Arg>, f: Flags)
    requires AreDigits(s) && rest != "" && !('0' <= rest[0] <= '9') && rest[0] != '*'
    ensures ParseWidth(s + rest, args, f) == Some(Parsed(f, Count(s), rest, args))
  {
    hide Atoi, Decimal;
    if s == "" {
      assert s + rest == rest;
      assert Decimal("") == 0 by { DecimalOfNone(); }
    } else {
      assert (s + rest)[0] == s[0];
      NumberIs(s, rest);
    }
  }

  lemma DecimalOfNone()
    ensures Decimal("") == 0
  {
  }

  lemma PrecisionIs(p: Option<string>, rest: string, args: seq<Arg>, f: Flags)
    requires IsPrecision(p) && rest != "" && !('0' <= rest[0] <= '9') && rest[0] != '*' && rest[0] != '.'
    ensures ParsePrecision((match p case None => "" case Some(d) => "." + d) + rest, args, f) ==
            Some(Parsed(f.(precision := f.precision || p.Some?), PrecisionCount(p), rest, args))
  {
    match p {
      case None => assert "" + rest == rest;
      case Some(d) =>
        hide ParsePrecision;
        DecimalOfNone();
        assert "." + d + rest == "." + (d + rest);
        if d == "" {
          assert d + rest == rest;
          PointThen(rest, args, f);
        } else {
          NumberIs(d, rest);
          PointThen(d + rest, args, f);
        }
    }
  }

  /** What stands behind the point, unless it is a '*'. */
  lemma PointThen(t: string, args: seq<Arg>, f: Flags)
    requires t != "" && t[0] != '*'
    ensures ParsePrecision("." + t, args, f) ==
            if '0' <= t[0] <= '9' then Some(Parsed(f.(precision := true), Atoi(t, 0).0, Atoi(t, 0).1, args))
            else Some(Parsed(f.(precision := true), 0, t, args))
  {
    hide Atoi;
    assert ("." + t)[1..] == t;
  }

  /** The parts of a specification are taken for what they are. */
  lemma ParsesAs(flags: string, width: string, prec: Option<string>, mod: string, c: char, tail: string, args: seq<Arg>)
    requires AreFlags(flags) && IsWidth(width) && IsPrecision(prec) && IsModifier(mod) && Ends(c)
    ensures var sp := ParseSpec(Specification(flags, width, prec, mod, c) + tail, args);
            && sp.Some?
            && sp.value.f == Seen(NO_FLAGS, flags).(precision := prec.Some?)
            && sp.value.width == Count(width) && sp.value.prec == PrecisionCount(prec)
            && SizeBits(sp.value.size) == BitsOf(mod)
            && sp.value.rest == [c] + tail && sp.value.args == args
  {
    hide Atoi, Decimal, ParseFlags, ParseWidth, ParsePrecision, ParseSize, Count, PrecisionCount, SizeBits, BitsOf;
    var dot := match prec case None => "" case Some(p) => "." + p;
    var s3 := mod + [c] + tail;
    var s2 := dot + s3;
    var s1 := width + s2;
    assert Specification(flags, width, prec, mod, c) + tail == flags + s1;
    FirstOf(width, dot, mod, c, tail, prec);
    FlagsAre(flags, s1, NO_FLAGS);
    WidthIs(width, s2, args, Seen(NO_FLAGS, flags));
    PrecisionIs(prec, s3, args, Seen(NO_FLAGS, flags));
    ModifierIs(mod, c, tail);
  }

  /** What each part begins with tells it from the part before. */
  lemma FirstOf(width: string, dot: string, mod: string, c: char, tail: string, prec: Option<string>)
    requires IsWidth(width) && IsPrecision(prec) && IsModifier(mod) && Ends(c)
    requires dot == match prec case None => "" case Some(p) => "." + p
    ensures var s3 := mod + [c] + tail;
            && s3 != "" && !('0' <= s3[0] <= '9') && s3[0] != '*' && s3[0] != '.' && s3[0] !in "0-+ #"
    ensures var s2 := dot + (mod + [c] + tail);
            && s2 != "" && !('0' <= s2[0] <= '9') && s2[0] != '*' && s2[0] !in "0-+ #"
    ensures var s1 := width + (dot + (mod + [c] + tail)); s1 != "" && s1[0] !in "0-+ #"
  {
    hide Decimal;
    var s3 := mod + [c] + tail;
    assert s3[0] == if mod == "" then c else mod[0];
    var s2 := dot + s3;
    assert s2[0] == if dot == "" then s3[0] else '.';
    var s1 := width + s2;
    assert s1[0] == if width == "" then s2[0] else width[0];
  }

  /** One specification and what comes behind it. */
  lemma RendersAs(flags: string, width: string, prec: Option<string>, mod: string,
                  c: char, tail: string, args: seq<Arg>)
    returns (size: Size)
    requires AreFlags(flags) && IsWidth(width) && IsPrecision(prec) && IsModifier(mod) && Ends(c)
    ensures SizeBits(size) == BitsOf(mod)
    ensures var sp := Spec(Seen(NO_FLAGS, flags).(precision := prec.Some?), Count(width), PrecisionCount(prec), size,
                           [c] + tail, args);
            Render("%" + Specification(flags, width, prec, mod, c) + tail, args) ==
            match Convert(c, sp)
            case None => None
            case Some((field, left)) => (match Render(tail, left) case None => None case Some(t) => Some(field + t))
  {
    hide ParseSpec, Convert, Count, PrecisionCount, SizeBits, BitsOf, Specification, Seen;
    ParsesAs(flags, width, prec, mod, c, tail, args);
    var s := Specification(flags, width, prec, mod, c) + tail;
    size := ParseSpec(s, args).value.size;
    assert ("%" + Specification(flags, width, prec, mod, c) + tail)[1..] == s;
    assert ([c] + tail)[1..] == tail;
  }

  /** A character that is no '%' is itself. */
  lemma PlainIs(c: char, tail: string, args: seq<Arg>)
    requires c != '%'
    ensures Render([c] + tail, args) == match Render(tail, args) case None => None case Some(t) => Some([c] + t)
    ensures Render("", args) == Some("")
  {
    assert ([c] + tail)[1..] == tail;
  }

  // ---- arguments instead of numbers

  /** v is the number below 2^31 in size, or -2^31, that agrees with the argument's low 32 bits. */
  predicate IsInt32(v: int, w: u64) {
    0 - 0x8000_0000 <= v < 0x8000_0000 && (w - v) % 0x1_0000_0000 == 0
  }

  lemma LowPart(v: int, w: u64, m: nat)
    requires m > 0 && (w - v) % m == 0
    ensures 0 <= v < m ==> w % m == v
    ensures 0 - m <= v < 0 ==> w % m == v + m
  {
    var q := (w - v) / m;
    assert w == m * q + v;
    if 0 <= v < m {
      NotNegative(q, v, w, m);
      DivByParts(w, m, q, v);
    } else if 0 - m <= v < 0 {
      assert w == m * (q - 1) + (v + m);
      NotNegative(q - 1, v + m, w, m);
      DivByParts(w, m, q - 1, v + m);
    }
  }

  lemma Negated(m: nat, k: nat)
    ensures m * (0 - k) == 0 - k * m
  {
  }

  lemma NotNegative(q: int, r: nat, w: nat, m: nat)
    requires m > 0 && w == m * q + r && r < m
    ensures q >= 0
  {
    if q < 0 {
      var k: nat := 0 - q;
      MulLe(1, k, m);
      Negated(m, k);
    }
  }

  /** '*' takes an int for the width; a negative one turns the field left. */
  lemma StarWidth(v: int, w: u64, rest: string, args: seq<Arg>, f: Flags)
    requires IsInt32(v, w)
    ensures ParseWidth("*" + rest, [Num(w)] + args, f) ==
            Some(Parsed(if v < 0 then f.(left := true) else f, if v < 0 then -v else v, rest, args))
    ensures ParseWidth("*" + rest, [], f) == None
  {
    LowPart(v, w, 0x1_0000_0000);
    assert ("*" + rest)[1..] == rest && ([Num(w)] + args)[1..] == args;
  }

  /** And for the precision, where a negative one counts as 0. */
  lemma StarPrecision(v: int, w: u64, rest: string, args: seq<Arg>, f: Flags)
    requires IsInt32(v, w)
    ensures ParsePrecision(".*" + rest, [Num(w)] + args, f) ==
            Some(Parsed(f.(precision := true), if v < 0 then 0 else v, rest, args))
    ensures ParsePrecision(".*" + rest, [], f) == None
  {
    LowPart(v, w, 0x1_0000_0000);
    assert (".*" + rest)[1..] == "*" + rest && ("*" + rest)[1..] == rest && ([Num(w)] + args)[1..] == args;
  }

  // ---- integers

  /** v is the number that the argument's low `bits` bits stand for, in two's complement if signed. */
  predicate StandsFor(v: int, signed: bool, bits: nat, w: u64) {
    var m := if bits == 8 then 0x100 else if bits == 16 then 0x1_0000 else if bits == 32 then 0x1_0000_0000
             else 0x1_0000_0000_0000_0000;
    (w - v) % m == 0 && (if signed then 0 - m <= 2 * v < m else 0 <= v < m)
  }

  /** The base of each integer specifier. */
  predicate IsBase(c: char, base: nat) {
    match c
    case 'x' => base == 16
    case 'X' => base == 16
    case 'o' => base == 8
    case 'b' => base == 2
    case 'd' => base == 10
    case 'i' => base == 10
    case 'u' => base == 10
    case _ => false
  }

  /** The flags that count: '0' not beside a precision, '+' and ' ' for d and i, '#' not in base 10, capitals for X. */
  function Effective(c: char, f: Flags): Flags {
    Flags(f.zeropad && !f.precision, f.left, f.plus && c in "di", f.space && c in "di", f.hash && c in "xXob",
          f.upper || c == 'X', f.precision)
  }

  lemma IntFieldIs(c: char, w: u64, size: Size, width: u32, prec: u32, f: Flags, v: int, base: nat)
    requires IsBase(c, base) && StandsFor(v, c in "di", SizeBits(size), w)
    ensures v < WORD && -v < WORD && 2 <= base <= 16 && (v < 0 ==> c in "di")
    ensures IntField(c, w, size, width, prec, f) ==
            Ntoa(if v < 0 then -v else v, v < 0, base, prec, width, Effective(c, f))
  {
    hide Ntoa;
    LowPart(v, w, ModulusOf(size));
    assert IntFlags(c, f) == Effective(c, f);
  }

  /**
   * A reader of the field, in the base of its specifier, always finds a number: the one the argument
   * stands for, exactly when that is not negative or its sign has room. In base 2 it is that number
   * modulo 2^32.
   */
  lemma IntFieldReadsBack(c: char, w: u64, size: Size, width: u32, prec: u32, f: Flags, v: int, base: nat)
    requires IsBase(c, base) && StandsFor(v, c in "di", SizeBits(size), w)
    requires !(f.hash && c in "xXob")
    ensures var r := ReadField(IntField(c, w, size, width, prec, f), base);
            && r.Some?
            && (base == 2 ==> NumberRead(r.value) == v % 0x1_0000_0000)
            && (base != 2 ==>
                  (NumberRead(r.value) == v <==>
                     v >= 0 || f.left || (prec < 32 && (f.zeropad && !f.precision ==> width <= 32))))
  {
    hide Ntoa, ReadField, StandsFor, SizeBits, IntField;
    IntFieldIs(c, w, size, width, prec, f, v, base);
    var g := Effective(c, f);
    if base == 2 {
      BinaryFieldReadsBack(v, prec, width, g);
    } else if base == 10 {
      SignedReadsBack(v, prec, width, g);
    } else {
      NtoaReadsBack(v, false, base, prec, width, g);
    }
  }

  /** '%.32d' of -1 loses its sign. */
  lemma SignIsLost()
    ensures var f := NO_FLAGS.(precision := true);
            ReadField(IntField('d', 0xFFFF_FFFF, IntSize, 0, 32, f), 10) == Some(Reading(false, 1))
  {
    hide Digits, ReadField, Ntoa;
    var f := NO_FLAGS.(precision := true);
    IntFieldIs('d', 0xFFFF_FFFF, IntSize, 0, 32, f, -1, 10);
    NtoaReadsBack(1, true, 10, 32, 0, Effective('d', f));
    DigitsLeaveRoomIff(1, true, 10, 32, 0, Effective('d', f));
  }

  /**
   * An integer specification, character by character, writes the number its argument stands for,
   * as section 7.21.6.1 of C11 has it, exactly when the digits have room and '-' hides no precision.
   */
  lemma IntegerDirective(flags: string, width: string, prec: Option<string>, mod: string, c: char, tail: string,
      w: u64, args: seq<Arg>, v: int, base: nat) returns (field: string)
    requires AreFlags(flags) && IsWidth(width) && IsPrecision(prec) && IsModifier(mod)
    requires IsBase(c, base) && StandsFor(v, c in "di", BitsOf(mod), w)
    ensures 2 <= base <= 16
    ensures Render("%" + Specification(flags, width, prec, mod, c) + tail, [Num(w)] + args) ==
            match Render(tail, args) case None => None case Some(t) => Some(field + t)
    ensures var f := Effective(c, Seen(NO_FLAGS, flags).(precision := prec.Some?));
            var size := if v < 0 then -v else v;
            && ((!f.hash || v == 0) && (base != 2 || v < 0x1_0000_0000) ==>
                  (field == Standard(size, v < 0, base, PrecisionCount(prec), Count(width), f) <==>
                     || InRoom(size, v < 0, base, PrecisionCount(prec), Count(width), f)
                     || BlankSign(v < 0, PrecisionCount(prec), Count(width), f)))
            && (f.hash && v > 0 && (base != 2 || v < 0x1_0000_0000)
                && InRoom(size, v < 0, base, PrecisionCount(prec), Count(width), f)
                && PrefixFits(size, v < 0, base, PrecisionCount(prec), Count(width), f) ==>
                  field == Standard(size, v < 0, base, PrecisionCount(prec), Count(width), f))
  {
    hide Ntoa, Standard, InRoom, PrefixFits, BlankSign, Count, PrecisionCount, Render, Specification, StandsFor,
         SizeBits,
         BitsOf, Seen, IntField;
    EndsInteger(c, base);
    var size := RendersAs(flags, width, prec, mod, c, tail, [Num(w)] + args);
    var f := Seen(NO_FLAGS, flags).(precision := prec.Some?);
    field := IntField(c, w, size, Count(width), PrecisionCount(prec), f);
    assert ([Num(w)] + args)[1..] == args;
    IntFieldIs(c, w, size, Count(width), PrecisionCount(prec), f, v, base);
    var n: u64, g := if v < 0 then -v else v, Effective(c, f);
    if base != 2 || v < 0x1_0000_0000 {
      Fits(c, v, base, f);
      if !g.hash || v == 0 {
        NoHash(n, v < 0, base, PrecisionCount(prec), Count(width), g);
        NtoaIsStandardIff(n, v < 0, base, PrecisionCount(prec), Count(width), g.(hash := false));
      } else if v > 0 && InRoom(n, v < 0, base, PrecisionCount(prec), Count(width), g)
                && PrefixFits(n, v < 0, base, PrecisionCount(prec), Count(width), g) {
        HashIsStandard(n, v < 0, base, PrecisionCount(prec), Count(width), g);
      }
    }
  }

  /** Without '#', or for 0, the prefix plays no part. */
  lemma NoHash(v: u64, neg: bool, base: nat, prec: u32, width: u32, f: Flags)
    requires 2 <= base <= 16 && (!f.hash || v == 0)
    ensures var g := f.(hash := false);
            && Ntoa(v, neg, base, prec, width, f) == Ntoa(v, neg, base, prec, width, g)
            && Standard(v, neg, base, prec, width, f) == Standard(v, neg, base, prec, width, g)
            && InRoom(v, neg, base, prec, width, f) == InRoom(v, neg, base, prec, width, g)
            && BlankSign(neg, prec, width, f) == BlankSign(neg, prec, width, g)
            && (Fits32(v, base, neg, f) ==> Fits32(v, base, neg, g))
  {
    if !f.hash {
      assert f.(hash := false) == f;
    } else {
      NoHashZero(neg, base, prec, width, f);
      NoHashStandard(neg, base, prec, width, f);
    }
  }

  lemma NoHashZero(neg: bool, base: nat, prec: u32, width: u32, f: Flags)
    requires 2 <= base <= 16
    ensures Ntoa(0, neg, base, prec, width, f) == Ntoa(0, neg, base, prec, width, f.(hash := false))
  {
    hide Digits, Field, Filled, InnerWidth;
    assert f.(hash := false).(hash := false) == f.(hash := false);
  }

  lemma NoHashStandard(neg: bool, base: nat, prec: u32, width: u32, f: Flags)
    requires 2 <= base <= 16
    ensures var g := f.(hash := false);
            && Standard(0, neg, base, prec, width, f) == Standard(0, neg, base, prec, width, g)
            && InRoom(0, neg, base, prec, width, f) == InRoom(0, neg, base, prec, width, g)
            && BlankSign(neg, prec, width, f) == BlankSign(neg, prec, width, g)
  {
    hide Numeral, Times, LaidOut;
    var g := f.(hash := false);
    SameLayout(SignText(neg, f), PrefixText(0, base, f), DigitText(0, base, f), prec, width, f);
    assert SignText(neg, g) == SignText(neg, f) && DigitText(0, base, g) == DigitText(0, base, f);
    assert PrefixText(0, base, f) == "" && PrefixText(0, base, g) == "";
  }

  lemma SameLayout(sign: string, prefix: string, digits: string, prec: nat, width: nat, f: Flags)
    ensures LaidOut(sign, prefix, digits, prec, width, f) ==
            LaidOut(sign, prefix, digits, prec, width, f.(hash := false))
  {
    hide Times;
    var g := f.(hash := false);
    assert g.zeropad == f.zeropad && g.left == f.left;
  }

  lemma EndsInteger(c: char, base: nat)
    requires IsBase(c, base)
    ensures Ends(c) && IsIntSpecifier(c)
  {
  }

  lemma Fits(c: char, v: int, base: nat, f: Flags)
    requires IsBase(c, base) && 0 - WORD < v < WORD && (v < 0 ==> c in "di") && (base == 2 ==> v < 0x1_0000_0000)
    ensures Fits32(if v < 0 then -v else v, base, v < 0, Effective(c, f))
  {
  }

  // ---- characters, strings, pointers and the rest

  /** Blanks behind with '-', in front without. */
  function Aligned(body: string, left: bool, width: nat): string {
    if left then body + Times(' ', width - |body|) else Times(' ', width - |body|) + body
  }

  lemma JustifiedIs(body: string, width: u32, f: Flags)
    ensures Justified(body, width, f) == Aligned(body, f.left, width)
  {
    CopiesAreTimes(' ', width - |body|);
  }

  /** 's' writes the text, or as much of it as the precision allows. */
  lemma TextDirective(flags: string, width: string, prec: Option<string>, mod: string, tail: string, text: Text,
      args: seq<Arg>)
    requires AreFlags(flags) && IsWidth(width) && IsPrecision(prec) && IsModifier(mod)
    ensures var shown := if prec.Some? && PrecisionCount(prec) < |text| then text[..PrecisionCount(prec)] else text;
            Render("%" + Specification(flags, width, prec, mod, 's') + tail, [Str(text)] + args) ==
            match Render(tail, args)
            case None => None
            case Some(t) => Some(Aligned(shown, '-' in flags, Count(width)) + t)
  {
    hide Count, PrecisionCount, Render, Specification, Justified;
    var size := RendersAs(flags, width, prec, mod, 's', tail, [Str(text)] + args);
    assert ([Str(text)] + args)[1..] == args;
    var shown := if prec.Some? && PrecisionCount(prec) < |text| then text[..PrecisionCount(prec)] else text;
    JustifiedIs(shown, Count(width), Seen(NO_FLAGS, flags).(precision := prec.Some?));
  }

  /** 'c' writes one character, the argument's low 8 bits. */
  lemma CharDirective(flags: string, width: string, prec: Option<string>, mod: string,
                      tail: string, w: u64, args: seq<Arg>)
    requires AreFlags(flags) && IsWidth(width) && IsPrecision(prec) && IsModifier(mod)
    ensures Render("%" + Specification(flags, width, prec, mod, 'c') + tail, [Num(w)] + args) ==
            match Render(tail, args) case None => None
            case Some(t) => Some(Aligned([(w % 256) as char], '-' in flags, Count(width)) + t)
  {
    hide Count, PrecisionCount, Render, Specification, Justified;
    var size := RendersAs(flags, width, prec, mod, 'c', tail, [Num(w)] + args);
    assert ([Num(w)] + args)[1..] == args;
    JustifiedIs([(w % 256) as char], Count(width), Seen(NO_FLAGS, flags).(precision := prec.Some?));
  }

  /** '%' writes itself and takes no argument; so does any character that is no specifier. */
  lemma OtherDirective(flags: string, width: string, prec: Option<string>, mod: string,
                       c: char, tail: string, args: seq<Arg>)
    requires AreFlags(flags) && IsWidth(width) && IsPrecision(prec) && IsModifier(mod)
    requires Ends(c) && c !in "diuxXobcsp"
    ensures Render("%" + Specification(flags, width, prec, mod, c) + tail, args) ==
            match Render(tail, args) case None => None case Some(t) => Some([c] + t)
  {
    hide Count, PrecisionCount, Render, Specification;
    var size := RendersAs(flags, width, prec, mod, c, tail, args);
  }

  /** 'p' writes 16 capital hexadecimal digits, whatever the width. */
  lemma PointerDirective(width: string, mod: string, tail: string, w: u64, args: seq<Arg>) returns (field: string)
    requires IsWidth(width) && IsModifier(mod)
    ensures Render("%" + Specification("", width, None, mod, 'p') + tail, [Num(w)] + args) ==
            match Render(tail, args) case None => None case Some(t) => Some(field + t)
    ensures |field| == 16 && field == Times('0', 16 - |Numeral(w, 16, true)|) + Numeral(w, 16, true)
  {
    hide Count, Render, Specification, Ntoa, Numeral, Digits, Times, LaidOut;
    var size := RendersAs("", width, None, mod, 'p', tail, [Num(w)] + args);
    assert ([Num(w)] + args)[1..] == args;
    var f := NO_FLAGS.(zeropad := true, upper := true);
    assert Seen(NO_FLAGS, "").(precision := false, zeropad := true, upper := true) == f;
    field := Ntoa(w, false, 16, 0, 16, f);
    NtoaIsStandard(w, false, 16, 0, 16, f);
    SixteenDigits(w);
    PointerLaidOut(Numeral(w, 16, true), f);
  }

  lemma PointerLaidOut(digits: string, f: Flags)
    requires f == NO_FLAGS.(zeropad := true, upper := true) && |digits| <= 16
    ensures LaidOut("", "", digits, 0, 16, f) == Times('0', 16 - |digits|) + digits
  {
    var body := "" + "" + Times('0', 16 - |digits|) + digits;
    assert body == Times('0', 16 - |digits|) + digits;
    assert Times(' ', 16 - |body|) + body == body;
  }

  lemma {:induction false} NumeralIsShort(v: nat, n: nat)
    requires n > 0 && v < Pow(16, n)
    ensures |Numeral(v, 16, true)| <= n
  {
    hide Numeral;
    NumeralUnfolds(v, 16, true);
    if v >= 16 {
      SmallIff(v, 16);
      QuotientIsSmaller(v, 16, 16, n);
      NumeralIsShort(v / 16, n - 1);
    }
  }

  lemma SixteenDigits(w: u64)
    ensures |Numeral(w, 16, true)| <= 16
  {
    assert Pow(16, 2) == 256;
    PowSum(16, 2, 2);
    PowSum(16, 4, 4);
    PowSum(16, 8, 8);
    NumeralIsShort(w, 16);
  }

  /** An argument that is missing, or a string where a number is due or the other way round, is out of bounds. */
  lemma WrongArgument(flags: string, width: string, prec: Option<string>, mod: string,
                      c: char, tail: string, args: seq<Arg>)
    requires AreFlags(flags) && IsWidth(width) && IsPrecision(prec) && IsModifier(mod) && c in "diuxXobcsp"
    requires args == [] || (args[0].Str? <==> c != 's')
    ensures Render("%" + Specification(flags, width, prec, mod, c) + tail, args) == None
  {
    hide Count, PrecisionCount, Render, Specification;
    var size := RendersAs(flags, width, prec, mod, c, tail, args);
  }

  /** A format that ends behind its '%', or behind flags, is out of bounds too. */
  lemma UnfinishedDirective(flags: string, args: seq<Arg>)
    requires AreFlags(flags)
    ensures Render("%" + flags, args) == None
  {
    FlagsAre(flags, "", NO_FLAGS);
    assert flags + "" == flags && ("%" + flags)[1..] == flags;
  }

  // ---- the case of letters

  predicate Lower(s: string) {
    forall i :: 0 <= i < |s| ==> !('A' <= s[i] <= 'Z')
  }

  predicate Upper(s: string) {
    forall i :: 0 <= i < |s| ==> !('a' <= s[i] <= 'z')
  }

  predicate InCase(s: string, upper: bool) {
    if upper then Upper(s) else Lower(s)
  }

  lemma JoinInCase(a: string, b: string, upper: bool)
    requires InCase(a, upper) && InCase(b, upper)
    ensures InCase(a + b, upper)
  {
  }

  lemma DigitInCase(d: nat, upper: bool)
    requires d < 16
    ensures InCase([DigitChar(d, upper)], upper)
  {
  }

  lemma {:induction false} DigitsInCase(v: nat, base: nat, room: nat, upper: bool)
    requires 2 <= base <= 16
    ensures InCase(Digits(v, base, room, upper), upper) && InCase("", upper)
    decreases room
  {
    hide DigitChar, InCase, Digits;
    EmptyInCase(upper);
    if room == 0 {
      PrintfTheorems.NoDigits(v, base, upper);
    } else {
      DigitsUnfold(v, base, room, upper);
      DigitInCase(v % base, upper);
      if v / base != 0 { DigitsInCase(v / base, base, room - 1, upper); }
      var rest := if v / base == 0 then "" else Digits(v / base, base, room - 1, upper);
      JoinInCase([DigitChar(v % base, upper)], rest, upper);
    }
  }

  lemma EmptyInCase(upper: bool)
    ensures InCase("", upper)
  {
  }

  lemma {:induction false} ReversedInCase(s: string, upper: bool)
    requires InCase(s, upper)
    ensures InCase(Reversed(s), upper)
  {
    if s != "" { ReversedInCase(s[1..], upper); }
  }

  lemma {:induction false} CopiesInCase(c: char, n: int, upper: bool)
    requires c == ' ' || c == '0'
    ensures InCase(Copies(c, n), upper)
  {
    if n > 0 { CopiesInCase(c, n - 1, upper); }
  }

  lemma ZerosInCase(b: string, n: nat, upper: bool)
    requires InCase(b, upper)
    ensures InCase(ZeroFilled(b, n), upper)
  {
    hide InCase, Copies;
    CopiesInCase('0', Min(n, NTOA_SIZE) - |b|, upper);
    JoinInCase(b, Copies('0', Min(n, NTOA_SIZE) - |b|), upper);
  }

  lemma PushedInCase(b: string, c: char, upper: bool)
    requires InCase(b, upper) && InCase([c], upper)
    ensures InCase(Pushed(b, c), upper)
  {
    hide InCase;
    JoinInCase(b, [c], upper);
  }

  lemma DroppedInCase(b: string, n: nat, upper: bool)
    requires InCase(b, upper)
    ensures InCase(Dropped(b, n), upper)
  {
  }

  lemma HashedInCase(b: string, base: nat, prec: u32, width: u32, f: Flags)
    requires InCase(b, f.upper) && (base == 2 ==> !f.upper)
    ensures InCase(Hashed(b, base, prec, width, f), f.upper)
  {
    var b1 := if !f.precision && b != "" && (|b| == prec || |b| == width)
              then Dropped(b, if base == 16 then 2 else 1) else b;
    var x := if f.upper then 'X' else 'x';
    assert InCase([x], f.upper) && InCase(['0'], f.upper) && InCase(['b'], false);
    hide InCase, Pushed, Dropped;
    DroppedInCase(b, if base == 16 then 2 else 1, f.upper);
    PushedInCase(b1, x, f.upper);
    if base == 2 { PushedInCase(b1, 'b', f.upper); }
    var b2 := if base == 16 then Pushed(b1, x) else if base == 2 then Pushed(b1, 'b') else b1;
    PushedInCase(b2, '0', f.upper);
  }

  lemma FilledInCase(b: string, neg: bool, base: nat, prec: u32, width: u32, f: Flags)
    requires InCase(b, f.upper) && (base == 2 ==> !f.upper)
    ensures InCase(Filled(b, neg, base, prec, width, f), f.upper)
  {
    assert InCase(['-'], f.upper) && InCase(['+'], f.upper) && InCase([' '], f.upper);
    hide InCase, Hashed, Pushed, ZeroFilled, InnerWidth;
    var w := InnerWidth(neg, width, f);
    ZerosInCase(b, prec, f.upper);
    ZerosInCase(ZeroFilled(b, prec), w, f.upper);
    var padded := Padded(b, prec, w, f);
    HashedInCase(padded, base, prec, w, f);
    var hashed := Hashed(padded, base, prec, w, f);
    PushedInCase(hashed, '-', f.upper);
    PushedInCase(hashed, '+', f.upper);
    PushedInCase(hashed, ' ', f.upper);
  }

  /** Small letters for x, capitals for X, in the digits and in the prefix, whatever the rest says. */
  lemma LettersAre(c: char, w: u64, size: Size, width: u32, prec: u32, f: Flags)
    requires IsIntSpecifier(c) && !f.upper
    ensures c == 'X' ==> Upper(IntField(c, w, size, width, prec, f))
    ensures c != 'X' ==> Lower(IntField(c, w, size, width, prec, f))
  {
    hide Ntoa, Upper, Lower, ModulusOf;
    assert IntFlags(c, f).upper <==> c == 'X';
    if c == 'd' || c == 'i' {
      var v := SignedPart(w, ModulusOf(size));
      NtoaInCase(if v < 0 then -v else v, v < 0, BaseOf(c), prec, width, IntFlags(c, f));
    } else {
      NtoaInCase(w % ModulusOf(size), false, BaseOf(c), prec, width, IntFlags(c, f));
    }
  }

  lemma NtoaInCase(v: u64, neg: bool, base: nat, prec: u32, width: u32, f: Flags)
    requires 2 <= base <= 16 && (base == 2 ==> !f.upper)
    ensures InCase(Ntoa(v, neg, base, prec, width, f), f.upper)
  {
    hide Digits, Reversed, Copies, Filled;
    var g := if v == 0 then f.(hash := false) else f;
    var b := if g.precision && v == 0 then "" else Digits(v, base, NTOA_SIZE, g.upper);
    DigitsInCase(v, base, NTOA_SIZE, g.upper);
    FilledInCase(b, neg, base, prec, width, g);
    var c, inner := Filled(b, neg, base, prec, width, g), InnerWidth(neg, width, g);
    ReversedInCase(c, g.upper);
    CopiesInCase(' ', inner - |c|, g.upper);
  }
}
