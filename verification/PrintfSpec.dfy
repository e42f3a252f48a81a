/** What kernel/src/util/printf.c writes, as a string: integers, characters, strings and pointers. */
module PrintfSpec {
  import opened Words
  import opened Options

  /** PRINTF_NTOA_BUFFER_SIZE */
  const NTOA_SIZE: nat := 32

  datatype Flags = Flags(zeropad: bool, left: bool, plus: bool, space: bool, hash: bool, upper: bool, precision: bool)

  datatype Size = CharSize | ShortSize | IntSize | LongSize

  /** A string argument, without its terminator and of a length that fits an int. */
  type Text = s: string | |s| < 0x8000_0000 && '\0' !in s

  /** One variadic argument: a machine word, or a pointer to a string. */
  datatype Arg = Num(bits: u64) | Str(text: Text)

  // ---- integers

  function DigitChar(d: nat, upper: bool): char
    requires d < 16
  {
    if d < 10 then "0123456789"[d] else if upper then "ABCDEF"[d - 10] else "abcdef"[d - 10]
  }

  /** The digits that fill the conversion buffer, least significant first, at most `room` of them. */
  function Digits(v: nat, base: nat, room: nat, upper: bool): (s: string)
    requires 2 <= base <= 16
    ensures |s| <= room && (room > 0 ==> s != "")
    decreases room
  {
    if room == 0 then ""
    else [DigitChar(v % base, upper)] + if v / base == 0 then "" else Digits(v / base, base, room - 1, upper)
  }

  function Copies(c: char, n: int): (s: string)
    ensures |s| == if n < 0 then 0 else n
  {
    if n <= 0 then "" else Copies(c, n - 1) + [c]
  }

  function Min(a: int, b: int): int { if a < b then a else b }
  function Max(a: int, b: int): int { if a < b then b else a }

  /** Zeros appended until the buffer holds n characters or is full. */
  function ZeroFilled(b: string, n: nat): string {
    b + Copies('0', Min(n, NTOA_SIZE) - |b|)
  }

  predicate Signed(neg: bool, f: Flags) {
    neg || f.plus || f.space
  }

  /** The field width once room for a sign has been set aside. */
  function InnerWidth(neg: bool, width: u32, f: Flags): u32 {
    if !f.left && width > 0 && f.zeropad && Signed(neg, f) then width - 1 else width
  }

  function Padded(b: string, prec: u32, width: u32, f: Flags): string {
    if f.left then b
    else
      var b1 := ZeroFilled(b, prec);
      if f.zeropad then ZeroFilled(b1, width) else b1
  }

  /** Append if the buffer has room. */
  function Pushed(b: string, c: char): string {
    if |b| < NTOA_SIZE then b + [c] else b
  }

  function Dropped(b: string, n: nat): string {
    if n >= |b| then "" else b[..|b| - n]
  }

  /** The '#' prefix, reversed as everything in the buffer; it first takes digits away again. */
  function Hashed(b: string, base: nat, prec: u32, width: u32, f: Flags): string {
    if !f.hash then b
    else
      var b1 := if !f.precision && b != "" && (|b| == prec || |b| == width)
                then Dropped(b, if base == 16 then 2 else 1) else b;
      var b2 := if base == 16 then Pushed(b1, if f.upper then 'X' else 'x')
                else if base == 2 then Pushed(b1, 'b') else b1;
      Pushed(b2, '0')
  }

  function WithSign(b: string, neg: bool, f: Flags): string {
    if neg then Pushed(b, '-') else if f.plus then Pushed(b, '+') else if f.space then Pushed(b, ' ') else b
  }

  /** The conversion buffer as _ntoa_format leaves it. */
  function Filled(b: string, neg: bool, base: nat, prec: u32, width: u32, f: Flags): string {
    var w := InnerWidth(neg, width, f);
    WithSign(Hashed(Padded(b, prec, w, f), base, prec, w, f), neg, f)
  }

  function Reversed(s: string): (r: string)
    ensures |r| == |s|
  {
    if s == "" then "" else Reversed(s[1..]) + [s[0]]
  }

  /** _out_rev */
  function Field(b: string, width: u32, f: Flags): string {
    (if !f.left && !f.zeropad then Copies(' ', width - |b|) else "")
    + Reversed(b)
    + (if f.left then Copies(' ', width - |b|) else "")
  }

  /** _ntoa_long and _ntoa_long_long */
  function Ntoa(v: u64, neg: bool, base: nat, prec: u32, width: u32, f: Flags): string
    requires 2 <= base <= 16
  {
    var g := if v == 0 then f.(hash := false) else f;
    var b := if g.precision && v == 0 then "" else Digits(v, base, NTOA_SIZE, g.upper);
    Field(Filled(b, neg, base, prec, width, g), InnerWidth(neg, width, g), g)
  }

  /** The low `bits` of w as a signed number, for the modulus 2^bits. */
  function SignedPart(w: u64, modulus: nat): int
    requires modulus > 0
  {
    var r := w % modulus;
    if r < modulus / 2 then r else r - modulus
  }

  function ModulusOf(size: Size): (m: nat)
    ensures 0 < m <= 0x1_0000_0000_0000_0000
  {
    match size
    case CharSize => 0x100
    case ShortSize => 0x1_0000
    case IntSize => 0x1_0000_0000
    case LongSize => 0x1_0000_0000_0000_0000
  }

  predicate IsIntSpecifier(c: char) {
    c == 'd' || c == 'i' || c == 'u' || c == 'x' || c == 'X' || c == 'o' || c == 'b'
  }

  function BaseOf(c: char): (b: nat)
    ensures 2 <= b <= 16
  {
    if c == 'x' || c == 'X' then 16 else if c == 'o' then 8 else if c == 'b' then 2 else 10
  }

  /** The flags as adjusted for an integer specifier. */
  function IntFlags(c: char, f: Flags): Flags {
    var signed := c == 'd' || c == 'i';
    f.(hash := f.hash && BaseOf(c) != 10,
       upper := f.upper || c == 'X',
       plus := f.plus && signed,
       space := f.space && signed,
       zeropad := f.zeropad && !f.precision)
  }

  function IntField(c: char, w: u64, size: Size, width: u32, prec: u32, f: Flags): string {
    if c == 'd' || c == 'i' then
      var v := SignedPart(w, ModulusOf(size));
      Ntoa(if v < 0 then -v else v, v < 0, BaseOf(c), prec, width, IntFlags(c, f))
    else
      Ntoa(w % ModulusOf(size), false, BaseOf(c), prec, width, IntFlags(c, f))
  }

  // ---- characters and strings

  /** body in a field of `width`, blank padded on the side the flags say. */
  function Justified(body: string, width: u32, f: Flags): string {
    if f.left then body + Copies(' ', width - |body|) else Copies(' ', width - |body|) + body
  }

  function TextField(text: Text, width: u32, prec: u32, f: Flags): string {
    Justified(if f.precision && prec < |text| then text[..prec] else text, width, f)
  }

  // ---- format strings

  predicate IsDigit(c: char) {
    '0' <= c <= '9'
  }

  const NO_FLAGS := Flags(false, false, false, false, false, false, false)

  function ParseFlags(s: string, f: Flags): (r: (Flags, string))
    ensures |r.1| <= |s|
    decreases |s|
  {
    if s == "" then (f, s)
    else if s[0] == '0' then ParseFlags(s[1..], f.(zeropad := true))
    else if s[0] == '-' then ParseFlags(s[1..], f.(left := true))
    else if s[0] == '+' then ParseFlags(s[1..], f.(plus := true))
    else if s[0] == ' ' then ParseFlags(s[1..], f.(space := true))
    else if s[0] == '#' then ParseFlags(s[1..], f.(hash := true))
    else (f, s)
  }

  /** _atoi, on 32-bit words. */
  function Atoi(s: string, acc: u32): (r: (u32, string))
    ensures |r.1| <= |s|
    decreases |s|
  {
    if s == "" || !IsDigit(s[0]) then (acc, s)
    else Atoi(s[1..], (acc * 10 + (s[0] as int - '0' as int)) % 0x1_0000_0000)
  }

  /** Parsing state: flags, a number, the rest of the format and of the arguments. */
  datatype Parsed = Parsed(f: Flags, n: u32, rest: string, args: seq<Arg>)

  /** None when a '*' finds no number among the arguments. */
  function ParseWidth(s: string, args: seq<Arg>, f: Flags): (r: Option<Parsed>)
    ensures r.Some? ==> |r.value.rest| <= |s|
  {
    if s != "" && IsDigit(s[0]) then
      var (n, rest) := Atoi(s, 0);
      Some(Parsed(f, n, rest, args))
    else if s != "" && s[0] == '*' then
      if args == [] || !args[0].Num? then None
      else
        var w := SignedPart(args[0].bits, 0x1_0000_0000);
        Some(Parsed(if w < 0 then f.(left := true) else f, if w < 0 then -w else w, s[1..], args[1..]))
    else Some(Parsed(f, 0, s, args))
  }

  function ParsePrecision(s: string, args: seq<Arg>, f: Flags): (r: Option<Parsed>)
    ensures r.Some? ==> |r.value.rest| <= |s|
  {
    if s == "" || s[0] != '.' then Some(Parsed(f, 0, s, args))
    else
      var g, t := f.(precision := true), s[1..];
      if t != "" && IsDigit(t[0]) then
        var (n, rest) := Atoi(t, 0);
        Some(Parsed(g, n, rest, args))
      else if t != "" && t[0] == '*' then
        if args == [] || !args[0].Num? then None
        else Some(Parsed(g, Max(0, SignedPart(args[0].bits, 0x1_0000_0000)), t[1..], args[1..]))
      else Some(Parsed(g, 0, t, args))
  }

  function ParseSize(s: string): (r: (Size, string))
    ensures |r.1| <= |s|
  {
    if s == "" then (IntSize, s)
    else if s[0] == 'l' then (LongSize, if |s| > 1 && s[1] == 'l' then s[2..] else s[1..])
    else if s[0] == 'h' then
      if |s| > 1 && s[1] == 'h' then (CharSize, s[2..]) else (ShortSize, s[1..])
    else if s[0] == 't' || s[0] == 'j' || s[0] == 'z' then (LongSize, s[1..])
    else (IntSize, s)
  }

  /** A whole specification up to its specifier character. */
  datatype Spec = Spec(f: Flags, width: u32, prec: u32, size: Size, rest: string, args: seq<Arg>)

  function ParseSpec(s: string, args: seq<Arg>): (r: Option<Spec>)
    ensures r.Some? ==> |r.value.rest| <= |s|
  {
    var (f, s1) := ParseFlags(s, NO_FLAGS);
    match ParseWidth(s1, args, f)
    case None => None
    case Some(w) =>
      match ParsePrecision(w.rest, w.args, w.f)
      case None => None
      case Some(p) =>
        var (size, rest) := ParseSize(p.rest);
        Some(Spec(p.f, w.n, p.n, size, rest, p.args))
  }

  /** What the specifier c writes and which arguments are left; None when its argument is missing. */
  function Convert(c: char, sp: Spec): Option<(string, seq<Arg>)> {
    if IsIntSpecifier(c) then
      if sp.args == [] || !sp.args[0].Num? then None
      else Some((IntField(c, sp.args[0].bits, sp.size, sp.width, sp.prec, sp.f), sp.args[1..]))
    else if c == 'c' then
      if sp.args == [] || !sp.args[0].Num? then None
      else Some((Justified([(sp.args[0].bits % 256) as char], sp.width, sp.f), sp.args[1..]))
    else if c == 's' then
      if sp.args == [] || !sp.args[0].Str? then None
      else Some((TextField(sp.args[0].text, sp.width, sp.prec, sp.f), sp.args[1..]))
    else if c == 'p' then
      if sp.args == [] || !sp.args[0].Num? then None
      else Some((Ntoa(sp.args[0].bits, false, 16, sp.prec, 16, sp.f.(zeropad := true, upper := true)), sp.args[1..]))
    else Some(([c], sp.args))
  }

  /**
   * The untruncated output. None where the source runs out of bounds: a format that ends
   * inside a specification, or an argument that is missing or of the wrong kind.
   */
  function Render(format: string, args: seq<Arg>): Option<string>
    decreases |format|
  {
    if format == "" then Some("")
    else if format[0] != '%' then
      match Render(format[1..], args)
      case None => None
      case Some(s) => Some([format[0]] + s)
    else
      match ParseSpec(format[1..], args)
      case None => None
      case Some(sp) =>
        if sp.rest == "" then None
        else
          match Convert(sp.rest[0], sp)
          case None => None
          case Some((field, left)) =>
            match Render(sp.rest[1..], left)
            case None => None
            case Some(s) => Some(field + s)
  }
}
