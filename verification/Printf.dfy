/** kernel/src/util/printf.c as it runs: a digit buffer of 32 characters and an output of limited length. */
module Printf {
  import opened Words
  import opened Options
  import opened PrintfSpec

  /** The buffer given to snprintf, and how far the output has got. */
  class Sink {
    const buffer: array<char>
    const maxlen: nat
    var idx: nat
    /** Everything written so far, whether or not it was kept. */
    ghost var full: string

    constructor (buffer: array<char>, maxlen: nat)
      requires maxlen <= buffer.Length
      ensures this.buffer == buffer && this.maxlen == maxlen && idx == 0 && full == ""
    {
      this.buffer := buffer;
      this.maxlen := maxlen;
      this.idx := 0;
      this.full := "";
    }

    /** The buffer holds what fits of the output; `before` is what it held at the start. */
    ghost predicate Holds(before: seq<char>)
      reads this, buffer
    {
      && maxlen <= buffer.Length == |before|
      && idx == |full|
      && forall k :: 0 <= k < buffer.Length ==> buffer[k] == if k < idx && k < maxlen then full[k] else before[k]
    }

    /** _out_buffer, with the index moved on. */
    method Put(c: char, ghost before: seq<char>)
      requires Holds(before)
      modifies `idx, `full, buffer
      ensures Holds(before) && full == old(full) + [c]
    {
      if idx < maxlen {
        buffer[idx] := c;
      }
      idx := idx + 1;
      full := full + [c];
    }

    method PutCopies(c: char, n: int, ghost before: seq<char>)
      requires Holds(before)
      modifies `idx, `full, buffer
      ensures Holds(before) && full == old(full) + Copies(c, n)
    {
      var i := 0;
      while i < n
        invariant 0 <= i && (i <= n || i == 0)
        invariant Holds(before) && full == old(full) + Copies(c, i)
      {
        Put(c, before);
        i := i + 1;
      }
    }

    method PutText(s: string, ghost before: seq<char>)
      requires Holds(before)
      modifies `idx, `full, buffer
      ensures Holds(before) && full == old(full) + s
    {
      var i := 0;
      while i < |s|
        invariant 0 <= i <= |s|
        invariant Holds(before) && full == old(full) + s[..i]
      {
        Put(s[i], before);
        i := i + 1;
      }
      assert s[..i] == s;
    }

    /** _out_rev */
    method OutRev(buf: array<char>, count: nat, width: u32, f: Flags, ghost before: seq<char>)
      requires Holds(before) && count <= buf.Length && buf != buffer
      modifies `idx, `full, buffer
      ensures Holds(before) && full == old(full) + Field(buf[..count], width, f)
    {
      hide Reversed, Copies;
      ghost var b := buf[..count];
      var start := idx;
      if !f.left && !f.zeropad {
        PutCopies(' ', width - count, before);
      }
      ghost var sofar := full;
      var left := count;
      assert b[..left] == b;
      while left > 0
        invariant 0 <= left <= count && buf[..count] == b
        invariant Holds(before) && full + Reversed(b[..left]) == sofar + Reversed(b)
      {
        left := left - 1;
        LastFirst(b[..left + 1]);
        assert b[..left + 1][..left] == b[..left];
        Put(buf[left], before);
      }
      NothingReversed();
      assert b[..0] == "" && full + "" == full;
      assert full == sofar + Reversed(b);
      ghost var pre := if !f.left && !f.zeropad then Copies(' ', width - count) else "";
      assert sofar == old(full) + pre;
      assert full == old(full) + (pre + Reversed(b));
      if f.left {
        assert idx - start == count;
        PutCopies(' ', width - (idx - start), before);
      }
    }

    static lemma NothingReversed()
      ensures Reversed("") == ""
    {
    }

    static lemma {:induction false} LastFirst(s: string)
      requires s != ""
      ensures Reversed(s) == [s[|s| - 1]] + Reversed(s[..|s| - 1])
    {
      if |s| > 1 {
        LastFirst(s[1..]);
        assert s[1..][..|s| - 2] == s[..|s| - 1][1..];
      }
    }

    /** _ntoa_format, on the `count` characters already in buf. */
    method NtoaFormat(buf: array<char>, count: nat, neg: bool, base: nat, prec: u32, width: u32, f: Flags,
                      ghost before: seq<char>)
      requires Holds(before) && buf.Length == NTOA_SIZE && count <= NTOA_SIZE && buf != buffer
      modifies `idx, `full, buffer, buf
      ensures Holds(before)
      ensures full == old(full) +
                      Field(Filled(old(buf[..count]), neg, base, prec, width, f), InnerWidth(neg, width, f), f)
    {
      hide Padded, ZeroFilled, Hashed, Field;
      ghost var b0 := buf[..count];
      var w, n := width, count;
      if !f.left {
        if w > 0 && f.zeropad && (neg || f.plus || f.space) {
          w := w - 1;
        }
        n := ZeroFill(buf, n, prec);
        if f.zeropad {
          n := ZeroFill(buf, n, w);
        }
      }
      assert buf[..n] == Padded(b0, prec, w, f) by { PaddedIs(b0, prec, w, f); }
      n := AddHash(buf, n, base, prec, w, f);
      assert buf[..n] == Hashed(Padded(b0, prec, w, f), base, prec, w, f);
      if neg {
        n := Push(buf, n, '-');
      } else if f.plus {
        n := Push(buf, n, '+');
      } else if f.space {
        n := Push(buf, n, ' ');
      }
      assert buf[..n] == Filled(b0, neg, base, prec, width, f);
      OutRev(buf, n, w, f, before);
    }

    static lemma PaddedIs(b: string, prec: u32, width: u32, f: Flags)
      ensures Padded(b, prec, width, f) ==
              if f.left then b
              else if f.zeropad then ZeroFilled(ZeroFilled(b, prec), width) else ZeroFilled(b, prec)
    {
    }

    static method ZeroFill(buf: array<char>, count: nat, target: nat) returns (n: nat)
      requires buf.Length == NTOA_SIZE && count <= NTOA_SIZE
      modifies buf
      ensures n <= NTOA_SIZE && buf[..n] == ZeroFilled(old(buf[..count]), target)
    {
      n := count;
      ghost var b := buf[..count];
      while n < target && n < NTOA_SIZE
        invariant count <= n <= NTOA_SIZE && (n <= target || n == count)
        invariant buf[..n] == b + Copies('0', n - count)
      {
        buf[n] := '0';
        n := n + 1;
        assert buf[..n] == buf[..n - 1] + ['0'];
      }
    }

    static method Push(buf: array<char>, count: nat, c: char) returns (n: nat)
      requires buf.Length == NTOA_SIZE && count <= NTOA_SIZE
      modifies buf
      ensures n <= NTOA_SIZE && buf[..n] == Pushed(old(buf[..count]), c)
    {
      n := count;
      if n < NTOA_SIZE {
        buf[n] := c;
        n := n + 1;
      }
    }

    static method AddHash(buf: array<char>, count: nat, base: nat, prec: u32, width: u32, f: Flags) returns (n: nat)
      requires buf.Length == NTOA_SIZE && count <= NTOA_SIZE
      modifies buf
      ensures n <= NTOA_SIZE && buf[..n] == Hashed(old(buf[..count]), base, prec, width, f)
    {
      n := count;
      if !f.hash {
        return;
      }
      ghost var b := buf[..count];
      if !f.precision && n > 0 && (n == prec || n == width) {
        n := n - 1;
        if n > 0 && base == 16 {
          n := n - 1;
        }
        assert buf[..n] == Dropped(b, if base == 16 then 2 else 1);
      }
      if base == 16 && !f.upper {
        n := Push(buf, n, 'x');
      } else if base == 16 {
        n := Push(buf, n, 'X');
      } else if base == 2 {
        n := Push(buf, n, 'b');
      }
      n := Push(buf, n, '0');
    }

    /** The digit loop. */
    static method PutDigits(buf: array<char>, value: u64, base: nat, upper: bool) returns (n: nat)
      requires buf.Length == NTOA_SIZE && 2 <= base <= 16
      modifies buf
      ensures n <= NTOA_SIZE && buf[..n] == Digits(value, base, NTOA_SIZE, upper)
    {
      hide DigitChar, Digits;
      DigitsStep(value, base, NTOA_SIZE, upper);
      buf[0] := DigitChar(value % base, upper);
      n := 1;
      var v: nat := Quotient(value, base);
      assert buf[..1] == [buf[0]];
      while v != 0 && n < NTOA_SIZE
        invariant 1 <= n <= NTOA_SIZE
        invariant Digits(value, base, NTOA_SIZE, upper) == buf[..n] + MoreDigits(v, base, NTOA_SIZE - n, upper)
        decreases NTOA_SIZE - n
      {
        ghost var sofar := buf[..n];
        DigitsStep(v, base, NTOA_SIZE - n, upper);
        var d := DigitChar(v % base, upper);
        buf[n] := d;
        assert buf[..n + 1] == sofar + [d];
        v := Quotient(v, base);
        n := n + 1;
        ghost var more := MoreDigits(v, base, NTOA_SIZE - n, upper);
        assert sofar + ([d] + more) == (sofar + [d]) + more;
      }
      assert buf[..n] + "" == buf[..n];
      NoMoreDigits(v, base, NTOA_SIZE - n, upper);
    }

    static function Quotient(v: nat, base: nat): nat
      requires base >= 2
    {
      v / base
    }

    /** The digits still to come once v is left. */
    static function MoreDigits(v: nat, base: nat, room: nat, upper: bool): string
      requires 2 <= base <= 16
    {
      if v == 0 then "" else Digits(v, base, room, upper)
    }

    static lemma DigitsStep(v: nat, base: nat, room: nat, upper: bool)
      requires 2 <= base <= 16 && room > 0
      ensures Digits(v, base, room, upper) ==
              [DigitChar(v % base, upper)] + MoreDigits(Quotient(v, base), base, room - 1, upper)
    {
      hide DigitChar;
    }

    static lemma NoMoreDigits(v: nat, base: nat, room: nat, upper: bool)
      requires 2 <= base <= 16 && (v == 0 || room == 0)
      ensures MoreDigits(v, base, room, upper) == ""
    {
      hide DigitChar;
    }

    /** _ntoa_long and _ntoa_long_long */
    method NtoaLong(value: u64, neg: bool, base: nat, prec: u32, width: u32, f: Flags, ghost before: seq<char>)
      requires Holds(before) && 2 <= base <= 16
      modifies `idx, `full, buffer
      ensures Holds(before) && full == old(full) + Ntoa(value, neg, base, prec, width, f)
    {
      var buf := new char[NTOA_SIZE];
      var g := if value == 0 then f.(hash := false) else f;
      var n := 0;
      assert buf[..0] == "";
      if !g.precision || value != 0 {
        n := PutDigits(buf, value, base, g.upper);
      }
      NtoaFormat(buf, n, neg, base, prec, width, g, before);
    }

    // ---- the format string, from place i on

    static method ScanFlags(format: string, i: nat) returns (f: Flags, k: nat)
      requires i <= |format|
      ensures i <= k <= |format| && ParseFlags(format[i..], NO_FLAGS) == (f, format[k..])
    {
      f, k := NO_FLAGS, i;
      var more := true;
      while more
        invariant i <= k <= |format|
        invariant ParseFlags(format[i..], NO_FLAGS) == ParseFlags(format[k..], f)
        invariant !more ==> ParseFlags(format[k..], f) == (f, format[k..])
        decreases |format| - k, more
      {
        assert k < |format| ==> format[k..][1..] == format[k + 1..];
        if k < |format| && format[k] == '0' { f := f.(zeropad := true); k := k + 1; }
        else if k < |format| && format[k] == '-' { f := f.(left := true); k := k + 1; }
        else if k < |format| && format[k] == '+' { f := f.(plus := true); k := k + 1; }
        else if k < |format| && format[k] == ' ' { f := f.(space := true); k := k + 1; }
        else if k < |format| && format[k] == '#' { f := f.(hash := true); k := k + 1; }
        else { more := false; }
      }
    }

    static method ScanNumber(format: string, i: nat) returns (n: u32, k: nat)
      requires i <= |format|
      ensures i <= k <= |format| && Atoi(format[i..], 0) == (n, format[k..])
    {
      n, k := 0, i;
      while k < |format| && IsDigit(format[k])
        invariant i <= k <= |format|
        invariant Atoi(format[i..], 0) == Atoi(format[k..], n)
      {
        assert format[k..][1..] == format[k + 1..];
        n := (n * 10 + (format[k] as int - '0' as int)) % 0x1_0000_0000;
        k := k + 1;
      }
    }

    /** The width field; ok is false when '*' finds no number. */
    static method ScanWidth(format: string, i: nat, args: seq<Arg>, f: Flags)
      returns (ok: bool, g: Flags, n: u32, k: nat, rest: seq<Arg>)
      requires i <= |format|
      ensures k <= |format|
      ensures ParseWidth(format[i..], args, f) == if ok then Some(Parsed(g, n, format[k..], rest)) else None
    {
      ok, g, n, k, rest := true, f, 0, i, args;
      assert i < |format| ==> format[i..][1..] == format[i + 1..];
      if i < |format| && IsDigit(format[i]) {
        n, k := ScanNumber(format, i);
      } else if i < |format| && format[i] == '*' {
        if args == [] || !args[0].Num? {
          ok := false;
          return;
        }
        var w := SignedPart(args[0].bits, 0x1_0000_0000);
        if w < 0 {
          g := g.(left := true);
          n := -w;
        } else {
          n := w;
        }
        k, rest := i + 1, args[1..];
      }
    }

    /** The precision field. */
    static method ScanPrecision(format: string, i: nat, args: seq<Arg>, f: Flags)
      returns (ok: bool, g: Flags, n: u32, k: nat, rest: seq<Arg>)
      requires i <= |format|
      ensures k <= |format|
      ensures ParsePrecision(format[i..], args, f) == if ok then Some(Parsed(g, n, format[k..], rest)) else None
    {
      ok, g, n, k, rest := true, f, 0, i, args;
      if i < |format| && format[i] == '.' {
        g := g.(precision := true);
        k := i + 1;
        assert format[i..][1..] == format[k..];
        assert k < |format| ==> format[k..][1..] == format[k + 1..];
        if k < |format| && IsDigit(format[k]) {
          n, k := ScanNumber(format, k);
        } else if k < |format| && format[k] == '*' {
          if args == [] || !args[0].Num? {
            ok := false;
            return;
          }
          n := Max(0, SignedPart(args[0].bits, 0x1_0000_0000));
          k, rest := k + 1, args[1..];
        }
      }
    }

    static method ScanSize(format: string, i: nat) returns (size: Size, k: nat)
      requires i <= |format|
      ensures i <= k <= |format| && ParseSize(format[i..]) == (size, format[k..])
    {
      size, k := IntSize, i;
      if i < |format| {
        assert format[i..][1..] == format[i + 1..];
        assert i + 1 < |format| ==> format[i..][2..] == format[i + 2..];
        if format[i] == 'l' {
          size, k := LongSize, i + 1;
          if k < |format| && format[k] == 'l' { k := k + 1; }
        } else if format[i] == 'h' {
          size, k := ShortSize, i + 1;
          if k < |format| && format[k] == 'h' { size, k := CharSize, k + 1; }
        } else if format[i] == 't' || format[i] == 'j' || format[i] == 'z' {
          size, k := LongSize, i + 1;
        }
      }
    }

    method PutJustified(body: string, width: u32, f: Flags, ghost before: seq<char>)
      requires Holds(before)
      modifies `idx, `full, buffer
      ensures Holds(before) && full == old(full) + Justified(body, width, f)
    {
      if !f.left {
        PutCopies(' ', width - |body|, before);
      }
      PutText(body, before);
      if f.left {
        PutCopies(' ', width - |body|, before);
      }
    }

    /** The specifier switch. */
    method PutConversion(c: char, f: Flags, width: u32, prec: u32, size: Size, args: seq<Arg>, ghost rest: string,
                         ghost before: seq<char>)
      returns (ok: bool, left: seq<Arg>)
      requires Holds(before)
      modifies `idx, `full, buffer
      ensures Holds(before)
      ensures match Convert(c, Spec(f, width, prec, size, rest, args))
              case None => !ok
              case Some((field, l)) => ok && left == l && full == old(full) + field
    {
      hide Ntoa, Justified;
      ok, left := true, args;
      if IsIntSpecifier(c) {
        if args == [] || !args[0].Num? {
          return false, args;
        }
        left := args[1..];
        var m := ModulusOf(size);
        if c == 'd' || c == 'i' {
          var v := SignedPart(args[0].bits, m);
          NtoaLong(if v < 0 then -v else v, v < 0, BaseOf(c), prec, width, IntFlags(c, f), before);
        } else {
          NtoaLong(args[0].bits % m, false, BaseOf(c), prec, width, IntFlags(c, f), before);
        }
      } else if c == 'c' {
        if args == [] || !args[0].Num? {
          return false, args;
        }
        left := args[1..];
        PutJustified([(args[0].bits % 256) as char], width, f, before);
      } else if c == 's' {
        if args == [] || !args[0].Str? {
          return false, args;
        }
        left := args[1..];
        var text := args[0].text;
        PutJustified(if f.precision && prec < |text| then text[..prec] else text, width, f, before);
      } else if c == 'p' {
        if args == [] || !args[0].Num? {
          return false, args;
        }
        left := args[1..];
        NtoaLong(args[0].bits, false, 16, prec, 16, f.(zeropad := true, upper := true), before);
      } else {
        Put(c, before);
      }
    }

    /** One specification, from the character after '%' on; k is where the format goes on. */
    method PutSpecification(format: string, i: nat, args: seq<Arg>, ghost before: seq<char>)
      returns (ok: bool, k: nat, left: seq<Arg>)
      requires Holds(before) && i <= |format|
      modifies `idx, `full, buffer
      ensures Holds(before) && (ok ==> i < k <= |format|)
      ensures match ParseSpec(format[i..], args)
              case None => !ok
              case Some(sp) =>
                if sp.rest == "" then !ok
                else match Convert(sp.rest[0], sp)
                  case None => !ok
                  case Some((field, l)) => ok && left == l && full == old(full) + field && format[k..] == sp.rest[1..]
    {
      hide Convert, ParseFlags, ParseWidth, ParsePrecision, ParseSize;
      ok, k, left := false, i, args;
      var f, i1 := ScanFlags(format, i);
      var okW, g, width, i2, argsW := ScanWidth(format, i1, args, f);
      if !okW {
        return;
      }
      var okP, h, prec, i3, argsP := ScanPrecision(format, i2, argsW, g);
      if !okP {
        return;
      }
      var size, i4 := ScanSize(format, i3);
      if i4 >= |format| {
        return;
      }
      ghost var rest := format[i4..];
      assert ParseSpec(format[i..], args) == Some(Spec(h, width, prec, size, rest, argsP));
      assert rest[0] == format[i4] && rest[1..] == format[i4 + 1..];
      assert |rest| <= |format[i..]|;
      ok, left := PutConversion(format[i4], h, width, prec, size, argsP, rest, before);
      k := i4 + 1;
    }

    /** The loop of _vsnprintf; false where the source would leave its bounds. */
    method PutFormat(format: string, args: seq<Arg>, ghost before: seq<char>) returns (ok: bool)
      requires Holds(before)
      modifies `idx, `full, buffer
      ensures Holds(before)
      ensures match Render(format, args)
              case None => !ok
              case Some(s) => ok && full == old(full) + s
    {
      hide Convert, ParseSpec;
      var i, left := 0, args;
      ok := true;
      assert format[0..] == format;
      while i < |format|
        invariant 0 <= i <= |format| && Holds(before)
        invariant match Render(format[i..], left)
                  case None => Render(format, args) == None
                  case Some(s) => Render(format, args).Some? && old(full) + Render(format, args).value == full + s
        decreases |format| - i
      {
        ghost var sofar := full;
        assert format[i..][0] == format[i] && format[i..][1..] == format[i + 1..];
        if format[i] != '%' {
          Put(format[i], before);
          RenderPlain(format[i..], left, sofar);
          i := i + 1;
        } else {
          var k, l;
          ok, k, l := PutSpecification(format, i + 1, left, before);
          if !ok {
            return;
          }
          RenderSpec(format[i..], left, sofar);
          i, left := k, l;
        }
      }
    }

    /** Rendering one plain character first. */
    static lemma RenderPlain(s: string, args: seq<Arg>, sofar: string)
      requires s != "" && s[0] != '%'
      ensures match Render(s[1..], args)
              case None => Render(s, args) == None
              case Some(t) => Render(s, args).Some? && sofar + Render(s, args).value == (sofar + [s[0]]) + t
    {
      hide ParseSpec, Convert;
      if Render(s[1..], args).Some? {
        assert sofar + ([s[0]] + Render(s[1..], args).value) == (sofar + [s[0]]) + Render(s[1..], args).value;
      }
    }

    /** Rendering one specification first. */
    static lemma RenderSpec(s: string, args: seq<Arg>, sofar: string)
      requires s != "" && s[0] == '%' && ParseSpec(s[1..], args).Some?
      requires var sp := ParseSpec(s[1..], args).value; sp.rest != "" && Convert(sp.rest[0], sp).Some?
      ensures var sp := ParseSpec(s[1..], args).value;
              var (field, left) := Convert(sp.rest[0], sp).value;
              match Render(sp.rest[1..], left)
              case None => Render(s, args) == None
              case Some(t) => Render(s, args).Some? && sofar + Render(s, args).value == (sofar + field) + t
    {
      hide ParseSpec, Convert;
      var sp := ParseSpec(s[1..], args).value;
      var (field, left) := Convert(sp.rest[0], sp).value;
      if Render(sp.rest[1..], left).Some? {
        assert sofar + (field + Render(sp.rest[1..], left).value) == (sofar + field) + Render(sp.rest[1..], left).value;
      }
    }
  }

  /** A size_t returned as an int. */
  function AsInt(n: nat): int {
    SignedPart(n % 0x1_0000_0000_0000_0000, 0x1_0000_0000)
  }

  /**
   * snprintf: nothing at or beyond `count` is written; what fits in count - 1 characters of the
   * output is there, followed by a NUL; and the result is the length of the whole output, as an
   * int. Without a buffer nothing is written and the result is the same.
   */
  method Snprintf(buffer: array?<char>, count: nat, format: string, args: seq<Arg>) returns (r: Option<int>)
    requires buffer != null ==> count <= buffer.Length
    modifies if buffer == null then {} else {buffer}
    ensures match Render(format, args)
            case None => r == None
            case Some(s) => r == Some(AsInt(|s|)) && (|s| < 0x8000_0000 ==> r == Some(|s|))
    ensures r.Some? ==>
              && (0 - 0x8000_0000) <= r.value < 0x8000_0000
              && (|Render(format, args).value| - r.value) % 0x1_0000_0000 == 0
    ensures buffer != null ==> forall k :: count <= k < buffer.Length ==> buffer[k] == old(buffer[k])
    ensures buffer != null && r.Some? && count > 0 ==>
              var s := Render(format, args).value;
              var kept := Min(|s|, count - 1);
              && buffer[..kept] == s[..kept] && buffer[kept] == '\0'
              && forall k :: kept < k < count ==> buffer[k] == old(buffer[k])
  {
    hide Render;
    if buffer == null {
      var nowhere := new char[0];
      r := Print(nowhere, 0, format, args);
    } else {
      r := Print(buffer, count, format, args);
    }
  }

  /** _vsnprintf on a buffer. */
  method Print(buffer: array<char>, count: nat, format: string, args: seq<Arg>) returns (r: Option<int>)
    requires count <= buffer.Length
    modifies buffer
    ensures match Render(format, args)
            case None => r == None
            case Some(s) => r == Some(AsInt(|s|)) && (|s| < 0x8000_0000 ==> r == Some(|s|))
    ensures r.Some? ==>
              && (0 - 0x8000_0000) <= r.value < 0x8000_0000
              && (|Render(format, args).value| - r.value) % 0x1_0000_0000 == 0
    ensures forall k :: count <= k < buffer.Length ==> buffer[k] == old(buffer[k])
    ensures r.Some? && count > 0 ==>
              var s := Render(format, args).value;
              var kept := Min(|s|, count - 1);
              && buffer[..kept] == s[..kept] && buffer[kept] == '\0'
              && forall k :: kept < k < count ==> buffer[k] == old(buffer[k])
  {
    hide Render;
    ghost var before := buffer[..];
    var sink := new Sink(buffer, count);
    var ok := sink.PutFormat(format, args, before);
    if !ok {
      return None;
    }
    var total := sink.idx;
    var place := if total < count then total else count - 1;
    if 0 <= place < count {
      buffer[place] := '\0';
    }
    r := Some(AsInt(total));
  }
}
