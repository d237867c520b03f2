/** The kernel's bounded formatter, and dotted-decimal addresses printed and parsed with it. */
module Format {
  import opened Bytes

  const PERCENT: byte := 37
  const MINUS: byte := 45
  const FULL_STOP: byte := 46
  const ZERO_DIGIT: byte := 48

  // ---------------------------------------------------------------------------------------
  // The ideal output
  // ---------------------------------------------------------------------------------------

  datatype Arg = Num(value: int) | Text(text: Option<Str>) | Chr(c: byte)

  function DigitChar(d: int, upper: bool): byte
    requires 0 <= d < 16
  {
    if d < 10 then ZERO_DIGIT + d else if upper then 55 + d else 87 + d
  }

  /** Digits of a number, most significant first. */
  function Digits(v: nat, base: nat, upper: bool): (s: Str)
    requires base == 10 || base == 16
    ensures s != []
    decreases v
  {
    if v < base then [DigitChar(v, upper)] else Digits(v / base, base, upper) + [DigitChar(v % base, upper)]
  }

  /** The number a string of digits of either case denotes. */
  function Denoted(s: Str, base: nat): int {
    if s == [] then 0
    else
      var c := Last(s) as int;
      Denoted(DropLast(s), base) * base + if c <= 57 then c - 48 else if c <= 70 then c - 55 else c - 87
  }

  /** Digits denote their number, in the case asked for, without a leading zero. */
  lemma {:induction false} DigitsDenote(v: nat, base: nat, upper: bool)
    requires base == 10 || base == 16
    ensures var s := Digits(v, base, upper);
            && Denoted(s, base) == v && (|s| == 1 || s[0] != 48)
            && forall i :: 0 <= i < |s| ==>
                 48 <= s[i] <= 57 || (base == 16 && if upper then 65 <= s[i] <= 70 else 97 <= s[i] <= 102)
    decreases v
  {
    var s := Digits(v, base, upper);
    if v < base {
      assert DropLast(s) == [];
    } else {
      DigitsDenote(v / base, base, upper);
      assert DropLast(s) == Digits(v / base, base, upper) && Last(s) == DigitChar(v % base, upper);
      assert forall i :: 0 <= i < |s| - 1 ==> s[i] == DropLast(s)[i];
      if |s| == 2 {
        LeadingDigit(v / base, base, upper);
      }
    }
  }

  lemma LeadingDigit(v: nat, base: nat, upper: bool)
    requires (base == 10 || base == 16) && v > 0 && |Digits(v, base, upper)| == 1
    ensures Digits(v, base, upper)[0] != 48
  {
  }

  const NULL_TEXT: Str := [40, 110, 117, 108, 108, 41]

  /** Which argument a conversion consumes: none for '%', unknown letters and plain text. */
  predicate TakesArg(d: byte) {
    d in {99, 115, 100, 105, 117, 120, 88, 112}
  }

  /** An argument of the type and range the conversion reads. */
  predicate Fits(d: byte, a: Arg) {
    if d == 99 then a.Chr?
    else if d == 115 then a.Text?
    else if d == 100 || d == 105 then a.Num? && -0x8000_0000_0000_0000 < a.value < 0x8000_0000_0000_0000
    else a.Num? && 0 <= a.value < 0x1_0000_0000_0000_0000
  }

  function Convert(d: byte, a: Arg): Str
    requires TakesArg(d) && Fits(d, a)
  {
    if d == 99 then [a.c]
    else if d == 115 then (match a.text case Some(s) => s case None => NULL_TEXT)
    else if d == 100 || d == 105 then
      if a.value < 0 then [MINUS] + Digits(-a.value, 10, false) else Digits(a.value, 10, false)
    else if d == 117 then Digits(a.value, 10, false)
    else if d == 120 then Digits(a.value, 16, false)
    else if d == 88 then Digits(a.value, 16, true)
    else [ZERO_DIGIT, 120] + Digits(a.value, 16, false)
  }

  /** What each conversion prints: %c a character; %s a string, or "(null)"; %d and %i a signed
      decimal; %u an unsigned one; %x and %X hexadecimal in lower and upper case; %p the same in
      lower case behind "0x". No other letter takes an argument. */
  lemma ConversionMeans(d: byte, a: Arg)
    ensures TakesArg(d) <==> d in {99, 115, 100, 105, 117, 120, 88, 112}
    ensures TakesArg(d) && Fits(d, a) ==>
              var out := Convert(d, a);
              if d == 99 then a.Chr? && out == [a.c]
              else if d == 115 then
                a.Text? && out == match a.text case Some(text) => text case None => [40, 110, 117, 108, 108, 41]
              else
                && a.Num?
                && (if d == 100 || d == 105 then
                      out == if a.value < 0 then [45] + Digits(-a.value, 10, false) else Digits(a.value, 10, false)
                    else
                      && a.value >= 0
                      && out == if d == 117 then Digits(a.value, 10, false)
                                else if d == 120 then Digits(a.value, 16, false)
                                else if d == 88 then Digits(a.value, 16, true)
                                else [48, 120] + Digits(a.value, 16, false))
  {
    hide Digits;
  }

  /** Text without a percent sign is copied; "%%" prints one; before any other letter that takes
      no argument the sign is kept. */
  lemma {:induction false} PlainFormat(fmt: Str, d: byte, args: seq<Arg>)
    requires forall i :: 0 <= i < |fmt| ==> fmt[i] != 37
    requires d !in {99, 115, 100, 105, 117, 120, 88, 112}
    ensures WellFed(fmt, args) && Ideal(fmt, args) == fmt
    ensures WellFed([37, d], args) && Ideal([37, d], args) == if d == 37 then [37] else [37, d]
    decreases |fmt|
  {
    assert [37, d][2..] == [];
    if fmt != [] {
      PlainFormat(fmt[1..], d, args);
    }
  }

  /** The format does not end in a lone '%' and its arguments are there and of the right kind. */
  predicate WellFed(fmt: Str, args: seq<Arg>)
    decreases |fmt|
  {
    if fmt == [] then true
    else if fmt[0] != PERCENT then WellFed(fmt[1..], args)
    else if |fmt| == 1 then false
    else if TakesArg(fmt[1]) then args != [] && Fits(fmt[1], args[0]) && WellFed(fmt[2..], args[1..])
    else WellFed(fmt[2..], args)
  }

  /** The output an unlimited buffer would receive. */
  function Ideal(fmt: Str, args: seq<Arg>): Str
    requires WellFed(fmt, args)
    decreases |fmt|
  {
    if fmt == [] then []
    else if fmt[0] != PERCENT then [fmt[0]] + Ideal(fmt[1..], args)
    else if TakesArg(fmt[1]) then Convert(fmt[1], args[0]) + Ideal(fmt[2..], args[1..])
    else (if fmt[1] == PERCENT then [PERCENT] else [PERCENT, fmt[1]]) + Ideal(fmt[2..], args)
  }

  // ---------------------------------------------------------------------------------------
  // The bounded buffer
  // ---------------------------------------------------------------------------------------

  /** Output so far: what fits is stored, everything is counted. */
  class Printer {
    const buffer: array<byte>
    var index: nat
    ghost var text: Str

    ghost predicate Valid()
      reads this, buffer
    {
      && buffer.Length > 0 && index == |text|
      && forall i :: 0 <= i < index && i < buffer.Length - 1 ==> buffer[i] == text[i]
    }

    constructor (b: array<byte>)
      requires b.Length > 0
      ensures Valid() && buffer == b && text == []
    {
      buffer, index, text := b, 0, [];
    }

    method AppendChar(c: byte)
      requires Valid()
      modifies this`index, this`text, buffer
      ensures Valid() && text == old(text) + [c]
    {
      if index + 1 < buffer.Length {
        buffer[index] := c;
      }
      index := index + 1;
      text := text + [c];
    }

    method AppendString(s: Str)
      requires Valid()
      modifies this`index, this`text, buffer
      ensures Valid() && text == old(text) + s
    {
      var i := 0;
      while i < |s|
        invariant 0 <= i <= |s| && Valid() && text == old(text) + s[..i]
      {
        AppendChar(s[i]);
        i := i + 1;
      }
      assert s[..i] == s;
    }

    /** Digits are produced backwards into a 32-byte scratch array, which they never overrun,
        and appended in the right order. */
    method AppendUnsigned(value: nat, base: nat, upper: bool)
      requires Valid() && (base == 10 || base == 16) && value < 0x1_0000_0000_0000_0000
      modifies this`index, this`text, buffer
      ensures Valid() && text == old(text) + Digits(value, base, upper)
    {
      hide Digits;
      if value == 0 {
        ZeroDigit(base, upper);
        AppendChar(ZERO_DIGIT);
        return;
      }
      var temp := new byte[32](_ => 0);
      var len := FillDigits(temp, value, base, upper);
      ghost var ds := Digits(value, base, upper);
      ghost var start := text;
      var left := len;
      assert ds[..0] == [];
      while left != 0
        invariant 0 <= left <= len && Valid() && text == start + ds[..len - left]
        invariant fresh(temp) && temp != buffer
        invariant forall i :: 0 <= i < len ==> temp[i] == ds[len - 1 - i]
      {
        left := left - 1;
        assert ds[..len - left] == ds[..len - left - 1] + [ds[len - left - 1]];
        AppendChar(temp[left]);
      }
      assert ds[..len] == ds;
    }
  }

  lemma ZeroDigit(base: nat, upper: bool)
    requires base == 10 || base == 16
    ensures Digits(0, base, upper) == [ZERO_DIGIT]
  {
  }

  ghost function Pow10(n: nat): nat {
    if n == 0 then 1 else 10 * Pow10(n - 1)
  }

  /** Digits still to come, and digits already produced, in reverse. */
  ghost function Pending(v: nat, base: nat, upper: bool): Str
    requires base == 10 || base == 16
  {
    if v == 0 then [] else Digits(v, base, upper)
  }

  lemma PendingStep(v: nat, base: nat, upper: bool)
    requires (base == 10 || base == 16) && v > 0
    ensures Pending(v, base, upper) == Pending(v / base, base, upper) + [DigitChar(v % base, upper)]
  {
  }

  lemma Shrinks(v: nat, base: nat, n: nat)
    requires (base == 10 || base == 16) && n > 0 && v < Pow10(n)
    ensures v / base < Pow10(n - 1)
  {
  }

  lemma TwentyDigits()
    ensures 0x1_0000_0000_0000_0000 <= Pow10(20)
  {
    assert Pow10(5) == 100000;
    assert Pow10(10) == 100000 * Pow10(5);
    assert Pow10(15) == 100000 * Pow10(10);
    assert Pow10(20) == 100000 * Pow10(15);
  }

  /** The least-significant-first loop. */
  method FillDigits(temp: array<byte>, value: nat, base: nat, upper: bool) returns (len: nat)
    requires temp.Length == 32 && (base == 10 || base == 16) && 0 < value < 0x1_0000_0000_0000_0000
    modifies temp
    ensures len == |Digits(value, base, upper)| <= 20
    ensures forall i :: 0 <= i < len ==> temp[i] == Digits(value, base, upper)[len - 1 - i]
  {
    hide Digits, Pow10, Pending;
    ghost var all := Pending(value, base, upper);
    PendingAll(value, base, upper);
    TwentyDigits();
    len := 0;
    var v: nat := value;
    while v != 0
      invariant len <= 20 && v < Pow10(20 - len)
      invariant |all| == |Pending(v, base, upper)| + len && all[..|all| - len] == Pending(v, base, upper)
      invariant forall i :: 0 <= i < len ==> temp[i] == all[|all| - 1 - i]
      decreases v
    {
      PendingStep(v, base, upper);
      RoomForDigit(v, len);
      Shrinks(v, base, 20 - len);
      ghost var rest := Pending(v / base, base, upper);
      assert all[|all| - 1 - len] == all[..|all| - len][|rest|] == DigitChar(v % base, upper);
      assert all[..|all| - len - 1] == all[..|all| - len][..|rest|] == rest;
      temp[len] := DigitChar(v % base, upper);
      len := len + 1;
      v := v / base;
    }
    PendingNone(base, upper);
  }

  lemma PendingAll(v: nat, base: nat, upper: bool)
    requires (base == 10 || base == 16) && v > 0
    ensures Pending(v, base, upper) == Digits(v, base, upper)
  {
  }

  lemma PendingNone(base: nat, upper: bool)
    requires base == 10 || base == 16
    ensures Pending(0, base, upper) == []
  {
  }

  lemma RoomForDigit(v: nat, len: nat)
    requires len <= 20 && 0 < v < Pow10(20 - len)
    ensures len < 20
  {
  }

  /** One conversion that takes an argument. */
  method AppendConversion(p: Printer, d: byte, a: Arg)
    requires p.Valid() && TakesArg(d) && Fits(d, a)
    modifies p`index, p`text, p.buffer
    ensures p.Valid() && p.text == old(p.text) + Convert(d, a)
  {
    hide Digits;
    if d == 99 {
      p.AppendChar(a.c);
    } else if d == 115 {
      if a.text.Some? {
        p.AppendString(a.text.value);
      } else {
        p.AppendString(NULL_TEXT);
      }
    } else if d == 100 || d == 105 {
      if a.value < 0 {
        p.AppendChar(MINUS);
        p.AppendUnsigned(-a.value, 10, false);
      } else {
        p.AppendUnsigned(a.value, 10, false);
      }
    } else if d == 117 {
      p.AppendUnsigned(a.value, 10, false);
    } else if d == 120 {
      p.AppendUnsigned(a.value, 16, false);
    } else if d == 88 {
      p.AppendUnsigned(a.value, 16, true);
    } else {
      p.AppendString([ZERO_DIGIT, 120]);
      p.AppendUnsigned(a.value, 16, false);
    }
  }

  /** `kvsnprintf`: for every buffer of at least one byte, the longest prefix of the ideal output
      that leaves room for the terminator, the terminator, and the ideal length as result. */
  method Vsnprintf(buffer: array<byte>, fmt: Str, args: seq<Arg>) returns (r: nat)
    requires WellFed(fmt, args)
    modifies buffer
    ensures buffer.Length == 0 ==> r == 0
    ensures buffer.Length > 0 ==>
              var out := Ideal(fmt, args);
              var n := Min(|out|, buffer.Length - 1);
              r == |out| && buffer[..n] == out[..n] && buffer[n] == 0
  {
    if buffer.Length == 0 {
      return 0;
    }
    var p := new Printer(buffer);
    AppendFormat(p, fmt, args);
    r := p.index;
    buffer[if r < buffer.Length then r else buffer.Length - 1] := 0;
  }

  /** The loop over the format. */
  method AppendFormat(p: Printer, fmt: Str, args: seq<Arg>)
    requires p.Valid() && WellFed(fmt, args)
    modifies p`index, p`text, p.buffer
    ensures p.Valid() && p.text == old(p.text) + Ideal(fmt, args)
  {
    hide Convert, TakesArg, Fits, Ideal, WellFed;
    ghost var out := p.text + Ideal(fmt, args);
    var i := 0;
    var rest := args;
    assert fmt[0..] == fmt;
    while i < |fmt|
      invariant 0 <= i <= |fmt| && p.Valid()
      invariant WellFed(fmt[i..], rest) && p.text + Ideal(fmt[i..], rest) == out
    {
      FormatStep(fmt, i, rest);
      ghost var was := p.text;
      if fmt[i] != PERCENT {
        p.AppendChar(fmt[i]);
        i := i + 1;
      } else {
        var d := fmt[i + 1];
        if TakesArg(d) {
          AppendConversion(p, d, rest[0]);
          rest := rest[1..];
        } else if d == PERCENT {
          p.AppendChar(PERCENT);
        } else {
          p.AppendChar(PERCENT);
          p.AppendChar(d);
          assert was + [PERCENT] + [d] == was + [PERCENT, d];
        }
        i := i + 2;
      }
    }
    assert fmt[i..] == [];
    NothingLeftAfter(rest);
  }

  lemma NothingLeftAfter(args: seq<Arg>)
    ensures WellFed([], args) && Ideal([], args) == []
  {
  }

  /** What the next step of the format contributes. */
  lemma FormatStep(fmt: Str, i: nat, args: seq<Arg>)
    requires i < |fmt| && WellFed(fmt[i..], args)
    ensures fmt[i] != PERCENT ==>
            WellFed(fmt[i + 1..], args) && Ideal(fmt[i..], args) == [fmt[i]] + Ideal(fmt[i + 1..], args)
    ensures fmt[i] == PERCENT ==> i + 1 < |fmt|
    ensures fmt[i] == PERCENT && TakesArg(fmt[i + 1]) ==>
              && args != [] && Fits(fmt[i + 1], args[0]) && WellFed(fmt[i + 2..], args[1..])
              && Ideal(fmt[i..], args) == Convert(fmt[i + 1], args[0]) + Ideal(fmt[i + 2..], args[1..])
    ensures fmt[i] == PERCENT && !TakesArg(fmt[i + 1]) ==>
              && WellFed(fmt[i + 2..], args)
              && Ideal(fmt[i..], args)
                 == (if fmt[i + 1] == PERCENT then [PERCENT] else [PERCENT, fmt[i + 1]]) + Ideal(fmt[i + 2..], args)
  {
    hide Convert, TakesArg, Fits;
    var f := fmt[i..];
    assert f[1..] == fmt[i + 1..];
    if |f| >= 2 { assert f[2..] == fmt[i + 2..]; }
  }

  // ---------------------------------------------------------------------------------------
  // Addresses
  // ---------------------------------------------------------------------------------------

  /** "%u.%u.%u.%u" */
  const IP_FORMAT: Str := [37, 117, 46, 37, 117, 46, 37, 117, 46, 37, 117]

  function Octets(ip: u32): seq<Arg> {
    [Num(ip / 0x100_0000), Num(ip / 0x1_0000 % 0x100), Num(ip / 0x100 % 0x100), Num(ip % 0x100)]
  }

  function Decimal(v: nat): Str {
    Digits(v, 10, false)
  }

  function Dotted(a: nat, b: nat, c: nat, d: nat): Str {
    Decimal(a) + [FULL_STOP] + Decimal(b) + [FULL_STOP] + Decimal(c) + [FULL_STOP] + Decimal(d)
  }

  lemma OneOctet(fmt: Str, args: seq<Arg>)
    requires |fmt| >= 2 && fmt[0] == PERCENT && fmt[1] == 117 && args != [] && args[0].Num?
             && 0 <= args[0].value < 0x100
    requires WellFed(fmt[2..], args[1..])
    ensures WellFed(fmt, args) && Ideal(fmt, args) == Decimal(args[0].value) + Ideal(fmt[2..], args[1..])
  {
    hide Digits;
  }

  lemma OneStop(fmt: Str, args: seq<Arg>)
    requires |fmt| >= 1 && fmt[0] == FULL_STOP && WellFed(fmt[1..], args)
    ensures WellFed(fmt, args) && Ideal(fmt, args) == [FULL_STOP] + Ideal(fmt[1..], args)
  {
  }

  /** What `format_ip` prints. */
  lemma FormattedIp(ip: u32)
    ensures WellFed(IP_FORMAT, Octets(ip))
    ensures Ideal(IP_FORMAT, Octets(ip))
            == Dotted(ip / 0x100_0000, ip / 0x1_0000 % 0x100, ip / 0x100 % 0x100, ip % 0x100)
  {
    hide Decimal, WellFed, Ideal;
    var f, o := IP_FORMAT, Octets(ip);
    NothingLeftAfter([]);
    assert f[9..][2..] == [] && o[3..][1..] == [];
    OneOctet(f[9..], o[3..]);
    assert f[8..][1..] == f[9..];
    OneStop(f[8..], o[3..]);
    assert f[6..][2..] == f[8..] && o[2..][1..] == o[3..];
    OneOctet(f[6..], o[2..]);
    assert f[5..][1..] == f[6..];
    OneStop(f[5..], o[2..]);
    assert f[3..][2..] == f[5..] && o[1..][1..] == o[2..];
    OneOctet(f[3..], o[1..]);
    assert f[2..][1..] == f[3..];
    OneStop(f[2..], o[1..]);
    OneOctet(f, o);
    FourParts(Decimal(o[0].value), Decimal(o[1].value), Decimal(o[2].value), Decimal(o[3].value));
  }

  lemma FourParts(a: Str, b: Str, c: Str, d: Str)
    ensures a + ([FULL_STOP] + (b + ([FULL_STOP] + (c + ([FULL_STOP] + (d + []))))))
            == a + [FULL_STOP] + b + [FULL_STOP] + c + [FULL_STOP] + d
  {
  }

  /** The state of the address parser, or the point where it gave up. */
  datatype Parsing = Parsing(value: u32, octet: nat, part: nat) | Bad

  function ParseChar(p: Parsing, c: byte): Parsing {
    if p.Bad? then Bad
    else if 48 <= c <= 57 then
      var octet := p.octet * 10 + (c - 48) as int;
      if octet > 255 then Bad else p.(octet := octet)
    else if c == FULL_STOP then
      if p.part >= 3 then Bad else Parsing((p.value * 0x100 + p.octet) % 0x1_0000_0000, 0, p.part + 1)
    else Bad
  }

  function ParseText(p: Parsing, s: Str): Parsing {
    if s == [] then p else ParseChar(ParseText(p, DropLast(s)), Last(s))
  }

  function ParseIp(s: Str): Option<u32> {
    if s == [] then None
    else
      match ParseText(Parsing(0, 0, 0), s)
      case Parsing(v, o, part) => if part == 3 then Some((v * 0x100 + o) % 0x1_0000_0000) else None
      case Bad => None
  }

  method ParseIpv4(text: Str) returns (r: Option<u32>)
    ensures r == ParseIp(text)
    ensures r == if IsAddress(text) then Some(Combined(Parts(text))) else None
  {
    hide Parts, Combined, AllOctets;
    ParsesExactly(text);
    if text == [] {
      return None;
    }
    var value: u32 := 0;
    var octet: nat := 0;
    var part: nat := 0;
    var i := 0;
    assert text[..0] == [];
    while i < |text|
      invariant 0 <= i <= |text| && octet <= 255
      invariant ParseText(Parsing(0, 0, 0), text[..i]) == Parsing(value, octet, part)
    {
      var c := text[i];
      assert DropLast(text[..i + 1]) == text[..i];
      i := i + 1;
      if 48 <= c <= 57 {
        octet := octet * 10 + (c - 48);
        if octet > 255 {
          StaysBad(text, i);
          return None;
        }
      } else if c == FULL_STOP {
        if part >= 3 {
          StaysBad(text, i);
          return None;
        }
        value := (value * 0x100 + octet) % 0x1_0000_0000;
        octet := 0;
        part := part + 1;
      } else {
        StaysBad(text, i);
        return None;
      }
    }
    assert text[..i] == text;
    if part != 3 {
      return None;
    }
    return Some((value * 0x100 + octet) % 0x1_0000_0000);
  }

  lemma {:induction false} StaysBad(s: Str, i: nat)
    requires i <= |s| && ParseText(Parsing(0, 0, 0), s[..i]).Bad?
    ensures ParseText(Parsing(0, 0, 0), s).Bad?
    decreases |s| - i
  {
    if i == |s| {
      assert s[..i] == s;
    } else {
      assert DropLast(s[..i + 1]) == s[..i];
      StaysBad(s, i + 1);
    }
  }

  lemma {:induction false} ParseConcat(p: Parsing, a: Str, b: Str)
    ensures ParseText(p, a + b) == ParseText(ParseText(p, a), b)
    decreases |b|
  {
    hide ParseChar;
    if b == [] {
      assert a + b == a;
    } else {
      assert DropLast(a + b) == a + DropLast(b);
      ParseConcat(p, a, DropLast(b));
    }
  }

  lemma {:induction false} ParseDecimal(p: Parsing, v: nat)
    requires p.Parsing? && p.octet == 0 && v <= 255
    ensures ParseText(p, Decimal(v)) == p.(octet := v)
    decreases v
  {
    if v >= 10 {
      ParseDecimal(p, v / 10);
      assert Decimal(v) == Decimal(v / 10) + [DigitChar(v % 10, false)];
      assert DropLast(Decimal(v)) == Decimal(v / 10) && Last(Decimal(v)) == 48 + v % 10;
    } else {
      assert DropLast(Decimal(v)) == [];
    }
  }

  lemma ParseOctetStop(p: Parsing, v: nat, rest: Str)
    requires p.Parsing? && p.octet == 0 && p.part < 3 && v <= 255
    ensures ParseText(p, Decimal(v) + [FULL_STOP] + rest)
            == ParseText(Parsing((p.value * 0x100 + v) % 0x1_0000_0000, 0, p.part + 1), rest)
  {
    hide Decimal, ParseText;
    ParseDecimal(p, v);
    ParseSnoc(p, Decimal(v), FULL_STOP);
    ParseConcat(p, Decimal(v) + [FULL_STOP], rest);
  }

  lemma ParseSnoc(p: Parsing, s: Str, c: byte)
    ensures ParseText(p, s + [c]) == ParseChar(ParseText(p, s), c)
  {
    assert DropLast(s + [c]) == s;
  }

  // What is accepted, said without the parser's state.

  /** The pieces between full stops. */
  function Parts(s: Str): (ps: seq<Str>)
    ensures ps != []
  {
    if s == [] then [[]]
    else
      var ps := Parts(DropLast(s));
      if Last(s) == FULL_STOP then ps + [[]] else DropLast(ps) + [Last(ps) + [Last(s)]]
  }

  /** Digits, possibly none, of value at most 255. */
  predicate Octet(s: Str) {
    AllDigits(s) && Number(s) <= 255
  }

  predicate AllDigits(s: Str) {
    forall i :: 0 <= i < |s| ==> 48 <= s[i] <= 57
  }

  /** Decimal value of a string of digits. */
  function Number(s: Str): nat {
    if s == [] then 0 else Number(DropLast(s)) * 10 + if Last(s) >= 48 then Last(s) - 48 else 0
  }

  predicate AllOctets(ps: seq<Str>) {
    forall i :: 0 <= i < |ps| ==> Octet(ps[i])
  }

  predicate IsAddress(s: Str) {
    |Parts(s)| == 4 && AllOctets(Parts(s))
  }

  /** The octets as digits of a number to base 256. */
  function Combined(ps: seq<Str>): nat {
    if ps == [] then 0 else Combined(DropLast(ps)) * 0x100 + Number(Last(ps))
  }

  function Pow256(n: nat): nat {
    if n == 0 then 1 else 0x100 * Pow256(n - 1)
  }

  lemma {:induction false} CombinedFits(ps: seq<Str>)
    requires AllOctets(ps)
    ensures Combined(ps) < Pow256(|ps|)
  {
    hide Octet, Number;
    if ps != [] {
      assert Octet(Last(ps));
      assert Number(Last(ps)) <= 255 by { OctetValue(Last(ps)); }
      CombinedFits(DropLast(ps));
    }
  }

  lemma OctetValue(s: Str)
    requires Octet(s)
    ensures Number(s) <= 255
  {
  }

  /** The parser's state is what the pieces read so far say. */
  ghost function StateOf(ps: seq<Str>): Parsing
    requires ps != []
  {
    if |ps| <= 4 && AllOctets(ps) then
      CombinedFits(DropLast(ps));
      FitsWord(|ps| - 1);
      Parsing(Combined(DropLast(ps)), Number(Last(ps)), |ps| - 1)
    else Bad
  }

  lemma FitsWord(n: nat)
    requires n <= 4
    ensures Pow256(n) <= 0x1_0000_0000 && (n < 4 ==> Pow256(n) <= 0x100_0000)
  {
    assert Pow256(1) == 0x100 && Pow256(2) == 0x1_0000;
    assert Pow256(3) == 0x100 * Pow256(2) && Pow256(4) == 0x100 * Pow256(3);
  }

  lemma {:induction false} ParsesParts(s: Str)
    ensures ParseText(Parsing(0, 0, 0), s) == StateOf(Parts(s))
  {
    hide StateOf, ParseChar;
    if s == [] {
      assert StateOf([[]]) == Parsing(0, 0, 0) by { EmptyState(); }
    } else {
      ParsesParts(DropLast(s));
      if Last(s) == FULL_STOP {
        NextPart(Parts(DropLast(s)));
      } else {
        NextDigit(Parts(DropLast(s)), Last(s));
      }
    }
  }

  lemma EmptyState()
    ensures StateOf([[]]) == Parsing(0, 0, 0)
  {
    assert DropLast<Str>([[]]) == [];
  }

  lemma NextPart(ps: seq<Str>)
    requires ps != []
    ensures ParseChar(StateOf(ps), FULL_STOP) == StateOf(ps + [[]])
  {
    hide Octet, Pow256;
    var qs := ps + [[]];
    assert DropLast(qs) == ps && Last(qs) == [];
    assert Octet([]) by { EmptyOctet(); }
    assert AllOctets(qs) <==> AllOctets(ps) by {
      assert forall i :: 0 <= i < |ps| ==> qs[i] == ps[i];
      assert forall i :: 0 <= i < |qs| ==> qs[i] == if i < |ps| then ps[i] else [];
    }
    if |ps| <= 3 && AllOctets(ps) {
      CombinedFits(ps);
      FitsWord(|ps|);
    }
  }

  lemma EmptyOctet()
    ensures Octet([])
  {
  }

  lemma NextDigit(ps: seq<Str>, c: byte)
    requires ps != [] && c != FULL_STOP
    ensures ParseChar(StateOf(ps), c) == StateOf(DropLast(ps) + [Last(ps) + [c]])
  {
    hide Octet, Number, Combined, Pow256;
    var t := Last(ps) + [c];
    var qs := DropLast(ps) + [t];
    assert DropLast(qs) == DropLast(ps) && Last(qs) == t;
    LongerOctet(Last(ps), c);
    assert AllOctets(ps) <==> AllOctets(DropLast(ps)) && Octet(Last(ps)) by { AllButLast(ps); }
    assert AllOctets(qs) <==> AllOctets(DropLast(ps)) && Octet(t) by { AllButLast(qs); }
  }

  lemma AllButLast(ps: seq<Str>)
    requires ps != []
    ensures AllOctets(ps) <==> AllOctets(DropLast(ps)) && Octet(Last(ps))
  {
    hide Octet;
    assert ps == DropLast(ps) + [Last(ps)];
  }

  lemma LongerOctet(s: Str, c: byte)
    ensures Octet(s + [c]) <==> Octet(s) && 48 <= c <= 57 && Number(s) * 10 + (c - 48) <= 255
    ensures 48 <= c <= 57 ==> Number(s + [c]) == Number(s) * 10 + (c - 48)
  {
    hide AllDigits;
    assert DropLast(s + [c]) == s && Last(s + [c]) == c;
    LongerDigits(s, c);
  }

  lemma LongerDigits(s: Str, c: byte)
    ensures AllDigits(s + [c]) <==> AllDigits(s) && 48 <= c <= 57
  {
    var t := s + [c];
    assert forall i :: 0 <= i < |s| ==> t[i] == s[i];
    assert t[|s|] == c;
  }

  /** A text is accepted if and only if full stops cut it into four pieces, each of digits with a
      value of at most 255; pieces may be empty and then count as 0. */
  lemma ParsesExactly(s: Str)
    ensures ParseIp(s) == if IsAddress(s) then Some(Combined(Parts(s))) else None
  {
    hide ParseText, Octet, Number;
    ParsesParts(s);
    if s == [] {
      assert |Parts(s)| == 1;
    } else if IsAddress(s) {
      CombinedFits(Parts(s));
      FitsWord(4);
    }
  }

  lemma OnlyStops()
    ensures ParseIp([FULL_STOP, FULL_STOP, FULL_STOP]) == Some(0)
  {
    hide ParseText;
    NothingParsed(Parsing(0, 0, 0));
    ParseSnoc(Parsing(0, 0, 0), [], FULL_STOP);
    ParseSnoc(Parsing(0, 0, 0), [FULL_STOP], FULL_STOP);
    ParseSnoc(Parsing(0, 0, 0), [FULL_STOP, FULL_STOP], FULL_STOP);
    assert [] + [FULL_STOP] == [FULL_STOP] && [FULL_STOP] + [FULL_STOP] == [FULL_STOP, FULL_STOP];
    assert [FULL_STOP, FULL_STOP] + [FULL_STOP] == [FULL_STOP, FULL_STOP, FULL_STOP];
  }

  lemma NothingParsed(p: Parsing)
    ensures ParseText(p, []) == p
  {
  }

  // Printing and parsing.

  /** Parsing what `format_ip` prints gives the address back, for every 32-bit address. */
  lemma IpRoundTrip(ip: u32)
    ensures WellFed(IP_FORMAT, Octets(ip)) && ParseIp(Ideal(IP_FORMAT, Octets(ip))) == Some(ip)
  {
    hide Decimal, Ideal, WellFed, ParseText, ParseIp;
    var a, b, c, d := ip / 0x100_0000, ip / 0x1_0000 % 0x100, ip / 0x100 % 0x100, ip % 0x100;
    FormattedIp(ip);
    var s2 := Decimal(c) + [FULL_STOP] + Decimal(d);
    var s1 := Decimal(b) + [FULL_STOP] + s2;
    assert Dotted(a, b, c, d) == Decimal(a) + [FULL_STOP] + s1;
    ParseOctetStop(Parsing(0, 0, 0), a, s1);
    ParseOctetStop(Parsing(a, 0, 1), b, s2);
    ParseOctetStop(Parsing(a * 0x100 + b, 0, 2), c, Decimal(d));
    ParseDecimal(Parsing((a * 0x100 + b) * 0x100 + c, 0, 3), d);
    Reassembled(ip);
    ParseEnds(Dotted(a, b, c, d), (a * 0x100 + b) * 0x100 + c, d);
  }

  lemma ParseEnds(s: Str, v: u32, octet: nat)
    requires s != [] && ParseText(Parsing(0, 0, 0), s) == Parsing(v, octet, 3) && v * 0x100 + octet < 0x1_0000_0000
    ensures ParseIp(s) == Some(v * 0x100 + octet)
  {
    hide ParseText;
  }

  lemma {:induction false} ShortDecimal(v: nat)
    requires v <= 255
    ensures |Decimal(v)| <= 3 && NoNul(Decimal(v))
  {
    assert Digits(v, 10, false)
        == if v < 10 then [DigitChar(v, false)]
           else Digits(v / 10, 10, false) + [DigitChar(v % 10, false)];
    if v >= 10 {
      assert Digits(v / 10, 10, false)
          == if v / 10 < 10 then [DigitChar(v / 10, false)]
             else Digits(v / 100, 10, false) + [DigitChar(v / 10 % 10, false)];
    }
  }

  lemma ShortAddress(ip: u32)
    ensures WellFed(IP_FORMAT, Octets(ip))
    ensures |Ideal(IP_FORMAT, Octets(ip))| <= 15 && NoNul(Ideal(IP_FORMAT, Octets(ip)))
  {
    hide Decimal, Ideal, WellFed;
    FormattedIp(ip);
    ShortDecimal(ip / 0x100_0000);
    ShortDecimal(ip / 0x1_0000 % 0x100);
    ShortDecimal(ip / 0x100 % 0x100);
    ShortDecimal(ip % 0x100);
  }

  /** `format_ip` into any buffer of at least 16 bytes leaves a C string that `parse_ipv4` reads
      as the same address. */
  method FormatThenParse(ip: u32, buffer: array<byte>) returns (text: Str, r: Option<u32>)
    requires buffer.Length >= 16
    modifies buffer
    ensures text == CString(buffer[..], 0) && r == Some(ip)
  {
    hide WellFed, Ideal, ParseIp, IsAddress, Combined;
    ShortAddress(ip);
    IpRoundTrip(ip);
    var n := Vsnprintf(buffer, IP_FORMAT, Octets(ip));
    ghost var out := Ideal(IP_FORMAT, Octets(ip));
    assert buffer[..][0..|out|] == buffer[..|out|] == out && buffer[..][|out|] == 0;
    CStringReads(buffer[..], 0, out);
    text := CString(buffer[..], 0);
    r := ParseIpv4(text);
  }

  lemma Reassembled(ip: u32)
    ensures ((ip / 0x100_0000 * 0x100 + ip / 0x1_0000 % 0x100) * 0x100 + ip / 0x100 % 0x100) * 0x100 + ip % 0x100 == ip
  {
    assert ip / 0x1_0000 == ip / 0x100 / 0x100 && ip / 0x100_0000 == ip / 0x1_0000 / 0x100;
  }
}
