// Rendering numbers and formats.
module Print {
  import opened Common
  import opened Powers

  const SIGN_BIT: nat := 0x80000000
  const NUMBERS: nat := 68
  const DIGITS: string := "0123456789abcdef"

  // ---------- the flags word ----------

  // The fields of the flags word: bits 0 to 7, bits 8 to 15, and bit 20, which an l sets.
  datatype Flags = Flags(base: nat, kind: nat, width: bool)

  const TYPE_NONE: nat := 0x000
  const TYPE_CHAR: nat := 0x100
  const TYPE_INT: nat := 0x500
  const TYPE_UINT: nat := 0x600
  const TYPE_STR: nat := 0xd00

  predicate Signed(flags: Flags) { flags.kind / 0x100 % 2 == 1 }

  // ---------- numbers ----------

  function Quot(n: nat, base: nat): (q: nat)
    requires base >= 2
    ensures q * base + Rem(n, base) == n && 2 * q <= n && (q == 0 <==> n < base)
  {
    var q := n / base;
    QuotFacts(n, base, q);
    q
  }

  lemma QuotFacts(n: nat, base: nat, q: nat)
    requires base >= 2 && q == n / base
    ensures q * base + Rem(n, base) == n && 2 * q <= n && (q == 0 <==> n < base)
  {
    assert n == base * q + n % base;
    assert q * base == base * q;
    Product(2, base, q);
    if q > 0 { AtLeast(q, base); }
  }

  // The digits of n, the most significant first.
  function Digits(n: nat, base: nat): (s: string)
    requires 2 <= base <= 16
    ensures s != []
    decreases n
  {
    if n < base then [DIGITS[n]] else Digits(Quot(n, base), base) + [DIGITS[Rem(n, base)]]
  }

  function Prefix(base: nat): string {
    if base == 8 then "0" else if base == 16 then "0x" else if base == 2 then "0b" else ""
  }

  predicate Negative(num: nat, flags: Flags) { Signed(flags) && num >= SIGN_BIT }

  function Magnitude(num: nat, flags: Flags): (m: nat)
    requires num < WORD_RANGE
    ensures m < WORD_RANGE
  {
    if Negative(num, flags) then WORD_RANGE - num else num
  }

  // What number writes for the word num.
  function Rendered(num: nat, base: nat, flags: Flags): (s: string)
    requires num < WORD_RANGE && 2 <= base <= 16
  {
    (if Negative(num, flags) then "-" else "") + Prefix(flags.base) + Digits(Magnitude(num, flags), base)
  }

  // ---------- reading a number back ----------

  function DigitValue(c: char): (v: nat)
    ensures v < 16
  {
    if '0' <= c <= '9' then c as nat - '0' as nat
    else if 'a' <= c <= 'f' then c as nat - 'a' as nat + 10
    else 0
  }

  // Horner's rule.
  function Value(s: string, base: nat): nat {
    if s == [] then 0 else Value(s[..|s| - 1], base) * base + DigitValue(s[|s| - 1])
  }

  function Parse(s: string, base: nat): int {
    if s != [] && s[0] == '-' then 0 - ParseMagnitude(s[1..], base) else ParseMagnitude(s, base)
  }

  function ParseMagnitude(s: string, base: nat): nat {
    var p := Prefix(base);
    if p <= s then Value(s[|p|..], base) else Value(s, base)
  }

  // The number a word stands for.
  function Meaning(num: nat, flags: Flags): int {
    if Negative(num, flags) then num - WORD_RANGE else num
  }

  lemma DigitBack(d: nat)
    requires d < 16
    ensures DigitValue(DIGITS[d]) == d && DIGITS[d] != '-'
  {
  }

  lemma {:induction false} DigitsValue(n: nat, base: nat)
    requires 2 <= base <= 16
    ensures Value(Digits(n, base), base) == n && Digits(n, base)[0] != '-'
    decreases n
  {
    var s := Digits(n, base);
    if n < base {
      DigitBack(n);
      assert s[..0] == [];
      assert Value(s, base) == Value(s[..0], base) * base + DigitValue(s[0]);
      assert Value(s[..0], base) == 0;
    } else {
      hide Quot, Rem;
      var q, d := Quot(n, base), Rem(n, base);
      DigitsValue(q, base);
      DigitBack(d);
      var t := Digits(q, base);
      assert s == t + [DIGITS[d]] && s[..|s| - 1] == t && s[|s| - 1] == DIGITS[d] && s[0] == t[0];
      hide Digits;
      assert Value(s, base) == Value(t, base) * base + DigitValue(DIGITS[d]);
    }
  }

  // Parsing what number wrote gives the number back, the most negative one included.
  lemma {:induction false} ParseRendered(num: nat, base: nat, flags: Flags)
    requires num < WORD_RANGE && base in {2, 8, 10, 16} && flags.base == base
    ensures Parse(Rendered(num, base, flags), base) == Meaning(num, flags)
  {
    hide Digits, ParseMagnitude, Prefix;
    var m := Prefix(base) + Digits(Magnitude(num, flags), base);
    ParseMagnitudeBack(Magnitude(num, flags), base);
    if Negative(num, flags) {
      assert Rendered(num, base, flags) == ['-'] + m;
      assert (['-'] + m)[1..] == m;
    } else {
      assert Rendered(num, base, flags) == m;
    }
  }

  lemma ParseMagnitudeBack(n: nat, base: nat)
    requires base in {2, 8, 10, 16}
    ensures var m := Prefix(base) + Digits(n, base);
      m[0] != '-' && ParseMagnitude(m, base) == n
  {
    hide Digits, Value;
    DigitsValue(n, base);
    var m := Prefix(base) + Digits(n, base);
    assert m[|Prefix(base)|..] == Digits(n, base) && Prefix(base) <= m;
  }

  // Two different words never look the same.
  lemma RenderedInjective(a: nat, b: nat, base: nat, flags: Flags)
    requires a < WORD_RANGE && b < WORD_RANGE && base in {2, 8, 10, 16} && flags.base == base
    requires Rendered(a, base, flags) == Rendered(b, base, flags)
    ensures a == b
  {
    hide Rendered, Parse;
    ParseRendered(a, base, flags);
    ParseRendered(b, base, flags);
  }

  // A number below 2^k has at most k digits.
  lemma {:induction false} DigitsFit(n: nat, base: nat, k: nat)
    requires 2 <= base <= 16 && k > 0 && n < Pow2(k)
    ensures |Digits(n, base)| <= k
    decreases k
  {
    hide Quot, Rem;
    if n >= base {
      assert Pow2(k) == 2 * Pow2(k - 1);
      assert k > 1;
      DigitsFit(Quot(n, base), base, k - 1);
    }
  }

  // ---------- formats ----------

  // What va_arg gives: the bits of an int, or a string.
  datatype Arg = Word(w: nat) | Text(s: string)

  predicate IsConversion(c: char) {
    c in {'c', 's', 'o', 'x', 'X', 'd', 'i', 'u'}
  }

  // The flags after a percent sign and the character c.
  function Directive(c: char, flags: Flags): (r: Flags)
    ensures r.kind == TYPE_NONE <==> !IsConversion(c)
    ensures r.base in {8, 10, 16} && (r.width <==> flags.width || c == 'l')
  {
    var f := flags.(kind := TYPE_NONE, base := 10, width := flags.width || c == 'l');
    if c == 'c' then f.(kind := TYPE_CHAR)
    else if c == 's' then f.(kind := TYPE_STR)
    else if c == 'o' then f.(kind := TYPE_UINT, base := 8)
    else if c == 'x' || c == 'X' then f.(kind := TYPE_UINT, base := 16)
    else if c == 'd' || c == 'i' then f.(kind := TYPE_INT)
    else if c == 'u' then f.(kind := TYPE_UINT)
    else f
  }

  // No percent sign stands alone at the end.
  predicate Complete(fmt: string) {
    fmt == [] || (if fmt[0] != '%' then Complete(fmt[1..]) else |fmt| >= 2 && Complete(fmt[2..]))
  }

  // Does the argument suit the conversion?
  predicate Suits(c: char, a: Arg) {
    if c == 's' then a.Text? else a.Word? && a.w < WORD_RANGE
  }

  // The arguments are those that the conversions call for; after an l there are no calls.
  predicate Supplied(fmt: string, args: seq<Arg>, width: bool)
    requires Complete(fmt)
  {
    fmt == [] ||
    (if fmt[0] != '%' then Supplied(fmt[1..], args, width)
     else if !IsConversion(fmt[1]) || width then Supplied(fmt[2..], args, width || fmt[1] == 'l')
     else args != [] && Suits(fmt[1], args[0]) && Supplied(fmt[2..], args[1..], width))
  }

  // One converted argument.
  function Converted(c: char, a: Arg): string
    requires IsConversion(c) && Suits(c, a)
  {
    if c == 's' then a.s
    else if c == 'c' then [(a.w % 0x100) as char]
    else if c == 'o' then "0" + Digits(a.w, 8)
    else if c == 'x' || c == 'X' then "0x" + Digits(a.w, 16)
    else if c == 'u' || a.w < SIGN_BIT then Digits(a.w, 10)
    else "-" + Digits(WORD_RANGE - a.w, 10)
  }

  // The text of a format: its characters one by one, conversions replaced by their
  // arguments, all other directives copied.
  function Output(fmt: string, args: seq<Arg>, width: bool): string
    requires Complete(fmt) && Supplied(fmt, args, width)
  {
    if fmt == [] then []
    else if fmt[0] != '%' then [fmt[0]] + Output(fmt[1..], args, width)
    else if !IsConversion(fmt[1]) then fmt[..2] + Output(fmt[2..], args, width || fmt[1] == 'l')
    else if width then Output(fmt[2..], args, width)
    else Converted(fmt[1], args[0]) + Output(fmt[2..], args[1..], width)
  }

  predicate Literal(fmt: string) {
    forall i | 0 <= i < |fmt| :: fmt[i] != '%'
  }

  // Text without percent signs is copied.
  lemma {:induction false} OutputRun(f: string, g: string, args: seq<Arg>, width: bool)
    requires Literal(f) && Complete(f + g) && Supplied(f + g, args, width)
    ensures Complete(g) && Supplied(g, args, width)
    ensures Output(f + g, args, width) == f + Output(g, args, width)
    decreases |f|
  {
    if f == [] {
      assert f + g == g;
    } else {
      assert (f + g)[1..] == f[1..] + g && (f + g)[0] == f[0];
      OneCharacter(f + g, args, width);
      OutputRun(f[1..], g, args, width);
      hide Complete, Supplied, Output;
      Cons(f, Output(g, args, width));
    }
  }

  lemma Cons(f: string, s: string)
    requires f != []
    ensures [f[0]] + (f[1..] + s) == f + s
  {
  }

  lemma OneCharacter(fmt: string, args: seq<Arg>, width: bool)
    requires Complete(fmt) && Supplied(fmt, args, width) && fmt != [] && fmt[0] != '%'
    ensures Complete(fmt[1..]) && Supplied(fmt[1..], args, width)
    ensures Output(fmt, args, width) == [fmt[0]] + Output(fmt[1..], args, width)
  {
  }

  // How far a piece takes the position with that much room left: strings stop at the end
  // of the buffer, all else is counted in full.
  function Grows(spec: Flags, shown: string, room: int): nat {
    if spec.kind == TYPE_STR && !spec.width && |shown| > room then (if room < 0 then 0 else room) else |shown|
  }

  function Taken(c: char, a: Arg, room: int): nat
    requires IsConversion(c) && Suits(c, a)
  {
    Grows(Directive(c, Flags(0, 0, false)), Converted(c, a), room)
  }

  // The number of characters vsnprintf counts.
  function Advance(fmt: string, args: seq<Arg>, width: bool, room: int): nat
    requires Complete(fmt) && Supplied(fmt, args, width)
  {
    if fmt == [] then 0
    else if fmt[0] != '%' then 1 + Advance(fmt[1..], args, width, room - 1)
    else if !IsConversion(fmt[1]) then 2 + Advance(fmt[2..], args, width || fmt[1] == 'l', room - 2)
    else if width then Advance(fmt[2..], args, width, room)
    else
      var g := Taken(fmt[1], args[0], room);
      g + Advance(fmt[2..], args[1..], width, room - g)
  }

  // Every number ends before the buffer does, or at most spare characters behind it.
  predicate NumbersFit(fmt: string, args: seq<Arg>, width: bool, room: int, spare: nat)
    requires Complete(fmt) && Supplied(fmt, args, width)
  {
    fmt == [] ||
    (if fmt[0] != '%' then NumbersFit(fmt[1..], args, width, room - 1, spare)
     else if !IsConversion(fmt[1]) then NumbersFit(fmt[2..], args, width || fmt[1] == 'l', room - 2, spare)
     else if width then NumbersFit(fmt[2..], args, width, room, spare)
     else
       && (IsNumber(fmt[1]) ==> |Converted(fmt[1], args[0])| <= room + spare)
       && NumbersFit(fmt[2..], args[1..], width, room - Taken(fmt[1], args[0], room), spare))
  }

  predicate IsNumber(c: char) {
    c != 's' && c != 'c'
  }

  // What is behind the buffer once a text has been written that starts where there is
  // that much room left.
  function Overlay(b: seq<char>, text: string, room: int): (r: seq<char>)
    requires |text| <= room + |b|
    ensures |r| == |b|
  {
    if |text| <= room then b
    else if room >= 0 then text[room..] + b[|text| - room..]
    else b[..-room] + text + b[|text| - room..]
  }

  function Spilt(c: char, a: Arg, room: int, b: seq<char>): (r: seq<char>)
    requires IsConversion(c) && Suits(c, a) && (IsNumber(c) ==> |Converted(c, a)| <= room + |b|)
    ensures |r| == |b|
  {
    if IsNumber(c) then Overlay(b, Converted(c, a), room) else b
  }

  // What vsnprintf leaves behind the buffer: number does not know where the buffer ends.
  function Behind(fmt: string, args: seq<Arg>, width: bool, room: int, b: seq<char>): (r: seq<char>)
    requires Complete(fmt) && Supplied(fmt, args, width) && NumbersFit(fmt, args, width, room, |b|)
    ensures |r| == |b|
  {
    hide Converted, Suits, Taken, Digits;
    if fmt == [] then b
    else if fmt[0] != '%' then Behind(fmt[1..], args, width, room - 1, b)
    else if !IsConversion(fmt[1]) then Behind(fmt[2..], args, width || fmt[1] == 'l', room - 2, b)
    else if width then Behind(fmt[2..], args, width, room, b)
    else Behind(fmt[2..], args[1..], width, room - Taken(fmt[1], args[0], room), Spilt(fmt[1], args[0], room, b))
  }

  // The position only moves on, so what is behind the buffer before it is kept.
  lemma {:induction false} BehindKeeps(fmt: string, args: seq<Arg>, width: bool, room: int, b: seq<char>, j: nat)
    requires Complete(fmt) && Supplied(fmt, args, width) && NumbersFit(fmt, args, width, room, |b|)
    requires j < |b| && j < -room
    ensures Behind(fmt, args, width, room, b)[j] == b[j]
    decreases |fmt|
  {
    hide Converted, Suits, Directive;
    if fmt != [] {
      if fmt[0] != '%' {
        BehindKeeps(fmt[1..], args, width, room - 1, b, j);
      } else if !IsConversion(fmt[1]) {
        BehindKeeps(fmt[2..], args, width || fmt[1] == 'l', room - 2, b, j);
      } else if width {
        BehindKeeps(fmt[2..], args, width, room, b, j);
      } else {
        BehindKeeps(fmt[2..], args[1..], width, room - Taken(fmt[1], args[0], room),
                    Spilt(fmt[1], args[0], room, b), j);
      }
    }
  }

  lemma NumberShown(c: char, a: Arg)
    requires IsConversion(c) && Suits(c, a) && IsNumber(c)
    ensures |Converted(c, a)| > 0 && Directive(c, Flags(0, 0, false)).kind != TYPE_STR
  {
  }

  // A number across the end of the buffer changes what is behind it, unless the same
  // characters happen to stand there.
  lemma {:induction false} Crossing(fmt: string, args: seq<Arg>, width: bool, room: int, spare: nat)
    returns (b: seq<char>)
    requires Complete(fmt) && Supplied(fmt, args, width) && NumbersFit(fmt, args, width, room, spare)
    requires !NumbersFit(fmt, args, width, room, 0)
    ensures |b| == spare && Behind(fmt, args, width, room, b) != b
    decreases |fmt|
  {
    hide Converted, Suits, Directive;
    if fmt[0] != '%' {
      b := Crossing(fmt[1..], args, width, room - 1, spare);
    } else if !IsConversion(fmt[1]) {
      b := Crossing(fmt[2..], args, width || fmt[1] == 'l', room - 2, spare);
    } else if width {
      b := Crossing(fmt[2..], args, width, room, spare);
    } else {
      var shown := Converted(fmt[1], args[0]);
      var g := Taken(fmt[1], args[0], room);
      if IsNumber(fmt[1]) && |shown| > room {
        NumberShown(fmt[1], args[0]);
        var o, c := if room < 0 then -room else 0, shown[if room < 0 then 0 else room];
        b := seq(spare, _ => if c == '0' then '1' else '0');
        BehindKeeps(fmt[2..], args[1..], width, room - g, Overlay(b, shown, room), o);
        assert Overlay(b, shown, room)[o] == c;
      } else {
        b := Crossing(fmt[2..], args[1..], width, room - g, spare);
      }
    }
  }

  lemma {:induction false} NothingBehind(fmt: string, args: seq<Arg>, width: bool, room: int, b: seq<char>)
    requires Complete(fmt) && Supplied(fmt, args, width) && NumbersFit(fmt, args, width, room, 0)
    ensures NumbersFit(fmt, args, width, room, |b|) && Behind(fmt, args, width, room, b) == b
    decreases |fmt|
  {
    hide Converted, Suits, Directive;
    if fmt != [] {
      if fmt[0] != '%' {
        NothingBehind(fmt[1..], args, width, room - 1, b);
      } else if !IsConversion(fmt[1]) {
        NothingBehind(fmt[2..], args, width || fmt[1] == 'l', room - 2, b);
      } else if width {
        NothingBehind(fmt[2..], args, width, room, b);
      } else {
        var g := Taken(fmt[1], args[0], room);
        NothingBehind(fmt[2..], args[1..], width, room - g, b);
      }
    }
  }

  // Nothing is written behind the buffer, whatever stands there, exactly when every number
  // ends before the buffer does.
  lemma BehindExactly(fmt: string, args: seq<Arg>, width: bool, room: int, spare: nat)
    requires Complete(fmt) && Supplied(fmt, args, width) && NumbersFit(fmt, args, width, room, spare)
    ensures (forall b | |b| == spare :: Behind(fmt, args, width, room, b) == b)
      <==> NumbersFit(fmt, args, width, room, 0)
  {
    if NumbersFit(fmt, args, width, room, 0) {
      forall b | |b| == spare ensures Behind(fmt, args, width, room, b) == b {
        NothingBehind(fmt, args, width, room, b);
      }
    } else {
      var b := Crossing(fmt, args, width, room, spare);
    }
  }

  // Output that fits is counted in full, and all of its numbers fit; output that does not
  // takes the position to the end at least.
  lemma {:induction false} AdvanceExactly(fmt: string, args: seq<Arg>, width: bool, room: int)
    requires Complete(fmt) && Supplied(fmt, args, width)
    ensures |Output(fmt, args, width)| <= room ==>
      Advance(fmt, args, width, room) == |Output(fmt, args, width)| && NumbersFit(fmt, args, width, room, 0)
    ensures |Output(fmt, args, width)| > room ==> Advance(fmt, args, width, room) >= room
    decreases |fmt|
  {
    hide Converted, Suits;
    if fmt != [] {
      if fmt[0] != '%' {
        AdvanceExactly(fmt[1..], args, width, room - 1);
      } else if !IsConversion(fmt[1]) {
        AdvanceExactly(fmt[2..], args, width || fmt[1] == 'l', room - 2);
      } else if width {
        AdvanceExactly(fmt[2..], args, width, room);
      } else {
        var g := Taken(fmt[1], args[0], room);
        AdvanceExactly(fmt[2..], args[1..], width, room - g);
      }
    }
  }

  lemma {:induction false} AdvanceRun(f: string, g: string, args: seq<Arg>, width: bool, room: int, b: seq<char>)
    requires Literal(f) && Complete(f + g) && Supplied(f + g, args, width)
    ensures Complete(g) && Supplied(g, args, width)
    ensures Advance(f + g, args, width, room) == |f| + Advance(g, args, width, room - |f|)
    ensures NumbersFit(f + g, args, width, room, |b|) <==> NumbersFit(g, args, width, room - |f|, |b|)
    ensures NumbersFit(f + g, args, width, room, |b|) ==>
      Behind(f + g, args, width, room, b) == Behind(g, args, width, room - |f|, b)
    decreases |f|
  {
    if f == [] {
      assert f + g == g;
    } else {
      assert (f + g)[1..] == f[1..] + g && (f + g)[0] == f[0];
      assert Complete(f[1..] + g) && Supplied(f[1..] + g, args, width);
      AdvanceRun(f[1..], g, args, width, room - 1, b);
    }
  }

  // What one turn of vsnprintf adds for the piece of format it has read.
  function Shown(piece: string, spec: Flags, args: seq<Arg>): string
    requires ShownOk(spec, args)
  {
    if spec.kind == TYPE_NONE then piece
    else if spec.width then ""
    else if spec.kind == TYPE_CHAR then [(args[0].w % 0x100) as char]
    else if spec.kind == TYPE_STR then args[0].s
    else Rendered(args[0].w, spec.base, spec)
  }

  predicate ShownOk(spec: Flags, args: seq<Arg>) {
    spec.kind == TYPE_NONE || spec.width ||
    (args != [] && (if spec.kind == TYPE_STR then args[0].Text?
                    else args[0].Word? && args[0].w < WORD_RANGE && spec.base in {8, 10, 16}))
  }

  // How many arguments the turn takes.
  function Used(spec: Flags): nat {
    if spec.kind == TYPE_NONE || spec.width then 0 else 1
  }

  lemma DirectiveShows(fmt: string, args: seq<Arg>, flags: Flags)
    requires fmt != [] && fmt[0] == '%' && Complete(fmt) && Supplied(fmt, args, flags.width)
    ensures |fmt| >= 2
    ensures var spec := Directive(fmt[1], flags);
      && ShownOk(spec, args) && Used(spec) <= |args|
      && Complete(fmt[2..]) && Supplied(fmt[2..], args[Used(spec)..], spec.width)
      && Output(fmt, args, flags.width)
         == Shown(fmt[..2], spec, args) + Output(fmt[2..], args[Used(spec)..], spec.width)
  {
    var c := fmt[1];
    var spec := Directive(c, flags);
    if IsConversion(c) && !flags.width {
      ConvertedShown(c, args, flags);
    } else {
      assert args[0..] == args;
    }
  }

  // The format begins with a directive: what it shows, and what is left behind it.
  ghost predicate Parts(fmt: string, args: seq<Arg>, flags: Flags, spec: Flags, rest: string, left: seq<Arg>,
                        shown: string)
  {
    && |fmt| >= 2 && fmt[0] == '%' && Complete(fmt) && Supplied(fmt, args, flags.width)
    && spec == Directive(fmt[1], flags) && ShownOk(spec, args) && Used(spec) <= |args|
    && left == args[Used(spec)..] && rest == fmt[2..] && shown == Shown(fmt[..2], spec, args)
    && Complete(rest) && Supplied(rest, left, spec.width)
  }

  lemma DirectiveAdvances(fmt: string, args: seq<Arg>, flags: Flags, room: int, spare: nat, spec: Flags,
                          rest: string, left: seq<Arg>, shown: string, g: nat)
    requires Parts(fmt, args, flags, spec, rest, left, shown) && g == Grows(spec, shown, room)
    ensures Advance(fmt, args, flags.width, room) == g + Advance(rest, left, spec.width, room - g)
    ensures NumbersFit(fmt, args, flags.width, room, spare) ==>
      NumbersFit(rest, left, spec.width, room - g, spare) && WritesFit(spec, shown, room + spare)
  {
    hide Converted, Shown, Rendered, Digits, Suits, ShownOk;
    if IsConversion(fmt[1]) && !flags.width {
      ConvertedShown(fmt[1], args, flags);
    } else {
      assert args[0..] == args;
      NothingShown(fmt[..2], spec, args);
    }
  }

  lemma DirectiveBehind(fmt: string, args: seq<Arg>, flags: Flags, room: int, b: seq<char>, spec: Flags,
                        rest: string, left: seq<Arg>, shown: string, g: nat)
    requires Parts(fmt, args, flags, spec, rest, left, shown) && g == Grows(spec, shown, room)
    requires NumbersFit(fmt, args, flags.width, room, |b|) && WritesFit(spec, shown, room + |b|)
    requires NumbersFit(rest, left, spec.width, room - g, |b|)
    ensures Behind(fmt, args, flags.width, room, b)
      == Behind(rest, left, spec.width, room - g, Written(spec, shown, room, b))
  {
    hide Converted, Shown, Rendered, Digits, Overlay, Suits, ShownOk;
    if IsConversion(fmt[1]) && !flags.width {
      ConvertedShown(fmt[1], args, flags);
    } else {
      assert args[0..] == args;
      NothingShown(fmt[..2], spec, args);
    }
  }

  lemma NothingShown(piece: string, spec: Flags, args: seq<Arg>)
    requires ShownOk(spec, args)
    ensures spec.kind == TYPE_NONE ==> Shown(piece, spec, args) == piece
    ensures spec.kind != TYPE_NONE && spec.width ==> Shown(piece, spec, args) == ""
  {
  }

  // Does the turn write a number?
  predicate Numeric(spec: Flags) {
    spec.kind !in {TYPE_NONE, TYPE_CHAR, TYPE_STR} && !spec.width
  }

  predicate WritesFit(spec: Flags, shown: string, limit: int) {
    Numeric(spec) ==> |shown| <= limit
  }

  // What one turn leaves behind the buffer.
  function Written(spec: Flags, shown: string, room: int, b: seq<char>): (r: seq<char>)
    requires WritesFit(spec, shown, room + |b|)
    ensures |r| == |b|
  {
    if Numeric(spec) then Overlay(b, shown, room) else b
  }

  lemma ConvertedShown(c: char, args: seq<Arg>, flags: Flags)
    requires IsConversion(c) && !flags.width && args != [] && Suits(c, args[0])
    ensures ShownOk(Directive(c, flags), args)
    ensures Shown([], Directive(c, flags), args) == Converted(c, args[0])
    ensures forall piece :: Shown(piece, Directive(c, flags), args) == Converted(c, args[0])
  {
    hide Digits;
  }

  // ---------- the code ----------

  // A string as it stands in the numbers buffer, last character first.
  function Backwards(s: string): (r: string)
    ensures |r| == |s|
  {
    if s == [] then [] else [s[|s| - 1]] + Backwards(s[..|s| - 1])
  }

  lemma BackwardsGrows(s: string, c: char)
    ensures Backwards(s + [c]) == [c] + Backwards(s)
  {
    assert (s + [c])[..|s|] == s;
  }

  // format_decode: what is read up to the next directive, or the directive.
  method FormatDecode(fmt: string, flags: Flags) returns (read: nat, r: Flags)
    requires fmt != [] && Complete(fmt)
    ensures 1 <= read <= |fmt|
    ensures fmt[0] != '%' ==> r == flags.(kind := TYPE_NONE) && forall i | 0 <= i < read :: fmt[i] != '%'
    ensures fmt[0] != '%' && read < |fmt| ==> fmt[read] == '%'
    ensures fmt[0] == '%' ==> read == 2 && r == Directive(fmt[1], flags)
  {
    r := flags.(kind := TYPE_NONE);
    read := 0;
    while read < |fmt| && fmt[read] != '%'
      invariant 0 <= read <= |fmt| && forall i | 0 <= i < read :: fmt[i] != '%'
    {
      read := read + 1;
    }
    if read != 0 {
      return;
    }
    read := read + 1;
    if fmt[read] == 'l' {
      r := r.(width := true);
    }
    r := r.(base := 10);
    match fmt[read] {
      case 'c' => r := r.(kind := TYPE_CHAR);
      case 's' => r := r.(kind := TYPE_STR);
      case 'o' => r := r.(base := 8, kind := TYPE_UINT);
      case 'x' => r := r.(base := 16, kind := TYPE_UINT);
      case 'X' => r := r.(base := 16, kind := TYPE_UINT);
      case 'd' => r := r.(kind := TYPE_INT, base := 10);
      case 'i' => r := r.(kind := TYPE_INT, base := 10);
      case 'u' => r := r.(kind := TYPE_UINT, base := 10);
      case _ =>
    }
    read := read + 1;
  }

  class Printer {
    const numbers: array<char>

    constructor ()
      ensures fresh(numbers) && numbers.Length == NUMBERS
    {
      numbers := new char[NUMBERS];
    }

    // The digits of num, the last first, into the numbers buffer.
    method DigitLoop(num0: nat, base: nat) returns (i: nat)
      requires num0 < WORD_RANGE && 2 <= base <= 16 && numbers.Length == NUMBERS
      modifies numbers
      ensures 0 < i <= 32 && Backwards(numbers[..i]) == Digits(num0, base)
    {
      hide Digits, Backwards, Quot, Rem, Pow2;
      var num: nat := num0;
      ghost var whole := Digits(num0, base);
      Pow2Word();
      DigitsFit(num, base, 32);
      i := 0;
      NothingYet(whole);
      var more := true;
      while more
        invariant i + (if more then |Digits(num, base)| else 0) == |whole| <= 32
        invariant (if more then Digits(num, base) else "") + Backwards(numbers[..i]) == whole
        decreases more, num
      {
        DigitsStep(num, base, numbers[..i]);
        ghost var before := numbers[..i];
        numbers[i] := DIGITS[Rem(num, base)];
        assert numbers[..i + 1] == before + [DIGITS[Rem(num, base)]];
        num := Quot(num, base);
        i := i + 1;
        more := num != 0;
      }
      assert "" + Backwards(numbers[..i]) == Backwards(numbers[..i]);
    }

    // The buffer as far as it is filled, the last character first, is text.
    ghost predicate Holds(i: nat, text: string)
      reads this, numbers
    {
      i <= numbers.Length && Backwards(numbers[..i]) == text
    }

    method Put(i: nat, c: char, ghost text: string) returns (j: nat)
      requires i < numbers.Length && Holds(i, text)
      modifies numbers
      ensures j == i + 1 && Holds(j, [c] + text)
    {
      ghost var before := numbers[..i];
      numbers[i] := c;
      assert numbers[..i + 1] == before + [c];
      BackwardsGrows(before, c);
      j := i + 1;
    }

    method PutPrefix(i: nat, base: nat, ghost d: string) returns (j: nat)
      requires i + 2 <= numbers.Length && Holds(i, d)
      modifies numbers
      ensures i <= j <= i + 2 && Holds(j, Prefix(base) + d)
    {
      hide Holds;
      PrefixParts(base, d);
      j := i;
      if base == 8 {
        j := Put(j, '0', d);
      } else if base == 16 {
        j := Put(j, 'x', d);
        j := Put(j, '0', ['x'] + d);
      } else if base == 2 {
        j := Put(j, 'b', d);
        j := Put(j, '0', ['b'] + d);
      }
    }

    // number: renders the word into the buffer from position str on.
    method Number(buf: array<char>, str: nat, num0: nat, base: nat, flags: Flags) returns (end: nat)
      requires num0 < WORD_RANGE && 2 <= base <= 16 && numbers.Length == NUMBERS && buf != numbers
      requires str + |Rendered(num0, base, flags)| <= buf.Length
      modifies numbers, buf
      ensures end == str + |Rendered(num0, base, flags)| && buf[..end] == old(buf[..str]) + Rendered(num0, base, flags)
      ensures buf[end..] == old(buf[end..])
    {
      hide Digits, Backwards, Prefix;
      var num, sign := num0, false;
      if Signed(flags) && num >= SIGN_BIT {
        sign := true;
        num := (WORD_RANGE - 1 - num + 1) % WORD_RANGE;
      }
      var i := DigitLoop(num, base);
      ghost var d := Digits(num, base);
      i := PutPrefix(i, flags.base, d);
      ghost var p := Prefix(flags.base) + d;
      if sign {
        i := Put(i, '-', p);
      }
      ghost var text := Rendered(num0, base, flags);
      assert text == (if sign then ['-'] + p else p);
      end := CopyBack(buf, str, i, text);
    }

    // The buffer copied out from its last character to its first.
    method CopyBack(buf: array<char>, str: nat, n: nat, ghost text: string) returns (end: nat)
      requires Holds(n, text) && buf != numbers && str + |text| <= buf.Length
      modifies buf
      ensures end == str + |text| && buf[..end] == old(buf[..str]) + text && buf[end..] == old(buf[end..])
    {
      end := str;
      var i := n;
      ghost var total := str + |text|;
      while i > 0
        invariant 0 <= i <= n && end + i == total <= buf.Length
        invariant buf[..end] + Backwards(numbers[..i]) == old(buf[..str]) + text
        invariant buf[total..] == old(buf[total..])
      {
        i := i - 1;
        assert numbers[..i + 1][..i] == numbers[..i];
        ghost var before := buf[..end];
        buf[end] := numbers[i];
        end := end + 1;
        assert buf[..end] == before + [numbers[i]];
      }
    }

    // memcpy of a piece of the format, cut off at the end of the buffer.
    method CopyPiece(buf: array<char>, str: nat, size: nat, piece: string) returns (next: nat)
      requires size <= buf.Length
      modifies buf
      ensures next == str + |piece| && Placed(old(buf[..]), buf[..], size, str, next, piece)
      ensures buf[size..] == old(buf[size..])
    {
      if str < size {
        var copy := |piece|;
        if copy > size - str {
          copy := size - str;
        }
        forall i | 0 <= i < copy {
          buf[str + i] := piece[i];
        }
      }
      next := str + |piece|;
    }

    method CopyChar(buf: array<char>, str: nat, size: nat, c: char) returns (next: nat)
      requires size <= buf.Length
      modifies buf
      ensures next == str + 1 && Placed(old(buf[..]), buf[..], size, str, next, [c])
      ensures buf[size..] == old(buf[size..])
    {
      if str < size {
        buf[str] := c;
      }
      next := str + 1;
    }

    method CopyString(buf: array<char>, str0: nat, size: nat, s: string) returns (str: nat)
      requires size <= buf.Length
      modifies buf
      ensures str == str0 + (if |s| <= size - str0 then |s| else if size < str0 then 0 else size - str0)
      ensures Placed(old(buf[..]), buf[..], size, str0, str, s)
      ensures buf[size..] == old(buf[size..])
    {
      str := str0;
      var i := 0;
      while str < size && i < |s|
        invariant 0 <= i <= |s| && str == str0 + i && (i > 0 ==> str <= size)
        invariant forall j | 0 <= j < buf.Length :: buf[j] == if str0 <= j < str then s[j - str0] else old(buf[j])
      {
        buf[str] := s[i];
        str, i := str + 1, i + 1;
      }
    }

    // One turn of vsnprintf: the piece of format just read, or the argument it calls for.
    method Turn(buf: array<char>, str: nat, size: nat, piece: string, spec: Flags, args: seq<Arg>)
      returns (next: nat, used: nat)
      requires buf != numbers && numbers.Length == NUMBERS && size <= buf.Length && ShownOk(spec, args)
      requires WritesFit(spec, Shown(piece, spec, args), buf.Length - str)
      modifies numbers, buf
      ensures next == str + Grows(spec, Shown(piece, spec, args), size - str) && used == Used(spec)
      ensures Placed(old(buf[..]), buf[..], size, str, next, Shown(piece, spec, args))
      ensures buf[size..] == Written(spec, Shown(piece, spec, args), size - str, old(buf[size..]))
    {
      hide Digits, Placed, Overlay;
      next, used := str, 0;
      if spec.kind == TYPE_NONE {
        next := CopyPiece(buf, str, size, piece);
      } else if spec.width {
        PlacedNothing(buf[..], size, str);
      } else if spec.kind == TYPE_CHAR {
        var c := (args[0].w % 0x100) as char;
        next := CopyChar(buf, str, size, c);
        used := 1;
      } else if spec.kind == TYPE_STR {
        next := CopyString(buf, str, size, args[0].s);
        used := 1;
      } else {
        ghost var b := buf[..];
        next := Number(buf, str, args[0].w, spec.base, spec);
        used := 1;
        PlacedNumber(b, buf[..], size, str, next, Rendered(args[0].w, spec.base, spec));
        NumberBehind(b, buf[..], size, str, next, Rendered(args[0].w, spec.base, spec));
      }
    }

    // vsnprintf. What does not fit is cut off, the terminating zero included, but for
    // numbers, which go on behind the buffer.
    method Vsnprintf(buf: array<char>, size: nat, fmt: string, args: seq<Arg>) returns (r: nat)
      requires buf != numbers && numbers.Length == NUMBERS && size <= buf.Length
      requires Complete(fmt) && Supplied(fmt, args, false) && NumbersFit(fmt, args, false, size, buf.Length - size)
      modifies numbers, buf
      ensures r == Advance(fmt, args, false, size)
      ensures var out, m := Output(fmt, args, false), if r < size then r else size - 1;
        && (r < size <==> |out| < size) && (|out| <= size ==> r == |out|)
        && (size > 0 ==> m <= |out| && buf[..m] == out[..m] && buf[m] == '\0')
      ensures buf[size..] == Behind(fmt, args, false, size, old(buf[size..]))
      ensures NumbersFit(fmt, args, false, size, 0) ==> buf[size..] == old(buf[size..])
    {
      hide Complete, Supplied, Output, Advance, NumbersFit, Shown, ShownOk, Used, Directive, Grows, Numeric;
      hide Placed, Behind, WritesFit, Written, Going;
      var str: nat, i: nat, k: nat := 0, 0, 0;
      var spec := Flags(0, TYPE_NONE, false);
      ghost var b0 := buf[..];
      assert fmt[0..] == fmt && args[0..] == args;
      GoingStart(fmt, args, b0, size);
      while i < |fmt|
        invariant i <= |fmt| && k <= |args|
        invariant Going(fmt[i..], args[k..], spec.width, buf[..], size, str, fmt, args, b0)
      {
        ghost var b, flags := buf[..], spec;
        var read: nat;
        GoingOn(fmt[i..], args[k..], spec.width, b, size, str, fmt, args, b0);
        read, spec := FormatDecode(fmt[i..], spec);
        OneTurn(fmt[i..], args[k..], flags, read, spec, size - str, buf[size..]);
        assert fmt[i..][..read] == fmt[i..i + read];
        assert fmt[i..][read..] == fmt[i + read..] && args[k..][Used(spec)..] == args[k + Used(spec)..];
        var next, used := Turn(buf, str, size, fmt[i..i + read], spec, args[k..]);
        GoingStep(fmt[i..], args[k..], flags.width, fmt[i + read..], args[k + used..], spec.width, b, buf[..],
                  size, str, next, Shown(fmt[i..i + read], spec, args[k..]), fmt, args, b0);
        str, i, k := next, i + read, k + used;
      }
      GoingEnd(fmt[i..], args[k..], spec.width, buf[..], size, str, fmt, args, b0);
      if size > 0 {
        if str < size {
          buf[str] := '\0';
        } else {
          buf[size - 1] := '\0';
        }
      }
      r := str;
    }
  }

  // The text is in the buffer from position str on as far as there is room, and all before
  // it is as it was. The position has moved to next, past the end when there was no room.
  ghost predicate Placed(b: seq<char>, b2: seq<char>, size: nat, str: nat, next: nat, text: string) {
    && |b2| == |b| && size <= |b|
    && (str + |text| <= size ==> next == str + |text|)
    && (str + |text| > size ==> next >= size && next >= str)
    && (forall j | 0 <= j < size && j < str :: b2[j] == b[j])
    && (forall j | str <= j < size && j < str + |text| :: b2[j] == text[j - str])
  }

  lemma PlacedNothing(b: seq<char>, size: nat, str: nat)
    requires size <= |b|
    ensures Placed(b, b, size, str, str, "")
  {
  }

  lemma PlacedNumber(b: seq<char>, b2: seq<char>, size: nat, str: nat, next: nat, text: string)
    requires |b2| == |b| && next == str + |text| <= |b| && size <= |b|
    requires b2[..next] == b[..str] + text && b2[next..] == b[next..]
    ensures Placed(b, b2, size, str, next, text)
  {
    forall j | 0 <= j < str ensures b2[j] == b[j] {
      assert b2[j] == b2[..next][j] == b[..str][j];
    }
    forall j | str <= j < next ensures b2[j] == text[j - str] {
      assert b2[j] == b2[..next][j];
    }
  }

  lemma NumberBehind(b: seq<char>, b2: seq<char>, size: nat, str: nat, next: nat, text: string)
    requires |b2| == |b| && next == str + |text| <= |b| && size <= |b|
    requires b2[..next] == b[..str] + text && b2[next..] == b[next..]
    ensures b2[size..] == Overlay(b[size..], text, size - str)
  {
    assert b2 == b[..str] + text + b[next..] by { assert b2 == b2[..next] + b2[next..]; }
    if next <= size {
      assert b2[size..] == b2[next..][size - next..] && b[size..] == b[next..][size - next..];
    } else if str <= size {
      assert b2[size..] == text[size - str..] + b[next..];
      assert b[size..][next - size..] == b[next..];
    } else {
      assert b2[size..] == b[..str][size..] + text + b[next..];
      assert b[size..][..str - size] == b[..str][size..] && b[size..][next - size..] == b[next..];
    }
  }

  // The buffer holds the output as far as it has been shown, or as far as there is room.
  ghost predicate Filled(b: seq<char>, size: nat, str: nat, rest: string, out: string) {
    && size <= |b|
    && (str < size ==> b[..str] + rest == out)
    && (str >= size ==> |out| >= size && b[..size] == out[..size])
  }

  lemma FilledStart(b: seq<char>, size: nat, out: string)
    requires size <= |b|
    ensures Filled(b, size, 0, out, out)
  {
    assert b[..0] + out == out;
  }

  lemma FilledStep(b: seq<char>, b2: seq<char>, size: nat, str: nat, next: nat,
                   shown: string, rest: string, out: string)
    requires Filled(b, size, str, shown + rest, out) && Placed(b, b2, size, str, next, shown)
    ensures Filled(b2, size, next, rest, out)
  {
    if str < size {
      assert out == b[..str] + shown + rest;
      if str + |shown| <= size {
        assert b2[..next] == b[..str] + shown;
      } else {
        assert b2[..size] == out[..size];
      }
    } else {
      assert b2[..size] == b[..size];
    }
  }

  lemma FilledEnd(b: seq<char>, size: nat, str: nat, out: string)
    requires Filled(b, size, str, "", out)
    ensures str < size ==> b[..str] == out
    ensures str >= size ==> |out| >= size && b[..size] == out[..size]
  {
    if str < size { assert b[..str] + "" == b[..str]; }
  }

  // In the middle of vsnprintf: f and a are what is left of the format and its arguments,
  // b the buffer, with what is behind its end, and str the position.
  ghost predicate Going(f: string, a: seq<Arg>, width: bool, b: seq<char>, size: nat, str: nat,
                        fmt: string, args: seq<Arg>, b0: seq<char>)
    requires Complete(fmt) && Supplied(fmt, args, false) && size <= |b0|
    requires NumbersFit(fmt, args, false, size, |b0| - size)
  {
    && |b| == |b0| && Complete(f) && Supplied(f, a, width) && NumbersFit(f, a, width, size - str, |b| - size)
    && str + Advance(f, a, width, size - str) == Advance(fmt, args, false, size)
    && Filled(b, size, str, Output(f, a, width), Output(fmt, args, false))
    && Behind(f, a, width, size - str, b[size..]) == Behind(fmt, args, false, size, b0[size..])
  }

  lemma GoingStart(fmt: string, args: seq<Arg>, b0: seq<char>, size: nat)
    requires Complete(fmt) && Supplied(fmt, args, false) && size <= |b0|
    requires NumbersFit(fmt, args, false, size, |b0| - size)
    ensures Going(fmt, args, false, b0, size, 0, fmt, args, b0)
  {
    hide Complete, Supplied, Output, Advance, NumbersFit, Filled, Behind;
    FilledStart(b0, size, Output(fmt, args, false));
  }

  lemma GoingOn(f: string, a: seq<Arg>, width: bool, b: seq<char>, size: nat, str: nat,
                fmt: string, args: seq<Arg>, b0: seq<char>)
    requires Complete(fmt) && Supplied(fmt, args, false) && size <= |b0|
    requires NumbersFit(fmt, args, false, size, |b0| - size)
    requires Going(f, a, width, b, size, str, fmt, args, b0)
    ensures |b| == |b0| && Complete(f) && Supplied(f, a, width) && NumbersFit(f, a, width, size - str, |b| - size)
  {
    hide Complete, Supplied, Output, Advance, NumbersFit, Filled, Behind;
  }

  lemma GoingStep(f: string, a: seq<Arg>, width: bool, f2: string, a2: seq<Arg>, width2: bool,
                  b: seq<char>, b2: seq<char>, size: nat, str: nat, next: nat, shown: string,
                  fmt: string, args: seq<Arg>, b0: seq<char>)
    requires Complete(fmt) && Supplied(fmt, args, false) && size <= |b0|
    requires NumbersFit(fmt, args, false, size, |b0| - size)
    requires Going(f, a, width, b, size, str, fmt, args, b0)
    requires Complete(f) && Supplied(f, a, width) && Complete(f2) && Supplied(f2, a2, width2)
    requires Output(f, a, width) == shown + Output(f2, a2, width2) && Placed(b, b2, size, str, next, shown)
    requires str + Advance(f, a, width, size - str) == next + Advance(f2, a2, width2, size - next)
    requires |b| == |b0| == |b2| && NumbersFit(f, a, width, size - str, |b| - size)
    requires NumbersFit(f2, a2, width2, size - next, |b| - size)
    requires Behind(f, a, width, size - str, b[size..]) == Behind(f2, a2, width2, size - next, b2[size..])
    ensures Going(f2, a2, width2, b2, size, next, fmt, args, b0)
  {
    hide Complete, Supplied, Output, Advance, NumbersFit, Filled, Behind, Placed;
    FilledStep(b, b2, size, str, next, shown, Output(f2, a2, width2), Output(fmt, args, false));
  }

  lemma GoingEnd(f: string, a: seq<Arg>, width: bool, b: seq<char>, size: nat, str: nat,
                 fmt: string, args: seq<Arg>, b0: seq<char>)
    requires Complete(fmt) && Supplied(fmt, args, false) && size <= |b0|
    requires NumbersFit(fmt, args, false, size, |b0| - size)
    requires f == [] && Going(f, a, width, b, size, str, fmt, args, b0)
    ensures var out := Output(fmt, args, false);
      && str == Advance(fmt, args, false, size) && (str < size <==> |out| < size) && (|out| <= size ==> str == |out|)
      && |b| == |b0| && (str < size ==> b[..str] == out) && (str >= size ==> |out| >= size && b[..size] == out[..size])
    ensures b[size..] == Behind(fmt, args, false, size, b0[size..])
    ensures NumbersFit(fmt, args, false, size, 0) ==> b[size..] == b0[size..]
  {
    hide Complete, Supplied, Output, Advance, NumbersFit, Filled, Behind;
    NoMore(f, a, width, size - str, b[size..]);
    AdvanceExactly(fmt, args, false, size);
    FilledEnd(b, size, str, Output(fmt, args, false));
    if NumbersFit(fmt, args, false, size, 0) { NothingBehind(fmt, args, false, size, b0[size..]); }
  }

  // A turn shows what the output begins with and leaves the rest.
  lemma OneTurn(fmt: string, args: seq<Arg>, flags: Flags, read: nat, spec: Flags, room: int, b: seq<char>)
    requires fmt != [] && Complete(fmt) && Supplied(fmt, args, flags.width) && 1 <= read <= |fmt|
    requires fmt[0] != '%' ==> spec == flags.(kind := TYPE_NONE) && forall i | 0 <= i < read :: fmt[i] != '%'
    requires fmt[0] == '%' ==> read == 2 && spec == Directive(fmt[1], flags)
    ensures ShownOk(spec, args) && Used(spec) <= |args|
    ensures Complete(fmt[read..]) && Supplied(fmt[read..], args[Used(spec)..], spec.width)
    ensures Output(fmt, args, flags.width)
      == Shown(fmt[..read], spec, args) + Output(fmt[read..], args[Used(spec)..], spec.width)
    ensures var shown := Shown(fmt[..read], spec, args); var g := Grows(spec, shown, room);
      && Advance(fmt, args, flags.width, room) == g + Advance(fmt[read..], args[Used(spec)..], spec.width, room - g)
      && (NumbersFit(fmt, args, flags.width, room, |b|) ==>
            && NumbersFit(fmt[read..], args[Used(spec)..], spec.width, room - g, |b|)
            && WritesFit(spec, shown, room + |b|)
            && Behind(fmt, args, flags.width, room, b)
               == Behind(fmt[read..], args[Used(spec)..], spec.width, room - g, Written(spec, shown, room, b)))
  {
    hide Complete, Supplied, Output, Advance, NumbersFit, Directive, Shown, ShownOk, Used, Grows, Numeric;
    hide Behind, Written, WritesFit;
    if fmt[0] != '%' {
      LiteralTurn(fmt, args, flags, read, spec, room, b);
    } else {
      DirectiveShows(fmt, args, flags);
      var shown, left := Shown(fmt[..2], spec, args), args[Used(spec)..];
      var g := Grows(spec, shown, room);
      DirectiveAdvances(fmt, args, flags, room, |b|, spec, fmt[2..], left, shown, g);
      if NumbersFit(fmt, args, flags.width, room, |b|) {
        DirectiveBehind(fmt, args, flags, room, b, spec, fmt[2..], left, shown, g);
      }
    }
  }

  lemma LiteralTurn(fmt: string, args: seq<Arg>, flags: Flags, read: nat, spec: Flags, room: int, b: seq<char>)
    requires Complete(fmt) && Supplied(fmt, args, flags.width) && read <= |fmt|
    requires spec == flags.(kind := TYPE_NONE) && forall i | 0 <= i < read :: fmt[i] != '%'
    ensures ShownOk(spec, args) && Used(spec) == 0 && !Numeric(spec)
    ensures Complete(fmt[read..]) && Supplied(fmt[read..], args[0..], spec.width)
    ensures Output(fmt, args, flags.width)
      == Shown(fmt[..read], spec, args) + Output(fmt[read..], args[0..], spec.width)
    ensures Grows(spec, Shown(fmt[..read], spec, args), room) == read
    ensures Advance(fmt, args, flags.width, room) == read + Advance(fmt[read..], args[0..], spec.width, room - read)
    ensures NumbersFit(fmt, args, flags.width, room, |b|)
      <==> NumbersFit(fmt[read..], args[0..], spec.width, room - read, |b|)
    ensures var shown := Shown(fmt[..read], spec, args);
      && WritesFit(spec, shown, room + |b|) && Written(spec, shown, room, b) == b
      && (NumbersFit(fmt, args, flags.width, room, |b|) ==>
            Behind(fmt, args, flags.width, room, b) == Behind(fmt[read..], args[0..], spec.width, room - read, b))
  {
    hide Complete, Supplied, Output, Advance, NumbersFit, Behind;
    assert fmt == fmt[..read] + fmt[read..];
    assert args[0..] == args;
    OutputRun(fmt[..read], fmt[read..], args, flags.width);
    AdvanceRun(fmt[..read], fmt[read..], args, flags.width, room, b);
  }

  // Formats can be put together from parts: each part shows the arguments it calls for.
  function Needed(fmt: string): nat
    requires Complete(fmt)
  {
    if fmt == [] then 0
    else if fmt[0] != '%' then Needed(fmt[1..])
    else (if IsConversion(fmt[1]) then 1 else 0) + Needed(fmt[2..])
  }

  // No directive has an l.
  predicate NoWidth(fmt: string)
    requires Complete(fmt)
  {
    fmt == [] || (if fmt[0] != '%' then NoWidth(fmt[1..]) else fmt[1] != 'l' && NoWidth(fmt[2..]))
  }

  lemma {:induction false} OutputConcat(f: string, g: string, a: seq<Arg>, b: seq<Arg>)
    requires Complete(f) && Complete(g) && NoWidth(f) && |a| == Needed(f)
    requires Supplied(f, a, false) && Supplied(g, b, false)
    ensures Complete(f + g) && Supplied(f + g, a + b, false)
    ensures Output(f + g, a + b, false) == Output(f, a, false) + Output(g, b, false)
    decreases |f|
  {
    hide Converted, Suits;
    if f == [] {
      assert f + g == g && a + b == b;
    } else if f[0] != '%' {
      assert (f + g)[1..] == f[1..] + g;
      OutputConcat(f[1..], g, a, b);
    } else {
      assert (f + g)[2..] == f[2..] + g && (f + g)[..2] == f[..2];
      if IsConversion(f[1]) {
        assert (a + b)[1..] == a[1..] + b && (a + b)[0] == a[0];
        OutputConcat(f[2..], g, a[1..], b);
      } else {
        OutputConcat(f[2..], g, a, b);
      }
    }
  }

  // So can what vsnprintf counts, what it writes behind the buffer, and whether it does:
  // the second part starts where the first one stopped.
  lemma {:induction false} AdvanceConcat(f: string, g: string, a: seq<Arg>, b: seq<Arg>, room: int)
    requires Complete(f) && Complete(g) && NoWidth(f) && |a| == Needed(f)
    requires Supplied(f, a, false) && Supplied(g, b, false) && Complete(f + g) && Supplied(f + g, a + b, false)
    ensures Advance(f + g, a + b, false, room)
      == Advance(f, a, false, room) + Advance(g, b, false, room - Advance(f, a, false, room))
    decreases |f|
  {
    hide Advance, Supplied, Complete, NoWidth, Needed, Taken, Converted, Suits;
    if f == [] {
      AdvanceNothing(f, a, room);
      assert f + g == g && a + b == b;
    } else {
      var n, u := FirstPart(f);
      var t := AdvanceTurn(f, a, n, u, room);
      Joined(f, g, n);
      Joined(a, b, u);
      var t' := AdvanceTurn(f + g, a + b, n, u, room);
      AdvanceConcat(f[n..], g, a[u..], b, room - t);
    }
  }

  lemma Joined<T>(s: seq<T>, t: seq<T>, n: nat)
    requires n <= |s|
    ensures (s + t)[n..] == s[n..] + t && forall i | 0 <= i < |s| :: (s + t)[i] == s[i]
  {
  }

  lemma AdvanceNothing(f: string, a: seq<Arg>, room: int)
    requires f == [] && Complete(f) && Supplied(f, a, false) && |a| == Needed(f)
    ensures a == [] && Advance(f, a, false, room) == 0
  {
  }

  // The first character, or the first directive, is n long and takes u arguments.
  lemma FirstPart(f: string) returns (n: nat, u: nat)
    requires f != [] && Complete(f) && NoWidth(f)
    ensures 1 <= n <= |f| && n == (if f[0] != '%' then 1 else 2) && (f[0] == '%' ==> f[1] != 'l')
    ensures u == if f[0] == '%' && IsConversion(f[1]) then 1 else 0
    ensures Complete(f[n..]) && NoWidth(f[n..]) && Needed(f) == u + Needed(f[n..])
  {
    n := if f[0] != '%' then 1 else 2;
    u := if f[0] == '%' && IsConversion(f[1]) then 1 else 0;
  }

  lemma AdvanceTurn(f: string, a: seq<Arg>, n: nat, u: nat, room: int) returns (t: nat)
    requires f != [] && Complete(f) && Supplied(f, a, false)
    requires n == (if f[0] != '%' then 1 else 2) <= |f| && (f[0] == '%' ==> f[1] != 'l')
    requires u == if f[0] == '%' && IsConversion(f[1]) then 1 else 0
    ensures u <= |a| && (u == 1 ==> Suits(f[1], a[0])) && Complete(f[n..]) && Supplied(f[n..], a[u..], false)
    ensures t == (if u == 1 then Taken(f[1], a[0], room) else n)
    ensures Advance(f, a, false, room) == t + Advance(f[n..], a[u..], false, room - t)
  {
    hide Converted, Suits, Taken;
    if u == 0 { assert a[0..] == a; }
    t := if u == 1 then Taken(f[1], a[0], room) else n;
  }

  lemma {:induction false} NumbersConcat(f: string, g: string, a: seq<Arg>, b: seq<Arg>, room: int, spare: nat)
    requires Complete(f) && Complete(g) && NoWidth(f) && |a| == Needed(f)
    requires Supplied(f, a, false) && Supplied(g, b, false) && Complete(f + g) && Supplied(f + g, a + b, false)
    ensures NumbersFit(f + g, a + b, false, room, spare) <==>
      NumbersFit(f, a, false, room, spare) && NumbersFit(g, b, false, room - Advance(f, a, false, room), spare)
    decreases |f|
  {
    hide Converted, Suits, Taken;
    if f == [] {
      assert f + g == g && a + b == b;
    } else if f[0] != '%' {
      assert (f + g)[1..] == f[1..] + g;
      NumbersConcat(f[1..], g, a, b, room - 1, spare);
    } else {
      assert (f + g)[2..] == f[2..] + g && (f + g)[..2] == f[..2];
      if IsConversion(f[1]) {
        assert (a + b)[1..] == a[1..] + b && (a + b)[0] == a[0];
        NumbersConcat(f[2..], g, a[1..], b, room - Taken(f[1], a[0], room), spare);
      } else {
        NumbersConcat(f[2..], g, a, b, room - 2, spare);
      }
    }
  }

  lemma {:induction false} BehindConcat(f: string, g: string, a: seq<Arg>, b: seq<Arg>, room: int, behind: seq<char>)
    requires Complete(f) && Complete(g) && NoWidth(f) && |a| == Needed(f)
    requires Supplied(f, a, false) && Supplied(g, b, false) && Complete(f + g) && Supplied(f + g, a + b, false)
    requires NumbersFit(f, a, false, room, |behind|) && NumbersFit(f + g, a + b, false, room, |behind|)
    requires NumbersFit(g, b, false, room - Advance(f, a, false, room), |behind|)
    ensures Behind(f + g, a + b, false, room, behind)
      == Behind(g, b, false, room - Advance(f, a, false, room), Behind(f, a, false, room, behind))
    decreases |f|
  {
    hide Converted, Suits, Taken, Spilt;
    if f == [] {
      assert f + g == g && a + b == b;
    } else if f[0] != '%' {
      assert (f + g)[1..] == f[1..] + g;
      BehindConcat(f[1..], g, a, b, room - 1, behind);
    } else {
      assert (f + g)[2..] == f[2..] + g && (f + g)[..2] == f[..2];
      if IsConversion(f[1]) {
        assert (a + b)[1..] == a[1..] + b && (a + b)[0] == a[0];
        BehindConcat(f[2..], g, a[1..], b, room - Taken(f[1], a[0], room), Spilt(f[1], a[0], room, behind));
      } else {
        BehindConcat(f[2..], g, a, b, room - 2, behind);
      }
    }
  }

  // ---------- the parts of a format, one by one ----------

  // Text without percent signs, and a percent sign with a character that is no conversion.
  lemma TextPart(f: string, args: seq<Arg>, width: bool, room: int)
    requires forall i | 0 <= i < |f| :: f[i] != '%'
    ensures Complete(f) && Supplied(f, args, width) && NoWidth(f) && Needed(f) == 0
    ensures Output(f, args, width) == f && Advance(f, args, width, room) == |f|
    decreases |f|
  {
    if f != [] { TextPart(f[1..], args, width, room - 1); }
  }

  lemma OtherPart(c: char, args: seq<Arg>, width: bool, room: int)
    requires c !in {'c', 's', 'o', 'x', 'X', 'd', 'i', 'u'}
    ensures var f := ['%', c];
      && Complete(f) && Supplied(f, args, width) && (NoWidth(f) <==> c != 'l') && Needed(f) == 0
      && Output(f, args, width) == f && Advance(f, args, width, room) == 2
  {
    Directed(c);
  }

  lemma Directed(c: char)
    ensures ['%', c][2..] == [] && ['%', c][..2] == ['%', c] && Complete([]) && Complete(['%', c])
  {
    assert ['%', c][2..] == [];
  }

  // A string is shown as it is and stops at the end of the buffer.
  lemma StringPart(t: string, room: int)
    ensures var f, a := "%s", [Text(t)];
      && Complete(f) && Supplied(f, a, false) && NoWidth(f) && Needed(f) == 1
      && Output(f, a, false) == t
      && Advance(f, a, false, room) == (if |t| <= room then |t| else if room >= 0 then room else 0)
      && forall spare: nat :: NumbersFit(f, a, false, room, spare)
  {
    Directed('s');
    assert [Text(t)][1..] == [] && t + [] == t;
  }

  // A character is the low byte of its argument.
  lemma CharacterPart(w: nat, room: int)
    requires w < 0x100000000
    ensures var f, a := "%c", [Word(w)];
      && Complete(f) && Supplied(f, a, false) && NoWidth(f) && Needed(f) == 1
      && Output(f, a, false) == [(w % 256) as char] && Advance(f, a, false, room) == 1
      && forall spare: nat :: NumbersFit(f, a, false, room, spare)
  {
    Directed('c');
    assert [Word(w)][1..] == [];
  }

  // How a number is shown.
  function NumberText(c: char, w: nat): string
    requires w < 0x100000000
  {
    match c
    case 'o' => "0" + Digits(w, 8)
    case 'x' => "0x" + Digits(w, 16)
    case 'X' => "0x" + Digits(w, 16)
    case 'u' => Digits(w, 10)
    case _ => if w < 0x80000000 then Digits(w, 10) else "-" + Digits(0x100000000 - w, 10)
  }

  // A number is counted in full and written over what stands where it reaches behind the
  // buffer.
  lemma NumberPart(c: char, w: nat, room: int, behind: seq<char>)
    requires c in {'o', 'x', 'X', 'd', 'i', 'u'} && w < 0x100000000
    ensures var f, a, t := ['%', c], [Word(w)], NumberText(c, w);
      && Complete(f) && Supplied(f, a, false) && NoWidth(f) && Needed(f) == 1
      && Output(f, a, false) == t && Advance(f, a, false, room) == |t|
      && (NumbersFit(f, a, false, room, |behind|) <==> |t| <= room + |behind|)
      && (|t| <= room + |behind| ==>
            forall j | 0 <= j < |behind| ::
              Behind(f, a, false, room, behind)[j] == if 0 <= room + j < |t| then t[room + j] else behind[j])
  {
    Directed(c);
    assert [Word(w)][1..] == [];
    ConvertedNumber(c, w);
    hide Digits, Converted;
    var t := NumberText(c, w);
    assert t + [] == t;
    if |t| <= room + |behind| { OverlayAt(behind, t, room); }
  }

  lemma ConvertedNumber(c: char, w: nat)
    requires c in {'o', 'x', 'X', 'd', 'i', 'u'} && w < 0x100000000
    ensures Suits(c, Word(w)) && Converted(c, Word(w)) == NumberText(c, w)
    ensures Directive(c, Flags(0, 0, false)).kind != TYPE_STR && IsNumber(c)
  {
    hide Digits;
  }

  lemma OverlayAt(b: seq<char>, text: string, room: int)
    requires |text| <= room + |b| && text != []
    ensures forall j | 0 <= j < |b| ::
      Overlay(b, text, room)[j] == if 0 <= room + j < |text| then text[room + j] else b[j]
  {
  }

  // Digits are lower-case, below the base, and do not start with a zero but for zero itself.
  lemma {:induction false} DigitsShape(n: nat, base: nat)
    requires 2 <= base <= 16
    ensures forall c | c in Digits(n, base) :: '0' <= c <= '9' || 'a' <= c <= 'f'
    ensures forall c | c in Digits(n, base) :: DigitValue(c) < base
    ensures Digits(n, base)[0] == '0' ==> n == 0 && Digits(n, base) == "0"
    decreases n
  {
    if n < base {
      assert forall c | c in Digits(n, base) :: c == DIGITS[n];
      DigitBack(n);
    } else {
      hide Quot, Rem;
      DigitsShape(Quot(n, base), base);
      DigitBack(Rem(n, base));
      var t := Digits(Quot(n, base), base);
      assert Digits(n, base) == t + [DIGITS[Rem(n, base)]];
      hide Digits;
    }
  }

  // A format without its conversions.
  function Stripped(fmt: string): string
    requires Complete(fmt)
  {
    if fmt == [] then []
    else if fmt[0] != '%' then [fmt[0]] + Stripped(fmt[1..])
    else if IsConversion(fmt[1]) then Stripped(fmt[2..])
    else fmt[..2] + Stripped(fmt[2..])
  }

  // After an l, conversions show nothing and take no argument.
  lemma {:induction false} SilentOutput(fmt: string, args: seq<Arg>)
    requires Complete(fmt)
    ensures Supplied(fmt, args, true) && Output(fmt, args, true) == Stripped(fmt)
    decreases |fmt|
  {
    if fmt != [] {
      SilentOutput(fmt[if fmt[0] != '%' then 1 else 2..], args);
    }
  }

  // A format in whose first part some directive has an l shows that part as ever, and the
  // rest without its conversions, whatever arguments are left.
  lemma {:induction false} WidthSilences(f: string, g: string, args: seq<Arg>)
    requires Complete(f) && Complete(g) && !NoWidth(f) && Supplied(f, args, false)
    ensures Complete(f + g) && Supplied(f + g, args, false)
    ensures Output(f + g, args, false) == Output(f, args, false) + Stripped(g)
    decreases |f|
  {
    hide Converted, Suits;
    if f[0] != '%' {
      assert (f + g)[1..] == f[1..] + g;
      WidthSilences(f[1..], g, args);
    } else {
      assert (f + g)[2..] == f[2..] + g && (f + g)[..2] == f[..2];
      if f[1] == 'l' {
        SilentJoin(f[2..], g, args);
      } else if IsConversion(f[1]) {
        WidthSilences(f[2..], g, args[1..]);
      } else {
        WidthSilences(f[2..], g, args);
      }
    }
  }

  // What is counted after an l, in the same way.
  lemma {:induction false} AdvanceSilent(fmt: string, args: seq<Arg>, room: int)
    requires Complete(fmt) && Supplied(fmt, args, true)
    ensures Advance(fmt, args, true, room) == |Stripped(fmt)|
    decreases |fmt|
  {
    if fmt != [] {
      if fmt[0] != '%' {
        AdvanceSilent(fmt[1..], args, room - 1);
      } else {
        AdvanceSilent(fmt[2..], args, if IsConversion(fmt[1]) then room else room - 2);
      }
    }
  }

  lemma {:induction false} AdvanceSilences(f: string, g: string, args: seq<Arg>, room: int)
    requires Complete(f) && Complete(g) && !NoWidth(f) && Supplied(f, args, false)
    requires Complete(f + g) && Supplied(f + g, args, false)
    ensures Advance(f + g, args, false, room) == Advance(f, args, false, room) + |Stripped(g)|
    decreases |f|
  {
    hide Converted, Suits, Taken;
    if f[0] != '%' {
      assert (f + g)[1..] == f[1..] + g;
      AdvanceSilences(f[1..], g, args, room - 1);
    } else {
      assert (f + g)[2..] == f[2..] + g && (f + g)[..2] == f[..2];
      if f[1] == 'l' {
        StrippedConcat(f[2..], g);
        SilentOutput(f[2..], args);
        AdvanceSilent(f[2..] + g, args, room - 2);
        AdvanceSilent(f[2..], args, room - 2);
      } else if IsConversion(f[1]) {
        AdvanceSilences(f[2..], g, args[1..], room - Taken(f[1], args[0], room));
      } else {
        AdvanceSilences(f[2..], g, args, room - 2);
      }
    }
  }

  lemma SilentJoin(f: string, g: string, args: seq<Arg>)
    requires Complete(f) && Complete(g)
    ensures Complete(f + g) && Supplied(f + g, args, true) && Supplied(f, args, true)
    ensures Output(f + g, args, true) == Output(f, args, true) + Stripped(g)
  {
    StrippedConcat(f, g);
    SilentOutput(f, args);
    SilentOutput(f + g, args);
  }

  lemma {:induction false} StrippedConcat(f: string, g: string)
    requires Complete(f) && Complete(g)
    ensures Complete(f + g) && Stripped(f + g) == Stripped(f) + Stripped(g)
    decreases |f|
  {
    if f == [] {
      assert f + g == g;
      hide Stripped, Complete;
      assert [] + Stripped(g) == Stripped(g);
    } else {
      var n := if f[0] != '%' then 1 else 2;
      assert (f + g)[n..] == f[n..] + g && (f + g)[..n] == f[..n] && |f + g| >= n;
      assert f[0] == '%' ==> (f + g)[1] == f[1];
      StrippedConcat(f[n..], g);
      StrippedStep(f);
      StrippedStep(f + g);
      hide Stripped, Complete;
      Associate(Piece(f), Stripped(f[n..]), Stripped(g));
    }
  }

  // The first character, or the first directive unless it is a conversion.
  function Piece(fmt: string): string
    requires fmt != [] && Complete(fmt)
  {
    if fmt[0] != '%' then [fmt[0]] else if IsConversion(fmt[1]) then [] else fmt[..2]
  }

  lemma StrippedStep(fmt: string)
    requires fmt != []
    ensures fmt[0] != '%' ==> (Complete(fmt) <==> Complete(fmt[1..]))
    ensures fmt[0] == '%' && |fmt| >= 2 ==> (Complete(fmt) <==> Complete(fmt[2..]))
    ensures Complete(fmt) ==>
      var n := if fmt[0] != '%' then 1 else 2;
      && n <= |fmt| && Complete(fmt[n..]) && Stripped(fmt) == Piece(fmt) + Stripped(fmt[n..])
  {
    if Complete(fmt) && fmt[0] == '%' && IsConversion(fmt[1]) {
      assert [] + Stripped(fmt[2..]) == Stripped(fmt[2..]);
    }
  }

  lemma NoMore(fmt: string, args: seq<Arg>, width: bool, room: int, b: seq<char>)
    requires fmt == [] && Complete(fmt) && Supplied(fmt, args, width)
    ensures Output(fmt, args, width) == [] && Advance(fmt, args, width, room) == 0
    ensures NumbersFit(fmt, args, width, room, |b|) && Behind(fmt, args, width, room, b) == b
  {
  }

  lemma Pow2Word()
    ensures Pow2(32) == WORD_RANGE
  {
    Pow2Small();
    assert Pow2(12) == 16 * Pow2(8);
    assert Pow2(16) == 16 * Pow2(12);
    assert Pow2(20) == 16 * Pow2(16);
    assert Pow2(24) == 16 * Pow2(20);
    assert Pow2(28) == 16 * Pow2(24);
    assert Pow2(32) == 16 * Pow2(28);
  }

  lemma NothingYet(whole: string)
    ensures whole + Backwards([]) == whole
  {
  }

  lemma DigitsStep(num: nat, base: nat, done: string)
    requires 2 <= base <= 16
    ensures var d := DIGITS[Rem(num, base)]; var q := Quot(num, base);
      && (if q != 0 then Digits(q, base) else "") + Backwards(done + [d]) == Digits(num, base) + Backwards(done)
      && |Digits(num, base)| == 1 + (if q != 0 then |Digits(q, base)| else 0)
      && (q != 0 ==> q < num)
  {
    hide Quot, Rem, Digits, Backwards;
    var d, b := DIGITS[Rem(num, base)], Backwards(done);
    BackwardsGrows(done, d);
    DigitsUnfold(num, base);
    if Quot(num, base) != 0 {
      Associate(Digits(Quot(num, base), base), [d], b);
    } else {
      assert "" + ([d] + b) == [d] + b;
    }
  }

  lemma DigitsUnfold(num: nat, base: nat)
    requires 2 <= base <= 16
    ensures Quot(num, base) == 0 ==> Digits(num, base) == [DIGITS[Rem(num, base)]]
    ensures Quot(num, base) != 0 ==>
      Quot(num, base) < num && Digits(num, base) == Digits(Quot(num, base), base) + [DIGITS[Rem(num, base)]]
  {
    hide Quot, Rem;
    if num < base { RemUnique(num, base, 0, num); }
  }

  lemma Associate(a: string, b: string, c: string)
    ensures a + (b + c) == a + b + c
  {
  }

  lemma PrefixParts(base: nat, d: string)
    ensures base == 8 ==> ['0'] + d == Prefix(base) + d
    ensures base == 16 ==> ['0'] + (['x'] + d) == Prefix(base) + d
    ensures base == 2 ==> ['0'] + (['b'] + d) == Prefix(base) + d
    ensures base !in {2, 8, 16} ==> d == Prefix(base) + d
  {
  }
}
