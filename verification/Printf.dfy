/**
 What the formatter and the scanner of usr/pub/printf.c mean: the text a format produces and the
 values a format reads, and that integers survive the trip from one to the other.

 An argument read as an integer is a 64-bit word, read as a string pointer a text or null; the text
 of a floating-point argument is taken as given.
 */
module Printf {
  import opened Common

  const W64: nat := 0x1_0000_0000_0000_0000
  const W32: nat := 0x1_0000_0000
  const W16: nat := 0x1_0000

  type Word = w: nat | w < W64

  datatype Arg = Arg(word: Word, text: Option<string>, float: string)

  // ---- conversions ----

  datatype Conv =
    | Char | Str | Percent | Float
    | Signed(width: nat) | Unsigned(width: nat) | SignExtended
    | Hex(width: nat, upper: bool, header: bool)
    | Octal(width: nat, header: bool)
    | Nothing

  function First(f: string): (c: char) {
    if f == [] then '\0' else f[0]
  }

  function Integer(c: char, width: nat, header: bool): (r: Conv) {
    if c == 'd' || c == 'i' then Signed(width)
    else if c == 'u' then if width == W32 then SignExtended else Unsigned(width)
    else if c == 'x' then Hex(width, false, header)
    else if c == 'X' then Hex(width, true, header)
    else if c == 'o' then Octal(width, header)
    else Nothing
  }

  /** A conversion with optional length letter, and how many characters it takes. */
  function ParseInteger(f: string, header: bool): (r: (Conv, nat))
    ensures r.1 <= |f| && (r.0 != Nothing ==> r.1 > 0)
  {
    var c := First(f);
    if c == 'h' || c == 'l' then
      var v := Integer(First(f[1..]), if c == 'h' then W16 else W64, header);
      (v, if v == Nothing then 1 else 2)
    else
      var v := Integer(c, W32, header);
      (v, if v == Nothing then 0 else 1)
  }

  /** The conversion after a percent sign. */
  function Parse(f: string): (r: (Conv, nat))
    ensures r.1 <= |f|
  {
    match First(f)
    case 'c' => (Char, 1)
    case 's' => (Str, 1)
    case '%' => (Percent, 1)
    case 'p' => (Hex(W64, false, true), 1)
    case 'f' => (Float, 1)
    case '#' => var (c, n) := ParseInteger(f[1..], true); (c, n + 1)
    case _ => ParseInteger(f, false)
  }

  function Digit(d: nat, upper: bool): (c: char)
    requires d < 16
  {
    if upper then "0123456789ABCDEF"[d] else "0123456789abcdef"[d]
  }

  function Quot(v: nat, base: nat): (q: nat)
    requires base >= 2
    ensures v >= base ==> q < v
  {
    v / base
  }

  function Rem(v: nat, base: nat): (r: nat)
    requires base >= 2
    ensures r < base
  {
    v % base
  }

  /** One more digit, in 64-bit arithmetic. */
  function Shift(acc: nat, base: nat, d: nat): (v: nat) {
    (acc * base + d) % W64
  }

  lemma ShiftBack(v: nat, base: nat)
    requires base >= 2 && v < W64
    ensures Shift(Quot(v, base), base, Rem(v, base)) == v
  {
    assert (v / base) * base + v % base == v;
  }

  lemma ShiftZero(d: nat, base: nat)
    requires d < W64
    ensures Shift(0, base, d) == d
  {
  }

  /** The digits of v, most significant first. */
  function Digits(v: nat, base: nat, upper: bool): (s: string)
    requires 2 <= base <= 16
    ensures s != []
  {
    if v < base then [Digit(v, upper)] else Digits(Quot(v, base), base, upper) + [Digit(Rem(v, base), upper)]
  }

  function AsSigned(w: nat, width: nat): (v: int)
    requires width > 0
  {
    var x := w % width;
    if 2 * x < width then x else x - width
  }

  function Decimal(v: int): (s: string) {
    if v < 0 then "-" + Digits(-v, 10, false) else Digits(v, 10, false)
  }

  /** An int read as unsigned long: the upper half repeats the sign. */
  function Extend(w: nat): (v: nat) {
    AsSigned(w, W32) % W64
  }

  function Text(c: Conv, a: Arg): (s: string) {
    match c
    case Char => [(a.word % 256) as char]
    case Str => if a.text.None? then "(null)" else a.text.value
    case Percent => "%"
    case Float => a.float
    case Signed(width) => if width > 0 then Decimal(AsSigned(a.word, width)) else ""
    case Unsigned(width) => if width > 0 then Digits(a.word % width, 10, false) else ""
    case SignExtended => Digits(Extend(a.word), 10, false)
    case Hex(width, upper, header) => (if header then "0x" else "") + if width > 0 then Digits(a.word % width, 16, upper) else ""
    case Octal(width, header) => (if header then "0" else "") + if width > 0 then Digits(a.word % width, 8, false) else ""
    case Nothing => ""
  }

  predicate Takes(c: Conv) { c != Percent && c != Nothing }

  /** The text of a format, without any limit; k arguments have been used. */
  function Output(fmt: string, args: nat -> Arg, k: nat): (s: string)
    decreases |fmt|
  {
    if fmt == [] then ""
    else if fmt[0] != '%' then [fmt[0]] + Output(fmt[1..], args, k)
    else
      var (c, n) := Parse(fmt[1..]);
      Text(c, args(k)) + Output(fmt[1 + n..], args, if Takes(c) then k + 1 else k)
  }

  // ---- scanning ----

  predicate IsSpace(c: char) { c in " \t\n\r\U{c}\U{b}" }

  /** The value of a digit character; letters count as digits up to f. */
  function DigitValue(c: char): (r: Option<nat>) {
    if '0' <= c <= '9' then Some((c - '0') as nat)
    else if 'a' <= c <= 'f' then Some((c - 'a') as nat + 10)
    else if 'A' <= c <= 'F' then Some((c - 'A') as nat + 10)
    else None
  }

  predicate IsDigit(c: char, base: nat) {
    DigitValue(c).Some? && DigitValue(c).value < base
  }

  /** How many digits s starts with. */
  function Used(s: string, base: nat): (n: nat)
    ensures n <= |s|
  {
    if s == [] || !IsDigit(s[0], base) then 0 else 1 + Used(s[1..], base)
  }

  /** The number they stand for, in 64-bit arithmetic, after acc. */
  function Value(acc: nat, s: string, base: nat): (v: nat)
    decreases |s|
  {
    if s == [] || !IsDigit(s[0], base) then acc else Value(Shift(acc, base, DigitValue(s[0]).value), s[1..], base)
  }

  lemma {:induction false} ValueConcat(acc: nat, a: string, b: string, base: nat)
    requires forall i :: 0 <= i < |a| ==> IsDigit(a[i], base)
    ensures Value(acc, a + b, base) == Value(Value(acc, a, base), b, base) && Used(a + b, base) == |a| + Used(b, base)
    decreases |a|
  {
    hide DigitValue, Shift;
    if a == [] {
      assert a + b == b;
    } else {
      assert (a + b)[1..] == a[1..] + b && (a + b)[0] == a[0];
      ValueConcat(Shift(acc, base, DigitValue(a[0]).value), a[1..], b, base);
    }
  }

  lemma DigitRead(d: nat, upper: bool, base: nat)
    requires d < base <= 16
    ensures IsDigit(Digit(d, upper), base) && DigitValue(Digit(d, upper)) == Some(d)
    ensures !IsSpace(Digit(d, upper)) && Digit(d, upper) !in "+-%"
  {
  }

  /** A digit of the given base, and nothing the scanner treats specially. */
  predicate Plain(c: char, base: nat) {
    IsDigit(c, base) && !IsSpace(c) && c !in "+-%"
  }

  lemma {:induction false} DigitsProper(v: nat, base: nat, upper: bool)
    requires 2 <= base <= 16
    ensures forall i :: 0 <= i < |Digits(v, base, upper)| ==> Plain(Digits(v, base, upper)[i], base)
  {
    hide Plain, Digit, Quot, Rem;
    if v < base {
      DigitPlain(v, upper, base);
    } else {
      DigitPlain(Rem(v, base), upper, base);
      DigitsProper(Quot(v, base), base, upper);
    }
  }

  lemma DigitPlain(d: nat, upper: bool, base: nat)
    requires d < base <= 16
    ensures Plain(Digit(d, upper), base)
  {
    DigitRead(d, upper, base);
  }

  /** Reading the digits of a 64-bit number gives it back. */
  lemma {:induction false} ValueOfDigits(v: nat, base: nat, upper: bool)
    requires 2 <= base <= 16 && v < W64
    ensures Value(0, Digits(v, base, upper), base) == v
            && Used(Digits(v, base, upper), base) == |Digits(v, base, upper)|
  {
    hide Value, Used, Digit, Quot, Rem, Shift, Plain;
    if v < base {
      ValueOfDigit(0, v, base, upper);
      ShiftZero(v, base);
    } else {
      var a, d := Digits(Quot(v, base), base, upper), Digit(Rem(v, base), upper);
      ValueOfDigits(Quot(v, base), base, upper);
      AllDigits(Quot(v, base), base, upper);
      ValueConcat(0, a, [d], base);
      ValueOfDigit(Quot(v, base), Rem(v, base), base, upper);
      ShiftBack(v, base);
    }
  }

  lemma AllDigits(v: nat, base: nat, upper: bool)
    requires 2 <= base <= 16
    ensures forall i :: 0 <= i < |Digits(v, base, upper)| ==> IsDigit(Digits(v, base, upper)[i], base)
  {
    hide Digits;
    DigitsProper(v, base, upper);
  }

  lemma ValueOfDigit(acc: nat, d: nat, base: nat, upper: bool)
    requires d < base <= 16
    ensures Value(acc, [Digit(d, upper)], base) == Shift(acc, base, d) && Used([Digit(d, upper)], base) == 1
  {
    hide IsDigit, Digit, DigitValue, Shift;
    DigitRead(d, upper, base);
  }

  datatype Item = Number(value: int) | Field(text: string) | Letter(c: char)

  function Skip(s: string): (r: string)
    ensures |r| <= |s| && (r != [] ==> !IsSpace(r[0]))
  {
    if s == [] || !IsSpace(s[0]) then s else Skip(s[1..])
  }

  /** A length modifier and the characters it takes: 0 for int, 1 and 2 for 64 bits. */
  function Modifier(f: string): (r: (nat, nat))
    ensures r.1 <= |f|
  {
    if First(f) == 'h' then (0, 1)
    else if First(f) == 'l' then if First(f[1..]) == 'l' then (2, 2) else (1, 1)
    else (0, 0)
  }

  function Sign(s: string): (r: (bool, string))
    ensures |r.1| <= |s|
  {
    if First(s) == '+' then (false, s[1..]) else if First(s) == '-' then (true, s[1..]) else (false, s)
  }

  /** The base %i takes from the prefix, and the text after 0x. */
  function Prefix(s: string): (r: (nat, string))
    ensures 2 <= r.0 <= 16 && |r.1| <= |s|
  {
    if First(s) != '0' then (10, s)
    else if First(s[1..]) == 'x' || First(s[1..]) == 'X' then (16, s[2..])
    else (8, s)
  }

  /** The digits a conversion reads: sign, base and text. */
  function Lead(c: char, s: string): (r: (bool, nat, string))
    requires c in "diuxXop"
    ensures 2 <= r.1 <= 16 && |r.2| <= |s|
  {
    if c == 'd' then (Sign(s).0, 10, Sign(s).1)
    else if c == 'i' then (Sign(s).0, Prefix(Sign(s).1).0, Prefix(Sign(s).1).1)
    else if c == 'u' then (false, 10, s)
    else if c == 'o' then (false, 8, s)
    else (false, 16, s)
  }

  /** What is stored for the number u: signed conversions negate in 64 bits; int targets keep 32 bits. */
  function Stored(c: char, mod: nat, negative: bool, u: nat): (v: int) {
    if c == 'd' || c == 'i' then
      var v := if negative then AsSigned((W64 - u % W64) % W64, W64) else AsSigned(u, W64);
      if mod == 0 then AsSigned(v % W32, W32) else v
    else if mod == 0 && c != 'p' then u % W32 else u
  }

  function FieldLength(s: string): (n: nat)
    ensures n <= |s|
  {
    if s == [] || IsSpace(s[0]) then 0 else 1 + FieldLength(s[1..])
  }

  /** What vsscanf stores, in order. */
  function Scan(f: string, s: string): (r: seq<Item>)
    decreases |f|
  {
    if f == [] || s == [] then []
    else if IsSpace(f[0]) then Scan(Skip(f[1..]), Skip(s))
    else if f[0] != '%' then if f[0] != s[0] then [] else Scan(f[1..], s[1..])
    else if First(f[1..]) == '%' then if s[0] != '%' then [] else Scan(f[2..], s[1..])
    else
      var (mod, n) := Modifier(f[1..]);
      var g := f[1 + n..];
      var c := First(g);
      var t := if c == 'c' then s else Skip(s);
      if g == [] || t == [] then []
      else if c in "diuxXop" then
        var (negative, base, digits) := Lead(c, t);
        if Used(digits, base) == 0 then []
        else [Number(Stored(c, mod, negative, Value(0, digits, base)))] + Scan(g[1..], digits[Used(digits, base)..])
      else if c == 's' then [Field(t[..FieldLength(t)])] + Scan(g[1..], t[FieldLength(t)..])
      else if c == 'c' then [Letter(t[0])] + Scan(g[1..], t[1..])
      else Scan(g[1..], t)
  }

  /** A single %l conversion reads exactly one number. */
  lemma ScanLong(c: char, s: string)
    requires c in "diuxXo" && s != [] && !IsSpace(s[0])
    ensures var (negative, base, digits) := Lead(c, s);
            Used(digits, base) > 0 ==> Scan(['%', 'l', c], s) == [Number(Stored(c, 1, negative, Value(0, digits, base)))]
  {
    hide Used, Value, Stored, Lead;
    var f := ['%', 'l', c];
    assert !IsSpace('%') && f[1..] == ['l', c] && f[1..][1..] == [c] && f[2..] == [c] && [c][1..] == [];
    assert Skip(s) == s;
    var (negative, base, digits) := Lead(c, s);
    assert Scan([], digits[Used(digits, base)..]) == [];
  }

  // ---- the round trips ----

  /** The text of one %l conversion of the word w. */
  function Printed(letters: string, w: Word): (s: string) {
    Output("%" + letters, OnlyArg(w), 0)
  }

  function OnlyArg(w: Word): (args: nat -> Arg) {
    (k: nat) => Arg(w, None, "")
  }

  lemma PrintedIs(letters: string, w: Word, c: Conv)
    requires Parse(letters) == (c, |letters|)
    ensures Printed(letters, w) == Text(c, Arg(w, None, ""))
  {
    var fmt := "%" + letters;
    assert fmt[1..] == letters && fmt[1 + |letters|..] == [] && fmt[0] == '%';
    assert Output(fmt, OnlyArg(w), 0) == Text(c, OnlyArg(w)(0)) + "";
    assert Text(c, Arg(w, None, "")) + "" == Text(c, Arg(w, None, ""));
  }

  /** Unsigned conversions: lu with lu, lx with lx, lo with lo. */
  lemma UnsignedRoundTrip(w: Word)
    ensures Scan("%lu", Printed("lu", w)) == [Number(w)]
    ensures Scan("%lx", Printed("lx", w)) == [Number(w)]
    ensures Scan("%lx", Printed("lX", w)) == [Number(w)]
    ensures Scan("%lo", Printed("lo", w)) == [Number(w)]
  {
    DecimalRoundTrip(w);
    HexRoundTrip(w, false);
    HexRoundTrip(w, true);
    OctalRoundTrip(w);
  }

  lemma DecimalRoundTrip(w: Word)
    ensures Scan("%lu", Printed("lu", w)) == [Number(w)]
  {
    hide Scan, Digits;
    PrintedIs("lu", w, Unsigned(W64));
    ReadPlain('u', w, 10, false);
  }

  lemma HexRoundTrip(w: Word, upper: bool)
    ensures Scan("%lx", Printed(if upper then "lX" else "lx", w)) == [Number(w)]
  {
    hide Scan, Digits;
    PrintedIs(if upper then "lX" else "lx", w, Hex(W64, upper, false));
    ReadPlain('x', w, 16, upper);
  }

  lemma OctalRoundTrip(w: Word)
    ensures Scan("%lo", Printed("lo", w)) == [Number(w)]
  {
    hide Scan, Digits;
    PrintedIs("lo", w, Octal(W64, false));
    ReadPlain('o', w, 8, false);
  }

  lemma ReadPlain(c: char, w: Word, base: nat, upper: bool)
    requires (c, base) in {('u', 10), ('x', 16), ('o', 8)}
    ensures Scan(['%', 'l', c], Digits(w, base, upper)) == [Number(w)]
            && "" + Digits(w, base, upper) == Digits(w, base, upper)
  {
    hide Scan, Digits, Value, Used, IsSpace;
    DigitsProper(w, base, upper);
    ValueOfDigits(w, base, upper);
    ScanLong(c, Digits(w, base, upper));
  }

  /** Signed decimal: ld with ld, for every 64-bit pattern. */
  lemma SignedRoundTrip(w: Word)
    ensures Scan("%ld", Printed("ld", w)) == [Number(AsSigned(w, W64))]
  {
    hide Scan, Digits, IsSpace, Value, Used, Plain;
    PrintedIs("ld", w, Signed(W64));
    var v := AsSigned(w, W64);
    var u: nat := if v < 0 then -v else v;
    DigitsProper(u, 10, false);
    ValueOfDigits(u, 10, false);
    var s := Decimal(v);
    if v < 0 {
      assert s[1..] == Digits(u, 10, false) && s[0] == '-';
      NotSpace();
    } else {
      PlainLead(s[0], 10);
    }
    assert Lead('d', s) == (v < 0, 10, Digits(u, 10, false));
    ScanLong('d', s);
    NegationExact(w);
  }

  lemma NotSpace()
    ensures !IsSpace('-') && !IsSpace('0') && !IsSpace('%')
  {
  }

  lemma PlainLead(c: char, base: nat)
    requires Plain(c, base)
    ensures !IsSpace(c) && c != '+' && c != '-'
  {
  }

  /** Two's complement: the printed magnitude, negated as the scanner does, is the value. */
  lemma NegationExact(w: Word)
    ensures var v := AsSigned(w, W64);
            Stored('d', 1, v < 0, if v < 0 then -v else v) == v
  {
  }

  /** With the # flag, %li reads hexadecimal and octal back by their prefixes, as a 64-bit pattern. */
  lemma PrefixedRoundTrip(w: Word)
    ensures Scan("%li", Printed("#lx", w)) == [Number(AsSigned(w, W64))]
    ensures Scan("%li", Printed("#lo", w)) == [Number(AsSigned(w, W64))]
  {
    hide Scan, Digits, IsSpace, Value, Used, Plain, DigitValue;
    PrintedIs("#lx", w, Hex(W64, false, true));
    PrintedIs("#lo", w, Octal(W64, true));
    NotSpace();
    var x, o := "0x" + Digits(w, 16, false), "0" + Digits(w, 8, false);
    ValueOfDigits(w, 16, false);
    assert Lead('i', x) == (false, 16, Digits(w, 16, false)) by { assert x[1..][0] == 'x' && x[2..] == Digits(w, 16, false); }
    ScanLong('i', x);
    LeadingZero(w);
    assert Lead('i', o) == (false, 8, o) by {
      DigitsProper(w, 8, false);
      NotAnX(Digits(w, 8, false)[0]);
      assert o[1..] == Digits(w, 8, false);
    }
    ScanLong('i', o);
  }

  lemma NotAnX(c: char)
    requires Plain(c, 8)
    ensures c != 'x' && c != 'X'
  {
  }

  /** A zero in front changes no value. */
  lemma LeadingZero(w: Word)
    ensures var s := "0" + Digits(w, 8, false); Value(0, s, 8) == w && Used(s, 8) > 0
  {
    hide Digits, Shift;
    ValueOfDigits(w, 8, false);
    var s := "0" + Digits(w, 8, false);
    assert s[1..] == Digits(w, 8, false);
    ShiftZero(0, 8);
  }
}
