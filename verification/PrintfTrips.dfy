/**
 The round trips of the conversions for int, short, strings and characters of usr/pub/printf.c, and how a format's
 conversions take its arguments.
 */
module PrintfTrips {
  import opened Common
  import opened Printf

  /** White space is the blank and the five control characters from tab to carriage return. */
  lemma Spaces(c: char)
    ensures IsSpace(c) <==> c as int == 32 || 9 <= c as int <= 13
  {
    assert " \t\n\r\U{c}\U{b}" == [32 as char, 9 as char, 10 as char, 13 as char, 12 as char, 11 as char];
  }

  /** Two's complement: the number with the given bits that fits a signed type of the width. */
  lemma AsSignedIs(w: Word, width: nat)
    requires width in {W16, W32, W64}
    ensures var v := AsSigned(w, width); 0 <= 2 * v + width < 2 * width && (v == w % width || v == w % width - width)
  {
  }

  /** A conversion reads exactly one number. */
  lemma ScanNumber(m: string, c: char, s: string)
    requires m in {"", "h", "l"} && c in "diuxXo" && s != [] && !IsSpace(s[0])
    ensures var (negative, base, digits) := Lead(c, s);
            Used(digits, base) > 0 ==>
              Scan("%" + m + [c], s) == [Number(Stored(c, if m == "l" then 1 else 0, negative, Value(0, digits, base)))]
  {
    hide Used, Value, Stored, Lead;
    var f := "%" + m + [c];
    assert !IsSpace('%') && f[1..] == m + [c] && f[1 + |m|..] == [c] && [c][1..] == [];
    assert Modifier(m + [c]) == (if m == "l" then 1 else 0, |m|);
    assert Skip(s) == s;
    var (negative, base, digits) := Lead(c, s);
    assert Scan([], digits[Used(digits, base)..]) == [];
  }

  /** A number read into an int keeps its low 32 bits. */
  function Kept(m: string, v: int): (r: int) {
    if m == "l" then v else AsSigned(v % W32, W32)
  }

  lemma KeptInt(m: string, w: Word, width: nat)
    requires width in {W16, W32}
    ensures var v := AsSigned(w, width); Kept(m, v) == v && 0 <= 2 * v + W64 < 2 * W64
  {
    var v := AsSigned(w, width);
    assert 0 <= 2 * v + W32 < 2 * W32;
    assert v % W32 == if v < 0 then v + W32 else v;
  }

  /** The decimal text of any 64-bit number, read by %d or %i. */
  lemma DecimalTrip(m: string, c: char, v: int)
    requires m in {"", "h", "l"} && c in "di" && 0 <= 2 * v + W64 < 2 * W64
    ensures Scan("%" + m + [c], Decimal(v)) == [Number(Kept(m, v))]
  {
    hide Scan, Digits, IsSpace, Value, Used, Plain, Stored, Kept;
    var u: nat := if v < 0 then -v else v;
    var t, s := Digits(u, 10, false), Decimal(v);
    DigitsProper(u, 10, false);
    ValueOfDigits(u, 10, false);
    PlainLead(t[0], 10);
    if v < 0 {
      assert s[1..] == t && s[0] == '-';
      NotSpace();
    }
    assert Sign(s) == (v < 0, t);
    ScanNumber(m, c, s);
    StoredSigned(m, c, v);
    if c == 'i' && t[0] == '0' { ZeroOnly(u); }
  }

  lemma StoredSigned(m: string, c: char, v: int)
    requires c in "di" && 0 <= 2 * v + W64 < 2 * W64
    ensures Stored(c, if m == "l" then 1 else 0, v < 0, if v < 0 then -v else v) == Kept(m, v)
  {
  }

  /** The text of a number starts with 0 only if it is "0", which means the same in octal. */
  lemma ZeroOnly(u: nat)
    requires u < W64 && Digits(u, 10, false)[0] == '0'
    ensures u == 0 && Digits(u, 10, false) == "0" && Prefix("0") == (8, "0") && Value(0, "0", 8) == 0
            && Used("0", 8) == 1
  {
    hide Digits, Value, Used;
    if u > 0 { FirstNotZero(u, 10, false); }
    ZeroText();
  }

  lemma ZeroText()
    ensures Digits(0, 10, false) == "0" && Value(0, "0", 8) == 0 && Used("0", 8) == 1
  {
    hide Shift;
    ShiftZero(0, 8);
    assert "0"[1..] == "";
  }

  lemma {:induction false} FirstNotZero(u: nat, base: nat, upper: bool)
    requires u > 0 && 2 <= base <= 16
    ensures Digits(u, base, upper)[0] != '0'
  {
    hide Rem;
    if u >= base {
      QuotPositive(u, base);
      FirstNotZero(Quot(u, base), base, upper);
    }
  }

  lemma QuotPositive(u: nat, base: nat)
    requires u >= base >= 2
    ensures Quot(u, base) > 0
  {
  }

  /** The digits of any 64-bit number, read by the conversion for their base. */
  lemma DigitsTrip(m: string, c: char, base: nat, upper: bool, u: nat)
    requires m in {"", "h", "l"} && (c, base) in {('u', 10), ('x', 16), ('o', 8)} && u < W64
    ensures Scan("%" + m + [c], Digits(u, base, upper)) == [Number(if m == "l" then u else u % W32)]
  {
    hide Scan, Digits, Value, Used, IsSpace;
    DigitsProper(u, base, upper);
    ValueOfDigits(u, base, upper);
    ScanNumber(m, c, Digits(u, base, upper));
  }

  /** The text of one conversion. */
  lemma PrintedText(w: Word)
    ensures Printed("d", w) == Printed("i", w) == Decimal(AsSigned(w, W32))
    ensures Printed("hd", w) == Printed("hi", w) == Decimal(AsSigned(w, W16))
    ensures Printed("u", w) == Digits(Extend(w), 10, false) && Printed("hu", w) == Digits(w % W16, 10, false)
    ensures Printed("x", w) == Digits(w % W32, 16, false) && Printed("hx", w) == Digits(w % W16, 16, false)
    ensures Printed("X", w) == Digits(w % W32, 16, true) && Printed("hX", w) == Digits(w % W16, 16, true)
    ensures Printed("o", w) == Digits(w % W32, 8, false) && Printed("ho", w) == Digits(w % W16, 8, false)
  {
    hide Printed, Digits;
    PrintedIs("d", w, Signed(W32));
    PrintedIs("i", w, Signed(W32));
    PrintedIs("hd", w, Signed(W16));
    PrintedIs("hi", w, Signed(W16));
    PrintedIs("u", w, SignExtended);
    PrintedIs("hu", w, Unsigned(W16));
    PrintedIs("x", w, Hex(W32, false, false));
    PrintedIs("hx", w, Hex(W16, false, false));
    PrintedIs("X", w, Hex(W32, true, false));
    PrintedIs("hX", w, Hex(W16, true, false));
    PrintedIs("o", w, Octal(W32, false));
    PrintedIs("ho", w, Octal(W16, false));
  }

  lemma Formats()
    ensures "%" + "" + ['d'] == "%d" && "%" + "" + ['i'] == "%i" && "%" + "l" + ['d'] == "%ld"
            && "%" + "h" + ['d'] == "%hd"
    ensures "%" + "" + ['u'] == "%u" && "%" + "l" + ['u'] == "%lu" && "%" + "h" + ['u'] == "%hu"
    ensures "%" + "" + ['x'] == "%x" && "%" + "l" + ['x'] == "%lx" && "%" + "h" + ['x'] == "%hx"
    ensures "%" + "" + ['o'] == "%o" && "%" + "l" + ['o'] == "%lo" && "%" + "h" + ['o'] == "%ho"
  {
  }

  /** %d and %i print an int as it is: read back by %d, %i and %ld. */
  lemma IntRoundTrip(w: Word)
    ensures Scan("%d", Printed("d", w)) == [Number(AsSigned(w, W32))]
    ensures Scan("%i", Printed("d", w)) == [Number(AsSigned(w, W32))]
    ensures Scan("%ld", Printed("d", w)) == [Number(AsSigned(w, W32))]
    ensures Scan("%d", Printed("i", w)) == [Number(AsSigned(w, W32))]
  {
    hide Scan, Printed, Decimal, AsSigned, Kept;
    Formats();
    PrintedText(w);
    var v := AsSigned(w, W32);
    KeptInt("", w, W32);
    KeptInt("l", w, W32);
    DecimalTrip("", 'd', v);
    DecimalTrip("", 'i', v);
    DecimalTrip("l", 'd', v);
  }

  /** %x, %X and %o print the 32 bits of an int. */
  lemma IntBitsRoundTrip(w: Word)
    ensures Scan("%x", Printed("x", w)) == Scan("%lx", Printed("x", w)) == [Number(w % W32)]
    ensures Scan("%x", Printed("X", w)) == Scan("%lx", Printed("X", w)) == [Number(w % W32)]
    ensures Scan("%o", Printed("o", w)) == Scan("%lo", Printed("o", w)) == [Number(w % W32)]
  {
    hide Scan, Printed, Digits;
    Formats();
    PrintedText(w);
    DigitsTrip("", 'x', 16, false, w % W32);
    DigitsTrip("l", 'x', 16, false, w % W32);
    DigitsTrip("", 'x', 16, true, w % W32);
    DigitsTrip("l", 'x', 16, true, w % W32);
    DigitsTrip("", 'o', 8, false, w % W32);
    DigitsTrip("l", 'o', 8, false, w % W32);
  }

  /** %u prints an int that is 2^31 or more with 64 bits: %u still reads its 32 bits back, %lu all 64. */
  lemma UnsignedIntRoundTrip(w: Word)
    ensures Scan("%u", Printed("u", w)) == [Number(w % W32)]
    ensures Scan("%lu", Printed("u", w)) ==
            [Number(if w % W32 < 0x8000_0000 then w % W32 else 0xffff_ffff_0000_0000 + w % W32)]
  {
    hide Scan, Printed, Digits, Extend;
    Formats();
    PrintedText(w);
    ExtendIs(w);
    DigitsTrip("", 'u', 10, false, Extend(w));
    DigitsTrip("l", 'u', 10, false, Extend(w));
  }

  lemma ExtendIs(w: Word)
    ensures Extend(w) == if w % W32 < 0x8000_0000 then w % W32 else 0xffff_ffff_0000_0000 + w % W32
    ensures Extend(w) % W32 == w % W32
  {
    var x := w % W32;
    assert AsSigned(w, W32) == if x < 0x8000_0000 then x else x - W32;
    if x >= 0x8000_0000 { assert (x - W32) % W64 == x - W32 + W64; }
  }

  /** The h conversions print 16 bits. */
  lemma ShortRoundTrip(w: Word)
    ensures Scan("%hd", Printed("hd", w)) == Scan("%ld", Printed("hd", w)) == [Number(AsSigned(w, W16))]
    ensures Scan("%hu", Printed("hu", w)) == Scan("%lu", Printed("hu", w)) == [Number(w % W16)]
    ensures Scan("%hx", Printed("hx", w)) == Scan("%lx", Printed("hx", w)) == [Number(w % W16)]
    ensures Scan("%hx", Printed("hX", w)) == [Number(w % W16)]
    ensures Scan("%ho", Printed("ho", w)) == Scan("%lo", Printed("ho", w)) == [Number(w % W16)]
  {
    hide Scan, Printed, Digits, Decimal, AsSigned, Kept;
    Formats();
    PrintedText(w);
    KeptInt("h", w, W16);
    KeptInt("l", w, W16);
    DecimalTrip("h", 'd', AsSigned(w, W16));
    DecimalTrip("l", 'd', AsSigned(w, W16));
    DigitsTrip("h", 'u', 10, false, w % W16);
    DigitsTrip("l", 'u', 10, false, w % W16);
    DigitsTrip("h", 'x', 16, false, w % W16);
    DigitsTrip("l", 'x', 16, false, w % W16);
    DigitsTrip("h", 'x', 16, true, w % W16);
    DigitsTrip("h", 'o', 8, false, w % W16);
    DigitsTrip("l", 'o', 8, false, w % W16);
  }

  /** The # flag puts 0x before hexadecimal digits; %p is %#lx. */
  lemma HexHeaders(w: Word)
    ensures Printed("#x", w) == "0x" + Printed("x", w) && Printed("#X", w) == "0x" + Printed("X", w)
    ensures Printed("#hx", w) == "0x" + Printed("hx", w) && Printed("#lx", w) == "0x" + Printed("lx", w)
    ensures Printed("p", w) == "0x" + Printed("lx", w)
  {
    hide Printed, Digits;
    HexHeader("#x", "x", w, W32, false);
    HexHeader("#X", "X", w, W32, true);
    HexHeader("#hx", "hx", w, W16, false);
    HexHeader("#lx", "lx", w, W64, false);
    HexHeader("p", "lx", w, W64, false);
  }

  lemma HexHeader(a: string, b: string, w: Word, width: nat, upper: bool)
    requires Parse(a) == (Hex(width, upper, true), |a|) && Parse(b) == (Hex(width, upper, false), |b|)
    ensures Printed(a, w) == "0x" + Printed(b, w)
  {
    hide Printed, Parse, Digits;
    PrintedIs(a, w, Hex(width, upper, true));
    PrintedIs(b, w, Hex(width, upper, false));
    assert forall t: string :: "" + t == t;
  }

  /** And 0 before octal digits. */
  lemma OctalHeaders(w: Word)
    ensures Printed("#o", w) == "0" + Printed("o", w) && Printed("#lo", w) == "0" + Printed("lo", w)
  {
    hide Printed, Digits;
    OctalHeader("#o", "o", w, W32);
    OctalHeader("#lo", "lo", w, W64);
  }

  lemma OctalHeader(a: string, b: string, w: Word, width: nat)
    requires Parse(a) == (Octal(width, true), |a|) && Parse(b) == (Octal(width, false), |b|)
    ensures Printed(a, w) == "0" + Printed(b, w)
  {
    hide Printed, Parse, Digits;
    PrintedIs(a, w, Octal(width, true));
    PrintedIs(b, w, Octal(width, false));
    assert forall t: string :: "" + t == t;
  }

  /** Digits are written 0 to 9, then a to f for %x and A to F for %X. */
  lemma {:induction false} LetterCase(v: nat, base: nat, upper: bool)
    requires 2 <= base <= 16
    ensures forall i :: 0 <= i < |Digits(v, base, upper)| ==>
              '0' <= Digits(v, base, upper)[i] <= '9'
              || if upper then 'A' <= Digits(v, base, upper)[i] <= 'F' else 'a' <= Digits(v, base, upper)[i] <= 'f'
  {
    hide Quot, Rem;
    if v >= base { LetterCase(Quot(v, base), base, upper); }
  }

  /** %p does not read back what %p prints: it stops at the x of the prefix. */
  lemma PointerReadsZero(w: Word)
    ensures Scan("%p", Printed("p", w)) == [Number(0)]
    ensures Scan("%li", Printed("p", w)) == [Number(AsSigned(w, W64))]
  {
    hide Scan, Printed, Digits, Value, Used;
    PrintedIs("p", w, Hex(W64, false, true));
    PrintedIs("#lx", w, Hex(W64, false, true));
    PrefixedRoundTrip(w);
    var s := "0x" + Digits(w, 16, false);
    StopsAtX(s);
    ScanPointer(s);
  }

  lemma ScanPointer(s: string)
    requires s != [] && !IsSpace(s[0]) && Used(s, 16) > 0
    ensures Scan("%p", s) == [Number(Value(0, s, 16))]
  {
    hide Used, Value;
    var f := "%p";
    assert !IsSpace('%') && f[1..] == "p" && f[1 + 0..] == "p" && "p"[1..] == [];
    assert Modifier("p") == (0, 0) && Skip(s) == s && Lead('p', s) == (false, 16, s);
    assert Scan([], s[Used(s, 16)..]) == [];
  }

  lemma StopsAtX(s: string)
    requires |s| > 1 && s[0] == '0' && s[1] == 'x'
    ensures Used(s, 16) == 1 && Value(0, s, 16) == 0
  {
    hide Shift;
    ShiftZero(0, 16);
    assert !IsDigit('x', 16) && s[1..][0] == 'x';
  }

  // ---- texts and arguments ----

  /** What %s, %c and %% write. */
  lemma TextConversions(args: nat -> Arg, k: nat)
    ensures Output("%s", args, k) == if args(k).text.None? then "(null)" else args(k).text.value
    ensures Output("%c", args, k) == [(args(k).word % 256) as char]
    ensures Output("%%", args, k) == "%"
  {
    hide Digits, Decimal;
    assert "%s"[1..] == "s" && "%c"[1..] == "c" && "%%"[1..] == "%";
    assert "%s"[2..] == "" && "%c"[2..] == "" && "%%"[2..] == "";
  }

  /** A word that %s writes is read back by %s, a character by %c. */
  lemma TextRoundTrip(t: string, c: char)
    requires t != "" && forall i :: 0 <= i < |t| ==> !IsSpace(t[i])
    ensures Scan("%s", t) == [Field(t)] && Scan("%c", [c]) == [Letter(c)]
  {
    hide Scan, IsSpace;
    WholeField(t);
    ScanWord(t);
    ScanChar(c);
  }

  lemma ScanWord(t: string)
    requires t != "" && !IsSpace(t[0]) && FieldLength(t) == |t|
    ensures Scan("%s", t) == [Field(t)]
  {
    hide FieldLength;
    var f := "%s";
    assert !IsSpace('%') && f[1..] == "s" && f[1 + 0..] == "s" && "s"[1..] == [];
    assert Modifier("s") == (0, 0) && Skip(t) == t && t[..|t|] == t;
    assert Scan([], t[|t|..]) == [];
  }

  lemma ScanChar(c: char)
    ensures Scan("%c", [c]) == [Letter(c)]
  {
    var f := "%c";
    assert !IsSpace('%') && f[1..] == "c" && f[1 + 0..] == "c" && "c"[1..] == [];
    assert Modifier("c") == (0, 0) && Scan([], [c][1..]) == [];
  }

  lemma {:induction false} WholeField(t: string)
    requires forall i :: 0 <= i < |t| ==> !IsSpace(t[i])
    ensures FieldLength(t) == |t|
  {
    if t != [] { WholeField(t[1..]); }
  }

  /** Text without percent signs is copied. */
  lemma {:induction false} PlainText(p: string, rest: string, args: nat -> Arg, k: nat)
    requires '%' !in p
    ensures Output(p + rest, args, k) == p + Output(rest, args, k)
  {
    if p == [] {
      assert p + rest == rest;
    } else {
      assert (p + rest)[1..] == p[1..] + rest;
      PlainText(p[1..], rest, args, k);
      assert p == [p[0]] + p[1..];
    }
  }

  /** A percent sign before a character that starts no conversion is dropped. */
  lemma UnknownDropped(c: char, rest: string, args: nat -> Arg, k: nat)
    requires c !in "cs%pf#hldiuxXo"
    ensures Output(['%', c] + rest, args, k) == [c] + Output(rest, args, k)
  {
    var f := ['%', c] + rest;
    assert f[1..] == [c] + rest && f[1 + 0..] == [c] + rest && ([c] + rest)[1..] == rest;
    assert Parse([c] + rest) == (Nothing, 0);
  }

  /** Whatever follows a conversion, it is the same conversion. */
  lemma ParseThen(letters: string, rest: string)
    requires Parse(letters).0 != Nothing && Parse(letters).1 == |letters|
    ensures Parse(letters + rest) == Parse(letters)
  {
    var f := letters + rest;
    assert letters != [];
    assert First(f) == First(letters) && f[1..] == letters[1..] + rest;
    if |letters| > 1 {
      assert First(f[1..]) == First(letters[1..]) && f[1..][1..] == letters[1..][1..] + rest;
    }
    if |letters| > 2 { assert First(f[1..][1..]) == First(letters[1..][1..]); }
  }

  /** A conversion takes the next argument, and %% takes none. */
  lemma NextArgument(letters: string, rest: string, args: nat -> Arg, k: nat)
    requires Parse(letters).0 != Nothing && Parse(letters).1 == |letters|
    ensures Output("%" + letters + rest, args, k) ==
            Output("%" + letters, args, k) + Output(rest, args, if letters == "%" then k else k + 1)
  {
    hide Text;
    ParseThen(letters, rest);
    var f, g := "%" + letters + rest, "%" + letters;
    assert f[1..] == letters + rest && f[1 + |letters|..] == rest && g[1..] == letters && g[1 + |letters|..] == [];
    PercentOnly(letters);
  }

  lemma PercentOnly(letters: string)
    requires Parse(letters).0 != Nothing && Parse(letters).1 == |letters|
    ensures Takes(Parse(letters).0) <==> letters != "%"
  {
    assert letters != [] && (letters[0] == '%' && |letters| == 1 ==> letters == "%");
  }

  // ---- lists of numbers ----

  /** "%d %d .. %d", n times. */
  function Decimals(n: nat): (f: string) {
    if n == 0 then "" else if n == 1 then "%d" else "%d " + Decimals(n - 1)
  }

  function IntItems(ws: seq<Word>): (r: seq<Item>) {
    if ws == [] then [] else [Number(AsSigned(ws[0], W32))] + IntItems(ws[1..])
  }

  /** Digits are read up to the first character that is none. */
  lemma {:induction false} ReadUpTo(acc: nat, a: string, t: string, base: nat)
    requires (forall i :: 0 <= i < |a| ==> IsDigit(a[i], base)) && (t == [] || !IsDigit(t[0], base))
    ensures Used(a + t, base) == |a| && Value(acc, a + t, base) == Value(acc, a, base)
    decreases |a|
  {
    hide Shift, DigitValue;
    if a == [] {
      assert a + t == t;
    } else {
      assert (a + t)[1..] == a[1..] + t && (a + t)[0] == a[0];
      ReadUpTo(Shift(acc, base, DigitValue(a[0]).value), a[1..], t, base);
    }
  }

  /** One %d at the front of a format reads one number at the front of a text. */
  lemma ScanInFront(v: int, f: string, t: string)
    requires 0 <= 2 * v + W32 < 2 * W32 && (t == [] || t[0] == ' ')
    ensures Scan("%d" + f, Decimal(v) + t) == [Number(v)] + Scan(f, t)
  {
    hide Scan, Digits, IsSpace, Value, Used, Plain, Stored, Kept, IsDigit;
    var u: nat := if v < 0 then -v else v;
    var d, s := Digits(u, 10, false), Decimal(v) + t;
    DigitsProper(u, 10, false);
    AllDigits(u, 10, false);
    ValueOfDigits(u, 10, false);
    PlainLead(d[0], 10);
    BlankIsNoDigit();
    ReadUpTo(0, d, t, 10);
    NotSpace();
    assert s[0] == if v < 0 then '-' else d[0];
    assert Sign(s) == (v < 0, d + t) by { if v < 0 { assert s[1..] == d + t; } else { assert s == d + t; } }
    assert (d + t)[|d|..] == t;
    StoredSigned("", 'd', v);
    KeptSmall(v);
    ScanFront(f, s);
  }

  lemma BlankIsNoDigit()
    ensures !IsDigit(' ', 10)
  {
  }

  lemma KeptSmall(v: int)
    requires 0 <= 2 * v + W32 < 2 * W32
    ensures Kept("", v) == v
  {
    assert v % W32 == if v < 0 then v + W32 else v;
  }

  lemma ScanFront(f: string, s: string)
    requires s != [] && !IsSpace(s[0])
    ensures var (negative, digits) := Sign(s);
            var n := Used(digits, 10);
            n > 0 ==> Scan("%d" + f, s) == [Number(Stored('d', 0, negative, Value(0, digits, 10)))] + Scan(f, digits[n..])
  {
    hide Used, Value, Stored, Sign;
    var g := "%d" + f;
    assert !IsSpace('%') && g[0] == '%' && g[1..] == "d" + f && g[1 + 0..] == "d" + f && ("d" + f)[1..] == f;
    assert Modifier("d" + f) == (0, 0) && First("d" + f) == 'd' && Skip(s) == s;
    assert Lead('d', s) == (Sign(s).0, 10, Sign(s).1);
  }

  lemma DecimalsStart(n: nat)
    requires n > 0
    ensures Decimals(n) != [] && Decimals(n)[0] == '%'
  {
  }

  lemma SignedStart(v: int)
    ensures Decimal(v) != [] && !IsSpace(Decimal(v)[0])
  {
    hide Digits, IsSpace, Plain;
    NotSpace();
    DigitsProper(if v < 0 then -v else v, 10, false);
    PlainLead(Digits(if v < 0 then -v else v, 10, false)[0], 10);
  }

  /** The text of a list of ints: the first number, and a blank before the rest. */
  lemma DecimalsText(n: nat, args: nat -> Arg, k: nat)
    requires n > 0
    ensures var v := AsSigned(args(k).word, W32);
            Output(Decimals(n), args, k) == Decimal(v) + if n == 1 then "" else " " + Output(Decimals(n - 1), args, k + 1)
  {
    hide Output, Decimal, AsSigned;
    IntText(args, k);
    var rest := if n == 1 then "" else " " + Decimals(n - 1);
    assert Decimals(n) == "%" + "d" + rest;
    assert "%" + "d" == "%d";
    NextArgument("d", rest, args, k);
    if n == 1 {
      NoText(args, k + 1);
      assert Decimals(n) == "%d" && Decimal(AsSigned(args(k).word, W32)) + "" == Decimal(AsSigned(args(k).word, W32));
    } else {
      PlainText(" ", Decimals(n - 1), args, k + 1);
    }
  }

  lemma NoText(args: nat -> Arg, k: nat)
    ensures Output("", args, k) == ""
  {
  }

  lemma IntText(args: nat -> Arg, k: nat)
    ensures Output("%d", args, k) == Decimal(AsSigned(args(k).word, W32))
  {
    hide Decimal, AsSigned;
    assert "%d"[1..] == "d" && "%d"[2..] == "";
    assert Parse("d") == (Signed(W32), 1);
    assert Text(Signed(W32), args(k)) + "" == Text(Signed(W32), args(k));
  }

  /** A list of ints of any length, printed and read back with one format. */
  lemma {:induction false} ListRoundTrip(ws: seq<Word>, args: nat -> Arg, k: nat)
    requires forall i :: 0 <= i < |ws| ==> args(k + i).word == ws[i]
    ensures Scan(Decimals(|ws|), Output(Decimals(|ws|), args, k)) == IntItems(ws)
    decreases |ws|
  {
    hide Scan, Output, Decimal, Decimals, AsSigned, IsSpace;
    var n := |ws|;
    if n == 0 {
      DecimalsNone();
      EmptyScan(Output("", args, k));
    } else {
      var v := AsSigned(ws[0], W32);
      assert args(k + 0).word == ws[0];
      AsSignedIs(ws[0], W32);
      DecimalsText(n, args, k);
      if n == 1 {
        ScanInFront(v, "", "");
        EmptyScan("");
        DecimalsOne();
        assert IntItems(ws[1..]) == [];
        assert Decimal(v) + "" == Decimal(v) && "%d" + "" == "%d";
      } else {
        var f, t := Decimals(n - 1), Output(Decimals(n - 1), args, k + 1);
        DecimalsMore(n);
        assert " " + t != [] && (" " + t)[0] == ' ';
        ScanInFront(v, " " + f, " " + t);
        forall i | 0 <= i < |ws[1..]| ensures args(k + 1 + i).word == ws[1..][i] {
          assert args(k + (i + 1)).word == ws[i + 1];
        }
        ListRoundTrip(ws[1..], args, k + 1);
        DecimalsText(n - 1, args, k + 1);
        SignedStart(AsSigned(args(k + 1).word, W32));
        DecimalsStart(n - 1);
        NotSpace();
        ScanBlank(f, t);
      }
    }
  }

  lemma DecimalsNone()
    ensures Decimals(0) == ""
  {
  }

  lemma DecimalsOne()
    ensures Decimals(1) == "%d"
  {
  }

  lemma DecimalsMore(n: nat)
    requires n > 1
    ensures Decimals(n) == "%d" + (" " + Decimals(n - 1))
  {
  }

  lemma EmptyScan(s: string)
    ensures Scan("", s) == []
  {
  }

  lemma ScanBlank(f: string, t: string)
    requires f != [] && t != [] && !IsSpace(f[0]) && !IsSpace(t[0])
    ensures Scan(" " + f, " " + t) == Scan(f, t)
  {
    assert IsSpace(' ') && (" " + f)[1..] == f && (" " + t)[1..] == t;
    assert Skip(f) == f && Skip(" " + t) == t;
  }
}
