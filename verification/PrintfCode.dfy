/**
 The formatter and the scanner of usr/pub/printf.c as code. The formatter writes exactly the text of
 its format cut to the buffer; the scanner stores exactly the values its format reads.
 */
module PrintfCode {
  import opened Common
  import opened Printf
  import opened PrintfTrips

  // ---- the formatter ----

  /** b' is b with text written from pos on, as far as size - 1 allows. */
  ghost predicate Puts(b: seq<char>, b': seq<char>, pos: nat, pos': nat, size: nat, text: string) {
    && |b'| == |b| && pos < size <= |b| && pos' < size && pos <= pos'
    && pos' == (if pos + |text| < size then pos + |text| else size - 1)
    && b'[..pos'] == b[..pos] + text[..pos' - pos] && b'[size..] == b[size..]
  }

  lemma PutsNothing(b: seq<char>, pos: nat, size: nat)
    requires pos < size <= |b|
    ensures Puts(b, b, pos, pos, size, "")
  {
  }

  lemma PutsConcat(b: seq<char>, b1: seq<char>, b2: seq<char>, pos: nat, p1: nat, p2: nat, size: nat, s: string,
                   t: string)
    requires Puts(b, b1, pos, p1, size, s) && Puts(b1, b2, p1, p2, size, t)
    ensures Puts(b, b2, pos, p2, size, s + t)
  {
    assert b1[..p1] + t[..p2 - p1] == b[..pos] + (s[..p1 - pos] + t[..p2 - p1]);
    if pos + |s| < size {
      assert s[..p1 - pos] == s && (s + t)[..p2 - pos] == s + t[..p2 - p1];
    } else {
      assert (s + t)[..p2 - pos] == s[..p1 - pos] && t[..p2 - p1] == [];
    }
  }

  method PutChar(buf: array<char>, pos: nat, size: nat, c: char) returns (pos': nat)
    requires pos < size - 1 < buf.Length
    modifies buf
    ensures Puts(old(buf[..]), buf[..], pos, pos', size, [c])
  {
    buf[pos] := c;
    pos' := pos + 1;
  }

  method PutText(buf: array<char>, pos: nat, size: nat, s: string) returns (pos': nat)
    requires pos < size <= buf.Length
    modifies buf
    ensures Puts(old(buf[..]), buf[..], pos, pos', size, s)
  {
    pos' := pos;
    var j := 0;
    while j < |s| && pos' < size - 1
      invariant j <= |s| && pos' == pos + j && pos' < size
      invariant buf[..pos'] == old(buf[..pos]) + s[..j] && buf[size..] == old(buf[size..])
    {
      buf[pos'] := s[j];
      pos' := pos' + 1;
      j := j + 1;
    }
    assert s[..|s|] == s;
  }

  function Reversed(s: string): (r: string) {
    if s == [] then [] else [s[|s| - 1]] + Reversed(s[..|s| - 1])
  }

  lemma {:induction false} ReversedLength(s: string)
    ensures |Reversed(s)| == |s|
  {
    if s != [] { ReversedLength(s[..|s| - 1]); }
  }

  lemma ReversedPush(s: string, c: char)
    ensures Reversed(s + [c]) == [c] + Reversed(s)
  {
    assert (s + [c])[..|s|] == s;
  }

  lemma {:induction false} ReversedAt(s: string, d: nat)
    requires d < |s|
    ensures |Reversed(s)| == |s| && Reversed(s)[d] == s[|s| - 1 - d]
  {
    ReversedLength(s);
    if d > 0 { ReversedAt(s[..|s| - 1], d - 1); }
  }

  /** The loop that writes numbuf backwards. */
  method PutReversed(buf: array<char>, pos: nat, size: nat, numbuf: array<char>, n: nat) returns (pos': nat)
    requires pos < size <= buf.Length && n <= numbuf.Length && buf != numbuf
    modifies buf
    ensures Puts(old(buf[..]), buf[..], pos, pos', size, Reversed(numbuf[..n]))
  {
    hide Reversed;
    ghost var text := Reversed(numbuf[..n]);
    ReversedLength(numbuf[..n]);
    pos' := pos;
    var k := n;
    while k > 0 && pos' < size - 1
      invariant 0 <= k <= n && pos' == pos + (n - k) && pos' < size && |text| == n
      invariant buf[..pos'] == old(buf[..pos]) + text[..n - k] && buf[size..] == old(buf[size..])
    {
      ReversedAt(numbuf[..n], n - k);
      buf[pos'] := numbuf[k - 1];
      pos' := pos' + 1;
      k := k - 1;
    }
    assert text[..n] == text;
  }

  /** Numbers below Bound(n) have at most n digits in bases 8, 10 and 16. */
  function Bound(n: nat): (b: nat) {
    if n == 0 then 1 else 8 * Bound(n - 1)
  }

  lemma {:induction false} DigitsBounded(v: nat, base: nat, upper: bool, n: nat)
    requires base in {8, 10, 16} && 0 < n && v < Bound(n)
    ensures |Digits(v, base, upper)| <= n
    decreases n
  {
    hide Digit;
    if v >= base {
      QuotSmall(v, base, Bound(n - 1));
      if n > 1 { DigitsBounded(Quot(v, base), base, upper, n - 1); }
    }
  }

  lemma QuotSmall(v: nat, base: nat, b: nat)
    requires base in {8, 10, 16} && base <= v < 8 * b
    ensures Quot(v, base) < b && b > 1
  {
    if base == 8 { assert v / 8 < b; } else if base == 10 { assert v / 10 < b; } else { assert v / 16 < b; }
  }

  lemma BoundStep(n: nat)
    ensures Bound(n + 4) == 4096 * Bound(n) && Bound(2) == 64
  {
    assert Bound(n + 4) == 8 * Bound(n + 3);
    assert Bound(n + 2) == 8 * Bound(n + 1);
  }

  lemma WordDigits(w: nat, base: nat, upper: bool)
    requires base in {8, 10, 16} && w < W64
    ensures |Digits(w, base, upper)| <= 22
  {
    BoundStep(2);
    BoundStep(6);
    BoundStep(10);
    BoundStep(14);
    BoundStep(18);
    DigitsBounded(w, base, upper, 22);
  }

  /** The digit loops: numbuf gets the digits of v, least significant first. */
  method DigitsBackwards(v: nat, base: nat, upper: bool, numbuf: array<char>) returns (n: nat)
    requires base in {8, 10, 16} && v < W64 && numbuf.Length == 32
    modifies numbuf
    ensures n <= 22 && Reversed(numbuf[..n]) == Digits(v, base, upper)
  {
    hide Reversed, Quot, Rem, Digit, Digits;
    WordDigits(v, base, upper);
    ghost var all := Digits(v, base, upper);
    var x: nat, more := v, true;
    n := 0;
    assert numbuf[..0] == [];
    EmptyReversed();
    while more
      invariant n <= |all| && (more ==> n < |all|)
      invariant all == (if more then Digits(x, base, upper) else "") + Reversed(numbuf[..n])
      decreases |all| - n
    {
      ghost var before, y := numbuf[..n], x;
      numbuf[n] := Digit(Rem(x, base), upper);
      assert numbuf[..n + 1] == before + [numbuf[n]];
      n := n + 1;
      x := Quot(x, base);
      more := x > 0;
      Backwards(all, y, base, upper, before, numbuf[..n]);
    }
  }

  /** One digit moves from the number to the buffer. */
  lemma Backwards(all: string, x: nat, base: nat, upper: bool, s: string, s': string)
    requires 2 <= base <= 16 && all == Digits(x, base, upper) + Reversed(s) && s' == s + [Digit(Rem(x, base), upper)]
    ensures var q := Quot(x, base);
            && all == (if q > 0 then Digits(q, base, upper) else "") + Reversed(s')
            && |s'| <= |all| && (q > 0 ==> |s'| < |all|)
  {
    hide Reversed, Quot, Rem, Digit, Digits;
    var q, d := Quot(x, base), Digit(Rem(x, base), upper);
    DigitsStep(x, base, upper);
    ReversedPush(s, d);
    ReversedLength(s');
    if q > 0 { assert all == Digits(q, base, upper) + ([d] + Reversed(s)); }
  }

  lemma EmptyReversed()
    ensures Reversed([]) == []
  {
  }

  lemma DigitsStep(x: nat, base: nat, upper: bool)
    requires 2 <= base <= 16
    ensures Quot(x, base) > 0 <==> x >= base
    ensures x >= base ==> Digits(x, base, upper) == Digits(Quot(x, base), base, upper) + [Digit(Rem(x, base), upper)]
    ensures x < base ==> Digits(x, base, upper) == [Digit(Rem(x, base), upper)]
  {
    hide Quot, Rem, Digit;
    QuotFacts(x, base);
  }

  lemma QuotFacts(x: nat, base: nat)
    requires base >= 2
    ensures Quot(x, base) > 0 <==> x >= base
    ensures x < base ==> Rem(x, base) == x
  {
  }

  /** A number: digits, and in front of them the header "0x" or "0" where asked for. */
  method PutNumber(buf: array<char>, pos: nat, size: nat, v: nat, base: nat, upper: bool, header: bool,
                   numbuf: array<char>) returns (pos': nat)
    requires pos < size <= buf.Length && base in {8, 10, 16} && v < W64 && numbuf.Length == 32 && numbuf != buf
    modifies buf, numbuf
    ensures Puts(old(buf[..]), buf[..], pos, pos', size,
                 (if !header || base == 10 then "" else if base == 16 then "0x" else "0") + Digits(v, base, upper))
  {
    hide Puts, Reversed, Digits;
    var n := DigitsBackwards(v, base, upper, numbuf);
    ghost var s := numbuf[..n];
    if header && base == 16 {
      numbuf[n] := 'x';
      numbuf[n + 1] := '0';
      n := n + 2;
      assert numbuf[..n] == s + ['x'] + ['0'];
      ReversedPush(s, 'x');
      ReversedPush(s + ['x'], '0');
      assert ['0'] + (['x'] + Reversed(s)) == "0x" + Reversed(s);
    } else if header && base == 8 {
      numbuf[n] := '0';
      n := n + 1;
      assert numbuf[..n] == s + ['0'];
      ReversedPush(s, '0');
    } else {
      assert "" + Digits(v, base, upper) == Digits(v, base, upper);
    }
    assert buf[..] == old(buf[..]);
    pos' := PutReversed(buf, pos, size, numbuf, n);
  }

  /** parse_signed10. */
  method PutSigned(buf: array<char>, pos: nat, size: nat, v: int, numbuf: array<char>) returns (pos': nat)
    requires pos < size - 1 < buf.Length && -0x8000_0000_0000_0000 <= v < 0x8000_0000_0000_0000 && numbuf.Length == 32
             && numbuf != buf
    modifies buf, numbuf
    ensures Puts(old(buf[..]), buf[..], pos, pos', size, Decimal(v))
  {
    hide Puts, Digits;
    if v < 0 {
      if v == -0x8000_0000_0000_0000 {
        LeastDecimal();
        pos' := PutText(buf, pos, size, "-9223372036854775808");
      } else {
        ghost var b := buf[..];
        pos' := PutChar(buf, pos, size, '-');
        ghost var b1, p1 := buf[..], pos';
        PutsInside(b, b1, pos, p1, size, "-");
        pos' := PutNumber(buf, pos', size, -v, 10, false, false, numbuf);
        assert "" + Digits(-v, 10, false) == Digits(-v, 10, false);
        PutsConcat(b, b1, buf[..], pos, p1, pos', size, "-", Digits(-v, 10, false));
      }
    } else {
      pos' := PutNumber(buf, pos, size, v, 10, false, false, numbuf);
      assert "" + Digits(v, 10, false) == Digits(v, 10, false);
    }
  }

  lemma PutsInside(b: seq<char>, b': seq<char>, pos: nat, pos': nat, size: nat, text: string)
    requires Puts(b, b', pos, pos', size, text)
    ensures pos' < size <= |b'| == |b|
  {
  }

  lemma {:induction false} DecimalStep(v: nat, q: nat, d: nat)
    requires v == 10 * q + d && d < 10 && q > 0
    ensures Digits(v, 10, false) == Digits(q, 10, false) + [Digit(d, false)]
  {
  }

  lemma HighDigits()
    ensures Digits(922337, 10, false) == "922337"
  {
    hide Digits, Quot, Rem;
    DecimalSmall(9);
    DecimalStep(92, 9, 2);
    DecimalStep(922, 92, 2);
    DecimalStep(9223, 922, 3);
    DecimalStep(92233, 9223, 3);
    DecimalStep(922337, 92233, 7);
  }

  lemma MiddleDigits()
    ensures Digits(922337203685, 10, false) == "922337203685"
  {
    hide Digits, Quot, Rem;
    HighDigits();
    DecimalStep(9223372, 922337, 2);
    DecimalStep(92233720, 9223372, 0);
    DecimalStep(922337203, 92233720, 3);
    DecimalStep(9223372036, 922337203, 6);
    DecimalStep(92233720368, 9223372036, 8);
    DecimalStep(922337203685, 92233720368, 5);
  }

  lemma LowDigits()
    ensures Digits(922337203685477, 10, false) == "922337203685477"
  {
    hide Digits, Quot, Rem;
    MiddleDigits();
    DecimalStep(9223372036854, 922337203685, 4);
    DecimalStep(92233720368547, 9223372036854, 7);
    DecimalStep(922337203685477, 92233720368547, 7);
  }

  /** The constant the source writes for the least 64-bit number is its decimal text. */
  lemma LeastDecimal()
    ensures Decimal(-0x8000_0000_0000_0000) == "-9223372036854775808"
  {
    hide Digits, Quot, Rem;
    LowDigits();
    DecimalStep(9223372036854775, 922337203685477, 5);
    DecimalStep(92233720368547758, 9223372036854775, 8);
    DecimalStep(922337203685477580, 92233720368547758, 0);
    DecimalStep(9223372036854775808, 922337203685477580, 8);
  }

  lemma DecimalSmall(d: nat)
    requires d < 10
    ensures Digits(d, 10, false) == [Digit(d, false)]
  {
  }

  /** The conversions the parser can return have one of three widths. */
  predicate Known(c: Conv) {
    match c
    case Signed(w) => w in {W16, W32, W64}
    case Unsigned(w) => w in {W16, W64}
    case Hex(w, _, _) => w in {W16, W32, W64}
    case Octal(w, _) => w in {W16, W32, W64}
    case _ => true
  }

  /** The text of one conversion. */
  method PutConversion(buf: array<char>, pos: nat, size: nat, c: Conv, a: Arg, numbuf: array<char>) returns (pos': nat)
    requires pos < size - 1 < buf.Length && Known(c) && numbuf.Length == 32 && numbuf != buf
    modifies buf, numbuf
    ensures Puts(old(buf[..]), buf[..], pos, pos', size, Text(c, a))
  {
    hide Puts, Digits, Decimal;
    match c {
      case Char => pos' := PutChar(buf, pos, size, (a.word % 256) as char);
      case Str => pos' := PutText(buf, pos, size, if a.text.None? then "(null)" else a.text.value);
      case Percent => pos' := PutChar(buf, pos, size, '%');
      case Float => pos' := PutText(buf, pos, size, a.float);
      case Signed(w) =>
        SignedRange(a.word, w);
        pos' := PutSigned(buf, pos, size, AsSigned(a.word, w), numbuf);
      case Unsigned(w) =>
        assert "" + Digits(a.word % w, 10, false) == Digits(a.word % w, 10, false);
        pos' := PutNumber(buf, pos, size, a.word % w, 10, false, false, numbuf);
      case SignExtended =>
        assert "" + Digits(Extend(a.word), 10, false) == Digits(Extend(a.word), 10, false);
        pos' := PutNumber(buf, pos, size, Extend(a.word), 10, false, false, numbuf);
      case Hex(w, upper, header) => pos' := PutNumber(buf, pos, size, a.word % w, 16, upper, header, numbuf);
      case Octal(w, header) => pos' := PutNumber(buf, pos, size, a.word % w, 8, false, header, numbuf);
      case Nothing =>
        PutsNothing(buf[..], pos, size);
        pos' := pos;
    }
  }

  lemma SignedRange(w: Word, width: nat)
    requires width in {W16, W32, W64}
    ensures -0x8000_0000_0000_0000 <= AsSigned(w, width) < 0x8000_0000_0000_0000
  {
  }

  function CharAt(fmt: string, i: nat): (c: char) {
    if i < |fmt| then fmt[i] else '\0'
  }

  /** Integer conversion letters, at index i, for a given width. */
  method ParseLetter(fmt: string, i: nat, width: nat, header: bool) returns (c: Conv)
    requires width in {W16, W32, W64}
    ensures c == Integer(CharAt(fmt, i), width, header) && Known(c)
  {
    var x := CharAt(fmt, i);
    if x == 'd' || x == 'i' {
      c := Signed(width);
    } else if x == 'u' {
      c := if width == W32 then SignExtended else Unsigned(width);
    } else if x == 'x' {
      c := Hex(width, false, header);
    } else if x == 'X' {
      c := Hex(width, true, header);
    } else if x == 'o' {
      c := Octal(width, header);
    } else {
      c := Nothing;
    }
  }

  /** The dispatch after a percent sign at i0 - 1: the conversion and the index after it. */
  method ParseConversion(fmt: string, i0: nat) returns (c: Conv, i: nat)
    requires i0 <= |fmt| && '\0' !in fmt
    ensures i0 <= i <= |fmt| && (c, i - i0) == Parse(fmt[i0..]) && Known(c)
  {
    i := i0;
    var header := false;
    FirstAt(fmt, i0);
    if CharAt(fmt, i) == 'c' { return Char, i + 1; }
    if CharAt(fmt, i) == 's' { return Str, i + 1; }
    if CharAt(fmt, i) == '%' { return Percent, i + 1; }
    if CharAt(fmt, i) == 'p' { return Hex(W64, false, true), i + 1; }
    if CharAt(fmt, i) == 'f' { return Float, i + 1; }
    if CharAt(fmt, i) == '#' {
      header := true;
      i := i + 1;
      FirstAt(fmt, i);
      assert fmt[i0..][1..] == fmt[i..];
    }
    ghost var j := i;
    if CharAt(fmt, i) == 'h' || CharAt(fmt, i) == 'l' {
      var width := if CharAt(fmt, i) == 'h' then W16 else W64;
      i := i + 1;
      FirstAt(fmt, i);
      assert fmt[j..][1..] == fmt[i..];
      c := ParseLetter(fmt, i, width, header);
    } else {
      c := ParseLetter(fmt, i, W32, header);
    }
    if c != Nothing { i := i + 1; }
    assert (c, i - j) == ParseInteger(fmt[j..], header);
  }

  lemma FirstAt(fmt: string, i: nat)
    requires i <= |fmt| && '\0' !in fmt
    ensures First(fmt[i..]) == CharAt(fmt, i) && (CharAt(fmt, i) == '\0' <==> i == |fmt|)
  {
    if i < |fmt| { assert fmt[i] in fmt; }
  }

  /** One round of the formatter's loop: an ordinary character or a conversion. */
  method FormatOne(buf: array<char>, pos: nat, size: nat, fmt: string, i: nat, args: nat -> Arg, k: nat,
                   numbuf: array<char>)
    returns (pos': nat, i': nat, k': nat, ghost text: string)
    requires pos < size - 1 < buf.Length && i < |fmt| && '\0' !in fmt && numbuf.Length == 32 && numbuf != buf
    modifies buf, numbuf
    ensures Puts(old(buf[..]), buf[..], pos, pos', size, text) && i < i' <= |fmt|
    ensures Output(fmt[i..], args, k) == text + Output(fmt[i'..], args, k')
  {
    hide Puts, Output, Text, Parse;
    ghost var rest := fmt[i..];
    OutputStep(rest, args, k);
    assert rest[1..] == fmt[i + 1..];
    if fmt[i] == '%' {
      var c;
      c, i' := ParseConversion(fmt, i + 1);
      assert rest[1 + Parse(rest[1..]).1..] == fmt[i'..];
      text := Text(c, args(k));
      pos' := PutConversion(buf, pos, size, c, args(k), numbuf);
      k' := if Takes(c) then k + 1 else k;
    } else {
      text := [fmt[i]];
      pos' := PutChar(buf, pos, size, fmt[i]);
      i', k' := i + 1, k;
    }
  }

  /** vsnprintf: the text of the format, cut to size - 1 characters, and a terminator. */
  method Format(buf: array<char>, size: nat, fmt: string, args: nat -> Arg) returns (pos: nat)
    requires 1 <= size <= buf.Length && '\0' !in fmt
    modifies buf
    ensures var out := Output(fmt, args, 0);
            && pos == (if |out| < size then |out| else size - 1)
            && buf[..pos] == out[..pos] && buf[pos] == '\0'
            && buf[size..] == old(buf[size..])
  {
    hide Puts, Output;
    var numbuf := new char[32];
    ghost var out, b0, done := Output(fmt, args, 0), buf[..], "";
    var i: nat, k: nat := 0, 0;
    pos := 0;
    assert fmt[0..] == fmt && done + out == out;
    PutsNothing(b0, 0, size);
    while i < |fmt| && pos < size - 1
      invariant i <= |fmt| && Puts(b0, buf[..], 0, pos, size, done) && pos < size
      invariant out == done + Output(fmt[i..], args, k)
      decreases |fmt| - i
    {
      ghost var b1, p1, text := buf[..], pos, "";
      pos, i, k, text := FormatOne(buf, pos, size, fmt, i, args, k, numbuf);
      PutsInside(b1, buf[..], p1, pos, size, text);
      PutsConcat(b0, b1, buf[..], 0, p1, pos, size, done, text);
      assert done + (text + Output(fmt[i..], args, k)) == done + text + Output(fmt[i..], args, k);
      done := done + text;
    }
    CutOutput(b0, buf[..], pos, size, done, Output(fmt[i..], args, k));
    if i == |fmt| { OutputNone(fmt[i..], args, k); }
    buf[pos] := '\0';
  }

  lemma OutputStep(fmt: string, args: nat -> Arg, k: nat)
    requires fmt != []
    ensures fmt[0] != '%' ==> Output(fmt, args, k) == [fmt[0]] + Output(fmt[1..], args, k)
    ensures fmt[0] == '%' ==>
              var (c, n) := Parse(fmt[1..]);
              Output(fmt, args, k) == Text(c, args(k)) + Output(fmt[1 + n..], args, if Takes(c) then k + 1 else k)
  {
  }

  lemma OutputNone(fmt: string, args: nat -> Arg, k: nat)
    requires fmt == []
    ensures Output(fmt, args, k) == ""
  {
  }

  /** What has been written is the beginning of the whole text. */
  lemma CutOutput(b: seq<char>, b': seq<char>, pos: nat, size: nat, done: string, rest: string)
    requires Puts(b, b', 0, pos, size, done) && size >= 1
    ensures b'[..pos] == (done + rest)[..pos] && pos <= |done| && (pos < size - 1 ==> pos == |done|)
            && b'[size..] == b[size..]
  {
  }

  // ---- the scanner ----

  /** str2uint: the value of the leading digits and how many there are. */
  method Str2Uint(s: string, base: nat) returns (val: nat, used: nat)
    requires 2 <= base <= 16
    ensures val == Value(0, s, base) && used == Used(s, base)
  {
    hide Shift, DigitValue;
    val, used := 0, 0;
    assert s[0..] == s;
    while used < |s|
      invariant used <= |s| && Value(val, s[used..], base) == Value(0, s, base)
                && used + Used(s[used..], base) == Used(s, base)
    {
      var d := DigitValue(s[used]);
      assert s[used..][1..] == s[used + 1..];
      if d.None? || d.value >= base { return; }
      val := Shift(val, base, d.value);
      used := used + 1;
    }
  }

  method SkipSpace(s: string) returns (r: string)
    ensures r == Skip(s)
  {
    hide IsSpace;
    r := s;
    while r != [] && IsSpace(r[0])
      invariant Skip(r) == Skip(s)
      decreases |r|
    {
      r := r[1..];
    }
  }

  method TakeField(s: string) returns (n: nat)
    ensures n == FieldLength(s)
  {
    hide IsSpace;
    n := 0;
    assert s[0..] == s;
    while n < |s| && !IsSpace(s[n])
      invariant n <= |s| && n + FieldLength(s[n..]) == FieldLength(s)
    {
      assert s[n..][1..] == s[n + 1..];
      n := n + 1;
    }
  }

  /** No conversion of the format is cut off by its end: no trailing %, %h, %l or %ll. */
  predicate Complete(f: string)
    decreases |f|
  {
    if f == [] then true
    else if f[0] != '%' then Complete(f[1..])
    else if First(f[1..]) == '%' then Complete(f[2..])
    else var g := f[1 + Modifier(f[1..]).1..]; g != [] && Complete(g[1..])
  }

  lemma {:induction false} CompleteSkip(f: string)
    requires Complete(f)
    ensures Complete(Skip(f))
    decreases |f|
  {
    if f != [] && IsSpace(f[0]) { CompleteSkip(f[1..]); }
  }

  /** The text after a conversion, if it matches. */
  function RestOf(c: char, t: string): (r: Option<string>)
    requires t != []
  {
    if c in "diuxXop" then
      var (negative, base, digits) := Lead(c, t);
      if Used(digits, base) == 0 then None else Some(digits[Used(digits, base)..])
    else if c == 's' then Some(t[FieldLength(t)..])
    else if c == 'c' then Some(t[1..])
    else Some(t)
  }

  /** The scan of s comes to the end of the format inside a conversion, with text left. */
  predicate Overruns(f: string, s: string)
    decreases |f|
  {
    if f == [] || s == [] then false
    else if IsSpace(f[0]) then Overruns(Skip(f[1..]), Skip(s))
    else if f[0] != '%' then f[0] == s[0] && Overruns(f[1..], s[1..])
    else if First(f[1..]) == '%' then s[0] == '%' && Overruns(f[2..], s[1..])
    else
      var g := f[1 + Modifier(f[1..]).1..];
      var t := if First(g) == 'c' then s else Skip(s);
      if t == [] then false
      else if g == [] then true
      else RestOf(First(g), t).Some? && Overruns(g[1..], RestOf(First(g), t).value)
  }

  /** A complete format is never overrun, whatever the text. */
  lemma {:induction false} CompleteNeverOverruns(f: string, s: string)
    requires Complete(f)
    ensures !Overruns(f, s)
    decreases |f|
  {
    hide IsSpace, Skip, Modifier, RestOf;
    if f == [] || s == [] {
    } else if IsSpace(f[0]) {
      SkipShorter(f);
      SpaceComplete(f);
      CompleteNeverOverruns(Skip(f[1..]), Skip(s));
    } else if f[0] != '%' {
      CompleteNeverOverruns(f[1..], s[1..]);
    } else if First(f[1..]) == '%' {
      CompleteNeverOverruns(f[2..], s[1..]);
    } else {
      var g := f[1 + Modifier(f[1..]).1..];
      var t := if First(g) == 'c' then s else Skip(s);
      if t != [] && RestOf(First(g), t).Some? { CompleteNeverOverruns(g[1..], RestOf(First(g), t).value); }
    }
  }

  /** A lone percent sign is overrun by every text that is more than white space. */
  lemma LonePercentOverruns(s: string)
    ensures Overruns("%", s) <==> Skip(s) != []
  {
    hide Skip;
    assert "%"[1..] == [];
    if s == [] { NothingSkipped(); }
  }

  lemma NothingSkipped()
    ensures Skip([]) == []
  {
  }

  /**
   The converse of CompleteNeverOverruns fails: this format is cut off, but a literal digit after %d never
   matches.
   */
  lemma CutOffButSafe(s: string)
    ensures !Complete("%d5%") && !Overruns("%d5%", s)
  {
    hide Skip, Used, Sign;
    var f := "%d5%";
    assert f[1..] == "d5%" && f[1 + Modifier(f[1..]).1..] == "d5%" && "d5%"[1..] == "5%" && "5%"[1..] == "%";
    var t := Skip(s);
    if s != [] && t != [] && RestOf('d', t).Some? {
      UsedAll(Sign(t).1, 10);
      assert !Overruns("5%", RestOf('d', t).value);
    }
  }

  /** After the digits comes no digit. */
  lemma {:induction false} UsedAll(s: string, base: nat)
    ensures Used(s, base) < |s| ==> !IsDigit(s[Used(s, base)], base)
  {
    if s != [] && IsDigit(s[0], base) { UsedAll(s[1..], base); }
  }

  /**
   vsscanf, returning what it stores. Where the format ends inside a conversion the source steps past its
   terminator; the scan stops there and says so.
   */
  method ScanText(fmt: string, str: string) returns (items: seq<Item>, past: bool)
    ensures items == Scan(fmt, str)
    ensures past <==> Overruns(fmt, str)
  {
    hide Scan, Overruns;
    items, past := [], false;
    var f, s := fmt, str;
    while f != [] && s != []
      invariant items + Scan(f, s) == Scan(fmt, str)
      invariant !past && (Overruns(f, s) <==> Overruns(fmt, str))
      decreases |f|
    {
      var stop, item;
      stop, past, item, f, s := ScanRound(f, s);
      if stop { return; }
      items := items + item;
    }
    NothingLeft(f, s);
  }

  lemma NothingLeft(f: string, s: string)
    requires f == [] || s == []
    ensures Scan(f, s) == [] && !Overruns(f, s)
  {
  }

  /** One round of the scanner's loop: what it stores and what is left of the format and the text. */
  method ScanRound(f: string, s: string) returns (stop: bool, past: bool, item: seq<Item>, f': string, s': string)
    requires f != [] && s != []
    ensures if stop then past <==> Overruns(f, s) else !past && (Overruns(f, s) <==> Overruns(f', s'))
    ensures stop ==> Scan(f, s) == []
    ensures !stop ==> Scan(f, s) == item + Scan(f', s') && |f'| < |f|
  {
    hide IsSpace, Skip, Used, Value, Stored, Lead, FieldLength, Modifier;
    stop, past, item, f', s' := false, false, [], f, s;
    if IsSpace(f[0]) {
      SkipShorter(f);
      f' := SkipSpace(f[1..]);
      s' := SkipSpace(s);
      return;
    }
    if f[0] != '%' {
      stop := f[0] != s[0];
      f', s' := f[1..], s[1..];
      return;
    }
    if First(f[1..]) == '%' {
      stop := s[0] != '%';
      f', s' := f[2..], s[1..];
      return;
    }
    var (mod, n) := Modifier(f[1..]);
    var g := f[1 + n..];
    if First(g) != 'c' { s' := SkipSpace(s); }
    if g == [] || s' == [] {
      stop, past := true, s' != [];
      return;
    }
    var o;
    o, s' := ScanItem(First(g), mod, s');
    if o.Some? {
      item := [o.value];
    } else {
      stop := First(g) in "diuxXop";
    }
    f' := g[1..];
  }

  lemma SpaceComplete(f: string)
    requires f != [] && IsSpace(f[0])
    ensures Complete(f) ==> Complete(Skip(f[1..]))
  {
    if Complete(f) { CompleteSkip(f[1..]); }
  }

  lemma SkipShorter(f: string)
    requires f != []
    ensures |Skip(f[1..])| < |f|
  {
  }

  /** One conversion: what it stores, if anything, and the text after it. */
  method ScanItem(c: char, mod: nat, s: string) returns (item: Option<Item>, rest: string)
    requires s != []
    ensures c in "diuxXop" ==>
              var (negative, base, digits) := Lead(c, s);
              && (item.None? <==> Used(digits, base) == 0)
              && (item.Some? ==> item.value == Number(Stored(c, mod, negative, Value(0, digits, base))) && rest == digits[Used(digits, base)..])
    ensures c == 's' ==> item == Some(Field(s[..FieldLength(s)])) && rest == s[FieldLength(s)..]
    ensures c == 'c' ==> item == Some(Letter(s[0])) && rest == s[1..]
    ensures c !in "diuxXopsc" ==> item == None && rest == s
  {
    hide Used, Value, Stored, FieldLength;
    if c in "diuxXop" {
      var (negative, base, digits) := Lead(c, s);
      var val, used := Str2Uint(digits, base);
      if used == 0 { return None, s; }
      return Some(Number(Stored(c, mod, negative, val))), digits[used..];
    }
    if c == 's' {
      var n := TakeField(s);
      return Some(Field(s[..n])), s[n..];
    }
    if c == 'c' { return Some(Letter(s[0])), s[1..]; }
    return None, s;
  }

  // ---- printing and scanning ----

  /** Conversions that print a number, each with one that reads it back. */
  predicate Paired(shown: string, read: string) {
    || (shown, read) in {("lu", "lu"), ("lx", "lx"), ("lX", "lx"), ("lo", "lo"), ("ld", "ld"), ("#lx", "li"), ("#lo", "li")}
    || (shown, read) in {("d", "d"), ("d", "i"), ("d", "ld"), ("u", "u"), ("x", "x"), ("X", "x"), ("o", "o")}
    || (shown, read) in {("hd", "hd"), ("hu", "hu"), ("hx", "hx"), ("hX", "hx"), ("ho", "ho")}
  }

  /** The number a pair of conversions carries: all 64 bits, the 32 of an int or the 16 of a short. */
  function ReadBack(shown: string, w: Word): (i: Item) {
    Number(if shown in {"ld", "#lx", "#lo"} then AsSigned(w, W64)
           else if shown == "d" then AsSigned(w, W32)
           else if shown == "hd" then AsSigned(w, W16)
           else if shown in {"u", "x", "X", "o"} then w % W32
           else if shown in {"hu", "hx", "hX", "ho"} then w % W16
           else w)
  }

  /** What a paired conversion prints is read back, and takes at most 24 characters. */
  lemma PairedRoundTrip(shown: string, read: string, w: Word)
    requires Paired(shown, read)
    ensures Scan("%" + read, Printed(shown, w)) == [ReadBack(shown, w)] && |Printed(shown, w)| <= 24
  {
    hide Scan, Printed, Digits, AsSigned;
    PrintedLength(shown, w);
    if (shown, read) in {("lu", "lu"), ("lx", "lx"), ("lX", "lx"), ("lo", "lo"), ("ld", "ld"), ("#lx", "li"), ("#lo", "li")} {
      LongPairs(shown, read, w);
    } else {
      IntPairs(shown, read, w);
    }
  }

  lemma LongPairs(shown: string, read: string, w: Word)
    requires (shown, read) in {("lu", "lu"), ("lx", "lx"), ("lX", "lx"), ("lo", "lo"), ("ld", "ld"), ("#lx", "li"), ("#lo", "li")}
    ensures Scan("%" + read, Printed(shown, w)) == [ReadBack(shown, w)]
  {
    hide Scan, Printed, Digits, AsSigned;
    assert "%" + "lu" == "%lu" && "%" + "lx" == "%lx" && "%" + "lo" == "%lo" && "%" + "ld" == "%ld"
           && "%" + "li" == "%li";
    UnsignedRoundTrip(w);
    SignedRoundTrip(w);
    PrefixedRoundTrip(w);
  }

  lemma IntPairs(shown: string, read: string, w: Word)
    requires || (shown, read) in {("d", "d"), ("d", "i"), ("d", "ld"), ("u", "u"), ("x", "x"), ("X", "x"), ("o", "o")}
             || (shown, read) in {("hd", "hd"), ("hu", "hu"), ("hx", "hx"), ("hX", "hx"), ("ho", "ho")}
    ensures Scan("%" + read, Printed(shown, w)) == [ReadBack(shown, w)]
  {
    hide Scan, Printed, Digits, AsSigned;
    assert "%" + "d" == "%d" && "%" + "i" == "%i" && "%" + "ld" == "%ld" && "%" + "u" == "%u" && "%" + "x" == "%x";
    assert "%" + "o" == "%o" && "%" + "hd" == "%hd" && "%" + "hu" == "%hu" && "%" + "hx" == "%hx"
           && "%" + "ho" == "%ho";
    IntRoundTrip(w);
    IntBitsRoundTrip(w);
    UnsignedIntRoundTrip(w);
    ShortRoundTrip(w);
  }

  lemma DecimalLength(v: int)
    requires 0 <= 2 * v + W64 < 2 * W64
    ensures |Decimal(v)| <= 23
  {
    hide Digits;
    WordDigits(if v < 0 then -v else v, 10, false);
  }

  lemma PrintedLength(shown: string, w: Word)
    requires exists read :: Paired(shown, read)
    ensures |Printed(shown, w)| <= 24
  {
    hide Printed, Digits, Decimal, AsSigned;
    if shown in {"lu", "lx", "lX", "lo", "ld", "#lx", "#lo"} {
      LongLength(shown, w);
    } else {
      PrintedText(w);
      KeptInt("", w, W32);
      KeptInt("", w, W16);
      DecimalLength(AsSigned(w, W32));
      DecimalLength(AsSigned(w, W16));
      WordDigits(Extend(w), 10, false);
      WordDigits(w % W16, 10, false);
      WordDigits(w % W32, 16, false);
      WordDigits(w % W32, 16, true);
      WordDigits(w % W16, 16, false);
      WordDigits(w % W16, 16, true);
      WordDigits(w % W32, 8, false);
      WordDigits(w % W16, 8, false);
    }
  }

  lemma LongLength(shown: string, w: Word)
    requires shown in {"lu", "lx", "lX", "lo", "ld", "#lx", "#lo"}
    ensures |Printed(shown, w)| <= 24
  {
    hide Printed, Digits;
    PrintedIs("lu", w, Unsigned(W64));
    PrintedIs("lx", w, Hex(W64, false, false));
    PrintedIs("lX", w, Hex(W64, true, false));
    PrintedIs("lo", w, Octal(W64, false));
    PrintedIs("ld", w, Signed(W64));
    PrintedIs("#lx", w, Hex(W64, false, true));
    PrintedIs("#lo", w, Octal(W64, true));
    WordDigits(w, 8, false);
    WordDigits(w, 10, false);
    WordDigits(w, 16, false);
    WordDigits(w, 16, true);
    SignedRange(w, W64);
    var v := AsSigned(w, W64);
    WordDigits(if v < 0 then -v else v, 10, false);
  }

  lemma PairedComplete(read: string)
    requires exists shown :: Paired(shown, read)
    ensures Complete("%" + read)
  {
    var f := "%" + read;
    assert read in {"lu", "lx", "lo", "ld", "li", "d", "i", "u", "x", "o", "hd", "hu", "hx", "ho"};
    assert f[1..] == read && f[2..] == read[1..];
    if |read| == 2 { assert f[2..][1..] == []; } else { assert read[1..] == []; }
  }

  /** vsnprintf into a buffer that holds the text, then vsscanf on what it wrote: the number comes back. */
  method FormatThenScan(buf: array<char>, size: nat, shown: string, read: string, w: Word)
    returns (items: seq<Item>, past: bool)
    requires Paired(shown, read) && |Printed(shown, w)| < size <= buf.Length
    modifies buf
    ensures items == [ReadBack(shown, w)] && !past
    ensures buf[size..] == old(buf[size..])
  {
    hide Scan, Overruns, Complete, Output;
    PairedRoundTrip(shown, read, w);
    PairedComplete(read);
    var n := Format(buf, size, "%" + shown, OnlyArg(w));
    assert buf[..n] == Printed(shown, w);
    CompleteNeverOverruns("%" + read, buf[..n]);
    items, past := ScanText("%" + read, buf[..n]);
  }
}
