/**
 * Conversion of integers to text (_ntoa_long, _ntoa_long_long and _ntoa_format in
 * plat/common/sane_printf.c): what ends up in the conversion buffer, and what it means.
 */
module IntegerText {

  /** PRINTF_NTOA_BUFFER_SIZE */
  const ROOM: nat := 32

  /** The flags of a conversion that matter for integers, characters and strings. */
  datatype Flags = Flags(
    zeroPad: bool, left: bool, plus: bool, space: bool, hash: bool, upper: bool, precision: bool)

  function Max(a: nat, b: nat): nat {
    if a < b then b else a
  }

  function Min(a: nat, b: nat): nat {
    if a < b then a else b
  }

  function Pow(base: nat, n: nat): nat {
    if n == 0 then 1 else base * Pow(base, n - 1)
  }

  function Repeat(c: char, n: int): (r: seq<char>)
    ensures |r| == if n > 0 then n else 0
    ensures forall i :: 0 <= i < |r| ==> r[i] == c
  {
    seq(if n > 0 then n else 0, _ => c)
  }

  function Reverse(s: seq<char>): (r: seq<char>)
    ensures |r| == |s| && forall i :: 0 <= i < |s| ==> r[i] == s[|s| - 1 - i]
  {
    seq(|s|, i requires 0 <= i < |s| => s[|s| - 1 - i])
  }

  // ---------------------------------------------------------------- digits

  function DigitChar(d: nat, upper: bool): char
    requires d < 16
  {
    if d < 10 then '0' + d as char else (if upper then 'A' else 'a') + (d - 10) as char
  }

  /** The digit a character stands for. */
  function DigitOf(c: char): nat {
    if '0' <= c <= '9' then c as nat - '0' as nat
    else if 'a' <= c <= 'f' then c as nat - 'a' as nat + 10
    else if 'A' <= c <= 'F' then c as nat - 'A' as nat + 10
    else 0
  }

  lemma DigitBack(d: nat, upper: bool)
    requires d < 16
    ensures DigitOf(DigitChar(d, upper)) == d
  {
  }

  /** Quotient and remainder by repeated subtraction; Machine relates them to the operators. */
  function Quotient(value: nat, base: nat): nat
    requires base > 0
  {
    if value < base then 0 else 1 + Quotient(value - base, base)
  }

  function Remainder(value: nat, base: nat): (r: nat)
    requires base > 0
    ensures r < base
  {
    if value < base then value else Remainder(value - base, base)
  }

  /** The digit loop: least significant digit first, at least one, at most room. */
  function Digits(value: nat, base: nat, upper: bool, room: nat): (ds: seq<char>)
    requires 2 <= base <= 16 && room > 0
    ensures 0 < |ds| <= room
    decreases room, value
  {
    var q := Quotient(value, base);
    [DigitChar(Remainder(value, base), upper)] + (if q != 0 && room > 1 then Digits(q, base, upper, room - 1) else [])
  }

  /** The number that digits in this order denote. */
  function Denotes(base: nat, ds: seq<char>): nat {
    if ds == [] then 0 else DigitOf(ds[0]) + base * Denotes(base, ds[1..])
  }

  lemma PowPositive(base: nat, n: nat)
    requires base > 0
    ensures Pow(base, n) > 0
  {
  }

  lemma Distribute(b: nat, x: nat, y: nat)
    ensures b * (x + y) == b * x + b * y
  {
  }

  lemma Associate(a: nat, b: nat, c: nat)
    ensures a * (b * c) == (a * b) * c
  {
  }

  lemma Monotone(b: nat, x: nat, y: nat)
    requires x <= y
    ensures b * x <= b * y
  {
  }

  /** One more digit d below a number low with m above it. */
  lemma DigitStep(b: nat, d: nat, q: nat, low: nat, m: nat, rest: nat)
    requires d < b && q == low + m * rest && low < m
    ensures d + b * q == (d + b * low) + (b * m) * rest
    ensures d + b * low < b * m
  {
    Distribute(b, low, m * rest);
    Associate(b, m, rest);
    Monotone(b, low, m - 1);
    Distribute(b, m - 1, 1);
  }

  /** ds denotes v but for what is left over. */
  predicate Covers(base: nat, ds: seq<char>, v: nat, rest: nat) {
    v == Denotes(base, ds) + Pow(base, |ds|) * rest && Denotes(base, ds) < Pow(base, |ds|)
  }

  lemma CoversMore(base: nat, c: char, ds: seq<char>, q: nat, rest: nat, v: nat)
    requires Covers(base, ds, q, rest) && v == DigitOf(c) + base * q && DigitOf(c) < base
    ensures Covers(base, [c] + ds, v, rest)
  {
    var low, m, d := Denotes(base, ds), Pow(base, |ds|), DigitOf(c);
    DigitStep(base, d, q, low, m, rest);
    assert ([c] + ds)[1..] == ds;
    assert Denotes(base, [c] + ds) == d + base * low;
    assert Pow(base, |[c] + ds|) == base * m;
  }

  lemma CoversNothing(base: nat, v: nat)
    ensures Covers(base, [], v, v)
  {
  }

  lemma {:induction false} Division(v: nat, b: nat)
    requires b > 0
    ensures v == Remainder(v, b) + b * Quotient(v, b)
  {
    if v >= b {
      Division(v - b, b);
      Distribute(b, 1, Quotient(v - b, b));
    }
  }

  /** What the digit loop computes with % and /. */
  lemma Machine(v: nat, b: nat)
    requires b > 0
    ensures v % b == Remainder(v, b) && v / b == Quotient(v, b)
  {
    Division(v, b);
    RemainderUnique(v, b, Quotient(v, b), Remainder(v, b));
  }

  lemma DigitDivision(v: nat, b: nat, upper: bool)
    requires 2 <= b <= 16
    ensures var d := DigitOf(DigitChar(Remainder(v, b), upper));
      v == d + b * Quotient(v, b) && d < b
  {
    Division(v, b);
    DigitBack(Remainder(v, b), upper);
  }

  /** The buffer denotes the value but for what is left over, which is nothing unless the room is used up. */
  lemma {:induction false} DigitsDenote(value: nat, base: nat, upper: bool, room: nat) returns (rest: nat)
    requires 2 <= base <= 16 && room > 0
    ensures Covers(base, Digits(value, base, upper, room), value, rest)
    ensures |Digits(value, base, upper, room)| < room ==> rest == 0
    decreases room
  {
    DigitDivision(value, base, upper);
    var q, c := Quotient(value, base), DigitChar(Remainder(value, base), upper);
    if q != 0 && room > 1 {
      rest := DigitsDenote(q, base, upper, room - 1);
      CoversMore(base, c, Digits(q, base, upper, room - 1), q, rest, value);
    } else {
      rest := q;
      CoversNothing(base, q);
      CoversMore(base, c, [], q, q, value);
      assert [c] + [] == [c];
    }
  }

  lemma RemainderUnique(v: nat, d: nat, q: nat, r: nat)
    requires r < d && v == r + d * q
    ensures v % d == r && v / d == q
  {
    var q', r' := v / d, v % d;
    assert v == r' + d * q';
    if q' > q {
      Monotone(d, q + 1, q');
      Distribute(d, q, 1);
    } else if q' < q {
      Monotone(d, q' + 1, q);
      Distribute(d, q', 1);
    }
  }

  lemma SmallQuotient(v: nat, d: nat, q: nat, r: nat)
    requires r < d && v == r + d * q && v < d
    ensures q == 0 && v == r
  {
    if q > 0 {
      Monotone(d, 1, q);
    }
  }

  /** In any case the value is denoted modulo base to the number of places. */
  lemma DigitsModulo(value: nat, base: nat, upper: bool, room: nat)
    requires 2 <= base <= 16 && room > 0
    ensures Pow(base, room) > 0 && Denotes(base, Digits(value, base, upper, room)) == value % Pow(base, room)
  {
    var ds := Digits(value, base, upper, room);
    var rest := DigitsDenote(value, base, upper, room);
    PowPositive(base, room);
    if |ds| == room {
      RemainderUnique(value, Pow(base, room), rest, Denotes(base, ds));
    } else {
      PowMonotone(base, |ds|, room);
      assert Pow(base, |ds|) * 0 == 0;
      RemainderUnique(value, Pow(base, room), 0, Denotes(base, ds));
    }
  }

  lemma {:induction false} PowMonotone(base: nat, m: nat, n: nat)
    requires base > 0 && m <= n
    ensures Pow(base, m) <= Pow(base, n)
    decreases n
  {
    if m < n {
      PowMonotone(base, m, n - 1);
      PowPositive(base, n - 1);
      Monotone(Pow(base, n - 1), 1, base);
    }
  }

  /** A value that fits is denoted exactly. */
  lemma DigitsExact(value: nat, base: nat, upper: bool, room: nat)
    requires 2 <= base <= 16 && room > 0 && value < Pow(base, room)
    ensures Denotes(base, Digits(value, base, upper, room)) == value
  {
    var ds := Digits(value, base, upper, room);
    var rest := DigitsDenote(value, base, upper, room);
    if |ds| == room {
      SmallQuotient(value, Pow(base, room), rest, Denotes(base, ds));
    } else {
      assert Pow(base, |ds|) * 0 == 0;
    }
  }

  /** And without leading zeros. */
  lemma {:induction false} DigitsCanonical(value: nat, base: nat, upper: bool, room: nat)
    requires 2 <= base <= 16 && room > 0 && 0 < value < Pow(base, room)
    ensures var ds := Digits(value, base, upper, room);
      DigitOf(ds[|ds| - 1]) != 0
    decreases room
  {
    var q := Quotient(value, base);
    DigitDivision(value, base, upper);
    if q != 0 {
      QuotientFits(value, base, q, Pow(base, room - 1));
      DigitsCanonical(q, base, upper, room - 1);
    }
  }

  lemma QuotientFits(v: nat, b: nat, q: nat, m: nat)
    requires b * q <= v < b * m && q != 0
    ensures q < m && m > 1
  {
    if q >= m {
      Monotone(b, m, q);
    }
  }

  // ---------------------------------------------------------------- the conversion buffer

  /** Zeros up to n characters, as far as there is room. */
  function ZerosTo(buf: seq<char>, n: nat): (r: seq<char>)
    ensures |r| == Max(|buf|, Min(n, ROOM))
  {
    buf + Repeat('0', Min(n, ROOM) - |buf|)
  }

  function Sign(negative: bool, f: Flags): seq<char> {
    if negative then ['-'] else if f.plus then ['+'] else if f.space then [' '] else []
  }

  /** The sign takes one column of a zero-padded field. */
  function FieldWidth(negative: bool, width: nat, f: Flags): nat {
    if !f.left && width > 0 && f.zeroPad && (negative || f.plus || f.space) then width - 1 else width
  }

  function WithZeros(ds: seq<char>, prec: nat, width: nat, f: Flags): seq<char> {
    if f.left then ds
    else if f.zeroPad then ZerosTo(ZerosTo(ds, prec), width)
    else ZerosTo(ds, prec)
  }

  function Put1(buf: seq<char>, c: char): seq<char> {
    if |buf| < ROOM then buf + [c] else buf
  }

  /** The '#' prefix, which may overwrite one or two characters in front. */
  function WithPrefix(buf: seq<char>, base: nat, prec: nat, width: nat, f: Flags): seq<char> {
    if !f.hash then buf
    else
      var cut := !f.precision && |buf| > 0 && (|buf| == prec || |buf| == width);
      var b1 := if cut then buf[..|buf| - 1] else buf;
      var b2 := if cut && |b1| > 0 && base == 16 then b1[..|b1| - 1] else b1;
      var b3 := if base == 16 then Put1(b2, if f.upper then 'X' else 'x') else if base == 2 then Put1(b2, 'b') else b2;
      Put1(b3, '0')
  }

  /** The buffer, last character of the text first, when _ntoa_format has filled it. */
  function Filled(ds: seq<char>, negative: bool, base: nat, prec: nat, width: nat, f: Flags): seq<char> {
    var buf := WithPrefix(WithZeros(ds, prec, width, f), base, prec, width, f);
    if |buf| < ROOM then buf + Sign(negative, f) else buf
  }

  /** What _out_rev makes of a buffer. */
  function Reversed(buf: seq<char>, width: nat, f: Flags): seq<char> {
    Repeat(' ', if f.left || f.zeroPad then 0 else width - |buf|) + Reverse(buf) +
      Repeat(' ', if f.left then width - |buf| else 0)
  }

  function FormatText(ds: seq<char>, negative: bool, base: nat, prec: nat, width: nat, f: Flags): seq<char> {
    var w := FieldWidth(negative, width, f);
    Reversed(Filled(ds, negative, base, prec, w, f), w, f)
  }

  /** The digits of a value; none for a zero with a precision. */
  function ValueDigits(value: nat, base: nat, f: Flags): seq<char>
    requires 2 <= base <= 16
  {
    if !f.precision || value != 0 then Digits(value, base, f.upper, ROOM) else []
  }

  /** The text of an integer conversion. */
  function IntText(value: nat, negative: bool, base: nat, prec: nat, width: nat, f: Flags): seq<char>
    requires 2 <= base <= 16
  {
    var g := if value == 0 then f.(hash := false) else f;
    FormatText(ValueDigits(value, base, f), negative, base, prec, width, g)
  }

  // ---------------------------------------------------------------- what the text means

  /** How many digits are asked for; the precision is ignored when the text is left-justified. */
  function Wanted(n: nat, prec: nat, f: Flags): nat {
    if f.left then n else Max(n, prec)
  }

  /** Everything the conversion asks for fits the buffer. */
  predicate Fits(n: nat, sign: nat, prec: nat, width: nat, f: Flags) {
    sign + Wanted(n, prec, f) <= ROOM && (f.zeroPad && !f.left ==> width <= ROOM)
  }

  /** Zeros between the sign and the digits. */
  function Zeros(n: nat, sign: nat, prec: nat, width: nat, f: Flags): int {
    if f.left then 0 else if f.zeroPad then Max(prec, if width > sign then width - sign else 0) - n else prec - n
  }

  lemma ZerosTwice(ds: seq<char>, m: nat, n: nat)
    requires |ds| <= ROOM && m <= ROOM && n <= ROOM
    ensures ZerosTo(ZerosTo(ds, m), n) == ds + Repeat('0', Max(m, n) - |ds|)
  {
  }

  /** A number in a field of the given width. */
  function Field(number: seq<char>, width: nat, left: bool): (r: seq<char>)
    ensures |r| == Max(width, |number|)
  {
    if left then number + Repeat(' ', width - |number|) else Repeat(' ', width - |number|) + number
  }

  lemma FilledLayout(ds: seq<char>, negative: bool, base: nat, prec: nat, width: nat, f: Flags)
    requires !f.hash && Fits(|ds|, |Sign(negative, f)|, prec, width, f)
    ensures Filled(ds, negative, base, prec, FieldWidth(negative, width, f), f) ==
      ds + Repeat('0', Zeros(|ds|, |Sign(negative, f)|, prec, width, f)) + Sign(negative, f)
  {
    var w := FieldWidth(negative, width, f);
    if f.left {
      assert ds + Repeat('0', 0) == ds;
    } else if f.zeroPad {
      ZerosTwice(ds, prec, w);
    }
  }

  lemma ReverseFilled(ds: seq<char>, z: int, sign: seq<char>)
    requires |sign| <= 1
    ensures Reverse(ds + Repeat('0', z) + sign) == sign + (Repeat('0', z) + Reverse(ds))
    ensures Reverse(Repeat('0', z) + Reverse(ds)) == ds + Repeat('0', z)
  {
  }

  lemma ReversedField(buf: seq<char>, w: nat, width: nat, f: Flags)
    requires w == width || (f.zeroPad && !f.left)
    requires f.zeroPad && !f.left ==> w <= width <= |buf|
    ensures Reversed(buf, w, f) == Field(Reverse(buf), width, f.left)
  {
  }

  /** Sign, zeros and digits in their field. */
  lemma FormatTextLayout(ds: seq<char>, negative: bool, base: nat, prec: nat, width: nat, f: Flags)
    requires !f.hash && Fits(|ds|, |Sign(negative, f)|, prec, width, f)
    ensures var zeros := Zeros(|ds|, |Sign(negative, f)|, prec, width, f);
      FormatText(ds, negative, base, prec, width, f) ==
        Field(Sign(negative, f) + (Repeat('0', zeros) + Reverse(ds)), width, f.left)
  {
    var zeros := Zeros(|ds|, |Sign(negative, f)|, prec, width, f);
    FilledLayout(ds, negative, base, prec, width, f);
    ReverseFilled(ds, zeros, Sign(negative, f));
    ReversedField(ds + Repeat('0', zeros) + Sign(negative, f), FieldWidth(negative, width, f), width, f);
  }

  /** High zeros do not change what digits denote. */
  lemma {:induction false} HighZeros(base: nat, ds: seq<char>, n: int)
    ensures Denotes(base, ds + Repeat('0', n)) == Denotes(base, ds)
    decreases |ds| + if n > 0 then n else 0
  {
    if ds != [] {
      assert (ds + Repeat('0', n))[1..] == ds[1..] + Repeat('0', n);
      HighZeros(base, ds[1..], n);
    } else if n > 0 {
      assert (ds + Repeat('0', n))[1..] == [] + Repeat('0', n - 1);
      HighZeros(base, [], n - 1);
    } else {
      assert ds + Repeat('0', n) == ds;
    }
  }

  /** Zeros and digits, as they stand in the text. */
  function NumberDigits(value: nat, negative: bool, base: nat, prec: nat, width: nat, f: Flags): seq<char>
    requires 2 <= base <= 16
  {
    var ds := ValueDigits(value, base, f);
    Repeat('0', Zeros(|ds|, |Sign(negative, f)|, prec, width, f)) + Reverse(ds)
  }

  /** The digits of the text, read from the last one, denote the value. */
  lemma NumberDenotes(value: nat, negative: bool, base: nat, prec: nat, width: nat, f: Flags)
    requires 2 <= base <= 16 && value < Pow(base, ROOM)
    ensures Denotes(base, Reverse(NumberDigits(value, negative, base, prec, width, f))) == value
  {
    var ds := ValueDigits(value, base, f);
    var zeros := Zeros(|ds|, |Sign(negative, f)|, prec, width, f);
    ReverseFilled(ds, zeros, []);
    HighZeros(base, ds, zeros);
    if ds != [] {
      DigitsExact(value, base, f.upper, ROOM);
    }
  }

  /**
   * Without '#' the text is the sign and the digits in their field.  Its length is that of the wider
   * of the field and the number, and a field padded with zeros has no spaces.
   */
  lemma IntTextMeaning(value: nat, negative: bool, base: nat, prec: nat, width: nat, f: Flags)
    requires 2 <= base <= 16 && !f.hash
    requires Fits(|ValueDigits(value, base, f)|, |Sign(negative, f)|, prec, width, f)
    ensures var text, sign := IntText(value, negative, base, prec, width, f), Sign(negative, f);
      var digits := NumberDigits(value, negative, base, prec, width, f);
      text == Field(sign + digits, width, f.left) &&
      |text| == Max(width, |sign| + Wanted(|ValueDigits(value, base, f)|, prec, f)) &&
      (f.zeroPad && !f.left ==> |text| == |sign + digits|)
  {
    assert f.(hash := false) == f;
    FormatTextLayout(ValueDigits(value, base, f), negative, base, prec, width, f);
  }

  // ---------------------------------------------------------------- where the buffer is too small

  /** A blank as the sign may be lost unnoticed: the padding of the field has one more blank then. */
  predicate BlankSign(n: nat, sign: seq<char>, prec: nat, width: nat, f: Flags) {
    sign == [' '] && !f.left && !f.zeroPad && Wanted(n, prec, f) == ROOM && width > ROOM
  }

  lemma {:induction false} DigitsNoSign(value: nat, base: nat, upper: bool, room: nat)
    requires 2 <= base <= 16 && room > 0
    ensures forall c <- Digits(value, base, upper, room) :: c != '-' && c != '+' && c != ' '
    decreases room
  {
    var q := Quotient(value, base);
    if q != 0 && room > 1 {
      DigitsNoSign(q, base, upper, room - 1);
    }
  }

  /** What does not fit fills the buffer, and the sign is dropped. */
  lemma Overfull(ds: seq<char>, negative: bool, base: nat, prec: nat, width: nat, f: Flags)
    requires !f.hash && |ds| <= ROOM && !Fits(|ds|, |Sign(negative, f)|, prec, width, f)
    ensures var w := FieldWidth(negative, width, f);
      |WithZeros(ds, prec, w, f)| == ROOM &&
      FormatText(ds, negative, base, prec, width, f) == Reversed(WithZeros(ds, prec, w, f), w, f)
  {
  }

  /** To the left there is a digit where the sign should be. */
  lemma OverfullLeft(ds: seq<char>, negative: bool, base: nat, prec: nat, width: nat, f: Flags)
    requires !f.hash && f.left && |ds| <= ROOM && !Fits(|ds|, |Sign(negative, f)|, prec, width, f)
    requires forall c <- ds :: c != '-' && c != '+' && c != ' '
    ensures FormatText(ds, negative, base, prec, width, f) !=
      Field(Sign(negative, f) + (Repeat('0', 0) + Reverse(ds)), width, true)
  {
    Overfull(ds, negative, base, prec, width, f);
    var text := FormatText(ds, negative, base, prec, width, f);
    var w := FieldWidth(negative, width, f);
    assert WithZeros(ds, prec, w, f) == ds && |ds| == ROOM;
    assert text == Repeat(' ', 0) + Reverse(ds) + Repeat(' ', w - |ds|);
    assert text[0] == Reverse(ds)[0] == ds[|ds| - 1];
    assert ds[|ds| - 1] in ds;
    var number := Sign(negative, f) + (Repeat('0', 0) + Reverse(ds));
    assert Field(number, width, true)[0] == number[0] == Sign(negative, f)[0];
  }

  /** With zeros for padding the text is too short. */
  lemma OverfullZeros(ds: seq<char>, negative: bool, base: nat, prec: nat, width: nat, f: Flags)
    requires !f.hash && !f.left && f.zeroPad && |ds| <= ROOM && !Fits(|ds|, |Sign(negative, f)|, prec, width, f)
    ensures var sign := Sign(negative, f);
      |FormatText(ds, negative, base, prec, width, f)| <
        |sign + (Repeat('0', Zeros(|ds|, |sign|, prec, width, f)) + Reverse(ds))|
  {
    Overfull(ds, negative, base, prec, width, f);
  }

  /** With blanks for padding there are too many of them, or too few characters. */
  lemma OverfullBlanks(ds: seq<char>, negative: bool, base: nat, prec: nat, width: nat, f: Flags)
    requires !f.hash && !f.left && !f.zeroPad && |ds| <= ROOM && !Fits(|ds|, |Sign(negative, f)|, prec, width, f)
    ensures var sign := Sign(negative, f);
      FormatText(ds, negative, base, prec, width, f) ==
        Field(sign + (Repeat('0', prec - |ds|) + Reverse(ds)), width, false) <==>
      BlankSign(|ds|, sign, prec, width, f)
  {
    Overfull(ds, negative, base, prec, width, f);
    var sign := Sign(negative, f);
    var text := FormatText(ds, negative, base, prec, width, f);
    var number := sign + (Repeat('0', prec - |ds|) + Reverse(ds));
    var field := Field(number, width, false);
    var b := ds + Repeat('0', Min(prec, ROOM) - |ds|);
    assert text == Repeat(' ', width - ROOM) + Reverse(b) + Repeat(' ', 0);
    if |number| <= width {
      var i := width - ROOM - 1;
      assert text[i] == ' ';
      assert field[i] == number[i - (width - |number|)];
      if BlankSign(|ds|, sign, prec, width, f) {
        ReverseFilled(ds, prec - |ds|, []);
        assert Reverse(b) == Repeat('0', prec - |ds|) + Reverse(ds);
        assert text == field;
      }
    } else {
      assert |text| != |field|;
    }
  }

  /** Without '#' the text is the number in its field exactly if it fits the buffer, or no more than a blank is lost. */
  lemma IntTextExactly(value: nat, negative: bool, base: nat, prec: nat, width: nat, f: Flags)
    requires 2 <= base <= 16 && !f.hash
    ensures var n, sign := |ValueDigits(value, base, f)|, Sign(negative, f);
      IntText(value, negative, base, prec, width, f) ==
        Field(sign + NumberDigits(value, negative, base, prec, width, f), width, f.left) <==>
      Fits(n, |sign|, prec, width, f) || BlankSign(n, sign, prec, width, f)
  {
    var ds := ValueDigits(value, base, f);
    assert f.(hash := false) == f;
    if Fits(|ds|, |Sign(negative, f)|, prec, width, f) {
      FormatTextLayout(ds, negative, base, prec, width, f);
    } else if f.left {
      DigitsNoSign(value, base, f.upper, ROOM);
      OverfullLeft(ds, negative, base, prec, width, f);
    } else if f.zeroPad {
      OverfullZeros(ds, negative, base, prec, width, f);
    } else {
      OverfullBlanks(ds, negative, base, prec, width, f);
    }
  }
}
