/**
 * What a conversion of the printf engine means (_vsnprintf in plat/common/sane_printf.c): the letter, the flags, the
 * width, the precision and the length modifier, by what stands in the output.
 */
module Conversions {
  import opened IntegerText
  import opened Printf

  // ---------------------------------------------------------------- fields

  /** The number stands at one end of its field, and the rest is blank. */
  lemma FieldPlaces(number: seq<char>, width: nat, left: bool, k: nat)
    requires k < |Field(number, width, left)|
    ensures var r, pad := Field(number, width, left), if |number| < width then width - |number| else 0;
      |r| == |number| + pad &&
      r[k] == if left then (if k < |number| then number[k] else ' ') else (if k < pad then ' ' else number[k - pad])
  {
  }

  /** The same for characters and strings; a precision cuts a string. */
  lemma StringPlaces(s: seq<char>, spec: Spec, k: nat)
    requires k < |Justified(StringText(s, spec), |StringText(s, spec)|, spec)|
    ensures var t := if spec.f.precision && spec.prec < |s| then s[..spec.prec] else s;
      var r := Justified(StringText(s, spec), |StringText(s, spec)|, spec);
      var pad := if |t| < spec.width then spec.width - |t| else 0;
      |r| == |t| + pad &&
      r[k] == if spec.f.left then (if k < |t| then t[k] else ' ') else (if k < pad then ' ' else t[k - pad])
  {
    assert StringText(s, spec) == if spec.f.precision && spec.prec < |s| then s[..spec.prec] else s;
  }

  // ---------------------------------------------------------------- integers

  predicate LetterBase(c: char, base: nat) {
    (c == 'd' || c == 'i' || c == 'u' ==> base == 10) && (c == 'x' || c == 'X' ==> base == 16) &&
    (c == 'o' ==> base == 8) && (c == 'b' ==> base == 2)
  }

  predicate IsSignedLetter(c: char) {
    c == 'd' || c == 'i'
  }

  /** How many values an integer of this length has. */
  function Range(length: Length): nat {
    match length
    case Chars => 256
    case Short => 65536
    case Plain => 4294967296
    case Long => 18446744073709551616
  }

  /** v is the argument i cut to the length, as a signed or unsigned number. */
  predicate CutTo(i: int, length: Length, signed: bool, v: int) {
    v % Range(length) == i % Range(length) &&
    if signed then -(Range(length) / 2) <= v < Range(length) / 2 else 0 <= v < Range(length)
  }

  lemma CutChars(i: int)
    ensures CutTo(i, Chars, true, Signed(i, Chars)) && CutTo(i, Chars, false, Unsigned(i, Chars))
  {
    var q, r := (i + 128) / 256, (i + 128) % 256;
    assert i == 256 * q + (r - 128);
    assert Signed(i, Chars) == r - 128;
  }

  lemma CutShort(i: int)
    ensures CutTo(i, Short, true, Signed(i, Short)) && CutTo(i, Short, false, Unsigned(i, Short))
  {
    var q, r := (i + 32768) / 65536, (i + 32768) % 65536;
    assert i == 65536 * q + (r - 32768);
    assert Signed(i, Short) == r - 32768;
  }

  lemma CutPlain(i: int)
    ensures CutTo(i, Plain, true, Signed(i, Plain)) && CutTo(i, Plain, false, Unsigned(i, Plain))
  {
    var q, r := (i + 2147483648) / 4294967296, (i + 2147483648) % 4294967296;
    assert i == 4294967296 * q + (r - 2147483648);
    assert Signed(i, Plain) == r - 2147483648;
  }

  lemma CutLong(i: int)
    ensures CutTo(i, Long, true, Signed(i, Long)) && CutTo(i, Long, false, Unsigned(i, Long))
  {
    var q, r := (i + 9223372036854775808) / 18446744073709551616, (i + 9223372036854775808) % 18446744073709551616;
    assert i == 18446744073709551616 * q + (r - 9223372036854775808);
    assert Signed(i, Long) == r - 9223372036854775808;
  }

  lemma CutExists(i: int, length: Length)
    ensures CutTo(i, length, true, Signed(i, length)) && CutTo(i, length, false, Unsigned(i, length))
  {
    if length == Chars {
      CutChars(i);
    } else if length == Short {
      CutShort(i);
    } else if length == Plain {
      CutPlain(i);
    } else {
      CutLong(i);
    }
  }

  /** The sign in front: a minus, or for signed conversions what the flags ask for. */
  predicate SignIs(c: char, f: Flags, v: int, sign: seq<char>) {
    if v < 0 then sign == ['-']
    else if IsSignedLetter(c) && f.plus then sign == ['+']
    else if IsSignedLetter(c) && f.space then sign == [' ']
    else sign == []
  }

  /** A leading zero is there only because the precision or a zero-padded width asks for it. */
  predicate ZerosAsked(spec: Spec, sign: seq<char>, digits: seq<char>) {
    |digits| > 1 && DigitOf(digits[0]) == 0 ==>
      !spec.f.left &&
      ((spec.f.precision && |digits| == spec.prec) ||
       (spec.f.zeroPad && !spec.f.precision && |sign| + |digits| == spec.width))
  }

  predicate LettersOf(c: char, digits: seq<char>) {
    forall d <- digits :: (c == 'X' ==> !('a' <= d <= 'f')) && (c != 'X' ==> !('A' <= d <= 'F'))
  }

  lemma {:induction false} DigitsLength(value: nat, base: nat, upper: bool, room: nat, k: nat)
    requires 2 <= base <= 16 && 0 < k <= room && value < Pow(base, k)
    ensures |Digits(value, base, upper, room)| <= k
    decreases k
  {
    var q := Quotient(value, base);
    DigitDivision(value, base, upper);
    if q != 0 && room > 1 {
      QuotientFits(value, base, q, Pow(base, k - 1));
      DigitsLength(q, base, upper, room - 1, k - 1);
    }
  }

  lemma {:induction false} DigitsCase(value: nat, base: nat, upper: bool, room: nat)
    requires 2 <= base <= 16 && room > 0
    ensures forall d <- Digits(value, base, upper, room) ::
      (upper ==> !('a' <= d <= 'f')) && (!upper ==> !('A' <= d <= 'F'))
    decreases room
  {
    var q := Quotient(value, base);
    if q != 0 && room > 1 {
      DigitsCase(q, base, upper, room - 1);
    }
  }

  /**
   * The output of an integer conversion without '#', where everything fits the conversion buffer: sign and digits in
   * a field.  The digits denote the value in the base of the letter, in the letter's case, with no zeros but those
   * asked for.
   */
  lemma {:induction false} IntegerMeaning(c: char, spec: Spec, i: int, base: nat)
    returns (v: int, sign: seq<char>, digits: seq<char>)
    requires IsInteger(c) && LetterBase(c, base) && (spec.f.hash ==> base == 10)
    requires spec.f.precision || spec.prec == 0
    requires spec.prec < 32 && (spec.f.zeroPad && !spec.f.precision && !spec.f.left ==> spec.width <= 32)
    requires forall w :: CutTo(i, spec.length, IsSignedLetter(c), w) ==> w < Pow(base, 31) && -w < Pow(base, 31)
    ensures CutTo(i, spec.length, IsSignedLetter(c), v) && SignIs(c, spec.f, v, sign)
    ensures IntegerOutput(c, spec, i) == Field(sign + digits, spec.width, spec.f.left)
    ensures Denotes(base, Reverse(digits)) == (if v < 0 then -v else v)
    ensures LettersOf(c, digits) && ZerosAsked(spec, sign, digits)
    ensures spec.f.precision && !spec.f.left ==> |digits| >= spec.prec
    ensures spec.f.zeroPad && !spec.f.precision && !spec.f.left ==> |sign| + |digits| >= spec.width
  {
    CutExists(i, spec.length);
    v := if IsSignedLetter(c) then Signed(i, spec.length) else Unsigned(i, spec.length);
    var f := IntFlags(c, spec.f);
    sign, digits := NumberMeaning(Magnitude(v), v < 0, base, spec.prec, spec.width, f);
  }

  /** What '#' puts in front of a number that is not zero. */
  predicate PrefixIs(c: char, prefix: seq<char>) {
    (c == 'x' ==> prefix == ['0', 'x']) && (c == 'X' ==> prefix == ['0', 'X']) &&
    (c == 'b' ==> prefix == ['0', 'b']) && (c == 'o' ==> prefix == ['0'])
  }

  /** With '#' and nothing else the text is the prefix and the digits; a zero has no prefix. */
  lemma {:induction false} HashMeaning(c: char, length: Length, i: int, base: nat)
    returns (prefix: seq<char>, digits: seq<char>)
    requires c in {'x', 'X', 'o', 'b'} && LetterBase(c, base) && Unsigned(i, length) < Pow(base, 29)
    ensures PrefixIs(c, prefix) && LettersOf(c, digits) && Denotes(base, Reverse(digits)) == Unsigned(i, length)
    ensures IntegerOutput(c, Spec(NO_FLAGS.(hash := true), 0, 0, length), i) ==
      (if Unsigned(i, length) == 0 then [] else prefix) + digits
  {
    var f := IntFlags(c, NO_FLAGS.(hash := true));
    HashOutput(c, length, i, base);
    prefix := Reverse(HashTail(base, f.upper));
    HashPrefix(c, base);
    digits := HashNumber(Unsigned(i, length), base, f);
  }

  lemma {:induction false} HashOutput(c: char, length: Length, i: int, base: nat)
    requires c in {'x', 'X', 'o', 'b'} && LetterBase(c, base)
    ensures var f := IntFlags(c, NO_FLAGS.(hash := true));
      IntegerOutput(c, Spec(NO_FLAGS.(hash := true), 0, 0, length), i) ==
        IntText(Unsigned(i, length), false, base, 0, 0, f) &&
      f == NO_FLAGS.(hash := true, upper := c == 'X')
  {
  }

  lemma {:induction false} HashPrefix(c: char, base: nat)
    requires c in {'x', 'X', 'o', 'b'} && LetterBase(c, base)
    ensures PrefixIs(c, Reverse(HashTail(base, c == 'X')))
  {
  }

  /** The characters that are appended to the digits, which stand in reverse. */
  function HashTail(base: nat, upper: bool): seq<char> {
    if base == 16 then [if upper then 'X' else 'x', '0'] else if base == 2 then ['b', '0'] else ['0']
  }

  lemma {:induction false} HashNumber(m: nat, base: nat, f: Flags) returns (digits: seq<char>)
    requires base in {2, 8, 16} && m < Pow(base, 29) && f.hash
    requires !f.zeroPad && !f.left && !f.plus && !f.space && !f.precision
    ensures IntText(m, false, base, 0, 0, f) == (if m == 0 then [] else Reverse(HashTail(base, f.upper))) + digits
    ensures Denotes(base, Reverse(digits)) == m
    ensures forall d <- digits :: (f.upper ==> !('a' <= d <= 'f')) && (!f.upper ==> !('A' <= d <= 'F'))
  {
    var ds := Digits(m, base, f.upper, ROOM);
    digits := Reverse(ds);
    DigitsRead(m, base, f.upper);
    if m == 0 {
      PlainText(ds, base, f.(hash := false));
      assert [] + digits == digits;
    } else {
      HashText(ds, base, f);
    }
  }

  lemma {:induction false} DigitsRead(m: nat, base: nat, upper: bool)
    requires 2 <= base <= 16 && m < Pow(base, 29)
    ensures var ds := Digits(m, base, upper, ROOM);
      0 < |ds| <= 29 && Reverse(Reverse(ds)) == ds && Denotes(base, Reverse(Reverse(ds))) == m &&
      forall d <- Reverse(ds) :: (upper ==> !('a' <= d <= 'f')) && (!upper ==> !('A' <= d <= 'F'))
  {
    var ds := Digits(m, base, upper, ROOM);
    PowMonotone(base, 29, 32);
    DigitsExact(m, base, upper, ROOM);
    DigitsCase(m, base, upper, ROOM);
    DigitsLength(m, base, upper, ROOM, 29);
    assert Reverse(Reverse(ds)) == ds;
    ReverseElements(ds);
  }

  lemma {:induction false} ReverseElements(s: seq<char>)
    ensures forall c <- Reverse(s) :: c in s
  {
  }

  lemma {:induction false} PlainText(ds: seq<char>, base: nat, f: Flags)
    requires 0 < |ds| <= 29 && !f.hash && !f.zeroPad && !f.left && !f.plus && !f.space
    ensures FormatText(ds, false, base, 0, 0, f) == Reverse(ds)
  {
    assert WithZeros(ds, 0, 0, f) == ds;
    assert ds + [] == ds;
  }

  lemma {:induction false} HashText(ds: seq<char>, base: nat, f: Flags)
    requires 0 < |ds| <= 29 && base in {2, 8, 16} && f.hash
    requires !f.zeroPad && !f.left && !f.plus && !f.space && !f.precision
    ensures FormatText(ds, false, base, 0, 0, f) == Reverse(HashTail(base, f.upper)) + Reverse(ds)
  {
    var tail := HashTail(base, f.upper);
    assert WithZeros(ds, 0, 0, f) == ds;
    PrefixAppended(ds, base, f);
    assert ds + tail + [] == ds + tail;
    assert Filled(ds, false, base, 0, 0, f) == ds + tail;
    ReverseBoth(ds, tail);
  }

  lemma {:induction false} PrefixAppended(ds: seq<char>, base: nat, f: Flags)
    requires 0 < |ds| <= 29 && base in {2, 8, 16} && f.hash && !f.precision
    ensures WithPrefix(ds, base, 0, 0, f) == ds + HashTail(base, f.upper)
  {
  }

  lemma {:induction false} ReverseBoth(a: seq<char>, b: seq<char>)
    ensures Reverse(a + b) == Reverse(b) + Reverse(a)
  {
  }

  /** The same for a magnitude and the flags that are left. */
  lemma {:induction false} NumberMeaning(m: nat, negative: bool, base: nat, prec: nat, width: nat, f: Flags)
    returns (sign: seq<char>, digits: seq<char>)
    requires 2 <= base <= 16 && m < Pow(base, 31) && !f.hash && prec < 32 && (f.zeroPad && !f.left ==> width <= 32)
    ensures sign == Sign(negative, f) && digits == NumberDigits(m, negative, base, prec, width, f)
    ensures IntText(m, negative, base, prec, width, f) == Field(sign + digits, width, f.left)
    ensures Denotes(base, Reverse(digits)) == m
    ensures forall d <- digits :: (f.upper ==> !('a' <= d <= 'f')) && (!f.upper ==> !('A' <= d <= 'F'))
    ensures |digits| > 1 && DigitOf(digits[0]) == 0 ==>
      !f.left && (|digits| == prec || (f.zeroPad && |sign| + |digits| == width))
    ensures !f.left ==> |digits| >= prec && (f.zeroPad ==> |sign| + |digits| >= width)
  {
    sign, digits := Sign(negative, f), NumberDigits(m, negative, base, prec, width, f);
    DigitsAreFew(m, base, f);
    PowMonotone(base, 31, 32);
    IntTextExactly(m, negative, base, prec, width, f);
    NumberDenotes(m, negative, base, prec, width, f);
    if !f.precision || m != 0 {
      DigitsCase(m, base, f.upper, ROOM);
    }
    DigitsOfNumber(m, negative, base, prec, width, f);
    LeadingDigit(m, negative, base, prec, width, f);
  }

  lemma DigitsAreFew(m: nat, base: nat, f: Flags)
    requires 2 <= base <= 16 && m < Pow(base, 31)
    ensures |ValueDigits(m, base, f)| <= 31
  {
    if !f.precision || m != 0 {
      DigitsLength(m, base, f.upper, ROOM, 31);
    }
  }

  /** The characters of the number are zeros and digits. */
  lemma DigitsOfNumber(m: nat, negative: bool, base: nat, prec: nat, width: nat, f: Flags)
    requires 2 <= base <= 16
    ensures forall d <- NumberDigits(m, negative, base, prec, width, f) :: d == '0' || d in ValueDigits(m, base, f)
  {
  }

  /** Without zeros in front the first digit is not zero, unless it is the only one. */
  lemma LeadingDigit(m: nat, negative: bool, base: nat, prec: nat, width: nat, f: Flags)
    requires 2 <= base <= 16 && m < Pow(base, ROOM)
    ensures var n, s := NumberDigits(m, negative, base, prec, width, f), |Sign(negative, f)|;
      var zeros := Zeros(|ValueDigits(m, base, f)|, s, prec, width, f);
      zeros <= 0 && |n| > 1 ==> DigitOf(n[0]) != 0
  {
    var ds := ValueDigits(m, base, f);
    if m > 0 {
      DigitsCanonical(m, base, f.upper, ROOM);
    }
    assert Reverse(ds) == Repeat('0', 0) + Reverse(ds);
  }

  // ---------------------------------------------------------------- specifications as they are written

  function Decimal(n: nat): seq<char> {
    if n < 10 then ['0' + n as char] else Decimal(n / 10) + ['0' + (n % 10) as char]
  }

  function If(b: bool, t: seq<char>): seq<char> {
    if b then t else []
  }

  function LengthText(length: Length): seq<char> {
    match length
    case Plain => []
    case Chars => ['h', 'h']
    case Short => ['h']
    case Long => ['l']
  }

  function FlagText(f: Flags): seq<char> {
    If(f.left, ['-']) + (If(f.zeroPad, ['0']) + (If(f.plus, ['+']) + (If(f.space, [' ']) + If(f.hash, ['#']))))
  }

  /** Flags, width, precision and length as a format has them. */
  function Written(spec: Spec): seq<char> {
    FlagText(spec.f) + (If(spec.width > 0, Decimal(spec.width)) +
      (If(spec.f.precision, ['.'] + Decimal(spec.prec)) + LengthText(spec.length)))
  }

  lemma {:induction false} DecimalStarts(n: nat)
    ensures Decimal(n) != [] && IsDigit(Decimal(n)[0]) && (n > 0 ==> Decimal(n)[0] != '0')
  {
    if n >= 10 {
      DecimalStarts(n / 10);
    }
  }

  lemma {:induction false} DecimalRead(n: nat, rest: seq<char>)
    requires n < UINT_SIZE
    ensures ReadNumber(Decimal(n) + rest, 0) == ReadNumber(rest, n)
  {
    var k := n % 10;
    var d := '0' + k as char;
    if n < 10 {
      DigitRead(k, rest, 0);
    } else {
      assert Decimal(n) + rest == Decimal(n / 10) + ([d] + rest);
      DecimalRead(n / 10, [d] + rest);
      DigitRead(k, rest, n / 10);
    }
  }

  lemma {:induction false} DigitRead(k: nat, rest: seq<char>, acc: nat)
    requires k < 10 && acc * 10 + k < UINT_SIZE
    ensures ReadNumber(['0' + k as char] + rest, acc) == ReadNumber(rest, acc * 10 + k)
  {
    assert (['0' + k as char] + rest)[1..] == rest;
  }

  /** The text reads as the number n, whatever comes behind it. */
  predicate Reads(t: seq<char>, n: nat, rest: seq<char>) {
    t != [] && IsDigit(t[0]) && ReadNumber(t + rest, 0) == (n, rest)
  }

  lemma {:induction false} DecimalReads(n: nat, rest: seq<char>)
    requires n < UINT_SIZE && (rest != [] ==> !IsDigit(rest[0]))
    ensures Reads(Decimal(n), n, rest)
  {
    DecimalStarts(n);
    DecimalRead(n, rest);
  }

  lemma {:induction false} FlagRead(b: bool, c: char, rest: seq<char>, f: Flags)
    requires IsFlag(c)
    ensures ReadFlags(If(b, [c]) + rest, f) == ReadFlags(rest, if b then SetFlag(f, c) else f)
  {
    if b {
      assert ([c] + rest)[1..] == rest;
    } else {
      assert [] + rest == rest;
    }
  }

  lemma {:induction false} FlagsRead(f: Flags, rest: seq<char>)
    requires rest != [] ==> !IsFlag(rest[0])
    ensures ReadFlags(FlagText(f) + rest, NO_FLAGS) == (f.(upper := false, precision := false), rest)
  {
    var t3 := If(f.plus, ['+']) + (If(f.space, [' ']) + If(f.hash, ['#']));
    var t2 := If(f.zeroPad, ['0']) + t3;
    assert FlagText(f) + rest == If(f.left, ['-']) + (t2 + rest);
    assert t2 + rest == If(f.zeroPad, ['0']) + (t3 + rest);
    var f1 := NO_FLAGS.(left := f.left);
    FlagRead(f.left, '-', t2 + rest, NO_FLAGS);
    FlagRead(f.zeroPad, '0', t3 + rest, f1);
    SignFlagsRead(f, f1.(zeroPad := f.zeroPad), rest);
  }

  lemma {:induction false} SignFlagsRead(f: Flags, g: Flags, rest: seq<char>)
    requires (rest != [] ==> !IsFlag(rest[0])) && !g.plus && !g.space && !g.hash
    ensures var t := If(f.plus, ['+']) + (If(f.space, [' ']) + If(f.hash, ['#']));
      ReadFlags(t + rest, g) == (g.(plus := f.plus, space := f.space, hash := f.hash), rest)
  {
    var t5 := If(f.hash, ['#']);
    var t4 := If(f.space, [' ']) + t5;
    assert If(f.plus, ['+']) + t4 + rest == If(f.plus, ['+']) + (t4 + rest);
    assert t4 + rest == If(f.space, [' ']) + (t5 + rest);
    var g1 := g.(plus := f.plus);
    FlagRead(f.plus, '+', t4 + rest, g);
    FlagRead(f.space, ' ', t5 + rest, g1);
    FlagRead(f.hash, '#', rest, g1.(space := f.space));
  }

  lemma {:induction false} WidthRead(spec: Spec, width: nat, t: seq<char>, rest: seq<char>, args: seq<Arg>)
    requires spec.width == 0 && if width == 0 then t == [] else Reads(t, width, rest)
    requires rest != [] && !IsDigit(rest[0]) && rest[0] != '*'
    ensures ReadWidth(Reading(spec, t + rest, args)) == Some(Reading(spec.(width := width), rest, args))
  {
    if width > 0 {
      assert (t + rest)[0] == t[0];
    } else {
      assert t + rest == rest;
    }
  }

  lemma {:induction false} PrecisionRead(
      spec: Spec, precision: bool, prec: nat, t: seq<char>, rest: seq<char>, args: seq<Arg>)
    requires spec.prec == 0 && !spec.f.precision && if precision then Reads(t, prec, rest) else t == [] && prec == 0
    requires rest != [] && !IsDigit(rest[0]) && rest[0] != '.'
    ensures ReadPrecision(Reading(spec, If(precision, ['.'] + t) + rest, args)) ==
      Some(Reading(spec.(f := spec.f.(precision := precision), prec := prec), rest, args))
  {
    if precision {
      var u := t + rest;
      assert ['.'] + t + rest == ['.'] + u;
      assert (['.'] + u)[1..] == u && u[0] == t[0];
    } else {
      assert [] + rest == rest;
    }
  }

  lemma {:induction false} LengthRead(spec: Spec, length: Length, c: char, rest: seq<char>, args: seq<Arg>)
    requires spec.length == Plain && !(c in {'l', 'h', 't', 'j', 'z'})
    ensures ReadLength(Reading(spec, LengthText(length) + ([c] + rest), args)) ==
      Reading(spec.(length := length), [c] + rest, args)
  {
    var t := LengthText(length) + ([c] + rest);
    match length
    case Plain => assert t == [c] + rest;
    case Chars => assert t[1..] == ['h'] + ([c] + rest) && t[2..] == [c] + rest;
    case Short => assert t[1..] == [c] + rest;
    case Long => assert t[1..] == [c] + rest;
  }

  /** What no specification goes on with. */
  predicate IsLetter(c: char) {
    !IsFlag(c) && !IsDigit(c) && !(c in {'*', '.', 'l', 'h', 't', 'j', 'z'})
  }

  /** A written specification is read back, and reading stops at the conversion letter. */
  lemma {:induction false} SpecRead(spec: Spec, c: char, rest: seq<char>, args: seq<Arg>)
    requires spec.width < UINT_SIZE && spec.prec < UINT_SIZE && (spec.f.precision || spec.prec == 0) && !spec.f.upper
    requires IsLetter(c)
    ensures ReadSpec(Written(spec) + ([c] + rest), args) == Some(Reading(spec, [c] + rest, args))
  {
    var t3 := LengthText(spec.length) + ([c] + rest);
    var tp, tw := if spec.f.precision then Decimal(spec.prec) else [], If(spec.width > 0, Decimal(spec.width));
    var t2 := If(spec.f.precision, ['.'] + tp) + t3;
    assert Written(spec) + ([c] + rest) == FlagText(spec.f) + (tw + t2);
    LengthStarts(spec.length, c, rest);
    PrecisionStarts(spec.f.precision, tp, t3);
    if spec.f.precision {
      DecimalReads(spec.prec, t3);
    }
    if spec.width > 0 {
      DecimalReads(spec.width, t2);
      DecimalStarts(spec.width);
    }
    PartsRead(spec, tw, tp, c, rest, args);
  }

  /** Text that starts like what follows the flags and the width. */
  predicate Follows(t: seq<char>) {
    t != [] && !IsFlag(t[0]) && !IsDigit(t[0]) && t[0] != '*'
  }

  /** The parts of a specification read one after the other. */
  lemma {:induction false} PartsRead(
      spec: Spec, tw: seq<char>, tp: seq<char>, c: char, rest: seq<char>, args: seq<Arg>)
    requires IsLetter(c) && !spec.f.upper
    requires var t3 := LengthText(spec.length) + ([c] + rest);
      var t2 := If(spec.f.precision, ['.'] + tp) + t3;
      (if spec.f.precision then Reads(tp, spec.prec, t3) else tp == [] && spec.prec == 0) &&
      (if spec.width == 0 then tw == [] else Reads(tw, spec.width, t2) && !IsFlag(tw[0])) &&
      Follows(t2) && Follows(t3) && t3[0] != '.'
    ensures var t3 := LengthText(spec.length) + ([c] + rest);
      var t2 := If(spec.f.precision, ['.'] + tp) + t3;
      ReadSpec(FlagText(spec.f) + (tw + t2), args) == Some(Reading(spec, [c] + rest, args))
  {
    var t3 := LengthText(spec.length) + ([c] + rest);
    var t2 := If(spec.f.precision, ['.'] + tp) + t3;
    assert tw == [] ==> tw + t2 == t2;
    FlagsRead(spec.f, tw + t2);
    var s0 := Spec(spec.f.(precision := false), 0, 0, Plain);
    WidthRead(s0, spec.width, tw, t2, args);
    var s1 := s0.(width := spec.width);
    PrecisionRead(s1, spec.f.precision, spec.prec, tp, t3, args);
    var s2 := s1.(f := spec.f, prec := spec.prec);
    LengthRead(s2, spec.length, c, rest, args);
  }

  lemma LengthStarts(length: Length, c: char, rest: seq<char>)
    requires IsLetter(c)
    ensures var t := LengthText(length) + ([c] + rest); Follows(t) && t[0] != '.'
  {
  }

  lemma PrecisionStarts(precision: bool, tp: seq<char>, t: seq<char>)
    requires Follows(t)
    ensures Follows(If(precision, ['.'] + tp) + t)
  {
    assert [] + t == t;
  }

  // ---------------------------------------------------------------- whole formats

  /** One conversion of a format, read and put out. */
  lemma {:induction false} OutputStep(fmt: seq<char>, args: seq<Arg>, r: Reading, t: (seq<char>, seq<Arg>))
    requires fmt != [] && fmt[0] == '%' && ReadSpec(fmt[1..], args) == Some(r) && r.fmt != []
    requires Convert(r.fmt[0], r.spec, r.args) == Some(t)
    ensures |r.fmt| < |fmt|
    ensures Output(r.fmt[1..], t.1).Some? ==> Output(fmt, args) == Some(t.0 + Output(r.fmt[1..], t.1).value)
  {
    ReadSpecShrinks(fmt[1..], args);
  }

  lemma {:induction false} LiteralStep(c: char, fmt: seq<char>, args: seq<Arg>, out: seq<char>)
    requires c != '%' && Output(fmt, args) == Some(out)
    ensures Output([c] + fmt, args) == Some([c] + out)
  {
    assert ([c] + fmt)[1..] == fmt;
  }

  lemma {:induction false} SplitFirst(t: seq<char>, u: seq<char>)
    requires t != []
    ensures t + u == [t[0]] + (t[1..] + u)
  {
  }

  /** Characters other than the percent sign are put out as they are. */
  lemma {:induction false} LiteralOutput(t: seq<char>, fmt: seq<char>, args: seq<Arg>, out: seq<char>)
    requires (forall k :: 0 <= k < |t| ==> t[k] != '%') && Output(fmt, args) == Some(out)
    ensures Output(t + fmt, args) == Some(t + out)
    decreases |t|
  {
    if t == [] {
      assert t + fmt == fmt && t + out == out;
    } else {
      LiteralOutput(t[1..], fmt, args, out);
      SplitFirst(t, fmt);
      SplitFirst(t, out);
      LiteralStep(t[0], t[1..] + fmt, args, t[1..] + out);
    }
  }

  /** What a letter makes of its argument. */
  function TextOf(c: char, spec: Spec, arg: Arg): seq<char>
    requires if c == 's' then arg.StrArg? else (IsInteger(c) || c == 'c') && arg.IntArg?
  {
    if IsInteger(c) then IntegerOutput(c, spec, arg.i)
    else if c == 'c' then Justified([(arg.i % 256) as char], 1, spec)
    else Justified(StringText(arg.s, spec), |StringText(arg.s, spec)|, spec)
  }

  lemma {:induction false} ConvertOne(c: char, spec: Spec, arg: Arg, args: seq<Arg>)
    requires if c == 's' then arg.StrArg? && |arg.s| < UINT_SIZE else (IsInteger(c) || c == 'c') && arg.IntArg?
    ensures Convert(c, spec, [arg] + args) == Some((TextOf(c, spec, arg), args))
  {
    assert ([arg] + args)[1..] == args;
  }

  /** A conversion puts out its argument, and what follows uses the next one. */
  lemma {:induction false} ConversionOutput(spec: Spec, c: char, fmt: seq<char>, arg: Arg, args: seq<Arg>)
    requires spec.width < UINT_SIZE && spec.prec < UINT_SIZE && (spec.f.precision || spec.prec == 0) && !spec.f.upper
    requires Output(fmt, args).Some?
    requires if c == 's' then arg.StrArg? && |arg.s| < UINT_SIZE else (IsInteger(c) || c == 'c') && arg.IntArg?
    ensures Output(['%'] + (Written(spec) + ([c] + fmt)), [arg] + args) ==
      Some(TextOf(c, spec, arg) + Output(fmt, args).value)
  {
    var tail, all := Written(spec) + ([c] + fmt), [arg] + args;
    SpecRead(spec, c, fmt, all);
    ConvertOne(c, spec, arg, args);
    assert (['%'] + tail)[1..] == tail && ([c] + fmt)[1..] == fmt;
    OutputStep(['%'] + tail, all, Reading(spec, [c] + fmt, all), (TextOf(c, spec, arg), args));
  }

  /** Two percent signs put out one. */
  lemma {:induction false} PercentOutput(fmt: seq<char>, args: seq<Arg>)
    requires Output(fmt, args).Some?
    ensures Output(['%', '%'] + fmt, args) == Some(['%'] + Output(fmt, args).value)
  {
    var none := Spec(NO_FLAGS, 0, 0, Plain);
    var tail := ['%'] + fmt;
    assert Written(none) == [] && [] + tail == tail;
    SpecRead(none, '%', fmt, args);
    assert (['%', '%'] + fmt)[1..] == tail && tail[1..] == fmt;
    OutputStep(['%', '%'] + fmt, args, Reading(none, tail, args), (['%'], args));
  }
}
